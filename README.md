# NexiChat bot core, modelled in Dafny

This project models the core logic of the NexiChat Telegram chat bot. It covers five areas:

- **The reply engine** (`nexichat/mplugin/zchatbot.py`):
  - the abuse blocklist;
  - the learned corpus of `{word, text, media_type}` records;
  - the media probe that turns a reply into a record;
  - the rule that picks an answer;
  - the decision sequence of the message handler.
- **Chat-language detection** (`nexichat/mplugin/chat_lang.py`):
  - the per-chat message buffers, with their 30-message threshold, 5-text minimum and 300-second expiry;
  - the prompt sent to the detection service;
  - reading a two-letter code from its answer;
  - routing the `lang_<code>` buttons.
- **Process start-up state** (`nexichat/__main__.py`):
  - the uptime formatter `get_readable_time`;
  - the `CLONE_OWNERS` mirror of the clone-owner collection;
  - `load_sudoers`.
- **The sudo set** (`nexichat/mplugin/Sudoers.py`): the guarded add, remove and list commands, and the `@`-stripping of user input.
- **The owner's database commands** (`nexichat/modules/db.py`):
  - the numbered listing;
  - the three forms of `/deldb`;
  - the `/checkdb` test;
  - the transfer URL check;
  - backup and restore between two servers;
  - the 4096-character paste threshold.

Each source file is one Dafny module: `Chatbot`, `ChatLang`, `Boot`, `Sudoers` and `DbAdmin`. `Base` holds the Python string routines they rely on (`lower`, `in`, `split`, `join`, `strip`, `isdigit`, `int`, `str`), restricted to ASCII.

State the source mutates in place is a class:

- `ReplyEngine`: the caches and the stored corpus.
- `DetectionBuffers`: `message_cache`.
- `CloneOwners`: `CLONE_OWNERS` and its collection.
- `SudoUsers`: `SUDOERS`.

Each method's `ensures` states the whole new state. The loops of the source are `while`/`for` loops with invariants, proved against specification functions. These are `get_readable_time`, the media probe, the listing counter, the comma loop of `/deldb`, backup and restore, and the loaders.

External calls are parameters of the operation that makes them:

- **Database reads** of the reply engine are a `Read` value: what the awaited call returned, or that it raised. The read of `load_sudoers` comes with a `bool` saying whether it raised. Other reads are the value they return.
- **Database writes** of the reply engine's blocklist are a `Write` value: the write went through, it raised before writing, or it wrote and the await of its result raised. The other writes are a `bool`; false means the call raised.
- **The detection service and the translator** are functions.
- **The paste service** is a function.
- **`random.choice`** is a nondeterministic pick, specified only by membership.

Three behaviours of the code are easy to misread:

- **An empty corpus.** `get_response` reloads the cache and then calls `random.choice` on it. When the cache is still empty, `random.choice` raises and the handler logs the error. The "still learning" reply is never sent, and the model sends nothing (`Chatbot.ReplyEngine.HandleChat`).
- **Translation.** A translator that raises aborts the handler, so nothing is sent and nothing is learned. The translator is also called for media records, so its failure suppresses media replies too.
- **A failed detection.** The buffer is kept, so the next message retries detection (`ChatLang.DetectionBuffers.ProcessBatch`).

## Model

Source paths are relative to the repository root.

| member | source | states |
|---|---|---|
| Base.ContainsIff | nexichat/mplugin/zchatbot.py:57 | Python's `word in text` holds exactly when the word occurs at some position of the text |
| Base.LowerIdempotent | nexichat/mplugin/zchatbot.py:49-51 | lower-casing an already lower-cased word changes nothing, so `/block` stores the word it reports |
| Base.SplitJoin | nexichat/mplugin/chat_lang.py:54 | splitting a `"\n".join` of lines without newlines gives the lines back |
| Base.JoinSplit | nexichat/mplugin/chat_lang.py:41 | joining the pieces of `split("_")` with `"_"` gives the text back |
| Base.ParseNatToString | nexichat/__main__.py:133 | `str(n)` read back with `int` is n |
| Chatbot.AnyOccurs | nexichat/mplugin/zchatbot.py:57 | true exactly when some word of the list occurs in the lower-cased text |
| Chatbot.WithBlockedWord | nexichat/mplugin/zchatbot.py:47-51 | the cache after blocking holds the lower-cased word and every old word, nothing else, and stays duplicate-free |
| Chatbot.BlockTwiceIsOnce | nexichat/mplugin/zchatbot.py:47-51 | blocking the same word twice leaves the cache as blocking it once |
| Chatbot.FirstMedia | nexichat/mplugin/zchatbot.py:114-120 | the kind found is carried by the message and is the first such kind in the probe order; none found means the message carries no kind of the order |
| Chatbot.ClassifyReply | nexichat/mplugin/zchatbot.py:98-122 | the record's word is the original text; a media record holds the file id of the first media kind present in the order sticker, photo, video, audio, animation, voice; otherwise it is a text record with the reply's text |
| Chatbot.Matches | nexichat/mplugin/zchatbot.py:147 | a record is a match exactly when it is in the cache and its word is the text |
| Chatbot.ChooseReply | nexichat/mplugin/zchatbot.py:147-148 | no answer exactly when the cache is empty; otherwise a cache member, and an exact match whenever one exists |
| Chatbot.ChatLanguage | nexichat/mplugin/zchatbot.py:137-140 | a chat without a language document is answered in English, otherwise in the document's `language` field |
| Chatbot.StatsFor | nexichat/mplugin/zchatbot.py:163-168 | group stats exactly for group and supergroup chats, user stats otherwise, with the chat type given by its name (the intended test; see "## Left out") |
| Chatbot.ReplyEngine.constructor | nexichat/mplugin/zchatbot.py:25-31 | both caches start empty, with the shipped word list, the stored blocklist and the persisted corpus |
| Chatbot.ReplyEngine.IsAbusive | nexichat/mplugin/zchatbot.py:54-57 | abusive exactly when a word of the run-time cache or the shipped list occurs in the lower-cased text |
| Chatbot.DeleteWord | nexichat/mplugin/zchatbot.py:77 | `delete_one` removes one document holding the word when there is one, and changes nothing otherwise |
| Chatbot.ReplyEngine.LoadAbuseCache | nexichat/mplugin/zchatbot.py:41-45 | the cache becomes the words of the blocklist collection when the scan works, and is left as it was when iterating the scan raises; the collection and the corpus are untouched |
| Chatbot.ReplyEngine.AddAbuseWord | nexichat/mplugin/zchatbot.py:47-51 | a word already cached changes nothing; otherwise the collection gains the lower-cased word whenever the insert wrote it, and the cache gains it only when the await returned; afterwards every text containing the word is abusive |
| Chatbot.ReplyEngine.BlockWord | nexichat/mplugin/zchatbot.py:59-67 | no argument gives a usage reply and no change; otherwise the lower-cased argument is blocked, so every text containing it is abusive, unless the insert raised; a word that was written but not cached is in the collection only |
| Chatbot.ReplyEngine.BlockWordAsWritten | nexichat/mplugin/zchatbot.py:59-67 | with the synchronous client the insert writes and its await raises: no argument gives a usage reply; a cached word is reported blocked with nothing changed; a new word is stored in the collection and the command aborts; the cache, the corpus and what counts as abusive never change |
| Chatbot.ReplyEngine.UnblockWord | nexichat/mplugin/zchatbot.py:69-81 | a word not in the cache gives "not found" and no change; a cached word leaves the collection whenever the delete ran, and leaves the cache only when the await returned; a duplicate-free cache then no longer holds it |
| Chatbot.ReplyEngine.SaveReply | nexichat/mplugin/zchatbot.py:92-129 | nothing is stored when either text is abusive or the record is already stored; otherwise the record is appended to the corpus and the cache exactly when the insert succeeds; a duplicate-free corpus stays duplicate-free |
| Chatbot.ReplyEngine.LoadRepliesCache | nexichat/mplugin/zchatbot.py:131-135 | the cache becomes the stored corpus |
| Chatbot.ReplyEngine.GetResponse | nexichat/mplugin/zchatbot.py:142-148 | an empty cache is reloaded first; the answer is absent exactly when the cache is still empty, and otherwise a persisted cache member that matches the text whenever some member does |
| Chatbot.ReplyEngine.HandleChat | nexichat/mplugin/zchatbot.py:150-193 | a status read that raises, or a disabled chat, gives no stats, no reply, no learning and no change; a chosen record is a persisted one; given a chosen record, nothing is sent exactly when the language read or the translator raises; a media record is sent as its kind with its file id; a text record is sent as the translation, or as the stored text when the translation is empty; learning happens only after a send and only for replies to the bot's own message |
| Chatbot.ReplyEngine.HandleChatAsWritten | nexichat/mplugin/zchatbot.py:150-160 | with the synchronous client, awaiting the status read raises, so every message ends with no stats, no reply, no learning and no change |
| ChatLang.NonEmptyTexts | nexichat/mplugin/chat_lang.py:79 | every text is a present non-empty text of the buffer, and every such text is among them |
| ChatLang.TextPositionsSound | nexichat/mplugin/chat_lang.py:79 | the positions listed hold a non-empty text and increase strictly |
| ChatLang.TextPositionsComplete | nexichat/mplugin/chat_lang.py:79 | every position holding a non-empty text is listed |
| ChatLang.NonEmptyTextsInOrder | nexichat/mplugin/chat_lang.py:79-80 | the texts are the messages at those positions, one each and in buffer order, so their number is the number of messages with a text that the five-text minimum counts |
| ChatLang.NonEmptyTextsBound | nexichat/mplugin/chat_lang.py:79 | there are never more texts than buffered messages |
| ChatLang.Bullets | nexichat/mplugin/chat_lang.py:54 | each message becomes its own line, prefixed "- " |
| ChatLang.HistoryLines | nexichat/mplugin/chat_lang.py:54 | the history splits back into the bulleted messages when no message spans lines |
| ChatLang.Prompt | nexichat/mplugin/chat_lang.py:55-59 | the prompt starts with the fixed instruction and ends with the fixed answer format, with the history between them |
| ChatLang.PromptLines | nexichat/mplugin/chat_lang.py:54-59 | between its fixed head and tail the prompt holds one bulleted line per message, in order, when no message spans lines |
| ChatLang.FirstLetterPair | nexichat/mplugin/chat_lang.py:68 | the code is two lowercase letters: the first pair of adjacent ASCII letters, lower-cased; none when there is no such pair |
| ChatLang.PairShift | nexichat/mplugin/chat_lang.py:68 | a letter pair at position i >= 1 is a pair at position i - 1 once the first character is dropped |
| ChatLang.PairIgnoresSpacePrefix | nexichat/mplugin/chat_lang.py:68 | leading whitespace does not change the code found |
| ChatLang.PairIgnoresTrailingNonLetter | nexichat/mplugin/chat_lang.py:68 | a trailing non-letter does not change the code found |
| ChatLang.PairIgnoresSpaceSuffix | nexichat/mplugin/chat_lang.py:68 | trailing whitespace does not change the code found |
| ChatLang.PairIgnoresStrip | nexichat/mplugin/chat_lang.py:68 | searching the stripped answer finds the same code as searching the raw one |
| ChatLang.DetectLanguage | nexichat/mplugin/chat_lang.py:51-72 | a failed request gives no code; otherwise the first letter pair of the answer, always two lowercase letters |
| ChatLang.BatchCode | nexichat/mplugin/chat_lang.py:79-83 | fewer than five non-empty texts give no code; any code is two lowercase letters |
| ChatLang.LangField | nexichat/mplugin/chat_lang.py:41 | the field is the text between the first and the second underscore, and holds no underscore |
| ChatLang.Route | nexichat/mplugin/chat_lang.py:25-49 | the menu opens exactly for `choose_lang`, with or without a final line break; data matching `^lang_(.*)$` (no line break after `lang_` except as the last character) cancels or sets a language; any other data reaches no handler; a language set is never "cancel" and holds no underscore |
| ChatLang.RouteLang | nexichat/mplugin/chat_lang.py:38-49 | `lang_<x>` with no line break in x before its last character cancels when the field is "cancel" and otherwise sets the field, which is x itself when x has no underscore; a line break earlier in x leaves the callback unhandled |
| ChatLang.NewlineRoutes | nexichat/mplugin/chat_lang.py:25-41 | `choose_lang\n` opens the menu, `lang_a\nb` reaches no handler, and `lang_en\n` sets the field `en\n` |
| ChatLang.AnnouncementRoutes | nexichat/mplugin/chat_lang.py:88-91 | the announcement's first button sets exactly the detected code and the second opens the manual menu |
| ChatLang.ManualMenuRoutes | nexichat/mplugin/chat_lang.py:25-36 | the manual menu sets English, sets Hindi, or cancels |
| ChatLang.DetectionBuffers.constructor | nexichat/mplugin/chat_lang.py:14 | no chat has a buffer |
| ChatLang.DetectionBuffers.ProcessBatch | nexichat/mplugin/chat_lang.py:74-99 | no buffer, fewer than five texts, or a failed detection give no code and keep the buffers; a code removes exactly that chat's buffer |
| ChatLang.DetectionBuffers.StoreMessage | nexichat/mplugin/chat_lang.py:101-125 | a chat with a set language is not buffered; otherwise the message is appended to its buffer, which is created empty first; at 30 messages the batch is processed and a code is announced with its buttons and removes the buffer |
| ChatLang.DetectionBuffers.Expire | nexichat/mplugin/chat_lang.py:115-118 | the expiry removes exactly that chat's buffer |
| Boot.AllParts | nexichat/__main__.py:121-131 | the four divmod values come in the order day, hour, minute, second |
| Boot.NonZero | nexichat/__main__.py:130 | the kept parts are exactly the non-zero ones |
| Boot.PartTexts | nexichat/__main__.py:132-133 | one text per part, in order |
| Boot.PartTextsAppend | nexichat/__main__.py:133 | appending a part appends its text |
| Boot.StepFacts | nexichat/__main__.py:129-133 | a unit is emitted exactly when the rest is at least one of it, with the divmod's value and remainder |
| Boot.GetReadableTime | nexichat/__main__.py:119-135 | the string is the rendering of the breakdown of the input: its non-zero parts joined by ", ", or "0 seconds" |
| Boot.TotalNonZero | nexichat/__main__.py:130 | dropping zero parts does not change the total |
| Boot.BreakdownTotal | nexichat/__main__.py:121-133 | for a non-negative input, the values times their unit lengths sum to the input |
| Boot.BreakdownShape | nexichat/__main__.py:129-133 | the emitted parts are non-zero, strictly in the order day, hour, minute, second, with hours below 24 and minutes and seconds below 60 |
| Boot.AllPartsBounds | nexichat/__main__.py:131 | after the divmods, hours are below 24 and minutes and seconds below 60 |
| Boot.NonZeroPrefixRanks | nexichat/__main__.py:129-130 | the parts kept from the first k units come in increasing unit order |
| Boot.BreakdownEmptyIff | nexichat/__main__.py:135 | the breakdown is empty exactly for inputs below 1, which read "0 seconds" |
| Boot.PluralIff | nexichat/__main__.py:132-133 | a part's text ends in "s" exactly when its value is above one |
| Boot.LoadedLastWins | nexichat/__main__.py:93-94 | with complete documents, a bot maps to the user of its last document |
| Boot.LoadedKeeps | nexichat/__main__.py:93-94 | a bot that no document names keeps its entry |
| Boot.CloneOwners.constructor | nexichat/__main__.py:33 | the mirror starts empty |
| Boot.CloneOwners.Load | nexichat/__main__.py:89-97 | the mirror becomes the fold of the scan, in which later documents overwrite earlier ones and a document without a user id ends the load; the collection is unchanged |
| Boot.CloneOwners.Save | nexichat/__main__.py:99-109 | the mirror and the collection map the bot to the user only when the upsert succeeds, and are unchanged otherwise |
| Boot.CloneOwners.Delete | nexichat/__main__.py:111-117 | a successful delete removes the bot from both; a bot that is not mirrored leaves the mirror unchanged, so deleting is idempotent |
| Sudoers.LookupKey | nexichat/mplugin/Sudoers.py:20-26 | an empty input has no key; otherwise the key is the input with every '@' removed, holding exactly its other characters |
| Sudoers.RemoveCharIdempotent | nexichat/mplugin/Sudoers.py:25-26 | removing '@' twice is removing it once |
| Sudoers.RemoveCharNone | nexichat/mplugin/Sudoers.py:25-26 | removing a character a text lacks leaves the text as it is |
| Sudoers.RemoveCharConcat | nexichat/mplugin/Sudoers.py:25-26 | removing '@' from a joined text joins the removals, so the other characters keep their order |
| Sudoers.LookupKeyJoinsAround | nexichat/mplugin/Sudoers.py:25-26 | the key of "a@b" is "ab": the characters on both sides of an '@' are kept, in order |
| Sudoers.LookupKeyIgnoresAt | nexichat/mplugin/Sudoers.py:25-26 | "@name" and "name" are looked up under the same key |
| Sudoers.ValidateUser | nexichat/mplugin/Sudoers.py:18-31 | an empty input gives no id; a non-empty input gives the lookup's answer for the input without '@' |
| Sudoers.ResolveTarget | nexichat/mplugin/Sudoers.py:39-48 | a reply takes precedence: one without an author raises (`AuthorMissing`) whatever the arguments, one from a user gives that user; without a reply the first argument is looked up, and a missing argument gives a usage reply; an id of 0 counts as no user |
| Sudoers.SudoUsers.constructor | nexichat/__main__.py:32 | the sudo set starts empty |
| Sudoers.SudoUsers.Load | nexichat/__main__.py:77-87 | a successful load adds the owner and every stored id; a failed read changes nothing |
| Sudoers.SudoUsers.Add | nexichat/mplugin/Sudoers.py:33-57 | without a database URL, without a target, on a reply without an author (the handler aborts), or for a present id, nothing changes; otherwise the id is added exactly when the persistence call succeeds |
| Sudoers.SudoUsers.Remove | nexichat/mplugin/Sudoers.py:59-83 | without a database URL, without a target, on a reply without an author (the handler aborts), or for an absent id, nothing changes; otherwise the id is removed exactly when the persistence call succeeds |
| Sudoers.SudoUsers.List | nexichat/mplugin/Sudoers.py:85-92 | an empty set lists nothing; otherwise the owner is shown apart and the others are exactly the members other than the owner |
| Sudoers.SudoSectionIff | nexichat/mplugin/Sudoers.py:85-99 | the listing of the sudo set shows the "Sudo Users" section exactly when some member other than the owner exists |
| DbAdmin.Block | nexichat/modules/db.py:81-86 | a database entry followed by one entry per collection, in order |
| DbAdmin.Listing | nexichat/modules/db.py:76-87 | entries are numbered 1, 2, 3, … in listing order |
| DbAdmin.ListDatabasesAndCollections | nexichat/modules/db.py:76-87 | the counter loop builds the listing: numbered from 1 without gaps, and with no `admin` or `local` entry |
| DbAdmin.ShapedAppend | nexichat/modules/db.py:80-86 | appending a user database's block keeps the listing well shaped |
| DbAdmin.FlatShape | nexichat/modules/db.py:76-87 | no system database is listed, the first entry is a database, and each collection entry follows an entry of its own database |
| DbAdmin.FlatComplete | nexichat/modules/db.py:79-86 | every user database and each of its collections is listed |
| DbAdmin.DropDatabase | nexichat/modules/db.py:72-73 | the database is gone and every other database is unchanged |
| DbAdmin.DropCollection | nexichat/modules/db.py:67-69 | only that collection of that database is gone |
| DbAdmin.DropUntouched | nexichat/modules/db.py:67-73 | dropping a database or a collection of it leaves every other database as it was |
| DbAdmin.TokenIndex | nexichat/modules/db.py:114-117 | a token whose stripped text is not all digits names nothing; a digit token names the number it spells when that number is from 1 to the listing's length, and nothing otherwise |
| DbAdmin.TokenIndexOfNumeral | nexichat/modules/db.py:114-117 | the token `str(k)` names entry k of a listing of at least k entries |
| DbAdmin.InvalidTokensConcat | nexichat/modules/db.py:113-133 | the report for two token lists is the concatenation of their reports |
| DbAdmin.InvalidTokensSnoc | nexichat/modules/db.py:113-133 | one more token adds its stripped text to the report only when it names no entry |
| DbAdmin.InvalidTokensIff | nexichat/modules/db.py:113-133 | a text is reported exactly when it is the stripped form of a token that names no entry |
| DbAdmin.CommaDropsKeepSystem | nexichat/modules/db.py:110-133 | the comma form never changes `admin` or `local` |
| DbAdmin.CommaStep | nexichat/modules/db.py:113-133 | one token of the loop drops what it names and reports itself only when it names nothing |
| DbAdmin.DeleteByNumbers | nexichat/modules/db.py:110-136 | every token naming an entry of the snapshot drops that entry, in order; the report holds exactly the tokens that name none |
| DbAdmin.DeleteByNumbersAsWritten | nexichat/modules/db.py:110-133 | the loop as written drops the same entries but reports every token, deleted ones included |
| DbAdmin.StripAllSnoc | nexichat/modules/db.py:114 | stripping one more token appends its stripped text |
| DbAdmin.StripAllStep | nexichat/modules/db.py:114 | the same step, stated for a loop index |
| DbAdmin.StripPlain | nexichat/modules/db.py:114 | a text without surrounding whitespace strips to itself |
| DbAdmin.StripAllAt | nexichat/modules/db.py:114 | one stripped text per token, at the token's own position |
| DbAdmin.AsWrittenReportCoversInvalid | nexichat/modules/db.py:110-133 | every token the corrected loop reports is also reported by the loop as written |
| DbAdmin.DeletedTokenReportedAsFailed | nexichat/modules/db.py:119-129 | for "1,x", entry 1 is deleted yet "1" is reported by the loop as written; the corrected report is just "x" |
| DbAdmin.DeleteDb | nexichat/modules/db.py:90-176 | no argument lists the entries; a comma argument drops each valid numbered entry and, as written, reports every token, deleted ones included; a single number drops that entry or replies "invalid number"; a name drops the listed database, or its collection when a second word names one, and an unknown name changes nothing; `admin` and `local` are never touched |
| DbAdmin.DeleteByNumber | nexichat/modules/db.py:139-150 | a number from 1 to the listing's length drops that entry; any other number changes nothing and replies "invalid number" |
| DbAdmin.DeleteByName | nexichat/modules/db.py:153-171 | an unlisted name changes nothing; a listed name drops the database, or its collection when a second word is given |
| DbAdmin.CheckDbAsWrittenMisses | nexichat/modules/db.py:190 | a server whose listing holds two user databases and no system database is reported as having none |
| DbAdmin.CheckDb | nexichat/modules/db.py:190-193 | no user databases is reported exactly when every listed name is a system database |
| DbAdmin.CheckDbAgreesWhenSystemDbsListed | nexichat/modules/db.py:188-190 | the written test agrees with the intended one whenever both system databases are listed once |
| DbAdmin.Deliver | nexichat/modules/db.py:201-207 | a text of at most 4096 characters goes inline unchanged; a longer one goes as the paste service's link |
| DbAdmin.MatchesMongoUrl | nexichat/modules/db.py:220 | an accepted text starts with `mongodb` and is longer than ten characters; a text starting with `mongodb://` is accepted exactly when a non-whitespace character follows the scheme |
| DbAdmin.MongoUrlIff | nexichat/modules/db.py:220 | a URL is accepted exactly when it starts with `mongodb://` or `mongodb+srv://` and a non-whitespace character follows |
| DbAdmin.StartsWithConcat | nexichat/modules/db.py:220 | a text starts with a+b exactly when it starts with a and the rest starts with b |
| DbAdmin.MongoUrlPrefix | nexichat/modules/db.py:252 | `re.match` checks only a prefix, so anything may follow an accepted URL |
| DbAdmin.InsertMany | nexichat/modules/db.py:238-240 | `insert_many` creates the database and collection if needed and appends the documents |
| DbAdmin.GetRestored | nexichat/modules/db.py:234-240 | each database of the restored target is its old collections merged with the backed-up ones |
| DbAdmin.InRestored | nexichat/modules/db.py:234-240 | a database exists after the restore exactly when it existed before or the backup holds documents for it |
| DbAdmin.RestoreNothing | nexichat/modules/db.py:234-240 | restoring an empty backup leaves the target as it was |
| DbAdmin.RestoreStart | nexichat/modules/db.py:235-236 | starting a database of the backup changes nothing yet |
| DbAdmin.RestoreColumn | nexichat/modules/db.py:237-240 | one more collection is one `insert_many` when it holds documents, and nothing otherwise |
| DbAdmin.Restore | nexichat/modules/db.py:234-240 | the loop appends every non-empty backed-up collection to the target |
| DbAdmin.RestoreIntoEmpty | nexichat/modules/db.py:234-240 | restoring into an empty server gives exactly the backup's non-empty collections, with their documents, and no empty database |
| DbAdmin.RestoreIntoEmptyAt | nexichat/modules/db.py:234-240 | the same, for one database |
| DbAdmin.MergeColsEmpty | nexichat/modules/db.py:237-240 | merging into an empty database keeps exactly the non-empty collections |
| DbAdmin.Backup | nexichat/modules/db.py:223-231 | the backup is the whole server: every database, system ones included, and every collection |
| DbAdmin.TransferDb | nexichat/modules/db.py:243-271 | no argument gives a usage reply and an invalid URL an error, both with the target untouched; a valid URL restores the whole old server into the target |

## Left out

- **Telegram I/O.** Sending messages, editing or deleting them, keyboards and callback answers are left out. The model keeps only which reply is chosen, not its wording, emoji or the user-info lookups in the sudo listing.
- **The stats calls.** The `add_served_*` calls become the `Stats` value that `HandleChat` reports.
- **Outside services.** The paste service, the detection service, the translator and the Telegram user lookup are function parameters. Their HTTP requests, time-outs and the JSON decoding of the paste reply are not modelled.
- **Randomness.** `random.choice` is a nondeterministic pick, specified only by membership.
- **Concurrency and timers.** `asyncio.gather`, `create_task`, `call_later` and signal handling are left out. The 300-second expiry is the explicit `Expire` event, not a clock.
- **Unicode.** Only ASCII is modelled. `lower`, `isdigit`, `isspace` (`strip`, `\s`) and the letter class of the detection regex are their ASCII cases.
- **`list_blocked_words` and `chat_lang_handler`.** They only format a reply from state that is already modelled.
- **`mongo_check_command` and `download_data_command`.** These connect to a URL the user supplies and format or dump its contents. The only rule they share with the model is the 4096-character paste threshold, which is `DbAdmin.Deliver`.
- **Exceptions in the database commands.**
  - Connection and list failures that reach the outer `except` of `/deldb`, `/checkdb` and the transfer are left out.
  - The transfer's `except` branch also reports success.
  - `nexichat/modules/db.py` imports `MONG_URL`, which `config.py` does not define, so importing the module fails as written. The model takes the intended `MONGO_URL` server as a parameter.
- ChatLang: `nexichat/mplugin/chat_lang.py` does not load as written. It imports `LANG_DETECTION_API`, which `config.py` does not define. Its message handler's filter applies `~` to `filters.command`, a filter factory rather than a filter, which raises `TypeError`. So none of its handlers is registered. `ChatLang` models the intended handlers, and the detection endpoint is the detector parameter.
- Chatbot: `nexichat/mplugin/zchatbot.py` does not load as written. It imports `pyrogram.enums`, which only pyrogram 2 has, and so does `nexichat/__main__.py`. But its message filter uses `~filters.edited` (line 150), which pyrogram 2 removed. Importing the module raises `AttributeError`, so `handle_chat` is never registered and the `create_task(initialize_caches())` at line 196 never runs. `Chatbot` models the intended handlers.
- StatsFor: under pyrogram 2, `message.chat.type` is a `ChatType` enum member, so the test `in ["group", "supergroup"]` at line 163 is always false and every chat would get user stats. `StatsFor`, and the stats in `HandleChat`, take the chat type as its name and state the intended string test.
- Deliver: `post` opens an `aiohttp` session, but `nexichat/modules/db.py` never imports `aiohttp`. As written, every paste attempt raises `NameError` into the command's outer `except`, which answers "Failed to check databases". The model's paste parameter stands for the intended call.
- **Two `SUDOERS` sets.** `load_sudoers` fills the `SUDOERS` defined in `nexichat/__main__.py`, while `nexichat/mplugin/Sudoers.py` imports `SUDOERS` from the `nexichat` package, which is not part of this model. `Sudoers.SudoUsers` assumes they are one set.
- **Database reads.** A read may raise in the model only in the reply engine (the blocklist scan, the status and the language reads) and in `load_sudoers`. The other reads are taken to succeed.
- **Listing order.** The order in which the server lists databases and collections is an input, the `Catalog`.
- **Empty databases.** Dropping a database's last collection leaves an empty database in the model. MongoDB would no longer list it.
- **Insert errors.**
  - A failing `insert_many` during a restore is left out.
  - In the sudo commands, an `add_sudo` or `remove_sudo` that raises is modelled like one that returns false. The set is unchanged in both cases; only the reply differs.
- **Send errors.** `MessageEmpty` and other send errors are not modelled; sending is taken to succeed.

## Findings

| source | as written | input that shows it | evidently intended | confidence | as-written member | corrected member |
|---|---|---|---|---|---|---|
| nexichat/modules/db.py:110-133 | After a successful deletion, the comma form calls `ok.delete()`. `ok` is unbound in this branch, so the call raises, and the `except` reports the deleted token as failed. | `/deldb 1,x` on a server listing at least one entry: entry 1 is deleted and "1" is reported as failed next to "x". | Only tokens that name no entry are reported. | not executed | DbAdmin.DeleteByNumbersAsWritten, DbAdmin.DeletedTokenReportedAsFailed | DbAdmin.DeleteByNumbers, DbAdmin.InvalidTokensIff |
| nexichat/modules/db.py:190 | `/checkdb` lists databases only when the server reports more than two names, which assumes `admin` and `local` are among them. | A server that reports two user databases and neither system database, such as `["chatbot", "replies"]`, is answered "No user databases found". | Answer "none" exactly when every reported name is a system database. | not executed | DbAdmin.CheckDbAsWritten, DbAdmin.CheckDbAsWrittenMisses | DbAdmin.CheckDb, DbAdmin.CheckDbAgreesWhenSystemDbsListed |
| nexichat/mplugin/zchatbot.py:21-27 | The blocklist, status and language collections come from the synchronous `pymongo.MongoClient`, yet their calls are awaited (lines 44, 50, 77, 139, 158). Awaiting a synchronous result raises. | Any text message: the status read at line 158 raises, so the handler never counts, answers or learns. `/block spam`: the word is inserted, then the await raises, so the cache never holds it. | The collections come from the asynchronous client used for the corpus, so every awaited call returns its result. | not executed | Chatbot.ReplyEngine.HandleChatAsWritten, Chatbot.ReplyEngine.BlockWordAsWritten | Chatbot.ReplyEngine.HandleChat, Chatbot.ReplyEngine.BlockWord |
