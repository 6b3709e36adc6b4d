/** The reply learning and selection engine (nexichat/mplugin/zchatbot.py):
    the blocklist, the learned corpus, the classification of a reply into a
    stored record, the selection rule and the per-message decision sequence.
    Database and network calls are oracle arguments: a `Read` is what an
    awaited read returned or that it raised, a `Write` how an awaited write
    ended, a `bool` whether a write of the asynchronous corpus collection went
    through. */
module Chatbot {
  import opened Base

  datatype MediaKind = Text | Sticker | Photo | Video | Audio | Animation | Voice

  /** The order in which a reply is probed for media. */
  const MediaOrder: seq<MediaKind> := [Sticker, Photo, Video, Audio, Animation, Voice]

  /** A chat message: its text, and the file id of each kind of media it carries. */
  datatype Message = Message(text: Option<string>, media: map<MediaKind, string>)

  /** A learned record `{word, text, media_type}`: the trigger, the stored
      answer (a text or a media file id) and the answer's kind. */
  datatype Reply = Reply(word: Option<string>, text: Option<string>, kind: MediaKind)

  /** `message.text or ""` */
  function TextOrEmpty(m: Message): string
  {
    if m.text.Some? then m.text.value else ""
  }

  /** Python truthiness of an optional string. */
  predicate Truthy(s: Option<string>)
  {
    s.Some? && s.value != ""
  }

  // ---------------------------------------------------------------------------
  // Blocklist

  /** `any(word in text.lower() for word in words)` */
  function AnyOccurs(words: seq<string>, text: string): (r: bool)
    ensures r <==> exists w :: w in words && Contains(Lower(text), w)
  {
    if words == [] then false
    else
      assert words[0] in words;
      assert forall w :: w in words <==> w == words[0] || w in words[1..];
      Contains(Lower(text), words[0]) || AnyOccurs(words[1..], text)
  }

  /** The cache after a word is blocked: its lower-cased form, appended once. */
  function WithBlockedWord(cache: seq<string>, word: string): (r: seq<string>)
    ensures Lower(word) in r
    ensures forall w :: w in cache ==> w in r
    ensures forall w :: w in r ==> w in cache || w == Lower(word)
    ensures NoDup(cache) ==> NoDup(r)
  {
    if Lower(word) in cache then cache else cache + [Lower(word)]
  }

  /** Blocking the same word twice leaves the cache as blocking it once. */
  lemma BlockTwiceIsOnce(cache: seq<string>, word: string)
    ensures WithBlockedWord(WithBlockedWord(cache, word), word) == WithBlockedWord(cache, word)
  {
  }

  // ---------------------------------------------------------------------------
  // Classification of a reply into a stored record

  /** The first kind of `kinds` that the message carries. */
  function FirstMedia(kinds: seq<MediaKind>, m: Message): (r: Option<MediaKind>)
    ensures r.Some? ==> r.value in m.media
    ensures r.Some? ==> exists i :: 0 <= i < |kinds| && kinds[i] == r.value &&
                                    forall j :: 0 <= j < i ==> kinds[j] !in m.media
    ensures r.None? ==> forall i :: 0 <= i < |kinds| ==> kinds[i] !in m.media
  {
    if kinds == [] then None
    else if kinds[0] in m.media then Some(kinds[0])
    else
      var r := FirstMedia(kinds[1..], m);
      if r.Some? then
        var i :| 0 <= i < |kinds[1..]| && kinds[1..][i] == r.value &&
                 forall j :: 0 <= j < i ==> kinds[1..][j] !in m.media;
        assert kinds[i + 1] == r.value;
        r
      else r
  }

  /** The record learned when `reply` answers `original`. */
  function ReplyRecord(original: Message, reply: Message): Reply
  {
    match FirstMedia(MediaOrder, reply)
    case Some(k) => Reply(original.text, Some(reply.media[k]), k)
    case None => Reply(original.text, reply.text, Text)
  }

  /** The `for ... else` probe of save_reply. */
  method ClassifyReply(original: Message, reply: Message) returns (data: Reply)
    ensures data == ReplyRecord(original, reply)
    ensures data.word == original.text
    ensures data.kind != Text ==>
              data.kind in reply.media && data.text == Some(reply.media[data.kind]) &&
              exists i :: 0 <= i < |MediaOrder| && MediaOrder[i] == data.kind &&
                          forall j :: 0 <= j < i ==> MediaOrder[j] !in reply.media
    ensures data.kind == Text ==>
              data.text == reply.text && forall k :: k in MediaOrder ==> k !in reply.media
  {
    var i := 0;
    while i < |MediaOrder|
      invariant 0 <= i <= |MediaOrder|
      invariant FirstMedia(MediaOrder, reply) == FirstMedia(MediaOrder[i..], reply)
    {
      var kind := MediaOrder[i];
      if kind in reply.media {
        return Reply(original.text, Some(reply.media[kind]), kind);
      }
      assert MediaOrder[i..][1..] == MediaOrder[i + 1..];
      i := i + 1;
    }
    return Reply(original.text, reply.text, Text);
  }

  // ---------------------------------------------------------------------------
  // Selection

  /** `[r for r in cache if r["word"] == text]` */
  function Matches(cache: seq<Reply>, text: string): (m: seq<Reply>)
    ensures forall r :: r in m <==> r in cache && r.word == Some(text)
    ensures |m| <= |cache|
  {
    if cache == [] then []
    else (if cache[0].word == Some(text) then [cache[0]] else []) + Matches(cache[1..], text)
  }

  /** A record is an admissible answer to `text` from `pool`: it is in the
      pool, and it is an exact trigger match whenever one exists. */
  ghost predicate Admissible(pool: seq<Reply>, text: string, r: Reply)
  {
    r in pool && ((exists x :: x in pool && x.word == Some(text)) ==> r.word == Some(text))
  }

  /** `random.choice(matches or cache)`; None when the cache is empty, where
      `random.choice` raises. */
  method ChooseReply(cache: seq<Reply>, text: string) returns (r: Option<Reply>)
    ensures r.None? <==> cache == []
    ensures r.Some? ==> r.value in cache
    ensures r.Some? && (exists x :: x in cache && x.word == Some(text)) ==> r.value.word == Some(text)
  {
    var matches := Matches(cache, text);
    var pool := if matches != [] then matches else cache;
    if pool == [] {
      return None;
    }
    assert pool[0] in pool;
    var pick :| pick in pool;
    return Some(pick);
  }

  /** get_chat_language: a chat without a preference document is answered in
      English; otherwise the document's `language` field, which may be absent. */
  function ChatLanguage(doc: Option<Option<string>>): (lang: Option<string>)
    ensures doc.None? ==> lang == Some("en")
    ensures doc.Some? ==> lang == doc.value
  {
    if doc.Some? then doc.value else Some("en")
  }

  // ---------------------------------------------------------------------------
  // The per-message decision sequence

  /** An inbound text message: the chat type by name ("private", "group",
      ...), the message, the message it answers (if any) and whether that one
      was sent by this bot. */
  datatype Inbound = Inbound(chatType: string, message: Message, replyTo: Option<Message>, replyToSelf: bool)

  /** What the translator returned, or that it raised. */
  datatype Translation = Translated(value: Option<string>) | TranslateFailed

  datatype Sent = NothingSent | SentMedia(kind: MediaKind, fileId: Option<string>) | SentText(text: Option<string>)

  datatype Stats = NoStats | GroupStats | UserStats

  /** An awaited read: the value it returned, or that it raised. The blocklist,
      status and language collections come from a synchronous client, so
      awaiting one of their reads raises as the source is written. */
  datatype Read<T> = ReadOk(value: T) | ReadRaised

  /** An awaited write: it went through and the await returned (`Done`), it
      raised before writing (`Failed`), or it wrote and the await of its result
      raised (`WroteThenRaised`, what every write of a synchronous client does). */
  datatype Write = Done | Failed | WroteThenRaised

  /** `delete_one({"word": w})` on the blocklist collection: the first document
      holding the word goes, if there is one. */
  function DeleteWord(docs: seq<string>, w: string): (r: seq<string>)
    ensures w in docs ==> |r| == |docs| - 1 && multiset(r) == multiset(docs) - multiset{w}
    ensures w !in docs ==> r == docs
  {
    if w in docs then RemoveFirst(docs, w) else docs
  }

  /** What one call of the message handler did: which stats it recorded, the
      record it chose, what it sent and whether it went on to learn. */
  datatype ChatOutcome = ChatOutcome(stats: Stats, chosen: Option<Reply>, sent: Sent, learnCalled: bool)

  /** The stats recorded for a chat of the named type. */
  function StatsFor(chatType: string): (s: Stats)
    ensures s != NoStats
    ensures s == GroupStats <==> chatType in {"group", "supergroup"}
  {
    if chatType == "group" || chatType == "supergroup" then GroupStats else UserStats
  }

  class ReplyEngine {
    /** Words blocked at run time. */
    var abuseCache: seq<string>
    /** The words of the blocklist collection, in scan order. */
    var blocked: seq<string>
    /** The word list shipped with the database package. */
    const abuseList: seq<string>
    /** The in-memory copy of the learned corpus. */
    var repliesCache: seq<Reply>
    /** The persisted corpus, in scan order. */
    var stored: seq<Reply>

    /** Every cached record is persisted, so every answer is a learned record. */
    ghost predicate Valid()
      reads this
    {
      forall r :: r in repliesCache ==> r in stored
    }

    constructor (shippedWords: seq<string>, blocklist: seq<string>, persisted: seq<Reply>)
      ensures Valid()
      ensures abuseList == shippedWords && blocked == blocklist && stored == persisted
      ensures abuseCache == [] && repliesCache == []
    {
      abuseList := shippedWords;
      blocked := blocklist;
      stored := persisted;
      abuseCache := [];
      repliesCache := [];
    }

    /** is_abusive */
    function IsAbusive(text: string): (r: bool)
      reads this
      ensures r <==> exists w :: w in abuseCache + abuseList && Contains(Lower(text), w)
    {
      AnyOccurs(abuseCache + abuseList, text)
    }

    /** load_abuse_cache; `scanOk` is false when iterating the scan raises. */
    method LoadAbuseCache(scanOk: bool)
      requires Valid()
      modifies this
      ensures Valid()
      ensures abuseCache == if scanOk then blocked else old(abuseCache)
      ensures blocked == old(blocked)
      ensures repliesCache == old(repliesCache) && stored == old(stored)
    {
      if scanOk {
        abuseCache := blocked;
      }
    }

    /** add_abuse_word; `insert` is how the awaited insert into the blocklist
        collection ended. The cache learns the word only when the await returns. */
    method AddAbuseWord(word: string, insert: Write) returns (res: AddResult)
      requires Valid()
      modifies this
      ensures Valid()
      ensures res == (if Lower(word) in old(abuseCache) then AlreadyBlocked
                      else if insert == Done then Added else StoreFailed)
      ensures abuseCache == if res == StoreFailed then old(abuseCache)
                            else WithBlockedWord(old(abuseCache), word)
      ensures blocked == if res != AlreadyBlocked && insert != Failed then old(blocked) + [Lower(word)]
                         else old(blocked)
      ensures res != StoreFailed ==>
                forall t :: Contains(Lower(t), Lower(word)) ==> IsAbusive(t)
      ensures repliesCache == old(repliesCache) && stored == old(stored)
    {
      var w := Lower(word);
      if w in abuseCache {
        return AlreadyBlocked;
      }
      if insert == Failed {
        return StoreFailed;
      }
      blocked := blocked + [w];
      if insert == WroteThenRaised {
        return StoreFailed;
      }
      abuseCache := abuseCache + [w];
      return Added;
    }

    /** block_word; `args` is the command split into words, the command itself first. */
    method BlockWord(args: seq<string>, insert: Write) returns (res: BlockOutcome)
      requires Valid()
      modifies this
      ensures Valid()
      ensures |args| < 2 ==> res == BlockUsage && abuseCache == old(abuseCache) && blocked == old(blocked)
      ensures |args| >= 2 ==>
                var w := Lower(args[1]);
                && (res == Blocked(w) <==> w in old(abuseCache) || insert == Done)
                && (res != Blocked(w) ==> res == BlockAborted && abuseCache == old(abuseCache))
                && (res == Blocked(w) ==> abuseCache == WithBlockedWord(old(abuseCache), w))
                && (res == Blocked(w) ==> forall t :: Contains(Lower(t), w) ==> IsAbusive(t))
                && blocked == (if w !in old(abuseCache) && insert != Failed then old(blocked) + [w]
                               else old(blocked))
      ensures repliesCache == old(repliesCache) && stored == old(stored)
    {
      if |args| < 2 {
        return BlockUsage;
      }
      var w := Lower(args[1]);
      LowerIdempotent(args[1]);
      var added := AddAbuseWord(w, insert);
      if added == StoreFailed {
        return BlockAborted;
      }
      return Blocked(w);
    }

    /** block_word as written: the insert of a synchronous client runs and the
        await of its result raises, so a new word reaches the collection but
        never the cache, and the texts it occurs in stay as abusive as before. */
    method BlockWordAsWritten(args: seq<string>) returns (res: BlockOutcome)
      requires Valid()
      modifies this
      ensures Valid()
      ensures |args| < 2 ==> res == BlockUsage && blocked == old(blocked)
      ensures |args| >= 2 && Lower(args[1]) in old(abuseCache) ==>
                res == Blocked(Lower(args[1])) && blocked == old(blocked)
      ensures |args| >= 2 && Lower(args[1]) !in old(abuseCache) ==>
                res == BlockAborted && blocked == old(blocked) + [Lower(args[1])]
      ensures abuseCache == old(abuseCache)
      ensures repliesCache == old(repliesCache) && stored == old(stored)
      ensures forall t :: IsAbusive(t) == old(IsAbusive(t))
    {
      if |args| >= 2 {
        LowerIdempotent(args[1]);
      }
      res := BlockWord(args, WroteThenRaised);
    }

    /** unblock_word; `delete` is how the awaited delete from the blocklist
        collection ended. */
    method UnblockWord(args: seq<string>, delete: Write) returns (res: UnblockOutcome)
      requires Valid()
      modifies this
      ensures Valid()
      ensures |args| < 2 ==> res == UnblockUsage && abuseCache == old(abuseCache) && blocked == old(blocked)
      ensures |args| >= 2 ==>
                var w := Lower(args[1]);
                && (w !in old(abuseCache) ==> res == NotFound(w) && abuseCache == old(abuseCache))
                && (w in old(abuseCache) && delete != Done ==> res == UnblockAborted && abuseCache == old(abuseCache))
                && (w in old(abuseCache) && delete == Done ==>
                      res == Unblocked(w) && abuseCache == RemoveFirst(old(abuseCache), w))
                && (res == Unblocked(w) && NoDup(old(abuseCache)) ==>
                      w !in abuseCache && NoDup(abuseCache))
                && blocked == (if w in old(abuseCache) && delete != Failed then DeleteWord(old(blocked), w)
                               else old(blocked))
      ensures repliesCache == old(repliesCache) && stored == old(stored)
    {
      if |args| < 2 {
        return UnblockUsage;
      }
      var w := Lower(args[1]);
      if w !in abuseCache {
        return NotFound(w);
      }
      if delete == Failed {
        return UnblockAborted;
      }
      blocked := DeleteWord(blocked, w);
      if delete == WroteThenRaised {
        return UnblockAborted;
      }
      if NoDup(abuseCache) {
        RemoveFirstNoDup(abuseCache, w);
      }
      abuseCache := RemoveFirst(abuseCache, w);
      return Unblocked(w);
    }

    /** Whether save_reply would insert the record for this pair, given the
        current blocklist and corpus. */
    predicate Learns(original: Message, reply: Message, insertOk: bool)
      reads this
    {
      && !IsAbusive(TextOrEmpty(original))
      && !IsAbusive(TextOrEmpty(reply))
      && ReplyRecord(original, reply) !in stored
      && insertOk
    }

    /** save_reply; `insertOk` is whether the insert succeeded. */
    method SaveReply(original: Message, reply: Message, insertOk: bool) returns (saved: bool)
      requires Valid()
      modifies this
      ensures Valid()
      ensures saved == old(Learns(original, reply, insertOk))
      ensures IsAbusive(TextOrEmpty(original)) || IsAbusive(TextOrEmpty(reply)) ==> !saved
      ensures ReplyRecord(original, reply) in old(stored) ==> !saved
      ensures stored == old(stored) + (if saved then [ReplyRecord(original, reply)] else [])
      ensures repliesCache == old(repliesCache) + (if saved then [ReplyRecord(original, reply)] else [])
      ensures NoDup(old(stored)) ==> NoDup(stored)
      ensures abuseCache == old(abuseCache) && blocked == old(blocked)
    {
      if IsAbusive(TextOrEmpty(original)) || IsAbusive(TextOrEmpty(reply)) {
        return false;
      }
      var data := ClassifyReply(original, reply);
      if data in stored || !insertOk {
        return false;
      }
      stored := stored + [data];
      repliesCache := repliesCache + [data];
      return true;
    }

    /** load_replies_cache */
    method LoadRepliesCache()
      requires Valid()
      modifies this
      ensures Valid()
      ensures repliesCache == stored && stored == old(stored)
      ensures abuseCache == old(abuseCache) && blocked == old(blocked)
    {
      repliesCache := stored;
    }

    /** get_response: reloads an empty cache, then picks among the exact
        matches or, failing those, the whole cache; None when `random.choice`
        raises on an empty cache. */
    method GetResponse(text: string) returns (r: Option<Reply>)
      requires Valid()
      modifies this
      ensures Valid()
      ensures repliesCache == (if old(repliesCache) == [] then old(stored) else old(repliesCache))
      ensures stored == old(stored) && abuseCache == old(abuseCache) && blocked == old(blocked)
      ensures r.None? <==> repliesCache == []
      ensures r.Some? ==> Admissible(repliesCache, text, r.value)
      ensures r.Some? ==> r.value in stored
    {
      if repliesCache == [] {
        LoadRepliesCache();
      }
      r := ChooseReply(repliesCache, text);
    }

    /** handle_chat. `status` is the read of the chat's stored chatbot status,
        `langDoc` the read of its language document, `translate` the translator
        (text and target language to result) and `insertOk` whether a learning
        insert succeeds. A read that raises ends the handler in its `except`.
        Sending is taken to succeed. */
    method HandleChat(inbound: Inbound, status: Read<Option<string>>, langDoc: Read<Option<Option<string>>>,
                      translate: (Option<string>, Option<string>) -> Translation, insertOk: bool)
      returns (out: ChatOutcome)
      requires Valid()
      requires inbound.message.text.Some?
      modifies this
      ensures Valid()
      ensures status.ReadRaised? || status.value == Some("disabled") ==>
                out == ChatOutcome(NoStats, None, NothingSent, false) && unchanged(this)
      ensures status.ReadOk? && status.value != Some("disabled") ==> out.stats == StatsFor(inbound.chatType)
      ensures var pool := if old(repliesCache) == [] then old(stored) else old(repliesCache);
              && (out.chosen.Some? ==> Admissible(pool, inbound.message.text.value, out.chosen.value))
              && (out.chosen.Some? ==> out.chosen.value in old(stored))
              && (status.ReadOk? && status.value != Some("disabled") && out.chosen.None? ==> pool == [])
      ensures out.chosen.Some? ==>
                (out.sent == NothingSent <==>
                   langDoc.ReadRaised? || translate(out.chosen.value.text, ChatLanguage(langDoc.value)) == TranslateFailed)
      ensures out.sent.SentMedia? ==>
                out.chosen.Some? && out.chosen.value.kind != Text &&
                out.sent == SentMedia(out.chosen.value.kind, out.chosen.value.text)
      ensures out.sent.SentText? ==>
                out.chosen.Some? && out.chosen.value.kind == Text && langDoc.ReadOk? &&
                var tr := translate(out.chosen.value.text, ChatLanguage(langDoc.value));
                tr.Translated? &&
                out.sent == SentText(if Truthy(tr.value) then tr.value else out.chosen.value.text)
      ensures out.learnCalled <==>
                out.sent != NothingSent && inbound.replyTo.Some? && inbound.replyToSelf
      ensures var learned := out.learnCalled && old(Learns(inbound.replyTo.value, inbound.message, insertOk));
              var rec := if learned then [ReplyRecord(inbound.replyTo.value, inbound.message)] else [];
              && stored == old(stored) + rec
              && (status.ReadOk? && status.value != Some("disabled") ==>
                    repliesCache == (if old(repliesCache) == [] then old(stored) else old(repliesCache)) + rec)
      ensures abuseCache == old(abuseCache) && blocked == old(blocked)
    {
      if status.ReadRaised? || status.value == Some("disabled") {
        return ChatOutcome(NoStats, None, NothingSent, false);
      }
      var stats := StatsFor(inbound.chatType);
      var response := GetResponse(inbound.message.text.value);
      if response.None? {
        // random.choice raised; the handler logs the error
        return ChatOutcome(stats, None, NothingSent, false);
      }
      var rec := response.value;
      if langDoc.ReadRaised? {
        return ChatOutcome(stats, response, NothingSent, false);
      }
      var translated := translate(rec.text, ChatLanguage(langDoc.value));
      if translated.TranslateFailed? {
        return ChatOutcome(stats, response, NothingSent, false);
      }
      var sent := if rec.kind != Text then SentMedia(rec.kind, rec.text)
                  else SentText(if Truthy(translated.value) then translated.value else rec.text);
      var learn := inbound.replyTo.Some? && inbound.replyToSelf;
      if learn {
        var _ := SaveReply(inbound.replyTo.value, inbound.message, insertOk);
      }
      return ChatOutcome(stats, response, sent, learn);
    }

    /** handle_chat as written: awaiting the synchronous status read raises
        before anything else, so no message is counted, answered or learned. */
    method HandleChatAsWritten(inbound: Inbound, translate: (Option<string>, Option<string>) -> Translation,
                               insertOk: bool)
      returns (out: ChatOutcome)
      requires Valid()
      requires inbound.message.text.Some?
      modifies this
      ensures out == ChatOutcome(NoStats, None, NothingSent, false)
      ensures unchanged(this)
    {
      out := HandleChat(inbound, ReadRaised, ReadRaised, translate, insertOk);
    }
  }

  datatype AddResult = Added | AlreadyBlocked | StoreFailed

  datatype BlockOutcome = BlockUsage | Blocked(word: string) | BlockAborted

  datatype UnblockOutcome = UnblockUsage | Unblocked(word: string) | NotFound(word: string) | UnblockAborted
}
