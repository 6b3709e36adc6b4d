/** Automatic chat-language detection (nexichat/mplugin/chat_lang.py): the
    per-chat message buffers, the batch rule, the prompt and the extraction of
    a two-letter code from the detection service's answer, and the routing of
    the language buttons. The buffer's five-minute expiry is the explicit
    `Expire` event; the detection service is a function from the prompt to
    its answer (None when the request fails). */
module ChatLang {
  import opened Base

  /** Buffer length at which detection is attempted. */
  const CacheSize: nat := 30
  /** Seconds after a buffer's creation at which it is dropped (see `Expire`). */
  const CacheTtl: nat := 300
  /** Fewest non-empty texts a detection is attempted on. */
  const MinTexts: nat := 5

  // ---------------------------------------------------------------------------
  // Building the prompt

  /** A buffered message counts for detection when its text is present and non-empty. */
  predicate HasText(m: Option<string>)
  {
    m.Some? && m.value != ""
  }

  /** Every position one further on. */
  function Shift(ps: seq<int>): (r: seq<int>)
    ensures |r| == |ps|
    ensures forall j :: 0 <= j < |ps| ==> r[j] == ps[j] + 1
  {
    seq(|ps|, j requires 0 <= j < |ps| => ps[j] + 1)
  }

  /** The positions of the buffer whose message has a text. */
  ghost function TextPositions(buffer: seq<Option<string>>): seq<int>
  {
    if buffer == [] then []
    else if HasText(buffer[0]) then [0] + Shift(TextPositions(buffer[1..]))
    else Shift(TextPositions(buffer[1..]))
  }

  /** `TextPositions` lists only positions with a text, in increasing order. */
  lemma TextPositionsSound(buffer: seq<Option<string>>)
    ensures forall j :: 0 <= j < |TextPositions(buffer)| ==>
              0 <= TextPositions(buffer)[j] < |buffer| && HasText(buffer[TextPositions(buffer)[j]])
    ensures Increasing(TextPositions(buffer))
  {
    TextPositionsHaveText(buffer);
    TextPositionsIncrease(buffer);
  }

  /** Every listed position is in range and holds a text. */
  lemma {:induction false} TextPositionsHaveText(buffer: seq<Option<string>>)
    ensures forall j :: 0 <= j < |TextPositions(buffer)| ==>
              0 <= TextPositions(buffer)[j] < |buffer| && HasText(buffer[TextPositions(buffer)[j]])
  {
    if buffer != [] {
      var tail := buffer[1..];
      TextPositionsHaveText(tail);
      var rest, ps := TextPositions(tail), TextPositions(buffer);
      var off := if HasText(buffer[0]) then 1 else 0;
      assert |ps| == |rest| + off;
      forall j | off <= j < |ps| ensures 0 <= ps[j] < |buffer| && HasText(buffer[ps[j]]) {
        assert ps[j] == rest[j - off] + 1;
        assert buffer[ps[j]] == tail[rest[j - off]];
      }
    }
  }

  /** The listed positions strictly increase. */
  lemma {:induction false} TextPositionsIncrease(buffer: seq<Option<string>>)
    ensures Increasing(TextPositions(buffer))
  {
    if buffer != [] {
      var tail := buffer[1..];
      TextPositionsIncrease(tail);
      TextPositionsHaveText(tail);
      ShiftIncreasing(TextPositions(tail));
    }
  }

  predicate Increasing(ps: seq<int>)
  {
    forall j, k :: 0 <= j < k < |ps| ==> ps[j] < ps[k]
  }

  /** Shifting keeps positions increasing, and 0 may go in front of the result. */
  lemma ShiftIncreasing(ps: seq<int>)
    requires Increasing(ps)
    requires forall j :: 0 <= j < |ps| ==> 0 <= ps[j]
    ensures Increasing(Shift(ps)) && Increasing([0] + Shift(ps))
  {
    var r := Shift(ps);
    forall j, k | 0 <= j < k < |r| ensures r[j] < r[k] {
      assert r[j] == ps[j] + 1 && r[k] == ps[k] + 1;
    }
    var q := [0] + r;
    forall j, k | 0 <= j < k < |q| ensures q[j] < q[k] {
      assert q[k] == r[k - 1] == ps[k - 1] + 1;
      if j > 0 {
        assert q[j] == r[j - 1];
      }
    }
  }

  /** `TextPositions` lists every position with a text. */
  lemma {:induction false} TextPositionsComplete(buffer: seq<Option<string>>)
    ensures forall i :: 0 <= i < |buffer| && HasText(buffer[i]) ==> i in TextPositions(buffer)
  {
    if buffer != [] {
      var tail := buffer[1..];
      TextPositionsComplete(tail);
      var rest, ps := TextPositions(tail), TextPositions(buffer);
      var off := if HasText(buffer[0]) then 1 else 0;
      assert forall j :: off <= j < |ps| ==> ps[j] == rest[j - off] + 1;
      forall i | 1 <= i < |buffer| && HasText(buffer[i]) ensures i in ps {
        assert tail[i - 1] == buffer[i];
        var j :| 0 <= j < |rest| && rest[j] == i - 1;
        assert ps[j + off] == i;
      }
    }
  }

  /** `[msg.text for msg in buffer if msg.text]` */
  function NonEmptyTexts(buffer: seq<Option<string>>): (texts: seq<string>)
    ensures forall t :: t in texts ==> t != "" && Some(t) in buffer
    ensures forall i :: 0 <= i < |buffer| && HasText(buffer[i]) ==> buffer[i].value in texts
  {
    if buffer == [] then []
    else
      var rest := NonEmptyTexts(buffer[1..]);
      assert forall t :: Some(t) in buffer[1..] ==> Some(t) in buffer;
      assert forall i :: 1 <= i < |buffer| ==> buffer[i] == buffer[1..][i - 1];
      if HasText(buffer[0]) then [buffer[0].value] + rest else rest
  }

  /** The texts are the messages at `TextPositions`, one each and in the same
      order, so their number is the number of messages with a text, the count
      the five-text minimum tests. */
  lemma {:induction false} NonEmptyTextsInOrder(buffer: seq<Option<string>>)
    ensures |NonEmptyTexts(buffer)| == |TextPositions(buffer)|
    ensures forall j :: 0 <= j < |NonEmptyTexts(buffer)| ==>
              0 <= TextPositions(buffer)[j] < |buffer| &&
              buffer[TextPositions(buffer)[j]] == Some(NonEmptyTexts(buffer)[j])
  {
    NonEmptyTextsCount(buffer);
    if buffer != [] {
      var tail := buffer[1..];
      NonEmptyTextsInOrder(tail);
      var rest, restPs := NonEmptyTexts(tail), TextPositions(tail);
      var texts, ps := NonEmptyTexts(buffer), TextPositions(buffer);
      var off := if HasText(buffer[0]) then 1 else 0;
      forall j | off <= j < |texts| ensures 0 <= ps[j] < |buffer| && buffer[ps[j]] == Some(texts[j]) {
        assert texts[j] == rest[j - off];
        assert ps[j] == Shift(restPs)[j - off];
        assert buffer[ps[j]] == tail[restPs[j - off]];
      }
    }
  }

  /** There are as many texts as positions holding a text. */
  lemma {:induction false} NonEmptyTextsCount(buffer: seq<Option<string>>)
    ensures |NonEmptyTexts(buffer)| == |TextPositions(buffer)|
  {
    if buffer != [] {
      NonEmptyTextsCount(buffer[1..]);
    }
  }

  /** The texts never outnumber the messages. */
  lemma NonEmptyTextsBound(buffer: seq<Option<string>>)
    ensures |NonEmptyTexts(buffer)| <= |buffer|
  {
    NonEmptyTextsInOrder(buffer);
    TextPositionsSound(buffer);
    PositionsBound(TextPositions(buffer), |buffer|);
  }

  /** A strictly increasing sequence of positions below n has at most n members. */
  lemma {:induction false} PositionsBound(ps: seq<int>, n: nat)
    requires forall j :: 0 <= j < |ps| ==> 0 <= ps[j] < n
    requires forall j, k :: 0 <= j < k < |ps| ==> ps[j] < ps[k]
    ensures |ps| <= n
  {
    if ps != [] {
      var init, last := ps[..|ps| - 1], ps[|ps| - 1];
      assert |init| == |ps| - 1;
      assert forall j :: 0 <= j < |init| ==> init[j] == ps[j] && ps[j] < last;
      PositionsBound(init, last);
      assert last < n;
    }
  }

  /** Each message prefixed with "- ". */
  function Bullets(messages: seq<string>): (lines: seq<string>)
    ensures |lines| == |messages|
    ensures forall i :: 0 <= i < |messages| ==> lines[i] == "- " + messages[i]
  {
    if messages == [] then [] else ["- " + messages[0]] + Bullets(messages[1..])
  }

  /** The history block of the prompt: the bulleted messages, one per line. */
  function History(messages: seq<string>): string
  {
    Join("\n", Bullets(messages))
  }

  /** The history can be read back line by line when no message spans lines. */
  lemma HistoryLines(messages: seq<string>)
    requires |messages| >= 1
    requires forall i :: 0 <= i < |messages| ==> '\n' !in messages[i]
    ensures Split(History(messages), '\n') == Bullets(messages)
  {
    var lines := Bullets(messages);
    forall k | 0 <= k < |lines| ensures '\n' !in lines[k] {
      assert lines[k] == "- " + messages[k];
    }
    SplitJoin(lines, '\n');
  }

  const PromptHead: string :=
    "\n        Analyze these messages and identify the dominant language (ISO 639-1 code):\n        "
  const PromptTail: string :=
    "\n        Respond ONLY with the 2-letter language code.\n        "

  /** The detection prompt: the fixed instruction, the history, the fixed answer format. */
  function Prompt(messages: seq<string>): (p: string)
    ensures |p| == |PromptHead| + |History(messages)| + |PromptTail|
    ensures p[..|PromptHead|] == PromptHead && p[|p| - |PromptTail|..] == PromptTail
  {
    var p := PromptHead + History(messages) + PromptTail;
    assert p[..|PromptHead|] == PromptHead;
    assert p[|p| - |PromptTail|..] == PromptTail;
    p
  }

  /** Between its fixed head and tail, the prompt holds the messages one
      bulleted line each, so the service sees every buffered text, in order. */
  lemma PromptLines(messages: seq<string>)
    requires |messages| >= 1
    requires forall i :: 0 <= i < |messages| ==> '\n' !in messages[i]
    ensures var p := Prompt(messages);
            Split(p[|PromptHead|..|p| - |PromptTail|], '\n') == Bullets(messages)
  {
    var p := Prompt(messages);
    assert p[|PromptHead|..|p| - |PromptTail|] == History(messages);
    HistoryLines(messages);
  }

  // ---------------------------------------------------------------------------
  // Reading the answer

  /** Two ASCII letters at positions i and i + 1. */
  predicate PairAt(s: string, i: int)
  {
    0 <= i && i + 1 < |s| && IsLetter(s[i]) && IsLetter(s[i + 1])
  }

  /** The first run of two letters, lower-cased: a case-insensitive search for `[a-z]{2}`. */
  function FirstLetterPair(s: string): (r: Option<string>)
    ensures r.Some? ==> |r.value| == 2 && IsLower(r.value[0]) && IsLower(r.value[1])
    ensures r.Some? ==> exists i :: PairAt(s, i) && r.value == Lower(s[i..i + 2]) &&
                                    forall j :: 0 <= j < i ==> !PairAt(s, j)
    ensures r.None? ==> forall i :: !PairAt(s, i)
  {
    if |s| < 2 then None
    else if IsLetter(s[0]) && IsLetter(s[1]) then
      assert PairAt(s, 0);
      Some(Lower(s[..2]))
    else
      var r := FirstLetterPair(s[1..]);
      PairShift(s);
      if r.Some? then
        var i :| PairAt(s[1..], i) && r.value == Lower(s[1..][i..i + 2]) &&
                 forall j :: 0 <= j < i ==> !PairAt(s[1..], j);
        assert s[1..][i..i + 2] == s[i + 1..i + 3];
        assert PairAt(s, i + 1) && !PairAt(s, 0);
        assert forall j :: 0 <= j < i + 1 ==> !PairAt(s, j);
        r
      else r
  }

  /** A pair at i >= 1 is a pair at i - 1 once the first character is dropped. */
  lemma PairShift(s: string)
    requires s != []
    ensures forall i :: 1 <= i ==> (PairAt(s, i) <==> PairAt(s[1..], i - 1))
  {
  }

  lemma {:induction false} PairIgnoresSpacePrefix(s: string)
    ensures FirstLetterPair(StripLeft(s)) == FirstLetterPair(s)
  {
    if s != [] && IsSpace(s[0]) {
      PairIgnoresSpacePrefix(s[1..]);
    }
  }

  lemma {:induction false} PairIgnoresTrailingNonLetter(s: string)
    requires s != [] && !IsLetter(s[|s| - 1])
    ensures FirstLetterPair(s[..|s| - 1]) == FirstLetterPair(s)
  {
    var t := s[..|s| - 1];
    if |s| >= 3 && !(IsLetter(s[0]) && IsLetter(s[1])) {
      PairIgnoresTrailingNonLetter(s[1..]);
      assert t[1..] == s[1..][..|s[1..]| - 1];
      assert FirstLetterPair(t) == FirstLetterPair(t[1..]);
      assert FirstLetterPair(s) == FirstLetterPair(s[1..]);
    } else if |s| >= 3 {
      assert t[..2] == s[..2];
    } else if |s| == 2 {
      assert FirstLetterPair(s) == FirstLetterPair(s[1..]) == None;
    }
  }

  lemma {:induction false} PairIgnoresSpaceSuffix(s: string)
    ensures FirstLetterPair(StripRight(s)) == FirstLetterPair(s)
    decreases |s|
  {
    if s != [] && IsSpace(s[|s| - 1]) {
      PairIgnoresSpaceSuffix(s[..|s| - 1]);
      PairIgnoresTrailingNonLetter(s);
    }
  }

  /** Stripping the answer does not change the code read from it. */
  lemma PairIgnoresStrip(s: string)
    ensures FirstLetterPair(Strip(s)) == FirstLetterPair(s)
  {
    PairIgnoresSpaceSuffix(StripLeft(s));
    PairIgnoresSpacePrefix(s);
  }

  /** detect_language, given the service's answer: None when the request
      failed or the stripped answer holds no two adjacent letters. */
  function DetectLanguage(answer: Option<string>): (code: Option<string>)
    ensures code.Some? ==> |code.value| == 2 && IsLower(code.value[0]) && IsLower(code.value[1])
    ensures answer.None? ==> code.None?
    ensures answer.Some? ==> code == FirstLetterPair(answer.value)
  {
    if answer.None? then None
    else
      PairIgnoresStrip(answer.value);
      FirstLetterPair(Strip(answer.value))
  }

  /** The code a batch yields, if any: fewer than five non-empty texts give
      none without asking the service. */
  function BatchCode(buffer: seq<Option<string>>, detector: string -> Option<string>): (code: Option<string>)
    ensures |NonEmptyTexts(buffer)| < MinTexts ==> code.None?
    ensures code.Some? ==> |code.value| == 2 && IsLower(code.value[0]) && IsLower(code.value[1])
  {
    var texts := NonEmptyTexts(buffer);
    if |texts| < MinTexts then None else DetectLanguage(detector(Prompt(texts)))
  }

  // ---------------------------------------------------------------------------
  // Buttons and their callbacks

  /** The buttons sent with a detected code: accept it, or choose by hand. */
  function AnnouncementButtons(code: string): seq<string>
  {
    ["lang_" + code, "choose_lang"]
  }

  /** The buttons of the manual menu. */
  const ManualMenu: seq<string> := ["lang_en", "lang_hi", "lang_cancel"]

  datatype CallbackAction = ShowMenu | CancelPrompt | SetLanguage(code: string) | Unhandled

  /** `data.split("_")[1]` for data starting with "lang_". */
  function LangField(data: string): (field: string)
    requires StartsWith(data, "lang_")
    ensures field == Split(data[5..], '_')[0]
    ensures '_' !in field
  {
    assert data == "lang" + ['_'] + data[5..];
    SplitAfterSeparator("lang", data[5..], '_');
    Split(data, '_')[1]
  }

  /** No line break in `s` except possibly as its last character: Python's `.`
      never matches "\n", and `$` without MULTILINE matches at the end of the
      text or just before a final "\n". */
  predicate NoInnerBreak(s: string)
  {
    forall i :: 0 <= i < |s| - 1 ==> s[i] != '\n'
  }

  /** `filters.regex("^choose_lang$")` */
  predicate MatchesChooseLang(data: string)
  {
    data == "choose_lang" || data == "choose_lang\n"
  }

  /** `filters.regex("^lang_(.*)$")` */
  predicate MatchesLangPattern(data: string)
  {
    StartsWith(data, "lang_") && NoInnerBreak(data[5..])
  }

  /** The callback handlers: `choose_lang` opens the manual menu; `lang_<x>`
      cancels when x is "cancel" and otherwise sets x; data neither pattern
      matches reaches no handler. */
  function Route(data: string): (a: CallbackAction)
    ensures a.ShowMenu? <==> MatchesChooseLang(data)
    ensures a.Unhandled? <==> !MatchesChooseLang(data) && !MatchesLangPattern(data)
    ensures a.CancelPrompt? || a.SetLanguage? <==> !MatchesChooseLang(data) && MatchesLangPattern(data)
    ensures a.SetLanguage? ==> a.code != "cancel" && '_' !in a.code
  {
    if MatchesChooseLang(data) then ShowMenu
    else if MatchesLangPattern(data) then
      var code := LangField(data);
      if code == "cancel" then CancelPrompt else SetLanguage(code)
    else Unhandled
  }

  /** The line-break cases of the two patterns: a final "\n" is still matched,
      an inner one is not, and the field keeps the final "\n". */
  lemma NewlineRoutes()
    ensures Route("choose_lang\n") == ShowMenu
    ensures Route("lang_a\nb") == Unhandled
    ensures Route("lang_en\n") == SetLanguage("en\n")
  {
    var inner := "lang_a\nb";
    assert inner[5..][1] == '\n';
    var last := "lang_en\n";
    assert last[5..] == "en\n";
    RouteLang("en\n");
  }

  /** A `lang_` callback sets the text between the first and second underscore,
      unless a line break comes before the last character, when no handler runs. */
  lemma RouteLang(code: string)
    ensures NoInnerBreak(code) ==>
              var field := Split(code, '_')[0];
              Route("lang_" + code) == if field == "cancel" then CancelPrompt else SetLanguage(field)
    ensures NoInnerBreak(code) && '_' !in code ==>
              Route("lang_" + code) == if code == "cancel" then CancelPrompt else SetLanguage(code)
    ensures !NoInnerBreak(code) ==> Route("lang_" + code) == Unhandled
  {
    var data := "lang_" + code;
    assert StartsWith(data, "lang_") && data[5..] == code;
    assert !MatchesChooseLang(data) by { assert data[0] == 'l'; }
    assert LangField(data) == Split(code, '_')[0];
    if '_' !in code {
      SplitNoSeparator(code, '_');
    }
  }

  /** The accept button of an announcement sets exactly the detected code;
      the other opens the manual menu. */
  lemma AnnouncementRoutes(code: string)
    requires |code| == 2 && IsLower(code[0]) && IsLower(code[1])
    ensures Route(AnnouncementButtons(code)[0]) == SetLanguage(code)
    ensures Route(AnnouncementButtons(code)[1]) == ShowMenu
  {
    assert NoInnerBreak(code);
    RouteLang(code);
    assert code != "cancel";
  }

  /** The manual menu offers English, Hindi and cancel. */
  lemma ManualMenuRoutes()
    ensures Route(ManualMenu[0]) == SetLanguage("en")
    ensures Route(ManualMenu[1]) == SetLanguage("hi")
    ensures Route(ManualMenu[2]) == CancelPrompt
  {
    assert ManualMenu[0] == "lang_" + "en" && '_' !in "en";
    assert ManualMenu[1] == "lang_" + "hi" && '_' !in "hi";
    assert ManualMenu[2] == "lang_" + "cancel" && '_' !in "cancel";
    assert NoInnerBreak("en") && NoInnerBreak("hi") && NoInnerBreak("cancel");
    RouteLang("en");
    RouteLang("hi");
    RouteLang("cancel");
  }

  // ---------------------------------------------------------------------------
  // The buffers

  /** A chat counts as having a language when get_chat_language returns a
      non-empty value other than "nolang". */
  predicate LanguageSet(lang: Option<string>)
  {
    lang.Some? && lang.value != "" && lang.value != "nolang"
  }

  datatype StoreOutcome = NotBuffered | Buffered | Announced(code: string, buttons: seq<string>)

  class DetectionBuffers {
    /** message_cache: the texts buffered per chat, oldest first. */
    var buffers: map<int, seq<Option<string>>>

    /** A buffer is created together with its first message. */
    ghost predicate Valid()
      reads this
    {
      forall c :: c in buffers ==> |buffers[c]| >= 1
    }

    constructor ()
      ensures Valid() && buffers == map[]
    {
      buffers := map[];
    }

    /** process_message_batch; the announcement is taken to be sent. */
    method ProcessBatch(chat: int, detector: string -> Option<string>) returns (code: Option<string>)
      requires Valid()
      modifies this
      ensures Valid()
      ensures chat !in old(buffers) ==> code.None?
      ensures chat in old(buffers) ==> code == BatchCode(old(buffers)[chat], detector)
      ensures buffers == if code.Some? then old(buffers) - {chat} else old(buffers)
    {
      if chat !in buffers {
        return None;
      }
      var texts := NonEmptyTexts(buffers[chat]);
      if |texts| < MinTexts {
        return None;
      }
      code := DetectLanguage(detector(Prompt(texts)));
      if code.None? {
        return None;
      }
      buffers := buffers - {chat};
    }

    /** message_store_handler; `currentLang` is the chat's stored language. */
    method StoreMessage(chat: int, text: Option<string>, currentLang: Option<string>,
                        detector: string -> Option<string>) returns (out: StoreOutcome)
      requires Valid()
      modifies this
      ensures Valid()
      ensures LanguageSet(currentLang) ==> out == NotBuffered && buffers == old(buffers)
      ensures !LanguageSet(currentLang) ==>
                var grown := (if chat in old(buffers) then old(buffers)[chat] else []) + [text];
                var code := if |grown| >= CacheSize then BatchCode(grown, detector) else None;
                && out == (if code.Some? then Announced(code.value, AnnouncementButtons(code.value)) else Buffered)
                && buffers == (if code.Some? then old(buffers) - {chat} else old(buffers)[chat := grown])
    {
      if LanguageSet(currentLang) {
        return NotBuffered;
      }
      if chat !in buffers {
        buffers := buffers[chat := []];
      }
      buffers := buffers[chat := buffers[chat] + [text]];
      if |buffers[chat]| >= CacheSize {
        var code := ProcessBatch(chat, detector);
        if code.Some? {
          return Announced(code.value, AnnouncementButtons(code.value));
        }
      }
      return Buffered;
    }

    /** The scheduled removal of a chat's buffer, CacheTtl seconds after it was created. */
    method Expire(chat: int)
      requires Valid()
      modifies this
      ensures Valid()
      ensures buffers == old(buffers) - {chat}
    {
      buffers := buffers - {chat};
    }
  }
}
