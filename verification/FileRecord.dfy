/**
 * Keeping a file's record within a store's row limit: the oldest answers go
 * first, then the latest is shortened. Lengths are those of JSON.stringify, in
 * UTF-16 units.
 */
module FileRecord {
  import opened Basics

  // ----- JSON lengths -----------------------------------------------------------

  predicate IsHigh(u: Unit) { 0xd800 <= u <= 0xdbff }

  predicate IsLow(u: Unit) { 0xdc00 <= u <= 0xdfff }

  /** What one unit costs inside a JSON string when it is not part of a surrogate pair. */
  function Cost(u: Unit): (n: nat)
    ensures 1 <= n <= 6
  {
    if IsHigh(u) || IsLow(u) then 6 // written as \udXXX
    else if u == 0x22 || u == 0x5c || 8 <= u <= 10 || 12 <= u <= 13 then 2
    else if u < 0x20 then 6
    else 1
  }

  function JsonLen(s: Text): nat {
    if s == [] then 0
    else if IsHigh(s[0]) && |s| > 1 && IsLow(s[1]) then 2 + JsonLen(s[2..])
    else Cost(s[0]) + JsonLen(s[1..])
  }

  lemma {:induction false} AtLeastOneEach(s: Text)
    ensures JsonLen(s) >= |s|
  {
    if s == [] {
    } else if IsHigh(s[0]) && |s| > 1 && IsLow(s[1]) {
      AtLeastOneEach(s[2..]);
    } else {
      AtLeastOneEach(s[1..]);
    }
  }

  /** Cutting the end off saves at least a unit each, but for a split pair's five. */
  lemma {:induction false} CuttingSaves(a: Text, b: Text)
    ensures JsonLen(a) + |b| <= JsonLen(a + b) + 5
  {
    var s := a + b;
    if a == [] {
      assert s == b;
      AtLeastOneEach(b);
    } else if IsHigh(a[0]) && |a| > 1 && IsLow(a[1]) {
      assert s[2..] == a[2..] + b && s[0] == a[0] && s[1] == a[1];
      CuttingSaves(a[2..], b);
    } else if |a| == 1 && IsHigh(a[0]) && b != [] && IsLow(b[0]) {
      assert s[2..] == b[1..] && s[0] == a[0] && s[1] == b[0];
      assert a[1..] == [];
      AtLeastOneEach(b[1..]);
    } else {
      assert s[1..] == a[1..] + b && s[0] == a[0];
      assert |a| == 1 ==> (b != [] ==> s[1] == b[0]);
      assert |a| > 1 ==> s[1] == a[1];
      CuttingSaves(a[1..], b);
    }
  }

  lemma {:induction false} LengthsAdd(a: Text, b: Text)
    requires b != [] ==> !IsLow(b[0])
    ensures JsonLen(a + b) == JsonLen(a) + JsonLen(b)
  {
    var s := a + b;
    if a == [] {
      assert s == b;
    } else if IsHigh(a[0]) && |a| > 1 && IsLow(a[1]) {
      assert s[2..] == a[2..] + b && s[0] == a[0] && s[1] == a[1];
      LengthsAdd(a[2..], b);
    } else {
      assert s[1..] == a[1..] + b && s[0] == a[0];
      assert |a| == 1 ==> (b != [] ==> s[1] == b[0]);
      assert |a| > 1 ==> s[1] == a[1];
      LengthsAdd(a[1..], b);
    }
  }

  // ----- The record -----------------------------------------------------------------

  datatype Answer = Answer(instruction: Text, response: Text, at: Text)

  /** {"instruction":"...","response":"...","at":"..."} */
  function AnswerLen(a: Answer): nat { 40 + JsonLen(a.instruction) + JsonLen(a.response) + JsonLen(a.at) }

  function AnswersLen(answers: seq<Answer>): nat {
    if answers == [] then 0 else AnswerLen(answers[0]) + (if |answers| > 1 then 1 else 0) + AnswersLen(answers[1..])
  }

  /** `rest` is the length of the record written with no answers. */
  function RecordLen(rest: nat, answers: seq<Answer>): nat { rest + AnswersLen(answers) }

  /** How many of the oldest answers are dropped. */
  function Dropped(rest: nat, answers: seq<Answer>, max: nat): (d: nat)
    ensures answers != [] ==> d < |answers|
    ensures answers == [] ==> d == 0
  {
    if RecordLen(rest, answers) > max && |answers| > 1 then 1 + Dropped(rest, answers[1..], max) else 0
  }

  // " [...]" with a one-unit ellipsis.
  const ELLIPSIS: Text := [0x20, 0x5b, 0x2026, 0x5d]

  function Shortened(response: Text, over: nat): Text { response[..Max(0, |response| - over - 20)] + ELLIPSIS }

  /** What the record keeps. */
  function Fitted(rest: nat, answers: seq<Answer>, max: nat): seq<Answer> {
    var kept := answers[Dropped(rest, answers, max)..];
    var size := RecordLen(rest, kept);
    if size > max && kept != [] then
      var last := kept[|kept| - 1];
      kept[|kept| - 1 := last.(response := Shortened(last.response, size - max))]
    else kept
  }

  class StoredFile {
    const rest: nat
    var answers: seq<Answer>

    constructor (rest: nat, answers: seq<Answer>)
      ensures this.rest == rest && this.answers == answers
    {
      this.rest, this.answers := rest, answers;
    }

    method FitRecord(max: nat)
      modifies this
      ensures answers == Fitted(rest, old(answers), max)
    {
      ghost var dropped: nat := 0;
      while RecordLen(rest, answers) > max && |answers| > 1
        invariant dropped <= |old(answers)| && answers == old(answers)[dropped..]
        invariant Dropped(rest, old(answers), max) == dropped + Dropped(rest, answers, max)
        decreases |answers|
      {
        answers := answers[1..];
        dropped := dropped + 1;
      }
      var over := RecordLen(rest, answers) - max;
      if over > 0 && |answers| > 0 {
        var last := answers[|answers| - 1];
        answers := answers[|answers| - 1 := last.(response := Shortened(last.response, over))];
      }
    }
  }

  // ----- The lengths are those of the JSON text ---------------------------------------------

  function Units(s: string): (t: Text)
    requires forall i | 0 <= i < |s| :: s[i] < '\U{0080}'
    ensures |t| == |s|
  {
    seq(|s|, i requires 0 <= i < |s| => s[i] as int)
  }

  function HexDigit(n: nat): Unit
    requires n < 16
  {
    if n < 10 then 0x30 + n else 0x57 + n
  }

  /** Backslash, u and four digits. */
  function UnicodeEscape(u: Unit): Text {
    [0x5c, 0x75, HexDigit(u / 0x1000), HexDigit(u / 0x100 % 16), HexDigit(u / 16 % 16), HexDigit(u % 16)]
  }

  /** One unit as JSON.stringify writes it: \b, \t, \n, \f and \r have letters of their own. */
  function Escape(u: Unit): Text {
    match u
    case 0x22 => [0x5c, 0x22]
    case 0x5c => [0x5c, 0x5c]
    case 8 => [0x5c, 0x62]
    case 9 => [0x5c, 0x74]
    case 10 => [0x5c, 0x6e]
    case 12 => [0x5c, 0x66]
    case 13 => [0x5c, 0x72]
    case _ => if u < 0x20 || (0xd800 <= u && u <= 0xdfff) then UnicodeEscape(u) else [u]
  }

  /** The inside of a JSON string: whole surrogate pairs stand as they are. */
  function Escaped(s: Text): Text {
    if s == [] then []
    else if |s| > 1 && 0xd800 <= s[0] <= 0xdbff && 0xdc00 <= s[1] <= 0xdfff then s[..2] + Escaped(s[2..])
    else Escape(s[0]) + Escaped(s[1..])
  }

  /** A line end, a quote, another control character and half a surrogate pair, as they are written. */
  lemma EscapesAreWritten()
    ensures Escape(0x0a) == Units("\\n") && Escape(0x22) == Units("\\\"")
    ensures Escape(0x1f) == Units("\\u001f") && Escape(0xd83d) == Units("\\ud83d")
  {
  }

  function AnswerText(a: Answer): Text {
    Units("{\"instruction\":\"") + Escaped(a.instruction) + Units("\",\"response\":\"") + Escaped(a.response)
    + Units("\",\"at\":\"") + Escaped(a.at) + Units("\"}")
  }

  /** The answers, with commas between them. */
  function AnswersText(answers: seq<Answer>): Text {
    if answers == [] then []
    else AnswerText(answers[0]) + (if |answers| > 1 then Units(",") else []) + AnswersText(answers[1..])
  }

  lemma EscapeLen(u: Unit)
    ensures |Escape(u)| == Cost(u)
  {
    hide HexDigit;
  }

  lemma {:induction false} EscapedLen(s: Text)
    ensures |Escaped(s)| == JsonLen(s)
  {
    hide Escape, Cost;
    if s == [] {
    } else if |s| > 1 && 0xd800 <= s[0] <= 0xdbff && 0xdc00 <= s[1] <= 0xdfff {
      EscapedLen(s[2..]);
    } else {
      EscapeLen(s[0]);
      EscapedLen(s[1..]);
    }
  }

  /** A record's length is that of its JSON text: the rest of it, and its answers written out. */
  lemma {:induction false} LengthIsOfTheText(rest: nat, answers: seq<Answer>)
    ensures RecordLen(rest, answers) == rest + |AnswersText(answers)|
  {
    if answers != [] {
      EscapedLen(answers[0].instruction);
      EscapedLen(answers[0].response);
      EscapedLen(answers[0].at);
      LengthIsOfTheText(rest, answers[1..]);
    }
  }

  // ----- What it guarantees --------------------------------------------------------------

  /** The longest suffix that fits is kept, or the last answer alone when not even that fits. */
  lemma {:induction false} LongestSuffixIsKept(rest: nat, answers: seq<Answer>, max: nat)
    ensures var d := Dropped(rest, answers, max);
            && d <= |answers|
            && (forall j | 0 <= j < d :: RecordLen(rest, answers[j..]) > max)
            && (RecordLen(rest, answers[d..]) <= max || |answers| - d <= 1)
  {
    if RecordLen(rest, answers) > max && |answers| > 1 {
      var tail := answers[1..];
      LongestSuffixIsKept(rest, tail, max);
      var d := Dropped(rest, answers, max);
      assert tail[d - 1..] == answers[d..];
      forall j | 0 <= j < d ensures RecordLen(rest, answers[j..]) > max {
        if j == 0 { assert answers[0..] == answers; } else { assert answers[j..] == tail[j - 1..]; }
      }
    } else {
      assert answers[0..] == answers;
    }
  }

  lemma ShortenedLen(response: Text, over: nat)
    ensures |response| >= over + 20 ==> JsonLen(Shortened(response, over)) + over + 11 <= JsonLen(response)
    ensures |response| < over + 20 ==> JsonLen(Shortened(response, over)) == 4
  {
    var n := Max(0, |response| - over - 20);
    var kept, cut := response[..n], response[n..];
    assert JsonLen(Shortened(response, over)) == JsonLen(kept) + 4 by {
      EllipsisLen();
      LengthsAdd(kept, ELLIPSIS);
    }
    assert JsonLen(kept) + |cut| <= JsonLen(response) + 5 by {
      CuttingSaves(kept, cut);
      assert kept + cut == response;
    }
    assert n == 0 ==> kept == [] && JsonLen(kept) == 0;
  }

  lemma EllipsisLen()
    ensures JsonLen(ELLIPSIS) == 4
  {
    assert ELLIPSIS[1..] == [0x5b, 0x2026, 0x5d] && ELLIPSIS[1..][1..] == [0x2026, 0x5d] && ELLIPSIS[1..][1..][1..] == [0x5d];
  }

  lemma OneAnswerLen(a: Answer)
    ensures AnswersLen([a]) == AnswerLen(a)
  {
  }

  /** Shortening an answer that is too long by so much fits it in exactly when emptying it would leave room for the ellipsis. */
  lemma ShortenedFits(rest: nat, last: Answer, max: nat)
    requires RecordLen(rest, [last]) > max
    ensures RecordLen(rest, [last.(response := Shortened(last.response, RecordLen(rest, [last]) - max))]) <= max
       <==> RecordLen(rest, [last.(response := [])]) + 4 <= max
  {
    hide Shortened;
    var over := RecordLen(rest, [last]) - max;
    OneAnswerLen(last);
    OneAnswerLen(last.(response := Shortened(last.response, over)));
    OneAnswerLen(last.(response := []));
    ShortenedLen(last.response, over);
    AtLeastOneEach(last.response);
  }

  /**
   * The kept record fits exactly when some suffix fits, or the last answer would
   * with its response emptied and room for the ellipsis.
   */
  lemma FitsExactlyWhen(rest: nat, answers: seq<Answer>, max: nat)
    ensures RecordLen(rest, Fitted(rest, answers, max)) <= max
       <==> || RecordLen(rest, answers[Dropped(rest, answers, max)..]) <= max
            || (answers != [] && RecordLen(rest, [answers[|answers| - 1].(response := [])]) + 4 <= max)
  {
    hide RecordLen, Shortened;
    if answers == [] { return; }
    var d := Dropped(rest, answers, max);
    var kept, last := answers[d..], answers[|answers| - 1];
    LongestSuffixIsKept(rest, answers, max);
    var over := RecordLen(rest, kept) - max;
    if over > 0 {
      assert kept == [last];
      assert Fitted(rest, answers, max) == [last.(response := Shortened(last.response, over))];
      ShortenedFits(rest, last, max);
    }
  }

  /** Nothing but the last response is altered, and only when no suffix fits. */
  lemma OnlyTheLastResponseChanges(rest: nat, answers: seq<Answer>, max: nat, k: nat)
    requires k < |Fitted(rest, answers, max)|
    ensures var d, fitted := Dropped(rest, answers, max), Fitted(rest, answers, max);
            && |fitted| == |answers| - d
            && fitted[k].(response := answers[d + k].response) == answers[d + k]
            && (k < |fitted| - 1 || RecordLen(rest, answers[d..]) <= max ==> fitted[k] == answers[d + k])
  {
    hide RecordLen, Shortened, Dropped;
    var kept := answers[Dropped(rest, answers, max)..];
    assert kept[k] == answers[Dropped(rest, answers, max) + k];
  }

  /** String.slice from the start: nothing for a negative count. */
  function FirstUnits(s: Text, n: int): Text { if n <= 0 then [] else if n >= |s| then s else s[..n] }

  /** When not even the last answer alone fits, its response keeps its beginning, cut by twenty more than it is too long, and an ellipsis. */
  lemma ShortenedKeepsItsStart(rest: nat, answers: seq<Answer>, max: nat)
    requires answers != [] && RecordLen(rest, answers[Dropped(rest, answers, max)..]) > max
    ensures var last := answers[|answers| - 1];
            var over := RecordLen(rest, [last]) - max;
            Fitted(rest, answers, max)
            == [last.(response := FirstUnits(last.response, |last.response| - over - 20) + [0x20, 0x5b, 0x2026, 0x5d])]
  {
    hide RecordLen;
    LongestSuffixIsKept(rest, answers, max);
    assert answers[Dropped(rest, answers, max)..] == [answers[|answers| - 1]];
  }
}
