/**
 * Rescuing the top-level {...} objects from a model's answer: a scanner that
 * counts braces and steps over strings and their escapes.
 */
module ObjectScan {
  import opened Basics

  type Span = (nat, nat)

  /** The spans found from position i on, given the scanner's depth, start and in-string flag. */
  function Spans(text: string, i: nat, depth: nat, start: nat, inString: bool): seq<Span>
    decreases |text| - i
  {
    if i >= |text| then []
    else if inString then
      if text[i] == '\\' then Spans(text, i + 2, depth, start, true)
      else Spans(text, i + 1, depth, start, text[i] != '"')
    else if text[i] == '"' then Spans(text, i + 1, depth, start, true)
    else if text[i] == '{' then Spans(text, i + 1, depth + 1, if depth == 0 then i else start, false)
    else if text[i] == '}' && depth > 0 then
      if depth == 1 then [(start, i + 1)] + Spans(text, i + 1, 0, start, false)
      else Spans(text, i + 1, depth - 1, start, false)
    else Spans(text, i + 1, depth, start, false)
  }

  function AllSpans(text: string): seq<Span> { Spans(text, 0, 0, 0, false) }

  /** Spans are inside the text, not empty, and each ends before the next begins. */
  ghost predicate InOrder(spans: seq<Span>, text: string) {
    && (forall k | 0 <= k < |spans| :: spans[k].0 < spans[k].1 <= |text|)
    && (forall k, m | 0 <= k < m < |spans| :: spans[k].1 <= spans[m].0)
  }

  ghost predicate FoundFrom(spans: seq<Span>, text: string, i: nat, depth: nat, start: nat) {
    && InOrder(spans, text)
    && (forall k | 0 <= k < |spans| :: i < spans[k].1 && (if depth > 0 then start else i) <= spans[k].0)
    && (spans != [] && depth > 0 ==> spans[0].0 == start)
  }

  lemma FoundFirst(spans: seq<Span>, text: string, i: nat, start: nat)
    requires start < i < |text| && FoundFrom(spans, text, i + 1, 0, start)
    ensures FoundFrom([(start, i + 1)] + spans, text, i, 1, start)
  {
    var all := [(start, i + 1)] + spans;
    assert forall k | 1 <= k < |all| :: all[k] == spans[k - 1];
  }

  /** Reading on from a later position, at another depth, finds spans that are in place from the earlier one too. */
  lemma FoundLater(spans: seq<Span>, text: string, i: nat, depth: nat, start: nat, j: nat, deeper: nat, from: nat)
    requires FoundFrom(spans, text, j, deeper, from) && i < j
    requires depth > 0 ==> deeper > 0 && from == start
    requires depth == 0 && deeper > 0 ==> i <= from
    ensures FoundFrom(spans, text, i, depth, start)
  {
  }

  lemma {:induction false} SpansInOrder(text: string, i: nat, depth: nat, start: nat, inString: bool)
    requires depth > 0 ==> start < i
    ensures FoundFrom(Spans(text, i, depth, start, inString), text, i, depth, start)
    decreases |text| - i
  {
    if i < |text| {
      if inString && text[i] == '\\' {
        SpansInOrder(text, i + 2, depth, start, true);
        FoundLater(Spans(text, i + 2, depth, start, true), text, i, depth, start, i + 2, depth, start);
      } else if !inString && text[i] == '{' {
        var from := if depth == 0 then i else start;
        SpansInOrder(text, i + 1, depth + 1, from, false);
        FoundLater(Spans(text, i + 1, depth + 1, from, false), text, i, depth, start, i + 1, depth + 1, from);
      } else if !inString && text[i] == '}' && depth > 0 {
        SpansInOrder(text, i + 1, depth - 1, start, false);
        if depth == 1 { FoundFirst(Spans(text, i + 1, 0, start, false), text, i, start); }
        else { FoundLater(Spans(text, i + 1, depth - 1, start, false), text, i, depth, start, i + 1, depth - 1, start); }
      } else {
        var next := if inString then text[i] != '"' else text[i] == '"';
        SpansInOrder(text, i + 1, depth, start, next);
        FoundLater(Spans(text, i + 1, depth, start, next), text, i, depth, start, i + 1, depth, start);
      }
    }
  }

  function Slice(text: string, span: Span): string
    requires span.0 < span.1 <= |text|
  {
    text[span.0..span.1]
  }

  /** The objects in a text, in order. */
  function Objects(text: string): seq<string> {
    SpansInOrder(text, 0, 0, 0, false);
    var spans := AllSpans(text);
    seq(|spans|, k requires 0 <= k < |spans| => Slice(text, spans[k]))
  }

  method ObjectsIn(text: string) returns (out: seq<string>)
    ensures out == Objects(text)
  {
    SpansInOrder(text, 0, 0, 0, false);
    out := [];
    var depth, start, inString := 0, 0, false;
    var i := 0;
    while i < |text|
      invariant 0 <= i && 0 <= start && 0 <= depth && (depth > 0 ==> start < i)
      invariant |out| <= |AllSpans(text)|
      invariant AllSpans(text)[|out|..] == Spans(text, i, depth, start, inString)
      invariant out == Objects(text)[..|out|]
      decreases |text| - i
    {
      var c := text[i];
      if inString {
        if c == '\\' { i := i + 1; } else if c == '"' { inString := false; }
      } else if c == '"' {
        inString := true;
      } else if c == '{' {
        if depth == 0 { start := i; }
        depth := depth + 1;
      } else if c == '}' && depth > 0 {
        depth := depth - 1;
        if depth == 0 {
          assert AllSpans(text)[|out|] == (start, i + 1);
          out := out + [text[start..i + 1]];
        }
      }
      i := i + 1;
    }
  }

  // ----- Any input: each object found is found again on its own --------------

  lemma {:induction false} FirstSpanAlone(text: string, i: nat, depth: nat, start: nat, inString: bool)
    requires depth > 0 && start < i && Spans(text, i, depth, start, inString) != []
    ensures var e := Spans(text, i, depth, start, inString)[0].1;
            i < e <= |text| && Spans(text[start..e], i - start, depth, 0, inString) == [(0, e - start)]
    decreases |text| - i
  {
    SpansInOrder(text, i, depth, start, inString);
    var o := text[start..Spans(text, i, depth, start, inString)[0].1];
    assert o[i - start] == text[i];
    if inString {
      if text[i] == '\\' { FirstSpanAlone(text, i + 2, depth, start, true); }
      else { FirstSpanAlone(text, i + 1, depth, start, text[i] != '"'); }
    } else if text[i] == '"' {
      FirstSpanAlone(text, i + 1, depth, start, true);
    } else if text[i] == '{' {
      FirstSpanAlone(text, i + 1, depth + 1, start, false);
    } else if text[i] == '}' {
      if depth > 1 { FirstSpanAlone(text, i + 1, depth - 1, start, false); }
    } else {
      FirstSpanAlone(text, i + 1, depth, start, false);
    }
  }

  lemma {:induction false} EachSpanAlone(text: string, i: nat, depth: nat, start: nat, inString: bool, k: nat)
    requires depth > 0 ==> start < i
    requires k < |Spans(text, i, depth, start, inString)| && (depth > 0 ==> k > 0)
    ensures var (s, e) := Spans(text, i, depth, start, inString)[k];
            s < e <= |text| && AllSpans(text[s..e]) == [(0, e - s)]
    decreases |text| - i
  {
    if inString {
      if text[i] == '\\' { EachSpanAlone(text, i + 2, depth, start, true, k); }
      else { EachSpanAlone(text, i + 1, depth, start, text[i] != '"', k); }
    } else if text[i] == '"' {
      EachSpanAlone(text, i + 1, depth, start, true, k);
    } else if text[i] == '{' {
      if depth == 0 && k == 0 {
        FirstSpanAlone(text, i + 1, 1, i, false);
        SpansInOrder(text, i + 1, 1, i, false);
        var (s, e) := Spans(text, i + 1, 1, i, false)[0];
        var o := text[s..e];
        assert o[0] == '{';
      } else {
        EachSpanAlone(text, i + 1, depth + 1, if depth == 0 then i else start, false, k);
      }
    } else if text[i] == '}' && depth > 0 {
      EachSpanAlone(text, i + 1, depth - 1, start, false, if depth == 1 then k - 1 else k);
    } else {
      EachSpanAlone(text, i + 1, depth, start, false, k);
    }
  }

  /** Scanning any object that was found gives back that object alone. */
  lemma ObjectsAreFixedPoints(text: string, k: nat)
    requires k < |Objects(text)|
    ensures Objects(Objects(text)[k]) == [Objects(text)[k]]
  {
    SpansInOrder(text, 0, 0, 0, false);
    EachSpanAlone(text, 0, 0, 0, false, k);
    var o := Objects(text)[k];
    assert AllSpans(o) == [(0, |o|)];
    assert o[0..|o|] == o;
  }

  /** What is found lies in the text in order and without overlap. */
  lemma ObjectsAreDisjointSlices(text: string)
    ensures InOrder(AllSpans(text), text) && |Objects(text)| == |AllSpans(text)|
    ensures forall k | 0 <= k < |Objects(text)| :: Objects(text)[k] == text[AllSpans(text)[k].0..AllSpans(text)[k].1]
  {
    SpansInOrder(text, 0, 0, 0, false);
  }

  // ----- The objects of a grammar are found exactly ---------------------------

  datatype Chars = Done | Literal(c: char, more: Chars) | Escaped(c: char, more: Chars)

  /** The inside of an object: plain characters, strings and nested objects. */
  datatype Body =
    | End
    | Plain(c: char, rest: Body)
    | Quoted(chars: Chars, rest: Body)
    | Nested(inner: Body, rest: Body)

  predicate CharsOk(s: Chars) {
    match s
    case Done => true
    case Literal(c, more) => c != '"' && c != '\\' && CharsOk(more)
    case Escaped(_, more) => CharsOk(more)
  }

  predicate BodyOk(b: Body) {
    match b
    case End => true
    case Plain(c, rest) => c != '"' && c != '{' && c != '}' && BodyOk(rest)
    case Quoted(chars, rest) => CharsOk(chars) && BodyOk(rest)
    case Nested(inner, rest) => BodyOk(inner) && BodyOk(rest)
  }

  /** A string's characters and its closing quote. */
  function CharsText(s: Chars): string {
    match s
    case Done => "\""
    case Literal(c, more) => [c] + CharsText(more)
    case Escaped(c, more) => ['\\', c] + CharsText(more)
  }

  function BodyText(b: Body): string {
    match b
    case End => ""
    case Plain(c, rest) => [c] + BodyText(rest)
    case Quoted(chars, rest) => "\"" + (CharsText(chars) + BodyText(rest))
    case Nested(inner, rest) => "{" + (BodyText(inner) + ("}" + BodyText(rest)))
  }

  function ObjectText(b: Body): string { "{" + (BodyText(b) + "}") }

  lemma {:induction false} ScanChars(text: string, i: nat, s: Chars, depth: nat, start: nat)
    requires CharsOk(s) && Stands(CharsText(s), text, i)
    ensures Spans(text, i, depth, start, true) == Spans(text, i + |CharsText(s)|, depth, start, false)
    decreases s
  {
    assert CharsText(s)[0] == text[i];
    match s {
      case Done =>
      case Literal(c, more) =>
        StandsSplit([c], CharsText(more), text, i);
        ScanChars(text, i + 1, more, depth, start);
      case Escaped(c, more) =>
        StandsSplit(['\\', c], CharsText(more), text, i);
        ScanChars(text, i + 2, more, depth, start);
    }
  }

  lemma {:induction false} ScanBody(text: string, i: nat, end: nat, b: Body, depth: nat, start: nat)
    requires BodyOk(b) && Stands(BodyText(b), text, i) && end == i + |BodyText(b)| && depth > 0
    ensures Spans(text, i, depth, start, false) == Spans(text, end, depth, start, false)
    decreases b, 1
  {
    match b {
      case End =>
      case Plain(c, rest) =>
        PlainParts(text, i, c, rest);
        ScanBody(text, i + 1, end, rest, depth, start);
      case Quoted(chars, rest) =>
        QuotedParts(text, i, chars, rest);
        ScanString(text, i, chars, depth, start);
        ScanBody(text, i + 1 + |CharsText(chars)|, end, rest, depth, start);
      case Nested(inner, rest) =>
        NestedParts(text, i, inner, rest);
        ScanNested(text, i, b, depth, start);
        ScanBody(text, i + 2 + |BodyText(inner)|, end, rest, depth, start);
    }
  }

  lemma ScanString(text: string, i: nat, chars: Chars, depth: nat, start: nat)
    requires i < |text| && text[i] == '"' && CharsOk(chars) && Stands(CharsText(chars), text, i + 1)
    ensures Spans(text, i, depth, start, false) == Spans(text, i + 1 + |CharsText(chars)|, depth, start, false)
  {
    ScanChars(text, i + 1, chars, depth, start);
  }

  lemma {:induction false} ScanNested(text: string, i: nat, b: Body, depth: nat, start: nat)
    requires b.Nested? && BodyOk(b) && Stands(BodyText(b), text, i) && depth > 0
    ensures Spans(text, i, depth, start, false) == Spans(text, i + 2 + |BodyText(b.inner)|, depth, start, false)
    decreases b, 0
  {
    NestedParts(text, i, b.inner, b.rest);
    ScanBody(text, i + 1, i + 1 + |BodyText(b.inner)|, b.inner, depth + 1, start);
  }

  lemma PlainParts(text: string, i: nat, c: char, rest: Body)
    requires Stands(BodyText(Plain(c, rest)), text, i)
    ensures i < |text| && text[i] == c && Stands(BodyText(rest), text, i + 1)
  {
    StandsSplit([c], BodyText(rest), text, i);
    StandsFirst([c], text, i);
  }

  lemma QuotedParts(text: string, i: nat, chars: Chars, rest: Body)
    requires Stands(BodyText(Quoted(chars, rest)), text, i)
    ensures i < |text| && text[i] == '"'
    ensures Stands(CharsText(chars), text, i + 1) && Stands(BodyText(rest), text, i + 1 + |CharsText(chars)|)
    ensures |BodyText(Quoted(chars, rest))| == 1 + |CharsText(chars)| + |BodyText(rest)|
  {
    StandsSplit("\"", CharsText(chars) + BodyText(rest), text, i);
    StandsFirst("\"", text, i);
    StandsSplit(CharsText(chars), BodyText(rest), text, i + 1);
  }

  lemma NestedParts(text: string, i: nat, inner: Body, rest: Body)
    requires Stands(BodyText(Nested(inner, rest)), text, i)
    ensures var close := i + 1 + |BodyText(inner)|;
            && close < |text| && text[i] == '{' && text[close] == '}'
            && Stands(BodyText(inner), text, i + 1) && Stands(BodyText(rest), text, close + 1)
            && i + |BodyText(Nested(inner, rest))| == close + 1 + |BodyText(rest)|
  {
    StandsSplit("{", BodyText(inner) + ("}" + BodyText(rest)), text, i);
    StandsSplit(BodyText(inner), "}" + BodyText(rest), text, i + 1);
    StandsSplit("}", BodyText(rest), text, i + 1 + |BodyText(inner)|);
    StandsFirst("{", text, i);
    StandsFirst("}", text, i + 1 + |BodyText(inner)|);
  }

  lemma StandsFirst(part: string, text: string, i: nat)
    requires Stands(part, text, i) && part != ""
    ensures text[i] == part[0]
  {
    assert text[i + 0] == part[0];
  }

  lemma ScanObject(text: string, i: nat, b: Body, start: nat)
    requires BodyOk(b) && Stands(ObjectText(b), text, i)
    ensures var after := i + |ObjectText(b)|;
            Spans(text, i, 0, start, false) == [(i, after)] + Spans(text, after, 0, i, false)
  {
    StandsSplit("{", BodyText(b) + "}", text, i);
    StandsFirst("{", text, i);
    StandsSplit(BodyText(b), "}", text, i + 1);
    StandsFirst("}", text, i + 1 + |BodyText(b)|);
    ScanBody(text, i + 1, i + 1 + |BodyText(b)|, b, 1, i);
  }

  /** Text between objects: it opens neither a string nor an object. */
  predicate IsGap(s: string) { forall c | c in s :: c != '"' && c != '{' }

  lemma {:induction false} ScanGap(text: string, i: nat, gap: string, start: nat)
    requires IsGap(gap) && Stands(gap, text, i)
    ensures Spans(text, i, 0, start, false) == Spans(text, i + |gap|, 0, start, false)
    decreases |gap|
  {
    if gap != [] {
      assert gap == [gap[0]] + gap[1..];
      assert gap[0] in gap && forall c | c in gap[1..] :: c in gap;
      StandsSplit([gap[0]], gap[1..], text, i);
      StandsFirst([gap[0]], text, i);
      ScanGap(text, i + 1, gap[1..], start);
    }
  }

  /** Objects with gaps after each of them. */
  function Joined(items: seq<(Body, string)>): string {
    if items == [] then "" else ObjectText(items[0].0) + (items[0].1 + Joined(items[1..]))
  }

  predicate ItemsOk(items: seq<(Body, string)>) { forall item | item in items :: BodyOk(item.0) && IsGap(item.1) }

  /** The spans cut the items' objects out of the text, one for one. */
  ghost predicate Cuts(text: string, spans: seq<Span>, items: seq<(Body, string)>) {
    && |spans| == |items|
    && forall k | 0 <= k < |items| :: spans[k].0 < spans[k].1 <= |text| && Slice(text, spans[k]) == ObjectText(items[k].0)
  }

  lemma CutsFirst(text: string, i: nat, spans: seq<Span>, items: seq<(Body, string)>)
    requires items != [] && Stands(ObjectText(items[0].0), text, i) && Cuts(text, spans, items[1..])
    ensures Cuts(text, [(i, i + |ObjectText(items[0].0)|)] + spans, items)
  {
    var all := [(i, i + |ObjectText(items[0].0)|)] + spans;
    assert Slice(text, all[0]) == ObjectText(items[0].0);
    forall k | 1 <= k < |items|
      ensures all[k].0 < all[k].1 <= |text| && Slice(text, all[k]) == ObjectText(items[k].0)
    {
      assert all[k] == spans[k - 1] && items[k] == items[1..][k - 1];
    }
  }

  lemma {:induction false} ScanJoined(text: string, i: nat, items: seq<(Body, string)>, start: nat)
    requires ItemsOk(items) && Stands(Joined(items), text, i) && i + |Joined(items)| == |text|
    ensures Cuts(text, Spans(text, i, 0, start, false), items)
    decreases |items|
  {
    if items != [] {
      var (b, gap) := items[0];
      var tail := items[1..];
      var after := i + |ObjectText(b)|;
      StandsSplit(ObjectText(b), gap + Joined(tail), text, i);
      assert Spans(text, i, 0, start, false) == [(i, after)] + Spans(text, after, 0, i, false) by { ScanObject(text, i, b, start); }
      assert Cuts(text, Spans(text, after, 0, i, false), tail) by {
        StandsSplit(gap, Joined(tail), text, after);
        ScanGap(text, after, gap, i);
        ScanJoined(text, after + |gap|, tail, i);
      }
      CutsFirst(text, i, Spans(text, after, 0, i, false), items);
    }
  }

  /** Objects joined by harmless text are found exactly, however deep they nest and whatever their strings hold. */
  lemma JoinedObjectsAreFound(lead: string, items: seq<(Body, string)>)
    requires IsGap(lead) && ItemsOk(items)
    ensures Objects(lead + Joined(items)) == seq(|items|, k requires 0 <= k < |items| => ObjectText(items[k].0))
  {
    JoinedSpans(lead + Joined(items), lead, items);
    FoundTexts(lead + Joined(items), items);
  }

  lemma JoinedSpans(text: string, lead: string, items: seq<(Body, string)>)
    requires IsGap(lead) && ItemsOk(items)
    requires Stands(lead + Joined(items), text, 0) && |lead + Joined(items)| == |text|
    ensures Cuts(text, AllSpans(text), items)
  {
    StandsSplit(lead, Joined(items), text, 0);
    ScanGap(text, 0, lead, 0);
    ScanJoined(text, |lead|, items, 0);
  }

  lemma FoundTexts(text: string, items: seq<(Body, string)>)
    requires Cuts(text, AllSpans(text), items)
    ensures Objects(text) == seq(|items|, k requires 0 <= k < |items| => ObjectText(items[k].0))
  {
    var found := Objects(text);
    assert forall k | 0 <= k < |items| :: found[k] == ObjectText(items[k].0);
  }

  // One object: a letter, a nested object, and a string that holds a brace and an escaped quote.
  const SAMPLE := Plain('a', Nested(Plain('b', End), Quoted(Literal('}', Escaped('"', Done)), End)))

  lemma SampleText()
    ensures ObjectText(SAMPLE) == "{a{b}\"}\\\"\"}"
  {
    assert CharsText(Escaped('"', Done)) == "\\\"\"";
    assert CharsText(Literal('}', Escaped('"', Done))) == "}\\\"\"";
    assert BodyText(Quoted(Literal('}', Escaped('"', Done)), End)) == "\"}\\\"\"";
    assert BodyText(Plain('b', End)) == "b";
    assert BodyText(Nested(Plain('b', End), Quoted(Literal('}', Escaped('"', Done)), End))) == "{b}\"}\\\"\"";
  }

  /** A text with one object in it: braces in strings do not count, nor do escaped quotes end them. */
  lemma SampleIsFound()
    ensures Objects("x{a{b}\"}\\\"\"}y") == ["{a{b}\"}\\\"\"}"]
  {
    hide Objects;
    var items := [(SAMPLE, "y")];
    SampleText();
    assert items[1..] == [] && Joined([]) == "";
    assert Joined(items) == ObjectText(SAMPLE) + ("y" + "");
    assert "x" + Joined(items) == "x{a{b}\"}\\\"\"}y";
    JoinedObjectsAreFound("x", items);
  }
}
