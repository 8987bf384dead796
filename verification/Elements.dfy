/** Linear searches through markup, and listing one tag's elements. */
module Elements {
  import opened Basics
  import opened Letters

  /** String.indexOf: the first place at or after `from` where `part` stands. */
  function IndexOf(text: string, part: string, from: nat): (r: Option<nat>)
    ensures match r
            case Some(i) => from <= i && Stands(part, text, i) && forall k | from <= k < i :: !Stands(part, text, k)
            case None => forall k | from <= k :: !Stands(part, text, k)
    decreases |text| - from
  {
    if from + |part| > |text| then None
    else if Stands(part, text, from) then Some(from)
    else IndexOf(text, part, from + 1)
  }

  predicate IsWord(c: char) { 'a' <= c <= 'z' || 'A' <= c <= 'Z' || '0' <= c <= '9' || c == '_' }

  lemma CharInside(text: string, part: string, i: nat, p: nat)
    requires Stands(part, text, i)
    ensures i <= p < i + |part| ==> text[p] == part[p - i]
  {
    assert i <= p < i + |part| ==> text[i + (p - i)] == part[p - i];
  }

  // ----- One tag's elements ---------------------------------------------------------

  /** An element's attribute text (ending in a slash when it closes itself) and its content. */
  datatype Element = Element(attrs: string, inner: string)

  predicate IsTag(tag: string) { tag != "" && forall i | 0 <= i < |tag| :: IsWord(tag[i]) }

  predicate SelfClosing(attrs: string) { attrs != "" && attrs[|attrs| - 1] == '/' }

  function CloseTag(tag: string): string { "</" + tag + ">" }

  predicate EndsName(text: string, i: nat) { i < |text| && (text[i] == '>' || text[i] == ' ' || text[i] == '/') }

  lemma FirstChar(text: string, part: string, i: nat)
    ensures part != "" && Stands(part, text, i) ==> text[i] == part[0]
  {
    assert part != "" && Stands(part, text, i) ==> text[i + 0] == part[0];
  }

  lemma CloseAfterName(xml: string, tag: string, open: nat, gt: nat)
    requires IsTag(tag) && Stands("<" + tag, xml, open) && gt >= open && Stands(">", xml, gt)
    ensures open + 1 + |tag| <= gt < |xml|
  {
    FirstChar(xml, ">", gt);
    CharInside(xml, "<" + tag, open, gt);
  }

  /** One turn of the search: nothing more, a longer tag name to step over, or an element. */
  datatype Turn = Over | Skip(at: nat) | Found(element: Element, at: nat)

  function NextTurn(xml: string, tag: string, at: nat): (t: Turn)
    requires IsTag(tag)
    ensures !t.Over? ==> at < t.at <= |xml|
  {
    var open := IndexOf(xml, "<" + tag, at);
    if open == None then Over
    else
      var name := open.value + 1 + |tag|;
      if !EndsName(xml, name) then Skip(open.value + 1)
      else
        var gt := IndexOf(xml, ">", open.value);
        if gt == None then Over
        else
          CloseAfterName(xml, tag, open.value, gt.value);
          var attrs := xml[name..gt.value];
          if SelfClosing(attrs) then Found(Element(attrs, ""), gt.value + 1)
          else
            var end := IndexOf(xml, CloseTag(tag), gt.value);
            if end == None then Over
            else
              FirstChar(xml, CloseTag(tag), end.value);
              FirstChar(xml, ">", gt.value);
              Found(Element(attrs, xml[gt.value + 1..end.value]), end.value + |CloseTag(tag)|)
  }

  function ElementsFrom(xml: string, tag: string, at: nat): seq<Element>
    requires IsTag(tag)
    decreases |xml| - at
  {
    match NextTurn(xml, tag, at)
    case Over => []
    case Skip(next) => ElementsFrom(xml, tag, next)
    case Found(e, next) => [e] + ElementsFrom(xml, tag, next)
  }

  method ListElements(xml: string, tag: string) returns (out: seq<Element>)
    requires IsTag(tag)
    ensures out == ElementsFrom(xml, tag, 0)
  {
    out := [];
    var at: nat := 0;
    ghost var all, rest := ElementsFrom(xml, tag, 0), ElementsFrom(xml, tag, 0);
    while true
      invariant rest == ElementsFrom(xml, tag, at) && out + rest == all
      decreases |xml| - at
    {
      match NextTurn(xml, tag, at) {
        case Over =>
          return;
        case Skip(next) =>
          at := next;
        case Found(e, next) =>
          at := next;
          rest := ElementsFrom(xml, tag, next);
          assert out + ([e] + rest) == out + [e] + rest;
          out := out + [e];
      }
    }
  }

  // ----- A list of elements is read back --------------------------------------------------

  predicate ElementOk(e: Element, tag: string) {
    && (e.attrs == "" || EndsName(e.attrs, 0))
    && (forall i | 0 <= i < |e.attrs| :: e.attrs[i] != '>')
    && (SelfClosing(e.attrs) ==> e.inner == "")
    && (forall k | 0 <= k < |e.inner| :: !Stands(CloseTag(tag), e.inner + CloseTag(tag), k))
  }

  function ElementText(e: Element, tag: string): string {
    ("<" + tag) + (e.attrs + (">" + Rest(e, tag)))
  }

  predicate IsGap(s: string) { forall i | 0 <= i < |s| :: s[i] != '<' }

  /** Elements with text after each of them. */
  function Joined(items: seq<(Element, string)>, tag: string): string {
    if items == [] then "" else ElementText(items[0].0, tag) + (items[0].1 + Joined(items[1..], tag))
  }

  lemma SliceOf(part: string, text: string, i: nat)
    requires Stands(part, text, i)
    ensures text[i..i + |part|] == part
  {
  }

  /** Where the search finds `part`, given where it stands and that it stands nowhere before. */
  lemma FoundAt(text: string, part: string, from: nat, i: nat)
    requires from <= i && Stands(part, text, i) && forall k | from <= k < i :: !Stands(part, text, k)
    ensures IndexOf(text, part, from) == Some(i)
  {
  }

  /** The first '>' after an element's name ends its attributes. */
  lemma FindsAttrsEnd(xml: string, tag: string, e: Element, i: nat)
    requires IsTag(tag) && ElementOk(e, tag)
    requires Stands("<" + tag, xml, i) && Stands(e.attrs, xml, i + 1 + |tag|) && Stands(">", xml, i + 1 + |tag| + |e.attrs|)
    ensures IndexOf(xml, ">", i) == Some(i + 1 + |tag| + |e.attrs|)
    ensures EndsName(xml, i + 1 + |tag|)
  {
    var name, gt := i + 1 + |tag|, i + 1 + |tag| + |e.attrs|;
    FirstChar(xml, ">", gt);
    forall k | i <= k < gt ensures !Stands(">", xml, k) {
      CharInside(xml, "<" + tag, i, k);
      CharInside(xml, e.attrs, name, k);
      FirstChar(xml, ">", k);
    }
    FoundAt(xml, ">", i, gt);
    CharInside(xml, e.attrs, name, name);
  }

  /** The first closing tag after the attributes ends the content. */
  lemma FindsInnerEnd(xml: string, tag: string, e: Element, gt: nat)
    requires IsTag(tag) && ElementOk(e, tag) && Stands(">", xml, gt) && Stands(e.inner + CloseTag(tag), xml, gt + 1)
    ensures IndexOf(xml, CloseTag(tag), gt) == Some(gt + 1 + |e.inner|)
  {
    var close, whole := CloseTag(tag), e.inner + CloseTag(tag);
    StandsSplit(e.inner, close, xml, gt + 1);
    FirstChar(xml, ">", gt);
    forall k | gt <= k < gt + 1 + |e.inner| ensures !Stands(close, xml, k) {
      FirstChar(xml, close, k);
      if k > gt { HasInside(xml, whole, close, gt + 1, k); }
    }
    FoundAt(xml, close, gt, gt + 1 + |e.inner|);
  }

  lemma HasInside(text: string, whole: string, part: string, base: nat, k: nat)
    requires Stands(whole, text, base) && base <= k && k - base + |part| <= |whole|
    ensures Stands(part, text, k) ==> Stands(part, whole, k - base)
  {
    if Stands(part, text, k) {
      forall j | 0 <= j < |part| ensures whole[k - base + j] == part[j] {
        CharInside(text, whole, base, k + j);
      }
    }
  }

  /** The search reaches an element past text without a '<'. */
  lemma FindsElement(xml: string, tag: string, at: nat, i: nat)
    requires Stands("<" + tag, xml, i) && at <= i && forall k | at <= k < i :: xml[k] != '<'
    ensures IndexOf(xml, "<" + tag, at) == Some(i)
  {
    forall k | at <= k < i ensures !Stands("<" + tag, xml, k) {
      FirstChar(xml, "<" + tag, k);
    }
    FoundAt(xml, "<" + tag, at, i);
  }

  function Rest(e: Element, tag: string): string {
    if SelfClosing(e.attrs) then "" else e.inner + CloseTag(tag)
  }

  lemma ElementParts(xml: string, tag: string, e: Element, i: nat)
    requires Stands(ElementText(e, tag), xml, i)
    ensures var name, gt := i + 1 + |tag|, i + 1 + |tag| + |e.attrs|;
            && Stands("<" + tag, xml, i) && Stands(e.attrs, xml, name) && Stands(">", xml, gt) && Stands(Rest(e, tag), xml, gt + 1)
            && i + |ElementText(e, tag)| == gt + 1 + |Rest(e, tag)|
            && xml[name..gt] == e.attrs
  {
    var name, gt := i + 1 + |tag|, i + 1 + |tag| + |e.attrs|;
    StandsSplit("<" + tag, e.attrs + (">" + Rest(e, tag)), xml, i);
    StandsSplit(e.attrs, ">" + Rest(e, tag), xml, name);
    StandsSplit(">", Rest(e, tag), xml, gt);
    SliceOf(e.attrs, xml, name);
  }

  /** Where an element's opening tag begins, ends and has its attributes. */
  lemma OpeningTag(xml: string, tag: string, e: Element, at: nat, i: nat, name: nat, gt: nat)
    requires IsTag(tag) && ElementOk(e, tag) && Stands(ElementText(e, tag), xml, i)
    requires at <= i && forall k | at <= k < i :: xml[k] != '<'
    requires name == i + 1 + |tag| && gt == name + |e.attrs|
    ensures gt < |xml| && xml[name..gt] == e.attrs && i + |ElementText(e, tag)| == gt + 1 + |Rest(e, tag)|
    ensures IndexOf(xml, "<" + tag, at) == Some(i) && IndexOf(xml, ">", i) == Some(gt) && EndsName(xml, name)
  {
    ElementParts(xml, tag, e, i);
    FindsElement(xml, tag, at, i);
    FindsAttrsEnd(xml, tag, e, i);
  }

  lemma Content(xml: string, tag: string, e: Element, i: nat, gt: nat, end: nat)
    requires IsTag(tag) && ElementOk(e, tag) && Stands(ElementText(e, tag), xml, i) && !SelfClosing(e.attrs)
    requires gt == i + 1 + |tag| + |e.attrs| && end == gt + 1 + |e.inner|
    ensures IndexOf(xml, CloseTag(tag), gt) == Some(end) && end <= |xml| && xml[gt + 1..end] == e.inner
  {
    ElementParts(xml, tag, e, i);
    FindsInnerEnd(xml, tag, e, gt);
    InnerSlice(xml, tag, e, gt + 1);
  }

  lemma ReadsElement(xml: string, tag: string, e: Element, at: nat, i: nat)
    requires IsTag(tag) && ElementOk(e, tag) && Stands(ElementText(e, tag), xml, i)
    requires at <= i && forall k | at <= k < i :: xml[k] != '<'
    ensures NextTurn(xml, tag, at) == Found(e, i + |ElementText(e, tag)|)
  {
    var name, gt := i + 1 + |tag|, i + 1 + |tag| + |e.attrs|;
    OpeningTag(xml, tag, e, at, i, name, gt);
    if SelfClosing(e.attrs) {
      TurnClosesItself(xml, tag, at, i, gt);
    } else {
      var end := gt + 1 + |e.inner|;
      Content(xml, tag, e, i, gt, end);
      TurnHasContent(xml, tag, at, i, gt, end);
    }
  }

  lemma TurnClosesItself(xml: string, tag: string, at: nat, i: nat, gt: nat)
    requires IsTag(tag) && IndexOf(xml, "<" + tag, at) == Some(i) && IndexOf(xml, ">", i) == Some(gt)
    requires i + 1 + |tag| <= gt < |xml| && EndsName(xml, i + 1 + |tag|) && SelfClosing(xml[i + 1 + |tag|..gt])
    ensures NextTurn(xml, tag, at) == Found(Element(xml[i + 1 + |tag|..gt], ""), gt + 1)
  {
  }

  lemma TurnHasContent(xml: string, tag: string, at: nat, i: nat, gt: nat, end: nat)
    requires IsTag(tag) && IndexOf(xml, "<" + tag, at) == Some(i) && IndexOf(xml, ">", i) == Some(gt)
    requires i + 1 + |tag| <= gt < |xml| && EndsName(xml, i + 1 + |tag|) && !SelfClosing(xml[i + 1 + |tag|..gt])
    requires IndexOf(xml, CloseTag(tag), gt) == Some(end) && gt < end <= |xml|
    ensures NextTurn(xml, tag, at) == Found(Element(xml[i + 1 + |tag|..gt], xml[gt + 1..end]), end + |CloseTag(tag)|)
  {
  }

  lemma InnerSlice(xml: string, tag: string, e: Element, i: nat)
    requires Stands(e.inner + CloseTag(tag), xml, i)
    ensures xml[i..i + |e.inner|] == e.inner
  {
    StandsSplit(e.inner, CloseTag(tag), xml, i);
    SliceOf(e.inner, xml, i);
  }

  predicate ItemsOk(items: seq<(Element, string)>, tag: string) {
    forall k | 0 <= k < |items| :: ElementOk(items[k].0, tag) && IsGap(items[k].1)
  }

  function ElementsOf(items: seq<(Element, string)>): seq<Element> {
    seq(|items|, k requires 0 <= k < |items| => items[k].0)
  }

  lemma FirstElement(items: seq<(Element, string)>)
    requires items != []
    ensures ElementsOf(items) == [items[0].0] + ElementsOf(items[1..])
  {
  }

  lemma NothingInGap(xml: string, tag: string, gap: string, at: nat)
    requires IsTag(tag) && IsGap(gap) && Stands(gap, xml, at)
    ensures forall k | at <= k < at + |gap| :: xml[k] != '<'
    ensures at + |gap| == |xml| ==> NextTurn(xml, tag, at) == Over
  {
    forall k | at <= k < at + |gap| ensures xml[k] != '<' {
      CharInside(xml, gap, at, k);
    }
    var open := IndexOf(xml, "<" + tag, at);
    if open.Some? { FirstChar(xml, "<" + tag, open.value); }
  }

  lemma AfterTurn(xml: string, tag: string, at: nat, turn: Turn)
    requires IsTag(tag) && NextTurn(xml, tag, at) == turn
    ensures ElementsFrom(xml, tag, at) ==
      match turn case Over => [] case Skip(next) => ElementsFrom(xml, tag, next) case Found(e, next) => [e] + ElementsFrom(xml, tag, next)
  {
  }

  lemma LastTurn(xml: string, tag: string, gap: string, at: nat)
    requires IsTag(tag) && IsGap(gap) && Stands(gap, xml, at) && at + |gap| == |xml|
    ensures ElementsFrom(xml, tag, at) == []
  {
    NothingInGap(xml, tag, gap, at);
    AfterTurn(xml, tag, at, Over);
  }

  lemma FoundTurn(xml: string, tag: string, gap: string, e: Element, rest: string, at: nat, next: nat)
    requires IsTag(tag) && IsGap(gap) && ElementOk(e, tag) && next == at + |gap| + |ElementText(e, tag)|
    requires Stands(gap + (ElementText(e, tag) + rest), xml, at)
    ensures NextTurn(xml, tag, at) == Found(e, next) && Stands(rest, xml, next)
  {
    var text, i := ElementText(e, tag), at + |gap|;
    assert Stands(gap, xml, at) && Stands(text + rest, xml, i) by { StandsSplit(gap, text + rest, xml, at); }
    assert Stands(text, xml, i) && Stands(rest, xml, next) by { StandsSplit(text, rest, xml, i); }
    assert forall k | at <= k < i :: xml[k] != '<' by { NothingInGap(xml, tag, gap, at); }
    ReadsElement(xml, tag, e, at, i);
  }

  lemma {:induction false} ReadsJoined(xml: string, tag: string, gap: string, items: seq<(Element, string)>, at: nat)
    requires IsTag(tag) && ItemsOk(items, tag) && IsGap(gap)
    requires Stands(gap + Joined(items, tag), xml, at) && at + |gap| + |Joined(items, tag)| == |xml|
    ensures ElementsFrom(xml, tag, at) == ElementsOf(items)
    decreases |items|
  {
    if items == [] {
      assert gap + Joined(items, tag) == gap;
      LastTurn(xml, tag, gap, at);
    } else {
      var e, tail, next := items[0].0, items[1..], at + |gap| + |ElementText(items[0].0, tag)|;
      var rest := items[0].1 + Joined(tail, tag);
      assert Joined(items, tag) == ElementText(e, tag) + rest;
      FoundTurn(xml, tag, gap, e, rest, at, next);
      assert ElementsFrom(xml, tag, next) == ElementsOf(tail) by { ReadsJoined(xml, tag, items[0].1, tail, next); }
      AfterTurn(xml, tag, at, Found(e, next));
      FirstElement(items);
    }
  }

  /** A tag's elements, written one after another with plain text around them, are listed exactly. */
  lemma ElementsAreReadBack(lead: string, items: seq<(Element, string)>, tag: string)
    requires IsTag(tag) && ItemsOk(items, tag) && IsGap(lead)
    ensures ElementsFrom(lead + Joined(items, tag), tag, 0) == ElementsOf(items)
  {
    ReadsJoined(lead + Joined(items, tag), tag, lead, items, 0);
  }

  // ----- What is written -----------------------------------------------------------------

  const WORD_LETTERS: string := LOWER_LETTERS + UPPER_LETTERS + DIGITS + "_"

  /** The letters of words. */
  lemma WordLettersAre(c: char)
    ensures IsWord(c) <==> c in WORD_LETTERS
  {
    hide LOWER_LETTERS, UPPER_LETTERS, DIGITS;
    LowerLettersAre(c);
    UpperLettersAre(c);
    DigitsAre(c);
    InJoined(c, LOWER_LETTERS + UPPER_LETTERS + DIGITS, "_");
    InJoined(c, LOWER_LETTERS + UPPER_LETTERS, DIGITS);
    InJoined(c, LOWER_LETTERS, UPPER_LETTERS);
  }

  /** An element as markup: one whose attributes end in a slash stands alone, any other has its content and an end tag. */
  lemma ElementsAreWritten(e: Element, tag: string)
    ensures ElementText(e, tag) ==
      if e.attrs != "" && e.attrs[|e.attrs| - 1] == '/' then "<" + tag + e.attrs + ">"
      else "<" + tag + e.attrs + ">" + e.inner + "</" + tag + ">"
  {
    var open, attrs, rest := "<" + tag, e.attrs, Rest(e, tag);
    assert open + (attrs + (">" + rest)) == open + attrs + ">" + rest;
    if e.attrs != "" && e.attrs[|e.attrs| - 1] == '/' {
      assert open + attrs + ">" + "" == open + attrs + ">";
    } else {
      assert open + attrs + ">" + (e.inner + ("</" + tag + ">")) == open + attrs + ">" + e.inner + "</" + tag + ">";
    }
  }

  lemma InThree(c: char)
    ensures c in " />" <==> c == ' ' || c == '/' || c == '>'
  {
    assert " />"[0] == ' ' && " />"[1] == '/' && " />"[2] == '>';
  }

  /** Which elements can be read back: attributes set off by a space and without a closing bracket, content without the end tag. */
  lemma ElementsThatCanBeRead(e: Element, tag: string)
    ensures ElementOk(e, tag) <==>
      && (e.attrs == "" || e.attrs[0] in " />")
      && '>' !in e.attrs
      && (e.attrs != "" && e.attrs[|e.attrs| - 1] == '/' ==> e.inner == "")
      && (forall k | 0 <= k < |e.inner| :: !Stands("</" + tag + ">", e.inner + ("</" + tag + ">"), k))
  {
    hide Stands;
    if e.attrs != "" { InThree(e.attrs[0]); }
    assert e.attrs != "" ==> (EndsName(e.attrs, 0) <==> e.attrs[0] in " />");
    assert '>' !in e.attrs <==> forall i | 0 <= i < |e.attrs| :: e.attrs[i] != '>';
    var close := "</" + tag + ">";
    assert close == CloseTag(tag);
    assert (forall k | 0 <= k < |e.inner| :: !Stands(CloseTag(tag), e.inner + CloseTag(tag), k))
      <==> (forall k | 0 <= k < |e.inner| :: !Stands(close, e.inner + close, k));
  }
}
