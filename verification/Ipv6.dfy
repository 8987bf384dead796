/** IPv6 text: its eight groups from any spelling, and which addresses are public. */
module Ipv6 {
  import opened Basics
  import opened Bits
  import opened Numerals
  import opened Net

  // ----- The parser -------------------------------------------------------------

  /** `RangeError` is what the source's Array constructor throws on a negative length. */
  datatype Outcome = Groups(groups: seq<Group>) | Null | RangeError

  type Group = g: int | 0 <= g < 0x1_0000

  function LowerChar(c: char): char { if 'A' <= c <= 'Z' then c - 'A' + 'a' else c }

  function Lower(s: string): (t: string)
    ensures |t| == |s|
  {
    seq(|s|, i requires 0 <= i < |s| => LowerChar(s[i]))
  }

  predicate AllDecimal(s: string) { s != "" && AllDigits(s, 10) }

  predicate DecimalParts(parts: seq<string>) { forall k | 0 <= k < |parts| :: AllDecimal(parts[k]) }

  /** The whole text matches \d+\.\d+\.\d+\.\d+ */
  predicate IsDotted(s: string) {
    |Split(s, '.')| == 4 && DecimalParts(Split(s, '.'))
  }

  /** Where the leftmost match of that pattern at the end of the text begins. */
  function DottedFrom(s: string, i: nat): Option<nat>
    decreases |s| - i
  {
    if i > |s| then None else if IsDotted(s[i..]) then Some(i) else DottedFrom(s, i + 1)
  }

  /** String.split on "::". */
  function SplitDouble(s: string): (parts: seq<string>)
    ensures parts != []
    decreases |s|
  {
    var n := FirstDouble(s);
    if n >= |s| then [s] else [s[..n]] + SplitDouble(s[n + 2..])
  }

  function FirstDouble(s: string): (n: nat)
    ensures n < |s| ==> n + 2 <= |s|
  {
    if |s| < 2 then |s| else if s[0] == ':' && s[1] == ':' then 0 else 1 + FirstDouble(s[1..])
  }

  function Pieces(s: string): seq<string> { if s == "" then [] else Split(s, ':') }

  predicate IsGroup(s: string) { 1 <= |s| <= 4 && AllDigits(s, 16) }

  function GroupsOf(pieces: seq<string>): Outcome {
    if |pieces| != 8 || exists k | 0 <= k < |pieces| :: !IsGroup(pieces[k]) then Null
    else Groups(seq(8, k requires 0 <= k < 8 => GroupOf(pieces[k])))
  }

  /** parseInt of one to four hexadecimal digits. */
  function GroupOf(s: string): Group {
    if IsGroup(s) then GroupBound(s, 4); ParseText(s, 16) else 0
  }

  function Power16(k: nat): (p: nat)
    ensures p >= 1
  {
    if k == 0 then 1 else 16 * Power16(k - 1)
  }

  lemma {:induction false} GroupBound(s: string, k: nat)
    requires |s| <= k && AllDigits(s, 16)
    ensures ParseText(s, 16) < Power16(k)
    ensures Power16(4) == 0x1_0000
  {
    assert Power16(4) == 0x1_0000 by { assert Power16(2) == 256; }
    if s != [] { GroupBound(s[..|s| - 1], k - 1); }
  }

  function Zeros(n: nat): (z: seq<string>)
    ensures |z| == n
  {
    seq(n, _ => "0")
  }

  datatype Parts = These(pieces: seq<string>) | TwoDoubles | TooMany

  /** The groups' text once any dotted ending has been rewritten. */
  function PartsOf(a: string): Parts { PartsFrom(SplitDouble(a)) }

  function PartsFrom(parts: seq<string>): Parts
    requires parts != []
  {
    if |parts| > 2 then TwoDoubles
    else if |parts| == 1 then These(Pieces(parts[0]))
    else Around(Pieces(parts[0]), Pieces(parts[1]))
  }

  function Around(h: seq<string>, t: seq<string>): Parts {
    if |h| + |t| > 8 then TooMany else These(h + Zeros(8 - |h| - |t|) + t)
  }

  function PlainGroups(a: string): Outcome {
    match PartsOf(a)
    case These(pieces) => GroupsOf(pieces)
    case TwoDoubles => Null
    case TooMany => RangeError
  }

  function HexPair(n: Word): string { ToText(ShiftRightUnsigned(n, 16), 16) + ":" + ToText(ToUint32(And(n, 0xffff)), 16) }

  function Ipv6Groups(address: string): Outcome {
    ReadLower(Split(Lower(address), '%')[0])
  }

  // ----- Spellings (section 2.2 of RFC 4291) ----------------------------------------

  /**
   * Groups of one to four hexadecimal digits before and after a "::" (or eight of
   * them without one), the last two written as a dotted quad if `quad` is given.
   */
  datatype Spelling = Spelling(head: seq<string>, compressed: bool, tail: seq<string>, quad: Option<Quad>)

  predicate Hex(s: string) { 1 <= |s| <= 4 && AllDigits(Lower(s), 16) }

  function Width(sp: Spelling): nat { |sp.head| + |sp.tail| + if sp.quad.Some? then 2 else 0 }

  predicate SpellingOk(sp: Spelling) {
    && (forall k | 0 <= k < |sp.head| :: Hex(sp.head[k]))
    && (forall k | 0 <= k < |sp.tail| :: Hex(sp.tail[k]))
    && if sp.compressed then Width(sp) <= 7 else sp.tail == [] && Width(sp) == 8
  }

  function QuadPart(sp: Spelling): seq<string> { if sp.quad.Some? then [V4Text(sp.quad.value)] else [] }

  function Spelled(sp: Spelling): string {
    if sp.compressed then Join(sp.head, ':') + "::" + Join(sp.tail + QuadPart(sp), ':')
    else Join(sp.head + QuadPart(sp), ':')
  }

  function HexValue(s: string): Group { GroupOf(Lower(s)) }

  function Values(pieces: seq<string>): seq<Group> {
    seq(|pieces|, k requires 0 <= k < |pieces| => HexValue(pieces[k]))
  }

  function QuadValues(sp: Spelling): seq<Group> {
    if sp.quad.Some? then
      var q := sp.quad.value;
      [q.a * 256 + q.b, q.c * 256 + q.d]
    else []
  }

  /** The address a spelling denotes. */
  function Denoted(sp: Spelling): (groups: seq<Group>)
    requires SpellingOk(sp)
    ensures |groups| == 8
  {
    Values(sp.head) + seq(8 - Width(sp), _ => 0) + Values(sp.tail) + QuadValues(sp)
  }

  // ----- Plain spellings are read back ------------------------------------------------

  predicate Single(s: string) { forall i | 0 < i < |s| :: !(s[i - 1] == ':' && s[i] == ':') }

  lemma SingleTail(s: string)
    requires Single(s) && s != ""
    ensures Single(s[1..])
  {
    forall i | 0 < i < |s[1..]| ensures !(s[1..][i - 1] == ':' && s[1..][i] == ':') {
      assert s[1..][i] == s[i + 1];
    }
  }

  lemma {:induction false} NoDouble(s: string)
    requires Single(s)
    ensures FirstDouble(s) == |s|
  {
    if |s| >= 2 {
      assert !(s[0] == ':' && s[1] == ':');
      SingleTail(s);
      NoDouble(s[1..]);
    }
  }

  lemma {:induction false} DoubleAfter(a: string, b: string)
    requires Single(a) && (a != "" ==> a[|a| - 1] != ':')
    ensures FirstDouble(a + "::" + b) == |a|
  {
    var s := a + "::" + b;
    if a == "" {
      assert s[0] == ':' && s[1] == ':';
    } else {
      assert s[0] == a[0] && s[1] == (a + ":")[1];
      assert |a| > 1 ==> !(a[0] == ':' && a[1] == ':');
      assert s[1..] == a[1..] + "::" + b;
      SingleTail(a);
      DoubleAfter(a[1..], b);
    }
  }

  /** Pieces without a colon, none of them empty. */
  predicate Clean(pieces: seq<string>) { forall k | 0 <= k < |pieces| :: pieces[k] != "" && Without(pieces[k], ':') }

  /** Joined by colons such pieces never put two colons side by side, nor one at an end. */
  lemma {:induction false} JoinedIsSingle(pieces: seq<string>)
    requires Clean(pieces)
    ensures var s := Join(pieces, ':');
            Single(s) && (pieces != [] ==> s != "" && s[0] != ':' && s[|s| - 1] != ':')
  {
    if |pieces| > 1 {
      JoinedIsSingle(pieces[1..]);
      SingleConcat(pieces[0], Join(pieces[1..], ':'));
    }
  }

  lemma SingleConcat(p: string, rest: string)
    requires Without(p, ':') && Single(rest) && rest != "" && rest[0] != ':' && p != ""
    ensures Single(p + [':'] + rest)
  {
    var s := p + [':'] + rest;
    forall i | 0 < i < |s| ensures !(s[i - 1] == ':' && s[i] == ':') {
      if i > |p| + 1 { assert s[i] == rest[i - |p| - 1] && s[i - 1] == rest[i - |p| - 1 - 1]; }
    }
  }

  lemma PiecesOfJoin(pieces: seq<string>)
    requires Clean(pieces)
    ensures Pieces(Join(pieces, ':')) == pieces
  {
    JoinedIsSingle(pieces);
    if pieces != [] { SplitUndoesJoin(pieces, ':'); }
  }

  /** Splitting at "::" and ":" recovers the pieces of a spelling without a dotted quad. */
  lemma CompressedIsSplit(head: seq<string>, tail: seq<string>)
    requires Clean(head) && Clean(tail) && |head| + |tail| <= 8
    ensures PartsOf(Join(head, ':') + "::" + Join(tail, ':')) == These(head + Zeros(8 - |head| - |tail|) + tail)
  {
    var h, t := Join(head, ':'), Join(tail, ':');
    assert PartsOf(h + "::" + t) == Around(Pieces(h), Pieces(t)) by {
      JoinedIsSingle(head);
      JoinedIsSingle(tail);
      SplitsInTwo(h, t);
    }
    assert Pieces(h) == head by { PiecesOfJoin(head); }
    assert Pieces(t) == tail by { PiecesOfJoin(tail); }
  }

  lemma FullIsSplit(pieces: seq<string>)
    requires Clean(pieces)
    ensures PartsOf(Join(pieces, ':')) == These(pieces)
  {
    var h := Join(pieces, ':');
    assert SplitDouble(h) == [h] by {
      JoinedIsSingle(pieces);
      NoDouble(h);
    }
    assert Pieces(h) == pieces by { PiecesOfJoin(pieces); }
  }

  lemma SplitsInTwo(h: string, t: string)
    requires Single(h) && Single(t) && (h != "" ==> h[|h| - 1] != ':')
    ensures SplitDouble(h + "::" + t) == [h, t]
    ensures PartsOf(h + "::" + t) == Around(Pieces(h), Pieces(t))
  {
    var s := h + "::" + t;
    DoubleAfter(h, t);
    NoDouble(t);
    assert s[..|h|] == h && s[|h| + 2..] == t;
  }

  // ----- Dotted endings ----------------------------------------------------------------

  lemma {:induction false} NoSeparator(s: string, c: char)
    requires Without(s, c)
    ensures Split(s, c) == [s]
  {
  }

  /** A text all of whose dot-separated parts are digits has no colon. */
  lemma {:induction false} DottedHasNoColon(s: string)
    requires DecimalParts(Split(s, '.'))
    ensures Without(s, ':')
    decreases |s|
  {
    var n, parts := FirstOf(s, '.'), Split(s, '.');
    assert AllDecimal(parts[0]);
    forall i | 0 <= i < n ensures s[i] != ':' {
      assert s[i] == s[..n][i] && DigitValue(parts[0][i]) < 10;
    }
    if n < |s| {
      var rest := s[n + 1..];
      assert parts == [s[..n]] + Split(rest, '.');
      forall k | 0 <= k < |Split(rest, '.')| ensures AllDecimal(Split(rest, '.')[k]) {
        assert parts[k + 1] == Split(rest, '.')[k];
      }
      DottedHasNoColon(rest);
      forall i | n < i < |s| ensures s[i] != ':' {
        assert s[i] == rest[i - n - 1];
      }
    }
  }

  /** The dotted quad at the end is found, whole, when a colon stands before it. */
  lemma {:induction false} DottedIsFound(front: string, q: Quad, i: nat)
    requires i <= |front| && front != "" && front[|front| - 1] == ':'
    ensures DottedFrom(front + V4Text(q), i) == Some(|front|)
    decreases |front| - i
  {
    var s := front + V4Text(q);
    if i == |front| {
      assert s[i..] == V4Text(q);
      V4TextSplits(q);
      assert IsDotted(V4Text(q));
    } else {
      var t := s[i..];
      assert t[|front| - 1 - i] == ':';
      if IsDotted(t) { DottedHasNoColon(t); }
      DottedIsFound(front, q, i + 1);
    }
  }

  lemma {:induction false} NothingDotted(s: string, i: nat)
    requires Without(s, '.')
    ensures DottedFrom(s, i) == None
    decreases |s| - i
  {
    if i <= |s| {
      NoSeparator(s[i..], '.');
      NothingDotted(s, i + 1);
    }
  }

  // ----- Letter case and zones --------------------------------------------------------------

  function LowerAll(pieces: seq<string>): (lowered: seq<string>)
    ensures |lowered| == |pieces|
  {
    seq(|pieces|, k requires 0 <= k < |pieces| => Lower(pieces[k]))
  }

  lemma LowerConcat(a: string, b: string)
    ensures Lower(a + b) == Lower(a) + Lower(b)
  {
  }

  lemma {:induction false} LowerJoin(pieces: seq<string>, c: char)
    requires LowerChar(c) == c
    ensures Lower(Join(pieces, c)) == Join(LowerAll(pieces), c)
  {
    if |pieces| > 1 {
      LowerJoin(pieces[1..], c);
      LowerConcat(pieces[0] + [c], Join(pieces[1..], c));
      LowerConcat(pieces[0], [c]);
      assert Lower([c]) == [c];
      assert LowerAll(pieces)[1..] == LowerAll(pieces[1..]);
    }
  }

  /** A hexadecimal group or a dotted quad, in lower case, has none of the other characters. */
  predicate LowerHex(s: string) { 1 <= |s| <= 4 && AllDigits(s, 16) }

  lemma HexIsClean(s: string)
    requires LowerHex(s)
    ensures s != "" && Without(s, ':') && Without(s, '.') && Without(s, '%')
  {
    assert forall i | 0 <= i < |s| :: DigitValue(s[i]) < 16;
  }

  lemma {:induction false} JoinWithout(pieces: seq<string>, c: char, d: char)
    requires c != d && forall k | 0 <= k < |pieces| :: Without(pieces[k], d)
    ensures Without(Join(pieces, c), d)
  {
    if |pieces| > 1 { JoinWithout(pieces[1..], c, d); }
  }

  lemma QuadIsLower(q: Quad)
    ensures Lower(V4Text(q)) == V4Text(q) && Without(V4Text(q), '%')
  {
    OctetIsLower(q.a);
    OctetIsLower(q.b);
    OctetIsLower(q.c);
    OctetIsLower(q.d);
    var parts := [ToText(q.a, 10), ToText(q.b, 10), ToText(q.c, 10), ToText(q.d, 10)];
    LowerJoin(parts, '.');
    assert LowerAll(parts) == parts;
    JoinWithout(parts, '.', '%');
  }

  lemma OctetIsLower(o: Octet)
    ensures Lower(ToText(o, 10)) == ToText(o, 10) && Without(ToText(o, 10), '%')
  {
    var s := ToText(o, 10);
    assert forall i | 0 <= i < |s| :: DigitValue(s[i]) < 10;
  }

  // ----- Every spelling is read back ---------------------------------------------------------

  /** Each piece is a group's text and each value its number. */
  predicate Reads(pieces: seq<string>, values: seq<Group>) {
    |pieces| == |values| && forall k | 0 <= k < |pieces| :: LowerHex(pieces[k]) && GroupOf(pieces[k]) == values[k]
  }

  lemma ReadsConcat(p: seq<string>, v: seq<Group>, q: seq<string>, w: seq<Group>)
    requires Reads(p, v) && Reads(q, w)
    ensures Reads(p + q, v + w)
  {
  }

  lemma ReadsHead(pieces: seq<string>)
    requires forall k | 0 <= k < |pieces| :: Hex(pieces[k])
    ensures Reads(LowerAll(pieces), Values(pieces))
  {
  }

  lemma ReadsZeros(n: nat)
    ensures Reads(Zeros(n), seq(n, _ => 0))
  {
    assert ParseText("0", 16) == ParseText("", 16) * 16 + DigitValue('0') by { assert "0"[..0] == ""; }
  }

  lemma HexText(v: nat)
    requires v < 0x1_0000
    ensures LowerHex(ToText(v, 16)) && GroupOf(ToText(v, 16)) == v
  {
    ParseUndoesToText(v, 16);
    HexDigits(v);
    HexDigits(v / 16);
    HexDigits(v / 16 / 16);
    HexDigits(v / 16 / 16 / 16);
  }

  lemma HexDigits(v: nat)
    ensures |ToText(v, 16)| == if v < 16 then 1 else |ToText(v / 16, 16)| + 1
  {
  }

  function QuadPieces(sp: Spelling): seq<string> {
    if sp.quad.Some? then
      var q := sp.quad.value;
      [ToText(q.a * 256 + q.b, 16), ToText(q.c * 256 + q.d, 16)]
    else []
  }

  lemma ReadsQuad(sp: Spelling)
    ensures Reads(QuadPieces(sp), QuadValues(sp))
  {
    if sp.quad.Some? {
      var q := sp.quad.value;
      HexText(q.a * 256 + q.b);
      HexText(q.c * 256 + q.d);
    }
  }

  /** The two halves of a quad's 32 bits, in hexadecimal. */
  lemma HexPairOfQuad(q: Quad)
    ensures HexPair(V4Value(q)) == ToText(q.a * 256 + q.b, 16) + ":" + ToText(q.c * 256 + q.d, 16)
  {
    Halves(V4Value(q));
    HalvesOfQuad(q);
  }

  lemma Halves(n: Word)
    ensures ShiftRightUnsigned(n, 16) == n / 0x1_0000 && ToUint32(And(n, 0xffff)) == n % 0x1_0000
  {
    UpperHalf(n);
    LowerHalf(n);
  }

  lemma UpperHalf(n: Word)
    ensures ShiftRightUnsigned(n, 16) == n / 0x1_0000
  {
    Pow2Values();
    assert ToUint32(n) == n;
  }

  lemma LowerHalf(n: Word)
    ensures ToUint32(And(n, 0xffff)) == n % 0x1_0000
  {
    assert And(n, 0xffff) == ToInt32(n % 0x1_0000) by {
      LowBits(n, 16);
      Pow2Values();
    }
    SmallIsSigned(n % 0x1_0000);
  }

  lemma HalvesOfQuad(q: Quad)
    ensures V4Value(q) / 0x1_0000 == q.a * 256 + q.b && V4Value(q) % 0x1_0000 == q.c * 256 + q.d
  {
    assert V4Value(q) == (q.a * 256 + q.b) * 0x1_0000 + (q.c * 256 + q.d);
  }

  function AllPieces(sp: Spelling): seq<string>
    requires SpellingOk(sp)
  {
    LowerAll(sp.head) + Zeros(8 - Width(sp)) + LowerAll(sp.tail) + QuadPieces(sp)
  }

  lemma AllPiecesAreRead(sp: Spelling)
    requires SpellingOk(sp)
    ensures GroupsOf(AllPieces(sp)) == Groups(Denoted(sp))
  {
    var n := 8 - Width(sp);
    ReadsHead(sp.head);
    ReadsHead(sp.tail);
    ReadsZeros(n);
    ReadsQuad(sp);
    var zeros: seq<Group> := seq(n, _ => 0);
    ReadsConcat(LowerAll(sp.head), Values(sp.head), Zeros(n), zeros);
    ReadsConcat(LowerAll(sp.head) + Zeros(n), Values(sp.head) + zeros, LowerAll(sp.tail), Values(sp.tail));
    ReadsConcat(LowerAll(sp.head) + Zeros(n) + LowerAll(sp.tail), Values(sp.head) + zeros + Values(sp.tail), QuadPieces(sp), QuadValues(sp));
    GroupsAreRead(AllPieces(sp), Denoted(sp));
  }

  lemma GroupsAreRead(pieces: seq<string>, values: seq<Group>)
    requires Reads(pieces, values) && |pieces| == 8
    ensures GroupsOf(pieces) == Groups(values)
  {
    assert forall k | 0 <= k < 8 :: IsGroup(pieces[k]);
    assert GroupsOf(pieces).groups == values;
  }

  /** A spelling in lower case: the pieces, and the text that stands before a dotted ending. */
  function Front(sp: Spelling): string {
    if sp.compressed then Join(LowerAll(sp.head), ':') + "::" + Before(LowerAll(sp.tail)) else Before(LowerAll(sp.head))
  }

  function Before(pieces: seq<string>): string { if pieces == [] then "" else Join(pieces, ':') + ":" }

  lemma {:induction false} JoinLast(pieces: seq<string>, last: string)
    ensures Join(pieces + [last], ':') == Before(pieces) + last
  {
    if pieces == [] {
      assert pieces + [last] == [last];
    } else if |pieces| == 1 {
      assert (pieces + [last])[1..] == [last];
    } else {
      JoinLast(pieces[1..], last);
      assert (pieces + [last])[1..] == pieces[1..] + [last];
    }
  }

  lemma JoinLastTwo(pieces: seq<string>, x: string, y: string)
    ensures Join(pieces + [x, y], ':') == Before(pieces) + (x + ":" + y)
  {
    assert pieces + [x, y] == pieces + [x] + [y];
    JoinLast(pieces + [x], y);
    JoinLast(pieces, x);
  }

  lemma HexesAreClean(pieces: seq<string>)
    requires forall k | 0 <= k < |pieces| :: LowerHex(pieces[k])
    ensures Clean(pieces)
    ensures Without(Join(pieces, ':'), '.') && Without(Join(pieces, ':'), '%')
  {
    forall k | 0 <= k < |pieces|
      ensures pieces[k] != "" && Without(pieces[k], ':') && Without(pieces[k], '.') && Without(pieces[k], '%')
    {
      HexIsClean(pieces[k]);
    }
    JoinWithout(pieces, ':', '.');
    JoinWithout(pieces, ':', '%');
  }

  /** The lower-case text of a spelling. */
  lemma LowerSpelled(sp: Spelling)
    requires SpellingOk(sp)
    ensures Lower(Spelled(sp)) ==
      if sp.compressed then Join(LowerAll(sp.head), ':') + "::" + Join(LowerAll(sp.tail) + QuadPart(sp), ':')
      else Join(LowerAll(sp.head) + QuadPart(sp), ':')
  {
    var quad := QuadPart(sp);
    assert LowerAll(quad) == quad by { if sp.quad.Some? { QuadIsLower(sp.quad.value); } }
    if sp.compressed {
      assert Lower(Join(sp.tail + quad, ':')) == Join(LowerAll(sp.tail) + quad, ':') by { LowerJoinWith(sp.tail, quad); }
      LowerJoin(sp.head, ':');
      LowerConcat(Join(sp.head, ':') + "::", Join(sp.tail + quad, ':'));
      LowerConcat(Join(sp.head, ':'), "::");
      assert Lower("::") == "::";
    } else {
      LowerJoinWith(sp.head, quad);
    }
  }

  lemma LowerJoinWith(pieces: seq<string>, quad: seq<string>)
    requires LowerAll(quad) == quad
    ensures Lower(Join(pieces + quad, ':')) == Join(LowerAll(pieces) + quad, ':')
  {
    LowerJoin(pieces + quad, ':');
    assert LowerAll(pieces + quad) == LowerAll(pieces) + quad;
  }

  lemma LowerDotted(sp: Spelling)
    requires SpellingOk(sp) && sp.quad.Some?
    ensures Lower(Spelled(sp)) == Front(sp) + V4Text(sp.quad.value)
  {
    LowerSpelled(sp);
    JoinLast(LowerAll(sp.tail), V4Text(sp.quad.value));
    JoinLast(LowerAll(sp.head), V4Text(sp.quad.value));
  }

  /** The parser's work on that text. */
  function ReadLower(a: string): Outcome {
    var dotted := DottedFrom(a, 0);
    if dotted == None then PlainGroups(a)
    else
      var at := Min(dotted.value, |a|);
      if !IsIPv4(a[at..]) then Null
      else PlainGroups(a[..at] + HexPair(ToUint32(Ipv4ToInt(a[at..]))))
  }

  lemma ZoneIsCut(text: string, zone: string)
    requires Without(Lower(text), '%') && (zone == "" || zone[0] == '%')
    ensures Ipv6Groups(text + zone) == ReadLower(Lower(text))
  {
    LowerConcat(text, zone);
    FirstPart(Lower(text), Lower(zone), '%');
  }

  lemma FirstPart(a: string, b: string, c: char)
    requires Without(a, c) && (b == "" || b[0] == c)
    ensures Split(a + b, c)[0] == a
  {
    FirstInConcat(a, b, c);
    assert (a + b)[..|a|] == a;
  }

  lemma PlainTextIsRead(sp: Spelling)
    requires SpellingOk(sp) && sp.quad == None
    ensures ReadLower(Lower(Spelled(sp))) == Groups(Denoted(sp))
    ensures Without(Lower(Spelled(sp)), '%')
  {
    var h, t, a := LowerAll(sp.head), LowerAll(sp.tail), Lower(Spelled(sp));
    assert a == if sp.compressed then Join(h, ':') + "::" + Join(t, ':') else Join(h, ':') by {
      LowerSpelled(sp);
      assert t + QuadPart(sp) == t && h + QuadPart(sp) == h;
    }
    assert Without(a, '.') && Without(a, '%') && Clean(h) && Clean(t) by {
      HexesAreClean(h);
      HexesAreClean(t);
    }
    NothingDotted(a, 0);
    assert AllPieces(sp) == if sp.compressed then h + Zeros(8 - |h| - |t|) + t else h;
    assert PartsOf(a) == These(AllPieces(sp)) by { if sp.compressed { CompressedIsSplit(h, t); } else { FullIsSplit(h); } }
    AllPiecesAreRead(sp);
  }

  /** A dotted ending after a colon is rewritten into two groups. */
  lemma DottedIsRewritten(front: string, q: Quad)
    requires front != "" && front[|front| - 1] == ':'
    ensures ReadLower(front + V4Text(q)) == PlainGroups(front + HexPair(V4Value(q)))
  {
    assert DottedFrom(front + V4Text(q), 0) == Some(|front|) by { DottedIsFound(front, q, 0); }
    assert IsIPv4(V4Text(q)) by { V4TextSplits(q); }
    Ipv4IsRead(q);
    WordIsUnsigned(V4Value(q));
    ReadsEnding(front, V4Text(q), V4Value(q));
  }

  lemma ReadsEnding(front: string, ending: string, n: Word)
    requires DottedFrom(front + ending, 0) == Some(|front|) && IsIPv4(ending) && ToUint32(Ipv4ToInt(ending)) == n
    ensures ReadLower(front + ending) == PlainGroups(front + HexPair(n))
  {
    var a := front + ending;
    assert a[|front|..] == ending && a[..|front|] == front;
  }

  lemma DottedTextIsRead(sp: Spelling)
    requires SpellingOk(sp) && sp.quad.Some?
    ensures ReadLower(Lower(Spelled(sp))) == Groups(Denoted(sp))
    ensures Without(Lower(Spelled(sp)), '%')
  {
    LowerDotted(sp);
    assert Without(Front(sp) + V4Text(sp.quad.value), '%') by {
      HexesAreClean(LowerAll(sp.head));
      HexesAreClean(LowerAll(sp.tail));
      QuadIsLower(sp.quad.value);
    }
    DottedIsRewritten(Front(sp), sp.quad.value);
    RewrittenIsRead(sp);
  }

  lemma RewrittenText(sp: Spelling)
    requires SpellingOk(sp) && sp.quad.Some?
    ensures Front(sp) + HexPair(V4Value(sp.quad.value)) ==
      if sp.compressed then Join(LowerAll(sp.head), ':') + "::" + Join(LowerAll(sp.tail) + QuadPieces(sp), ':')
      else Join(LowerAll(sp.head) + QuadPieces(sp), ':')
  {
    var h, t, x := LowerAll(sp.head), LowerAll(sp.tail), QuadPieces(sp);
    HexPairOfQuad(sp.quad.value);
    if sp.compressed { JoinLastTwo(t, x[0], x[1]); } else { JoinLastTwo(h, x[0], x[1]); }
  }

  lemma RewrittenPieces(sp: Spelling)
    requires SpellingOk(sp) && sp.quad.Some?
    ensures var h, t, x := LowerAll(sp.head), LowerAll(sp.tail), QuadPieces(sp);
            && Clean(h) && Clean(t + x) && Clean(h + x)
            && AllPieces(sp) == if sp.compressed then h + Zeros(8 - |h| - |t + x|) + (t + x) else h + x
  {
    var h, t, x := LowerAll(sp.head), LowerAll(sp.tail), QuadPieces(sp);
    ReadsQuad(sp);
    HexesAreClean(h);
    HexesAreClean(t + x);
    HexesAreClean(h + x);
  }

  lemma RewrittenIsRead(sp: Spelling)
    requires SpellingOk(sp) && sp.quad.Some?
    ensures PlainGroups(Front(sp) + HexPair(V4Value(sp.quad.value))) == Groups(Denoted(sp))
  {
    var h, t, x := LowerAll(sp.head), LowerAll(sp.tail), QuadPieces(sp);
    var a := Front(sp) + HexPair(V4Value(sp.quad.value));
    assert PartsOf(a) == These(AllPieces(sp)) by {
      RewrittenText(sp);
      RewrittenPieces(sp);
      if sp.compressed { CompressedIsSplit(h, t + x); } else { FullIsSplit(h + x); }
    }
    AllPiecesAreRead(sp);
  }

  /** Any spelling of an address, in any letter case and with or without a zone, gives its eight groups. */
  lemma EverySpellingIsRead(sp: Spelling, zone: string)
    requires SpellingOk(sp) && (zone == "" || zone[0] == '%')
    ensures Ipv6Groups(Spelled(sp) + zone) == Groups(Denoted(sp))
  {
    if sp.quad == None { PlainTextIsRead(sp); } else { DottedTextIsRead(sp); }
    ZoneIsCut(Spelled(sp), zone);
  }

  // ----- Which addresses are public ------------------------------------------------------------

  /** The dotted quad carried in two groups. */
  function Carried(hi: Group, lo: Group): Quad {
    QuadHalves(hi);
    QuadHalves(lo);
    Quad(ShiftRight(hi, 8), And(hi, 255), ShiftRight(lo, 8), And(lo, 255))
  }

  lemma QuadHalves(g: Group)
    ensures ShiftRight(g, 8) == g / 256 && And(g, 255) == g % 256
  {
    HighByte(g);
    LowByte(g);
  }

  lemma HighByte(g: Group)
    ensures ShiftRight(g, 8) == g / 256
  {
    Pow2Values();
  }

  lemma LowByte(g: Group)
    ensures And(g, 255) == g % 256
  {
    assert And(g, 255) == ToInt32(g % 256) by {
      LowBits(g, 8);
      Pow2Values();
    }
    SmallIsSigned(g % 256);
  }

  predicate ZeroUpTo(g: seq<Group>, n: nat)
    requires n <= |g|
  {
    forall k | 0 <= k < n :: g[k] == 0
  }

  predicate PublicQuad(hi: Group, lo: Group) { IsIPv4(V4Text(Carried(hi, lo))) && PublicIPv4(V4Text(Carried(hi, lo))) }

  /** The tests on eight groups, in the source's order. */
  predicate PublicGroups(g: seq<Group>)
    requires |g| == 8
  {
    if ZeroUpTo(g, 5) && g[5] == 0xffff then PublicQuad(g[6], g[7])
    else if ZeroUpTo(g, 6) then !(g[6] == 0 && g[7] <= 1) && PublicQuad(g[6], g[7])
    else if g[0] == 0x64 && g[1] == 0xff9b then PublicQuad(g[6], g[7])
    else if g[0] == 0x2002 then PublicQuad(g[1], g[2])
    else PublicByPrefix(g)
  }

  predicate PublicByPrefix(g: seq<Group>)
    requires |g| == 8
  {
    if And(g[0], 0xfe00) == 0xfc00 then false
    else if And(g[0], 0xffc0) == 0xfe80 then false
    else if And(g[0], 0xffc0) == 0xfec0 then false
    else if And(g[0], 0xff00) == 0xff00 then false
    else if g[0] == 0x2001 && g[1] == 0x0db8 then false
    else if g[0] == 0x2001 && g[1] == 0 then false
    else !(g[0] == 0x0100 && ZeroUpTo(g, 4)) // never the case: the four groups include the first
  }

  /** isPublicAddress; `isIPv6` is what net.isIPv6 says of the text, and None is a thrown RangeError. */
  function IsPublicAddress(address: string, isIPv6: bool): Option<bool> {
    if IsIPv4(address) then Some(PublicIPv4(address))
    else if !isIPv6 then Some(false)
    else match Ipv6Groups(address)
      case Groups(g) => if |g| == 8 then Some(PublicGroups(g)) else Some(false)
      case Null => Some(false)
      case RangeError => None
  }

  /** A test of the first group against a prefix is a range of first groups. */
  lemma PrefixIsRange(first: Group, bits: nat, base: Group)
    requires 1 <= bits <= 15 && base % Pow2(16 - bits) == 0
    ensures And(first, LeadingOnes(bits, 16 - bits)) == base <==> base <= first < base + Pow2(16 - bits)
  {
    var p, mask := Pow2(16 - bits), LeadingOnes(bits, 16 - bits);
    SmallMask(bits);
    var low := ClearLow(first, p);
    assert BitAnd(first, mask) == low by {
      Pow2Values();
      AndLeadingOnes(first, bits, 16 - bits);
    }
    assert low <= first by { QuotientInRange(first, p); }
    assert And(first, mask) == low by {
      AndOfWords(first, mask);
      SmallIsSigned(low);
    }
    SameBlock(first, base, p);
  }

  lemma SmallMask(bits: nat)
    requires 1 <= bits <= 15
    ensures 0 <= LeadingOnes(bits, 16 - bits) < 0x1_0000
  {
    var p := Pow2(16 - bits);
    assert Pow2(bits) * p == 0x1_0000 by {
      Pow2Values();
      Pow2Sum(bits, 16 - bits);
    }
    TimesLess(Pow2(bits), p);
  }

  lemma TimesLess(x: nat, p: nat)
    requires x >= 1 && p >= 1
    ensures 0 <= (x - 1) * p == x * p - p
  {
    MulLe(0, x - 1, p);
  }

  lemma FirstGroupRanges(first: Group)
    ensures And(first, 0xfe00) == 0xfc00 <==> 0xfc00 <= first <= 0xfdff
    ensures And(first, 0xffc0) == 0xfe80 <==> 0xfe80 <= first <= 0xfebf
    ensures And(first, 0xffc0) == 0xfec0 <==> 0xfec0 <= first <= 0xfeff
    ensures And(first, 0xff00) == 0xff00 <==> 0xff00 <= first
  {
    assert Pow2(9) == 512 && Pow2(7) == 128 && Pow2(6) == 64 && Pow2(10) == 1024 && Pow2(8) == 256 by { SmallPowers(); }
    PrefixIsRange(first, 7, 0xfc00);
    PrefixIsRange(first, 10, 0xfe80);
    PrefixIsRange(first, 10, 0xfec0);
    PrefixIsRange(first, 8, 0xff00);
  }

  lemma SmallPowers()
    ensures Pow2(6) == 64 && Pow2(7) == 128 && Pow2(8) == 256 && Pow2(9) == 512 && Pow2(10) == 1024
  {
  }

  /** The IPv4 address an IPv6 address stands for: mapped, compatible, NAT64 or 6to4. */
  function Embedded(g: seq<Group>): Option<Quad>
    requires |g| == 8
  {
    if ZeroUpTo(g, 5) && (g[5] == 0xffff || g[5] == 0) then Some(Carried(g[6], g[7]))
    else if g[0] == 0x64 && g[1] == 0xff9b then Some(Carried(g[6], g[7]))
    else if g[0] == 0x2002 then Some(Carried(g[1], g[2]))
    else None
  }

  /** Ranges of the other addresses that are refused, by first group and, below 2001, by second. */
  predicate Refused(g: seq<Group>)
    requires |g| == 8
  {
    || 0xfc00 <= g[0] <= 0xfdff // unique local
    || 0xfe80 <= g[0] <= 0xfeff // link-local and site-local
    || 0xff00 <= g[0] // multicast
    || (g[0] == 0x2001 && (g[1] == 0 || g[1] == 0x0db8)) // Teredo and documentation
  }

  /**
   * An address that carries an IPv4 address is public exactly when that address
   * lies outside the private blocks; any other, exactly when it is not refused.
   */
  lemma PublicGroupsAre(g: seq<Group>)
    requires |g| == 8
    ensures PublicGroups(g) <==>
      match Embedded(g)
      case Some(q) => OutsideBlocks(V4Value(q))
      case None => !Refused(g)
  {
    if ZeroUpTo(g, 5) && g[5] == 0xffff {
      PublicQuadIs(g[6], g[7]);
    } else if ZeroUpTo(g, 6) {
      PublicQuadIs(g[6], g[7]);
      LoopbackIsPrivate(g[6], g[7]);
    } else if g[0] == 0x64 && g[1] == 0xff9b {
      PublicQuadIs(g[6], g[7]);
    } else if g[0] == 0x2002 {
      PublicQuadIs(g[1], g[2]);
    } else {
      FirstGroupRanges(g[0]);
    }
  }

  lemma PublicQuadIs(hi: Group, lo: Group)
    ensures PublicQuad(hi, lo) <==> OutsideBlocks(V4Value(Carried(hi, lo)))
  {
    V4TextSplits(Carried(hi, lo));
    PublicIPv4IsOutsideBlocks(Carried(hi, lo));
  }

  /** The unspecified and loopback addresses would be refused as 0.0.0.0/8 in any case. */
  lemma LoopbackIsPrivate(hi: Group, lo: Group)
    ensures hi == 0 && lo <= 1 ==> !OutsideBlocks(V4Value(Carried(hi, lo)))
  {
    QuadHalves(hi);
    QuadHalves(lo);
    if hi == 0 && lo <= 1 {
      assert BLOCKS[0].0 <= V4Value(Carried(hi, lo)) <= BLOCKS[0].1;
    }
  }

  lemma SpellingIsNotIPv4(sp: Spelling, zone: string)
    requires SpellingOk(sp) && ':' in Spelled(sp)
    ensures !IsIPv4(Spelled(sp) + zone)
  {
    var text := Spelled(sp) + zone;
    var i :| 0 <= i < |Spelled(sp)| && Spelled(sp)[i] == ':';
    assert text[i] == ':';
    if IsIPv4(text) {
      assert DecimalParts(Split(text, '.'));
      DottedHasNoColon(text);
    }
  }

  lemma SpellingHasColon(sp: Spelling)
    requires SpellingOk(sp)
    ensures ':' in Spelled(sp)
  {
    if sp.compressed {
      var h := Join(sp.head, ':');
      assert Spelled(sp)[|h|] == ':';
    } else {
      var pieces := sp.head + QuadPart(sp);
      assert |pieces| >= 7 && Spelled(sp) == pieces[0] + [':'] + Join(pieces[1..], ':');
      assert Spelled(sp)[|pieces[0]|] == ':';
    }
  }

  /** The verdict on any spelling, from the address it denotes. */
  lemma PublicSpellings(sp: Spelling, zone: string)
    requires SpellingOk(sp) && (zone == "" || zone[0] == '%')
    ensures IsPublicAddress(Spelled(sp) + zone, true) ==
      Some(match Embedded(Denoted(sp))
           case Some(q) => OutsideBlocks(V4Value(q))
           case None => !Refused(Denoted(sp)))
  {
    SpellingHasColon(sp);
    SpellingIsNotIPv4(sp, zone);
    EverySpellingIsRead(sp, zone);
    PublicGroupsAre(Denoted(sp));
  }

  /** An IPv4-mapped or 6to4 address, however spelled, is public exactly when its IPv4 address is. */
  lemma CarriedAddressesDecide(sp: Spelling, zone: string, q: Quad)
    requires SpellingOk(sp) && (zone == "" || zone[0] == '%')
    requires var g, hi, lo := Denoted(sp), q.a * 256 + q.b, q.c * 256 + q.d;
             || g == [0, 0, 0, 0, 0, 0xffff, hi, lo]
             || (g[0] == 0x2002 && g[1] == hi && g[2] == lo)
    ensures IsPublicAddress(Spelled(sp) + zone, true) == IsPublicAddress(V4Text(q), false)
  {
    CarriesQuad(Denoted(sp), q);
    PublicSpellings(sp, zone);
    assert IsPublicAddress(V4Text(q), false) == Some(OutsideBlocks(V4Value(q))) by {
      V4TextSplits(q);
      PublicIPv4IsOutsideBlocks(q);
    }
  }

  lemma CarriesQuad(g: seq<Group>, q: Quad)
    requires |g| == 8
    requires g == [0, 0, 0, 0, 0, 0xffff, q.a * 256 + q.b, q.c * 256 + q.d]
          || (g[0] == 0x2002 && g[1] == q.a * 256 + q.b && g[2] == q.c * 256 + q.d)
    ensures Embedded(g) == Some(q)
  {
    CarriedBack(q);
  }

  lemma CarriedBack(q: Quad)
    ensures Carried(q.a * 256 + q.b, q.c * 256 + q.d) == q
  {
    TwoBytes(q.a, q.b);
    TwoBytes(q.c, q.d);
  }

  lemma TwoBytes(a: Octet, b: Octet)
    ensures ShiftRight(a * 256 + b, 8) == a && And(a * 256 + b, 255) == b
  {
    QuadHalves(a * 256 + b);
    Bytes(a, b);
  }

  lemma Bytes(a: Octet, b: Octet)
    ensures (a * 256 + b) / 256 == a && (a * 256 + b) % 256 == b
  {
  }

  /**
   * The comment at the last test promises to refuse the discard prefix 100::/64,
   * but its four zero groups would have to include the first, which is 0x100:
   * every address in the prefix is judged public.
   */
  lemma DiscardPrefixIsPublic(sp: Spelling, zone: string)
    requires SpellingOk(sp) && (zone == "" || zone[0] == '%')
    requires var g := Denoted(sp); g[0] == 0x100 && g[1] == g[2] == g[3] == 0
    ensures IsPublicAddress(Spelled(sp) + zone, true) == Some(true)
  {
    PublicSpellings(sp, zone);
  }
}
