/** Which network addresses are public: dotted IPv4 text, IPv6 text and the IPv4 addresses IPv6 can carry. */
module Net {
  import opened Bits
  import opened Numerals

  // ----- Splitting and joining --------------------------------------------------

  function FirstOf(s: string, c: char): (n: nat)
    ensures n <= |s| && (n < |s| ==> s[n] == c) && forall i | 0 <= i < n :: s[i] != c
  {
    if s == "" || s[0] == c then 0 else 1 + FirstOf(s[1..], c)
  }

  /** String.split on a one-character separator. */
  function Split(s: string, c: char): (parts: seq<string>)
    ensures parts != []
    decreases |s|
  {
    var n := FirstOf(s, c);
    if n == |s| then [s] else [s[..n]] + Split(s[n + 1..], c)
  }

  function Join(parts: seq<string>, c: char): string {
    if parts == [] then "" else if |parts| == 1 then parts[0] else parts[0] + [c] + Join(parts[1..], c)
  }

  predicate Without(s: string, c: char) { forall i | 0 <= i < |s| :: s[i] != c }

  lemma FirstInConcat(a: string, b: string, c: char)
    requires Without(a, c) && (b == "" || b[0] == c)
    ensures FirstOf(a + b, c) == |a|
  {
    var n := FirstOf(a + b, c);
    assert forall i | 0 <= i < |a| :: (a + b)[i] == a[i];
    assert b != "" ==> (a + b)[|a|] == b[0];
  }

  lemma {:induction false} SplitUndoesJoin(parts: seq<string>, c: char)
    requires parts != [] && forall k | 0 <= k < |parts| :: Without(parts[k], c)
    ensures Split(Join(parts, c), c) == parts
  {
    if |parts| == 1 {
      FirstInConcat(parts[0], "", c);
      assert parts[0] + "" == parts[0];
    } else {
      var rest := Join(parts[1..], c);
      assert parts[0] + [c] + rest == parts[0] + ([c] + rest);
      FirstInConcat(parts[0], [c] + rest, c);
      assert (parts[0] + ([c] + rest))[|parts[0]| + 1..] == rest;
      SplitUndoesJoin(parts[1..], c);
    }
  }

  // ----- IPv4 ---------------------------------------------------------------------

  /** 0 to 255 in decimal without leading zeros. */
  predicate IsOctet(s: string) {
    && 1 <= |s| <= 3 && AllDigits(s, 10) && (|s| > 1 ==> s[0] != '0') && ParseText(s, 10) < 256
  }

  /** net.isIPv4. */
  predicate IsIPv4(s: string) {
    var parts := Split(s, '.');
    |parts| == 4 && forall k | 0 <= k < 4 :: IsOctet(parts[k])
  }

  function NumberOf(part: string): nat { if AllDigits(part, 10) then ParseText(part, 10) else 0 }

  function Fold(acc: int, parts: seq<string>): int
    decreases |parts|
  {
    if parts == [] then acc else Fold(ShiftLeft(acc, 8) + NumberOf(parts[0]), parts[1..])
  }

  function Ipv4ToInt(ip: string): int { ShiftRightUnsigned(Fold(0, Split(ip, '.')), 0) }

  type Octet = o: int | 0 <= o < 256
  datatype Quad = Quad(a: Octet, b: Octet, c: Octet, d: Octet)

  /** The addresses and prefix lengths never treated as public. */
  const PRIVATE_V4: seq<(Quad, nat)> := [
    (Quad(0, 0, 0, 0), 8), (Quad(10, 0, 0, 0), 8), (Quad(100, 64, 0, 0), 10), (Quad(127, 0, 0, 0), 8), (Quad(169, 254, 0, 0), 16),
    (Quad(172, 16, 0, 0), 12), (Quad(192, 0, 0, 0), 24), (Quad(192, 0, 2, 0), 24), (Quad(192, 168, 0, 0), 16), (Quad(198, 18, 0, 0), 15),
    (Quad(198, 51, 100, 0), 24), (Quad(203, 0, 113, 0), 24), (Quad(224, 0, 0, 0), 4), (Quad(240, 0, 0, 0), 4)]

  function MaskOf(bits: nat): int
    requires bits <= 32
  {
    if bits == 0 then 0 else ShiftRightUnsigned(ShiftLeft(Not(0), 32 - bits), 0)
  }

  /** isPublicAddress on an address that net.isIPv4 accepts. */
  predicate PublicIPv4(address: string) {
    forall k | 0 <= k < |PRIVATE_V4| :: !InPrivate(Ipv4ToInt(address), k)
  }

  predicate InPrivate(n: int, k: nat)
    requires k < |PRIVATE_V4|
  {
    var (base, bits) := PRIVATE_V4[k];
    And(n, MaskOf(bits)) == And(Ipv4ToInt(V4Text(base)), MaskOf(bits))
  }

  function V4Text(q: Quad): string {
    Join([ToText(q.a, 10), ToText(q.b, 10), ToText(q.c, 10), ToText(q.d, 10)], '.')
  }

  function V4Value(q: Quad): (n: Word) { ((q.a * 256 + q.b) * 256 + q.c) * 256 + q.d }

  lemma OctetText(o: Octet)
    ensures IsOctet(ToText(o, 10)) && NumberOf(ToText(o, 10)) == o && Without(ToText(o, 10), '.') && Without(ToText(o, 10), ':')
  {
    ParseUndoesToText(o, 10);
    var s := ToText(o, 10);
    assert AllDigits(s, 10);
    assert forall i | 0 <= i < |s| :: DigitValue(s[i]) < 10;
    assert o >= 10 ==> s == ToText(o / 10, 10) + [DigitChar(o % 10)];
    assert o >= 100 ==> ToText(o / 10, 10) == ToText(o / 10 / 10, 10) + [DigitChar(o / 10 % 10)];
  }

  lemma V4TextSplits(q: Quad)
    ensures Split(V4Text(q), '.') == [ToText(q.a, 10), ToText(q.b, 10), ToText(q.c, 10), ToText(q.d, 10)]
    ensures IsIPv4(V4Text(q))
  {
    OctetText(q.a);
    OctetText(q.b);
    OctetText(q.c);
    OctetText(q.d);
    SplitUndoesJoin([ToText(q.a, 10), ToText(q.b, 10), ToText(q.c, 10), ToText(q.d, 10)], '.');
  }

  lemma ShiftAndAdd(acc: nat, o: Octet)
    requires acc < 0x100_0000
    ensures ToUint32(ShiftLeft(acc, 8) + o) == acc * 256 + o
    ensures acc < 0x80_0000 ==> ShiftLeft(acc, 8) + o == acc * 256 + o
  {
    Pow2Values();
    assert ShiftLeft(acc, 8) == ToInt32(acc * 256) by { assert ToUint32(acc) == acc; }
    SignedPlus(acc * 256, o);
  }

  lemma SignedPlus(x: nat, o: Octet)
    requires x < 0xffff_ff01
    ensures ToUint32(ToInt32(x) + o) == x + o
    ensures x < 0x8000_0000 ==> ToInt32(x) == x
  {
  }

  lemma FoldFirst(acc: int, part: string, rest: seq<string>)
    ensures Fold(acc, [part] + rest) == Fold(ShiftLeft(acc, 8) + NumberOf(part), rest)
  {
    assert ([part] + rest)[1..] == rest;
  }

  /** Folding one octet's text in. */
  lemma FoldOctet(acc: nat, o: Octet, rest: seq<string>)
    requires acc < 0x80_0000
    ensures Fold(acc, [ToText(o, 10)] + rest) == Fold(acc * 256 + o, rest)
  {
    FoldFirst(acc, ToText(o, 10), rest);
    OctetText(o);
    ShiftAndAdd(acc, o);
  }

  /** The shift-and-add loop, signed in the middle, reads the address as one 32-bit number. */
  lemma Ipv4IsRead(q: Quad)
    ensures Ipv4ToInt(V4Text(q)) == V4Value(q)
  {
    var p, r, s, t := ToText(q.a, 10), ToText(q.b, 10), ToText(q.c, 10), ToText(q.d, 10);
    var y, z := q.a * 256 + q.b, (q.a * 256 + q.b) * 256 + q.c;
    assert Split(V4Text(q), '.') == [p] + ([r] + ([s] + ([t] + []))) by { V4TextSplits(q); }
    var all := [p] + ([r] + ([s] + ([t] + [])));
    assert Fold(0, all) == Fold(q.a, [r] + ([s] + ([t] + []))) by { FoldOctet(0, q.a, [r] + ([s] + ([t] + []))); }
    assert Fold(0, all) == Fold(y, [s] + ([t] + [])) by { FoldOctet(q.a, q.b, [s] + ([t] + [])); }
    assert Fold(0, all) == Fold(z, [t] + []) by { FoldOctet(y, q.c, [t] + []); }
    FoldLastOctet(z, q.d);
  }

  lemma FoldLastOctet(acc: nat, o: Octet)
    requires acc < 0x100_0000
    ensures ShiftRightUnsigned(Fold(acc, [ToText(o, 10)] + []), 0) == acc * 256 + o
  {
    FoldFirst(acc, ToText(o, 10), []);
    OctetText(o);
    ShiftAndAdd(acc, o);
    ShiftByZero(ShiftLeft(acc, 8) + o);
  }

  // ----- Masks and intervals ---------------------------------------------------------

  lemma ProductMod(p: nat)
    requires 1 <= p < 0x1_0000_0000
    ensures 0xffff_ffff * p % 0x1_0000_0000 == 0x1_0000_0000 - p
  {
    assert 0xffff_ffff * p == (p - 1) * 0x1_0000_0000 + (0x1_0000_0000 - p);
  }

  lemma ShiftedOnes(k: nat)
    requires k < 32
    ensures ToUint32(ShiftLeft(Not(0), k)) == TWO_32 - Pow2(k)
  {
    Pow2AtMost(k);
    ProductMod(Pow2(k));
    assert ToUint32(Not(0)) == 0xffff_ffff;
  }

  lemma MaskIsLeadingOnes(bits: nat)
    requires 1 <= bits <= 31
    ensures MaskOf(bits) == LeadingOnes(bits, 32 - bits) == TWO_32 - Pow2(32 - bits)
  {
    var p := Pow2(32 - bits);
    ShiftedOnes(32 - bits);
    ShiftByZero(ShiftLeft(Not(0), 32 - bits));
    Pow2Values();
    Pow2Sum(bits, 32 - bits);
    assert (Pow2(bits) - 1) * p == Pow2(bits) * p - p;
  }

  /** Masking clears the low bits. */
  lemma MaskClears(n: Word, bits: nat)
    requires 1 <= bits <= 31
    ensures And(n, MaskOf(bits)) == ToInt32(ClearLow(n, Pow2(32 - bits)))
  {
    var ones := LeadingOnes(bits, 32 - bits);
    assert MaskOf(bits) == ones && 0 <= ones < TWO_32 by { MaskIsLeadingOnes(bits); }
    AndOfWords(n, ones);
    assert BitAnd(n, ones) == ClearLow(n, Pow2(32 - bits)) by {
      Pow2Values();
      AndLeadingOnes(n, bits, 32 - bits);
    }
  }

  lemma SignedIsInjective(x: Word, y: Word)
    ensures ToInt32(x) == ToInt32(y) <==> x == y
  {
  }

  /** Equal under the mask is inside the block, as an interval of numbers. */
  lemma MaskTestIsInterval(n: Word, base: Word, bits: nat)
    requires 1 <= bits <= 31 && base % Pow2(32 - bits) == 0
    ensures And(n, MaskOf(bits)) == And(base, MaskOf(bits)) <==> base <= n < base + Pow2(32 - bits)
  {
    var p := Pow2(32 - bits);
    var x, y := ClearLow(n, p), ClearLow(base, p);
    assert And(n, MaskOf(bits)) == ToInt32(x) && And(base, MaskOf(bits)) == ToInt32(y) by {
      MaskClears(n, bits);
      MaskClears(base, bits);
    }
    SignedIsInjective(x, y);
    assert y == base && (x == base <==> base <= n < base + p) by { SameBlock(n, base, p); }
  }

  function ClearLow(n: Word, p: nat): (m: Word)
    requires p > 0
  {
    QuotientInRange(n, p);
    n / p * p
  }

  lemma SameBlock(n: nat, base: nat, p: nat)
    requires p > 0 && base % p == 0
    ensures base / p * p == base
    ensures n / p * p == base <==> base <= n < base + p
  {
    DivBounds(n, p);
    DivBounds(base, p);
    var q := base / p;
    assert (q + 1) * p == q * p + p;
    if base <= n < base + p { DivUnique(n, p, q); }
  }

  /** The same fourteen blocks as first and last numbers, in the order of PRIVATE_V4. */
  const BLOCKS: seq<(int, int)> := [
    (0x00000000, 0x00ffffff), (0x0a000000, 0x0affffff), (0x64400000, 0x647fffff), (0x7f000000, 0x7fffffff), (0xa9fe0000, 0xa9feffff),
    (0xac100000, 0xac1fffff), (0xc0000000, 0xc00000ff), (0xc0000200, 0xc00002ff), (0xc0a80000, 0xc0a8ffff), (0xc6120000, 0xc613ffff),
    (0xc6336400, 0xc63364ff), (0xcb007100, 0xcb0071ff), (0xe0000000, 0xefffffff), (0xf0000000, 0xffffffff)]

  predicate OutsideBlocks(n: int) { forall k | 0 <= k < |BLOCKS| :: !(BLOCKS[k].0 <= n <= BLOCKS[k].1) }

  lemma BlockSizes()
    ensures Pow2(8) == 0x100 && Pow2(16) == 0x1_0000 && Pow2(17) == 0x2_0000 && Pow2(20) == 0x10_0000
    ensures Pow2(22) == 0x40_0000 && Pow2(24) == 0x100_0000 && Pow2(28) == 0x1000_0000
  {
    Pow2Values();
    Pow2Sum(16, 1);
    Pow2Sum(16, 4);
    Pow2Sum(16, 6);
    Pow2Sum(16, 8);
    Pow2Sum(24, 4);
    assert Pow2(1) == 2 && Pow2(4) == 16 && Pow2(6) == 64;
  }

  /** How many addresses a prefix of the listed lengths covers. */
  function SizeOf(bits: nat): nat {
    if bits == 4 then 0x1000_0000 else if bits == 8 then 0x100_0000 else if bits == 10 then 0x40_0000
    else if bits == 12 then 0x10_0000 else if bits == 15 then 0x2_0000 else if bits == 16 then 0x1_0000 else 0x100
  }

  predicate IsBlock(q: Quad, bits: nat, first: int, last: int) {
    && bits in {4, 8, 10, 12, 15, 16, 24}
    && V4Value(q) == first && last == first + SizeOf(bits) - 1 && first % SizeOf(bits) == 0
  }

  /** One entry: its mask test is membership in its block. */
  lemma EntryIs(n: Word, k: nat, q: Quad, bits: nat, first: int, last: int)
    requires k < 14 && PRIVATE_V4[k] == (q, bits) && BLOCKS[k] == (first, last) && IsBlock(q, bits, first, last)
    ensures InPrivate(n, k) <==> BLOCKS[k].0 <= n <= BLOCKS[k].1
  {
    BlockSizes();
    assert SizeOf(bits) == Pow2(32 - bits);
    Ipv4IsRead(q);
    MaskTestIsInterval(n, V4Value(q), bits);
  }

  lemma ZeroEntry(n: Word)
    ensures InPrivate(n, 0) <==> BLOCKS[0].0 <= n <= BLOCKS[0].1
  {
    var q := Quad(0, 0, 0, 0);
    assert PRIVATE_V4[0] == (q, 8) && BLOCKS[0] == (0x00000000, 0x00ffffff);
    BlockSizes();
    Ipv4IsRead(q);
    assert V4Value(q) == 0;
    MaskTestIsInterval(n, 0, 8);
  }

  lemma FirstEntries(n: Word, k: nat)
    requires k < 7
    ensures InPrivate(n, k) <==> BLOCKS[k].0 <= n <= BLOCKS[k].1
  {
    match k {
      case 0 => ZeroEntry(n);
      case 1 => EntryIs(n, 1, Quad(10, 0, 0, 0), 8, 0x0a000000, 0x0affffff);
      case 2 => EntryIs(n, 2, Quad(100, 64, 0, 0), 10, 0x64400000, 0x647fffff);
      case 3 => EntryIs(n, 3, Quad(127, 0, 0, 0), 8, 0x7f000000, 0x7fffffff);
      case 4 => EntryIs(n, 4, Quad(169, 254, 0, 0), 16, 0xa9fe0000, 0xa9feffff);
      case 5 => EntryIs(n, 5, Quad(172, 16, 0, 0), 12, 0xac100000, 0xac1fffff);
      case 6 => EntryIs(n, 6, Quad(192, 0, 0, 0), 24, 0xc0000000, 0xc00000ff);
    }
  }

  lemma LastEntries(n: Word, k: nat)
    requires 7 <= k < 14
    ensures InPrivate(n, k) <==> BLOCKS[k].0 <= n <= BLOCKS[k].1
  {
    match k {
      case 7 => EntryIs(n, 7, Quad(192, 0, 2, 0), 24, 0xc0000200, 0xc00002ff);
      case 8 => EntryIs(n, 8, Quad(192, 168, 0, 0), 16, 0xc0a80000, 0xc0a8ffff);
      case 9 => EntryIs(n, 9, Quad(198, 18, 0, 0), 15, 0xc6120000, 0xc613ffff);
      case 10 => EntryIs(n, 10, Quad(198, 51, 100, 0), 24, 0xc6336400, 0xc63364ff);
      case 11 => EntryIs(n, 11, Quad(203, 0, 113, 0), 24, 0xcb007100, 0xcb0071ff);
      case 12 => EntryIs(n, 12, Quad(224, 0, 0, 0), 4, 0xe0000000, 0xefffffff);
      case 13 => EntryIs(n, 13, Quad(240, 0, 0, 0), 4, 0xf0000000, 0xffffffff);
    }
  }

  /** For every address, the shifts and masks decide membership in the listed blocks as intervals. */
  lemma PublicIPv4IsOutsideBlocks(q: Quad)
    ensures PublicIPv4(V4Text(q)) <==> OutsideBlocks(V4Value(q))
  {
    Ipv4IsRead(q);
    forall k: nat | k < 14 ensures InPrivate(V4Value(q), k) <==> BLOCKS[k].0 <= V4Value(q) <= BLOCKS[k].1 {
      if k < 7 { FirstEntries(V4Value(q), k); } else { LastEntries(V4Value(q), k); }
    }
  }

  lemma {:induction false} JoinUndoesSplit(s: string, c: char)
    ensures Join(Split(s, c), c) == s
    decreases |s|
  {
    var n := FirstOf(s, c);
    if n < |s| {
      JoinUndoesSplit(s[n + 1..], c);
      var rest := Split(s[n + 1..], c);
      assert ([s[..n]] + rest)[1..] == rest;
      assert s == s[..n] + [c] + s[n + 1..];
    }
  }

  /** The four numbers of an address text. */
  function QuadOf(s: string): Quad
    requires IsIPv4(s)
  {
    var parts := Split(s, '.');
    Quad(ParseText(parts[0], 10), ParseText(parts[1], 10), ParseText(parts[2], 10), ParseText(parts[3], 10))
  }

  /** Every text that net.isIPv4 accepts is the text of its four numbers. */
  lemma EveryIPv4IsAQuad(s: string)
    requires IsIPv4(s)
    ensures s == V4Text(QuadOf(s))
  {
    var parts := Split(s, '.');
    forall k | 0 <= k < 4
      ensures ToText(ParseText(parts[k], 10), 10) == parts[k]
    {
      ToTextUndoesParse(parts[k]);
    }
    var q := QuadOf(s);
    assert parts == [ToText(q.a, 10), ToText(q.b, 10), ToText(q.c, 10), ToText(q.d, 10)];
    JoinUndoesSplit(s, '.');
  }

  /** Every IPv4 address text is public exactly when its number lies outside all the listed blocks. */
  lemma PublicIPv4Exactly(address: string)
    requires IsIPv4(address)
    ensures PublicIPv4(address) <==> OutsideBlocks(Ipv4ToInt(address))
  {
    EveryIPv4IsAQuad(address);
    Ipv4IsRead(QuadOf(address));
    PublicIPv4IsOutsideBlocks(QuadOf(address));
  }
}
