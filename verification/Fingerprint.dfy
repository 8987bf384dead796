/**
 * The short fingerprint a browser keeps of each entry it last saved or loaded:
 * the entry's length and a 32-bit xor-and-multiply hash of its UTF-16 units.
 */
module Fingerprints {
  import opened Basics
  import opened Bits
  import opened Numerals

  const OFFSET: int := 0x811c_9dc5
  const PRIME: int := 0x0100_0193

  function HashStep(h: int, unit: Unit): int { Imul(Xor(h, unit), PRIME) }

  function HashFrom(h: int, value: Text): int {
    if value == [] then h else HashStep(HashFrom(h, value[..|value| - 1]), value[|value| - 1])
  }

  function FingerprintOf(value: Text): string {
    ToText(|value|, 10) + ":" + ToText(ShiftRightUnsigned(HashFrom(OFFSET, value), 0), 36)
  }

  method Fingerprint(value: Text) returns (text: string)
    ensures text == FingerprintOf(value)
  {
    var h := OFFSET;
    for i := 0 to |value|
      invariant h == HashFrom(OFFSET, value[..i])
    {
      assert value[..i + 1][..i] == value[..i];
      h := HashStep(h, value[i]);
    }
    assert value[..|value|] == value;
    text := ToText(|value|, 10) + ":" + ToText(ShiftRightUnsigned(h, 0), 36);
  }

  /** Multiplying by an odd constant modulo 2^32 loses nothing. */
  lemma MultiplyIsInjective(x: Word, y: Word)
    requires x * 0x0100_0193 % 0x1_0000_0000 == y * 0x0100_0193 % 0x1_0000_0000
    ensures x == y
  {
    var j, k := x * 0x0100_0193 / 0x1_0000_0000, y * 0x0100_0193 / 0x1_0000_0000;
    assert (x - y) * 0x0100_0193 == (j - k) * 0x1_0000_0000;
    // 0x0100_0193 * 0x359c_449b == 0x359c99 * 2^32 + 1
    assert x - y == ((j - k) * 0x359c_449b - (x - y) * 0x359c99) * 0x1_0000_0000;
  }

  /** A step, seen on unsigned 32-bit states. */
  lemma StepOnWords(h: int, u: Unit)
    ensures BitXor(ToUint32(h), u) < TWO_32
    ensures ToUint32(HashStep(h, u)) == BitXor(ToUint32(h), u) * PRIME % TWO_32
  {
    assert BitXor(ToUint32(h), u) < TWO_32 by {
      Pow2Values();
      XorBound(ToUint32(h), u, 32);
    }
    assert ToUint32(Xor(h, u)) == BitXor(ToUint32(h), u) by { assert ToUint32(u) == u; }
    ImulOnWords(Xor(h, u));
  }

  lemma OneMoreDigit(s: string, front: string, c: char)
    requires s == front + [c] && AllDigits(front, 36) && DigitValue(c) < 36
    ensures AllDigits(s, 36) && ParseText(s, 36) == ParseText(front, 36) * 36 + DigitValue(c)
  {
    assert s[..|s| - 1] == front;
  }

  lemma ReadEmpty()
    ensures AllDigits("ztntfp", 36) && ParseText("ztntfp", 36) == 0x811c_9dc5
  {
    hide ParseText, AllDigits;
    assert AllDigits("", 36) && ParseText("", 36) == 0 by { NoDigits(); }
    OneMoreDigit("z", "", 'z');
    OneMoreDigit("zt", "z", 't');
    OneMoreDigit("ztn", "zt", 'n');
    OneMoreDigit("ztnt", "ztn", 't');
    OneMoreDigit("ztntf", "ztnt", 'f');
    OneMoreDigit("ztntfp", "ztntf", 'p');
  }

  lemma NoDigits()
    ensures AllDigits("", 36) && ParseText("", 36) == 0
  {
  }

  lemma ReadA()
    ensures AllDigits("1r9wi7g", 36) && ParseText("1r9wi7g", 36) == 0xe40c_292c
  {
    hide ParseText, AllDigits;
    assert AllDigits("", 36) && ParseText("", 36) == 0 by { NoDigits(); }
    OneMoreDigit("1", "", '1');
    OneMoreDigit("1r", "1", 'r');
    OneMoreDigit("1r9", "1r", '9');
    OneMoreDigit("1r9w", "1r9", 'w');
    OneMoreDigit("1r9wi", "1r9w", 'i');
    OneMoreDigit("1r9wi7", "1r9wi", '7');
    OneMoreDigit("1r9wi7g", "1r9wi7", 'g');
  }

  lemma XorOfA()
    ensures BitXor(0x811c_9dc5, 0x61) == 0x811c_9da4
  {
    assert BitXor(16922939, 0) == 16922939;
    assert BitXor(33845879, 1) == 33845878;
    assert BitXor(67691758, 3) == 67691757;
    assert BitXor(135383516, 6) == 135383514;
    assert BitXor(270767032, 12) == 270767028;
    assert BitXor(541534065, 24) == 541534057;
    assert BitXor(1083068130, 48) == 1083068114;
  }

  lemma HashOfOne(u: Unit)
    ensures HashFrom(OFFSET, [u]) == HashStep(OFFSET, u)
  {
    var value: Text := [u];
    assert value[..0] == [] && value[0] == u;
  }

  lemma HashOfA()
    ensures ShiftRightUnsigned(HashFrom(OFFSET, [0x61]), 0) == 0xe40c_292c
  {
    hide HashFrom, HashStep, BitXor, ShiftRightUnsigned;
    HashOfOne(0x61);
    StepOnWords(OFFSET, 0x61);
    XorOfA();
    assert ToUint32(OFFSET) == 0x811c_9dc5;
    assert 0x811c_9da4 * 0x0100_0193 % 0x1_0000_0000 == 0xe40c_292c;
    Unshifted(HashStep(OFFSET, 0x61));
  }

  lemma Unshifted(h: int)
    ensures ShiftRightUnsigned(h, 0) == ToUint32(h)
  {
    assert Pow2(0) == 1;
  }

  /**
   * Two fingerprints: the hash of no text is the offset of the FNV-1a algorithm,
   * and that of one letter the value the algorithm has for that byte.
   */
  lemma KnownFingerprints()
    ensures FingerprintOf([]) == "0:ztntfp"
    ensures FingerprintOf([0x61]) == "1:1r9wi7g"
  {
    ReadEmpty();
    WrittenIn36("ztntfp");
    Unshifted(OFFSET);
    assert ToText(0, 10) == "0" && ToText(1, 10) == "1";
    ReadA();
    WrittenIn36("1r9wi7g");
    HashOfA();
  }

  lemma ImulOnWords(a: int)
    ensures ToUint32(Imul(a, PRIME)) == ToUint32(a) * PRIME % TWO_32
  {
    assert ToUint32(PRIME) == PRIME;
  }

  /** One step is a bijection of the 32-bit state and separates units. */
  lemma StepSeparates(g: int, h: int, u: Unit, v: Unit)
    requires ToUint32(HashStep(g, u)) == ToUint32(HashStep(h, v))
    ensures u == v <==> ToUint32(g) == ToUint32(h)
  {
    var a, b := ToUint32(g), ToUint32(h);
    StepOnWords(g, u);
    StepOnWords(h, v);
    MultiplyIsInjective(BitXor(a, u), BitXor(b, v));
    XorDetermines(a, u, b, v);
  }

  lemma XorDetermines(a: nat, u: nat, b: nat, v: nat)
    requires BitXor(a, u) == BitXor(b, v)
    ensures u == v <==> a == b
  {
    XorUndoesXor(a, u);
    XorUndoesXor(b, v);
    XorCommutes(a, u);
    XorCommutes(b, v);
    XorUndoesXor(u, a);
    XorUndoesXor(v, b);
  }

  lemma {:induction false} EqualTailsKeepDifference(g: int, h: int, tail: Text)
    requires ToUint32(g) != ToUint32(h)
    ensures ToUint32(HashFrom(g, tail)) != ToUint32(HashFrom(h, tail))
  {
    if tail != [] {
      var init, u := tail[..|tail| - 1], tail[|tail| - 1];
      EqualTailsKeepDifference(g, h, init);
      if ToUint32(HashFrom(g, tail)) == ToUint32(HashFrom(h, tail)) {
        StepSeparates(HashFrom(g, init), HashFrom(h, init), u, u);
      }
    }
  }

  lemma {:induction false} HashOfConcat(h: int, front: Text, tail: Text)
    ensures HashFrom(h, front + tail) == HashFrom(HashFrom(h, front), tail)
  {
    if tail == [] {
      assert front + tail == front;
    } else {
      HashOfConcat(h, front, tail[..|tail| - 1]);
      assert (front + tail)[..|front + tail| - 1] == front + tail[..|tail| - 1];
    }
  }

  /** Text before the first colon and text after it determine each other's place. */
  lemma SplitAtColon(a: string, s: string, b: string, t: string)
    requires AllDigits(a, 10) && AllDigits(b, 10)
    requires a + ":" + s == b + ":" + t
    ensures a == b && s == t
  {
    var p, q := a + ":" + s, b + ":" + t;
    assert p[|a|] == ':' && q[|b|] == ':';
    assert forall i :: 0 <= i < |a| ==> p[i] == a[i];
    assert forall i :: 0 <= i < |b| ==> q[i] == b[i];
    assert |a| == |b|;
    assert p[..|a|] == a && q[..|b|] == b;
    assert p[|a| + 1..] == s && q[|b| + 1..] == t;
  }

  /** The decimal length and the hash can both be read back from a fingerprint. */
  lemma FingerprintParts(v: Text, w: Text)
    requires FingerprintOf(v) == FingerprintOf(w)
    ensures |v| == |w|
    ensures ToUint32(HashFrom(OFFSET, v)) == ToUint32(HashFrom(OFFSET, w))
  {
    var g, h := ToUint32(HashFrom(OFFSET, v)), ToUint32(HashFrom(OFFSET, w));
    ShiftByZero(HashFrom(OFFSET, v));
    ShiftByZero(HashFrom(OFFSET, w));
    SplitAtColon(ToText(|v|, 10), ToText(g, 36), ToText(|w|, 10), ToText(h, 36));
    ToTextInjective(|v|, |w|, 10);
    ToTextInjective(g, h, 36);
  }

  lemma DifferentLengthsDiffer(v: Text, w: Text)
    requires |v| != |w|
    ensures FingerprintOf(v) != FingerprintOf(w)
  {
    if FingerprintOf(v) == FingerprintOf(w) { FingerprintParts(v, w); }
  }

  /** Changing exactly one unit always changes the fingerprint. */
  lemma OneUnitChangeIsSeen(front: Text, u: Unit, v: Unit, tail: Text)
    requires u != v
    ensures FingerprintOf(front + [u] + tail) != FingerprintOf(front + [v] + tail)
  {
    var a, b := front + [u], front + [v];
    assert a[..|a| - 1] == front && b[..|b| - 1] == front;
    var h := HashFrom(OFFSET, front);
    if ToUint32(HashFrom(OFFSET, a)) == ToUint32(HashFrom(OFFSET, b)) {
      StepSeparates(h, h, u, v);
    }
    EqualTailsKeepDifference(HashFrom(OFFSET, a), HashFrom(OFFSET, b), tail);
    HashOfConcat(OFFSET, a, tail);
    HashOfConcat(OFFSET, b, tail);
    if FingerprintOf(a + tail) == FingerprintOf(b + tail) { FingerprintParts(a + tail, b + tail); }
  }
}
