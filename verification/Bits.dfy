/**
 * JavaScript's 32-bit integer operators on unbounded integers: every operand is
 * reduced modulo 2^32, and all but >>> give back a signed 32-bit number.
 */
module Bits {

  const TWO_31: int := 0x8000_0000
  const TWO_32: int := 0x1_0000_0000

  type Word = w: int | 0 <= w < 0x1_0000_0000

  function ToUint32(x: int): (w: Word) { x % TWO_32 }

  function ToInt32(x: int): (y: int)
    ensures -TWO_31 <= y < TWO_31
    ensures ToUint32(y) == ToUint32(x)
  {
    var w := x % TWO_32;
    if w < TWO_31 then w else w - TWO_32
  }

  function Pow2(k: nat): (p: nat)
    ensures p >= 1
  {
    if k == 0 then 1 else 2 * Pow2(k - 1)
  }

  /** Bitwise "and" of two natural numbers, bit by bit from the lowest. */
  function BitAnd(a: nat, b: nat): (r: nat) {
    if a == 0 || b == 0 then 0 else (a % 2) * (b % 2) + 2 * BitAnd(a / 2, b / 2)
  }

  /** Bitwise "exclusive or" of two natural numbers, bit by bit from the lowest. */
  function BitXor(a: nat, b: nat): (r: nat) {
    if a == 0 then b else if b == 0 then a else (a + b) % 2 + 2 * BitXor(a / 2, b / 2)
  }

  function And(x: int, y: int): int { ToInt32(BitAnd(ToUint32(x), ToUint32(y))) }

  function Xor(x: int, y: int): int { ToInt32(BitXor(ToUint32(x), ToUint32(y))) }

  function Not(x: int): int { ToInt32(-x - 1) }

  function ShiftLeft(x: int, k: nat): int { ToInt32(ToUint32(x) * Pow2(k)) }

  /** JavaScript's >>, which keeps the sign. */
  function ShiftRight(x: int, k: nat): int { ToInt32(x) / Pow2(k) }

  /** JavaScript's >>>, the only operator here with an unsigned result. */
  function ShiftRightUnsigned(x: int, k: nat): (y: nat) {
    QuotientInRange(ToUint32(x), Pow2(k));
    ToUint32(x) / Pow2(k)
  }

  lemma QuotientInRange(n: nat, p: nat)
    requires p > 0
    ensures 0 <= n / p && 0 <= n / p * p <= n
  {
    DivBounds(n, p);
    var q := n / p;
    if q < 0 { MulLe(q + 1, 0, p); }
    MulLe(0, q, p);
  }

  /** Math.imul: the low 32 bits of the product, signed. */
  function Imul(x: int, y: int): int { ToInt32(ToUint32(x) * ToUint32(y)) }

  lemma WordIsUnsigned(w: Word)
    ensures ToUint32(w) == w
  {
  }

  lemma SmallIsSigned(x: nat)
    requires x < TWO_31
    ensures ToInt32(x) == x
  {
  }

  lemma AndOfWords(m: Word, n: Word)
    ensures And(m, n) == ToInt32(BitAnd(m, n))
  {
    assert ToUint32(m) == m && ToUint32(n) == n;
  }

  lemma ShiftByZero(x: int)
    ensures ShiftRightUnsigned(x, 0) == ToUint32(x)
  {
    assert Pow2(0) == 1;
  }

  lemma XorParts(a: nat, b: nat)
    ensures BitXor(a, b) % 2 == (a + b) % 2
    ensures BitXor(a, b) / 2 == BitXor(a / 2, b / 2)
  {
    if a == 0 {
      assert BitXor(0, b / 2) == b / 2;
    } else if b == 0 {
      assert BitXor(a / 2, 0) == a / 2;
    } else {
      LastBit((a + b) % 2, BitXor(a / 2, b / 2));
    }
  }

  lemma SameNumber(a: nat, b: nat, x: nat, r: nat)
    requires x % 2 == (a + b) % 2 && r % 2 == (x + b) % 2 && r / 2 == a / 2
    ensures r == a
  {
  }

  lemma LastBit(bit: nat, rest: nat)
    requires bit < 2
    ensures (bit + 2 * rest) % 2 == bit && (bit + 2 * rest) / 2 == rest
  {
  }

  lemma {:induction false} XorUndoesXor(a: nat, b: nat)
    ensures BitXor(BitXor(a, b), b) == a
    decreases a + b
  {
    if a == 0 {
      XorSelf(b);
    } else if b != 0 {
      var x := BitXor(a, b);
      assert x % 2 == (a + b) % 2 && x / 2 == BitXor(a / 2, b / 2) by { XorParts(a, b); }
      XorUndoesXor(a / 2, b / 2);
      assert BitXor(x, b) % 2 == (x + b) % 2 && BitXor(x, b) / 2 == a / 2 by { XorParts(x, b); }
      SameNumber(a, b, x, BitXor(x, b));
    } else {
      assert BitXor(a, 0) == a;
    }
  }

  lemma {:induction false} XorSelf(b: nat)
    ensures BitXor(b, b) == 0
  {
    if b != 0 { XorSelf(b / 2); }
  }

  lemma {:induction false} XorCommutes(a: nat, b: nat)
    ensures BitXor(a, b) == BitXor(b, a)
  {
    if a != 0 && b != 0 { XorCommutes(a / 2, b / 2); }
  }

  lemma {:induction false} XorBound(a: nat, b: nat, k: nat)
    requires a < Pow2(k) && b < Pow2(k)
    ensures BitXor(a, b) < Pow2(k)
  {
    if a != 0 && b != 0 { XorBound(a / 2, b / 2, k - 1); }
  }

  lemma Pow2Values()
    ensures Pow2(8) == 0x100 && Pow2(16) == 0x1_0000 && Pow2(32) == TWO_32
  {
    assert Pow2(8) == 256;
    Pow2Sum(8, 8);
    Pow2Sum(16, 16);
  }

  lemma {:induction false} Pow2Sum(j: nat, k: nat)
    ensures Pow2(j + k) == Pow2(j) * Pow2(k)
  {
    if j != 0 { Pow2Sum(j - 1, k); }
  }

  /** Masking with k ones keeps the low k bits. */
  lemma {:induction false} AndLowOnes(n: nat, k: nat)
    ensures BitAnd(n, Pow2(k) - 1) == n % Pow2(k)
  {
    if n == 0 || k == 0 {
    } else {
      var half := Pow2(k - 1);
      AndLowOnes(n / 2, k - 1);
      assert (2 * half - 1) / 2 == half - 1 && (2 * half - 1) % 2 == 1;
      if k == 1 { assert half == 1; } else { assert Pow2(k) - 1 != 0; }
      ModDouble(n, half);
    }
  }

  lemma ModDouble(n: nat, p: nat)
    requires p > 0
    ensures n % (2 * p) == n % 2 + 2 * (n / 2 % p)
  {
    DivTwice(n, p);
    assert n == n / (2 * p) * (2 * p) + n % (2 * p);
    assert n / 2 == n / 2 / p * p + n / 2 % p;
  }

  /** The same on words. */
  lemma LowBits(n: Word, k: nat)
    requires k <= 31
    ensures 0 < Pow2(k) <= TWO_31 && And(n, Pow2(k) - 1) == ToInt32(n % Pow2(k))
  {
    Pow2AtMost(k);
    AndLowOnes(n, k);
    AndOfWords(n, Pow2(k) - 1);
  }

  lemma {:induction false} Pow2AtMost(k: nat)
    requires k <= 31
    ensures Pow2(k) <= TWO_31
    decreases 31 - k
  {
    if k == 31 {
      assert Pow2(32) == 2 * Pow2(31);
      Pow2Values();
    } else {
      Pow2AtMost(k + 1);
    }
  }

  /** A mask with `bits` leading ones above `zeros` zeros. */
  function LeadingOnes(bits: nat, zeros: nat): nat { (Pow2(bits) - 1) * Pow2(zeros) }

  lemma {:induction false} AndOnes(n: nat, bits: nat)
    requires n < Pow2(bits)
    ensures BitAnd(n, Pow2(bits) - 1) == n
  {
    if n != 0 {
      AndOnes(n / 2, bits - 1);
      assert (Pow2(bits) - 1) / 2 == Pow2(bits - 1) - 1;
    }
  }

  /** Masking with leading ones clears the low bits and nothing else. */
  lemma {:induction false} AndLeadingOnes(n: nat, bits: nat, zeros: nat)
    requires n < Pow2(bits + zeros)
    ensures BitAnd(n, LeadingOnes(bits, zeros)) == n / Pow2(zeros) * Pow2(zeros)
  {
    if zeros == 0 {
      AndOnes(n, bits);
    } else {
      var half := LeadingOnes(bits, zeros - 1);
      DoubleMask(bits, zeros);
      AndLeadingOnes(n / 2, bits, zeros - 1);
      AndDoubled(n, half);
      DivTwice(n, Pow2(zeros - 1));
    }
  }

  lemma DoubleMask(bits: nat, zeros: nat)
    requires zeros > 0
    ensures LeadingOnes(bits, zeros) == 2 * LeadingOnes(bits, zeros - 1)
  {
    var ones, p := Pow2(bits) - 1, Pow2(zeros - 1);
    assert ones * (2 * p) == 2 * (ones * p);
  }

  lemma AndDoubled(n: nat, m: nat)
    ensures BitAnd(n, 2 * m) == 2 * BitAnd(n / 2, m)
  {
    assert 2 * m / 2 == m && 2 * m % 2 == 0;
  }

  lemma DivTwice(n: nat, p: nat)
    requires p > 0
    ensures n / (2 * p) * (2 * p) == 2 * (n / 2 / p * p)
  {
    DivDiv(n, p);
    var q := n / 2 / p;
    assert q * (2 * p) == 2 * (q * p);
  }

  lemma DivDiv(n: nat, p: nat)
    requires p > 0
    ensures n / (2 * p) == n / 2 / p
  {
    var q := n / 2 / p;
    assert q * p <= n / 2 < (q + 1) * p by { DivBounds(n / 2, p); }
    assert q * (2 * p) <= n < (q + 1) * (2 * p) by {
      assert q * (2 * p) == 2 * (q * p);
      assert (q + 1) * (2 * p) == 2 * ((q + 1) * p);
    }
    DivUnique(n, 2 * p, q);
  }

  lemma DivBounds(n: int, p: int)
    requires p > 0
    ensures n / p * p <= n < (n / p + 1) * p
  {
    assert n == n / p * p + n % p;
    assert (n / p + 1) * p == n / p * p + p;
  }

  lemma DivUnique(n: int, p: int, q: int)
    requires p > 0
    requires q * p <= n < (q + 1) * p
    ensures n / p == q
  {
    var r := n / p;
    DivBounds(n, p);
    if r < q {
      MulLe(r + 1, q, p);
    } else if r > q {
      MulLe(q + 1, r, p);
    }
  }

  lemma MulLe(a: int, b: int, p: int)
    requires a <= b && p >= 0
    ensures a * p <= b * p
  {
    assert (b - a) * p >= 0;
    assert (b - a) * p == b * p - a * p;
  }
}
