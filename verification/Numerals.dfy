/** Number.prototype.toString(radix) and parseInt(text, radix) on whole numbers. */
module Numerals {

  predicate IsRadix(base: nat) { 2 <= base <= 36 }

  function DigitChar(d: nat): (c: char)
    requires d < 36
  {
    if d < 10 then '0' + d as char else 'a' + (d - 10) as char
  }

  /** The value of a digit or lower-case letter, or 36 for any other character. */
  function DigitValue(c: char): (d: nat)
    ensures d <= 36
    ensures d < 36 ==> DigitChar(d) == c
  {
    if '0' <= c <= '9' then (c - '0') as int
    else if 'a' <= c <= 'z' then 10 + (c - 'a') as int
    else 36
  }

  predicate AllDigits(s: string, base: nat) {
    forall i :: 0 <= i < |s| ==> DigitValue(s[i]) < base
  }

  lemma DivFacts(n: nat, base: nat)
    requires base >= 2
    ensures n / base * base + n % base == n && 0 <= n / base && n % base < base
    ensures n >= base ==> 1 <= n / base < n
  {
    var q := n / base;
    assert n == q * base + n % base;
    AtLeastTwice(q, base);
  }

  lemma AtLeastTwice(q: int, base: nat)
    requires base >= 2
    ensures q >= 0 ==> q * base >= 2 * q
    ensures q < 0 ==> q * base <= 0 - base
    ensures q == 0 ==> q * base == 0
  {
    if q >= 0 { assert q * (base - 2) >= 0; } else { assert (-q - 1) * base >= 0; }
  }

  /** A number written in `base`, without leading zeros; zero is "0". */
  function ToText(n: nat, base: nat): (s: string)
    requires IsRadix(base)
    ensures |s| > 0 && AllDigits(s, base)
    ensures if n == 0 then s == "0" else s[0] != '0'
    decreases n
  {
    DivFacts(n, base);
    if n < base then [DigitChar(n)] else ToText(n / base, base) + [DigitChar(n % base)]
  }

  function ParseText(s: string, base: nat): (n: nat)
    requires AllDigits(s, base)
  {
    if s == [] then 0
    else
      var front: nat := ParseText(s[..|s| - 1], base);
      assert front * base >= 0;
      front * base + DigitValue(s[|s| - 1])
  }

  lemma {:induction false} ParseUndoesToText(n: nat, base: nat)
    requires IsRadix(base)
    ensures ParseText(ToText(n, base), base) == n
  {
    var s := ToText(n, base);
    DivFacts(n, base);
    if n >= base {
      ParseUndoesToText(n / base, base);
      assert s[..|s| - 1] == ToText(n / base, base);
    } else {
      assert s[..|s| - 1] == [];
    }
  }

  lemma ToTextInjective(m: nat, n: nat, base: nat)
    requires IsRadix(base)
    requires ToText(m, base) == ToText(n, base)
    ensures m == n
  {
    ParseUndoesToText(m, base);
    ParseUndoesToText(n, base);
  }

  /** Digits without leading zeros are the way their number is written. */
  lemma {:induction false} ToTextUndoesParse(s: string)
    requires s != "" && AllDigits(s, 10) && (|s| > 1 ==> s[0] != '0')
    ensures ToText(ParseText(s, 10), 10) == s
  {
    var front, d := s[..|s| - 1], DigitValue(s[|s| - 1]);
    assert s == front + [s[|s| - 1]];
    if front == "" {
      assert ParseText(s, 10) == d;
    } else {
      ToTextUndoesParse(front);
      var m, n := ParseText(front, 10), ParseText(s, 10);
      assert front[0] == s[0] && ToText(0, 10) == "0";
      assert n == m * 10 + d && n / 10 == m && n % 10 == d;
    }
  }

  /** The same in radix 36. */
  lemma {:induction false} WrittenIn36(s: string)
    requires s != "" && AllDigits(s, 36) && (|s| > 1 ==> s[0] != '0')
    ensures ToText(ParseText(s, 36), 36) == s
  {
    var front, d := s[..|s| - 1], DigitValue(s[|s| - 1]);
    assert s == front + [s[|s| - 1]];
    if front == "" {
      assert ParseText(s, 36) == d;
    } else {
      WrittenIn36(front);
      var m, n := ParseText(front, 36), ParseText(s, 36);
      assert front[0] == s[0] && ToText(0, 36) == "0";
      assert n == m * 36 + d && n / 36 == m && n % 36 == d;
    }
  }
}
