/** Letters and digits, listed. */
module Letters {
  const LOWER_LETTERS: string := "abcdefghijklmnopqrstuvwxyz"
  const UPPER_LETTERS: string := "ABCDEFGHIJKLMNOPQRSTUVWXYZ"
  const DIGITS: string := "0123456789"

  lemma LowerLettersAre(c: char)
    ensures 'a' <= c <= 'z' <==> c in LOWER_LETTERS
  {
    if 'a' <= c <= 'z' { assert LOWER_LETTERS[c as int - 'a' as int] == c; }
  }

  lemma UpperLettersAre(c: char)
    ensures 'A' <= c <= 'Z' <==> c in UPPER_LETTERS
  {
    if 'A' <= c <= 'Z' { assert UPPER_LETTERS[c as int - 'A' as int] == c; }
  }

  lemma DigitsAre(c: char)
    ensures '0' <= c <= '9' <==> c in DIGITS
  {
    if '0' <= c <= '9' { assert DIGITS[c as int - '0' as int] == c; }
  }

  lemma InJoined(c: char, a: string, b: string)
    ensures c in a + b <==> c in a || c in b
  {
  }
}
