/** Natural numbers in decimal notation. */
module Decimals {

  predicate IsDigit(c: char) {
    '0' <= c <= '9'
  }

  predicate AllDigits(s: string) {
    forall c <- s :: IsDigit(c)
  }

  function Digit(d: nat): (c: char)
    requires d < 10
    ensures IsDigit(c)
  {
    ('0' as int + d) as char
  }

  function DigitValue(c: char): nat
    requires IsDigit(c)
  {
    c as int - '0' as int
  }

  function Pow10(n: nat): (p: nat)
    ensures p > 0
  {
    if n == 0 then 1 else 10 * Pow10(n - 1)
  }

  /** The number that digits denote; leading zeros are allowed. */
  function Value(s: string): nat
    requires AllDigits(s)
  {
    if s == [] then 0 else 10 * Value(s[..|s| - 1]) + DigitValue(s[|s| - 1])
  }

  /** The digits of a number, without leading zeros. */
  function Text(n: nat): (s: string)
    ensures s != [] && AllDigits(s)
  {
    if n < 10 then [Digit(n)] else Text(n / 10) + [Digit(n % 10)]
  }

  lemma {:induction false} ValueOfText(n: nat)
    ensures Value(Text(n)) == n
    ensures Text(n)[0] == '0' ==> n == 0
  {
    var s := Text(n);
    if n >= 10 {
      ValueOfText(n / 10);
      assert s[..|s| - 1] == Text(n / 10);
    } else {
      assert s[..|s| - 1] == [];
    }
  }

  lemma {:induction false} ValueBelow(s: string)
    requires AllDigits(s)
    ensures Value(s) < Pow10(|s|)
  {
    if s != [] {
      ValueBelow(s[..|s| - 1]);
      assert IsDigit(s[|s| - 1]) && Pow10(|s|) == 10 * Pow10(|s| - 1);
      assert |s[..|s| - 1]| == |s| - 1;
    }
  }

  /** One more digit at the end. */
  lemma ValueOfMore(s: string, d: nat)
    requires AllDigits(s) && d < 10
    ensures AllDigits(s + [Digit(d)]) && Value(s + [Digit(d)]) == 10 * Value(s) + d
  {
    var t := s + [Digit(d)];
    assert t[..|t| - 1] == s;
  }

  /** Digits of the same length that denote the same number are the same. */
  lemma {:induction false} SameValue(s: string, t: string)
    requires AllDigits(s) && AllDigits(t) && |s| == |t| && Value(s) == Value(t)
    ensures s == t
  {
    if s != [] {
      var a, b := s[..|s| - 1], t[..|t| - 1];
      assert DigitValue(s[|s| - 1]) == Value(s) % 10 == DigitValue(t[|t| - 1]);
      SameValue(a, b);
      assert s == a + [s[|s| - 1]] && t == b + [t[|t| - 1]];
    }
  }

  // ------------------------------------------------------------- with a sign

  function SignedText(n: int): string {
    if n < 0 then "-" + Text(-n) else Text(n)
  }

  predicate IsSigned(s: string) {
    s != [] && if s[0] == '-' then AllDigits(s[1..]) else AllDigits(s)
  }

  function SignedValue(s: string): int
    requires IsSigned(s)
  {
    if s[0] == '-' then 0 - Value(s[1..]) else Value(s)
  }

  lemma ValueOfSignedText(n: int)
    ensures IsSigned(SignedText(n)) && SignedValue(SignedText(n)) == n
  {
    if n < 0 {
      ValueOfText(-n);
      assert SignedText(n)[1..] == Text(-n);
    } else {
      ValueOfText(n);
      assert IsDigit(Text(n)[0]);
    }
  }
}
