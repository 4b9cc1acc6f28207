/** Decimal numerals: the digits that `fmt`'s `%d` writes and that an
    IPv4 dec-octet is read from. */
module Numerals {

  predicate IsDigit(c: char) {
    '0' <= c <= '9'
  }

  predicate AllDigits(s: string) {
    forall k :: 0 <= k < |s| ==> IsDigit(s[k])
  }

  function DigitValue(c: char): (d: nat)
    requires IsDigit(c)
    ensures d < 10
  {
    c as int - '0' as int
  }

  function DigitChar(d: nat): (c: char)
    requires d < 10
    ensures IsDigit(c) && DigitValue(c) == d
  {
    ('0' as int + d) as char
  }

  /** The number a string of decimal digits denotes, most significant first. */
  function Value(s: string): nat
    requires AllDigits(s)
  {
    if s == [] then 0 else 10 * Value(s[..|s| - 1]) + DigitValue(s[|s| - 1])
  }

  /** A numeral without superfluous leading zeros. */
  predicate IsCanonical(s: string) {
    s != [] && AllDigits(s) && (|s| > 1 ==> s[0] != '0')
  }

  /** The canonical decimal numeral of `n`. */
  function NatToDigits(n: nat): (r: string)
    ensures IsCanonical(r) && Value(r) == n
    ensures n < 10 ==> |r| == 1
    ensures n < 100 ==> |r| <= 2
    ensures n < 1000 ==> |r| <= 3
  {
    if n < 10 then [DigitChar(n)]
    else
      var p := NatToDigits(n / 10);
      var r := p + [DigitChar(n % 10)];
      assert r[..|r| - 1] == p && r[0] == p[0];
      assert AllDigits(r);
      assert Value(r) == 10 * Value(p) + n % 10;
      r
  }

  /** A numeral whose leading digit is not zero denotes at least that digit. */
  lemma {:induction false} ValueAtLeastLeadingDigit(s: string)
    requires s != [] && AllDigits(s)
    ensures Value(s) >= DigitValue(s[0])
  {
    if |s| > 1 {
      ValueAtLeastLeadingDigit(s[..|s| - 1]);
    }
  }

  /** Reading a canonical numeral and writing the number back gives the
      same numeral. */
  lemma {:induction false} NatToDigitsValue(s: string)
    requires IsCanonical(s)
    ensures NatToDigits(Value(s)) == s
    decreases |s|
  {
    if |s| > 1 {
      var p := s[..|s| - 1];
      assert IsCanonical(p);
      NatToDigitsValue(p);
      ValueAtLeastLeadingDigit(p);
      var n := Value(s);
      assert n == 10 * Value(p) + DigitValue(s[|s| - 1]);
      assert n / 10 == Value(p) && n % 10 == DigitValue(s[|s| - 1]);
      assert s == p + [s[|s| - 1]];
    }
  }

  /** `fmt`'s `%d`: an optional minus sign and the canonical numeral of the
      magnitude. */
  function IntToDecimal(n: int): (r: string)
    ensures r != []
    ensures r[0] == '-' <==> n < 0
    ensures n < 0 ==> IsCanonical(r[1..]) && Value(r[1..]) == -n
    ensures n >= 0 ==> IsCanonical(r) && Value(r) == n
  {
    if n < 0 then "-" + NatToDigits(-n) else NatToDigits(n)
  }

  /** Different numbers print differently. */
  lemma IntToDecimalInjective(m: int, n: int)
    requires IntToDecimal(m) == IntToDecimal(n)
    ensures m == n
  {
    if m < 0 && n < 0 {
      assert NatToDigits(-m) == IntToDecimal(m)[1..];
    }
  }
}
