/**
 * Decimal notation of integers, as JavaScript's `String(n)` and Python's
 * f-string formatting print them, and the value of a digit string.
 */
module Decimal {

  predicate IsDigit(c: char) {
    '0' <= c <= '9'
  }

  function DigitChar(d: nat): char
    requires d < 10
  {
    ('0' as int + d) as char
  }

  function DigitValue(c: char): nat
    requires IsDigit(c)
  {
    c as int - '0' as int
  }

  /** Shortest decimal digits of `n`: no sign and no leading zero. */
  function NatToString(n: nat): (r: string)
    ensures r != [] && forall i :: 0 <= i < |r| ==> IsDigit(r[i])
    ensures r[0] == '0' ==> n == 0 && |r| == 1
  {
    if n < 10 then [DigitChar(n)] else NatToString(n / 10) + [DigitChar(n % 10)]
  }

  /** Decimal text of an integer, with a leading `-` when it is negative. */
  function IntToString(n: int): (r: string)
    ensures r != []
    ensures n >= 0 <==> IsDigit(r[0])
  {
    if n >= 0 then NatToString(n) else "-" + NatToString(-n)
  }

  /** A digit string as the regular expression `0|[1-9][0-9]*` accepts it. */
  predicate IsCanonicalNumeral(s: string) {
    && s != []
    && (forall i :: 0 <= i < |s| ==> IsDigit(s[i]))
    && (s[0] == '0' ==> |s| == 1)
  }

  /** The value of a string of digits, most significant first. */
  function NumeralValue(s: string): nat
    requires forall i :: 0 <= i < |s| ==> IsDigit(s[i])
  {
    if s == [] then 0 else NumeralValue(s[..|s| - 1]) * 10 + DigitValue(s[|s| - 1])
  }

  /** Printing is canonical and parsing undoes it. */
  lemma {:induction false} NatToStringRoundTrip(n: nat)
    ensures IsCanonicalNumeral(NatToString(n))
    ensures NumeralValue(NatToString(n)) == n
  {
    if n >= 10 {
      NatToStringRoundTrip(n / 10);
      var s := NatToString(n);
      assert s[..|s| - 1] == NatToString(n / 10);
    }
  }

  /** A numeral that does not start with `0` denotes at least 1. */
  lemma {:induction false} LeadingNonZeroPositive(s: string)
    requires s != [] && (forall i :: 0 <= i < |s| ==> IsDigit(s[i])) && s[0] != '0'
    ensures NumeralValue(s) >= 1
  {
    if |s| > 1 {
      LeadingNonZeroPositive(s[..|s| - 1]);
    }
  }

  /** Parsing a canonical numeral and printing the value gives the numeral back. */
  lemma {:induction false} CanonicalRoundTrip(s: string)
    requires IsCanonicalNumeral(s)
    ensures NatToString(NumeralValue(s)) == s
  {
    if |s| > 1 {
      var init := s[..|s| - 1];
      LeadingNonZeroPositive(init);
      CanonicalRoundTrip(init);
      var n := NumeralValue(s);
      assert n / 10 == NumeralValue(init) && n % 10 == DigitValue(s[|s| - 1]);
      assert n >= 10;
    }
  }

  /** Printing never produces a `.`; the version parser relies on this. */
  lemma NatToStringHasNoDot(n: nat)
    ensures '.' !in NatToString(n)
  {
  }
}
