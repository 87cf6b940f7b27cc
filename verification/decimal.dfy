/**
 The decimal text of an integer, as JavaScript's `String(n)` writes a
 whole number of modest size: an optional minus sign, then the digits with
 no leading zero.
 */
module Decimal {

  predicate IsDigit(c: char) {
    '0' <= c <= '9'
  }

  function DigitChar(d: nat): (c: char)
    requires d < 10
    ensures IsDigit(c) && DigitValue(c) == d
  {
    ['0', '1', '2', '3', '4', '5', '6', '7', '8', '9'][d]
  }

  function DigitValue(c: char): nat
    requires IsDigit(c)
  {
    (c as int) - ('0' as int)
  }

  function Pow10(k: nat): (p: nat)
    ensures p >= 1
  {
    if k == 0 then 1 else 10 * Pow10(k - 1)
  }

  /** Every character of `s` is a digit. */
  predicate AllDigits(s: string) {
    forall k :: 0 <= k < |s| ==> IsDigit(s[k])
  }

  /** The digits of `n`, most significant first. */
  function NatString(n: nat): (r: string)
    ensures |r| >= 1 && AllDigits(r)
    ensures n > 0 ==> r[0] != '0'
    ensures r[0] == '0' ==> |r| == 1
    decreases n
  {
    if n < 10 then [DigitChar(n)] else NatString(n / 10) + [DigitChar(n % 10)]
  }

  /** `String(year)` for the integer the host clock reports: a minus sign for
      a negative year, then digits that read back as the year's magnitude. */
  function YearString(year: int): (r: string)
    ensures year >= 0 ==> |r| >= 1 && AllDigits(r) && DigitsValue(r) == year && (r[0] == '0' <==> year == 0) && (r[0] == '0' ==> |r| == 1)
    ensures year < 0 ==> |r| >= 2 && r[0] == '-' && AllDigits(r[1..]) && DigitsValue(r[1..]) == -year && r[1] != '0'
  {
    var n: nat := if year < 0 then -year else year;
    var d := NatString(n);
    NatStringRoundTrip(n);
    if year < 0 then
      NegativeText(d, n);
      ['-'] + d
    else
      d
  }

  /** A minus sign in front of the digits of `n` gives text whose digits read
      back as `n`. */
  lemma NegativeText(d: string, n: nat)
    requires |d| >= 1 && AllDigits(d) && DigitsValue(d) == n && d[0] != '0'
    ensures var r := ['-'] + d;
      |r| >= 2 && r[0] == '-' && AllDigits(r[1..]) && DigitsValue(r[1..]) == n && r[1] != '0'
  {
    assert (['-'] + d)[1..] == d;
  }

  /** The value of a string of digits, most significant first. */
  function DigitsValue(s: string): nat
    requires AllDigits(s)
  {
    if s == [] then 0 else 10 * DigitsValue(s[..|s| - 1]) + DigitValue(s[|s| - 1])
  }

  /** Reading the digits back gives the number that was written. */
  lemma {:induction false} NatStringRoundTrip(n: nat)
    ensures DigitsValue(NatString(n)) == n
    decreases n
  {
    var r := NatString(n);
    if n >= 10 {
      NatStringRoundTrip(n / 10);
      assert r[..|r| - 1] == NatString(n / 10);
    }
  }

  /** `n` has `k` digits exactly when it lies in `[10^(k-1), 10^k)` (or is
      0 and `k` is 1). */
  lemma {:induction false} NatStringLength(n: nat)
    ensures n < Pow10(|NatString(n)|)
    ensures n >= 10 ==> Pow10(|NatString(n)| - 1) <= n
    decreases n
  {
    if n >= 10 {
      NatStringLength(n / 10);
      assert |NatString(n)| == |NatString(n / 10)| + 1;
    }
  }

  /** Four characters, all of them digits: the text `\d{4}` matches. */
  predicate IsFourDigits(s: string) {
    |s| == 4 && forall k :: 0 <= k < 4 ==> IsDigit(s[k])
  }

  /** The year text is four digits exactly for the years 1000 to 9999. */
  lemma YearStringFourDigits(year: int)
    ensures IsFourDigits(YearString(year)) <==> 1000 <= year <= 9999
  {
    if year < 0 {
      assert YearString(year)[0] == '-';
    } else {
      assert YearString(year) == NatString(year);
      NatStringFourLong(year);
    }
  }

  /** A whole number is written with four digits exactly when it lies in
      `[1000, 10000)`. */
  lemma NatStringFourLong(n: nat)
    ensures |NatString(n)| == 4 <==> 1000 <= n <= 9999
  {
    if 1000 <= n <= 9999 {
      assert |NatString(n / 1000)| == 1;
      assert |NatString(n / 100)| == 2;
      assert |NatString(n / 10)| == 3;
    } else {
      assert Pow10(3) == 1000 && Pow10(4) == 10000;
      NatStringLength(n);
    }
  }
}
