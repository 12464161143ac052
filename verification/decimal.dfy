/** Decimal text of natural numbers, as produced by `String(n)` and
    `padStart(2, '0')` and read back by `Number(text)`. */
module Decimal {

  predicate IsDigit(ch: char)
  {
    '0' <= ch <= '9'
  }

  predicate AllDigits(s: string)
  {
    forall i :: 0 <= i < |s| ==> IsDigit(s[i])
  }

  function DigitChar(d: nat): (ch: char)
    requires d < 10
    ensures IsDigit(ch)
  {
    (('0' as int) + d) as char
  }

  function DigitValue(ch: char): (d: nat)
    requires IsDigit(ch)
    ensures d < 10
  {
    (ch as int) - ('0' as int)
  }

  /** `String(n)`: the digits of `n`, without leading zeros. */
  function Text(n: nat): (r: string)
    ensures 1 <= |r| && AllDigits(r)
    ensures n < 10 <==> |r| == 1
    ensures r[0] == '0' <==> n == 0
    ensures n == 0 ==> r == "0"
    decreases n
  {
    if n < 10 then [DigitChar(n)] else Text(n / 10) + [DigitChar(n % 10)]
  }

  /** The value of a string of decimal digits; the empty string reads as 0,
      as `Number("")` does. */
  function Value(s: string): nat
    requires AllDigits(s)
    decreases |s|
  {
    if |s| == 0 then 0 else Value(s[..|s| - 1]) * 10 + DigitValue(s[|s| - 1])
  }

  /** Reading back the text of a number gives the number. */
  lemma {:induction false} ValueOfText(n: nat)
    ensures Value(Text(n)) == n
    decreases n
  {
    if n >= 10 {
      ValueOfText(n / 10);
      var t := Text(n);
      assert t[..|t| - 1] == Text(n / 10);
    }
  }

  /** A leading zero does not change the value. */
  lemma {:induction false} LeadingZero(s: string)
    requires AllDigits(s)
    ensures AllDigits("0" + s) && Value("0" + s) == Value(s)
    decreases |s|
  {
    if |s| > 0 {
      var z := "0" + s;
      assert z[..|z| - 1] == "0" + s[..|s| - 1];
      LeadingZero(s[..|s| - 1]);
    }
  }

  /** `String(n).padStart(2, '0')`. */
  function Pad2(n: nat): (r: string)
    ensures AllDigits(r) && Value(r) == n
    ensures 2 <= |r|
    ensures n < 100 ==> |r| == 2
  {
    ValueOfText(n);
    if n < 10 then
      LeadingZero(Text(n));
      "0" + Text(n)
    else
      assert Text(n) == Text(n / 10) + [DigitChar(n % 10)];
      Text(n)
  }
}
