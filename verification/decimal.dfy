/**
  Decimal rendering of integers as JavaScript's `Number.prototype.toString` does it
  for integral values, `String.prototype.padStart`, and the inverse reading of digit
  strings that the round-trip properties use.
 */
module Decimal {

  predicate IsDigit(c: char)
  {
    '0' <= c <= '9'
  }

  function DigitChar(d: nat): (c: char)
    requires d < 10
    ensures IsDigit(c) && CharValue(c) == d
  {
    ('0' as int + d) as char
  }

  function CharValue(c: char): nat
  {
    if IsDigit(c) then (c as int - '0' as int) else 0
  }

  /** The decimal digits of `n`, most significant first, without leading zeros. */
  function Digits(n: nat): (r: string)
    ensures 1 <= |r|
    ensures forall i :: 0 <= i < |r| ==> IsDigit(r[i])
    ensures |r| == 1 <==> n < 10
    ensures |r| == 2 <==> 10 <= n < 100
    decreases n
  {
    if n < 10 then [DigitChar(n)] else Digits(n / 10) + [DigitChar(n % 10)]
  }

  /** The number a digit string denotes. */
  function Value(s: string): nat
    decreases |s|
  {
    if |s| == 0 then 0 else Value(s[..|s| - 1]) * 10 + CharValue(s[|s| - 1])
  }

  /** Reading back the digits of `n` gives `n`. */
  lemma {:induction false} ValueOfDigits(n: nat)
    ensures Value(Digits(n)) == n
    decreases n
  {
    if n >= 10 {
      ValueOfDigits(n / 10);
      var d := Digits(n / 10) + [DigitChar(n % 10)];
      assert d[..|d| - 1] == Digits(n / 10);
    }
  }

  /** Leading zeros do not change the value of a digit string. */
  lemma {:induction false} LeadingZeros(z: string, s: string)
    requires forall i :: 0 <= i < |z| ==> z[i] == '0'
    ensures Value(z + s) == Value(s)
    decreases |s|, |z|
  {
    if |s| == 0 {
      assert z + s == z;
      if |z| > 0 {
        LeadingZeros(z[..|z| - 1], s);
        assert z[..|z| - 1] + s == z[..|z| - 1];
      }
    } else {
      var s' := s[..|s| - 1];
      LeadingZeros(z, s');
      assert (z + s)[..|z + s| - 1] == z + s';
    }
  }

  /** `toString` of an integral number: a minus sign for negatives, then the digits. */
  function IntToString(i: int): (r: string)
    ensures i >= 0 ==> r == Digits(i)
    ensures i < 0 ==> |r| >= 2 && r[0] == '-' && r[1..] == Digits(-i)
  {
    if i < 0 then "-" + Digits(-i) else Digits(i)
  }

  /** `padStart(width, fill)`: prefix `fill` until the string is at least `width` long. */
  function PadStart(s: string, width: nat, fill: char): (r: string)
    ensures |r| == if |s| >= width then |s| else width
    ensures r[|r| - |s|..] == s
    ensures forall i :: |r| - |s| <= i < |r| ==> r[i] == s[i - (|r| - |s|)]
    ensures forall i :: 0 <= i < |r| - |s| ==> r[i] == fill
  {
    if |s| >= width then s else seq(width - |s|, _ => fill) + s
  }
}
