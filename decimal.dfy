/**
 * Decimal rendering of non-negative integers, as `Long.toString` and
 * `String.format("%0<w>d", n)` produce it, with the value a digit string denotes
 * as its inverse.
 */
module Decimal {

  predicate IsDigit(c: char)
  {
    '0' <= c <= '9'
  }

  predicate AllDigits(s: string)
  {
    forall i :: 0 <= i < |s| ==> IsDigit(s[i])
  }

  function DigitChar(d: nat): (c: char)
    requires d < 10
    ensures IsDigit(c) && c as int - '0' as int == d
  {
    ('0' as int + d) as char
  }

  function Pow10(k: nat): (r: nat)
    ensures r >= 1
  {
    if k == 0 then 1 else 10 * Pow10(k - 1)
  }

  /** `Long.toString(n)` for a non-negative `n`: no leading zero unless `n` is zero. */
  function ToDecimal(n: nat): (r: string)
    ensures 1 <= |r| && AllDigits(r)
    ensures |r| > 1 ==> r[0] != '0'
  {
    if n < 10 then [DigitChar(n)] else ToDecimal(n / 10) + [DigitChar(n % 10)]
  }

  /** The number a string of decimal digits denotes (the empty string denotes 0). */
  function ValueOf(s: string): nat
    requires AllDigits(s)
  {
    if s == [] then 0 else ValueOf(s[..|s| - 1]) * 10 + (s[|s| - 1] as int - '0' as int)
  }

  /** Reading back a rendered number gives the number. */
  lemma {:induction false} ValueOfToDecimal(n: nat)
    ensures ValueOf(ToDecimal(n)) == n
  {
    if n >= 10 {
      var r := ToDecimal(n);
      assert r[..|r| - 1] == ToDecimal(n / 10);
      ValueOfToDecimal(n / 10);
    }
  }

  /** A number below 10^k takes at most k digits. */
  lemma {:induction false} ToDecimalLength(n: nat, k: nat)
    requires 1 <= k && n < Pow10(k)
    ensures |ToDecimal(n)| <= k
  {
    if n >= 10 {
      assert k >= 2;
      ToDecimalLength(n / 10, k - 1);
    }
  }

  /** Leading zeros do not change the value of a digit string. */
  lemma {:induction false} ValueOfLeadingZeros(z: nat, s: string)
    requires AllDigits(s)
    ensures AllDigits(seq(z, _ => '0') + s)
    ensures ValueOf(seq(z, _ => '0') + s) == ValueOf(s)
    decreases |s|
  {
    var zs: string := seq(z, _ => '0');
    var t := zs + s;
    if s == [] {
      assert t == zs;
      ZerosValueZero(z);
    } else {
      assert t[..|t| - 1] == zs + s[..|s| - 1];
      ValueOfLeadingZeros(z, s[..|s| - 1]);
    }
  }

  lemma {:induction false} ZerosValueZero(z: nat)
    ensures ValueOf(seq(z, _ => '0')) == 0
  {
    if z > 0 {
      var zs: string := seq(z, _ => '0');
      assert zs[..z - 1] == seq(z - 1, _ => '0');
      ZerosValueZero(z - 1);
    }
  }

  /** `String.format("%0<width>d", n)` for a non-negative `n`. */
  function ZeroPadded(n: nat, width: nat): (r: string)
  {
    var d := ToDecimal(n);
    if |d| < width then seq(width - |d|, _ => '0') + d else d
  }

  /** A padded rendering is all digits, at least `width` long, exactly `width` when `n` fits, and denotes `n`. */
  lemma ZeroPaddedMeans(n: nat, width: nat)
    requires 1 <= width
    ensures AllDigits(ZeroPadded(n, width))
    ensures |ZeroPadded(n, width)| >= width
    ensures n < Pow10(width) ==> |ZeroPadded(n, width)| == width
    ensures ValueOf(ZeroPadded(n, width)) == n
  {
    var d := ToDecimal(n);
    ValueOfToDecimal(n);
    if n < Pow10(width) {
      ToDecimalLength(n, width);
    }
    if |d| < width {
      ValueOfLeadingZeros(width - |d|, d);
    }
  }
}
