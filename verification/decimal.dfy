/**
 * Decimal text of natural numbers as the fetcher reads and writes it in file
 * names: `str.isdigit`, `int(...)` on a digit string, and the `{n:05}` format.
 * Only the ASCII digits '0' to '9' are digits here.
 */
module Decimal {

  predicate IsDigit(c: char) {
    '0' <= c <= '9'
  }

  predicate AllDigits(s: string) {
    forall i :: 0 <= i < |s| ==> IsDigit(s[i])
  }

  /** `s.isdigit()`: non-empty and made of digits only. */
  predicate IsDigits(s: string) {
    |s| > 0 && AllDigits(s)
  }

  /** 10 to the power `n`. */
  function Pow10(n: nat): (r: nat)
    ensures r >= 1
  {
    if n == 0 then 1 else 10 * Pow10(n - 1)
  }

  function DigitValue(c: char): nat
    requires IsDigit(c)
  {
    c as int - '0' as int
  }

  function DigitChar(d: nat): (c: char)
    requires d < 10
    ensures IsDigit(c) && DigitValue(c) == d
  {
    ('0' as int + d) as char
  }

  /** `int(s)` for a string of digits (leading zeros allowed). */
  function ParseDigits(s: string): nat
    requires AllDigits(s)
    decreases |s|
  {
    if s == [] then 0 else 10 * ParseDigits(s[..|s| - 1]) + DigitValue(s[|s| - 1])
  }

  /** `int` of k digits is below 10^k, and a single digit reads as its value. */
  lemma {:induction false} ParseDigitsBound(s: string)
    requires AllDigits(s)
    ensures ParseDigits(s) < Pow10(|s|)
    ensures |s| == 1 ==> ParseDigits(s) == DigitValue(s[0])
    decreases |s|
  {
    if s != [] {
      ParseDigitsBound(s[..|s| - 1]);
    }
  }

  /** `str(n)`: the shortest decimal text of `n`, which reads back as `n`. */
  function ToDigits(n: nat): (r: string)
    ensures IsDigits(r) && ParseDigits(r) == n
    ensures n < 10 ==> |r| == 1
    ensures n >= 10 ==> |r| == |ToDigits(n / 10)| + 1
    decreases n
  {
    if n < 10 then [DigitChar(n)]
    else
      var r := ToDigits(n / 10) + [DigitChar(n % 10)];
      assert r[..|r| - 1] == ToDigits(n / 10);
      r
  }

  function Zeros(k: nat): (r: string)
    ensures |r| == k && AllDigits(r)
    ensures forall i :: 0 <= i < k ==> r[i] == '0'
  {
    seq(k, _ => '0')
  }

  /** Leading zeros do not change the value `int` reads. */
  lemma {:induction false} ParseLeadingZeros(k: nat, s: string)
    requires AllDigits(s)
    ensures AllDigits(Zeros(k) + s)
    ensures ParseDigits(Zeros(k) + s) == ParseDigits(s)
    decreases |s|, k
  {
    var z := Zeros(k);
    if s == [] {
      assert z + s == z;
      if k > 0 {
        assert z[..k - 1] == Zeros(k - 1);
        ParseLeadingZeros(k - 1, []);
        assert Zeros(k - 1) + [] == Zeros(k - 1);
      }
    } else {
      var t := z + s;
      assert t[..|t| - 1] == z + s[..|s| - 1];
      ParseLeadingZeros(k, s[..|s| - 1]);
    }
  }

  /** `f"{n:0{width}}"`: `str(n)` left-padded with zeros to at least `width` characters. */
  function ZeroPad(n: nat, width: nat): (r: string)
    ensures IsDigits(r) && ParseDigits(r) == n
    ensures |r| == if |ToDigits(n)| < width then width else |ToDigits(n)|
  {
    var d := ToDigits(n);
    if |d| < width then
      ParseLeadingZeros(width - |d|, d);
      Zeros(width - |d|) + d
    else d
  }

  /** Numbers below 100000 need at most five digits. */
  lemma FiveDigitsSuffice(n: nat)
    requires n < 100000
    ensures |ToDigits(n)| <= 5
  {
  }
}
