/** Decimal digit strings: Python's `str` of an `int`, and its inverse. */
module Decimal {

  predicate IsDigit(c: char)
  {
    '0' <= c <= '9'
  }

  predicate AllDigits(s: string)
  {
    forall i :: 0 <= i < |s| ==> IsDigit(s[i])
  }

  function DigitChar(d: int): (c: char)
    requires 0 <= d < 10
    ensures IsDigit(c)
  {
    ('0' as int + d) as char
  }

  function DigitValue(c: char): (d: nat)
    requires IsDigit(c)
    ensures d < 10 && DigitChar(d) == c
  {
    c as int - '0' as int
  }

  function Pow10(k: nat): (p: nat)
    ensures p >= 1
  {
    if k == 0 then 1 else 10 * Pow10(k - 1)
  }

  /** The decimal digits of `n`, most significant first, without leading zeros. */
  function DigitsOf(n: nat): (d: string)
    ensures d != [] && AllDigits(d)
    ensures |d| > 1 ==> d[0] != '0'
  {
    if n < 10 then [DigitChar(n)] else DigitsOf(n / 10) + [DigitChar(n % 10)]
  }

  /** The number a digit string denotes. */
  function ValueOf(d: string): (n: nat)
    requires AllDigits(d)
  {
    if d == [] then 0 else 10 * ValueOf(d[..|d| - 1]) + DigitValue(d[|d| - 1])
  }

  /** Python's `str(i)` for an `int`: a `-` for negative numbers, then the digits. */
  function Str(i: int): (s: string)
  {
    (if i < 0 then "-" else "") + DigitsOf(if i < 0 then -i else i)
  }

  lemma {:induction false} ValueOfDigitsOf(n: nat)
    ensures ValueOf(DigitsOf(n)) == n
  {
    if n >= 10 {
      ValueOfDigitsOf(n / 10);
      var d := DigitsOf(n);
      assert d[..|d| - 1] == DigitsOf(n / 10);
    }
  }

  /** The other direction of the round trip: a digit string without leading
      zeros is the rendering of the number it denotes. */
  lemma {:induction false} DigitsOfValueOf(d: string)
    requires d != [] && AllDigits(d)
    requires |d| > 1 ==> d[0] != '0'
    ensures DigitsOf(ValueOf(d)) == d
  {
    var init := d[..|d| - 1];
    var last := DigitValue(d[|d| - 1]);
    if init == [] {
      assert ValueOf(d) == last;
    } else {
      assert init[0] == d[0];
      ValueAtLeast(init);
      DigitsOfValueOf(init);
      var n := ValueOf(d);
      assert n / 10 == ValueOf(init) && n % 10 == last;
      assert d == init + [d[|d| - 1]];
    }
  }

  lemma {:induction false} ValueAtLeast(d: string)
    requires d != [] && AllDigits(d) && d[0] != '0'
    ensures ValueOf(d) >= 1
  {
    if |d| > 1 {
      var init := d[..|d| - 1];
      assert init[0] == d[0];
      ValueAtLeast(init);
    }
  }

  /** `n` has at most `k` digits exactly when it is below `10^k`. */
  lemma {:induction false} DigitsOfLength(n: nat, k: nat)
    requires k >= 1
    ensures |DigitsOf(n)| <= k <==> n < Pow10(k)
  {
    if n >= 10 {
      if k == 1 {
        assert |DigitsOf(n)| == |DigitsOf(n / 10)| + 1;
      } else {
        DigitsOfLength(n / 10, k - 1);
      }
    }
  }
}
