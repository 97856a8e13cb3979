/** Decimal rendering with `java.text.DecimalFormat ("0000")` for non-negative
    integers, and the matching parse. */
module Decimal {

  predicate IsDigit(c: char) {
    '0' <= c <= '9'
  }

  function DigitChar(d: nat): (c: char)
    requires d < 10
    ensures IsDigit(c) && c as int - '0' as int == d
  {
    ('0' as int + d) as char
  }

  /** The shortest decimal rendering of `n`, most significant digit first. */
  function Digits(n: nat): (s: string)
    ensures 1 <= |s|
    ensures forall i :: 0 <= i < |s| ==> IsDigit(s[i])
    decreases n
  {
    if n < 10 then [DigitChar(n)] else Digits(n / 10) + [DigitChar(n % 10)]
  }

  function Zeros(k: nat): (s: string)
    ensures |s| == k && forall i :: 0 <= i < k ==> s[i] == '0'
  {
    if k == 0 then "" else Zeros(k - 1) + "0"
  }

  /** `new DecimalFormat ("0000").format (n)`: the digits of `n`, left-padded with
      zeros to at least four characters. */
  function Format0000(n: nat): (s: string)
    ensures |s| >= 4
    ensures forall i :: 0 <= i < |s| ==> IsDigit(s[i])
  {
    var d := Digits(n);
    if |d| < 4 then Zeros(4 - |d|) + d else d
  }

  /** The value of a string of decimal digits. */
  function ParseDecimal(s: string): nat
    requires forall i :: 0 <= i < |s| ==> IsDigit(s[i])
  {
    if s == [] then 0
    else
      var last := s[|s| - 1];
      assert IsDigit(last);
      ParseDecimal(s[..|s| - 1]) * 10 + (last as int - '0' as int)
  }

  lemma {:induction false} ParseDigits(n: nat)
    ensures ParseDecimal(Digits(n)) == n
    decreases n
  {
    if n >= 10 {
      var d := Digits(n);
      assert d[..|d| - 1] == Digits(n / 10);
      ParseDigits(n / 10);
    }
  }

  /** The number of digits grows with the value: below 10^k there are at most k. */
  lemma {:induction false} DigitsLength(n: nat, k: nat)
    requires n < Pow10(k) && k >= 1
    ensures |Digits(n)| <= k
    decreases k
  {
    if n >= 10 {
      assert k >= 2;
      DigitsLength(n / 10, k - 1);
    }
  }

  function Pow10(k: nat): nat {
    if k == 0 then 1 else 10 * Pow10(k - 1)
  }

  /** Leading zeros do not change the parsed value. */
  lemma {:induction false} ParseLeadingZeros(k: nat, s: string)
    requires forall i :: 0 <= i < |s| ==> IsDigit(s[i])
    ensures ParseDecimal(Zeros(k) + s) == ParseDecimal(s)
    decreases |s|
  {
    var z := Zeros(k) + s;
    if s == [] {
      assert z == Zeros(k);
      ParseZeros(k);
    } else {
      assert z[..|z| - 1] == Zeros(k) + s[..|s| - 1];
      ParseLeadingZeros(k, s[..|s| - 1]);
    }
  }

  lemma {:induction false} ParseZeros(k: nat)
    ensures ParseDecimal(Zeros(k)) == 0
    decreases k
  {
    if k > 0 {
      var z := Zeros(k);
      assert z[..|z| - 1] == Zeros(k - 1);
      ParseZeros(k - 1);
    }
  }

  /** For a draw `0 <= r < 10000` the rendering is exactly four digits, zero-padded,
      and parses back to `r`. */
  lemma Format0000RoundTrip(r: nat)
    requires r < 10000
    ensures |Format0000(r)| == 4
    ensures forall i :: 0 <= i < 4 ==> IsDigit(Format0000(r)[i])
    ensures ParseDecimal(Format0000(r)) == r
  {
    assert Pow10(4) == 10000;
    DigitsLength(r, 4);
    ParseDigits(r);
    var d := Digits(r);
    if |d| < 4 {
      ParseLeadingZeros(4 - |d|, d);
    }
  }
}
