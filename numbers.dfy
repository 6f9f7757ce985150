/** Decimal integers as the scripts read and write them: Python's `int()` on a
    token, and the `{i:04d}` zero-padded format. */
module Numbers {
  import opened Wrappers

  predicate IsDigit(c: char) {
    '0' <= c <= '9'
  }

  predicate AllDigits(s: string) {
    forall i :: 0 <= i < |s| ==> IsDigit(s[i])
  }

  /** The value of a string of decimal digits, most significant first. */
  function DigitsValue(s: string): nat
    requires AllDigits(s)
  {
    if s == [] then 0 else DigitsValue(s[..|s| - 1]) * 10 + (s[|s| - 1] as int - '0' as int)
  }

  /** Python's `int(token)` on a token without whitespace: an optional sign
      followed by one or more ASCII digits; anything else is a ValueError. */
  function ParseInt(s: string): Option<int> {
    if |s| > 0 && (s[0] == '+' || s[0] == '-') then
      var ds := s[1..];
      if |ds| > 0 && AllDigits(ds) then
        Some(if s[0] == '-' then 0 - DigitsValue(ds) as int else DigitsValue(ds))
      else None
    else if |s| > 0 && AllDigits(s) then Some(DigitsValue(s))
    else None
  }

  /** The decimal digits of `n` with no leading zero (Python's `str(n)`). */
  function FormatNat(n: nat): (r: string)
    ensures |r| >= 1 && AllDigits(r) && DigitsValue(r) == n
  {
    var d := ['0' + (n % 10) as char];
    if n < 10 then d
    else
      var r := FormatNat(n / 10) + d;
      assert r[..|r| - 1] == FormatNat(n / 10);
      r
  }

  /** Python's `str(i)` for any integer. */
  function FormatInt(i: int): string {
    if i < 0 then "-" + FormatNat(-i) else FormatNat(i)
  }

  /** `int(str(i)) == i`: printing an integer and reading it back is the identity. */
  lemma ParseFormat(i: int)
    ensures ParseInt(FormatInt(i)) == Some(i)
  {
    if i < 0 {
      var s := FormatInt(i);
      assert s[1..] == FormatNat(-i);
    }
  }

  function Zeros(k: nat): (z: string)
    ensures |z| == k && AllDigits(z)
  {
    if k == 0 then [] else Zeros(k - 1) + ['0']
  }

  /** Leading zeros do not change the value of a digit string. */
  lemma {:induction false} LeadingZeros(k: nat, ds: string)
    requires AllDigits(ds)
    ensures AllDigits(Zeros(k) + ds) && DigitsValue(Zeros(k) + ds) == DigitsValue(ds)
  {
    var s := Zeros(k) + ds;
    if ds == [] {
      assert s == Zeros(k);
      ZerosValue(k);
    } else {
      var init := ds[..|ds| - 1];
      assert s[..|s| - 1] == Zeros(k) + init;
      LeadingZeros(k, init);
    }
  }

  lemma {:induction false} ZerosValue(k: nat)
    ensures DigitsValue(Zeros(k)) == 0
  {
    if k > 0 {
      assert Zeros(k)[..k - 1] == Zeros(k - 1);
      ZerosValue(k - 1);
    }
  }

  function Pow10(k: nat): nat {
    if k == 0 then 1 else 10 * Pow10(k - 1)
  }

  /** A number below 10^k has at most k digits. */
  lemma {:induction false} FormatNatLength(n: nat, k: nat)
    requires 1 <= k && n < Pow10(k)
    ensures |FormatNat(n)| <= k
  {
    if n >= 10 {
      FormatNatLength(n / 10, k - 1);
    }
  }

  /** Python's `f"{n:04d}"` for a non-negative `n`: the decimal digits of `n`,
      left-padded with zeros to at least four characters. Reading the result
      back as a number gives `n`, so different numbers format differently. */
  function Pad4(n: nat): (r: string)
    ensures AllDigits(r) && |r| >= 4 && DigitsValue(r) == n
    ensures n < 10000 ==> |r| == 4
  {
    var ds := FormatNat(n);
    var k := if |ds| < 4 then 4 - |ds| else 0;
    LeadingZeros(k, ds);
    assert n < 10000 ==> |ds| <= 4 by { if n < 10000 { FormatNatLength(n, 4); } }
    Zeros(k) + ds
  }
}
