/** The signer's timestamp: Python's `int()` applied to the clock reading
    (truncation toward zero) and `str()` of the resulting integer (its
    canonical decimal rendering). The partner of the rendering is a parser
    that reads it back. */
module Decimal {
  import opened Wrappers

  /** `int(x)` on a float: drops the fractional part, rounding toward zero. */
  function Truncate(x: real): (n: int)
    ensures 0.0 <= x ==> 0 <= n && n as real <= x < n as real + 1.0
    ensures x < 0.0 ==> n <= 0 && n as real - 1.0 < x <= n as real
  {
    if 0.0 <= x then x.Floor else -((-x).Floor)
  }

  predicate IsDigit(c: char) {
    '0' <= c <= '9'
  }

  predicate AllDigits(s: string) {
    forall i :: 0 <= i < |s| ==> IsDigit(s[i])
  }

  function DigitChar(d: int): (c: char)
    requires 0 <= d < 10
    ensures IsDigit(c) && c as int - '0' as int == d
  {
    ('0' as int + d) as char
  }

  function DigitValue(c: char): (d: int)
    requires IsDigit(c)
    ensures 0 <= d < 10 && DigitChar(d) == c
  {
    c as int - '0' as int
  }

  /** The number a string of decimal digits denotes, most significant digit first. */
  function DigitsValue(s: string): (v: nat)
    requires AllDigits(s)
  {
    if |s| == 0 then 0 else DigitsValue(s[..|s| - 1]) * 10 + DigitValue(s[|s| - 1])
  }

  /** `str(n)` for n >= 0: at least one digit, and no leading zero except in "0". */
  function NatToDecimal(n: nat): (s: string)
    ensures |s| >= 1 && AllDigits(s)
    ensures s == "0" <==> n == 0
    ensures s[0] == '0' ==> s == "0"
  {
    if n < 10 then [DigitChar(n)] else NatToDecimal(n / 10) + [DigitChar(n % 10)]
  }

  /** `str(n)` for any integer: a minus sign before the digits of |n| when n < 0. */
  function IntToDecimal(n: int): (s: string)
    ensures |s| >= 1
    ensures s[0] == '-' <==> n < 0
    ensures forall i :: 0 <= i < |s| ==> IsDigit(s[i]) || (i == 0 && s[i] == '-')
  {
    if n < 0 then "-" + NatToDecimal(-n) else NatToDecimal(n)
  }

  /** Reads a canonical decimal integer: an optional '-', then digits with no
      leading zero (other than "0" itself), and no "-0". */
  function ParseInt(s: string): Option<int>
  {
    if |s| > 0 && s[0] == '-' then
      var ds := s[1..];
      if |ds| > 0 && AllDigits(ds) && ds[0] != '0' then Some(0 - DigitsValue(ds) as int) else None
    else if |s| > 0 && AllDigits(s) && (s[0] != '0' || s == "0") then Some(DigitsValue(s))
    else None
  }

  /** The digits of `str(n)` denote n. */
  lemma {:induction false} NatToDecimalValue(n: nat)
    ensures DigitsValue(NatToDecimal(n)) == n
  {
    var s := NatToDecimal(n);
    if n >= 10 {
      NatToDecimalValue(n / 10);
      assert s[..|s| - 1] == NatToDecimal(n / 10);
    }
  }

  /** Reading back the rendering of any integer gives that integer. */
  lemma ParseIntToDecimal(n: int)
    ensures ParseInt(IntToDecimal(n)) == Some(n)
  {
    if n < 0 {
      NatToDecimalValue(-n);
      assert IntToDecimal(n)[1..] == NatToDecimal(-n);
    } else {
      NatToDecimalValue(n);
    }
  }

  /** Distinct integers render as distinct strings. */
  lemma IntToDecimalInjective(m: int, n: int)
    requires IntToDecimal(m) == IntToDecimal(n)
    ensures m == n
  {
    ParseIntToDecimal(m);
    ParseIntToDecimal(n);
  }

  /** The rendering is the ONLY string the parser maps to n: it is the
      canonical form of n. */
  lemma ParseIntCanonical(s: string, n: int)
    requires ParseInt(s) == Some(n)
    ensures s == IntToDecimal(n)
  {
    if |s| > 0 && s[0] == '-' {
      var ds := s[1..];
      DigitsCanonical(ds);
      assert s == "-" + ds;
    } else {
      DigitsCanonical(s);
    }
  }

  /** A digit string without a leading zero (or "0" itself) is the rendering
      of its value. */
  lemma {:induction false} DigitsCanonical(s: string)
    requires |s| > 0 && AllDigits(s) && (s[0] != '0' || s == "0")
    ensures NatToDecimal(DigitsValue(s)) == s
  {
    var v := DigitsValue(s);
    if |s| == 1 {
      assert s[..0] == [];
    } else {
      var p := s[..|s| - 1];
      assert p[0] == s[0];
      DigitsCanonical(p);
      var d := DigitValue(s[|s| - 1]);
      assert v == DigitsValue(p) * 10 + d;
      assert DigitsValue(p) > 0;
      assert v / 10 == DigitsValue(p) && v % 10 == d;
      assert s == p + [s[|s| - 1]];
    }
  }
}
