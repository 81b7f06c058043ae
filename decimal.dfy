/**
 * Decimal rendering of integers as Python's str(int) / f-string does it
 * (optional '-' sign, no leading zeros), and the parser that inverts it.
 * The OID of a port is built with this rendering (poe_monitor.py:58).
 */
module Decimal {
  import opened Wrappers

  predicate IsDigit(c: char) {
    '0' <= c <= '9'
  }

  /** A non-empty run of decimal digits. */
  predicate IsNumeral(s: string) {
    |s| > 0 && forall i :: 0 <= i < |s| ==> IsDigit(s[i])
  }

  function DigitChar(d: nat): (c: char)
    requires d < 10
    ensures IsDigit(c) && c as int - '0' as int == d
  {
    "0123456789"[d]
  }

  function DigitValue(c: char): (d: nat)
    requires IsDigit(c)
    ensures d < 10 && DigitChar(d) == c
  {
    c as int - '0' as int
  }

  /** Digits of n, most significant first, without leading zeros. */
  function NatToString(n: nat): (s: string)
    ensures IsNumeral(s)
    ensures s[0] == '0' ==> n == 0
    ensures n < 10 <==> |s| == 1
  {
    if n < 10 then [DigitChar(n)] else NatToString(n / 10) + [DigitChar(n % 10)]
  }

  /** Python's str(n) for an int. */
  function IntToString(n: int): string
  {
    if n < 0 then "-" + NatToString(-n) else NatToString(n)
  }

  /** Value of a run of digits read most significant first. */
  function DigitsValue(s: string): (n: nat)
    requires forall i :: 0 <= i < |s| ==> IsDigit(s[i])
  {
    if |s| == 0 then 0 else DigitsValue(s[..|s| - 1]) * 10 + DigitValue(s[|s| - 1])
  }

  /** Reads an unsigned decimal numeral; anything else is None. */
  function ParseUnsigned(s: string): Option<nat>
  {
    if IsNumeral(s) then Some(DigitsValue(s)) else None
  }

  /** Reads an optionally signed decimal numeral; anything else is None. */
  function ParseInt(s: string): Option<int>
  {
    if |s| > 0 && s[0] == '-' then
      match ParseUnsigned(s[1..])
      case Some(v) => Some(0 - v)
      case None => None
    else
      match ParseUnsigned(s)
      case Some(v) => Some(v as int)
      case None => None
  }

  lemma {:induction false} NatRoundTrip(n: nat)
    ensures DigitsValue(NatToString(n)) == n
  {
    if n >= 10 {
      var s := NatToString(n / 10);
      var c := DigitChar(n % 10);
      NatRoundTrip(n / 10);
      assert NatToString(n) == s + [c];
      assert (s + [c])[..|s|] == s;
    }
  }

  lemma UnsignedRoundTrip(n: nat)
    ensures ParseUnsigned(NatToString(n)) == Some(n)
  {
    NatRoundTrip(n);
  }

  /** Reading back what IntToString wrote gives the same integer. */
  lemma IntRoundTrip(n: int)
    ensures ParseInt(IntToString(n)) == Some(n)
  {
    if n < 0 {
      var digits := NatToString(-n);
      var s := "-" + digits;
      assert s[0] == '-' && s[1..] == digits;
      UnsignedRoundTrip(-n);
    } else {
      var s := NatToString(n);
      assert IsDigit(s[0]);
      UnsignedRoundTrip(n);
    }
  }

  /** Different integers are rendered differently. */
  lemma IntToStringInjective(m: int, n: int)
    ensures IntToString(m) == IntToString(n) <==> m == n
  {
    if IntToString(m) == IntToString(n) {
      IntRoundTrip(m);
      IntRoundTrip(n);
    }
  }
}
