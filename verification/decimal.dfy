/**
 Decimal rendering of integers, as Python's `str(int)` produces it inside an
 f-string: an optional `-` sign followed by the canonical base-10 digits (no
 leading zeros, no `+`, no separators). A reader `ParseInt` is the partner
 that shows the rendering loses no information.
 */
module Decimal {

  predicate IsDigit(c: char) {
    '0' <= c <= '9'
  }

  function DigitChar(d: nat): (c: char)
    requires d < 10
    ensures IsDigit(c)
  {
    ('0' as int + d) as char
  }

  function DigitValue(c: char): nat {
    if IsDigit(c) then c as int - '0' as int else 0
  }

  predicate AllDigits(s: string) {
    forall k :: 0 <= k < |s| ==> IsDigit(s[k])
  }

  /** Canonical decimal digits of a natural number. */
  function NatToString(n: nat): (s: string)
    decreases n
    ensures |s| >= 1
    ensures AllDigits(s)
    ensures |s| > 1 ==> s[0] != '0'
  {
    if n < 10 then [DigitChar(n)]
    else NatToString(n / 10) + [DigitChar(n % 10)]
  }

  /** `str(x)` for a Python int. */
  function IntToString(x: int): (s: string)
    ensures |s| >= 1
    ensures x < 0 <==> s[0] == '-'
    ensures AllDigits(if x < 0 then s[1..] else s)
  {
    if x < 0 then "-" + NatToString(-x) else NatToString(x)
  }

  /** Reads a run of digits, most significant first. */
  function ParseNat(s: string): nat
    decreases |s|
  {
    if |s| == 0 then 0
    else 10 * ParseNat(s[..|s| - 1]) + DigitValue(s[|s| - 1])
  }

  /** Reads what `IntToString` writes. */
  function ParseInt(s: string): int {
    if |s| > 0 && s[0] == '-' then -(ParseNat(s[1..]) as int) else ParseNat(s)
  }

  lemma {:induction false} ParseNatRoundTrip(n: nat)
    ensures ParseNat(NatToString(n)) == n
    decreases n
  {
    if n >= 10 {
      var s := NatToString(n);
      assert s[..|s| - 1] == NatToString(n / 10);
      ParseNatRoundTrip(n / 10);
    }
  }

  lemma ParseIntRoundTrip(x: int)
    ensures ParseInt(IntToString(x)) == x
  {
    if x < 0 {
      var s := IntToString(x);
      assert s[1..] == NatToString(-x);
      ParseNatRoundTrip(-x);
    } else {
      ParseNatRoundTrip(x);
    }
  }

  /** Distinct integers are rendered as distinct strings. */
  lemma IntToStringInjective(x: int, y: int)
    ensures IntToString(x) == IntToString(y) <==> x == y
  {
    ParseIntRoundTrip(x);
    ParseIntRoundTrip(y);
  }

  /** The rendering never contains the separator used in chunk identifiers. */
  lemma NoUnderscore(x: int)
    ensures '_' !in IntToString(x)
  {
    var s := IntToString(x);
    var digits := if x < 0 then s[1..] else s;
    assert AllDigits(digits);
    forall k | 0 <= k < |s|
      ensures s[k] != '_'
    {
      if x < 0 && k > 0 {
        assert s[k] == digits[k - 1];
      } else if x >= 0 {
        assert s[k] == digits[k];
      }
    }
  }
}
