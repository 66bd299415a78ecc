/**
 * Decimal rendering of numbers, as JavaScript's `String(n)` and template
 * literals produce it, and `padStart(2, '0')`.
 */
module Decimal {

  predicate IsDigit(c: char) {
    '0' <= c <= '9'
  }

  predicate AllDigits(s: string) {
    forall i :: 0 <= i < |s| ==> IsDigit(s[i])
  }

  function DigitChar(d: nat): (c: char)
    requires d < 10
    ensures IsDigit(c)
  {
    ('0' as int + d) as char
  }

  function DigitValue(c: char): (d: nat)
    requires IsDigit(c)
    ensures d < 10 && DigitChar(d) == c
  {
    c as int - '0' as int
  }

  /** `String(n)` for a non-negative integer: digits, most significant first, no leading zero. */
  function NatToDecimal(n: nat): (s: string)
    ensures |s| >= 1 && AllDigits(s)
    ensures s[0] == '0' ==> n == 0
    decreases n
  {
    if n < 10 then [DigitChar(n)] else NatToDecimal(n / 10) + [DigitChar(n % 10)]
  }

  /** `String(i)` for any integer: a minus sign before the magnitude when negative. */
  function IntToDecimal(i: int): (s: string)
    ensures IsIntDecimal(s)
    ensures s[0] == '-' <==> i < 0
  {
    if i < 0 then "-" + NatToDecimal(-i) else NatToDecimal(i)
  }

  /** Reads a string of digits as a number (the inverse of NatToDecimal). */
  function DecimalToNat(s: string): nat
    requires AllDigits(s)
  {
    if s == [] then 0 else DecimalToNat(s[..|s| - 1]) * 10 + DigitValue(s[|s| - 1])
  }

  /** Rendering and reading back gives the number again. */
  lemma {:induction false} DecimalRoundTrip(n: nat)
    ensures DecimalToNat(NatToDecimal(n)) == n
    decreases n
  {
    var s := NatToDecimal(n);
    if n < 10 {
      assert s[..|s| - 1] == [];
    } else {
      DecimalRoundTrip(n / 10);
      assert s[..|s| - 1] == NatToDecimal(n / 10);
    }
  }

  /** A decimal integer: an optional minus sign followed by at least one digit. */
  predicate IsIntDecimal(s: string) {
    if |s| >= 1 && s[0] == '-' then |s| >= 2 && AllDigits(s[1..]) else |s| >= 1 && AllDigits(s)
  }

  /** Reads a decimal integer (the inverse of IntToDecimal). */
  function DecimalToInt(s: string): int
    requires IsIntDecimal(s)
  {
    if s[0] == '-' then -(DecimalToNat(s[1..]) as int) else DecimalToNat(s)
  }

  /** Rendering an integer and reading it back gives the integer again. */
  lemma IntDecimalRoundTrip(i: int)
    ensures DecimalToInt(IntToDecimal(i)) == i
  {
    if i < 0 {
      DecimalRoundTrip(-i);
      assert IntToDecimal(i)[1..] == NatToDecimal(-i);
    } else {
      DecimalRoundTrip(i);
    }
  }

  /** Different integers are written differently. */
  lemma IntToDecimalInjective(a: int, b: int)
    requires IntToDecimal(a) == IntToDecimal(b)
    ensures a == b
  {
    IntDecimalRoundTrip(a);
    IntDecimalRoundTrip(b);
  }

  /** The number of digits is fixed by the magnitude. */
  lemma {:induction false} DecimalLength(n: nat)
    ensures n < 10 ==> |NatToDecimal(n)| == 1
    ensures 10 <= n < 100 ==> |NatToDecimal(n)| == 2
    ensures 100 <= n < 1000 ==> |NatToDecimal(n)| == 3
    ensures 1000 <= n < 10000 ==> |NatToDecimal(n)| == 4
    decreases n
  {
    if n >= 10 {
      DecimalLength(n / 10);
    }
  }

  /** `s.padStart(2, '0')`: zeros in front until the string is at least two long. */
  function PadStart2(s: string): (r: string)
    ensures |r| == if |s| < 2 then 2 else |s|
    ensures r[|r| - |s|..] == s
    ensures forall i :: 0 <= i < |r| - |s| ==> r[i] == '0'
    decreases 2 - |s|
  {
    if |s| >= 2 then s else PadStart2("0" + s)
  }

  /** A padded one- or two-digit number is two digits that read back as the number. */
  lemma TwoDigitRoundTrip(n: nat)
    requires n < 100
    ensures |PadStart2(NatToDecimal(n))| == 2
    ensures AllDigits(PadStart2(NatToDecimal(n)))
    ensures DecimalToNat(PadStart2(NatToDecimal(n))) == n
  {
    DecimalLength(n);
    DecimalRoundTrip(n);
    var s := NatToDecimal(n);
    var r := PadStart2(s);
    if n < 10 {
      assert r == ['0'] + s;
      assert r[..1] == ['0'];
      assert DecimalToNat(r[..1][..0]) == 0;
    } else {
      assert r == s;
    }
  }
}
