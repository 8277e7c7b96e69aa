/**
 * Go's %d rendering of an integer (used in the expiry notification text), with the
 * parser that reads it back.
 */
module Decimal {

  predicate IsDigit(c: char)
  {
    '0' as int <= c as int <= '9' as int
  }

  function DigitChar(d: int): (c: char)
    requires 0 <= d < 10
    ensures IsDigit(c) && (c as int) - ('0' as int) == d
  {
    "0123456789"[d]
  }

  /** Decimal digits of n, most significant first, no leading zeros. */
  function NatToDecimal(n: nat): (s: string)
    ensures |s| >= 1
    ensures forall i :: 0 <= i < |s| ==> IsDigit(s[i])
  {
    if n < 10 then [DigitChar(n)] else NatToDecimal(n / 10) + [DigitChar(n % 10)]
  }

  /** fmt.Sprintf("%d", n). */
  function IntToDecimal(n: int): (s: string)
    ensures |s| >= 1
    ensures forall i :: 0 <= i < |s| ==> IsDigit(s[i]) || (i == 0 && s[i] == '-' && n < 0)
  {
    if n < 0 then "-" + NatToDecimal(-n) else NatToDecimal(n)
  }

  function ParseNat(s: string): nat
    requires forall i :: 0 <= i < |s| ==> IsDigit(s[i])
  {
    if s == [] then 0
    else
      var d := (s[|s| - 1] as int) - ('0' as int);
      assert IsDigit(s[|s| - 1]);
      ParseNat(s[..|s| - 1]) * 10 + d
  }

  function ParseInt(s: string): int
    requires |s| >= 1
    requires forall i :: 0 <= i < |s| ==> IsDigit(s[i]) || (i == 0 && s[i] == '-')
  {
    if s[0] == '-' then -(ParseNat(s[1..]) as int) else ParseNat(s)
  }

  lemma {:induction false} ParseNatRoundTrip(n: nat)
    ensures ParseNat(NatToDecimal(n)) == n
  {
    if n >= 10 {
      var s := NatToDecimal(n);
      assert s[..|s| - 1] == NatToDecimal(n / 10);
      ParseNatRoundTrip(n / 10);
    }
  }

  /** The rendered number reads back as itself: the text identifies the integer. */
  lemma IntRoundTrip(n: int)
    ensures ParseInt(IntToDecimal(n)) == n
  {
    if n < 0 {
      var digits := NatToDecimal(-n);
      var text := "-" + digits;
      assert IntToDecimal(n) == text;
      assert text[0] == '-' && text[1..] == digits;
      ParseNatRoundTrip(-n);
    } else {
      var digits := NatToDecimal(n);
      assert IntToDecimal(n) == digits;
      assert IsDigit(digits[0]);
      ParseNatRoundTrip(n);
    }
  }
}
