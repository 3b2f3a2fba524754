/** Decimal integer literals: the text form of the `#bigint` field. Parsing is
    the specification of what the BigInt `FromStr` implementation does on
    canonical literals (an optional '-', then one or more digits); rendering is
    its inverse, used to state that the two encodings of an integer agree. */
module Decimal {
  import opened Wrappers

  predicate IsDigit(c: char) {
    '0' <= c <= '9'
  }

  function DigitValue(c: char): (d: nat)
    requires IsDigit(c)
    ensures d < 10
  {
    (c as int) - ('0' as int)
  }

  function DigitChar(d: nat): (c: char)
    requires d < 10
    ensures IsDigit(c) && DigitValue(c) == d
  {
    ('0' as int + d) as char
  }

  /** One or more decimal digits and nothing else. */
  predicate AllDigits(t: string) {
    |t| > 0 && forall i :: 0 <= i < |t| ==> IsDigit(t[i])
  }

  /** The value of a digit string, most significant digit first. */
  function DigitsValue(t: string): nat
    requires forall i :: 0 <= i < |t| ==> IsDigit(t[i])
  {
    if t == [] then 0 else 10 * DigitsValue(t[..|t| - 1]) + DigitValue(t[|t| - 1])
  }

  /** Base-10 signed literal of arbitrary magnitude; None for anything that is
      not an optional '-' followed by digits. */
  function ParseDecimal(t: string): (r: Option<int>)
    ensures r.Some? ==> AllDigits(t) || (|t| > 1 && t[0] == '-' && AllDigits(t[1..]))
    ensures AllDigits(t) ==> r == Some(DigitsValue(t) as int)
    ensures |t| > 1 && t[0] == '-' && AllDigits(t[1..]) ==> r == Some(-(DigitsValue(t[1..]) as int))
  {
    if |t| > 0 && t[0] == '-' then
      if AllDigits(t[1..]) then Some(-(DigitsValue(t[1..]) as int)) else None
    else if AllDigits(t) then Some(DigitsValue(t))
    else None
  }

  /** Canonical rendering of a natural number: no sign, no leading zeros. */
  function NatToDecimal(n: nat): (t: string)
    ensures AllDigits(t)
    ensures |t| > 1 ==> t[0] != '0'
    decreases n
  {
    if n < 10 then [DigitChar(n)] else NatToDecimal(n / 10) + [DigitChar(n % 10)]
  }

  /** Canonical rendering of an integer, as `BigInt`'s and `i64`'s Display give it. */
  function ToDecimal(n: int): (t: string)
    ensures |t| > 0
  {
    if n < 0 then "-" + NatToDecimal(-n) else NatToDecimal(n)
  }

  lemma {:induction false} NatToDecimalValue(n: nat)
    ensures DigitsValue(NatToDecimal(n)) == n
    decreases n
  {
    var t := NatToDecimal(n);
    if n >= 10 {
      NatToDecimalValue(n / 10);
      assert t[..|t| - 1] == NatToDecimal(n / 10);
    }
  }

  /** Parsing the rendering of any integer gives the integer back. */
  lemma ParseToDecimal(n: int)
    ensures ParseDecimal(ToDecimal(n)) == Some(n)
  {
    if n < 0 {
      var t := ToDecimal(n);
      NatToDecimalValue(-n);
      assert t[1..] == NatToDecimal(-n);
    } else {
      NatToDecimalValue(n);
    }
  }
}
