/**
  The text-to-value coercions the accessors apply (`FromStr` for `bool`, `i32` and
  `String`), and the text of a boolean and of an integer (`to_string`).
*/
module Coercions {
  import opened Wrappers

  const I32Min: int := -0x8000_0000
  const I32Max: int := 0x7FFF_FFFF

  /** `bool::to_string`. */
  function BoolText(b: bool): string {
    if b then "true" else "false"
  }

  /** `bool::from_str`: exactly "true" or "false". */
  function ParseBool(s: string): (r: Option<bool>)
    ensures r == Some(true) <==> s == "true"
    ensures r == Some(false) <==> s == "false"
    ensures r.None? <==> s != "true" && s != "false"
  {
    if s == "true" then Some(true) else if s == "false" then Some(false) else None
  }

  /** `String::from_str`: never fails. */
  function ParseString(s: string): (r: Option<string>)
    ensures r == Some(s)
  {
    Some(s)
  }

  lemma BoolRoundTrip(b: bool)
    ensures ParseBool(BoolText(b)) == Some(b)
  {
  }

  predicate IsDigit(c: char) {
    '0' <= c <= '9'
  }

  predicate AllDigits(s: string) {
    forall i | 0 <= i < |s| :: IsDigit(s[i])
  }

  function DigitChar(d: nat): (c: char)
    requires d < 10
    ensures IsDigit(c)
  {
    ('0' as int + d) as char
  }

  /** The decimal value of a string of digits, most significant first. */
  function DigitsValue(s: string): nat
    requires AllDigits(s)
  {
    if s == [] then 0
    else DigitsValue(s[..|s| - 1]) * 10 + (s[|s| - 1] as int - '0' as int)
  }

  /** The decimal text of a natural number, without leading zeros. */
  function NatText(n: nat): (s: string)
    ensures |s| > 0 && AllDigits(s)
  {
    if n < 10 then [DigitChar(n)] else NatText(n / 10) + [DigitChar(n % 10)]
  }

  /** `i32::to_string`: a minus sign for negative values, then the digits. */
  function IntText(i: int): (s: string)
    ensures |s| > 0 && (s[0] == '-' <==> i < 0)
  {
    if i < 0 then "-" + NatText(-i) else NatText(i)
  }

  /**
    `i32::from_str`: an optional sign ('+' or '-'), one or more decimal digits, and a
    value within the 32-bit signed range.
  */
  function ParseI32(s: string): (r: Option<int>)
    ensures r.Some? ==> I32Min <= r.value <= I32Max
    ensures s == [] ==> r.None?
  {
    if s == [] then None
    else
      var negative := s[0] == '-';
      var digits := if s[0] == '-' || s[0] == '+' then s[1..] else s;
      if digits == [] || !AllDigits(digits) then None
      else
        var magnitude: int := DigitsValue(digits);
        var v := if negative then -magnitude else magnitude;
        if I32Min <= v <= I32Max then Some(v) else None
  }

  lemma {:induction false} NatTextValue(n: nat)
    ensures DigitsValue(NatText(n)) == n
  {
    var s := NatText(n);
    if n >= 10 {
      NatTextValue(n / 10);
      assert s[..|s| - 1] == NatText(n / 10);
    }
  }

  /** Rendering an `i32` and parsing it back gives the same value. */
  lemma IntRoundTrip(i: int)
    requires I32Min <= i <= I32Max
    ensures ParseI32(IntText(i)) == Some(i)
  {
    var s := IntText(i);
    if i < 0 {
      NatTextValue(-i);
      assert s[1..] == NatText(-i);
    } else {
      NatTextValue(i);
    }
  }
}
