/** Series ids travel through the page as text: a matching-list row carries
    `${id}` in its `data-series-id` attribute, and the click handler turns the
    attribute back into a number with `parseInt`. This module models the
    decimal subset of both conversions and proves that they round-trip. */
module Decimal {
  import opened Options

  predicate IsDigit(ch: char)
  {
    '0' <= ch <= '9'
  }

  predicate AllDigits(s: string)
  {
    forall k :: 0 <= k < |s| ==> IsDigit(s[k])
  }

  function DigitChar(d: nat): (ch: char)
    requires d < 10
    ensures IsDigit(ch)
  {
    (48 + d) as char
  }

  function DigitValue(ch: char): (d: nat)
    requires IsDigit(ch)
    ensures d < 10 && DigitChar(d) == ch
  {
    ch as int - 48
  }

  /** The decimal numeral of `n`, without leading zeros. */
  function NatToString(n: nat): (s: string)
    ensures |s| > 0 && AllDigits(s)
    ensures s[0] == '0' <==> n == 0
  {
    if n < 10 then [DigitChar(n)] else NatToString(n / 10) + [DigitChar(n % 10)]
  }

  /** What a template literal prints for an integer. */
  function IntToString(n: int): (s: string)
    ensures n >= 0 ==> |s| > 0 && AllDigits(s) && (s[0] == '0' ==> s == "0")
    ensures n < 0 ==> |s| > 1 && s[0] == '-' && AllDigits(s[1..]) && s[1] != '0'
  {
    if n < 0 then "-" + NatToString(-n) else NatToString(n)
  }

  /** The number a string of decimal digits denotes. */
  function DigitsValue(s: string): nat
    requires AllDigits(s)
  {
    if s == [] then 0 else DigitsValue(s[..|s| - 1]) * 10 + DigitValue(s[|s| - 1])
  }

  /** The longest run of digits at the start of `s`: where `parseInt` stops reading. */
  function LeadingDigits(s: string): (r: string)
    ensures r <= s && AllDigits(r)
    ensures |r| == |s| || !IsDigit(s[|r|])
  {
    if s == [] || !IsDigit(s[0]) then "" else [s[0]] + LeadingDigits(s[1..])
  }

  /** `parseInt` with radix 10: an optional sign, then the leading digits;
      `None` stands for `NaN`, the result when no digit follows the sign. */
  function ParseInt(s: string): (r: Option<int>)
    ensures r.None? <==> (|s| == 0 || !IsDigit(s[0]))
                         && !(|s| > 1 && (s[0] == '-' || s[0] == '+') && IsDigit(s[1]))
  {
    if |s| > 0 && (s[0] == '-' || s[0] == '+') then ParseUnsigned(s[1..], s[0] == '-')
    else ParseUnsigned(s, false)
  }

  /** The value of the digits at the start of `unsigned`, negated when a minus
      sign preceded them. */
  function ParseUnsigned(unsigned: string, negative: bool): Option<int>
  {
    var digits := LeadingDigits(unsigned);
    var value: int := DigitsValue(digits);
    if digits == "" then None else Some(if negative then -value else value)
  }

  lemma {:induction false} NatToStringValue(n: nat)
    ensures DigitsValue(NatToString(n)) == n
  {
    var s := NatToString(n);
    if n >= 10 {
      var prefix := NatToString(n / 10);
      NatToStringValue(n / 10);
      assert s[..|s| - 1] == prefix;
      assert DigitValue(s[|s| - 1]) == n % 10;
    }
  }

  lemma {:induction false} LeadingDigitsOfDigits(s: string)
    requires AllDigits(s)
    ensures LeadingDigits(s) == s
  {
    if s != [] {
      LeadingDigitsOfDigits(s[1..]);
      assert s == [s[0]] + s[1..];
    }
  }

  /** A sign in front of the digits is stripped before they are read. */
  lemma ParseIntSigned(unsigned: string)
    ensures ParseInt("-" + unsigned) == ParseUnsigned(unsigned, true)
    ensures ParseInt("+" + unsigned) == ParseUnsigned(unsigned, false)
  {
    assert ("-" + unsigned)[1..] == unsigned && ("+" + unsigned)[1..] == unsigned;
  }

  lemma ParseUnsignedOfDigits(digits: string, negative: bool)
    requires |digits| > 0 && AllDigits(digits)
    ensures ParseUnsigned(digits, negative)
            == Some(if negative then 0 - DigitsValue(digits) as int else DigitsValue(digits))
  {
    LeadingDigitsOfDigits(digits);
  }

  lemma ParseIntOfDigits(digits: string)
    requires |digits| > 0 && AllDigits(digits)
    ensures ParseInt(digits) == Some(DigitsValue(digits))
  {
    assert IsDigit(digits[0]);
    ParseUnsignedOfDigits(digits, false);
  }

  lemma ParseIntOfNegatedDigits(digits: string)
    requires |digits| > 0 && AllDigits(digits)
    ensures ParseInt("-" + digits) == Some(0 - DigitsValue(digits) as int)
  {
    ParseIntSigned(digits);
    ParseUnsignedOfDigits(digits, true);
  }

  /** Reading back what a template literal printed gives the same id. */
  lemma ParseIntOfIntToString(n: int)
    ensures ParseInt(IntToString(n)) == Some(n)
  {
    if n < 0 {
      NatToStringValue(-n);
      ParseIntOfNegatedDigits(NatToString(-n));
    } else {
      NatToStringValue(n);
      ParseIntOfDigits(NatToString(n));
    }
  }
}
