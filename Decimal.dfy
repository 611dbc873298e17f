/** Decimal text of 64-bit integers: `Long.toString` writes it (`Format`) and
    `Long.parseLong` reads it (`Parse`). */
module Decimal {
  import opened Outcomes

  const MinLong: int := -0x8000_0000_0000_0000
  const MaxLong: int := 0x7FFF_FFFF_FFFF_FFFF

  predicate IsLong(x: int) {
    MinLong <= x <= MaxLong
  }

  predicate IsDigit(c: char) {
    '0' <= c <= '9'
  }

  predicate AllDigits(s: string) {
    forall i :: 0 <= i < |s| ==> IsDigit(s[i])
  }

  /** The characters `Long.toString` may produce. */
  predicate IsNumeral(c: char) {
    IsDigit(c) || c == '-'
  }

  function DigitChar(d: nat): (c: char)
    requires d < 10
    ensures IsDigit(c)
  {
    (d + '0' as int) as char
  }

  function DigitValue(c: char): (d: nat)
    requires IsDigit(c)
    ensures d < 10
  {
    c as int - '0' as int
  }

  /** The digits of `n`, most significant first, with no leading zero. */
  function Digits(n: nat): (s: string)
    ensures |s| > 0 && AllDigits(s)
  {
    if n < 10 then [DigitChar(n)] else Digits(n / 10) + [DigitChar(n % 10)]
  }

  /** The value of a string of decimal digits (leading zeros allowed). */
  function ValueOf(s: string): nat
    requires AllDigits(s)
  {
    if s == [] then 0 else 10 * ValueOf(s[..|s| - 1]) + DigitValue(s[|s| - 1])
  }

  /** `Long.toString(x)`: a minus sign for a negative number, then the digits of its magnitude. */
  function Format(x: int): (s: string)
    ensures |s| > 0 && IsDigit(s[|s| - 1])
    ensures forall i :: 0 <= i < |s| ==> IsNumeral(s[i])
    ensures s[0] == '-' <==> x < 0
  {
    if x < 0 then "-" + Digits(-x) else Digits(x)
  }

  function InRange(x: int): (r: Option<int>)
  {
    if IsLong(x) then Some(x) else None
  }

  /** `Long.parseLong(s)`: an optional `-` or `+`, then one or more ASCII digits,
      denoting a value inside the 64-bit range; anything else is a format error. */
  function Parse(s: string): (r: Option<int>)
    ensures r.Some? ==> IsLong(r.value)
    ensures r.Some? ==> |s| > 0 && IsDigit(s[|s| - 1])
  {
    if |s| > 0 && (s[0] == '-' || s[0] == '+') then
      var body := s[1..];
      if |body| > 0 && AllDigits(body) then
        var magnitude: int := ValueOf(body);
        InRange(if s[0] == '-' then -magnitude else magnitude)
      else
        None
    else if |s| > 0 && AllDigits(s) then
      InRange(ValueOf(s))
    else
      None
  }

  lemma {:induction false} DigitsRoundTrip(n: nat)
    ensures ValueOf(Digits(n)) == n
  {
    if n >= 10 {
      DigitsRoundTrip(n / 10);
      var s := Digits(n);
      assert s[..|s| - 1] == Digits(n / 10);
    }
  }

  /** Reading back what `Long.toString` wrote gives the number again. */
  lemma ParseFormat(x: int)
    requires IsLong(x)
    ensures Parse(Format(x)) == Some(x)
  {
    var s := Format(x);
    if x < 0 {
      assert s[1..] == Digits(-x);
      DigitsRoundTrip(-x);
    } else {
      DigitsRoundTrip(x);
    }
  }

  /** The sign and the digits of `Long.toString(x)` give back `x`. */
  lemma FormatValue(x: int)
    ensures x == if Format(x)[0] == '-' then -(ValueOf(Format(x)[1..]) as int) else ValueOf(Format(x))
  {
    if x < 0 {
      assert Format(x)[1..] == Digits(-x);
      DigitsRoundTrip(-x);
    } else {
      DigitsRoundTrip(x);
    }
  }

  /** Distinct numbers have distinct decimal texts (for every integer, not only 64-bit ones). */
  lemma FormatInjective(x: int, y: int)
    requires Format(x) == Format(y)
    ensures x == y
  {
    FormatValue(x);
    FormatValue(y);
  }
}
