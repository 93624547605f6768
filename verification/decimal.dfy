/**
 * Decimal text of Java integers: `Integer.toString`, `Integer.parseInt` and
 * `Long.parseLong`. Tag ids travel through the offline queue as such text
 * (written with `toString`, read back with `parseInt`), and action requests
 * carry annotation ids the same way.
 */
module Decimal {
  import opened Options

  /** Java `int`. */
  type Int32 = x: int | -0x8000_0000 <= x <= 0x7FFF_FFFF

  /** Java `long`. */
  type Int64 = x: int | -0x8000_0000_0000_0000 <= x <= 0x7FFF_FFFF_FFFF_FFFF

  predicate IsDigit(c: char) {
    '0' <= c <= '9'
  }

  predicate AllDigits(s: string) {
    forall i :: 0 <= i < |s| ==> IsDigit(s[i])
  }

  function DigitValue(c: char): nat
    requires IsDigit(c)
  {
    (c as int) - ('0' as int)
  }

  function DigitChar(d: nat): (c: char)
    requires d < 10
    ensures IsDigit(c) && DigitValue(c) == d
  {
    (('0' as int) + d) as char
  }

  /** Value of a string of decimal digits, most significant digit first. */
  function DigitsValue(s: string): nat
    requires AllDigits(s)
  {
    if s == [] then 0 else 10 * DigitsValue(s[..|s| - 1]) + DigitValue(s[|s| - 1])
  }

  /** The shortest decimal digit string of `n`; reading it back gives `n`. */
  function NatDigits(n: nat): (s: string)
    ensures |s| > 0 && AllDigits(s)
    ensures DigitsValue(s) == n
  {
    if n < 10 then [DigitChar(n)]
    else
      var prefix := NatDigits(n / 10);
      var s := prefix + [DigitChar(n % 10)];
      assert s[..|s| - 1] == prefix;
      s
  }

  /** `Integer.toString` / `Long.toString`: a minus sign for negatives, then the digits. */
  function IntToString(n: int): (s: string)
    ensures |s| > 0
    ensures n >= 0 <==> s[0] != '-'
  {
    if n < 0 then "-" + NatDigits(-n) else NatDigits(n)
  }

  /**
   * Java's decimal parse with the bounds of the target type: an optional '+'
   * or '-', then at least one digit, and a value inside [lo, hi]; None where
   * Java throws NumberFormatException. Only ASCII digits are modelled.
   */
  function ParseBounded(s: string, lo: int, hi: int): (r: Option<int>)
    ensures r.Some? ==> lo <= r.value <= hi
    ensures r.Some? ==> |s| > 0 && (IsDigit(s[0]) || s[0] == '-' || s[0] == '+')
  {
    var signed := |s| > 0 && (s[0] == '-' || s[0] == '+');
    var body := if signed then s[1..] else s;
    if |body| == 0 || !AllDigits(body) then None
    else
      var v: int := if |s| > 0 && s[0] == '-' then 0 - (DigitsValue(body) as int) else DigitsValue(body);
      if lo <= v <= hi then Some(v) else None
  }

  /** `Integer.parseInt`. */
  function ParseInt(s: string): (r: Option<Int32>)
    ensures r.Some? ==> ParseBounded(s, -0x8000_0000, 0x7FFF_FFFF) == Some(r.value as int)
    ensures r.None? ==> ParseBounded(s, -0x8000_0000, 0x7FFF_FFFF).None?
  {
    match ParseBounded(s, -0x8000_0000, 0x7FFF_FFFF)
    case Some(v) => Some(v as Int32)
    case None => None
  }

  /** `Long.parseLong`; a null string (None) throws as well. */
  function ParseLong(s: Option<string>): (r: Option<Int64>)
    ensures s.None? ==> r.None?
  {
    match s
    case None => None
    case Some(text) =>
      match ParseBounded(text, -0x8000_0000_0000_0000, 0x7FFF_FFFF_FFFF_FFFF)
      case Some(v) => Some(v as Int64)
      case None => None
  }

  /** `Integer.parseInt` of a possibly-null string. */
  function ParseIntOrNull(s: Option<string>): (r: Option<Int32>)
    ensures s.None? ==> r.None?
  {
    match s
    case None => None
    case Some(text) => ParseInt(text)
  }

  /** Reading back what `toString` wrote gives the number back, for every value in range. */
  lemma {:induction false} ParseOfToString(n: int, lo: int, hi: int)
    requires lo <= n <= hi
    ensures ParseBounded(IntToString(n), lo, hi) == Some(n)
  {
    var s := IntToString(n);
    if n < 0 {
      var digits := NatDigits(-n);
      assert s == "-" + digits;
      assert s[1..] == digits;
    } else {
      var digits := NatDigits(n);
      assert s == digits;
      assert IsDigit(s[0]);
    }
  }

  /** Every Java `int` survives `Integer.toString` followed by `Integer.parseInt`. */
  lemma IntRoundTrip(n: Int32)
    ensures ParseInt(IntToString(n)) == Some(n)
  {
    ParseOfToString(n, -0x8000_0000, 0x7FFF_FFFF);
  }

  /** Every Java `long` survives `Long.toString` followed by `Long.parseLong`. */
  lemma LongRoundTrip(n: Int64)
    ensures ParseLong(Some(IntToString(n))) == Some(n)
  {
    ParseOfToString(n, -0x8000_0000_0000_0000, 0x7FFF_FFFF_FFFF_FFFF);
  }
}
