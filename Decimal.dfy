/**
 * Decimal text for integers: String.valueOf(long) / %d formatting, and
 * Integer.parseInt on ASCII digits with its 32-bit range check.
 */
module Decimal {
  import opened Wrappers

  const IntMin: int := -0x8000_0000
  const IntMax: int := 0x7FFF_FFFF
  const LongMin: int := -0x8000_0000_0000_0000
  const LongMax: int := 0x7FFF_FFFF_FFFF_FFFF

  /** An ASCII decimal digit. */
  predicate IsDigit(c: char) {
    '0' <= c <= '9'
  }

  predicate AllDigits(s: string) {
    forall i | 0 <= i < |s| :: IsDigit(s[i])
  }

  function DigitChar(d: nat): (c: char)
    requires d < 10
    ensures IsDigit(c) && c as int - '0' as int == d
  {
    ('0' as int + d) as char
  }

  /** The digits of n, most significant first, without leading zeros. */
  function NatToString(n: nat): (s: string)
    ensures |s| >= 1 && AllDigits(s)
    ensures s[0] == '0' ==> n == 0
    decreases n
  {
    if n < 10 then [DigitChar(n)] else NatToString(n / 10) + [DigitChar(n % 10)]
  }

  /** The value of a string of ASCII digits. */
  function DigitsValue(s: string): (v: nat)
    requires AllDigits(s)
  {
    if |s| == 0 then 0 else 10 * DigitsValue(s[..|s| - 1]) + (s[|s| - 1] as int - '0' as int)
  }

  /** Reading back the digits NatToString writes gives the number. */
  lemma {:induction false} DigitsValueOfNatToString(n: nat)
    ensures DigitsValue(NatToString(n)) == n
    decreases n
  {
    var s := NatToString(n);
    if n >= 10 {
      DigitsValueOfNatToString(n / 10);
      assert s[..|s| - 1] == NatToString(n / 10);
    }
  }

  /** String.valueOf(long): a minus sign for negative values, then the digits. */
  function LongToString(n: int): (s: string)
    ensures |s| >= 1
    ensures n < 0 <==> s[0] == '-'
  {
    if n < 0 then "-" + NatToString(-n) else NatToString(n)
  }

  /** An optional leading sign followed by at least one ASCII digit, read as an
      unbounded integer; None for anything else. */
  function ParseDecimal(s: string): (r: Option<int>)
    ensures r.Some? ==> |s| >= 1
  {
    if |s| >= 2 && (s[0] == '-' || s[0] == '+') && AllDigits(s[1..]) then
      Some(if s[0] == '-' then 0 - DigitsValue(s[1..]) else DigitsValue(s[1..]))
    else if |s| >= 1 && AllDigits(s) then Some(DigitsValue(s))
    else None
  }

  /** Integer.parseInt on ASCII digits: the value when the text is a decimal
      numeral within the 32-bit range, None where Java throws NumberFormatException. */
  function ParseInt(s: string): (r: Option<int>)
    ensures r.Some? ==> IntMin <= r.value <= IntMax
    ensures r.Some? ==> ParseDecimal(s) == r
  {
    match ParseDecimal(s)
    case Some(v) => if IntMin <= v <= IntMax then Some(v) else None
    case None => None
  }

  /** Parsing what String.valueOf writes gives the number back. */
  lemma ParseDecimalOfLongToString(n: int)
    ensures ParseDecimal(LongToString(n)) == Some(n)
  {
    var s := LongToString(n);
    DigitsValueOfNatToString(if n < 0 then -n else n);
    if n < 0 {
      assert s[1..] == NatToString(-n);
    }
  }

  /** Every int prints and parses back to itself. */
  lemma ParseIntOfLongToString(n: int)
    requires IntMin <= n <= IntMax
    ensures ParseInt(LongToString(n)) == Some(n)
  {
    ParseDecimalOfLongToString(n);
  }

  /** A decimal numeral: ASCII digits, at least one, after an optional '-' or '+'. */
  predicate IsNumeral(s: string) {
    (|s| >= 1 && AllDigits(s)) || (|s| >= 2 && (s[0] == '-' || s[0] == '+') && AllDigits(s[1..]))
  }

  /** Only numerals parse, and a numeral parses exactly when its value is an int. */
  lemma ParseIntOnlyNumerals(s: string)
    ensures ParseInt(s).Some? ==> IsNumeral(s)
    ensures IsNumeral(s) ==> ParseDecimal(s).Some?
    ensures IsNumeral(s) ==> (ParseInt(s).Some? <==> IntMin <= ParseDecimal(s).value <= IntMax)
  {
  }

  /** The empty text, a lone sign, a trailing letter and a leading blank do not parse. */
  lemma ParseIntRejectsEmptyAndSign()
    ensures ParseInt("") == None && ParseInt("-") == None && ParseInt("+") == None
    ensures ParseInt("12a") == None && ParseInt(" 1") == None
  {
    assert !IsDigit("12a"[2]);
    assert !IsDigit(" 1"[0]);
  }
}
