/** The part of Python's `decimal.Decimal(str)` constructor that the tools reach:
    finite numbers written with an optional sign, digits with an optional decimal
    point, and an optional exponent, surrounded by optional whitespace. */
module Decimals {
  import opened Wrappers
  import opened Text

  /** The number `coefficient * 10^exponent`. */
  datatype Decimal = Decimal(coefficient: int, exponent: int)

  predicate IsDigit(c: char) {
    '0' <= c <= '9'
  }

  predicate AllDigits(s: string) {
    forall i :: 0 <= i < |s| ==> IsDigit(s[i])
  }

  function Pow10(n: nat): (r: nat)
    ensures r >= 1
  {
    if n == 0 then 1 else 10 * Pow10(n - 1)
  }

  /** The value of a string of decimal digits, most significant first. */
  function DigitsValue(s: string): nat
    requires AllDigits(s)
  {
    if s == [] then 0
    else 10 * DigitsValue(s[..|s| - 1]) + (s[|s| - 1] as int - '0' as int)
  }

  /** `str(n)` for a natural number. */
  function Numeral(n: nat): (r: string)
    ensures r != [] && AllDigits(r)
  {
    if n < 10 then [('0' as int + n) as char]
    else Numeral(n / 10) + [('0' as int + n % 10) as char]
  }

  /** Reading back the digits of `str(n)` gives `n`. */
  lemma {:induction false} DigitsValueNumeral(n: nat)
    ensures DigitsValue(Numeral(n)) == n
  {
    if n >= 10 {
      DigitsValueNumeral(n / 10);
      var s := Numeral(n);
      assert s[..|s| - 1] == Numeral(n / 10);
    }
  }

  /** The index of the first exponent indicator `e` or `E`, or `|s|`. */
  function ExponentIndex(s: string): (r: nat)
    ensures r <= |s|
    ensures r < |s| ==> s[r] == 'e' || s[r] == 'E'
    ensures forall k :: 0 <= k < r ==> s[k] != 'e' && s[k] != 'E'
  {
    if s == [] then 0
    else if s[0] == 'e' || s[0] == 'E' then 0
    else 1 + ExponentIndex(s[1..])
  }

  /** An optionally signed run of at least one digit. */
  function ParseExponent(s: string): Option<int> {
    var neg := s != [] && s[0] == '-';
    var digits := if s != [] && (s[0] == '+' || s[0] == '-') then s[1..] else s;
    if digits != [] && AllDigits(digits) then
      Some(if neg then -(DigitsValue(digits) as int) else DigitsValue(digits))
    else None
  }

  /** An unsigned finite number: digits with an optional point, then an optional exponent. */
  function ParseUnsigned(u: string): Option<Decimal> {
    var e := ExponentIndex(u);
    var exponent := if e < |u| then ParseExponent(u[e + 1..]) else Some(0);
    var mantissa := u[..e];
    var dot := IndexOf(mantissa, '.');
    var whole := mantissa[..dot];
    var fraction := if dot < |mantissa| then mantissa[dot + 1..] else [];
    if AllDigits(whole) && AllDigits(fraction) && |whole| + |fraction| >= 1 && exponent.Some? then
      Some(Decimal(DigitsValue(whole + fraction), exponent.value - |fraction|))
    else None
  }

  /** `Decimal(s)` for a finite numeric string; `None` where Python raises
      `InvalidOperation`. */
  function ParseDecimal(s: string): Option<Decimal> {
    var t := Strip(s);
    var neg := t != [] && t[0] == '-';
    var u := if t != [] && (t[0] == '+' || t[0] == '-') then t[1..] else t;
    match ParseUnsigned(u)
    case None => None
    case Some(d) => Some(if neg then Decimal(-d.coefficient, d.exponent) else d)
  }

  /** `d >= n` */
  predicate AtLeast(d: Decimal, n: int) {
    if d.exponent >= 0 then d.coefficient * Pow10(d.exponent) >= n
    else d.coefficient >= n * Pow10(-d.exponent)
  }

  /** `str(n)` parses back to `n`: a percentage written as digits is read as that number. */
  lemma {:induction false} ParseNumeral(n: nat)
    ensures ParseDecimal(Numeral(n)) == Some(Decimal(n, 0))
  {
    ParseDigitString(Numeral(n));
    DigitsValueNumeral(n);
  }

  /** A plain run of digits parses to its value with exponent 0. */
  lemma ParseDigitString(s: string)
    requires s != [] && AllDigits(s)
    ensures ParseDecimal(s) == Some(Decimal(DigitsValue(s), 0))
  {
    assert !IsSpace(s[0]) && !IsSpace(s[|s| - 1]);
    StripOfStripped(s);
    assert s[0] != '+' && s[0] != '-';
    ParseDigits(s);
  }

  lemma ParseDigits(s: string)
    requires s != [] && AllDigits(s)
    ensures ParseUnsigned(s) == Some(Decimal(DigitsValue(s), 0))
  {
    NoExponent(s);
    var mantissa := s[..|s|];
    assert mantissa == s;
    NoPoint(s);
    var fraction: string := [];
    assert s + fraction == s;
  }

  lemma NoExponent(s: string)
    requires AllDigits(s)
    ensures ExponentIndex(s) == |s|
  {
    var e := ExponentIndex(s);
    assert e < |s| ==> IsDigit(s[e]);
  }

  lemma NoPoint(s: string)
    requires AllDigits(s)
    ensures IndexOf(s, '.') == |s|
  {
    var dot := IndexOf(s, '.');
    assert dot < |s| ==> IsDigit(s[dot]);
  }
}
