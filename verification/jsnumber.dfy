/**
 * JavaScript's `Number(string)` (the StringToNumber conversion of the
 * ECMAScript language specification, section 7.1.4.1.1), used by
 * `parseLimit`, by the CLI's numeric flags and by zod's `coerce.number()`.
 * A finite result is kept as an exact real: rounding to the nearest
 * double is modelled only where it changes the outcome class, namely
 * overflow to an infinity.
 */
module JsNumber {
  import opened Wrappers
  import Text
  import Json

  datatype Number = Finite(value: real) | PosInf | NegInf | NaN {
    /** `Number.isFinite` */
    predicate IsFinite() { this.Finite? }
  }

  /** 2^1024 - 2^970: the least magnitude that rounds to an infinity. */
  const OverflowBound: int := 179769313486231580793728971405303415079934132710037826936173778980444968292764750946649017977587207096330286416692887910946555547851940402630657488671505820681908902000708383676273854845817711531764475730270069855571366959622842914819860834936475292719074168444365510704342711559699508093042880177904174497792

  function Pow10(n: nat): (r: nat)
    ensures r >= 1
  {
    if n == 0 then 1 else 10 * Pow10(n - 1)
  }

  /** m * 10^e as an exact real. */
  function Scaled(m: nat, e: int): (r: real)
    ensures r >= 0.0
    ensures m == 0 ==> r == 0.0
  {
    if e >= 0 then (m * Pow10(e)) as real else (m as real) / (Pow10(-e) as real)
  }

  /** The exact value of a parsed JSON number, mantissa * 10^exponent. */
  function JsonValue(mantissa: int, exponent: int): real
  {
    if mantissa >= 0 then Scaled(mantissa, exponent) else -Scaled(-mantissa, exponent)
  }

  /** A non-negative exact value as a double: an infinity from the overflow bound up. */
  function Round(x: real, negative: bool): (r: Number)
    requires x >= 0.0
    ensures r.NaN? == false
    ensures r.IsFinite() <==> x < OverflowBound as real
  {
    if x >= OverflowBound as real then (if negative then NegInf else PosInf)
    else Finite(if negative then -x else x)
  }

  predicate AllDigits(d: string) {
    forall i :: 0 <= i < |d| ==> Json.IsDigit(d[i])
  }

  /** The exponent part `[eE][+-]?digits` when it is all of `s`; empty `s` is exponent 0. */
  function ExponentPart(s: string): Option<int>
  {
    if |s| == 0 then Some(0)
    else if s[0] != 'e' && s[0] != 'E' then None
    else
      var signed := |s| > 1 && (s[1] == '+' || s[1] == '-');
      var d := s[if signed then 2 else 1..];
      if |d| == 0 || !AllDigits(d) then None
      else
        var n: int := Json.DigitsValue(d);
        Some(if signed && s[1] == '-' then -n else n)
  }

  /**
   * An unsigned decimal literal that is all of `t`: `digits[.digits?]`
   * or `.digits`, then an optional exponent; its exact value.
   */
  function UnsignedDecimal(t: string): (r: Option<real>)
    ensures r.Some? ==> r.value >= 0.0
  {
    var whole := Json.DigitPrefix(t);
    var rest := t[|whole|..];
    var dot := |rest| > 0 && rest[0] == '.';
    var frac := if dot then Json.DigitPrefix(rest[1..]) else "";
    var after := if dot then rest[1 + |frac|..] else rest;
    if |whole| == 0 && |frac| == 0 then None
    else match ExponentPart(after)
      case None => None
      case Some(e) => Some(Scaled(Json.DigitsValue(whole + frac), e - |frac|))
  }

  /** The value of a digit in base `radix` (2, 8 or 16). */
  function RadixDigit(c: char, radix: nat): Option<nat>
  {
    match Json.HexValue(c)
    case Some(v) => if v < radix then Some(v) else None
    case None => None
  }

  /** The value of a non-empty string of base-`radix` digits. */
  function RadixValue(d: string, radix: nat): Option<nat>
  {
    if |d| == 0 then None
    else
      var last := RadixDigit(d[|d| - 1], radix);
      if last.None? then None
      else if |d| == 1 then last
      else match RadixValue(d[..|d| - 1], radix)
        case Some(v) => Some(v * radix + last.value)
        case None => None
  }

  /** A trimmed, non-empty numeric string literal. */
  function Literal(t: string): Number
  {
    if |t| >= 2 && t[0] == '0' && (t[1] == 'x' || t[1] == 'X' || t[1] == 'o' || t[1] == 'O' || t[1] == 'b' || t[1] == 'B') then
      var radix := if t[1] == 'x' || t[1] == 'X' then 16 else if t[1] == 'o' || t[1] == 'O' then 8 else 2;
      match RadixValue(t[2..], radix)
      case Some(v) => Round(v as real, false)
      case None => NaN
    else
      var negative := |t| > 0 && t[0] == '-';
      var u := if |t| > 0 && (t[0] == '-' || t[0] == '+') then t[1..] else t;
      if u == "Infinity" then (if negative then NegInf else PosInf)
      else match UnsignedDecimal(u)
        case Some(x) => Round(x, negative)
        case None => NaN
  }

  /** `Number(s)`: white space around the literal is ignored and a blank string is zero. */
  function ToNumber(s: string): (r: Number)
    ensures Text.AllSpace(s) ==> r == Finite(0.0)
  {
    var t := Text.Trim(s);
    if |t| == 0 then Finite(0.0) else Literal(t)
  }

  /** `Math.trunc` of a finite value: rounds toward zero. */
  function Trunc(x: real): (r: int)
    ensures x >= 0.0 ==> r as real <= x < r as real + 1.0
    ensures x < 0.0 ==> r as real - 1.0 < x <= r as real
  {
    if x >= 0.0 then x.Floor else -((-x).Floor)
  }

  // ------------------------------------------------------------- decimal text

  /** The shortest decimal text of a natural number, as `String(n)` writes it. */
  function NatToString(n: nat): (s: string)
    ensures |s| > 0 && AllDigits(s)
    ensures |s| > 1 ==> s[0] != '0'
  {
    if n < 10 then [('0' as int + n) as char]
    else NatToString(n / 10) + [('0' as int + n % 10) as char]
  }

  /** Reading back the digits `NatToString` writes gives the number. */
  lemma {:induction false} DigitsOfNat(n: nat)
    ensures Json.DigitsValue(NatToString(n)) == n
  {
    var s := NatToString(n);
    if n >= 10 {
      DigitsOfNat(n / 10);
      assert s[..|s| - 1] == NatToString(n / 10);
    }
  }

  lemma {:induction false} DigitPrefixAll(d: string)
    requires AllDigits(d)
    ensures Json.DigitPrefix(d) == d
  {
    if |d| > 0 {
      assert AllDigits(d[1..]) by {
        forall i | 0 <= i < |d[1..]| ensures Json.IsDigit(d[1..][i]) { assert d[1..][i] == d[i + 1]; }
      }
      DigitPrefixAll(d[1..]);
    }
  }

  lemma UnsignedDecimalOfDigits(d: string)
    requires |d| > 0 && AllDigits(d)
    ensures UnsignedDecimal(d) == Some(Json.DigitsValue(d) as real)
  {
    DigitPrefixAll(d);
    assert d[|d|..] == "";
    assert d + "" == d;
    assert ExponentPart("") == Some(0);
    assert Scaled(Json.DigitsValue(d), 0) == Json.DigitsValue(d) as real;
  }

  lemma LiteralOfDigits(d: string)
    requires |d| > 0 && AllDigits(d)
    ensures Literal(d) == Round(Json.DigitsValue(d) as real, false)
  {
    assert Json.IsDigit(d[0]);
    if |d| >= 2 {
      assert Json.IsDigit(d[1]);
    }
    PlainLiteral(d);
    UnsignedDecimalOfDigits(d);
  }

  /** A literal starting with two digits, or one, is read as an unsigned decimal. */
  lemma PlainLiteral(t: string)
    requires |t| > 0 && Json.IsDigit(t[0]) && (|t| >= 2 ==> Json.IsDigit(t[1]))
    ensures Literal(t) == match UnsignedDecimal(t) case Some(x) => Round(x, false) case None => NaN
  {
    assert t != "Infinity";
  }

  /** A literal with nothing to trim is read as it stands. */
  lemma ToNumberOfTrimmed(s: string)
    requires |s| > 0 && Text.NoSpaceAtEnds(s)
    ensures ToNumber(s) == Literal(s)
  {
    assert Text.Trim(s) == s;
  }

  /** A digit string reads as the number it spells, below the overflow bound. */
  lemma NumberOfDigits(d: string)
    requires |d| > 0 && AllDigits(d)
    requires Json.DigitsValue(d) < OverflowBound
    ensures ToNumber(d) == Finite(Json.DigitsValue(d) as real)
  {
    assert Json.IsDigit(d[0]) && Json.IsDigit(d[|d| - 1]);
    ToNumberOfTrimmed(d);
    LiteralOfDigits(d);
    var x := Json.DigitsValue(d);
    assert (x as real) < OverflowBound as real;
  }

  /** `Number(String(n))` is `n` for every natural number a double can hold without overflow. */
  lemma NumberOfNatString(n: nat)
    requires n < OverflowBound
    ensures ToNumber(NatToString(n)) == Finite(n as real)
  {
    DigitsOfNat(n);
    NumberOfDigits(NatToString(n));
  }
}
