/** Decimal literals and their coercion to the four integer types of Hive
    tables. A literal is parsed into a decimal type (precision and scale)
    and an unscaled value; types of precision up to 18 are short (their
    unscaled value is a Java `long`), wider ones long (an `Int128`). The
    coercion to TINYINT, SMALLINT, INTEGER or BIGINT keeps the integer part
    when it fits the target type and gives null when it does not.

    How the integer part is rounded is a parameter: the rows of the
    coercion table all have fractions below one half, where rounding toward
    zero and rounding half away from zero agree. */
module DecimalCoercers {
  import opened Wrappers

  // ---------------------------------------------------------------------
  // Digits
  // ---------------------------------------------------------------------

  predicate IsDigit(c: char)
  {
    '0' <= c <= '9'
  }

  predicate AllDigits(s: string)
  {
    forall i :: 0 <= i < |s| ==> IsDigit(s[i])
  }

  /** The number a string of decimal digits denotes (0 for no digits). */
  function DigitsValue(s: string): nat
    requires AllDigits(s)
  {
    if s == [] then 0 else 10 * DigitsValue(s[..|s| - 1]) + (s[|s| - 1] - '0') as nat
  }

  function Pow10(n: nat): nat
    ensures Pow10(n) >= 1
  {
    if n == 0 then 1 else 10 * Pow10(n - 1)
  }

  /** The digits after the leading zeros. */
  function StripLeadingZeros(s: string): (r: string)
    ensures |r| <= |s|
    ensures r == [] || r[0] != '0'
  {
    if s != [] && s[0] == '0' then StripLeadingZeros(s[1..]) else s
  }

  lemma {:induction false} DigitsValueBound(s: string)
    requires AllDigits(s)
    ensures DigitsValue(s) < Pow10(|s|)
  {
    if s != [] {
      DigitsValueBound(s[..|s| - 1]);
    }
  }

  lemma ShiftDigit(x: int, p: int, v: int, last: int)
    ensures 10 * (x * p + v) + last == x * (10 * p) + (10 * v + last)
  {
  }

  /** Appending digits multiplies by a power of ten and adds their value. */
  lemma {:induction false} DigitsValueAppend(a: string, b: string)
    requires AllDigits(a) && AllDigits(b)
    ensures AllDigits(a + b)
    ensures DigitsValue(a + b) == DigitsValue(a) * Pow10(|b|) + DigitsValue(b)
  {
    var ab := a + b;
    if b != [] {
      var front := b[..|b| - 1];
      var last := (b[|b| - 1] - '0') as nat;
      assert ab[..|ab| - 1] == a + front;
      DigitsValueAppend(a, front);
      assert DigitsValue(ab) == 10 * DigitsValue(a + front) + last;
      ShiftDigit(DigitsValue(a), Pow10(|front|), DigitsValue(front), last);
    } else {
      assert ab == a;
    }
  }

  /** Leading zeros do not change the value. */
  lemma {:induction false} LeadingZerosDoNotCount(s: string, t: string)
    requires AllDigits(s) && AllDigits(t)
    ensures AllDigits(StripLeadingZeros(s) + t)
    ensures DigitsValue(s + t) == DigitsValue(StripLeadingZeros(s) + t)
  {
    var r := StripLeadingZeros(s);
    StrippedValue(s);
    DigitsValueAppend(s, t);
    DigitsValueAppend(r, t);
    StrippedValue(s);
  }

  lemma {:induction false} StrippedValue(s: string)
    requires AllDigits(s)
    ensures AllDigits(StripLeadingZeros(s))
    ensures DigitsValue(s) == DigitsValue(StripLeadingZeros(s))
  {
    if s != [] && s[0] == '0' {
      var rest := s[1..];
      StrippedValue(rest);
      assert StripLeadingZeros(s) == StripLeadingZeros(rest);
      var zero := ['0'];
      assert zero[..0] == [];
      assert DigitsValue(zero) == 0;
      assert s == zero + rest;
      DigitsValueAppend(zero, rest);
    }
  }

  // ---------------------------------------------------------------------
  // Decimal literals
  // ---------------------------------------------------------------------

  const MaxPrecision: nat := 38
  const MaxShortPrecision: nat := 18

  datatype DecimalType = DecimalType(precision: nat, scale: nat)
  {
    predicate IsShort()
    {
      precision <= MaxShortPrecision
    }
  }

  /** A parsed literal: its type and its unscaled value, the literal's value
      times ten to the scale. */
  datatype DecimalParseResult = DecimalParseResult(decimalType: DecimalType, unscaled: int)

  datatype ParseError =
    | InvalidDecimal      // the text is not a decimal literal
    | PrecisionTooLarge   // the literal has more than 38 significant digits

  /** The literal without its optional sign, and whether it is negative. */
  function Unsigned(s: string): (bool, string)
  {
    if s != [] && (s[0] == '+' || s[0] == '-') then (s[0] == '-', s[1..]) else (false, s)
  }

  /** The position of the first '.', or the length when there is none. */
  function PointIndex(s: string): (i: nat)
    ensures i <= |s|
    ensures i < |s| ==> s[i] == '.'
    ensures forall j :: 0 <= j < i ==> s[j] != '.'
  {
    PointFrom(s, 0)
  }

  /** The position of the first '.' at or after k, or the length. */
  function PointFrom(s: string, k: nat): (i: nat)
    requires k <= |s|
    ensures k <= i <= |s|
    ensures i < |s| ==> s[i] == '.'
    ensures forall j :: k <= j < i ==> s[j] != '.'
    decreases |s| - k
  {
    if k == |s| then |s| else if s[k] == '.' then k else PointFrom(s, k + 1)
  }

  /** The first point is the one with no point before it. */
  lemma PointIndexIs(s: string, i: nat)
    requires i <= |s| && (i < |s| ==> s[i] == '.')
    requires forall j :: 0 <= j < i ==> s[j] != '.'
    ensures PointIndex(s) == i
  {
  }

  /** The digits before the point and the digits after it. */
  function IntegralText(body: string): string
  {
    body[..PointIndex(body)]
  }

  function FractionText(body: string): string
  {
    if PointIndex(body) < |body| then body[PointIndex(body) + 1..] else ""
  }

  /** A decimal literal: an optional sign, then digits with at most one
      point among them, and at least one digit. */
  predicate IsDecimalLiteral(s: string)
  {
    IsLiteralBody(Unsigned(s).1)
  }

  predicate IsLiteralBody(body: string)
  {
    (forall i :: 0 <= i < |body| ==> IsDigit(body[i]) || body[i] == '.') &&
    (forall i, j :: 0 <= i < j < |body| && body[i] == '.' ==> body[j] != '.') &&
    (exists i :: 0 <= i < |body| && IsDigit(body[i]))
  }

  /** The number of significant digits: the integer digits after leading
      zeros and every fraction digit, at least one. */
  function Precision(body: string): nat
  {
    var p := |StripLeadingZeros(IntegralText(body))| + |FractionText(body)|;
    if p == 0 then 1 else p
  }

  /** Parses a decimal literal. */
  function Parse(s: string): (r: Result<DecimalParseResult, ParseError>)
    ensures r == Err(InvalidDecimal) <==> !IsDecimalLiteral(s)
    ensures r == Err(PrecisionTooLarge) <==> IsDecimalLiteral(s) && Precision(Unsigned(s).1) > MaxPrecision
    ensures r.Ok? ==>
      var t := r.value.decimalType;
      1 <= t.precision <= MaxPrecision && t.scale <= t.precision &&
      (if r.value.unscaled < 0 then -r.value.unscaled else r.value.unscaled) < Pow10(t.precision)
  {
    ParseUnsigned(Unsigned(s).0, Unsigned(s).1)
  }

  /** Parses the literal after its sign. */
  function ParseUnsigned(negative: bool, body: string): (r: Result<DecimalParseResult, ParseError>)
    ensures r == Err(InvalidDecimal) <==> !IsLiteralBody(body)
    ensures r == Err(PrecisionTooLarge) <==> IsLiteralBody(body) && Precision(body) > MaxPrecision
    ensures r.Ok? ==>
      var t := r.value.decimalType;
      1 <= t.precision <= MaxPrecision && t.scale <= t.precision &&
      (if r.value.unscaled < 0 then -r.value.unscaled else r.value.unscaled) < Pow10(t.precision)
  {
    var integral, fraction := IntegralText(body), FractionText(body);
    LiteralShape(body);
    if !(AllDigits(integral) && AllDigits(fraction)) || (integral == [] && fraction == []) then Err(InvalidDecimal)
    else if Precision(body) > MaxPrecision then Err(PrecisionTooLarge)
    else
      var magnitude: int := DigitsValue(integral + fraction);
      MagnitudeFits(integral, fraction);
      Ok(DecimalParseResult(DecimalType(Precision(body), |fraction|), if negative then -magnitude else magnitude))
  }

  /** The unscaled magnitude has at most as many digits as the precision. */
  lemma MagnitudeFits(integral: string, fraction: string)
    requires AllDigits(integral) && AllDigits(fraction)
    ensures AllDigits(integral + fraction)
    ensures var p := |StripLeadingZeros(integral)| + |fraction|;
      DigitsValue(integral + fraction) < Pow10(if p == 0 then 1 else p)
  {
    var t := StripLeadingZeros(integral) + fraction;
    DigitsValueAppend(integral, fraction);
    LeadingZerosDoNotCount(integral, fraction);
    DigitsValueBound(t);
    var p := |t|;
    Pow10Monotone(p, if p == 0 then 1 else p);
  }

  /** The shape of a literal in terms of its integer and fraction texts. */
  lemma LiteralShape(body: string)
    ensures IsLiteralBody(body)
        <==> AllDigits(IntegralText(body)) && AllDigits(FractionText(body)) &&
             !(IntegralText(body) == [] && FractionText(body) == [])
  {
    if AllDigits(IntegralText(body)) && AllDigits(FractionText(body)) &&
       !(IntegralText(body) == [] && FractionText(body) == [])
    {
      ShapeIsLiteral(body);
    }
    if IsLiteralBody(body) {
      LiteralHasShape(body);
    }
  }

  lemma ShapeIsLiteral(body: string)
    requires AllDigits(IntegralText(body)) && AllDigits(FractionText(body))
    requires !(IntegralText(body) == [] && FractionText(body) == [])
    ensures IsLiteralBody(body)
  {
    var p := PointIndex(body);
    var integral, fraction := IntegralText(body), FractionText(body);
    forall i | 0 <= i < |body| ensures IsDigit(body[i]) || body[i] == '.' {
      if i < p { assert body[i] == integral[i]; }
      else if i > p { assert body[i] == fraction[i - p - 1]; }
    }
    forall i, j | 0 <= i < j < |body| && body[i] == '.' ensures body[j] != '.' {
      assert IsDigit(fraction[j - p - 1]);
    }
    if integral != [] {
      assert IsDigit(body[0]) by { assert body[0] == integral[0]; }
    } else {
      assert IsDigit(body[p + 1]) by { assert body[p + 1] == fraction[0]; }
    }
  }

  lemma LiteralHasShape(body: string)
    requires IsLiteralBody(body)
    ensures AllDigits(IntegralText(body)) && AllDigits(FractionText(body))
    ensures !(IntegralText(body) == [] && FractionText(body) == [])
  {
    var p := PointIndex(body);
    var integral, fraction := IntegralText(body), FractionText(body);
    forall i | 0 <= i < |integral| ensures IsDigit(integral[i]) {
      assert integral[i] == body[i];
    }
    if p < |body| {
      forall i | 0 <= i < |fraction| ensures IsDigit(fraction[i]) {
        assert fraction[i] == body[p + 1 + i];
        assert body[p] == '.';
      }
    }
    var k :| 0 <= k < |body| && IsDigit(body[k]);
    if k < p {
      assert integral[k] == body[k];
    } else {
      assert k > p;
      assert fraction[k - p - 1] == body[k];
    }
  }

  // ---------------------------------------------------------------------
  // Coercion to integers
  // ---------------------------------------------------------------------

  datatype IntegerType = TinyInt | SmallInt | Integer | BigInt

  function MinValue(t: IntegerType): int
  {
    match t
    case TinyInt => -0x80
    case SmallInt => -0x8000
    case Integer => -0x8000_0000
    case BigInt => -0x8000_0000_0000_0000
  }

  function MaxValue(t: IntegerType): int
  {
    match t
    case TinyInt => 0x7f
    case SmallInt => 0x7fff
    case Integer => 0x7fff_ffff
    case BigInt => 0x7fff_ffff_ffff_ffff
  }

  /** How the fraction is dropped. */
  datatype RoundingMode = TowardZero | HalfAwayFromZero

  function Abs(x: int): nat
  {
    if x < 0 then -x else x
  }

  /** The magnitude of the integer a non-negative decimal `u / p` rounds to. */
  function RoundedMagnitude(u: nat, p: nat, mode: RoundingMode): nat
    requires p >= 1
  {
    DivBounds(u, p);
    DivBounds(2 * u + p, 2 * p);
    match mode
    case TowardZero => u / p
    case HalfAwayFromZero => (2 * u + p) / (2 * p)
  }

  /** The integer a decimal of the given unscaled value and scale rounds
      to: the rounded magnitude, with the decimal's sign. */
  function RoundToInteger(unscaled: int, scale: nat, mode: RoundingMode): (n: int)
    ensures n == 0 || (n > 0 <==> unscaled > 0)
    ensures Abs(n) == RoundedMagnitude(Abs(unscaled), Pow10(scale), mode)
  {
    var magnitude: int := RoundedMagnitude(Abs(unscaled), Pow10(scale), mode);
    if unscaled < 0 then -magnitude else magnitude
  }

  /** Rounding toward zero keeps the largest magnitude not above the
      decimal's; rounding half away from zero the nearest one, ties away
      from zero. */
  lemma RoundingSpecification(unscaled: int, scale: nat, mode: RoundingMode)
    ensures var n, p := Abs(RoundToInteger(unscaled, scale, mode)), Pow10(scale);
      match mode
      case TowardZero => n * p <= Abs(unscaled) < (n + 1) * p
      case HalfAwayFromZero => (2 * n - 1) * p <= 2 * Abs(unscaled) < (2 * n + 1) * p
  {
    var p := Pow10(scale);
    var u := Abs(unscaled);
    var n := Abs(RoundToInteger(unscaled, scale, mode));
    match mode
    case TowardZero =>
      assert n == u / p;
      DivBounds(u, p);
    case HalfAwayFromZero =>
      assert n == (2 * u + p) / (2 * p);
      DivBounds(2 * u + p, 2 * p);
      HalveBounds(u, p, n);
  }

  /** n * 2p <= 2u + p < (n + 1) * 2p, regrouped around 2u. */
  lemma HalveBounds(u: int, p: int, n: int)
    requires n * (2 * p) <= 2 * u + p < (n + 1) * (2 * p)
    ensures (2 * n - 1) * p <= 2 * u < (2 * n + 1) * p
  {
    assert n * (2 * p) == (2 * n - 1) * p + p;
    assert (n + 1) * (2 * p) == (2 * n + 1) * p + p;
  }

  lemma DivBounds(a: nat, b: nat)
    requires b > 0
    ensures a / b >= 0
    ensures (a / b) * b <= a < (a / b + 1) * b
  {
    var q, r := a / b, a % b;
    assert a == q * b + r && 0 <= r < b;
    assert (q + 1) * b == q * b + b;
    if q < 0 {
      MulAtLeast(-q, b);
    }
  }

  /** Both modes agree when the fraction is below one half. */
  lemma ModesAgreeBelowHalf(unscaled: int, scale: nat)
    requires 2 * (Abs(unscaled) % Pow10(scale)) < Pow10(scale)
    ensures RoundToInteger(unscaled, scale, TowardZero) == RoundToInteger(unscaled, scale, HalfAwayFromZero)
  {
    MagnitudesAgreeBelowHalf(Abs(unscaled), Pow10(scale));
  }

  lemma MagnitudesAgreeBelowHalf(u: nat, p: nat)
    requires p >= 1 && 2 * (u % p) < p
    ensures RoundedMagnitude(u, p, TowardZero) == RoundedMagnitude(u, p, HalfAwayFromZero)
  {
    var q, r := u / p, u % p;
    assert u == q * p + r;
    assert q * (2 * p) == 2 * (q * p);
    assert 2 * u + p == q * (2 * p) + (2 * r + p);
    DivUnique(2 * u + p, 2 * p, q, 2 * r + p);
  }

  lemma DivUnique(a: int, b: int, q: int, r: int)
    requires b > 0 && 0 <= r < b && a == q * b + r
    ensures a / b == q
  {
    var q', r' := a / b, a % b;
    assert a == q' * b + r';
    assert (q - q') * b == r' - r;
    if q - q' >= 1 {
      MulAtLeast(q - q', b);
    } else if q' - q >= 1 {
      MulAtLeast(q' - q, b);
    }
  }

  lemma MulAtLeast(x: int, b: int)
    requires x >= 1 && b > 0
    ensures x * b >= b
  {
    assert x * b == (x - 1) * b + b;
    MulNonnegative(x - 1, b);
  }

  lemma MulNonnegative(x: int, y: int)
    requires x >= 0 && y >= 0
    ensures x * y >= 0
  {
  }

  /** The integer coercion of a parsed decimal: its rounded value when it
      fits the target type, null otherwise. Short and long decimals coerce
      alike. */
  function CoerceToInteger(d: DecimalParseResult, target: IntegerType, mode: RoundingMode): (r: Option<int>)
    ensures r.Some? <==> MinValue(target) <= RoundToInteger(d.unscaled, d.decimalType.scale, mode) <= MaxValue(target)
    ensures r.Some? ==> r.value == RoundToInteger(d.unscaled, d.decimalType.scale, mode)
  {
    FitTo(RoundToInteger(d.unscaled, d.decimalType.scale, mode), target)
  }

  /** An integer as a value of the target type: itself when it fits, null
      when it does not. */
  function FitTo(n: int, target: IntegerType): Option<int>
  {
    if MinValue(target) <= n <= MaxValue(target) then Some(n) else None
  }

  /** Parse, then coerce; a literal that does not parse raises. */
  function CoerceLiteral(s: string, target: IntegerType, mode: RoundingMode): Result<Option<int>, ParseError>
  {
    match Parse(s)
    case Err(e) => Err(e)
    case Ok(d) => Ok(CoerceToInteger(d, target, mode))
  }

  // ---------------------------------------------------------------------
  // Properties
  // ---------------------------------------------------------------------

  /** A short decimal's unscaled value fits a Java `long`. */
  lemma ShortFitsLong(s: string)
    requires Parse(s).Ok? && Parse(s).value.decimalType.IsShort()
    ensures -0x8000_0000_0000_0000 <= Parse(s).value.unscaled <= 0x7fff_ffff_ffff_ffff
  {
    Pow10Monotone(Parse(s).value.decimalType.precision, MaxShortPrecision);
    assert Pow10(1) == 10;
    assert Pow10(2) == 100;
    assert Pow10(3) == 1000;
    assert Pow10(4) == 10000;
    assert Pow10(5) == 100000;
    assert Pow10(6) == 1000000;
    assert Pow10(7) == 10000000;
    assert Pow10(8) == 100000000;
    assert Pow10(9) == 1000000000;
    assert Pow10(10) == 10000000000;
    assert Pow10(11) == 100000000000;
    assert Pow10(12) == 1000000000000;
    assert Pow10(13) == 10000000000000;
    assert Pow10(14) == 100000000000000;
    assert Pow10(15) == 1000000000000000;
    assert Pow10(16) == 10000000000000000;
    assert Pow10(17) == 100000000000000000;
    assert Pow10(18) == 1000000000000000000;
  }

  lemma {:induction false} Pow10Monotone(a: nat, b: nat)
    requires a <= b
    ensures Pow10(a) <= Pow10(b)
    decreases b - a
  {
    if a < b {
      Pow10Monotone(a, b - 1);
    }
  }

  /** An integer literal (no point) keeps its exact value. */
  lemma IntegralLiteralExact(s: string, target: IntegerType, mode: RoundingMode)
    requires Parse(s).Ok? && PointIndex(Unsigned(s).1) == |Unsigned(s).1|
    ensures Parse(s).value.decimalType.scale == 0
    ensures RoundToInteger(Parse(s).value.unscaled, 0, mode) == Parse(s).value.unscaled
  {
  }

  /** What a successful parse yields, in terms of the literal's sign, its
      integer digits and its fraction digits. */
  lemma ParseUnfold(s: string)
    requires Parse(s).Ok?
    ensures var body := Unsigned(s).1;
      var digits := IntegralText(body) + FractionText(body);
      AllDigits(IntegralText(body)) && AllDigits(FractionText(body)) && AllDigits(digits) &&
      Parse(s).value.decimalType == DecimalType(Precision(body), |FractionText(body)|) &&
      Parse(s).value.unscaled == (if Unsigned(s).0 then -(DigitsValue(digits) as int) else DigitsValue(digits))
  {
    var body := Unsigned(s).1;
    LiteralShape(body);
    DigitsValueAppend(IntegralText(body), FractionText(body));
  }

  /** A trailing fraction zero changes the scale, not the coerced value. */
  lemma TrailingZeroKeepsValue(s: string, target: IntegerType, mode: RoundingMode)
    requires Parse(s).Ok? && Parse(s + "0").Ok?
    requires PointIndex(Unsigned(s).1) < |Unsigned(s).1|
    ensures Parse(s + "0").value.decimalType.scale == Parse(s).value.decimalType.scale + 1
    ensures Parse(s + "0").value.unscaled == 10 * Parse(s).value.unscaled
    ensures CoerceLiteral(s + "0", target, mode) == CoerceLiteral(s, target, mode)
  {
    var d, d' := Parse(s).value, Parse(s + "0").value;
    assert d'.decimalType.scale == d.decimalType.scale + 1 && d'.unscaled == 10 * d.unscaled by {
      TrailingZeroScales(s);
    }
    assert RoundToInteger(d'.unscaled, d'.decimalType.scale, mode) == RoundToInteger(d.unscaled, d.decimalType.scale, mode) by {
      RoundingIgnoresTrailingZero(d.unscaled, d.decimalType.scale, mode);
    }
    assert CoerceToInteger(d', target, mode) == CoerceToInteger(d, target, mode);
  }

  lemma TrailingZeroScales(s: string)
    requires Parse(s).Ok? && Parse(s + "0").Ok?
    requires PointIndex(Unsigned(s).1) < |Unsigned(s).1|
    ensures Parse(s + "0").value.decimalType.scale == Parse(s).value.decimalType.scale + 1
    ensures Parse(s + "0").value.unscaled == 10 * Parse(s).value.unscaled
  {
    var body := Unsigned(s).1;
    var integral, fraction := IntegralText(body), FractionText(body);
    var digits := integral + fraction;
    assert Unsigned(s + "0") == (Unsigned(s).0, body + "0") by {
      UnsignedAppend(s, "0");
    }
    assert IntegralText(body + "0") + FractionText(body + "0") == digits + "0" by {
      BodyAppendZero(body);
    }
    assert |FractionText(body + "0")| == |fraction| + 1 by {
      BodyAppendZero(body);
    }
    ParseUnfold(s);
    assert DigitsValue(digits + "0") == 10 * DigitsValue(digits) by {
      DigitsValueAppend(digits, "0");
      assert DigitsValue("0") == 0 by { assert "0"[..0] == []; }
    }
    ParseUnfold(s + "0");
  }

  lemma UnsignedAppend(s: string, t: string)
    requires t != [] && t[0] != '+' && t[0] != '-'
    ensures Unsigned(s + t) == (Unsigned(s).0, Unsigned(s).1 + t)
  {
    if s != [] && (s[0] == '+' || s[0] == '-') {
      assert (s + t)[1..] == s[1..] + t;
    }
  }

  lemma BodyAppendZero(body: string)
    requires PointIndex(body) < |body|
    ensures IntegralText(body + "0") == IntegralText(body)
    ensures FractionText(body + "0") == FractionText(body) + "0"
  {
    IntegralAppend(body, "0");
    FractionAppend(body, "0");
  }

  /** Text after the point leaves the integer digits alone. */
  lemma IntegralAppend(body: string, tail: string)
    requires PointIndex(body) < |body|
    ensures IntegralText(body + tail) == IntegralText(body)
  {
    var longer := body + tail;
    PointIndexAppend(body, tail);
    var p := PointIndex(body);
    assert longer[..p] == body[..p];
  }

  /** Text after the point extends the fraction digits. */
  lemma FractionAppend(body: string, tail: string)
    requires PointIndex(body) < |body|
    ensures FractionText(body + tail) == FractionText(body) + tail
  {
    var p := PointIndex(body);
    var longer := body + tail;
    assert PointIndex(longer) == p && p < |longer| by {
      PointIndexAppend(body, tail);
    }
    FractionTextAt(longer, p);
    FractionTextAt(body, p);
    SuffixOfAppend(body, tail, p + 1);
  }

  lemma FractionTextAt(body: string, p: nat)
    requires p == PointIndex(body) && p < |body|
    ensures FractionText(body) == body[p + 1..]
  {
  }

  lemma SuffixOfAppend(a: string, b: string, i: nat)
    requires i <= |a|
    ensures (a + b)[i..] == a[i..] + b
  {
  }

  lemma PointIndexAppend(a: string, b: string)
    requires PointIndex(a) < |a|
    ensures PointIndex(a + b) == PointIndex(a)
  {
    var p := PointIndex(a);
    assert forall j :: 0 <= j <= p ==> (a + b)[j] == a[j];
    PointIndexIs(a + b, p);
  }

  lemma RoundingIgnoresTrailingZero(unscaled: int, scale: nat, mode: RoundingMode)
    ensures RoundToInteger(10 * unscaled, scale + 1, mode) == RoundToInteger(unscaled, scale, mode)
  {
    var p := Pow10(scale);
    var u := Abs(unscaled);
    assert Abs(10 * unscaled) == 10 * u;
    assert Pow10(scale + 1) == 10 * p;
    match mode
    case TowardZero =>
      DivCancel(u, p, 10);
    case HalfAwayFromZero =>
      assert 2 * (10 * u) + 10 * p == 10 * (2 * u + p);
      assert 2 * (10 * p) == 10 * (2 * p);
      DivCancel(2 * u + p, 2 * p, 10);
  }

  lemma DivCancel(a: nat, b: nat, k: nat)
    requires b > 0 && k > 0
    ensures (k * a) / (k * b) == a / b
  {
    var q, r := a / b, a % b;
    assert a == q * b + r;
    assert k * a == q * (k * b) + k * r;
    assert k * r < k * b;
    DivUnique(k * a, k * b, q, k * r);
  }

  /** Two literals of the same sign parse alike when they are literals
      together, and then have the same precision, the same scale and the
      same digits' value. */
  lemma ParseDeterminedBy(s: string, t: string)
    requires Unsigned(s).0 == Unsigned(t).0
    requires IsLiteralBody(Unsigned(s).1) <==> IsLiteralBody(Unsigned(t).1)
    requires Precision(Unsigned(s).1) == Precision(Unsigned(t).1)
    requires |FractionText(Unsigned(s).1)| == |FractionText(Unsigned(t).1)|
    requires IsLiteralBody(Unsigned(s).1) ==>
      var bs, bt := Unsigned(s).1, Unsigned(t).1;
      AllDigits(IntegralText(bs) + FractionText(bs)) && AllDigits(IntegralText(bt) + FractionText(bt)) &&
      DigitsValue(IntegralText(bs) + FractionText(bs)) == DigitsValue(IntegralText(bt) + FractionText(bt))
    ensures Parse(s) == Parse(t)
  {
    LiteralShape(Unsigned(s).1);
    LiteralShape(Unsigned(t).1);
  }

  /** A leading zero before the integer digits changes nothing. */
  lemma LeadingZeroKeepsResult(s: string)
    requires s != [] && IsDigit(s[0])
    ensures Parse("0" + s) == Parse(s)
  {
    var body := "0" + s;
    assert Unsigned(body) == (false, body) && Unsigned(s) == (false, s) by {
      assert body[0] == '0';
    }
    assert Precision(body) == Precision(s) && |FractionText(body)| == |FractionText(s)| by {
      BodyPrependZero(s);
    }
    assert IsLiteralBody(body) <==> IsLiteralBody(s) by {
      LeadingZeroKeepsShape(s);
    }
    assert IsLiteralBody(s) ==>
      AllDigits(IntegralText(body) + FractionText(body)) && AllDigits(IntegralText(s) + FractionText(s)) &&
      DigitsValue(IntegralText(body) + FractionText(body)) == DigitsValue(IntegralText(s) + FractionText(s))
    by {
      if IsLiteralBody(s) {
        LeadingZeroKeepsDigitsValue(s);
      }
    }
    ParseDeterminedBy(body, s);
  }

  lemma LeadingZeroKeepsShape(s: string)
    requires s != [] && IsDigit(s[0])
    ensures IsLiteralBody("0" + s) <==> IsLiteralBody(s)
  {
    var body := "0" + s;
    var integral := IntegralText(s);
    BodyPrependZero(s);
    assert AllDigits("0" + integral) <==> AllDigits(integral) by {
      assert forall i :: 0 <= i < |integral| ==> ("0" + integral)[i + 1] == integral[i];
      assert ("0" + integral)[0] == '0';
    }
    LiteralShape(body);
    LiteralShape(s);
  }

  lemma LeadingZeroKeepsDigitsValue(s: string)
    requires IsLiteralBody(s)
    ensures AllDigits(IntegralText("0" + s) + FractionText("0" + s))
    ensures AllDigits(IntegralText(s) + FractionText(s))
    ensures DigitsValue(IntegralText("0" + s) + FractionText("0" + s)) == DigitsValue(IntegralText(s) + FractionText(s))
  {
    var integral, fraction := IntegralText(s), FractionText(s);
    assert AllDigits(integral) && AllDigits(fraction) by {
      LiteralShape(s);
    }
    var digits := integral + fraction;
    assert AllDigits(digits) by {
      DigitsValueAppend(integral, fraction);
    }
    assert IntegralText("0" + s) + FractionText("0" + s) == "0" + digits by {
      BodyPrependZero(s);
    }
    DigitsValuePrependZero(digits);
  }

  /** A leading zero digit adds nothing. */
  lemma {:induction false} DigitsValuePrependZero(d: string)
    requires AllDigits(d)
    ensures AllDigits("0" + d) && DigitsValue("0" + d) == DigitsValue(d)
  {
    var z := "0" + d;
    if d == [] {
      assert z[..0] == [];
    } else {
      var front := d[..|d| - 1];
      assert z[..|z| - 1] == "0" + front;
      DigitsValuePrependZero(front);
    }
  }

  lemma BodyPrependZero(s: string)
    ensures IntegralText("0" + s) == "0" + IntegralText(s)
    ensures FractionText("0" + s) == FractionText(s)
    ensures StripLeadingZeros(IntegralText("0" + s)) == StripLeadingZeros(IntegralText(s))
  {
    var body := "0" + s;
    assert body[1..] == s;
    assert PointIndex(body) == 1 + PointIndex(s) by {
      assert forall j :: 1 <= j < |body| ==> body[j] == s[j - 1];
      PointIndexIs(body, 1 + PointIndex(s));
    }
    assert body[..1 + PointIndex(s)] == "0" + s[..PointIndex(s)];
    if PointIndex(s) < |s| {
      assert body[PointIndex(body) + 1..] == s[PointIndex(s) + 1..];
    }
    assert ("0" + IntegralText(s))[1..] == IntegralText(s);
  }

  /** A minus sign negates the coerced value, for rounding in either mode.
      The ranges are not symmetric, so the negated value is kept when it
      fits. */
  lemma NegationMirrors(s: string, target: IntegerType, mode: RoundingMode)
    requires s == [] || IsDigit(s[0]) || s[0] == '.'
    requires Parse(s).Ok?
    ensures Parse("-" + s).Ok?
    ensures Parse("-" + s).value.unscaled == -Parse(s).value.unscaled
    ensures Parse("-" + s).value.decimalType == Parse(s).value.decimalType
    ensures RoundToInteger(Parse("-" + s).value.unscaled, Parse(s).value.decimalType.scale, mode)
         == -RoundToInteger(Parse(s).value.unscaled, Parse(s).value.decimalType.scale, mode)
  {
    assert Unsigned("-" + s) == (true, s) && Unsigned(s) == (false, s) by {
      assert ("-" + s)[1..] == s;
    }
    var d := ParseUnsigned(false, s).value;
    assert Parse("-" + s) == Ok(DecimalParseResult(d.decimalType, -d.unscaled)) by {
      SignNegates(s);
    }
    RoundingNegates(d.unscaled, d.decimalType.scale, mode);
  }

  /** The sign only negates the unscaled value. */
  lemma SignNegates(body: string)
    requires ParseUnsigned(false, body).Ok?
    ensures ParseUnsigned(true, body) ==
      Ok(DecimalParseResult(ParseUnsigned(false, body).value.decimalType, -ParseUnsigned(false, body).value.unscaled))
  {
  }

  /** Rounding is symmetric about zero. */
  lemma RoundingNegates(unscaled: int, scale: nat, mode: RoundingMode)
    ensures RoundToInteger(-unscaled, scale, mode) == -RoundToInteger(unscaled, scale, mode)
  {
    assert Abs(-unscaled) == Abs(unscaled);
  }

  // ---------------------------------------------------------------------
  // The length rule the coercion table relies on
  // ---------------------------------------------------------------------

  /** The check the coercion table applies to every row: a literal of more
      than 19 characters is expected to parse to a long decimal. */
  predicate TableExpectsLong(s: string)
  {
    |s| > 19
  }

  /** For an unsigned literal with a point and no leading zero, more than 19
      characters is exactly a long decimal: the length is the precision plus
      the point. */
  lemma LengthRuleUnsigned(s: string)
    requires Parse(s).Ok? && s != [] && '1' <= s[0] <= '9'
    requires PointIndex(s) < |s|
    ensures TableExpectsLong(s) <==> !Parse(s).value.decimalType.IsShort()
  {
    assert Unsigned(s).1 == s;
    assert IntegralText(s)[0] == s[0];
    assert |IntegralText(s)| + 1 + |FractionText(s)| == |s|;
  }

  /** With a minus sign, the length rule holds from 21 characters: a signed
      literal of 20 characters is still short. */
  lemma LengthRuleSigned(s: string)
    requires Parse("-" + s).Ok? && s != [] && '1' <= s[0] <= '9'
    requires PointIndex(s) < |s|
    ensures |"-" + s| > 20 <==> !Parse("-" + s).value.decimalType.IsShort()
  {
    assert ("-" + s)[1..] == s;
    assert Unsigned("-" + s).1 == s;
    assert IntegralText(s)[0] == s[0];
    assert |IntegralText(s)| + 1 + |FractionText(s)| == |s|;
  }
}
