/** The rows of the decimal-to-integer coercion table, derived from the
    parser and the coercion rule: a literal whose fraction is below one
    half coerces to its integer part when that fits the target type, and to
    null when it does not. */
module DecimalTable {
  import opened Wrappers
  import opened DecimalCoercers

  /** The parts of a literal with a point and integer digits without a
      leading zero. */
  lemma PointedBody(integral: string, fraction: string)
    requires AllDigits(integral) && AllDigits(fraction)
    requires integral != [] && integral[0] != '0'
    ensures IntegralText(integral + "." + fraction) == integral
    ensures FractionText(integral + "." + fraction) == fraction
    ensures IsLiteralBody(integral + "." + fraction)
    ensures Precision(integral + "." + fraction) == |integral| + |fraction|
  {
    var body := integral + "." + fraction;
    assert body[|integral|] == '.';
    assert forall j :: 0 <= j < |integral| ==> body[j] == integral[j];
    PointIndexIs(body, |integral|);
    assert body[..|integral|] == integral;
    assert body[|integral| + 1..] == fraction;
    assert StripLeadingZeros(integral) == integral;
    ShapeIsLiteral(body);
  }

  /** Such a literal parses to precision = all its digits, scale = its
      fraction digits, and the value of its digits as unscaled value. */
  lemma ParsePointed(integral: string, fraction: string)
    requires AllDigits(integral) && AllDigits(fraction)
    requires integral != [] && integral[0] != '0'
    requires |integral| + |fraction| <= MaxPrecision
    ensures AllDigits(integral + fraction)
    ensures Parse(integral + "." + fraction) ==
      Ok(DecimalParseResult(DecimalType(|integral| + |fraction|, |fraction|), DigitsValue(integral + fraction)))
  {
    var body := integral + "." + fraction;
    PointedBody(integral, fraction);
    DigitsValueAppend(integral, fraction);
    assert body[0] == integral[0];
    assert Unsigned(body) == (false, body);
  }

  /** A literal of digits alone, without a leading zero, parses to scale 0
      and the value of its digits. */
  lemma ParseIntegral(s: string)
    requires AllDigits(s) && s != [] && s[0] != '0' && |s| <= MaxPrecision
    ensures Parse(s) == Ok(DecimalParseResult(DecimalType(|s|, 0), DigitsValue(s)))
  {
    PointIndexIs(s, |s|);
    assert IntegralText(s) == s && FractionText(s) == "";
    assert StripLeadingZeros(s) == s;
    ShapeIsLiteral(s);
    assert s + "" == s;
    assert Unsigned(s) == (false, s);
  }

  /** Fraction digits that start below 5 are less than one half. */
  lemma FractionBelowHalf(fraction: string)
    requires AllDigits(fraction) && fraction != [] && fraction[0] < '5'
    ensures 2 * DigitsValue(fraction) < Pow10(|fraction|)
  {
    var head, tail := fraction[..1], fraction[1..];
    assert fraction == head + tail;
    DigitsValueAppend(head, tail);
    assert head[..0] == [];
    assert DigitsValue(head) == (fraction[0] - '0') as nat;
    DigitsValueBound(tail);
    var p := Pow10(|tail|);
    assert Pow10(|fraction|) == 10 * p;
    assert DigitsValue(fraction) == DigitsValue(head) * p + DigitsValue(tail);
    MulAtMostFour(DigitsValue(head), p);
  }

  lemma MulAtMostFour(d: nat, p: nat)
    requires d <= 4
    ensures d * p <= 4 * p
  {
  }

  /** q + r/p, with r/p below one half, rounds to q in either mode. */
  lemma RoundsToQuotient(q: nat, r: nat, p: nat, mode: RoundingMode)
    requires p >= 1 && 2 * r < p
    ensures RoundedMagnitude(q * p + r, p, mode) == q
  {
    var u := q * p + r;
    match mode
    case TowardZero =>
      DivUnique(u, p, q, r);
    case HalfAwayFromZero =>
      assert q * (2 * p) == 2 * (q * p);
      DivUnique(2 * u + p, 2 * p, q, 2 * r + p);
  }

  /** A decimal whose fraction is below one half rounds to its integer
      part, in either mode. */
  lemma PointedRoundsToIntegral(integral: string, fraction: string, mode: RoundingMode)
    requires AllDigits(integral) && AllDigits(fraction)
    requires 2 * DigitsValue(fraction) < Pow10(|fraction|)
    ensures AllDigits(integral + fraction)
    ensures RoundToInteger(DigitsValue(integral + fraction), |fraction|, mode) == DigitsValue(integral)
  {
    DigitsValueAppend(integral, fraction);
    RoundsToQuotient(DigitsValue(integral), DigitsValue(fraction), Pow10(|fraction|), mode);
  }

  /** A literal that parses coerces to its rounded value, if that fits. */
  lemma LiteralCoercionIs(s: string, target: IntegerType, mode: RoundingMode, n: int)
    requires Parse(s).Ok?
    requires RoundToInteger(Parse(s).value.unscaled, Parse(s).value.decimalType.scale, mode) == n
    ensures CoerceLiteral(s, target, mode) == Ok(FitTo(n, target))
  {
  }

  /** A literal with a point whose fraction is below one half parses, and
      rounds to its integer part. */
  lemma PointedRounds(s: string, integral: string, fraction: string, mode: RoundingMode)
    requires AllDigits(integral) && AllDigits(fraction)
    requires integral != [] && integral[0] != '0'
    requires |integral| + |fraction| <= MaxPrecision
    requires 2 * DigitsValue(fraction) < Pow10(|fraction|)
    requires s == integral + "." + fraction
    ensures s != [] && IsDigit(s[0])
    ensures Parse(s).Ok?
    ensures RoundToInteger(Parse(s).value.unscaled, Parse(s).value.decimalType.scale, mode) == DigitsValue(integral)
  {
    ParsePointed(integral, fraction);
    PointedRoundsToIntegral(integral, fraction, mode);
    assert s[0] == integral[0];
  }

  /** The rule of the coercion table: a literal whose fraction is below one
      half coerces to its integer part when that fits the target type, and
      to null when it does not. */
  lemma CoercePointed(s: string, integral: string, fraction: string, n: nat, target: IntegerType, mode: RoundingMode, expected: Option<int>)
    requires AllDigits(integral) && AllDigits(fraction)
    requires integral != [] && integral[0] != '0'
    requires |integral| + |fraction| <= MaxPrecision
    requires 2 * DigitsValue(fraction) < Pow10(|fraction|)
    requires s == integral + "." + fraction && n == DigitsValue(integral)
    requires expected == FitTo(n, target)
    ensures CoerceLiteral(s, target, mode) == Ok(expected)
  {
    PointedRounds(s, integral, fraction, mode);
    LiteralCoercionIs(s, target, mode, n);
  }

  /** The same with a minus sign: the negated integer part when it fits,
      null when it does not. */
  lemma CoerceNegativePointed(s: string, integral: string, fraction: string, n: nat, target: IntegerType, mode: RoundingMode, expected: Option<int>)
    requires AllDigits(integral) && AllDigits(fraction)
    requires integral != [] && integral[0] != '0'
    requires |integral| + |fraction| <= MaxPrecision
    requires 2 * DigitsValue(fraction) < Pow10(|fraction|)
    requires s == integral + "." + fraction && n == DigitsValue(integral)
    requires expected == FitTo(-(n as int), target)
    ensures CoerceLiteral("-" + s, target, mode) == Ok(expected)
  {
    PointedRounds(s, integral, fraction, mode);
    NegatedCoercion(s, target, mode, n);
  }

  /** A minus sign before a literal that rounds to n makes it round to -n. */
  lemma NegatedCoercion(s: string, target: IntegerType, mode: RoundingMode, n: nat)
    requires s != [] && IsDigit(s[0])
    requires Parse(s).Ok?
    requires RoundToInteger(Parse(s).value.unscaled, Parse(s).value.decimalType.scale, mode) == n
    ensures CoerceLiteral("-" + s, target, mode) == Ok(FitTo(-(n as int), target))
  {
    NegationMirrors(s, target, mode);
    LiteralCoercionIs("-" + s, target, mode, -(n as int));
  }

  /** A literal of digits alone parses to scale 0 and keeps its value. */
  lemma CoerceIntegral(s: string, n: nat, target: IntegerType, mode: RoundingMode, expected: Option<int>)
    requires AllDigits(s) && s != [] && s[0] != '0' && |s| <= MaxPrecision
    requires n == DigitsValue(s) && expected == FitTo(n, target)
    ensures CoerceLiteral(s, target, mode) == Ok(expected)
  {
    assert RoundToInteger(n, 0, mode) == n by {
      RoundsToQuotient(n, 0, 1, mode);
    }
    ParseIntegral(s);
    LiteralCoercionIs(s, target, mode, n);
  }

  /** Zero digits after a number multiply it by a power of ten. */
  lemma DigitsThenZeros(a: string, z: string)
    requires AllDigits(a) && forall i :: 0 <= i < |z| ==> z[i] == '0'
    ensures AllDigits(a + z)
    ensures DigitsValue(a + z) == DigitsValue(a) * Pow10(|z|)
  {
    ZerosValue(z);
    DigitsValueAppend(a, z);
  }

  lemma {:induction false} ZerosValue(z: string)
    requires forall i :: 0 <= i < |z| ==> z[i] == '0'
    ensures AllDigits(z) && DigitsValue(z) == 0
  {
    if z != [] {
      ZerosValue(z[..|z| - 1]);
    }
  }

  /** The value of two digits. */
  lemma TwoDigits(s: string, v: nat)
    requires |s| == 2 && AllDigits(s)
    requires v == 10 * (s[0] - '0') as nat + (s[1] - '0') as nat
    ensures DigitsValue(s) == v
  {
    var first := s[..1];
    assert first[0] == s[0] && first[..0] == [] && s[..|s| - 1] == first;
    assert DigitsValue(first) == (s[0] - '0') as nat;
  }

  /** The value of three digits. */
  lemma ThreeDigits(s: string, v: nat)
    requires |s| == 3 && AllDigits(s)
    requires v == 100 * (s[0] - '0') as nat + 10 * (s[1] - '0') as nat + (s[2] - '0') as nat
    ensures DigitsValue(s) == v
  {
    var front := s[..2];
    assert front[0] == s[0] && front[1] == s[1] && s[..|s| - 1] == front;
    TwoDigits(front, 10 * (s[0] - '0') as nat + (s[1] - '0') as nat);
  }

  /** The longer integer parts of the table, as numbers. */
  lemma ThousandsIntegerParts()
    ensures DigitsValue("66000") == 66000 && DigitsValue("33000") == 33000
  {
    TwoDigits("66", 66);
    TwoDigits("33", 33);
    ThenZeros("66000", "66", "000", 3, 66, 1000);
    ThenZeros("33000", "33", "000", 3, 33, 1000);
  }

  lemma MillionsIntegerPart()
    ensures DigitsValue("3300000") == 3300000
  {
    TwoDigits("33", 33);
    ThenZeros("3300000", "33", "00000", 5, 33, 100000);
  }

  lemma BillionsIntegerPart()
    ensures DigitsValue("3300000000") == 3300000000
  {
    TwoDigits("33", 33);
    ThenZeros("3300000000", "33", "00000000", 8, 33, 100000000);
  }

  lemma HugeIntegerPart()
    ensures DigitsValue("330000000000000000000") == 330000000000000000000
  {
    BillionsIntegerPart();
    ThenZeros("330000000000000000000", "3300000000", "00000000000", 11, 3300000000, 100000000000);
  }

  /** The value of a number followed by k zeros. */
  lemma ThenZeros(s: string, a: string, z: string, k: nat, v: nat, p: nat)
    requires AllDigits(a) && DigitsValue(a) == v
    requires |z| == k && forall i :: 0 <= i < k ==> z[i] == '0'
    requires p == Pow10(k) && s == a + z
    ensures AllDigits(s) && DigitsValue(s) == v * p
  {
    DigitsThenZeros(a, z);
  }

  // The rows of the table, grouped by target type. Each literal is written
  // as its integer digits, the point and its fraction digits.

  /** TINYINT: 12.12 and -12.12 keep their integer part, short or long;
      141.12 and -141.12 do not fit and give null. */
  lemma TinyIntRows(mode: RoundingMode)
    ensures CoerceLiteral("12" + "." + "120000000000000000", TinyInt, mode) == Ok(Some(12))
    ensures CoerceLiteral("-" + ("12" + "." + "120000000000000000"), TinyInt, mode) == Ok(Some(-12))
    ensures CoerceLiteral("12" + "." + "120", TinyInt, mode) == Ok(Some(12))
    ensures CoerceLiteral("-" + ("12" + "." + "120"), TinyInt, mode) == Ok(Some(-12))
    ensures CoerceLiteral("141" + "." + "120000000000000000", TinyInt, mode) == Ok(None)
    ensures CoerceLiteral("-" + ("141" + "." + "120"), TinyInt, mode) == Ok(None)
  {
    TinyIntRow1(mode);
    TinyIntRow2(mode);
    TinyIntRow3(mode);
    TinyIntRow4(mode);
    TinyIntRow5(mode);
    TinyIntRow6(mode);
  }

  /** SMALLINT: 130.12 and -130.12 keep their integer part, short or long;
      66000.3012 and -66000.12 do not fit and give null. */
  lemma SmallIntRows(mode: RoundingMode)
    ensures CoerceLiteral("130" + "." + "120000000000000000", SmallInt, mode) == Ok(Some(130))
    ensures CoerceLiteral("-" + ("130" + "." + "120000000000000000"), SmallInt, mode) == Ok(Some(-130))
    ensures CoerceLiteral("130" + "." + "120", SmallInt, mode) == Ok(Some(130))
    ensures CoerceLiteral("-" + ("130" + "." + "120"), SmallInt, mode) == Ok(Some(-130))
    ensures CoerceLiteral("66000" + "." + "30120000000000000", SmallInt, mode) == Ok(None)
    ensures CoerceLiteral("-" + ("66000" + "." + "120"), SmallInt, mode) == Ok(None)
  {
    SmallIntRow1(mode);
    SmallIntRow2(mode);
    SmallIntRow3(mode);
    SmallIntRow4(mode);
    SmallIntRow5(mode);
    SmallIntRow6(mode);
  }

  /** INTEGER: 33000.12 and -33000.12 keep their integer part, short or
      long; 3300000000.12 does not fit and gives null. */
  lemma IntegerRows(mode: RoundingMode)
    ensures CoerceLiteral("33000" + "." + "12000000000000000", Integer, mode) == Ok(Some(33000))
    ensures CoerceLiteral("-" + ("33000" + "." + "12000000000000000"), Integer, mode) == Ok(Some(-33000))
    ensures CoerceLiteral("33000" + "." + "120", Integer, mode) == Ok(Some(33000))
    ensures CoerceLiteral("-" + ("33000" + "." + "120"), Integer, mode) == Ok(Some(-33000))
    ensures CoerceLiteral("3300000000" + "." + "1200000000000", Integer, mode) == Ok(None)
    ensures CoerceLiteral("3300000000" + "." + "120", Integer, mode) == Ok(None)
  {
    IntegerRow1(mode);
    IntegerRow2(mode);
    IntegerRow3(mode);
    IntegerRow4(mode);
    IntegerRow5(mode);
    IntegerRow6(mode);
  }

  /** BIGINT: 3300000000.12 and -3300000000.12 keep their integer part,
      short or long; 330000000000000000000.12 and its negation do not fit
      and give null. */
  lemma BigIntRows(mode: RoundingMode)
    ensures CoerceLiteral("3300000000" + "." + "1200000000000", BigInt, mode) == Ok(Some(3300000000))
    ensures CoerceLiteral("-" + ("3300000000" + "." + "120000000000"), BigInt, mode) == Ok(Some(-3300000000))
    ensures CoerceLiteral("3300000000" + "." + "12", BigInt, mode) == Ok(Some(3300000000))
    ensures CoerceLiteral("-" + ("3300000000" + "." + "12"), BigInt, mode) == Ok(Some(-3300000000))
    ensures CoerceLiteral("330000000000000000000" + "." + "12000000000", BigInt, mode) == Ok(None)
    ensures CoerceLiteral("-" + ("330000000000000000000" + "." + "12000000000"), BigInt, mode) == Ok(None)
  {
    BigIntRow1(mode);
    BigIntRow2(mode);
    BigIntRow3(mode);
    BigIntRow4(mode);
    BigIntRow5(mode);
    BigIntRow6(mode);
  }

  // One lemma per row, each proved from the rule above.

  lemma TinyIntRow1(mode: RoundingMode)
    ensures CoerceLiteral("12" + "." + "120000000000000000", TinyInt, mode) == Ok(Some(12))
  {
    FractionBelowHalf("120000000000000000");
    TwoDigits("12", 12);
    CoercePointed("12" + "." + "120000000000000000", "12", "120000000000000000", 12, TinyInt, mode, Some(12));
  }

  lemma TinyIntRow2(mode: RoundingMode)
    ensures CoerceLiteral("-" + ("12" + "." + "120000000000000000"), TinyInt, mode) == Ok(Some(-12))
  {
    FractionBelowHalf("120000000000000000");
    TwoDigits("12", 12);
    CoerceNegativePointed("12" + "." + "120000000000000000", "12", "120000000000000000", 12, TinyInt, mode, Some(-12));
  }

  lemma TinyIntRow3(mode: RoundingMode)
    ensures CoerceLiteral("12" + "." + "120", TinyInt, mode) == Ok(Some(12))
  {
    FractionBelowHalf("120");
    TwoDigits("12", 12);
    CoercePointed("12" + "." + "120", "12", "120", 12, TinyInt, mode, Some(12));
  }

  lemma TinyIntRow4(mode: RoundingMode)
    ensures CoerceLiteral("-" + ("12" + "." + "120"), TinyInt, mode) == Ok(Some(-12))
  {
    FractionBelowHalf("120");
    TwoDigits("12", 12);
    CoerceNegativePointed("12" + "." + "120", "12", "120", 12, TinyInt, mode, Some(-12));
  }

  lemma TinyIntRow5(mode: RoundingMode)
    ensures CoerceLiteral("141" + "." + "120000000000000000", TinyInt, mode) == Ok(None)
  {
    FractionBelowHalf("120000000000000000");
    ThreeDigits("141", 141);
    CoercePointed("141" + "." + "120000000000000000", "141", "120000000000000000", 141, TinyInt, mode, None);
  }

  lemma TinyIntRow6(mode: RoundingMode)
    ensures CoerceLiteral("-" + ("141" + "." + "120"), TinyInt, mode) == Ok(None)
  {
    FractionBelowHalf("120");
    ThreeDigits("141", 141);
    CoerceNegativePointed("141" + "." + "120", "141", "120", 141, TinyInt, mode, None);
  }

  lemma SmallIntRow1(mode: RoundingMode)
    ensures CoerceLiteral("130" + "." + "120000000000000000", SmallInt, mode) == Ok(Some(130))
  {
    FractionBelowHalf("120000000000000000");
    ThreeDigits("130", 130);
    CoercePointed("130" + "." + "120000000000000000", "130", "120000000000000000", 130, SmallInt, mode, Some(130));
  }

  lemma SmallIntRow2(mode: RoundingMode)
    ensures CoerceLiteral("-" + ("130" + "." + "120000000000000000"), SmallInt, mode) == Ok(Some(-130))
  {
    FractionBelowHalf("120000000000000000");
    ThreeDigits("130", 130);
    CoerceNegativePointed("130" + "." + "120000000000000000", "130", "120000000000000000", 130, SmallInt, mode, Some(-130));
  }

  lemma SmallIntRow3(mode: RoundingMode)
    ensures CoerceLiteral("130" + "." + "120", SmallInt, mode) == Ok(Some(130))
  {
    FractionBelowHalf("120");
    ThreeDigits("130", 130);
    CoercePointed("130" + "." + "120", "130", "120", 130, SmallInt, mode, Some(130));
  }

  lemma SmallIntRow4(mode: RoundingMode)
    ensures CoerceLiteral("-" + ("130" + "." + "120"), SmallInt, mode) == Ok(Some(-130))
  {
    FractionBelowHalf("120");
    ThreeDigits("130", 130);
    CoerceNegativePointed("130" + "." + "120", "130", "120", 130, SmallInt, mode, Some(-130));
  }

  lemma SmallIntRow5(mode: RoundingMode)
    ensures CoerceLiteral("66000" + "." + "30120000000000000", SmallInt, mode) == Ok(None)
  {
    FractionBelowHalf("30120000000000000");
    ThousandsIntegerParts();
    CoercePointed("66000" + "." + "30120000000000000", "66000", "30120000000000000", 66000, SmallInt, mode, None);
  }

  lemma SmallIntRow6(mode: RoundingMode)
    ensures CoerceLiteral("-" + ("66000" + "." + "120"), SmallInt, mode) == Ok(None)
  {
    FractionBelowHalf("120");
    ThousandsIntegerParts();
    CoerceNegativePointed("66000" + "." + "120", "66000", "120", 66000, SmallInt, mode, None);
  }

  lemma IntegerRow1(mode: RoundingMode)
    ensures CoerceLiteral("33000" + "." + "12000000000000000", Integer, mode) == Ok(Some(33000))
  {
    FractionBelowHalf("12000000000000000");
    ThousandsIntegerParts();
    CoercePointed("33000" + "." + "12000000000000000", "33000", "12000000000000000", 33000, Integer, mode, Some(33000));
  }

  lemma IntegerRow2(mode: RoundingMode)
    ensures CoerceLiteral("-" + ("33000" + "." + "12000000000000000"), Integer, mode) == Ok(Some(-33000))
  {
    FractionBelowHalf("12000000000000000");
    ThousandsIntegerParts();
    CoerceNegativePointed("33000" + "." + "12000000000000000", "33000", "12000000000000000", 33000, Integer, mode, Some(-33000));
  }

  lemma IntegerRow3(mode: RoundingMode)
    ensures CoerceLiteral("33000" + "." + "120", Integer, mode) == Ok(Some(33000))
  {
    FractionBelowHalf("120");
    ThousandsIntegerParts();
    CoercePointed("33000" + "." + "120", "33000", "120", 33000, Integer, mode, Some(33000));
  }

  lemma IntegerRow4(mode: RoundingMode)
    ensures CoerceLiteral("-" + ("33000" + "." + "120"), Integer, mode) == Ok(Some(-33000))
  {
    FractionBelowHalf("120");
    ThousandsIntegerParts();
    CoerceNegativePointed("33000" + "." + "120", "33000", "120", 33000, Integer, mode, Some(-33000));
  }

  lemma IntegerRow5(mode: RoundingMode)
    ensures CoerceLiteral("3300000000" + "." + "1200000000000", Integer, mode) == Ok(None)
  {
    FractionBelowHalf("1200000000000");
    BillionsIntegerPart();
    CoercePointed("3300000000" + "." + "1200000000000", "3300000000", "1200000000000", 3300000000, Integer, mode, None);
  }

  lemma IntegerRow6(mode: RoundingMode)
    ensures CoerceLiteral("3300000000" + "." + "120", Integer, mode) == Ok(None)
  {
    FractionBelowHalf("120");
    BillionsIntegerPart();
    CoercePointed("3300000000" + "." + "120", "3300000000", "120", 3300000000, Integer, mode, None);
  }

  lemma BigIntRow1(mode: RoundingMode)
    ensures CoerceLiteral("3300000000" + "." + "1200000000000", BigInt, mode) == Ok(Some(3300000000))
  {
    FractionBelowHalf("1200000000000");
    BillionsIntegerPart();
    CoercePointed("3300000000" + "." + "1200000000000", "3300000000", "1200000000000", 3300000000, BigInt, mode, Some(3300000000));
  }

  lemma BigIntRow2(mode: RoundingMode)
    ensures CoerceLiteral("-" + ("3300000000" + "." + "120000000000"), BigInt, mode) == Ok(Some(-3300000000))
  {
    FractionBelowHalf("120000000000");
    BillionsIntegerPart();
    CoerceNegativePointed("3300000000" + "." + "120000000000", "3300000000", "120000000000", 3300000000, BigInt, mode, Some(-3300000000));
  }

  lemma BigIntRow3(mode: RoundingMode)
    ensures CoerceLiteral("3300000000" + "." + "12", BigInt, mode) == Ok(Some(3300000000))
  {
    FractionBelowHalf("12");
    BillionsIntegerPart();
    CoercePointed("3300000000" + "." + "12", "3300000000", "12", 3300000000, BigInt, mode, Some(3300000000));
  }

  lemma BigIntRow4(mode: RoundingMode)
    ensures CoerceLiteral("-" + ("3300000000" + "." + "12"), BigInt, mode) == Ok(Some(-3300000000))
  {
    FractionBelowHalf("12");
    BillionsIntegerPart();
    CoerceNegativePointed("3300000000" + "." + "12", "3300000000", "12", 3300000000, BigInt, mode, Some(-3300000000));
  }

  lemma BigIntRow5(mode: RoundingMode)
    ensures CoerceLiteral("330000000000000000000" + "." + "12000000000", BigInt, mode) == Ok(None)
  {
    FractionBelowHalf("12000000000");
    HugeIntegerPart();
    CoercePointed("330000000000000000000" + "." + "12000000000", "330000000000000000000", "12000000000", 330000000000000000000, BigInt, mode, None);
  }

  lemma BigIntRow6(mode: RoundingMode)
    ensures CoerceLiteral("-" + ("330000000000000000000" + "." + "12000000000"), BigInt, mode) == Ok(None)
  {
    FractionBelowHalf("12000000000");
    HugeIntegerPart();
    CoerceNegativePointed("330000000000000000000" + "." + "12000000000", "330000000000000000000", "12000000000", 330000000000000000000, BigInt, mode, None);
  }

  /** INTEGER: the integer literal 3300000 keeps its value. */
  lemma IntegerLiteralRow(mode: RoundingMode)
    ensures CoerceLiteral("3300000", Integer, mode) == Ok(Some(3300000))
  {
    MillionsIntegerPart();
    CoerceIntegral("3300000", 3300000, Integer, mode, Some(3300000));
  }

  /** The table's length check misjudges a signed literal of 20 characters
      with 18 digits: the check expects a long decimal, and the literal
      parses to a short one, the minus sign counting as a character but not
      as a digit. No row of the table has this shape. */
  lemma SignedTwentyCharactersIsShort()
    ensures TableExpectsLong("-" + ("1234567890" + "." + "12345678"))
    ensures Parse("-" + ("1234567890" + "." + "12345678")).Ok?
    ensures Parse("-" + ("1234567890" + "." + "12345678")).value.decimalType.IsShort()
  {
    var s := "1234567890" + "." + "12345678";
    ParsePointed("1234567890", "12345678");
    NegationMirrors(s, BigInt, TowardZero);
  }
}
