/** The Hive coercion of a varchar to a date: the text is parsed as an ISO
    local date (YYYY-MM-DD, the `full-date` form of section 5.6 of RFC 3339,
    with the days per month and leap years of section 5.7 and Appendix C,
    and the expanded years of ISO 8601: a sign and more than four digits),
    converted to its day count since 1970-01-01, and written to the output
    block unless it falls before 1900-01-01. Text that does not parse and
    historical dates are two distinct errors. */
module DateCoercer {
  import opened Wrappers

  // ---------------------------------------------------------------------
  // Calendar
  // ---------------------------------------------------------------------

  datatype Date = Date(year: int, month: int, day: int)

  /** The proleptic Gregorian leap-year rule. */
  predicate IsLeapYear(year: int)
  {
    year % 4 == 0 && (year % 100 != 0 || year % 400 == 0)
  }

  function DaysInMonth(year: int, month: int): int
    requires 1 <= month <= 12
  {
    if month == 2 then (if IsLeapYear(year) then 29 else 28)
    else if month == 4 || month == 6 || month == 9 || month == 11 then 30
    else 31
  }

  function YearLength(year: int): int
  {
    if IsLeapYear(year) then 366 else 365
  }

  /** The largest year of a date; the smallest is its negation. */
  const MaxYear: int := 999_999_999

  /** A date of the supported range: a year, a month, and a day of that
      month. */
  predicate ValidDate(d: Date)
  {
    -MaxYear <= d.year <= MaxYear && 1 <= d.month <= 12 && 1 <= d.day <= DaysInMonth(d.year, d.month)
  }

  function Abs(n: int): nat
  {
    if n < 0 then -n else n
  }

  /** Days from 0000-01-01 to 1970-01-01. */
  const DaysFrom0000To1970: int := 719528

  /** The year part of `LocalDate.toEpochDay`: days from 0000-01-01 to the
      first day of the year, with a separate formula for years before 0
      (whose divisions truncate toward zero). */
  function YearDays(y: int): int
  {
    if y >= 0 then 365 * y + (y + 3) / 4 - (y + 99) / 100 + (y + 399) / 400
    else 365 * y - ((-y) / 4 - (-y) / 100 + (-y) / 400)
  }

  /** The day count since 1970-01-01, by the closed formula of
      `LocalDate.toEpochDay`. */
  function EpochDay(d: Date): int
    requires ValidDate(d)
  {
    var y, m := d.year, d.month;
    var total := YearDays(y) + (367 * m - 362) / 12 + d.day - 1;
    var adjusted := if m > 2 then (if IsLeapYear(y) then total - 1 else total - 2) else total;
    adjusted - DaysFrom0000To1970
  }

  /** The epoch day of 1900-01-01, below which dates are historical. */
  const StartOfModernEraDays: int := EpochDay(Date(1900, 1, 1))

  // --- reference definition of the day count ---------------------------

  /** Days from 0000-01-01 to the first day of the year, counted year by
      year: forwards for later years, backwards (negative) for earlier
      ones. */
  function DaysBeforeYear(year: int): int
    decreases Abs(year)
  {
    if year == 0 then 0
    else if year > 0 then DaysBeforeYear(year - 1) + YearLength(year - 1)
    else DaysBeforeYear(year + 1) - YearLength(year)
  }

  /** Days in the months 1 .. month-1 of a year, counted month by month. */
  function DaysBeforeMonth(year: int, month: int): int
    requires 1 <= month <= 12
  {
    if month == 1 then 0 else DaysBeforeMonth(year, month - 1) + DaysInMonth(year, month - 1)
  }

  /** The day count since 1970-01-01, counting whole years, whole months and
      days. */
  function CountedEpochDay(d: Date): int
    requires ValidDate(d)
  {
    DaysBeforeYear(d.year) + DaysBeforeMonth(d.year, d.month) + d.day - 1 - DaysFrom0000To1970
  }

  lemma DaysBeforeYearStep(y: int)
    ensures DaysBeforeYear(y + 1) == DaysBeforeYear(y) + YearLength(y)
  {
    if y < 0 {
      assert DaysBeforeYear(y) == DaysBeforeYear(y + 1) - YearLength(y);
    }
  }

  /** Raising y by one crosses a multiple of k exactly when y is one. */
  lemma QuotientStep(y: nat, k: nat)
    requires k == 4 || k == 100 || k == 400
    ensures (y + k) / k - (y + k - 1) / k == (if y % k == 0 then 1 else 0)
  {
    var q, r := y / k, y % k;
    assert y == k * q + r && 0 <= r < k;
    assert (y + k) / k == q + 1 by {
      assert y + k == k * (q + 1) + r;
    }
    if r == 0 {
      assert (y + k - 1) / k == q by {
        assert y + k - 1 == k * q + (k - 1);
      }
    } else {
      assert (y + k - 1) / k == q + 1 by {
        assert y + k - 1 == k * (q + 1) + (r - 1);
      }
    }
  }

  lemma QuotientSteps(y: nat)
    ensures (y + 4) / 4 - (y + 3) / 4 == (if y % 4 == 0 then 1 else 0)
    ensures (y + 100) / 100 - (y + 99) / 100 == (if y % 100 == 0 then 1 else 0)
    ensures (y + 400) / 400 - (y + 399) / 400 == (if y % 400 == 0 then 1 else 0)
  {
    QuotientStep(y, 4);
    QuotientStep(y, 100);
    QuotientStep(y, 400);
  }

  /** Division and remainder by a divisor of the leap-year rule are
      determined by any quotient and remainder in range. */
  lemma DivisionUnique(a: int, k: int, q: int, r: int)
    requires k == 4 || k == 100 || k == 400
    requires a == k * q + r && 0 <= r < k
    ensures a / k == q && a % k == r
  {
    if k == 4 {
      assert a == 4 * q + r;
    } else if k == 100 {
      assert a == 100 * q + r;
    } else {
      assert a == 400 * q + r;
    }
  }

  /** Lowering x by one leaves a multiple of k behind exactly when x is
      one; and x is a multiple of k exactly when -x is. */
  lemma QuotientDrop(x: int, k: int)
    requires x >= 1
    requires k == 4 || k == 100 || k == 400
    ensures x / k - (x - 1) / k == (if x % k == 0 then 1 else 0)
    ensures (-x) % k == 0 <==> x % k == 0
  {
    var q, r := x / k, x % k;
    DivisionUnique(x, k, q, r);
    if r == 0 {
      DivisionUnique(x - 1, k, q - 1, k - 1);
      DivisionUnique(-x, k, -q, 0);
    } else {
      DivisionUnique(x - 1, k, q, r - 1);
      DivisionUnique(-x, k, -q - 1, k - r);
    }
  }

  lemma QuotientDrops(x: int)
    requires x >= 1
    ensures x / 4 - (x - 1) / 4 == (if x % 4 == 0 then 1 else 0)
    ensures x / 100 - (x - 1) / 100 == (if x % 100 == 0 then 1 else 0)
    ensures x / 400 - (x - 1) / 400 == (if x % 400 == 0 then 1 else 0)
    ensures (-x) % 4 == 0 <==> x % 4 == 0
    ensures (-x) % 100 == 0 <==> x % 100 == 0
    ensures (-x) % 400 == 0 <==> x % 400 == 0
  {
    QuotientDrop(x, 4);
    QuotientDrop(x, 100);
    QuotientDrop(x, 400);
  }

  lemma LeapYearLength(x: int)
    ensures YearLength(x) == 365 + (if x % 4 == 0 then 1 else 0) - (if x % 100 == 0 then 1 else 0) + (if x % 400 == 0 then 1 else 0)
  {
    if x % 100 == 0 {
      assert x == 100 * (x / 100);
      assert x % 4 == 0;
    }
    if x % 400 == 0 {
      assert x == 400 * (x / 400);
      assert x % 100 == 0;
    }
  }

  lemma YearDaysStepForward(y: nat)
    ensures YearDays(y + 1) == YearDays(y) + YearLength(y)
  {
    LeapYearLength(y);
    QuotientSteps(y);
  }

  lemma YearDaysStepBackward(x: int)
    requires x >= 1
    ensures YearDays(-x + 1) == YearDays(-x) + YearLength(-x)
  {
    assert YearDays(-x + 1) == 365 * (-x + 1) - ((x - 1) / 4 - (x - 1) / 100 + (x - 1) / 400);
    assert YearDays(-x) == 365 * (-x) - (x / 4 - x / 100 + x / 400);
    LeapYearLength(-x);
    QuotientDrops(x);
  }

  /** The closed year formula grows by the length of each year. */
  lemma YearDaysStep(y: int)
    ensures YearDays(y + 1) == YearDays(y) + YearLength(y)
  {
    if y >= 0 {
      YearDaysStepForward(y);
    } else {
      YearDaysStepBackward(-y);
    }
  }

  /** The year part of the closed formula counts the days of the years
      between 0000 and the year, for years on either side of 0000. */
  lemma {:induction false} DaysBeforeYearFormula(y: int)
    ensures DaysBeforeYear(y) == YearDays(y)
    decreases Abs(y)
  {
    if y > 0 {
      DaysBeforeYearFormula(y - 1);
      YearDaysStep(y - 1);
    } else if y < 0 {
      DaysBeforeYearFormula(y + 1);
      YearDaysStep(y);
    }
  }

  /** The month part of the closed formula counts the days of the months
      before. */
  lemma {:induction false} DaysBeforeMonthFormula(y: int, m: int)
    requires 1 <= m <= 12
    ensures DaysBeforeMonth(y, m) ==
      (367 * m - 362) / 12 - (if m > 2 then (if IsLeapYear(y) then 1 else 2) else 0)
  {
    if m > 1 {
      DaysBeforeMonthFormula(y, m - 1);
    }
  }

  /** The closed formula agrees with counting days. */
  lemma EpochDayCountsDays(d: Date)
    requires ValidDate(d)
    ensures EpochDay(d) == CountedEpochDay(d)
  {
    DaysBeforeYearFormula(d.year);
    DaysBeforeMonthFormula(d.year, d.month);
  }

  lemma StartOfModernEra()
    ensures StartOfModernEraDays == -25567
  {
  }

  lemma {:induction false} DaysBeforeMonthBelowYearLength(y: int, m: int)
    requires 1 <= m <= 12
    ensures 0 <= DaysBeforeMonth(y, m)
    ensures DaysBeforeMonth(y, m) + DaysInMonth(y, m) <= YearLength(y)
  {
    if m > 1 {
      DaysBeforeMonthBelowYearLength(y, m - 1);
    }
    DaysBeforeMonthFormula(y, m);
  }

  lemma {:induction false} DaysBeforeYearMonotone(a: int, b: int)
    requires a <= b
    ensures DaysBeforeYear(a) <= DaysBeforeYear(b)
    decreases b - a
  {
    if a < b {
      DaysBeforeYearMonotone(a, b - 1);
      DaysBeforeYearStep(b - 1);
    }
  }

  /** The days of a year lie between the start of that year and the start of
      the next. */
  lemma DayWithinYear(d: Date)
    requires ValidDate(d)
    ensures DaysBeforeYear(d.year) - DaysFrom0000To1970 <= EpochDay(d)
    ensures EpochDay(d) < DaysBeforeYear(d.year + 1) - DaysFrom0000To1970
  {
    EpochDayCountsDays(d);
    DaysBeforeMonthBelowYearLength(d.year, d.month);
    DaysBeforeYearStep(d.year);
  }

  /** A valid date is historical exactly when its year is before 1900; in
      particular 1900-01-01 itself is not. */
  lemma HistoricalExactlyBefore1900(d: Date)
    requires ValidDate(d)
    ensures EpochDay(d) < StartOfModernEraDays <==> d.year < 1900
  {
    var start := Date(1900, 1, 1);
    EpochDayCountsDays(start);
    assert StartOfModernEraDays == DaysBeforeYear(1900) - DaysFrom0000To1970;
    DayWithinYear(d);
    if d.year < 1900 {
      DaysBeforeYearMonotone(d.year + 1, 1900);
    } else {
      DaysBeforeYearMonotone(1900, d.year);
    }
  }

  /** Later dates have larger day counts. */
  lemma EpochDayOrdered(a: Date, b: Date)
    requires ValidDate(a) && ValidDate(b)
    requires a.year < b.year || (a.year == b.year && (a.month < b.month || (a.month == b.month && a.day < b.day)))
    ensures EpochDay(a) < EpochDay(b)
  {
    DayWithinYear(a);
    DayWithinYear(b);
    if a.year < b.year {
      DaysBeforeYearMonotone(a.year + 1, b.year);
    } else if a.month < b.month {
      EpochDayCountsDays(a);
      EpochDayCountsDays(b);
      DaysBeforeMonthGrows(a.year, a.month, b.month);
    } else {
      EpochDayCountsDays(a);
      EpochDayCountsDays(b);
    }
  }

  lemma {:induction false} DaysBeforeMonthGrows(y: int, m: int, n: int)
    requires 1 <= m < n <= 12
    ensures DaysBeforeMonth(y, m) + DaysInMonth(y, m) <= DaysBeforeMonth(y, n)
    decreases n - m
  {
    if m + 1 < n {
      DaysBeforeMonthGrows(y, m, n - 1);
    }
  }

  // ---------------------------------------------------------------------
  // ISO local date text
  // ---------------------------------------------------------------------

  predicate IsDigit(c: char)
  {
    '0' <= c <= '9'
  }

  predicate AllDigits(s: string)
  {
    forall i :: 0 <= i < |s| ==> IsDigit(s[i])
  }

  function DigitsValue(s: string): nat
    requires AllDigits(s)
  {
    if s == [] then 0 else 10 * DigitsValue(s[..|s| - 1]) + (s[|s| - 1] - '0') as nat
  }

  function Pow10(n: nat): nat
  {
    if n == 0 then 1 else 10 * Pow10(n - 1)
  }

  /** `n` written in exactly `width` decimal digits, zero-padded. */
  function FixedWidth(n: nat, width: nat): (s: string)
    ensures |s| == width && AllDigits(s)
  {
    if width == 0 then "" else FixedWidth(n / 10, width - 1) + [('0' as int + n % 10) as char]
  }

  lemma {:induction false} FixedWidthRoundTrip(n: nat, width: nat)
    requires n < Pow10(width)
    ensures DigitsValue(FixedWidth(n, width)) == n
  {
    if width > 0 {
      var s := FixedWidth(n, width);
      assert s[..|s| - 1] == FixedWidth(n / 10, width - 1);
      FixedWidthRoundTrip(n / 10, width - 1);
    }
  }

  lemma {:induction false} DigitsRoundTrip(s: string)
    requires AllDigits(s)
    ensures DigitsValue(s) < Pow10(|s|)
    ensures FixedWidth(DigitsValue(s), |s|) == s
  {
    if s != [] {
      var init := s[..|s| - 1];
      DigitsRoundTrip(init);
      assert s == init + [s[|s| - 1]];
    }
  }

  /** The number of decimal digits of `n`. */
  function DigitCount(n: nat): (k: nat)
    ensures k >= 1
  {
    if n < 10 then 1 else 1 + DigitCount(n / 10)
  }

  lemma {:induction false} DigitCountBounds(n: nat)
    ensures n < Pow10(DigitCount(n))
    ensures DigitCount(n) > 1 ==> Pow10(DigitCount(n) - 1) <= n
  {
    if n >= 10 {
      DigitCountBounds(n / 10);
    }
  }

  lemma {:induction false} Pow10Monotone(a: nat, b: nat)
    requires a <= b
    ensures Pow10(a) <= Pow10(b)
    decreases b - a
  {
    if a < b {
      Pow10Monotone(a, b - 1);
    }
  }

  /** The sign written before a year: none from 0 to 9999, "+" above, "-"
      below 0. */
  function YearSign(year: int): string
  {
    if year < 0 then "-" else if year > 9999 then "+" else ""
  }

  /** The number of year digits written: four, zero-padded, or as many as
      the year has when that is more. */
  function YearWidth(year: int): nat
  {
    if Abs(year) < 10000 then 4 else DigitCount(Abs(year))
  }

  /** A date's text with the given year sign and number of year digits. */
  function DateText(d: Date, sign: string, width: nat): string
    requires ValidDate(d)
  {
    sign + FixedWidth(Abs(d.year), width) + "-" + FixedWidth(d.month, 2) + "-" + FixedWidth(d.day, 2)
  }

  /** The text of a date as the ISO formatter writes it. */
  function FormatDate(d: Date): string
    requires ValidDate(d)
  {
    DateText(d, YearSign(d.year), YearWidth(d.year))
  }

  /** The signs and widths the strict parser accepts for a year: no sign
      with exactly four digits for years 0 to 9999; "+" with more than four
      digits for a year not below 0; "-" with at least four digits for a
      year below 0; never more than ten digits, and enough of them to hold
      the year. */
  predicate AcceptedYearForm(year: int, sign: string, width: nat)
  {
    (if sign == "" then 0 <= year && width == 4
     else if sign == "+" then 0 <= year && 4 < width
     else sign == "-" && year < 0 && 4 <= width)
    && width <= 10 && Abs(year) < Pow10(width)
  }

  /** The sign at the head of a text, if any. */
  function SignOf(t: string): string
  {
    if |t| > 0 && (t[0] == '+' || t[0] == '-') then t[..1] else ""
  }

  /** The year field of the strict ISO parser (four to ten digits, with the
      sign rules of `SignStyle.EXCEEDS_PAD`), then the range of the year
      field. */
  function ParseYear(t: string): Option<int>
  {
    var sign := SignOf(t);
    var digits := t[|sign|..];
    if !AllDigits(digits) || |digits| < 4 || |digits| > 10 then None
    else if sign == "-" && DigitsValue(digits) == 0 then None     // minus zero
    else if sign == "+" && |digits| <= 4 then None                // "+" only beyond four digits
    else if sign == "" && |digits| > 4 then None                  // beyond four digits a sign is needed
    else
      var value: int := DigitsValue(digits);
      var year := if sign == "-" then -value else value;
      if -MaxYear <= year <= MaxYear then Some(year) else None
  }

  /** Strict ISO local date parsing: a year field, a hyphen, two month
      digits, a hyphen, two day digits and nothing else, naming a day that
      exists. */
  function ParseIsoLocalDate(s: string): Option<Date>
  {
    if |s| >= 10 && s[|s| - 6] == '-' && s[|s| - 3] == '-' && AllDigits(s[|s| - 5..|s| - 3]) && AllDigits(s[|s| - 2..]) then
      match ParseYear(s[..|s| - 6])
      case None => None
      case Some(year) =>
        var d := Date(year, DigitsValue(s[|s| - 5..|s| - 3]), DigitsValue(s[|s| - 2..]));
        if ValidDate(d) then Some(d) else None
    else None
  }

  /** Every accepted sign and width of a year in range parses back to the
      year. */
  lemma YearFormParses(year: int, sign: string, width: nat)
    requires -MaxYear <= year <= MaxYear && AcceptedYearForm(year, sign, width)
    ensures ParseYear(sign + FixedWidth(Abs(year), width)) == Some(year)
  {
    var digits := FixedWidth(Abs(year), width);
    var t := sign + digits;
    assert IsDigit(digits[0]);
    assert SignOf(t) == sign;
    assert t[|sign|..] == digits;
    FixedWidthRoundTrip(Abs(year), width);
  }

  /** Only a year in an accepted sign and width parses. */
  lemma ParsedYearForm(t: string)
    requires ParseYear(t).Some?
    ensures var year, sign := ParseYear(t).value, SignOf(t);
      -MaxYear <= year <= MaxYear && AcceptedYearForm(year, sign, |t| - |sign|) &&
      t == sign + FixedWidth(Abs(year), |t| - |sign|)
  {
    var sign := SignOf(t);
    var digits := t[|sign|..];
    DigitsRoundTrip(digits);
    assert t == sign + digits;
  }

  /** The fields of a text joined by hyphens are found again from its end. */
  lemma JoinedFields(yearText: string, month: string, day: string)
    requires |yearText| >= 4 && |month| == 2 && |day| == 2
    ensures var s := yearText + "-" + month + "-" + day;
      |s| >= 10 && s[|s| - 6] == '-' && s[|s| - 3] == '-' &&
      s[..|s| - 6] == yearText && s[|s| - 5..|s| - 3] == month && s[|s| - 2..] == day
  {
  }

  /** Parsing a year field, a month and a day joined by hyphens. */
  lemma ParseJoined(yearText: string, month: string, day: string)
    requires |yearText| >= 4 && |month| == 2 && |day| == 2 && AllDigits(month) && AllDigits(day)
    ensures ParseIsoLocalDate(yearText + "-" + month + "-" + day) ==
      match ParseYear(yearText)
      case None => None
      case Some(year) =>
        var d := Date(year, DigitsValue(month), DigitsValue(day));
        if ValidDate(d) then Some(d) else None
  {
    JoinedFields(yearText, month, day);
  }

  /** Parsing accepts a date's text in every accepted year form. */
  lemma DateTextParses(d: Date, sign: string, width: nat)
    requires ValidDate(d) && AcceptedYearForm(d.year, sign, width)
    ensures ParseIsoLocalDate(DateText(d, sign, width)) == Some(d)
  {
    var yearText := sign + FixedWidth(Abs(d.year), width);
    var month, day := FixedWidth(d.month, 2), FixedWidth(d.day, 2);
    assert DateText(d, sign, width) == yearText + "-" + month + "-" + day;
    ParseJoined(yearText, month, day);
    YearFormParses(d.year, sign, width);
    FixedWidthRoundTrip(d.month, 2);
    FixedWidthRoundTrip(d.day, 2);
  }

  /** The formatter writes every date in a form the parser accepts. */
  lemma FormatIsAccepted(d: Date)
    requires ValidDate(d)
    ensures AcceptedYearForm(d.year, YearSign(d.year), YearWidth(d.year))
  {
    var n := Abs(d.year);
    if n >= 10000 {
      DigitCountBounds(n);
      if DigitCount(n) <= 4 {
        Pow10Monotone(DigitCount(n), 4);
      }
      if DigitCount(n) > 10 {
        Pow10Monotone(9, DigitCount(n) - 1);
      }
    }
  }

  /** Parsing recovers every valid date from its text. */
  lemma ParseFormatRoundTrip(d: Date)
    requires ValidDate(d)
    ensures ParseIsoLocalDate(FormatDate(d)) == Some(d)
  {
    FormatIsAccepted(d);
    DateTextParses(d, YearSign(d.year), YearWidth(d.year));
  }

  /** Only the text of a valid date parses: the date written with the sign
      and width of its year field, in an accepted form; text without a sign
      is exactly the formatter's text. */
  lemma ParsedTextIsFormatted(s: string)
    requires ParseIsoLocalDate(s).Some?
    ensures var d := ParseIsoLocalDate(s).value;
      ValidDate(d) && AcceptedYearForm(d.year, SignOf(s), |s| - 6 - |SignOf(s)|) &&
      s == DateText(d, SignOf(s), |s| - 6 - |SignOf(s)|)
    ensures SignOf(s) == "" ==> FormatDate(ParseIsoLocalDate(s).value) == s
  {
    var d := ParseIsoLocalDate(s).value;
    var yearText, month, day := s[..|s| - 6], s[|s| - 5..|s| - 3], s[|s| - 2..];
    ParsedYearForm(yearText);
    assert SignOf(yearText) == SignOf(s);
    var width := |s| - 6 - |SignOf(s)|;
    DigitsRoundTrip(month);
    DigitsRoundTrip(day);
    assert d.month == DigitsValue(month) && d.day == DigitsValue(day);
    SplitDateText(s);
    assert s == SignOf(s) + FixedWidth(Abs(d.year), width) + "-" + FixedWidth(d.month, 2) + "-" + FixedWidth(d.day, 2);
  }

  /** A text with hyphens six and three places from its end is its year
      text, month text and day text joined by hyphens. */
  lemma SplitDateText(s: string)
    requires |s| >= 10 && s[|s| - 6] == '-' && s[|s| - 3] == '-'
    ensures s == s[..|s| - 6] + "-" + s[|s| - 5..|s| - 3] + "-" + s[|s| - 2..]
  {
  }

  // ---------------------------------------------------------------------
  // The coercion
  // ---------------------------------------------------------------------

  datatype CoercionError =
    | InvalidDateValue(message: string)           // IllegalArgumentException
    | InvalidTimestampCoercion(message: string)   // HIVE_INVALID_TIMESTAMP_COERCION

  const HistoricalDateMessage: string := "Coercion on historical dates is not supported"

  function InvalidDateMessage(value: string): string
  {
    "Invalid date value: " + value + " is not a valid date"
  }

  /** The value written for a varchar, or the error raised. The historical
      check sits inside the parse's error handler but raises a different
      exception, so it is not turned into the invalid-value error. */
  function CoerceVarcharToDate(value: string): (r: Result<int, CoercionError>)
    ensures r.Ok? <==> ParseIsoLocalDate(value).Some? && ParseIsoLocalDate(value).value.year >= 1900
    ensures r.Ok? ==> r.value == EpochDay(ParseIsoLocalDate(value).value) && r.value >= StartOfModernEraDays
    ensures r == Err(InvalidDateValue(InvalidDateMessage(value))) <==> ParseIsoLocalDate(value).None?
    ensures r == Err(InvalidTimestampCoercion(HistoricalDateMessage)) <==>
      ParseIsoLocalDate(value).Some? && ParseIsoLocalDate(value).value.year < 1900
  {
    match ParseIsoLocalDate(value)
    case None => Err(InvalidDateValue(InvalidDateMessage(value)))
    case Some(localDate) =>
      ParsedTextIsFormatted(value);
      HistoricalExactlyBefore1900(localDate);
      if EpochDay(localDate) < StartOfModernEraDays then Err(InvalidTimestampCoercion(HistoricalDateMessage))
      else Ok(EpochDay(localDate))
  }

  /** The output block under construction: the values appended so far. */
  class BlockBuilder {
    var values: seq<int>

    constructor ()
      ensures values == []
    {
      values := [];
    }

    method WriteLong(value: int)
      modifies this
      ensures values == old(values) + [value]
    {
      values := values + [value];
    }
  }

  /** Coerces the varchar at one position into the block builder: on success
      exactly one value is appended, on either error nothing is. */
  method ApplyCoercedValue(blockBuilder: BlockBuilder, value: string) returns (r: Result<(), CoercionError>)
    modifies blockBuilder
    ensures r.Ok? <==> CoerceVarcharToDate(value).Ok?
    ensures r.Ok? ==> blockBuilder.values == old(blockBuilder.values) + [CoerceVarcharToDate(value).value]
    ensures r.Err? ==> r.error == CoerceVarcharToDate(value).error && blockBuilder.values == old(blockBuilder.values)
  {
    var parsed := ParseIsoLocalDate(value);
    if parsed.None? {
      return Err(InvalidDateValue(InvalidDateMessage(value)));
    }
    var localDate := parsed.value;
    if EpochDay(localDate) < StartOfModernEraDays {
      return Err(InvalidTimestampCoercion(HistoricalDateMessage));
    }
    blockBuilder.WriteLong(EpochDay(localDate));
    r := Ok(());
  }

  // ---------------------------------------------------------------------
  // Concrete cases
  // ---------------------------------------------------------------------

  /** Parsing text made of a year, a month and a day field. */
  lemma ParseFields(s: string, year: string, month: string, day: string)
    requires |year| == 4 && |month| == 2 && |day| == 2
    requires AllDigits(year) && AllDigits(month) && AllDigits(day)
    requires s == year + "-" + month + "-" + day
    ensures ParseIsoLocalDate(s) ==
      var d := Date(DigitsValue(year), DigitsValue(month), DigitsValue(day));
      if ValidDate(d) then Some(d) else None
  {
    assert s[..4] == year && s[5..7] == month && s[8..] == day;
  }

  /** The coercion of text that parses to a date from 1900 on. */
  lemma CoerceParsed(value: string, d: Date)
    requires ParseIsoLocalDate(value) == Some(d) && d.year >= 1900
    ensures ValidDate(d) && CoerceVarcharToDate(value) == Ok(EpochDay(d))
  {
    ParsedTextIsFormatted(value);
  }

  lemma UnixEpochParses()
    ensures ParseIsoLocalDate("1970-01-01") == Some(Date(1970, 1, 1))
  {
    ParseFields("1970-01-01", "1970", "01", "01");
    FourDigits("1970");
    TwoDigits("01");
  }

  lemma UnixEpochExample()
    ensures CoerceVarcharToDate("1970-01-01") == Ok(0)
  {
    var d := Date(1970, 1, 1);
    UnixEpochParses();
    CoerceParsed("1970-01-01", d);
    assert EpochDay(d) == 0;
  }

  lemma ModernEraStartParses()
    ensures ParseIsoLocalDate("1900-01-01") == Some(Date(1900, 1, 1))
  {
    ParseFields("1900-01-01", "1900", "01", "01");
    FourDigits("1900");
    TwoDigits("01");
  }

  lemma ModernEraStartExample()
    ensures CoerceVarcharToDate("1900-01-01") == Ok(-25567)
  {
    ModernEraStartParses();
    CoerceParsed("1900-01-01", Date(1900, 1, 1));
    StartOfModernEra();
  }

  lemma HistoricalDateParses()
    ensures ParseIsoLocalDate("1899-12-31") == Some(Date(1899, 12, 31))
  {
    ParseFields("1899-12-31", "1899", "12", "31");
    FourDigits("1899");
    TwoDigits("12");
    TwoDigits("31");
    assert ValidDate(Date(1899, 12, 31));
  }

  lemma HistoricalDateExample()
    ensures CoerceVarcharToDate("1899-12-31") == Err(InvalidTimestampCoercion(HistoricalDateMessage))
  {
    HistoricalDateParses();
  }

  lemma LeapDayParses()
    ensures ParseIsoLocalDate("2000-02-29") == Some(Date(2000, 2, 29))
  {
    ParseFields("2000-02-29", "2000", "02", "29");
    FourDigits("2000");
    TwoDigits("02");
    TwoDigits("29");
    assert IsLeapYear(2000);
  }

  lemma LeapDayExample()
    ensures CoerceVarcharToDate("2000-02-29") == Ok(11016)
  {
    var d := Date(2000, 2, 29);
    LeapDayParses();
    CoerceParsed("2000-02-29", d);
    assert EpochDay(d) == 11016;
  }

  lemma NoLeapDayIn1900Example()
    ensures CoerceVarcharToDate("1900-02-29") == Err(InvalidDateValue(InvalidDateMessage("1900-02-29")))
  {
    ParseFields("1900-02-29", "1900", "02", "29");
    FourDigits("1900");
    TwoDigits("02");
    TwoDigits("29");
    assert !IsLeapYear(1900);
  }

  lemma MalformedTextExample()
    ensures CoerceVarcharToDate("2020-1-01") == Err(InvalidDateValue(InvalidDateMessage("2020-1-01")))
    ensures CoerceVarcharToDate(" 2020-01-01") == Err(InvalidDateValue(InvalidDateMessage(" 2020-01-01")))
  {
  }

  lemma NegativeYearText()
    ensures DateText(Date(-1, 1, 1), "-", 4) == "-0001-01-01"
  {
    assert FixedWidth(1, 4) == "0001";
    assert FixedWidth(1, 2) == "01";
  }

  /** A year before 0 parses, and is historical. */
  lemma NegativeYearExample()
    ensures CoerceVarcharToDate("-0001-01-01") == Err(InvalidTimestampCoercion(HistoricalDateMessage))
  {
    NegativeYearText();
    DateTextParses(Date(-1, 1, 1), "-", 4);
  }

  lemma TenThousandDigits()
    ensures FixedWidth(10000, 5) == "10000"
  {
    assert FixedWidth(1, 1) == "1";
    assert FixedWidth(10, 2) == "10";
    assert FixedWidth(100, 3) == "100";
    assert FixedWidth(1000, 4) == "1000";
  }

  lemma ExpandedYearText()
    ensures DateText(Date(10000, 1, 1), "+", 5) == "+10000-01-01"
  {
    TenThousandDigits();
    assert FixedWidth(1, 2) == "01";
  }

  lemma ExpandedYearParses()
    ensures ParseIsoLocalDate("+10000-01-01") == Some(Date(10000, 1, 1))
  {
    ExpandedYearText();
    DateTextParses(Date(10000, 1, 1), "+", 5);
  }

  /** A year above 9999 parses with a "+" sign and is written as its epoch
      day. */
  lemma ExpandedYearExample()
    ensures CoerceVarcharToDate("+10000-01-01") == Ok(2932897)
  {
    var d := Date(10000, 1, 1);
    ExpandedYearParses();
    CoerceParsed("+10000-01-01", d);
    assert EpochDay(d) == 2932897;
  }

  /** Minus zero is refused. */
  lemma MinusZeroRefused()
    ensures ParseYear("-0000") == None
  {
    var t := "-0000";
    assert SignOf(t) == "-";
    assert t[1..] == "0000";
    FourDigits("0000");
  }

  /** The sign rules of the year field: more than four digits need a sign,
      "+" needs more than four digits, and minus zero is refused. */
  lemma YearSignRulesExample()
    ensures CoerceVarcharToDate("10000-01-01") == Err(InvalidDateValue(InvalidDateMessage("10000-01-01")))
    ensures CoerceVarcharToDate("+2020-01-01") == Err(InvalidDateValue(InvalidDateMessage("+2020-01-01")))
    ensures CoerceVarcharToDate("-0000-01-01") == Err(InvalidDateValue(InvalidDateMessage("-0000-01-01")))
  {
    assert ParseYear("10000") == None;
    assert ParseYear("+2020") == None;
    assert "-0000-01-01"[..5] == "-0000";
    MinusZeroRefused();
  }

  lemma TwoDigits(s: string)
    requires |s| == 2 && AllDigits(s)
    ensures DigitsValue(s) == 10 * (s[0] - '0') as int + (s[1] - '0') as int
  {
    assert s[..1][..0] == [];
    assert DigitsValue(s[..1]) == (s[0] - '0') as int;
  }

  lemma FourDigits(s: string)
    requires |s| == 4 && AllDigits(s)
    ensures DigitsValue(s) == 1000 * (s[0] - '0') as int + 100 * (s[1] - '0') as int + 10 * (s[2] - '0') as int + (s[3] - '0') as int
  {
    TwoDigits(s[..2]);
    assert s[..3][..2] == s[..2];
    assert s[..4][..3] == s[..3];
  }
}
