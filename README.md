# Trino core pieces, modelled in Dafny

This project models eight self-contained pieces of the Trino query engine and proves properties of them:

- **Semi-join and anti-join statistics.** The cardinality estimator for semi-joins and anti-joins (`SemiJoinStats`, `semi_join_stats.dfy`):
  - it reduces the source join symbol's distinct-value count (NDV) and the node's row count;
  - it keeps every other symbol's statistics;
  - it damps an anti-join that would remove everything to one half.
- **Rule-application protocol.** The protocol that applies one optimizer rule to one plan node, and the verdicts of the rule-testing harness built on it (`RuleAssert`, `rule_assert.dfy`):
  - `doesNotFire`;
  - `matches`, which checks that the rule fired, returned a new instance and kept the set of output symbols.
- **Row expressions.** The closed hierarchy of row expressions (`RowExpressions`, `row_expression.dfy`):
  - six variants, each with its JSON type tag;
  - every expression has a result type;
  - visitor dispatch.
- **Parquet validation hash.** The Parquet writer's validation hash (`ValidationHash`, `validation_hash.dfy`):
  - a structural hash over arrays, maps and rows;
  - a `31 * h + child` fold in wrapping 64-bit arithmetic;
  - a fixed hash for nulls.
- **Varchar to date.** The Hive coercion from varchar to date (`DateCoercer`, `date_coercer.dfy`):
  - strict ISO local date parsing, signed and expanded years included;
  - the day count since 1970-01-01;
  - the lower bound of 1900-01-01;
  - two distinct errors;
  - the append to the output block.
- **Decimal to integer.** The Hive coercion from decimal to the integer types:
  - literal parsing into short and long decimals, precision and scale, and the coercion to TINYINT, SMALLINT, INTEGER and BIGINT (`DecimalCoercers`, `decimal_coercers.dfy`);
  - every row of the coercion table (`DecimalTable`, `decimal_table.dfy`).
- **Block test fixtures.** The block test-fixture builders (`ColumnarTestUtils`, `columnar_test_utils.dfy`):
  - alternating-null arrays;
  - dictionary index arrays;
  - dictionary-expanded expected values;
  - run-length expected values.
- **Statement splitter.** The command-line client's statement splitter (`StatementSplitter`, `statement_splitter.dfy`):
  - complete statements, each with the delimiter that ended it;
  - the trimmed partial statement;
  - `isEmptyStatement`;
  - `squeezeStatement`;
  - the unit tests' inputs worked through to the statements and squeezed text they expect (`StatementSplitterCases`, `splitter_cases.dfy`).

`wrappers.dfy` holds the `Option` and `Result` datatypes.

Two kinds of code become methods with loops and invariants:

- code that fills arrays in loops (`ColumnarTestUtils`);
- code that folds a local accumulator (the validation hash loops).

Code whose object is filled in place also stays imperative:

- the statement splitter, whose constructor fills its fields;
- the block builder the date coercion appends to.

Each method is proved against a function that specifies it. The properties are proved about that function.

Some behaviour has no implementation among the modelled files. For that behaviour, the model follows what the files' own tests pin down:

- the semi-join estimator;
- `Decimals.parse` and the coercers;
- the statement splitter and its SQL lexer.

## Model

| member | source | states |
|---|---|---|
| SemiJoinStats.ValuesFraction | core/trino-main/src/test/java/io/trino/cost/TestSemiJoinStatsCalculator.java:136 | the non-null fraction is known exactly when the nulls fraction is, and the two add up to 1 |
| SemiJoinStats.Compute | core/trino-main/src/test/java/io/trino/cost/TestSemiJoinStatsCalculator.java:128-135 | every symbol other than the source join symbol keeps its statistics, in both joins; the source symbol gets nulls fraction 0 and keeps its range and average row size |
| SemiJoinStats.SemiJoinKnownStatistics | core/trino-main/src/test/java/io/trino/cost/TestSemiJoinStatsCalculator.java:128-147 | with known statistics a semi-join gives NDV min(source, filter), and rows × non-null fraction × filter/source when the filter NDV is smaller (× 1 otherwise) |
| SemiJoinStats.QuotientOfDifference | core/trino-main/src/test/java/io/trino/cost/TestSemiJoinStatsCalculator.java:191-194 | (s - f)/s = 1 - f/s, the factor of the anti-join row count |
| SemiJoinStats.QuotientBelowOne | core/trino-main/src/test/java/io/trino/cost/TestSemiJoinStatsCalculator.java:194 | 0 <= f/s < 1 when 0 <= f < s |
| SemiJoinStats.AntiJoinFilterSmaller | core/trino-main/src/test/java/io/trino/cost/TestSemiJoinStatsCalculator.java:186-194 | an anti-join whose filter NDV is below the source's keeps source - filter distinct values and rows × non-null fraction × (1 - filter/source) |
| SemiJoinStats.AntiJoinDamped | core/trino-main/src/test/java/io/trino/cost/TestSemiJoinStatsCalculator.java:197-205 | an anti-join whose filter NDV is at least the source's, equality included, halves NDV and rows instead of returning 0 |
| SemiJoinStats.AntiJoinNeverZero | core/trino-main/src/test/java/io/trino/cost/TestSemiJoinStatsCalculator.java:197-205 | with known statistics, positive rows and some non-nulls, an anti-join never estimates zero rows |
| SemiJoinStats.UnknownSourceStatistics | core/trino-main/src/test/java/io/trino/cost/TestSemiJoinStatsCalculator.java:150-157 | unknown source statistics give nulls fraction 0, unknown NDV, range (-inf, +inf) and unknown rows, for either join |
| SemiJoinStats.UnknownFilteringStatistics | core/trino-main/src/test/java/io/trino/cost/TestSemiJoinStatsCalculator.java:160-168 | an unknown filtering NDV leaves the source's range, gives nulls fraction 0, unknown NDV and unknown rows, for either join |
| SemiJoinStats.ZeroSourceNdv | core/trino-main/src/test/java/io/trino/cost/TestSemiJoinStatsCalculator.java:171-172 | a source NDV of zero gives exactly 0 rows for either join, even with an unknown nulls fraction |
| SemiJoinStats.SemiJoinZeroFilteringNdv | core/trino-main/src/test/java/io/trino/cost/TestSemiJoinStatsCalculator.java:171-172 | a filtering NDV of zero gives a semi-join exactly 0 rows |
| SemiJoinStats.SelfJoinFractionalNdv | core/trino-main/src/test/java/io/trino/cost/TestSemiJoinStatsCalculator.java:175-179 | a self semi-join keeps a fractional NDV and every row, and a self anti-join halves both (233-237) |
| SemiJoinStats.TestSemiJoinOverlapping | core/trino-main/src/test/java/io/trino/cost/TestSemiJoinStatsCalculator.java:128-136 | x by w: NDV 30, 562.5 rows, w and z unchanged |
| SemiJoinStats.TestSemiJoinNothingFiltered | core/trino-main/src/test/java/io/trino/cost/TestSemiJoinStatsCalculator.java:139-147 | x by u: NDV 40, 750 rows |
| SemiJoinStats.TestAntiJoinOverlapping | core/trino-main/src/test/java/io/trino/cost/TestSemiJoinStatsCalculator.java:186-194 | u by x: NDV 260, 780 rows, x unchanged |
| SemiJoinStats.TestAntiJoinDamped | core/trino-main/src/test/java/io/trino/cost/TestSemiJoinStatsCalculator.java:197-205 | x by u: NDV 20, 375 rows |
| SemiJoinStats.TestUnknownFiltering | core/trino-main/src/test/java/io/trino/cost/TestSemiJoinStatsCalculator.java:160-168 | x filtered by the symbol without statistics: that symbol stays unknown and the row count is unknown |
| SemiJoinStats.TestZeroDistinctValues | core/trino-main/src/test/java/io/trino/cost/TestSemiJoinStatsCalculator.java:171-172 | emptyRange by itself: 0 rows for the semi-join and the anti-join (229-230) |
| RuleAssert.PlanNode.constructor | core/trino-main/src/test/java/io/trino/sql/planner/iterative/rule/test/RuleAssert.java:118 | a plan node exposes the output symbols it was built with |
| RuleAssert.ApplyRule | core/trino-main/src/test/java/io/trino/sql/planner/iterative/rule/test/RuleAssert.java:149-165 | a second match raises; the rule fires only when it is enabled and matched exactly once, and `apply` then gets the captured node and the captures |
| RuleAssert.GetTransformedPlan | core/trino-main/src/test/java/io/trino/sql/planner/iterative/rule/test/RuleAssert.java:238-246 | the transformed plan exists exactly when the rule was applied; otherwise it raises |
| RuleAssert.RuleTest.DoesNotFire | core/trino-main/src/test/java/io/trino/sql/planner/iterative/rule/test/RuleAssert.java:76-92 | fails exactly when the application succeeded with a non-empty result, passes exactly on an empty one |
| RuleAssert.RuleTest.Matches | core/trino-main/src/test/java/io/trino/sql/planner/iterative/rule/test/RuleAssert.java:94-136 | passes exactly when the rule fired with a new instance with the same symbol set that matches the pattern; "did not fire" exactly on an empty result; "original plan" exactly when the same instance came back |
| RuleAssert.DisabledRuleDoesNotFire | core/trino-main/src/test/java/io/trino/sql/planner/iterative/rule/test/RuleAssert.java:157-158 | a disabled rule yields an empty result even when its pattern matches |
| RuleAssert.NoMatchDoesNotFire | core/trino-main/src/test/java/io/trino/sql/planner/iterative/rule/test/RuleAssert.java:153-158 | no match yields an empty result |
| RuleAssert.SecondMatchRaises | core/trino-main/src/test/java/io/trino/sql/planner/iterative/rule/test/RuleAssert.java:151-154 | two or more matches raise, whether or not the rule is enabled |
| RuleAssert.SchemaCheckIgnoresOrder | core/trino-main/src/test/java/io/trino/sql/planner/iterative/rule/test/RuleAssert.java:118 | the schema check compares symbol sets: order and repetition do not count |
| RuleAssert.SchemaViolationFails | core/trino-main/src/test/java/io/trino/sql/planner/iterative/rule/test/RuleAssert.java:118-130 | a new plan with a different symbol set fails with the schema message before the pattern is checked |
| RowExpressions.JsonTypeName | core/trino-main/src/main/java/io/trino/sql/relational/RowExpression.java:20-28 | every expression's tag is one of the six and decodes to the expression's variant |
| RowExpressions.TypeNameRoundTrip | core/trino-main/src/main/java/io/trino/sql/relational/RowExpression.java:21-28 | decoding a variant's tag gives back that variant |
| RowExpressions.ParseTypeNameExact | core/trino-main/src/main/java/io/trino/sql/relational/RowExpression.java:21-28 | a name decodes to a variant exactly when it is that variant's tag |
| RowExpressions.TypeNamesDistinct | core/trino-main/src/main/java/io/trino/sql/relational/RowExpression.java:21-30 | there are six pairwise distinct tags, one per variant, and exactly they decode |
| RowExpressions.AcceptDispatchesOnKind | core/trino-main/src/main/java/io/trino/sql/relational/RowExpression.java:29-43 | `accept` returns the visitor's case for the receiver's variant, one of the six permitted ones, so visitors that agree on that case agree |
| RowExpressions.AcceptTypeVisitor | core/trino-main/src/main/java/io/trino/sql/relational/RowExpression.java:32-43 | the visitor that returns each variant's type gives `getType` for every expression |
| ValidationHash.Wrap | lib/trino-parquet/src/main/java/io/trino/parquet/ValidationHash.java:125-126 | the wrapped value is congruent to the integer modulo 2^64 and equals it within the `long` range |
| ValidationHash.CombineIsJavaArithmetic | lib/trino-parquet/src/main/java/io/trino/parquet/ValidationHash.java:136 | one fold step is `31 * h` wrapped, plus the child, wrapped again, as Java computes it |
| ValidationHash.WrapCongruent | lib/trino-parquet/src/main/java/io/trino/parquet/ValidationHash.java:147 | integers congruent modulo 2^64 wrap to the same `long` |
| ValidationHash.CreateValidationHash | lib/trino-parquet/src/main/java/io/trino/parquet/ValidationHash.java:85-90 | a row type gets a row hasher with one field hasher per field |
| ValidationHash.CreatedHasherAccepts | lib/trino-parquet/src/main/java/io/trino/parquet/ValidationHash.java:71-93 | the hasher built for a type can hash every value of that type, recursively through maps, arrays and rows |
| ValidationHash.HashPosition | lib/trino-parquet/src/main/java/io/trino/parquet/ValidationHash.java:102-114 | hashing a position gives the structural hash: the null constant for null, otherwise the type-specific fold |
| ValidationHash.ArrayHashLoop | lib/trino-parquet/src/main/java/io/trino/parquet/ValidationHash.java:131-139 | the loop computes the left fold of the element hashes from 0, in order |
| ValidationHash.MapHashLoop | lib/trino-parquet/src/main/java/io/trino/parquet/ValidationHash.java:116-129 | the loop folds the key hash and then the value hash of each entry, in order, from 0 |
| ValidationHash.RowHashLoop | lib/trino-parquet/src/main/java/io/trino/parquet/ValidationHash.java:141-150 | the loop folds field i hashed by its own hasher, in order, from 0 |
| ValidationHash.FoldEntriesStep | lib/trino-parquet/src/main/java/io/trino/parquet/ValidationHash.java:124-127 | one map-loop iteration combines the key hash, then the value hash |
| ValidationHash.FoldEntriesInterleaved | lib/trino-parquet/src/main/java/io/trino/parquet/ValidationHash.java:123-128 | the map fold equals the plain fold over the interleaved key and value hashes |
| ValidationHash.NullHash | lib/trino-parquet/src/main/java/io/trino/parquet/ValidationHash.java:104-106 | a null position hashes to 0x6e3efbd56c16a0cb whatever the hasher |
| ValidationHash.EmptyCompositesHashToZero | lib/trino-parquet/src/main/java/io/trino/parquet/ValidationHash.java:123 | an empty map, an empty array and a row of no fields hash to 0 (lines 134, 145) |
| ValidationHash.ArrayHashAppend | lib/trino-parquet/src/main/java/io/trino/parquet/ValidationHash.java:135-137 | appending an element combines the array's hash with the element's hash |
| ValidationHash.MapHashAppend | lib/trino-parquet/src/main/java/io/trino/parquet/ValidationHash.java:124-127 | appending an entry combines the map's hash with the key hash, then the value hash |
| ValidationHash.RowHashAppend | lib/trino-parquet/src/main/java/io/trino/parquet/ValidationHash.java:146-148 | appending a field with its hasher combines the row's hash with that field's hash |
| ValidationHash.NullElementContributesConstant | lib/trino-parquet/src/main/java/io/trino/parquet/ValidationHash.java:136 | a null element contributes the null constant, since children are hashed through `hash` (lines 104-105) |
| ValidationHash.ArrayOfOneNull | lib/trino-parquet/src/main/java/io/trino/parquet/ValidationHash.java:134-137 | an array holding one null hashes to the null constant |
| DateCoercer.StartOfModernEra | plugin/trino-hive/src/main/java/io/trino/plugin/hive/coercions/DateCoercer.java:30 | the epoch day of 1900-01-01 is -25567 |
| DateCoercer.LeapYearLength | plugin/trino-hive/src/main/java/io/trino/plugin/hive/coercions/DateCoercer.java:47 | a year has 365 days, plus one every 4 years, minus one every 100, plus one every 400 |
| DateCoercer.DaysBeforeYearFormula | plugin/trino-hive/src/main/java/io/trino/plugin/hive/coercions/DateCoercer.java:51 | the days between 0000-01-01 and the start of a year, counted year by year (backwards for years before 0000), equal `toEpochDay`'s year formula on both sides of 0000 |
| DateCoercer.YearDaysStep | plugin/trino-hive/src/main/java/io/trino/plugin/hive/coercions/DateCoercer.java:51 | the year formula grows by exactly the length of each year, for years before and after 0000 |
| DateCoercer.DaysBeforeMonthFormula | plugin/trino-hive/src/main/java/io/trino/plugin/hive/coercions/DateCoercer.java:51 | the days before a month, summed month by month, equal the cumulative table |
| DateCoercer.EpochDayCountsDays | plugin/trino-hive/src/main/java/io/trino/plugin/hive/coercions/DateCoercer.java:51 | the closed-form epoch day equals the day-by-day count since 1970-01-01 |
| DateCoercer.DayWithinYear | plugin/trino-hive/src/main/java/io/trino/plugin/hive/coercions/DateCoercer.java:51 | a date's epoch day lies within the days of its year |
| DateCoercer.EpochDayOrdered | plugin/trino-hive/src/main/java/io/trino/plugin/hive/coercions/DateCoercer.java:48 | the epoch day is strictly monotone in the calendar order |
| DateCoercer.HistoricalExactlyBefore1900 | plugin/trino-hive/src/main/java/io/trino/plugin/hive/coercions/DateCoercer.java:48-50 | the historical check rejects exactly the dates before 1900; 1900-01-01 passes |
| DateCoercer.FixedWidthRoundTrip | plugin/trino-hive/src/main/java/io/trino/plugin/hive/coercions/DateCoercer.java:47 | digits written in a fixed width read back as the number |
| DateCoercer.DigitsRoundTrip | plugin/trino-hive/src/main/java/io/trino/plugin/hive/coercions/DateCoercer.java:47 | a digit string is the fixed-width text of its value |
| DateCoercer.YearFormParses | plugin/trino-hive/src/main/java/io/trino/plugin/hive/coercions/DateCoercer.java:47 | a year in range written in an accepted sign and width parses back to the year |
| DateCoercer.ParsedYearForm | plugin/trino-hive/src/main/java/io/trino/plugin/hive/coercions/DateCoercer.java:47 | only such year fields parse: what parses is an in-range year in an accepted form, and the field is that year's digits |
| DateCoercer.DateTextParses | plugin/trino-hive/src/main/java/io/trino/plugin/hive/coercions/DateCoercer.java:47 | a valid date's text with any accepted year form parses back to the date |
| DateCoercer.FormatIsAccepted | plugin/trino-hive/src/main/java/io/trino/plugin/hive/coercions/DateCoercer.java:47 | the formatter's year form (no sign up to 9999, "+" above, "-" below 0, four digits or more) is an accepted one |
| DateCoercer.ParseFormatRoundTrip | plugin/trino-hive/src/main/java/io/trino/plugin/hive/coercions/DateCoercer.java:47 | the formatted text of every valid date parses back to it |
| DateCoercer.ParsedTextIsFormatted | plugin/trino-hive/src/main/java/io/trino/plugin/hive/coercions/DateCoercer.java:47 | only such text parses: what parses is a valid date, and the input is its text in the accepted year form of its leading sign; unsigned text is exactly the formatter's text |
| DateCoercer.ParseFields | plugin/trino-hive/src/main/java/io/trino/plugin/hive/coercions/DateCoercer.java:47 | text of year, month and day fields parses to that date when the date exists |
| DateCoercer.CoerceVarcharToDate | plugin/trino-hive/src/main/java/io/trino/plugin/hive/coercions/DateCoercer.java:43-56 | success exactly for parsed dates from 1900 on, giving the epoch day; the invalid-value error exactly for text that does not parse; the historical error exactly for parsed dates before 1900 |
| DateCoercer.CoerceParsed | plugin/trino-hive/src/main/java/io/trino/plugin/hive/coercions/DateCoercer.java:47-51 | a parsed date from 1900 on coerces to its epoch day |
| DateCoercer.BlockBuilder.constructor | plugin/trino-hive/src/main/java/io/trino/plugin/hive/coercions/DateCoercer.java:43 | a new block builder holds no values |
| DateCoercer.BlockBuilder.WriteLong | plugin/trino-hive/src/main/java/io/trino/plugin/hive/coercions/DateCoercer.java:51 | appends exactly the value |
| DateCoercer.ApplyCoercedValue | plugin/trino-hive/src/main/java/io/trino/plugin/hive/coercions/DateCoercer.java:43-56 | on success exactly one value, the epoch day, is appended; on either error the block is unchanged and the error is the coercion's |
| DateCoercer.UnixEpochExample | plugin/trino-hive/src/main/java/io/trino/plugin/hive/coercions/DateCoercer.java:51 | "1970-01-01" is written as 0 |
| DateCoercer.ModernEraStartExample | plugin/trino-hive/src/main/java/io/trino/plugin/hive/coercions/DateCoercer.java:48 | "1900-01-01" is accepted and written as -25567 |
| DateCoercer.HistoricalDateExample | plugin/trino-hive/src/main/java/io/trino/plugin/hive/coercions/DateCoercer.java:48-50 | "1899-12-31" raises the historical-date error |
| DateCoercer.LeapDayExample | plugin/trino-hive/src/main/java/io/trino/plugin/hive/coercions/DateCoercer.java:47-51 | "2000-02-29" is written as 11016 |
| DateCoercer.NoLeapDayIn1900Example | plugin/trino-hive/src/main/java/io/trino/plugin/hive/coercions/DateCoercer.java:53-54 | "1900-02-29" does not parse and raises the invalid-value error |
| DateCoercer.NegativeYearExample | plugin/trino-hive/src/main/java/io/trino/plugin/hive/coercions/DateCoercer.java:47-50 | "-0001-01-01" parses and raises the historical-date error |
| DateCoercer.ExpandedYearExample | plugin/trino-hive/src/main/java/io/trino/plugin/hive/coercions/DateCoercer.java:47-51 | "+10000-01-01" is written as 2932897 |
| DateCoercer.YearSignRulesExample | plugin/trino-hive/src/main/java/io/trino/plugin/hive/coercions/DateCoercer.java:53-54 | "10000-01-01" (five digits, no sign), "+2020-01-01" ("+" with four digits) and "-0000-01-01" (minus zero) raise the invalid-value error |
| DateCoercer.MalformedTextExample | plugin/trino-hive/src/main/java/io/trino/plugin/hive/coercions/DateCoercer.java:53-54 | "2020-1-01" and " 2020-01-01" raise the invalid-value error |
| DecimalCoercers.Parse | plugin/trino-hive/src/test/java/io/trino/plugin/hive/coercions/TestDecimalCoercers.java:40 | a literal is rejected exactly when malformed, or when it has more than 38 digits; otherwise precision is 1..38, scale is at most the precision, and the magnitude is below 10^precision |
| DecimalCoercers.ParseUnsigned | plugin/trino-hive/src/test/java/io/trino/plugin/hive/coercions/TestDecimalCoercers.java:40 | the same, for the text after the sign |
| DecimalCoercers.ParseUnfold | plugin/trino-hive/src/test/java/io/trino/plugin/hive/coercions/TestDecimalCoercers.java:40 | a parsed literal's type is (significant digits, fraction digits), and its unscaled value is its digits read as a number, signed |
| DecimalCoercers.MagnitudeFits | plugin/trino-hive/src/test/java/io/trino/plugin/hive/coercions/TestDecimalCoercers.java:40 | the digits' value has no more digits than the precision |
| DecimalCoercers.LiteralShape | plugin/trino-hive/src/test/java/io/trino/plugin/hive/coercions/TestDecimalCoercers.java:40 | a literal body is digits, an optional point and digits, with at least one digit |
| DecimalCoercers.PointIndexIs | plugin/trino-hive/src/test/java/io/trino/plugin/hive/coercions/TestDecimalCoercers.java:40 | the point is found at the first '.' |
| DecimalCoercers.ShortFitsLong | plugin/trino-hive/src/test/java/io/trino/plugin/hive/coercions/TestDecimalCoercers.java:43-46 | a short decimal's unscaled value fits a Java `long` |
| DecimalCoercers.LengthRuleUnsigned | plugin/trino-hive/src/test/java/io/trino/plugin/hive/coercions/TestDecimalCoercers.java:42-47 | for an unsigned literal with a point and no leading zero, more than 19 characters is exactly a long decimal |
| DecimalCoercers.LengthRuleSigned | plugin/trino-hive/src/test/java/io/trino/plugin/hive/coercions/TestDecimalCoercers.java:42-47 | with a minus sign, more than 20 characters is exactly a long decimal |
| DecimalCoercers.RoundToInteger | plugin/trino-hive/src/test/java/io/trino/plugin/hive/coercions/TestDecimalCoercers.java:85-86 | the rounded integer has the decimal's sign (or is 0) and the rounded magnitude |
| DecimalCoercers.RoundingSpecification | plugin/trino-hive/src/test/java/io/trino/plugin/hive/coercions/TestDecimalCoercers.java:85-86 | toward zero gives the largest magnitude not above the decimal's; half away from zero the nearest, ties away |
| DecimalCoercers.ModesAgreeBelowHalf | plugin/trino-hive/src/test/java/io/trino/plugin/hive/coercions/TestDecimalCoercers.java:55-79 | with a fraction below one half, as in every row, the two modes agree |
| DecimalCoercers.RoundingNegates | plugin/trino-hive/src/test/java/io/trino/plugin/hive/coercions/TestDecimalCoercers.java:55-56 | rounding is symmetric about zero |
| DecimalCoercers.CoerceToInteger | plugin/trino-hive/src/test/java/io/trino/plugin/hive/coercions/TestDecimalCoercers.java:83-88 | the result is the rounded value exactly when it lies in the target's range, null otherwise |
| DecimalCoercers.IntegralLiteralExact | plugin/trino-hive/src/test/java/io/trino/plugin/hive/coercions/TestDecimalCoercers.java:79 | a literal without a point has scale 0 and coerces to its exact value |
| DecimalCoercers.TrailingZeroScales | plugin/trino-hive/src/test/java/io/trino/plugin/hive/coercions/TestDecimalCoercers.java:55-58 | a trailing fraction zero adds one to the scale and multiplies the unscaled value by 10 |
| DecimalCoercers.TrailingZeroKeepsValue | plugin/trino-hive/src/test/java/io/trino/plugin/hive/coercions/TestDecimalCoercers.java:55-58 | a trailing fraction zero does not change the coerced value (rows 55 and 57, 73 and 75) |
| DecimalCoercers.ParseDeterminedBy | plugin/trino-hive/src/test/java/io/trino/plugin/hive/coercions/TestDecimalCoercers.java:40 | two literals with the same sign, shape, precision, scale and digit value parse alike |
| DecimalCoercers.LeadingZeroKeepsResult | plugin/trino-hive/src/test/java/io/trino/plugin/hive/coercions/TestDecimalCoercers.java:40 | a leading zero changes nothing in the parse |
| DecimalCoercers.NegationMirrors | plugin/trino-hive/src/test/java/io/trino/plugin/hive/coercions/TestDecimalCoercers.java:55-56 | a minus sign negates the unscaled value, keeps the type, and negates the rounded integer |
| DecimalCoercers.SignNegates | plugin/trino-hive/src/test/java/io/trino/plugin/hive/coercions/TestDecimalCoercers.java:40 | the sign only negates the unscaled value |
| DecimalTable.ParsePointed | plugin/trino-hive/src/test/java/io/trino/plugin/hive/coercions/TestDecimalCoercers.java:40 | integer digits, a point and fraction digits parse to precision = their count, scale = the fraction's count, value = the digits |
| DecimalTable.ParseIntegral | plugin/trino-hive/src/test/java/io/trino/plugin/hive/coercions/TestDecimalCoercers.java:79 | a digit string without leading zero parses to scale 0 and its value |
| DecimalTable.FractionBelowHalf | plugin/trino-hive/src/test/java/io/trino/plugin/hive/coercions/TestDecimalCoercers.java:55-78 | fraction digits starting below 5 are less than one half |
| DecimalTable.RoundsToQuotient | plugin/trino-hive/src/test/java/io/trino/plugin/hive/coercions/TestDecimalCoercers.java:55-78 | q + r/p with r/p below one half rounds to q in either mode |
| DecimalTable.CoercePointed | plugin/trino-hive/src/test/java/io/trino/plugin/hive/coercions/TestDecimalCoercers.java:55-78 | a positive literal with a fraction below one half coerces to its integer part when it fits, null otherwise |
| DecimalTable.CoerceNegativePointed | plugin/trino-hive/src/test/java/io/trino/plugin/hive/coercions/TestDecimalCoercers.java:55-78 | the same literal with a minus sign coerces to minus its integer part when that fits, null otherwise |
| DecimalTable.CoerceIntegral | plugin/trino-hive/src/test/java/io/trino/plugin/hive/coercions/TestDecimalCoercers.java:79 | an integer literal coerces to itself when it fits, null otherwise |
| DecimalTable.TinyIntRows | plugin/trino-hive/src/test/java/io/trino/plugin/hive/coercions/TestDecimalCoercers.java:55-60 | ±12.12 gives ±12 as TINYINT, with either fraction length; 141.12 and -141.12 give null |
| DecimalTable.SmallIntRows | plugin/trino-hive/src/test/java/io/trino/plugin/hive/coercions/TestDecimalCoercers.java:61-66 | ±130.12 gives ±130 as SMALLINT; 66000.3012 and -66000.12 give null |
| DecimalTable.IntegerRows | plugin/trino-hive/src/test/java/io/trino/plugin/hive/coercions/TestDecimalCoercers.java:67-72 | ±33000.12 gives ±33000 as INTEGER; 3300000000.12 gives null |
| DecimalTable.BigIntRows | plugin/trino-hive/src/test/java/io/trino/plugin/hive/coercions/TestDecimalCoercers.java:73-78 | ±3300000000.12 gives ±3300000000 as BIGINT; ±330000000000000000000.12 gives null |
| DecimalTable.IntegerLiteralRow | plugin/trino-hive/src/test/java/io/trino/plugin/hive/coercions/TestDecimalCoercers.java:79 | "3300000" gives 3300000 as INTEGER |
| DecimalTable.SignedTwentyCharactersIsShort | plugin/trino-hive/src/test/java/io/trino/plugin/hive/coercions/TestDecimalCoercers.java:42-47 | "-1234567890.12345678" has 20 characters, so the check expects a long decimal, yet it parses to a short one |
| ColumnarTestUtils.AlternatingNullValues | core/trino-main/src/test/java/io/trino/block/ColumnarTestUtils.java:116-126 | length 2n+1, every even position (the last included) null, position 2i+1 holding element i |
| ColumnarTestUtils.AlternatingNullsInterleave | core/trino-main/src/test/java/io/trino/block/ColumnarTestUtils.java:120-124 | the odd positions of the result are the input, in order, and the last position is null |
| ColumnarTestUtils.AlternatingNullsCount | core/trino-main/src/test/java/io/trino/block/ColumnarTestUtils.java:116-126 | the result holds exactly n + 1 nulls |
| ColumnarTestUtils.CreateTestDictionaryIndexes | core/trino-main/src/test/java/io/trino/block/ColumnarTestUtils.java:153-161 | length 2n, position i holds n-1-i and position n+i holds i |
| ColumnarTestUtils.DictionaryIndexesHalves | core/trino-main/src/test/java/io/trino/block/ColumnarTestUtils.java:156-159 | the indexes are the descending half followed by the ascending half |
| ColumnarTestUtils.SameValuesBothWays | core/trino-main/src/test/java/io/trino/block/ColumnarTestUtils.java:156-159 | the descending half is a permutation of the ascending half |
| ColumnarTestUtils.AscendingOnce | core/trino-main/src/test/java/io/trino/block/ColumnarTestUtils.java:158 | the ascending half holds each value of [0, n) once and nothing else |
| ColumnarTestUtils.DictionaryIndexesCoverTwice | core/trino-main/src/test/java/io/trino/block/ColumnarTestUtils.java:153-160 | every index lies in [0, n), and each value of [0, n) occurs exactly twice |
| ColumnarTestUtils.CreateTestDictionaryExpectedValues | core/trino-main/src/test/java/io/trino/block/ColumnarTestUtils.java:141-151 | length 2n, position i holding the value at dictionary index i |
| ColumnarTestUtils.DictionaryExpectedHalves | core/trino-main/src/test/java/io/trino/block/ColumnarTestUtils.java:141-151 | the expected values are the values reversed, then the values |
| ColumnarTestUtils.CreateTestRleExpectedValues | core/trino-main/src/test/java/io/trino/block/ColumnarTestUtils.java:163-170 | length 10 whatever the input's length, every entry the input's value at the given position |
| StatementSplitter.MatchingDelimiter | client/trino-cli/src/test/java/io/trino/cli/lexer/TestStatementSplitter.java:81-90 | a delimiter is found exactly when one (non-empty) starts the text, and it is one of the set |
| StatementSplitter.NextToken | client/trino-cli/src/test/java/io/trino/cli/lexer/TestStatementSplitter.java:81-106 | the next token is a non-empty prefix of the text, and a delimiter token exactly when a delimiter starts the text |
| StatementSplitter.Lex | client/trino-cli/src/test/java/io/trino/cli/lexer/TestStatementSplitter.java:92-106 | every token is non-empty and every delimiter token is one of the set; lexing never stops on an error |
| StatementSplitter.LexSpellsInput | client/trino-cli/src/test/java/io/trino/cli/lexer/TestStatementSplitter.java:92-106 | the tokens spell out the input, so error text such as "z#" is kept |
| StatementSplitter.NoDelimiterToken | client/trino-cli/src/test/java/io/trino/cli/lexer/TestStatementSplitter.java:108-160 | text where no delimiter occurs lexes to no delimiter token |
| StatementSplitter.QuotedEndScans | client/trino-cli/src/test/java/io/trino/cli/lexer/TestStatementSplitter.java:126-151 | a quoted token ends at the first quote that is not doubled |
| StatementSplitter.QuotedStringIsOneToken | client/trino-cli/src/test/java/io/trino/cli/lexer/TestStatementSplitter.java:108-133 | a quoted string with doubled-quote escapes is one token, so a delimiter inside it does not split |
| StatementSplitter.TrimIsSlice | client/trino-cli/src/test/java/io/trino/cli/lexer/TestStatementSplitter.java:29-35 | trimming removes blank characters from both ends only, keeping the middle |
| StatementSplitter.TrimEmpty | client/trino-cli/src/test/java/io/trino/cli/lexer/TestStatementSplitter.java:37-51 | the trimmed text is empty exactly when the text is blank |
| StatementSplitter.TrimIdempotent | client/trino-cli/src/test/java/io/trino/cli/lexer/TestStatementSplitter.java:29-35 | trimming twice is trimming once |
| StatementSplitter.StatementSplitter.constructor | client/trino-cli/src/test/java/io/trino/cli/lexer/TestStatementSplitter.java:29-90 | the constructor's loop records the statements and the partial statement of the text's token stream |
| StatementSplitter.SplitStatementsTrimmed | client/trino-cli/src/test/java/io/trino/cli/lexer/TestStatementSplitter.java:61-90 | every complete statement is non-blank, trimmed and ended by a delimiter of the set |
| StatementSplitter.StatementsAreTrimmed | client/trino-cli/src/test/java/io/trino/cli/lexer/TestStatementSplitter.java:61-90 | the same for a text, and the partial statement is trimmed |
| StatementSplitter.SegmentBecomesStatement | client/trino-cli/src/test/java/io/trino/cli/lexer/TestStatementSplitter.java:162-180 | a segment ended by a delimiter becomes one statement (its trimmed text, that delimiter) exactly when not blank; comment-only segments count, blank ones are dropped (45-51) |
| StatementSplitter.SplitWithoutDelimiters | client/trino-cli/src/test/java/io/trino/cli/lexer/TestStatementSplitter.java:29-35 | without delimiter tokens nothing is complete and everything is buffered |
| StatementSplitter.NoDelimiterIsPartial | client/trino-cli/src/test/java/io/trino/cli/lexer/TestStatementSplitter.java:108-160 | a text without delimiters gives no statements and itself, trimmed, as the partial statement |
| StatementSplitter.BlankSegmentsDropped | client/trino-cli/src/test/java/io/trino/cli/lexer/TestStatementSplitter.java:45-51 | delimiters and blank whitespace alone give no statements and a blank buffer |
| StatementSplitter.WhitespaceOnlyIsEmpty | client/trino-cli/src/test/java/io/trino/cli/lexer/TestStatementSplitter.java:37-43 | whitespace alone (the empty text included) gives no statements and an empty partial statement |
| StatementSplitter.IsEmptyStatement | client/trino-cli/src/test/java/io/trino/cli/lexer/TestStatementSplitter.java:287-299 | true exactly when every token is whitespace or a comment |
| StatementSplitter.WhitespaceIsEmpty | client/trino-cli/src/test/java/io/trino/cli/lexer/TestStatementSplitter.java:290-292 | whitespace alone is an empty statement |
| StatementSplitter.LineCommentIsEmpty | client/trino-cli/src/test/java/io/trino/cli/lexer/TestStatementSplitter.java:293 | a line comment is one hidden token |
| StatementSplitter.NonEmptyStart | client/trino-cli/src/test/java/io/trino/cli/lexer/TestStatementSplitter.java:295-298 | text that starts with neither whitespace nor a comment has a visible token |
| StatementSplitter.SqueezeStatement | client/trino-cli/src/test/java/io/trino/cli/lexer/TestStatementSplitter.java:301-334 | the loop's result is the squeezed text: each whitespace token replaced by one space, the whole trimmed |
| StatementSplitter.SqueezeKeepsContent | client/trino-cli/src/test/java/io/trino/cli/lexer/TestStatementSplitter.java:301-334 | squeezing keeps every non-blank character in order, never lengthens the text, and yields trimmed text |
| StatementSplitter.SqueezeWhitespace | client/trino-cli/src/test/java/io/trino/cli/lexer/TestStatementSplitter.java:301-306 | whitespace alone squeezes to the empty text |
| StatementSplitter.TrimKeepsNonBlank | client/trino-cli/src/test/java/io/trino/cli/lexer/TestStatementSplitter.java:301-306 | trimming keeps every non-blank character |
| StatementSplitter.SqueezedTextKeepsNonBlank | client/trino-cli/src/test/java/io/trino/cli/lexer/TestStatementSplitter.java:308-334 | replacing whitespace tokens by one space keeps every other token's characters, quoted and error text included |
| StatementSplitter.LexTokens | client/trino-cli/src/test/java/io/trino/cli/lexer/TestStatementSplitter.java:61-90 | tokens that follow each other as the lexer would cut them are exactly what lexing their joined text gives back |
| StatementSplitter.DelimiterToken | client/trino-cli/src/test/java/io/trino/cli/lexer/TestStatementSplitter.java:82-90 | a delimiter that no other delimiter shares a first character with lexes as one delimiter token, and lexing goes on after it |
| StatementSplitter.QuotedTokenLexes | client/trino-cli/src/test/java/io/trino/cli/lexer/TestStatementSplitter.java:127-151 | a quoted string or identifier, doubled quotes inside included, lexes as one token followed by the lexing of what comes after |
| StatementSplitter.LineCommentToken | client/trino-cli/src/test/java/io/trino/cli/lexer/TestStatementSplitter.java:163-170 | a line comment up to its line break lexes as one token followed by the lexing of what comes after |
| StatementSplitter.SplitAfterDelimiter | client/trino-cli/src/test/java/io/trino/cli/lexer/TestStatementSplitter.java:61-80 | the statements of tokens up to a delimiter are kept in front of those of what follows, and the partial statement is that of what follows |
| StatementSplitter.PartialAfterLastDelimiter | client/trino-cli/src/test/java/io/trino/cli/lexer/TestStatementSplitter.java:62-70 | splitting tokens that end in a delimiter followed by delimiter-free tokens gives the statements up to that delimiter and the text of the rest as the buffer; at the text level the complete statements are those up to that delimiter, the partial statement is the trimmed remaining text, and it is empty when nothing follows the delimiter |
| StatementSplitter.SqueezedTextAppend | client/trino-cli/src/test/java/io/trino/cli/lexer/TestStatementSplitter.java:301-334 | squeezing a sequence of tokens squeezes each part |
| StatementSplitter.TokenSqueezedVerbatim | client/trino-cli/src/test/java/io/trino/cli/lexer/TestStatementSplitter.java:308-320 | every token other than whitespace, quoted strings and identifiers included, appears in the squeezed text unchanged |
| StatementSplitter.WhitespaceTokensMaximal | client/trino-cli/src/test/java/io/trino/cli/lexer/TestStatementSplitter.java:301-306 | the lexer never yields two whitespace tokens in a row |
| StatementSplitter.WhitespaceRunIsOneSpace | client/trino-cli/src/test/java/io/trino/cli/lexer/TestStatementSplitter.java:301-306 | a whitespace token is a maximal run of whitespace, with no whitespace token on either side, and it becomes exactly one space in the squeezed text |
| StatementSplitterCases.SegmentText | client/trino-cli/src/test/java/io/trino/cli/lexer/TestStatementSplitter.java:61-90 | the tokens of a segment spell the segment |
| StatementSplitterCases.StatementThen | client/trino-cli/src/test/java/io/trino/cli/lexer/TestStatementSplitter.java:61-80 | text before a delimiter adds its trimmed statement, if it is not blank, in front of the statements of what follows the delimiter |
| StatementSplitterCases.FinalStatement | client/trino-cli/src/test/java/io/trino/cli/lexer/TestStatementSplitter.java:54-60 | text ended by a delimiter gives its trimmed statement, if it is not blank, and an empty partial statement |
| StatementSplitterCases.LastStatement | client/trino-cli/src/test/java/io/trino/cli/lexer/TestStatementSplitter.java:29-35 | text without delimiters gives no complete statement and is itself the partial statement, trimmed |
| StatementSplitterCases.NothingLeft | client/trino-cli/src/test/java/io/trino/cli/lexer/TestStatementSplitter.java:38-43 | the empty text gives no statements and an empty partial statement |
| StatementSplitterCases.DelimiterFirst | client/trino-cli/src/test/java/io/trino/cli/lexer/TestStatementSplitter.java:72-80 | a delimiter at the start adds no statement |
| StatementSplitterCases.DelimiterAloneIsEmpty | client/trino-cli/src/test/java/io/trino/cli/lexer/TestStatementSplitter.java:46-51 | a delimiter alone gives no statements and an empty partial statement |
| StatementSplitterCases.DelimitersOnly | client/trino-cli/src/test/java/io/trino/cli/lexer/TestStatementSplitter.java:46-51 | three delimiters give no statements and an empty partial statement |
| StatementSplitterCases.EmptyStatements | client/trino-cli/src/test/java/io/trino/cli/lexer/TestStatementSplitter.java:48-50 | ";;;" gives no statements and an empty partial statement |
| StatementSplitterCases.CustomDelimiterStatements | client/trino-cli/src/test/java/io/trino/cli/lexer/TestStatementSplitter.java:84-89 | with delimiters ";" and "//", the test's text gives "select * from  foo" ended by "//" and "select * from t" ended by ";", and the partial statement "select * from" |
| StatementSplitterCases.EscapedSingleQuote | client/trino-cli/src/test/java/io/trino/cli/lexer/TestStatementSplitter.java:129-132 | "select 'hello''world' from dual;" gives that one statement, the doubled quote kept inside the string, and an empty partial statement |
| StatementSplitterCases.TrailingCommentIsPartial | client/trino-cli/src/test/java/io/trino/cli/lexer/TestStatementSplitter.java:165-169 | a blank and a line comment without a line break at the end give no statement and are the partial statement, trimmed |
| StatementSplitterCases.SingleLineComments | client/trino-cli/src/test/java/io/trino/cli/lexer/TestStatementSplitter.java:165-169 | the test's text gives "--empty" and the commented select as statements ended by ";", and "-- done" as the partial statement |
| StatementSplitterCases.SqueezeThrough | client/trino-cli/src/test/java/io/trino/cli/lexer/TestStatementSplitter.java:301-334 | squeezing a token and the text after it squeezes the token, then the rest |
| StatementSplitterCases.SqueezeStatementExample | client/trino-cli/src/test/java/io/trino/cli/lexer/TestStatementSplitter.java:304-305 | "select   *  from\n foo\n  order by x ; " squeezes to "select * from foo order by x ;" |
| StatementSplitterCases.SqueezeIncompleteQuotedString | client/trino-cli/src/test/java/io/trino/cli/lexer/TestStatementSplitter.java:311-312 | a trailing unclosed quote is kept as it is: "... where x = 'oops" squeezes to "select * from foo where x = 'oops" |
| StatementSplitterCases.SqueezeBackquote | client/trino-cli/src/test/java/io/trino/cli/lexer/TestStatementSplitter.java:318-319 | the spaces inside a backquoted identifier are kept while those around it become one: "select `  f``o  o`` ` from dual" |
| StatementSplitterCases.SqueezeAlternateDelimiter | client/trino-cli/src/test/java/io/trino/cli/lexer/TestStatementSplitter.java:325-326 | "... order by x // " squeezes to "select * from foo order by x //" |
| StatementSplitterCases.SqueezeError | client/trino-cli/src/test/java/io/trino/cli/lexer/TestStatementSplitter.java:332-333 | an unrecognized character is kept: "select   *  from z#oops" squeezes to "select * from z#oops" |

## Left out

- The plan memo, the lookup, pattern matching, the caching stats and cost providers, the local query runner, the `finally` cleanup, plan printing and `assertPlan` are left out. They are foreign calls whose code is not part of this model. A rule's pattern is its match sequence, the memo's root node is a parameter, and the pattern check is a predicate.
- The statistics calculator's implementation (`SemiJoinStatsCalculator`) is not part of this model; the estimator follows its test.
  - NaN is the `Unknown` constructor, and the infinite range ends are `Bound` constructors.
  - IEEE arithmetic is replaced by exact reals.
  - The tests do not separate "source NDV - filter NDV" from `max(source NDV * 0.5, source - filter)` when the filter is smaller. The model uses the difference.
- `SemiJoinStats.TestSemiJoinOverlapping` and the other concrete cases use the symbols u, w, x, z, emptyRange and unknown. The other symbols of the test's input are not included; the fractional self-join is covered by the general `SelfJoinFractionalNdv`.
- `Decimals.parse` and the Hive decimal coercers are not part of this model; they follow their test.
  - The rounding mode is a parameter, proved for both modes where every tested fraction is below one half.
  - The table rows are written with the literal as a concatenation of its integer part, the point and its fraction.
  - Exponent notation and the `BigDecimal` representation of long decimals are left out.
- `DecimalCoercers.CoerceToInteger` coerces short and long decimals alike. The separate code paths, and the `Block` that carries the value, are left out.
- The SQL lexer behind the statement splitter (`StatementSplitter.java` and its ANTLR grammar) is not part of this model. Its tokens are reduced to the classes the splitter's tests exercise: delimiters, whitespace, line and bracketed comments, quoted strings, quoted and backquoted identifiers, words, and single unrecognized characters.
  - Keywords, numbers and the lexer's error recovery are left out, beyond keeping the text.
  - `IsEmptyStatement` and `SqueezeStatement` lex with no delimiters. Only a delimiter's text matters to them, and `;` then lexes as an unrecognized character.
- `StatementSplitter.NonEmptyStart`: requires the text not to start with whitespace or a comment opener, instead of stating the full converse of `IsEmptyStatement`.
- `StatementSplitter.LineCommentIsEmpty`: covers one line comment with no line break, not a sequence of comments such as "--foo\n  --what".
- `StatementSplitter.WhitespaceOnlyIsEmpty`: requires that no delimiter start with whitespace.
- The date coercion's `Slice` decoding and the varchar block are left out; the value is given as text.
- `ValidationHash`: method handles, `TypeOperators` and the block encodings are left out.
  - The primitive hash of a type's values is a function parameter.
  - Values are a tree datatype instead of block positions.
- `ColumnarTestUtils.CreateTestRleExpectedValues`: requires the position to lie inside the input; the source throws an index exception otherwise.
- `ColumnarTestUtils.AlternatingNullValues` and the other builders use unbounded lengths. Java `int` overflow of `valueCount * 2` is left out.
- The block assertions, `copyBlock` and the builders of `DictionaryBlock` and `RunLengthEncodedBlock` are left out. They are block-encoding code, not part of this model.

## Findings

| source | as written | input that shows it | evidently intended | confidence | as-written member | corrected member |
|---|---|---|---|---|---|---|
| plugin/trino-hive/src/test/java/io/trino/plugin/hive/coercions/TestDecimalCoercers.java:42-47 | a literal of more than 19 characters is expected to parse to a long decimal, the minus sign included in the count | "-1234567890.12345678": 20 characters and 18 digits, so it parses to a short decimal while the check expects a long one (no row of the table has this shape) | a long decimal exactly when the unsigned literal exceeds 19 characters, i.e. a signed one exceeds 20 | not executed; a latent inaccuracy of the test's check, not of the coercion | DecimalTable.SignedTwentyCharactersIsShort | DecimalCoercers.LengthRuleSigned |
