/** Cardinality estimation for semi-joins and anti-joins: the statistics of a
    plan node that keeps (semi-join) or drops (anti-join) the rows of its
    source whose join symbol has a match in a filtering source.

    Statistics are reals; the NaN that stands for "unknown" in the engine is
    the constructor Unknown here, and the infinite ends of a value range are
    constructors of Bound. */
module SemiJoinStats {

  /** A statistic: a known real number, or unknown. */
  datatype Estimate = Unknown | Known(value: real)

  /** The low or high end of a symbol's value range. */
  datatype Bound = UnknownBound | NegativeInfinity | Finite(value: real) | PositiveInfinity

  /** Per-symbol statistics. */
  datatype SymbolStats = SymbolStats(
    lowValue: Bound,
    highValue: Bound,
    nullsFraction: Estimate,
    averageRowSize: Estimate,
    distinctValuesCount: Estimate)

  type Symbol = string

  /** Statistics of a plan node: its row count and the statistics of its symbols. */
  datatype PlanNodeStats = PlanNodeStats(outputRowCount: Estimate, symbolStatistics: map<Symbol, SymbolStats>)

  datatype JoinKind = SemiJoin | AntiJoin

  /** The statistics of a symbol nothing is known about: every figure
      unknown, and the range open at both ends. */
  const UnknownSymbolStats := SymbolStats(NegativeInfinity, PositiveInfinity, Unknown, Unknown, Unknown)

  /** The share of its distinct values an anti-join keeps when the filtering
      side appears to cover all of them, instead of estimating zero. */
  const MinAntiJoinFilterCoefficient: real := 0.5

  /** The statistics recorded for a symbol, or the unknown statistics when
      none are recorded. */
  function SymbolStatistics(stats: PlanNodeStats, symbol: Symbol): SymbolStats
  {
    if symbol in stats.symbolStatistics then stats.symbolStatistics[symbol] else UnknownSymbolStats
  }

  /** The fraction of rows whose value is not null. */
  function ValuesFraction(stats: SymbolStats): (r: Estimate)
    ensures r.Known? <==> stats.nullsFraction.Known?
    ensures r.Known? ==> r.value + stats.nullsFraction.value == 1.0
  {
    match stats.nullsFraction
    case Known(f) => Known(1.0 - f)
    case Unknown => Unknown
  }

  /** The number of distinct values of the source join symbol left after the
      join, given those of the source and of the filtering symbol. */
  function RetainedNdv(kind: JoinKind, sourceNdv: Estimate, filteringNdv: Estimate): Estimate
  {
    match (sourceNdv, filteringNdv)
    case (Known(s), Known(f)) =>
      (match kind
       case SemiJoin => Known(if f < s then f else s)
       case AntiJoin => Known(if f < s then s - f else s * MinAntiJoinFilterCoefficient))
    case _ => Unknown
  }

  /** The row count after the join: the input rows, times the non-null
      fraction of the source symbol, times the share of its distinct values
      that is retained. An input without distinct values, or a join that
      retains none, gives exactly zero rows. */
  function FilteredRowCount(inputRows: Estimate, source: SymbolStats, retainedNdv: Estimate): Estimate
  {
    if source.distinctValuesCount == Known(0.0) then Known(0.0)
    else
      match (source.distinctValuesCount, retainedNdv)
      case (Known(s), Known(k)) =>
        if k == 0.0 then Known(0.0)
        else
          (match (inputRows, ValuesFraction(source))
           case (Known(n), Known(v)) => Known(n * v * (k / s))
           case _ => Unknown)
      case _ => Unknown
  }

  /** The common estimator behind semi-join and anti-join. The result keeps
      every statistic of the source except those of the source join symbol,
      whose nulls fraction becomes 0 (a null key never matches) and whose
      distinct-value count becomes the retained one. */
  function Compute(
    kind: JoinKind,
    sourceStats: PlanNodeStats,
    filteringSourceStats: PlanNodeStats,
    sourceJoinSymbol: Symbol,
    filteringSourceJoinSymbol: Symbol): (r: PlanNodeStats)
    ensures r.symbolStatistics.Keys == sourceStats.symbolStatistics.Keys + {sourceJoinSymbol}
    ensures forall symbol :: symbol != sourceJoinSymbol ==>
      SymbolStatistics(r, symbol) == SymbolStatistics(sourceStats, symbol)
    ensures
      var before := SymbolStatistics(sourceStats, sourceJoinSymbol);
      var after := SymbolStatistics(r, sourceJoinSymbol);
      after.nullsFraction == Known(0.0) && after.lowValue == before.lowValue &&
      after.highValue == before.highValue && after.averageRowSize == before.averageRowSize
  {
    var source := SymbolStatistics(sourceStats, sourceJoinSymbol);
    var filtering := SymbolStatistics(filteringSourceStats, filteringSourceJoinSymbol);
    var retainedNdv := RetainedNdv(kind, source.distinctValuesCount, filtering.distinctValuesCount);
    var newSource := source.(nullsFraction := Known(0.0), distinctValuesCount := retainedNdv);
    PlanNodeStats(
      FilteredRowCount(sourceStats.outputRowCount, source, retainedNdv),
      sourceStats.symbolStatistics[sourceJoinSymbol := newSource])
  }

  function ComputeSemiJoin(sourceStats: PlanNodeStats, filteringSourceStats: PlanNodeStats,
                           sourceJoinSymbol: Symbol, filteringSourceJoinSymbol: Symbol): PlanNodeStats
  {
    Compute(SemiJoin, sourceStats, filteringSourceStats, sourceJoinSymbol, filteringSourceJoinSymbol)
  }

  function ComputeAntiJoin(sourceStats: PlanNodeStats, filteringSourceStats: PlanNodeStats,
                           sourceJoinSymbol: Symbol, filteringSourceJoinSymbol: Symbol): PlanNodeStats
  {
    Compute(AntiJoin, sourceStats, filteringSourceStats, sourceJoinSymbol, filteringSourceJoinSymbol)
  }

  function Min(a: real, b: real): real { if a < b then a else b }

  lemma QuotientOfDifference(s: real, f: real)
    requires 0.0 < s
    ensures (s - f) / s == 1.0 - f / s
  {
    var d, q := (s - f) / s, f / s;
    assert d * s == s - f && q * s == f;
    var e := d + q - 1.0;
    assert e * s == d * s + q * s - s == 0.0;
    assert e > 0.0 ==> e * s > 0.0;
    assert e < 0.0 ==> (-e) * s > 0.0;
  }

  lemma QuotientBelowOne(s: real, f: real)
    requires 0.0 <= f < s
    ensures 0.0 <= f / s < 1.0
  {
    var q := f / s;
    assert q * s == f;
    assert q >= 1.0 ==> (q - 1.0) * s >= 0.0;
    assert q < 0.0 ==> (-q) * s > 0.0;
  }

  // ---------------------------------------------------------------------
  // Properties of the estimator
  // ---------------------------------------------------------------------

  /** Semi-join with known statistics: the source symbol keeps min(source
      NDV, filter NDV) distinct values, and the row count is scaled by the
      non-null fraction and by filter/source NDV when the filter has fewer
      distinct values (by 1 otherwise). */
  lemma SemiJoinKnownStatistics(
    sourceStats: PlanNodeStats, filteringSourceStats: PlanNodeStats,
    sourceJoinSymbol: Symbol, filteringSourceJoinSymbol: Symbol,
    rows: real, nulls: real, s: real, f: real)
    requires sourceStats.outputRowCount == Known(rows)
    requires SymbolStatistics(sourceStats, sourceJoinSymbol).nullsFraction == Known(nulls)
    requires SymbolStatistics(sourceStats, sourceJoinSymbol).distinctValuesCount == Known(s)
    requires SymbolStatistics(filteringSourceStats, filteringSourceJoinSymbol).distinctValuesCount == Known(f)
    requires 0.0 < s && 0.0 <= f
    ensures
      var r := ComputeSemiJoin(sourceStats, filteringSourceStats, sourceJoinSymbol, filteringSourceJoinSymbol);
      SymbolStatistics(r, sourceJoinSymbol).distinctValuesCount == Known(Min(s, f)) &&
      r.outputRowCount == Known(rows * (1.0 - nulls) * (if f < s then f / s else 1.0))
  {
    var r := ComputeSemiJoin(sourceStats, filteringSourceStats, sourceJoinSymbol, filteringSourceJoinSymbol);
    if f < s {
      if f == 0.0 {
        assert r.outputRowCount == Known(0.0);
      }
    } else {
      assert s / s == 1.0;
    }
  }

  /** Anti-join whose filter has fewer distinct values than the source: the
      source keeps source - filter distinct values, and the row count is
      scaled by the non-null fraction and by 1 - filter/source. */
  lemma AntiJoinFilterSmaller(
    sourceStats: PlanNodeStats, filteringSourceStats: PlanNodeStats,
    sourceJoinSymbol: Symbol, filteringSourceJoinSymbol: Symbol,
    rows: real, nulls: real, s: real, f: real)
    requires sourceStats.outputRowCount == Known(rows)
    requires SymbolStatistics(sourceStats, sourceJoinSymbol).nullsFraction == Known(nulls)
    requires SymbolStatistics(sourceStats, sourceJoinSymbol).distinctValuesCount == Known(s)
    requires SymbolStatistics(filteringSourceStats, filteringSourceJoinSymbol).distinctValuesCount == Known(f)
    requires 0.0 <= f < s
    ensures
      var r := ComputeAntiJoin(sourceStats, filteringSourceStats, sourceJoinSymbol, filteringSourceJoinSymbol);
      SymbolStatistics(r, sourceJoinSymbol).distinctValuesCount == Known(s - f) &&
      r.outputRowCount == Known(rows * (1.0 - nulls) * (1.0 - f / s))
  {
    QuotientOfDifference(s, f);
  }

  /** Anti-join whose filter has at least as many distinct values as the
      source (equality included): instead of zero, the distinct-value count
      and the rows are both halved. */
  lemma AntiJoinDamped(
    sourceStats: PlanNodeStats, filteringSourceStats: PlanNodeStats,
    sourceJoinSymbol: Symbol, filteringSourceJoinSymbol: Symbol,
    rows: real, nulls: real, s: real, f: real)
    requires sourceStats.outputRowCount == Known(rows)
    requires SymbolStatistics(sourceStats, sourceJoinSymbol).nullsFraction == Known(nulls)
    requires SymbolStatistics(sourceStats, sourceJoinSymbol).distinctValuesCount == Known(s)
    requires SymbolStatistics(filteringSourceStats, filteringSourceJoinSymbol).distinctValuesCount == Known(f)
    requires 0.0 < s <= f
    ensures
      var r := ComputeAntiJoin(sourceStats, filteringSourceStats, sourceJoinSymbol, filteringSourceJoinSymbol);
      SymbolStatistics(r, sourceJoinSymbol).distinctValuesCount == Known(s * 0.5) &&
      r.outputRowCount == Known(rows * (1.0 - nulls) * 0.5)
  {
    assert (s * 0.5) / s == 0.5;
  }

  /** The damping never yields a zero estimate for a non-empty input with
      some non-null values. */
  lemma AntiJoinNeverZero(
    sourceStats: PlanNodeStats, filteringSourceStats: PlanNodeStats,
    sourceJoinSymbol: Symbol, filteringSourceJoinSymbol: Symbol,
    rows: real, nulls: real, s: real, f: real)
    requires sourceStats.outputRowCount == Known(rows) && 0.0 < rows
    requires SymbolStatistics(sourceStats, sourceJoinSymbol).nullsFraction == Known(nulls) && nulls < 1.0
    requires SymbolStatistics(sourceStats, sourceJoinSymbol).distinctValuesCount == Known(s)
    requires SymbolStatistics(filteringSourceStats, filteringSourceJoinSymbol).distinctValuesCount == Known(f)
    requires 0.0 < s && 0.0 <= f
    ensures
      var r := ComputeAntiJoin(sourceStats, filteringSourceStats, sourceJoinSymbol, filteringSourceJoinSymbol);
      r.outputRowCount.Known? && r.outputRowCount.value > 0.0
  {
    if f < s {
      AntiJoinFilterSmaller(sourceStats, filteringSourceStats, sourceJoinSymbol, filteringSourceJoinSymbol, rows, nulls, s, f);
      QuotientBelowOne(s, f);
      assert 0.0 < rows * (1.0 - nulls);
    } else {
      AntiJoinDamped(sourceStats, filteringSourceStats, sourceJoinSymbol, filteringSourceJoinSymbol, rows, nulls, s, f);
    }
  }

  /** Unknown source statistics, for either join: the source symbol gets
      nulls fraction 0, an unknown distinct-value count and the open range,
      and the row count is unknown. */
  lemma UnknownSourceStatistics(
    kind: JoinKind, sourceStats: PlanNodeStats, filteringSourceStats: PlanNodeStats,
    sourceJoinSymbol: Symbol, filteringSourceJoinSymbol: Symbol)
    requires SymbolStatistics(sourceStats, sourceJoinSymbol) == UnknownSymbolStats
    ensures
      var r := Compute(kind, sourceStats, filteringSourceStats, sourceJoinSymbol, filteringSourceJoinSymbol);
      var after := SymbolStatistics(r, sourceJoinSymbol);
      after.nullsFraction == Known(0.0) && after.distinctValuesCount == Unknown &&
      after.lowValue == NegativeInfinity && after.highValue == PositiveInfinity &&
      r.outputRowCount == Unknown
  {
  }

  /** Unknown filtering statistics, for either join: the source symbol keeps
      its range and gets nulls fraction 0 and an unknown distinct-value
      count, and the row count is unknown (the source having distinct
      values). */
  lemma UnknownFilteringStatistics(
    kind: JoinKind, sourceStats: PlanNodeStats, filteringSourceStats: PlanNodeStats,
    sourceJoinSymbol: Symbol, filteringSourceJoinSymbol: Symbol)
    requires SymbolStatistics(filteringSourceStats, filteringSourceJoinSymbol).distinctValuesCount == Unknown
    requires SymbolStatistics(sourceStats, sourceJoinSymbol).distinctValuesCount != Known(0.0)
    ensures
      var r := Compute(kind, sourceStats, filteringSourceStats, sourceJoinSymbol, filteringSourceJoinSymbol);
      var before := SymbolStatistics(sourceStats, sourceJoinSymbol);
      var after := SymbolStatistics(r, sourceJoinSymbol);
      after.nullsFraction == Known(0.0) && after.distinctValuesCount == Unknown &&
      after.lowValue == before.lowValue && after.highValue == before.highValue &&
      r.outputRowCount == Unknown
  {
  }

  /** A source symbol without distinct values gives exactly zero rows, for
      either join, whatever its nulls fraction and the filtering side. */
  lemma ZeroSourceNdv(
    kind: JoinKind, sourceStats: PlanNodeStats, filteringSourceStats: PlanNodeStats,
    sourceJoinSymbol: Symbol, filteringSourceJoinSymbol: Symbol)
    requires SymbolStatistics(sourceStats, sourceJoinSymbol).distinctValuesCount == Known(0.0)
    ensures Compute(kind, sourceStats, filteringSourceStats, sourceJoinSymbol, filteringSourceJoinSymbol).outputRowCount
            == Known(0.0)
  {
  }

  /** A semi-join against a filtering symbol without distinct values gives
      exactly zero rows, whatever the row count and nulls fraction. */
  lemma SemiJoinZeroFilteringNdv(
    sourceStats: PlanNodeStats, filteringSourceStats: PlanNodeStats,
    sourceJoinSymbol: Symbol, filteringSourceJoinSymbol: Symbol, s: real)
    requires SymbolStatistics(sourceStats, sourceJoinSymbol).distinctValuesCount == Known(s) && 0.0 <= s
    requires SymbolStatistics(filteringSourceStats, filteringSourceJoinSymbol).distinctValuesCount == Known(0.0)
    ensures ComputeSemiJoin(sourceStats, filteringSourceStats, sourceJoinSymbol, filteringSourceJoinSymbol).outputRowCount
            == Known(0.0)
  {
  }

  /** A fractional distinct-value count passes through unrounded: joining a
      symbol with itself keeps the count and (without nulls) every row in a
      semi-join, and halves both in an anti-join. */
  lemma SelfJoinFractionalNdv(stats: PlanNodeStats, symbol: Symbol, rows: real, s: real)
    requires stats.outputRowCount == Known(rows)
    requires SymbolStatistics(stats, symbol).nullsFraction == Known(0.0)
    requires SymbolStatistics(stats, symbol).distinctValuesCount == Known(s) && 0.0 < s
    ensures
      var semi := ComputeSemiJoin(stats, stats, symbol, symbol);
      SymbolStatistics(semi, symbol).distinctValuesCount == Known(s) && semi.outputRowCount == Known(rows)
    ensures
      var anti := ComputeAntiJoin(stats, stats, symbol, symbol);
      SymbolStatistics(anti, symbol).distinctValuesCount == Known(s * 0.5) && anti.outputRowCount == Known(rows * 0.5)
  {
    SemiJoinKnownStatistics(stats, stats, symbol, symbol, rows, 0.0, s, s);
    AntiJoinDamped(stats, stats, symbol, symbol, rows, 0.0, s, s);
  }

  // ---------------------------------------------------------------------
  // The statistics of the unit tests, and their expected outcomes
  // ---------------------------------------------------------------------

  const UStats := SymbolStats(Finite(0.0), Finite(20.0), Known(0.1), Known(8.0), Known(300.0))
  const WStats := SymbolStats(Finite(0.0), Finite(20.0), Known(0.1), Known(8.0), Known(30.0))
  const XStats := SymbolStats(Finite(-10.0), Finite(10.0), Known(0.25), Known(4.0), Known(40.0))
  const ZStats := SymbolStats(Finite(-100.0), Finite(100.0), Known(0.1), Known(4.0), Known(5.0))
  const EmptyRangeStats := SymbolStats(UnknownBound, UnknownBound, Unknown, Known(4.0), Known(0.0))

  const TestInput := PlanNodeStats(Known(1000.0), map[
    "u" := UStats, "w" := WStats, "x" := XStats, "z" := ZStats,
    "emptyRange" := EmptyRangeStats, "unknown" := UnknownSymbolStats])

  /** Semi-join of x (NDV 40, nulls 0.25) by w (NDV 30): NDV 30, 562.5 rows. */
  lemma TestSemiJoinOverlapping()
    ensures
      var r := ComputeSemiJoin(TestInput, TestInput, "x", "w");
      SymbolStatistics(r, "x") == XStats.(nullsFraction := Known(0.0), distinctValuesCount := Known(30.0)) &&
      SymbolStatistics(r, "w") == WStats && SymbolStatistics(r, "z") == ZStats &&
      r.outputRowCount == Known(562.5)
  {
  }

  /** Semi-join of x by u (NDV 300): nothing filtered out, 750 rows. */
  lemma TestSemiJoinNothingFiltered()
    ensures
      var r := ComputeSemiJoin(TestInput, TestInput, "x", "u");
      SymbolStatistics(r, "x").distinctValuesCount == Known(40.0) && r.outputRowCount == Known(750.0)
  {
  }

  /** Anti-join of u (NDV 300, nulls 0.1) by x (NDV 40): NDV 260, 780 rows. */
  lemma TestAntiJoinOverlapping()
    ensures
      var r := ComputeAntiJoin(TestInput, TestInput, "u", "x");
      SymbolStatistics(r, "u").distinctValuesCount == Known(260.0) &&
      SymbolStatistics(r, "x") == XStats && r.outputRowCount == Known(780.0)
  {
  }

  /** Anti-join of x by u: everything would be filtered, 0.5 is kept. */
  lemma TestAntiJoinDamped()
    ensures
      var r := ComputeAntiJoin(TestInput, TestInput, "x", "u");
      SymbolStatistics(r, "x").distinctValuesCount == Known(20.0) && r.outputRowCount == Known(375.0)
  {
  }

  /** Filtering by the symbol without statistics leaves that symbol unknown. */
  lemma TestUnknownFiltering()
    ensures
      var r := ComputeSemiJoin(TestInput, TestInput, "x", "unknown");
      SymbolStatistics(r, "unknown") == UnknownSymbolStats && r.outputRowCount == Unknown
  {
  }

  /** Zero distinct values on both sides: zero rows for both joins. */
  lemma TestZeroDistinctValues()
    ensures ComputeSemiJoin(TestInput, TestInput, "emptyRange", "emptyRange").outputRowCount == Known(0.0)
    ensures ComputeAntiJoin(TestInput, TestInput, "emptyRange", "emptyRange").outputRowCount == Known(0.0)
  {
  }
}
