/**
 * The batch pipeline of main.py: cleaning of the retrieved well rows, the
 * start-year rule, the year window, the 40-row guard, the lateral-length
 * window, the Mahalanobis distances, the log-distance prune and the per-column
 * min/max summary.
 *
 * Retrieval is not modelled: the rows are the input. Every floating-point
 * statistic (quantiles, the t-test, the robust fit, logarithms, the normal
 * fit, the histogram R^2 and the normal quantile) is a function in
 * `Numerics`, applied to exactly the data the source passes it.
 */
module Pipeline {
  import opened Common
  import opened Seqs
  import YearWindow
  import OutlierDetection

  /**
   * A retrieved well row. `None` stands for a missing cell and for a cell
   * that pd.to_numeric(..., errors='coerce') turns into NaN, so the
   * coercion step leaves the row unchanged in the model.
   */
  datatype Well = Well(
    api10: Option<string>,
    tcaId: Option<string>,
    boundingAnyZoneAtDrill: Option<string>,
    completionYear: Option<int>,
    lateralLengthFt: Option<real>,
    proppantLbsPerFt: Option<real>,
    fluidBblPerFt: Option<real>,
    spacingHzAnyZoneAtDrill: Option<real>)

  /** The five numeric columns. */
  datatype Column = CompletionYear | LateralLength | Proppant | Fluid | Spacing

  /** A row with its Mahalanobis distance attached (the `md` column). */
  datatype Scored = Scored(well: Well, md: real)

  /** The min and max of one column. */
  datatype Bounds = Bounds(min: real, max: real)

  /** What the pipeline returns: the summary, the "Not enough data" message, or the singular-matrix error it raises. */
  datatype Outcome = Summary(bounds: map<Column, Bounds>) | NotEnoughData | SingularCovariance

  /** The numerical library calls main.py makes, as functions of their arguments. */
  datatype Numerics = Numerics(
    // groupby('CompletionYear')['API10'].count().quantile(0.25) of the cleaned rows
    yearCountQuartile: seq<Well> -> real,
    // ttest_ind p-value of two samples
    tTest: YearWindow.TTest,
    // the 97.5th percentile of the lateral lengths (describe(percentiles=[0.975]))
    lateralQuantile: seq<real> -> real,
    // the robust covariance fit, the distances and the chi-squared quantile
    robust: OutlierDetection.RobustEstimator,
    // np.log
    log: real -> real,
    // norm.fit: (mu, std)
    fitNormal: seq<real> -> (real, real),
    // r2_score of the density histogram with the given bin count against norm.pdf(mu, std) at the bin centres
    histogramR2: (seq<real>, nat, real, real) -> real,
    // norm.ppf(q, mu, std)
    normPpf: (real, real, real) -> real)

  const UnboundCategory: string := "UNBOUND"
  const MinRows: nat := 40
  const MinLateral: real := 3500.0
  const LateralCapFloor: real := 20000.0
  const DetectionAlpha: real := 0.1
  const LowPercentile: real := 0.80
  const HighPercentile: real := 0.95
  const MinBins: nat := 10
  const MaxBins: nat := 30

  /** The columns given to the outlier detector. */
  const AnalysedColumns: seq<Column> := [Proppant, Fluid, Spacing]

  /** The columns of the summary. */
  const SummaryColumns: seq<Column> := [Proppant, Fluid, Spacing, CompletionYear]

  function ColumnName(c: Column): string
  {
    match c
    case CompletionYear => "CompletionYear"
    case LateralLength => "LateralLength_FT"
    case Proppant => "Proppant_LBSPerFT"
    case Fluid => "Fluid_BBLPerFT"
    case Spacing => "SpacingHzAnyZoneAtDrill"
  }

  /** The cell of `w` in column `c`, as a number. */
  function Value(w: Well, c: Column): Option<real>
  {
    match c
    case CompletionYear => if w.completionYear.Some? then Some(w.completionYear.value as real) else None
    case LateralLength => w.lateralLengthFt
    case Proppant => w.proppantLbsPerFt
    case Fluid => w.fluidBblPerFt
    case Spacing => w.spacingHzAnyZoneAtDrill
  }

  /** `x` limited to [lo, hi]. */
  function Clamp(x: real, lo: real, hi: real): real
    requires lo <= hi
  {
    if x < lo then lo else if x > hi then hi else x
  }

  /**
   * calculate_final_percentile: the linear interpolation between (0.80, 0.80)
   * and (0.95, 0.95), held at its end points, is R^2 clamped to [0.80, 0.95].
   */
  function FinalPercentile(r2: real): (p: real)
    ensures LowPercentile <= p <= HighPercentile
    ensures p == Clamp(r2, LowPercentile, HighPercentile)
  {
    if r2 >= HighPercentile then HighPercentile
    else if r2 <= LowPercentile then LowPercentile
    else
      var x1, y1 := LowPercentile, LowPercentile;
      var x2, y2 := HighPercentile, HighPercentile;
      var slope := (y2 - y1) / (x2 - x1);
      y1 + slope * (r2 - x1)
  }

  /** A better fit never lowers the percentile. */
  lemma FinalPercentileMonotone(r1: real, r2: real)
    requires r1 <= r2
    ensures FinalPercentile(r1) <= FinalPercentile(r2)
  {
  }

  /** The histogram bin count: a sixth of the rows, kept within [10, 30]. */
  function HistogramBins(rows: nat): (bins: nat)
    ensures MinBins <= bins <= MaxBins
    ensures MinBins <= rows / 6 <= MaxBins ==> bins == rows / 6
    ensures rows / 6 < MinBins ==> bins == MinBins
    ensures rows / 6 > MaxBins ==> bins == MaxBins
  {
    var bins := if MaxBins <= rows / 6 then MaxBins else rows / 6;
    if MinBins >= bins then MinBins else bins
  }

  /** The row has a well id and a value in each of the five numeric columns. */
  predicate Complete(w: Well)
  {
    && w.api10.Some?
    && w.completionYear.Some?
    && w.lateralLengthFt.Some?
    && w.proppantLbsPerFt.Some?
    && w.fluidBblPerFt.Some?
    && w.spacingHzAnyZoneAtDrill.Some?
  }

  predicate IsUnbound(w: Well)
  {
    w.boundingAnyZoneAtDrill == Some(UnboundCategory)
  }

  predicate IsExcluded(w: Well, ids: set<string>)
  {
    w.tcaId.Some? && w.tcaId.value in ids
  }

  /** The row survives cleaning: complete, not UNBOUND, and not in an excluded tcaID (when a list is given). */
  predicate Retained(w: Well, excluded: Option<set<string>>)
  {
    Complete(w) && !IsUnbound(w) && !(excluded.Some? && IsExcluded(w, excluded.value))
  }

  /**
   * The cleaning steps: drop UNBOUND rows, drop excluded tcaIDs when a list
   * is given, then drop rows missing any of the six dropna columns.
   */
  function CleanRows(rows: seq<Well>, excluded: Option<set<string>>): (cleaned: seq<Well>)
    ensures forall w :: w in cleaned <==> w in rows && Retained(w, excluded)
    ensures forall w :: multiset(cleaned)[w] == (if Retained(w, excluded) then multiset(rows)[w] else 0)
    ensures IsSubsequence(cleaned, rows)
  {
    var bounded := (w: Well) => !IsUnbound(w);
    var bound := Filter(rows, bounded);
    FilterCounts(rows, bounded);
    var included :=
      if excluded.Some? then
        var ids := excluded.value;
        var kept := (w: Well) => !IsExcluded(w, ids);
        FilterCounts(bound, kept);
        Filter(bound, kept)
      else bound;
    SubsequenceReflexive(bound);
    SubsequenceTransitive(included, bound, rows);
    var cleaned := Filter(included, Complete);
    FilterCounts(included, Complete);
    SubsequenceTransitive(cleaned, included, rows);
    cleaned
  }

  /** The latest completion year among rows that all have one. */
  function MaxYear(rows: seq<Well>): (year: int)
    requires rows != []
    requires forall w :: w in rows ==> w.completionYear.Some?
    ensures exists w :: w in rows && w.completionYear == Some(year)
    ensures forall w :: w in rows ==> w.completionYear.value <= year
  {
    if |rows| == 1 then
      assert rows[0] in rows;
      rows[0].completionYear.value
    else
      assert forall w :: w in rows ==> w == rows[0] || w in rows[1..];
      var rest := MaxYear(rows[1..]);
      assert rows[0] in rows;
      if rows[0].completionYear.value > rest then rows[0].completionYear.value else rest
  }

  /** The number of rows completed in `year`. */
  function RowsInYear(rows: seq<Well>, year: int): nat
  {
    |Filter(rows, (w: Well) => w.completionYear == Some(year))|
  }

  /**
   * The start year: the latest year when it holds at least `threshold`
   * rows, the year before it otherwise.
   */
  function StartYear(rows: seq<Well>, threshold: real): (start: int)
    requires rows != []
    requires forall w :: w in rows ==> w.completionYear.Some?
    ensures start == MaxYear(rows) || start == MaxYear(rows) - 1
    ensures start == MaxYear(rows) <==> (RowsInYear(rows, MaxYear(rows)) as real) >= threshold
  {
    var latest := MaxYear(rows);
    if (RowsInYear(rows, latest) as real) >= threshold then latest else latest - 1
  }

  /** The rows as the year-window selection sees them, with `feature` as the compared column. */
  function Observations(rows: seq<Well>, feature: Column): (obs: seq<YearWindow.Observation>)
    requires forall w :: w in rows ==> w.completionYear.Some?
    ensures |obs| == |rows|
  {
    seq(|rows|, i requires 0 <= i < |rows| =>
      assert rows[i] in rows;
      YearWindow.Observation(rows[i].completionYear.value, Value(rows[i], feature)))
  }

  /** The rows completed in [lo, hi], in their order. */
  function InYearRange(rows: seq<Well>, lo: int, hi: int): (r: seq<Well>)
    ensures forall w :: w in r <==> w in rows && w.completionYear.Some? && lo <= w.completionYear.value <= hi
    ensures forall w ::
      multiset(r)[w] == (if w.completionYear.Some? && lo <= w.completionYear.value <= hi then multiset(rows)[w] else 0)
    ensures IsSubsequence(r, rows)
  {
    var inRange := (w: Well) => w.completionYear.Some? && lo <= w.completionYear.value <= hi;
    FilterCounts(rows, inRange);
    Filter(rows, inRange)
  }

  /** The observations of all but the last row, and the last row's year. */
  lemma ObservationsLast(rows: seq<Well>, feature: Column)
    requires rows != []
    requires forall w :: w in rows ==> w.completionYear.Some?
    ensures var obs := Observations(rows, feature);
      && Observations(rows[..|rows| - 1], feature) == obs[..|obs| - 1]
      && Some(obs[|obs| - 1].year) == rows[|rows| - 1].completionYear
  {
    assert rows[|rows| - 1] in rows;
  }

  /** The year filter of a frame is that of all but its last row, plus that row when its year is in range. */
  lemma InYearRangeLast(rows: seq<Well>, lo: int, hi: int)
    requires rows != []
    ensures var last := rows[|rows| - 1];
      |InYearRange(rows, lo, hi)| == |InYearRange(rows[..|rows| - 1], lo, hi)|
        + (if last.completionYear.Some? && lo <= last.completionYear.value <= hi then 1 else 0)
  {
  }

  /** The year-range filter keeps exactly the rows the year-window selection counts for [lo, hi]. */
  lemma {:induction false} InYearRangeCountsWindow(rows: seq<Well>, feature: Column, lo: int, hi: int)
    requires forall w :: w in rows ==> w.completionYear.Some?
    ensures |InYearRange(rows, lo, hi)| == YearWindow.WindowCount(Observations(rows, feature), lo, hi)
  {
    if rows != [] {
      var init := rows[..|rows| - 1];
      assert forall w :: w in init ==> w in rows;
      InYearRangeCountsWindow(init, feature, lo, hi);
      InYearRangeLast(rows, lo, hi);
      ObservationsLast(rows, feature);
    }
  }

  /** The lateral lengths of complete rows. */
  function LateralLengths(rows: seq<Well>): (lengths: seq<real>)
    requires forall w :: w in rows ==> Complete(w)
    ensures |lengths| == |rows|
  {
    seq(|rows|, i requires 0 <= i < |rows| => assert rows[i] in rows && Complete(rows[i]); rows[i].lateralLengthFt.value)
  }

  /** The upper lateral-length bound: the 97.5th percentile, but never below 20000 ft. */
  function LateralCap(quantile: real): (cap: real)
    ensures cap >= LateralCapFloor && cap >= quantile
    ensures cap == LateralCapFloor || cap == quantile
  {
    if quantile > LateralCapFloor then quantile else LateralCapFloor
  }

  /** The rows whose lateral length lies in [3500, cap], in their order. */
  function LateralWindow(rows: seq<Well>, cap: real): (r: seq<Well>)
    ensures forall w :: w in r <==> w in rows && w.lateralLengthFt.Some? && MinLateral <= w.lateralLengthFt.value <= cap
    ensures forall w ::
      multiset(r)[w] == (if w.lateralLengthFt.Some? && MinLateral <= w.lateralLengthFt.value <= cap then multiset(rows)[w] else 0)
    ensures IsSubsequence(r, rows)
  {
    var inWindow := (w: Well) => w.lateralLengthFt.Some? && MinLateral <= w.lateralLengthFt.value <= cap;
    FilterCounts(rows, inWindow);
    Filter(rows, inWindow)
  }

  /** The analysed columns of each row, in row order: the frame given to the detector. */
  function Points(rows: seq<Well>): (points: seq<OutlierDetection.Point>)
    requires forall w :: w in rows ==> Complete(w)
    ensures |points| == |rows|
    ensures forall p :: p in points ==> |p| == |AnalysedColumns|
  {
    seq(|rows|, i requires 0 <= i < |rows| =>
      assert rows[i] in rows && Complete(rows[i]);
      [rows[i].proppantLbsPerFt.value, rows[i].fluidBblPerFt.value, rows[i].spacingHzAnyZoneAtDrill.value])
  }

  /** Adds the distance column: the i-th distance goes with the i-th row. */
  function Attach(rows: seq<Well>, md: seq<real>): (scored: seq<Scored>)
    requires |md| == |rows|
    ensures |scored| == |rows|
    ensures forall i :: 0 <= i < |rows| ==> scored[i].well == rows[i] && scored[i].md == md[i]
    ensures forall s :: s in scored ==> s.well in rows
  {
    seq(|rows|, i requires 0 <= i < |rows| => Scored(rows[i], md[i]))
  }

  /**
   * The log-distance threshold: the bin count from the row count, a normal
   * fitted to the log-distances, its histogram R^2 mapped to a percentile,
   * and that percentile of the fitted normal.
   */
  function LogDistanceThreshold(md: seq<real>, num: Numerics): (threshold: real)
    ensures var (mu, std) := num.fitNormal(LogDistances(md, num));
      threshold == num.normPpf(Clamp(LogDistanceFit(md, num), LowPercentile, HighPercentile), mu, std)
  {
    var bins := HistogramBins(|md|);
    var logMd := LogDistances(md, num);
    var (mu, std) := num.fitNormal(logMd);
    var r2 := num.histogramR2(logMd, bins, mu, std);
    num.normPpf(FinalPercentile(r2), mu, std)
  }

  /** The natural log of every distance, index-aligned. */
  function LogDistances(md: seq<real>, num: Numerics): (logMd: seq<real>)
    ensures |logMd| == |md|
  {
    seq(|md|, i requires 0 <= i < |md| => num.log(md[i]))
  }

  /**
   * R^2 between the histogram of the log-distances, in HistogramBins(|md|)
   * bins, and the normal fitted to them.
   */
  function LogDistanceFit(md: seq<real>, num: Numerics): real
  {
    var logMd := LogDistances(md, num);
    var (mu, std) := num.fitNormal(logMd);
    num.histogramR2(logMd, HistogramBins(|md|), mu, std)
  }

  /** A complete row has a value in every numeric column. */
  lemma CompleteHasValue(w: Well, c: Column)
    requires Complete(w)
    ensures Value(w, c).Some?
  {
  }

  /** The rows whose log-distance is strictly below `threshold`, in their order. */
  function PruneByLogDistance(scored: seq<Scored>, threshold: real, num: Numerics): (r: seq<Scored>)
    ensures forall s :: s in r <==> s in scored && num.log(s.md) < threshold
    ensures forall s :: multiset(r)[s] == (if num.log(s.md) < threshold then multiset(scored)[s] else 0)
    ensures IsSubsequence(r, scored)
  {
    var below := (s: Scored) => num.log(s.md) < threshold;
    FilterCounts(scored, below);
    Filter(scored, below)
  }

  /** The values of column `c` over complete rows. */
  function ColumnValues(rows: seq<Scored>, c: Column): (values: seq<real>)
    requires forall s :: s in rows ==> Complete(s.well)
    ensures |values| == |rows|
  {
    seq(|rows|, i requires 0 <= i < |rows| =>
      assert rows[i] in rows;
      CompleteHasValue(rows[i].well, c);
      Value(rows[i].well, c).value)
  }

  /** `b` is attained at both ends and encloses every value. */
  predicate Encloses(b: Bounds, values: seq<real>)
  {
    b.min in values && b.max in values && forall v :: v in values ==> b.min <= v <= b.max
  }

  /** The min and max of one column over a non-empty frame. */
  function ColumnBounds(rows: seq<Scored>, c: Column): (b: Bounds)
    requires rows != []
    requires forall s :: s in rows ==> Complete(s.well)
    ensures b.min <= b.max
    ensures Encloses(b, ColumnValues(rows, c))
  {
    var values := ColumnValues(rows, c);
    Bounds(Minimum(values), Maximum(values))
  }

  /** `summary` holds, for column `c`, bounds enclosing that column's values. */
  predicate SummarizesColumn(summary: map<Column, Bounds>, rows: seq<Scored>, c: Column)
    requires forall s :: s in rows ==> Complete(s.well)
  {
    c in summary && summary[c].min <= summary[c].max && Encloses(summary[c], ColumnValues(rows, c))
  }

  /**
   * The summary: for each of the four summary columns (named by ColumnName
   * in the source's dictionary), the min and max over the rows.
   */
  function Summarize(rows: seq<Scored>): (summary: map<Column, Bounds>)
    requires rows != []
    requires forall s :: s in rows ==> Complete(s.well)
    ensures summary.Keys == set c | c in SummaryColumns
    ensures LateralLength !in summary
    ensures forall c :: c in SummaryColumns ==> SummarizesColumn(summary, rows, c)
  {
    map c | c in SummaryColumns :: ColumnBounds(rows, c)
  }

  /** The rows after the lateral-length window: [3500 ft, LateralCap of the 97.5th percentile]. */
  function LateralKept(windowed: seq<Well>, num: Numerics): (kept: seq<Well>)
    requires forall w :: w in windowed ==> Complete(w)
    ensures forall w :: w in kept ==> w in windowed && Complete(w)
  {
    LateralWindow(windowed, LateralCap(num.lateralQuantile(LateralLengths(windowed))))
  }

  /**
   * The final frame after the 40-row guard: every lateral-windowed row, with
   * its distance, whose log-distance is strictly below the fitted threshold;
   * nothing when the covariance is singular.
   */
  function FinalRows(windowed: seq<Well>, num: Numerics): (survivors: seq<Scored>)
    requires forall w :: w in windowed ==> Complete(w)
    ensures forall s :: s in survivors ==> s.well in windowed && Complete(s.well)
  {
    var kept := LateralKept(windowed, num);
    var points := Points(kept);
    if num.robust.invertible(points) then
      var md := OutlierDetection.Distances(points, num.robust);
      PruneByLogDistance(Attach(kept, md), LogDistanceThreshold(md, num), num)
    else []
  }

  /**
   * What the stages after the 40-row guard return: a singular covariance,
   * "Not enough data" when no row survives the prune, and otherwise the
   * summary of the surviving rows.
   */
  function StagesOutcome(windowed: seq<Well>, num: Numerics): (result: Outcome)
    requires forall w :: w in windowed ==> Complete(w)
    ensures result == SingularCovariance <==> !num.robust.invertible(Points(LateralKept(windowed, num)))
    ensures result.Summary? <==> FinalRows(windowed, num) != []
    ensures result.Summary? ==> result.bounds == Summarize(FinalRows(windowed, num))
  {
    if !num.robust.invertible(Points(LateralKept(windowed, num))) then SingularCovariance
    else
      var survivors := FinalRows(windowed, num);
      if survivors == [] then NotEnoughData else Summary(Summarize(survivors))
  }

  /**
   * A row survives the stages after the guard exactly as often as it occurs
   * in the lateral window with a log-distance below the threshold.
   */
  lemma FinalRowsExactly(windowed: seq<Well>, num: Numerics, s: Scored)
    requires forall w :: w in windowed ==> Complete(w)
    requires num.robust.invertible(Points(LateralKept(windowed, num)))
    ensures var kept := LateralKept(windowed, num);
      var md := OutlierDetection.Distances(Points(kept), num.robust);
      && multiset(FinalRows(windowed, num))[s] ==
        (if num.log(s.md) < LogDistanceThreshold(md, num) then multiset(Attach(kept, md))[s] else 0)
      && IsSubsequence(FinalRows(windowed, num), Attach(kept, md))
  {
  }

  /**
   * The stages after the 40-row guard (main.py, lines 83 to 123).
   * `survivors` is the final frame (empty when no summary is returned).
   */
  method ScoreAndSummarize(windowed: seq<Well>, num: Numerics) returns (result: Outcome, ghost survivors: seq<Scored>)
    requires forall w :: w in windowed ==> Complete(w)
    ensures result == StagesOutcome(windowed, num)
    ensures survivors == FinalRows(windowed, num)
  {
    survivors := [];
    var maxLl := LateralCap(num.lateralQuantile(LateralLengths(windowed)));
    var dfNona := LateralWindow(windowed, maxLl);
    var detection := OutlierDetection.DetectOutliersMahalanobis(Points(dfNona), |AnalysedColumns|, DetectionAlpha, num.robust);
    if detection.Failure? {
      return SingularCovariance, [];
    }
    // only the distances are used: the flagged indices are discarded
    var md := detection.value.md;
    var scored := Attach(dfNona, md);
    var thresholdMd := LogDistanceThreshold(md, num);
    var pruned := PruneByLogDistance(scored, thresholdMd, num);
    if pruned != [] {
      result := Summary(Summarize(pruned));
      survivors := pruned;
    } else {
      result := NotEnoughData;
    }
  }

  /**
   * prepare_data_and_calculate_metrics, from the retrieved rows on.
   * `survivors` is the final frame (empty when no summary is returned).
   */
  method PrepareDataAndCalculateMetrics(raw: seq<Well>, excluded: Option<set<string>>, feature: Column, num: Numerics)
    returns (result: Outcome, ghost survivors: seq<Scored>)
    ensures result.Summary? <==> survivors != []
    ensures forall s :: s in survivors ==> s.well in raw && Retained(s.well, excluded)
    ensures result.Summary? ==> (forall s :: s in survivors ==> Complete(s.well)) && result.bounds == Summarize(survivors)
    ensures CleanRows(raw, excluded) == [] ==> result == NotEnoughData
    ensures var cleaned := CleanRows(raw, excluded);
      cleaned != [] ==>
        var threshold := num.yearCountQuartile(cleaned);
        var start := StartYear(cleaned, threshold);
        var cutoff := YearWindow.Cutoff(Observations(cleaned, feature), start, threshold, YearWindow.DefaultMinYear, num.tTest);
        var windowed := InYearRange(cleaned, cutoff, start);
        && (|windowed| < MinRows ==> result == NotEnoughData)
        && (|windowed| >= MinRows ==> result == StagesOutcome(windowed, num) && survivors == FinalRows(windowed, num))
  {
    var dfNona := CleanRows(raw, excluded);
    if dfNona == [] {
      // max() of an empty column is NaN, and every later comparison with it is false
      return NotEnoughData, [];
    }
    var threshold := num.yearCountQuartile(dfNona);
    var startYear := StartYear(dfNona, threshold);
    ghost var accepted;
    var minYearCutoff;
    minYearCutoff, accepted := YearWindow.FindSimilarYearsCutoff(
      Observations(dfNona, feature), startYear, threshold, YearWindow.DefaultMinYear, num.tTest);
    dfNona := InYearRange(dfNona, minYearCutoff, startYear);
    if |dfNona| >= MinRows {
      result, survivors := ScoreAndSummarize(dfNona, num);
    } else {
      result, survivors := NotEnoughData, [];
    }
  }
}
