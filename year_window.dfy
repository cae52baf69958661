/**
 * Year-window selection (statistical_test.py, find_similar_years_cutoff).
 *
 * Starting from a start year, earlier completion years are accepted one by
 * one while a two-sample t-test says their values are similar to the start
 * year's; afterwards earlier years are forced in until enough rows are
 * covered. The t-test itself is a parameter of the model.
 */
module YearWindow {
  import opened Common
  import opened Seqs

  /** A row as the selection sees it: its completion year and its value in the compared column. */
  datatype Observation = Observation(year: int, value: Option<real>)

  /** The p-value of an independent two-sample t-test (scipy's ttest_ind); the start year's sample comes first. */
  type TTest = (seq<real>, seq<real>) -> real

  /** A candidate year is similar only when its p-value is strictly above this level. */
  const SignificanceLevel: real := 0.01

  /** The earliest year considered when the caller gives none. */
  const DefaultMinYear: int := 2016

  /** The non-missing values of the rows completed in `year`, in row order. */
  function YearSample(rows: seq<Observation>, year: int): (sample: seq<real>)
    ensures |sample| <= |rows|
    ensures forall v :: v in sample <==> Observation(year, Some(v)) in rows
  {
    if rows == [] then []
    else
      var init, last := rows[..|rows| - 1], rows[|rows| - 1];
      assert rows == init + [last];
      YearSample(init, year) + (if last.year == year && last.value.Some? then [last.value.value] else [])
  }

  /** Each value occurs in the sample as often as a row of that year carries it: dropna drops no duplicate. */
  lemma {:induction false} YearSampleCounts(rows: seq<Observation>, year: int)
    ensures forall v :: multiset(YearSample(rows, year))[v] == multiset(rows)[Observation(year, Some(v))]
  {
    if rows != [] {
      var init, last := rows[..|rows| - 1], rows[|rows| - 1];
      assert rows == init + [last];
      YearSampleCounts(init, year);
      assert multiset(rows) == multiset(init) + multiset{last};
      var rest := YearSample(init, year);
      if last.year == year && last.value.Some? {
        assert YearSample(rows, year) == rest + [last.value.value];
        assert multiset(rest + [last.value.value]) == multiset(rest) + multiset{last.value.value};
      } else {
        assert YearSample(rows, year) == rest;
      }
    }
  }

  /** A year none of whose rows has a value yields an empty sample (dropna leaves nothing). */
  lemma {:induction false} YearWithoutValuesHasEmptySample(rows: seq<Observation>, year: int)
    requires forall o :: o in rows ==> o.year != year || o.value.None?
    ensures YearSample(rows, year) == []
  {
    if rows != [] {
      assert rows[|rows| - 1] in rows;
      YearWithoutValuesHasEmptySample(rows[..|rows| - 1], year);
    }
  }

  /** Both samples are non-empty and the t-test does not reject equality of their means. */
  predicate Similar(rows: seq<Observation>, start: int, year: int, tTest: TTest)
  {
    var current := YearSample(rows, year);
    var reference := YearSample(rows, start);
    |current| > 0 && |reference| > 0 && tTest(reference, current) > SignificanceLevel
  }

  /** The number of rows whose year is one of `years` (the length of a frame filtered with isin). */
  function RowsInYears(rows: seq<Observation>, years: seq<int>): nat
  {
    if rows == [] then 0
    else RowsInYears(rows[..|rows| - 1], years) + (if rows[|rows| - 1].year in years then 1 else 0)
  }

  /** The number of rows whose year lies in the closed range [lo, hi]. */
  function WindowCount(rows: seq<Observation>, lo: int, hi: int): nat
  {
    if rows == [] then 0
    else WindowCount(rows[..|rows| - 1], lo, hi) + (if lo <= rows[|rows| - 1].year <= hi then 1 else 0)
  }

  /** Counting by a list of years that is exactly [lo, hi] is counting the range. */
  lemma {:induction false} RowsInRange(rows: seq<Observation>, years: seq<int>, lo: int, hi: int)
    requires forall y :: y in years <==> lo <= y <= hi
    ensures RowsInYears(rows, years) == WindowCount(rows, lo, hi)
  {
    if rows != [] {
      RowsInRange(rows[..|rows| - 1], years, lo, hi);
    }
  }

  /** The candidate at which the backward walk from `current` stops: the first year not similar, or minYear - 1. */
  function WalkStop(rows: seq<Observation>, start: int, minYear: int, tTest: TTest, current: int): int
    decreases current - minYear
  {
    if current >= minYear && Similar(rows, start, current, tTest)
    then WalkStop(rows, start, minYear, tTest, current - 1)
    else current
  }

  /** The candidate at which forcing earlier years stops: the rows of (current, start] reach the threshold, or minYear is passed. */
  function BackstopStop(rows: seq<Observation>, start: int, threshold: real, minYear: int, current: int): int
    decreases current - minYear
  {
    if (WindowCount(rows, current + 1, start) as real) < threshold && current >= minYear
    then BackstopStop(rows, start, threshold, minYear, current - 1)
    else current
  }

  /** The earliest accepted year: one above where the backstop stops. */
  function Cutoff(rows: seq<Observation>, start: int, threshold: real, minYear: int, tTest: TTest): int
  {
    BackstopStop(rows, start, threshold, minYear, WalkStop(rows, start, minYear, tTest, start - 1)) + 1
  }

  /** The smallest of a non-empty list of years. */
  function Earliest(years: seq<int>): (m: int)
    requires years != []
    ensures m in years
    ensures forall y :: y in years ==> m <= y
  {
    if |years| == 1 then years[0]
    else
      var rest := Earliest(years[1..]);
      assert forall y :: y in years ==> y == years[0] || y in years[1..];
      if years[0] < rest then years[0] else rest
  }

  /** `years` is start, start - 1, ..., current + 1: contiguous, descending and without duplicates. */
  ghost predicate CountsDown(years: seq<int>, start: int, current: int)
  {
    |years| == start - current && forall k :: 0 <= k < |years| ==> years[k] == start - k
  }

  /** Appending the next earlier year keeps the list counting down. */
  lemma CountsDownStep(years: seq<int>, start: int, current: int)
    requires CountsDown(years, start, current)
    ensures CountsDown(years + [current], start, current - 1)
  {
  }

  /** A list counting down from start to current + 1 holds exactly the years of that range, and its last year is the smallest. */
  lemma ContiguousYears(years: seq<int>, start: int, current: int)
    requires CountsDown(years, start, current) && current < start
    ensures forall y :: y in years <==> current < y <= start
    ensures years[|years| - 1] == current + 1
  {
    forall y | current < y <= start
      ensures y in years
    {
      assert years[start - y] == y;
    }
  }

  /**
   * find_similar_years_cutoff: the walk accepts similar years, the backstop
   * forces earlier ones while the rows fall short of the threshold, and the
   * smallest accepted year is returned. `accepted` is the list of accepted
   * years, which the source keeps locally.
   */
  method FindSimilarYearsCutoff(rows: seq<Observation>, start: int, threshold: real, minYear: int, tTest: TTest)
    returns (cutoff: int, ghost accepted: seq<int>)
    ensures cutoff == Cutoff(rows, start, threshold, minYear, tTest)
    ensures |accepted| == start - cutoff + 1
    ensures forall k :: 0 <= k < |accepted| ==> accepted[k] == start - k
    ensures RowsInYears(rows, accepted) == WindowCount(rows, cutoff, start)
  {
    var similarYears := [start];
    var currentYear := start - 1;
    ghost var walkEnd := WalkStop(rows, start, minYear, tTest, start - 1);
    while currentYear >= minYear
      invariant currentYear < start
      invariant CountsDown(similarYears, start, currentYear)
      invariant WalkStop(rows, start, minYear, tTest, currentYear) == walkEnd
      decreases currentYear - minYear
    {
      var dataCurrentYear := YearSample(rows, currentYear);
      var dataStartYear := YearSample(rows, start);
      if |dataCurrentYear| > 0 && |dataStartYear| > 0 {
        var pValue := tTest(dataStartYear, dataCurrentYear);
        if pValue > SignificanceLevel {
          CountsDownStep(similarYears, start, currentYear);
          similarYears := similarYears + [currentYear];
          currentYear := currentYear - 1;
        } else {
          break;
        }
      } else {
        break;
      }
    }
    assert currentYear == walkEnd;

    var remainingData := RowsInYears(rows, similarYears);
    ContiguousYears(similarYears, start, currentYear);
    RowsInRange(rows, similarYears, currentYear + 1, start);
    while (remainingData as real) < threshold && currentYear >= minYear
      invariant currentYear < start
      invariant CountsDown(similarYears, start, currentYear)
      invariant remainingData == RowsInYears(rows, similarYears) == WindowCount(rows, currentYear + 1, start)
      invariant BackstopStop(rows, start, threshold, minYear, currentYear) == BackstopStop(rows, start, threshold, minYear, walkEnd)
      decreases currentYear - minYear
    {
      CountsDownStep(similarYears, start, currentYear);
      similarYears := similarYears + [currentYear];
      currentYear := currentYear - 1;
      remainingData := RowsInYears(rows, similarYears);
      ContiguousYears(similarYears, start, currentYear);
      RowsInRange(rows, similarYears, currentYear + 1, start);
    }

    assert BackstopStop(rows, start, threshold, minYear, currentYear) == currentYear;
    cutoff := Earliest(similarYears);
    ContiguousYears(similarYears, start, currentYear);
    assert similarYears[|similarYears| - 1] in similarYears;
    accepted := similarYears;
  }

  /**
   * What the walk from `current` down does: every year it passes is similar
   * (p-value strictly above 0.01, both samples non-empty), and the year it
   * stops at is either below minYear or not similar.
   */
  lemma {:induction false} WalkAcceptsExactlySimilarYears(rows: seq<Observation>, start: int, minYear: int, tTest: TTest, current: int)
    ensures var stop := WalkStop(rows, start, minYear, tTest, current);
      && stop <= current
      && (current >= minYear - 1 ==> stop >= minYear - 1)
      && (forall y :: stop < y <= current ==> Similar(rows, start, y, tTest))
      && (stop >= minYear ==> !Similar(rows, start, stop, tTest))
    decreases current - minYear
  {
    if current >= minYear && Similar(rows, start, current, tTest) {
      WalkAcceptsExactlySimilarYears(rows, start, minYear, tTest, current - 1);
    }
  }

  /**
   * After the backstop, the accepted years hold at least `threshold` rows, or
   * minYear has been passed; and every year it forced in was still needed:
   * before year y - 1 is taken, the accepted years [y, start] hold fewer
   * than `threshold` rows.
   */
  lemma {:induction false} BackstopMeetsThreshold(rows: seq<Observation>, start: int, threshold: real, minYear: int, current: int)
    ensures var stop := BackstopStop(rows, start, threshold, minYear, current);
      && stop <= current
      && (current >= minYear - 1 ==> stop >= minYear - 1)
      && ((WindowCount(rows, stop + 1, start) as real) >= threshold || stop < minYear)
      && forall y :: stop + 1 < y <= current + 1 ==> y > minYear && (WindowCount(rows, y, start) as real) < threshold
    decreases current - minYear
  {
    if (WindowCount(rows, current + 1, start) as real) < threshold && current >= minYear {
      BackstopMeetsThreshold(rows, start, threshold, minYear, current - 1);
      var stop := BackstopStop(rows, start, threshold, minYear, current);
      assert stop == BackstopStop(rows, start, threshold, minYear, current - 1);
      forall y | stop + 1 < y <= current + 1
        ensures y > minYear && (WindowCount(rows, y, start) as real) < threshold
      {
        if y < current + 1 {
          assert stop + 1 < y <= current;
        }
      }
    }
  }

  /**
   * The cutoff never exceeds the start year, never goes below minYear when
   * the start year does not, and the rows of [cutoff, start] reach the
   * threshold unless every year down to minYear was taken.
   */
  lemma CutoffBounds(rows: seq<Observation>, start: int, threshold: real, minYear: int, tTest: TTest)
    ensures var cutoff := Cutoff(rows, start, threshold, minYear, tTest);
      && cutoff <= start
      && (start >= minYear ==> cutoff >= minYear)
      && ((WindowCount(rows, cutoff, start) as real) >= threshold || cutoff <= minYear)
      && var walkEnd := WalkStop(rows, start, minYear, tTest, start - 1);
        forall y :: cutoff < y <= walkEnd + 1 ==> (WindowCount(rows, y, start) as real) < threshold
  {
    WalkAcceptsExactlySimilarYears(rows, start, minYear, tTest, start - 1);
    var walkEnd := WalkStop(rows, start, minYear, tTest, start - 1);
    BackstopMeetsThreshold(rows, start, threshold, minYear, walkEnd);
  }

  /**
   * Every year from the cutoff up to the end of the walk was accepted as
   * similar; any earlier accepted year was forced in by the backstop.
   */
  lemma CutoffAcceptsSimilarYears(rows: seq<Observation>, start: int, threshold: real, minYear: int, tTest: TTest)
    ensures var walkEnd := WalkStop(rows, start, minYear, tTest, start - 1);
      && Cutoff(rows, start, threshold, minYear, tTest) <= walkEnd + 1
      && forall y :: walkEnd < y < start ==> Similar(rows, start, y, tTest)
  {
    WalkAcceptsExactlySimilarYears(rows, start, minYear, tTest, start - 1);
    var walkEnd := WalkStop(rows, start, minYear, tTest, start - 1);
    BackstopMeetsThreshold(rows, start, threshold, minYear, walkEnd);
  }

  /** When the walk alone reaches the threshold, the backstop adds no year. */
  lemma WalkReachingThresholdNeedsNoBackstop(rows: seq<Observation>, start: int, threshold: real, minYear: int, tTest: TTest)
    requires (WindowCount(rows, WalkStop(rows, start, minYear, tTest, start - 1) + 1, start) as real) >= threshold
    ensures Cutoff(rows, start, threshold, minYear, tTest) == WalkStop(rows, start, minYear, tTest, start - 1) + 1
  {
  }

  /**
   * When the first candidate is not similar (or a sample is empty) and the
   * start year alone holds enough rows, the start year is returned.
   */
  lemma DissimilarFirstCandidateKeepsStartYear(rows: seq<Observation>, start: int, threshold: real, minYear: int, tTest: TTest)
    requires !Similar(rows, start, start - 1, tTest)
    requires (WindowCount(rows, start, start) as real) >= threshold
    ensures Cutoff(rows, start, threshold, minYear, tTest) == start
  {
  }

  /** With no value in the start year the walk accepts nothing: the first candidate is already where it stops. */
  lemma NoStartDataStopsWalk(rows: seq<Observation>, start: int, minYear: int, tTest: TTest)
    requires forall o :: o in rows ==> o.year != start || o.value.None?
    ensures WalkStop(rows, start, minYear, tTest, start - 1) == start - 1
  {
    YearWithoutValuesHasEmptySample(rows, start);
  }
}
