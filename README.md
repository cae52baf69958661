# Completion-parameter ranges: a Dafny model of the filtering pipeline

This project models the decision and filtering skeleton of a batch pipeline
that estimates normal operating ranges for oil and gas well completions
(proppant loading, fluid loading, well spacing) in one basin and flow unit.
It has three parts:

- **Year-window selection** (`statistical_test.py`, module `YearWindow`).
  The selection starts at a start year and walks back one year at a time.
  It accepts a year only while a two-sample t-test gives a p-value strictly
  above 0.01. It stops at the first dissimilar year, or as soon as the
  candidate year or the start year has no values. A backstop loop then
  forces earlier years in until the accepted years hold `threshold` rows or
  `min_year` is passed. The smallest accepted year is returned. Both loops
  are a `while` method, `FindSimilarYearsCutoff`, proved against the spec
  functions `WalkStop`, `BackstopStop` and `Cutoff`.
- **Outlier flagging** (`mahalanobis_outlier_detection.py`, module
  `OutlierDetection`). The Mahalanobis distances come out index-aligned
  with the rows. The `for` loop collects, in order, every index whose
  distance strictly exceeds the critical value. A singular robust
  covariance is an explicit error.
- **The pipeline of `main.py`** (module `Pipeline`). The rows are cleaned
  (UNBOUND rows, excluded tcaIDs, missing values), then the start year is
  chosen. The year window and the 40-row guard come next, then the
  lateral-length window `[3500, max(20000, p97.5)]`. The detector runs on
  proppant, fluid and spacing, and rows are pruned by log-distance. The
  result is either the four-column min/max summary or the "Not enough
  data" outcome. Every filter is `Seqs.Filter`, which keeps rows in order,
  keeps each accepted row as often as it occurs, and is proved to yield a
  subsequence.

Numbers are Dafny `real`s and `int`s. Every floating-point statistic is a
parameter: the t-test, the quantiles, the robust fit, `log`, `norm.fit`,
the histogram R², `norm.ppf` and `chi2.ppf`. The model applies each one to
exactly the data the source passes it. A well row is a datatype whose cells
are `Option`s. `None` stands both for a missing cell and for a cell that
`pd.to_numeric(..., errors='coerce')` cannot parse.

Behaviour kept as the source has it:

- `main.py:91` discards the outlier list. Only the distances feed the
  prune, so rows flagged by the chi-squared test are not removed by that
  test (`ScoreAndSummarize`).
- `main.py:76` does not pass `min_year`, so the selection always uses the
  default 2016 (`YearWindow.DefaultMinYear`), whatever the minimum
  completion year of the request.
- The 40-row guard is checked once, before the lateral-length window. There
  is no second check after it.
- `dropna` also covers `API10`, so a row without a well id is dropped
  (`Pipeline.Complete`).
- A missing `BoundingAnyZoneAtDrill` or `tcaID` compares as "not UNBOUND"
  and "not excluded", so such a row is kept.
- With no rows left after cleaning, `max()` is NaN in the source. Every
  later comparison with it is false and the result is "Not enough data".
  The model returns `NotEnoughData` directly.

## Model

| member | source | states |
|---|---|---|
| YearWindow.YearSample | statistical_test.py:29-30 | the sample of a year holds exactly the non-missing values of the rows completed in that year, and is no longer than the frame |
| YearWindow.YearSampleCounts | statistical_test.py:29-30 | each value occurs in a year's sample exactly as many times as rows of that year carry it: no duplicate is dropped |
| YearWindow.YearWithoutValuesHasEmptySample | statistical_test.py:29-33 | a year none of whose rows has a value yields an empty sample |
| YearWindow.RowsInRange | statistical_test.py:50-56 | counting rows with `isin` over a list that holds exactly the years `[lo, hi]` equals counting the rows of that range |
| YearWindow.Earliest | statistical_test.py:59 | `min(similar_years)` is an accepted year and no accepted year is smaller |
| YearWindow.FindSimilarYearsCutoff | statistical_test.py:3-59 | both loops yield the spec function `Cutoff`; the accepted years are exactly `start, start-1, ..., cutoff`, contiguous and duplicate-free; the remaining rows are exactly those of `[cutoff, start]` |
| YearWindow.WalkAcceptsExactlySimilarYears | statistical_test.py:26-47 | every year the walk passes has two non-empty samples and a p-value strictly above 0.01; it stops at minYear-1 or at the first year that fails this; it never goes below minYear-1 |
| YearWindow.BackstopMeetsThreshold | statistical_test.py:53-56 | after the backstop the accepted years hold at least `threshold` rows, or the next candidate is below minYear; it never goes below minYear-1; and it stops at the first year that reaches the threshold: before each forced year was taken, the accepted years held fewer than `threshold` rows and that year was at least minYear |
| YearWindow.CutoffBounds | statistical_test.py:20-59 | the cutoff is at most start; it is at least minYear when start is; `[cutoff, start]` holds `threshold` rows unless cutoff reached minYear; for every `y` above the cutoff and at most one above the walk's end, `[y, start]` holds fewer than `threshold` rows, so no forced year was unnecessary |
| YearWindow.CutoffAcceptsSimilarYears | statistical_test.py:26-56 | every year between the end of the walk and start was accepted as similar; the backstop only adds years below the walk's end |
| YearWindow.WalkReachingThresholdNeedsNoBackstop | statistical_test.py:50-53 | when the walk's years already hold `threshold` rows, the backstop adds no year |
| YearWindow.DissimilarFirstCandidateKeepsStartYear | statistical_test.py:39-53 | when the first candidate is dissimilar or lacks data and the start year alone holds `threshold` rows, the result is the start year |
| YearWindow.NoStartDataStopsWalk | statistical_test.py:30-47 | with no value in the start year, the walk stops at the first candidate and accepts nothing |
| OutlierDetection.IndicesAbove | mahalanobis_outlier_detection.py:40-46 | an index is flagged iff it is within the distances and its distance strictly exceeds C; flags are strictly increasing and no more than the rows |
| OutlierDetection.Distances | mahalanobis_outlier_detection.py:33-37 | one distance per row, the i-th being the square root of the i-th row's quadratic form |
| OutlierDetection.FlagOutliers | mahalanobis_outlier_detection.py:40-46 | the loop builds exactly `IndicesAbove(md, C)` |
| OutlierDetection.DetectOutliersMahalanobis | mahalanobis_outlier_detection.py:6-48 | on rows of width `columns` (the frame's column count): fails iff the robust covariance is singular; otherwise returns the aligned distances unchanged and the indices above `sqrt(chi2.ppf(1 - alpha, columns))` |
| OutlierDetection.IndicesAboveAntitone | mahalanobis_outlier_detection.py:41-46 | a larger critical value flags a subsequence of the indices flagged by a smaller one |
| Pipeline.FinalPercentile | main.py:15-34 | the result lies in `[0.80, 0.95]` and equals R² clamped to that range, so it equals R² strictly inside it |
| Pipeline.FinalPercentileMonotone | main.py:25-34 | the percentile is non-decreasing in R² |
| Pipeline.HistogramBins | main.py:95-96 | the bin count lies in `[10, 30]` and equals `n // 6` whenever that lies in the range, 10 below it and 30 above it |
| Pipeline.CleanRows | main.py:52-65 | a row survives cleaning iff it is in the input, complete in the six dropna columns, not UNBOUND and not excluded; each surviving row occurs as often as in the input; the result is a subsequence of the input |
| Pipeline.MaxYear | main.py:70 | the latest completion year is some row's year and no row's year exceeds it |
| Pipeline.StartYear | main.py:70-74 | the start year is the latest year iff that year holds at least `threshold` rows, and the year before it otherwise |
| Pipeline.InYearRange | main.py:79 | a row is kept iff its year lies in `[lo, hi]`, as often as it occurs in the input; the result is a subsequence |
| Pipeline.InYearRangeCountsWindow | main.py:79 | the rows kept by the year filter are as many as the year-window selection counts for the same range |
| Pipeline.LateralCap | main.py:85 | the upper lateral bound is at least 20000 and at least the 97.5th percentile, and equals one of them |
| Pipeline.LateralWindow | main.py:84-88 | a row is kept iff its lateral length lies in `[3500, cap]`, as often as it occurs in the input; the result is a subsequence |
| Pipeline.LateralKept | main.py:84-88 | the rows after the lateral-length window are complete rows of the year-windowed frame |
| Pipeline.Attach | main.py:92 | the i-th distance goes with the i-th row, and every scored row is an input row |
| Pipeline.LogDistanceThreshold | main.py:94-112 | the threshold is `norm.ppf` at R² clamped to `[0.80, 0.95]`, of the normal fitted to the log-distances, R² being taken against their histogram in `HistogramBins(n)` bins |
| Pipeline.PruneByLogDistance | main.py:115 | a row is kept iff its log-distance is strictly below the threshold, as often as it occurs in the scored rows; the result is a subsequence |
| Pipeline.ColumnBounds | main.py:119 | min and max of a column over a non-empty frame: both attained, enclosing every value, `min <= max` |
| Pipeline.Summarize | main.py:117-121 | the summary has exactly the four columns proppant, fluid, spacing and completion year (lateral length is not summarised), each with bounds `min <= max` that are attained in and enclose that column's values over the final rows |
| Pipeline.FinalRows | main.py:83-115 | every final row is a complete row of the year-windowed frame |
| Pipeline.FinalRowsExactly | main.py:91-115 | with an invertible covariance, a scored row survives exactly as often as it occurs in the lateral window with log-distance below the fitted threshold, and the final rows keep their order |
| Pipeline.StagesOutcome | main.py:83-123 | a singular covariance iff the detector fails; a summary iff some row survives the prune, and then it is the summary of exactly those rows; "Not enough data" otherwise |
| Pipeline.ScoreAndSummarize | main.py:83-123 | the method returns `StagesOutcome` and its final rows are `FinalRows` |
| Pipeline.PrepareDataAndCalculateMetrics | main.py:36-125 | every final row is an input row that survives cleaning; with no clean rows, or fewer than 40 rows in `[cutoff, start]`, the result is "Not enough data"; otherwise the result is `StagesOutcome` of the rows in `[cutoff, start]` and the final rows are `FinalRows` of them; a summary is returned iff the final rows are non-empty |

## Left out

- Retrieval (`data_downloader.py`, `data_downloader_postgress.py`): SQL queries, connections and `toPandas` are I/O. The retrieved rows are the input `raw`. The producing-well, basin, flow-unit and minimum-completion-year filters of the query are therefore not modelled.
- The `dbutils` widget and secret globals (`main.py:11-13`): environment configuration.
- Floating-point statistics are parameters, not computed: `ttest_ind`, the 25th-percentile threshold over per-year counts, the 97.5th lateral-length percentile, `np.cov`, the seeded `multivariate_normal` sample, `MinCovDet`, `sp.linalg.inv`, the quadratic form, `chi2.ppf`, `np.histogram`, `norm.fit`, `norm.pdf`, `r2_score`, `norm.ppf` and `np.log`.
- Failures of the numerical library other than a singular covariance are not modelled, for example a fit on a frame that the lateral-length window left empty. The parameters are total functions.
- The unused `sse` and `log_likelihood` (`main.py:106`, `main.py:108`).
- Pandas coercion internals: the column-by-column `to_numeric` rewrite (`main.py:61-62`) is the identity on the model's rows, because an unparseable cell is already `None`.
- Pipeline.FinalPercentile: computed over exact reals, so the interpolation equals R² exactly. In floating point `0.80 + 1.0 * (r2 - 0.80)` may differ from R² in the last bit.
- The compared column of the year-window selection is one of the five numeric columns. A non-numeric column name is not modelled.
- Completion years are integers. A fractional year that `to_numeric` could produce is outside the model.
- Pandas row labels are not modelled. Rows are identified by their position and their values.
- The summary dictionary is keyed by `Column`, not by the column's name string. `ColumnName` gives the key the source uses, and the five names are distinct.
