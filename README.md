# Streamflow metrics of a daily discharge record

This project models the statistics core of `program_10.py`. The program reads a
USGS daily discharge record for one gauging station and clips it to an analysis
window. It then computes descriptive statistics and hydrologic metrics for each
water year (starting October 1) and for each calendar month. Finally it averages
those tables: over all water years, and for each month of the year over all years.

The model is written over exact arithmetic:

- Discharges are `real` and dates are `(year, month, day)` triples.
- A missing discharge, and a statistic that is not a number, are both `None`.
  Examples of the latter are the mean of nothing and a ratio whose denominator
  is zero.
- The per-period metrics are pure functions of the period's discharges:
  - Tqmean;
  - the Richards-Baker flashiness index;
  - the seven-day low flow;
  - the count of days above three times the median.

  Each metric first drops the missing values.
- The annual and monthly tables are pure functions of the record.
- The median of an even number of values is the mean of the two middle
  values, as pandas computes it.
- The monthly averages are built imperatively, as the program builds them. A
  preallocated 12-row table starts filled with zeros and is filled one row at a
  time.

Modules, one per file:

- `Optional` (`optional.dfy`): absent values and `Present`, the "drop missing
  values" step.
- `Numeric` (`numeric.dfy`): sums, means, extrema, counts, an insertion sort, the
  median and the path length. Each comes with its lemmas.
- `Series` (`series.dfy`): dates, observations and `ClipData`.
- `Metrics` (`metrics.dfy`): the column statistics and the four flow metrics.
- `Periods` (`periods.dfy`): the water-year and month partition, and the annual
  and monthly statistics tables.
- `Averages` (`averages.dfy`): `GetAnnualAverages` and `GetMonthlyAverages`.

## Model

| member | source | states |
|---|---|---|
| Optional.Present | program_10.py:61 | dropping missing values never lengthens the series |
| Optional.PresentMembers | program_10.py:61 | every kept value was a present entry, and every present entry is kept |
| Optional.CountAbsent | program_10.py:50 | the number of missing entries never exceeds the length of the series |
| Optional.AbsentPlusPresent | program_10.py:50 | the number of missing entries plus the number of present ones is the length of the series |
| Series.ClipData | program_10.py:43-52 | the clipped record holds exactly the observations dated within the window, both ends included; the count it returns is the number of missing discharges among them |
| Series.ClipIsSubsequence | program_10.py:48 | clipping keeps the record order |
| Series.ClipIdempotent | program_10.py:48 | clipping a clipped record to the same window changes nothing |
| Series.ClipIsContiguous | program_10.py:48 | on a chronological record the clip is one contiguous run of rows, as label slicing on a date index is |
| Metrics.MeanSkipNa | program_10.py:126 | the mean of the present entries, undefined when none is present; its contract is stated by `MeanSkipNaBounds` |
| Metrics.MeanSkipNaBounds | program_10.py:126 | the mean flow of a period is undefined exactly when no discharge is present, and otherwise lies between the lowest and highest discharge |
| Metrics.PeakFlow | program_10.py:127 | the peak flow is undefined exactly when no discharge is present; otherwise it is one of the discharges and no discharge exceeds it |
| Metrics.MedianFlow | program_10.py:128 | the median flow is undefined exactly when no discharge is present, and otherwise lies between the lowest and highest discharge |
| Numeric.Median | program_10.py:128 | the middle value of the sorted values, or the mean of the two middle values when their number is even; its properties are stated by `SortSpec`, `MedianBounds` and `AtMostHalfAboveMedian` |
| Numeric.SortSpec | program_10.py:128 | the sort behind the median yields a sorted permutation of its input |
| Numeric.MedianBounds | program_10.py:128 | the median lies between the smallest and largest value |
| Numeric.AtMostHalfAboveMedian | program_10.py:104 | at most half of the values lie strictly above the median |
| Metrics.SampleVariance | program_10.py:129 | the variance under the Coeff Var column is undefined exactly when fewer than two discharges are present, and is never negative |
| Metrics.SteadyFlowHasNoVariance | program_10.py:129 | a steady flow has zero variance |
| Metrics.CalcTqmean | program_10.py:54-65 | Tqmean is undefined exactly when no discharge is present; otherwise it is a fraction in [0, 1), strictly below 1 because the lowest flow never exceeds the mean |
| Metrics.CalcRBindex | program_10.py:67-81 | the R-B index is undefined exactly when the present discharges sum to zero, and otherwise is the path length of the present discharges over their total |
| Metrics.RBNumeratorIsPathLength | program_10.py:77-78 | the summed absolute differences of consecutive present discharges are the path length of the series |
| Metrics.RBIndexScaleInvariant | program_10.py:76-80 | the R-B index does not change when every discharge is multiplied by the same positive factor, so it does not depend on the unit of flow |
| Metrics.RBIndexBounds | program_10.py:76-80 | for non-negative discharges, a defined R-B index lies in [0, 2] |
| Metrics.RBIndexZeroIffSteady | program_10.py:76-80 | when the total flow is not zero, the R-B index is zero exactly when the flow is steady |
| Metrics.RollingMean | program_10.py:93 | the rolling mean has one entry per value, undefined exactly in the first `w - 1` positions, before a full window has been seen |
| Metrics.RollingMeansAreWindows | program_10.py:93 | the defined 7-day rolling means are exactly the means of the windows of seven consecutive present values, in order |
| Metrics.Calc7Q | program_10.py:83-94 | 7Q is undefined exactly when fewer than seven discharges are present |
| Metrics.SevenQIsLowestWindow | program_10.py:91-93 | 7Q is the mean of some window of seven consecutive present values, and no window has a lower mean |
| Metrics.SevenQBounds | program_10.py:91-93 | 7Q lies between the lowest and highest discharge |
| Metrics.CalcExceed3TimesMedian | program_10.py:96-105 | the count of days above three times the median never exceeds the number of present discharges |
| Metrics.Exceed3TimesMedianAtMostHalf | program_10.py:103-104 | for non-negative discharges, at most half of the days flow above three times the median |
| Metrics.RatiosDependOnPresentOnly | program_10.py:61 | two series with the same present values, in the same order, have the same Tqmean and R-B index |
| Metrics.LowAndHighFlowDependOnPresentOnly | program_10.py:91-104 | two series with the same present values, in the same order, have the same 7Q and exceedance count |
| Metrics.MetricsIgnoreAbsent | program_10.py:54-105 | Tqmean, the R-B index, 7Q and the exceedance count of a series equal those of its present values alone |
| Periods.PeriodOf | program_10.py:116 | the key of the period holding a date: the year in which its water year starts, or a running month number; its properties are stated by the lemmas below |
| Periods.PeriodStart | program_10.py:116 | the first day of a period, the label of its row; `PeriodStartRoundTrip` and `PeriodBounds` relate it to `PeriodOf` |
| Periods.PeriodStartRoundTrip | program_10.py:116 | every water year and month starts on a valid date that lies in that period |
| Periods.PeriodBounds | program_10.py:116 | a date lies in period `k` exactly when it falls on or after the start of `k` and before the start of `k + 1` |
| Periods.PeriodOfMonotone | program_10.py:116 | a later valid date never falls in an earlier period |
| Periods.PeriodStartIncreasing | program_10.py:116 | later periods start later |
| Periods.MonthSuccessor | program_10.py:146-147 | consecutive month keys start on consecutive first days of months |
| Periods.Members | program_10.py:116 | the observations of one period, in record order; its contract is stated by `MembersSpec`, `MembersKeepOrder` and `MembersAreContiguous` |
| Periods.MembersSpec | program_10.py:116 | a period's group holds exactly the observations dated within it |
| Periods.MembersKeepOrder | program_10.py:116 | a period's group keeps record order: it is a subsequence of the record |
| Periods.MembersAreContiguous | program_10.py:116 | on a chronological record of valid dates, a period's group is one contiguous run of rows, as binning a date-sorted index gives |
| Periods.MinSite | program_10.py:125 | a period's site number is absent exactly when the group is empty; otherwise it is the smallest site number in the group |
| Periods.Span | program_10.py:116 | the table's period keys run without gaps from the earliest to the latest period that holds an observation |
| Periods.AnnualRowOf | program_10.py:125-134 | the row of one water year: its start date, minimum site number, mean, peak and median flow, Tqmean, R-B index, 7Q and exceedance count over that year's observations; `AnnualRowIsLocal` and `AnnualRowSite` state its properties |
| Periods.MonthlyRowOf | program_10.py:151-155 | the row of one month: its start date, minimum site number, mean flow, Tqmean and R-B index over that month's observations; `MonthlyRowIsLocal` and `MonthlyRowSite` state its properties |
| Periods.GetAnnualStatistics | program_10.py:107-137 | one row per water year of the span; the table is empty exactly when the record is |
| Periods.GetMonthlyStatistics | program_10.py:139-157 | one row per month of the span; the table is empty exactly when the record is |
| Periods.AnnualRowsAreWaterYears | program_10.py:116 | annual rows are labelled October 1 of consecutive years |
| Periods.MonthlyRowStart | program_10.py:146-147 | monthly row `i` is labelled with the first day of the `i`-th month after the record's first month |
| Periods.MonthlyRowsAreMonths | program_10.py:146-147 | monthly rows are labelled with the first days of consecutive months |
| Periods.SpanCovers | program_10.py:116 | every observation falls in the period of some row |
| Periods.MembersIdempotent | program_10.py:116 | grouping a group again changes nothing |
| Periods.AnnualRowIsLocal | program_10.py:125-134 | an annual row depends only on the observations of its own water year |
| Periods.MonthlyRowIsLocal | program_10.py:151-155 | a monthly row depends only on the observations of its own month |
| Periods.AnnualRowSite | program_10.py:125 | an annual row's site number is absent exactly when no observation falls in its water year; otherwise it is the minimum site number of those observations |
| Periods.MonthlyRowSite | program_10.py:151 | the same for a monthly row and its month |
| Periods.TablePartitionsRecord | program_10.py:116 | the sizes of the groups over the table's periods add up to the length of the record, so each observation is counted in exactly one row |
| Averages.GetAnnualAverages | program_10.py:159-164 | every column average is undefined exactly when the column has no defined entry, and otherwise lies between the column's lowest and highest entry |
| Averages.MeanOfConstant | program_10.py:163 | a column whose defined entries all equal `x` averages to `x` |
| Averages.AnnualAveragesOfOneYear | program_10.py:163 | the averages of a one-year table are that year's values |
| Averages.ExceedAverageDefined | program_10.py:159-164 | the average count of high-flow days is defined and non-negative for any non-empty table |
| Averages.Stride | program_10.py:179-183 | the `[off::12]` slice of a column; its contract is stated by `StrideSpec` |
| Averages.StrideSpec | program_10.py:179-183 | the `[off::12]` slice holds entries `off`, `off + 12`, ... to the end, and nothing else |
| Averages.StridesCoverColumn | program_10.py:172-183 | each entry of a monthly column falls in the slice of exactly one row of the result |
| Averages.MonthlyAverage | program_10.py:179-183 | the skip-missing mean of the slice that feeds cell (i, c); its contract is stated by `MonthlyAverageIsMean` |
| Averages.MonthlyAverageIsMean | program_10.py:179-183 | each monthly average is undefined exactly when its slice has no defined entry, and otherwise lies between the slice's extremes |
| Averages.GetMonthlyAverages | program_10.py:166-183 | the result is a 12-by-4 table. Cell (i, c) is the mean of the `[off::12]` slice of column c. The offset is the i-th entry of `[3, 4, ..., 11, 0, 1, 2]`, except in the site-number column, which always uses offset 0, so all rows share one site average; the table is newly allocated |
| Averages.MonthlyAveragesFollowTheCalendar | program_10.py:172-183 | for a monthly table starting in October, result row `i` averages exactly the rows of calendar month `i + 1`: every row of its slice is in that month, and every row of that month lies in its slice |

## Left out

- `ReadData` (program_10.py:17-41) and the `__main__` block: file reading, parsing, printing and CSV output. The model starts from a sequence of observations that is already parsed.
- The `agency_cd` and `Quality` fields of the record. The core never reads them.
- The Coeff Var column (standard deviation over mean, times 100) needs a square root. It is left out of both tables and of the averages. `SampleVariance` models the variance under it.
- The Skew column calls into scipy and is left out.
- IEEE floating point: rounding, NaN propagation and infinities. A zero total in the R-B index gives NaN or ±inf in the program. In the model it gives `None`.
- Resampling: bins are labelled by their start date and span the earliest to the latest period that holds an observation. Empty bins get the statistics of an empty series. In particular, the exceedance count of an empty period is 0, as the program computes it.
- Grouping keeps record order, whereas resampling bins the rows in date order. The two agree on a chronological record (`MembersAreContiguous`). On an unsorted record, the R-B index and 7Q of the model follow record order.
- Metrics.SteadyFlowHasNoVariance: only steady ⇒ zero variance is proved. The converse needs nonlinear real arithmetic that the solver does not settle.
- Averages.GetMonthlyAverages: the result has four columns (site number, mean flow, Tqmean, R-B index) where the program's table has five, because Coeff Var is left out. Columns are indexed 0 to 3 instead of 0 to 4.
