# Rental-delay analysis, modelled in Dafny

The dashboard reads a table of car rentals, one row per rental. It
summarises how late drivers return their cars, and asks what a minimum
delay between two consecutive rentals of the same car would cost and solve.
This project models the aggregation logic of `streamlit_app.py`:

- the on-time and late shares;
- the share of rentals that follow another rental ("concerned" rentals);
- the problematic cases: a positive planned gap to the previous rental and
  a late checkout;
- the threshold sweep over the intervals `[30, 60, 120, 240, 600, 720]`
  minutes, for the whole table and for the `connect` and `mobile`
  check-in partitions (`calculate_percentages`).

Layout:

- `wrappers.dfy` (`Wrappers`): `Option`. A `None` cell is a missing
  (NaN) spreadsheet cell.
- `counting.dfy` (`Counting`): `Count`, the `(mask).sum()` of pandas, and
  `Where`, the row selection `df[mask]`. Also generic lemmas about them.
- `rentals.dfy` (`Rentals`): the `Rental` row and the boolean masks. Every
  comparison with a missing cell is false, as in pandas.
- `statistics.dfy` (`Statistics`): exact percentages and the scalar
  statistics of the dashboard.
- `sweep.dfy` (`Sweep`): the partitions, the per-interval series and the
  sweep loops.

Percentages are exact rationals (`real`), `100 * count / total`. Every
share has a partner property: bounds, the extreme cases as an
if-and-only-if, additivity across a partition of the rows, or monotonicity
in the interval.

## Model

| member | source | states |
|---|---|---|
| Counting.Count | streamlit_app.py:216 | a mask's sum counts at most all rows |
| Counting.CountExtremes | streamlit_app.py:216 | a mask's sum is the row count exactly when the mask holds on every row, and 0 exactly when it holds on none |
| Counting.Where | streamlit_app.py:572-573 | the row selection `df[mask]` has as many rows as the mask's sum, and the mask holds on each of them |
| Counting.WhereMembers | streamlit_app.py:572-573 | the selection `df[mask]` contains exactly the rows of the table on which the mask holds |
| Counting.CountWhere | streamlit_app.py:572-573 | counting a mask inside a selection counts the conjunction of both masks over the whole table |
| Counting.CountSplit | streamlit_app.py:572-573 | two disjoint masks count, together, the rows of their disjunction |
| Rentals.WithinIntervalMeansProblematic | streamlit_app.py:517-519 | a row is within an interval exactly when it is problematic and its gap is at most the interval |
| Rentals.UnqualifiedNeverCounted | streamlit_app.py:216 | a row whose gap or delay is missing or not positive is neither problematic nor within any interval |
| Rentals.DelayMasksPartition | streamlit_app.py:64-73 | exactly one of on time, late and missing delay holds on each row |
| Statistics.Percent | streamlit_app.py:520 | a share of a positive total is non-negative, and at most 100 when the count does not exceed the total |
| Statistics.PercentExtremes | streamlit_app.py:520 | a share is 100 exactly when the count is the total, and 0 exactly when the count is 0 |
| Statistics.DriversOnTime | streamlit_app.py:64 | the on-time share lies in [0, 100] and is 100 exactly when every delay is known and not positive |
| Statistics.PercentageDriversLate | streamlit_app.py:73 | the late share lies in [0, 100] and is 0 exactly when no delay is known and positive |
| Statistics.OnTimeLateCounts | streamlit_app.py:64-73 | on-time and late drivers together are at most all rows, and all of them exactly when no delay is missing |
| Statistics.MissingDelayCount | streamlit_app.py:64-73 | on-time, late and missing-delay rows add up to the row count |
| Statistics.OnTimeLateShares | streamlit_app.py:64-75 | the on-time and late shares add up to at most 100, and to exactly 100 exactly when no delay is missing |
| Statistics.MissingDelayShare | streamlit_app.py:64-73 | the on-time, late and missing-delay shares add up to 100 |
| Statistics.StatedSharesImplyMissingDelays | streamlit_app.py:116-119 | if the on-time share is 32.5 and the late share 44, then 23.5 percent of rows have a missing delay, so such a row exists |
| Statistics.PercentageRentalsAffected | streamlit_app.py:163-164 | the share of rentals with a previous rental lies in [0, 100], and is 0 exactly when no row has a previous rental id |
| Statistics.ProblematicAreConcerned | streamlit_app.py:216 | when every row with a positive gap has a previous rental id, the problematic cases are at most the concerned rentals |
| Statistics.PercentageProbCases | streamlit_app.py:219 | the problematic share of rows lies in [0, 100] |
| Statistics.NonProbCases | streamlit_app.py:221 | the non-problematic count is the number of rows on which the problematic mask fails, between 0 and the row count |
| Statistics.PercentageNonProbCases | streamlit_app.py:222 | `100 -` the problematic share is the share of non-problematic rows, and the two shares add up to 100 |
| Statistics.NumCasesWithin | streamlit_app.py:517-519 | the cases within an interval are at most the problematic cases |
| Statistics.NumCasesWithinMonotone | streamlit_app.py:516-519 | a wider interval counts at least as many cases |
| Statistics.Saturation | streamlit_app.py:565 | once every positive gap is at most the interval, the count within it equals the problematic cases; conversely, that equality means every problematic row's gap is at most the interval |
| Statistics.UnqualifiedRowsChangeNothing | streamlit_app.py:216-219 | appending rows that are not problematic leaves the problematic count and every interval count unchanged |
| Sweep.Partition | streamlit_app.py:572-573 | a check-in partition has as many rows as the table has rows of that check-in type, at most the table's rows, each of that type |
| Sweep.PartitionMembers | streamlit_app.py:572-573 | a row is in a check-in partition exactly when it is a row of the table with that check-in type |
| Sweep.PartitionBounded | streamlit_app.py:618-620 | a partition has no more problematic cases, nor cases within any interval, than the table |
| Sweep.PartitionAdditivity | streamlit_app.py:572-573 | when every row is `mobile` or `connect`, the partitions' rows, problematic cases and cases within any interval add up to the table's |
| Sweep.SeriesMonotone | streamlit_app.py:616-624 | over ascending intervals a share series never decreases |
| Sweep.SeriesRescale | streamlit_app.py:623-627 | the share over the rows times the row count equals the share over `prob_cases` times `prob_cases` |
| Sweep.SeriesBounded | streamlit_app.py:623 | a series over a total at least the table's problematic cases stays in [0, 100] |
| Sweep.CalculatePercentages | streamlit_app.py:612-630 | both returned series have one entry per interval: the cases within it over `prob_cases` and over the rows; both are non-decreasing over ascending intervals; the first is in [0, 100] when `prob_cases` covers the table's problematic cases |
| Sweep.AllCarsSweep | streamlit_app.py:511-524 | per interval: the count, its share of problematic cases and its share of rows; count at most the problematic cases; 100 percent once every positive gap fits in the interval; all three series non-decreasing over ascending intervals |
| Sweep.CheckinSweep | streamlit_app.py:634-635 | the four series of the two partitions, each over the whole table's `prob_cases` or over the partition's own rows; the first two lie in [0, 100], and when every row is `mobile` or `connect` they add up to the whole-table share |
| Sweep.CheckinSeriesAdd | streamlit_app.py:634-635 | at every interval, the connect and mobile shares of `prob_cases` add up to the whole-table share |
| Sweep.PartitionShares | streamlit_app.py:623 | at one interval, the two partitions' shares of the table's problematic cases add up to the table's share |
| Sweep.PartitionRowShares | streamlit_app.py:627 | at one interval, the partitions' shares of their own rows, weighted by their sizes, add up to the table's share of rows weighted by the row count |
| Sweep.TimeIntervalsIncreasing | streamlit_app.py:511 | the sweep's intervals are strictly increasing |
| Sweep.FourRowScenario | streamlit_app.py:511-519 | on a four-row table with one late, chained rental at gap 5, the on-time share is 50, and one problematic case is counted both within 30 and within 720 minutes |

## Left out

- Page layout, headings, markdown text, Plotly charts and the `st.write`
  output are presentation only.
- `load_data` is left out: the S3 download, the Excel parsing and the
  Streamlit cache are I/O. The table is a parameter.
- `df.describe()` and the `value_counts` of the check-in types feed
  displays only.
- The hand-unrolled per-interval blocks of the check-in section
  (`streamlit_app.py:257-431`) are left out. They repeat the sweep mask
  for display.
- Lines 318-319 and 332-333 combine a `df` mask with a `df_connect` mask.
  Pandas aligns the two on the index, so the count is the one the connect
  partition gives.
- Of those blocks, `Sweep.CheckinSweep` reproduces only the shares of
  `prob_cases`. Their over-total shares divide by the whole table's
  `df.shape[0]` for mobile at every interval (lines 356, 371, 386, 401,
  416, 430) and for connect at 600 and 720 minutes (lines 327, 340),
  whereas `calculate_percentages` divides by the partition's own rows.
- Floating-point rounding and the `:.2f` formatting are left out: shares
  are exact rationals.
- Division by zero is left out. Every division in the source is unguarded,
  and numpy would give `inf` or `nan` on an empty table, an empty
  partition, or a table with no problematic case. The model requires the
  denominator to be positive instead.
- The `dataset_name` argument of `calculate_percentages` is never used, so
  `Sweep.CalculatePercentages` has no such parameter.
- A missing `checkin_type` is a value equal to neither label, so such a
  row falls in neither partition. `Sweep.PartitionAdditivity` and the
  additivity clause of `Sweep.CheckinSweep` assume every row is `mobile`
  or `connect`.
- The code raises no error of its own on an empty table or a missing
  column. Neither is modelled: a missing column is a pandas `KeyError`,
  and an empty table is excluded by the positive-denominator requirement
  above.
- Sweep.CheckinSweep: the contract links the partitions' shares of their
  own rows only through `IsShareSeries`. The weighted-sum identity across
  partitions is stated separately, in `Sweep.PartitionRowShares`.
- Sweep.CalculatePercentages: the contract does not restate the relation
  between its two series. `Sweep.SeriesRescale` states it.
- Sweep.AllCarsSweep: the remark at line 565, that 720 minutes covers
  every case, is a property of the shipped data. It is stated under the
  hypothesis `GapsAtMost(df, interval)` and is not proved for every table.

Three facts about the code that the model follows:

- a rental is "concerned" when its `previous_ended_rental_id` is present
  (line 163), whatever its gap. The text at line 197 describes these as
  rentals preceded by another one within 12 hours, which the count does
  not check;
- the on-time and late shares need not add up to 100: rows with a
  missing delay fall in neither (`Statistics.MissingDelayShare`);
- `calculate_percentages` is called with the whole table's `prob_cases`
  for both partitions (lines 634-635), so each partition's shares are of
  all problematic cases, not of its own.
