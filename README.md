# Loan defaulters data loading and cleaning, modelled in Dafny

The analysis dashboard reads two CSV tables of a consumer-lending data set:

- the current loan applications, one row per applicant, identified by `SK_ID_CURR`;
- the previous loan applications of those applicants.

`load_and_clean_data` (`data_processor.py`) returns three data frames: the cleaned applications, the cleaned previous applications, and their inner join on `SK_ID_CURR`. This project models that function and proves what it guarantees.

The function works in stages.

1. **Load.** Both sources are read. If either read raises, the function returns `(None, None, None)`.
2. **Prune.** Every column with at least 40% missing cells is dropped. For the previous applications, four administrative columns are dropped as well.
3. **Impute.** Named columns have their missing cells filled:
   - with the most frequent value (`mode()[0]`);
   - with the mean or the median of the present numbers;
   - or, for the payment count, with the constant 0.
4. **Normalise.** Every applications column whose name starts with `DAYS` holds day offsets counted backwards. Each is replaced by its absolute values.
5. **Derive.** Three amount columns are cut into labelled ranges with `pd.cut`.
6. **Join.** The two cleaned tables are merged with an inner join on `SK_ID_CURR`.

An exception inside stages 2–6 is not caught. The model represents it as a `Failure(Fault)`:

- `ModeOfEmptyColumn`: `mode()[0]` on a column without values.
- `NonNumericColumn`: mean, median, `abs` or `pd.cut` over text.
- `MissingJoinKey`: the merge key is absent on one side.

How the model is built:

- **Cells and tables.** A cell is `Option<Value>`; `None` is pandas' NaN. A data frame is the `Table` value: ordered column names, a map from name to column, and a row count.
- **Pure specification.** Each stage is a pure function (`PruneApplications`, `ImputeAll`, `NormaliseDays`, `DeriveRanges`, `Merge`). They compose into `CleanApplications`, `CleanPrevious` and `LoadAndClean`.
- **In-place execution.** The code updates `app_cleaned` and `prev_app_cleaned` in place, statement by statement. That is modelled by the `Frames.Frame` class, whose methods are proved to compute exactly the pure stages. The entry point as executed is `Pipeline.LoadAndCleanData`, proved equal to `LoadAndClean`.

## Model

| member | source | states |
|---|---|---|
| Tables.Assign | data_processor.py:28 | `df[c] = col` replaces column `c` or appends it last; every other column, the order of the names and the row count are unchanged |
| Tables.Drop | data_processor.py:23 | dropping labels removes exactly those columns, keeps every other column's cells, keeps the remaining names in their original order, and keeps the rows |
| Tables.WithoutKeepsOrder | data_processor.py:23 | the names left after a drop appear in the order they had before |
| Tables.FillNa | data_processor.py:28 | `fillna(v)` leaves no missing cell: present cells are kept and every missing cell becomes `v` |
| Pruning.MostlyMissingShare | data_processor.py:19-22 | the 40% test in integers (`100 * nulls >= 40 * rows`) is exactly the code's `null_count / rows * 100 >= 40`, and is false for a table without rows |
| Pruning.MissingColumns | data_processor.py:17-22 | the list of dropped columns holds exactly the columns with at least 40% missing cells (none for a table without rows, where the percentage is NaN) |
| Pruning.PruneApplications | data_processor.py:17-23 | a column survives exactly when less than 40% of its cells are missing; survivors keep their cells and order and no row is lost |
| Pruning.PresentOnly | data_processor.py:64 | keeps exactly the listed names that are columns of the table |
| Pruning.PrunePrevious | data_processor.py:60-65 | a column survives exactly when it is not mostly missing and not one of the four administrative columns; survivors are unchanged and in order |
| Pruning.SurvivorHasValue | data_processor.py:22-23 | a column that survives pruning of a table with rows has a present cell |
| Statistics.Numbers | data_processor.py:34 | the present numbers of a column: one per non-missing cell, and exactly the values present |
| Statistics.NumbersCount | data_processor.py:34-36 | each number occurs among the present numbers as often as it occurs in the column, so the mean and the median see every present value with its repetitions |
| Statistics.Mode | data_processor.py:28 | `mode()[0]` is missing exactly when the column has no value, and otherwise is one of its values |
| Statistics.ModeIsSmallestMostFrequent | data_processor.py:28 | the mode occurs at least as often as any present value and, among equally frequent values, is the smallest in pandas' order |
| Cells.ValueLeTotal | data_processor.py:28 | the order in which pandas lists equally frequent modes relates every pair of values |
| Cells.ValueLeAntisymmetric | data_processor.py:28 | two values each at most the other are equal, so the first mode is unique |
| Cells.ValueLeTransitive | data_processor.py:28 | the mode order is transitive |
| Statistics.Mean | data_processor.py:34 | the mean used as the annuity fill lies between the smallest and the largest present value |
| Statistics.Sort | data_processor.py:36 | the values the median is taken from are sorted and as many as the input |
| Statistics.SortPermutes | data_processor.py:36 | sorting reorders the values without adding or losing any |
| Statistics.Median | data_processor.py:36 | the median used as a fill has at least half of the values at most it and at least half at least it |
| Imputation.FillValue | data_processor.py:28-36 | the fill value raises exactly for the mode of a column without values (KeyError) or the mean or median of a column holding text (TypeError); a NaN fill happens only for a column without values |
| Imputation.SurvivorFillValue | data_processor.py:27-36 | on a column that survived pruning, the fill value is computed exactly when the table has rows (mode), always (constant), or the column is numeric (mean, median) |
| Imputation.Impute | data_processor.py:27-28 | a fill statement skips an absent column; otherwise it keeps present cells, writes the fill value into missing ones, leaves no missing cell in a column that had a value, and changes no other column |
| Imputation.ImputeAll | data_processor.py:26-36 | the fill statements run in order, stopping at the first that raises; a successful run keeps the table well formed with the same column names, in order, and the same rows |
| Imputation.ImputeAllOutcome | data_processor.py:26-36 | a sequence of fill statements succeeds exactly when every named column that is present has a computable fill value |
| Imputation.ImputeAllNamed | data_processor.py:26-36 | each named, present column ends up filled from its original cells by its own rule |
| Imputation.ImputeAllUnnamed | data_processor.py:26-36 | a column no statement names keeps its cells |
| Imputation.ImputeAllFault | data_processor.py:26-36 | a raising sequence raises at a statement whose column is present and whose fill value raises that fault |
| Imputation.ImputeAllModeFault | data_processor.py:27-32 | an empty-mode fault comes from a mode statement on a present column with no value |
| Imputation.ImputeAllFailureStays | data_processor.py:26-36 | after a statement has raised, the later statements change nothing in the outcome |
| Imputation.FilledKeepsNumeric | data_processor.py:34-36 | filling a numeric column with its mean or median leaves it numeric |
| Frames.Frame.Copy | data_processor.py:26 | `copy()` gives a frame holding exactly the pruned table |
| Frames.Frame.SetColumn | data_processor.py:28 | the in-place column assignment has exactly the effect of `Tables.Assign` |
| Frames.Frame.ImputeColumn | data_processor.py:27-28 | the in-place fill statement gives exactly the outcome of `Imputation.Impute` |
| Frames.Frame.ImputeColumns | data_processor.py:26-36 | running the fill statements in place, in order and stopping at the first exception, gives exactly the outcome of `Imputation.ImputeAll` |
| DayOffsets.DaysColumns | data_processor.py:39 | exactly the columns whose name starts with `DAYS` |
| DayOffsets.DaysColumnsDistinct | data_processor.py:39 | the `DAYS` columns are listed once each |
| DayOffsets.AbsCell | data_processor.py:41 | `abs` keeps a cell missing or present; a number becomes non-negative with the same magnitude |
| DayOffsets.AbsColumn | data_processor.py:41 | `abs` of a column has the same length and each cell is the absolute value of the cell in the same row |
| DayOffsets.AbsColumnIdempotent | data_processor.py:41 | taking absolute values twice is taking them once |
| DayOffsets.AbsColumns | data_processor.py:40-41 | the loop over the listed columns keeps the table well formed, with the same names and rows; when it raises, it raises TypeError |
| DayOffsets.AbsColumnsSpec | data_processor.py:40-41 | the loop succeeds exactly when every listed column is numeric; it then replaces each listed column by its absolute values and leaves the others alone |
| DayOffsets.NormaliseDays | data_processor.py:39-41 | the loop over the `DAYS` columns in column order keeps the table well formed, with the same names and rows; when it raises, it raises TypeError |
| DayOffsets.NormaliseDaysSpec | data_processor.py:39-41 | normalisation succeeds exactly when every `DAYS` column is numeric; it then makes them absolute and leaves every other column as it was |
| DayOffsets.NormaliseDaysNonNegative | data_processor.py:38-41 | after normalisation every present `DAYS` cell is a number at least 0 |
| DayOffsets.NormaliseDaysIdempotent | data_processor.py:38-41 | normalising a normalised table succeeds and changes nothing |
| Frames.Frame.NormaliseDayOffsets | data_processor.py:39-41 | the in-place loop over the `DAYS` columns gives exactly the outcome of `DayOffsets.NormaliseDays` |
| Binning.AscendingAt | data_processor.py:45 | in ascending bin edges each edge is below every later one |
| Binning.Below | data_processor.py:47 | the number of edges strictly below a value, bounded by the edge count |
| Binning.Bucket | data_processor.py:47 | `pd.cut` gives no range at or below the lowest edge, and otherwise a range `(e_i, e_{i+1}]` holding the value (the top range is open) |
| Binning.BucketIsTheRange | data_processor.py:47 | with ascending edges the right-closed range holding a value is the only one `pd.cut` can pick |
| Binning.BucketMonotone | data_processor.py:47 | a larger value never gets a lower range |
| Binning.GoodsPriceRangeOf | data_processor.py:44-47 | a goods price gets no range exactly when it is at most 0, otherwise the labelled range whose interval holds it |
| Binning.GoodsPriceBoundaries | data_processor.py:45-47 | 100000 is labelled "0-100K" and 100000.5 is labelled "100k-200K" (right-closed ranges) |
| Binning.GoodsPriceTop | data_processor.py:45-47 | every price above 900000 is "Above 900K" |
| Binning.GoodsPriceMonotone | data_processor.py:44-47 | a larger price never gets a lower goods-price range |
| Binning.IncomeRangeOf | data_processor.py:49-52 | an income gets no range exactly when it is at most 0, otherwise the labelled range whose interval holds it |
| Binning.IncomeBoundaries | data_processor.py:50-52 | 100000 is "0-100K" and 150000 is "100K-150K" |
| Binning.IncomeTop | data_processor.py:50-52 | every income above 400000 is "Above 400K" |
| Binning.IncomeMonotone | data_processor.py:49-52 | a larger income never gets a lower income range |
| Binning.CreditRangeOf | data_processor.py:54-57 | a credit gets no range exactly when it is at most 0, otherwise the labelled range whose interval holds it |
| Binning.CreditBoundaries | data_processor.py:55-57 | 200000 is "0-200K" and 5000000 is "Above 3M" |
| Binning.CreditTop | data_processor.py:55-57 | every credit above 3000000 is "Above 3M" |
| Binning.CreditMonotone | data_processor.py:54-57 | a larger credit never gets a lower credit range |
| Binning.RangeLabel | data_processor.py:46-57 | an amount has a label exactly when it is above 0 |
| Binning.CutCell | data_processor.py:47 | a cut cell is a text label exactly when the amount is present and above 0; missing, zero and negative amounts give a missing label |
| Binning.CutColumn | data_processor.py:47 | `pd.cut` labels each row from that row's amount alone |
| Binning.DeriveRange | data_processor.py:44-47 | derivation skips an absent amount and raises exactly on one holding text; otherwise it writes the target column row by row from the amount and leaves every other column as it was |
| Frames.Frame.DeriveRangeColumn | data_processor.py:44-47 | the in-place derivation gives exactly the outcome of `Binning.DeriveRange` |
| ApplicationCleaning.DeriveRanges | data_processor.py:43-57 | the goods-price, income and credit derivations, in that order, keep the table well formed and its rows |
| ApplicationCleaning.DeriveSpec | data_processor.py:44-57 | one derivation succeeds exactly when its amount is absent or numeric; it then writes its range column and nothing else |
| ApplicationCleaning.DeriveRangesOutcome | data_processor.py:43-57 | the three derivations succeed exactly when each amount present is numeric, and otherwise raise TypeError |
| ApplicationCleaning.DeriveRangesEffect | data_processor.py:43-57 | after the three derivations each range column holds the ranges of its amount, and no other column changed |
| ApplicationCleaning.DeriveRangesSpec | data_processor.py:43-57 | the derivations succeed exactly when every present amount is numeric; they then change only the range columns, which hold the ranges of their amounts |
| ApplicationCleaning.DeriveRangesAbsentAmount | data_processor.py:44-57 | a derivation whose amount is not a column adds no range column: that range column stays absent, or keeps the cells it had |
| ApplicationCleaning.DeriveApplicationRanges | data_processor.py:43-57 | the three in-place derivations give exactly the outcome of `DeriveRanges` |
| ApplicationCleaning.CleanApplications | data_processor.py:16-57 | the applications table is pruned, filled, normalised and cut into ranges, in that order; the first exception ends it; a cleaned table is well formed and keeps every row |
| ApplicationCleaning.CleanApplicationsColumns | data_processor.py:16-57 | the cleaned columns other than the range columns are exactly the ones that survive pruning; the range column of each surviving amount is present and holds that amount's ranges |
| ApplicationCleaning.CleanApplicationsRangeOnlyFromSurvivor | data_processor.py:16-57 | where an amount was pruned or never read, its range column is not added: it is present only if read and less than 40% missing, with its cells as read |
| ApplicationCleaning.CleanApplicationsUntouched | data_processor.py:16-57 | a column neither filled nor derived keeps its cells, except that a `DAYS` column holds their absolute values |
| ApplicationCleaning.CleanApplicationsDaysNonNegative | data_processor.py:38-41 | every present `DAYS` cell of the cleaned table is a number at least 0 |
| ApplicationCleaning.CleanApplicationsFilled | data_processor.py:26-36 | each filled column keeps its present cells, holds its fill value in the missing ones, and has no missing cell left when the table has rows |
| ApplicationCleaning.ApplicationFillSucceeds | data_processor.py:27-36 | a surviving column's fill value is computed exactly when the table has rows (mode) or the column is numeric (mean, median) |
| ApplicationCleaning.ApplicationFillsSucceed | data_processor.py:26-36 | the five fill statements raise exactly when a mode-filled column is present in a table without rows, or a surviving annuity or goods price column holds text |
| ApplicationCleaning.ImputedApplications | data_processor.py:26-36 | after the fills an unfilled column is as read, and the goods price is numeric before and after |
| ApplicationCleaning.ImputedAmount | data_processor.py:26-36 | an amount column leaves the fills numeric exactly when it entered them numeric |
| ApplicationCleaning.NormaliseApplicationsSucceeds | data_processor.py:38-41 | after the fills, normalisation succeeds exactly when every surviving `DAYS` column is numeric |
| ApplicationCleaning.AmountReachesDerivations | data_processor.py:26-57 | an amount column reaching the derivations survived pruning and is numeric exactly when it was numeric as read |
| ApplicationCleaning.DeriveApplicationsSucceeds | data_processor.py:43-57 | after fills and normalisation, derivation succeeds exactly when every surviving amount column is numeric |
| ApplicationCleaning.CleanApplicationsSucceeds | data_processor.py:16-57 | the applications cleaning raises exactly when a mode-filled column is present in a table without rows, or a surviving column it computes on as numbers holds text |
| ApplicationCleaning.FillsModeFault | data_processor.py:27-32 | an empty-mode fault in the fills happens only on a mode-filled column of a table without rows |
| ApplicationCleaning.CleanApplicationsModeFault | data_processor.py:16-57 | an empty-mode fault in the cleaning happens only on a mode-filled column of a table without rows |
| ApplicationCleaning.CleanApplicationsInPlace | data_processor.py:16-57 | copying the pruned table into a frame and running every statement on it in place gives exactly `CleanApplications` |
| PreviousCleaning.CleanPrevious | data_processor.py:59-75 | the previous-applications table is pruned and then filled; the first exception ends it; a cleaned table is well formed and keeps every row |
| PreviousCleaning.CleanPreviousColumns | data_processor.py:59-75 | the cleaned columns are exactly the non-administrative ones with less than 40% missing cells; unfilled ones keep their cells |
| PreviousCleaning.CleanPreviousFilled | data_processor.py:67-75 | each filled column keeps its present cells, holds its fill value in the missing ones, and has no missing cell left when the table has rows |
| PreviousCleaning.CleanPreviousPaymentsComplete | data_processor.py:74-75 | every missing payment count becomes 0 and every other payment count is kept |
| PreviousCleaning.PreviousFillSucceeds | data_processor.py:68-75 | a surviving column's fill value is computed exactly when the column is numeric (median), the table has rows (mode), or always (constant 0) |
| PreviousCleaning.CleanPreviousSucceeds | data_processor.py:59-75 | the previous-applications cleaning raises exactly when the product combination is present in a table without rows, or a surviving goods price or annuity column holds text |
| PreviousCleaning.CleanPreviousModeFault | data_processor.py:72-73 | an empty-mode fault happens only on the product combination of a table without rows |
| PreviousCleaning.CleanPreviousInPlace | data_processor.py:59-75 | running the fill statements in place on the pruned copy gives exactly `CleanPrevious` |
| Join.MatchesOf | data_processor.py:78 | the right rows matching one left key: exactly those with an equal key, in right-row order, as many as the key's occurrences |
| Join.JoinPairs | data_processor.py:78 | the inner join pairs exactly the rows whose keys are equal |
| Join.JoinPairsOnce | data_processor.py:78 | the join lists pairs in increasing (left row, right row) order, so each matching pair appears once |
| Join.JoinCardinality | data_processor.py:78 | with unique left keys the join has one row per right row whose key occurs on the left, never more than the right table |
| Join.PairedRows | data_processor.py:78 | each merged row combines the two rows of its pair |
| Join.Merge | data_processor.py:78 | the merge raises exactly when either side lacks `SK_ID_CURR`; otherwise its rows are, in order, the pairs of rows with equal keys, each joined once |
| Join.MergeKeepsEveryMatch | data_processor.py:78 | every pair of rows with equal keys is a merged row |
| Pipeline.LoadAndClean | data_processor.py:7-80 | a failed read yields three missing results; otherwise the result holds the two cleaned tables and the merge of those tables, or the first exception: the applications cleaning's, else the previous-applications cleaning's, else the missing join key |
| Pipeline.CleanedJoinKeys | data_processor.py:16-78 | the cleaning keeps `SK_ID_CURR` exactly when it is not mostly missing, and then with its cells as read |
| Pipeline.LoadAndCleanSucceeds | data_processor.py:7-80 | the entry point raises exactly when both reads succeed and then a cleaning raises or a table lacks `SK_ID_CURR` as read or loses it to pruning |
| Pipeline.LoadAndCleanJoin | data_processor.py:78-80 | the joined rows are, in order, the cleaned rows paired by equal applicant ids as read, and every such pair is among them; with unique application ids there are at most as many as previous applications |
| Pipeline.LoadAndCleanData | data_processor.py:7-80 | the entry point as executed (in-place cleaning, then merge) gives exactly `LoadAndClean` |

### Behaviour of the code worth knowing

- **The 40% threshold.** The comment at `data_processor.py:21` says columns with more than 40% missing values are dropped, but line 22 tests `>= 40`. The model follows line 22: a column exactly 40% missing is dropped.

- **`pd.cut` ranges.** `pd.cut` is called with its default `right=True`, so ranges are right-closed: `(0, 100000]` is "0-100K". An amount of exactly 0, or a negative amount, gets a missing label, not the lowest one.
- **Modes of empty columns.** `mode()[0]` on a column without values is not skipped: it raises KeyError. After pruning this can only happen in a table without rows. There `null_count / 0 * 100` is NaN, so no column is dropped.
- **The applicant id.** `SK_ID_CURR` is pruned like any other column when it is mostly missing. The merge then raises.
- **Missing keys in the merge.** pandas matches missing join keys with each other, and the model does the same.

## Left out

- The dashboard (`app.py`) is not part of this model. Neither are its filters, charts, and the relabelling of the target column it performs.
- The reads: `pd.read_csv` is file and network I/O. Each source is a parameter, either a read table or `Unreadable`. The printed error message and `st.cache_data` memoisation are left out.
- The two missing-value summary tables are sorted by null count. The sorting (`sort_values`) is not modelled, because only the set of dropped names matters to `drop`.
- Pruning.MostlyMissing: the 40% threshold is compared in exact rational arithmetic. The float rounding of `null_count / rows * 100` at exactly 40% is not modelled.
- Statistics.Mean, Statistics.Median: exact real arithmetic. Floating-point rounding, infinities and float overflow are not modelled.
- Statistics.Mode: numbers are ordered before text when equally frequent values of both kinds tie. pandas' handling of such mixed columns is not modelled beyond that.
- Binning.CutCell: the categorical dtype `pd.cut` produces is modelled as text labels. An infinite amount is not modelled, since amounts are finite reals.
- Join.Merge: pandas raises ValueError when one `SK_ID_CURR` column is numeric and the other holds text, because it refuses to merge on keys of incompatible dtypes. The model does not represent column dtypes. It compares the keys cell by cell instead, so such a merge succeeds with no cross-type matches.
- Join.Merge: a merged row is the pair of its two source rows. The column layout of the merged frame, with its `_x`/`_y` suffixes for shared names, is not modelled.
- Frames.Frame.ImputeColumns: the straight-line fill statements of the code are modelled as a list of fill rules run by one loop, in the same order and with the same stop at the first exception.
- Column dtypes are left out. A column counts as numeric when every present cell is a number. Any present text makes a mean, median, `abs` or `pd.cut` over it raise TypeError, as for pandas' object columns.
