# A verified model of the mortality-and-events table pipeline

The pipeline reads United Nations population tables (mortality, life
expectancy and others), one sheet per statistic, and brings them to a
common shape:

- **normalising a sheet** (`transform_dataframe`, `rename_columns`):
  - every country row is joined to its parent subregion;
  - the join helper columns and `Notes` are dropped;
  - the country and region columns are renamed;
  - duplicate rows are removed;
  - a range of columns is optionally relabelled with a prefix.
- **reporting** the columns that hold a missing value (`check_null_columns`).
- **melting** each sheet from one column per five-year period into one row
  per (country, period) (`get_melted_dataframes`).
- **consolidating** the melted sheets, and a projection of a second list of
  sheets, by successive inner merges on (`Country`, `Region`, `Period`)
  (`get_finalized_df`).
- **imputing** a country's missing regions from the first region recorded
  for that country (`impute_regions`).
- **measuring events**: for every country and every period in which a
  historical event is recorded (`fetch_events_metadata`), the mean of each
  statistic over the periods before the event and over the periods after
  it, and the percent change between the two (`calculate_percent_change`).

## Representation

A table is positional: `Tables.Table(name, columns, rows)`.

- A cell is `Str`, `Num(real)` or `Missing` (pandas' NaN).
- A named lookup uses the first column with that label.
- Every pandas exception the code can raise is an `Err` of a
  `Tables.Result`. This covers a `KeyError` on a missing column, an
  `IndexError` on a position out of range, and an error on a cell of the
  wrong kind: a `TypeError` from `mean` over a string, and from
  `str.contains` either a `ValueError` (the mask holds NaN) or an
  `AttributeError` (no cell of the column is a string). It also covers a
  `ValueError` where `list.index` or `pd.concat` fails, or where `melt`'s
  value label is already a column label, and the `MergeError` of a merge
  whose `_x`/`_y` suffixes would repeat a label. Two pandas errors are not
  modelled: the `ValueError` of a merge key whose label occurs twice, and
  errors that depend on the dtypes of the merge keys.
- pandas 2.2 or later is assumed. This fixes `melt`'s checks and the row
  order of an inner `merge`, left rows first.
- Loops whose body appends items or raises are modelled with
  `Gathering.Gather`: the steps run in order, and the first error ends the
  loop.
- Loops are kept as `for` loops in methods. Each method is proved equal to
  the function that specifies it. `impute_regions` changes its frame in
  place, so its model is a class, `Imputer.Frame`, whose rows the methods
  reassign.

Modules:

| Module | Covers |
|---|---|
| `tables.dfy` | cells, tables, results, column lookup, boolean masks, `drop_duplicates` |
| `ordering.dfy` | Python's string order, a stable sort |
| `gather.dfy` | loops that gather items or raise |
| `normaliser.dfy` | `transform_dataframe`, `rename_columns`, `check_null_columns` |
| `reshaper.dfy` | `get_melted_dataframes` |
| `consolidator.dfy` | `get_finalized_df` |
| `imputer.dfy` | `impute_regions` |
| `events.dfy` | `fetch_events_metadata` |
| `windows.dfy` | the country filter, period sorting and the pre/post windows of `calculate_percent_change` |
| `changes.dfy` | its means, the `% Change` value and its three inner loops |
| `percent.dfy` | its country loop, the index sort and the concatenation |

## Model

| member | source | states |
|---|---|---|
| Tables.IndexOf | functions.py:251 | the first position holding the item (the first column with a label, or `list.index`), none exactly when the item does not occur |
| Tables.Column | functions.py:215 | a column lookup succeeds exactly when the label is a column, yields a position holding that label, and otherwise raises `KeyError` on that label |
| Tables.DropColumn | functions.py:24 | dropping a column succeeds exactly when it exists; the labels are then exactly the other labels, the name and row count are kept and the table stays rectangular; otherwise it raises `KeyError` on the label |
| Tables.DropColumnAt | functions.py:24-29 | every other column survives: it keeps its label and every row's cell, and moves to the place counted by the kept columns before it |
| Tables.DropColumnSource | functions.py:24-29 | every column of the result is some other column of the input, with the same label and the same cell in every row |
| Tables.Dedup | functions.py:30 | `drop_duplicates` keeps exactly the rows that occur in the input, with no repeats and never more rows |
| Tables.DedupOfDistinct | functions.py:30 | `drop_duplicates` leaves a table without repeated rows unchanged |
| Tables.DedupOrder | functions.py:30 | `drop_duplicates` keeps the first occurrences in their order: kept items appear in the order of their first occurrence in the input |
| Tables.FilterMember | functions.py:20 | a row survives a boolean mask exactly when some row equal to it is selected by the mask |
| Tables.FilterSource | functions.py:140 | every row of a masked table is a selected row of the input, and the selected rows before it match the rows before it in the result, so relative order is kept |
| Ordering.SortBySorted | functions.py:232 | the stable sort yields a sequence ordered by any strict order it is given |
| Ordering.SortByPermutation | functions.py:232 | the stable sort only reorders its input (equal multisets) |
| Ordering.StrLessTotal | functions.py:237 | Python string comparison is total: two strings are equal or one is smaller |
| Normaliser.RenameColumns | functions.py:41-46 | `rename_columns` keeps the name and the rows and relabels the header as `RenamedHeader` |
| Normaliser.RenameExactlySlice | functions.py:43-44 | a column is relabelled `prefix + sep + label` exactly when its label occurs in the Python slice `columns[from:to]` (negative and out-of-range bounds clamped as Python does); every other label is kept; the width is kept |
| Normaliser.RenameDefaultsUnchanged | functions.py:70-71 | with the default bounds 0 and 0 no column is relabelled |
| Normaliser.NullColumns | functions.py:55-56 | a label is reported exactly when some column with that label holds a missing cell; the list is never longer than the header |
| Normaliser.LayoutOf | functions.py:19-23 | the join can start exactly when `Type`, the name column, `Parent code` and `Country code` all exist; otherwise it raises `KeyError` |
| Normaliser.SubregionSource | functions.py:19-20 | every row of the subregion frame is an input row of type `Subregion` |
| Normaliser.SubregionHas | functions.py:19-20 | every input row of type `Subregion` is in the subregion frame |
| Normaliser.JoinRowsSource | functions.py:22-23 | every joined row glues an input row to a subregion row whose country code equals its parent code |
| Normaliser.JoinRowsHas | functions.py:22-23 | every such pair of rows produces a joined row |
| Normaliser.JoinedSource | functions.py:22-23 | every row of the merged frame comes from an input row and a subregion row that join |
| Normaliser.JoinedHas | functions.py:22-23 | every input row and subregion row that join give a row of the merged frame |
| Normaliser.HeaderAfterDrops | functions.py:24-29 | the suffixed header, after dropping `Country code_right`, renaming and dropping `Notes`, is the normalised header |
| Normaliser.NotesSurvives | functions.py:24-29 | `Notes` is still present for the second drop exactly when the input had it |
| Normaliser.CleanedAt | functions.py:22-29 | row `m` of the cleaned frame is the normalised form of the input row and subregion row that produced merged row `m` |
| Normaliser.CleanedFacts | functions.py:22-29 | cleaning succeeds exactly when `Notes` exists (else `KeyError` on `Notes`); it then has the normalised header, and its rows are exactly the normalised joined pairs |
| Normaliser.TransformDataframe | functions.py:10-38 | succeeds exactly when the join columns and `Notes` exist, otherwise raises the first `KeyError`; the frame is named `df_name` and has the normalised header, relabelled with `prefix`, or with `df_name` when the prefix is empty, only if the flag is set; its rows are the cleaned rows with duplicates removed, first occurrences kept in order, so they have no repeats and are exactly the normalised joined pairs |
| Normaliser.PairRowsDedup | functions.py:30 | removing duplicates keeps the rows exactly the normalised joined pairs |
| Reshaper.MeltBlock | functions.py:62-66 | the melted block of value column `j` has one row per input row, row `i` being that row's `j`-th cell under its id cells and the column label as period |
| Reshaper.Melt | functions.py:62-66 | melting succeeds exactly when there are at least four columns and the sheet's name is not a column label; below three columns it raises `IndexError` on 2, then `ValueError` when the name is taken, and with exactly three columns `KeyError` on column 2 (both id variables are that column); the header is (column 2, last column, `Period`, the sheet's name) |
| Reshaper.MeltRowCount | functions.py:64 | the melted frame has one row per input row and value column `6 <= j < last`, or none when there are at most 7 columns |
| Reshaper.MeltRowSource | functions.py:62-66 | every melted row is the cell of some value column and input row |
| Reshaper.MeltRowPresent | functions.py:62-66 | the cell of value column `j` and row `i` sits at position `(j - 6) * rows + i`, column-major as pandas melts |
| Reshaper.MeltWellFormed | functions.py:62-66 | the melted frame is rectangular with four columns |
| Reshaper.GetMeltedDataframes | functions.py:59-67 | succeeds exactly when every sheet has at least four columns and a name that is not one of its labels; otherwise it raises the error of the first sheet that does not melt, every earlier one melting; the list has one melted frame per sheet, in order |
| Consolidator.FindKeysIndex | functions.py:83 | the merge keys are found exactly when each is a column of both sides, at the first position of each label; otherwise the first missing key raises `KeyError` |
| Consolidator.MergeOutcome | functions.py:83 | a merge succeeds exactly when both sides have `Country`, `Region` and `Period` and the `_x`/`_y` suffixes repeat no label; otherwise it raises `KeyError` on the first key missing from either side, or else `MergeError`; the header is the merged header |
| Consolidator.DisjointLabelsMerge | functions.py:83 | when the right side shares no non-key label with the left, nothing is suffixed, no `MergeError` arises, and the header is the left labels followed by the right's non-key labels |
| Consolidator.MergeNoRows | functions.py:83 | merging two frames without rows that have the keys and no suffix clash gives a frame with the merged header and no rows |
| Consolidator.MergeSource | functions.py:83 | every merged row joins a left row and a right row with equal keys |
| Consolidator.MergeHas | functions.py:83 | unless the suffixes clash, every pair of left and right rows with equal keys gives a merged row |
| Consolidator.MergedHeaderKeys | functions.py:83-85 | the merged header has the keys, at the positions they had on the left |
| Consolidator.MergedRowKey | functions.py:83-85 | a merged row's key is the key of the left row and of the right row it came from |
| Consolidator.Stat2Positions | functions.py:87 | `np.r_[2, 6, -1, 7:n-1]` has `3 + max(0, n - 8)` positions, all in range |
| Consolidator.PickStat2 | functions.py:87 | the projection keeps positions 2, 6 and the last, then the value columns from 7 to the one before the last |
| Consolidator.Project | functions.py:87 | the projection succeeds exactly when there are at least 7 columns, raising `IndexError` on 2 and then on 6, and keeps every row |
| Consolidator.MergeAllStep | functions.py:80-85 | each step of the first loop merges the accumulated frame with the next table, and an error persists |
| Consolidator.FinalizedKeys | functions.py:78-88 | every row of the consolidated frame has a key that occurs in every table of the first list and in every projected table of the second |
| Consolidator.FinalizedFewTables | functions.py:79-87 | with fewer than two tables in the first list, the empty frame is returned when the second list is empty, and otherwise the projection's error or `KeyError` on `Country` |
| Consolidator.MergeFirstList | functions.py:79-85 | the first loop yields the empty frame for fewer than two tables, else the chain of merges of all tables |
| Consolidator.MergeSecondList | functions.py:86-87 | the second loop merges each projected table in turn |
| Consolidator.GetFinalizedDf | functions.py:78-88 | `get_finalized_df` returns the specified consolidated frame or error, including the `MergeError` of a merge whose suffixes clash |
| Consolidator.SharedValueLabelClash | functions.py:80-85 | four sheets of the first list whose value column has the same label fail at the third merge with `MergeError`: the header would hold that label twice |
| Imputer.CountriesOrder | functions.py:215 | the countries visited are the distinct country cells, each once, in the order of the first row holding each |
| Imputer.FirstRegionSource | functions.py:217-219 | the imputed value is the region of the first row of that country that has one, and all the earlier rows of that country lack one |
| Imputer.FirstRegionNone | functions.py:219 | `iloc[0]` fails exactly when no row of that country has a region |
| Imputer.FoldOutcome | functions.py:215-220 | the loop fills the countries in order until the first one without a region, where it raises |
| Imputer.ImputeMissingColumns | functions.py:215-217 | without `Country` the call raises `KeyError` at once; without `Region` it raises only when there is a row; the rows are untouched |
| Imputer.ImputeOutcome | functions.py:214-220 | raises exactly at the first country, in order of appearance, with no region in any of its rows; every country before it is filled |
| Imputer.ImputeSucceeds | functions.py:214-220 | the call succeeds exactly when every row's country has a row with a region |
| Imputer.ImputedCells | functions.py:220 | after success a row keeps every other cell, keeps a present region and gets its country's first region when it had none |
| Imputer.ImputedRows | functions.py:220 | after success every row keeps its width and country and has a region |
| Imputer.ImputedRegionsFound | functions.py:214-220 | after success every country finds a region in the new rows |
| Imputer.ImputeIdempotent | functions.py:214-220 | imputing an imputed frame succeeds and changes nothing |
| Imputer.Frame.ImputeRegions | functions.py:214-220 | the frame's rows become the imputed rows and the returned error is the call's error; name and columns unchanged |
| Imputer.Frame.FillCountries | functions.py:215-220 | the country loop over the frame matches the specified fold |
| Imputer.Frame.FindRegion | functions.py:216-219 | returns the first present region of the country's rows |
| Imputer.Frame.FillRegion | functions.py:220 | fills the missing regions of that country's rows and nothing else |
| Events.FetchEventsMetadata | functions.py:139-144 | raises `KeyError` on the first of `Event`, `Period`, `Year` that is missing, and otherwise returns three lists of equal length |
| Events.MetadataSource | functions.py:140-143 | entry `i` comes from an input row with a present event, and as many event rows come before it, so the input order is kept |
| Events.MetadataHas | functions.py:140-143 | every row with a present event contributes its period, event and year |
| Events.MetadataEventsPresent | functions.py:140 | no listed event is missing |
| Windows.ContainsIff | functions.py:231 | `str.contains` on a plain pattern holds exactly when the pattern occurs at some position |
| Windows.CountryMask | functions.py:231 | the country mask exists exactly when every country cell is a string (else an error on `Country`: pandas raises `ValueError` when the mask holds NaN, or `AttributeError` when no cell is a string) and selects the cells containing the country |
| Windows.SortByPeriod | functions.py:232 | sorting by period succeeds exactly when every period is a string (else an error: see Left out) and keeps the row width |
| Windows.SortByPeriodSorted | functions.py:232 | the sorted rows ascend by period |
| Windows.SortByPeriodPermutation | functions.py:232 | sorting by period only reorders the rows |
| Windows.DistinctSorted | functions.py:237 | `sorted(set(periods))` holds exactly the periods |
| Windows.DistinctSortedIncreasing | functions.py:237 | `sorted(set(periods))` ascends strictly, so without repeats |
| Windows.WindowOf | functions.py:251-256 | the window exists exactly when both the period's last and first events are listed (else `ValueError`) |
| Windows.WindowBounds | functions.py:251-256 | the post-window has an upper bound exactly when the last event's first listing is not the last one, namely the next listed period; the pre-window has a lower bound exactly from the third listing on, namely the previous listed period |
| Windows.SecondEventUnbounded | functions.py:254 | an event first listed second gets no lower bound for its pre-window although an event is listed before it (`index - 1 > 0`) |
| Windows.PreRowsMembers | functions.py:249-256 | a row is in the pre-window exactly when its period is before the event period and after the lower bound, if any |
| Windows.PostRowsMembers | functions.py:249-253 | a row is in the post-window exactly when its period is after the event period and before the upper bound, if any |
| Windows.WindowsDisjoint | functions.py:249-256 | no row is in both windows |
| Windows.FrameMembers | functions.py:242 | `frame_of_period` holds exactly the rows whose period is the given one |
| Changes.Numbers | functions.py:261-262 | the numbers of a column exist exactly when no cell is a string (else `TypeError`), come from the cells and are none exactly when no cell is a number |
| Changes.Mean | functions.py:261-262 | the mean exists exactly when no cell is a string, and is NaN exactly when no cell is a number |
| Changes.MeanBounds | functions.py:261-262 | a numeric mean lies within any bounds that hold for every number of the column |
| Changes.MeanOfRowsBounds | functions.py:261-262 | the mean of a column over some rows lies within any bounds that hold for every number those rows hold there |
| Changes.PercentChange | functions.py:265 | the change is a number exactly when both means are numbers and the pre mean is not zero |
| Changes.PercentChangeInverse | functions.py:265 | applying the change to the pre mean gives the post mean |
| Changes.PairRow | functions.py:258-263 | a change row carries the country, the category, the period, the event and the year of its step |
| Changes.PairRowOk | functions.py:257-262 | a pair step succeeds exactly when its attribute is a column and no row in either window holds a string in it |
| Changes.PairRowMeans | functions.py:261-262 | the pre (post) mean is NaN exactly when no pre-window (post-window) row holds a number |
| Changes.PreMeanBounds | functions.py:249-261 | the pre mean is a mean over the pre-window rows: it lies within any bounds that hold for their numbers in the attribute's column |
| Changes.PostMeanBounds | functions.py:250-262 | the post mean is a mean over the post-window rows: it lies within any bounds that hold for their numbers in the attribute's column |
| Changes.PairRowsShape | functions.py:257-263 | the pair loop succeeds exactly when every pair step does and then gives one row per pair, in order |
| Changes.FrameRowsCount | functions.py:245-263 | the event loop succeeds exactly when each event's pair loop does and then gives events × pairs rows |
| Changes.FrameRowsAt | functions.py:245-263 | row `f * pairs + k` is pair `k` of event `f` |
| Changes.PeriodRowsCount | functions.py:242-263 | a period gives its frame's rows × pairs change rows |
| Changes.PeriodRowsMember | functions.py:242-263 | every change row of a period carries the country, a category and the period |
| Changes.PeriodsRowsCount | functions.py:240-263 | the period loop gives the sum of the frame sizes × pairs rows |
| Changes.PeriodsRowsMember | functions.py:240-263 | every row of the period loop belongs to one of the periods |
| Changes.PairLoop | functions.py:257-263 | the pair loop computes its specified rows or error |
| Changes.FrameLoop | functions.py:245-263 | the event loop computes its specified rows or error |
| Changes.PeriodBody | functions.py:242-256 | one period's body computes its specified rows or error |
| Changes.PeriodLoop | functions.py:240-263 | the period loop computes its specified rows or error |
| Percent.MatchingRows | functions.py:231 | the country's rows are exactly the rows whose country cell is a string containing it; a non-string country cell raises |
| Percent.CountryRowsFacts | functions.py:231-232 | `tmp_df` holds exactly the matching rows, ascending by period |
| Percent.MetadataPeriodsText | functions.py:234 | the listed periods are strings |
| Percent.CountryScopeFacts | functions.py:230-237 | a country's loop inputs are its sorted rows, the column positions and its distinct event periods in strictly ascending order |
| Percent.KeyOrderStrict | functions.py:267-269 | the index order (country, category, year with missing years last) is a strict order |
| Percent.SetupBlockOrder | functions.py:267-269 | a country's block is sorted by index and is a permutation of its period loop's rows |
| Percent.SetupBlockCount | functions.py:240-269 | a country's block has the sum of its frame sizes × pairs rows |
| Percent.SetupBlockMember | functions.py:240-269 | every row of a block carries the country, a category, an event period and a year that is not a number |
| Percent.CountryBlockMember | functions.py:230-269 | every row of a country's block carries that country and a category |
| Percent.CalculatePercentChange | functions.py:223-272 | `calculate_percent_change` returns the specified table or error |
| Percent.PercentChangesShape | functions.py:229-272 | succeeds exactly when there is a country and every country's body succeeds (`pd.concat` of no frames raises); the index is (`Country`, level-two name, `Year`), the columns are `Period`, `Event`, the pre and post names and `% Change`; each country's block follows the blocks before it, the last block ends the rows, and there are exactly as many rows as all blocks hold |
| Percent.PercentChangesFirstError | functions.py:229-272 | a failing call fails with the error of the first country whose body fails |
| Percent.PercentChangesMember | functions.py:229-272 | every row belongs to one of the countries and one of the categories |

## Left out

- Reading sheets (`form_dataframe`) and `display_dataframe` are left out because they are I/O. So are the plots (`plot_barchart` and the other plotting functions). Tables are parameters.
- Floating point is not modelled. Means are exact reals, and `round(…, 2)` is left out.
- Changes.Mean: a missing mean (NaN) is `None`. A zero pre mean gives a `None` change, where pandas gives ±inf or NaN.
- `infer_objects` changes only dtypes, which the model does not represent, so it is left out.
- Windows.CountryMask: `str.contains` is a plain substring test. A country that holds regex metacharacters is not modelled as a regex.
- Windows.SortByPeriod: a period that is not a string is an error. pandas would sort NaN last, or raise a `TypeError` on mixed kinds.
- Percent.SetupBlock: a numeric `Year` is an error, which is stricter than pandas. pandas sorts numeric years, alone or mixed with strings.
- `sort_values` and `sort_index` are modelled by a stable insertion sort. pandas' default sort is not stable, so the order of rows whose sort keys are equal may differ.
- The MultiIndex is modelled as the three index fields of each change row plus the index names.
- Changes.PeriodBody: the window is computed once per period. The source recomputes it for each event of the period, from the period's first and last events only, so the result is the same.
- Labels that occur twice: a lookup by label uses the first such column. pandas would yield several columns.
- Normaliser.TransformDataframe: `countries` is accepted but not used, as in the source.
- `copy()` and aliasing between frames are not modelled. Except in `Imputer.Frame`, every frame is a value.
- Consolidator.Project: with exactly seven columns the projection repeats position 6. This is modelled as written.
- Consolidator.Merge: row order follows pandas' inner merge order, left rows first, as pandas 2.2 and later give it. Suffixes apply to non-key labels that occur on both sides.
- Consolidator.Merge: a merge key whose label occurs twice on one side raises a `ValueError` in pandas. The model uses the first such column. Merge-key dtypes are not modelled, so their errors are not either.
