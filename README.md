# US post offices by state and year — a Dafny model

`filter_us_post.py` turns a table of historical US post offices into a time
series for a choropleth map. Each row of the table holds a state code and the
years in which a facility was established and discontinued. The script:

1. cleans the table in place. It drops the rows of the malformed codes
   `MI/OH` and `VAy`, fills missing years with 0, casts both year columns to
   integers and replaces the legacy code `DC` with `WA`;
2. groups the rows by state;
3. walks the years 1772..2000 (229 years) for each state. For each year it
   records how many facilities opened and how many closed, and keeps a running
   total of the facilities operating, which starts at 0 for each state;
4. flattens the result into rows `code, Year, Established, Discontinued, Operating`;
5. left-joins a state-code table on `code` and a map-identifier table on the
   state's display name, then casts the identifier column to integers.

The model follows the same stages, one module each:

- `Facilities`: the rows and the year horizon.
- `Cleaning`: the working table is a class, `FacilityTable`, whose `rows`
  field the methods `DropState`, `FillMissingYears` and `ReplaceState`
  reassign in place. Each step is specified by a function on the rows.
  The whole stage is the function `Cleaned`, shown equal to a row-by-row
  reference, `CleanedByRow`.
- `Grouping`: the distinct states and the rows of each state.
- `YearWalk`: the counting functions `CountAt` and `CountUpTo`, and the
  running total `Operating` with its recurrence.
  `WalkState` is the year loop with its running total. `WalkStates` is the
  loop over states that fills the data dictionary. Both are proved equal to
  the counting functions.
- `Flattening`: the data dictionary as one flat table, `Report`.
- `Enrichment`: the two joins, with the lookup tables as finite maps. A
  missing identifier makes the integer cast fail, so the result is a `Result`.
- `Pipeline`: the script end to end as the function `Run`, the method
  `ProcessPostOffices` proved equal to it, and properties that span several
  stages.

The script's own text promises nothing in comments beyond its steps. The
properties below are what its code does.

Two ways the script stops without writing its output:

- No row survives cleaning: the data dictionary is empty, the frame built
  from it has only the column that `reset_index` adds, and naming five
  columns on line 72 raises. The model fails the run
  (`FrameError.ColumnCountMismatch`).
- A row's code or display name is missing from a lookup table: the join
  leaves a missing identifier, and `astype(int)` on line 83 raises on it.
  The model fails the run (`CastError.NonFiniteId`).

## Model

| member | source | states |
|---|---|---|
| `Cleaning.Without` | filter_us_post.py:21-22 | The kept rows are exactly the rows whose state is not the dropped code, each as often as in the table. |
| `Cleaning.WithoutConcat` | filter_us_post.py:21-22 | Dropping from a concatenation drops from each part, so the kept rows stay in their order. |
| `Cleaning.FilledYears` | filter_us_post.py:23 | Same length and states. Every year is present afterwards: a present year is unchanged and a missing one becomes 0. |
| `Cleaning.Typed` | filter_us_post.py:24-25 | For a table with no missing year: same length and states, and each integer year equals the year that was present. |
| `Cleaning.Renamed` | filter_us_post.py:28 | Same length and years. Rows of the old code get the new code and other rows keep theirs. When the codes differ, no row keeps the old code. |
| `Cleaning.FacilityTable.constructor` | filter_us_post.py:15 | The working table starts out holding the rows as read. |
| `Cleaning.FacilityTable.DropState` | filter_us_post.py:21-22 | The table becomes its rows without the given state, and no remaining row has that state. |
| `Cleaning.FacilityTable.FillMissingYears` | filter_us_post.py:23 | The table's missing years become 0, and afterwards every row has both years. |
| `Cleaning.FacilityTable.ReplaceState` | filter_us_post.py:28 | The table's rows of one code move to the other code. |
| `Cleaning.FacilityTable.TypedRows` | filter_us_post.py:24-25 | For a table with no missing year: the same rows with both years as integers, each equal to the year that was present. |
| `Cleaning.CastCommutesWithRename` | filter_us_post.py:24-28 | Casting before renaming, as the script does, gives the same rows as renaming before casting, as the model does. |
| `Cleaning.Clean` | filter_us_post.py:21-28 | Runs the drops, the fill and the rename on a fresh table, then casts the years last (the script casts before the rename; the two commute). The result is `Cleaned(raw)`: no row has `MI/OH`, `VAy` or `DC`. |
| `Cleaning.CleanedIsRowByRow` | filter_us_post.py:21-28 | The stepwise stage equals a one-pass reference: drop the row when its code is malformed, otherwise fill its years and rename `DC`. |
| `Cleaning.CleanedConcat` | filter_us_post.py:21-28 | Cleaning a concatenation cleans each part, so the kept rows stay in their original order. |
| `Cleaning.CleanedSingle` | filter_us_post.py:21-28 | A single row with a malformed code is dropped. Any other single row gives exactly its cleaned form. |
| `Cleaning.CleanedStates` | filter_us_post.py:21-28 | No cleaned row has state `MI/OH`, `VAy` or `DC`. |
| `Cleaning.CleanedKeeps` | filter_us_post.py:21-28 | Every row with a code that is not dropped reaches the cleaned table, in its cleaned form. |
| `Cleaning.CleanedLength` | filter_us_post.py:21-22 | The cleaned table has as many rows as the raw table has rows whose code is not dropped. |
| `Grouping.States` | filter_us_post.py:31-32 | The group keys are distinct, and a code is a key exactly when some row has that state. |
| `Grouping.Group` | filter_us_post.py:31-32 | A state's group holds each row of that state as often as the table does, and no other row. |
| `Grouping.GroupsPartitionRows` | filter_us_post.py:31-32 | All the groups together give back the table's rows with their multiplicities: every row is in exactly one group. |
| `YearWalk.CountAt` | filter_us_post.py:50-59 | The count is at most the group size. It is 0 exactly when the year is not among the column's values, which is the script's `year in ...values` test. |
| `YearWalk.CountAtIsMultiplicity` | filter_us_post.py:52-53 | The count for a year equals how many times that year occurs among the column's values. |
| `YearWalk.GroupCountIsStateCount` | filter_us_post.py:52-58 | A count within a state's group equals the number of table rows that have that state and that year. |
| `YearWalk.OperatingClosedForm` | filter_us_post.py:41-61 | The running total at year Y equals the facilities established in [1772, Y] minus those discontinued in [1772, Y]. |
| `YearWalk.OperatingConcat` | filter_us_post.py:50-61 | The running total of two sets of rows together is the sum of their separate running totals. |
| `YearWalk.SameYearNetZero` | filter_us_post.py:50-61 | A facility opened and closed in the same year adds one to both counts of that year and never changes the running total. |
| `YearWalk.OutOfHorizonNeverCounted` | filter_us_post.py:18 | A row whose year lies outside 1772..2000 adds nothing to any year's count or to any cumulative count. |
| `YearWalk.OperatingMayBeNegative` | filter_us_post.py:54-61 | The running total is not guaranteed to be non-negative: a closure with no opening gives -1. |
| `YearWalk.OpenThenCloseExample` | filter_us_post.py:41-61 | One facility opened in 1850 and another closed in 1900 give an operating total of 1 for 1850..1899 and 0 otherwise. |
| `YearWalk.Series` | filter_us_post.py:42-61 | A state gets one record per year of the horizon: exactly 229 records. |
| `YearWalk.SeriesShape` | filter_us_post.py:42-58 | Record k is for year 1772 + k, in increasing order, and holds that year's establishment and discontinuance counts. The first year's operating total starts from 0: openings minus closings. |
| `YearWalk.SeriesRecurrence` | filter_us_post.py:41-61 | From the second year on, operating is the previous year's total plus that year's openings minus its closings. |
| `YearWalk.WalkState` | filter_us_post.py:41-61 | The loop starts its running total at 0, zero-fills each record, adds and subtracts the year's counts, and returns exactly `Series(g)`. |
| `YearWalk.DataDict` | filter_us_post.py:34-38 | The dictionary has one entry per state, in grouping order, and each entry has 229 year records. |
| `YearWalk.WalkStates` | filter_us_post.py:36-61 | The loop over states builds exactly `DataDict(rows)`. Each state's series is computed from that state's rows alone. |
| `Flattening.StateRows` | filter_us_post.py:64-66 | One output row per year record of a state, each carrying the state's code. |
| `Flattening.Flatten` | filter_us_post.py:64-72 | Every output row carries the code of one of the series. |
| `Flattening.Tabulate` | filter_us_post.py:64-72 | Naming the five columns fails exactly when no state has a year, because the frame then has only the column `reset_index` adds; otherwise the named frame is the flat table. |
| `Flattening.FlattenEmpty` | filter_us_post.py:64-69 | The flat table is empty exactly when no state has a year. |
| `Flattening.FlattenLength` | filter_us_post.py:64-69 | With 229 records per state, the flat table has 229 rows per state. |
| `Flattening.FlattenAt` | filter_us_post.py:64-72 | Row i*229+k of the flat table is year k of state i. |
| `Flattening.ReportAt` | filter_us_post.py:36-72 | The output has (number of states) × 229 rows. Row i*229+k has the code of state i, year 1772+k, and that state's counts and running total for the year. |
| `Flattening.ReportCodesAreStates` | filter_us_post.py:64-72 | Every output code is the state of some cleaned row. |
| `Flattening.EveryStateReported` | filter_us_post.py:36-72 | Every state of the cleaned table appears in the output. |
| `Enrichment.JoinCodes` | filter_us_post.py:77 | Left join on the code: every row is kept in order, and its description is attached exactly when the code is in the lookup. |
| `Enrichment.JoinGeo` | filter_us_post.py:82 | Left join on the display name: every row is kept in order, and the identifier is attached exactly when the description exists and its name is in the lookup. |
| `Enrichment.CastIds` | filter_us_post.py:83 | The cast succeeds exactly when every identifier is present. It then keeps the length and every row, with the identifier as an integer. |
| `Enrichment.Enrich` | filter_us_post.py:75-83 | Succeeds exactly when every row's code and that code's display name are both found. It then keeps the length, and each row gets its description and identifier. |
| `Pipeline.ProcessPostOffices` | filter_us_post.py:15-86 | Running the stages one after the other gives `Run`. The run stops at the column names exactly when cleaning leaves no row. It succeeds exactly when some row is left and every cleaned state has a code entry and an identifier. On success it has (number of states) × 229 rows, row i being row i of the report, none with code `MI/OH`, `VAy` or `DC`. |
| `Pipeline.TabulateReport` | filter_us_post.py:64-72 | The columns of the flattened dictionary can be named exactly when the cleaned table has a row, and then the result is the report. |
| `Pipeline.EnrichReport` | filter_us_post.py:75-83 | Enriching the report succeeds exactly when every state of the cleaned table is in both lookups. It then has (number of states) × 229 rows, row i extending row i of the report. |
| `Pipeline.RunOutcome` | filter_us_post.py:64-83 | The run fails at line 72 exactly when cleaning leaves no row, and succeeds exactly when some row is left and every state is in both lookups. |
| `Pipeline.ReportCodesClean` | filter_us_post.py:21-72 | No report row carries `MI/OH`, `VAy` or `DC`. |
| `Pipeline.RunRows` | filter_us_post.py:15-86 | A successful run has (number of states) × 229 rows, each extending the report's row, and none with a dropped or legacy code. |
| `Pipeline.MissingYearNeverCounted` | filter_us_post.py:23-25 | A kept row whose year of one event is missing is cleaned to year 0 for that event. That event then adds nothing to any year's count or cumulative count in the horizon; the row's other event still counts. |
| `Pipeline.BothYearsMissingNeverOperate` | filter_us_post.py:23-61 | A kept row with both years missing leaves the running total of every year in the horizon unchanged. |
| `Pipeline.LegacyRowsCountedAsCurrent` | filter_us_post.py:28-32 | A `DC` row becomes a `WA` row with the same years and lands in the `WA` group. `DC` is not a group key. |

## Left out

- Reading and writing CSV files (lines 15, 75, 80, 86) and the progress message (line 37). The tables are parameters and the result is a value.
- pandas index bookkeeping: the index labels kept by `drop(..., inplace=True)`, `reset_index` and the `level_0`/`level_1` columns it creates before renaming.
- Group key order: pandas `groupby` sorts its keys, but the model lists states in order of first appearance. The content of each state's series is unaffected; only the order of the state blocks in the output differs.
- Grouping.Group: its contract fixes which rows a group holds and how often, but not their order within the group. The year walk only counts rows, so the order does not matter there.
- Float years: a year column that held a missing value is read as floats and `astype(int)` truncates it. The model reads years as integers, with a missing year as `None`.
- `fillna(0)` on the state column: the state code is assumed present in every row.
- The contents of `codes.csv` and `population_engineers_hurricanes.csv`, and the columns dropped from them (lines 76, 81). The lookups are maps with unique keys, so pandas' duplication of rows on duplicate join keys is not modelled. Neither is pandas' matching of a missing name against a missing name in the second join.
- Machine integers: counts and years are unbounded integers. 64-bit overflow cannot occur for tables of realistic size.
