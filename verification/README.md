# Zillow housing dashboard: the data pipeline

This project models the data pipeline under the US housing dashboard in
`app.py`. The dashboard reads three wide Zillow tables: median list price,
for-sale inventory and new listings. In these tables each region is a row
and each month is a column. The model covers what the dashboard computes
from those tables:

- **Date-range filter** (`filter_by_date`). It sorts the two ends of the
  range, then keeps the long-format records dated within it, both ends
  included.
- **Reshape.**
  - Rows are grouped by `StateName`. Prices use the mean; inventory and
    listings use the sum.
  - The date columns `columns[6:]` are melted into `(StateName, Date, Value)`
    records, stacked one column at a time.
  - The `country` rows are relabelled "United States" and appended. Their
    `reset_index` adds an `index` column, and its records are dropped
    afterwards.
- **Region selection.** The selector value "United States" passes every
  record (or every wide row, for the tables) through. Any other name keeps
  the records whose state is exactly that name.
- **Value boxes.**
  - `price` and `change` show the latest state value and its percent change.
  - `price2` and `change2` do the same for a city. They show placeholder
    texts when the state or city has no rows.
- **City selector** (`update_city_choices`). It lists the distinct city
  names of the chosen state, in ascending order.

The modules follow the pipeline:

- `Seqs`: boolean-mask selection.
- `Ordering`: Python's string order, `unique` and `sorted`.
- `Frames`: long records and `melt`.
- `Zillow`: wide tables, `groupby`, the union with the national rows.
- `Selection`: date filter, plot and table selection.
- `Cities`: the city options.
- `Metrics`: the four value boxes.

The whole pipeline is pure, so the model is written as datatypes, functions
and lemmas.

How the data is represented:

- A wide row holds RegionID, SizeRank, RegionName, RegionType and StateName,
  then one real-valued cell per remaining column. `values[k]` is column
  `5 + k`.
- The dashboard's date columns `columns[6:]` are therefore `values[1..]`.
  Column 5 is melted only where the code melts every column, i.e. the city
  boxes.
- Dates are day numbers.
- Some functions only lay the data out, and the table below has no row for
  them. Their meaning is stated by the lemmas that do have rows:
  - `Zillow.Header`, `Zillow.ValueColumns` and `Zillow.ColumnOf`;
  - `Zillow.Picks` (see `Zillow.PicksOfState`);
  - `Zillow.Total`, the `sum` reducer (see `Zillow.TotalBetween` and
    `Zillow.GroupRowCells`);
  - `Zillow.DateCells`, a row's cells under `columns[6:]` (see
    `Zillow.CountryFrameIndex` and `Zillow.CountryMeltAt`);
  - `Zillow.National`, `Zillow.IsCountry` and `Zillow.CountryColumns`, the
    national rows after `reset_index` and their columns (see
    `Zillow.CountryFrameIndex`, `Zillow.CountryFrameRows` and
    `Zillow.CountryRecords`);
  - `Cities.RegionNames`;
  - `Selection.InRange`, the date mask (see `Selection.FilterByDate`);
  - `Metrics.LastTwo`, the reads `iloc[-1, -1]` and `iloc[-2, -1]`, with
    `Frames.Final`, `Frames.Penultimate`, `Frames.EndsIn` and
    `Frames.EndsWith` (see `Metrics.StatePriceOfGroup`,
    `Metrics.StateChangeOfGroup`, `Metrics.CountryPrice` and
    `Metrics.CountryChange`);
  - `Metrics.StateCell` and `Metrics.WideCells`, `Metrics.CityColumns`,
    `Metrics.CityCells` and `Metrics.CityFrame` (see
    `Metrics.CityColumnsFromHeader` and `Metrics.CityCellsAligned`), and
    `Metrics.MeltedChange` (see `Metrics.RowChange`);
  - `Metrics.InCity`, both masks of the city selection (see
    `Metrics.CityRowsOrder`);
  - `Frames.Block` and `Frames.RowsWithKey` (see `Frames.WithKeyMelt`).

## Model

| member | source | states |
|---|---|---|
| Seqs.Filter | app.py:34 | a mask selection keeps exactly the elements satisfying the mask and is never longer than its input |
| Seqs.FilterIsSubsequence | app.py:34 | the selection is the input at strictly increasing positions, elements unchanged, and every position satisfying the mask is among them |
| Seqs.FilterCommute | app.py:214-219 | cutting to the date range and selecting the state may be done in either order |
| Selection.Bounds | app.py:32 | the bounds come out ordered and are the two given ends |
| Selection.FilterByDate | app.py:31-34 | a record is kept iff it is in the input and its date lies between the sorted bounds, both ends included |
| Selection.FilterByDateSymmetric | app.py:31-32 | the result does not depend on the order of the two ends |
| Selection.FilterByDateSubsequence | app.py:33-34 | the result is an order-preserving subsequence of unchanged input records that misses no record dated within the range |
| Selection.FilterByDateIdempotent | app.py:31-34 | filtering twice with the same range equals filtering once |
| Selection.FilterByDateEverything | app.py:31-34 | a range covering every record's date keeps the input unchanged |
| Selection.SelectRegion | app.py:216-219 | "United States" returns the records unchanged; any other name keeps exactly the records of that state |
| Selection.PlotSeries | app.py:209-219 | the plot records: see PlotSeriesMembers and PlotSeriesOfGroup |
| Selection.PlotSeriesMembers | app.py:209-219 | a plot holds exactly the grouped records dated within the range, of the chosen state or of all states for "United States" |
| Selection.PlotSeriesOfGroup | app.py:209-219 | a state's plot is its grouped row melted over the date columns and cut to the range |
| Selection.TableRows | app.py:230-233 | "United States" shows every wide row; any other name shows exactly the rows of that state |
| Selection.TableRowsOrder | app.py:230-233 | a state's table keeps the table's row order and is empty iff no row belongs to the state |
| Ordering.BelowTotal | app.py:163 | Python string order is total: two strings are equal or one is below the other |
| Ordering.BelowTransitive | app.py:163 | Python string order is transitive |
| Ordering.Unique | app.py:160-162 | `unique` keeps each element once and keeps every element |
| Ordering.Sort | app.py:163 | `sorted` returns a permutation of its input |
| Ordering.SortStrictlySorted | app.py:163 | sorting distinct strings gives a strictly ascending list |
| Ordering.SortedDistinct | app.py:160-163 | sorted unique elements are strictly ascending and are exactly the input's elements |
| Ordering.StrictlySortedUnique | app.py:163 | two strictly ascending lists with the same elements are equal |
| Frames.MeltFromAt | app.py:83 | melting k rows over n columns gives n·k records, column-major; the record at d·k + i is row i's cell in column d, with its key and heading |
| Frames.Melt | app.py:83 | `melt` with one key column: see MeltFromAt (count and column-major order), MeltFromColumns, MeltFromKeys |
| Frames.MeltFromLast | app.py:97 | the last melted record is the last row's cell in the last column |
| Frames.MeltFromColumns | app.py:83 | every melted record sits under one of the melted columns |
| Frames.MeltFromKeys | app.py:86-89 | melting rows that all carry one key gives records that all carry it |
| Frames.WithKey | app.py:95 | selecting a key keeps exactly the records carrying it |
| Frames.DropIndex | app.py:93 | `Date != "index"` keeps exactly the records of the other columns |
| Frames.WithKeyMelt | app.py:95 | selecting a key after melting is melting the rows with that key |
| Frames.WithKeyMeltSingle | app.py:95 | with distinct keys, selecting one row's key gives that row's series in column order |
| Frames.MeltNoKey | app.py:95 | a key that no row carries selects nothing |
| Frames.SeriesAt | app.py:95-97 | a single row's series has one record per column, the j-th holding the row's j-th cell |
| Zillow.DateColumns | app.py:80 | the header from position 6 on is one column per value column but the first, each headed by its own date, in table order |
| Zillow.RowsOfState | app.py:137 | the rows of a state are exactly the rows whose StateName equals it, and none iff the state does not occur |
| Zillow.StateNames | app.py:81 | the non-missing StateName entries are exactly the states that occur |
| Zillow.GroupKeys | app.py:81 | the groups are the occurring states, each once, ascending |
| Zillow.PicksOfState | app.py:81 | the values a group reduces are value column c of exactly the rows of that state, in table order, i.e. the column of `df[df["StateName"] == g]` |
| Zillow.MeanBetween | app.py:81 | a group mean lies between the least and the greatest value it averages |
| Zillow.GroupFrameKeys | app.py:81-82 | the grouped frame has one row per occurring state and no other, keyed by it, in strictly ascending order of state name |
| Zillow.GroupRowCells | app.py:81-82 | cell j of a state's grouped row is the mean (or sum) of date column j over exactly the rows of that state |
| Zillow.GroupRow | app.py:81-82 | one row of the grouped frame: see GroupRowCells and GroupMeanBetween |
| Zillow.Reduce | app.py:81 | `mean` or `sum` of a non-empty group: see MeanBetween and GroupMeanBetween |
| Zillow.TotalBetween | app.py:246 | a sum of n values that all lie between lo and hi lies between n·lo and n·hi |
| Zillow.GroupMeanBetween | app.py:81-82 | a state's mean in a date column lies between any bounds that every row of the state meets in that column |
| Zillow.StateMeltAt | app.py:80-83 | k groups over n date columns give n·k records; the record at j·k + i is group i's reduced value for date column j |
| Zillow.StateMelt | app.py:80-83 | the grouped frame melted over the date columns: see StateMeltAt, StateMeltDated, StateMeltOfGroup |
| Zillow.StateMeltDated | app.py:83 | every state record is dated |
| Zillow.CountryFrameLast | app.py:84-86 | the last national row ends the country frame, keyed "United States", with its position as `index` cell |
| Zillow.CountryFrame | app.py:84-86 | the national rows keyed "United States" behind their `index` cell: see CountryFrameRows, CountryFrameIndex, CountryFrameSingle |
| Zillow.CountryFrameRows | app.py:84-86 | the country frame has one row per national row; the positions it is built from are exactly the rows whose RegionType is "country", strictly ascending |
| Zillow.CountryFrameIndex | app.py:84-86 | the k-th row of the country frame is the k-th national row, keyed "United States", its table position as `index` cell, then its cells under the date columns |
| Zillow.CountryFrameSingle | app.py:84-86 | with exactly one national row, the country frame is that row alone |
| Zillow.CountryMeltAt | app.py:84-93 | with one national row, the national records are one per date column, the j-th holding that row's value under date column j |
| Zillow.CountryMeltLastTwo | app.py:108-122 | with one national row, the national records end with its values in the last two date columns |
| Zillow.CountryRecords | app.py:84-93 | dropping `index` leaves the national rows melted over the date columns alone, all keyed "United States" and dated |
| Zillow.CountryMelt | app.py:84-89 | the national rows melted with their `index` column: see CountryRecords |
| Zillow.CountryMeltLast | app.py:84-97 | the last national record holds the last national row's value in the last date column |
| Zillow.StateViewParts | app.py:91-93 | the union is the state records followed by the national records, holding no `index` record |
| Zillow.StateView | app.py:91-93 | the union without `index` records: see StateViewParts, StateSeriesOfGroup, CountrySeries |
| Zillow.StateMeltOfGroup | app.py:80-95 | selecting an occurring state from the state records gives its grouped row's series |
| Zillow.StateSeriesOfGroup | app.py:80-95 | selecting an occurring state (not "United States") from the union gives its grouped row's series |
| Zillow.StateMeltWithout | app.py:95 | a name that no state bears selects no state record |
| Zillow.CountrySeries | app.py:84-95 | with no state named "United States", selecting it gives exactly the national records |
| Cities.CityChoices | app.py:160-163 | the options are strictly ascending and are exactly the city names of the state |
| Cities.CityChoicesCanonical | app.py:160-163 | any strictly ascending list of exactly those names is the option list, so it is determined by the table |
| Cities.CityChoicesEmpty | app.py:160-163 | a state has no options iff it has no rows |
| Metrics.PercentChangeInverse | app.py:124 | applying the change to the previous value recovers the last value, and the change is zero iff the values are equal |
| Metrics.PercentChangeRises | app.py:124-125 | for a positive previous value, the change is positive iff the value rose |
| Metrics.PercentChange | app.py:124 | see PercentChangeInverse and PercentChangeRises |
| Metrics.Sign | app.py:125 | `+` exactly for a strictly positive change: see MagnitudeDisplayReads |
| Metrics.SignedDisplay | app.py:126 | the state box as written: see SignedDisplayDrop and DropFromFiftyToForty |
| Metrics.MagnitudeDisplay | app.py:197 | the city box: see MagnitudeDisplayReads |
| Metrics.MagnitudeDisplayReads | app.py:195-197 | the city display prints one sign character, "+" iff the change is strictly positive, and reads back as the change |
| Metrics.SignedDisplayDrop | app.py:124-126 | the state display agrees with the city display for non-negative changes; for a drop it prints "--" and reads back as a rise |
| Metrics.DropFromFiftyToForty | app.py:124-126 | 50 to 40 is a change of -20; the state display prints "--" before 20 and the city display prints "-" before 20 |
| Metrics.StateSeriesMissing | app.py:95 | a name that is neither a state of the table nor "United States" selects nothing |
| Metrics.StateSeries | app.py:91-95 | the selected records: see StateSeriesAt, StateSeriesMissing, CountrySeriesMelt |
| Metrics.StatePrice | app.py:95-98 | see StatePriceOfGroup and CountryPrice |
| Metrics.StateChangeAsWritten | app.py:119-126 | see StateChangeOfGroup, SignedDisplayDrop and Findings |
| Metrics.StateChange | app.py:119-126 | the corrected state box: see StateChangeOfGroup and MagnitudeDisplayReads |
| Metrics.StateSeriesAt | app.py:80-95 | a state's selected records are one per date column; the j-th holds the mean of date column j over its rows |
| Metrics.GroupSeriesLast | app.py:80-83 | a state's series ends with the means of its last two date columns |
| Metrics.StatePriceOfGroup | app.py:80-98 | a state's price is the mean of its rows in the last date column |
| Metrics.StateChangeOfGroup | app.py:104-126 | a state's change compares the means of its last two date columns; corrected it shows the magnitude, as written the signed value |
| Metrics.CountrySeriesMelt | app.py:84-95 | "United States" selects the national rows melted over the date columns |
| Metrics.CountryPrice | app.py:84-98 | the national price is the last national row's value in the last date column, despite the dropped `index` column |
| Metrics.CountrySeriesAt | app.py:84-95 | with one national row, "United States" selects one record per date column, the j-th holding that row's value under date column j |
| Metrics.CountryChange | app.py:108-126 | with one national row, both "United States" change displays compare its values in the last two date columns |
| Metrics.CityColumnsFromHeader | app.py:148 | the city melt's columns (RegionID, SizeRank, RegionType, StateName, then every value column) are exactly the table header without RegionName, in table order |
| Metrics.CityCellsAligned | app.py:148 | the melt keeps every cell of a row under the heading it has in the wide table, and never melts RegionName |
| Metrics.CityRows | app.py:143 | the city's rows are exactly the state's rows with that RegionName, and none iff the city is not in the state |
| Metrics.CityRowsOrder | app.py:137-143 | the city's rows are the table's rows at the increasing positions where both masks hold, none missed, so `Latest` and `Previous` read them in table order |
| Seqs.FilterBoth | app.py:137-143 | selecting with one mask and then another equals selecting with both at once |
| Metrics.CitySeriesMelt | app.py:148-149 | dropping `index` changes nothing in the city melt, which holds (4 + n)·m records |
| Metrics.CitySeries | app.py:148-149 | the melted city records: see CitySeriesMelt, CityLastRecord, CityPreviousRecord |
| Metrics.CityRecordAt | app.py:148 | the record of matching row i under city column j sits at j·m + i |
| Metrics.CityMeltLast | app.py:148-151 | the city melt ends with the last matching row's last value |
| Metrics.CityMeltPreviousRow | app.py:191-192 | with several matching rows, the second-to-last record is the previous row's last value |
| Metrics.CityMeltPreviousColumn | app.py:191-192 | with one matching row, the second-to-last record is its previous column: a value, or its StateName |
| Metrics.CityLastRecord | app.py:148-151 | the last city record is the last matching row under the last value column |
| Metrics.CityPreviousRecord | app.py:184-192 | the second-to-last city record, in all three cases |
| Metrics.CitySeriesTail | app.py:184-192 | the city melt holds at least five records and ends with the latest and previous values |
| Metrics.Latest | app.py:191 | the last matching row's last value: see CitySeriesTail and CityPrice |
| Metrics.Previous | app.py:192 | the value before it in the melt, the previous row's or the previous column's: see CitySeriesTail |
| Metrics.CityPrice | app.py:133-152 | a placeholder iff the city has no row in the state, otherwise the last matching row's last value |
| Metrics.CityChange | app.py:168-197 | the state placeholder iff the state has no rows, the city placeholder iff the city has none; "not enough data" is never returned; otherwise the magnitude of the change |
| Metrics.RowChange | app.py:184-197 | once some rows match, the box shows the magnitude of the change from `Previous` to `Latest`, both read from the melt; covered with one value column when several rows match |
| Metrics.CityChoiceHasPrice | app.py:137-163 | every option of the city selector has a price |

## Left out

- Reading the CSV files, the Shiny layout and styling, reactivity and the
  `input.*` values are not modelled. The selector values, the date range and
  the tables are parameters.
- `ui.update_select` is not modelled. The option list it receives is
  `Cities.CityChoices`.
- The plotly figures and `render.DataGrid` are not modelled. The model stops
  at the records or rows they are given.
- Float formatting is not modelled: `f"${v:,.0f}"`, `f"{x:.2f}%"`, IEEE
  rounding. A value box is a `Display`: the amount or the signed
  percentage as an exact real, together with the sign character printed
  before it.
- `strptime` and `pd.to_datetime` are not modelled. Dates are day numbers,
  and `Selection.FilterByDate` requires every record to be dated, which the
  state records are (`Zillow.StateMeltDated`).
- Missing values are not modelled: every numeric cell is a real. So are
  pandas' NaN-skipping `mean` and `sum`, and `numeric_only`. A missing
  StateName is `None` and is not a group, as in `groupby`.
- Metrics.StatePrice: requires a non-empty selection. The source raises
  `IndexError` on `iloc[-1]` there. This happens for a name that is not a
  state (`Metrics.StateSeriesMissing`), and for "United States" when the
  table has no national row.
- Metrics.StateChange: requires two selected records and a non-zero
  previous value. The source raises `IndexError`, or divides by zero, with
  no guard.
- Metrics.CityChange: requires at least one value column, a non-zero
  previous value, and, when a single row matches, a second value column.
  - With a single value column and a single matching row, the
    second-to-last melted cell is the StateName text
    (`Metrics.CityMeltPreviousColumn`). The source's subtraction then fails.
    With several matching rows it is the previous row's value
    (`Metrics.CityMeltPreviousRow`), and that case is covered.
  - With no value column the last melted cell is the StateName text.
  - A zero previous value divides by zero.
- Metrics.CityPrice: requires at least one value column. With none, the last
  melted cell is the StateName text, which the dollar format rejects.
- Metrics.CountryPrice: requires that no state is named "United States" and
  that there is a last national row. A state of that name would be selected
  along with the national records.
- Metrics.CountryChange: also requires exactly one national row, as the
  Zillow tables have. With several, the last two national records are the
  last two national rows' values in the last date column.
- The state choices come from `state_choices.py`, which is not part of this
  model. Any string may be selected.
- A zero change prints "-", because the code tests `> 0`.
- An empty state selection raises `IndexError` in the state boxes; no
  placeholder is shown there.
- The state box prints the signed value; see Findings.

## Findings

| source | as written | input that shows it | evidently intended | confidence | as-written member | corrected member |
|---|---|---|---|---|---|---|
| app.py:124-126 | the state change box prints the sign character and then the signed percentage, so a drop shows two minus signs | a state whose last two mean prices are 50 and 40: change -20, shown as "--20.00%" | print the magnitude after the sign, "-20.00%", as the city box does with `abs` | high, not executed | Metrics.SignedDisplayDrop | Metrics.MagnitudeDisplayReads |
