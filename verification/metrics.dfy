/**
 * The four value boxes: the latest median list price and its percent change,
 * for the chosen state (`price`, `change`) and for the chosen city
 * (`price2`, `change2`). All four read the median list price table.
 */
module Metrics {
  import opened Seqs
  import opened Frames
  import opened Zillow
  import opened Cities

  /** What a value box shows: a dollar amount, a signed percentage, or a placeholder. */
  datatype Display = Dollars(amount: real) | Percent(sign: char, shown: real) | Message(text: string)

  const NoData: string := "No data available"
  const NoStateData: string := "No data available for this state"
  const NoCityData: string := "No data available for this city"
  const TooFewValues: string := "Not enough data for comparison"

  // ---------------------------------------------------------------------------
  // Percent change and its display
  // ---------------------------------------------------------------------------

  /** `(last - prev) / prev * 100`. */
  function PercentChange(last: real, prev: real): real
    requires prev != 0.0
  {
    (last - prev) / prev * 100.0
  }

  /**
   * The change can be undone: raising `prev` by the change recovers `last`;
   * in particular there is no change exactly when the two values are equal.
   */
  lemma PercentChangeInverse(last: real, prev: real)
    requires prev != 0.0
    ensures prev + prev * PercentChange(last, prev) / 100.0 == last
    ensures PercentChange(last, prev) == 0.0 <==> last == prev
  {
    var q := (last - prev) / prev;
    assert prev * q == last - prev;
    assert PercentChange(last, prev) == q * 100.0;
  }

  /** For a positive previous value, the change is positive exactly when the value rose. */
  lemma PercentChangeRises(last: real, prev: real)
    requires prev > 0.0
    ensures PercentChange(last, prev) > 0.0 <==> last > prev
  {
    var q := (last - prev) / prev;
    assert prev * q == last - prev;
  }

  /** `"+" if change > 0 else "-"`: a zero change is shown with a minus. */
  function Sign(p: real): char {
    if p > 0.0 then '+' else '-'
  }

  /** `change`: the sign, then the change itself, minus sign included. */
  function SignedDisplay(p: real): Display {
    Percent(Sign(p), p)
  }

  /** `change2`: the sign, then the magnitude of the change. */
  function MagnitudeDisplay(p: real): Display {
    Percent(Sign(p), if p < 0.0 then -p else p)
  }

  /** The characters printed before the digits: the sign, then the number's own minus if any. */
  function Prefix(d: Display): string
    requires d.Percent?
  {
    [d.sign] + (if d.shown < 0.0 then "-" else "")
  }

  /** The change a reader takes from the text: the printed number, negated after a `-`. */
  function Denoted(d: Display): real
    requires d.Percent?
  {
    if d.sign == '+' then d.shown else -d.shown
  }

  /**
   * The magnitude display prints exactly one sign character, `+` exactly for
   * a rise, and its text reads back as the change it shows.
   */
  lemma MagnitudeDisplayReads(p: real)
    ensures MagnitudeDisplay(p).Percent?
    ensures Prefix(MagnitudeDisplay(p)) == [Sign(p)]
    ensures Prefix(MagnitudeDisplay(p)) == "+" <==> p > 0.0
    ensures Denoted(MagnitudeDisplay(p)) == p
  {
  }

  /**
   * The signed display agrees with the magnitude display unless the change is
   * negative; then it prints two minus signs and reads back as a rise.
   */
  lemma SignedDisplayDrop(p: real)
    ensures p >= 0.0 ==> SignedDisplay(p) == MagnitudeDisplay(p)
    ensures p < 0.0 ==> Prefix(SignedDisplay(p)) == "--" && Denoted(SignedDisplay(p)) == -p
  {
  }

  /**
   * A fall from 50 to 40 is a change of -20: as written the box prints the
   * characters "--" before "20.00%", which reads back as a rise of 20; the
   * magnitude display prints "-20.00%".
   */
  lemma DropFromFiftyToForty()
    ensures PercentChange(40.0, 50.0) == -20.0
    ensures SignedDisplay(PercentChange(40.0, 50.0)) == Percent('-', -20.0)
    ensures Prefix(SignedDisplay(PercentChange(40.0, 50.0))) == "--"
    ensures Denoted(SignedDisplay(PercentChange(40.0, 50.0))) == 20.0
    ensures MagnitudeDisplay(PercentChange(40.0, 50.0)) == Percent('-', 20.0)
  {
  }

  // ---------------------------------------------------------------------------
  // State value boxes
  // ---------------------------------------------------------------------------

  /** `res[res["StateName"] == state]` on the unioned relation of mean prices. */
  function StateSeries(t: WideTable, state: string): seq<Record<real>>
    requires Aligned(t)
  {
    WithKey(StateView(t, Mean), state)
  }

  /** `price`: the value of the last selected record. */
  function StatePrice(t: WideTable, state: string): Display
    requires Aligned(t) && |StateSeries(t, state)| >= 1
  {
    Dollars(Final(StateSeries(t, state)))
  }

  /** The last two values of the selected records, latest first. */
  function LastTwo(t: WideTable, state: string): (real, real)
    requires Aligned(t) && |StateSeries(t, state)| >= 2
  {
    var s := StateSeries(t, state);
    (Final(s), Penultimate(s))
  }

  /** `change` as written: the signed change after its sign. */
  function StateChangeAsWritten(t: WideTable, state: string): Display
    requires Aligned(t) && |StateSeries(t, state)| >= 2 && LastTwo(t, state).1 != 0.0
  {
    var (last, prev) := LastTwo(t, state);
    SignedDisplay(PercentChange(last, prev))
  }

  /** `change` with the magnitude after the sign, as `change2` prints it. */
  function StateChange(t: WideTable, state: string): Display
    requires Aligned(t) && |StateSeries(t, state)| >= 2 && LastTwo(t, state).1 != 0.0
  {
    var (last, prev) := LastTwo(t, state);
    MagnitudeDisplay(PercentChange(last, prev))
  }

  /** A name that is neither a state of the table nor "United States" selects nothing. */
  lemma StateSeriesMissing(t: WideTable, state: string)
    requires Aligned(t) && !HasState(t.rows, state) && state != UnitedStates
    ensures StateSeries(t, state) == []
  {
    StateViewParts(t, Mean);
    WithKeyConcat(StateMelt(t, Mean), DropIndex(CountryMelt(t)), state);
    StateMeltWithout(t, Mean, state);
    CountryRecords(t);
    WithKeyNone(DropIndex(CountryMelt(t)), state);
  }

  /**
   * For a state of the table, the selected records are one per date column,
   * and the j-th is the mean over the state's rows of date column j.
   */
  lemma StateSeriesAt(t: WideTable, g: string, j: nat)
    requires Aligned(t) && HasState(t.rows, g) && g != UnitedStates && j < DateCount(t)
    ensures |StateSeries(t, g)| == DateCount(t)
    ensures StateSeries(t, g)[j] == Record(g, DateColumn(t.labels[j + 1]), Reduce(Mean, Picks(t.rows, g, j + 1)))
  {
    StateSeriesOfGroup(t, Mean, g);
    SeriesAt(DateColumns(t), GroupRow(t, Mean, g), j);
  }

  /**
   * A state's melted group row `ms` ends with `v` and `w`, the means of its
   * last two date columns.
   */
  lemma GroupSeriesLast(t: WideTable, g: string) returns (ms: seq<Record<real>>, v: real, w: real)
    requires Aligned(t) && HasState(t.rows, g) && DateCount(t) >= 1
    ensures ms == Melt(DateColumns(t), [GroupRow(t, Mean, g)])
    ensures v == Reduce(Mean, Picks(t.rows, g, DateCount(t)))
    ensures DateCount(t) >= 2 ==> w == Reduce(Mean, Picks(t.rows, g, DateCount(t) - 1))
    ensures |ms| == DateCount(t) && EndsIn(ms, v)
    ensures |ms| >= 2 ==> EndsWith(ms, v, w)
  {
    var d, row := DateCount(t), GroupRow(t, Mean, g);
    ms := Melt(DateColumns(t), [row]);
    var c := d - 1;
    SeriesAt(DateColumns(t), row, c);
    v := Reduce(Mean, Picks(t.rows, g, c + 1));
    assert ms[c].value == v;
    w := 0.0;
    if d >= 2 {
      var b := d - 2;
      SeriesAt(DateColumns(t), row, b);
      w := Reduce(Mean, Picks(t.rows, g, b + 1));
      assert ms[b].value == w;
    }
    assert |ms| - 1 == c;
  }

  /** A state's price is the mean of its rows' values in the last date column. */
  lemma StatePriceOfGroup(t: WideTable, g: string)
    requires Aligned(t) && HasState(t.rows, g) && g != UnitedStates && DateCount(t) >= 1
    ensures |StateSeries(t, g)| >= 1
    ensures StatePrice(t, g) == Dollars(Reduce(Mean, Picks(t.rows, g, DateCount(t))))
  {
    var ms, v, w := GroupSeriesLast(t, g);
    StateSeriesOfGroup(t, Mean, g);
    PriceOfSeries(t, g, v);
  }

  /**
   * A state's change compares the means of its last two date columns (the
   * corrected display shows the magnitude; as written it shows the signed value).
   */
  lemma StateChangeOfGroup(t: WideTable, g: string)
    requires Aligned(t) && HasState(t.rows, g) && g != UnitedStates && DateCount(t) >= 2
    requires Reduce(Mean, Picks(t.rows, g, DateCount(t) - 1)) != 0.0
    ensures |StateSeries(t, g)| >= 2 && LastTwo(t, g).1 != 0.0
    ensures var last, prev := Reduce(Mean, Picks(t.rows, g, DateCount(t))), Reduce(Mean, Picks(t.rows, g, DateCount(t) - 1));
      && StateChange(t, g) == MagnitudeDisplay(PercentChange(last, prev))
      && StateChangeAsWritten(t, g) == SignedDisplay(PercentChange(last, prev))
  {
    var ms, v, w := GroupSeriesLast(t, g);
    StateSeriesOfGroup(t, Mean, g);
    ChangeOfSeries(t, g, v, w);
  }

  /** Whatever the selected records are, the price is the value of their last one. */
  lemma PriceOfSeries(t: WideTable, state: string, v: real)
    requires Aligned(t) && EndsIn(StateSeries(t, state), v)
    ensures |StateSeries(t, state)| >= 1 && StatePrice(t, state) == Dollars(v)
  {
  }

  /** With no state named "United States", selecting it gives the national melt behind the `index` column. */
  lemma CountrySeriesMelt(t: WideTable)
    requires Aligned(t) && !HasState(t.rows, UnitedStates)
    ensures Rectangular(CountryColumns(t), CountryFrame(t.rows, 0))
    ensures StateSeries(t, UnitedStates) == MeltFrom(CountryColumns(t), CountryFrame(t.rows, 0), 1)
  {
    CountryRecords(t);
    CountrySeries(t, Mean);
  }

  /**
   * With "United States" selected (and no state of that name), the price is
   * the last national row's value in the last date column, even though the
   * national records carried an extra `index` column before it was dropped.
   */
  lemma CountryPrice(t: WideTable, q: nat)
    requires Aligned(t) && !HasState(t.rows, UnitedStates) && DateCount(t) >= 1
    requires q < |t.rows| && t.rows[q].regionType == CountryType
    requires forall k :: q < k < |t.rows| ==> t.rows[k].regionType != CountryType
    ensures |StateSeries(t, UnitedStates)| >= 1
    ensures StatePrice(t, UnitedStates) == Dollars(t.rows[q].values[|t.labels| - 1])
  {
    var rs, v := CountryMeltLast(t, q);
    CountrySeriesMelt(t);
    PriceOfSeries(t, UnitedStates, v);
  }

  /**
   * With one national row q (and no state named "United States"), selecting
   * "United States" gives one record per date column: the j-th is row q's
   * value under date column j.
   */
  lemma CountrySeriesAt(t: WideTable, q: nat, j: nat)
    requires Aligned(t) && !HasState(t.rows, UnitedStates) && j < DateCount(t)
    requires q < |t.rows| && t.rows[q].regionType == CountryType
    requires forall k :: 0 <= k < |t.rows| && k != q ==> t.rows[k].regionType != CountryType
    ensures |StateSeries(t, UnitedStates)| == DateCount(t)
    ensures StateSeries(t, UnitedStates)[j] == Record(UnitedStates, DateColumn(t.labels[j + 1]), t.rows[q].values[j + 1])
  {
    CountrySeriesMelt(t);
    CountryMeltAt(t, q, j);
  }

  /**
   * With one national row q, the "United States" change box compares q's
   * values in the last two date columns.
   */
  lemma CountryChange(t: WideTable, q: nat)
    requires Aligned(t) && !HasState(t.rows, UnitedStates) && DateCount(t) >= 2
    requires q < |t.rows| && t.rows[q].regionType == CountryType
    requires forall k :: 0 <= k < |t.rows| && k != q ==> t.rows[k].regionType != CountryType
    requires t.rows[q].values[|t.labels| - 2] != 0.0
    ensures |StateSeries(t, UnitedStates)| >= 2 && LastTwo(t, UnitedStates).1 != 0.0
    ensures var last, prev := t.rows[q].values[|t.labels| - 1], t.rows[q].values[|t.labels| - 2];
      && StateChangeAsWritten(t, UnitedStates) == SignedDisplay(PercentChange(last, prev))
      && StateChange(t, UnitedStates) == MagnitudeDisplay(PercentChange(last, prev))
  {
    var v, w := CountrySeriesLastTwo(t, q);
    ChangeOfSeries(t, UnitedStates, v, w);
  }

  /** With one national row q, the "United States" records end with q's last two values. */
  lemma CountrySeriesLastTwo(t: WideTable, q: nat) returns (v: real, w: real)
    requires Aligned(t) && !HasState(t.rows, UnitedStates) && DateCount(t) >= 2
    requires q < |t.rows| && t.rows[q].regionType == CountryType
    requires forall k :: 0 <= k < |t.rows| && k != q ==> t.rows[k].regionType != CountryType
    ensures v == t.rows[q].values[|t.labels| - 1] && w == t.rows[q].values[|t.labels| - 2]
    ensures EndsWith(StateSeries(t, UnitedStates), v, w)
  {
    var rs;
    rs, v, w := CountryMeltLastTwo(t, q);
    CountrySeriesMelt(t);
  }

  /** Whatever the selected records are, both change displays compare their last two values. */
  lemma ChangeOfSeries(t: WideTable, state: string, last: real, prev: real)
    requires Aligned(t) && EndsWith(StateSeries(t, state), last, prev) && prev != 0.0
    ensures |StateSeries(t, state)| >= 2 && LastTwo(t, state).1 != 0.0
    ensures StateChangeAsWritten(t, state) == SignedDisplay(PercentChange(last, prev))
    ensures StateChange(t, state) == MagnitudeDisplay(PercentChange(last, prev))
  {
  }


  // ---------------------------------------------------------------------------
  // City value boxes
  // ---------------------------------------------------------------------------

  /** A cell of the city melt, whose `Value` column mixes numbers and text. */
  datatype Cell = Num(x: real) | Text(s: string) | Missing

  /** A row's StateName cell: the name, or NaN on the national row. */
  function StateCell(row: WideRow): Cell {
    match row.stateName
    case None => Missing
    case Some(s) => Text(s)
  }

  /** A row's cells under `Header`: its ids and texts, then every value. */
  function WideCells(row: WideRow): seq<Cell> {
    [Num(row.regionId as real), Num(row.sizeRank as real), Text(row.regionName), Text(row.regionType), StateCell(row)]
      + seq(|row.values|, k requires 0 <= k < |row.values| => Num(row.values[k]))
  }

  /** The city melt's id column is `RegionName`; every other column is melted. */
  function NotRegionName(c: Column): bool {
    c != IdColumn("RegionName")
  }

  /**
   * The columns `melt(id_vars=["RegionName"])` melts: RegionID, SizeRank,
   * RegionType and StateName, then every value column.
   */
  function CityColumns(t: WideTable): (r: seq<Column>)
    ensures |r| == 4 + |t.labels|
    ensures r[0] == IdColumn("RegionID") && r[1] == IdColumn("SizeRank")
    ensures r[2] == IdColumn("RegionType") && r[3] == IdColumn("StateName")
    ensures forall k :: 4 <= k < |r| ==> r[k] == DateColumn(t.labels[k - 4])
  {
    [IdColumn("RegionID"), IdColumn("SizeRank"), IdColumn("RegionType"), IdColumn("StateName")] + ValueColumns(t)
  }

  /**
   * The melted columns are the table's header without the id column, in
   * table order, as `melt` takes every column not in `id_vars`.
   */
  lemma CityColumnsFromHeader(t: WideTable)
    ensures CityColumns(t) == Filter(Header(t), NotRegionName)
  {
    var before, after := [IdColumn("RegionID"), IdColumn("SizeRank")], [IdColumn("RegionType"), IdColumn("StateName")];
    HeaderAroundName(t);
    MeltedAfterName(t);
    FilterSkip(before, IdColumn("RegionName"), after + ValueColumns(t), NotRegionName);
  }

  /** The header and the city columns, cut around RegionName. */
  lemma HeaderAroundName(t: WideTable)
    ensures var before, after := [IdColumn("RegionID"), IdColumn("SizeRank")], [IdColumn("RegionType"), IdColumn("StateName")];
      && Header(t) == before + [IdColumn("RegionName")] + (after + ValueColumns(t))
      && CityColumns(t) == before + (after + ValueColumns(t))
  {
    var before, after := [IdColumn("RegionID"), IdColumn("SizeRank")], [IdColumn("RegionType"), IdColumn("StateName")];
    assert CityColumns(t) == (before + after) + ValueColumns(t);
  }

  /** Every column after RegionName in the header is melted. */
  lemma MeltedAfterName(t: WideTable)
    ensures forall y :: y in [IdColumn("RegionType"), IdColumn("StateName")] + ValueColumns(t) ==> NotRegionName(y)
  {
    assert "RegionType"[6] != "RegionName"[6];
    assert forall y :: y in ValueColumns(t) ==> y.DateColumn?;
  }

  /** A row's cells under `CityColumns`: its ids and texts, then every value. */
  function CityCells(row: WideRow): (r: seq<Cell>)
    ensures |r| == 4 + |row.values|
    ensures r[0] == Num(row.regionId as real) && r[1] == Num(row.sizeRank as real)
    ensures r[2] == Text(row.regionType) && r[3] == StateCell(row)
    ensures forall k :: 4 <= k < |r| ==> r[k] == Num(row.values[k - 4])
  {
    [Num(row.regionId as real), Num(row.sizeRank as real), Text(row.regionType), StateCell(row)]
      + seq(|row.values|, k requires 0 <= k < |row.values| => Num(row.values[k]))
  }

  /**
   * The city melt keeps every cell under the heading it has in the wide
   * table: the k-th city column and a row's k-th city cell are the header's
   * column and the row's cell at one position, which is not RegionName's.
   */
  lemma CityCellsAligned(t: WideTable, row: WideRow, k: nat)
    requires |row.values| == |t.labels| && k < 4 + |t.labels|
    ensures var h := if k < 2 then k else k + 1;
      && h < |Header(t)| && Header(t)[h] != IdColumn("RegionName")
      && CityColumns(t)[k] == Header(t)[h] && CityCells(row)[k] == WideCells(row)[h]
  {
  }

  /** The rows of the table, keyed by `RegionName`. */
  function CityFrame(t: WideTable, rows: seq<WideRow>): (r: seq<Keyed<Cell>>)
    requires forall row :: row in rows ==> |row.values| == |t.labels|
    ensures |r| == |rows|
    ensures forall i :: 0 <= i < |rows| ==> r[i] == Keyed(rows[i].regionName, CityCells(rows[i]))
    ensures Rectangular(CityColumns(t), r)
  {
    seq(|rows|, i requires 0 <= i < |rows| => Keyed(rows[i].regionName, CityCells(rows[i])))
  }

  /** `df_state[df_state["RegionName"] == city]`, within the chosen state. */
  function CityRows(t: WideTable, state: string, city: string): (r: seq<WideRow>)
    ensures forall row :: row in r <==> row in t.rows && row.stateName == Some(state) && row.regionName == city
    ensures r == [] <==> !CityOf(t.rows, state, city)
  {
    var r := Filter(RowsOfState(t.rows, state), (row: WideRow) => row.regionName == city);
    assert r != [] ==> r[0] in r;
    r
  }

  /** A row of `state` whose RegionName is `city`: both masks of the city selection. */
  predicate InCity(row: WideRow, state: string, city: string) {
    row.stateName == Some(state) && row.regionName == city
  }

  /**
   * The city's rows keep the table's row order: they are the rows at the
   * increasing positions where both masks hold, and none of those is missed.
   * `Latest` and `Previous` therefore read the city's last rows in table order.
   */
  lemma CityRowsOrder(t: WideTable, state: string, city: string)
    ensures SubsequenceAt(CityRows(t, state, city), t.rows,
      Positions(t.rows, (row: WideRow) => InCity(row, state, city)))
    ensures forall p :: 0 <= p < |t.rows| && InCity(t.rows[p], state, city) ==>
      p in Positions(t.rows, (row: WideRow) => InCity(row, state, city))
  {
    FilterBoth(t.rows, (row: WideRow) => row.stateName == Some(state), (row: WideRow) => row.regionName == city,
      (row: WideRow) => InCity(row, state, city));
    FilterIsSubsequence(t.rows, (row: WideRow) => InCity(row, state, city));
  }

  /** The melted city records, without `"index"` records (there are none to drop). */
  function CitySeries(t: WideTable, rows: seq<WideRow>): seq<Record<Cell>>
    requires forall row :: row in rows ==> |row.values| == |t.labels|
  {
    DropIndex(Melt(CityColumns(t), CityFrame(t, rows)))
  }

  /** The latest value: the last value column of the last matching row. */
  function Latest(rows: seq<WideRow>, n: nat): real
    requires rows != [] && n >= 1 && |rows[|rows| - 1].values| == n
  {
    rows[|rows| - 1].values[n - 1]
  }

  /**
   * The value the city change compares against: the last value column of the
   * matching row before the last one, or the row's previous column when only
   * one row matches (which then needs a second value column).
   */
  function Previous(rows: seq<WideRow>, n: nat): real
    requires rows != [] && n >= 1 && (|rows| >= 2 || n >= 2)
    requires forall row :: row in rows ==> |row.values| == n
  {
    if |rows| >= 2 then rows[|rows| - 2].values[n - 1] else rows[0].values[n - 2]
  }

  /** The city melt has no `index` column, so dropping it changes nothing. */
  lemma CitySeriesMelt(t: WideTable, rows: seq<WideRow>)
    requires forall row :: row in rows ==> |row.values| == |t.labels|
    ensures CitySeries(t, rows) == Melt(CityColumns(t), CityFrame(t, rows))
    ensures |CitySeries(t, rows)| == Times(4 + |t.labels|, |rows|)
  {
    var labels, frame := CityColumns(t), CityFrame(t, rows);
    var melted := Melt(labels, frame);
    MeltFromColumns(labels, frame, 0);
    forall x | x in melted ensures x.column != IndexColumn {
      assert x.column in labels[0..];
    }
    DropIndexAll(melted);
  }

  /**
   * The melt of m matching rows holds (4 + n) * m records and ends with the
   * last value column, so its last two records are the ones `Latest` and
   * `Previous` describe.
   */
  lemma CitySeriesTail(t: WideTable, rows: seq<WideRow>)
    requires forall row :: row in rows ==> |row.values| == |t.labels|
    requires rows != [] && |t.labels| >= 1 && (|rows| >= 2 || |t.labels| >= 2)
    ensures var s, m, n := CitySeries(t, rows), |rows|, |t.labels|;
      && |s| >= 5
      && s[|s| - 1] == Record(rows[m - 1].regionName, DateColumn(t.labels[n - 1]), Num(Latest(rows, n)))
      && s[|s| - 2].value == Num(Previous(rows, n))
  {
    CityLastRecord(t, rows);
    CityPreviousRecord(t, rows);
  }

  /** The last record of the city melt: the last row under the last value column. */
  lemma CityLastRecord(t: WideTable, rows: seq<WideRow>)
    requires forall row :: row in rows ==> |row.values| == |t.labels|
    requires rows != [] && |t.labels| >= 1
    ensures var s, m, n := CitySeries(t, rows), |rows|, |t.labels|;
      && |s| >= 5
      && s[|s| - 1] == Record(rows[m - 1].regionName, DateColumn(t.labels[n - 1]), Num(Latest(rows, n)))
  {
    CitySeriesMelt(t, rows);
    CityMeltLast(t, rows);
    var s, ms := CitySeries(t, rows), Melt(CityColumns(t), CityFrame(t, rows));
    SameRecord(s, ms, |ms| - 1);
  }

  /**
   * The second-to-last record of the city melt: the previous row under the
   * last value column, or, when only one row matches, that row under the
   * column before the last one, which is its StateName when there is a
   * single value column.
   */
  lemma CityPreviousRecord(t: WideTable, rows: seq<WideRow>)
    requires forall row :: row in rows ==> |row.values| == |t.labels|
    requires rows != [] && |t.labels| >= 1
    ensures var s, m, n := CitySeries(t, rows), |rows|, |t.labels|;
      && |s| >= 5
      && (m >= 2 ==> s[|s| - 2] == Record(rows[m - 2].regionName, DateColumn(t.labels[n - 1]), Num(rows[m - 2].values[n - 1])))
      && (m == 1 && n >= 2 ==> s[|s| - 2] == Record(rows[0].regionName, DateColumn(t.labels[n - 2]), Num(rows[0].values[n - 2])))
      && (m == 1 && n == 1 ==> s[|s| - 2] == Record(rows[0].regionName, IdColumn("StateName"), StateCell(rows[0])))
  {
    CitySeriesMelt(t, rows);
    var s, ms := CitySeries(t, rows), Melt(CityColumns(t), CityFrame(t, rows));
    if |rows| >= 2 {
      CityMeltPreviousRow(t, rows);
      SameRecord(s, ms, |ms| - 2);
    } else {
      CityMeltPreviousColumn(t, rows);
      SameRecord(s, ms, |ms| - 2);
    }
  }

  /** The melt ends with the last row under the last value column. */
  lemma CityMeltLast(t: WideTable, rows: seq<WideRow>)
    requires forall row :: row in rows ==> |row.values| == |t.labels|
    requires rows != [] && |t.labels| >= 1
    ensures var ms, m, n := Melt(CityColumns(t), CityFrame(t, rows)), |rows|, |t.labels|;
      && |ms| >= 5
      && ms[|ms| - 1] == Record(rows[m - 1].regionName, DateColumn(t.labels[n - 1]), Num(Latest(rows, n)))
  {
    var m, n := |rows|, |t.labels|;
    var ms := Melt(CityColumns(t), CityFrame(t, rows));
    TailIndices(m, n);
    CityRecordAt(t, rows, 3 + n, m - 1);
    assert rows[m - 1] in rows;
    SameIndex(ms, Times(3 + n, m) + (m - 1), |ms| - 1);
    assert CityColumns(t)[3 + n] == DateColumn(t.labels[n - 1]);
    assert CityCells(rows[m - 1])[3 + n] == Num(Latest(rows, n));
  }

  /** With several matching rows, the melt's second-to-last record is the previous row's last value. */
  lemma CityMeltPreviousRow(t: WideTable, rows: seq<WideRow>)
    requires forall row :: row in rows ==> |row.values| == |t.labels|
    requires |rows| >= 2 && |t.labels| >= 1
    ensures var ms, m, n := Melt(CityColumns(t), CityFrame(t, rows)), |rows|, |t.labels|;
      && |ms| >= 5
      && ms[|ms| - 2] == Record(rows[m - 2].regionName, DateColumn(t.labels[n - 1]), Num(rows[m - 2].values[n - 1]))
  {
    var m, n := |rows|, |t.labels|;
    var ms := Melt(CityColumns(t), CityFrame(t, rows));
    TailIndices(m, n);
    CityRecordAt(t, rows, 3 + n, m - 2);
    assert rows[m - 2] in rows;
    SameIndex(ms, Times(3 + n, m) + (m - 2), |ms| - 2);
    assert CityColumns(t)[3 + n] == DateColumn(t.labels[n - 1]);
    assert CityCells(rows[m - 2])[3 + n] == Num(rows[m - 2].values[n - 1]);
  }

  /**
   * With a single matching row, the melt's second-to-last record is that row
   * under the column before the last: its previous value, or its StateName.
   */
  lemma CityMeltPreviousColumn(t: WideTable, rows: seq<WideRow>)
    requires forall row :: row in rows ==> |row.values| == |t.labels|
    requires |rows| == 1 && |t.labels| >= 1
    ensures var ms, n := Melt(CityColumns(t), CityFrame(t, rows)), |t.labels|;
      && |ms| >= 5
      && (n >= 2 ==> ms[|ms| - 2] == Record(rows[0].regionName, DateColumn(t.labels[n - 2]), Num(rows[0].values[n - 2])))
      && (n == 1 ==> ms[|ms| - 2] == Record(rows[0].regionName, IdColumn("StateName"), StateCell(rows[0])))
  {
    var n := |t.labels|;
    var ms := Melt(CityColumns(t), CityFrame(t, rows));
    TailIndices(1, n);
    CityRecordAt(t, rows, 2 + n, 0);
    assert rows[0] in rows;
    assert ms[|ms| - 2] == Record(rows[0].regionName, CityColumns(t)[2 + n], CityCells(rows[0])[2 + n]);
    if n >= 2 {
      assert CityColumns(t)[2 + n] == DateColumn(t.labels[n - 2]);
      assert CityCells(rows[0])[2 + n] == Num(rows[0].values[n - 2]);
    } else {
      assert CityColumns(t)[3] == IdColumn("StateName");
    }
  }

  /** The record of row i under city column j sits at position j * m + i of the melt. */
  lemma CityRecordAt(t: WideTable, rows: seq<WideRow>, j: nat, i: nat)
    requires forall row :: row in rows ==> |row.values| == |t.labels|
    requires j < 4 + |t.labels| && i < |rows|
    ensures var ms := Melt(CityColumns(t), CityFrame(t, rows));
      && |ms| == Times(4 + |t.labels|, |rows|)
      && var p := Times(j, |rows|) + i;
        p < |ms| && ms[p] == Record(rows[i].regionName, CityColumns(t)[j], CityCells(rows[i])[j])
  {
    var labels, frame := CityColumns(t), CityFrame(t, rows);
    assert rows[i] in rows;
    assert frame[i] == Keyed(rows[i].regionName, CityCells(rows[i]));
    MeltAt(labels, frame, j, i, |rows|, rows[i].regionName, labels[j], CityCells(rows[i])[j]);
  }

  /** The positions of the last two records of a melt of m rows over 4 + n columns. */
  lemma TailIndices(m: nat, n: nat)
    requires m >= 1 && n >= 1
    ensures Times(4 + n, m) >= 5
    ensures Times(3 + n, m) + (m - 1) == Times(4 + n, m) - 1
    ensures m >= 2 ==> Times(3 + n, m) + (m - 2) == Times(4 + n, m) - 2
    ensures m == 1 ==> Times(2 + n, m) + 0 == Times(4 + n, m) - 2
  {
    TimesAtLeast(3 + n, m);
    if m == 1 {
      TimesIsProduct(4 + n, 1);
      TimesIsProduct(2 + n, 1);
    }
  }

  /** `price2`: a placeholder unless some row of the state bears the city's name. */
  function CityPrice(t: WideTable, state: string, city: string): (r: Display)
    requires Aligned(t) && |t.labels| >= 1
    ensures r.Message? <==> !CityOf(t.rows, state, city)
    ensures r.Message? ==> r == Message(NoData)
    ensures CityOf(t.rows, state, city) ==> r == Dollars(Latest(CityRows(t, state, city), |t.labels|))
  {
    if RowsOfState(t.rows, state) == [] then Message(NoData)
    else
      var rows := CityRows(t, state, city);
      if rows == [] then Message(NoData)
      else
        CityLastRecord(t, rows);
        var s := CitySeries(t, rows);
        Dollars(s[|s| - 1].value.x)
  }

  /**
   * `change2`: a placeholder for a state without rows, then for a city
   * without rows; otherwise the magnitude of the change between the last two
   * melted values. The "not enough data" placeholder is never returned,
   * because the melt of a matching row always holds at least five records.
   */
  function CityChange(t: WideTable, state: string, city: string): (r: Display)
    requires Aligned(t) && |t.labels| >= 1
    requires CityOf(t.rows, state, city) ==>
      var rows := CityRows(t, state, city);
      (|rows| >= 2 || |t.labels| >= 2) && Previous(rows, |t.labels|) != 0.0
    ensures r == Message(NoStateData) <==> !HasState(t.rows, state)
    ensures r == Message(NoCityData) <==> HasState(t.rows, state) && !CityOf(t.rows, state, city)
    ensures r != Message(TooFewValues)
    ensures CityOf(t.rows, state, city) ==>
      var rows := CityRows(t, state, city);
      r == MagnitudeDisplay(PercentChange(Latest(rows, |t.labels|), Previous(rows, |t.labels|)))
  {
    if RowsOfState(t.rows, state) == [] then Message(NoStateData)
    else
      var rows := CityRows(t, state, city);
      if rows == [] then Message(NoCityData)
      else
        RowChange(t, rows)
  }

  /**
   * `change2` once some rows match: the change between the last two values
   * of their melt, which are `Latest` and `Previous`.
   */
  function RowChange(t: WideTable, rows: seq<WideRow>): (r: Display)
    requires forall row :: row in rows ==> |row.values| == |t.labels|
    requires rows != [] && |t.labels| >= 1 && (|rows| >= 2 || |t.labels| >= 2)
    requires Previous(rows, |t.labels|) != 0.0
    ensures r == MagnitudeDisplay(PercentChange(Latest(rows, |t.labels|), Previous(rows, |t.labels|)))
  {
    var s, n := CitySeries(t, rows), |t.labels|;
    CitySeriesTail(t, rows);
    assert |s| >= 2 && s[|s| - 1].value == Num(Latest(rows, n)) && s[|s| - 2].value == Num(Previous(rows, n));
    MeltedChange(s, Latest(rows, n), Previous(rows, n))
  }

  /**
   * The tail of `change2` on melted records that end with `last` and `prev`:
   * the "not enough data" placeholder below two records, otherwise the
   * magnitude of the change.
   */
  function MeltedChange(s: seq<Record<Cell>>, last: real, prev: real): (r: Display)
    requires |s| >= 2 ==> s[|s| - 1].value == Num(last) && s[|s| - 2].value == Num(prev) && prev != 0.0
    ensures r == Message(TooFewValues) <==> |s| < 2
    ensures |s| >= 2 ==> r == MagnitudeDisplay(PercentChange(last, prev))
  {
    if |s| < 2 then Message(TooFewValues)
    else MagnitudeDisplay(PercentChange(s[|s| - 1].value.x, s[|s| - 2].value.x))
  }

  /** Every option of the city selector has a price. */
  lemma CityChoiceHasPrice(t: WideTable, state: string, city: string)
    requires Aligned(t) && |t.labels| >= 1 && city in CityChoices(t, state)
    ensures CityPrice(t, state, city).Dollars?
  {
  }
}
