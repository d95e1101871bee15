/**
 * The three Zillow tables (median list price, for-sale inventory, new
 * listings) and the reshape that the state-level views build from them:
 * group by `StateName`, melt the date columns, and append the country row
 * relabelled "United States".
 */
module Zillow {
  import opened Seqs
  import opened Ordering
  import opened Frames

  datatype Option<T> = None | Some(value: T)

  /** The state selector's name for the whole country. */
  const UnitedStates: string := "United States"

  /** The `RegionType` of the national row. */
  const CountryType: string := "country"

  /**
   * One row of a wide table. Its columns are RegionID, SizeRank, RegionName,
   * RegionType and StateName (missing on the national row), then one numeric
   * cell per remaining column: `values[k]` is column 5 + k.
   */
  datatype WideRow = WideRow(
    regionId: int,
    sizeRank: int,
    regionName: string,
    regionType: string,
    stateName: Option<string>,
    values: seq<real>)

  /**
   * A wide table: `labels[k]` is the date (a day number) heading column 5 + k.
   * The dashboard's date columns are `columns[6:]`, i.e. `labels[1..]`.
   */
  datatype WideTable = WideTable(labels: seq<int>, rows: seq<WideRow>)

  /** Every row has one value per value column. */
  predicate Aligned(t: WideTable) {
    forall row :: row in t.rows ==> |row.values| == |t.labels|
  }

  /** `columns[6:]`: the number of date columns. */
  function DateCount(t: WideTable): nat {
    if |t.labels| == 0 then 0 else |t.labels| - 1
  }

  /** The headings of the five descriptive columns, in table order. */
  const Descriptive: seq<Column> :=
    [IdColumn("RegionID"), IdColumn("SizeRank"), IdColumn("RegionName"), IdColumn("RegionType"), IdColumn("StateName")]

  /** The headings of the value columns, in table order. */
  function ValueColumns(t: WideTable): (r: seq<Column>)
    ensures |r| == |t.labels|
    ensures forall k :: 0 <= k < |r| ==> r[k] == DateColumn(t.labels[k])
  {
    seq(|t.labels|, k requires 0 <= k < |t.labels| => DateColumn(t.labels[k]))
  }

  /** `df.columns`: the descriptive columns, then the value columns. */
  function Header(t: WideTable): seq<Column> {
    Descriptive + ValueColumns(t)
  }

  /**
   * `columns[6:]`: the headings from position 6 on. They are the dates of
   * every value column but the first, in table order.
   */
  function DateColumns(t: WideTable): (r: seq<Column>)
    ensures |r| == DateCount(t)
    ensures forall k :: 0 <= k < |r| ==> r[k] == DateColumn(t.labels[k + 1])
  {
    var header := Header(t);
    if |header| < 6 then [] else header[6..]
  }

  /** A row's cells under `columns[6:]`. */
  function DateCells(row: WideRow): seq<real> {
    if row.values == [] then [] else row.values[1..]
  }

  /** Some row of `rows` belongs to state `g`. */
  ghost predicate HasState(rows: seq<WideRow>, g: string) {
    exists row :: row in rows && row.stateName == Some(g)
  }

  /** `df[df["StateName"] == state]`: the rows of one state, in table order. */
  function RowsOfState(rows: seq<WideRow>, state: string): (r: seq<WideRow>)
    ensures forall row :: row in r <==> row in rows && row.stateName == Some(state)
    ensures r == [] <==> !HasState(rows, state)
  {
    var r := Filter(rows, (row: WideRow) => row.stateName == Some(state));
    assert r != [] ==> r[0] in r;
    r
  }

  /** The non-missing entries of the StateName column, in row order. */
  function StateNames(rows: seq<WideRow>): (r: seq<string>)
    ensures forall g :: g in r <==> HasState(rows, g)
    decreases |rows|
  {
    if rows == [] then []
    else
      assert forall row :: row in rows <==> row == rows[0] || row in rows[1..];
      match rows[0].stateName
      case None => StateNames(rows[1..])
      case Some(g) => [g] + StateNames(rows[1..])
  }

  /** The groups of `groupby("StateName")`: every state that occurs, once, ascending. */
  function GroupKeys(t: WideTable): (r: seq<string>)
    ensures StrictlySorted(r)
    ensures forall g :: g in r <==> HasState(t.rows, g)
  {
    SortedDistinct(StateNames(t.rows))
  }

  /** Value column c of the rows of state g, in row order. */
  function Picks(rows: seq<WideRow>, g: string, c: nat): (r: seq<real>)
    requires forall row :: row in rows ==> c < |row.values|
    ensures |r| <= |rows|
    ensures HasState(rows, g) ==> r != []
    decreases |rows|
  {
    if rows == [] then []
    else
      assert forall row :: row in rows <==> row == rows[0] || row in rows[1..];
      var rest := Picks(rows[1..], g, c);
      if rows[0].stateName == Some(g) then [rows[0].values[c]] + rest else rest
  }

  /** `rows[column]`: value column c of some rows, in row order. */
  function ColumnOf(rows: seq<WideRow>, c: nat): seq<real>
    requires forall row :: row in rows ==> c < |row.values|
  {
    seq(|rows|, i requires 0 <= i < |rows| => rows[i].values[c])
  }

  /**
   * `Picks` takes value column c of exactly the rows of state g, in row
   * order: it is the column of `df[df["StateName"] == g]`.
   */
  lemma {:induction false} PicksOfState(rows: seq<WideRow>, g: string, c: nat)
    requires forall row :: row in rows ==> c < |row.values|
    ensures Picks(rows, g, c) == ColumnOf(RowsOfState(rows, g), c)
    decreases |rows|
  {
    if rows != [] {
      assert forall row :: row in rows[1..] ==> row in rows;
      PicksOfState(rows[1..], g, c);
      var rest := RowsOfState(rows[1..], g);
      RowsOfStateCons(rows, g);
      if rows[0].stateName == Some(g) {
        ColumnOfCons(rows[0], rest, c);
      }
    }
  }

  /** The rows of a state: the first row if it belongs to it, then those of the rest. */
  lemma RowsOfStateCons(rows: seq<WideRow>, g: string)
    requires rows != []
    ensures RowsOfState(rows, g)
         == (if rows[0].stateName == Some(g) then [rows[0]] else []) + RowsOfState(rows[1..], g)
  {
  }

  lemma ColumnOfCons(row: WideRow, rest: seq<WideRow>, c: nat)
    requires c < |row.values| && forall r :: r in rest ==> c < |r.values|
    ensures ColumnOf([row] + rest, c) == [row.values[c]] + ColumnOf(rest, c)
  {
  }

  /** The reducer of a `groupby`: `mean` for prices, `sum` for counts. */
  datatype Reducer = Mean | Sum

  function Total(xs: seq<real>): real
    decreases |xs|
  {
    if xs == [] then 0.0 else xs[0] + Total(xs[1..])
  }

  function Reduce(reducer: Reducer, xs: seq<real>): real
    requires xs != []
  {
    match reducer
    case Sum => Total(xs)
    case Mean => Total(xs) / (|xs| as real)
  }

  /**
   * A mean lies between the least and the greatest of the values it averages
   * (a sum of values in [lo, hi] lies between n * lo and n * hi).
   */
  lemma {:induction false} TotalBetween(xs: seq<real>, lo: real, hi: real)
    requires forall x :: x in xs ==> lo <= x <= hi
    ensures (|xs| as real) * lo <= Total(xs) <= (|xs| as real) * hi
    decreases |xs|
  {
    if xs != [] {
      assert forall x :: x in xs[1..] ==> x in xs;
      TotalBetween(xs[1..], lo, hi);
      assert xs[0] in xs;
    }
  }

  lemma MeanBetween(xs: seq<real>, lo: real, hi: real)
    requires xs != []
    requires forall x :: x in xs ==> lo <= x <= hi
    ensures lo <= Reduce(Mean, xs) <= hi
  {
    TotalBetween(xs, lo, hi);
    var n := |xs| as real;
    assert n * lo <= Total(xs) <= n * hi;
    assert lo == (n * lo) / n && hi == (n * hi) / n;
  }

  /** One row of `df.groupby("StateName").<reducer>()[date_columns].reset_index()`. */
  function GroupRow(t: WideTable, reducer: Reducer, g: string): (r: Keyed<real>)
    requires Aligned(t) && HasState(t.rows, g)
    ensures r.key == g && |r.cells| == DateCount(t)
    ensures forall j :: 0 <= j < DateCount(t) ==> r.cells[j] == Reduce(reducer, Picks(t.rows, g, j + 1))
  {
    Keyed(g, seq(DateCount(t), j requires 0 <= j < DateCount(t) => Reduce(reducer, Picks(t.rows, g, j + 1))))
  }

  /** The grouped frame: one row per state, in ascending order of state name. */
  function GroupFrame(t: WideTable, reducer: Reducer): (r: seq<Keyed<real>>)
    requires Aligned(t)
    ensures |r| == |GroupKeys(t)|
    ensures forall i :: 0 <= i < |r| ==> r[i] == GroupRow(t, reducer, GroupKeys(t)[i])
    ensures Rectangular(DateColumns(t), r)
  {
    var keys := GroupKeys(t);
    seq(|keys|, i requires 0 <= i < |keys| => GroupRow(t, reducer, keys[i]))
  }

  /**
   * The grouped frame has one row per state that occurs and no other, keyed
   * by it, in strictly ascending order of state name.
   */
  lemma GroupFrameKeys(t: WideTable, reducer: Reducer)
    requires Aligned(t)
    ensures var frame := GroupFrame(t, reducer);
      && (forall i, j :: 0 <= i < j < |frame| ==> Below(frame[i].key, frame[j].key))
      && (forall g :: HasState(t.rows, g) <==> exists i :: 0 <= i < |frame| && frame[i].key == g)
  {
    var keys, frame := GroupKeys(t), GroupFrame(t, reducer);
    forall g | HasState(t.rows, g) ensures exists i :: 0 <= i < |frame| && frame[i].key == g {
      var i :| 0 <= i < |keys| && keys[i] == g;
      assert frame[i].key == g;
    }
  }

  /**
   * Cell j of a state's grouped row reduces date column j over exactly the
   * rows of that state, in table order.
   */
  lemma GroupRowCells(t: WideTable, reducer: Reducer, g: string, j: nat)
    requires Aligned(t) && HasState(t.rows, g) && j < DateCount(t)
    ensures RowsOfState(t.rows, g) != []
    ensures GroupRow(t, reducer, g).cells[j] == Reduce(reducer, ColumnOf(RowsOfState(t.rows, g), j + 1))
  {
    PicksOfState(t.rows, g, j + 1);
  }

  /**
   * A state's mean in a date column lies between any bounds that hold for
   * every row of the state in that column.
   */
  lemma GroupMeanBetween(t: WideTable, g: string, j: nat, lo: real, hi: real)
    requires Aligned(t) && HasState(t.rows, g) && j < DateCount(t)
    requires forall row :: row in t.rows && row.stateName == Some(g) ==> lo <= row.values[j + 1] <= hi
    ensures lo <= GroupRow(t, Mean, g).cells[j] <= hi
  {
    GroupRowCells(t, Mean, g, j);
    var rows := RowsOfState(t.rows, g);
    var xs := ColumnOf(rows, j + 1);
    forall x | x in xs ensures lo <= x <= hi {
      var i :| 0 <= i < |rows| && xs[i] == x;
      assert rows[i] in rows;
    }
    MeanBetween(xs, lo, hi);
  }

  /** The state records: the grouped frame melted over the date columns. */
  function StateMelt(t: WideTable, reducer: Reducer): seq<Record<real>>
    requires Aligned(t)
  {
    Melt(DateColumns(t), GroupFrame(t, reducer))
  }

  /**
   * A national row as the country frame holds it: keyed "United States", its
   * `index` cell (its table position p) first, then its cells under the date columns.
   */
  function National(row: WideRow, p: nat): Keyed<real> {
    Keyed(UnitedStates, [p as real] + DateCells(row))
  }

  /**
   * `df[df["RegionType"] == "country"][date_columns].reset_index()` with
   * StateName set to "United States": each national row keyed "United
   * States", its `index` cell (its position p in the table) first.
   */
  function CountryFrame(rows: seq<WideRow>, p: nat): (r: seq<Keyed<real>>)
    ensures forall k :: k in r ==> k.key == UnitedStates
    decreases |rows|
  {
    if rows == [] then []
    else
      var rest := CountryFrame(rows[1..], p + 1);
      if rows[0].regionType == CountryType
      then [National(rows[0], p)] + rest
      else rest
  }

  lemma {:induction false} CountryFrameShape(rows: seq<WideRow>, p: nat, n: nat)
    requires forall row :: row in rows ==> |DateCells(row)| == n
    ensures forall k :: k in CountryFrame(rows, p) ==> |k.cells| == n + 1
    decreases |rows|
  {
    if rows != [] {
      assert forall row :: row in rows[1..] ==> row in rows;
      CountryFrameShape(rows[1..], p + 1, n);
      assert rows[0] in rows;
    }
  }

  lemma {:induction false} CountryFrameNone(rows: seq<WideRow>, p: nat)
    requires forall k :: 0 <= k < |rows| ==> rows[k].regionType != CountryType
    ensures CountryFrame(rows, p) == []
    decreases |rows|
  {
    if rows != [] {
      CountryFrameNone(rows[1..], p + 1);
    }
  }

  /**
   * The last national row (at position q, counting from p) is the last row of
   * the country frame: its position, then its cells under the date columns.
   */
  lemma {:induction false} CountryFrameLast(rows: seq<WideRow>, p: nat, q: nat)
    requires q < |rows| && rows[q].regionType == CountryType
    requires forall k :: q < k < |rows| ==> rows[k].regionType != CountryType
    ensures CountryFrame(rows, p) != []
    ensures CountryFrame(rows, p)[|CountryFrame(rows, p)| - 1]
         == National(rows[q], p + q)
    decreases |rows|
  {
    if q == 0 {
      CountryFrameNone(rows[1..], p + 1);
    } else {
      CountryFrameLast(rows[1..], p + 1, q - 1);
    }
  }

  /** The mask `df["RegionType"] == "country"`. */
  predicate IsCountry(row: WideRow) {
    row.regionType == CountryType
  }

  lemma {:induction false} CountryFrameLength(rows: seq<WideRow>, p: nat)
    ensures |CountryFrame(rows, p)| == |Positions(rows, IsCountry)|
    decreases |rows|
  {
    if rows != [] {
      CountryFrameLength(rows[1..], p + 1);
    }
  }

  /**
   * The k-th row of the country frame is the k-th national row, keyed "United
   * States", behind its `index` cell (its table position, counted from p).
   */
  lemma {:induction false} CountryFrameIndex(rows: seq<WideRow>, p: nat, k: nat)
    requires k < |Positions(rows, IsCountry)|
    ensures Positions(rows, IsCountry)[k] < |rows|
    ensures k < |CountryFrame(rows, p)|
    ensures var q := Positions(rows, IsCountry)[k];
      CountryFrame(rows, p)[k] == National(rows[q], p + q)
    decreases |rows|
  {
    CountryFrameLength(rows, p);
    var rest, tail := CountryFrame(rows[1..], p + 1), Positions(rows[1..], IsCountry);
    if IsCountry(rows[0]) && k == 0 {
    } else {
      var m := if IsCountry(rows[0]) then k - 1 else k;
      assert Positions(rows, IsCountry)[k] == tail[m] + 1;
      assert CountryFrame(rows, p)[k] == rest[m];
      CountryFrameIndex(rows[1..], p + 1, m);
      assert rows[1..][tail[m]] == rows[tail[m] + 1];
    }
  }

  /** The national positions are exactly the rows whose RegionType is "country", ascending. */
  lemma NationalPositions(rows: seq<WideRow>)
    ensures var ps := Positions(rows, IsCountry);
      && (forall k :: 0 <= k < |ps| ==> ps[k] < |rows| && rows[ps[k]].regionType == CountryType)
      && (forall i, j :: 0 <= i < j < |ps| ==> ps[i] < ps[j])
      && (forall q :: 0 <= q < |rows| && rows[q].regionType == CountryType ==> q in ps)
  {
    FilterIsSubsequence(rows, IsCountry);
    var ps := Positions(rows, IsCountry);
    forall k | 0 <= k < |ps| ensures IsCountry(rows[ps[k]]) {
      assert Filter(rows, IsCountry)[k] in Filter(rows, IsCountry);
    }
  }

  /**
   * The country frame has one row per national row: the positions it is built
   * from are exactly the rows whose RegionType is "country", in ascending
   * table order (`CountryFrameIndex` gives the row at each of them).
   */
  lemma CountryFrameRows(rows: seq<WideRow>, p: nat)
    ensures var ps := Positions(rows, IsCountry);
      && |CountryFrame(rows, p)| == |ps|
      && (forall k :: 0 <= k < |ps| ==> ps[k] < |rows| && rows[ps[k]].regionType == CountryType)
      && (forall i, j :: 0 <= i < j < |ps| ==> ps[i] < ps[j])
      && (forall q :: 0 <= q < |rows| && rows[q].regionType == CountryType ==> q in ps)
  {
    CountryFrameLength(rows, p);
    NationalPositions(rows);
  }

  /** With exactly one national row, at q (counting from p), the country frame is that row alone. */
  lemma {:induction false} CountryFrameSingle(rows: seq<WideRow>, p: nat, q: nat)
    requires q < |rows| && rows[q].regionType == CountryType
    requires forall k :: 0 <= k < |rows| && k != q ==> rows[k].regionType != CountryType
    ensures CountryFrame(rows, p) == [National(rows[q], p + q)]
    decreases |rows|
  {
    if q == 0 {
      CountryFrameNone(rows[1..], p + 1);
    } else {
      assert rows[0].regionType != CountryType;
      CountryFrameSingle(rows[1..], p + 1, q - 1);
    }
  }

  function CountryColumns(t: WideTable): seq<Column> {
    [IndexColumn] + DateColumns(t)
  }

  /** The country records, `index` column first, before the stray column is dropped. */
  function CountryMelt(t: WideTable): seq<Record<real>>
    requires Aligned(t)
  {
    var frame := CountryFrame(t.rows, 0);
    assert forall row :: row in t.rows ==> |DateCells(row)| == DateCount(t);
    CountryFrameShape(t.rows, 0, DateCount(t));
    Melt(CountryColumns(t), frame)
  }

  /** `concat([states, country])` without its `"index"` records. */
  function StateView(t: WideTable, reducer: Reducer): seq<Record<real>>
    requires Aligned(t)
  {
    DropIndex(StateMelt(t, reducer) + CountryMelt(t))
  }

  /**
   * The melt of k groups over n date columns holds k * n records; the record
   * at position j * k + i is group i's reduced value for date column j.
   */
  lemma StateMeltAt(t: WideTable, reducer: Reducer, j: nat, i: nat)
    requires Aligned(t) && j < DateCount(t) && i < |GroupKeys(t)|
    ensures |StateMelt(t, reducer)| == Times(DateCount(t), |GroupKeys(t)|)
    ensures var p := Times(j, |GroupKeys(t)|) + i;
      && p < |StateMelt(t, reducer)|
      && StateMelt(t, reducer)[p]
         == Record(GroupKeys(t)[i], DateColumn(t.labels[j + 1]),
                   Reduce(reducer, Picks(t.rows, GroupKeys(t)[i], j + 1)))
  {
    var keys, frame := GroupKeys(t), GroupFrame(t, reducer);
    var g := keys[i];
    MeltAt(DateColumns(t), frame, j, i, |keys|, g, DateColumn(t.labels[j + 1]), Reduce(reducer, Picks(t.rows, g, j + 1)));
  }

  /** Every state record is dated: it comes from one of the date columns. */
  lemma StateMeltDated(t: WideTable, reducer: Reducer)
    requires Aligned(t)
    ensures forall x :: x in StateMelt(t, reducer) ==> x.column.DateColumn?
  {
    MeltFromColumns(DateColumns(t), GroupFrame(t, reducer), 0);
    assert DateColumns(t)[0..] == DateColumns(t);
  }

  /**
   * The country records without the stray `index` column: the national rows
   * melted over the date columns alone, all keyed "United States".
   */
  lemma CountryRecords(t: WideTable)
    requires Aligned(t)
    ensures var frame := CountryFrame(t.rows, 0);
      && Rectangular(CountryColumns(t), frame)
      && DropIndex(CountryMelt(t)) == MeltFrom(CountryColumns(t), frame, 1)
      && forall x :: x in DropIndex(CountryMelt(t)) ==> x.key == UnitedStates && x.column.DateColumn?
  {
    var labels, frame := CountryColumns(t), CountryFrame(t.rows, 0);
    assert forall row :: row in t.rows ==> |DateCells(row)| == DateCount(t);
    CountryFrameShape(t.rows, 0, DateCount(t));
    var block, rest := Block(frame, IndexColumn, 0), MeltFrom(labels, frame, 1);
    assert CountryMelt(t) == block + rest;
    DropIndexConcat(block, rest);
    DropIndexNone(block);
    MeltFromColumns(labels, frame, 1);
    assert forall c :: c in labels[1..] ==> c.DateColumn?;
    DropIndexAll(rest);
    MeltFromKeys(labels, frame, 0, UnitedStates);
  }

  /**
   * The last national record (after the `index` records are dropped) is the
   * last national row's value in the last date column.
   */
  lemma CountryMeltLast(t: WideTable, q: nat) returns (rs: seq<Record<real>>, v: real)
    requires Aligned(t) && DateCount(t) >= 1
    requires q < |t.rows| && t.rows[q].regionType == CountryType
    requires forall k :: q < k < |t.rows| ==> t.rows[k].regionType != CountryType
    ensures Rectangular(CountryColumns(t), CountryFrame(t.rows, 0))
    ensures rs == MeltFrom(CountryColumns(t), CountryFrame(t.rows, 0), 1)
    ensures v == t.rows[q].values[|t.labels| - 1]
    ensures EndsIn(rs, v)
  {
    var labels, frame := CountryColumns(t), CountryFrame(t.rows, 0);
    CountryRecords(t);
    CountryFrameLast(t.rows, 0, q);
    MeltFromLast(labels, frame, 1);
    assert t.rows[q] in t.rows;
    var row := t.rows[q];
    DateCellAt(row, (0 + q) as real, |labels| - 1);
    SameIndex(row.values, |labels| - 1, |t.labels| - 1);
    rs, v := MeltFrom(labels, frame, 1), row.values[|t.labels| - 1];
  }

  /**
   * With one national row q, the national records (the `index` records
   * dropped) are one per date column: the j-th is row q's value under date column j.
   */
  lemma CountryMeltAt(t: WideTable, q: nat, j: nat)
    requires Aligned(t) && j < DateCount(t)
    requires q < |t.rows| && t.rows[q].regionType == CountryType
    requires forall k :: 0 <= k < |t.rows| && k != q ==> t.rows[k].regionType != CountryType
    ensures Rectangular(CountryColumns(t), CountryFrame(t.rows, 0))
    ensures var rs := MeltFrom(CountryColumns(t), CountryFrame(t.rows, 0), 1);
      && |rs| == DateCount(t)
      && rs[j] == Record(UnitedStates, DateColumn(t.labels[j + 1]), t.rows[q].values[j + 1])
  {
    var labels, row := CountryColumns(t), National(t.rows[q], q);
    CountryFrameSingle(t.rows, 0, q);
    assert t.rows[q] in t.rows;
    assert Rectangular(labels, [row]);
    var rs := MeltFrom(labels, [row], 1);
    MeltFromAt(labels, [row], 1, j, 0);
    TimesIsProduct(j, 1);
    TimesIsProduct(|labels| - 1, 1);
    assert rs[j] == Record(UnitedStates, labels[1 + j], row.cells[1 + j]);
    DateCellAt(t.rows[q], q as real, j + 1);
    assert labels[1 + j] == DateColumns(t)[j];
  }

  /** With one national row q, the national records end with q's values in the last two date columns. */
  lemma CountryMeltLastTwo(t: WideTable, q: nat) returns (rs: seq<Record<real>>, v: real, w: real)
    requires Aligned(t) && DateCount(t) >= 2
    requires q < |t.rows| && t.rows[q].regionType == CountryType
    requires forall k :: 0 <= k < |t.rows| && k != q ==> t.rows[k].regionType != CountryType
    ensures Rectangular(CountryColumns(t), CountryFrame(t.rows, 0))
    ensures rs == MeltFrom(CountryColumns(t), CountryFrame(t.rows, 0), 1)
    ensures v == t.rows[q].values[|t.labels| - 1] && w == t.rows[q].values[|t.labels| - 2]
    ensures EndsWith(rs, v, w)
  {
    var d := DateCount(t);
    CountryMeltAt(t, q, d - 1);
    CountryMeltAt(t, q, d - 2);
    rs := MeltFrom(CountryColumns(t), CountryFrame(t.rows, 0), 1);
    v, w := t.rows[q].values[d], t.rows[q].values[d - 1];
    SameIndex(rs, d - 1, |rs| - 1);
    SameIndex(rs, d - 2, |rs| - 2);
  }

  /** Behind the `index` cell, a national row's cells are its date cells. */
  lemma DateCellAt(row: WideRow, x: real, k: nat)
    requires 1 <= k < |row.values|
    ensures k < 1 + |DateCells(row)| && ([x] + DateCells(row))[k] == row.values[k]
  {
  }

  /**
   * The unioned relation is the state records followed by the national
   * records; it holds no `index` record, and every record is dated.
   */
  lemma StateViewParts(t: WideTable, reducer: Reducer)
    requires Aligned(t)
    ensures StateView(t, reducer) == StateMelt(t, reducer) + DropIndex(CountryMelt(t))
    ensures forall x :: x in StateView(t, reducer) ==> x.column.DateColumn?
  {
    var states := StateMelt(t, reducer);
    DropIndexConcat(states, CountryMelt(t));
    StateMeltDated(t, reducer);
    DropIndexAll(states);
    CountryRecords(t);
  }

  /**
   * Selecting an existing state g from the state records gives g's grouped
   * row melted over the date columns: one record per date column, in order.
   */
  lemma StateMeltOfGroup(t: WideTable, reducer: Reducer, g: string)
    requires Aligned(t) && HasState(t.rows, g)
    ensures WithKey(StateMelt(t, reducer), g) == Melt(DateColumns(t), [GroupRow(t, reducer, g)])
  {
    var keys, frame := GroupKeys(t), GroupFrame(t, reducer);
    var m :| 0 <= m < |keys| && keys[m] == g;
    forall i | 0 <= i < |frame| && i != m ensures frame[i].key != frame[m].key {
      if i < m { assert Below(keys[i], keys[m]); } else { assert Below(keys[m], keys[i]); }
      BelowIrreflexive(keys[i]);
    }
    WithKeyMeltSingle(DateColumns(t), frame, m);
  }

  /**
   * Selecting a state g (not named "United States") from the unioned
   * relation gives g's grouped row melted over the date columns.
   */
  lemma StateSeriesOfGroup(t: WideTable, reducer: Reducer, g: string)
    requires Aligned(t) && HasState(t.rows, g) && g != UnitedStates
    ensures WithKey(StateView(t, reducer), g) == Melt(DateColumns(t), [GroupRow(t, reducer, g)])
  {
    StateViewParts(t, reducer);
    WithKeyConcat(StateMelt(t, reducer), DropIndex(CountryMelt(t)), g);
    CountryRecords(t);
    WithKeyNone(DropIndex(CountryMelt(t)), g);
    StateMeltOfGroup(t, reducer, g);
  }

  /** Selecting a name that no state bears from the state records gives nothing. */
  lemma StateMeltWithout(t: WideTable, reducer: Reducer, g: string)
    requires Aligned(t) && !HasState(t.rows, g)
    ensures WithKey(StateMelt(t, reducer), g) == []
  {
    var frame := GroupFrame(t, reducer);
    forall row | row in frame ensures row.key != g {
      var i :| 0 <= i < |frame| && frame[i] == row;
      assert GroupKeys(t)[i] in GroupKeys(t);
    }
    MeltNoKey(DateColumns(t), frame, g);
  }

  /**
   * Selecting "United States" from the unioned relation (when no state bears
   * that name) gives exactly the national records.
   */
  lemma CountrySeries(t: WideTable, reducer: Reducer)
    requires Aligned(t) && !HasState(t.rows, UnitedStates)
    ensures WithKey(StateView(t, reducer), UnitedStates) == DropIndex(CountryMelt(t))
  {
    var states, country := StateMelt(t, reducer), DropIndex(CountryMelt(t));
    StateViewParts(t, reducer);
    WithKeyConcat(states, country, UnitedStates);
    StateMeltWithout(t, reducer, UnitedStates);
    CountryRecords(t);
    WithKeyAll(country, UnitedStates);
    assert [] + country == country;
  }
}
