/**
 * What the plots and tables show: the long-format records of the chosen date
 * range, and the records or wide rows of the chosen region, where the name
 * "United States" stands for every region at once.
 */
module Selection {
  import opened Seqs
  import opened Frames
  import opened Zillow

  /** `sorted(date_range)`: the two ends of the slider, smaller first. */
  function Bounds(range: (int, int)): (r: (int, int))
    ensures r.0 <= r.1
    ensures (r.0 == range.0 && r.1 == range.1) || (r.0 == range.1 && r.1 == range.0)
  {
    if range.1 < range.0 then (range.1, range.0) else range
  }

  /** The mask `(dates >= lo) & (dates <= hi)`. */
  function InRange(lo: int, hi: int): Record<real> -> bool {
    (x: Record<real>) => x.column.DateColumn? && lo <= x.column.day <= hi
  }

  /** Every record's `Date` parses as a date. */
  predicate Dated(rs: seq<Record<real>>) {
    forall x :: x in rs ==> x.column.DateColumn?
  }

  /** `filter_by_date`: the records dated within the range, both ends included. */
  function FilterByDate(rs: seq<Record<real>>, range: (int, int)): (r: seq<Record<real>>)
    requires Dated(rs)
    ensures forall x :: x in r <==>
      x in rs && Bounds(range).0 <= x.column.day && x.column.day <= Bounds(range).1
  {
    var b := Bounds(range);
    Filter(rs, InRange(b.0, b.1))
  }

  /** The range may be given either way round. */
  lemma FilterByDateSymmetric(rs: seq<Record<real>>, a: int, b: int)
    requires Dated(rs)
    ensures FilterByDate(rs, (a, b)) == FilterByDate(rs, (b, a))
  {
    assert Bounds((a, b)) == Bounds((b, a));
  }

  /**
   * The result is an order-preserving subsequence of the input: each kept
   * record is an unchanged input record, they keep their relative order, and
   * every input record dated within the range (either end included) is kept.
   */
  lemma FilterByDateSubsequence(rs: seq<Record<real>>, range: (int, int))
    requires Dated(rs)
    ensures SubsequenceAt(FilterByDate(rs, range), rs, Positions(rs, InRange(Bounds(range).0, Bounds(range).1)))
    ensures forall p :: 0 <= p < |rs| && Bounds(range).0 <= rs[p].column.day <= Bounds(range).1 ==>
      p in Positions(rs, InRange(Bounds(range).0, Bounds(range).1))
  {
    var b := Bounds(range);
    FilterIsSubsequence(rs, InRange(b.0, b.1));
    forall p | 0 <= p < |rs| && b.0 <= rs[p].column.day <= b.1
      ensures InRange(b.0, b.1)(rs[p])
    {
      assert rs[p] in rs;
    }
  }

  /** Filtering twice with the same range is filtering once. */
  lemma FilterByDateIdempotent(rs: seq<Record<real>>, range: (int, int))
    requires Dated(rs)
    ensures FilterByDate(FilterByDate(rs, range), range) == FilterByDate(rs, range)
  {
    var b := Bounds(range);
    FilterIdempotent(rs, InRange(b.0, b.1));
  }

  /** A range that spans every record's date keeps all of them. */
  lemma FilterByDateEverything(rs: seq<Record<real>>, range: (int, int))
    requires Dated(rs)
    requires forall x :: x in rs ==> Bounds(range).0 <= x.column.day <= Bounds(range).1
    ensures FilterByDate(rs, range) == rs
  {
    var b := Bounds(range);
    FilterAll(rs, InRange(b.0, b.1));
  }

  /** The state selector on long records: "United States" keeps all of them. */
  function SelectRegion(rs: seq<Record<real>>, state: string): (r: seq<Record<real>>)
    ensures state == UnitedStates ==> r == rs
    ensures state != UnitedStates ==> forall x :: x in r <==> x in rs && x.key == state
  {
    if state == UnitedStates then rs else WithKey(rs, state)
  }

  /** The records one of the three line plots draws. */
  function PlotSeries(t: WideTable, reducer: Reducer, range: (int, int), state: string): seq<Record<real>>
    requires Aligned(t)
  {
    StateMeltDated(t, reducer);
    SelectRegion(FilterByDate(StateMelt(t, reducer), range), state)
  }

  /**
   * A plot shows exactly the grouped records dated within the range whose
   * state is the selected one, or all of them for "United States".
   */
  lemma PlotSeriesMembers(t: WideTable, reducer: Reducer, range: (int, int), state: string)
    requires Aligned(t)
    ensures Dated(StateMelt(t, reducer))
    ensures forall x :: x in PlotSeries(t, reducer, range, state) <==>
      && x in StateMelt(t, reducer)
      && Bounds(range).0 <= x.column.day <= Bounds(range).1
      && (state == UnitedStates || x.key == state)
  {
    StateMeltDated(t, reducer);
  }

  /**
   * The plot of one state is that state's grouped row melted over the date
   * columns and cut to the range: its dates in column order, one point each.
   */
  lemma PlotSeriesOfGroup(t: WideTable, reducer: Reducer, range: (int, int), g: string)
    requires Aligned(t) && HasState(t.rows, g) && g != UnitedStates
    ensures var row := GroupRow(t, reducer, g);
      && Dated(Melt(DateColumns(t), [row]))
      && PlotSeries(t, reducer, range, g) == FilterByDate(Melt(DateColumns(t), [row]), range)
  {
    var states := StateMelt(t, reducer);
    var b := Bounds(range);
    StateMeltDated(t, reducer);
    FilterCommute(states, InRange(b.0, b.1), (x: Record<real>) => x.key == g);
    StateMeltOfGroup(t, reducer, g);
  }

  /** The table of a state: the wide rows of that state, or every row for "United States". */
  function TableRows(rows: seq<WideRow>, state: string): (r: seq<WideRow>)
    ensures state == UnitedStates ==> r == rows
    ensures state != UnitedStates ==> forall row :: row in r <==> row in rows && row.stateName == Some(state)
  {
    if state == UnitedStates then rows else RowsOfState(rows, state)
  }

  /**
   * A state's table keeps the table's row order, and an unknown state (or one
   * the rows spell differently) gives an empty table.
   */
  lemma TableRowsOrder(rows: seq<WideRow>, state: string)
    requires state != UnitedStates
    ensures SubsequenceAt(TableRows(rows, state), rows,
      Positions(rows, (row: WideRow) => row.stateName == Some(state)))
    ensures TableRows(rows, state) == [] <==> !HasState(rows, state)
  {
    FilterIsSubsequence(rows, (row: WideRow) => row.stateName == Some(state));
  }
}
