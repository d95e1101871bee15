/**
 * Long-format records and `DataFrame.melt`: a frame with one key column and
 * some value columns becomes one record per (row, value column), stacked one
 * value column at a time.
 */
module Frames {
  import opened Seqs

  /**
   * The header of a melted column: the `index` column that `reset_index` adds,
   * a named non-date column, or a date column (its date as a day number).
   */
  datatype Column = IndexColumn | IdColumn(name: string) | DateColumn(day: int)

  /** One long-format record: key (`StateName` or `RegionName`), `Date`, `Value`. */
  datatype Record<V> = Record(key: string, column: Column, value: V)

  /** One row of a frame about to be melted: its key and its value cells. */
  datatype Keyed<V> = Keyed(key: string, cells: seq<V>)

  /** Every row has one cell per labelled value column. */
  predicate Rectangular<V(==,!new)>(labels: seq<Column>, frame: seq<Keyed<V>>) {
    forall row :: row in frame ==> |row.cells| == |labels|
  }

  /** The records contributed by value column `j`: one per row, in row order. */
  function Block<V(==,!new)>(frame: seq<Keyed<V>>, heading: Column, j: nat): (r: seq<Record<V>>)
    requires forall row :: row in frame ==> j < |row.cells|
    ensures |r| == |frame|
    ensures forall i :: 0 <= i < |frame| ==> r[i] == Record(frame[i].key, heading, frame[i].cells[j])
  {
    seq(|frame|, i requires 0 <= i < |frame| => Record(frame[i].key, heading, frame[i].cells[j]))
  }

  /**
   * `a * b` as repeated addition. The melt lemmas count records with it, so
   * that their index arithmetic stays linear; `TimesIsProduct` links it to `*`.
   */
  function Times(a: nat, b: nat): nat {
    if a == 0 then 0 else b + Times(a - 1, b)
  }

  lemma {:induction false} TimesIsProduct(a: nat, b: nat)
    ensures Times(a, b) == a * b
  {
    if a != 0 {
      TimesIsProduct(a - 1, b);
    }
  }

  lemma {:induction false} TimesAtLeast(a: nat, b: nat)
    requires b >= 1
    ensures Times(a, b) >= a
  {
    if a != 0 {
      TimesAtLeast(a - 1, b);
    }
  }

  /** The melt of value columns `j..`, column by column. */
  function MeltFrom<V(==,!new)>(labels: seq<Column>, frame: seq<Keyed<V>>, j: nat): (r: seq<Record<V>>)
    requires Rectangular(labels, frame) && j <= |labels|
    ensures |r| == Times(|labels| - j, |frame|)
    decreases |labels| - j
  {
    if j == |labels| then []
    else Block(frame, labels[j], j) + MeltFrom(labels, frame, j + 1)
  }

  /** `frame.melt(id_vars=[key], var_name="Date", value_name="Value")`. */
  function Melt<V(==,!new)>(labels: seq<Column>, frame: seq<Keyed<V>>): seq<Record<V>>
    requires Rectangular(labels, frame)
  {
    MeltFrom(labels, frame, 0)
  }

  /**
   * Melting k rows over n value columns gives n * k records, column-major: the
   * record at position d * k + i comes from row i and value column j0 + d, and
   * carries that row's key, the column's heading and that cell's value.
   */
  lemma {:induction false} MeltFromAt<V(!new)>(labels: seq<Column>, frame: seq<Keyed<V>>, j0: nat, d: nat, i: nat)
    requires Rectangular(labels, frame) && j0 + d < |labels| && i < |frame|
    ensures Times(d, |frame|) + i < |MeltFrom(labels, frame, j0)|
      && MeltFrom(labels, frame, j0)[Times(d, |frame|) + i]
         == Record(frame[i].key, labels[j0 + d], frame[i].cells[j0 + d])
    decreases d
  {
    if d == 0 {
      MeltFromHead(labels, frame, j0, i);
    } else {
      var q := Times(d - 1, |frame|) + i;
      MeltFromAt(labels, frame, j0 + 1, d - 1, i);
      assert MeltFrom(labels, frame, j0 + 1)[q] == Record(frame[i].key, labels[j0 + d], frame[i].cells[j0 + d]);
      MeltFromStep(labels, frame, j0, q);
      assert Times(d, |frame|) + i == |frame| + q;
    }
  }

  /**
   * The last record of a melt from column j0 comes from the last row and the
   * last value column.
   */
  lemma MeltFromLast<V(!new)>(labels: seq<Column>, frame: seq<Keyed<V>>, j0: nat)
    requires Rectangular(labels, frame) && j0 < |labels| && frame != []
    ensures var rs, last := MeltFrom(labels, frame, j0), frame[|frame| - 1];
      |rs| >= 1 && rs[|rs| - 1] == Record(last.key, labels[|labels| - 1], last.cells[|labels| - 1])
  {
    var m, d := |frame|, |labels| - 1 - j0;
    var rs := MeltFrom(labels, frame, j0);
    MeltFromAt(labels, frame, j0, d, m - 1);
    assert |rs| == Times(d + 1, m) == m + Times(d, m);
    SameIndex(rs, |rs| - 1, Times(d, m) + (m - 1));
  }

  /** Equal sequences hold the same record at position i. */
  lemma SameRecord<V>(s: seq<Record<V>>, rs: seq<Record<V>>, i: nat)
    requires s == rs && i < |rs|
    ensures |s| == |rs| && s[i] == rs[i]
  {
  }

  /** The value of the last record. */
  function Final<V>(rs: seq<Record<V>>): V
    requires |rs| >= 1
  {
    rs[|rs| - 1].value
  }

  /** The value of the record before the last one. */
  function Penultimate<V>(rs: seq<Record<V>>): V
    requires |rs| >= 2
  {
    rs[|rs| - 2].value
  }

  /** The last record holds the value `last`. */
  predicate EndsIn<V(==)>(rs: seq<Record<V>>, last: V)
  {
    |rs| >= 1 && Final(rs) == last
  }

  /** The records end with the value `prev` and then the value `last`. */
  predicate EndsWith<V(==)>(rs: seq<Record<V>>, last: V, prev: V)
  {
    |rs| >= 2 && Final(rs) == last && Penultimate(rs) == prev
  }

  /** `MeltFromAt` from column 0, with the key, heading and value named by the caller. */
  lemma MeltAt<V(!new)>(labels: seq<Column>, frame: seq<Keyed<V>>, j: nat, i: nat, k: nat, key: string, heading: Column, value: V)
    requires Rectangular(labels, frame) && j < |labels| && i < |frame| && k == |frame|
    requires frame[i].key == key && labels[j] == heading && frame[i].cells[j] == value
    ensures |Melt(labels, frame)| == Times(|labels|, k)
    ensures Times(j, k) + i < |Melt(labels, frame)| && Melt(labels, frame)[Times(j, k) + i] == Record(key, heading, value)
  {
    MeltFromAt(labels, frame, 0, j, i);
  }

  lemma MeltFromHead<V(!new)>(labels: seq<Column>, frame: seq<Keyed<V>>, j0: nat, i: nat)
    requires Rectangular(labels, frame) && j0 < |labels| && i < |frame|
    ensures i < |MeltFrom(labels, frame, j0)|
    ensures MeltFrom(labels, frame, j0)[i] == Record(frame[i].key, labels[j0], frame[i].cells[j0])
  {
    assert MeltFrom(labels, frame, j0) == Block(frame, labels[j0], j0) + MeltFrom(labels, frame, j0 + 1);
  }

  lemma MeltFromStep<V(!new)>(labels: seq<Column>, frame: seq<Keyed<V>>, j0: nat, p: nat)
    requires Rectangular(labels, frame) && j0 < |labels| && p < |MeltFrom(labels, frame, j0 + 1)|
    ensures |frame| + p < |MeltFrom(labels, frame, j0)|
    ensures MeltFrom(labels, frame, j0)[|frame| + p] == MeltFrom(labels, frame, j0 + 1)[p]
  {
    var block := Block(frame, labels[j0], j0);
    assert MeltFrom(labels, frame, j0) == block + MeltFrom(labels, frame, j0 + 1);
    ConcatAt(block, MeltFrom(labels, frame, j0 + 1), p);
  }

  lemma ConcatAt<T>(a: seq<T>, b: seq<T>, p: nat)
    requires p < |b|
    ensures |a| + p < |a + b| && (a + b)[|a| + p] == b[p]
  {
  }

  /** Every melted record sits under one of the value columns `j0..`. */
  lemma {:induction false} MeltFromColumns<V(!new)>(labels: seq<Column>, frame: seq<Keyed<V>>, j0: nat)
    requires Rectangular(labels, frame) && j0 <= |labels|
    ensures forall x :: x in MeltFrom(labels, frame, j0) ==> x.column in labels[j0..]
    decreases |labels| - j0
  {
    if j0 < |labels| {
      MeltFromColumns(labels, frame, j0 + 1);
      assert forall c :: c in labels[j0 + 1..] ==> c in labels[j0..];
      var block := Block(frame, labels[j0], j0);
      assert forall x :: x in block ==> x.column == labels[j0];
    }
  }

  /** When every row of the frame carries the key g, so does every melted record. */
  lemma {:induction false} MeltFromKeys<V(!new)>(labels: seq<Column>, frame: seq<Keyed<V>>, j0: nat, g: string)
    requires Rectangular(labels, frame) && j0 <= |labels|
    requires forall row :: row in frame ==> row.key == g
    ensures forall x :: x in MeltFrom(labels, frame, j0) ==> x.key == g
    decreases |labels| - j0
  {
    if j0 < |labels| {
      MeltFromKeys(labels, frame, j0 + 1, g);
      var block := Block(frame, labels[j0], j0);
      forall x | x in block ensures x.key == g {
        var i :| 0 <= i < |block| && block[i] == x;
        assert frame[i] in frame;
      }
    }
  }

  /** `df[df[key] == g]` on melted records (also on a frame's rows, below). */
  function WithKey<V(==,!new)>(rs: seq<Record<V>>, g: string): (r: seq<Record<V>>)
    ensures forall x :: x in r <==> x in rs && x.key == g
  {
    Filter(rs, (x: Record<V>) => x.key == g)
  }

  function RowsWithKey<V(==,!new)>(frame: seq<Keyed<V>>, g: string): (r: seq<Keyed<V>>)
    ensures forall row :: row in r <==> row in frame && row.key == g
  {
    Filter(frame, (row: Keyed<V>) => row.key == g)
  }

  /** `df[df["Date"] != "index"]`: drops the records of the `index` column. */
  function DropIndex<V(==,!new)>(rs: seq<Record<V>>): (r: seq<Record<V>>)
    ensures forall x :: x in r <==> x in rs && x.column != IndexColumn
  {
    Filter(rs, (x: Record<V>) => x.column != IndexColumn)
  }

  lemma WithKeyConcat<V(!new)>(a: seq<Record<V>>, b: seq<Record<V>>, g: string)
    ensures WithKey(a + b, g) == WithKey(a, g) + WithKey(b, g)
  {
    FilterConcat(a, b, (x: Record<V>) => x.key == g);
  }

  lemma WithKeyAll<V(!new)>(rs: seq<Record<V>>, g: string)
    requires forall x :: x in rs ==> x.key == g
    ensures WithKey(rs, g) == rs
  {
    FilterAll(rs, (x: Record<V>) => x.key == g);
  }

  lemma WithKeyNone<V(!new)>(rs: seq<Record<V>>, g: string)
    requires forall x :: x in rs ==> x.key != g
    ensures WithKey(rs, g) == []
  {
    FilterNone(rs, (x: Record<V>) => x.key == g);
  }

  lemma DropIndexConcat<V(!new)>(a: seq<Record<V>>, b: seq<Record<V>>)
    ensures DropIndex(a + b) == DropIndex(a) + DropIndex(b)
  {
    FilterConcat(a, b, (x: Record<V>) => x.column != IndexColumn);
  }

  lemma DropIndexAll<V(!new)>(rs: seq<Record<V>>)
    requires forall x :: x in rs ==> x.column != IndexColumn
    ensures DropIndex(rs) == rs
  {
    FilterAll(rs, (x: Record<V>) => x.column != IndexColumn);
  }

  lemma DropIndexNone<V(!new)>(rs: seq<Record<V>>)
    requires forall x :: x in rs ==> x.column == IndexColumn
    ensures DropIndex(rs) == []
  {
    FilterNone(rs, (x: Record<V>) => x.column != IndexColumn);
  }

  lemma BlockCons<V(!new)>(row: Keyed<V>, rest: seq<Keyed<V>>, heading: Column, j: nat)
    requires j < |row.cells| && forall r :: r in rest ==> j < |r.cells|
    ensures Block([row] + rest, heading, j) == [Record(row.key, heading, row.cells[j])] + Block(rest, heading, j)
  {
  }

  lemma {:induction false} WithKeyBlock<V(!new)>(frame: seq<Keyed<V>>, heading: Column, j: nat, g: string)
    requires forall row :: row in frame ==> j < |row.cells|
    ensures WithKey(Block(frame, heading, j), g) == Block(RowsWithKey(frame, g), heading, j)
    decreases |frame|
  {
    if frame != [] {
      var rest := frame[1..];
      assert frame == [frame[0]] + rest && frame[0] in frame;
      assert forall row :: row in rest ==> row in frame;
      WithKeyBlock(rest, heading, j, g);
      BlockCons(frame[0], rest, heading, j);
      var head := Record(frame[0].key, heading, frame[0].cells[j]);
      WithKeyConcat([head], Block(rest, heading, j), g);
      if frame[0].key == g {
        BlockCons(frame[0], RowsWithKey(rest, g), heading, j);
      }
    }
  }

  /**
   * Selecting key g after melting is melting the rows with key g: the
   * selection keeps those rows' records in the same column-major order.
   */
  lemma {:induction false} WithKeyMelt<V(!new)>(labels: seq<Column>, frame: seq<Keyed<V>>, j0: nat, g: string)
    requires Rectangular(labels, frame) && j0 <= |labels|
    ensures Rectangular(labels, RowsWithKey(frame, g))
    ensures WithKey(MeltFrom(labels, frame, j0), g) == MeltFrom(labels, RowsWithKey(frame, g), j0)
    decreases |labels| - j0
  {
    if j0 < |labels| {
      WithKeyMelt(labels, frame, j0 + 1, g);
      FilterConcat(Block(frame, labels[j0], j0), MeltFrom(labels, frame, j0 + 1), (x: Record<V>) => x.key == g);
      WithKeyBlock(frame, labels[j0], j0, g);
    }
  }

  /** Selecting a key that no row carries gives no records. */
  lemma MeltNoKey<V(!new)>(labels: seq<Column>, frame: seq<Keyed<V>>, g: string)
    requires Rectangular(labels, frame)
    requires forall row :: row in frame ==> row.key != g
    ensures WithKey(Melt(labels, frame), g) == []
  {
    WithKeyMelt(labels, frame, 0, g);
    FilterNone(frame, (row: Keyed<V>) => row.key == g);
    TimesIsProduct(|labels|, 0);
  }

  /**
   * In a frame whose keys are distinct, selecting the key of row m after
   * melting gives exactly that row's series: one record per value column, in
   * column order.
   */
  lemma WithKeyMeltSingle<V(!new)>(labels: seq<Column>, frame: seq<Keyed<V>>, m: nat)
    requires Rectangular(labels, frame) && m < |frame|
    requires forall i :: 0 <= i < |frame| && i != m ==> frame[i].key != frame[m].key
    ensures WithKey(Melt(labels, frame), frame[m].key) == Melt(labels, [frame[m]])
  {
    WithKeyMelt(labels, frame, 0, frame[m].key);
    FilterSingle(frame, (row: Keyed<V>) => row.key == frame[m].key, m);
  }

  /** The series of one row: its i-th record is column i with that row's i-th cell. */
  lemma SeriesAt<V(!new)>(labels: seq<Column>, row: Keyed<V>, j: nat)
    requires |row.cells| == |labels| && j < |labels|
    ensures |Melt(labels, [row])| == |labels|
    ensures Melt(labels, [row])[j] == Record(row.key, labels[j], row.cells[j])
  {
    MeltFromAt(labels, [row], 0, j, 0);
    TimesIsProduct(j, 1);
    TimesIsProduct(|labels|, 1);
  }
}
