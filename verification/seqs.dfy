/** Boolean-mask selection (`df[mask]`) over sequences of rows or records. */
module Seqs {

  /** The elements of `s` that satisfy `keep`, in their original order. */
  function Filter<T(!new)>(s: seq<T>, keep: T -> bool): (r: seq<T>)
    ensures |r| <= |s|
    ensures forall x :: x in r <==> x in s && keep(x)
    decreases |s|
  {
    if s == [] then []
    else if keep(s[0]) then [s[0]] + Filter(s[1..], keep)
    else Filter(s[1..], keep)
  }

  /** Adds one to every position: the positions of `s[1..]` seen from `s`. */
  function Shift(ps: seq<nat>): (r: seq<nat>)
    ensures |r| == |ps|
    ensures forall i :: 0 <= i < |ps| ==> r[i] == ps[i] + 1
  {
    if ps == [] then [] else [ps[0] + 1] + Shift(ps[1..])
  }

  /** The positions in `s` of the elements that `Filter` keeps, in increasing order. */
  function Positions<T>(s: seq<T>, keep: T -> bool): seq<nat>
    decreases |s|
  {
    if s == [] then []
    else if keep(s[0]) then [0] + Shift(Positions(s[1..], keep))
    else Shift(Positions(s[1..], keep))
  }

  lemma {:induction false} PositionsMatch<T(!new)>(s: seq<T>, keep: T -> bool)
    ensures |Positions(s, keep)| == |Filter(s, keep)|
    ensures forall i :: 0 <= i < |Positions(s, keep)| ==>
      Positions(s, keep)[i] < |s| && s[Positions(s, keep)[i]] == Filter(s, keep)[i]
    decreases |s|
  {
    if s != [] {
      PositionsMatch(s[1..], keep);
      var tail, ftail := Positions(s[1..], keep), Filter(s[1..], keep);
      forall i | 0 <= i < |tail| ensures Shift(tail)[i] < |s| && s[Shift(tail)[i]] == ftail[i] {
        assert s[1..][tail[i]] == ftail[i];
      }
    }
  }

  lemma {:induction false} PositionsIncrease<T>(s: seq<T>, keep: T -> bool)
    ensures forall i :: 0 <= i < |Positions(s, keep)| ==> Positions(s, keep)[i] < |s|
    ensures forall i, j :: 0 <= i < j < |Positions(s, keep)| ==> Positions(s, keep)[i] < Positions(s, keep)[j]
    decreases |s|
  {
    if s != [] {
      PositionsIncrease(s[1..], keep);
    }
  }

  lemma {:induction false} PositionsComplete<T>(s: seq<T>, keep: T -> bool)
    ensures forall p :: 0 <= p < |s| && keep(s[p]) ==> p in Positions(s, keep)
    decreases |s|
  {
    if s != [] {
      PositionsComplete(s[1..], keep);
      var tail := Positions(s[1..], keep);
      var rest := Shift(tail);
      forall p | 1 <= p < |s| && keep(s[p]) ensures p in rest {
        assert s[1..][p - 1] == s[p];
        var q :| 0 <= q < |tail| && tail[q] == p - 1;
        assert rest[q] == p;
      }
    }
  }

  /** `r` is the subsequence of `s` at the strictly increasing positions `ps`. */
  ghost predicate SubsequenceAt<T>(r: seq<T>, s: seq<T>, ps: seq<nat>) {
    && |ps| == |r|
    && (forall i :: 0 <= i < |ps| ==> ps[i] < |s| && s[ps[i]] == r[i])
    && (forall i, j :: 0 <= i < j < |ps| ==> ps[i] < ps[j])
  }

  /**
   * A mask selection is an order-preserving subsequence: the i-th kept element
   * is the unchanged element of `s` at the i-th of strictly increasing
   * positions, and no position whose element satisfies `keep` is missed.
   */
  lemma FilterIsSubsequence<T(!new)>(s: seq<T>, keep: T -> bool)
    ensures SubsequenceAt(Filter(s, keep), s, Positions(s, keep))
    ensures forall p :: 0 <= p < |s| && keep(s[p]) ==> p in Positions(s, keep)
  {
    PositionsMatch(s, keep);
    PositionsIncrease(s, keep);
    PositionsComplete(s, keep);
  }

  lemma {:induction false} FilterConcat<T(!new)>(a: seq<T>, b: seq<T>, keep: T -> bool)
    ensures Filter(a + b, keep) == Filter(a, keep) + Filter(b, keep)
    decreases |a|
  {
    if a == [] {
      assert a + b == b;
    } else {
      assert (a + b)[0] == a[0];
      assert (a + b)[1..] == a[1..] + b;
      FilterConcat(a[1..], b, keep);
    }
  }

  lemma {:induction false} FilterAll<T(!new)>(s: seq<T>, keep: T -> bool)
    requires forall x :: x in s ==> keep(x)
    ensures Filter(s, keep) == s
    decreases |s|
  {
    if s != [] {
      assert s[0] in s;
      assert forall x :: x in s[1..] ==> x in s;
      FilterAll(s[1..], keep);
    }
  }

  lemma FilterNone<T(!new)>(s: seq<T>, keep: T -> bool)
    requires forall x :: x in s ==> !keep(x)
    ensures Filter(s, keep) == []
  {
  }

  /** Two mask selections may be applied in either order. */
  lemma {:induction false} FilterCommute<T(!new)>(s: seq<T>, p: T -> bool, q: T -> bool)
    ensures Filter(Filter(s, p), q) == Filter(Filter(s, q), p)
    decreases |s|
  {
    if s != [] {
      FilterCommute(s[1..], p, q);
      var fp, fq := Filter(s[1..], p), Filter(s[1..], q);
      if p(s[0]) {
        assert ([s[0]] + fp)[0] == s[0] && ([s[0]] + fp)[1..] == fp;
      }
      if q(s[0]) {
        assert ([s[0]] + fq)[0] == s[0] && ([s[0]] + fq)[1..] == fq;
      }
    }
  }

  /** Selecting with one mask and then another is selecting with both at once. */
  lemma {:induction false} FilterBoth<T(!new)>(s: seq<T>, p: T -> bool, q: T -> bool, both: T -> bool)
    requires forall x :: both(x) == (p(x) && q(x))
    ensures Filter(Filter(s, p), q) == Filter(s, both)
    decreases |s|
  {
    if s != [] {
      FilterBoth(s[1..], p, q, both);
      if p(s[0]) {
        var fp := Filter(s[1..], p);
        assert ([s[0]] + fp)[0] == s[0] && ([s[0]] + fp)[1..] == fp;
      }
    }
  }

  /** Selecting with the same mask twice changes nothing the second time. */
  lemma {:induction false} FilterIdempotent<T(!new)>(s: seq<T>, keep: T -> bool)
    ensures Filter(Filter(s, keep), keep) == Filter(s, keep)
  {
    FilterAll(Filter(s, keep), keep);
  }

  /** Two names for the same position denote the same element. */
  lemma SameIndex<T>(s: seq<T>, i: int, j: int)
    requires 0 <= i < |s| && i == j
    ensures s[i] == s[j]
  {
  }

  /** A sequence without repeated elements. */
  predicate NoDuplicates<T(==)>(s: seq<T>) {
    forall i, j :: 0 <= i < j < |s| ==> s[i] != s[j]
  }

  /**
   * Keeping the elements equal to `x` from a sequence that holds `x` exactly
   * once gives `[x]`.
   */
  lemma {:induction false} FilterSingle<T(!new)>(s: seq<T>, keep: T -> bool, m: nat)
    requires m < |s| && keep(s[m])
    requires forall i :: 0 <= i < |s| && i != m ==> !keep(s[i])
    ensures Filter(s, keep) == [s[m]]
    decreases |s|
  {
    if m == 0 {
      forall x | x in s[1..] ensures !keep(x) {
        var i :| 0 <= i < |s[1..]| && s[1..][i] == x;
        assert s[i + 1] == x;
      }
      FilterNone(s[1..], keep);
    } else {
      FilterSingle(s[1..], keep, m - 1);
    }
  }

  /** Selecting every element but one unwanted element removes exactly that element. */
  lemma FilterSkip<T(!new)>(a: seq<T>, x: T, b: seq<T>, keep: T -> bool)
    requires forall y :: y in a ==> keep(y)
    requires !keep(x)
    requires forall y :: y in b ==> keep(y)
    ensures Filter(a + [x] + b, keep) == a + b
  {
    FilterConcat(a + [x], b, keep);
    FilterConcat(a, [x], keep);
    FilterAll(a, keep);
    FilterNone([x], keep);
    FilterAll(b, keep);
    assert a + [] == a;
  }
}
