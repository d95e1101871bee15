/** The options of the city selector for the chosen state. */
module Cities {
  import opened Ordering
  import opened Zillow

  /** The `RegionName` column of some wide rows, in row order. */
  function RegionNames(rows: seq<WideRow>): (r: seq<string>)
    ensures |r| == |rows|
    ensures forall i :: 0 <= i < |rows| ==> r[i] == rows[i].regionName
  {
    seq(|rows|, i requires 0 <= i < |rows| => rows[i].regionName)
  }

  /** Some row of state `state` is named `city`. */
  ghost predicate CityOf(rows: seq<WideRow>, state: string, city: string) {
    exists row :: row in rows && row.stateName == Some(state) && row.regionName == city
  }

  /**
   * `sorted(df.loc[df["StateName"] == state, "RegionName"].unique())`: every
   * city name of the state, once each, in ascending order.
   */
  function CityChoices(t: WideTable, state: string): (r: seq<string>)
    ensures StrictlySorted(r)
    ensures forall c :: c in r <==> CityOf(t.rows, state, c)
  {
    var names := RegionNames(RowsOfState(t.rows, state));
    forall c | CityOf(t.rows, state, c) ensures c in names {
      var row :| row in t.rows && row.stateName == Some(state) && row.regionName == c;
      var i :| 0 <= i < |RowsOfState(t.rows, state)| && RowsOfState(t.rows, state)[i] == row;
      assert names[i] == c;
    }
    SortedDistinct(names)
  }

  /**
   * The options are determined by the table alone: any ascending list without
   * repeats holding exactly the state's city names is the option list, so
   * computing it twice gives the same list.
   */
  lemma CityChoicesCanonical(t: WideTable, state: string, options: seq<string>)
    requires StrictlySorted(options)
    requires forall c :: c in options <==> CityOf(t.rows, state, c)
    ensures options == CityChoices(t, state)
  {
    StrictlySortedUnique(options, CityChoices(t, state));
  }

  /** A state with no rows has no city options, and a state with rows has some. */
  lemma CityChoicesEmpty(t: WideTable, state: string)
    ensures CityChoices(t, state) == [] <==> !HasState(t.rows, state)
  {
    if HasState(t.rows, state) {
      var row :| row in t.rows && row.stateName == Some(state);
      assert CityOf(t.rows, state, row.regionName);
      assert row.regionName in CityChoices(t, state);
    }
  }
}
