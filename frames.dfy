/** The wide table a pivot produces: one row per distinct time, one column
    per distinct location, and an optional value in each cell. */
module Frames {
  import opened Wrappers
  import opened Order
  import opened Stats

  /** One long-format observation: the time, the location label and the
      value (missing when the source column is NULL). */
  datatype Observation = Observation(time: int, location: string, value: Option<real>)

  type Row = seq<Option<real>>

  /** A time-indexed table: `rows[i][j]` is the cell at `index[i]` for
      location `columns[j]`. */
  datatype Table = Table(index: seq<int>, columns: seq<string>, rows: seq<Row>)

  ghost predicate Rect(rows: seq<Row>, width: nat) {
    forall i :: 0 <= i < |rows| ==> |rows[i]| == width
  }

  ghost predicate Increasing(s: seq<int>) {
    forall i, j :: 0 <= i < j < |s| ==> s[i] < s[j]
  }

  /** The shape every table of the pipeline has: one row per index entry,
      one cell per column, times increasing, labels sorted and distinct. */
  ghost predicate Valid(t: Table) {
    && |t.rows| == |t.index|
    && Rect(t.rows, |t.columns|)
    && Increasing(t.index)
    && StrictlySorted(t.columns, StringLess)
  }

  /** The times of the observations that carry a value. */
  function PresentTimes(obs: seq<Observation>): (ts: seq<int>)
    ensures forall x :: x in ts <==> exists o :: o in obs && o.value.Some? && o.time == x
  {
    if |obs| == 0 then []
    else
      var rest := PresentTimes(obs[1..]);
      assert forall o :: o in obs <==> o == obs[0] || o in obs[1..];
      if obs[0].value.Some? then [obs[0].time] + rest else rest
  }

  /** The locations of the observations that carry a value. */
  function PresentLocations(obs: seq<Observation>): (ls: seq<string>)
    ensures forall x :: x in ls <==> exists o :: o in obs && o.value.Some? && o.location == x
  {
    if |obs| == 0 then []
    else
      var rest := PresentLocations(obs[1..]);
      assert forall o :: o in obs <==> o == obs[0] || o in obs[1..];
      if obs[0].value.Some? then [obs[0].location] + rest else rest
  }

  /** The values observed at `time` for `loc`, in input order. */
  function ValuesAt(obs: seq<Observation>, time: int, loc: string): (vs: seq<real>)
    ensures |vs| <= |obs|
    ensures forall v :: v in vs <==> Observation(time, loc, Some(v)) in obs
  {
    if |obs| == 0 then []
    else
      var rest := ValuesAt(obs[1..], time, loc);
      assert forall o :: o in obs <==> o == obs[0] || o in obs[1..];
      if obs[0].time == time && obs[0].location == loc && obs[0].value.Some?
      then [obs[0].value.value] + rest
      else rest
  }

  /** Each value is gathered for a cell as many times as it was observed
      there. */
  lemma {:induction false} ValuesAtCounts(obs: seq<Observation>, time: int, loc: string, v: real)
    ensures multiset(ValuesAt(obs, time, loc))[v] == multiset(obs)[Observation(time, loc, Some(v))]
  {
    if |obs| > 0 {
      ValuesAtCounts(obs[1..], time, loc, v);
      var rest := ValuesAt(obs[1..], time, loc);
      assert multiset(obs) == multiset{obs[0]} + multiset(obs[1..]) by {
        assert obs == [obs[0]] + obs[1..];
      }
      if obs[0].time == time && obs[0].location == loc && obs[0].value.Some? {
        assert ValuesAt(obs, time, loc) == [obs[0].value.value] + rest;
      } else {
        assert ValuesAt(obs, time, loc) == rest;
      }
    }
  }

  /** The pivot's cell: colliding observations collapse to their mean. */
  function CellMean(obs: seq<Observation>, time: int, loc: string): Option<real> {
    var vs := ValuesAt(obs, time, loc);
    if |vs| == 0 then None else Some(Mean(vs))
  }

  /** `pivot_table(index='record_time', columns='location', values=...)`:
      the index holds exactly the times, and the columns exactly the
      locations, that carry at least one value; both are sorted. */
  function Pivot(obs: seq<Observation>): (t: Table)
    ensures Valid(t)
    ensures forall x :: x in t.index <==> exists o :: o in obs && o.value.Some? && o.time == x
    ensures forall c :: c in t.columns <==> exists o :: o in obs && o.value.Some? && o.location == c
  {
    IntLessIsStrictTotalOrder();
    StringLessIsStrictTotalOrder();
    var index := SortedDistinct(PresentTimes(obs), IntLess);
    var columns := SortedDistinct(PresentLocations(obs), StringLess);
    assert Increasing(index) by {
      forall i, j | 0 <= i < j < |index| ensures index[i] < index[j] {
        assert IntLess(index[i], index[j]);
      }
    }
    Table(index, columns,
      seq(|index|, i requires 0 <= i < |index| =>
        seq(|columns|, j requires 0 <= j < |columns| => CellMean(obs, index[i], columns[j]))))
  }

  /** A pivot cell holds a value exactly when some observation at that time
      and location has one, and that value is the mean of all of them, so
      it lies between their least and greatest. */
  lemma PivotCell(obs: seq<Observation>, i: nat, j: nat, lo: real, hi: real)
    requires i < |Pivot(obs).index| && j < |Pivot(obs).columns|
    requires forall v :: Observation(Pivot(obs).index[i], Pivot(obs).columns[j], Some(v)) in obs ==> lo <= v <= hi
    ensures var t := Pivot(obs);
      && (t.rows[i][j].Some? <==> exists v :: Observation(t.index[i], t.columns[j], Some(v)) in obs)
      && (t.rows[i][j].Some? ==> lo <= t.rows[i][j].value <= hi)
      && (t.rows[i][j].Some? ==> t.rows[i][j].value == Mean(ValuesAt(obs, t.index[i], t.columns[j])))
  {
    var t := Pivot(obs);
    var vs := ValuesAt(obs, t.index[i], t.columns[j]);
    if exists v :: Observation(t.index[i], t.columns[j], Some(v)) in obs {
      var v :| Observation(t.index[i], t.columns[j], Some(v)) in obs;
      assert v in vs;
    }
    if |vs| > 0 {
      assert vs[0] in vs;
      assert Bounded(vs, lo, hi) by {
        forall k | 0 <= k < |vs| ensures lo <= vs[k] <= hi {
          assert vs[k] in vs;
        }
      }
      MeanBounds(vs, lo, hi);
    }
  }

  /** Every column of a pivot has at least one value, so a column-wise
      reduction that skips missing cells always has something to reduce. */
  lemma PivotColumnsOccupied(obs: seq<Observation>, j: nat)
    requires j < |Pivot(obs).columns|
    ensures exists i :: 0 <= i < |Pivot(obs).rows| && Pivot(obs).rows[i][j].Some?
  {
    var t := Pivot(obs);
    assert t.columns[j] in t.columns;
    var o :| o in obs && o.value.Some? && o.location == t.columns[j];
    assert o.time in t.index;
    var i :| 0 <= i < |t.index| && t.index[i] == o.time;
    assert o == Observation(t.index[i], t.columns[j], Some(o.value.value));
    assert o.value.value in ValuesAt(obs, t.index[i], t.columns[j]);
    assert t.rows[i][j] == CellMean(obs, t.index[i], t.columns[j]);
    assert t.rows[i][j].Some?;
  }

  /** The positions, among the first `n` rows, whose cell in column `j` is
      present, in increasing order (`ColumnRowsExact`). */
  function ColumnRows(rows: seq<Row>, width: nat, j: nat, n: nat): (ps: seq<nat>)
    requires Rect(rows, width) && j < width && n <= |rows|
    ensures forall k :: 0 <= k < |ps| ==> ps[k] < n
  {
    if n == 0 then []
    else ColumnRows(rows, width, j, n - 1) + if rows[n - 1][j].Some? then [n - 1] else []
  }

  /** `ColumnRows` lists, in increasing order, exactly the rows whose cell
      in the column is present. */
  lemma {:induction false} ColumnRowsExact(rows: seq<Row>, width: nat, j: nat, n: nat)
    requires Rect(rows, width) && j < width && n <= |rows|
    ensures forall k :: 0 <= k < |ColumnRows(rows, width, j, n)| ==> rows[ColumnRows(rows, width, j, n)[k]][j].Some?
    ensures forall a, b :: 0 <= a < b < |ColumnRows(rows, width, j, n)| ==>
      ColumnRows(rows, width, j, n)[a] < ColumnRows(rows, width, j, n)[b]
    ensures forall i :: 0 <= i < n && rows[i][j].Some? ==> i in ColumnRows(rows, width, j, n)
  {
    if n > 0 {
      ColumnRowsExact(rows, width, j, n - 1);
      var ps := ColumnRows(rows, width, j, n - 1);
      if rows[n - 1][j].Some? {
        var ps' := ps + [n - 1];
        assert ColumnRows(rows, width, j, n) == ps';
        forall k | 0 <= k < |ps'| ensures rows[ps'[k]][j].Some? {
          if k < |ps| {
            assert ps'[k] == ps[k];
          } else {
            assert ps'[k] == n - 1;
          }
        }
        forall a, b | 0 <= a < b < |ps'| ensures ps'[a] < ps'[b] {
          assert ps'[a] == ps[a];
          if b < |ps| { assert ps'[b] == ps[b]; }
        }
        forall i | 0 <= i < n && rows[i][j].Some? ensures i in ps' {
          if i < n - 1 {
            assert i in ps;
            var k :| 0 <= k < |ps| && ps[k] == i;
            assert ps'[k] == i;
          } else {
            assert ps'[|ps|] == i;
          }
        }
      } else {
        assert ColumnRows(rows, width, j, n) == ps;
      }
    }
  }

  /** The values present in column `j` among the first `n` rows, top to
      bottom, one per present cell (missing cells are skipped, as a pandas
      reduction with `skipna` does). */
  function ColumnValues(rows: seq<Row>, width: nat, j: nat, n: nat): (vs: seq<real>)
    requires Rect(rows, width) && j < width && n <= |rows|
    ensures |vs| <= n
  {
    if n == 0 then []
    else ColumnValues(rows, width, j, n - 1) + if rows[n - 1][j].Some? then [rows[n - 1][j].value] else []
  }

  /** The `k`-th value of a column is the cell of its `k`-th present row. */
  lemma {:induction false} ColumnValuesAtRows(rows: seq<Row>, width: nat, j: nat, n: nat)
    requires Rect(rows, width) && j < width && n <= |rows|
    ensures |ColumnValues(rows, width, j, n)| == |ColumnRows(rows, width, j, n)|
    ensures forall k :: 0 <= k < |ColumnRows(rows, width, j, n)| ==>
      rows[ColumnRows(rows, width, j, n)[k]][j] == Some(ColumnValues(rows, width, j, n)[k])
  {
    if n > 0 {
      ColumnValuesAtRows(rows, width, j, n - 1);
      var vs, ps := ColumnValues(rows, width, j, n - 1), ColumnRows(rows, width, j, n - 1);
      if rows[n - 1][j].Some? {
        assert ColumnValues(rows, width, j, n) == vs + [rows[n - 1][j].value];
        assert ColumnRows(rows, width, j, n) == ps + [n - 1];
      } else {
        assert ColumnValues(rows, width, j, n) == vs;
        assert ColumnRows(rows, width, j, n) == ps;
      }
    }
  }

  /** A value occurs in a column exactly when some row has it there. */
  lemma {:induction false} ColumnMembers(rows: seq<Row>, width: nat, j: nat, n: nat)
    requires Rect(rows, width) && j < width && n <= |rows|
    ensures forall v :: v in ColumnValues(rows, width, j, n) <==> exists i :: 0 <= i < n && rows[i][j] == Some(v)
  {
    if n > 0 {
      ColumnMembers(rows, width, j, n - 1);
      var vs := ColumnValues(rows, width, j, n - 1);
      if rows[n - 1][j].Some? {
        assert ColumnValues(rows, width, j, n) == vs + [rows[n - 1][j].value];
      } else {
        assert ColumnValues(rows, width, j, n) == vs;
      }
    }
  }
}
