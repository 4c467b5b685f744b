/** `DataFrame.resample(rule).median()` and `.last()`: rows are grouped into
    fixed-width time buckets, `time / cadence * cadence` being a row's
    bucket, and the output holds one row per bucket from the first occupied
    bucket to the last, including the empty ones. */
module Resampling {
  import opened Wrappers
  import opened Stats
  import opened Frames

  /** How the cells of one bucket collapse into one. */
  datatype Reducer = MedianOf | LastOf

  function Reduce(red: Reducer, vs: seq<real>): Option<real> {
    if |vs| == 0 then None
    else match red
      case MedianOf => Some(Median(vs))
      case LastOf => Some(vs[|vs| - 1])
  }

  lemma {:induction false} MulSign(x: int, c: int)
    requires c > 0
    ensures x >= 1 ==> x * c >= c
    ensures x <= -1 ==> x * c <= -c
    decreases if x < 0 then -x else x
  {
    if x > 1 {
      MulSign(x - 1, c);
      assert x * c == (x - 1) * c + c;
    } else if x < -1 {
      MulSign(x + 1, c);
      assert x * c == (x + 1) * c - c;
    }
  }

  lemma DivMonotone(a: int, b: int, c: int)
    requires a <= b && c > 0
    ensures a / c <= b / c
  {
    var qa, qb := a / c, b / c;
    assert a == qa * c + a % c && b == qb * c + b % c;
    MulSign(qa - qb, c);
    assert (qa - qb) * c == qa * c - qb * c;
  }

  lemma MulDiv(q: int, c: int)
    requires c > 0
    ensures (q * c) / c == q && (q * c) % c == 0
  {
    var d, m := (q * c) / c, (q * c) % c;
    assert q * c == d * c + m && 0 <= m < c;
    MulSign(q - d, c);
    assert (q - d) * c == q * c - d * c;
  }

  /** Bucket starts `(first + k) * cadence` are multiples of the cadence,
      one cadence apart. */
  lemma GridPoint(first: int, k: int, cadence: int)
    requires cadence > 0
    ensures ((first + k) * cadence) % cadence == 0
    ensures (first + k + 1) * cadence == (first + k) * cadence + cadence
  {
    MulDiv(first + k, cadence);
  }

  lemma GridOrder(first: int, k: int, k': int, cadence: int)
    requires cadence > 0 && k < k'
    ensures (first + k) * cadence < (first + k') * cadence
  {
    MulSign(k' - k, cadence);
    assert (first + k') * cadence == (first + k) * cadence + (k' - k) * cadence;
  }

  /** `n` consecutive bucket starts from bucket `first` on. */
  function Grid(first: int, n: nat, cadence: int): (g: seq<int>)
    requires cadence > 0
    ensures |g| == n && Increasing(g)
    ensures n > 0 ==> g[0] == first * cadence && g[n - 1] == (first + n - 1) * cadence
    ensures forall k :: 0 <= k < n ==> g[k] % cadence == 0
    ensures forall k :: 0 < k < n ==> g[k] == g[k - 1] + cadence
  {
    var g := seq(n, k => (first + k) * cadence);
    forall k | 0 <= k < n ensures g[k] % cadence == 0 && (k > 0 ==> g[k] == g[k - 1] + cadence) {
      GridPoint(first, k, cadence);
      GridPoint(first, k - 1, cadence);
    }
    forall k, k' | 0 <= k < k' < n ensures g[k] < g[k'] {
      GridOrder(first, k, k', cadence);
    }
    g
  }

  /** The present values of column `j` among rows `[0, n)` whose time falls
      in bucket `q`, top to bottom. */
  function BucketValues(t: Table, j: nat, q: int, cadence: int, n: nat): (vs: seq<real>)
    requires cadence > 0 && |t.rows| == |t.index| && Rect(t.rows, |t.columns|)
    requires j < |t.columns| && n <= |t.rows|
    ensures |vs| <= n
  {
    if n == 0 then []
    else
      var rest := BucketValues(t, j, q, cadence, n - 1);
      if t.index[n - 1] / cadence == q && t.rows[n - 1][j].Some?
      then rest + [t.rows[n - 1][j].value]
      else rest
  }

  /** Row `i` falls in bucket `q` and has a value in column `j`. */
  predicate InBucket(t: Table, j: nat, q: int, cadence: int, i: nat)
    requires cadence > 0 && |t.rows| == |t.index| && Rect(t.rows, |t.columns|)
    requires j < |t.columns| && i < |t.rows|
  {
    t.index[i] / cadence == q && t.rows[i][j].Some?
  }

  /** The rows among `[0, n)` whose time falls in bucket `q` and that have
      a value in column `j`, in increasing order (`BucketRowsExact`). */
  function BucketRows(t: Table, j: nat, q: int, cadence: int, n: nat): (ps: seq<nat>)
    requires cadence > 0 && |t.rows| == |t.index| && Rect(t.rows, |t.columns|)
    requires j < |t.columns| && n <= |t.rows|
    ensures forall k :: 0 <= k < |ps| ==> ps[k] < n
  {
    if n == 0 then []
    else BucketRows(t, j, q, cadence, n - 1) + if InBucket(t, j, q, cadence, n - 1) then [n - 1] else []
  }

  /** `BucketRows` lists, in increasing order, exactly the rows of the
      bucket that have a value in the column. */
  lemma {:induction false} BucketRowsExact(t: Table, j: nat, q: int, cadence: int, n: nat)
    requires cadence > 0 && |t.rows| == |t.index| && Rect(t.rows, |t.columns|)
    requires j < |t.columns| && n <= |t.rows|
    ensures forall k :: 0 <= k < |BucketRows(t, j, q, cadence, n)| ==>
      InBucket(t, j, q, cadence, BucketRows(t, j, q, cadence, n)[k])
    ensures forall a, b :: 0 <= a < b < |BucketRows(t, j, q, cadence, n)| ==>
      BucketRows(t, j, q, cadence, n)[a] < BucketRows(t, j, q, cadence, n)[b]
    ensures forall i :: 0 <= i < n && InBucket(t, j, q, cadence, i) ==> i in BucketRows(t, j, q, cadence, n)
  {
    if n > 0 {
      BucketRowsExact(t, j, q, cadence, n - 1);
      var ps := BucketRows(t, j, q, cadence, n - 1);
      if InBucket(t, j, q, cadence, n - 1) {
        var ps' := ps + [n - 1];
        assert BucketRows(t, j, q, cadence, n) == ps';
        forall k | 0 <= k < |ps'| ensures InBucket(t, j, q, cadence, ps'[k]) {
          if k < |ps| {
            assert ps'[k] == ps[k];
            assert InBucket(t, j, q, cadence, ps[k]);
          } else {
            assert ps'[k] == n - 1;
          }
        }
        forall a, b | 0 <= a < b < |ps'| ensures ps'[a] < ps'[b] {
          assert ps'[a] == ps[a];
          if b < |ps| { assert ps'[b] == ps[b]; }
        }
        forall i | 0 <= i < n && InBucket(t, j, q, cadence, i) ensures i in ps' {
          if i < n - 1 {
            assert i in ps;
            var k :| 0 <= k < |ps| && ps[k] == i;
            assert ps'[k] == i;
          } else {
            assert ps'[|ps|] == i;
          }
        }
      } else {
        assert BucketRows(t, j, q, cadence, n) == ps;
      }
    }
  }

  /** A bucket holds one value per row of the bucket that has one, in row
      order: the `k`-th value is the cell of the `k`-th such row. */
  lemma {:induction false} BucketValuesAtRows(t: Table, j: nat, q: int, cadence: int, n: nat)
    requires cadence > 0 && |t.rows| == |t.index| && Rect(t.rows, |t.columns|)
    requires j < |t.columns| && n <= |t.rows|
    ensures var vs := BucketValues(t, j, q, cadence, n);
      var ps := BucketRows(t, j, q, cadence, n);
      |vs| == |ps| && forall k :: 0 <= k < |ps| ==> t.rows[ps[k]][j] == Some(vs[k])
  {
    if n > 0 {
      BucketValuesAtRows(t, j, q, cadence, n - 1);
      var vs, ps := BucketValues(t, j, q, cadence, n - 1), BucketRows(t, j, q, cadence, n - 1);
      if InBucket(t, j, q, cadence, n - 1) {
        assert BucketValues(t, j, q, cadence, n) == vs + [t.rows[n - 1][j].value];
        assert BucketRows(t, j, q, cadence, n) == ps + [n - 1];
      } else {
        assert BucketValues(t, j, q, cadence, n) == vs;
        assert BucketRows(t, j, q, cadence, n) == ps;
      }
    }
  }

  /** A bucket's values are exactly the present values of the column in
      the rows whose time falls in the bucket. */
  lemma {:induction false} BucketMembers(t: Table, j: nat, q: int, cadence: int, n: nat)
    requires cadence > 0 && |t.rows| == |t.index| && Rect(t.rows, |t.columns|)
    requires j < |t.columns| && n <= |t.rows|
    ensures forall v :: v in BucketValues(t, j, q, cadence, n) <==>
      exists i :: 0 <= i < n && t.index[i] / cadence == q && t.rows[i][j] == Some(v)
  {
    if n > 0 {
      BucketMembers(t, j, q, cadence, n - 1);
      var rest := BucketValues(t, j, q, cadence, n - 1);
      if t.index[n - 1] / cadence == q && t.rows[n - 1][j].Some? {
        assert BucketValues(t, j, q, cadence, n) == rest + [t.rows[n - 1][j].value];
      }
    }
  }

  /** The latest row among `[0, n)` whose time falls in bucket `q` and
      that has a value in column `j`. */
  function LastIn(t: Table, j: nat, q: int, cadence: int, n: nat): (i: Option<nat>)
    requires cadence > 0 && |t.rows| == |t.index| && Rect(t.rows, |t.columns|)
    requires j < |t.columns| && n <= |t.rows|
    ensures i.Some? ==> i.value < n && t.index[i.value] / cadence == q && t.rows[i.value][j].Some?
  {
    if n == 0 then None
    else if t.index[n - 1] / cadence == q && t.rows[n - 1][j].Some? then Some(n - 1)
    else LastIn(t, j, q, cadence, n - 1)
  }

  /** No row after `LastIn` in the bucket has a value in the column. */
  lemma {:induction false} LastInIsLatest(t: Table, j: nat, q: int, cadence: int, n: nat, i': nat)
    requires cadence > 0 && |t.rows| == |t.index| && Rect(t.rows, |t.columns|)
    requires j < |t.columns| && n <= |t.rows|
    requires i' < n && t.index[i'] / cadence == q && t.rows[i'][j].Some?
    ensures LastIn(t, j, q, cadence, n).Some? && i' <= LastIn(t, j, q, cadence, n).value
  {
    if i' < n - 1 && !(t.index[n - 1] / cadence == q && t.rows[n - 1][j].Some?) {
      LastInIsLatest(t, j, q, cadence, n - 1, i');
    }
  }

  /** The last value of a bucket is the value of `LastIn`'s row. */
  lemma {:induction false} BucketLast(t: Table, j: nat, q: int, cadence: int, n: nat)
    requires cadence > 0 && |t.rows| == |t.index| && Rect(t.rows, |t.columns|)
    requires j < |t.columns| && n <= |t.rows|
    ensures var vs := BucketValues(t, j, q, cadence, n);
      var i := LastIn(t, j, q, cadence, n);
      (|vs| > 0 <==> i.Some?) && (|vs| > 0 ==> t.rows[i.value][j] == Some(vs[|vs| - 1]))
  {
    if n > 0 {
      BucketLast(t, j, q, cadence, n - 1);
    }
  }

  /** The last value of a bucket comes from the latest row of the bucket
      that has a value in the column: with `last`, a present cell is the
      value of that row. */
  lemma BucketLastIsLatest(t: Table, j: nat, q: int, cadence: int, c: Option<real>)
    requires cadence > 0 && |t.rows| == |t.index| && Rect(t.rows, |t.columns|)
    requires j < |t.columns|
    requires c == Reduce(LastOf, BucketValues(t, j, q, cadence, |t.rows|))
    ensures c.Some? ==>
      exists i :: 0 <= i < |t.rows| && t.index[i] / cadence == q && t.rows[i][j] == c
        && forall i' :: i < i' < |t.rows| && t.index[i'] / cadence == q ==> t.rows[i'][j].None?
  {
    BucketLast(t, j, q, cadence, |t.rows|);
    if c.Some? {
      var i := LastIn(t, j, q, cadence, |t.rows|).value;
      forall i' | i < i' < |t.rows| && t.index[i'] / cadence == q ensures t.rows[i'][j].None? {
        if t.rows[i'][j].Some? {
          LastInIsLatest(t, j, q, cadence, |t.rows|, i');
        }
      }
    }
  }

  /** Some row whose time falls in bucket `q` has a value in column `j`. */
  ghost predicate BucketOccupied(t: Table, j: nat, q: int, cadence: int)
    requires cadence > 0 && |t.rows| == |t.index| && Rect(t.rows, |t.columns|) && j < |t.columns|
  {
    exists i :: 0 <= i < |t.rows| && t.index[i] / cadence == q && t.rows[i][j].Some?
  }

  /** A reduction is present exactly when there is something to reduce. */
  lemma ReducePresent(red: Reducer, vs: seq<real>)
    ensures Reduce(red, vs).Some? <==> |vs| > 0
  {
  }

  /** A bucket has values exactly when some row of it has a value in the
      column. */
  lemma BucketNonEmpty(t: Table, j: nat, q: int, cadence: int)
    requires cadence > 0 && |t.rows| == |t.index| && Rect(t.rows, |t.columns|)
    requires j < |t.columns|
    ensures |BucketValues(t, j, q, cadence, |t.rows|)| > 0 <==> BucketOccupied(t, j, q, cadence)
  {
    var vs := BucketValues(t, j, q, cadence, |t.rows|);
    BucketMembers(t, j, q, cadence, |t.rows|);
    if BucketOccupied(t, j, q, cadence) {
      var i :| 0 <= i < |t.rows| && t.index[i] / cadence == q && t.rows[i][j].Some?;
      var v := t.rows[i][j].value;
      assert t.rows[i][j] == Some(v);
      assert v in vs;
    }
    if |vs| > 0 {
      var v := vs[0];
      assert v in vs;
      var i :| 0 <= i < |t.rows| && t.index[i] / cadence == q && t.rows[i][j] == Some(v);
    }
  }

  /** A reduced bucket holds a value exactly when some row of the bucket
      has one in the column. */
  lemma BucketPresence(t: Table, j: nat, q: int, cadence: int, red: Reducer, c: Option<real>)
    requires cadence > 0 && |t.rows| == |t.index| && Rect(t.rows, |t.columns|)
    requires j < |t.columns|
    requires c == Reduce(red, BucketValues(t, j, q, cadence, |t.rows|))
    ensures c.Some? <==> BucketOccupied(t, j, q, cadence)
  {
    ReducePresent(red, BucketValues(t, j, q, cadence, |t.rows|));
    BucketNonEmpty(t, j, q, cadence);
  }

  /** Every value of column `j` in bucket `q` lies in [lo, hi]. */
  ghost predicate BucketBounded(t: Table, j: nat, q: int, cadence: int, lo: real, hi: real)
    requires cadence > 0 && |t.rows| == |t.index| && Rect(t.rows, |t.columns|) && j < |t.columns|
  {
    forall i, v :: (0 <= i < |t.rows| && t.index[i] / cadence == q && t.rows[i][j] == Some(v)) ==> lo <= v <= hi
  }

  /** A bucket's median lies within the range of the bucket's values. */
  lemma BucketMedianBounds(t: Table, j: nat, q: int, cadence: int, lo: real, hi: real)
    requires cadence > 0 && |t.rows| == |t.index| && Rect(t.rows, |t.columns|)
    requires j < |t.columns|
    requires BucketBounded(t, j, q, cadence, lo, hi)
    ensures var c := Reduce(MedianOf, BucketValues(t, j, q, cadence, |t.rows|));
      c.Some? ==> lo <= c.value <= hi
  {
    var vs := BucketValues(t, j, q, cadence, |t.rows|);
    BucketMembers(t, j, q, cadence, |t.rows|);
    if |vs| > 0 {
      assert Bounded(vs, lo, hi) by {
        forall m | 0 <= m < |vs| ensures lo <= vs[m] <= hi {
          assert vs[m] in vs;
        }
      }
      MedianBounds(vs, lo, hi);
    }
  }

  /** The resampled table: a gap-free grid of bucket starts, multiples of
      `cadence`, from the bucket of the first row to the bucket of the last;
      each cell reduces the column's present values in its bucket. */
  function Resample(t: Table, cadence: int, red: Reducer): (r: Table)
    requires cadence > 0 && Valid(t)
    ensures Valid(r) && r.columns == t.columns
    ensures |r.index| == 0 <==> |t.index| == 0
    ensures |t.index| > 0 ==>
      && r.index[0] == t.index[0] / cadence * cadence
      && r.index[|r.index| - 1] == t.index[|t.index| - 1] / cadence * cadence
    ensures forall k :: 0 <= k < |r.index| ==> r.index[k] % cadence == 0
    ensures forall k :: 0 < k < |r.index| ==> r.index[k] == r.index[k - 1] + cadence
  {
    if |t.index| == 0 then Table([], t.columns, [])
    else
      var first := t.index[0] / cadence;
      var last := t.index[|t.index| - 1] / cadence;
      DivMonotone(t.index[0], t.index[|t.index| - 1], cadence);
      var n := last - first + 1;
      Table(Grid(first, n, cadence), t.columns,
        seq(n, k =>
          seq(|t.columns|, j requires 0 <= j < |t.columns| =>
            Reduce(red, BucketValues(t, j, first + k, cadence, |t.rows|)))))
  }

  /** Every input row lands in the output row whose bucket contains its
      time, so no reading falls off the grid. */
  lemma ResampleCovers(t: Table, cadence: int, red: Reducer, i: nat)
    requires cadence > 0 && Valid(t) && i < |t.index|
    ensures var r := Resample(t, cadence, red);
      var k := t.index[i] / cadence - t.index[0] / cadence;
      && 0 <= k < |r.index|
      && r.index[k] <= t.index[i] < r.index[k] + cadence
  {
    var r := Resample(t, cadence, red);
    var first := t.index[0] / cadence;
    var q := t.index[i] / cadence;
    var k := q - first;
    DivMonotone(t.index[0], t.index[i], cadence);
    DivMonotone(t.index[i], t.index[|t.index| - 1], cadence);
    assert r.index[k] == q * cadence;
    assert t.index[i] == q * cadence + t.index[i] % cadence;
  }

  /** A resampled cell reduces the present values of its column in its
      bucket. */
  lemma ResampleCellValues(t: Table, cadence: int, red: Reducer, k: nat, j: nat)
    requires cadence > 0 && Valid(t)
    requires k < |Resample(t, cadence, red).index| && j < |t.columns|
    ensures Resample(t, cadence, red).rows[k][j]
      == Reduce(red, BucketValues(t, j, t.index[0] / cadence + k, cadence, |t.rows|))
  {
  }

  /** A resampled cell is the reducer applied to the readings of its
      bucket in its column: one value per row of the bucket that has one,
      the `m`-th being the cell of the `m`-th such row. */
  lemma ResampleCell(t: Table, cadence: int, red: Reducer, k: nat, j: nat)
    requires cadence > 0 && Valid(t)
    requires k < |Resample(t, cadence, red).index| && j < |t.columns|
    ensures var q := t.index[0] / cadence + k;
      var ps := BucketRows(t, j, q, cadence, |t.rows|);
      var vs := BucketValues(t, j, q, cadence, |t.rows|);
      && |vs| == |ps|
      && (forall m :: 0 <= m < |ps| ==> t.rows[ps[m]][j] == Some(vs[m]))
      && Resample(t, cadence, red).rows[k][j] == Reduce(red, vs)
  {
    ResampleCellValues(t, cadence, red, k, j);
    BucketValuesAtRows(t, j, t.index[0] / cadence + k, cadence, |t.rows|);
  }

  /** A resampled cell holds a value exactly when some input row of its
      bucket has one in that column. */
  lemma ResamplePresence(t: Table, cadence: int, red: Reducer, k: nat, j: nat)
    requires cadence > 0 && Valid(t)
    requires k < |Resample(t, cadence, red).index| && j < |t.columns|
    ensures Resample(t, cadence, red).rows[k][j].Some? <==> BucketOccupied(t, j, t.index[0] / cadence + k, cadence)
  {
    ResampleCellValues(t, cadence, red, k, j);
    BucketPresence(t, j, t.index[0] / cadence + k, cadence, red, Resample(t, cadence, red).rows[k][j]);
  }

  /** The per-bucket median lies between the least and greatest of the
      values it collapses. */
  lemma ResampleMedianBounds(t: Table, cadence: int, k: nat, j: nat, lo: real, hi: real)
    requires cadence > 0 && Valid(t)
    requires k < |Resample(t, cadence, MedianOf).index| && j < |t.columns|
    requires BucketBounded(t, j, t.index[0] / cadence + k, cadence, lo, hi)
    ensures var c := Resample(t, cadence, MedianOf).rows[k][j];
      c.Some? ==> lo <= c.value <= hi
  {
    ResampleCellValues(t, cadence, MedianOf, k, j);
    BucketMedianBounds(t, j, t.index[0] / cadence + k, cadence, lo, hi);
  }

  /** With `last`, a present cell is the value of the latest row of its
      bucket that has one in that column. */
  lemma ResampleLastIsLatest(t: Table, cadence: int, k: nat, j: nat)
    requires cadence > 0 && Valid(t)
    requires k < |Resample(t, cadence, LastOf).index| && j < |t.columns|
    ensures var c := Resample(t, cadence, LastOf).rows[k][j];
      var q := t.index[0] / cadence + k;
      c.Some? ==>
        exists i :: 0 <= i < |t.rows| && t.index[i] / cadence == q && t.rows[i][j] == c
          && forall i' :: i < i' < |t.rows| && t.index[i'] / cadence == q ==> t.rows[i'][j].None?
  {
    ResampleCellValues(t, cadence, LastOf, k, j);
    BucketLastIsLatest(t, j, t.index[0] / cadence + k, cadence, Resample(t, cadence, LastOf).rows[k][j]);
  }

  /** A bucket that no input row falls in becomes an all-missing row. */
  lemma ResampleEmptyBucket(t: Table, cadence: int, red: Reducer, k: nat)
    requires cadence > 0 && Valid(t)
    requires k < |Resample(t, cadence, red).index|
    requires forall i :: 0 <= i < |t.index| ==> t.index[i] / cadence != t.index[0] / cadence + k
    ensures forall j :: 0 <= j < |t.columns| ==> Resample(t, cadence, red).rows[k][j] == None
  {
    forall j | 0 <= j < |t.columns| ensures Resample(t, cadence, red).rows[k][j] == None {
      ResamplePresence(t, cadence, red, k, j);
    }
  }
}
