/** The spike filter: a cell is cleared when the forward-filled series
    deviates by more than `Tolerance` from the median of its last `Window`
    forward-filled values; the mask is computed on the whole table first
    and then written into it, and nothing is filled back afterwards. */
module Despiking {
  import opened Wrappers
  import opened Stats
  import opened Frames
  import opened Filling

  /** `rolling(5)`: the window is the row and the four above it, and with
      the default `min_periods` all five must be present. */
  const Window: nat := 5
  /** The spike threshold, compared with a strict `>`. */
  const Tolerance: real := 5.0

  function Abs(x: real): real { if x < 0.0 then -x else x }

  predicate WindowComplete(f: seq<Row>, width: nat, i: nat, j: nat)
    requires Rect(f, width) && i < |f| && j < width
  {
    i + 1 >= Window && forall k :: i + 1 - Window <= k <= i ==> f[k][j].Some?
  }

  function WindowValues(f: seq<Row>, width: nat, i: nat, j: nat): (vs: seq<real>)
    requires Rect(f, width) && i < |f| && j < width && WindowComplete(f, width, i, j)
    ensures |vs| == Window
  {
    seq(Window, d requires 0 <= d < Window => f[i + 1 - Window + d][j].value)
  }

  /** `rolling(5).median()`: missing (NaN) unless the window is complete. */
  function RollingMedian(f: seq<Row>, width: nat, i: nat, j: nat): Option<real>
    requires Rect(f, width) && i < |f| && j < width
  {
    if WindowComplete(f, width, i, j) then Some(Median(WindowValues(f, width, i, j))) else None
  }

  /** The mask `abs(filled - rolling median) > 5`; a comparison with a
      missing operand is false. */
  predicate SpikeAt(f: seq<Row>, width: nat, i: nat, j: nat)
    requires Rect(f, width) && i < |f| && j < width
  {
    && f[i][j].Some?
    && var m := RollingMedian(f, width, i, j);
    && m.Some?
    && Abs(f[i][j].value - m.value) > Tolerance
  }

  /** The boolean mask of the whole table. */
  function SpikeMask(f: seq<Row>, width: nat): (mask: seq<seq<bool>>)
    requires Rect(f, width)
    ensures |mask| == |f| && forall i :: 0 <= i < |f| ==> |mask[i]| == width
  {
    seq(|f|, i requires 0 <= i < |f| =>
      seq(width, j requires 0 <= j < width => SpikeAt(f, width, i, j)))
  }

  /** `df[mask] = NaN` with the mask taken on `df.ffill()`. */
  function ClearSpikes(rows: seq<Row>, width: nat): (r: seq<Row>)
    requires Rect(rows, width)
    ensures |r| == |rows| && Rect(r, width)
  {
    var mask := SpikeMask(FillForward(rows, width, None), width);
    seq(|rows|, i requires 0 <= i < |rows| =>
      seq(width, j requires 0 <= j < width => if mask[i][j] then None else rows[i][j]))
  }

  lemma ClearSpikesAt(rows: seq<Row>, width: nat, i: nat, j: nat)
    requires Rect(rows, width) && i < |rows| && j < width
    ensures var f := FillForward(rows, width, None);
      ClearSpikes(rows, width)[i][j] == if SpikeAt(f, width, i, j) then None else rows[i][j]
  {
  }

  /** The filter only clears: every cell keeps its value or becomes
      missing, and no present value is changed into another. */
  lemma OnlyClears(rows: seq<Row>, width: nat, i: nat, j: nat)
    requires Rect(rows, width) && i < |rows| && j < width
    ensures var r := ClearSpikes(rows, width);
      r[i][j] == rows[i][j] || r[i][j] == None
  {
    ClearSpikesAt(rows, width, i, j);
  }

  /** A present value is cleared exactly when its row has a complete window
      of forward-filled values and the value lies strictly more than
      `Tolerance` away from the window's median. */
  lemma SpikeRule(rows: seq<Row>, width: nat, i: nat, j: nat, v: real)
    requires Rect(rows, width) && i < |rows| && j < width && rows[i][j] == Some(v)
    ensures var f := FillForward(rows, width, None);
      ClearSpikes(rows, width)[i][j] == None <==>
        WindowComplete(f, width, i, j) && Abs(v - Median(WindowValues(f, width, i, j))) > Tolerance
  {
    var f: seq<Row> := FillForward(rows, width, None);
    assert f[i][j] == Some(v);
    assert ClearSpikes(rows, width)[i][j] == if SpikeAt(f, width, i, j) then None else rows[i][j];
  }

  /** Rows above the first complete window are never cleared. */
  lemma EarlyRowsKept(rows: seq<Row>, width: nat, i: nat)
    requires Rect(rows, width) && i < |rows| && i + 1 < Window
    ensures ClearSpikes(rows, width)[i] == rows[i]
  {
    var f: seq<Row> := FillForward(rows, width, None);
    var r := ClearSpikes(rows, width);
    forall j | 0 <= j < width ensures r[i][j] == rows[i][j] {
      assert r[i][j] == if SpikeAt(f, width, i, j) then None else rows[i][j];
    }
  }

  lemma FilledInRange(rows: seq<Row>, width: nat, j: nat, lo: real, hi: real, k: nat)
    requires Rect(rows, width) && j < width && k < |rows|
    requires forall i :: 0 <= i < |rows| && rows[i][j].Some? ==> lo <= rows[i][j].value <= hi
    ensures var f := FillForward(rows, width, None);
      f[k][j].Some? ==> lo <= f[k][j].value <= hi
  {
    var f: seq<Row> := FillForward(rows, width, None);
    FillComesFromAbove(rows, width, None, k, j);
    if f[k][j].Some? {
      var k' :| 0 <= k' <= k && rows[k'][j] == f[k][j];
    }
  }

  /** In a column whose values all lie in [lo, lo + Tolerance], no
      forward-filled cell is a spike: the filled value and its window's
      median both stay in that range. */
  lemma StableCellNoSpike(rows: seq<Row>, width: nat, j: nat, lo: real, i: nat)
    requires Rect(rows, width) && j < width && i < |rows|
    requires forall i :: 0 <= i < |rows| && rows[i][j].Some? ==> lo <= rows[i][j].value <= lo + Tolerance
    ensures !SpikeAt(FillForward(rows, width, None), width, i, j)
  {
    var f: seq<Row> := FillForward(rows, width, None);
    var hi := lo + Tolerance;
    if f[i][j].Some? && WindowComplete(f, width, i, j) {
      var vs := WindowValues(f, width, i, j);
      assert Bounded(vs, lo, hi) by {
        forall d | 0 <= d < |vs| ensures lo <= vs[d] <= hi {
          FilledInRange(rows, width, j, lo, hi, i + 1 - Window + d);
        }
      }
      MedianBounds(vs, lo, hi);
      FilledInRange(rows, width, j, lo, hi, i);
    }
  }

  /** A column whose values all lie within `Tolerance` of each other loses
      no cell. */
  lemma StableColumnKept(rows: seq<Row>, width: nat, j: nat, lo: real)
    requires Rect(rows, width) && j < width
    requires forall i :: 0 <= i < |rows| && rows[i][j].Some? ==> lo <= rows[i][j].value <= lo + Tolerance
    ensures forall i :: 0 <= i < |rows| ==> ClearSpikes(rows, width)[i][j] == rows[i][j]
  {
    forall i | 0 <= i < |rows| ensures ClearSpikes(rows, width)[i][j] == rows[i][j] {
      ClearSpikesAt(rows, width, i, j);
      StableCellNoSpike(rows, width, j, lo, i);
    }
  }

  lemma FullFillColumnLocal(rows: seq<Row>, other: seq<Row>, width: nat, j: nat, k: nat)
    requires Rect(rows, width) && Rect(other, width) && |rows| == |other| && j < width && k < |rows|
    requires forall k :: 0 <= k < |rows| ==> rows[k][j] == other[k][j]
    ensures FillForward(rows, width, None)[k][j] == FillForward(other, width, None)[k][j]
  {
    LastSeenColumnLocal(rows, other, width, k, j);
    assert FillForward(rows, width, None)[k][j] == FillCell(rows, width, None, k, j);
    assert FillForward(other, width, None)[k][j] == FillCell(other, width, None, k, j);
  }

  lemma SpikeAtColumnLocal(f: seq<Row>, g: seq<Row>, width: nat, i: nat, j: nat)
    requires Rect(f, width) && Rect(g, width) && |f| == |g| && i < |f| && j < width
    requires forall k :: 0 <= k < |f| ==> f[k][j] == g[k][j]
    ensures SpikeAt(f, width, i, j) == SpikeAt(g, width, i, j)
  {
    if WindowComplete(f, width, i, j) {
      assert WindowValues(f, width, i, j) == WindowValues(g, width, i, j);
    }
  }

  /** Columns are filtered independently: what the filter does to column
      `j` depends on column `j` alone. */
  lemma ColumnsIndependent(rows: seq<Row>, other: seq<Row>, width: nat, j: nat)
    requires Rect(rows, width) && Rect(other, width) && |rows| == |other| && j < width
    requires forall k :: 0 <= k < |rows| ==> rows[k][j] == other[k][j]
    ensures forall i :: 0 <= i < |rows| ==> ClearSpikes(rows, width)[i][j] == ClearSpikes(other, width)[i][j]
  {
    var f: seq<Row> := FillForward(rows, width, None);
    var g: seq<Row> := FillForward(other, width, None);
    forall k | 0 <= k < |rows| ensures f[k][j] == g[k][j] {
      FullFillColumnLocal(rows, other, width, j, k);
    }
    forall i | 0 <= i < |rows| ensures ClearSpikes(rows, width)[i][j] == ClearSpikes(other, width)[i][j] {
      ClearSpikesAt(rows, width, i, j);
      ClearSpikesAt(other, width, i, j);
      SpikeAtColumnLocal(f, g, width, i, j);
    }
  }

  /** A one-column table holding `vs`, top to bottom. */
  function Column(vs: seq<real>): (rows: seq<Row>)
    ensures |rows| == |vs| && Rect(rows, 1)
  {
    seq(|vs|, i requires 0 <= i < |vs| => [Some(vs[i])])
  }

  lemma {:induction false} NoGapFillIsIdentity(vs: seq<real>)
    ensures FillForward(Column(vs), 1, None) == Column(vs)
  {
    var rows := Column(vs);
    var f := FillForward(rows, 1, None);
    forall i | 0 <= i < |vs| ensures f[i] == rows[i] {
      assert f[i][0] == rows[i][0];
    }
  }

  /** On a gap-free column, row `i` (with a full window) is cleared exactly
      when it lies more than `Tolerance` from the median of itself and the
      four values above it. */
  lemma GapFreeColumnRule(vs: seq<real>, i: nat)
    requires Window - 1 <= i < |vs|
    ensures ClearSpikes(Column(vs), 1)[i]
      == if Abs(vs[i] - Median(vs[i + 1 - Window..i + 1])) > Tolerance then [None] else [Some(vs[i])]
  {
    var rows := Column(vs);
    var r := ClearSpikes(rows, 1);
    NoGapFillIsIdentity(vs);
    assert WindowComplete(rows, 1, i, 0);
    assert WindowValues(rows, 1, i, 0) == vs[i + 1 - Window..i + 1];
    SpikeRule(rows, 1, i, 0, vs[i]);
    assert |r[i]| == 1;
  }

  /** On a gap-free column, a reading more than `Tolerance` away from a
      value held by most of its window is cleared. */
  lemma OutlierAgainstMajorityCleared(vs: seq<real>, i: nat, c: real)
    requires Window - 1 <= i < |vs|
    requires Count(vs[i + 1 - Window..i + 1], c) > Window / 2
    requires Abs(vs[i] - c) > Tolerance
    ensures ClearSpikes(Column(vs), 1)[i] == [None]
  {
    GapFreeColumnRule(vs, i);
    MedianOfMajority(vs[i + 1 - Window..i + 1], c);
  }

  /** On a gap-free column, a reading within `Tolerance` of a value held by
      most of its window is kept. */
  lemma CloseToMajorityKept(vs: seq<real>, i: nat, c: real)
    requires Window - 1 <= i < |vs|
    requires Count(vs[i + 1 - Window..i + 1], c) > Window / 2
    requires Abs(vs[i] - c) <= Tolerance
    ensures ClearSpikes(Column(vs), 1)[i] == [Some(vs[i])]
  {
    GapFreeColumnRule(vs, i);
    MedianOfMajority(vs[i + 1 - Window..i + 1], c);
  }

  /** The occurrences of `c` in a window, counted cell by cell. */
  lemma CountWindow(w: seq<real>, c: real)
    requires |w| == Window
    ensures Count(w, c) == (if w[0] == c then 1 else 0) + (if w[1] == c then 1 else 0)
      + (if w[2] == c then 1 else 0) + (if w[3] == c then 1 else 0) + (if w[4] == c then 1 else 0)
  {
    assert w[1..][1..] == w[2..] && w[2..][1..] == w[3..] && w[3..][1..] == w[4..] && w[4..][1..] == [];
    assert Count(w[4..], c) == (if w[4] == c then 1 else 0) + Count(w[5..], c);
    assert Count(w[3..], c) == (if w[3] == c then 1 else 0) + Count(w[4..], c);
    assert Count(w[2..], c) == (if w[2] == c then 1 else 0) + Count(w[3..], c);
    assert Count(w[1..], c) == (if w[1] == c then 1 else 0) + Count(w[2..], c);
  }

  /** A spike on a steady series is cleared once a full window is
      available: in 70, 70, 71, 70, 95, 70 the 95 (row 4, window median 70)
      is cleared and its neighbour in row 5 is kept. */
  lemma SpikeInFullWindowCleared(vs: seq<real>)
    requires vs == [70.0, 70.0, 71.0, 70.0, 95.0, 70.0]
    ensures ClearSpikes(Column(vs), 1)[4] == [None]
    ensures ClearSpikes(Column(vs), 1)[5] == [Some(70.0)]
  {
    CountWindow(vs[0..5], 70.0);
    OutlierAgainstMajorityCleared(vs, 4, 70.0);
    CountWindow(vs[1..6], 70.0);
    CloseToMajorityKept(vs, 5, 70.0);
  }

  /** A spike before the first full window stays: in 70, 70, 71, 95, 70,
      70 the 95 sits in row 3, where `rolling(5)` has no median yet, and
      the windows of rows 4 and 5 have median 70, so no cell is cleared. */
  lemma EarlySpikeKept(vs: seq<real>)
    requires vs == [70.0, 70.0, 71.0, 95.0, 70.0, 70.0]
    ensures ClearSpikes(Column(vs), 1)[3] == [Some(95.0)]
    ensures ClearSpikes(Column(vs), 1)[4] == [Some(70.0)]
    ensures ClearSpikes(Column(vs), 1)[5] == [Some(70.0)]
  {
    EarlyRowsKept(Column(vs), 1, 3);
    CountWindow(vs[0..5], 70.0);
    CloseToMajorityKept(vs, 4, 70.0);
    CountWindow(vs[1..6], 70.0);
    CloseToMajorityKept(vs, 5, 70.0);
  }

  /** The cells of a two-dimensional array, row by row. */
  function Cells(a: array2<Option<real>>): (rows: seq<Row>)
    reads a
    ensures |rows| == a.Length0 && Rect(rows, a.Length1)
  {
    seq(a.Length0, i requires 0 <= i < a.Length0 reads a =>
      seq(a.Length1, j requires 0 <= j < a.Length1 reads a => a[i, j]))
  }

  /** `df[mask] = NaN`: every cell whose mask entry is set becomes missing,
      every other cell keeps its value. */
  method ApplyMask(a: array2<Option<real>>, mask: seq<seq<bool>>)
    requires |mask| == a.Length0 && forall i :: 0 <= i < |mask| ==> |mask[i]| == a.Length1
    modifies a
    ensures forall r, c :: 0 <= r < a.Length0 && 0 <= c < a.Length1 ==>
      a[r, c] == if mask[r][c] then None else old(a[r, c])
  {
    var i := 0;
    while i < a.Length0
      invariant 0 <= i <= a.Length0
      invariant forall r, c :: 0 <= r < i && 0 <= c < a.Length1 ==>
        a[r, c] == if mask[r][c] then None else old(a[r, c])
      invariant forall r, c :: i <= r < a.Length0 && 0 <= c < a.Length1 ==> a[r, c] == old(a[r, c])
    {
      var j := 0;
      while j < a.Length1
        invariant 0 <= j <= a.Length1
        invariant forall r, c :: 0 <= r < i && 0 <= c < a.Length1 ==>
          a[r, c] == if mask[r][c] then None else old(a[r, c])
        invariant forall c :: 0 <= c < j ==> a[i, c] == if mask[i][c] then None else old(a[i, c])
        invariant forall c :: j <= c < a.Length1 ==> a[i, c] == old(a[i, c])
        invariant forall r, c :: i < r < a.Length0 && 0 <= c < a.Length1 ==> a[r, c] == old(a[r, c])
      {
        if mask[i][j] {
          a[i, j] := None;
        }
        j := j + 1;
      }
      i := i + 1;
    }
  }

  /** The spike filter done in place: the whole mask is computed from the
      table before any cell is cleared, then applied. */
  method ClearSpikesInPlace(a: array2<Option<real>>)
    modifies a
    ensures Cells(a) == ClearSpikes(old(Cells(a)), a.Length1)
  {
    var before := Cells(a);
    var mask := SpikeMask(FillForward(before, a.Length1, None), a.Length1);
    ApplyMask(a, mask);
    ghost var spec := ClearSpikes(before, a.Length1);
    forall r | 0 <= r < a.Length0 ensures Cells(a)[r] == spec[r] {
      assert forall c :: 0 <= c < a.Length1 ==> Cells(a)[r][c] == spec[r][c];
    }
  }
}
