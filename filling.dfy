/** `DataFrame.ffill(limit=...)`: a missing cell takes the value of the
    latest present cell above it in the same column, when that cell is at
    most `limit` rows above (at any distance when there is no limit). */
module Filling {
  import opened Wrappers
  import opened Frames

  /** The row and value of a present cell. */
  datatype Seen = Seen(row: nat, value: real)

  /** The latest present cell of column `j` at or above row `i`. */
  function LastSeen(rows: seq<Row>, width: nat, i: nat, j: nat): (s: Option<Seen>)
    requires Rect(rows, width) && i < |rows| && j < width
    ensures s.Some? ==>
      && s.value.row <= i
      && rows[s.value.row][j] == Some(s.value.value)
      && forall k :: s.value.row < k <= i ==> rows[k][j].None?
    ensures s.None? ==> forall k :: 0 <= k <= i ==> rows[k][j].None?
    decreases i
  {
    if rows[i][j].Some? then Some(Seen(i, rows[i][j].value))
    else if i == 0 then None
    else LastSeen(rows, width, i - 1, j)
  }

  function FillCell(rows: seq<Row>, width: nat, limit: Option<nat>, i: nat, j: nat): Option<real>
    requires Rect(rows, width) && i < |rows| && j < width
  {
    match LastSeen(rows, width, i, j)
    case None => None
    case Some(s) => if limit.None? || i - s.row <= limit.value then Some(s.value) else None
  }

  /** The filled table has the same shape and keeps every present cell. */
  function FillForward(rows: seq<Row>, width: nat, limit: Option<nat>): (r: seq<Row>)
    requires Rect(rows, width)
    ensures |r| == |rows| && Rect(r, width)
    ensures forall i, j :: 0 <= i < |rows| && 0 <= j < width && rows[i][j].Some? ==> r[i][j] == rows[i][j]
  {
    seq(|rows|, i requires 0 <= i < |rows| =>
      seq(width, j requires 0 <= j < width => FillCell(rows, width, limit, i, j)))
  }

  /** Every value the fill produces is copied from a present cell at or
      above it in the same column: nothing is invented or interpolated. */
  lemma FillComesFromAbove(rows: seq<Row>, width: nat, limit: Option<nat>, i: nat, j: nat)
    requires Rect(rows, width) && i < |rows| && j < width
    ensures var r := FillForward(rows, width, limit);
      r[i][j].Some? ==> exists k :: 0 <= k <= i && rows[k][j] == r[i][j]
  {
    assert FillForward(rows, width, limit)[i][j] == FillCell(rows, width, limit, i, j);
  }

  /** A filled cell holds the value of the latest present cell at or above
      it in its column, and that cell is at most `limit` rows up. */
  lemma FillIsLatest(rows: seq<Row>, width: nat, limit: Option<nat>, i: nat, j: nat)
    requires Rect(rows, width) && i < |rows| && j < width
    ensures var r := FillForward(rows, width, limit);
      r[i][j].Some? ==> exists k :: (0 <= k <= i && rows[k][j] == r[i][j]
        && (limit.Some? ==> i - k <= limit.value)
        && forall k' :: k < k' <= i ==> rows[k'][j].None?)
  {
    var r := FillForward(rows, width, limit);
    assert r[i][j] == FillCell(rows, width, limit, i, j);
    if r[i][j].Some? {
      var s := LastSeen(rows, width, i, j).value;
      assert rows[s.row][j] == r[i][j];
    }
  }

  /** `ffill(limit=1)` cell by cell: a present cell is unchanged, a missing
      cell right below a present one takes its value, a missing cell below
      a missing one (the rest of a gap, or a leading gap) stays missing. */
  lemma FillOnce(rows: seq<Row>, width: nat, i: nat, j: nat)
    requires Rect(rows, width) && i < |rows| && j < width
    ensures var r := FillForward(rows, width, Some(1));
      && (rows[i][j].Some? ==> r[i][j] == rows[i][j])
      && (rows[i][j].None? && i > 0 && rows[i - 1][j].Some? ==> r[i][j] == rows[i - 1][j])
      && (rows[i][j].None? && i > 0 && rows[i - 1][j].None? ==> r[i][j].None?)
      && (rows[i][j].None? && i == 0 ==> r[i][j].None?)
  {
    var r := FillForward(rows, width, Some(1));
    assert r[i][j] == FillCell(rows, width, Some(1), i, j);
    if rows[i][j].None? && i > 0 {
      var s := LastSeen(rows, width, i, j);
      assert s == LastSeen(rows, width, i - 1, j);
      if rows[i - 1][j].Some? {
        assert s == Some(Seen(i - 1, rows[i - 1][j].value));
      } else if s.Some? {
        assert s.value.row < i - 1;
      }
    }
  }

  /** After an unlimited `ffill()` a cell is missing exactly when its column
      has no value at or above it: only leading gaps remain. */
  lemma FullFillLeavesLeadingGaps(rows: seq<Row>, width: nat, i: nat, j: nat)
    requires Rect(rows, width) && i < |rows| && j < width
    ensures FillForward(rows, width, None)[i][j].None? <==>
      forall k :: 0 <= k <= i ==> rows[k][j].None?
  {
    assert FillForward(rows, width, None)[i][j] == FillCell(rows, width, None, i, j);
  }

  lemma {:induction false} LastSeenAfterFillOnce(rows: seq<Row>, width: nat, i: nat, j: nat)
    requires Rect(rows, width) && i < |rows| && j < width
    ensures var g := FillForward(rows, width, Some(1));
      var a, b := LastSeen(g, width, i, j), LastSeen(rows, width, i, j);
      a.Some? == b.Some? && (a.Some? ==> a.value.value == b.value.value)
    decreases i
  {
    var g := FillForward(rows, width, Some(1));
    assert g[i][j] == FillCell(rows, width, Some(1), i, j);
    if rows[i][j].None? && g[i][j].None? && i > 0 {
      LastSeenAfterFillOnce(rows, width, i - 1, j);
    }
  }

  /** Filling everything after filling the first cell of each gap gives
      what filling everything at once gives: the `ffill()` on the spike filter's input
      sees the same series whether or not `ffill(limit=1)` ran first. */
  lemma FullFillAfterFillOnce(rows: seq<Row>, width: nat)
    requires Rect(rows, width)
    ensures FillForward(FillForward(rows, width, Some(1)), width, None) == FillForward(rows, width, None)
  {
    var g := FillForward(rows, width, Some(1));
    var a, b := FillForward(g, width, None), FillForward(rows, width, None);
    forall i | 0 <= i < |rows| ensures a[i] == b[i] {
      forall j | 0 <= j < width ensures a[i][j] == b[i][j] {
        LastSeenAfterFillOnce(rows, width, i, j);
        assert a[i][j] == FillCell(g, width, None, i, j);
        assert b[i][j] == FillCell(rows, width, None, i, j);
      }
    }
  }

  /** What a column becomes depends on that column alone. */
  lemma {:induction false} LastSeenColumnLocal(rows: seq<Row>, other: seq<Row>, width: nat, i: nat, j: nat)
    requires Rect(rows, width) && Rect(other, width) && |rows| == |other| && i < |rows| && j < width
    requires forall k :: 0 <= k < |rows| ==> rows[k][j] == other[k][j]
    ensures LastSeen(rows, width, i, j) == LastSeen(other, width, i, j)
    decreases i
  {
    if rows[i][j].None? && i > 0 {
      LastSeenColumnLocal(rows, other, width, i - 1, j);
    }
  }
}
