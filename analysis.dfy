/** The two table builders of the analysis module: the pivot of the recent
    readings of one user, and the cleaned table the charts plot
    (resample to a fixed cadence, fill the first cell of each gap, clear
    spikes). */
module Analysis {
  import opened Wrappers
  import opened Stats
  import opened Readings
  import opened Frames
  import opened Resampling
  import opened Filling
  import opened Despiking

  const SecondsPerHour: int := 3600
  /** `get_dataframe(user=1)` and `resolution='60S'`. */
  const DefaultUser: int := 1
  const DefaultResolution: int := 60

  /** The long frame read from the query: one observation per row, in
      order, with the row's time, location and raw value (the calibration
      bias is not applied here). */
  function Raw(rows: seq<Record>): (obs: seq<Observation>)
    ensures |obs| == |rows|
    ensures forall o :: o in obs <==>
      exists r :: r in rows && o == Observation(r.time, r.location, Some(r.value))
  {
    if |rows| == 0 then []
    else
      assert forall r :: r in rows <==> r == rows[0] || r in rows[1..];
      [Observation(rows[0].time, rows[0].location, Some(rows[0].value))] + Raw(rows[1..])
  }

  /** The `i`-th observation of the long frame comes from the `i`-th row. */
  lemma {:induction false} RawRows(rows: seq<Record>)
    ensures forall i :: 0 <= i < |rows| ==>
      Raw(rows)[i] == Observation(rows[i].time, rows[i].location, Some(rows[i].value))
  {
    if |rows| > 0 {
      RawRows(rows[1..]);
      assert forall i :: 1 <= i < |rows| ==> rows[i] == rows[1..][i - 1];
    }
  }

  /** The readings `get_dataframe` selects: recorded within the last
      `hours` hours before `now` by a sensor that `user` owns. */
  predicate Selected(r: Record, now: int, hours: int, user: int) {
    r.time >= now - hours * SecondsPerHour && r.owner == user
  }

  /** A time carries a value in the long frame exactly when some row was
      recorded at it. */
  lemma RawTimes(rows: seq<Record>, x: int)
    ensures (exists o :: o in Raw(rows) && o.value.Some? && o.time == x) <==> exists r :: r in rows && r.time == x
  {
    if exists o :: o in Raw(rows) && o.value.Some? && o.time == x {
      var o :| o in Raw(rows) && o.value.Some? && o.time == x;
      var r :| r in rows && o == Observation(r.time, r.location, Some(r.value));
    }
    if exists r :: r in rows && r.time == x {
      var r :| r in rows && r.time == x;
      assert Observation(r.time, r.location, Some(r.value)) in Raw(rows);
    }
  }

  /** A location carries a value in the long frame exactly when some row
      was recorded at it. */
  lemma RawLocations(rows: seq<Record>, c: string)
    ensures (exists o :: o in Raw(rows) && o.value.Some? && o.location == c) <==> exists r :: r in rows && r.location == c
  {
    if exists o :: o in Raw(rows) && o.value.Some? && o.location == c {
      var o :| o in Raw(rows) && o.value.Some? && o.location == c;
      var r :| r in rows && o == Observation(r.time, r.location, Some(r.value));
    }
    if exists r :: r in rows && r.location == c {
      var r :| r in rows && r.location == c;
      assert Observation(r.time, r.location, Some(r.value)) in Raw(rows);
    }
  }

  /** A value sits in the long frame at a time and location exactly when a
      row recorded it there. */
  lemma RawCell(rows: seq<Record>, x: int, c: string, v: real)
    ensures Observation(x, c, Some(v)) in Raw(rows) <==>
      exists r :: r in rows && r.time == x && r.location == c && r.value == v
  {
    if Observation(x, c, Some(v)) in Raw(rows) {
      var r :| r in rows && Observation(x, c, Some(v)) == Observation(r.time, r.location, Some(r.value));
    }
    if exists r :: r in rows && r.time == x && r.location == c && r.value == v {
      var r :| r in rows && r.time == x && r.location == c && r.value == v;
      assert Observation(r.time, r.location, Some(r.value)) in Raw(rows);
    }
  }

  /** `get_dataframe`: one row per time and one column per location among
      the selected readings. */
  function GetDataframe(db: seq<Record>, now: int, hours: int, user: int): (t: Table)
    ensures Valid(t)
    ensures forall x :: x in t.index <==> exists r :: r in db && Selected(r, now, hours, user) && r.time == x
    ensures forall c :: c in t.columns <==> exists r :: r in db && Selected(r, now, hours, user) && r.location == c
  {
    var rows := Query(db, now - hours * SecondsPerHour, user);
    var t := Pivot(Raw(rows));
    assert forall x :: x in t.index <==> exists r :: r in db && Selected(r, now, hours, user) && r.time == x by {
      forall x ensures x in t.index <==> exists r :: r in db && Selected(r, now, hours, user) && r.time == x {
        RawTimes(rows, x);
        if exists r :: r in db && Selected(r, now, hours, user) && r.time == x {
          var r :| r in db && Selected(r, now, hours, user) && r.time == x;
          assert r in rows;
        }
      }
    }
    assert forall c :: c in t.columns <==> exists r :: r in db && Selected(r, now, hours, user) && r.location == c by {
      forall c ensures c in t.columns <==> exists r :: r in db && Selected(r, now, hours, user) && r.location == c {
        RawLocations(rows, c);
        if exists r :: r in db && Selected(r, now, hours, user) && r.location == c {
          var r :| r in db && Selected(r, now, hours, user) && r.location == c;
          assert r in rows;
        }
      }
    }
    t
  }

  /** A pivot cell of `get_dataframe` holds a value exactly when a selected
      reading exists at that time and location; when every selected reading
      of that location lies in [lo, hi], so does every cell of its column. */
  lemma GetDataframeCell(db: seq<Record>, now: int, hours: int, user: int, i: nat, j: nat, lo: real, hi: real)
    requires i < |GetDataframe(db, now, hours, user).index| && j < |GetDataframe(db, now, hours, user).columns|
    requires forall r :: (r in db && Selected(r, now, hours, user)
      && r.location == GetDataframe(db, now, hours, user).columns[j]) ==> lo <= r.value <= hi
    ensures var t := GetDataframe(db, now, hours, user);
      && (t.rows[i][j].Some? <==>
            (exists r :: r in db && Selected(r, now, hours, user) && r.time == t.index[i] && r.location == t.columns[j]))
      && (t.rows[i][j].Some? ==> lo <= t.rows[i][j].value <= hi)
  {
    var rows := Query(db, now - hours * SecondsPerHour, user);
    var obs := Raw(rows);
    var t := Pivot(obs);
    assert t == GetDataframe(db, now, hours, user);
    var x, c := t.index[i], t.columns[j];
    forall v | Observation(x, c, Some(v)) in obs ensures lo <= v <= hi {
      RawCell(rows, x, c, v);
    }
    PivotCell(obs, i, j, lo, hi);
    if exists r :: r in db && Selected(r, now, hours, user) && r.time == x && r.location == c {
      var r :| r in db && Selected(r, now, hours, user) && r.time == x && r.location == c;
      RawCell(rows, x, c, r.value);
    }
    if t.rows[i][j].Some? {
      var v :| Observation(x, c, Some(v)) in obs;
      RawCell(rows, x, c, v);
    }
  }

  /** `resample(resolution).median().ffill(limit=1)` of a table. */
  function ResampleAndFill(t: Table, resolution: int): (r: Table)
    requires resolution > 0 && Valid(t)
    ensures Valid(r) && r.columns == t.columns
    ensures r.index == Resample(t, resolution, MedianOf).index
  {
    var m := Resample(t, resolution, MedianOf);
    Table(m.index, m.columns, FillForward(m.rows, |m.columns|, Some(1)))
  }

  /** The table `get_plotting_dataframe` returns: the resampled and filled
      pivot with its spikes cleared, on a gap-free grid of multiples of
      `resolution` seconds. */
  function PlottingFrame(db: seq<Record>, now: int, hours: int, user: int, resolution: int): (p: Table)
    requires resolution > 0
    ensures Valid(p) && p.columns == GetDataframe(db, now, hours, user).columns
    ensures |p.index| == 0 <==> |GetDataframe(db, now, hours, user).index| == 0
    ensures forall k :: 0 <= k < |p.index| ==> p.index[k] % resolution == 0
    ensures forall k :: 0 < k < |p.index| ==> p.index[k] == p.index[k - 1] + resolution
  {
    var f := ResampleAndFill(GetDataframe(db, now, hours, user), resolution);
    Table(f.index, f.columns, ClearSpikes(f.rows, |f.columns|))
  }

  /** Each present plotted cell is its bucket's median or, when that bucket
      is empty in this column, the previous bucket's median carried one step
      down; a spike-cleared cell is missing. */
  lemma PlottingCellOrigin(db: seq<Record>, now: int, hours: int, user: int, resolution: int, k: nat, j: nat)
    requires resolution > 0
    requires k < |PlottingFrame(db, now, hours, user, resolution).index|
    requires j < |PlottingFrame(db, now, hours, user, resolution).columns|
    ensures var m := Resample(GetDataframe(db, now, hours, user), resolution, MedianOf);
      var c := PlottingFrame(db, now, hours, user, resolution).rows[k][j];
      c.Some? ==> c == m.rows[k][j] || (0 < k && m.rows[k][j].None? && c == m.rows[k - 1][j])
  {
    var t := GetDataframe(db, now, hours, user);
    var m := Resample(t, resolution, MedianOf);
    var w := |m.columns|;
    var f := FillForward(m.rows, w, Some(1));
    OnlyClears(f, w, k, j);
    FillOnce(m.rows, w, k, j);
  }

  /** Cleaning never leaves the range of the raw readings: when every
      selected reading of a location lies in [lo, hi], so does every value
      plotted for it. */
  lemma PlottingRange(db: seq<Record>, now: int, hours: int, user: int, resolution: int, k: nat, j: nat, lo: real, hi: real)
    requires resolution > 0
    requires k < |PlottingFrame(db, now, hours, user, resolution).index|
    requires j < |PlottingFrame(db, now, hours, user, resolution).columns|
    requires forall r :: (r in db && Selected(r, now, hours, user)
      && r.location == GetDataframe(db, now, hours, user).columns[j]) ==> lo <= r.value <= hi
    ensures var c := PlottingFrame(db, now, hours, user, resolution).rows[k][j];
      c.Some? ==> lo <= c.value <= hi
  {
    var t := GetDataframe(db, now, hours, user);
    var m := Resample(t, resolution, MedianOf);
    var c := PlottingFrame(db, now, hours, user, resolution).rows[k][j];
    forall i, v | 0 <= i < |t.rows| && t.rows[i][j] == Some(v) ensures lo <= v <= hi {
      GetDataframeCell(db, now, hours, user, i, j, lo, hi);
    }
    PlottingCellOrigin(db, now, hours, user, resolution, k, j);
    if c.Some? {
      if c == m.rows[k][j] {
        ResampleMedianBounds(t, resolution, k, j, lo, hi);
      } else {
        ResampleMedianBounds(t, resolution, k - 1, j, lo, hi);
      }
    }
  }

  /** `get_plotting_dataframe`: the resampled and filled table is built,
      copied into a mutable grid, and line 27's mask assignment clears its
      spikes in place. */
  method GetPlottingDataframe(db: seq<Record>, now: int, hours: int, user: int, resolution: int)
    returns (p: Table)
    requires resolution > 0
    ensures p == PlottingFrame(db, now, hours, user, resolution)
  {
    var f := ResampleAndFill(GetDataframe(db, now, hours, user), resolution);
    var h, w := |f.rows|, |f.columns|;
    var a := new Option<real>[h, w]((i, j) requires 0 <= i < h && 0 <= j < w => f.rows[i][j]);
    assert Cells(a) == f.rows by {
      forall i | 0 <= i < h ensures Cells(a)[i] == f.rows[i] {
        assert forall j :: 0 <= j < w ==> Cells(a)[i][j] == f.rows[i][j];
      }
    }
    ClearSpikesInPlace(a);
    p := Table(f.index, f.columns, Cells(a));
  }
}
