/** The alert job: for every user with an email address, the readings of
    that user's sensors in the last five minutes are reduced to one
    representative temperature and one warning threshold per location, and
    the locations whose representative is below their threshold are mailed
    to the user. */
module Emails {
  import opened Wrappers
  import opened Order
  import opened Stats
  import opened Readings
  import opened Frames

  /** `timedelta(minutes=5)` */
  const AlertWindowSeconds: int := 300

  /** `Temperature.value - Sensor.bias`: SQL arithmetic with a NULL bias
      gives NULL. */
  function Corrected(r: Record): (v: Option<real>)
    ensures v.Some? <==> r.bias.Some?
    ensures v.Some? ==> v.value + r.bias.value == r.value
  {
    if r.bias.None? then None else Some(r.value - r.bias.value)
  }

  /** The readings the alert query selects: recorded in the last five
      minutes by a sensor that `user` owns. */
  predicate Recent(r: Record, now: int, user: int) {
    r.time >= now - AlertWindowSeconds && r.owner == user
  }

  /** The long frame of corrected temperatures: one observation per row,
      in order. */
  function CorrectedObs(rows: seq<Record>): (obs: seq<Observation>)
    ensures |obs| == |rows|
    ensures forall o :: o in obs <==>
      exists r :: r in rows && o == Observation(r.time, r.location, Corrected(r))
  {
    if |rows| == 0 then []
    else
      assert forall r :: r in rows <==> r == rows[0] || r in rows[1..];
      [Observation(rows[0].time, rows[0].location, Corrected(rows[0]))] + CorrectedObs(rows[1..])
  }

  /** The `i`-th observation comes from the `i`-th row, with its corrected
      temperature. */
  lemma {:induction false} CorrectedObsRows(rows: seq<Record>)
    ensures forall i :: 0 <= i < |rows| ==>
      CorrectedObs(rows)[i] == Observation(rows[i].time, rows[i].location, Corrected(rows[i]))
  {
    if |rows| > 0 {
      CorrectedObsRows(rows[1..]);
      assert forall i :: 1 <= i < |rows| ==> rows[i] == rows[1..][i - 1];
    }
  }

  /** The long frame of warning levels: one observation per row, in
      order. */
  function LevelObs(rows: seq<Record>): (obs: seq<Observation>)
    ensures |obs| == |rows|
    ensures forall o :: o in obs <==>
      exists r :: r in rows && o == Observation(r.time, r.location, r.warningLevel)
  {
    if |rows| == 0 then []
    else
      assert forall r :: r in rows <==> r == rows[0] || r in rows[1..];
      [Observation(rows[0].time, rows[0].location, rows[0].warningLevel)] + LevelObs(rows[1..])
  }

  /** The `i`-th observation comes from the `i`-th row, with its warning level. */
  lemma {:induction false} LevelObsRows(rows: seq<Record>)
    ensures forall i :: 0 <= i < |rows| ==>
      LevelObs(rows)[i] == Observation(rows[i].time, rows[i].location, rows[i].warningLevel)
  {
    if |rows| > 0 {
      LevelObsRows(rows[1..]);
      assert forall i :: 1 <= i < |rows| ==> rows[i] == rows[1..][i - 1];
    }
  }

  /** The pivot of the corrected temperatures of the alert window. */
  function TempTable(db: seq<Record>, now: int, user: int): Table {
    Pivot(CorrectedObs(Query(db, now - AlertWindowSeconds, user)))
  }

  /** The pivot of the warning levels of the alert window. */
  function LevelTable(db: seq<Record>, now: int, user: int): Table {
    Pivot(LevelObs(Query(db, now - AlertWindowSeconds, user)))
  }

  /** A labelled column of numbers, as a reduction over a table's rows
      gives it: one value per column label, in label order. */
  datatype Series = Series(labels: seq<string>, values: seq<real>)

  ghost predicate WellFormed(s: Series) {
    |s.labels| == |s.values| && StrictlySorted(s.labels, StringLess)
  }

  /** Column `j` has at least one value. */
  ghost predicate ColumnOccupied(t: Table, j: nat)
    requires Valid(t) && j < |t.columns|
  {
    exists i :: 0 <= i < |t.rows| && t.rows[i][j].Some?
  }

  /** Every column has at least one value. */
  ghost predicate Occupied(t: Table)
    requires Valid(t)
  {
    forall j :: 0 <= j < |t.columns| ==> ColumnOccupied(t, j)
  }

  lemma PivotOccupied(obs: seq<Observation>)
    ensures Occupied(Pivot(obs))
  {
    forall j | 0 <= j < |Pivot(obs).columns| ensures ColumnOccupied(Pivot(obs), j) {
      PivotColumnsOccupied(obs, j);
    }
  }

  /** The present values of an occupied column. */
  function PresentValues(t: Table, j: nat): (vs: seq<real>)
    requires Valid(t) && Occupied(t) && j < |t.columns|
    ensures |vs| > 0
    ensures forall v :: v in vs <==> exists i :: 0 <= i < |t.rows| && t.rows[i][j] == Some(v)
  {
    var vs := ColumnValues(t.rows, |t.columns|, j, |t.rows|);
    ColumnMembers(t.rows, |t.columns|, j, |t.rows|);
    assert ColumnOccupied(t, j);
    var i :| 0 <= i < |t.rows| && t.rows[i][j].Some?;
    var v := t.rows[i][j].value;
    assert t.rows[i][j] == Some(v);
    assert v in vs;
    vs
  }

  /** `.median(axis=0)`: each column's median, missing cells skipped. */
  function ColumnMedians(t: Table): (s: Series)
    requires Valid(t) && Occupied(t)
    ensures WellFormed(s) && s.labels == t.columns
  {
    Series(t.columns, seq(|t.columns|, j requires 0 <= j < |t.columns| => Median(PresentValues(t, j))))
  }

  /** A column's median is that of its present cells, each counted once per
      row it appears in and taken in any order. */
  lemma ColumnMedianIs(t: Table, j: nat, vs: seq<real>)
    requires Valid(t) && Occupied(t) && j < |t.columns|
    requires multiset(vs) == multiset(ColumnValues(t.rows, |t.columns|, j, |t.rows|))
    ensures |vs| > 0 && ColumnMedians(t).values[j] == Median(vs)
  {
    var cv := PresentValues(t, j);
    assert ColumnMedians(t).values[j] == Median(cv);
    MedianPermutation(cv, vs);
  }

  /** `.min(axis=0)`: each column's least present value. */
  function ColumnMins(t: Table): (s: Series)
    requires Valid(t) && Occupied(t)
    ensures WellFormed(s) && s.labels == t.columns
    ensures forall j :: 0 <= j < |t.columns| ==>
      && (exists i :: 0 <= i < |t.rows| && t.rows[i][j] == Some(s.values[j]))
      && (forall i :: 0 <= i < |t.rows| && t.rows[i][j].Some? ==> s.values[j] <= t.rows[i][j].value)
  {
    var s := Series(t.columns, seq(|t.columns|, j requires 0 <= j < |t.columns| => MinOf(PresentValues(t, j))));
    forall j | 0 <= j < |t.columns|
      ensures exists i :: 0 <= i < |t.rows| && t.rows[i][j] == Some(s.values[j])
      ensures forall i :: 0 <= i < |t.rows| && t.rows[i][j].Some? ==> s.values[j] <= t.rows[i][j].value
    {
      var vs := PresentValues(t, j);
      assert s.values[j] == MinOf(vs);
      assert s.values[j] in vs;
      var i0 :| 0 <= i0 < |t.rows| && t.rows[i0][j] == Some(s.values[j]);
      forall i | 0 <= i < |t.rows| && t.rows[i][j].Some? ensures s.values[j] <= t.rows[i][j].value {
        assert t.rows[i][j].value in vs;
      }
    }
    s
  }

  /** `check_temps(user)`: the representative temperature and the warning
      threshold of every location of the user's last five minutes. */
  function CheckTemps(db: seq<Record>, now: int, user: int): (r: (Series, Series))
    ensures WellFormed(r.0) && r.0.labels == TempTable(db, now, user).columns
    ensures WellFormed(r.1) && r.1.labels == LevelTable(db, now, user).columns
  {
    var rows := Query(db, now - AlertWindowSeconds, user);
    PivotOccupied(CorrectedObs(rows));
    PivotOccupied(LevelObs(rows));
    (ColumnMedians(TempTable(db, now, user)), ColumnMins(LevelTable(db, now, user)))
  }

  /** Some recent reading of `user` at `l` has a corrected temperature. */
  predicate HasTemperature(db: seq<Record>, now: int, user: int, l: string) {
    exists r :: r in db && Recent(r, now, user) && r.location == l && r.bias.Some?
  }

  /** Some recent reading of `user` at `l` has a warning level. */
  predicate HasThreshold(db: seq<Record>, now: int, user: int, l: string) {
    exists r :: r in db && Recent(r, now, user) && r.location == l && r.warningLevel.Some?
  }

  /** The locations with a temperature are those with a recent reading
      whose sensor has a bias. */
  lemma TempLocations(db: seq<Record>, now: int, user: int, l: string)
    ensures l in TempTable(db, now, user).columns <==> HasTemperature(db, now, user, l)
  {
    var rows := Query(db, now - AlertWindowSeconds, user);
    if l in TempTable(db, now, user).columns {
      var o :| o in CorrectedObs(rows) && o.value.Some? && o.location == l;
      var r :| r in rows && o == Observation(r.time, r.location, Corrected(r));
    }
    if exists r :: r in db && Recent(r, now, user) && r.location == l && r.bias.Some? {
      var r :| r in db && Recent(r, now, user) && r.location == l && r.bias.Some?;
      assert Observation(r.time, r.location, Corrected(r)) in CorrectedObs(rows);
    }
  }

  /** The locations with a threshold are those with a recent reading whose
      sensor has a warning level. */
  lemma LevelLocations(db: seq<Record>, now: int, user: int, l: string)
    ensures l in LevelTable(db, now, user).columns <==> HasThreshold(db, now, user, l)
  {
    var rows := Query(db, now - AlertWindowSeconds, user);
    if l in LevelTable(db, now, user).columns {
      var o :| o in LevelObs(rows) && o.value.Some? && o.location == l;
      var r :| r in rows && o == Observation(r.time, r.location, r.warningLevel);
    }
    if exists r :: r in db && Recent(r, now, user) && r.location == l && r.warningLevel.Some? {
      var r :| r in db && Recent(r, now, user) && r.location == l && r.warningLevel.Some?;
      assert Observation(r.time, r.location, r.warningLevel) in LevelObs(rows);
    }
  }

  /** The representative temperature of a location lies between the least
      and the greatest of its corrected readings in the window. */
  lemma RepresentativeBounds(db: seq<Record>, now: int, user: int, j: nat, lo: real, hi: real)
    requires j < |CheckTemps(db, now, user).0.labels|
    requires forall r :: (r in db && Recent(r, now, user) && r.bias.Some?
      && r.location == CheckTemps(db, now, user).0.labels[j]) ==> lo <= Corrected(r).value <= hi
    ensures lo <= CheckTemps(db, now, user).0.values[j] <= hi
  {
    var rows := Query(db, now - AlertWindowSeconds, user);
    var obs := CorrectedObs(rows);
    var t := TempTable(db, now, user);
    PivotOccupied(obs);
    var vs := PresentValues(t, j);
    assert CheckTemps(db, now, user).0.values[j] == Median(vs);
    forall k | 0 <= k < |vs| ensures lo <= vs[k] <= hi {
      assert vs[k] in vs;
      var i :| 0 <= i < |t.rows| && t.rows[i][j] == Some(vs[k]);
      TempCellBounds(db, now, user, i, j, lo, hi);
    }
    MedianBounds(vs, lo, hi);
  }

  /** The representative temperature of a location is the median of the
      location's cells of the temperature pivot, one per timestamp of the
      window that has a corrected reading there, taken in any order. */
  lemma RepresentativeIsMedian(db: seq<Record>, now: int, user: int, j: nat, vs: seq<real>)
    requires j < |TempTable(db, now, user).columns|
    requires multiset(vs) == multiset(ColumnValues(TempTable(db, now, user).rows, |TempTable(db, now, user).columns|, j, |TempTable(db, now, user).rows|))
    ensures |vs| > 0 && CheckTemps(db, now, user).0.values[j] == Median(vs)
  {
    var t := TempTable(db, now, user);
    PivotOccupied(CorrectedObs(Query(db, now - AlertWindowSeconds, user)));
    ColumnMedianIs(t, j, vs);
  }

  /** A temperature cell of a location lies between the least and the
      greatest of its corrected readings in the window. */
  lemma TempCellBounds(db: seq<Record>, now: int, user: int, i: nat, j: nat, lo: real, hi: real)
    requires i < |TempTable(db, now, user).rows| && j < |TempTable(db, now, user).columns|
    requires forall r :: (r in db && Recent(r, now, user) && r.bias.Some?
      && r.location == TempTable(db, now, user).columns[j]) ==> lo <= Corrected(r).value <= hi
    ensures var t := TempTable(db, now, user); t.rows[i][j].Some? ==> lo <= t.rows[i][j].value <= hi
  {
    var rows := Query(db, now - AlertWindowSeconds, user);
    var obs := CorrectedObs(rows);
    var t := Pivot(obs);
    forall v | Observation(t.index[i], t.columns[j], Some(v)) in obs ensures lo <= v <= hi {
      var r :| r in rows && Observation(t.index[i], t.columns[j], Some(v))
        == Observation(r.time, r.location, Corrected(r));
    }
    PivotCell(obs, i, j, lo, hi);
  }

  /** The column minimum of a pivot is the least, over its times, of the
      mean of the values observed at that time. */
  lemma PivotColumnMin(obs: seq<Observation>, j: nat)
    requires j < |Pivot(obs).columns|
    ensures Occupied(Pivot(obs))
    ensures var t := Pivot(obs);
      var v := ColumnMins(t).values[j];
      && (exists i :: 0 <= i < |t.index| && |ValuesAt(obs, t.index[i], t.columns[j])| > 0
            && v == Mean(ValuesAt(obs, t.index[i], t.columns[j])))
      && (forall i :: 0 <= i < |t.index| && |ValuesAt(obs, t.index[i], t.columns[j])| > 0 ==>
            v <= Mean(ValuesAt(obs, t.index[i], t.columns[j])))
  {
    var t := Pivot(obs);
    PivotOccupied(obs);
    var v := ColumnMins(t).values[j];
    var i0 :| 0 <= i0 < |t.rows| && t.rows[i0][j] == Some(v);
    assert t.rows[i0][j] == CellMean(obs, t.index[i0], t.columns[j]);
    var vs := ValuesAt(obs, t.index[i0], t.columns[j]);
    assert |vs| > 0 && v == Mean(vs);
    assert i0 < |t.index| && v == Mean(ValuesAt(obs, t.index[i0], t.columns[j]));
    forall i | 0 <= i < |t.index| && |ValuesAt(obs, t.index[i], t.columns[j])| > 0
      ensures v <= Mean(ValuesAt(obs, t.index[i], t.columns[j]))
    {
      assert t.rows[i][j] == CellMean(obs, t.index[i], t.columns[j]);
    }
  }

  /** The threshold of a location is the least, over the timestamps of the
      window, of the mean warning level reported there; with one sensor
      per location it is the least warning level. */
  lemma ThresholdIsLeastLevel(db: seq<Record>, now: int, user: int, j: nat)
    requires j < |CheckTemps(db, now, user).1.labels|
    ensures var t := LevelTable(db, now, user);
      var v := CheckTemps(db, now, user).1.values[j];
      var obs := LevelObs(Query(db, now - AlertWindowSeconds, user));
      && (exists i :: 0 <= i < |t.index| && |ValuesAt(obs, t.index[i], t.columns[j])| > 0
            && v == Mean(ValuesAt(obs, t.index[i], t.columns[j])))
      && (forall i :: 0 <= i < |t.index| && |ValuesAt(obs, t.index[i], t.columns[j])| > 0 ==>
            v <= Mean(ValuesAt(obs, t.index[i], t.columns[j])))
  {
    PivotColumnMin(LevelObs(Query(db, now - AlertWindowSeconds, user)), j);
  }

  /** Pandas refuses to compare two series whose labels differ. */
  datatype CompareError = CanOnlyCompareIdenticallyLabeledSeries

  /** The positions, among the first `n`, where `a` is strictly below `b`. */
  function BelowPositions(a: seq<real>, b: seq<real>, n: nat): (ps: seq<nat>)
    requires n <= |a| && n <= |b|
    ensures forall k :: 0 <= k < |ps| ==> ps[k] < n
    ensures forall a', b' :: 0 <= a' < b' < |ps| ==> ps[a'] < ps[b']
    ensures forall i: nat :: i in ps <==> i < n && a[i] < b[i]
  {
    if n == 0 then []
    else BelowPositions(a, b, n - 1) + if a[n - 1] < b[n - 1] then [n - 1] else []
  }

  /** The entries of a series at increasing positions, in order. */
  function Pick(s: Series, ps: seq<nat>): (w: Series)
    requires WellFormed(s)
    requires forall k :: 0 <= k < |ps| ==> ps[k] < |s.labels|
    requires forall a, b :: 0 <= a < b < |ps| ==> ps[a] < ps[b]
    ensures WellFormed(w) && |w.labels| == |ps|
    ensures forall k :: 0 <= k < |ps| ==> w.labels[k] == s.labels[ps[k]] && w.values[k] == s.values[ps[k]]
  {
    Series(seq(|ps|, k requires 0 <= k < |ps| => s.labels[ps[k]]),
           seq(|ps|, k requires 0 <= k < |ps| => s.values[ps[k]]))
  }

  /** `temps[temps < warn_lvl]`: the comparison needs identical labels;
      then the entries at the positions where the temperature is strictly
      below the threshold are kept, in label order, with their labels and
      temperatures. */
  function SelectWarnings(temps: Series, levels: Series): (r: Result<Series, CompareError>)
    requires WellFormed(temps) && WellFormed(levels)
    ensures r.Failure? <==> temps.labels != levels.labels
    ensures r.Success? ==> WellFormed(r.value)
    ensures r.Success? ==> |r.value.labels| == |BelowPositions(temps.values, levels.values, |temps.values|)|
    ensures r.Success? ==> forall k :: 0 <= k < |r.value.labels| ==>
      && r.value.labels[k] == temps.labels[BelowPositions(temps.values, levels.values, |temps.values|)[k]]
      && r.value.values[k] == temps.values[BelowPositions(temps.values, levels.values, |temps.values|)[k]]
  {
    if temps.labels != levels.labels then Failure(CanOnlyCompareIdenticallyLabeledSeries)
    else Success(Pick(temps, BelowPositions(temps.values, levels.values, |temps.values|)))
  }

  /** A location is selected exactly when its temperature is below its
      threshold. */
  lemma WarningsArePicked(temps: Series, levels: Series)
    requires WellFormed(temps) && WellFormed(levels) && temps.labels == levels.labels
    ensures forall l :: l in SelectWarnings(temps, levels).value.labels <==>
        exists j :: 0 <= j < |temps.labels| && temps.labels[j] == l && temps.values[j] < levels.values[j]
  {
    var ps := BelowPositions(temps.values, levels.values, |temps.values|);
    var w := SelectWarnings(temps, levels).value;
    forall l | exists j :: 0 <= j < |temps.labels| && temps.labels[j] == l && temps.values[j] < levels.values[j]
      ensures l in w.labels
    {
      var j: nat :| j < |temps.labels| && temps.labels[j] == l && temps.values[j] < levels.values[j];
      assert j in ps;
      var k :| 0 <= k < |ps| && ps[k] == j;
      assert w.labels[k] == l;
    }
    forall l | l in w.labels
      ensures exists j :: 0 <= j < |temps.labels| && temps.labels[j] == l && temps.values[j] < levels.values[j]
    {
      var k :| 0 <= k < |w.labels| && w.labels[k] == l;
      assert ps[k] in ps;
    }
  }

  /** Two series from `check_temps` can be compared exactly when the same
      locations have a temperature and a threshold, since both label
      sequences are sorted. */
  lemma AlignedIffSameLocations(temps: Series, levels: Series)
    requires WellFormed(temps) && WellFormed(levels)
    ensures SelectWarnings(temps, levels).Success? <==>
      forall l :: l in temps.labels <==> l in levels.labels
  {
    if forall l :: l in temps.labels <==> l in levels.labels {
      StringLessIsStrictTotalOrder();
      SortedByElements(temps.labels, levels.labels, StringLess);
    }
  }

  datatype User = User(id: int, email: Option<string>)

  /** One email: the address and the locations in warning with their
      representative temperatures. */
  datatype Alert = Alert(to: string, warnings: Series)

  /** The decision `main` takes for one user: no email address, nothing to
      do; otherwise the user's warnings are selected (the comparison may
      raise) and an email goes out when there is at least one. */
  function Decide(u: User, db: seq<Record>, now: int): (d: Result<Option<Alert>, CompareError>)
    ensures u.email.None? ==> d == Success(None)
    ensures d.Success? && d.value.Some? ==>
      && u.email == Some(d.value.value.to)
      && |d.value.value.warnings.labels| > 0
      && var (temps, levels) := CheckTemps(db, now, u.id);
         SelectWarnings(temps, levels) == Success(d.value.value.warnings)
    ensures u.email.Some? && d.Success? && d.value.None? ==>
      var (temps, levels) := CheckTemps(db, now, u.id);
      SelectWarnings(temps, levels) == Success(Series([], []))
    ensures d.Failure? <==> (u.email.Some? && CheckTemps(db, now, u.id).0.labels != CheckTemps(db, now, u.id).1.labels)
  {
    if u.email.None? then Success(None)
    else
      var (temps, levels) := CheckTemps(db, now, u.id);
      match SelectWarnings(temps, levels)
      case Failure(e) => Failure(e)
      case Success(w) =>
        if |w.labels| > 0 then Success(Some(Alert(u.email.value, w)))
        else
          assert w == Series([], []);
          Success(None)
  }

  /** A user's run raises exactly when the user has an address and some
      location of the window has a corrected temperature but no warning
      level, or a warning level but no corrected temperature. */
  lemma RaisesIffLocationsDiffer(u: User, db: seq<Record>, now: int)
    ensures Decide(u, db, now).Failure? <==>
      (u.email.Some? && exists l :: HasTemperature(db, now, u.id, l) != HasThreshold(db, now, u.id, l))
  {
    var c := CheckTemps(db, now, u.id);
    var temps, levels := c.0, c.1;
    forall l ensures (l in temps.labels <==> HasTemperature(db, now, u.id, l))
      && (l in levels.labels <==> HasThreshold(db, now, u.id, l))
    {
      TempLocations(db, now, u.id, l);
      LevelLocations(db, now, u.id, l);
    }
    AlignedIffSameLocations(temps, levels);
    assert temps.labels != levels.labels <==> exists l :: (l in temps.labels) != (l in levels.labels);
  }

  /** What a run of `main` does: the emails sent, in user order, and
      whether a comparison raised and ended the run early. */
  datatype Run = Run(sent: seq<Alert>, aborted: bool)

  /** The first of the first `n` decisions that failed, or `n` when none
      did. */
  function FirstFailure(ds: seq<Result<Option<Alert>, CompareError>>, n: nat): (f: nat)
    requires n <= |ds|
    ensures f <= n
    ensures forall i :: 0 <= i < f ==> ds[i].Success?
    ensures f < n ==> ds[f].Failure?
  {
    if n == 0 then 0
    else
      var f := FirstFailure(ds, n - 1);
      if f < n - 1 || ds[n - 1].Failure? then f else n
  }

  /** A decision to send an email. */
  predicate Sends(d: Result<Option<Alert>, CompareError>) {
    d.Success? && d.value.Some?
  }

  /** The positions, among the first `n`, of the decisions to send an
      email, in increasing order (`SentPositionsExact`). */
  function SentPositions(ds: seq<Result<Option<Alert>, CompareError>>, n: nat): (ps: seq<nat>)
    requires n <= |ds|
    ensures forall k :: 0 <= k < |ps| ==> ps[k] < n
  {
    if n == 0 then []
    else SentPositions(ds, n - 1) + if Sends(ds[n - 1]) then [n - 1] else []
  }

  /** `SentPositions` lists, in increasing order, exactly the decisions to
      send an email. */
  lemma {:induction false} SentPositionsExact(ds: seq<Result<Option<Alert>, CompareError>>, n: nat)
    requires n <= |ds|
    ensures forall k :: 0 <= k < |SentPositions(ds, n)| ==> Sends(ds[SentPositions(ds, n)[k]])
    ensures forall a, b :: 0 <= a < b < |SentPositions(ds, n)| ==> SentPositions(ds, n)[a] < SentPositions(ds, n)[b]
    ensures forall i :: 0 <= i < n && Sends(ds[i]) ==> i in SentPositions(ds, n)
  {
    if n > 0 {
      SentPositionsExact(ds, n - 1);
      var ps := SentPositions(ds, n - 1);
      if Sends(ds[n - 1]) {
        var ps' := ps + [n - 1];
        assert SentPositions(ds, n) == ps';
        forall k | 0 <= k < |ps'| ensures Sends(ds[ps'[k]]) {
          if k < |ps| {
            assert ps'[k] == ps[k];
          } else {
            assert ps'[k] == n - 1;
          }
        }
        forall a, b | 0 <= a < b < |ps'| ensures ps'[a] < ps'[b] {
          assert ps'[a] == ps[a];
          if b < |ps| { assert ps'[b] == ps[b]; }
        }
        forall i | 0 <= i < n && Sends(ds[i]) ensures i in ps' {
          if i < n - 1 {
            assert i in ps;
            var k :| 0 <= k < |ps| && ps[k] == i;
            assert ps'[k] == i;
          } else {
            assert ps'[|ps|] == i;
          }
        }
      } else {
        assert SentPositions(ds, n) == ps;
      }
    }
  }

  /** The visit of `main` over its first `n` decisions, in order: a failed
      decision ends the run, keeping the emails already sent, so the
      emails sent are, in order, those decided before the first failure. */
  function CollectUpTo(ds: seq<Result<Option<Alert>, CompareError>>, n: nat): (run: Run)
    requires n <= |ds|
    ensures run.aborted <==> exists i :: 0 <= i < n && ds[i].Failure?
    ensures |run.sent| == |SentPositions(ds, FirstFailure(ds, n))|
    ensures forall k :: 0 <= k < |run.sent| ==>
      ds[SentPositions(ds, FirstFailure(ds, n))[k]] == Success(Some(run.sent[k]))
  {
    if n == 0 then Run([], false)
    else
      var run := CollectUpTo(ds, n - 1);
      if run.aborted then run
      else
        assert FirstFailure(ds, n - 1) == n - 1;
        match ds[n - 1]
        case Failure(_) => Run(run.sent, true)
        case Success(alert) =>
          if alert.None? then Run(run.sent, false)
          else
            var ps := SentPositions(ds, n - 1);
            assert SentPositions(ds, n) == ps + [n - 1];
            var sent := run.sent + [alert.value];
            assert forall k :: 0 <= k < |run.sent| ==> sent[k] == run.sent[k];
            Run(sent, false)
  }

  /** `main`'s visit of all its decisions. */
  function Collect(ds: seq<Result<Option<Alert>, CompareError>>): (run: Run)
    ensures run.aborted <==> exists i :: 0 <= i < |ds| && ds[i].Failure?
    ensures |run.sent| == |SentPositions(ds, FirstFailure(ds, |ds|))|
    ensures forall k :: 0 <= k < |run.sent| ==>
      ds[SentPositions(ds, FirstFailure(ds, |ds|))[k]] == Success(Some(run.sent[k]))
  {
    CollectUpTo(ds, |ds|)
  }

  /** When no decision fails, every decided email is sent. */
  lemma CollectSendsEvery(ds: seq<Result<Option<Alert>, CompareError>>)
    requires !Collect(ds).aborted
    ensures forall i :: 0 <= i < |ds| && ds[i].Success? && ds[i].value.Some? ==> ds[i].value.value in Collect(ds).sent
  {
    var ps := SentPositions(ds, FirstFailure(ds, |ds|));
    var sent := Collect(ds).sent;
    SentPositionsExact(ds, |ds|);
    forall i | 0 <= i < |ds| && ds[i].Success? && ds[i].value.Some? ensures ds[i].value.value in sent {
      assert Sends(ds[i]);
      assert i in ps;
      var k :| 0 <= k < |ps| && ps[k] == i;
      assert ds[i] == Success(Some(sent[k]));
    }
  }

  /** The decisions `main` takes, one per user, in order. */
  function Decisions(users: seq<User>, db: seq<Record>, now: int): (ds: seq<Result<Option<Alert>, CompareError>>)
    ensures |ds| == |users|
    ensures forall i :: 0 <= i < |users| ==> ds[i] == Decide(users[i], db, now)
  {
    seq(|users|, i requires 0 <= i < |users| => Decide(users[i], db, now))
  }

  /** `main()`: the users are visited in order; only users with an address
      get an email, only with a non-empty warning list, and a raised
      comparison ends the run: the emails sent are, in user order, those
      decided for the users before the first one whose comparison raised. */
  function Main(users: seq<User>, db: seq<Record>, now: int): (run: Run)
    ensures run.aborted <==> exists i :: 0 <= i < |users| && Decide(users[i], db, now).Failure?
    ensures |run.sent| == |SentPositions(Decisions(users, db, now), FirstFailure(Decisions(users, db, now), |users|))|
    ensures forall k :: 0 <= k < |run.sent| ==>
      var i := SentPositions(Decisions(users, db, now), FirstFailure(Decisions(users, db, now), |users|))[k];
      i < |users| && Decide(users[i], db, now) == Success(Some(run.sent[k]))
    ensures forall a :: a in run.sent ==> |a.warnings.labels| > 0
    ensures forall a :: a in run.sent ==> exists u :: u in users && u.email == Some(a.to)
  {
    var ds := Decisions(users, db, now);
    var run := Collect(ds);
    var ps := SentPositions(ds, FirstFailure(ds, |ds|));
    forall a | a in run.sent ensures |a.warnings.labels| > 0 && exists u :: u in users && u.email == Some(a.to) {
      var k :| 0 <= k < |run.sent| && run.sent[k] == a;
      assert ds[ps[k]] == Success(Some(a));
      assert users[ps[k]] in users;
    }
    run
  }

  /** When no comparison raises, the emails sent are exactly those decided
      for the users with an email address and at least one warning. */
  lemma MainSendsEveryAlert(users: seq<User>, db: seq<Record>, now: int)
    requires !Main(users, db, now).aborted
    ensures forall a :: a in Main(users, db, now).sent <==>
      exists i :: 0 <= i < |users| && Decide(users[i], db, now) == Success(Some(a))
  {
    var ds := Decisions(users, db, now);
    CollectSendsEvery(ds);
  }
}
