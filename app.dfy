/** The web application's data layer: a single-slot cache that recomputes
    its table only when the stored one is older than its duration, the
    three producers behind the application's three cache instances, and the
    post-processing of the recent-temperature table. */
module App {
  import opened Wrappers
  import opened Readings
  import opened Frames
  import opened Resampling
  import opened Analysis

  /** The data store as a producer finds it: reachable with its rows, or
      failing (a producer that cannot read it raises). */
  datatype Store = Online(db: seq<Record>) | Offline

  /** What a producer run gives: a table, or an exception. */
  datatype Attempt<T> = Produced(value: T) | Failed

  /** What `data()` gives its caller: the stored slot (possibly still
      empty), or the producer's exception passed on. */
  datatype Answer<T> = Returned(df: Option<T>) | Raised

  const SecondsPerDay: int := 86400
  /** A new cache pretends its last retrieval was 1000 days ago. */
  const InitialAge: int := 1000 * SecondsPerDay
  /** `cache_duration_seconds=60` */
  const DefaultCacheSeconds: int := 60
  /** `RecentTemperature(cache_duration_seconds=10)` */
  const RecentCacheSeconds: int := 10
  /** The default `lookback` of the raw and plot producers, in hours. */
  const DefaultLookback: int := 3
  /** `get_plotting_dataframe(hours=3, resolution='10S')` and
      `resample('60S')` for the recent-temperature table. */
  const RecentHours: int := 3
  const RecentResolution: int := 10
  const RecentBucket: int := 60

  /** A time-gated single-slot memo. Its key is the clock alone: the
      arguments of a call reach the producer only when it runs. */
  class Cache<A, T> {
    const cacheDuration: int
    const produce: (Store, int, A) -> Attempt<T>
    var lastRetrieval: int
    var df: Option<T>

    constructor (cacheDurationSeconds: int, produce: (Store, int, A) -> Attempt<T>, createdAt: int)
      ensures cacheDuration == cacheDurationSeconds && this.produce == produce
      ensures lastRetrieval == createdAt - InitialAge && df == None
    {
      cacheDuration := cacheDurationSeconds;
      this.produce := produce;
      lastRetrieval := createdAt - InitialAge;
      df := None;
    }

    /** The stored table is out of date at `now`: strictly more than the
        duration has passed since the last retrieval. */
    predicate Stale(now: int)
      reads this
    {
      now - lastRetrieval > cacheDuration
    }

    /** `data(*args, **kwargs)`. When the slot is stale, the time is stamped
        first and the producer runs on the call's arguments; its table
        replaces the slot, or its exception passes to the caller with the
        slot untouched but the stamp already moved. Otherwise nothing
        changes and the stored slot is returned, whatever the arguments. */
    method Data(now: int, store: Store, args: A) returns (ans: Answer<T>)
      modifies this
      ensures old(Stale(now)) ==> lastRetrieval == now
      ensures old(Stale(now)) && produce(store, now, args).Produced? ==>
        df == Some(produce(store, now, args).value) && ans == Returned(df)
      ensures old(Stale(now)) && produce(store, now, args).Failed? ==>
        df == old(df) && ans == Raised
      ensures !old(Stale(now)) ==>
        lastRetrieval == old(lastRetrieval) && df == old(df) && ans == Returned(df)
    {
      if now - lastRetrieval > cacheDuration {
        lastRetrieval := now;
        var attempt := produce(store, now, args);
        if attempt.Failed? {
          return Raised;
        }
        df := Some(attempt.value);
      }
      ans := Returned(df);
    }
  }

  /** `RawDataFrame._get_data(lookback)`: the pivot of the last `lookback`
      hours of user 1. */
  function RawProducer(store: Store, now: int, lookback: int): Attempt<Table> {
    match store
    case Offline => Failed
    case Online(db) => Produced(GetDataframe(db, now, lookback, DefaultUser))
  }

  /** `PlotDataFrame._get_data(lookback)`: the cleaned one-minute table of
      the last `lookback` hours of user 1. */
  function PlotProducer(store: Store, now: int, lookback: int): Attempt<Table> {
    match store
    case Offline => Failed
    case Online(db) => Produced(PlottingFrame(db, now, lookback, DefaultUser, DefaultResolution))
  }

  /** A row with a value in every column. */
  predicate Complete(row: Row) {
    forall j :: 0 <= j < |row| ==> row[j].Some?
  }

  /** The positions, among the first `n` rows, of the rows that have a
      value in every column, in increasing order. */
  function CompleteRows(rows: seq<Row>, n: nat): (ps: seq<nat>)
    requires n <= |rows|
    ensures forall k :: 0 <= k < |ps| ==> ps[k] < n && Complete(rows[ps[k]])
    ensures forall a, b :: 0 <= a < b < |ps| ==> ps[a] < ps[b]
    ensures forall i :: 0 <= i < n && Complete(rows[i]) ==> i in ps
  {
    if n == 0 then []
    else CompleteRows(rows, n - 1) + if Complete(rows[n - 1]) then [n - 1] else []
  }

  /** Every row of `t` has a value in every column. */
  ghost predicate AllComplete(t: Table) {
    forall k :: 0 <= k < |t.rows| ==> Complete(t.rows[k])
  }

  /** `df.dropna()`: the same columns, and in order exactly the rows that
      have a value in every column. */
  function DropIncomplete(t: Table): (r: Table)
    requires Valid(t)
    ensures Valid(r) && r.columns == t.columns && AllComplete(r)
    ensures forall i :: 0 <= i < |t.rows| && Complete(t.rows[i]) ==> t.index[i] in r.index
  {
    var ps := CompleteRows(t.rows, |t.rows|);
    var r := Table(seq(|ps|, k requires 0 <= k < |ps| => t.index[ps[k]]), t.columns,
      seq(|ps|, k requires 0 <= k < |ps| => t.rows[ps[k]]));
    assert forall i :: 0 <= i < |t.rows| && Complete(t.rows[i]) ==> t.index[i] in r.index by {
      forall i | 0 <= i < |t.rows| && Complete(t.rows[i]) ensures t.index[i] in r.index {
        var k :| 0 <= k < |ps| && ps[k] == i;
        assert r.index[k] == t.index[i];
      }
    }
    r
  }

  /** Each row `dropna` keeps is a row of its input, with its time. */
  lemma DropIncompleteOrigin(t: Table, k: nat)
    requires Valid(t) && k < |DropIncomplete(t).rows|
    ensures var r := DropIncomplete(t);
      exists i :: 0 <= i < |t.rows| && r.index[k] == t.index[i] && r.rows[k] == t.rows[i]
  {
    var ps := CompleteRows(t.rows, |t.rows|);
    assert DropIncomplete(t).rows[k] == t.rows[ps[k]] && DropIncomplete(t).index[k] == t.index[ps[k]];
  }

  /** The post-processing of `RecentTemperature._get_data()` applied to a
      cleaned table: incomplete rows dropped, then resampled to minutes
      keeping each minute's last row. */
  function RecentFrom(p: Table): (r: Table)
    requires Valid(p)
    ensures Valid(r) && r.columns == p.columns
    ensures forall k :: 0 <= k < |r.index| ==> r.index[k] % RecentBucket == 0
    ensures forall k :: 0 < k < |r.index| ==> r.index[k] == r.index[k - 1] + RecentBucket
  {
    Resample(DropIncomplete(p), RecentBucket, LastOf)
  }

  /** `RecentTemperature._get_data()`: the 10-second cleaned table of the
      last three hours, post-processed by `RecentFrom`. */
  function RecentFrame(db: seq<Record>, now: int): (r: Table)
    ensures Valid(r)
    ensures r.columns == GetDataframe(db, now, RecentHours, DefaultUser).columns
    ensures forall k :: 0 <= k < |r.index| ==> r.index[k] % RecentBucket == 0
    ensures forall k :: 0 < k < |r.index| ==> r.index[k] == r.index[k - 1] + RecentBucket
  {
    RecentFrom(PlottingFrame(db, now, RecentHours, DefaultUser, RecentResolution))
  }

  function RecentProducer(store: Store, now: int, args: ()): Attempt<Table> {
    match store
    case Offline => Failed
    case Online(db) => Produced(RecentFrame(db, now))
  }

  /** The position of the last of the first `n` rows of `d` whose time
      falls in bucket `q`, if any does. */
  function LastRowOf(d: Table, cadence: int, q: int, n: nat): (i: Option<nat>)
    requires cadence > 0 && |d.index| == |d.rows| && n <= |d.rows|
    ensures i.Some? ==> i.value < n && d.index[i.value] / cadence == q
    ensures i.Some? ==> forall i' :: i.value < i' < n ==> d.index[i'] / cadence != q
    ensures i.None? ==> forall i' :: 0 <= i' < n ==> d.index[i'] / cadence != q
  {
    if n == 0 then None
    else if d.index[n - 1] / cadence == q then Some(n - 1)
    else LastRowOf(d, cadence, q, n - 1)
  }

  /** What resampling complete rows with `last` yields for bucket `q`: the
      bucket's last row, whole, or a wholly missing row when no row falls
      in it. */
  function LastRowOrMissing(d: Table, cadence: int, q: int): Row
    requires cadence > 0 && |d.index| == |d.rows|
  {
    match LastRowOf(d, cadence, q, |d.rows|)
    case None => seq(|d.columns|, _ => None)
    case Some(i) => d.rows[i]
  }

  /** Resampling complete rows with `last`: a bucket's row is wholly
      missing (no row fell in it) or is the bucket's last row, whole. */
  lemma LastOfCompleteRows(d: Table, cadence: int, k: nat)
    requires cadence > 0 && Valid(d)
    requires AllComplete(d)
    requires k < |Resample(d, cadence, LastOf).rows|
    ensures Resample(d, cadence, LastOf).rows[k] == LastRowOrMissing(d, cadence, d.index[0] / cadence + k)
  {
    var r := Resample(d, cadence, LastOf);
    var q := d.index[0] / cadence + k;
    var row := r.rows[k];
    assert |row| == |d.columns|;
    match LastRowOf(d, cadence, q, |d.rows|)
    case None =>
      forall j | 0 <= j < |row| ensures row[j].None? {
        ResamplePresence(d, cadence, LastOf, k, j);
      }
    case Some(i) =>
      forall j | 0 <= j < |row| ensures row[j] == d.rows[i][j] {
        assert Complete(d.rows[i]);
        assert d.index[i] / cadence == q && d.rows[i][j].Some?;
        ResamplePresence(d, cadence, LastOf, k, j);
        ResampleLastIsLatest(d, cadence, k, j);
        var i2 :| 0 <= i2 < |d.rows| && d.index[i2] / cadence == q && d.rows[i2][j] == row[j]
          && forall i' :: i2 < i' < |d.rows| && d.index[i'] / cadence == q ==> d.rows[i'][j].None?;
        assert i2 == i;
      }
  }

  /** Since every row kept by `dropna` is complete, a minute of the recent
      table is either wholly missing (no complete row fell in it) or wholly
      present, and then it is the minute's last complete row. */
  lemma RecentRowsAllOrNothing(p: Table, k: nat)
    requires Valid(p) && k < |RecentFrom(p).rows|
    ensures var d := DropIncomplete(p);
      RecentFrom(p).rows[k] == LastRowOrMissing(d, RecentBucket, d.index[0] / RecentBucket + k)
  {
    LastOfCompleteRows(DropIncomplete(p), RecentBucket, k);
  }

  /** The first call on a new cache always runs the producer, whatever the
      producer and the duration: the initial stamp lies 1000 days back,
      more than any duration shorter than that. */
  method FirstCallComputes(duration: int, produce: (Store, int, int) -> Attempt<Table>,
                           store: Store, createdAt: int, now: int, lookback: int)
    returns (ans: Answer<Table>)
    requires duration < InitialAge && createdAt <= now
    ensures produce(store, now, lookback).Produced? ==> ans == Returned(Some(produce(store, now, lookback).value))
    ensures produce(store, now, lookback).Failed? ==> ans == Raised
  {
    var cache := new Cache<int, Table>(duration, produce, createdAt);
    ans := cache.Data(now, store, lookback);
  }

  /** Arguments are not part of the key: the chart route's
      `data(lookback=24)` and the table route's `data()` share one slot, so
      within the duration the second gets the 24-hour table. At exactly
      the duration the slot is still fresh. */
  method ArgumentsIgnored(db: seq<Record>, createdAt: int, t0: int, t1: int)
    returns (first: Answer<Table>, second: Answer<Table>)
    requires createdAt <= t0 <= t1 <= t0 + DefaultCacheSeconds
    ensures first == second == Returned(Some(PlottingFrame(db, t0, 24, DefaultUser, DefaultResolution)))
  {
    var chart := new Cache<int, Table>(DefaultCacheSeconds, PlotProducer, createdAt);
    first := chart.Data(t0, Online(db), 24);
    second := chart.Data(t1, Online(db), DefaultLookback);
  }

  /** Once the duration has strictly passed, the next call recomputes with
      its own time and arguments. */
  method RefreshAfterDuration(db: seq<Record>, createdAt: int, t0: int, t1: int)
    returns (first: Answer<Table>, second: Answer<Table>)
    requires createdAt <= t0 && t1 > t0 + DefaultCacheSeconds
    ensures first == Returned(Some(GetDataframe(db, t0, DefaultLookback, DefaultUser)))
    ensures second == Returned(Some(GetDataframe(db, t1, 24, DefaultUser)))
  {
    var raw := new Cache<int, Table>(DefaultCacheSeconds, RawProducer, createdAt);
    first := raw.Data(t0, Online(db), DefaultLookback);
    second := raw.Data(t1, Online(db), 24);
  }

  /** A failing producer still moves the stamp: the failed call raises, and
      for the next ten seconds the recent-temperature cache serves the
      table computed before the failure, even with the store back. */
  method FailureKeepsOldTable(db: seq<Record>, createdAt: int, t0: int, t1: int, t2: int)
    returns (first: Answer<Table>, failed: Answer<Table>, after: Answer<Table>)
    requires createdAt <= t0 && t0 + RecentCacheSeconds < t1 <= t2 <= t1 + RecentCacheSeconds
    ensures first == after == Returned(Some(RecentFrame(db, t0)))
    ensures failed == Raised
  {
    var last := new Cache<(), Table>(RecentCacheSeconds, RecentProducer, createdAt);
    var table := RecentFrame(db, t0);
    assert RecentProducer(Online(db), t0, ()) == Produced(table);
    first := last.Data(t0, Online(db), ());
    assert last.lastRetrieval == t0 && last.df == Some(table);
    failed := last.Data(t1, Offline, ());
    assert last.lastRetrieval == t1 && last.df == Some(table);
    after := last.Data(t2, Online(db), ());
  }

  /** The application's three caches, created at `createdAt`: raw and plot
      tables kept for 60 seconds, the recent-temperature table for 10. */
  method Instances(createdAt: int)
    returns (data: Cache<int, Table>, chartData: Cache<int, Table>, lastData: Cache<(), Table>)
    ensures data.cacheDuration == chartData.cacheDuration == DefaultCacheSeconds
    ensures lastData.cacheDuration == RecentCacheSeconds
    ensures data.produce == RawProducer && chartData.produce == PlotProducer
    ensures lastData.produce == RecentProducer
    ensures data.df == chartData.df == lastData.df == None
    ensures data.lastRetrieval == chartData.lastRetrieval == lastData.lastRetrieval
      == createdAt - InitialAge
  {
    data := new Cache<int, Table>(DefaultCacheSeconds, RawProducer, createdAt);
    chartData := new Cache<int, Table>(DefaultCacheSeconds, PlotProducer, createdAt);
    lastData := new Cache<(), Table>(RecentCacheSeconds, RecentProducer, createdAt);
  }
}
