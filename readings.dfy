/** The rows the data store hands to the core: one temperature reading
    joined with the sensor that took it. Times are integer seconds. */
module Readings {
  import opened Wrappers

  /** A `Temperature` row joined with its `Sensor`: the record time, the
      location label, the raw value, the sensor's owner, and the sensor's
      calibration bias and warning level (both nullable columns). */
  datatype Record = Record(
    time: int,
    location: string,
    value: real,
    owner: int,
    bias: Option<real>,
    warningLevel: Option<real>)

  /** The rows of `db` recorded at or after `since` by a sensor that `user`
      owns, in store order (`record_time >= ...` joined with
      `Sensor.user == user`). */
  function Query(db: seq<Record>, since: int, user: int): (rows: seq<Record>)
    ensures |rows| <= |db|
    ensures forall r :: r in rows <==> r in db && r.time >= since && r.owner == user
  {
    if |db| == 0 then []
    else
      var rest := Query(db[1..], since, user);
      assert forall r :: r in db <==> r == db[0] || r in db[1..];
      if db[0].time >= since && db[0].owner == user then [db[0]] + rest else rest
  }

  /** The query keeps each selected row as many times as the store holds
      it, and no other row. */
  lemma {:induction false} QueryCounts(db: seq<Record>, since: int, user: int, r: Record)
    ensures multiset(Query(db, since, user))[r] ==
      if r.time >= since && r.owner == user then multiset(db)[r] else 0
  {
    if |db| > 0 {
      QueryCounts(db[1..], since, user, r);
      assert db == [db[0]] + db[1..];
    }
  }
}
