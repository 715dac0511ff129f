/** The group detail of `group_info` (main.py:144-181): the group's
    in-window record count, its last and first records in the window, and
    how long ago each was, as an hour label. */
module GroupInfo {
  import opened Wrappers
  import opened Logs
  import opened Elapsed

  /** `unique_errors`: each group id with its array of member uuids. */
  type Groups = map<int, seq<Uuid>>

  /** The response dictionary. */
  datatype Detail = Detail(
    id: int,
    category: string,
    subcategory: string,
    last: string,
    first: string,
    log: string,
    count: nat)

  /** `cur.fetchone()` returned `None`, and building the dictionary from it
      raises: the id names no group, or the group has no record in the
      window. The two cases are not told apart. */
  datatype DetailError = NoSuchRow

  /** `NOW() - create_date` as the `timedelta` the driver hands back, for a
      wall clock `clock` in minutes. */
  function Age(clock: Minute, t: Minute): (d: Timedelta)
    ensures TotalSeconds(d) == (clock - t) * 60
  {
    FromSeconds((clock - t) * 60)
  }

  /** The hour shown for an age is the hour within its last day, in
      minutes: `((clock - t) mod 1440) div 60`. */
  lemma {:induction false} AgeHours(clock: Minute, t: Minute)
    ensures HourOfDay(Age(clock, t)) == ((clock - t) % 1440) / 60
  {
    var m := clock - t;
    var q := m / 1440;
    var r := m % 1440;
    assert m * 60 == SecondsPerDay * q + r * 60;
    assert 0 <= r * 60 < SecondsPerDay;
    var d := DeltaParts(q, r * 60);
    assert TotalSeconds(d) == m * 60;
    FromTotalSecondsRoundTrip(d);
    assert Age(clock, t) == d;
    assert (r * 60) / 3600 == r / 60;
  }

  /** The first query: the number of table rows whose uuid the group lists
      and whose time is in the window; 0 for an unknown id, since the join
      then matches nothing. */
  function GroupCount(rs: seq<LogRecord>, groups: Groups, id: int, now: Minute, window: int): (n: nat)
    ensures id !in groups ==> n == 0
    ensures id in groups ==>
      n == |set i | 0 <= i < |rs| && rs[i].uuid in groups[id] && InWindow(rs[i].createDate, now, window)|
  {
    if id in groups then
      GroupWindowCount(rs, groups[id], now, window);
      |GroupWindow(rs, groups[id], now, window)|
    else 0
  }

  /** The whole endpoint: counts, picks the last and first records of the
      group in the window and labels their ages. */
  function GroupDetail(rs: seq<LogRecord>, groups: Groups, id: int, now: Minute, window: int, clock: Minute)
    : (r: Result<Detail, DetailError>)
    ensures r.Failure? <==> id !in groups || GroupWindow(rs, groups[id], now, window) == []
    ensures r.Success? ==>
      r.value.id == id && 0 < r.value.count
      && r.value.count == |set i | 0 <= i < |rs| && rs[i].uuid in groups[id] && InWindow(rs[i].createDate, now, window)|
    ensures r.Success? ==>
      exists l :: l in rs && l.uuid in groups[id] && InWindow(l.createDate, now, window)
        && r.value.last == HoursLabel(Age(clock, l.createDate))
        && r.value.category == l.category && r.value.subcategory == l.subcategory && r.value.log == l.log
        && (forall o :: o in rs && o.uuid in groups[id] && InWindow(o.createDate, now, window)
              ==> o.createDate <= l.createDate)
    ensures r.Success? ==>
      exists f :: f in rs && f.uuid in groups[id] && InWindow(f.createDate, now, window)
        && r.value.first == HoursLabel(Age(clock, f.createDate))
        && (forall o :: o in rs && o.uuid in groups[id] && InWindow(o.createDate, now, window)
              ==> f.createDate <= o.createDate)
  {
    if id !in groups then Failure(NoSuchRow)
    else
      var win := GroupWindow(rs, groups[id], now, window);
      match (Latest(win), Earliest(win))
      case (Some(l), Some(f)) =>
        Success(Detail(id, l.category, l.subcategory, HoursLabel(Age(clock, l.createDate)),
                       HoursLabel(Age(clock, f.createDate)), l.log, GroupCount(rs, groups, id, now, window)))
      case _ => Failure(NoSuchRow)
  }
}
