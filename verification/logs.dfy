/** The `logs` table, the time window every query filters on, and the
    rank-1 picks (`ROW_NUMBER() ... ORDER BY create_date DESC`,
    `ORDER BY create_date ASC/DESC LIMIT 1`) the queries take over it. */
module Logs {
  import opened Wrappers

  /** A timestamp, in whole minutes since 2001-01-01 00:00. */
  type Minute = int

  /** The `date_bin` origin `TIMESTAMP '2001-01-01'`. */
  const Origin: Minute := 0

  /** The reference instant `'2023-10-16 13:00'::timestamp` every query
      counts its window back from. */
  const FixedNow: Minute := 11985900

  type Uuid = string

  /** One row of `public.logs`; `id` is the column `COUNT(DISTINCT id)`
      counts, `uuid` the one `unique_errors.ids` refers to. */
  datatype LogRecord = LogRecord(
    id: int,
    uuid: Uuid,
    errorLabel: string,
    category: string,
    subcategory: string,
    createDate: Minute,
    log: string)

  /** `create_date > now - interval W`, with `W` in minutes. */
  predicate InWindow(t: Minute, now: Minute, window: int)
  {
    t > now - window
  }

  /** The records that satisfy `keep`, in table order. */
  function Filter(rs: seq<LogRecord>, keep: LogRecord -> bool): (out: seq<LogRecord>)
    ensures |out| <= |rs|
    ensures forall r :: r in out <==> r in rs && keep(r)
    ensures multiset(out) <= multiset(rs)
    ensures forall r :: multiset(out)[r] == if keep(r) then multiset(rs)[r] else 0
  {
    if rs == [] then []
    else
      assert rs == rs[..|rs| - 1] + [rs[|rs| - 1]];
      if keep(rs[|rs| - 1]) then Filter(rs[..|rs| - 1], keep) + [rs[|rs| - 1]]
      else Filter(rs[..|rs| - 1], keep)
  }

  /** The positions of the table whose record satisfies `keep`. */
  ghost function Matching(rs: seq<LogRecord>, keep: LogRecord -> bool): set<int>
  {
    set i | 0 <= i < |rs| && keep(rs[i])
  }

  /** Appending one record adds its position to the matching positions
      exactly when it satisfies `keep`; that position is new. */
  lemma MatchingSnoc(rs: seq<LogRecord>, keep: LogRecord -> bool)
    requires rs != []
    ensures var p := rs[..|rs| - 1];
            Matching(rs, keep) == Matching(p, keep) + (if keep(rs[|rs| - 1]) then {|p|} else {})
    ensures |rs| - 1 !in Matching(rs[..|rs| - 1], keep)
  {
  }

  /** `Filter` keeps exactly one record per matching position. */
  lemma {:induction false} FilterCount(rs: seq<LogRecord>, keep: LogRecord -> bool)
    ensures |Filter(rs, keep)| == |Matching(rs, keep)|
  {
    if rs != [] {
      var p := rs[..|rs| - 1];
      FilterCount(p, keep);
      MatchingSnoc(rs, keep);
    }
  }

  /** The in-window records carrying one label: one partition of the `logs`
      CTE of `subcategories`. */
  function LabelWindow(rs: seq<LogRecord>, now: Minute, window: int, errorLabel: string): (out: seq<LogRecord>)
    ensures forall r :: r in out <==> r in rs && r.errorLabel == errorLabel && InWindow(r.createDate, now, window)
  {
    Filter(rs, (r: LogRecord) => r.errorLabel == errorLabel && InWindow(r.createDate, now, window))
  }

  /** A label's partition has one record per table row of the label in the
      window. */
  lemma LabelWindowCount(rs: seq<LogRecord>, now: Minute, window: int, errorLabel: string)
    ensures |LabelWindow(rs, now, window, errorLabel)|
            == |set i | 0 <= i < |rs| && rs[i].errorLabel == errorLabel && InWindow(rs[i].createDate, now, window)|
  {
    var keep := (r: LogRecord) => r.errorLabel == errorLabel && InWindow(r.createDate, now, window);
    FilterCount(rs, keep);
    assert Matching(rs, keep) == set i | 0 <= i < |rs| && rs[i].errorLabel == errorLabel && InWindow(rs[i].createDate, now, window);
  }

  /** The in-window records of one error group, `uuid = ANY(ids)`: a record
      is kept once however often its uuid is listed. */
  function GroupWindow(rs: seq<LogRecord>, ids: seq<Uuid>, now: Minute, window: int): (out: seq<LogRecord>)
    ensures forall r :: r in out <==> r in rs && r.uuid in ids && InWindow(r.createDate, now, window)
  {
    Filter(rs, (r: LogRecord) => r.uuid in ids && InWindow(r.createDate, now, window))
  }

  /** A group's window has one record per table row whose uuid the group
      lists, however often it is listed. */
  lemma GroupWindowCount(rs: seq<LogRecord>, ids: seq<Uuid>, now: Minute, window: int)
    ensures |GroupWindow(rs, ids, now, window)|
            == |set i | 0 <= i < |rs| && rs[i].uuid in ids && InWindow(rs[i].createDate, now, window)|
  {
    var keep := (r: LogRecord) => r.uuid in ids && InWindow(r.createDate, now, window);
    FilterCount(rs, keep);
    assert Matching(rs, keep) == set i | 0 <= i < |rs| && rs[i].uuid in ids && InWindow(rs[i].createDate, now, window);
  }

  /** The rank-1 row by `create_date DESC`: a record with the greatest
      timestamp, `None` on an empty input. Among equal timestamps the
      earliest in table order is taken. */
  function Latest(rs: seq<LogRecord>): (o: Option<LogRecord>)
    ensures o.None? <==> rs == []
    ensures o.Some? ==> o.value in rs
    ensures o.Some? ==> forall r :: r in rs ==> r.createDate <= o.value.createDate
  {
    if rs == [] then None
    else
      match Latest(rs[1..])
      case None => Some(rs[0])
      case Some(rest) =>
        assert forall r :: r in rs ==> r == rs[0] || r in rs[1..];
        if rest.createDate > rs[0].createDate then Some(rest) else Some(rs[0])
  }

  /** The rank-1 row by `create_date ASC`: a record with the least
      timestamp, `None` on an empty input. */
  function Earliest(rs: seq<LogRecord>): (o: Option<LogRecord>)
    ensures o.None? <==> rs == []
    ensures o.Some? ==> o.value in rs
    ensures o.Some? ==> forall r :: r in rs ==> o.value.createDate <= r.createDate
  {
    if rs == [] then None
    else
      match Earliest(rs[1..])
      case None => Some(rs[0])
      case Some(rest) =>
        assert forall r :: r in rs ==> r == rs[0] || r in rs[1..];
        if rest.createDate < rs[0].createDate then Some(rest) else Some(rs[0])
  }

  /** With distinct timestamps the pick is exactly the record whose
      timestamp no other record reaches. */
  lemma LatestIsUniqueMaximum(rs: seq<LogRecord>, m: LogRecord)
    requires m in rs
    requires forall r :: r in rs && r != m ==> r.createDate < m.createDate
    ensures Latest(rs) == Some(m)
  {
  }

  lemma EarliestIsUniqueMinimum(rs: seq<LogRecord>, m: LogRecord)
    requires m in rs
    requires forall r :: r in rs && r != m ==> m.createDate < r.createDate
    ensures Earliest(rs) == Some(m)
  {
  }

  /** In a non-empty window the first-seen record is never later than the
      last-seen one. */
  lemma EarliestNotAfterLatest(rs: seq<LogRecord>)
    requires rs != []
    ensures Earliest(rs).value.createDate <= Latest(rs).value.createDate
  {
  }
}
