/** The single-series chart of `group_chart` (main.py:206-237): a zero
    count for every bucket of the generated series, overwritten by the
    observed `(bucket, count)` rows through `x.index`. */
module GapFill {
  import opened Wrappers
  import opened Logs
  import opened Buckets
  import opened Ordering

  /** One row of the `GROUP BY date_bin(...)` query. */
  datatype Row = Row(bin: Minute, count: nat)

  /** `x.index(bin)` raising `ValueError`: an observed bucket that the
      generated series does not contain. */
  datatype ChartError = NotInSeries(bin: Minute)

  /** The `{"x": ..., "y": ...}` response. */
  datatype Chart = Chart(x: seq<Minute>, y: seq<nat>)

  function Zeros(n: nat): (ys: seq<nat>)
    ensures |ys| == n
    ensures forall i :: 0 <= i < n ==> ys[i] == 0
  {
    seq(n, _ => 0)
  }

  predicate NoDuplicates(xs: seq<Minute>)
  {
    KeysDistinct(xs, (x: Minute) => x)
  }

  /** No two rows name the same bucket, as after `GROUP BY 1`. */
  predicate DistinctBins(rows: seq<Row>)
  {
    KeysDistinct(rows, (r: Row) => r.bin)
  }

  function BinsOf(rows: seq<Row>): set<Minute>
  {
    set r | r in rows :: r.bin
  }

  function SumOf(ys: seq<nat>): nat
  {
    if ys == [] then 0 else SumOf(ys[..|ys| - 1]) + ys[|ys| - 1]
  }

  function SumCounts(rows: seq<Row>): nat
  {
    if rows == [] then 0 else SumCounts(rows[..|rows| - 1]) + rows[|rows| - 1].count
  }

  /** `list.index`: the first position holding `v`, `None` where Python
      raises `ValueError`. */
  function IndexOf(xs: seq<Minute>, v: Minute): (o: Option<nat>)
    ensures o.None? <==> v !in xs
    ensures o.Some? ==> o.value < |xs| && xs[o.value] == v && v !in xs[..o.value]
  {
    if xs == [] then None
    else if xs[0] == v then Some(0)
    else
      match IndexOf(xs[1..], v)
      case None => None
      case Some(i) =>
        assert xs[..i + 1] == [xs[0]] + xs[1..][..i];
        Some(i + 1)
  }

  /** The loop `for row in rows: y[x.index(row[0])] = row[1]`, rows taken
      in order; the first row whose bucket is missing aborts the request. */
  function Overlay(xs: seq<Minute>, ys: seq<nat>, rows: seq<Row>): (r: Result<seq<nat>, ChartError>)
    requires |ys| == |xs|
    ensures r.Success? <==> forall row :: row in rows ==> row.bin in xs
    ensures r.Failure? ==> r.error.bin !in xs && r.error.bin in BinsOf(rows)
    ensures r.Success? ==> |r.value| == |xs|
    ensures r.Success? ==> forall i :: 0 <= i < |xs| && xs[i] !in BinsOf(rows) ==> r.value[i] == ys[i]
    decreases |rows|
  {
    if rows == [] then Success(ys)
    else
      assert forall row :: row in rows <==> row == rows[0] || row in rows[1..];
      match IndexOf(xs, rows[0].bin)
      case None => Failure(NotInSeries(rows[0].bin))
      case Some(k) => Overlay(xs, ys[k := rows[0].count], rows[1..])
  }

  /** The count of the last row naming bucket `b`, or 0 if none does: what
      the loop leaves in the slot of `b`. */
  function LastCount(rows: seq<Row>, b: Minute): (c: nat)
    ensures b !in BinsOf(rows) ==> c == 0
  {
    if rows == [] then 0
    else if rows[|rows| - 1].bin == b then rows[|rows| - 1].count
    else
      assert BinsOf(rows) == BinsOf(rows[..|rows| - 1]) + {rows[|rows| - 1].bin} by {
        assert rows == rows[..|rows| - 1] + [rows[|rows| - 1]];
      }
      LastCount(rows[..|rows| - 1], b)
  }

  lemma SnocFacts(q: seq<Row>, r: Row)
    ensures BinsOf(q + [r]) == BinsOf(q) + {r.bin}
    ensures forall c :: LastCount(q + [r], c) == if r.bin == c then r.count else LastCount(q, c)
    ensures SumCounts(q + [r]) == SumCounts(q) + r.count
  {
    assert (q + [r])[..|q|] == q;
    assert forall row :: row in q + [r] <==> row in q || row == r;
  }

  /** The independent description of the overlay's result: each bucket
      carries its row's count, every other bucket 0. */
  function Filled(xs: seq<Minute>, rows: seq<Row>): (ys: seq<nat>)
  {
    seq(|xs|, i requires 0 <= i < |xs| => LastCount(rows, xs[i]))
  }

  /** Running the loop over `p + [r]` is running it over `p`, then writing
      the last row. */
  lemma {:induction false} OverlaySnoc(xs: seq<Minute>, ys: seq<nat>, p: seq<Row>, r: Row)
    requires |ys| == |xs|
    requires forall row :: row in p + [r] ==> row.bin in xs
    ensures Overlay(xs, ys, p + [r]) == Success(Overlay(xs, ys, p).value[IndexOf(xs, r.bin).value := r.count])
    decreases |p|
  {
    if p != [] {
      assert (p + [r])[1..] == p[1..] + [r];
      match IndexOf(xs, p[0].bin)
      case Some(k) =>
        OverlaySnoc(xs, ys[k := p[0].count], p[1..], r);
    }
  }

  /** With distinct buckets in the series, the loop computes `Filled`:
      slot `i` holds the count of the (last) row for `xs[i]`, 0 if none. */
  lemma {:induction false} OverlayComputesFilled(xs: seq<Minute>, rows: seq<Row>)
    requires NoDuplicates(xs)
    requires forall row :: row in rows ==> row.bin in xs
    ensures Overlay(xs, Zeros(|xs|), rows) == Success(Filled(xs, rows))
  {
    if rows == [] {
      assert Filled(xs, rows) == Zeros(|xs|);
    } else {
      var p := rows[..|rows| - 1];
      var r := rows[|rows| - 1];
      assert rows == p + [r];
      OverlayComputesFilled(xs, p);
      OverlaySnoc(xs, Zeros(|xs|), p, r);
      var k := IndexOf(xs, r.bin).value;
      var got := Filled(xs, p)[k := r.count];
      forall i | 0 <= i < |xs| ensures got[i] == Filled(xs, rows)[i] {
        if i != k {
          assert xs[i] != xs[k];
        }
      }
      assert got == Filled(xs, rows);
    }
  }

  /** With distinct buckets among the rows, a row's count is what the loop
      leaves in its bucket's slot. */
  lemma {:induction false} LastCountOfRow(rows: seq<Row>, row: Row)
    requires DistinctBins(rows)
    requires row in rows
    ensures LastCount(rows, row.bin) == row.count
  {
    var p := rows[..|rows| - 1];
    var r := rows[|rows| - 1];
    assert rows == p + [r];
    if row != r {
      assert row in p;
      var k :| 0 <= k < |p| && p[k] == row;
      assert rows[k].bin != rows[|rows| - 1].bin;
      LastCountOfRow(p, row);
    }
  }

  /** `sorted(...)` does not matter: the `GROUP BY` rows name distinct
      buckets, so any order of the same rows fills the same chart, or fails
      in both orders. */
  lemma OverlayIgnoresRowOrder(xs: seq<Minute>, rows1: seq<Row>, rows2: seq<Row>)
    requires NoDuplicates(xs)
    requires DistinctBins(rows1) && DistinctBins(rows2)
    requires multiset(rows1) == multiset(rows2)
    ensures Overlay(xs, Zeros(|xs|), rows1).Success? == Overlay(xs, Zeros(|xs|), rows2).Success?
    ensures Overlay(xs, Zeros(|xs|), rows1).Success? ==>
              Overlay(xs, Zeros(|xs|), rows1) == Overlay(xs, Zeros(|xs|), rows2)
  {
    assert forall row :: row in rows1 <==> row in rows2 by {
      assert forall row :: row in rows1 <==> row in multiset(rows1);
      assert forall row :: row in rows2 <==> row in multiset(rows2);
    }
    if forall row :: row in rows1 ==> row.bin in xs {
      OverlayComputesFilled(xs, rows1);
      OverlayComputesFilled(xs, rows2);
      forall i | 0 <= i < |xs| ensures LastCount(rows1, xs[i]) == LastCount(rows2, xs[i]) {
        if xs[i] in BinsOf(rows1) {
          var row :| row in rows1 && row.bin == xs[i];
          LastCountOfRow(rows1, row);
          LastCountOfRow(rows2, row);
        } else {
          assert xs[i] !in BinsOf(rows2);
        }
      }
      assert Filled(xs, rows1) == Filled(xs, rows2);
    }
  }

  lemma {:induction false} SumOfUpdate(ys: seq<nat>, k: nat, v: nat)
    requires k < |ys|
    ensures SumOf(ys[k := v]) + ys[k] == SumOf(ys) + v
  {
    var zs := ys[k := v];
    assert zs[..|zs| - 1] == if k < |ys| - 1 then ys[..|ys| - 1][k := v] else ys[..|ys| - 1];
    if k < |ys| - 1 {
      SumOfUpdate(ys[..|ys| - 1], k, v);
    }
  }

  /** When every row's bucket is in the series, no observed count is lost:
      the filled chart sums to the rows' total. */
  lemma {:induction false} FilledSum(xs: seq<Minute>, rows: seq<Row>)
    requires NoDuplicates(xs)
    requires DistinctBins(rows)
    requires forall row :: row in rows ==> row.bin in xs
    ensures SumOf(Filled(xs, rows)) == SumCounts(rows)
  {
    if rows == [] {
      assert Filled(xs, rows) == Zeros(|xs|);
      ZerosSum(|xs|);
    } else {
      var p := rows[..|rows| - 1];
      var r := rows[|rows| - 1];
      assert rows == p + [r];
      assert DistinctBins(p);
      FilledSum(xs, p);
      var k := IndexOf(xs, r.bin).value;
      assert r.bin !in BinsOf(p) by {
        forall row | row in p ensures row.bin != r.bin {
          var j :| 0 <= j < |p| && p[j] == row;
          assert rows[j].bin != rows[|rows| - 1].bin;
        }
      }
      var before := Filled(xs, p);
      assert before[k] == 0;
      forall i | 0 <= i < |xs| ensures before[k := r.count][i] == Filled(xs, rows)[i] {
        if i != k {
          assert xs[i] != xs[k];
        }
      }
      assert before[k := r.count] == Filled(xs, rows);
      SumOfUpdate(before, k, r.count);
    }
  }

  lemma {:induction false} ZerosSum(n: nat)
    ensures SumOf(Zeros(n)) == 0
  {
    if n > 0 {
      assert Zeros(n)[..n - 1] == Zeros(n - 1);
      ZerosSum(n - 1);
    }
  }

  /** The number of events whose bucket is `b`. */
  function CountInBin(ts: seq<Minute>, b: Minute): nat
  {
    if ts == [] then 0
    else CountInBin(ts[..|ts| - 1], b) + (if Bin(ts[|ts| - 1]) == b then 1 else 0)
  }

  /** Counts one more event in bucket `b`: bumps the row of `b`, or
      appends a row for it. */
  function AddEvent(rows: seq<Row>, b: Minute): seq<Row>
  {
    if rows == [] then [Row(b, 1)]
    else if rows[|rows| - 1].bin == b then rows[..|rows| - 1] + [Row(b, rows[|rows| - 1].count + 1)]
    else AddEvent(rows[..|rows| - 1], b) + [rows[|rows| - 1]]
  }

  /** Adding an event adds `b` to the buckets and one to the total. */
  lemma {:induction false} AddEventBinsAndSum(rows: seq<Row>, b: Minute)
    ensures BinsOf(AddEvent(rows, b)) == BinsOf(rows) + {b}
    ensures SumCounts(AddEvent(rows, b)) == SumCounts(rows) + 1
  {
    var out := AddEvent(rows, b);
    if rows == [] {
      SnocFacts([], Row(b, 1));
      assert [] + [Row(b, 1)] == out;
    } else {
      var p := rows[..|rows| - 1];
      var r := rows[|rows| - 1];
      assert rows == p + [r];
      SnocFacts(p, r);
      if r.bin == b {
        SnocFacts(p, Row(b, r.count + 1));
      } else {
        AddEventBinsAndSum(p, b);
        SnocFacts(AddEvent(p, b), r);
      }
    }
  }

  /** Adding an event raises the count of bucket `b` by one and leaves
      every other bucket's count alone. */
  lemma {:induction false} AddEventCount(rows: seq<Row>, b: Minute, c: Minute)
    ensures LastCount(AddEvent(rows, b), c) == LastCount(rows, c) + (if c == b then 1 else 0)
  {
    if rows == [] {
      SnocFacts([], Row(b, 1));
      assert [] + [Row(b, 1)] == AddEvent(rows, b);
    } else {
      var p := rows[..|rows| - 1];
      var r := rows[|rows| - 1];
      assert rows == p + [r];
      SnocFacts(p, r);
      if r.bin == b {
        SnocFacts(p, Row(b, r.count + 1));
      } else {
        AddEventCount(p, b, c);
        SnocFacts(AddEvent(p, b), r);
      }
    }
  }

  /** Adding an event never creates a second row for a bucket. */
  lemma {:induction false} AddEventDistinct(rows: seq<Row>, b: Minute)
    requires DistinctBins(rows)
    ensures DistinctBins(AddEvent(rows, b))
  {
    var out := AddEvent(rows, b);
    if rows != [] {
      var p := rows[..|rows| - 1];
      var r := rows[|rows| - 1];
      assert rows == p + [r];
      assert DistinctBins(p);
      if r.bin == b {
        assert out == p + [Row(b, r.count + 1)];
        forall i, j | 0 <= i < j < |out| ensures out[i].bin != out[j].bin {
          assert out[i] == rows[i];
        }
      } else {
        var q := AddEvent(p, b);
        assert out == q + [r];
        AddEventDistinct(p, b);
        AddEventBinsAndSum(p, b);
        assert r.bin !in BinsOf(p) by {
          forall row | row in p ensures row.bin != r.bin {
            var j :| 0 <= j < |p| && p[j] == row;
            assert rows[j].bin != rows[|rows| - 1].bin;
          }
        }
        forall i, j | 0 <= i < j < |out| ensures out[i].bin != out[j].bin {
          if j == |out| - 1 {
            assert out[i] in q;
            assert out[i].bin in BinsOf(q);
          } else {
            assert out[i] == q[i] && out[j] == q[j];
          }
        }
      }
    }
  }

  /** `SELECT date_bin(...), COUNT(*) ... GROUP BY 1`: one row per bucket
      that holds an event, each with its number of events. */
  function GroupByBin(ts: seq<Minute>): (rows: seq<Row>)
    ensures DistinctBins(rows)
    ensures BinsOf(rows) == set t | t in ts :: Bin(t)
    ensures forall b :: LastCount(rows, b) == CountInBin(ts, b)
    ensures SumCounts(rows) == |ts|
  {
    if ts == [] then []
    else
      var p := ts[..|ts| - 1];
      assert ts == p + [ts[|ts| - 1]];
      var rows := GroupByBin(p);
      var b := Bin(ts[|ts| - 1]);
      AddEventBinsAndSum(rows, b);
      AddEventDistinct(rows, b);
      forall c ensures LastCount(AddEvent(rows, b), c) == CountInBin(ts, c) {
        AddEventCount(rows, b, c);
      }
      AddEvent(rows, b)
  }

  /** Each `GROUP BY` row carries exactly its bucket's event count, which is
      positive. */
  lemma GroupByBinRows(ts: seq<Minute>)
    ensures forall row :: row in GroupByBin(ts) ==> row.count == CountInBin(ts, row.bin) > 0
  {
    var rows := GroupByBin(ts);
    forall row | row in rows ensures row.count == CountInBin(ts, row.bin) > 0 {
      LastCountOfRow(rows, row);
      assert row.bin in BinsOf(rows);
      var t :| t in ts && Bin(t) == row.bin;
      CountInBinPositive(ts, t);
    }
  }

  lemma {:induction false} CountInBinPositive(ts: seq<Minute>, t: Minute)
    requires t in ts
    ensures CountInBin(ts, Bin(t)) > 0
  {
    var p := ts[..|ts| - 1];
    assert ts == p + [ts[|ts| - 1]];
    if ts[|ts| - 1] != t {
      assert t in p;
      CountInBinPositive(p, t);
    }
  }

  function EventTimes(rs: seq<LogRecord>): (ts: seq<Minute>)
    ensures |ts| == |rs|
    ensures forall i :: 0 <= i < |rs| ==> ts[i] == rs[i].createDate
  {
    seq(|rs|, i requires 0 <= i < |rs| => rs[i].createDate)
  }

  /** The `GROUP BY` rows all fall in the series exactly when every event's
      bucket does. */
  lemma BinsOfEvents(xs: seq<Minute>, events: seq<LogRecord>)
    ensures (forall row :: row in GroupByBin(EventTimes(events)) ==> row.bin in xs)
            <==> (forall e :: e in events ==> Bin(e.createDate) in xs)
  {
    var ts := EventTimes(events);
    var rows := GroupByBin(ts);
    if forall row :: row in rows ==> row.bin in xs {
      forall e | e in events ensures Bin(e.createDate) in xs {
        var k :| 0 <= k < |events| && events[k] == e;
        assert ts[k] in ts;
        assert Bin(ts[k]) in BinsOf(rows);
      }
    }
    if forall e :: e in events ==> Bin(e.createDate) in xs {
      forall row | row in rows ensures row.bin in xs {
        assert row.bin in BinsOf(rows);
        var t :| t in ts && Bin(t) == row.bin;
        var k :| 0 <= k < |ts| && ts[k] == t;
        assert events[k] in events;
      }
    }
  }

  /** The chart for already-selected records: the generated series from
      `now - window` to `now` as `x`, and the overlay of their bucket counts
      onto zeros as `y`. */
  function ChartFor(events: seq<LogRecord>, now: Minute, window: int): (r: Result<Chart, ChartError>)
    ensures r.Success? <==> forall e :: e in events ==> Bin(e.createDate) in Series(now - window, now)
    ensures r.Success? ==> r.value.x == Series(now - window, now) && |r.value.y| == |r.value.x|
    ensures r.Success? ==>
      forall i :: 0 <= i < |r.value.x| ==> r.value.y[i] == CountInBin(EventTimes(events), r.value.x[i])
  {
    var xs := Series(now - window, now);
    var ts := EventTimes(events);
    var rows := GroupByBin(ts);
    BinsOfEvents(xs, events);
    match Overlay(xs, Zeros(|xs|), rows)
    case Failure(err) => Failure(err)
    case Success(ys) =>
      SeriesShape(now - window, now);
      OverlayComputesFilled(xs, rows);
      Success(Chart(xs, ys))
  }

  /** For an aligned `now` and a window of whole buckets, the bucket of
      every instant in `(now - window, now]` is in the series. */
  lemma WindowBinsInSeries(now: Minute, window: int, t: Minute)
    requires Aligned(now) && 0 <= window && window % BinWidth == 0
    requires now - window < t <= now
    ensures Bin(t) in Series(now - window, now)
  {
    AlignedStepBack(now, window);
    BinIsGreatestBoundary(t, now - window);
    SeriesHoldsAlignedInstants(now - window, now, Bin(t));
  }

  /** For an aligned `now`, a window of whole buckets and events inside
      `(now - window, now]`, the chart never fails; slot `i` counts the
      events in bucket `x[i]`, and the slots add up to all the events. */
  lemma ChartForCounts(events: seq<LogRecord>, now: Minute, window: int)
    requires Aligned(now) && 0 <= window && window % BinWidth == 0
    requires forall e :: e in events ==> now - window < e.createDate <= now
    ensures ChartFor(events, now, window).Success?
    ensures var c := ChartFor(events, now, window).value;
      && (forall i :: 0 <= i < |c.x| ==> c.y[i] == CountInBin(EventTimes(events), c.x[i]))
      && SumOf(c.y) == |events|
  {
    var xs := Series(now - window, now);
    var rows := GroupByBin(EventTimes(events));
    forall e | e in events ensures Bin(e.createDate) in xs {
      WindowBinsInSeries(now, window, e.createDate);
    }
    BinsOfEvents(xs, events);
    SeriesShape(now - window, now);
    assert NoDuplicates(xs);
    OverlayComputesFilled(xs, rows);
    FilledSum(xs, rows);
  }

  /** `group_chart` as written: the group's records in the window
      `create_date > now - W`, with no upper bound. `ids` are the member
      uuids of the requested group, empty for an unknown id (the join then
      matches nothing). The rows are overlaid in `GROUP BY` order rather
      than after `sorted`; `OverlayIgnoresRowOrder` shows the order does not
      matter to a chart that succeeds. On failure it does: Python sorts the
      rows first, so its `ValueError` names the smallest missing bucket,
      while `NotInSeries` names the first missing one in row order. */
  function GroupChart(rs: seq<LogRecord>, ids: seq<Uuid>, now: Minute, window: int): (r: Result<Chart, ChartError>)
    ensures r.Success? <==> forall e :: e in GroupWindow(rs, ids, now, window) ==> Bin(e.createDate) in Series(now - window, now)
    ensures r.Success? ==> r.value.x == Series(now - window, now) && |r.value.y| == |r.value.x|
    ensures r.Success? ==>
      forall i :: 0 <= i < |r.value.x| ==>
        r.value.y[i] == CountInBin(EventTimes(GroupWindow(rs, ids, now, window)), r.value.x[i])
  {
    ChartFor(GroupWindow(rs, ids, now, window), now, window)
  }

  /** The chart as written succeeds when no record of the group postdates
      the fixed `now` and the window is whole buckets; then each slot counts
      its bucket and the slots add up to the group's in-window records. */
  lemma GroupChartCounts(rs: seq<LogRecord>, ids: seq<Uuid>, now: Minute, window: int)
    requires Aligned(now) && 0 <= window && window % BinWidth == 0
    requires forall r :: r in rs && r.uuid in ids ==> r.createDate <= now
    ensures GroupChart(rs, ids, now, window).Success?
    ensures var c := GroupChart(rs, ids, now, window).value;
      && (forall i :: 0 <= i < |c.x| ==> c.y[i] == CountInBin(EventTimes(GroupWindow(rs, ids, now, window)), c.x[i]))
      && SumOf(c.y) == |GroupWindow(rs, ids, now, window)|
  {
    ChartForCounts(GroupWindow(rs, ids, now, window), now, window);
  }

  /** A group record half an hour after the fixed `now` puts a bucket past
      the end of the series, so `x.index` fails and the request errors. */
  lemma FutureEventBreaksChart()
    ensures GroupChart([LogRecord(1, "u", "TRANSPORT", "", "", FixedNow + 30, "")], ["u"], FixedNow, 60)
            == Failure(NotInSeries(FixedNow + 30))
  {
    var e := LogRecord(1, "u", "TRANSPORT", "", "", FixedNow + 30, "");
    assert GroupWindow([e], ["u"], FixedNow, 60) == [e] by {
      assert [e][..0] == [];
    }
    var xs := Series(FixedNow - 60, FixedNow);
    assert xs == [FixedNow - 60, FixedNow - 30, FixedNow];
    assert Bin(FixedNow + 30) == FixedNow + 30;
    assert EventTimes([e]) == [FixedNow + 30];
    assert GroupByBin([FixedNow + 30]) == [Row(FixedNow + 30, 1)] by {
      assert [FixedNow + 30][..0] == [];
    }
  }

  /** A group record ten minutes after the fixed `now` lies in the bucket
      that starts at `now`, so the chart as written succeeds and counts it
      in the last slot, as if it had happened inside the window. */
  lemma NearFutureEventCounted()
    ensures GroupChart([LogRecord(1, "u", "TRANSPORT", "", "", FixedNow + 10, "")], ["u"], FixedNow, 60)
            == Success(Chart([FixedNow - 60, FixedNow - 30, FixedNow], [0, 0, 1]))
  {
    var e := LogRecord(1, "u", "TRANSPORT", "", "", FixedNow + 10, "");
    OneRecordWindow(e, FixedNow, 60);
    OneEventChart(e);
  }

  /** A one-record table whose record belongs to group `["u"]` and lies in
      the window selects that record. */
  lemma OneRecordWindow(e: LogRecord, now: Minute, window: int)
    requires e.uuid == "u" && InWindow(e.createDate, now, window)
    ensures GroupWindow([e], ["u"], now, window) == [e]
  {
    assert [e][..0] == [];
  }

  /** The chart of one event at `FixedNow + 10` over the last hour. */
  lemma OneEventChart(e: LogRecord)
    requires e.createDate == FixedNow + 10
    ensures ChartFor([e], FixedNow, 60) == Success(Chart([FixedNow - 60, FixedNow - 30, FixedNow], [0, 0, 1]))
  {
    var xs := Series(FixedNow - 60, FixedNow);
    assert xs == [FixedNow - 60, FixedNow - 30, FixedNow];
    assert Bin(FixedNow + 10) == FixedNow;
    assert EventTimes([e]) == [FixedNow + 10];
    var ts := [FixedNow + 10];
    assert ts[..0] == [];
    assert CountInBin(ts, FixedNow - 60) == 0;
    assert CountInBin(ts, FixedNow - 30) == 0;
    assert CountInBin(ts, FixedNow) == 1;
    var r := ChartFor([e], FixedNow, 60);
    assert r.Success?;
    assert r.value.x == xs;
    var y := r.value.y;
    assert |y| == 3;
    assert y[0] == 0 && y[1] == 0 && y[2] == 1;
    assert y == [0, 0, 1];
  }

  /** A window of 0.75 hours starts mid-bucket: a record 44 minutes before
      `now` falls in the bucket starting an hour before `now`, which the
      series (starting 45 minutes before `now`) lacks. */
  lemma PartialBucketBreaksChart()
    ensures GroupChart([LogRecord(1, "u", "TRANSPORT", "", "", FixedNow - 44, "")], ["u"], FixedNow, 45)
            == Failure(NotInSeries(FixedNow - 60))
  {
    var e := LogRecord(1, "u", "TRANSPORT", "", "", FixedNow - 44, "");
    assert GroupWindow([e], ["u"], FixedNow, 45) == [e] by {
      assert [e][..0] == [];
    }
    var xs := Series(FixedNow - 45, FixedNow);
    assert xs == [FixedNow - 45, FixedNow - 15];
    assert Bin(FixedNow - 44) == FixedNow - 60;
    assert EventTimes([e]) == [FixedNow - 44];
    assert GroupByBin([FixedNow - 44]) == [Row(FixedNow - 60, 1)] by {
      assert [FixedNow - 44][..0] == [];
    }
  }

  /** When the series starts off a bucket boundary (with the fixed `now`,
      a window that is not a whole number of half hours), no element of the
      series is a bucket start, so the chart fails for every group with a
      record in the window and succeeds only for a group without one. */
  lemma UnalignedWindowBreaksChart(rs: seq<LogRecord>, ids: seq<Uuid>, now: Minute, window: int)
    requires !Aligned(now - window)
    ensures GroupChart(rs, ids, now, window).Success? <==> GroupWindow(rs, ids, now, window) == []
  {
    UnalignedChartFails(GroupWindow(rs, ids, now, window), now, window);
  }

  /** A chart over a series that starts off a boundary succeeds only for no
      events. */
  lemma UnalignedChartFails(events: seq<LogRecord>, now: Minute, window: int)
    requires !Aligned(now - window)
    ensures ChartFor(events, now, window).Success? <==> events == []
  {
    if events != [] {
      var e := events[0];
      assert e in events;
      UnalignedSeriesMissesBoundaries(now - window, now, Bin(e.createDate));
    }
  }

  /** `group_chart` with the window closed at `now` as well
      (`now - W < create_date <= now`). */
  function BoundedGroupChart(rs: seq<LogRecord>, ids: seq<Uuid>, now: Minute, window: int): (r: Result<Chart, ChartError>)
    ensures r.Success? ==> r.value.x == Series(now - window, now) && |r.value.y| == |r.value.x|
    ensures var events := Filter(rs, (e: LogRecord) => e.uuid in ids && now - window < e.createDate <= now);
      r.Success? ==> forall i :: 0 <= i < |r.value.x| ==> r.value.y[i] == CountInBin(EventTimes(events), r.value.x[i])
  {
    FilterTwice(rs, ids, now, window);
    ChartFor(Filter(GroupWindow(rs, ids, now, window), (e: LogRecord) => e.createDate <= now), now, window)
  }

  /** With the upper bound, every input chart of whole buckets succeeds:
      slot `i` counts the group's records in bucket `x[i]` and the slots add
      up to the group's records in `(now - W, now]`. */
  lemma BoundedGroupChartCounts(rs: seq<LogRecord>, ids: seq<Uuid>, now: Minute, window: int)
    requires Aligned(now) && 0 <= window && window % BinWidth == 0
    ensures BoundedGroupChart(rs, ids, now, window).Success?
    ensures var events := Filter(rs, (e: LogRecord) => e.uuid in ids && now - window < e.createDate <= now);
      var c := BoundedGroupChart(rs, ids, now, window).value;
      && (forall i :: 0 <= i < |c.x| ==> c.y[i] == CountInBin(EventTimes(events), c.x[i]))
      && SumOf(c.y) == |events|
  {
    var inner := Filter(GroupWindow(rs, ids, now, window), (e: LogRecord) => e.createDate <= now);
    FilterTwice(rs, ids, now, window);
    ChartForCounts(inner, now, window);
  }

  /** Filtering the group window by the upper bound selects the same records,
      in the same order, as one filter with both bounds. */
  lemma {:induction false} FilterTwice(rs: seq<LogRecord>, ids: seq<Uuid>, now: Minute, window: int)
    ensures Filter(GroupWindow(rs, ids, now, window), (e: LogRecord) => e.createDate <= now)
            == Filter(rs, (e: LogRecord) => e.uuid in ids && now - window < e.createDate <= now)
  {
    if rs != [] {
      var p := rs[..|rs| - 1];
      FilterTwice(p, ids, now, window);
    }
  }
}
