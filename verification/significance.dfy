/** The trending-labels report of `subcategories` (main.py:36-63): per label,
    the in-window count, the most recent record and the significance score
    `1 - COUNT(DISTINCT id) / COUNT(*)`, ordered by last occurrence. */
module Significance {
  import opened Wrappers
  import opened Logs
  import opened Ordering

  /** The ids a run of records carries, as `COUNT(DISTINCT id)` sees them. */
  function Ids(rs: seq<LogRecord>): set<int>
  {
    set r | r in rs :: r.id
  }

  /** No two records of the run share an id. */
  predicate IdsDistinct(rs: seq<LogRecord>)
  {
    KeysDistinct(rs, (r: LogRecord) => r.id)
  }

  lemma IdsOfSnoc(rs: seq<LogRecord>, x: LogRecord)
    ensures Ids(rs + [x]) == Ids(rs) + {x.id}
  {
    assert forall r :: r in rs + [x] <==> r in rs || r == x;
  }

  /** There are never more distinct ids than records, and a non-empty run
      has at least one. */
  lemma {:induction false} IdsBounds(rs: seq<LogRecord>)
    ensures |Ids(rs)| <= |rs|
    ensures rs != [] ==> 1 <= |Ids(rs)|
  {
    if rs != [] {
      var p := rs[..|rs| - 1];
      var x := rs[|rs| - 1];
      assert rs == p + [x];
      IdsOfSnoc(p, x);
      IdsBounds(p);
      assert x.id in Ids(rs);
    }
  }

  /** A run stays free of repeated ids after one more record exactly when
      it was before and the new id is fresh. */
  lemma IdsDistinctSnoc(p: seq<LogRecord>, x: LogRecord)
    ensures IdsDistinct(p + [x]) <==> IdsDistinct(p) && x.id !in Ids(p)
  {
    var rs := p + [x];
    if IdsDistinct(rs) {
      forall i, j | 0 <= i < j < |p| ensures p[i].id != p[j].id {
        assert p[i] == rs[i] && p[j] == rs[j];
      }
      forall r | r in p ensures r.id != x.id {
        var k :| 0 <= k < |p| && p[k] == r;
        assert rs[k].id != rs[|p|].id;
      }
    }
    if IdsDistinct(p) && x.id !in Ids(p) {
      forall i, j | 0 <= i < j < |rs| ensures rs[i].id != rs[j].id {
        if j == |p| {
          assert rs[i] in p;
        } else {
          assert rs[i] == p[i] && rs[j] == p[j];
        }
      }
    }
  }

  /** The distinct count reaches the total count exactly when every id in
      the run is different. */
  lemma {:induction false} AllIdsDistinctIff(rs: seq<LogRecord>)
    ensures |Ids(rs)| == |rs| <==> IdsDistinct(rs)
  {
    if rs != [] {
      var p := rs[..|rs| - 1];
      var x := rs[|rs| - 1];
      assert rs == p + [x];
      IdsOfSnoc(p, x);
      IdsBounds(p);
      AllIdsDistinctIff(p);
      IdsDistinctSnoc(p, x);
      if x.id in Ids(p) {
        assert Ids(rs) == Ids(p);
      } else {
        assert |Ids(rs)| == |Ids(p)| + 1;
      }
    }
  }

  lemma RatioBounds(d: real, c: real)
    requires 0.0 < c && 0.0 <= d
    ensures 0.0 <= d / c
    ensures d <= c ==> d / c <= 1.0
    ensures d / c == 1.0 <==> d == c
  {
    assert (d / c) * c == d;
  }

  /** `1 - distinct / cast(count as decimal)`, computed exactly. */
  function Score(distinct: nat, count: nat): (s: real)
    requires 0 < count
    ensures distinct <= count ==> 0.0 <= s <= 1.0
    ensures s == 0.0 <==> distinct == count
  {
    RatioBounds(distinct as real, count as real);
    1.0 - distinct as real / count as real
  }

  /** One row of the report. */
  datatype Summary = Summary(
    errorLabel: string,
    count: nat,
    significance: real,
    category: string,
    subcategory: string,
    last: Minute,
    log: string)

  /** The row for one label: its in-window count, the distinct-id score and
      the rank-1 record by `create_date DESC`; `None` when the label has no
      record in the window (the `JOIN` then yields no row). */
  function LabelSummary(rs: seq<LogRecord>, now: Minute, window: int, errorLabel: string): (o: Option<Summary>)
    ensures o.None? <==> LabelWindow(rs, now, window, errorLabel) == []
    ensures o.Some? ==> o.value.errorLabel == errorLabel
  {
    var win := LabelWindow(rs, now, window, errorLabel);
    if win == [] then None
    else
      var latest := Latest(win).value;
      IdsBounds(win);
      Some(Summary(errorLabel, |win|, Score(|Ids(win)|, |win|), latest.category,
                   latest.subcategory, latest.createDate, latest.log))
  }

  /** A label has a row exactly when some record carrying it lies in the
      window. */
  lemma LabelSummaryPresent(rs: seq<LogRecord>, now: Minute, window: int, errorLabel: string)
    ensures LabelSummary(rs, now, window, errorLabel).Some? <==>
              exists r :: r in rs && r.errorLabel == errorLabel && InWindow(r.createDate, now, window)
  {
    var win := LabelWindow(rs, now, window, errorLabel);
    if win != [] {
      assert win[0] in win;
    }
  }

  /** What a row says: the count of in-window records of the label, a
      score in [0, 1] that is 0 exactly when no id repeats, and the last
      occurrence, which no in-window record of the label postdates. */
  lemma LabelSummaryMeaning(rs: seq<LogRecord>, now: Minute, window: int, errorLabel: string)
    requires exists r :: r in rs && r.errorLabel == errorLabel && InWindow(r.createDate, now, window)
    ensures LabelSummary(rs, now, window, errorLabel).Some?
    ensures var s := LabelSummary(rs, now, window, errorLabel).value;
      && s.count == |set i | 0 <= i < |rs| && rs[i].errorLabel == errorLabel && InWindow(rs[i].createDate, now, window)| > 0
      && 0.0 <= s.significance <= 1.0
      && (s.significance == 0.0 <==> IdsDistinct(LabelWindow(rs, now, window, errorLabel)))
      && (exists r :: r in rs && r.errorLabel == errorLabel && InWindow(r.createDate, now, window)
                      && r.createDate == s.last && r.log == s.log
                      && r.category == s.category && r.subcategory == s.subcategory)
      && (forall r :: r in rs && r.errorLabel == errorLabel && InWindow(r.createDate, now, window)
                      ==> r.createDate <= s.last)
  {
    LabelSummaryPresent(rs, now, window, errorLabel);
    var win := LabelWindow(rs, now, window, errorLabel);
    LabelWindowCount(rs, now, window, errorLabel);
    IdsBounds(win);
    AllIdsDistinctIff(win);
    var latest := Latest(win).value;
    assert latest in win;
  }

  /** The labels of a run, each once, in order of first appearance. */
  function DistinctLabels(rs: seq<LogRecord>): (ls: seq<string>)
    ensures forall l :: l in ls <==> exists r :: r in rs && r.errorLabel == l
    ensures KeysDistinct(ls, (l: string) => l)
  {
    if rs == [] then []
    else
      var p := rs[..|rs| - 1];
      var x := rs[|rs| - 1];
      assert rs == p + [x];
      var ls := DistinctLabels(p);
      if x.errorLabel in ls then ls else ls + [x.errorLabel]
  }

  /** Rows in `ORDER BY last DESC` order. */
  predicate NewestFirst(ss: seq<Summary>)
  {
    Descending(ss, (s: Summary) => s.last)
  }

  /** One row per label, in the order the labels are given. */
  function SummaryRows(rs: seq<LogRecord>, now: Minute, window: int, labels: seq<string>): (rows: seq<Summary>)
    requires forall l :: l in labels ==> LabelWindow(rs, now, window, l) != []
    ensures |rows| == |labels|
    ensures forall i :: 0 <= i < |rows| ==> LabelSummary(rs, now, window, labels[i]) == Some(rows[i])
  {
    if labels == [] then []
    else
      assert labels[0] in labels;
      [LabelSummary(rs, now, window, labels[0]).value] + SummaryRows(rs, now, window, labels[1..])
  }

  lemma TrendingRowsFacts(rs: seq<LogRecord>, now: Minute, window: int, inWindow: seq<LogRecord>,
                          labels: seq<string>, rows: seq<Summary>, out: seq<Summary>)
    requires forall r :: r in inWindow <==> r in rs && InWindow(r.createDate, now, window)
    requires forall l :: l in labels <==> exists r :: r in inWindow && r.errorLabel == l
    requires KeysDistinct(labels, (l: string) => l)
    requires |rows| == |labels|
    requires forall i :: 0 <= i < |rows| ==> LabelSummary(rs, now, window, labels[i]) == Some(rows[i])
    requires multiset(out) == multiset(rows)
    ensures forall s :: s in out ==> LabelSummary(rs, now, window, s.errorLabel) == Some(s)
    ensures forall r :: r in rs && InWindow(r.createDate, now, window) ==>
              exists s :: s in out && s.errorLabel == r.errorLabel
    ensures KeysDistinct(out, (s: Summary) => s.errorLabel)
  {
    assert forall s :: s in out <==> s in rows by {
      assert forall s :: s in out <==> s in multiset(rows);
    }
    assert forall i :: 0 <= i < |rows| ==> rows[i].errorLabel == labels[i];
    PermutationKeepsKeysDistinct(rows, out, (s: Summary) => s.errorLabel);
    forall r | r in rs && InWindow(r.createDate, now, window)
      ensures exists s :: s in out && s.errorLabel == r.errorLabel
    {
      assert r in inWindow;
      assert r.errorLabel in labels;
      var k :| 0 <= k < |labels| && labels[k] == r.errorLabel;
      assert rows[k] in out;
    }
  }

  /** The whole report: one row per label present in the window, newest
      first. */
  function Trending(rs: seq<LogRecord>, now: Minute, window: int): (out: seq<Summary>)
    ensures NewestFirst(out)
    ensures forall s :: s in out ==> LabelSummary(rs, now, window, s.errorLabel) == Some(s)
    ensures forall r :: r in rs && InWindow(r.createDate, now, window) ==>
              exists s :: s in out && s.errorLabel == r.errorLabel
    ensures KeysDistinct(out, (s: Summary) => s.errorLabel)
  {
    var inWindow := Filter(rs, (r: LogRecord) => InWindow(r.createDate, now, window));
    var labels := DistinctLabels(inWindow);
    assert forall l :: l in labels ==> LabelWindow(rs, now, window, l) != [] by {
      forall l | l in labels ensures LabelWindow(rs, now, window, l) != [] {
        LabelSummaryPresent(rs, now, window, l);
      }
    }
    var rows := SummaryRows(rs, now, window, labels);
    var out := SortDescending(rows, (s: Summary) => s.last);
    TrendingRowsFacts(rs, now, window, inWindow, labels, rows, out);
    out
  }
}
