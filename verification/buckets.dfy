/** Thirty-minute time buckets: PostgreSQL's `date_bin('30 minutes', t,
    TIMESTAMP '2001-01-01')` and `generate_series(start, stop, '30 minutes')`
    as `group_chart` (main.py:213-228) uses them. */
module Buckets {
  import opened Logs

  const BinWidth: int := 30

  /** A bucket boundary: a whole number of buckets away from the origin. */
  predicate Aligned(t: Minute)
  {
    (t - Origin) % BinWidth == 0
  }

  /** `date_bin`: the start of the bucket holding `t`, counted from the
      origin and rounded down. */
  function Bin(t: Minute): (b: Minute)
    ensures Aligned(b)
    ensures b <= t < b + BinWidth
  {
    t - (t - Origin) % BinWidth
  }

  /** The bucket start is the only boundary within one width below `t`. */
  lemma {:induction false} BinUnique(t: Minute, b: Minute)
    requires Aligned(b) && b <= t < b + BinWidth
    ensures Bin(t) == b
  {
    var c := Bin(t);
    var k := (b - Origin) / BinWidth;
    var m := (c - Origin) / BinWidth;
    assert b == Origin + BinWidth * k;
    assert c == Origin + BinWidth * m;
    assert -BinWidth < BinWidth * (k - m) < BinWidth;
  }

  /** Stepping back a whole number of buckets from a boundary lands on a
      boundary. */
  lemma {:induction false} AlignedStepBack(t: Minute, w: int)
    requires Aligned(t) && w % BinWidth == 0
    ensures Aligned(t - w)
  {
    var m := (t - Origin) / BinWidth;
    var k := w / BinWidth;
    assert t - Origin == BinWidth * m;
    assert w == BinWidth * k;
    assert t - w - Origin == BinWidth * (m - k);
  }

  /** A boundary is its own bucket, so binning twice bins once. */
  lemma BinIdempotent(t: Minute)
    ensures Bin(Bin(t)) == Bin(t)
  {
    BinUnique(Bin(t), Bin(t));
  }

  /** Every boundary at or below `t` is at or below `t`'s bucket. */
  lemma {:induction false} BinIsGreatestBoundary(t: Minute, b: Minute)
    requires Aligned(b) && b <= t
    ensures b <= Bin(t)
  {
    var k := (b - Origin) / BinWidth;
    var m := (Bin(t) - Origin) / BinWidth;
    assert b == Origin + BinWidth * k;
    assert Bin(t) == Origin + BinWidth * m;
    assert BinWidth * k < BinWidth * (m + 1);
  }

  /** Binning never reverses the order of two instants. */
  lemma BinMonotone(s: Minute, t: Minute)
    requires s <= t
    ensures Bin(s) <= Bin(t)
  {
    BinIsGreatestBoundary(t, Bin(s));
  }

  /** `generate_series(start, stop, '30 minutes')`: every `start + 30 k`
      that does not pass `stop`; empty when `start` is already past it. */
  function Series(start: Minute, stop: Minute): (xs: seq<Minute>)
    ensures |xs| == if start > stop then 0 else (stop - start) / BinWidth + 1
    ensures forall i :: 0 <= i < |xs| ==> xs[i] == start + BinWidth * i
    decreases stop - start
  {
    if start > stop then [] else [start] + Series(start + BinWidth, stop)
  }

  /** A series that starts off a boundary never meets one: every element
      is a whole number of steps from the start. */
  lemma UnalignedSeriesMissesBoundaries(start: Minute, stop: Minute, b: Minute)
    requires !Aligned(start) && Aligned(b)
    ensures b !in Series(start, stop)
  {
  }

  /** The series starts at `start`, never passes `stop`, and climbs in
      strictly ascending steps of one width. */
  lemma SeriesShape(start: Minute, stop: Minute)
    ensures var xs := Series(start, stop);
      && (start <= stop ==> xs[0] == start)
      && (forall i :: 0 <= i < |xs| ==> start <= xs[i] <= stop)
      && (forall i :: 0 < i < |xs| ==> xs[i] == xs[i - 1] + BinWidth)
      && (forall i, j :: 0 <= i < j < |xs| ==> xs[i] < xs[j])
  {
    var xs := Series(start, stop);
    forall i | 0 <= i < |xs| ensures xs[i] <= stop {
      assert BinWidth * i <= BinWidth * ((stop - start) / BinWidth);
    }
  }

  /** A window of a whole number of hours has two buckets per hour plus the
      one at `now`. */
  lemma SeriesWholeHours(now: Minute, hours: nat)
    ensures |Series(now - 60 * hours, now)| == 2 * hours + 1
  {
  }

  /** A window of any length `w >= 0` minutes has `floor(w / 30) + 1`
      buckets, the last of which is `now` when `w` is a whole number of
      buckets. */
  lemma SeriesLastBucket(now: Minute, w: int)
    requires 0 <= w
    ensures |Series(now - w, now)| == w / BinWidth + 1
    ensures w % BinWidth == 0 ==> Series(now - w, now)[w / BinWidth] == now
  {
  }

  /** Every boundary between two aligned ends is a bucket of the series. */
  lemma SeriesHoldsAlignedInstants(start: Minute, stop: Minute, b: Minute)
    requires Aligned(start) && Aligned(b) && start <= b <= stop
    ensures b in Series(start, stop)
  {
    var xs := Series(start, stop);
    var k := (b - start) / BinWidth;
    assert b - start == BinWidth * k by {
      var p := (b - Origin) / BinWidth;
      var q := (start - Origin) / BinWidth;
      assert b - start == BinWidth * (p - q);
    }
    assert k <= (stop - start) / BinWidth;
    assert xs[k] == b;
  }

  /** The series starts and ends on boundaries: only aligned values occur
      in it when it starts aligned. */
  lemma SeriesAligned(start: Minute, stop: Minute)
    requires Aligned(start)
    ensures forall x :: x in Series(start, stop) ==> Aligned(x)
  {
  }
}
