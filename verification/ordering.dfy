/** Sorting by a key, descending, as an `ORDER BY ... DESC` returns rows. */
module Ordering {

  /** The keys never increase along the sequence. */
  predicate Descending<T>(ss: seq<T>, key: T -> int)
  {
    forall i, j :: 0 <= i < j < |ss| ==> key(ss[i]) >= key(ss[j])
  }

  /** No two elements share a key. */
  predicate KeysDistinct<T, K(==)>(ss: seq<T>, key: T -> K)
  {
    forall i, j :: 0 <= i < j < |ss| ==> key(ss[i]) != key(ss[j])
  }

  lemma ConsDescending<T>(h: T, rest: seq<T>, key: T -> int)
    requires Descending(rest, key)
    requires forall x :: x in rest ==> key(x) <= key(h)
    ensures Descending([h] + rest, key)
  {
    var out := [h] + rest;
    forall i, j | 0 <= i < j < |out| ensures key(out[i]) >= key(out[j]) {
      assert out[j] == rest[j - 1];
      if i > 0 {
        assert out[i] == rest[i - 1];
      } else {
        assert out[j] in rest;
      }
    }
  }

  function InsertDescending<T>(s: T, ss: seq<T>, key: T -> int): (out: seq<T>)
    requires Descending(ss, key)
    ensures Descending(out, key)
    ensures multiset(out) == multiset(ss) + multiset{s}
  {
    if ss == [] then [s]
    else if key(s) >= key(ss[0]) then
      assert forall x :: x in ss ==> key(x) <= key(ss[0]) by {
        forall x | x in ss ensures key(x) <= key(ss[0]) {
          var k :| 0 <= k < |ss| && ss[k] == x;
          assert k == 0 || key(ss[0]) >= key(ss[k]);
        }
      }
      ConsDescending(s, ss, key);
      [s] + ss
    else
      var tail := ss[1..];
      assert ss == [ss[0]] + tail;
      var rest := InsertDescending(s, tail, key);
      assert forall x :: x in rest ==> key(x) <= key(ss[0]) by {
        forall x | x in rest ensures key(x) <= key(ss[0]) {
          assert x in multiset(rest);
          if x != s {
            assert x in multiset(tail);
            var k :| 0 <= k < |tail| && tail[k] == x;
            assert ss[k + 1] == x;
          }
        }
      }
      ConsDescending(ss[0], rest, key);
      [ss[0]] + rest
  }

  /** An insertion sort: a permutation of the input whose keys descend.
      Which of several equal-key elements comes first is not promised. */
  function SortDescending<T>(ss: seq<T>, key: T -> int): (out: seq<T>)
    ensures Descending(out, key)
    ensures multiset(out) == multiset(ss)
  {
    if ss == [] then []
    else
      assert ss == [ss[0]] + ss[1..];
      InsertDescending(ss[0], SortDescending(ss[1..], key), key)
  }

  /** An element occurring at two positions occurs at least twice. */
  lemma TwoPositionsTwoCopies<T>(b: seq<T>, i: int, j: int)
    requires 0 <= i < j < |b|
    ensures multiset(b)[b[i]] >= (if b[i] == b[j] then 2 else 1)
  {
    assert b == b[..i] + [b[i]] + b[i + 1..j] + [b[j]] + b[j + 1..];
  }

  /** In a sequence with distinct keys each element occurs once. */
  lemma {:induction false} DistinctKeysSingleCopies<T, K>(a: seq<T>, key: T -> K, x: T)
    requires KeysDistinct(a, key)
    ensures multiset(a)[x] <= 1
  {
    if a != [] {
      var p := a[..|a| - 1];
      assert a == p + [a[|a| - 1]];
      assert KeysDistinct(p, key) by {
        forall i, j | 0 <= i < j < |p| ensures key(p[i]) != key(p[j]) {
          assert p[i] == a[i] && p[j] == a[j];
        }
      }
      DistinctKeysSingleCopies(p, key, x);
      if x == a[|a| - 1] {
        forall k | 0 <= k < |p| ensures p[k] != x {
          assert key(a[k]) != key(a[|a| - 1]);
        }
        assert x !in p;
      }
    }
  }

  /** Reordering keeps keys distinct. */
  lemma PermutationKeepsKeysDistinct<T, K>(a: seq<T>, b: seq<T>, key: T -> K)
    requires multiset(a) == multiset(b)
    requires KeysDistinct(a, key)
    ensures KeysDistinct(b, key)
  {
    forall i, j | 0 <= i < j < |b| ensures key(b[i]) != key(b[j]) {
      assert b[i] in multiset(a) && b[j] in multiset(a);
      var p :| 0 <= p < |a| && a[p] == b[i];
      var q :| 0 <= q < |a| && a[q] == b[j];
      TwoPositionsTwoCopies(b, i, j);
      DistinctKeysSingleCopies(a, key, b[i]);
      assert b[i] != b[j];
      assert p != q;
    }
  }
}
