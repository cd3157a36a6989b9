/**
 * Stable descending sort, the ordering behind Python's `list.sort(key=k,
 * reverse=True)` and `Counter.most_common(n)` (whose `heapq.nlargest` is
 * documented as `sorted(..., key=k, reverse=True)[:n]`): elements are ordered by
 * key, largest first, and elements with equal keys keep their input order.
 */
module Ranking {

  /** Insert `x` before the first element of `s` whose key is not larger than its own. */
  function Insert<T>(x: T, s: seq<T>, key: T -> real): (r: seq<T>)
    ensures |r| == |s| + 1
    ensures multiset(r) == multiset(s) + multiset{x}
  {
    if s == [] then [x]
    else if key(s[0]) <= key(x) then [x] + s
    else
      assert s == [s[0]] + s[1..];
      [s[0]] + Insert(x, s[1..], key)
  }

  /** Insertion sort, largest key first; a permutation of its input. */
  function SortDesc<T>(s: seq<T>, key: T -> real): (r: seq<T>)
    ensures |r| == |s|
    ensures multiset(r) == multiset(s)
  {
    if s == [] then []
    else
      assert s == [s[0]] + s[1..];
      Insert(s[0], SortDesc(s[1..], key), key)
  }

  /** `a` comes before `b`: a larger key, or an equal key and a smaller tie-breaker. */
  ghost predicate Precedes<T>(a: T, b: T, key: T -> real, tie: T -> int) {
    key(a) > key(b) || (key(a) == key(b) && tie(a) < tie(b))
  }

  /** Every element comes before every later element. */
  ghost predicate RankedBy<T>(s: seq<T>, key: T -> real, tie: T -> int) {
    forall i, j :: 0 <= i < j < |s| ==> Precedes(s[i], s[j], key, tie)
  }

  /** The tie-breaker grows strictly along `s` (input order, such as scan order by id). */
  ghost predicate TieIncreasing<T>(s: seq<T>, tie: T -> int) {
    forall i, j :: 0 <= i < j < |s| ==> tie(s[i]) < tie(s[j])
  }

  lemma {:induction false} InsertRanked<T>(x: T, s: seq<T>, key: T -> real, tie: T -> int)
    requires RankedBy(s, key, tie)
    requires forall k :: 0 <= k < |s| ==> tie(x) < tie(s[k])
    ensures RankedBy(Insert(x, s, key), key, tie)
  {
    if s == [] {
    } else if key(s[0]) <= key(x) {
      var r := [x] + s;
      forall i, j | 0 <= i < j < |r| ensures Precedes(r[i], r[j], key, tie) {
        if i == 0 {
          if j > 1 {
            assert Precedes(s[0], s[j - 1], key, tie);
          }
        } else {
          assert Precedes(s[i - 1], s[j - 1], key, tie);
        }
      }
    } else {
      var t := s[1..];
      assert RankedBy(t, key, tie) by {
        forall i, j | 0 <= i < j < |t| ensures Precedes(t[i], t[j], key, tie) {
          assert Precedes(s[i + 1], s[j + 1], key, tie);
        }
      }
      InsertRanked(x, t, key, tie);
      var u := Insert(x, t, key);
      var r := [s[0]] + u;
      forall i, j | 0 <= i < j < |r| ensures Precedes(r[i], r[j], key, tie) {
        if i == 0 {
          var e := r[j];
          assert e in multiset(u);
          assert e in multiset(t) + multiset{x};
          if e != x {
            assert e in t;
            var k :| 0 <= k < |t| && t[k] == e;
            assert Precedes(s[0], s[k + 1], key, tie);
          }
        }
      }
    }
  }

  /** Sorting a sequence whose tie-breaker grows along it ranks it completely:
      by key, largest first, and equal keys in input order (stability). */
  lemma {:induction false} SortDescRanked<T>(s: seq<T>, key: T -> real, tie: T -> int)
    requires TieIncreasing(s, tie)
    ensures RankedBy(SortDesc(s, key), key, tie)
  {
    if s != [] {
      var t := s[1..];
      assert TieIncreasing(t, tie) by {
        forall i, j | 0 <= i < j < |t| ensures tie(t[i]) < tie(t[j]) {
          assert tie(s[i + 1]) < tie(s[j + 1]);
        }
      }
      SortDescRanked(t, key, tie);
      var u := SortDesc(t, key);
      forall k | 0 <= k < |u| ensures tie(s[0]) < tie(u[k]) {
        assert u[k] in multiset(t);
        var m :| 0 <= m < |t| && t[m] == u[k];
        assert tie(s[0]) < tie(s[m + 1]);
      }
      InsertRanked(s[0], u, key, tie);
    }
  }

  /** A ranking is unique: two orderings of the same elements that are both ranked
      are equal, so a stable sort result does not depend on how it is computed. */
  lemma {:induction false} RankedUnique<T>(a: seq<T>, b: seq<T>, key: T -> real, tie: T -> int)
    requires multiset(a) == multiset(b)
    requires RankedBy(a, key, tie) && RankedBy(b, key, tie)
    ensures a == b
  {
    assert |a| == |multiset(a)| == |b|;
    if a != [] {
      assert b[0] in multiset(a);
      assert a[0] in multiset(b);
      // Each head precedes the other's head, unless they are the same element.
      assert a[0] == b[0];
      assert a == [a[0]] + a[1..];
      assert b == [b[0]] + b[1..];
      assert multiset(a[1..]) == multiset(a) - multiset{a[0]};
      assert multiset(b[1..]) == multiset(b) - multiset{b[0]};
      RankedTail(a, key, tie);
      RankedTail(b, key, tie);
      RankedUnique(a[1..], b[1..], key, tie);
    }
  }

  lemma RankedTail<T>(s: seq<T>, key: T -> real, tie: T -> int)
    requires s != [] && RankedBy(s, key, tie)
    ensures RankedBy(s[1..], key, tie)
  {
    var t := s[1..];
    forall i, j | 0 <= i < j < |t| ensures Precedes(t[i], t[j], key, tie) {
      assert Precedes(s[i + 1], s[j + 1], key, tie);
    }
  }
}
