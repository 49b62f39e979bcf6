/** Dijkstra's queue ordering: `queue.sort((a, b) => distances[a] - distances[b])`,
    a stable sort by recorded distance. */
module DistQueue {
  import opened Collections
  import opened Steps

  /** The comparator says `a` goes strictly before `b`: both have a recorded
      distance and `a`'s is smaller. A missing entry is `undefined`, which
      makes the difference NaN, and `Infinity - Infinity` is NaN too; the
      sort treats NaN as a tie. */
  predicate Before<T>(dist: map<T, Dist>, a: T, b: T) {
    a in dist && b in dist && Less(dist[a], dist[b])
  }

  /** Inserts `x` into `s` behind every element it does not go strictly before. */
  function Insert<T>(dist: map<T, Dist>, x: T, s: seq<T>): (r: seq<T>)
    ensures multiset(r) == multiset(s) + multiset{x}
  {
    if s == [] || !Before(dist, x, s[|s| - 1]) then s + [x]
    else
      var r := Insert(dist, x, s[..|s| - 1]) + [s[|s| - 1]];
      assert s == s[..|s| - 1] + [s[|s| - 1]];
      r
  }

  /** The queue after the in-place sort. */
  function SortByDistance<T>(dist: map<T, Dist>, q: seq<T>): (r: seq<T>)
    ensures multiset(r) == multiset(q)
  {
    if q == [] then []
    else
      var r := Insert(dist, q[|q| - 1], SortByDistance(dist, q[..|q| - 1]));
      assert q == q[..|q| - 1] + [q[|q| - 1]];
      r
  }

  /** No element goes strictly before one placed ahead of it. */
  predicate Sorted<T>(dist: map<T, Dist>, s: seq<T>) {
    forall i, j :: 0 <= i < j < |s| ==> !Before(dist, s[j], s[i])
  }

  /** The elements of `s` whose recorded distance is `d`, in order. */
  function WithDistance<T>(dist: map<T, Dist>, s: seq<T>, d: Dist): seq<T> {
    if s == [] then []
    else WithDistance(dist, s[..|s| - 1], d) + (if s[|s| - 1] in dist && dist[s[|s| - 1]] == d then [s[|s| - 1]] else [])
  }

  lemma {:induction false} InsertSorted<T>(dist: map<T, Dist>, x: T, s: seq<T>)
    requires x in dist && (forall i :: 0 <= i < |s| ==> s[i] in dist) && Sorted(dist, s)
    ensures Sorted(dist, Insert(dist, x, s))
  {
    if s != [] && Before(dist, x, s[|s| - 1]) {
      var s', last := s[..|s| - 1], s[|s| - 1];
      InsertSorted(dist, x, s');
      var r' := Insert(dist, x, s');
      forall y | y in r' ensures !Before(dist, last, y) {
        assert y in multiset(r');
        if y != x {
          assert y in multiset(s');
          var i :| 0 <= i < |s'| && s'[i] == y;
          assert s[i] == y;
        }
      }
      var r := r' + [last];
      forall i, j | 0 <= i < j < |r| ensures !Before(dist, r[j], r[i]) {
        if j == |r| - 1 {
          assert r[i] in r';
        }
      }
    }
  }

  /** The sort orders the queue by distance when every element has one. */
  lemma {:induction false} SortSorted<T>(dist: map<T, Dist>, q: seq<T>)
    requires forall i :: 0 <= i < |q| ==> q[i] in dist
    ensures Sorted(dist, SortByDistance(dist, q))
  {
    if q != [] {
      var q' := q[..|q| - 1];
      SortSorted(dist, q');
      var r' := SortByDistance(dist, q');
      forall i | 0 <= i < |r'| ensures r'[i] in dist {
        assert r'[i] in multiset(q');
      }
      InsertSorted(dist, q[|q| - 1], r');
    }
  }

  lemma WithDistanceSnoc<T>(dist: map<T, Dist>, s: seq<T>, y: T, d: Dist)
    ensures WithDistance(dist, s + [y], d) == WithDistance(dist, s, d) + (if y in dist && dist[y] == d then [y] else [])
  {
    assert (s + [y])[..|s|] == s;
  }

  lemma {:induction false} InsertStable<T>(dist: map<T, Dist>, x: T, s: seq<T>, d: Dist)
    ensures WithDistance(dist, Insert(dist, x, s), d) ==
            WithDistance(dist, s, d) + (if x in dist && dist[x] == d then [x] else [])
  {
    if s == [] || !Before(dist, x, s[|s| - 1]) {
      WithDistanceSnoc(dist, s, x, d);
    } else {
      var s', last := s[..|s| - 1], s[|s| - 1];
      InsertStable(dist, x, s', d);
      WithDistanceSnoc(dist, Insert(dist, x, s'), last, d);
      WithDistanceSnoc(dist, s', last, d);
      assert s == s' + [last];
      var fx := if x in dist && dist[x] == d then [x] else [];
      var fl := if last in dist && dist[last] == d then [last] else [];
      var w' := WithDistance(dist, s', d);
      if fx == [] {
        assert w' + fx == w';
        assert (w' + fl) + fx == w' + fl;
      } else {
        assert fl == [];
        assert (w' + fx) + fl == w' + fx;
        assert w' + fl == w';
      }
    }
  }

  /** The sort is stable: the nodes at any one distance keep their queue order. */
  lemma {:induction false} SortStable<T>(dist: map<T, Dist>, q: seq<T>, d: Dist)
    ensures WithDistance(dist, SortByDistance(dist, q), d) == WithDistance(dist, q, d)
  {
    if q != [] {
      var q' := q[..|q| - 1];
      SortStable(dist, q', d);
      InsertStable(dist, q[|q| - 1], SortByDistance(dist, q'), d);
    }
  }

  /** The front of the sorted queue has the least distance in it. */
  lemma SortedFront<T>(dist: map<T, Dist>, q: seq<T>)
    requires q != [] && forall i :: 0 <= i < |q| ==> q[i] in dist
    ensures var r := SortByDistance(dist, q);
      |r| == |q| && r[0] in q && forall x :: x in q ==> AtMost(dist[r[0]], dist[x])
  {
    var r := SortByDistance(dist, q);
    SortSorted(dist, q);
    assert |r| == |multiset(r)| == |q|;
    assert r[0] in multiset(q);
    forall x | x in q ensures AtMost(dist[r[0]], dist[x]) {
      assert x in multiset(r);
      var j :| 0 <= j < |r| && r[j] == x;
      if j > 0 {
        assert !Before(dist, r[j], r[0]);
      }
    }
  }

  lemma {:induction false} InsertNoDup<T>(dist: map<T, Dist>, x: T, s: seq<T>)
    requires NoDup(s) && x !in s
    ensures NoDup(Insert(dist, x, s))
  {
    if s != [] && Before(dist, x, s[|s| - 1]) {
      var s', last := s[..|s| - 1], s[|s| - 1];
      InsertNoDup(dist, x, s');
      var r' := Insert(dist, x, s');
      assert last !in multiset(r') by {
        assert last !in s';
      }
      var r := r' + [last];
      forall i, j | 0 <= i < j < |r| ensures r[i] != r[j] {
        if j == |r| - 1 {
          assert r[i] in multiset(r');
        }
      }
    }
  }

  /** Sorting a queue without repetitions leaves none. */
  lemma {:induction false} SortNoDup<T>(dist: map<T, Dist>, q: seq<T>)
    requires NoDup(q)
    ensures NoDup(SortByDistance(dist, q))
  {
    if q != [] {
      var q' := q[..|q| - 1];
      SortNoDup(dist, q');
      assert q[|q| - 1] !in multiset(SortByDistance(dist, q'));
      InsertNoDup(dist, q[|q| - 1], SortByDistance(dist, q'));
    }
  }

  /** The sort keeps the queue's elements and length. */
  lemma SortMembers<T>(dist: map<T, Dist>, q: seq<T>)
    ensures |SortByDistance(dist, q)| == |q|
    ensures forall x :: x in SortByDistance(dist, q) <==> x in q
  {
    var r := SortByDistance(dist, q);
    assert |r| == |multiset(r)| == |q|;
    forall x ensures x in r <==> x in q {
      assert x in r <==> x in multiset(r);
      assert x in q <==> x in multiset(q);
    }
  }
}
