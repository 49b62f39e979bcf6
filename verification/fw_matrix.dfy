/** The square distance matrix of the Floyd-Warshall algorithm, its
    relaxation rounds, and what the rounds compute: entry (i, j) after round
    k is the cost of a cheapest walk from i to j whose inner nodes all come
    before k. */
module FwMatrix {
  import opened Steps

  /** `number[][]` holding distances. */
  type Matrix = seq<seq<Dist>>

  predicate Square(m: Matrix) {
    forall i :: 0 <= i < |m| ==> |m[i]| == |m|
  }

  /** `+` on two distances: `Infinity` absorbs everything. */
  function Plus(a: Dist, b: Dist): (r: Dist)
    ensures r.Fin? <==> a.Fin? && b.Fin?
    ensures r.Fin? ==> r.value == a.value + b.value
  {
    if a.Fin? && b.Fin? then Fin(a.value + b.value) else Inf
  }

  /** `dist[i][j] = d`. */
  function Set(m: Matrix, i: nat, j: nat, d: Dist): (r: Matrix)
    requires Square(m) && i < |m| && j < |m|
    ensures Square(r) && |r| == |m| && r[i][j] == d
    ensures forall a, b :: 0 <= a < |m| && 0 <= b < |m| && (a != i || b != j) ==> r[a][b] == m[a][b]
  {
    m[i := m[i][j := d]]
  }

  /** Round k lowers entry (i, j): the pair is neither on the diagonal nor in
      row or column k, and going through k is strictly cheaper. */
  predicate Improves(m: Matrix, k: nat, i: nat, j: nat)
    requires Square(m) && k < |m| && i < |m| && j < |m|
  {
    i != j && i != k && j != k && Less(Plus(m[i][k], m[k][j]), m[i][j])
  }

  /** Entry (i, j) once round k has visited it. */
  function Relaxed(m: Matrix, k: nat, i: nat, j: nat): (d: Dist)
    requires Square(m) && k < |m| && i < |m| && j < |m|
    ensures AtMost(d, m[i][j])
    ensures i == j || i == k || j == k ==> d == m[i][j]
  {
    if Improves(m, k, i, j) then Plus(m[i][k], m[k][j]) else m[i][j]
  }

  /** The matrix part-way through round k: the pairs before (i, j) in row-major
      order are relaxed, the others not yet. Row k and column k never change in
      round k, so every pair sees the same entries through k. */
  function Partial(m: Matrix, k: nat, i: nat, j: nat): (r: Matrix)
    requires Square(m) && k < |m| && i <= |m| && j <= |m|
    ensures Square(r) && |r| == |m|
    ensures forall a, b :: 0 <= a < |m| && 0 <= b < |m| ==>
      r[a][b] == if a < i || (a == i && b < j) then Relaxed(m, k, a, b) else m[a][b]
    decreases i, j
  {
    if j > 0 && i < |m| then Set(Partial(m, k, i, j - 1), i, j - 1, Relaxed(m, k, i, j - 1))
    else if i > 0 then Partial(m, k, i - 1, |m|)
    else m
  }

  /** The matrix after round k. */
  function Round(m: Matrix, k: nat): (r: Matrix)
    requires Square(m) && k < |m|
    ensures Square(r) && |r| == |m|
  {
    Partial(m, k, |m|, 0)
  }

  /** The matrix after rounds 0 to k - 1. */
  function Rounds(m: Matrix, k: nat): (r: Matrix)
    requires Square(m) && k <= |m|
    ensures Square(r) && |r| == |m|
  {
    if k == 0 then m else Round(Rounds(m, k - 1), k - 1)
  }

  // Stepping through a round.

  lemma PartialStart(m: Matrix, k: nat)
    requires Square(m) && k < |m|
    ensures Partial(m, k, 0, 0) == m
  {
    var p := Partial(m, k, 0, 0);
    assert forall a :: 0 <= a < |m| ==> p[a] == m[a];
  }

  /** Visiting (i, j) sets that entry to its relaxed value. */
  lemma PartialNext(m: Matrix, k: nat, i: nat, j: nat)
    requires Square(m) && k < |m| && i < |m| && j < |m|
    ensures Partial(m, k, i, j + 1) == Set(Partial(m, k, i, j), i, j, Relaxed(m, k, i, j))
  {
    var p, q := Partial(m, k, i, j + 1), Set(Partial(m, k, i, j), i, j, Relaxed(m, k, i, j));
    assert forall a :: 0 <= a < |m| ==> p[a] == q[a];
  }

  /** The end of one row is the start of the next. */
  lemma PartialRow(m: Matrix, k: nat, i: nat)
    requires Square(m) && k < |m| && i < |m|
    ensures Partial(m, k, i, |m|) == Partial(m, k, i + 1, 0)
  {
    var p, q := Partial(m, k, i, |m|), Partial(m, k, i + 1, 0);
    assert forall a :: 0 <= a < |m| ==> p[a] == q[a];
  }

  // Entries never increase.

  /** `b` is entrywise no greater than `a`. */
  ghost predicate Below(b: Matrix, a: Matrix)
    requires Square(a) && Square(b) && |a| == |b|
  {
    forall i, j :: 0 <= i < |a| && 0 <= j < |a| ==> AtMost(b[i][j], a[i][j])
  }

  /** No round raises an entry: later rounds only lower it further. */
  lemma {:induction false} RoundsLower(m: Matrix, k: nat, k': nat, i: nat, j: nat)
    requires Square(m) && k <= k' <= |m| && i < |m| && j < |m|
    ensures AtMost(Rounds(m, k')[i][j], Rounds(m, k)[i][j])
    decreases k' - k
  {
    if k == k' {
      AtMostRefl(Rounds(m, k)[i][j]);
    } else {
      RoundsLower(m, k, k' - 1, i, j);
      var r := Rounds(m, k' - 1);
      RoundEntry(r, k' - 1, i, j);
      AtMostTrans(Rounds(m, k')[i][j], r[i][j], Rounds(m, k)[i][j]);
    }
  }

  /** No round raises an entry above its starting value. */
  lemma RoundsAtMostStart(m: Matrix, k: nat, i: nat, j: nat)
    requires Square(m) && k <= |m| && i < |m| && j < |m|
    ensures AtMost(Rounds(m, k)[i][j], m[i][j])
  {
    RoundsLower(m, 0, k, i, j);
  }

  lemma RoundsBelow(m: Matrix, k: nat, k': nat)
    requires Square(m) && k <= k' <= |m|
    ensures Below(Rounds(m, k'), Rounds(m, k))
  {
    forall i, j | 0 <= i < |m| && 0 <= j < |m| ensures AtMost(Rounds(m, k')[i][j], Rounds(m, k)[i][j]) {
      RoundsLower(m, k, k', i, j);
    }
  }

  /** The diagonal and the rows and columns of earlier rounds' pivots
      aside, round k leaves row k and column k alone. */
  lemma RoundPivot(m: Matrix, k: nat)
    requires Square(m) && k < |m|
    ensures forall a :: 0 <= a < |m| ==> Round(m, k)[a][k] == m[a][k] && Round(m, k)[k][a] == m[k][a]
  {
  }

  /** The diagonal never changes. */
  lemma {:induction false} RoundsDiagonal(m: Matrix, k: nat, i: nat)
    requires Square(m) && k <= |m| && i < |m|
    ensures Rounds(m, k)[i][i] == m[i][i]
  {
    if k > 0 {
      RoundsDiagonal(m, k - 1, i);
    }
  }

  // Symmetry.

  predicate Symmetric(m: Matrix)
    requires Square(m)
  {
    forall i, j :: 0 <= i < |m| && 0 <= j < |m| ==> m[i][j] == m[j][i]
  }

  /** A symmetric matrix (an undirected graph's) stays symmetric. */
  lemma RoundsSymmetric(m: Matrix, k: nat)
    requires Square(m) && Symmetric(m) && k <= |m|
    ensures Symmetric(Rounds(m, k))
  {
    forall i, j | 0 <= i < |m| && 0 <= j < |m| ensures Rounds(m, k)[i][j] == Rounds(m, k)[j][i] {
      RoundsMirror(m, k, i, j);
    }
  }

  lemma {:induction false} RoundsMirror(m: Matrix, k: nat, i: nat, j: nat)
    requires Square(m) && Symmetric(m) && k <= |m| && i < |m| && j < |m|
    ensures Rounds(m, k)[i][j] == Rounds(m, k)[j][i]
  {
    if k > 0 {
      var x := k - 1;
      var p := Rounds(m, x);
      RoundsMirror(m, x, i, j);
      RoundsMirror(m, x, i, x);
      RoundsMirror(m, x, x, j);
      RoundEntry(p, x, i, j);
      RoundEntry(p, x, j, i);
      assert Plus(p[i][x], p[x][j]) == Plus(p[j][x], p[x][i]);
    }
  }

  // Walks.

  /** Every node of `w` is an index of `m` and every hop of `w` moves to
      another node along a finite entry. */
  predicate Hops(m: Matrix, w: seq<nat>)
    requires Square(m)
  {
    && (forall t :: 0 <= t < |w| ==> w[t] < |m|)
    && (forall t :: 0 <= t < |w| - 1 ==> HopOk(m, w, t))
  }

  /** Hop t of `w` moves to another node along a finite entry. */
  predicate HopOk(m: Matrix, w: seq<nat>, t: nat)
    requires Square(m) && t + 1 < |w| && w[t] < |m| && w[t + 1] < |m|
  {
    w[t] != w[t + 1] && m[w[t]][w[t + 1]].Fin?
  }

  /** The sum of the entries along `w`. */
  function WalkCost(m: Matrix, w: seq<nat>): real
    requires Square(m) && Hops(m, w)
  {
    if |w| < 2 then 0.0
    else
      assert HopOk(m, w, |w| - 2);
      HopsPrefix(m, w, |w| - 1);
      WalkCost(m, w[..|w| - 1]) + m[w[|w| - 2]][w[|w| - 1]].value
  }

  /** `w` is a walk from `i` to `j` of at least one hop whose inner nodes all
      come before `k`. */
  predicate IsWalk(m: Matrix, w: seq<nat>, i: nat, j: nat, k: nat)
    requires Square(m)
  {
    && 2 <= |w| && w[0] == i && w[|w| - 1] == j && Hops(m, w)
    && (forall t :: 0 < t < |w| - 1 ==> w[t] < k)
  }

  /** Every entry is a cost no smaller than zero, or `Infinity`. */
  predicate NonNegative(m: Matrix)
    requires Square(m)
  {
    forall i, j :: 0 <= i < |m| && 0 <= j < |m| && m[i][j].Fin? ==> m[i][j].value >= 0.0
  }

  lemma HopsPrefix(m: Matrix, w: seq<nat>, p: nat)
    requires Square(m) && Hops(m, w) && p <= |w|
    ensures Hops(m, w[..p])
  {
    forall t | 0 <= t < p - 1 ensures HopOk(m, w[..p], t) {
      assert HopOk(m, w, t);
    }
  }

  lemma HopsSuffix(m: Matrix, w: seq<nat>, p: nat)
    requires Square(m) && Hops(m, w) && p <= |w|
    ensures Hops(m, w[p..])
  {
    forall t | 0 <= t < |w| - p - 1 ensures HopOk(m, w[p..], t) {
      assert HopOk(m, w, p + t);
    }
  }

  /** The cost of a walk splits at any of its nodes. */
  lemma {:induction false} CostSplit(m: Matrix, w: seq<nat>, p: nat)
    requires Square(m) && Hops(m, w) && p < |w|
    ensures Hops(m, w[..p + 1]) && Hops(m, w[p..])
    ensures WalkCost(m, w) == WalkCost(m, w[..p + 1]) + WalkCost(m, w[p..])
    decreases |w|
  {
    HopsPrefix(m, w, p + 1);
    HopsSuffix(m, w, p);
    if p == |w| - 1 {
      assert w[..p + 1] == w;
      assert |w[p..]| == 1;
    } else {
      var v := w[..|w| - 1];
      HopsPrefix(m, w, |w| - 1);
      CostSplit(m, v, p);
      assert v[..p + 1] == w[..p + 1];
      var s := w[p..];
      assert s[..|s| - 1] == v[p..];
      assert s[|s| - 2] == w[|w| - 2] && s[|s| - 1] == w[|w| - 1];
    }
  }

  /** Two walks that meet at a node before `k` join into one. */
  lemma Join(m: Matrix, w1: seq<nat>, w2: seq<nat>, i: nat, x: nat, j: nat, k: nat)
    requires Square(m) && IsWalk(m, w1, i, x, k) && IsWalk(m, w2, x, j, k) && x < k
    ensures IsWalk(m, w1 + w2[1..], i, j, k)
    ensures WalkCost(m, w1 + w2[1..]) == WalkCost(m, w1) + WalkCost(m, w2)
  {
    var w := w1 + w2[1..];
    var p := |w1| - 1;
    JoinHops(m, w1, w2);
    JoinInner(m, w1, w2, i, x, j, k);
    CostSplit(m, w, p);
    assert w[..p + 1] == w1;
    assert w[p..] == w2;
  }

  lemma JoinHops(m: Matrix, w1: seq<nat>, w2: seq<nat>)
    requires Square(m) && Hops(m, w1) && Hops(m, w2) && w1 != [] && w2 != [] && w1[|w1| - 1] == w2[0]
    ensures Hops(m, w1 + w2[1..])
  {
    var w := w1 + w2[1..];
    var p := |w1| - 1;
    forall t | 0 <= t < |w| ensures w[t] < |m| {
      if t >= |w1| {
        assert w[t] == w2[t - p];
      }
    }
    forall t | 0 <= t < |w| - 1 ensures HopOk(m, w, t) {
      if t >= p {
        assert HopOk(m, w2, t - p);
        assert w[t] == w2[t - p] && w[t + 1] == w2[t - p + 1];
      } else {
        assert HopOk(m, w1, t);
      }
    }
  }

  lemma JoinInner(m: Matrix, w1: seq<nat>, w2: seq<nat>, i: nat, x: nat, j: nat, k: nat)
    requires Square(m) && IsWalk(m, w1, i, x, k) && IsWalk(m, w2, x, j, k) && x < k
    ensures var w := w1 + w2[1..]; forall t :: 0 < t < |w| - 1 ==> w[t] < k
  {
    var w := w1 + w2[1..];
    var p := |w1| - 1;
    forall t | 0 < t < |w| - 1 ensures w[t] < k {
      if t > p {
        assert w[t] == w2[t - p];
      }
    }
  }

  lemma {:induction false} CostNonNegative(m: Matrix, w: seq<nat>)
    requires Square(m) && NonNegative(m) && Hops(m, w)
    ensures WalkCost(m, w) >= 0.0
  {
    if |w| >= 2 {
      assert HopOk(m, w, |w| - 2);
      HopsPrefix(m, w, |w| - 1);
      CostNonNegative(m, w[..|w| - 1]);
    }
  }

  /** The first position of `x` in `w`. */
  function FirstAt(w: seq<nat>, x: nat): (p: nat)
    requires x in w
    ensures p < |w| && w[p] == x && forall t :: 0 <= t < p ==> w[t] != x
  {
    if w[0] == x then 0 else 1 + FirstAt(w[1..], x)
  }

  /** The last position of `x` in `w`. */
  function LastAt(w: seq<nat>, x: nat): (p: nat)
    requires x in w
    ensures p < |w| && w[p] == x && forall t :: p < t < |w| ==> w[t] != x
  {
    if w[|w| - 1] == x then |w| - 1 else LastAt(w[..|w| - 1], x)
  }

  // What the rounds compute.

  /** Every finite entry off the diagonal after k rounds is the cost of a walk
      whose inner nodes come before k. */
  lemma {:induction false} RoundsWitness(m: Matrix, k: nat, i: nat, j: nat) returns (w: seq<nat>)
    requires Square(m) && k <= |m| && i < |m| && j < |m| && i != j && Rounds(m, k)[i][j].Fin?
    ensures IsWalk(m, w, i, j, k) && WalkCost(m, w) == Rounds(m, k)[i][j].value
  {
    if k == 0 {
      w := Direct(m, i, j);
    } else {
      var x := k - 1;
      var p := Rounds(m, x);
      RoundEntry(p, x, i, j);
      if Improves(p, x, i, j) {
        var w1 := RoundsWitness(m, x, i, x);
        var w2 := RoundsWitness(m, x, x, j);
        w := JoinThrough(m, w1, w2, i, x, j);
      } else {
        w := RoundsWitness(m, x, i, j);
        Widen(m, w, i, j, x, k);
      }
    }
  }

  /** A finite entry off the diagonal is a walk of one hop. */
  lemma Direct(m: Matrix, i: nat, j: nat) returns (w: seq<nat>)
    requires Square(m) && i < |m| && j < |m| && i != j && m[i][j].Fin?
    ensures IsWalk(m, w, i, j, 0) && WalkCost(m, w) == m[i][j].value
  {
    w := [i, j];
    assert HopOk(m, w, 0);
    assert w[..1] == [i];
  }

  lemma RoundEntry(p: Matrix, x: nat, i: nat, j: nat)
    requires Square(p) && x < |p| && i < |p| && j < |p|
    ensures Round(p, x)[i][j] == Relaxed(p, x, i, j)
  {
  }

  /** Walks to and from `x` with inner nodes before `x` join into a walk with
      inner nodes before x + 1. */
  lemma JoinThrough(m: Matrix, w1: seq<nat>, w2: seq<nat>, i: nat, x: nat, j: nat) returns (w: seq<nat>)
    requires Square(m) && IsWalk(m, w1, i, x, x) && IsWalk(m, w2, x, j, x)
    ensures IsWalk(m, w, i, j, x + 1) && WalkCost(m, w) == WalkCost(m, w1) + WalkCost(m, w2)
  {
    Widen(m, w1, i, x, x, x + 1);
    Widen(m, w2, x, j, x, x + 1);
    Join(m, w1, w2, i, x, j, x + 1);
    w := w1 + w2[1..];
  }

  lemma Widen(m: Matrix, w: seq<nat>, i: nat, j: nat, k: nat, k': nat)
    requires Square(m) && IsWalk(m, w, i, j, k) && k <= k'
    ensures IsWalk(m, w, i, j, k')
  {
  }

  /** With no negative entry, no walk whose inner nodes come before k is
      cheaper than entry (i, j) after k rounds. */
  lemma {:induction false} RoundsLeast(m: Matrix, k: nat, i: nat, j: nat, w: seq<nat>)
    requires Square(m) && NonNegative(m) && k <= |m| && i != j && IsWalk(m, w, i, j, k)
    ensures AtMost(Rounds(m, k)[i][j], Fin(WalkCost(m, w)))
  {
    if k == 0 {
      DirectLeast(m, w, i, j);
    } else {
      var x := k - 1;
      var p := Rounds(m, x);
      var c := WalkCost(m, w);
      RoundEntry(p, x, i, j);
      if x !in w[1..|w| - 1] {
        Narrow(m, w, i, j, x);
        RoundsLeast(m, x, i, j, w);
        AtMostTrans(Rounds(m, k)[i][j], p[i][j], Fin(c));
      } else if i == x {
        var l := LastInner(w, x);
        var s := SuffixWalk(m, w, i, j, x, l);
        RoundsLeast(m, x, x, j, s);
        AtMostTrans(p[x][j], Fin(WalkCost(m, s)), Fin(c));
      } else if j == x {
        var f := FirstInner(w, x);
        var q := PrefixWalk(m, w, i, j, x, f);
        RoundsLeast(m, x, i, x, q);
        AtMostTrans(p[i][x], Fin(WalkCost(m, q)), Fin(c));
      } else {
        var f := FirstInner(w, x);
        var l := LastInner(w, x);
        var q, s := Bridge(m, w, i, j, x, f, l);
        RoundsLeast(m, x, i, x, q);
        RoundsLeast(m, x, x, j, s);
        PlusAtMost(p[i][x], p[x][j], WalkCost(m, q), WalkCost(m, s));
        AtMostTrans(Plus(p[i][x], p[x][j]), Fin(WalkCost(m, q) + WalkCost(m, s)), Fin(c));
        AtMostTrans(Relaxed(p, x, i, j), Plus(p[i][x], p[x][j]), Fin(c));
      }
    }
  }

  /** The first inner position of `x` in a walk that does not start at `x`. */
  lemma FirstInner(w: seq<nat>, x: nat) returns (f: nat)
    requires 2 <= |w| && x in w[1..|w| - 1] && w[0] != x
    ensures 0 < f < |w| - 1 && w[f] == x && forall t :: 0 <= t < f ==> w[t] != x
  {
    var v := w[1..|w| - 1];
    f := 1 + FirstAt(v, x);
    forall t | 0 < t < f ensures w[t] != x {
      assert w[t] == v[t - 1];
    }
  }

  /** The last inner position of `x` in a walk that does not end at `x`. */
  lemma LastInner(w: seq<nat>, x: nat) returns (l: nat)
    requires 2 <= |w| && x in w[1..|w| - 1] && w[|w| - 1] != x
    ensures 0 < l < |w| - 1 && w[l] == x && forall t :: l < t < |w| ==> w[t] != x
  {
    var v := w[1..|w| - 1];
    l := 1 + LastAt(v, x);
    forall t | l < t < |w| - 1 ensures w[t] != x {
      assert w[t] == v[t - 1];
    }
  }

  /** A walk with no inner node is one hop along a finite entry. */
  lemma DirectLeast(m: Matrix, w: seq<nat>, i: nat, j: nat)
    requires Square(m) && IsWalk(m, w, i, j, 0)
    ensures m[i][j].Fin? && WalkCost(m, w) == m[i][j].value
  {
    assert w[1] < 0 || |w| == 2;
    assert HopOk(m, w, 0);
    assert w[..1] == [i];
  }

  /** A walk that avoids `x` inside has its inner nodes before `x` when they
      all come before x + 1. */
  lemma Narrow(m: Matrix, w: seq<nat>, i: nat, j: nat, x: nat)
    requires Square(m) && IsWalk(m, w, i, j, x + 1) && x !in w[1..|w| - 1]
    ensures IsWalk(m, w, i, j, x)
  {
    forall t | 0 < t < |w| - 1 ensures w[t] < x {
      assert w[t] == w[1..|w| - 1][t - 1];
    }
  }

  lemma PlusAtMost(a: Dist, b: Dist, x: real, y: real)
    requires AtMost(a, Fin(x)) && AtMost(b, Fin(y))
    ensures AtMost(Plus(a, b), Fin(x + y))
  {
  }

  /** From its last visit to `x` on, a walk whose inner nodes come before
      x + 1 is a walk whose inner nodes come before `x`, and no dearer. */
  lemma SuffixWalk(m: Matrix, w: seq<nat>, i: nat, j: nat, x: nat, l: nat) returns (s: seq<nat>)
    requires Square(m) && NonNegative(m) && IsWalk(m, w, i, j, x + 1) && x != j
    requires l < |w| && w[l] == x && forall t :: l < t < |w| ==> w[t] != x
    ensures s == w[l..] && IsWalk(m, s, x, j, x) && WalkCost(m, s) <= WalkCost(m, w)
  {
    s := w[l..];
    CostSplit(m, w, l);
    CostNonNegative(m, w[..l + 1]);
    forall t | 0 < t < |s| - 1 ensures s[t] < x {
      assert s[t] == w[l + t];
    }
  }

  /** Up to its first visit to `x`, a walk whose inner nodes come before
      x + 1 is a walk whose inner nodes come before `x`, and no dearer. */
  lemma PrefixWalk(m: Matrix, w: seq<nat>, i: nat, j: nat, x: nat, f: nat) returns (q: seq<nat>)
    requires Square(m) && NonNegative(m) && IsWalk(m, w, i, j, x + 1) && x != i
    requires f < |w| && w[f] == x && forall t :: 0 <= t < f ==> w[t] != x
    ensures q == w[..f + 1] && IsWalk(m, q, i, x, x) && WalkCost(m, q) <= WalkCost(m, w)
  {
    q := w[..f + 1];
    CostSplit(m, w, f);
    CostNonNegative(m, w[f..]);
    forall t | 0 < t < |q| - 1 ensures q[t] < x {
      assert q[t] == w[t];
    }
  }

  /** A walk through `x` that neither starts nor ends there: the part up to its
      first visit and the part from its last visit have inner nodes before
      `x`, and together cost no more than the walk. */
  lemma Bridge(m: Matrix, w: seq<nat>, i: nat, j: nat, x: nat, f: nat, l: nat) returns (q: seq<nat>, s: seq<nat>)
    requires Square(m) && NonNegative(m) && IsWalk(m, w, i, j, x + 1) && x != i && x != j
    requires f <= l < |w| && w[f] == x && w[l] == x
    requires forall t :: 0 <= t < f ==> w[t] != x
    requires forall t :: l < t < |w| ==> w[t] != x
    ensures IsWalk(m, q, i, x, x) && IsWalk(m, s, x, j, x)
    ensures WalkCost(m, q) + WalkCost(m, s) <= WalkCost(m, w)
  {
    q := PrefixWalk(m, w, i, j, x, f);
    s := SuffixWalk(m, w, i, j, x, l);
    CostSplit(m, w, l);
    var u := w[..l + 1];
    PrefixCost(m, u, f);
    assert u[..f + 1] == q;
  }

  /** With no negative entry, a prefix of a walk costs no more than the walk. */
  lemma PrefixCost(m: Matrix, u: seq<nat>, f: nat)
    requires Square(m) && NonNegative(m) && Hops(m, u) && f < |u|
    ensures Hops(m, u[..f + 1]) && WalkCost(m, u[..f + 1]) <= WalkCost(m, u)
  {
    CostSplit(m, u, f);
    CostNonNegative(m, u[f..]);
  }

  /** With no negative entry, the final matrix holds, off the diagonal, the
      cost of a cheapest walk, and `Infinity` exactly where there is none. */
  lemma Shortest(m: Matrix, i: nat, j: nat)
    requires Square(m) && NonNegative(m) && i < |m| && j < |m| && i != j
    ensures var d := Rounds(m, |m|)[i][j];
      && (d.Fin? ==> exists w :: IsWalk(m, w, i, j, |m|) && WalkCost(m, w) == d.value)
      && (forall w :: IsWalk(m, w, i, j, |m|) ==> AtMost(d, Fin(WalkCost(m, w))))
      && (d == Inf <==> forall w :: !IsWalk(m, w, i, j, |m|))
  {
    var d := Rounds(m, |m|)[i][j];
    if d.Fin? {
      var w := RoundsWitness(m, |m|, i, j);
    }
    forall w | IsWalk(m, w, i, j, |m|) ensures AtMost(d, Fin(WalkCost(m, w))) {
      RoundsLeast(m, |m|, i, j, w);
    }
  }

  /** With no negative entry, the final matrix satisfies the triangle
      inequality off its diagonal. */
  lemma Triangle(m: Matrix, i: nat, j: nat, k: nat)
    requires Square(m) && NonNegative(m) && i < |m| && j < |m| && k < |m| && i != j
    ensures var r := Rounds(m, |m|); AtMost(r[i][j], Plus(r[i][k], r[k][j]))
  {
    var r: Matrix := Rounds(m, |m|);
    var n := |m|;
    if r[i][k].Fin? && r[k][j].Fin? {
      if k == i {
        RoundsDiagonal(m, n, i);
      } else if k == j {
        RoundsDiagonal(m, n, j);
      } else {
        var w1 := RoundsWitness(m, n, i, k);
        var w2 := RoundsWitness(m, n, k, j);
        Join(m, w1, w2, i, k, j, n);
        RoundsLeast(m, n, i, j, w1 + w2[1..]);
      }
    }
  }
}
