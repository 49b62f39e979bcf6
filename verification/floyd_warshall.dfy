/** The Floyd-Warshall algorithm as the visualizer runs it: node positions
    index an n-by-n matrix that starts with `Infinity` off the diagonal and 0
    on it, each edge then writes its weight (a later edge overwriting an
    earlier one), and rounds k = 0 .. n - 1 relax every other pair through k
    in row-major order, in place. Every step carries a copy of the matrix. */
module FloydWarshall {
  import opened Wrappers
  import opened Collections
  import opened Graph
  import opened Steps
  import opened FwMatrix

  // The index of each node.

  /** `nodeIndex[id]`: the position of the last node with that id, which is
      the one `forEach` writes last. */
  function NodeIndex(ids: seq<NodeId>, x: NodeId): (r: Option<nat>)
    ensures r.None? <==> x !in ids
    ensures r.Some? ==> r.value < |ids| && ids[r.value] == x && forall t :: r.value < t < |ids| ==> ids[t] != x
  {
    if ids == [] then None
    else if ids[|ids| - 1] == x then Some(|ids| - 1)
    else NodeIndex(ids[..|ids| - 1], x)
  }

  /** `nodes.forEach((id, i) => nodeIndex[id] = i)`. */
  method IndexNodes(ids: seq<NodeId>) returns (index: map<NodeId, nat>)
    ensures forall x :: x in index <==> x in ids
    ensures forall x :: x in index ==> NodeIndex(ids, x) == Some(index[x])
  {
    index := map[];
    for i := 0 to |ids|
      invariant forall x :: x in index <==> x in ids[..i]
      invariant forall x :: x in index ==> NodeIndex(ids[..i], x) == Some(index[x])
    {
      assert ids[..i + 1][..i] == ids[..i];
      index := index[ids[i] := i];
    }
    assert ids[..|ids|] == ids;
  }

  // The initial matrix.

  /** `Infinity` everywhere but on the diagonal, which holds 0. */
  function Blank(n: nat): (m: Matrix)
    ensures Square(m) && |m| == n
    ensures forall i, j :: 0 <= i < n && 0 <= j < n ==> m[i][j] == if i == j then Fin(0.0) else Inf
  {
    seq(n, i requires 0 <= i < n => seq(n, j requires 0 <= j < n => if i == j then Fin(0.0) else Inf))
  }

  /** One edge written into the matrix, or `None` where the assignment throws:
      an unknown `from` leaves `dist[undefined]`, which cannot be indexed; an
      unknown `to` only sets a stray property on the row, unless the graph is
      undirected and the mirrored write indexes `dist[undefined]`. */
  function WriteEdge(m: Matrix, ids: seq<NodeId>, e: Edge, directed: bool): (r: Option<Matrix>)
    requires Square(m) && |m| == |ids|
    ensures r.Some? ==> Square(r.value) && |r.value| == |m|
  {
    match (NodeIndex(ids, e.from), NodeIndex(ids, e.to))
    case (None, _) => None
    case (Some(_), None) => if directed then Some(m) else None
    case (Some(i), Some(j)) =>
      var m1 := Set(m, i, j, Fin(e.weight));
      Some(if directed then m1 else Set(m1, j, i, Fin(e.weight)))
  }

  /** The matrix once the edges are written in order, or `None` if one throws. */
  function Written(m: Matrix, ids: seq<NodeId>, edges: seq<Edge>, directed: bool): (r: Option<Matrix>)
    requires Square(m) && |m| == |ids|
    ensures r.Some? ==> Square(r.value) && |r.value| == |m|
  {
    if edges == [] then Some(m)
    else match Written(m, ids, edges[..|edges| - 1], directed)
      case None => None
      case Some(m') => WriteEdge(m', ids, edges[|edges| - 1], directed)
  }

  /** An edge whose writes throw: `from` is not a node, or the graph is
      undirected and `to` is not a node. */
  predicate Breaks(ids: seq<NodeId>, e: Edge, directed: bool) {
    e.from !in ids || (!directed && e.to !in ids)
  }

  /** The edge with the last write to entry (i, j), if any. */
  function LastWrite(ids: seq<NodeId>, edges: seq<Edge>, directed: bool, i: nat, j: nat): (r: Option<nat>)
    ensures r.Some? ==> r.value < |edges|
  {
    if edges == [] then None
    else
      var e := edges[|edges| - 1];
      if Writes(ids, e, directed, i, j) then Some(|edges| - 1) else LastWrite(ids, edges[..|edges| - 1], directed, i, j)
  }

  /** Edge `e` writes entry (i, j): it joins the nodes at those positions, in
      that direction or, when undirected, in the other. */
  predicate Writes(ids: seq<NodeId>, e: Edge, directed: bool, i: nat, j: nat) {
    var f, t := NodeIndex(ids, e.from), NodeIndex(ids, e.to);
    f.Some? && t.Some? && ((f.value == i && t.value == j) || (!directed && f.value == j && t.value == i))
  }

  /** Writing the edges throws exactly when one of them breaks. */
  lemma {:induction false} WrittenFails(m: Matrix, ids: seq<NodeId>, edges: seq<Edge>, directed: bool)
    requires Square(m) && |m| == |ids|
    ensures Written(m, ids, edges, directed).None? <==> exists t :: 0 <= t < |edges| && Breaks(ids, edges[t], directed)
  {
    if edges != [] {
      var es := edges[..|edges| - 1];
      WrittenFails(m, ids, es, directed);
      assert forall t :: 0 <= t < |es| ==> es[t] == edges[t];
    }
  }

  /** Once written, each entry holds the weight of the last edge that wrote
      it, or its initial value. */
  lemma {:induction false} WrittenEntries(m: Matrix, ids: seq<NodeId>, edges: seq<Edge>, directed: bool, i: nat, j: nat)
    requires Square(m) && |m| == |ids| && i < |m| && j < |m|
    requires Written(m, ids, edges, directed).Some?
    ensures Written(m, ids, edges, directed).value[i][j] ==
      match LastWrite(ids, edges, directed, i, j)
      case None => m[i][j]
      case Some(t) => Fin(edges[t].weight)
  {
    if edges != [] {
      var es, e := edges[..|edges| - 1], edges[|edges| - 1];
      WrittenEntries(m, ids, es, directed, i, j);
      var m' := Written(m, ids, es, directed).value;
      if Writes(ids, e, directed, i, j) {
        WriteSame(m', ids, e, directed, i, j);
      } else {
        WriteOther(m', ids, e, directed, i, j);
        match LastWrite(ids, es, directed, i, j)
        case None =>
        case Some(t) => assert es[t] == edges[t];
      }
    }
  }

  /** An edge sets the entries it writes to its weight. */
  lemma WriteSame(m: Matrix, ids: seq<NodeId>, e: Edge, directed: bool, i: nat, j: nat)
    requires Square(m) && |m| == |ids| && i < |m| && j < |m|
    requires WriteEdge(m, ids, e, directed).Some? && Writes(ids, e, directed, i, j)
    ensures WriteEdge(m, ids, e, directed).value[i][j] == Fin(e.weight)
  {
  }

  /** An edge leaves alone the entries it does not write. */
  lemma WriteOther(m: Matrix, ids: seq<NodeId>, e: Edge, directed: bool, i: nat, j: nat)
    requires Square(m) && |m| == |ids| && i < |m| && j < |m|
    requires WriteEdge(m, ids, e, directed).Some? && !Writes(ids, e, directed, i, j)
    ensures WriteEdge(m, ids, e, directed).value[i][j] == m[i][j]
  {
  }

  // The matrix in an array.

  /** `copyMatrix(dist)`. */
  function CopyMatrix(a: array2<Dist>): (m: Matrix)
    requires a.Length0 == a.Length1
    reads a
    ensures Square(m) && |m| == a.Length0
    ensures forall i, j :: 0 <= i < a.Length0 && 0 <= j < a.Length0 ==> m[i][j] == a[i, j]
  {
    seq(a.Length0, i requires 0 <= i < a.Length0 reads a =>
      seq(a.Length1, j requires 0 <= j < a.Length1 reads a => a[i, j]))
  }

  /** Two square matrices with the same entries are the same. */
  lemma MatrixEq(m: Matrix, m': Matrix)
    requires Square(m) && Square(m') && |m| == |m'|
    requires forall i, j :: 0 <= i < |m| && 0 <= j < |m| ==> m[i][j] == m'[i][j]
    ensures m == m'
  {
    forall i | 0 <= i < |m| ensures m[i] == m'[i] {
      assert forall j :: 0 <= j < |m| ==> m[i][j] == m'[i][j];
    }
  }

  /** `dist[i][j] = d`. */
  method Put(a: array2<Dist>, i: nat, j: nat, d: Dist)
    requires a.Length0 == a.Length1 && i < a.Length0 && j < a.Length0
    modifies a
    ensures CopyMatrix(a) == Set(old(CopyMatrix(a)), i, j, d)
  {
    ghost var m := CopyMatrix(a);
    a[i, j] := d;
    MatrixEq(CopyMatrix(a), Set(m, i, j, d));
  }

  /** `Array(n).fill(null).map(() => Array(n).fill(Infinity))`, then 0 on the
      diagonal. */
  method NewMatrix(n: nat) returns (a: array2<Dist>)
    ensures fresh(a) && a.Length0 == n && a.Length1 == n
    ensures CopyMatrix(a) == Blank(n)
  {
    a := new Dist[n, n]((i, j) => Inf);
    for i := 0 to n
      invariant forall p, q :: 0 <= p < n && 0 <= q < n ==> a[p, q] == if p == q && p < i then Fin(0.0) else Inf
    {
      a[i, i] := Fin(0.0);
    }
    MatrixEq(CopyMatrix(a), Blank(n));
  }

  /** The loop over `graph.edges`; `false` when a write throws. */
  method WriteEdges(a: array2<Dist>, ids: seq<NodeId>, index: map<NodeId, nat>, edges: seq<Edge>, directed: bool)
    returns (ok: bool)
    requires a.Length0 == a.Length1 == |ids|
    requires forall x :: x in index <==> x in ids
    requires forall x :: x in index ==> NodeIndex(ids, x) == Some(index[x])
    modifies a
    ensures ok <==> Written(old(CopyMatrix(a)), ids, edges, directed).Some?
    ensures ok ==> CopyMatrix(a) == Written(old(CopyMatrix(a)), ids, edges, directed).value
  {
    ghost var m0 := CopyMatrix(a);
    for t := 0 to |edges|
      invariant Written(m0, ids, edges[..t], directed) == Some(CopyMatrix(a))
    {
      var e := edges[t];
      assert edges[..t + 1][..t] == edges[..t];
      ghost var m := CopyMatrix(a);
      if e.from !in index {
        assert Written(m0, ids, edges[..t + 1], directed) == None;
        WrittenStops(m0, ids, edges, directed, t + 1);
        return false;
      }
      var i := index[e.from];
      if e.to !in index {
        if !directed {
          assert Written(m0, ids, edges[..t + 1], directed) == None;
          WrittenStops(m0, ids, edges, directed, t + 1);
          return false;
        }
      } else {
        var j := index[e.to];
        Put(a, i, j, Fin(e.weight));
        if !directed {
          Put(a, j, i, Fin(e.weight));
        }
      }
    }
    assert edges[..|edges|] == edges;
    ok := true;
  }

  /** Once an edge throws, writing more edges throws too. */
  lemma {:induction false} WrittenStops(m: Matrix, ids: seq<NodeId>, edges: seq<Edge>, directed: bool, t: nat)
    requires Square(m) && |m| == |ids| && t <= |edges| && Written(m, ids, edges[..t], directed).None?
    ensures Written(m, ids, edges, directed).None?
    decreases |edges| - t
  {
    if t < |edges| {
      assert edges[..t + 1][..t] == edges[..t];
      WrittenStops(m, ids, edges, directed, t + 1);
    } else {
      assert edges[..t] == edges;
    }
  }

  // The steps.

  /** What one step shows: its tag, the highlighted nodes if any, and the
      copy of the matrix it carries. */
  datatype Frame = Frame(kind: StepType, highlight: Option<seq<NodeId>>, matrix: Matrix)

  /** `createStep(kind, { state: { fwMatrix, fwNodes }, highlightNodes })`. */
  function FwStep(id: string, f: Frame, ids: seq<NodeId>): (s: Step)
    ensures s.id == id && s.kind == f.kind
    ensures s.state == Some(AlgorithmState(fwMatrix := Some(f.matrix), fwNodes := Some(ids)))
    ensures s.highlightNodes.Some? <==> f.highlight.Some?
    ensures f.highlight.Some? ==> s.highlightNodes == Some(NodeList(f.highlight.value))
    ensures s.highlightEdges.None? && s.visitedNodes.None? && s.currentNode.None?
  {
    CreateStep(id, f.kind, Overrides(
      highlightNodes := if f.highlight.Some? then Some(NodeList(f.highlight.value)) else None,
      state := Some(AlgorithmState(fwMatrix := Some(f.matrix), fwNodes := Some(ids)))))
  }

  /** `steps` shows the frames `fs`, the t-th with the t-th id. */
  predicate Recorded(steps: seq<Step>, fs: seq<Frame>, ids: seq<NodeId>) {
    |steps| == |fs| && forall t :: 0 <= t < |steps| ==> steps[t] == FwStep(StepId(t), fs[t], ids)
  }

  lemma RecordedSnoc(steps: seq<Step>, fs: seq<Frame>, f: Frame, ids: seq<NodeId>)
    requires Recorded(steps, fs, ids)
    ensures Recorded(steps + [FwStep(StepId(|steps|), f, ids)], fs + [f], ids)
  {
  }

  /** How many frames carry tag `t`. */
  function FrameCount(fs: seq<Frame>, t: StepType): nat {
    if fs == [] then 0
    else FrameCount(fs[..|fs| - 1], t) + (if fs[|fs| - 1].kind == t then 1 else 0)
  }

  /** The steps carry each tag as often as the frames they show. */
  lemma {:induction false} RecordedCount(steps: seq<Step>, fs: seq<Frame>, ids: seq<NodeId>, t: StepType)
    requires Recorded(steps, fs, ids)
    ensures CountKind(steps, t) == FrameCount(fs, t)
  {
    if steps != [] {
      var n := |steps| - 1;
      assert Recorded(steps[..n], fs[..n], ids);
      RecordedCount(steps[..n], fs[..n], ids, t);
    }
  }

  lemma {:induction false} FrameCountAppend(a: seq<Frame>, b: seq<Frame>, t: StepType)
    ensures FrameCount(a + b, t) == FrameCount(a, t) + FrameCount(b, t)
  {
    if b != [] {
      assert (a + b)[..|a + b| - 1] == a + b[..|b| - 1];
      FrameCountAppend(a, b[..|b| - 1], t);
    } else {
      assert a + b == a;
    }
  }

  /** The `matrix-update` steps of row i of round k, up to column j: one
      for each pair whose entry the pass through k lowers, showing
      `[nodes[i], nodes[j], nodes[k]]` and the matrix just after the write. */
  function RowFrames(ids: seq<NodeId>, m: Matrix, k: nat, i: nat, j: nat): (fs: seq<Frame>)
    requires Square(m) && |m| == |ids| && k < |m| && i < |m| && j <= |m|
  {
    if j == 0 then []
    else
      RowFrames(ids, m, k, i, j - 1)
      + (if Improves(m, k, i, j - 1) then [Frame(MatrixUpdate, Some([ids[i], ids[j - 1], ids[k]]), Partial(m, k, i, j))] else [])
  }

  /** The `matrix-update` steps of rows 0 to i - 1 of round k. */
  function RoundFrames(ids: seq<NodeId>, m: Matrix, k: nat, i: nat): (fs: seq<Frame>)
    requires Square(m) && |m| == |ids| && k < |m| && i <= |m|
  {
    if i == 0 then [] else RoundFrames(ids, m, k, i - 1) + RowFrames(ids, m, k, i - 1, |m|)
  }

  /** The steps of rounds 0 to k - 1: each opens with a `custom` step that
      highlights `nodes[k]` and shows the matrix the round starts from. */
  function PassFrames(ids: seq<NodeId>, d: Matrix, k: nat): (fs: seq<Frame>)
    requires Square(d) && |d| == |ids| && k <= |d|
  {
    if k == 0 then []
    else
      PassFrames(ids, d, k - 1) + [Frame(Custom, Some([ids[k - 1]]), Rounds(d, k - 1))]
      + RoundFrames(ids, Rounds(d, k - 1), k - 1, |d|)
  }

  /** All the steps, from the matrix `d` the edges wrote: a first `custom`
      step, the rounds, and a last `custom` step with the final matrix. */
  function Trace(ids: seq<NodeId>, d: Matrix): (fs: seq<Frame>)
    requires Square(d) && |d| == |ids|
  {
    [Frame(Custom, None, d)] + PassFrames(ids, d, |d|) + [Frame(Custom, None, Rounds(d, |d|))]
  }

  /** The matrix the edges write into the blank matrix, or `None` if that
      throws. */
  function Initial(g: GraphModel): (r: Option<Matrix>)
    ensures r.Some? ==> Square(r.value) && |r.value| == |g.nodes|
  {
    Written(Blank(|NodeIds(g.nodes)|), NodeIds(g.nodes), g.edges, g.directed)
  }

  // The relaxation loops.

  /** Writing an entry's own value back changes nothing. */
  lemma SetSame(m: Matrix, i: nat, j: nat)
    requires Square(m) && i < |m| && j < |m|
    ensures Set(m, i, j, m[i][j]) == m
  {
    MatrixEq(Set(m, i, j, m[i][j]), m);
  }

  /** Until round k reaches (i, j), the entries it reads there still hold
      their values from the start of the round. */
  lemma PartialReads(m: Matrix, k: nat, i: nat, j: nat)
    requires Square(m) && k < |m| && i < |m| && j < |m|
    ensures var p := Partial(m, k, i, j); p[i][k] == m[i][k] && p[k][j] == m[k][j] && p[i][j] == m[i][j]
  {
  }

  /** A pair the round does not lower adds no step and changes nothing. */
  lemma RowKeep(ids: seq<NodeId>, m: Matrix, k: nat, i: nat, j: nat, steps: seq<Step>, fs: seq<Frame>)
    requires Square(m) && |m| == |ids| && k < |m| && i < |m| && j < |m| && !Improves(m, k, i, j)
    requires Recorded(steps, fs + RowFrames(ids, m, k, i, j), ids)
    ensures Partial(m, k, i, j + 1) == Partial(m, k, i, j)
    ensures Recorded(steps, fs + RowFrames(ids, m, k, i, j + 1), ids)
  {
    PartialNext(m, k, i, j);
    SetSame(Partial(m, k, i, j), i, j);
    assert RowFrames(ids, m, k, i, j + 1) == RowFrames(ids, m, k, i, j);
  }

  /** A pair the round lowers adds one `matrix-update` step. */
  lemma RowWrite(ids: seq<NodeId>, m: Matrix, k: nat, i: nat, j: nat, steps: seq<Step>, fs: seq<Frame>)
    requires Square(m) && |m| == |ids| && k < |m| && i < |m| && j < |m| && Improves(m, k, i, j)
    requires Recorded(steps, fs + RowFrames(ids, m, k, i, j), ids)
    ensures Partial(m, k, i, j + 1) == Set(Partial(m, k, i, j), i, j, Plus(m[i][k], m[k][j]))
    ensures Recorded(steps + [FwStep(StepId(|steps|), Frame(MatrixUpdate, Some([ids[i], ids[j], ids[k]]), Partial(m, k, i, j + 1)), ids)],
                     fs + RowFrames(ids, m, k, i, j + 1), ids)
  {
    PartialNext(m, k, i, j);
    var f := Frame(MatrixUpdate, Some([ids[i], ids[j], ids[k]]), Partial(m, k, i, j + 1));
    RecordedSnoc(steps, fs + RowFrames(ids, m, k, i, j), f, ids);
    assert fs + RowFrames(ids, m, k, i, j + 1) == fs + RowFrames(ids, m, k, i, j) + [f];
  }

  /** The j loop over row i in round k, from the matrix `m` the round
      started with; `fs` are the frames of the steps so far. */
  method RowPass(a: array2<Dist>, ids: seq<NodeId>, k: nat, i: nat, steps: seq<Step>, ghost m: Matrix, ghost fs: seq<Frame>)
    returns (steps': seq<Step>)
    requires Square(m) && |m| == |ids| && k < |m| && i < |m| && a.Length0 == a.Length1 == |m|
    requires CopyMatrix(a) == Partial(m, k, i, 0) && Recorded(steps, fs, ids)
    modifies a
    ensures CopyMatrix(a) == Partial(m, k, i, |m|)
    ensures Recorded(steps', fs + RowFrames(ids, m, k, i, |m|), ids)
  {
    var n := a.Length0;
    steps' := steps;
    assert fs + RowFrames(ids, m, k, i, 0) == fs;
    for j := 0 to n
      invariant CopyMatrix(a) == Partial(m, k, i, j)
      invariant Recorded(steps', fs + RowFrames(ids, m, k, i, j), ids)
    {
      steps' := Visit(a, ids, k, i, j, steps', m, fs);
    }
  }

  /** The body of the j loop: the pair (i, j) in round k. */
  method Visit(a: array2<Dist>, ids: seq<NodeId>, k: nat, i: nat, j: nat, steps: seq<Step>, ghost m: Matrix, ghost fs: seq<Frame>)
    returns (steps': seq<Step>)
    requires Square(m) && |m| == |ids| && k < |m| && i < |m| && j < |m| && a.Length0 == a.Length1 == |m|
    requires CopyMatrix(a) == Partial(m, k, i, j) && Recorded(steps, fs + RowFrames(ids, m, k, i, j), ids)
    modifies a
    ensures CopyMatrix(a) == Partial(m, k, i, j + 1)
    ensures Recorded(steps', fs + RowFrames(ids, m, k, i, j + 1), ids)
  {
    steps' := steps;
    PartialReads(m, k, i, j);
    if i == j || i == k || j == k {
      RowKeep(ids, m, k, i, j, steps, fs);
      return;
    }
    var throughK := Plus(a[i, k], a[k, j]);
    if Less(throughK, a[i, j]) {
      RowWrite(ids, m, k, i, j, steps, fs);
      Put(a, i, j, throughK);
      steps' := steps + [FwStep(StepId(|steps|), Frame(MatrixUpdate, Some([ids[i], ids[j], ids[k]]), CopyMatrix(a)), ids)];
    } else {
      RowKeep(ids, m, k, i, j, steps, fs);
    }
  }

  /** A row's steps follow the earlier rows'. */
  lemma RoundNext(ids: seq<NodeId>, m: Matrix, k: nat, i: nat, steps: seq<Step>, fs: seq<Frame>)
    requires Square(m) && |m| == |ids| && k < |m| && i < |m|
    requires Recorded(steps, fs + RoundFrames(ids, m, k, i) + RowFrames(ids, m, k, i, |m|), ids)
    ensures Recorded(steps, fs + RoundFrames(ids, m, k, i + 1), ids)
  {
    AppendAssoc(fs, RoundFrames(ids, m, k, i), RowFrames(ids, m, k, i, |m|));
  }

  /** The i loop of round k, from the matrix `m` the round starts with. */
  method RoundPass(a: array2<Dist>, ids: seq<NodeId>, k: nat, steps: seq<Step>, ghost m: Matrix, ghost fs: seq<Frame>)
    returns (steps': seq<Step>)
    requires Square(m) && |m| == |ids| && k < |m| && a.Length0 == a.Length1 == |m|
    requires CopyMatrix(a) == m && Recorded(steps, fs, ids)
    modifies a
    ensures CopyMatrix(a) == Round(m, k)
    ensures Recorded(steps', fs + RoundFrames(ids, m, k, |m|), ids)
  {
    var n := a.Length0;
    steps' := steps;
    PartialStart(m, k);
    assert fs + RoundFrames(ids, m, k, 0) == fs;
    for i := 0 to n
      invariant CopyMatrix(a) == Partial(m, k, i, 0)
      invariant Recorded(steps', fs + RoundFrames(ids, m, k, i), ids)
    {
      steps' := RowPass(a, ids, k, i, steps', m, fs + RoundFrames(ids, m, k, i));
      PartialRow(m, k, i);
      RoundNext(ids, m, k, i, steps', fs);
    }
  }

  /** The k loop, from the matrix `d` the edges wrote. */
  method Passes(a: array2<Dist>, ids: seq<NodeId>, steps: seq<Step>, ghost d: Matrix, ghost fs: seq<Frame>)
    returns (steps': seq<Step>)
    requires Square(d) && |d| == |ids| && a.Length0 == a.Length1 == |d|
    requires CopyMatrix(a) == d && Recorded(steps, fs, ids)
    modifies a
    ensures CopyMatrix(a) == Rounds(d, |d|)
    ensures Recorded(steps', fs + PassFrames(ids, d, |d|), ids)
  {
    var n := a.Length0;
    steps' := steps;
    assert fs + PassFrames(ids, d, 0) == fs;
    for k := 0 to n
      invariant CopyMatrix(a) == Rounds(d, k)
      invariant Recorded(steps', fs + PassFrames(ids, d, k), ids)
    {
      var f := Frame(Custom, Some([ids[k]]), CopyMatrix(a));
      ghost var before := fs + PassFrames(ids, d, k);
      RecordedSnoc(steps', before, f, ids);
      steps' := steps' + [FwStep(StepId(|steps'|), f, ids)];
      steps' := RoundPass(a, ids, k, steps', Rounds(d, k), before + [f]);
      PassNext(ids, d, k, steps', fs);
    }
  }

  /** A round's steps follow the earlier rounds'. */
  lemma PassNext(ids: seq<NodeId>, d: Matrix, k: nat, steps: seq<Step>, fs: seq<Frame>)
    requires Square(d) && |d| == |ids| && k < |d|
    requires Recorded(steps, fs + PassFrames(ids, d, k) + [Frame(Custom, Some([ids[k]]), Rounds(d, k))]
                             + RoundFrames(ids, Rounds(d, k), k, |d|), ids)
    ensures Recorded(steps, fs + PassFrames(ids, d, k + 1), ids)
  {
    var p, h, r := PassFrames(ids, d, k), [Frame(Custom, Some([ids[k]]), Rounds(d, k))], RoundFrames(ids, Rounds(d, k), k, |d|);
    assert PassFrames(ids, d, k + 1) == p + h + r;
    AppendAssoc(fs, p, h);
    AppendAssoc(fs, p + h, r);
  }

  /** `floydWarshall(graph)`: the steps it returns, or the `TypeError` an
      edge to or from an unknown node raises. */
  method FloydWarshall(g: GraphModel) returns (r: Result<seq<Step>>)
    ensures r.Failure? <==> Initial(g).None?
    ensures r.Success? ==> Recorded(r.value, Trace(NodeIds(g.nodes), Initial(g).value), NodeIds(g.nodes))
  {
    var ids := NodeIds(g.nodes);
    var n := |ids|;
    var index := IndexNodes(ids);
    var a := NewMatrix(n);
    var ok := WriteEdges(a, ids, index, g.edges, g.directed);
    if !ok {
      return Failure("TypeError");
    }
    ghost var d := CopyMatrix(a);
    var first := Frame(Custom, None, CopyMatrix(a));
    var steps := [FwStep(StepId(0), first, ids)];
    steps := Passes(a, ids, steps, d, [first]);
    var last := Frame(Custom, None, CopyMatrix(a));
    RecordedSnoc(steps, [first] + PassFrames(ids, d, n), last, ids);
    steps := steps + [FwStep(StepId(|steps|), last, ids)];
    r := Success(steps);
  }

  // What the steps show.

  /** How many pairs of row i, before column j, round k lowers. */
  function RowUpdates(m: Matrix, k: nat, i: nat, j: nat): nat
    requires Square(m) && k < |m| && i < |m| && j <= |m|
  {
    if j == 0 then 0 else RowUpdates(m, k, i, j - 1) + (if Improves(m, k, i, j - 1) then 1 else 0)
  }

  /** How many pairs of rows 0 to i - 1 round k lowers. */
  function RoundUpdates(m: Matrix, k: nat, i: nat): nat
    requires Square(m) && k < |m| && i <= |m|
  {
    if i == 0 then 0 else RoundUpdates(m, k, i - 1) + RowUpdates(m, k, i - 1, |m|)
  }

  /** How many entries rounds 0 to k - 1 lower, counting each write. */
  function Updates(d: Matrix, k: nat): nat
    requires Square(d) && k <= |d|
  {
    if k == 0 then 0 else Updates(d, k - 1) + RoundUpdates(Rounds(d, k - 1), k - 1, |d|)
  }

  /** A row shows one frame per lowered pair. */
  lemma {:induction false} RowCounts(ids: seq<NodeId>, m: Matrix, k: nat, i: nat, j: nat)
    requires Square(m) && |m| == |ids| && k < |m| && i < |m| && j <= |m|
    ensures |RowFrames(ids, m, k, i, j)| == RowUpdates(m, k, i, j)
  {
    if j > 0 {
      RowCounts(ids, m, k, i, j - 1);
    }
  }

  lemma {:induction false} RoundCounts(ids: seq<NodeId>, m: Matrix, k: nat, i: nat)
    requires Square(m) && |m| == |ids| && k < |m| && i <= |m|
    ensures |RoundFrames(ids, m, k, i)| == RoundUpdates(m, k, i)
  {
    if i > 0 {
      RoundCounts(ids, m, k, i - 1);
      RowCounts(ids, m, k, i - 1, |m|);
    }
  }

  /** Every frame a row shows is a `matrix-update`. */
  lemma {:induction false} RowKinds(ids: seq<NodeId>, m: Matrix, k: nat, i: nat, j: nat)
    requires Square(m) && |m| == |ids| && k < |m| && i < |m| && j <= |m|
    ensures forall f :: f in RowFrames(ids, m, k, i, j) ==> f.kind == MatrixUpdate
  {
    if j > 0 {
      RowKinds(ids, m, k, i, j - 1);
    }
  }

  lemma {:induction false} RoundKinds(ids: seq<NodeId>, m: Matrix, k: nat, i: nat)
    requires Square(m) && |m| == |ids| && k < |m| && i <= |m|
    ensures forall f :: f in RoundFrames(ids, m, k, i) ==> f.kind == MatrixUpdate
  {
    if i > 0 {
      RoundKinds(ids, m, k, i - 1);
      RowKinds(ids, m, k, i - 1, |m|);
    }
  }

  /** Frames that all carry tag `t` count |fs| for `t` and none for `u`. */
  lemma {:induction false} FrameCountUniform(fs: seq<Frame>, t: StepType, u: StepType)
    requires t != u && forall f :: f in fs ==> f.kind == t
    ensures FrameCount(fs, t) == |fs| && FrameCount(fs, u) == 0
  {
    if fs != [] {
      FrameCountUniform(fs[..|fs| - 1], t, u);
    }
  }

  /** A `custom` frame and then `matrix-update` frames add one to the first
      count and |r| to the second. */
  lemma CountsStep(p: seq<Frame>, h: seq<Frame>, r: seq<Frame>)
    requires |h| == 1 && h[0].kind == Custom && forall f :: f in r ==> f.kind == MatrixUpdate
    ensures FrameCount(p + h + r, Custom) == FrameCount(p, Custom) + 1
    ensures FrameCount(p + h + r, MatrixUpdate) == FrameCount(p, MatrixUpdate) + |r|
  {
    FrameCountUniform(r, MatrixUpdate, Custom);
    FrameCountUniform(h, Custom, MatrixUpdate);
    FrameCountAppend(p, h, Custom);
    FrameCountAppend(p, h, MatrixUpdate);
    FrameCountAppend(p + h, r, Custom);
    FrameCountAppend(p + h, r, MatrixUpdate);
  }

  /** Rounds 0 to k - 1 show one `custom` step each and one `matrix-update`
      per lowered entry, and nothing else. */
  lemma {:induction false} PassCounts(ids: seq<NodeId>, d: Matrix, k: nat)
    requires Square(d) && |d| == |ids| && k <= |d|
    ensures var fs := PassFrames(ids, d, k);
      && FrameCount(fs, Custom) == k && FrameCount(fs, MatrixUpdate) == Updates(d, k)
      && |fs| == k + Updates(d, k)
  {
    if k > 0 {
      PassCounts(ids, d, k - 1);
      var m := Rounds(d, k - 1);
      var p, h, r := PassFrames(ids, d, k - 1), [Frame(Custom, Some([ids[k - 1]]), m)], RoundFrames(ids, m, k - 1, |d|);
      RoundCounts(ids, m, k - 1, |d|);
      RoundKinds(ids, m, k - 1, |d|);
      CountsStep(p, h, r);
    }
  }

  /** The whole trace: n + 2 `custom` frames and one `matrix-update` per
      lowered entry. */
  lemma TraceFrameCounts(ids: seq<NodeId>, d: Matrix)
    requires Square(d) && |d| == |ids|
    ensures var fs := Trace(ids, d);
      && FrameCount(fs, Custom) == |d| + 2 && FrameCount(fs, MatrixUpdate) == Updates(d, |d|)
      && |fs| == |d| + 2 + Updates(d, |d|)
  {
    var first, last := [Frame(Custom, None, d)], [Frame(Custom, None, Rounds(d, |d|))];
    var p := PassFrames(ids, d, |d|);
    PassCounts(ids, d, |d|);
    FrameCountUniform(first, Custom, MatrixUpdate);
    FrameCountUniform(last, Custom, MatrixUpdate);
    FrameCountAppend(first, p, Custom);
    FrameCountAppend(first, p, MatrixUpdate);
    FrameCountAppend(first + p, last, Custom);
    FrameCountAppend(first + p, last, MatrixUpdate);
  }

  /** A run records n + 2 `custom` steps (the first, one per round, the
      last) and one `matrix-update` per lowered entry, and nothing else. */
  lemma TraceCounts(ids: seq<NodeId>, d: Matrix, steps: seq<Step>)
    requires Square(d) && |d| == |ids| && Recorded(steps, Trace(ids, d), ids)
    ensures CountKind(steps, Custom) == |d| + 2
    ensures CountKind(steps, MatrixUpdate) == Updates(d, |d|)
    ensures |steps| == |d| + 2 + Updates(d, |d|)
  {
    TraceFrameCounts(ids, d);
    RecordedCount(steps, Trace(ids, d), ids, Custom);
    RecordedCount(steps, Trace(ids, d), ids, MatrixUpdate);
  }

  /** Entry (a, b) of `x`, an n-by-n matrix, lies between the entries of
      `lo` and `hi`. */
  predicate EntryBetween(lo: Matrix, x: Matrix, hi: Matrix, a: nat, b: nat)
    requires Square(lo) && Square(hi) && |lo| == |hi| && a < |hi| && b < |hi|
  {
    Square(x) && |x| == |hi| && AtMost(lo[a][b], x[a][b]) && AtMost(x[a][b], hi[a][b])
  }

  /** Part-way through round k each entry lies between its values before and
      after the round. */
  lemma PartialBetween(m: Matrix, k: nat, i: nat, j: nat, a: nat, b: nat)
    requires Square(m) && k < |m| && i <= |m| && j <= |m| && a < |m| && b < |m|
    ensures EntryBetween(Round(m, k), Partial(m, k, i, j), m, a, b)
  {
    RoundEntry(m, k, a, b);
    AtMostRefl(m[a][b]);
    AtMostRefl(Relaxed(m, k, a, b));
  }

  lemma {:induction false} RowBetween(ids: seq<NodeId>, m: Matrix, k: nat, i: nat, j: nat, f: Frame, a: nat, b: nat)
    requires Square(m) && |m| == |ids| && k < |m| && i < |m| && j <= |m| && a < |m| && b < |m|
    requires f in RowFrames(ids, m, k, i, j)
    ensures EntryBetween(Round(m, k), f.matrix, m, a, b)
  {
    if f in RowFrames(ids, m, k, i, j - 1) {
      RowBetween(ids, m, k, i, j - 1, f, a, b);
    } else {
      PartialBetween(m, k, i, j, a, b);
    }
  }

  lemma {:induction false} RoundBetween(ids: seq<NodeId>, m: Matrix, k: nat, i: nat, f: Frame, a: nat, b: nat)
    requires Square(m) && |m| == |ids| && k < |m| && i <= |m| && a < |m| && b < |m|
    requires f in RoundFrames(ids, m, k, i)
    ensures EntryBetween(Round(m, k), f.matrix, m, a, b)
  {
    if f in RoundFrames(ids, m, k, i - 1) {
      RoundBetween(ids, m, k, i - 1, f, a, b);
    } else {
      RowBetween(ids, m, k, i - 1, |m|, f, a, b);
    }
  }

  /** Every matrix rounds 0 to k - 1 show lies between the matrix after
      them and the one they start from. */
  lemma {:induction false} PassBetween(ids: seq<NodeId>, d: Matrix, k: nat, f: Frame, a: nat, b: nat)
    requires Square(d) && |d| == |ids| && k <= |d| && a < |d| && b < |d| && f in PassFrames(ids, d, k)
    ensures EntryBetween(Rounds(d, k), f.matrix, d, a, b)
  {
    assert k > 0;
    var m := Rounds(d, k - 1);
    if f in PassFrames(ids, d, k - 1) {
      PassBetween(ids, d, k - 1, f, a, b);
      EarlierEntry(d, k, f.matrix, a, b);
    } else if f in RoundFrames(ids, m, k - 1, |d|) {
      RoundBetween(ids, m, k - 1, |d|, f, a, b);
      RoundEntryBetween(d, k, f.matrix, a, b);
    } else {
      HeaderEntry(d, k, a, b);
    }
  }

  /** An entry shown before round k - 1 is no lower than after it. */
  lemma EarlierEntry(d: Matrix, k: nat, x: Matrix, a: nat, b: nat)
    requires Square(d) && 0 < k <= |d| && a < |d| && b < |d| && EntryBetween(Rounds(d, k - 1), x, d, a, b)
    ensures EntryBetween(Rounds(d, k), x, d, a, b)
  {
    RoundsLower(d, k - 1, k, a, b);
    AtMostTrans(Rounds(d, k)[a][b], Rounds(d, k - 1)[a][b], x[a][b]);
  }

  /** An entry shown during round k - 1 is no higher than before all rounds. */
  lemma RoundEntryBetween(d: Matrix, k: nat, x: Matrix, a: nat, b: nat)
    requires Square(d) && 0 < k <= |d| && a < |d| && b < |d|
    requires EntryBetween(Round(Rounds(d, k - 1), k - 1), x, Rounds(d, k - 1), a, b)
    ensures EntryBetween(Rounds(d, k), x, d, a, b)
  {
    RoundsAtMostStart(d, k - 1, a, b);
    AtMostTrans(x[a][b], Rounds(d, k - 1)[a][b], d[a][b]);
  }

  /** The matrix before round k - 1 lies between the start and the end. */
  lemma HeaderEntry(d: Matrix, k: nat, a: nat, b: nat)
    requires Square(d) && 0 < k <= |d| && a < |d| && b < |d|
    ensures EntryBetween(Rounds(d, k), Rounds(d, k - 1), d, a, b)
  {
    var x := Rounds(d, k - 1);
    RoundsAtMostStart(d, k - 1, a, b);
    AtMostRefl(x[a][b]);
    assert EntryBetween(x, x, d, a, b);
    EarlierEntry(d, k, x, a, b);
  }

  /** Entries never increase: every step shows a matrix whose entries lie
      between those of the final matrix and those the edges wrote. */
  lemma TraceBetween(ids: seq<NodeId>, d: Matrix, f: Frame, a: nat, b: nat)
    requires Square(d) && |d| == |ids| && a < |d| && b < |d| && f in Trace(ids, d)
    ensures EntryBetween(Rounds(d, |d|), f.matrix, d, a, b)
  {
    RoundsAtMostStart(d, |d|, a, b);
    if f in PassFrames(ids, d, |d|) {
      PassBetween(ids, d, |d|, f, a, b);
    } else {
      AtMostRefl(d[a][b]);
      AtMostRefl(Rounds(d, |d|)[a][b]);
    }
  }

  /** A `matrix-update` step: it highlights `[nodes[i], nodes[j], nodes[k]]`
      for three distinct positions, and its entry (i, j) is the finite sum
      through k of the entries it shows. */
  ghost predicate ShowsUpdate(ids: seq<NodeId>, f: Frame) {
    Square(f.matrix) && |f.matrix| == |ids| &&
    exists i, j, k :: 0 <= i < |ids| && 0 <= j < |ids| && 0 <= k < |ids| && i != j && i != k && j != k
      && f.highlight == Some([ids[i], ids[j], ids[k]])
      && f.matrix[i][j].Fin? && f.matrix[i][j] == Plus(f.matrix[i][k], f.matrix[k][j])
  }

  lemma {:induction false} RowUpdatesShown(ids: seq<NodeId>, m: Matrix, k: nat, i: nat, j: nat, f: Frame)
    requires Square(m) && |m| == |ids| && k < |m| && i < |m| && j <= |m| && f in RowFrames(ids, m, k, i, j)
    ensures ShowsUpdate(ids, f)
  {
    if f in RowFrames(ids, m, k, i, j - 1) {
      RowUpdatesShown(ids, m, k, i, j - 1, f);
    } else {
      var b := j - 1;
      var p := Partial(m, k, i, j);
      assert p[i][b] == Plus(p[i][k], p[k][b]);
      assert f == Frame(MatrixUpdate, Some([ids[i], ids[b], ids[k]]), p);
    }
  }

  lemma {:induction false} RoundUpdatesShown(ids: seq<NodeId>, m: Matrix, k: nat, i: nat, f: Frame)
    requires Square(m) && |m| == |ids| && k < |m| && i <= |m| && f in RoundFrames(ids, m, k, i)
    ensures ShowsUpdate(ids, f)
  {
    if f in RoundFrames(ids, m, k, i - 1) {
      RoundUpdatesShown(ids, m, k, i - 1, f);
    } else {
      RowUpdatesShown(ids, m, k, i - 1, |m|, f);
    }
  }

  lemma {:induction false} PassUpdatesShown(ids: seq<NodeId>, d: Matrix, k: nat, f: Frame)
    requires Square(d) && |d| == |ids| && k <= |d| && f in PassFrames(ids, d, k) && f.kind == MatrixUpdate
    ensures ShowsUpdate(ids, f)
  {
    assert k > 0;
    if f in PassFrames(ids, d, k - 1) {
      PassUpdatesShown(ids, d, k - 1, f);
    } else {
      RoundUpdatesShown(ids, Rounds(d, k - 1), k - 1, |d|, f);
    }
  }

  /** Every `matrix-update` step shows the write it reports. */
  lemma TraceUpdatesShown(ids: seq<NodeId>, d: Matrix, f: Frame)
    requires Square(d) && |d| == |ids| && f in Trace(ids, d) && f.kind == MatrixUpdate
    ensures ShowsUpdate(ids, f)
  {
    PassUpdatesShown(ids, d, |d|, f);
  }

  // The matrix the edges write.

  /** With no negative weight, no entry of the written matrix is negative. */
  lemma InitialNonNegative(g: GraphModel)
    requires NonNegativeWeights(g) && Initial(g).Some?
    ensures NonNegative(Initial(g).value)
  {
    var ids := NodeIds(g.nodes);
    var d: Matrix := Initial(g).value;
    forall i, j | 0 <= i < |d| && 0 <= j < |d| && d[i][j].Fin? ensures d[i][j].value >= 0.0 {
      WrittenEntries(Blank(|ids|), ids, g.edges, g.directed, i, j);
      match LastWrite(ids, g.edges, g.directed, i, j)
      case None =>
      case Some(t) => assert g.edges[t] in g.edges;
    }
  }

  /** In an undirected graph an edge writes (i, j) exactly when it writes
      (j, i), so the last writes of the two entries are the same edge. */
  lemma {:induction false} LastWriteMirror(ids: seq<NodeId>, edges: seq<Edge>, i: nat, j: nat)
    ensures LastWrite(ids, edges, false, i, j) == LastWrite(ids, edges, false, j, i)
  {
    if edges != [] {
      LastWriteMirror(ids, edges[..|edges| - 1], i, j);
    }
  }

  /** An undirected graph writes a symmetric matrix. */
  lemma InitialSymmetric(g: GraphModel)
    requires !g.directed && Initial(g).Some?
    ensures Symmetric(Initial(g).value)
  {
    var ids := NodeIds(g.nodes);
    var d: Matrix := Initial(g).value;
    forall i, j | 0 <= i < |d| && 0 <= j < |d| ensures d[i][j] == d[j][i] {
      WrittenEntries(Blank(|ids|), ids, g.edges, false, i, j);
      WrittenEntries(Blank(|ids|), ids, g.edges, false, j, i);
      LastWriteMirror(ids, g.edges, i, j);
    }
  }

  /** The first frame shows the written matrix and the last the final one;
      both are `custom` and highlight nothing. */
  lemma TraceEnds(ids: seq<NodeId>, d: Matrix)
    requires Square(d) && |d| == |ids|
    ensures var fs := Trace(ids, d);
      && |fs| >= 2 && fs[0] == Frame(Custom, None, d)
      && fs[|fs| - 1] == Frame(Custom, None, Rounds(d, |d|))
  {
  }

  /** The first and last steps show the first and last frames. */
  lemma RecordedEnds(steps: seq<Step>, fs: seq<Frame>, ids: seq<NodeId>, first: Frame, last: Frame)
    requires Recorded(steps, fs, ids) && |fs| >= 2 && fs[0] == first && fs[|fs| - 1] == last
    ensures |steps| >= 2 && steps[0] == FwStep(StepId(0), first, ids)
    ensures steps[|steps| - 1] == FwStep(StepId(|steps| - 1), last, ids)
  {
  }
}
