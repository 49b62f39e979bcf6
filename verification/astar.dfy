/** The A* search as the visualizer runs it. Open nodes live in a `Map` that
    remembers insertion order; each round scans it for the least `f`, stops
    when that is the target, and otherwise closes the node and goes through
    its arcs: an arc to a closed node is reported as rejected, any other is
    inspected and relaxed when it strictly lowers the neighbour's g score.
    Heuristic values come from the nodes' optional `weight`. */
module AStar {
  import opened Wrappers
  import opened Collections
  import opened Graph
  import opened Steps
  import opened Paths
  import opened ObjectKeys
  import D = Dijkstra

  /** `AStarNode`, the value the open set holds for a node. */
  datatype Entry = Entry(id: NodeId, g: real, h: real, f: real, parent: Option<NodeId>)

  /** `AStarResult`; `totalCost` is a number or `Infinity`. */
  datatype AStarResult = AStarResult(steps: seq<Step>, pathFound: bool, path: seq<NodeId>, totalCost: Dist,
                                     visitedCount: nat)

  // The open set: a list of entries without repeated ids, in insertion order.

  /** `openSet.keys()`. */
  function Ids(open: seq<Entry>): (ids: seq<NodeId>)
    ensures |ids| == |open| && forall i :: 0 <= i < |open| ==> ids[i] == open[i].id
  {
    seq(|open|, i requires 0 <= i < |open| => open[i].id)
  }

  /** The first position of `x`. */
  function IndexOf(ids: seq<NodeId>, x: NodeId): (i: nat)
    requires x in ids
    ensures i < |ids| && ids[i] == x && x !in ids[..i]
  {
    if ids[0] == x then 0
    else
      var j := IndexOf(ids[1..], x);
      assert ids[..1 + j] == [ids[0]] + ids[1..][..j];
      1 + j
  }

  /** `openSet.set(e.id, e)`: an id already present keeps its position and
      takes the new entry; a new id goes last. */
  function Put(open: seq<Entry>, e: Entry): (r: seq<Entry>)
    ensures Ids(r) == if e.id in Ids(open) then Ids(open) else Ids(open) + [e.id]
    ensures forall x :: x in r ==> x == e || x in open
    ensures NoDup(Ids(open)) ==> forall x :: x in r ==> x == e || (x in open && x.id != e.id)
    ensures e in r
  {
    if e.id in Ids(open) then
      var i := IndexOf(Ids(open), e.id);
      var r := open[i := e];
      assert Ids(r) == Ids(open);
      assert NoDup(Ids(open)) ==> forall j :: 0 <= j < |r| && j != i ==> r[j] == open[j] && open[j].id != e.id by {
        if NoDup(Ids(open)) {
          forall j | 0 <= j < |r| && j != i ensures open[j].id != e.id {
            assert Ids(open)[j] != Ids(open)[i];
          }
        }
      }
      r
    else
      var r := open + [e];
      assert Ids(r) == Ids(open) + [e.id];
      r
  }

  /** `openSet.delete(id)`. */
  function Delete(open: seq<Entry>, id: NodeId): (r: seq<Entry>)
  {
    if open == [] then []
    else Delete(open[..|open| - 1], id) + (if open[|open| - 1].id == id then [] else [open[|open| - 1]])
  }

  lemma {:induction false} DeleteAbsent(open: seq<Entry>, id: NodeId)
    requires forall j :: 0 <= j < |open| ==> open[j].id != id
    ensures Delete(open, id) == open
  {
    if open != [] {
      var open' := open[..|open| - 1];
      DeleteAbsent(open', id);
      assert open == open' + [open[|open| - 1]];
    }
  }

  /** When no other entry has the id at position `i`, deleting that id
      removes exactly that entry and keeps the others in order. */
  lemma {:induction false} DeleteAt(open: seq<Entry>, i: nat)
    requires i < |open| && forall j :: 0 <= j < |open| && j != i ==> open[j].id != open[i].id
    ensures Delete(open, open[i].id) == open[..i] + open[i + 1..]
  {
    var n := |open|;
    var open' := open[..n - 1];
    if i == n - 1 {
      DeleteAbsent(open', open[i].id);
      assert open[..i] + open[i + 1..] == open';
    } else {
      assert open'[i] == open[i];
      DeleteAt(open', i);
      assert open[..i] + open[i + 1..] == (open'[..i] + open'[i + 1..]) + [open[n - 1]];
    }
  }

  /** Removing position `i` from a sequence without repetitions removes
      exactly the element there. */
  lemma RemoveAt<T>(s: seq<T>, i: nat)
    requires i < |s| && NoDup(s)
    ensures NoDup(s[..i] + s[i + 1..])
    ensures forall x :: x in s[..i] + s[i + 1..] <==> x in s && x != s[i]
  {
    var r := s[..i] + s[i + 1..];
    forall a, b | 0 <= a < b < |r| ensures r[a] != r[b] {
      var a' := if a < i then a else a + 1;
      var b' := if b < i then b else b + 1;
      assert r[a] == s[a'] && r[b] == s[b'];
    }
    forall x ensures x in r <==> x in s && x != s[i] {
      if x in s && x != s[i] {
        var j :| 0 <= j < |s| && s[j] == x;
        assert j != i;
        if j < i { assert r[j] == x; } else { assert r[j - 1] == x; }
      }
      if x in r {
        var j :| 0 <= j < |r| && r[j] == x;
        if j < i { assert s[j] == x; } else { assert s[j + 1] == x; }
      }
    }
  }

  lemma IdsRemove(open: seq<Entry>, i: nat)
    requires i < |open|
    ensures Ids(open[..i] + open[i + 1..]) == Ids(open)[..i] + Ids(open)[i + 1..]
  {
  }

  /** The entry the scan over `openSet.values()` picks: the least so far
      starts at `Infinity`, and an entry replaces the choice only when its
      `f` is strictly below it. */
  function LowestIndex(open: seq<Entry>): (r: Option<nat>)
    ensures r.None? <==> open == []
    ensures r.Some? ==> r.value < |open|
  {
    if open == [] then None
    else match LowestIndex(open[..|open| - 1])
      case None => Some(|open| - 1)
      case Some(k) => if open[|open| - 1].f < open[k].f then Some(|open| - 1) else Some(k)
  }

  /** The pick has the least `f`, and is the first of several least entries. */
  lemma {:induction false} LowestLeast(open: seq<Entry>)
    ensures LowestIndex(open).Some? ==> forall j :: 0 <= j < |open| ==> open[LowestIndex(open).value].f <= open[j].f
    ensures LowestIndex(open).Some? ==> forall j :: 0 <= j < LowestIndex(open).value ==> open[LowestIndex(open).value].f < open[j].f
  {
    if open != [] {
      var s := open[..|open| - 1];
      LowestLeast(s);
      if LowestIndex(s).Some? {
        var k := LowestIndex(s).value;
        assert forall j :: 0 <= j < |s| ==> open[j] == s[j];
      }
    }
  }

  /** The scan itself. */
  method Lowest(open: seq<Entry>) returns (r: Option<nat>)
    ensures r == LowestIndex(open)
  {
    r := None;
    var lowest := Inf;
    for j := 0 to |open|
      invariant r == LowestIndex(open[..j])
      invariant r.None? ==> lowest == Inf
      invariant r.Some? ==> r.value < j && lowest == Fin(open[r.value].f)
    {
      assert open[..j + 1][..j] == open[..j];
      if Less(Fin(open[j].f), lowest) {
        lowest := Fin(open[j].f);
        r := Some(j);
      }
    }
    assert open[..|open|] == open;
  }

  // Heuristics and the initial scores.

  /** `heuristics[node.id] = node.weight ?? 0` for each node in turn. */
  function Heuristics(nodes: seq<Node>): (hs: map<NodeId, real>)
    ensures hs.Keys == set i | 0 <= i < |nodes| :: nodes[i].id
  {
    if nodes == [] then map[]
    else
      var n := nodes[|nodes| - 1];
      var r := Heuristics(nodes[..|nodes| - 1])[n.id := n.weight.GetOr(0.0)];
      assert forall i :: 0 <= i < |nodes| - 1 ==> nodes[..|nodes| - 1][i] == nodes[i];
      r
  }

  /** The value for an id is the `weight` (or 0) of the last node with that id. */
  lemma HeuristicsLast(nodes: seq<Node>, v: NodeId)
    requires v in Heuristics(nodes)
    ensures exists i :: 0 <= i < |nodes| && nodes[i].id == v && Heuristics(nodes)[v] == nodes[i].weight.GetOr(0.0)
                        && forall j :: i < j < |nodes| ==> nodes[j].id != v
  {
    var i := LastWith(nodes, v);
  }

  lemma {:induction false} LastWith(nodes: seq<Node>, v: NodeId) returns (i: nat)
    requires v in Heuristics(nodes)
    ensures i < |nodes| && nodes[i].id == v && Heuristics(nodes)[v] == nodes[i].weight.GetOr(0.0)
    ensures forall j :: i < j < |nodes| ==> nodes[j].id != v
  {
    var n := nodes[|nodes| - 1];
    var nodes' := nodes[..|nodes| - 1];
    if n.id != v {
      var k :| 0 <= k < |nodes| && nodes[k].id == v;
      assert nodes'[k] == nodes[k];
      i := LastWith(nodes', v);
      assert nodes[i] == nodes'[i];
    } else {
      i := |nodes| - 1;
    }
  }

  /** No node carries a heuristic value other than 0. */
  predicate ZeroHeuristic(g: GraphModel) {
    forall i :: 0 <= i < |g.nodes| ==> g.nodes[i].weight.GetOr(0.0) == 0.0
  }

  lemma ZeroHeuristics(g: GraphModel)
    requires ZeroHeuristic(g)
    ensures forall v :: v in Heuristics(g.nodes) ==> Heuristics(g.nodes)[v] == 0.0
  {
    forall v | v in Heuristics(g.nodes) ensures Heuristics(g.nodes)[v] == 0.0 {
      HeuristicsLast(g.nodes, v);
    }
  }

  /** The loop over `graph.nodes` that sets every heuristic value, every g
      score to `Infinity` and every predecessor to `null`; the start's g
      score is then set to 0. */
  method InitScores(g: GraphModel, start: NodeId)
    returns (hs: map<NodeId, real>, dist: map<NodeId, Dist>, pred: map<NodeId, Option<NodeId>>)
    requires start in D.Keys(g)
    ensures hs == Heuristics(g.nodes) && dist == D.InitialDistances(g, start) && pred == D.InitialPredecessors(g)
  {
    hs, dist, pred := map[], map[], map[];
    for i := 0 to |g.nodes|
      invariant hs == Heuristics(g.nodes[..i])
      invariant dist.Keys == pred.Keys == set j | 0 <= j < i :: g.nodes[j].id
      invariant forall v :: v in dist ==> dist[v] == Inf
      invariant forall v :: v in pred ==> pred[v] == None
    {
      var n := g.nodes[i];
      HeuristicsSnoc(g.nodes, i);
      hs := hs[n.id := n.weight.GetOr(0.0)];
      dist := dist[n.id := Inf];
      pred := pred[n.id := None];
    }
    assert g.nodes[..|g.nodes|] == g.nodes;
    InitDone(g, start, dist, pred);
    dist := dist[start := Fin(0.0)];
  }

  lemma HeuristicsSnoc(nodes: seq<Node>, i: nat)
    requires i < |nodes|
    ensures Heuristics(nodes[..i + 1]) == Heuristics(nodes[..i])[nodes[i].id := nodes[i].weight.GetOr(0.0)]
  {
    assert nodes[..i + 1][..i] == nodes[..i];
  }

  lemma InitDone(g: GraphModel, start: NodeId, dist: map<NodeId, Dist>, pred: map<NodeId, Option<NodeId>>)
    requires dist.Keys == pred.Keys == D.Keys(g)
    requires (forall v :: v in dist ==> dist[v] == Inf) && forall v :: v in pred ==> pred[v] == None
    requires start in D.Keys(g)
    ensures dist[start := Fin(0.0)] == D.InitialDistances(g, start)
    ensures pred == D.InitialPredecessors(g)
  {
  }

  // The predecessor tree and the path.

  /** The order `Object.entries(predecessors)` lists the keys in: the record
      gets a key per node, in the order of first appearance in `graph.nodes`. */
  function KeyOrder(g: GraphModel): seq<NodeId> {
    EntriesOrder(Dedup(NodeIds(g.nodes)))
  }

  /** `getShortestPathEdges`: a pointer from the predecessor to the node for
      every node (in `keys` order) that has one. */
  function TreeEdges(pred: map<NodeId, Option<NodeId>>, keys: seq<NodeId>): (r: seq<EdgePointer>)
    ensures forall e :: e in r <==> e.to in keys && e.to in pred && pred[e.to] == Some(e.from)
  {
    if keys == [] then []
    else
      var v := keys[|keys| - 1];
      TreeEdges(pred, keys[..|keys| - 1]) + (if v in pred && pred[v].Some? then [EdgePointer(pred[v].value, v)] else [])
  }

  /** `reconstructPath`: walks the predecessor links back from `target`,
      putting each node in front, until a node without predecessor. The
      walk ends because every link lowers `rank`. */
  method ReconstructPath(pred: map<NodeId, Option<NodeId>>, target: NodeId, ghost rank: map<NodeId, nat>)
    returns (path: seq<NodeId>)
    requires target in pred && Ranked(pred, rank)
    ensures path != [] && path[|path| - 1] == target
    ensures path[0] in pred && pred[path[0]] == None
    ensures forall i :: 0 < i < |path| ==> path[i] in pred && pred[path[i]] == Some(path[i - 1])
  {
    path := [];
    var current := Some(target);
    while current.Some?
      invariant current.Some? ==> current.value in pred
      invariant path == [] ==> current == Some(target)
      invariant path != [] ==> path[|path| - 1] == target && path[0] in pred && current == pred[path[0]]
      invariant forall i :: 0 < i < |path| ==> path[i] in pred && pred[path[i]] == Some(path[i - 1])
      decreases if current.Some? then rank[current.value] + 1 else 0
    {
      var path' := [current.value] + path;
      assert forall i :: 0 < i < |path'| ==> path'[i] == path[i - 1];
      path := path';
      current := pred[current.value];
    }
  }

  /** `getPathEdges`: the pointers between consecutive nodes. */
  function PathEdges(path: seq<NodeId>): (r: seq<EdgePointer>)
    ensures |r| == if path == [] then 0 else |path| - 1
    ensures forall i :: 0 <= i < |r| ==> r[i] == EdgePointer(path[i], path[i + 1])
  {
    if |path| < 2 then []
    else PathEdges(path[..|path| - 1]) + [EdgePointer(path[|path| - 2], path[|path| - 1])]
  }

  /** The nodes a path from `s` passes through, `s` first. */
  function PathNodes(s: NodeId, p: seq<Hop>): (ns: seq<NodeId>)
    ensures |ns| == |p| + 1 && ns[0] == s
    ensures forall i :: 0 <= i < |p| ==> ns[i + 1] == p[i].to
  {
    [s] + seq(|p|, i requires 0 <= i < |p| => p[i].to)
  }

  /** The pointers between the nodes of a path are its hops, each along an arc. */
  lemma PathNodesEdges(g: GraphModel, ks: set<NodeId>, s: NodeId, t: NodeId, p: seq<Hop>)
    requires IsPath(g, ks, s, t, p)
    ensures var es := PathEdges(PathNodes(s, p));
      |es| == |p| && forall i :: 0 <= i < |p| ==>
        es[i] == EdgePointer(p[i].from, p[i].to) && Arc(p[i].to, p[i].weight) in Arcs(g.edges, g.directed, p[i].from)
  {
    var ns := PathNodes(s, p);
    forall i | 0 <= i < |p| ensures ns[i] == p[i].from {
      if i > 0 {
        assert p[i - 1].to == p[i].from;
      }
    }
  }

  // The steps.

  /** The single step when the start or the target is not a node. */
  function ErrorStep(): Step {
    CreateStep(StepId(0), Custom, Overrides(state := Some(AlgorithmState())))
  }

  /** The single step when the start is the target. */
  function SameStep(start: NodeId): Step {
    CreateStep(StepId(0), Custom, Overrides(
      highlightNodes := Some(NodeList([start])), visitedNodes := Some([start]), state := Some(AlgorithmState())))
  }

  function Snapshot(dist: map<NodeId, Dist>, pred: map<NodeId, Option<NodeId>>): Option<AlgorithmState> {
    Some(AlgorithmState(distances := Some(dist), predecessors := Some(pred)))
  }

  function VisitStep(id: string, current: NodeId, closed: seq<NodeId>, open: seq<Entry>, dist: map<NodeId, Dist>,
                     pred: map<NodeId, Option<NodeId>>, keys: seq<NodeId>): Step {
    CreateStep(id, VisitNode, Overrides(
      currentNode := Some(current), visitedNodes := Some(closed), visitedEdges := Some(TreeEdges(pred, keys)),
      queuedNodes := Some(Ids(open)), state := Snapshot(dist, pred)))
  }

  function RejectStep(id: string, current: NodeId, neighbor: NodeId, closed: seq<NodeId>, open: seq<Entry>,
                      dist: map<NodeId, Dist>, pred: map<NodeId, Option<NodeId>>, keys: seq<NodeId>): Step {
    CreateStep(id, Custom, Overrides(
      currentNode := Some(current), highlightEdges := Some(EdgeList([EdgePointer(current, neighbor)])),
      visitedNodes := Some(closed), visitedEdges := Some(TreeEdges(pred, keys)), queuedNodes := Some(Ids(open)),
      rejectedNodes := Some([neighbor]), state := Snapshot(dist, pred)))
  }

  function InspectStep(id: string, current: NodeId, neighbor: NodeId, closed: seq<NodeId>, open: seq<Entry>,
                       dist: map<NodeId, Dist>, pred: map<NodeId, Option<NodeId>>, keys: seq<NodeId>): Step {
    CreateStep(id, InspectEdge, Overrides(
      currentNode := Some(current), highlightNodes := Some(NodeList([neighbor])),
      highlightEdges := Some(EdgeList([EdgePointer(current, neighbor)])),
      visitedNodes := Some(closed), visitedEdges := Some(TreeEdges(pred, keys)), queuedNodes := Some(Ids(open)),
      state := Snapshot(dist, pred)))
  }

  function RelaxStep(id: string, current: NodeId, neighbor: NodeId, closed: seq<NodeId>, open: seq<Entry>,
                     dist: map<NodeId, Dist>, pred: map<NodeId, Option<NodeId>>, keys: seq<NodeId>): Step {
    CreateStep(id, RelaxEdge, Overrides(
      currentNode := Some(current), highlightNodes := Some(NodeList([neighbor])),
      highlightEdges := Some(EdgeList([EdgePointer(current, neighbor)])),
      visitedNodes := Some(closed), visitedEdges := Some(TreeEdges(pred, keys)), queuedNodes := Some(Ids(open)),
      state := Snapshot(dist, pred)))
  }

  function TargetStep(id: string, path: seq<NodeId>, closed: seq<NodeId>, open: seq<Entry>, dist: map<NodeId, Dist>,
                      pred: map<NodeId, Option<NodeId>>): Step {
    CreateStep(id, Custom, Overrides(
      highlightNodes := Some(NodeList(path)), highlightEdges := Some(EdgeList(PathEdges(path))),
      visitedNodes := Some(closed), queuedNodes := Some(Ids(open)), state := Snapshot(dist, pred)))
  }

  function NoPathStep(id: string, closed: seq<NodeId>, dist: map<NodeId, Dist>, pred: map<NodeId, Option<NodeId>>): Step {
    CreateStep(id, Custom, Overrides(visitedNodes := Some(closed), queuedNodes := Some([]), state := Snapshot(dist, pred)))
  }

  // The search state, between rounds and while the current node's arcs are gone through.

  /** An open entry agrees with the records: its g is the node's g score,
      its h the node's heuristic value, its f their sum, and its parent the
      node's predecessor. */
  predicate Fits(e: Entry, dist: map<NodeId, Dist>, pred: map<NodeId, Option<NodeId>>, hs: map<NodeId, real>) {
    && e.id in dist && dist[e.id] == Fin(e.g) && e.id in hs && e.h == hs[e.id] && e.f == e.g + e.h
    && e.id in pred && e.parent == pred[e.id]
  }

  ghost predicate Entries(open: seq<Entry>, dist: map<NodeId, Dist>, pred: map<NodeId, Option<NodeId>>,
                          hs: map<NodeId, real>) {
    forall i :: 0 <= i < |open| ==> Fits(open[i], dist, pred, hs)
  }

  /** No weight is negative and every heuristic value is 0: the search then
      selects by g score alone, as Dijkstra's does. */
  predicate Uninformed(g: GraphModel, hs: map<NodeId, real>) {
    NonNegativeWeights(g) && forall v :: v in hs ==> hs[v] == 0.0
  }

  /** A closed node has a finite g score, which no path undercuts when the
      search is uninformed. */
  ghost predicate Closed(g: GraphModel, hs: map<NodeId, real>, start: NodeId, ks: set<NodeId>, seen: set<NodeId>,
                         dist: map<NodeId, Dist>) {
    forall v :: v in seen ==>
      v in dist && dist[v].Fin? && (Uninformed(g, hs) ==> LowerBound(g, ks, start, v, dist[v].value))
  }

  /** The search between rounds, with the first `n` closed nodes processed:
      `closed` is the closed set in insertion order and `seen` its elements;
      the g scores and predecessors obey the same laws as Dijkstra's
      distances and predecessors, with the open set in the role of the queue. */
  ghost predicate SearchState(g: GraphModel, hs: map<NodeId, real>, start: NodeId, ks: set<NodeId>, n: nat,
                              closed: seq<NodeId>, seen: set<NodeId>, open: seq<Entry>, dist: map<NodeId, Dist>,
                              pred: map<NodeId, Option<NodeId>>, paths: map<NodeId, seq<Hop>>) {
    && ks == D.Keys(g) && start in ks && hs.Keys == ks && n <= |closed|
    && D.Tables(start, ks, dist, pred) && D.Witnesses(g, start, ks, seen, dist, pred, paths)
    && start in paths && paths[start] == []
    && D.Frontier(start, ks, closed, seen, Ids(open), dist) && Closed(g, hs, start, ks, seen, dist)
    && D.Relaxed(g, n, closed, seen, dist) && Entries(open, dist, pred, hs)
  }

  /** The search while `current`, closed last, goes through its arcs. */
  ghost predicate ExpandState(g: GraphModel, hs: map<NodeId, real>, start: NodeId, ks: set<NodeId>,
                              closed: seq<NodeId>, seen: set<NodeId>, open: seq<Entry>, dist: map<NodeId, Dist>,
                              pred: map<NodeId, Option<NodeId>>, paths: map<NodeId, seq<Hop>>,
                              current: NodeId, arcs: seq<Arc>, k: nat) {
    && 0 < |closed| && current == closed[|closed| - 1] && arcs == Arcs(g.edges, g.directed, current) && k <= |arcs|
    && SearchState(g, hs, start, ks, |closed| - 1, closed, seen, open, dist, pred, paths)
    && D.PartlyRelaxed(current, arcs, k, seen, dist)
  }

  /** The steps so far: the opening step (the same as Dijkstra's), one visit
      per closed node, and the inspections of the first `n` closed nodes
      followed by `extra`. */
  ghost predicate SearchRecord(g: GraphModel, start: NodeId, n: nat, extra: seq<EdgePointer>, closed: seq<NodeId>,
                               steps: seq<Step>) {
    && n <= |closed| && |steps| > 0
    && steps[0] == D.FirstStep(start, D.InitialDistances(g, start), D.InitialPredecessors(g))
    && Visits(steps) == closed
    && Inspections(steps) == D.DijkstraExpansion(g, closed[..n]) + extra
  }

  function StartEntry(hs: map<NodeId, real>, start: NodeId): Entry
    requires start in hs
  {
    Entry(start, 0.0, hs[start], hs[start], None)
  }

  lemma StartState(g: GraphModel, hs: map<NodeId, real>, start: NodeId)
    requires start in D.Keys(g) && hs.Keys == D.Keys(g)
    ensures SearchState(g, hs, start, D.Keys(g), 0, [], {}, [StartEntry(hs, start)], D.InitialDistances(g, start),
                        D.InitialPredecessors(g), map[start := []])
  {
    assert IsPath(g, D.Keys(g), start, start, []);
    assert Ids([StartEntry(hs, start)]) == [start];
  }

  lemma StartRecord(g: GraphModel, start: NodeId)
    ensures SearchRecord(g, start, 0, [], [], [D.FirstStep(start, D.InitialDistances(g, start), D.InitialPredecessors(g))])
  {
    var s := D.FirstStep(start, D.InitialDistances(g, start), D.InitialPredecessors(g));
    ProjectionsSnoc([], s);
  }

  // Selecting the entry with the least f.

  /** The entry the scan picks is open at a finite g score, so it is not
      closed; when the search is uninformed, no path undercuts its g score. */
  lemma SelectLowest(g: GraphModel, hs: map<NodeId, real>, start: NodeId, ks: set<NodeId>, closed: seq<NodeId>,
                     seen: set<NodeId>, open: seq<Entry>, dist: map<NodeId, Dist>, pred: map<NodeId, Option<NodeId>>,
                     paths: map<NodeId, seq<Hop>>, i: nat)
    requires SearchState(g, hs, start, ks, |closed|, closed, seen, open, dist, pred, paths)
    requires i < |open| && forall j :: 0 <= j < |open| ==> open[i].f <= open[j].f
    ensures open[i].id !in seen && open[i].id in ks && dist[open[i].id] == Fin(open[i].g)
    ensures Uninformed(g, hs) ==> LowerBound(g, ks, start, open[i].id, open[i].g)
  {
    assert Fits(open[i], dist, pred, hs);
    assert Ids(open)[i] == open[i].id;
    if Uninformed(g, hs) {
      SelectOptimal(g, hs, start, ks, closed, seen, open, dist, pred, paths, i);
    }
  }

  lemma SelectOptimal(g: GraphModel, hs: map<NodeId, real>, start: NodeId, ks: set<NodeId>, closed: seq<NodeId>,
                      seen: set<NodeId>, open: seq<Entry>, dist: map<NodeId, Dist>, pred: map<NodeId, Option<NodeId>>,
                      paths: map<NodeId, seq<Hop>>, i: nat)
    requires SearchState(g, hs, start, ks, |closed|, closed, seen, open, dist, pred, paths) && Uninformed(g, hs)
    requires i < |open| && forall j :: 0 <= j < |open| ==> open[i].f <= open[j].f
    ensures LowerBound(g, ks, start, open[i].id, open[i].g)
  {
    var c, queue := open[i].id, Ids(open);
    assert Fits(open[i], dist, pred, hs) && queue[i] == c;
    forall x | x in queue && x in dist ensures AtMost(dist[c], dist[x]) {
      var j :| 0 <= j < |open| && queue[j] == x;
      FitsByG(open[i], open[j], dist, pred, hs);
    }
    forall p: seq<Hop> | IsPath(g, ks, start, c, p) ensures open[i].g <= Cost(p) {
      if c == start {
        CostPrefix(g, ks, start, c, p, 0);
        assert p[..0] == [];
      } else {
        assert closed != [] && start in seen;
        D.CutBelow(g, ks, start, closed, seen, queue, dist, c, p);
      }
    }
  }

  /** With every heuristic value 0, an entry's f is its g, so an f no
      greater than another's means a g score no greater. */
  lemma FitsByG(e: Entry, e': Entry, dist: map<NodeId, Dist>, pred: map<NodeId, Option<NodeId>>, hs: map<NodeId, real>)
    requires Fits(e, dist, pred, hs) && Fits(e', dist, pred, hs) && e.f <= e'.f
    requires forall v :: v in hs ==> hs[v] == 0.0
    ensures AtMost(dist[e.id], dist[e'.id])
  {
  }

  /** Moving the picked entry from the open set to the closed set keeps the
      state, with nothing of the new closed node's arcs gone through yet. */
  lemma SelectState(g: GraphModel, hs: map<NodeId, real>, start: NodeId, ks: set<NodeId>, closed: seq<NodeId>,
                    seen: set<NodeId>, open: seq<Entry>, dist: map<NodeId, Dist>, pred: map<NodeId, Option<NodeId>>,
                    paths: map<NodeId, seq<Hop>>, i: nat)
    requires SearchState(g, hs, start, ks, |closed|, closed, seen, open, dist, pred, paths)
    requires i < |open| && forall j :: 0 <= j < |open| ==> open[i].f <= open[j].f
    ensures var c := open[i].id;
      && c in ks && c !in seen && |seen + {c}| == |seen| + 1
      && ExpandState(g, hs, start, ks, closed + [c], seen + {c}, Delete(open, c), dist, pred, paths,
                     c, Arcs(g.edges, g.directed, c), 0)
  {
    var c := open[i].id;
    SelectLowest(g, hs, start, ks, closed, seen, open, dist, pred, paths, i);
    SelectOpen(start, ks, closed, seen, open, dist, pred, hs, i);
    D.SelectRelaxed(g, closed, seen, dist, c);
  }

  lemma SelectOpen(start: NodeId, ks: set<NodeId>, closed: seq<NodeId>, seen: set<NodeId>, open: seq<Entry>,
                   dist: map<NodeId, Dist>, pred: map<NodeId, Option<NodeId>>, hs: map<NodeId, real>, i: nat)
    requires D.Frontier(start, ks, closed, seen, Ids(open), dist) && Entries(open, dist, pred, hs) && dist.Keys == ks
    requires i < |open|
    ensures var c := open[i].id;
      && c !in seen && |seen + {c}| == |seen| + 1
      && D.Frontier(start, ks, closed + [c], seen + {c}, Ids(Delete(open, c)), dist)
      && Entries(Delete(open, c), dist, pred, hs)
  {
    assert Ids(open)[i] == open[i].id;
    OpenRemove(open, i);
    EntriesRemove(open, dist, pred, hs, i);
    SelectShape(start, seen, open, dist, pred, hs, i);
    D.SelectOrder(start, ks, closed, seen, Ids(open), dist, open[i].id, Ids(Delete(open, open[i].id)));
  }

  /** Deleting the entry at position `i` from an open set without repeated
      ids leaves the other ids, still without repetitions. */
  lemma OpenRemove(open: seq<Entry>, i: nat)
    requires i < |open| && NoDup(Ids(open))
    ensures Delete(open, open[i].id) == open[..i] + open[i + 1..]
    ensures NoDup(Ids(Delete(open, open[i].id)))
    ensures forall x :: x in Ids(Delete(open, open[i].id)) <==> x in Ids(open) && x != open[i].id
  {
    forall j | 0 <= j < |open| && j != i ensures open[j].id != open[i].id {
      assert Ids(open)[j] != Ids(open)[i];
    }
    DeleteAt(open, i);
    IdsRemove(open, i);
    RemoveAt(Ids(open), i);
  }

  lemma EntriesRemove(open: seq<Entry>, dist: map<NodeId, Dist>, pred: map<NodeId, Option<NodeId>>,
                      hs: map<NodeId, real>, i: nat)
    requires Entries(open, dist, pred, hs) && i < |open|
    ensures Entries(open[..i] + open[i + 1..], dist, pred, hs)
  {
    var rest := open[..i] + open[i + 1..];
    forall j | 0 <= j < |rest| ensures Fits(rest[j], dist, pred, hs) {
      if j < i { assert rest[j] == open[j]; } else { assert rest[j] == open[j + 1]; }
    }
  }

  lemma EntriesIds(open: seq<Entry>, dist: map<NodeId, Dist>, pred: map<NodeId, Option<NodeId>>, hs: map<NodeId, real>)
    requires Entries(open, dist, pred, hs)
    ensures forall j :: 0 <= j < |Ids(open)| ==> Ids(open)[j] in dist
  {
    forall j | 0 <= j < |Ids(open)| ensures Ids(open)[j] in dist {
      assert Fits(open[j], dist, pred, hs);
    }
  }

  lemma SelectShape(start: NodeId, seen: set<NodeId>, open: seq<Entry>, dist: map<NodeId, Dist>,
                    pred: map<NodeId, Option<NodeId>>, hs: map<NodeId, real>, i: nat)
    requires D.QueueShape(start, seen, Ids(open), dist) && D.QueueCovers(seen, Ids(open), dist)
    requires Entries(open, dist, pred, hs) && i < |open|
    ensures D.QueueShape(start, seen + {open[i].id}, Ids(Delete(open, open[i].id)), dist)
    ensures D.QueueCovers(seen + {open[i].id}, Ids(Delete(open, open[i].id)), dist)
  {
    DeleteIds(open, i);
    EntriesIds(open, dist, pred, hs);
    RestShape(start, seen, Ids(open), i, dist);
  }

  lemma DeleteIds(open: seq<Entry>, i: nat)
    requires i < |open| && NoDup(Ids(open))
    ensures Ids(Delete(open, open[i].id)) == Ids(open)[..i] + Ids(open)[i + 1..] && Ids(open)[i] == open[i].id
  {
    OpenRemove(open, i);
    IdsRemove(open, i);
  }

  /** Taking the queued node at position `i` out of the queue and into the
      visited set keeps the queue's shape and coverage. */
  lemma RestShape(start: NodeId, seen: set<NodeId>, ids: seq<NodeId>, i: nat, dist: map<NodeId, Dist>)
    requires D.QueueShape(start, seen, ids, dist) && D.QueueCovers(seen, ids, dist)
    requires (forall j :: 0 <= j < |ids| ==> ids[j] in dist) && i < |ids|
    ensures D.QueueShape(start, seen + {ids[i]}, ids[..i] + ids[i + 1..], dist)
    ensures D.QueueCovers(seen + {ids[i]}, ids[..i] + ids[i + 1..], dist)
  {
    var rest := ids[..i] + ids[i + 1..];
    RemoveAt(ids, i);
    forall j | 0 <= j < |rest| ensures rest[j] !in seen + {ids[i]} && rest[j] in dist && dist[rest[j]].Fin? {
      assert rest[j] in rest;
      assert rest[j] in ids;
    }
  }

  // Going through the arcs of the current node.

  /** An arc to a closed node changes nothing but the step list. */
  lemma RejectState(g: GraphModel, hs: map<NodeId, real>, start: NodeId, ks: set<NodeId>, closed: seq<NodeId>,
                    seen: set<NodeId>, open: seq<Entry>, dist: map<NodeId, Dist>, pred: map<NodeId, Option<NodeId>>,
                    paths: map<NodeId, seq<Hop>>, current: NodeId, arcs: seq<Arc>, k: nat)
    requires ExpandState(g, hs, start, ks, closed, seen, open, dist, pred, paths, current, arcs, k) && k < |arcs|
    requires arcs[k].node in seen
    ensures ExpandState(g, hs, start, ks, closed, seen, open, dist, pred, paths, current, arcs, k + 1)
  {
  }

  /** An arc that does not lower its end's g score leaves everything as it was. */
  lemma KeepState(g: GraphModel, hs: map<NodeId, real>, start: NodeId, ks: set<NodeId>, closed: seq<NodeId>,
                  seen: set<NodeId>, open: seq<Entry>, dist: map<NodeId, Dist>, pred: map<NodeId, Option<NodeId>>,
                  paths: map<NodeId, seq<Hop>>, current: NodeId, arcs: seq<Arc>, k: nat)
    requires ExpandState(g, hs, start, ks, closed, seen, open, dist, pred, paths, current, arcs, k) && k < |arcs|
    requires current in dist
    requires !(arcs[k].node in dist && Less(Add(dist[current], arcs[k].weight), dist[arcs[k].node]))
    ensures ExpandState(g, hs, start, ks, closed, seen, open, dist, pred, paths, current, arcs, k + 1)
  {
  }

  /** The node closed last and the start are closed. */
  lemma ClosedEnds(start: NodeId, ks: set<NodeId>, closed: seq<NodeId>, seen: set<NodeId>, queue: seq<NodeId>)
    requires D.VisitOrder(start, ks, closed, seen, queue) && 0 < |closed|
    ensures closed[|closed| - 1] in seen && start in seen
  {
    assert closed[0] in seen;
  }

  /** Relaxing the arc to a node that is not closed, when the g score
      through the current node is strictly lower, keeps the state. */
  lemma RelaxState(g: GraphModel, hs: map<NodeId, real>, start: NodeId, ks: set<NodeId>, closed: seq<NodeId>,
                   seen: set<NodeId>, open: seq<Entry>, dist: map<NodeId, Dist>, pred: map<NodeId, Option<NodeId>>,
                   paths: map<NodeId, seq<Hop>>, current: NodeId, arcs: seq<Arc>, k: nat,
                   open': seq<Entry>, dist': map<NodeId, Dist>, pred': map<NodeId, Option<NodeId>>,
                   paths': map<NodeId, seq<Hop>>)
    requires ExpandState(g, hs, start, ks, closed, seen, open, dist, pred, paths, current, arcs, k) && k < |arcs|
    requires arcs[k].node !in seen && current in dist && dist[current].Fin? && arcs[k].node in dist
    requires Less(Add(dist[current], arcs[k].weight), dist[arcs[k].node])
    requires dist' == dist[arcs[k].node := Add(dist[current], arcs[k].weight)]
    requires pred' == pred[arcs[k].node := Some(current)]
    requires open' == Put(open, NewEntry(hs, arcs[k].node, Add(dist[current], arcs[k].weight), current))
    requires paths' == paths[arcs[k].node := paths[current] + [Hop(current, arcs[k].node, arcs[k].weight)]]
    ensures ExpandState(g, hs, start, ks, closed, seen, open', dist', pred', paths', current, arcs, k + 1)
    ensures D.Lowered(dist, dist') && forall v :: v in closed && v in dist ==> dist'[v] == dist[v]
  {
    ClosedEnds(start, ks, closed, seen, Ids(open));
    RelaxStateTables(g, hs, start, ks, seen, dist, pred, paths, current, arcs[k], dist', pred', paths');
    RelaxStateOpen(g, hs, start, ks, closed, seen, open, dist, pred, current, arcs, k, dist', pred', open');
    D.LowerOne(dist, arcs[k].node, Add(dist[current], arcs[k].weight));
  }

  /** Relaxing an arc to a node that is not closed keeps the records' laws. */
  lemma RelaxStateTables(g: GraphModel, hs: map<NodeId, real>, start: NodeId, ks: set<NodeId>, seen: set<NodeId>,
                         dist: map<NodeId, Dist>, pred: map<NodeId, Option<NodeId>>, paths: map<NodeId, seq<Hop>>,
                         current: NodeId, a: Arc, dist': map<NodeId, Dist>, pred': map<NodeId, Option<NodeId>>,
                         paths': map<NodeId, seq<Hop>>)
    requires D.Tables(start, ks, dist, pred) && D.Witnesses(g, start, ks, seen, dist, pred, paths)
    requires start in paths && paths[start] == [] && Closed(g, hs, start, ks, seen, dist)
    requires current in seen && start in seen && start in ks && a in Arcs(g.edges, g.directed, current)
    requires a.node !in seen && current in dist && dist[current].Fin? && a.node in dist
    requires dist' == dist[a.node := Add(dist[current], a.weight)] && pred' == pred[a.node := Some(current)]
    requires paths' == paths[a.node := paths[current] + [Hop(current, a.node, a.weight)]]
    ensures D.Tables(start, ks, dist', pred') && D.Witnesses(g, start, ks, seen, dist', pred', paths')
    ensures start in paths' && paths'[start] == [] && Closed(g, hs, start, ks, seen, dist')
  {
    D.RelaxTables(start, ks, seen, dist, pred, current, a.node, Add(dist[current], a.weight));
    D.RelaxWitnesses(g, start, ks, seen, dist, pred, paths, current, a, Add(dist[current], a.weight));
    RelaxClosed(g, hs, start, ks, seen, dist, a.node, Add(dist[current], a.weight));
  }

  lemma RelaxClosed(g: GraphModel, hs: map<NodeId, real>, start: NodeId, ks: set<NodeId>, seen: set<NodeId>,
                    dist: map<NodeId, Dist>, y: NodeId, d: Dist)
    requires Closed(g, hs, start, ks, seen, dist) && y !in seen
    ensures Closed(g, hs, start, ks, seen, dist[y := d])
  {
  }

  /** The same relaxation puts the new entry into the open set, which keeps
      the open set's laws and every earlier relaxation. */
  lemma RelaxStateOpen(g: GraphModel, hs: map<NodeId, real>, start: NodeId, ks: set<NodeId>, closed: seq<NodeId>,
                       seen: set<NodeId>, open: seq<Entry>, dist: map<NodeId, Dist>, pred: map<NodeId, Option<NodeId>>,
                       current: NodeId, arcs: seq<Arc>, k: nat, dist': map<NodeId, Dist>,
                       pred': map<NodeId, Option<NodeId>>, open': seq<Entry>)
    requires 0 < |closed| && current in seen && k < |arcs| && hs.Keys == ks && dist.Keys == ks && pred.Keys == ks
    requires D.Frontier(start, ks, closed, seen, Ids(open), dist) && Entries(open, dist, pred, hs)
    requires D.Relaxed(g, |closed| - 1, closed, seen, dist) && D.PartlyRelaxed(current, arcs, k, seen, dist)
    requires arcs[k].node !in seen && current in dist && dist[current].Fin? && arcs[k].node in dist
    requires Less(Add(dist[current], arcs[k].weight), dist[arcs[k].node])
    requires dist' == dist[arcs[k].node := Add(dist[current], arcs[k].weight)]
    requires pred' == pred[arcs[k].node := Some(current)]
    requires open' == Put(open, NewEntry(hs, arcs[k].node, Add(dist[current], arcs[k].weight), current))
    ensures D.Frontier(start, ks, closed, seen, Ids(open'), dist')
    ensures D.Relaxed(g, |closed| - 1, closed, seen, dist') && D.PartlyRelaxed(current, arcs, k + 1, seen, dist')
    ensures Entries(open', dist', pred', hs)
  {
    RelaxEntries(open, dist, pred, hs, arcs[k].node, Add(dist[current], arcs[k].weight), current, open', dist', pred');
    D.RelaxStateQueue(g, start, ks, closed, seen, Ids(open), dist, current, arcs, k, Add(dist[current], arcs[k].weight));
  }

  /** The open entry that a relaxation of `y` to the finite g score `d`
      through `parent` writes. */
  function NewEntry(hs: map<NodeId, real>, y: NodeId, d: Dist, parent: NodeId): (e: Entry)
    requires y in hs && d.Fin?
    ensures e.id == y && Fin(e.g) == d && e.h == hs[y] && e.f == e.g + e.h && e.parent == Some(parent)
  {
    Entry(y, d.value, hs[y], d.value + hs[y], Some(parent))
  }

  lemma RelaxEntries(open: seq<Entry>, dist: map<NodeId, Dist>, pred: map<NodeId, Option<NodeId>>,
                     hs: map<NodeId, real>, y: NodeId, d: Dist, parent: NodeId, open': seq<Entry>,
                     dist': map<NodeId, Dist>, pred': map<NodeId, Option<NodeId>>)
    requires Entries(open, dist, pred, hs) && NoDup(Ids(open)) && y in hs && d.Fin?
    requires open' == Put(open, NewEntry(hs, y, d, parent))
    requires dist' == dist[y := d] && pred' == pred[y := Some(parent)]
    ensures Ids(open') == if y in Ids(open) then Ids(open) else Ids(open) + [y]
    ensures Entries(open', dist', pred', hs)
  {
    var e := NewEntry(hs, y, d, parent);
    var r := Put(open, e);
    forall j | 0 <= j < |r| ensures Fits(r[j], dist', pred', hs) {
      assert r[j] in r;
      if r[j] != e {
        var m :| 0 <= m < |open| && open[m] == r[j];
        assert Fits(open[m], dist, pred, hs);
      }
    }
  }

  /** Once every arc is gone through, the current node counts as processed. */
  lemma ExpandStateDone(g: GraphModel, hs: map<NodeId, real>, start: NodeId, ks: set<NodeId>, closed: seq<NodeId>,
                        seen: set<NodeId>, open: seq<Entry>, dist: map<NodeId, Dist>, pred: map<NodeId, Option<NodeId>>,
                        paths: map<NodeId, seq<Hop>>, current: NodeId, arcs: seq<Arc>)
    requires ExpandState(g, hs, start, ks, closed, seen, open, dist, pred, paths, current, arcs, |arcs|)
    ensures SearchState(g, hs, start, ks, |closed|, closed, seen, open, dist, pred, paths)
  {
    D.RelaxedDone(g, closed, seen, dist, arcs);
  }

  // The record side.

  lemma VisitRecord(g: GraphModel, start: NodeId, closed: seq<NodeId>, steps: seq<Step>, c: NodeId, s: Step)
    requires SearchRecord(g, start, |closed|, [], closed, steps)
    requires s.kind == VisitNode && s.currentNode == Some(c)
    ensures SearchRecord(g, start, |closed|, [], closed + [c], steps + [s])
  {
    ProjectionsSnoc(steps, s);
    assert closed[..|closed|] == closed;
    assert (closed + [c])[..|closed|] == closed;
  }

  lemma RejectRecord(g: GraphModel, start: NodeId, closed: seq<NodeId>, steps: seq<Step>, current: NodeId,
                     arcs: seq<Arc>, k: nat, s: Step)
    requires 0 < |closed| && k < |arcs| && arcs[k].node in closed && s.kind == Custom
    requires SearchRecord(g, start, |closed| - 1, Pointers(current, D.Unsettled(arcs[..k], closed)), closed, steps)
    ensures SearchRecord(g, start, |closed| - 1, Pointers(current, D.Unsettled(arcs[..k + 1], closed)), closed, steps + [s])
  {
    ProjectionsSnoc(steps, s);
    D.UnsettledSnoc(arcs, closed, k);
    var ns := D.Unsettled(arcs[..k], closed);
    assert ns + [] == ns;
  }

  lemma InspectRecord(g: GraphModel, start: NodeId, closed: seq<NodeId>, steps: seq<Step>, current: NodeId,
                      arcs: seq<Arc>, k: nat, s: Step)
    requires 0 < |closed| && k < |arcs| && arcs[k].node !in closed
    requires SearchRecord(g, start, |closed| - 1, Pointers(current, D.Unsettled(arcs[..k], closed)), closed, steps)
    requires s.kind == InspectEdge && s.highlightEdges == Some(EdgeList([EdgePointer(current, arcs[k].node)]))
    ensures SearchRecord(g, start, |closed| - 1, Pointers(current, D.Unsettled(arcs[..k + 1], closed)), closed, steps + [s])
  {
    ProjectionsSnoc(steps, s);
    D.UnsettledSnoc(arcs, closed, k);
    var ns := D.Unsettled(arcs[..k], closed);
    PointersAppend(current, ns, arcs[k].node);
    var done := D.DijkstraExpansion(g, closed[..|closed| - 1]);
    AppendAssoc(done, Pointers(current, ns), [EdgePointer(current, arcs[k].node)]);
  }

  lemma RelaxRecord(g: GraphModel, start: NodeId, closed: seq<NodeId>, steps: seq<Step>, extra: seq<EdgePointer>, s: Step)
    requires 0 < |closed|
    requires SearchRecord(g, start, |closed| - 1, extra, closed, steps)
    requires s.kind == RelaxEdge
    ensures SearchRecord(g, start, |closed| - 1, extra, closed, steps + [s])
  {
    ProjectionsSnoc(steps, s);
  }

  lemma ExpandRecordDone(g: GraphModel, start: NodeId, closed: seq<NodeId>, steps: seq<Step>, current: NodeId)
    requires 0 < |closed| && current == closed[|closed| - 1]
    requires var arcs := Arcs(g.edges, g.directed, current);
      SearchRecord(g, start, |closed| - 1, Pointers(current, D.Unsettled(arcs[..|arcs|], closed)), closed, steps)
    ensures SearchRecord(g, start, |closed|, [], closed, steps)
  {
    var arcs := Arcs(g.edges, g.directed, current);
    assert arcs[..|arcs|] == arcs;
    assert closed[..|closed|] == closed;
    assert closed[..|closed|][..|closed| - 1] == closed[..|closed| - 1];
  }

  // The methods.

  /** One arc of the current node: reported as rejected when its end is
      closed; otherwise inspected, and relaxed when the g score through the
      current node is strictly below the end's. */
  method ExamineArc(g: GraphModel, hs: map<NodeId, real>, start: NodeId, ghost ks: set<NodeId>, keys: seq<NodeId>,
                    current: NodeId, arcs: seq<Arc>, k: nat, closed: seq<NodeId>, ghost seen: set<NodeId>,
                    open0: seq<Entry>, dist0: map<NodeId, Dist>, pred0: map<NodeId, Option<NodeId>>,
                    ghost paths0: map<NodeId, seq<Hop>>, steps0: seq<Step>)
    returns (open: seq<Entry>, dist: map<NodeId, Dist>, pred: map<NodeId, Option<NodeId>>,
             ghost paths: map<NodeId, seq<Hop>>, steps: seq<Step>)
    requires ExpandState(g, hs, start, ks, closed, seen, open0, dist0, pred0, paths0, current, arcs, k) && k < |arcs|
    requires SearchRecord(g, start, |closed| - 1, Pointers(current, D.Unsettled(arcs[..k], closed)), closed, steps0)
    ensures ExpandState(g, hs, start, ks, closed, seen, open, dist, pred, paths, current, arcs, k + 1)
    ensures SearchRecord(g, start, |closed| - 1, Pointers(current, D.Unsettled(arcs[..k + 1], closed)), closed, steps)
    ensures D.Lowered(dist0, dist)
    ensures forall v :: v in closed && v in dist0 ==> dist[v] == dist0[v]
  {
    open, dist, pred, paths, steps := open0, dist0, pred0, paths0, steps0;
    D.LoweredRefl(dist);
    var neighbor, weight := arcs[k].node, arcs[k].weight;
    if neighbor in closed {
      var rejectStep := RejectStep(StepId(|steps|), current, neighbor, closed, open, dist, pred, keys);
      RejectState(g, hs, start, ks, closed, seen, open, dist, pred, paths, current, arcs, k);
      RejectRecord(g, start, closed, steps, current, arcs, k, rejectStep);
      steps := steps + [rejectStep];
      return;
    }
    assert current in seen && start in seen;
    var tentativeG := Add(dist[current], weight);
    var inspectStep := InspectStep(StepId(|steps|), current, neighbor, closed, open, dist, pred, keys);
    InspectRecord(g, start, closed, steps, current, arcs, k, inspectStep);
    steps := steps + [inspectStep];
    if neighbor in dist && Less(tentativeG, dist[neighbor]) {
      var open' := Put(open, NewEntry(hs, neighbor, tentativeG, current));
      var dist' := dist[neighbor := tentativeG];
      var pred' := pred[neighbor := Some(current)];
      ghost var paths' := paths[neighbor := paths[current] + [Hop(current, neighbor, weight)]];
      RelaxState(g, hs, start, ks, closed, seen, open, dist, pred, paths, current, arcs, k, open', dist', pred', paths');
      open, dist, pred, paths := open', dist', pred', paths';
      var relaxStep := RelaxStep(StepId(|steps|), current, neighbor, closed, open, dist, pred, keys);
      RelaxRecord(g, start, closed, steps, Pointers(current, D.Unsettled(arcs[..k + 1], closed)), relaxStep);
      steps := steps + [relaxStep];
    } else {
      KeepState(g, hs, start, ks, closed, seen, open, dist, pred, paths, current, arcs, k);
    }
  }

  /** The loop over the arcs of `current`, the node closed last. */
  method ExamineArcs(g: GraphModel, hs: map<NodeId, real>, start: NodeId, ghost ks: set<NodeId>, keys: seq<NodeId>,
                     current: NodeId, arcs: seq<Arc>, closed: seq<NodeId>, ghost seen: set<NodeId>,
                     open0: seq<Entry>, dist0: map<NodeId, Dist>, pred0: map<NodeId, Option<NodeId>>,
                     ghost paths0: map<NodeId, seq<Hop>>, steps0: seq<Step>)
    returns (open: seq<Entry>, dist: map<NodeId, Dist>, pred: map<NodeId, Option<NodeId>>,
             ghost paths: map<NodeId, seq<Hop>>, steps: seq<Step>)
    requires ExpandState(g, hs, start, ks, closed, seen, open0, dist0, pred0, paths0, current, arcs, 0)
    requires SearchRecord(g, start, |closed| - 1, Pointers(current, D.Unsettled(arcs[..0], closed)), closed, steps0)
    ensures ExpandState(g, hs, start, ks, closed, seen, open, dist, pred, paths, current, arcs, |arcs|)
    ensures SearchRecord(g, start, |closed| - 1, Pointers(current, D.Unsettled(arcs[..|arcs|], closed)), closed, steps)
    ensures D.Lowered(dist0, dist)
    ensures forall v :: v in closed && v in dist0 ==> dist[v] == dist0[v]
  {
    open, dist, pred, paths, steps := open0, dist0, pred0, paths0, steps0;
    D.LoweredRefl(dist);
    for k := 0 to |arcs|
      invariant ExpandState(g, hs, start, ks, closed, seen, open, dist, pred, paths, current, arcs, k)
      invariant SearchRecord(g, start, |closed| - 1, Pointers(current, D.Unsettled(arcs[..k], closed)), closed, steps)
      invariant D.Lowered(dist0, dist)
      invariant forall v :: v in closed && v in dist0 ==> dist[v] == dist0[v]
    {
      ghost var before := dist;
      open, dist, pred, paths, steps :=
        ExamineArc(g, hs, start, ks, keys, current, arcs, k, closed, seen, open, dist, pred, paths, steps);
      D.LoweredTrans(dist0, before, dist);
    }
  }

  /** A round that does not reach the target: the picked entry leaves the
      open set, its node is closed and visited, and its arcs are gone through. */
  method Expand(g: GraphModel, hs: map<NodeId, real>, start: NodeId, ghost ks: set<NodeId>, keys: seq<NodeId>,
                closed0: seq<NodeId>, ghost seen0: set<NodeId>, open0: seq<Entry>, i: nat, dist0: map<NodeId, Dist>,
                pred0: map<NodeId, Option<NodeId>>, ghost paths0: map<NodeId, seq<Hop>>, steps0: seq<Step>)
    returns (closed: seq<NodeId>, ghost seen: set<NodeId>, open: seq<Entry>, dist: map<NodeId, Dist>,
             pred: map<NodeId, Option<NodeId>>, ghost paths: map<NodeId, seq<Hop>>, steps: seq<Step>)
    requires SearchState(g, hs, start, ks, |closed0|, closed0, seen0, open0, dist0, pred0, paths0)
    requires SearchRecord(g, start, |closed0|, [], closed0, steps0)
    requires i < |open0| && forall j :: 0 <= j < |open0| ==> open0[i].f <= open0[j].f
    ensures SearchState(g, hs, start, ks, |closed|, closed, seen, open, dist, pred, paths)
    ensures SearchRecord(g, start, |closed|, [], closed, steps)
    ensures closed == closed0 + [open0[i].id] && seen == seen0 + {open0[i].id} && |seen| == |seen0| + 1
    ensures D.Lowered(dist0, dist) && forall v :: v in closed0 && v in dist0 ==> dist[v] == dist0[v]
  {
    var current := open0[i].id;
    SelectState(g, hs, start, ks, closed0, seen0, open0, dist0, pred0, paths0, i);
    open := Delete(open0, current);
    closed, seen := closed0 + [current], seen0 + {current};
    var visitStep := VisitStep(StepId(|steps0|), current, closed, open, dist0, pred0, keys);
    VisitRecord(g, start, closed0, steps0, current, visitStep);
    var arcs := Arcs(g.edges, g.directed, current);
    assert arcs[..0] == [];
    open, dist, pred, paths, steps :=
      ExamineArcs(g, hs, start, ks, keys, current, arcs, closed, seen, open, dist0, pred0, paths0, steps0 + [visitStep]);
    ExpandStateDone(g, hs, start, ks, closed, seen, open, dist, pred, paths, current, arcs);
    ExpandRecordDone(g, start, closed, steps, current);
  }

  /** The number of closed nodes is bounded by the number of node ids. */
  lemma SeenBound(g: GraphModel, hs: map<NodeId, real>, start: NodeId, ks: set<NodeId>, n: nat, closed: seq<NodeId>,
                  seen: set<NodeId>, open: seq<Entry>, dist: map<NodeId, Dist>, pred: map<NodeId, Option<NodeId>>,
                  paths: map<NodeId, seq<Hop>>)
    requires SearchState(g, hs, start, ks, n, closed, seen, open, dist, pred, paths)
    ensures |seen| <= |ks|
  {
    assert seen <= ks + {start} && start in ks;
    SubsetCard(seen, ks);
  }

  /** The main loop. Each round scans the open set for the least f (the
      scan is written at the end of the previous round, and once before the
      loop); the search stops when the open set is empty or the scan picks
      the target, and otherwise expands the picked entry. The `!current`
      exit is never taken: the scan picks an entry whenever the open set has
      one. */
  method Search(g: GraphModel, start: NodeId, target: NodeId, keys: seq<NodeId>)
    returns (ghost ks: set<NodeId>, hs: map<NodeId, real>, closed: seq<NodeId>, ghost seen: set<NodeId>,
             open: seq<Entry>, dist: map<NodeId, Dist>, pred: map<NodeId, Option<NodeId>>,
             ghost paths: map<NodeId, seq<Hop>>, steps: seq<Step>, pick: Option<nat>)
    requires start in D.Keys(g)
    ensures hs == Heuristics(g.nodes)
    ensures SearchState(g, hs, start, ks, |closed|, closed, seen, open, dist, pred, paths)
    ensures SearchRecord(g, start, |closed|, [], closed, steps)
    ensures target !in seen
    ensures pick == LowestIndex(open)
    ensures pick.Some? ==> open[pick.value].id == target
  {
    hs, dist, pred := InitScores(g, start);
    ks, closed, seen, paths := D.Keys(g), [], {}, map[start := []];
    open := [StartEntry(hs, start)];
    steps := [D.FirstStep(start, dist, pred)];
    StartState(g, hs, start);
    StartRecord(g, start);
    closed, seen, open, dist, pred, paths, steps, pick :=
      Rounds(g, hs, start, target, ks, keys, closed, seen, open, dist, pred, paths, steps);
  }

  /** The rounds, from the state after the opening step. */
  method Rounds(g: GraphModel, hs: map<NodeId, real>, start: NodeId, target: NodeId, ghost ks: set<NodeId>,
                keys: seq<NodeId>, closed0: seq<NodeId>, ghost seen0: set<NodeId>, open0: seq<Entry>,
                dist0: map<NodeId, Dist>, pred0: map<NodeId, Option<NodeId>>, ghost paths0: map<NodeId, seq<Hop>>,
                steps0: seq<Step>)
    returns (closed: seq<NodeId>, ghost seen: set<NodeId>, open: seq<Entry>, dist: map<NodeId, Dist>,
             pred: map<NodeId, Option<NodeId>>, ghost paths: map<NodeId, seq<Hop>>, steps: seq<Step>,
             pick: Option<nat>)
    requires SearchState(g, hs, start, ks, |closed0|, closed0, seen0, open0, dist0, pred0, paths0)
    requires SearchRecord(g, start, |closed0|, [], closed0, steps0)
    requires target !in seen0
    ensures SearchState(g, hs, start, ks, |closed|, closed, seen, open, dist, pred, paths)
    ensures SearchRecord(g, start, |closed|, [], closed, steps)
    ensures target !in seen
    ensures pick == LowestIndex(open)
    ensures pick.Some? ==> open[pick.value].id == target
  {
    closed, seen, open, dist, pred, paths, steps := closed0, seen0, open0, dist0, pred0, paths0, steps0;
    SeenBound(g, hs, start, ks, |closed|, closed, seen, open, dist, pred, paths);
    pick := Lowest(open);
    while pick.Some? && open[pick.value].id != target
      invariant SearchState(g, hs, start, ks, |closed|, closed, seen, open, dist, pred, paths)
      invariant SearchRecord(g, start, |closed|, [], closed, steps)
      invariant target !in seen && |seen| <= |ks|
      invariant pick == LowestIndex(open)
      decreases |ks| - |seen|
    {
      closed, seen, open, dist, pred, paths, steps, pick :=
        Round(g, hs, start, target, ks, keys, closed, seen, open, pick.value, dist, pred, paths, steps);
    }
  }

  /** A round that does not reach the target: expand the picked entry, then
      scan the open set again. */
  method Round(g: GraphModel, hs: map<NodeId, real>, start: NodeId, target: NodeId, ghost ks: set<NodeId>, keys: seq<NodeId>,
               closed0: seq<NodeId>, ghost seen0: set<NodeId>, open0: seq<Entry>, i: nat, dist0: map<NodeId, Dist>,
               pred0: map<NodeId, Option<NodeId>>, ghost paths0: map<NodeId, seq<Hop>>, steps0: seq<Step>)
    returns (closed: seq<NodeId>, ghost seen: set<NodeId>, open: seq<Entry>, dist: map<NodeId, Dist>,
             pred: map<NodeId, Option<NodeId>>, ghost paths: map<NodeId, seq<Hop>>, steps: seq<Step>,
             pick: Option<nat>)
    requires SearchState(g, hs, start, ks, |closed0|, closed0, seen0, open0, dist0, pred0, paths0)
    requires SearchRecord(g, start, |closed0|, [], closed0, steps0)
    requires LowestIndex(open0) == Some(i) && open0[i].id != target
    requires target !in seen0
    ensures SearchState(g, hs, start, ks, |closed|, closed, seen, open, dist, pred, paths)
    ensures SearchRecord(g, start, |closed|, [], closed, steps)
    ensures target !in seen && |seen| <= |ks| && |ks| - |seen| < |ks| - |seen0|
    ensures pick == LowestIndex(open)
  {
    LowestLeast(open0);
    closed, seen, open, dist, pred, paths, steps :=
      Expand(g, hs, start, ks, keys, closed0, seen0, open0, i, dist0, pred0, paths0, steps0);
    SeenBound(g, hs, start, ks, |closed|, closed, seen, open, dist, pred, paths);
    pick := Lowest(open);
  }

  // The outcome.

  lemma PathNodesSnoc(s: NodeId, p: seq<Hop>, h: Hop)
    ensures PathNodes(s, p + [h]) == PathNodes(s, p) + [h.to]
  {
  }

  /** Walking the predecessor links back from a node with a finite g score
      lists the nodes of its recorded path, from the start. */
  lemma {:induction false} ChainPath(g: GraphModel, start: NodeId, ks: set<NodeId>, seen: set<NodeId>,
                                     dist: map<NodeId, Dist>, pred: map<NodeId, Option<NodeId>>,
                                     paths: map<NodeId, seq<Hop>>, path: seq<NodeId>, j: nat)
    requires D.Tables(start, ks, dist, pred) && D.Witnesses(g, start, ks, seen, dist, pred, paths)
    requires start in ks && start in paths && paths[start] == []
    requires path != [] && path[0] in pred && pred[path[0]] == None
    requires forall i :: 0 < i < |path| ==> path[i] in pred && pred[path[i]] == Some(path[i - 1])
    requires j < |path| && path[j] in dist && dist[path[j]].Fin?
    ensures path[j] in paths && PathNodes(start, paths[path[j]]) == path[..j + 1]
  {
    if j == 0 {
      assert path[0] == start;
      assert path[..1] == [start];
    } else {
      var u, v := path[j - 1], path[j];
      assert pred[v] == Some(u);
      var h := Hop(u, v, paths[v][|paths[v]| - 1].weight);
      assert paths[v] == paths[u] + [h];
      ChainPath(g, start, ks, seen, dist, pred, paths, path, j - 1);
      PathNodesSnoc(start, paths[u], h);
      TakeOneMore(path, j);
    }
  }

  /** When the scan picks the target, its g score is its recorded finite
      distance, the cost of its recorded path; with no negative weight and no
      heuristic value, no path is cheaper. */
  lemma HitReady(g: GraphModel, start: NodeId, ks: set<NodeId>, closed: seq<NodeId>, seen: set<NodeId>,
                 open: seq<Entry>, dist: map<NodeId, Dist>, pred: map<NodeId, Option<NodeId>>,
                 paths: map<NodeId, seq<Hop>>, i: nat)
    requires SearchState(g, Heuristics(g.nodes), start, ks, |closed|, closed, seen, open, dist, pred, paths)
    requires LowestIndex(open) == Some(i)
    ensures open[i].id in dist && dist[open[i].id] == Fin(open[i].g)
    ensures NonNegativeWeights(g) && ZeroHeuristic(g) ==> LowerBound(g, ks, start, open[i].id, open[i].g)
  {
    LowestLeast(open);
    if NonNegativeWeights(g) && ZeroHeuristic(g) {
      ZeroHeuristics(g);
    }
    SelectLowest(g, Heuristics(g.nodes), start, ks, closed, seen, open, dist, pred, paths, i);
  }

  /** A path from the start to a node that is not closed leaves the closed
      nodes by an arc that has been relaxed, whose end is therefore not
      closed and has a finite g score. */
  lemma ExitOpen(g: GraphModel, ks: set<NodeId>, start: NodeId, closed: seq<NodeId>, seen: set<NodeId>,
                 dist: map<NodeId, Dist>, v: NodeId, p: seq<Hop>) returns (y: NodeId)
    requires IsPath(g, ks, start, v, p) && start in seen && v !in seen
    requires seen == (set x | x in closed) && dist.Keys == ks
    requires forall x :: x in seen ==> x in dist && dist[x].Fin?
    requires D.Relaxed(g, |closed|, closed, seen, dist)
    ensures y !in seen && y in dist && dist[y].Fin?
  {
    var k := Crossing(g, ks, start, v, p, seen);
    var x, w := p[k].from, p[k].weight;
    y := p[k].to;
    D.PathEnd(g, ks, start, x, p[..k]);
    var i :| 0 <= i < |closed| && closed[i] == x;
    assert Arc(y, w) in Arcs(g.edges, g.directed, closed[i]);
  }

  /** When the open set runs empty before the target is picked, no path
      leads from the start to the target. */
  lemma MissUnreachable(g: GraphModel, hs: map<NodeId, real>, start: NodeId, ks: set<NodeId>, closed: seq<NodeId>,
                        seen: set<NodeId>, dist: map<NodeId, Dist>, pred: map<NodeId, Option<NodeId>>,
                        paths: map<NodeId, seq<Hop>>, target: NodeId)
    requires SearchState(g, hs, start, ks, |closed|, closed, seen, [], dist, pred, paths) && target !in seen
    ensures Unreachable(g, ks, start, target)
  {
    assert Ids([]) == [];
    assert closed != [] && closed[0] == start;
    forall p: seq<Hop> | IsPath(g, ks, start, target, p) ensures false {
      var y := ExitOpen(g, ks, start, closed, seen, dist, target, p);
    }
  }

  /** The closing step keeps the record: the visits are the closed nodes, and
      the inspections are those Dijkstra's search makes in that order. */
  lemma FinishRecord(g: GraphModel, start: NodeId, closed: seq<NodeId>, steps0: seq<Step>, s: Step)
    requires SearchRecord(g, start, |closed|, [], closed, steps0) && s.kind == Custom
    ensures var steps := steps0 + [s];
      && |steps| >= 2 && steps[0] == D.FirstStep(start, D.InitialDistances(g, start), D.InitialPredecessors(g))
      && |steps| - 1 == |steps0| && steps[|steps0|] == s
      && Visits(steps) == closed && Inspections(steps) == D.DijkstraExpansion(g, closed)
  {
    ProjectionsSnoc(steps0, s);
    assert closed[..|closed|] == closed;
    assert |steps0| >= 1;
    assert Visits(steps0) == [] ==> |steps0| >= 1;
  }

  /** The closed nodes once the search stops short of closing the target:
      each once, the start first, the target not among them. */
  lemma ClosedDone(g: GraphModel, hs: map<NodeId, real>, start: NodeId, ks: set<NodeId>, closed: seq<NodeId>,
                   seen: set<NodeId>, open: seq<Entry>, dist: map<NodeId, Dist>, pred: map<NodeId, Option<NodeId>>,
                   paths: map<NodeId, seq<Hop>>, target: NodeId)
    requires SearchState(g, hs, start, ks, |closed|, closed, seen, open, dist, pred, paths)
    requires target !in seen && start != target
    requires open == [] || (LowestIndex(open).Some? && open[LowestIndex(open).value].id == target)
    ensures NoDup(closed) && closed != [] && closed[0] == start && target !in closed
  {
    CardNoDup(closed);
    assert target !in closed;
  }

  /** What a search between two different nodes of `g` hands back: a record
      that opens with the first step Dijkstra's algorithm records and closes
      with the outcome; the nodes it closed, in order, each once, the start
      first and the target not among them, with the edges it inspected from
      each; and either a path along arcs of `g` whose cost is the target's
      g-score (no dearer than any other path when the weights are not
      negative and the heuristic is zero), or no path, when none exists. */
  ghost predicate Outcome(g: GraphModel, start: NodeId, target: NodeId, r: AStarResult, closed: seq<NodeId>,
                          open: seq<Entry>, gScores: map<NodeId, Dist>, predecessors: map<NodeId, Option<NodeId>>,
                          walk: seq<Hop>)
  {
    && |r.steps| >= 2 && r.steps[0] == D.FirstStep(start, D.InitialDistances(g, start), D.InitialPredecessors(g))
    && Visits(r.steps) == closed && NoDup(closed) && closed != [] && closed[0] == start && target !in closed
    && Inspections(r.steps) == D.DijkstraExpansion(g, closed)
    && if r.pathFound then
         && r.steps[|r.steps| - 1] == TargetStep(StepId(|r.steps| - 1), r.path, closed, open, gScores, predecessors)
         && r.visitedCount == |closed| + 1
         && r.path != [] && r.path[0] == start && r.path[|r.path| - 1] == target
         && IsPath(g, D.Keys(g), start, target, walk) && PathNodes(start, walk) == r.path
         && target in gScores && r.totalCost == gScores[target] && r.totalCost == Fin(Cost(walk))
         && (NonNegativeWeights(g) && ZeroHeuristic(g) ==> LowerBound(g, D.Keys(g), start, target, Cost(walk)))
       else
         && r.steps[|r.steps| - 1] == NoPathStep(StepId(|r.steps| - 1), closed, gScores, predecessors)
         && r.visitedCount == |closed| && r.path == [] && r.totalCost == Inf
         && Unreachable(g, D.Keys(g), start, target)
  }

  /** The target is picked: the path is walked back from it, and the closing
      step shows it. */
  method Hit(g: GraphModel, hs: map<NodeId, real>, start: NodeId, target: NodeId, ghost ks: set<NodeId>,
             closed: seq<NodeId>, ghost seen: set<NodeId>, open: seq<Entry>, dist: map<NodeId, Dist>,
             pred: map<NodeId, Option<NodeId>>, ghost paths: map<NodeId, seq<Hop>>, steps: seq<Step>, i: nat)
    returns (r: AStarResult, ghost walk: seq<Hop>)
    requires ks == D.Keys(g) && D.Tables(start, ks, dist, pred) && D.Witnesses(g, start, ks, seen, dist, pred, paths)
    requires start in ks && start in paths && paths[start] == []
    requires SearchRecord(g, start, |closed|, [], closed, steps)
    requires NoDup(closed) && closed != [] && closed[0] == start && target !in closed
    requires i < |open| && open[i].id == target && target in dist && dist[target] == Fin(open[i].g)
    requires NonNegativeWeights(g) && ZeroHeuristic(g) ==> LowerBound(g, ks, start, target, open[i].g)
    ensures |r.steps| >= 2 && r.steps[0] == D.FirstStep(start, D.InitialDistances(g, start), D.InitialPredecessors(g))
    ensures r.steps[|r.steps| - 1] == TargetStep(StepId(|r.steps| - 1), r.path, closed, open, dist, pred)
    ensures Visits(r.steps) == closed && Inspections(r.steps) == D.DijkstraExpansion(g, closed)
    ensures r.pathFound && r.visitedCount == |closed| + 1
    ensures r.path != [] && r.path[0] == start && r.path[|r.path| - 1] == target
    ensures IsPath(g, ks, start, target, walk) && PathNodes(start, walk) == r.path
    ensures target in dist && r.totalCost == dist[target] && r.totalCost == Fin(Cost(walk))
    ensures NonNegativeWeights(g) && ZeroHeuristic(g) ==> LowerBound(g, ks, start, target, Cost(walk))
  {
    D.PredRanked(g, start, ks, seen, dist, pred, paths);
    var path := ReconstructPath(pred, target, D.Ranks(pred, paths));
    ChainPath(g, start, ks, seen, dist, pred, paths, path, |path| - 1);
    TakeAll(path);
    var last := TargetStep(StepId(|steps|), path, closed, open, dist, pred);
    FinishRecord(g, start, closed, steps, last);
    r := AStarResult(steps + [last], true, path, Fin(open[i].g), |closed| + 1);
    assert r.steps[|r.steps| - 1] == last && r.path == path;
    walk := paths[target];
  }

  /** The open set runs empty: the closing step reports that no path exists. */
  method Miss(g: GraphModel, start: NodeId, target: NodeId, closed: seq<NodeId>, open: seq<Entry>,
              dist: map<NodeId, Dist>, pred: map<NodeId, Option<NodeId>>, steps: seq<Step>)
    returns (r: AStarResult)
    requires SearchRecord(g, start, |closed|, [], closed, steps) && Unreachable(g, D.Keys(g), start, target)
    requires NoDup(closed) && closed != [] && closed[0] == start && target !in closed
    ensures !r.pathFound && Outcome(g, start, target, r, closed, open, dist, pred, [])
  {
    var last := NoPathStep(StepId(|steps|), closed, dist, pred);
    FinishRecord(g, start, closed, steps, last);
    r := AStarResult(steps + [last], false, [], Inf, |closed|);
    assert r.steps[|r.steps| - 1] == last;
  }

  /** The search, with what its two outcomes need of its final state. */
  method Settle(g: GraphModel, start: NodeId, target: NodeId)
    returns (ghost ks: set<NodeId>, hs: map<NodeId, real>, closed: seq<NodeId>, ghost seen: set<NodeId>,
             open: seq<Entry>, dist: map<NodeId, Dist>, pred: map<NodeId, Option<NodeId>>,
             ghost paths: map<NodeId, seq<Hop>>, steps: seq<Step>, pick: Option<nat>)
    requires HasNode(g, start) && HasNode(g, target) && start != target
    ensures ks == D.Keys(g) && start in ks && start in paths && paths[start] == []
    ensures D.Tables(start, ks, dist, pred) && D.Witnesses(g, start, ks, seen, dist, pred, paths)
    ensures SearchRecord(g, start, |closed|, [], closed, steps)
    ensures NoDup(closed) && closed != [] && closed[0] == start && target !in closed
    ensures pick.Some? ==> pick.value < |open| && open[pick.value].id == target
    ensures pick.Some? ==> target in dist && dist[target] == Fin(open[pick.value].g)
    ensures pick.Some? && NonNegativeWeights(g) && ZeroHeuristic(g) ==>
      LowerBound(g, ks, start, target, open[pick.value].g)
    ensures pick.None? ==> Unreachable(g, ks, start, target)
  {
    ks, hs, closed, seen, open, dist, pred, paths, steps, pick := Search(g, start, target, KeyOrder(g));
    ClosedDone(g, hs, start, ks, closed, seen, open, dist, pred, paths, target);
    if pick.Some? {
      HitReady(g, start, ks, closed, seen, open, dist, pred, paths, pick.value);
    } else {
      MissUnreachable(g, hs, start, ks, closed, seen, dist, pred, paths, target);
    }
  }

  /** The search proper, between two different nodes of the graph. */
  method Run(g: GraphModel, start: NodeId, target: NodeId)
    returns (r: AStarResult, closed: seq<NodeId>, open: seq<Entry>, gScores: map<NodeId, Dist>,
             predecessors: map<NodeId, Option<NodeId>>, ghost walk: seq<Hop>)
    requires HasNode(g, start) && HasNode(g, target) && start != target
    ensures Outcome(g, start, target, r, closed, open, gScores, predecessors, walk)
  {
    ghost var ks, seen, paths;
    var hs, steps, pick;
    ks, hs, closed, seen, open, gScores, predecessors, paths, steps, pick := Settle(g, start, target);
    if pick.Some? {
      r, walk := Hit(g, hs, start, target, ks, closed, seen, open, gScores, predecessors, paths, steps, pick.value);
      assert Outcome(g, start, target, r, closed, open, gScores, predecessors, walk);
    } else {
      r := Miss(g, start, target, closed, open, gScores, predecessors, steps);
      walk := [];
    }
  }

  /** `astar(graph, startNode, targetNode)`: a lone error step when either
      end is not a node, a lone step with the one-node path when they are the
      same node, and otherwise the search. The ghost results are the final
      closed list, open set and records, and the path walked. */
  method AStar(g: GraphModel, start: NodeId, target: NodeId)
    returns (r: AStarResult, ghost closed: seq<NodeId>, ghost open: seq<Entry>, ghost gScores: map<NodeId, Dist>,
             ghost predecessors: map<NodeId, Option<NodeId>>, ghost walk: seq<Hop>)
    ensures !HasNode(g, start) || !HasNode(g, target) ==> r == AStarResult([ErrorStep()], false, [], Inf, 0)
    ensures HasNode(g, start) && start == target ==> r == AStarResult([SameStep(start)], true, [start], Fin(0.0), 1)
    ensures HasNode(g, start) && HasNode(g, target) && start != target ==>
      Outcome(g, start, target, r, closed, open, gScores, predecessors, walk)
  {
    if !HasNode(g, start) || !HasNode(g, target) {
      r := AStarResult([ErrorStep()], false, [], Inf, 0);
      closed, open, gScores, predecessors, walk := [], [], map[], map[], [];
    } else if start == target {
      r := AStarResult([SameStep(start)], true, [start], Fin(0.0), 1);
      closed, open, gScores, predecessors, walk := [], [], map[], map[], [];
    } else {
      r, closed, open, gScores, predecessors, walk := Run(g, start, target);
    }
  }

  /** `astarSteps`: the steps alone. Between two different nodes they open
      like Dijkstra's, close each node at most once, the start first and the
      target never, and inspect from each closed node the arcs Dijkstra's
      algorithm would. */
  method AStarSteps(g: GraphModel, start: NodeId, target: NodeId) returns (steps: seq<Step>)
    ensures !HasNode(g, start) || !HasNode(g, target) ==> steps == [ErrorStep()]
    ensures HasNode(g, start) && start == target ==> steps == [SameStep(start)]
    ensures HasNode(g, start) && HasNode(g, target) && start != target ==>
      && |steps| >= 2 && steps[0] == D.FirstStep(start, D.InitialDistances(g, start), D.InitialPredecessors(g))
      && steps[|steps| - 1].kind == Custom
      && NoDup(Visits(steps)) && Visits(steps) != [] && Visits(steps)[0] == start && target !in Visits(steps)
      && Inspections(steps) == D.DijkstraExpansion(g, Visits(steps))
  {
    var r, closed, open, gScores, predecessors, walk := AStar(g, start, target);
    steps := r.steps;
    if HasNode(g, start) && HasNode(g, target) && start != target {
      OutcomeSteps(g, start, target, r, closed, open, gScores, predecessors, walk);
    }
  }

  /** The step facts of an outcome, in terms of the steps alone. */
  lemma OutcomeSteps(g: GraphModel, start: NodeId, target: NodeId, r: AStarResult, closed: seq<NodeId>,
                     open: seq<Entry>, gScores: map<NodeId, Dist>, predecessors: map<NodeId, Option<NodeId>>,
                     walk: seq<Hop>)
    requires Outcome(g, start, target, r, closed, open, gScores, predecessors, walk)
    ensures var steps := r.steps;
      && |steps| >= 2 && steps[0] == D.FirstStep(start, D.InitialDistances(g, start), D.InitialPredecessors(g))
      && steps[|steps| - 1].kind == Custom
      && NoDup(Visits(steps)) && Visits(steps) != [] && Visits(steps)[0] == start && target !in Visits(steps)
      && Inspections(steps) == D.DijkstraExpansion(g, Visits(steps))
  {
    var n := |r.steps| - 1;
    if r.pathFound {
      assert r.steps[n] == TargetStep(StepId(n), r.path, closed, open, gScores, predecessors);
    } else {
      assert r.steps[n] == NoPathStep(StepId(n), closed, gScores, predecessors);
    }
  }
}
