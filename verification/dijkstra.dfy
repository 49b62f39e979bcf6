/** Dijkstra's algorithm as the visualizer runs it: every node of
    `graph.nodes` starts at `Infinity` except the start at 0; each round
    stably sorts the queue by distance, removes its front and visits it, then
    goes through the arcs out of it, skipping visited ends, recording an
    inspection for every other one and relaxing it when the new distance is
    strictly smaller. Distances are only ever recorded for node ids, so the
    paths the search can follow stay among them. */
module Dijkstra {
  import opened Wrappers
  import opened Collections
  import opened Graph
  import opened Steps
  import opened Paths
  import opened DistQueue

  /** The ids of `graph.nodes`: the keys of both records. */
  function Keys(g: GraphModel): set<NodeId> {
    set i | 0 <= i < |g.nodes| :: g.nodes[i].id
  }

  /** The distance record after initialisation. */
  function InitialDistances(g: GraphModel, start: NodeId): (m: map<NodeId, Dist>)
    ensures m.Keys == Keys(g)
    ensures forall v :: v in m ==> m[v] == if v == start then Fin(0.0) else Inf
  {
    map v | v in Keys(g) :: if v == start then Fin(0.0) else Inf
  }

  /** The predecessor record after initialisation. */
  function InitialPredecessors(g: GraphModel): (m: map<NodeId, Option<NodeId>>)
    ensures m.Keys == Keys(g)
    ensures forall v :: v in m ==> m[v] == None
  {
    map v | v in Keys(g) :: None
  }

  /** The loop over `graph.nodes` that fills both records. */
  method Initialize(g: GraphModel, start: NodeId) returns (dist: map<NodeId, Dist>, pred: map<NodeId, Option<NodeId>>)
    ensures dist == InitialDistances(g, start) && pred == InitialPredecessors(g)
  {
    dist, pred := map[], map[];
    for i := 0 to |g.nodes|
      invariant dist.Keys == pred.Keys == set j | 0 <= j < i :: g.nodes[j].id
      invariant forall v :: v in dist ==> dist[v] == if v == start then Fin(0.0) else Inf
      invariant forall v :: v in pred ==> pred[v] == None
    {
      var id := g.nodes[i].id;
      dist := dist[id := if id == start then Fin(0.0) else Inf];
      pred := pred[id := None];
    }
  }

  /** The ends of `arcs` that are not among `vs`, in order. */
  function Unsettled(arcs: seq<Arc>, vs: seq<NodeId>): seq<NodeId> {
    if arcs == [] then []
    else Unsettled(arcs[..|arcs| - 1], vs) + (if arcs[|arcs| - 1].node in vs then [] else [arcs[|arcs| - 1].node])
  }

  /** The inspections made while processing the nodes of `order` in turn:
      each node inspects its arcs to nodes not visited by then, the node
      itself included. */
  function DijkstraExpansion(g: GraphModel, order: seq<NodeId>): seq<EdgePointer> {
    if order == [] then []
    else
      var v := order[|order| - 1];
      DijkstraExpansion(g, order[..|order| - 1]) + Pointers(v, Unsettled(Arcs(g.edges, g.directed, v), order))
  }

  function FirstStep(start: NodeId, dist: map<NodeId, Dist>, pred: map<NodeId, Option<NodeId>>): Step {
    CreateStep(StepId(0), Custom, Overrides(
      currentNode := Some(start), visitedNodes := Some([]), queuedNodes := Some([start]),
      state := Some(AlgorithmState(distances := Some(dist), predecessors := Some(pred)))))
  }

  function VisitStep(id: string, current: NodeId, visited: seq<NodeId>, queue: seq<NodeId>, dist: map<NodeId, Dist>): Step {
    CreateStep(id, VisitNode, Overrides(
      currentNode := Some(current), visitedNodes := Some(visited), queuedNodes := Some(queue),
      state := Some(AlgorithmState(distances := Some(dist)))))
  }

  function InspectStep(id: string, current: NodeId, neighbor: NodeId, visited: seq<NodeId>, queue: seq<NodeId>,
                       dist: map<NodeId, Dist>): Step {
    CreateStep(id, InspectEdge, Overrides(
      currentNode := Some(current), highlightEdges := Some(EdgeList([EdgePointer(current, neighbor)])),
      visitedNodes := Some(visited), queuedNodes := Some(queue),
      state := Some(AlgorithmState(distances := Some(dist)))))
  }

  function RelaxStep(id: string, current: NodeId, neighbor: NodeId, visited: seq<NodeId>, queue: seq<NodeId>,
                     dist: map<NodeId, Dist>, pred: map<NodeId, Option<NodeId>>): Step {
    CreateStep(id, RelaxEdge, Overrides(
      currentNode := Some(current), highlightNodes := Some(NodeList([neighbor])),
      highlightEdges := Some(EdgeList([EdgePointer(current, neighbor)])),
      visitedNodes := Some(visited), queuedNodes := Some(queue),
      state := Some(AlgorithmState(distances := Some(dist), predecessors := Some(pred)))))
  }

  function LastStep(id: string, visited: seq<NodeId>, dist: map<NodeId, Dist>, pred: map<NodeId, Option<NodeId>>): Step {
    CreateStep(id, Custom, Overrides(
      visitedNodes := Some(visited), queuedNodes := Some([]),
      state := Some(AlgorithmState(distances := Some(dist), predecessors := Some(pred)))))
  }

  // The search state, in groups that the transitions below keep one at a time.

  /** Both records have an entry for every node id and nothing else; the
      start (when it is a node) stays at 0 without predecessor, and when it
      is not a node nothing is ever reached; a node has a predecessor
      exactly when it is not the start and has a finite distance. */
  ghost predicate Tables(start: NodeId, ks: set<NodeId>, dist: map<NodeId, Dist>, pred: map<NodeId, Option<NodeId>>) {
    && dist.Keys == ks && pred.Keys == ks
    && (start in ks ==> dist[start] == Fin(0.0) && pred[start] == None)
    && (start !in ks ==> forall v :: v in dist ==> dist[v] == Inf)
    && (forall v :: v in pred ==> (pred[v].Some? <==> v != start && dist[v].Fin?))
  }

  /** Every finite distance is the cost of a path (`paths` holds one), and a
      predecessor is a visited node whose path the node's path extends by
      one hop. */
  ghost predicate Witnesses(g: GraphModel, start: NodeId, ks: set<NodeId>, seen: set<NodeId>, dist: map<NodeId, Dist>,
                            pred: map<NodeId, Option<NodeId>>, paths: map<NodeId, seq<Hop>>) {
    && (forall v :: v in dist && dist[v].Fin? ==>
          v in paths && IsPath(g, ks, start, v, paths[v]) && Cost(paths[v]) == dist[v].value)
    && (forall v :: v in pred && pred[v].Some? ==>
          var u := pred[v].value;
          u in seen && u in dist && dist[u].Fin? && v in paths && u in paths && paths[v] != []
          && paths[v] == paths[u] + [Hop(u, v, paths[v][|paths[v]| - 1].weight)])
  }

  /** `visited` in visiting order without repetitions, the start first. */
  ghost predicate VisitOrder(start: NodeId, ks: set<NodeId>, visited: seq<NodeId>, seen: set<NodeId>, queue: seq<NodeId>) {
    && seen == (set x | x in visited) && |seen| == |visited| && seen <= ks + {start}
    && (visited == [] ==> queue == [start]) && (visited != [] ==> visited[0] == start)
  }

  /** The queue holds no visited node and no repetition; what it holds has a
      finite distance, and has a distance at all unless the queue is just the
      start. */
  ghost predicate QueueShape(start: NodeId, seen: set<NodeId>, queue: seq<NodeId>, dist: map<NodeId, Dist>) {
    && NoDup(queue)
    && (forall i :: 0 <= i < |queue| ==> queue[i] !in seen && (queue[i] in dist ==> dist[queue[i]].Fin?))
    && ((forall i :: 0 <= i < |queue| ==> queue[i] in dist) || queue == [start])
  }

  /** Every unvisited node with a finite distance is queued. */
  ghost predicate QueueCovers(seen: set<NodeId>, queue: seq<NodeId>, dist: map<NodeId, Dist>) {
    forall v :: v in dist && v !in seen && dist[v].Fin? ==> v in queue
  }

  ghost predicate Frontier(start: NodeId, ks: set<NodeId>, visited: seq<NodeId>, seen: set<NodeId>, queue: seq<NodeId>,
                           dist: map<NodeId, Dist>) {
    VisitOrder(start, ks, visited, seen, queue) && QueueShape(start, seen, queue, dist) && QueueCovers(seen, queue, dist)
  }

  /** A visited node has a finite distance, which no path undercuts when no
      weight is negative. */
  ghost predicate Settled(g: GraphModel, start: NodeId, ks: set<NodeId>, seen: set<NodeId>, dist: map<NodeId, Dist>) {
    forall v :: v in seen && v in dist ==>
      dist[v].Fin? && (NonNegativeWeights(g) ==> LowerBound(g, ks, start, v, dist[v].value))
  }

  /** Every arc out of the first `n` visited nodes to an unvisited node has
      been relaxed: its end is no further than the arc's source plus its weight. */
  ghost predicate Relaxed(g: GraphModel, n: nat, visited: seq<NodeId>, seen: set<NodeId>, dist: map<NodeId, Dist>)
    requires n <= |visited|
  {
    forall i, a {:trigger a in Arcs(g.edges, g.directed, visited[i])} ::
      0 <= i < n && a in Arcs(g.edges, g.directed, visited[i]) && visited[i] in dist && a.node in dist ==>
        a.node in seen || AtMost(dist[a.node], Add(dist[visited[i]], a.weight))
  }

  /** The search between rounds, with the first `n` visited nodes processed. */
  ghost predicate SearchState(g: GraphModel, start: NodeId, ks: set<NodeId>, n: nat, visited: seq<NodeId>,
                              seen: set<NodeId>, queue: seq<NodeId>, dist: map<NodeId, Dist>,
                              pred: map<NodeId, Option<NodeId>>, paths: map<NodeId, seq<Hop>>) {
    && ks == Keys(g) && n <= |visited|
    && Tables(start, ks, dist, pred) && Witnesses(g, start, ks, seen, dist, pred, paths)
    && Frontier(start, ks, visited, seen, queue, dist) && Settled(g, start, ks, seen, dist)
    && Relaxed(g, n, visited, seen, dist)
  }

  /** The first `k` arcs out of `current` to unvisited nodes are relaxed. */
  ghost predicate PartlyRelaxed(current: NodeId, arcs: seq<Arc>, k: nat, seen: set<NodeId>, dist: map<NodeId, Dist>)
    requires k <= |arcs|
  {
    forall m :: 0 <= m < k && current in dist && arcs[m].node in dist ==>
      arcs[m].node in seen || AtMost(dist[arcs[m].node], Add(dist[current], arcs[m].weight))
  }

  /** The search while `current`, the node visited last, goes through its arcs. */
  ghost predicate ExpandState(g: GraphModel, start: NodeId, ks: set<NodeId>, visited: seq<NodeId>,
                              seen: set<NodeId>, queue: seq<NodeId>, dist: map<NodeId, Dist>,
                              pred: map<NodeId, Option<NodeId>>, paths: map<NodeId, seq<Hop>>,
                              current: NodeId, arcs: seq<Arc>, k: nat) {
    && 0 < |visited| && current == visited[|visited| - 1] && arcs == Arcs(g.edges, g.directed, current) && k <= |arcs|
    && SearchState(g, start, ks, |visited| - 1, visited, seen, queue, dist, pred, paths)
    && PartlyRelaxed(current, arcs, k, seen, dist)
  }

  /** The steps so far: the opening step, one visit per visited node, the
      inspections of the first `n` visited nodes and then `extra`, and one
      relaxation step per improvement. */
  ghost predicate SearchRecord(g: GraphModel, start: NodeId, n: nat, extra: seq<EdgePointer>, visited: seq<NodeId>,
                               steps: seq<Step>) {
    && n <= |visited| && |steps| > 0 && steps[0] == FirstStep(start, InitialDistances(g, start), InitialPredecessors(g))
    && Visits(steps) == visited
    && Inspections(steps) == DijkstraExpansion(g, visited[..n]) + extra
    && CountKind(steps, Custom) == 1
    && |steps| == 1 + |visited| + |Inspections(steps)| + CountKind(steps, RelaxEdge)
  }

  function StartPaths(g: GraphModel, start: NodeId): map<NodeId, seq<Hop>> {
    if start in Keys(g) then map[start := []] else map[]
  }

  lemma StartState(g: GraphModel, start: NodeId)
    ensures SearchState(g, start, Keys(g), 0, [], {}, [start], InitialDistances(g, start), InitialPredecessors(g),
                        StartPaths(g, start))
  {
    var ks := Keys(g);
    if start in ks {
      assert IsPath(g, ks, start, start, []);
    }
  }

  lemma StartRecord(g: GraphModel, start: NodeId)
    ensures SearchRecord(g, start, 0, [], [], [FirstStep(start, InitialDistances(g, start), InitialPredecessors(g))])
  {
    var s := FirstStep(start, InitialDistances(g, start), InitialPredecessors(g));
    ProjectionsSnoc([], s);
    CountKindSnoc([], s);
  }

  // Selecting the front of the sorted queue.

  /** The front of the sorted queue is unvisited and, when it has a distance,
      a finite one; the rest of the sorted queue keeps the queue's invariant. */
  lemma SelectFrontier(start: NodeId, ks: set<NodeId>, visited: seq<NodeId>, seen: set<NodeId>, queue: seq<NodeId>,
                       dist: map<NodeId, Dist>)
    requires Frontier(start, ks, visited, seen, queue, dist) && dist.Keys == ks && queue != []
    ensures var sorted := SortByDistance(dist, queue); var c := sorted[0];
      && |sorted| == |queue| && c in queue && c !in seen && (c in dist ==> dist[c].Fin?) && c in ks + {start}
      && (c in dist ==> forall x :: x in queue ==> AtMost(dist[c], dist[x]))
      && Frontier(start, ks, visited + [c], seen + {c}, sorted[1..], dist)
      && |seen + {c}| == |seen| + 1
  {
    var sorted := SortByDistance(dist, queue);
    SortMembers(dist, queue);
    SortNoDup(dist, queue);
    var c, rest := sorted[0], sorted[1..];
    assert c in queue;
    if queue != [start] {
      SortedFront(dist, queue);
    }
    SelectOrder(start, ks, visited, seen, queue, dist, c, rest);
    SelectShape(start, seen, queue, sorted, dist);
    SelectCovers(seen, queue, sorted, dist);
  }

  lemma SelectOrder(start: NodeId, ks: set<NodeId>, visited: seq<NodeId>, seen: set<NodeId>, queue: seq<NodeId>,
                    dist: map<NodeId, Dist>, c: NodeId, rest: seq<NodeId>)
    requires VisitOrder(start, ks, visited, seen, queue) && QueueShape(start, seen, queue, dist) && dist.Keys == ks
    requires c in queue
    ensures c !in seen && c in ks + {start} && |seen + {c}| == |seen| + 1
    ensures VisitOrder(start, ks, visited + [c], seen + {c}, rest)
  {
    var i :| 0 <= i < |queue| && queue[i] == c;
    assert c !in seen;
    if queue == [start] {
      assert c == start;
    } else {
      assert c in dist;
    }
    if visited == [] {
      assert c == start;
    } else {
      assert (visited + [c])[0] == visited[0];
    }
    assert (set x | x in visited + [c]) == seen + {c};
  }

  lemma SelectShape(start: NodeId, seen: set<NodeId>, queue: seq<NodeId>, sorted: seq<NodeId>, dist: map<NodeId, Dist>)
    requires QueueShape(start, seen, queue, dist) && sorted != [] && NoDup(sorted) && |sorted| == |queue|
    requires forall x :: x in sorted <==> x in queue
    ensures QueueShape(start, seen + {sorted[0]}, sorted[1..], dist)
  {
    var c, rest := sorted[0], sorted[1..];
    forall i | 0 <= i < |rest| ensures rest[i] in queue && rest[i] != c {
      assert rest[i] == sorted[i + 1];
    }
    if !(forall i :: 0 <= i < |queue| ==> queue[i] in dist) {
      assert |rest| == 0;
    }
  }

  lemma SelectCovers(seen: set<NodeId>, queue: seq<NodeId>, sorted: seq<NodeId>, dist: map<NodeId, Dist>)
    requires QueueCovers(seen, queue, dist) && sorted != []
    requires forall x :: x in sorted <==> x in queue
    ensures QueueCovers(seen + {sorted[0]}, sorted[1..], dist)
  {
    assert sorted == [sorted[0]] + sorted[1..];
  }

  /** With no negative weights, no path undercuts the distance of the front
      of the sorted queue. */
  lemma SelectOptimal(g: GraphModel, start: NodeId, ks: set<NodeId>, visited: seq<NodeId>, seen: set<NodeId>,
                      queue: seq<NodeId>, dist: map<NodeId, Dist>, pred: map<NodeId, Option<NodeId>>,
                      paths: map<NodeId, seq<Hop>>, c: NodeId)
    requires SearchState(g, start, ks, |visited|, visited, seen, queue, dist, pred, paths)
    requires NonNegativeWeights(g) && c in queue && c in dist && dist[c].Fin?
    requires forall x :: x in queue ==> AtMost(dist[c], dist[x])
    ensures LowerBound(g, ks, start, c, dist[c].value)
  {
    forall p: seq<Hop> | IsPath(g, ks, start, c, p) ensures dist[c].value <= Cost(p) {
      if c == start {
        CostPrefix(g, ks, start, c, p, 0);
        assert p[..0] == [];
      } else {
        assert visited != [] && start in seen;
        CutBelow(g, ks, start, visited, seen, queue, dist, c, p);
      }
    }
  }

  /** A path from the start to an unvisited node leaves the visited nodes by
      an arc that has been relaxed, whose end is therefore queued at a
      distance no greater than the cost of the path up to it. */
  lemma CutBelow(g: GraphModel, ks: set<NodeId>, start: NodeId, visited: seq<NodeId>, seen: set<NodeId>,
                 queue: seq<NodeId>, dist: map<NodeId, Dist>, c: NodeId, p: seq<Hop>)
    requires NonNegativeWeights(g) && IsPath(g, ks, start, c, p) && start in seen && c !in seen
    requires seen == (set x | x in visited) && dist.Keys == ks
    requires Settled(g, start, ks, seen, dist) && Relaxed(g, |visited|, visited, seen, dist)
    requires QueueCovers(seen, queue, dist)
    requires c in dist && dist[c].Fin? && forall x :: x in queue && x in dist ==> AtMost(dist[c], dist[x])
    ensures dist[c].value <= Cost(p)
  {
    var k := Crossing(g, ks, start, c, p, seen);
    var x, y, w := p[k].from, p[k].to, p[k].weight;
    PathEnd(g, ks, start, x, p[..k]);
    assert dist[x].Fin? && dist[x].value <= Cost(p[..k]);
    var i :| 0 <= i < |visited| && visited[i] == x;
    assert Arc(y, w) in Arcs(g.edges, g.directed, visited[i]) && y in dist;
    assert AtMost(dist[y], Add(dist[x], w));
    assert y in queue;
    CostPrefix(g, ks, start, c, p, k + 1);
    assert p[..k + 1] == p[..k] + [p[k]];
  }

  /** The end of a path lies among the nodes it stays in. */
  lemma PathEnd(g: GraphModel, ks: set<NodeId>, s: NodeId, t: NodeId, p: seq<Hop>)
    requires IsPath(g, ks, s, t, p)
    ensures t in ks
  {
  }

  lemma SelectState(g: GraphModel, start: NodeId, ks: set<NodeId>, visited: seq<NodeId>, seen: set<NodeId>,
                    queue: seq<NodeId>, dist: map<NodeId, Dist>, pred: map<NodeId, Option<NodeId>>,
                    paths: map<NodeId, seq<Hop>>)
    requires SearchState(g, start, ks, |visited|, visited, seen, queue, dist, pred, paths) && queue != []
    ensures var sorted := SortByDistance(dist, queue); var c := sorted[0];
      && |sorted| == |queue| && c !in seen && (c in dist ==> dist[c].Fin?) && c in ks + {start}
      && ExpandState(g, start, ks, visited + [c], seen + {c}, sorted[1..], dist, pred, paths,
                     c, Arcs(g.edges, g.directed, c), 0)
      && |seen + {c}| == |seen| + 1
  {
    var sorted := SortByDistance(dist, queue);
    var c := sorted[0];
    SelectFrontier(start, ks, visited, seen, queue, dist);
    if NonNegativeWeights(g) && c in dist {
      SelectOptimal(g, start, ks, visited, seen, queue, dist, pred, paths, c);
    }
    SelectRelaxed(g, visited, seen, dist, c);
  }

  lemma SelectRelaxed(g: GraphModel, visited: seq<NodeId>, seen: set<NodeId>, dist: map<NodeId, Dist>, c: NodeId)
    requires Relaxed(g, |visited|, visited, seen, dist)
    ensures Relaxed(g, |visited|, visited + [c], seen + {c}, dist)
  {
    forall i, a | 0 <= i < |visited| && a in Arcs(g.edges, g.directed, (visited + [c])[i])
      && (visited + [c])[i] in dist && a.node in dist
      ensures a.node in seen + {c} || AtMost(dist[a.node], Add(dist[(visited + [c])[i]], a.weight))
    {
      assert (visited + [c])[i] == visited[i];
    }
  }

  // Going through the arcs of the current node.

  /** An arc to a visited node is skipped without a step. */
  lemma SeenState(g: GraphModel, start: NodeId, ks: set<NodeId>, visited: seq<NodeId>, seen: set<NodeId>,
                  queue: seq<NodeId>, dist: map<NodeId, Dist>, pred: map<NodeId, Option<NodeId>>,
                  paths: map<NodeId, seq<Hop>>, current: NodeId, arcs: seq<Arc>, k: nat)
    requires ExpandState(g, start, ks, visited, seen, queue, dist, pred, paths, current, arcs, k) && k < |arcs|
    requires arcs[k].node in seen
    ensures ExpandState(g, start, ks, visited, seen, queue, dist, pred, paths, current, arcs, k + 1)
  {
  }

  /** An arc that does not improve its end leaves everything as it was. */
  lemma KeepState(g: GraphModel, start: NodeId, ks: set<NodeId>, visited: seq<NodeId>, seen: set<NodeId>,
                  queue: seq<NodeId>, dist: map<NodeId, Dist>, pred: map<NodeId, Option<NodeId>>,
                  paths: map<NodeId, seq<Hop>>, current: NodeId, arcs: seq<Arc>, k: nat)
    requires ExpandState(g, start, ks, visited, seen, queue, dist, pred, paths, current, arcs, k) && k < |arcs|
    requires !(current in dist && arcs[k].node in dist && Less(Add(dist[current], arcs[k].weight), dist[arcs[k].node]))
    ensures ExpandState(g, start, ks, visited, seen, queue, dist, pred, paths, current, arcs, k + 1)
  {
  }

  /** Relaxing an arc to an unvisited node `a.node`: its distance drops to
      the current node's plus the weight and its predecessor becomes the
      current node, which keeps the records' invariants. */
  lemma RelaxStateTables(g: GraphModel, start: NodeId, ks: set<NodeId>, seen: set<NodeId>, dist: map<NodeId, Dist>,
                         pred: map<NodeId, Option<NodeId>>, paths: map<NodeId, seq<Hop>>, current: NodeId, a: Arc)
    requires Tables(start, ks, dist, pred) && Witnesses(g, start, ks, seen, dist, pred, paths)
    requires Settled(g, start, ks, seen, dist)
    requires current in seen && (start in ks ==> start in seen) && a in Arcs(g.edges, g.directed, current)
    requires a.node !in seen && current in dist && a.node in dist && Less(Add(dist[current], a.weight), dist[a.node])
    ensures var dist' := dist[a.node := Add(dist[current], a.weight)];
      && Tables(start, ks, dist', pred[a.node := Some(current)])
      && Witnesses(g, start, ks, seen, dist', pred[a.node := Some(current)],
                   paths[a.node := paths[current] + [Hop(current, a.node, a.weight)]])
      && Settled(g, start, ks, seen, dist')
  {
    var d := Add(dist[current], a.weight);
    RelaxTables(start, ks, seen, dist, pred, current, a.node, d);
    RelaxWitnesses(g, start, ks, seen, dist, pred, paths, current, a, d);
    RelaxSettled(g, start, ks, seen, dist, a.node, d);
  }

  /** The same relaxation queues `a.node` unless it is queued already, and
      keeps every earlier relaxation. */
  lemma RelaxStateQueue(g: GraphModel, start: NodeId, ks: set<NodeId>, visited: seq<NodeId>, seen: set<NodeId>,
                        queue: seq<NodeId>, dist: map<NodeId, Dist>, current: NodeId, arcs: seq<Arc>, k: nat,
                        d: Dist)
    requires 0 < |visited| && current in seen && k < |arcs|
    requires Frontier(start, ks, visited, seen, queue, dist)
    requires Relaxed(g, |visited| - 1, visited, seen, dist) && PartlyRelaxed(current, arcs, k, seen, dist)
    requires arcs[k].node !in seen
    requires current in dist && arcs[k].node in dist && d == Add(dist[current], arcs[k].weight)
    requires Less(d, dist[arcs[k].node])
    ensures Frontier(start, ks, visited, seen, if arcs[k].node in queue then queue else queue + [arcs[k].node],
                     dist[arcs[k].node := d])
    ensures Relaxed(g, |visited| - 1, visited, seen, dist[arcs[k].node := d])
    ensures PartlyRelaxed(current, arcs, k + 1, seen, dist[arcs[k].node := d])
  {
    var y := arcs[k].node;
    RelaxFrontier(start, ks, visited, seen, queue, dist, y, d);
    RelaxRelaxed(g, |visited| - 1, visited, seen, dist, y, d);
    RelaxPartly(current, arcs, k, seen, dist, d);
  }

  lemma RelaxSettled(g: GraphModel, start: NodeId, ks: set<NodeId>, seen: set<NodeId>, dist: map<NodeId, Dist>,
                     y: NodeId, d: Dist)
    requires Settled(g, start, ks, seen, dist) && y !in seen
    ensures Settled(g, start, ks, seen, dist[y := d])
  {
  }

  lemma RelaxTables(start: NodeId, ks: set<NodeId>, seen: set<NodeId>, dist: map<NodeId, Dist>,
                    pred: map<NodeId, Option<NodeId>>, current: NodeId, y: NodeId, d: Dist)
    requires Tables(start, ks, dist, pred) && current in dist && y in dist && y !in seen
    requires start in ks ==> start in seen
    requires d.Fin? && dist[current].Fin?
    ensures Tables(start, ks, dist[y := d], pred[y := Some(current)])
  {
  }

  lemma RelaxWitnesses(g: GraphModel, start: NodeId, ks: set<NodeId>, seen: set<NodeId>, dist: map<NodeId, Dist>,
                       pred: map<NodeId, Option<NodeId>>, paths: map<NodeId, seq<Hop>>, current: NodeId, a: Arc,
                       d: Dist)
    requires Witnesses(g, start, ks, seen, dist, pred, paths) && dist.Keys == ks && pred.Keys == ks
    requires current in seen && current in dist && dist[current].Fin? && a.node in dist && a.node !in seen
    requires a in Arcs(g.edges, g.directed, current) && d == Add(dist[current], a.weight)
    ensures Witnesses(g, start, ks, seen, dist[a.node := d], pred[a.node := Some(current)],
                      paths[a.node := paths[current] + [Hop(current, a.node, a.weight)]])
  {
    var y := a.node;
    var p := paths[current] + [Hop(current, y, a.weight)];
    PathSnoc(g, ks, start, current, paths[current], a);
    assert p[|p| - 1].weight == a.weight;
  }

  lemma RelaxFrontier(start: NodeId, ks: set<NodeId>, visited: seq<NodeId>, seen: set<NodeId>, queue: seq<NodeId>,
                      dist: map<NodeId, Dist>, y: NodeId, d: Dist)
    requires Frontier(start, ks, visited, seen, queue, dist) && visited != [] && y in dist && y !in seen && d.Fin?
    ensures Frontier(start, ks, visited, seen, if y in queue then queue else queue + [y], dist[y := d])
  {
    var queue' := if y in queue then queue else queue + [y];
    assert forall x :: x in queue' <==> x in queue || x == y;
  }

  lemma RelaxRelaxed(g: GraphModel, n: nat, visited: seq<NodeId>, seen: set<NodeId>, dist: map<NodeId, Dist>,
                     y: NodeId, d: Dist)
    requires n <= |visited| && Relaxed(g, n, visited, seen, dist) && y in dist && y !in seen && Less(d, dist[y])
    requires forall i :: 0 <= i < |visited| ==> visited[i] in seen
    ensures Relaxed(g, n, visited, seen, dist[y := d])
  {
  }

  lemma RelaxPartly(current: NodeId, arcs: seq<Arc>, k: nat, seen: set<NodeId>, dist: map<NodeId, Dist>, d: Dist)
    requires k < |arcs| && PartlyRelaxed(current, arcs, k, seen, dist) && current in seen
    requires current in dist && arcs[k].node in dist && arcs[k].node !in seen
    requires d == Add(dist[current], arcs[k].weight) && Less(d, dist[arcs[k].node])
    ensures PartlyRelaxed(current, arcs, k + 1, seen, dist[arcs[k].node := d])
  {
  }

  /** Once every arc is gone through, the current node counts as processed. */
  lemma ExpandStateDone(g: GraphModel, start: NodeId, ks: set<NodeId>, visited: seq<NodeId>, seen: set<NodeId>,
                        queue: seq<NodeId>, dist: map<NodeId, Dist>, pred: map<NodeId, Option<NodeId>>,
                        paths: map<NodeId, seq<Hop>>, current: NodeId, arcs: seq<Arc>)
    requires ExpandState(g, start, ks, visited, seen, queue, dist, pred, paths, current, arcs, |arcs|)
    ensures SearchState(g, start, ks, |visited|, visited, seen, queue, dist, pred, paths)
  {
    RelaxedDone(g, visited, seen, dist, arcs);
  }

  lemma RelaxedDone(g: GraphModel, visited: seq<NodeId>, seen: set<NodeId>, dist: map<NodeId, Dist>, arcs: seq<Arc>)
    requires 0 < |visited| && arcs == Arcs(g.edges, g.directed, visited[|visited| - 1])
    requires Relaxed(g, |visited| - 1, visited, seen, dist)
    requires PartlyRelaxed(visited[|visited| - 1], arcs, |arcs|, seen, dist)
    ensures Relaxed(g, |visited|, visited, seen, dist)
  {
    forall i, a | 0 <= i < |visited| && a in Arcs(g.edges, g.directed, visited[i]) && visited[i] in dist && a.node in dist
      ensures a.node in seen || AtMost(dist[a.node], Add(dist[visited[i]], a.weight))
    {
      if i == |visited| - 1 {
        var m :| 0 <= m < |arcs| && arcs[m] == a;
      }
    }
  }

  // The record side.

  lemma UnsettledSnoc(arcs: seq<Arc>, vs: seq<NodeId>, k: nat)
    requires k < |arcs|
    ensures Unsettled(arcs[..k + 1], vs) == Unsettled(arcs[..k], vs) + (if arcs[k].node in vs then [] else [arcs[k].node])
  {
    assert arcs[..k + 1][..k] == arcs[..k];
  }

  lemma VisitRecord(g: GraphModel, start: NodeId, visited: seq<NodeId>, steps: seq<Step>, c: NodeId, s: Step)
    requires SearchRecord(g, start, |visited|, [], visited, steps)
    requires s.kind == VisitNode && s.currentNode == Some(c)
    ensures SearchRecord(g, start, |visited|, [], visited + [c], steps + [s])
  {
    ProjectionsSnoc(steps, s);
    CountKindSnoc(steps, s);
    assert visited[..|visited|] == visited;
    assert (visited + [c])[..|visited|] == visited;
  }

  lemma SeenRecord(g: GraphModel, start: NodeId, visited: seq<NodeId>, steps: seq<Step>, current: NodeId,
                   arcs: seq<Arc>, k: nat)
    requires 0 < |visited| && k < |arcs| && arcs[k].node in visited
    requires SearchRecord(g, start, |visited| - 1, Pointers(current, Unsettled(arcs[..k], visited)), visited, steps)
    ensures SearchRecord(g, start, |visited| - 1, Pointers(current, Unsettled(arcs[..k + 1], visited)), visited, steps)
  {
    UnsettledSnoc(arcs, visited, k);
    var ns := Unsettled(arcs[..k], visited);
    assert ns + [] == ns;
  }

  lemma InspectRecord(g: GraphModel, start: NodeId, visited: seq<NodeId>, steps: seq<Step>, current: NodeId,
                      arcs: seq<Arc>, k: nat, s: Step)
    requires 0 < |visited| && k < |arcs| && arcs[k].node !in visited
    requires SearchRecord(g, start, |visited| - 1, Pointers(current, Unsettled(arcs[..k], visited)), visited, steps)
    requires s.kind == InspectEdge && s.highlightEdges == Some(EdgeList([EdgePointer(current, arcs[k].node)]))
    ensures SearchRecord(g, start, |visited| - 1, Pointers(current, Unsettled(arcs[..k + 1], visited)), visited, steps + [s])
  {
    ProjectionsSnoc(steps, s);
    CountKindSnoc(steps, s);
    UnsettledSnoc(arcs, visited, k);
    var ns := Unsettled(arcs[..k], visited);
    PointersAppend(current, ns, arcs[k].node);
    var done := DijkstraExpansion(g, visited[..|visited| - 1]);
    AppendAssoc(done, Pointers(current, ns), [EdgePointer(current, arcs[k].node)]);
  }

  lemma RelaxRecord(g: GraphModel, start: NodeId, visited: seq<NodeId>, steps: seq<Step>, extra: seq<EdgePointer>, s: Step)
    requires 0 < |visited|
    requires SearchRecord(g, start, |visited| - 1, extra, visited, steps)
    requires s.kind == RelaxEdge
    ensures SearchRecord(g, start, |visited| - 1, extra, visited, steps + [s])
  {
    ProjectionsSnoc(steps, s);
    CountKindSnoc(steps, s);
  }

  lemma ExpandRecordDone(g: GraphModel, start: NodeId, visited: seq<NodeId>, steps: seq<Step>, current: NodeId)
    requires 0 < |visited| && current == visited[|visited| - 1]
    requires var arcs := Arcs(g.edges, g.directed, current);
      SearchRecord(g, start, |visited| - 1, Pointers(current, Unsettled(arcs[..|arcs|], visited)), visited, steps)
    ensures SearchRecord(g, start, |visited|, [], visited, steps)
  {
    var arcs := Arcs(g.edges, g.directed, current);
    assert arcs[..|arcs|] == arcs;
    assert visited[..|visited|] == visited;
    assert visited[..|visited|][..|visited| - 1] == visited[..|visited| - 1];
  }

  /** No distance has grown from `before` to `after`. */
  predicate Lowered(before: map<NodeId, Dist>, after: map<NodeId, Dist>) {
    before.Keys == after.Keys && forall v :: v in before ==> AtMost(after[v], before[v])
  }

  lemma LoweredRefl(dist: map<NodeId, Dist>)
    ensures Lowered(dist, dist)
  {
    forall v | v in dist ensures AtMost(dist[v], dist[v]) {
      AtMostRefl(dist[v]);
    }
  }

  lemma LowerOne(dist: map<NodeId, Dist>, y: NodeId, d: Dist)
    requires y in dist && Less(d, dist[y])
    ensures Lowered(dist, dist[y := d])
  {
    forall v | v in dist ensures AtMost(dist[y := d][v], dist[v]) {
      AtMostRefl(dist[v]);
      LessAtMost(d, dist[y]);
    }
  }

  lemma LoweredTrans(a: map<NodeId, Dist>, b: map<NodeId, Dist>, c: map<NodeId, Dist>)
    requires Lowered(a, b) && Lowered(b, c)
    ensures Lowered(a, c)
  {
    forall v | v in a ensures AtMost(c[v], a[v]) {
      AtMostTrans(c[v], b[v], a[v]);
    }
  }

  // The methods.

  /** One arc of the current node: skipped when its end is visited;
      otherwise inspected, and relaxed when it strictly improves its end. */
  method RelaxArc(g: GraphModel, start: NodeId, ghost ks: set<NodeId>, current: NodeId, arcs: seq<Arc>, k: nat,
                  visited: seq<NodeId>, ghost seen: set<NodeId>, queue0: seq<NodeId>, dist0: map<NodeId, Dist>,
                  pred0: map<NodeId, Option<NodeId>>, ghost paths0: map<NodeId, seq<Hop>>, steps0: seq<Step>)
    returns (queue: seq<NodeId>, dist: map<NodeId, Dist>, pred: map<NodeId, Option<NodeId>>,
             ghost paths: map<NodeId, seq<Hop>>, steps: seq<Step>)
    requires ExpandState(g, start, ks, visited, seen, queue0, dist0, pred0, paths0, current, arcs, k) && k < |arcs|
    requires SearchRecord(g, start, |visited| - 1, Pointers(current, Unsettled(arcs[..k], visited)), visited, steps0)
    ensures ExpandState(g, start, ks, visited, seen, queue, dist, pred, paths, current, arcs, k + 1)
    ensures SearchRecord(g, start, |visited| - 1, Pointers(current, Unsettled(arcs[..k + 1], visited)), visited, steps)
    ensures Lowered(dist0, dist)
    ensures forall v :: v in visited && v in dist0 ==> dist[v] == dist0[v]
  {
    queue, dist, pred, paths, steps := queue0, dist0, pred0, paths0, steps0;
    LoweredRefl(dist);
    var neighbor, weight := arcs[k].node, arcs[k].weight;
    if neighbor in visited {
      SeenState(g, start, ks, visited, seen, queue, dist, pred, paths, current, arcs, k);
      SeenRecord(g, start, visited, steps, current, arcs, k);
      return;
    }
    var inspectStep := InspectStep(StepId(|steps|), current, neighbor, visited, queue, dist);
    InspectRecord(g, start, visited, steps, current, arcs, k, inspectStep);
    steps := steps + [inspectStep];
    if current in dist && neighbor in dist && Less(Add(dist[current], weight), dist[neighbor]) {
      var newDist := Add(dist[current], weight);
      assert current in seen && (start in ks ==> start in seen);
      RelaxStateTables(g, start, ks, seen, dist, pred, paths, current, arcs[k]);
      RelaxStateQueue(g, start, ks, visited, seen, queue, dist, current, arcs, k, newDist);
      LowerOne(dist, neighbor, newDist);
      dist := dist[neighbor := newDist];
      pred := pred[neighbor := Some(current)];
      paths := paths[neighbor := paths[current] + [Hop(current, neighbor, weight)]];
      if neighbor !in queue {
        queue := queue + [neighbor];
      }
      var relaxStep := RelaxStep(StepId(|steps|), current, neighbor, visited, queue, dist, pred);
      RelaxRecord(g, start, visited, steps, Pointers(current, Unsettled(arcs[..k + 1], visited)), relaxStep);
      steps := steps + [relaxStep];
    } else {
      KeepState(g, start, ks, visited, seen, queue, dist, pred, paths, current, arcs, k);
    }
  }

  /** The loop over the arcs of `current`, the node visited last. */
  method RelaxArcs(g: GraphModel, start: NodeId, ghost ks: set<NodeId>, current: NodeId, arcs: seq<Arc>,
                   visited: seq<NodeId>, ghost seen: set<NodeId>, queue0: seq<NodeId>, dist0: map<NodeId, Dist>,
                   pred0: map<NodeId, Option<NodeId>>, ghost paths0: map<NodeId, seq<Hop>>, steps0: seq<Step>)
    returns (queue: seq<NodeId>, dist: map<NodeId, Dist>, pred: map<NodeId, Option<NodeId>>,
             ghost paths: map<NodeId, seq<Hop>>, steps: seq<Step>)
    requires ExpandState(g, start, ks, visited, seen, queue0, dist0, pred0, paths0, current, arcs, 0)
    requires SearchRecord(g, start, |visited| - 1, Pointers(current, Unsettled(arcs[..0], visited)), visited, steps0)
    ensures ExpandState(g, start, ks, visited, seen, queue, dist, pred, paths, current, arcs, |arcs|)
    ensures SearchRecord(g, start, |visited| - 1, Pointers(current, Unsettled(arcs[..|arcs|], visited)), visited, steps)
    ensures Lowered(dist0, dist)
    ensures forall v :: v in visited && v in dist0 ==> dist[v] == dist0[v]
  {
    queue, dist, pred, paths, steps := queue0, dist0, pred0, paths0, steps0;
    LoweredRefl(dist);
    for k := 0 to |arcs|
      invariant ExpandState(g, start, ks, visited, seen, queue, dist, pred, paths, current, arcs, k)
      invariant SearchRecord(g, start, |visited| - 1, Pointers(current, Unsettled(arcs[..k], visited)), visited, steps)
      invariant Lowered(dist0, dist)
      invariant forall v :: v in visited && v in dist0 ==> dist[v] == dist0[v]
    {
      ghost var before := dist;
      queue, dist, pred, paths, steps := RelaxArc(g, start, ks, current, arcs, k, visited, seen, queue, dist, pred, paths, steps);
      LoweredTrans(dist0, before, dist);
    }
  }

  /** One round of the main loop: sort the queue by distance, take its
      front, visit it and go through its arcs. The two early exits of the
      round, for a front that is already visited and for one at `Infinity`,
      are never taken. */
  method Round(g: GraphModel, start: NodeId, ghost ks: set<NodeId>,
               visited0: seq<NodeId>, ghost seen0: set<NodeId>, queue0: seq<NodeId>, dist0: map<NodeId, Dist>,
               pred0: map<NodeId, Option<NodeId>>, ghost paths0: map<NodeId, seq<Hop>>, steps0: seq<Step>)
    returns (visited: seq<NodeId>, ghost seen: set<NodeId>, queue: seq<NodeId>, dist: map<NodeId, Dist>,
             pred: map<NodeId, Option<NodeId>>, ghost paths: map<NodeId, seq<Hop>>, steps: seq<Step>)
    requires SearchState(g, start, ks, |visited0|, visited0, seen0, queue0, dist0, pred0, paths0) && queue0 != []
    requires SearchRecord(g, start, |visited0|, [], visited0, steps0)
    ensures SearchState(g, start, ks, |visited|, visited, seen, queue, dist, pred, paths)
    ensures SearchRecord(g, start, |visited|, [], visited, steps)
    ensures |visited| == |visited0| + 1 && visited[..|visited0|] == visited0
    ensures |seen0| < |seen| <= |ks + {start}|
    ensures Lowered(dist0, dist)
    ensures forall v :: v in visited0 && v in dist0 ==> dist[v] == dist0[v]
  {
    SelectState(g, start, ks, visited0, seen0, queue0, dist0, pred0, paths0);
    queue := SortByDistance(dist0, queue0);
    var current := queue[0];
    queue := queue[1..];
    if current in visited0 {
      assert false;
    }
    if current in dist0 && dist0[current] == Inf {
      assert false;
    }
    SubsetCard(seen0 + {current}, ks + {start});
    visited, seen, queue, dist, pred, paths, steps :=
      VisitAndRelax(g, start, ks, current, visited0, seen0, queue, dist0, pred0, paths0, steps0);
    assert visited[..|visited0|] == visited0;
  }

  /** The rest of the round once the front `current` is removed from the
      queue: visit it, then go through its arcs. */
  method VisitAndRelax(g: GraphModel, start: NodeId, ghost ks: set<NodeId>, current: NodeId,
                       visited0: seq<NodeId>, ghost seen0: set<NodeId>, queue0: seq<NodeId>, dist0: map<NodeId, Dist>,
                       pred0: map<NodeId, Option<NodeId>>, ghost paths0: map<NodeId, seq<Hop>>, steps0: seq<Step>)
    returns (visited: seq<NodeId>, ghost seen: set<NodeId>, queue: seq<NodeId>, dist: map<NodeId, Dist>,
             pred: map<NodeId, Option<NodeId>>, ghost paths: map<NodeId, seq<Hop>>, steps: seq<Step>)
    requires ExpandState(g, start, ks, visited0 + [current], seen0 + {current}, queue0, dist0, pred0, paths0,
                         current, Arcs(g.edges, g.directed, current), 0)
    requires SearchRecord(g, start, |visited0|, [], visited0, steps0)
    ensures SearchState(g, start, ks, |visited|, visited, seen, queue, dist, pred, paths)
    ensures SearchRecord(g, start, |visited|, [], visited, steps)
    ensures visited == visited0 + [current] && seen == seen0 + {current}
    ensures Lowered(dist0, dist)
    ensures forall v :: v in visited && v in dist0 ==> dist[v] == dist0[v]
  {
    visited, seen := visited0 + [current], seen0 + {current};
    var visitStep := VisitStep(StepId(|steps0|), current, visited, queue0, dist0);
    VisitRecord(g, start, visited0, steps0, current, visitStep);
    var arcs := Arcs(g.edges, g.directed, current);
    assert arcs[..0] == [];
    queue, dist, pred, paths, steps :=
      RelaxArcs(g, start, ks, current, arcs, visited, seen, queue0, dist0, pred0, paths0, steps0 + [visitStep]);
    ExpandStateDone(g, start, ks, visited, seen, queue, dist, pred, paths, current, arcs);
    ExpandRecordDone(g, start, visited, steps, current);
  }

  /** The main loop, from the opening step until the queue is empty. */
  method Search(g: GraphModel, start: NodeId)
    returns (ghost ks: set<NodeId>, visited: seq<NodeId>, ghost seen: set<NodeId>, dist: map<NodeId, Dist>,
             pred: map<NodeId, Option<NodeId>>, ghost paths: map<NodeId, seq<Hop>>, steps: seq<Step>)
    ensures SearchState(g, start, ks, |visited|, visited, seen, [], dist, pred, paths)
    ensures SearchRecord(g, start, |visited|, [], visited, steps)
  {
    dist, pred := Initialize(g, start);
    ks, visited, seen, paths := Keys(g), [], {}, StartPaths(g, start);
    var queue := [start];
    steps := [FirstStep(start, dist, pred)];
    StartState(g, start);
    StartRecord(g, start);
    while queue != []
      invariant SearchState(g, start, ks, |visited|, visited, seen, queue, dist, pred, paths)
      invariant SearchRecord(g, start, |visited|, [], visited, steps)
      invariant |seen| <= |ks + {start}|
      decreases |ks + {start}| - |seen|
    {
      visited, seen, queue, dist, pred, paths, steps := Round(g, start, ks, visited, seen, queue, dist, pred, paths, steps);
    }
  }

  /** What the search gives once the queue is empty. */
  lemma StateDone(g: GraphModel, start: NodeId, ks: set<NodeId>, visited: seq<NodeId>, seen: set<NodeId>,
                  dist: map<NodeId, Dist>, pred: map<NodeId, Option<NodeId>>, paths: map<NodeId, seq<Hop>>)
    requires SearchState(g, start, ks, |visited|, visited, seen, [], dist, pred, paths)
    ensures NoDup(visited) && |visited| > 0 && visited[0] == start
    ensures dist.Keys == Keys(g) && pred.Keys == Keys(g)
    ensures forall v :: v in visited <==> v == start || (v in dist && dist[v].Fin?)
    ensures forall v :: v in dist ==> (dist[v] == Inf <==> Unreachable(g, Keys(g), start, v))
    ensures NonNegativeWeights(g) ==>
      forall v :: v in dist && dist[v].Fin? ==> IsShortest(g, Keys(g), start, v, dist[v].value)
    ensures forall v :: v in pred ==> (pred[v] == None <==> v == start || dist[v] == Inf)
    ensures forall v :: v in pred && pred[v].Some? ==>
      pred[v].value in dist && exists w :: Arc(v, w) in Arcs(g.edges, g.directed, pred[v].value)
                                           && dist[v] == Add(dist[pred[v].value], w)
    ensures Ranked(pred, Ranks(pred, paths))
  {
    PredRanked(g, start, ks, seen, dist, pred, paths);
    DoneVisited(g, start, ks, visited, seen, dist);
    DoneReach(g, start, ks, visited, seen, dist, pred, paths);
    if NonNegativeWeights(g) {
      DoneShortest(g, start, ks, seen, dist, pred, paths);
    }
    DonePredecessors(g, start, ks, seen, dist, pred, paths);
  }

  /** With the queue empty, the visited nodes are the start and the nodes
      with a finite distance, each once, the start first. */
  lemma DoneVisited(g: GraphModel, start: NodeId, ks: set<NodeId>, visited: seq<NodeId>, seen: set<NodeId>,
                    dist: map<NodeId, Dist>)
    requires VisitOrder(start, ks, visited, seen, []) && QueueCovers(seen, [], dist)
    requires Settled(g, start, ks, seen, dist) && dist.Keys == ks
    ensures NoDup(visited) && |visited| > 0 && visited[0] == start && start in seen
    ensures forall v :: v in visited <==> v == start || (v in dist && dist[v].Fin?)
  {
    CardNoDup(visited);
    forall v ensures v in visited <==> v == start || (v in dist && dist[v].Fin?) {
      assert v in visited <==> v in seen;
      if v in seen && v != start {
        assert v in ks;
      }
    }
  }

  /** A path from the start to an unvisited node leaves the visited nodes
      by a relaxed arc, whose end is therefore unvisited at a finite distance. */
  lemma ExitFinite(g: GraphModel, ks: set<NodeId>, start: NodeId, visited: seq<NodeId>, seen: set<NodeId>,
                   dist: map<NodeId, Dist>, v: NodeId, p: seq<Hop>) returns (y: NodeId)
    requires IsPath(g, ks, start, v, p) && start in seen && v !in seen
    requires seen == (set x | x in visited) && dist.Keys == ks
    requires Settled(g, start, ks, seen, dist) && Relaxed(g, |visited|, visited, seen, dist)
    ensures y !in seen && y in dist && dist[y].Fin?
  {
    var k := Crossing(g, ks, start, v, p, seen);
    var x, w := p[k].from, p[k].weight;
    y := p[k].to;
    PathEnd(g, ks, start, x, p[..k]);
    var i :| 0 <= i < |visited| && visited[i] == x;
    assert Arc(y, w) in Arcs(g.edges, g.directed, visited[i]);
  }

  lemma DoneReach(g: GraphModel, start: NodeId, ks: set<NodeId>, visited: seq<NodeId>, seen: set<NodeId>,
                  dist: map<NodeId, Dist>, pred: map<NodeId, Option<NodeId>>, paths: map<NodeId, seq<Hop>>)
    requires SearchState(g, start, ks, |visited|, visited, seen, [], dist, pred, paths) && start in seen
    ensures forall v :: v in dist ==> (dist[v] == Inf <==> Unreachable(g, Keys(g), start, v))
  {
    forall v | v in dist ensures dist[v] == Inf <==> Unreachable(g, ks, start, v) {
      if dist[v].Fin? {
        assert IsPath(g, ks, start, v, paths[v]);
      } else {
        forall p: seq<Hop> | IsPath(g, ks, start, v, p) ensures false {
          var y := ExitFinite(g, ks, start, visited, seen, dist, v, p);
        }
      }
    }
  }

  lemma DoneShortest(g: GraphModel, start: NodeId, ks: set<NodeId>, seen: set<NodeId>, dist: map<NodeId, Dist>,
                     pred: map<NodeId, Option<NodeId>>, paths: map<NodeId, seq<Hop>>)
    requires NonNegativeWeights(g) && Witnesses(g, start, ks, seen, dist, pred, paths) && Settled(g, start, ks, seen, dist)
    requires forall v :: v in dist && dist[v].Fin? ==> v in seen
    ensures forall v :: v in dist && dist[v].Fin? ==> IsShortest(g, ks, start, v, dist[v].value)
  {
    forall v | v in dist && dist[v].Fin? ensures IsShortest(g, ks, start, v, dist[v].value) {
      assert IsPath(g, ks, start, v, paths[v]) && Cost(paths[v]) == dist[v].value;
    }
  }

  lemma DonePredecessors(g: GraphModel, start: NodeId, ks: set<NodeId>, seen: set<NodeId>, dist: map<NodeId, Dist>,
                         pred: map<NodeId, Option<NodeId>>, paths: map<NodeId, seq<Hop>>)
    requires Tables(start, ks, dist, pred) && Witnesses(g, start, ks, seen, dist, pred, paths)
    ensures forall v :: v in pred && pred[v].Some? ==>
      pred[v].value in dist && exists w :: Arc(v, w) in Arcs(g.edges, g.directed, pred[v].value)
                                           && dist[v] == Add(dist[pred[v].value], w)
  {
    forall v | v in pred && pred[v].Some?
      ensures pred[v].value in dist && exists w :: Arc(v, w) in Arcs(g.edges, g.directed, pred[v].value)
                                                   && dist[v] == Add(dist[pred[v].value], w)
    {
      var u := pred[v].value;
      var pv := paths[v];
      var w := pv[|pv| - 1].weight;
      assert u in dist && dist[u].Fin? && u in paths && pv == paths[u] + [Hop(u, v, w)];
      assert dist[v].Fin?;
      PredArc(g, ks, start, v, u, w, paths[u], pv, dist[u], dist[v]);
    }
  }

  /** The hop into a node from its predecessor follows an arc whose weight
      separates their distances. */
  lemma PredArc(g: GraphModel, ks: set<NodeId>, start: NodeId, v: NodeId, u: NodeId, w: real,
                pu: seq<Hop>, pv: seq<Hop>, du: Dist, dv: Dist)
    requires pv == pu + [Hop(u, v, w)] && IsPath(g, ks, start, v, pv)
    requires du == Fin(Cost(pu)) && dv == Fin(Cost(pv))
    ensures Arc(v, w) in Arcs(g.edges, g.directed, u) && dv == Add(du, w)
  {
    PathLast(g, ks, start, v, pu, Hop(u, v, w));
  }

  /** The rank of a node: the number of hops of its recorded path. */
  ghost function Ranks(pred: map<NodeId, Option<NodeId>>, paths: map<NodeId, seq<Hop>>): map<NodeId, nat> {
    map v | v in pred :: if v in paths then |paths[v]| else 0
  }

  /** A predecessor's recorded path is one hop shorter, so the links are ranked. */
  lemma PredRanked(g: GraphModel, start: NodeId, ks: set<NodeId>, seen: set<NodeId>, dist: map<NodeId, Dist>,
                   pred: map<NodeId, Option<NodeId>>, paths: map<NodeId, seq<Hop>>)
    requires Tables(start, ks, dist, pred) && Witnesses(g, start, ks, seen, dist, pred, paths)
    ensures Ranked(pred, Ranks(pred, paths))
  {
    var rank := Ranks(pred, paths);
    forall v | v in pred && pred[v].Some?
      ensures pred[v].value in pred && rank[pred[v].value] < rank[v]
    {
      var u := pred[v].value;
      assert paths[v] == paths[u] + [Hop(u, v, paths[v][|paths[v]| - 1].weight)];
    }
  }

  /** Walking the predecessor links back from a node with a finite distance
      only meets nodes with finite distances, and so ends at the start: the
      links that `dijkstra` leaves behind rebuild a path to the start. */
  lemma {:induction false} ChainToStart(g: GraphModel, start: NodeId, dist: map<NodeId, Dist>,
                                        pred: map<NodeId, Option<NodeId>>, path: seq<NodeId>, j: nat)
    requires forall v :: v in pred ==> v in dist && (pred[v] == None <==> v == start || dist[v] == Inf)
    requires forall v :: v in pred && pred[v].Some? ==>
      pred[v].value in dist && exists w :: Arc(v, w) in Arcs(g.edges, g.directed, pred[v].value)
                                           && dist[v] == Add(dist[pred[v].value], w)
    requires PredChain(pred, path) && j < |path| && dist[path[j]].Fin?
    ensures path[0] == start
    decreases j
  {
    if j > 0 {
      var u, v := path[j - 1], path[j];
      assert pred[v] == Some(u);
      var w :| Arc(v, w) in Arcs(g.edges, g.directed, u) && dist[v] == Add(dist[u], w);
      assert dist[u].Fin?;
      ChainToStart(g, start, dist, pred, path, j - 1);
    }
  }

  /** What the steps record once the queue is empty, with the closing step added. */
  lemma RecordDone(g: GraphModel, start: NodeId, visited: seq<NodeId>, dist: map<NodeId, Dist>,
                   pred: map<NodeId, Option<NodeId>>, steps0: seq<Step>, steps: seq<Step>)
    requires SearchRecord(g, start, |visited|, [], visited, steps0)
    requires steps == steps0 + [LastStep(StepId(|steps0|), visited, dist, pred)]
    ensures |steps| >= 2 && steps[0] == FirstStep(start, InitialDistances(g, start), InitialPredecessors(g))
    ensures steps[|steps| - 1] == LastStep(StepId(|steps| - 1), visited, dist, pred)
    ensures Visits(steps) == visited
    ensures Inspections(steps) == DijkstraExpansion(g, visited)
    ensures CountKind(steps, Custom) == 2
    ensures |steps| == 2 + |visited| + |Inspections(steps)| + CountKind(steps, RelaxEdge)
  {
    var last := LastStep(StepId(|steps0|), visited, dist, pred);
    ProjectionsSnoc(steps0, last);
    CountKindSnoc(steps0, last);
    assert visited[..|visited|] == visited;
  }

  /** `dijkstra(graph, startNode)`. The ghost results are the visiting order
      and the final distance and predecessor records, which the closing step
      carries. */
  method Dijkstra(g: GraphModel, start: NodeId)
    returns (steps: seq<Step>, ghost order: seq<NodeId>, ghost distances: map<NodeId, Dist>,
             ghost predecessors: map<NodeId, Option<NodeId>>, ghost rank: map<NodeId, nat>)
    ensures |steps| >= 2 && steps[0] == FirstStep(start, InitialDistances(g, start), InitialPredecessors(g))
    ensures steps[|steps| - 1] == LastStep(StepId(|steps| - 1), order, distances, predecessors)
    ensures Visits(steps) == order && NoDup(order) && |order| > 0 && order[0] == start
    ensures Inspections(steps) == DijkstraExpansion(g, order)
    ensures CountKind(steps, Custom) == 2
    ensures |steps| == 2 + |order| + |Inspections(steps)| + CountKind(steps, RelaxEdge)
    ensures distances.Keys == Keys(g) && predecessors.Keys == Keys(g)
    ensures forall v :: v in order <==> v == start || (v in distances && distances[v].Fin?)
    ensures forall v :: v in distances ==> (distances[v] == Inf <==> Unreachable(g, Keys(g), start, v))
    ensures NonNegativeWeights(g) ==>
      forall v :: v in distances && distances[v].Fin? ==> IsShortest(g, Keys(g), start, v, distances[v].value)
    ensures forall v :: v in predecessors ==> (predecessors[v] == None <==> v == start || distances[v] == Inf)
    ensures forall v :: v in predecessors && predecessors[v].Some? ==>
      predecessors[v].value in distances
      && exists w :: Arc(v, w) in Arcs(g.edges, g.directed, predecessors[v].value)
                     && distances[v] == Add(distances[predecessors[v].value], w)
    ensures Ranked(predecessors, rank)
  {
    ghost var ks, seen, paths;
    var visited, dist, pred;
    ks, visited, seen, dist, pred, paths, steps := Search(g, start);
    StateDone(g, start, ks, visited, seen, dist, pred, paths);
    var lastStep := LastStep(StepId(|steps|), visited, dist, pred);
    RecordDone(g, start, visited, dist, pred, steps, steps + [lastStep]);
    steps := steps + [lastStep];
    assert steps[|steps| - 1] == LastStep(StepId(|steps| - 1), visited, dist, pred);
    order, distances, predecessors, rank := visited, dist, pred, Ranks(pred, paths);
  }
}
