/** Breadth-first search that records its progress as steps. Nodes are marked
    visited when they are enqueued; each dequeued node has every neighbour
    inspected, and unvisited neighbours are discovered at one more hop. */
module Bfs {
  import opened Wrappers
  import opened Collections
  import opened Graph
  import opened Steps

  /** The distance record as a step snapshot holds it. */
  function Snapshot(dist: map<NodeId, nat>): (m: map<NodeId, Dist>)
    ensures m.Keys == dist.Keys
    ensures forall v :: v in dist ==> m[v] == Fin(dist[v] as real)
  {
    map v | v in dist :: Fin(dist[v] as real)
  }

  /** The inspections made while expanding the nodes of `vs` in order, each
      against all of its neighbours in `getNeighbors` order. */
  function Expansion(g: GraphModel, vs: seq<NodeId>): seq<EdgePointer> {
    if vs == [] then []
    else Expansion(g, vs[..|vs| - 1]) + Pointers(vs[|vs| - 1], Neighbors(g, vs[|vs| - 1]))
  }

  /** The breadth-first tree: the start at depth 0 without predecessor; every
      other recorded node a neighbour of its recorded predecessor and one hop
      below it. */
  ghost predicate BfsTree(g: GraphModel, start: NodeId, dist: map<NodeId, nat>, pred: map<NodeId, Option<NodeId>>) {
    && start in dist && dist[start] == 0 && start in pred && pred[start] == None
    && dist.Keys == pred.Keys
    && forall v {:trigger pred[v]} :: v in pred && v != start ==>
         pred[v].Some? && pred[v].value in dist && v in dist
         && v in Neighbors(g, pred[v].value) && dist[v] == dist[pred[v].value] + 1
  }

  /** No neighbour of a recorded node is missing or more than one hop further. */
  ghost predicate Closed(g: GraphModel, dist: map<NodeId, nat>) {
    forall u, v :: u in dist && Adjacent(g, u, v) ==> v in dist && dist[v] <= dist[u] + 1
  }

  function FirstStep(start: NodeId): Step {
    CreateStep(StepId(0), Custom, Overrides(
      currentNode := Some(start), visitedNodes := Some([]), queuedNodes := Some([start]),
      state := Some(AlgorithmState(queue := Some([start]), distances := Some(map[start := Fin(0.0)]),
                                   predecessors := Some(map[start := None])))))
  }

  /** The closing step: everything visited, the queue empty, and the final
      distances and predecessors. */
  function LastStep(id: string, visited: seq<NodeId>, dist: map<NodeId, nat>, pred: map<NodeId, Option<NodeId>>): Step {
    CreateStep(id, Custom, Overrides(
      visitedNodes := Some(visited), queuedNodes := Some([]),
      state := Some(AlgorithmState(distances := Some(Snapshot(dist)), predecessors := Some(pred)))))
  }

  /** The search state between steps: `visited` in discovery order, the first
      `head` of them dequeued and the rest forming the queue, with a distance
      recorded for exactly the visited nodes. */
  ghost predicate Frontier(start: NodeId, u: set<NodeId>, visited: seq<NodeId>, head: nat, dist: map<NodeId, nat>) {
    && 0 < |visited| && visited[0] == start && head <= |visited|
    && |dist| == |visited| && dist.Keys <= u
    && (forall i :: 0 <= i < |visited| ==> visited[i] in dist)
    && (forall v :: v in dist ==> v in visited)
  }

  /** The queue holds two layers: the dequeued nodes are at most `d` hops
      away, the queue holds nodes at `d` hops up to `mid` and at `d + 1` hops
      from there on. */
  ghost predicate Layered(visited: seq<NodeId>, head: nat, mid: nat, dist: map<NodeId, nat>, d: nat)
    requires forall i :: 0 <= i < |visited| ==> visited[i] in dist
  {
    && head <= mid <= |visited|
    && (forall i :: 0 <= i < head ==> dist[visited[i]] <= d)
    && (forall j :: head <= j < mid ==> dist[visited[j]] == d)
    && (forall j :: mid <= j < |visited| ==> dist[visited[j]] == d + 1)
  }

  /** The first `n` visited nodes have had all their neighbours recorded. */
  ghost predicate Expanded(g: GraphModel, visited: seq<NodeId>, n: nat, dist: map<NodeId, nat>)
    requires n <= |visited|
  {
    forall i, v {:trigger v in Neighbors(g, visited[i])} :: 0 <= i < n && v in Neighbors(g, visited[i]) ==>
      visited[i] in dist && v in dist && dist[v] <= dist[visited[i]] + 1
  }

  /** Dequeuing the head of the queue: the layers move on by one node, and
      when the first layer is used up the second becomes the current one. */
  lemma DequeueKeepsLayers(visited: seq<NodeId>, head: nat, mid: nat, dist: map<NodeId, nat>, d: nat)
    requires forall i :: 0 <= i < |visited| ==> visited[i] in dist
    requires Layered(visited, head, mid, dist, d) && head < |visited|
    ensures var (mid', d') := if head == mid then (|visited|, d + 1) else (mid, d);
      Layered(visited, head + 1, mid', dist, d') && dist[visited[head]] == d'
  {
  }

  /** Discovering an unvisited neighbour of the node just dequeued, one hop
      below it, keeps the search state well formed. */
  lemma DiscoverKeepsFrontier(start: NodeId, u: set<NodeId>, visited: seq<NodeId>, head: nat, mid: nat,
                              dist: map<NodeId, nat>, d: nat, v: NodeId)
    requires Frontier(start, u, visited, head, dist) && Layered(visited, head, mid, dist, d)
    requires v !in visited && v in u
    ensures var visited', dist' := visited + [v], dist[v := d + 1];
      && Frontier(start, u, visited', head, dist') && Layered(visited', head, mid, dist', d)
      && visited'[..head] == visited[..head] && visited'[1..] == visited[1..] + [v]
      && visited'[head..] == visited[head..] + [v]
      && (forall x :: x in dist ==> x in dist' && dist'[x] == dist[x])
  {
    var visited' := visited + [v];
    assert visited'[1..] == visited[1..] + [v];
    assert visited'[head..] == visited[head..] + [v];
  }

  /** Discovering keeps the neighbours of the dequeued nodes recorded. */
  lemma DiscoverKeepsExpanded(g: GraphModel, visited: seq<NodeId>, n: nat, dist: map<NodeId, nat>, v: NodeId, x: nat)
    requires n <= |visited| && Expanded(g, visited, n, dist) && v !in dist
    ensures Expanded(g, visited + [v], n, dist[v := x])
  {
    forall i, w | 0 <= i < n && w in Neighbors(g, (visited + [v])[i])
      ensures (visited + [v])[i] in dist[v := x] && w in dist[v := x]
              && dist[v := x][w] <= dist[v := x][(visited + [v])[i]] + 1
    {
      assert (visited + [v])[i] == visited[i];
    }
  }

  /** Hanging a new node below a recorded one that lists it as a neighbour
      keeps the breadth-first tree. */
  lemma DiscoverKeepsTree(g: GraphModel, start: NodeId, dist: map<NodeId, nat>, pred: map<NodeId, Option<NodeId>>,
                          p: NodeId, v: NodeId)
    requires BfsTree(g, start, dist, pred) && p in dist && v !in dist && v in Neighbors(g, p)
    ensures BfsTree(g, start, dist[v := dist[p] + 1], pred[v := Some(p)])
  {
  }

  /** A neighbour already visited is at most one hop below the current layer. */
  lemma VisitedNeighborBound(start: NodeId, u: set<NodeId>, visited: seq<NodeId>, head: nat, mid: nat,
                             dist: map<NodeId, nat>, d: nat, v: NodeId)
    requires Frontier(start, u, visited, head, dist) && Layered(visited, head, mid, dist, d)
    requires v in visited
    ensures v in dist && dist[v] <= d + 1
  {
    var j :| 0 <= j < |visited| && visited[j] == v;
  }

  // The state of `bfs` splits into the search proper (visited order, queue,
  // distances, predecessors) and the steps recorded so far; each half has
  // its own predicate and its own lemmas.

  /** The search before each dequeue: the first `head` visited nodes have
      been expanded. */
  ghost predicate SearchState(g: GraphModel, start: NodeId, u: set<NodeId>, head: nat, mid: nat, d: nat,
                              visited: seq<NodeId>, queue: seq<NodeId>, dist: map<NodeId, nat>,
                              pred: map<NodeId, Option<NodeId>>) {
    && Frontier(start, u, visited, head, dist) && BfsTree(g, start, dist, pred) && queue == visited[head..]
    && Layered(visited, head, mid, dist, d)
    && Expanded(g, visited, head, dist)
  }

  /** The steps recorded before each dequeue: the opening step, one visit per
      dequeued node, one discovery per visited node but the start, one
      inspection per neighbour of each dequeued node, and nothing else. */
  ghost predicate SearchRecord(g: GraphModel, start: NodeId, head: nat, visited: seq<NodeId>, steps: seq<Step>) {
    && 0 < |visited| && head <= |visited|
    && |steps| > 0 && steps[0] == FirstStep(start)
    && Visits(steps) == visited[..head] && Discoveries(steps) == visited[1..]
    && Inspections(steps) == Expansion(g, visited[..head])
    && |steps| == 1 + |Visits(steps)| + |Discoveries(steps)| + |Inspections(steps)|
  }

  /** The search while `current` (the `head`-th dequeued node, at `d` hops)
      is expanded, after its first `k` neighbours. */
  ghost predicate ExpandState(g: GraphModel, start: NodeId, u: set<NodeId>, head: nat, mid: nat, d: nat,
                              current: NodeId, neighbors: seq<NodeId>, k: nat,
                              visited: seq<NodeId>, queue: seq<NodeId>, dist: map<NodeId, nat>,
                              pred: map<NodeId, Option<NodeId>>) {
    && 0 < head && k <= |neighbors|
    && Frontier(start, u, visited, head, dist) && BfsTree(g, start, dist, pred) && queue == visited[head..]
    && Layered(visited, head, mid, dist, d)
    && current == visited[head - 1] && dist[current] == d
    && Expanded(g, visited, head - 1, dist)
    && (forall m :: 0 <= m < k ==> neighbors[m] in dist && dist[neighbors[m]] <= d + 1)
  }

  /** The steps recorded while `current` is expanded: the visits of the
      dequeued nodes `prefix`, the discoveries so far, and the inspections
      `expanded` of the earlier nodes followed by those of `current`'s first
      `k` neighbours. */
  ghost predicate ExpandRecord(start: NodeId, head: nat, prefix: seq<NodeId>, current: NodeId,
                               neighbors: seq<NodeId>, k: nat, expanded: seq<EdgePointer>,
                               visited: seq<NodeId>, steps: seq<Step>) {
    && 0 < head <= |visited| && |prefix| == head && k <= |neighbors|
    && visited[..head] == prefix && prefix[head - 1] == current
    && |steps| > 0 && steps[0] == FirstStep(start)
    && Visits(steps) == prefix && Discoveries(steps) == visited[1..]
    && Inspections(steps) == expanded + Pointers(current, neighbors[..k])
    && |steps| == 1 + |Visits(steps)| + |Discoveries(steps)| + |Inspections(steps)|
  }

  /** Before the loop the start node alone is visited and queued. */
  lemma StartState(g: GraphModel, start: NodeId)
    ensures SearchState(g, start, {start} + EndPoints(g), 0, 1, 0, [start], [start], map[start := 0], map[start := None])
  {
  }

  /** Before the loop the opening step alone is recorded. */
  lemma StartRecord(g: GraphModel, start: NodeId)
    ensures SearchRecord(g, start, 0, [start], [FirstStep(start)])
  {
    ProjectionsSnoc([], FirstStep(start));
    assert Expansion(g, [start][..0]) == [];
  }

  /** Dequeuing the head of the queue starts its expansion. */
  lemma DequeueState(g: GraphModel, start: NodeId, u: set<NodeId>, head: nat, mid: nat, d: nat,
                     visited: seq<NodeId>, queue: seq<NodeId>, dist: map<NodeId, nat>, pred: map<NodeId, Option<NodeId>>)
    requires SearchState(g, start, u, head, mid, d, visited, queue, dist, pred) && queue != []
    ensures queue[0] == visited[head]
    ensures var (mid', d') := if head == mid then (|visited|, d + 1) else (mid, d);
      ExpandState(g, start, u, head + 1, mid', d', queue[0], Neighbors(g, queue[0]), 0, visited, queue[1..], dist, pred)
  {
    DequeueKeepsLayers(visited, head, mid, dist, d);
    assert visited[head + 1..] == queue[1..];
  }

  /** Recording the visit of the dequeued node. */
  lemma DequeueRecord(g: GraphModel, start: NodeId, head: nat, visited: seq<NodeId>, steps: seq<Step>, s: Step)
    requires SearchRecord(g, start, head, visited, steps) && head < |visited|
    requires s.kind == VisitNode && s.currentNode == Some(visited[head])
    ensures ExpandRecord(start, head + 1, visited[..head + 1], visited[head], Neighbors(g, visited[head]), 0,
                         Expansion(g, visited[..head]), visited, steps + [s])
  {
    ProjectionsSnoc(steps, s);
    assert visited[..head + 1] == visited[..head] + [visited[head]];
  }

  /** Recording the inspection of the edge to `current`'s `k`-th neighbour. */
  lemma InspectRecord(start: NodeId, head: nat, prefix: seq<NodeId>, current: NodeId, neighbors: seq<NodeId>,
                      k: nat, expanded: seq<EdgePointer>, visited: seq<NodeId>, steps: seq<Step>, s: Step)
    requires ExpandRecord(start, head, prefix, current, neighbors, k, expanded, visited, steps) && k < |neighbors|
    requires s.kind == InspectEdge && s.highlightEdges == Some(EdgeList([EdgePointer(current, neighbors[k])]))
    ensures ExpandRecord(start, head, prefix, current, neighbors, k + 1, expanded, visited, steps + [s])
  {
    ProjectionsSnoc(steps, s);
    PointersSnoc(current, neighbors, k);
  }

  /** Recording the discovery of a new node `v`. */
  lemma DiscoverRecord(start: NodeId, head: nat, prefix: seq<NodeId>, current: NodeId, neighbors: seq<NodeId>,
                       k: nat, expanded: seq<EdgePointer>, visited: seq<NodeId>, steps: seq<Step>, s: Step, v: NodeId)
    requires ExpandRecord(start, head, prefix, current, neighbors, k, expanded, visited, steps)
    requires s.kind == DiscoverNode && s.highlightNodes == Some(NodeList([v]))
    ensures ExpandRecord(start, head, prefix, current, neighbors, k, expanded, visited + [v], steps + [s])
  {
    ProjectionsSnoc(steps, s);
    assert (visited + [v])[..head] == visited[..head];
    assert (visited + [v])[1..] == visited[1..] + [v];
  }

  /** A neighbour not yet visited is discovered one hop below `current`. */
  lemma DiscoverState(g: GraphModel, start: NodeId, u: set<NodeId>, head: nat, mid: nat, d: nat,
                      current: NodeId, neighbors: seq<NodeId>, k: nat,
                      visited: seq<NodeId>, queue: seq<NodeId>, dist: map<NodeId, nat>, pred: map<NodeId, Option<NodeId>>)
    requires u == {start} + EndPoints(g) && neighbors == Neighbors(g, current) && k < |neighbors|
    requires ExpandState(g, start, u, head, mid, d, current, neighbors, k, visited, queue, dist, pred)
    requires neighbors[k] !in visited
    ensures var v := neighbors[k];
      ExpandState(g, start, u, head, mid, d, current, neighbors, k + 1, visited + [v], queue + [v],
                  dist[v := dist[current] + 1], pred[v := Some(current)])
  {
    var v := neighbors[k];
    NeighborEndPoint(g, current, v);
    DiscoverKeepsFrontier(start, u, visited, head, mid, dist, d, v);
    DiscoverKeepsExpanded(g, visited, head - 1, dist, v, d + 1);
    DiscoverKeepsTree(g, start, dist, pred, current, v);
  }

  /** A neighbour already visited is left as it is. */
  lemma RevisitState(g: GraphModel, start: NodeId, u: set<NodeId>, head: nat, mid: nat, d: nat,
                     current: NodeId, neighbors: seq<NodeId>, k: nat,
                     visited: seq<NodeId>, queue: seq<NodeId>, dist: map<NodeId, nat>, pred: map<NodeId, Option<NodeId>>)
    requires k < |neighbors|
    requires ExpandState(g, start, u, head, mid, d, current, neighbors, k, visited, queue, dist, pred)
    requires neighbors[k] in visited
    ensures ExpandState(g, start, u, head, mid, d, current, neighbors, k + 1, visited, queue, dist, pred)
  {
    VisitedNeighborBound(start, u, visited, head, mid, dist, d, neighbors[k]);
  }

  /** Once every neighbour of `current` is inspected, `current` counts as
      expanded. */
  lemma ExpandStateDone(g: GraphModel, start: NodeId, u: set<NodeId>, head: nat, mid: nat, d: nat, current: NodeId,
                        visited: seq<NodeId>, queue: seq<NodeId>, dist: map<NodeId, nat>, pred: map<NodeId, Option<NodeId>>)
    requires var neighbors := Neighbors(g, current);
      ExpandState(g, start, u, head, mid, d, current, neighbors, |neighbors|, visited, queue, dist, pred)
    ensures SearchState(g, start, u, head, mid, d, visited, queue, dist, pred)
  {
    ExpandedDone(g, visited, head, dist, d);
  }

  /** The neighbours of the node expanded last are all inspected: the
      expansion covers one more node. */
  lemma ExpandedDone(g: GraphModel, visited: seq<NodeId>, head: nat, dist: map<NodeId, nat>, d: nat)
    requires 0 < head <= |visited| && Expanded(g, visited, head - 1, dist)
    requires visited[head - 1] in dist && dist[visited[head - 1]] == d
    requires var neighbors := Neighbors(g, visited[head - 1]);
      forall m :: 0 <= m < |neighbors| ==> neighbors[m] in dist && dist[neighbors[m]] <= d + 1
    ensures Expanded(g, visited, head, dist)
  {
    var neighbors := Neighbors(g, visited[head - 1]);
    forall i, v | 0 <= i < head && v in Neighbors(g, visited[i])
      ensures visited[i] in dist && v in dist && dist[v] <= dist[visited[i]] + 1
    {
      if i == head - 1 {
        var m :| 0 <= m < |neighbors| && neighbors[m] == v;
      }
    }
  }

  /** ... and its inspections complete its share of the expansion. */
  lemma ExpandRecordDone(g: GraphModel, start: NodeId, head: nat, prefix: seq<NodeId>, current: NodeId,
                         visited: seq<NodeId>, steps: seq<Step>)
    requires 0 < head && |prefix| == head
    requires var neighbors := Neighbors(g, current);
      ExpandRecord(start, head, prefix, current, neighbors, |neighbors|, Expansion(g, prefix[..head - 1]), visited, steps)
    ensures SearchRecord(g, start, head, visited, steps)
  {
    var neighbors := Neighbors(g, current);
    assert neighbors[..|neighbors|] == neighbors;
    SplitLast(prefix);
  }

  /** One pass of the inner loop of `bfs`: records the inspection of the edge
      to `current`'s `k`-th neighbour and, when that neighbour is unvisited,
      discovers it one hop below `current`. */
  method InspectNeighbor(g: GraphModel, start: NodeId, ghost u: set<NodeId>, head: nat,
                         ghost mid: nat, ghost d: nat, ghost prefix: seq<NodeId>, current: NodeId,
                         neighbors: seq<NodeId>, k: nat, ghost expanded: seq<EdgePointer>,
                         visited0: seq<NodeId>, queue0: seq<NodeId>, dist0: map<NodeId, nat>,
                         pred0: map<NodeId, Option<NodeId>>, steps0: seq<Step>)
    returns (visited: seq<NodeId>, queue: seq<NodeId>, dist: map<NodeId, nat>, pred: map<NodeId, Option<NodeId>>, steps: seq<Step>)
    requires u == {start} + EndPoints(g) && neighbors == Neighbors(g, current) && k < |neighbors|
    requires ExpandState(g, start, u, head, mid, d, current, neighbors, k, visited0, queue0, dist0, pred0)
    requires ExpandRecord(start, head, prefix, current, neighbors, k, expanded, visited0, steps0)
    ensures ExpandState(g, start, u, head, mid, d, current, neighbors, k + 1, visited, queue, dist, pred)
    ensures ExpandRecord(start, head, prefix, current, neighbors, k + 1, expanded, visited, steps)
  {
    visited, queue, dist, pred, steps := visited0, queue0, dist0, pred0, steps0;
    var neighbor := neighbors[k];
    var inspectStep := CreateStep(StepId(|steps|), InspectEdge, Overrides(
      currentNode := Some(current), highlightEdges := Some(EdgeList([EdgePointer(current, neighbor)])),
      visitedNodes := Some(visited), queuedNodes := Some(queue),
      state := Some(AlgorithmState(queue := Some(queue), distances := Some(Snapshot(dist))))));
    InspectRecord(start, head, prefix, current, neighbors, k, expanded, visited, steps, inspectStep);
    steps := steps + [inspectStep];

    if neighbor !in visited {
      DiscoverState(g, start, u, head, mid, d, current, neighbors, k, visited, queue, dist, pred);
      ghost var before := visited;
      visited := visited + [neighbor];
      queue := queue + [neighbor];
      dist := dist[neighbor := dist[current] + 1];
      pred := pred[neighbor := Some(current)];
      var discoverStep := CreateStep(StepId(|steps|), DiscoverNode, Overrides(
        currentNode := Some(current), highlightNodes := Some(NodeList([neighbor])),
        highlightEdges := Some(EdgeList([EdgePointer(current, neighbor)])),
        visitedNodes := Some(visited), queuedNodes := Some(queue),
        state := Some(AlgorithmState(queue := Some(queue), distances := Some(Snapshot(dist)),
                                     predecessors := Some(pred)))));
      DiscoverRecord(start, head, prefix, current, neighbors, k + 1, expanded, before, steps, discoverStep, neighbor);
      steps := steps + [discoverStep];
    } else {
      RevisitState(g, start, u, head, mid, d, current, neighbors, k, visited, queue, dist, pred);
    }
  }

  /** The inner loop of `bfs`: inspects every neighbour of the node just
      dequeued (`current`, at `d` hops) and discovers the unvisited ones. */
  method ExpandNode(g: GraphModel, start: NodeId, ghost u: set<NodeId>, head: nat,
                    ghost mid: nat, ghost d: nat, ghost prefix: seq<NodeId>, current: NodeId,
                    visited0: seq<NodeId>, queue0: seq<NodeId>, dist0: map<NodeId, nat>,
                    pred0: map<NodeId, Option<NodeId>>, steps0: seq<Step>)
    returns (visited: seq<NodeId>, queue: seq<NodeId>, dist: map<NodeId, nat>, pred: map<NodeId, Option<NodeId>>, steps: seq<Step>)
    requires u == {start} + EndPoints(g) && 0 < head && |prefix| == head
    requires ExpandState(g, start, u, head, mid, d, current, Neighbors(g, current), 0, visited0, queue0, dist0, pred0)
    requires ExpandRecord(start, head, prefix, current, Neighbors(g, current), 0, Expansion(g, prefix[..head - 1]),
                          visited0, steps0)
    ensures SearchState(g, start, u, head, mid, d, visited, queue, dist, pred)
    ensures SearchRecord(g, start, head, visited, steps)
  {
    visited, queue, dist, pred, steps := visited0, queue0, dist0, pred0, steps0;
    var neighbors := Neighbors(g, current);
    ghost var expanded := Expansion(g, prefix[..head - 1]);
    for k := 0 to |neighbors|
      invariant ExpandState(g, start, u, head, mid, d, current, neighbors, k, visited, queue, dist, pred)
      invariant ExpandRecord(start, head, prefix, current, neighbors, k, expanded, visited, steps)
    {
      visited, queue, dist, pred, steps :=
        InspectNeighbor(g, start, u, head, mid, d, prefix, current, neighbors, k, expanded,
                        visited, queue, dist, pred, steps);
    }
    ExpandStateDone(g, start, u, head, mid, d, current, visited, queue, dist, pred);
    ExpandRecordDone(g, start, head, prefix, current, visited, steps);
  }

  /** One pass of the outer loop of `bfs`: dequeues the next node, records
      its visit and expands it. */
  method VisitNext(g: GraphModel, start: NodeId, ghost u: set<NodeId>, head: nat,
                   ghost mid: nat, ghost d: nat, visited0: seq<NodeId>, queue0: seq<NodeId>,
                   dist0: map<NodeId, nat>, pred0: map<NodeId, Option<NodeId>>, steps0: seq<Step>)
    returns (ghost mid': nat, ghost d': nat, visited: seq<NodeId>, queue: seq<NodeId>, dist: map<NodeId, nat>,
             pred: map<NodeId, Option<NodeId>>, steps: seq<Step>)
    requires u == {start} + EndPoints(g) && queue0 != []
    requires SearchState(g, start, u, head, mid, d, visited0, queue0, dist0, pred0)
    requires SearchRecord(g, start, head, visited0, steps0)
    ensures SearchState(g, start, u, head + 1, mid', d', visited, queue, dist, pred)
    ensures SearchRecord(g, start, head + 1, visited, steps)
  {
    var current := queue0[0];
    var visitStep := CreateStep(StepId(|steps0|), VisitNode, Overrides(
      currentNode := Some(current), visitedNodes := Some(visited0), queuedNodes := Some(queue0[1..]),
      state := Some(AlgorithmState(queue := Some(queue0[1..]), distances := Some(Snapshot(dist0))))));
    DequeueState(g, start, u, head, mid, d, visited0, queue0, dist0, pred0);
    DequeueRecord(g, start, head, visited0, steps0, visitStep);
    mid', d' := if head == mid then |visited0| else mid, if head == mid then d + 1 else d;
    visited, queue, dist, pred, steps := ExpandNode(g, start, u, head + 1, mid', d', visited0[..head + 1], current,
                                                    visited0, queue0[1..], dist0, pred0, steps0 + [visitStep]);
  }

  /** The loops of `bfs`: dequeue and expand until the queue runs dry. */
  method Search(g: GraphModel, start: NodeId)
    returns (ghost u: set<NodeId>, head: nat, ghost mid: nat, ghost d: nat, visited: seq<NodeId>,
             dist: map<NodeId, nat>, pred: map<NodeId, Option<NodeId>>, steps: seq<Step>)
    ensures SearchState(g, start, u, head, mid, d, visited, [], dist, pred)
    ensures SearchRecord(g, start, head, visited, steps)
  {
    visited := [start];
    var queue: seq<NodeId> := [start];
    dist := map[start := 0];
    pred := map[start := None];
    steps := [FirstStep(start)];
    head := 0;
    u := {start} + EndPoints(g);
    mid, d := 1, 0;
    StartState(g, start);
    StartRecord(g, start);

    while queue != []
      invariant SearchState(g, start, u, head, mid, d, visited, queue, dist, pred)
      invariant SearchRecord(g, start, head, visited, steps)
      decreases |u| - head
    {
      SubsetCard(dist.Keys, u);
      mid, d, visited, queue, dist, pred, steps := VisitNext(g, start, u, head, mid, d, visited, queue, dist, pred, steps);
      head := head + 1;
    }
  }

  /** What the search gives once the queue is empty. */
  lemma StateDone(g: GraphModel, start: NodeId, u: set<NodeId>, head: nat, mid: nat, d: nat,
                  visited: seq<NodeId>, dist: map<NodeId, nat>, pred: map<NodeId, Option<NodeId>>)
    requires SearchState(g, start, u, head, mid, d, visited, [], dist, pred)
    ensures head == |visited|
    ensures NoDup(visited) && |visited| > 0 && visited[0] == start
    ensures forall v :: v in dist <==> v in visited
    ensures BfsTree(g, start, dist, pred)
    ensures Closed(g, dist)
  {
    assert visited[..head] == visited;
    assert dist.Keys == set x | x in visited;
    CardNoDup(visited);
    forall a, b | a in dist && Adjacent(g, a, b) ensures b in dist && dist[b] <= dist[a] + 1 {
      var i :| 0 <= i < |visited| && visited[i] == a;
      NeighborsSpec(g, a);
    }
  }

  /** What the steps record once every visited node is dequeued, with the
      closing step added. */
  lemma RecordDone(g: GraphModel, start: NodeId, visited: seq<NodeId>, dist: map<NodeId, nat>,
                   pred: map<NodeId, Option<NodeId>>, steps0: seq<Step>, steps: seq<Step>)
    requires SearchRecord(g, start, |visited|, visited, steps0)
    requires steps == steps0 + [LastStep(StepId(|steps0|), visited, dist, pred)]
    ensures |steps| >= 2 && steps[0] == FirstStep(start)
    ensures steps[|steps| - 1] == LastStep(StepId(|steps| - 1), visited, dist, pred)
    ensures Visits(steps) == visited
    ensures Discoveries(steps) == visited[1..]
    ensures Inspections(steps) == Expansion(g, visited)
    ensures |steps| == 2 * |visited| + |Expansion(g, visited)| + 1
  {
    ProjectionsSnoc(steps0, LastStep(StepId(|steps0|), visited, dist, pred));
    assert visited[..|visited|] == visited;
  }

  /** `bfs(graph, startNode)`. The ghost results are the final visited order,
      distances and predecessors. */
  method Bfs(g: GraphModel, start: NodeId)
    returns (steps: seq<Step>, ghost order: seq<NodeId>, ghost depth: map<NodeId, nat>, ghost parent: map<NodeId, Option<NodeId>>)
    ensures |steps| >= 2 && steps[0] == FirstStep(start)
    ensures steps[|steps| - 1] == LastStep(StepId(|steps| - 1), order, depth, parent)
    ensures NoDup(order) && |order| > 0 && order[0] == start
    ensures forall v :: v in depth <==> v in order
    ensures Visits(steps) == order
    ensures Discoveries(steps) == order[1..]
    ensures Inspections(steps) == Expansion(g, order)
    ensures |steps| == 2 * |order| + |Expansion(g, order)| + 1
    ensures BfsTree(g, start, depth, parent)
    ensures Closed(g, depth)
  {
    ghost var u, mid, d;
    var head, visited, dist, pred;
    u, head, mid, d, visited, dist, pred, steps := Search(g, start);
    StateDone(g, start, u, head, mid, d, visited, dist, pred);
    var lastStep := LastStep(StepId(|steps|), visited, dist, pred);
    RecordDone(g, start, visited, dist, pred, steps, steps + [lastStep]);
    steps := steps + [lastStep];
    assert steps[|steps| - 1] == LastStep(StepId(|steps| - 1), visited, dist, pred);
    order, depth, parent := visited, dist, pred;
  }

  /** Every walk from the start ends at a recorded node, no deeper than its
      number of hops. */
  lemma {:induction false} WalksAreRecorded(g: GraphModel, start: NodeId, dist: map<NodeId, nat>, w: seq<NodeId>)
    requires start in dist && dist[start] == 0 && Closed(g, dist)
    requires IsWalk(g, w) && w[0] == start
    ensures w[|w| - 1] in dist && dist[w[|w| - 1]] <= |w| - 1
    decreases |w|
  {
    if |w| > 1 {
      var w' := w[..|w| - 1];
      assert IsWalk(g, w') by {
        forall i | 0 <= i < |w'| - 1 ensures Adjacent(g, w'[i], w'[i + 1]) {
          assert w'[i] == w[i] && w'[i + 1] == w[i + 1];
        }
      }
      WalksAreRecorded(g, start, dist, w');
      assert Adjacent(g, w[|w| - 2], w[|w| - 1]);
    }
  }

  /** Following predecessors from a recorded node back to the start gives a
      walk with exactly as many hops as its recorded distance. */
  lemma {:induction false} TreeWalk(g: GraphModel, start: NodeId, dist: map<NodeId, nat>, pred: map<NodeId, Option<NodeId>>, v: NodeId)
    returns (w: seq<NodeId>)
    requires BfsTree(g, start, dist, pred) && v in dist
    ensures IsWalk(g, w) && w[0] == start && w[|w| - 1] == v && |w| - 1 == dist[v]
    decreases dist[v]
  {
    if v == start {
      w := [start];
    } else {
      var p := pred[v].value;
      NeighborsSpec(g, p);
      var w' := TreeWalk(g, start, dist, pred, p);
      w := w' + [v];
      forall i | 0 <= i < |w| - 1 ensures Adjacent(g, w[i], w[i + 1]) {
        if i < |w'| - 1 {
          assert w[i] == w'[i] && w[i + 1] == w'[i + 1];
        }
      }
    }
  }

  /** The recorded distances are the unweighted shortest hop counts from the
      start, and exactly the nodes some walk from the start reaches are recorded. */
  lemma BfsDistancesAreShortest(g: GraphModel, start: NodeId, dist: map<NodeId, nat>, pred: map<NodeId, Option<NodeId>>, v: NodeId)
    requires BfsTree(g, start, dist, pred) && Closed(g, dist)
    ensures v in dist <==> exists w :: IsWalk(g, w) && w[0] == start && w[|w| - 1] == v
    ensures v in dist ==>
      (exists w :: IsWalk(g, w) && w[0] == start && w[|w| - 1] == v && |w| - 1 == dist[v])
      && forall w :: IsWalk(g, w) && w[0] == start && w[|w| - 1] == v ==> dist[v] <= |w| - 1
  {
    if v in dist {
      var w := TreeWalk(g, start, dist, pred, v);
    }
    forall w | IsWalk(g, w) && w[0] == start && w[|w| - 1] == v ensures v in dist && dist[v] <= |w| - 1 {
      WalksAreRecorded(g, start, dist, w);
    }
  }
}
