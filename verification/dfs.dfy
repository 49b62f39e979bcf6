/** Depth-first search with an explicit stack that records its progress as
    steps. A node is marked visited when it is popped, not when it is pushed:
    an unvisited neighbour is pushed even if it is already on the stack, and
    popping a node visited meanwhile records a skip. Neighbours are inspected
    and pushed in reverse `getNeighbors` order; a node's predecessor is the
    first node that pushed it. */
module Dfs {
  import opened Wrappers
  import opened Collections
  import opened Graph
  import opened Steps

  /** The inspections made while expanding the nodes of `vs` in order, each
      against its neighbours in reverse `getNeighbors` order. */
  function DfsExpansion(g: GraphModel, vs: seq<NodeId>): seq<EdgePointer> {
    if vs == [] then []
    else DfsExpansion(g, vs[..|vs| - 1]) + Pointers(vs[|vs| - 1], Reverse(Neighbors(g, vs[|vs| - 1])))
  }

  /** The node each recorded push led to, in push order. */
  function Targets(edges: seq<EdgePointer>): (ts: seq<NodeId>)
    ensures |ts| == |edges|
    ensures forall i :: 0 <= i < |edges| ==> ts[i] == edges[i].to
  {
    seq(|edges|, i requires 0 <= i < |edges| => edges[i].to)
  }

  /** The node whose push of `v` came first, if `v` was pushed at all. */
  function FirstPusher(edges: seq<EdgePointer>, v: NodeId): (r: Option<NodeId>)
    ensures r.None? <==> forall i :: 0 <= i < |edges| ==> edges[i].to != v
    ensures r.Some? ==> exists i :: 0 <= i < |edges| && edges[i] == EdgePointer(r.value, v)
                                    && forall j :: 0 <= j < i ==> edges[j].to != v
  {
    if edges == [] then None
    else
      var r := FirstPusher(edges[..|edges| - 1], v);
      if r.Some? then r
      else if edges[|edges| - 1].to == v then Some(edges[|edges| - 1].from)
      else None
  }

  lemma FirstPusherSnoc(edges: seq<EdgePointer>, e: EdgePointer, v: NodeId)
    ensures FirstPusher(edges + [e], v) ==
      if FirstPusher(edges, v).Some? then FirstPusher(edges, v)
      else if e.to == v then Some(e.from) else None
  {
    assert (edges + [e])[..|edges|] == edges;
  }

  function FirstStep(start: NodeId): Step {
    CreateStep(StepId(0), Custom, Overrides(
      currentNode := Some(start), visitedNodes := Some([]), visitedEdges := Some([]), queuedNodes := Some([start]),
      state := Some(AlgorithmState(stack := Some([start]), predecessors := Some(map[start := None])))))
  }

  /** The closing step: everything visited, every push, an empty stack and
      the final predecessors. */
  function LastStep(id: string, visited: seq<NodeId>, edges: seq<EdgePointer>, pred: map<NodeId, Option<NodeId>>): Step {
    CreateStep(id, Custom, Overrides(
      visitedNodes := Some(visited), visitedEdges := Some(edges), queuedNodes := Some([]),
      state := Some(AlgorithmState(predecessors := Some(pred)))))
  }

  /** The shape of the search between pops: `visited` in visiting order
      without repetitions (its set is `seen`), everything drawn from `u`, and
      the start popped first. */
  ghost predicate Shape(start: NodeId, u: set<NodeId>, visited: seq<NodeId>, seen: set<NodeId>,
                        stack: seq<NodeId>, edges: seq<EdgePointer>) {
    && seen == (set x | x in visited) && |seen| == |visited| && seen <= u && start in u
    && (forall i :: 0 <= i < |stack| ==> stack[i] in u)
    && (visited == [] ==> stack == [start] && edges == []) && (visited != [] ==> visited[0] == start)
  }

  /** The predecessors: the start's is null; every other node has one
      exactly when it was pushed, and it is the node that pushed it first. */
  ghost predicate Preds(start: NodeId, seen: set<NodeId>, stack: seq<NodeId>, pred: map<NodeId, Option<NodeId>>,
                        edges: seq<EdgePointer>) {
    && start in pred && pred[start] == None
    && (forall i :: 0 <= i < |stack| ==> stack[i] in pred) && seen <= pred.Keys
    && (forall v :: v in pred <==> v == start || v in Targets(edges))
    && (forall v :: v in pred && v != start ==> pred[v] == FirstPusher(edges, v))
  }

  /** Every push went from a visited node to one of its neighbours, and
      every pushed node is visited or still on the stack. */
  ghost predicate Pushes(g: GraphModel, start: NodeId, seen: set<NodeId>, stack: seq<NodeId>, edges: seq<EdgePointer>) {
    && (forall i :: 0 <= i < |edges| ==> edges[i].from in seen && edges[i].to in Neighbors(g, edges[i].from))
    && (start in seen || start in stack)
    && (forall i :: 0 <= i < |edges| ==> edges[i].to in seen || edges[i].to in stack)
  }

  /** Every neighbour of the first `n` visited nodes is visited or on the stack. */
  ghost predicate Covered(g: GraphModel, n: nat, visited: seq<NodeId>, seen: set<NodeId>, stack: seq<NodeId>)
    requires n <= |visited|
  {
    forall i, w {:trigger w in Neighbors(g, visited[i])} :: 0 <= i < n && w in Neighbors(g, visited[i]) ==>
      w in seen || w in stack
  }

  /** The search between pops, with the first `n` visited nodes expanded and
      `edges` every push so far. */
  ghost predicate SearchState(g: GraphModel, start: NodeId, u: set<NodeId>, n: nat, visited: seq<NodeId>,
                              seen: set<NodeId>, stack: seq<NodeId>, pred: map<NodeId, Option<NodeId>>,
                              edges: seq<EdgePointer>) {
    && n <= |visited| && Shape(start, u, visited, seen, stack, edges) && Preds(start, seen, stack, pred, edges)
    && Pushes(g, start, seen, stack, edges) && Covered(g, n, visited, seen, stack)
  }

  /** The steps recorded between pops: the opening step, one visit per
      visited node, one inspection per neighbour of each of the first `n`
      visited nodes and then `extra`, one discovery per push, and one skip
      per pop of a node visited earlier. Every push but the start's is a
      discovery, so pushes and pops balance against the stack. */
  ghost predicate SearchRecord(g: GraphModel, start: NodeId, n: nat, extra: seq<EdgePointer>, visited: seq<NodeId>,
                               stack: seq<NodeId>, edges: seq<EdgePointer>, steps: seq<Step>) {
    && n <= |visited| && |steps| > 0 && steps[0] == FirstStep(start)
    && Visits(steps) == visited && Discoveries(steps) == Targets(edges)
    && Inspections(steps) == DfsExpansion(g, visited[..n]) + extra
    && |visited| + CountKind(steps, Custom) + |stack| == 2 + |edges|
    && |steps| == CountKind(steps, Custom) + |visited| + |Inspections(steps)| + |edges|
  }

  /** The search while `current`, the node just visited, is expanded: its
      first `k` neighbours in reverse order are visited or on the stack. */
  ghost predicate ExpandState(g: GraphModel, start: NodeId, u: set<NodeId>, visited: seq<NodeId>,
                              seen: set<NodeId>, stack: seq<NodeId>, pred: map<NodeId, Option<NodeId>>,
                              edges: seq<EdgePointer>, current: NodeId, rev: seq<NodeId>, k: nat) {
    && 0 < |visited| && current == visited[|visited| - 1] && rev == Reverse(Neighbors(g, current)) && k <= |rev|
    && SearchState(g, start, u, |visited| - 1, visited, seen, stack, pred, edges)
    && (forall m :: 0 <= m < k ==> rev[m] in seen || rev[m] in stack)
  }

  lemma StartState(g: GraphModel, start: NodeId)
    ensures SearchState(g, start, {start} + EndPoints(g), 0, [], {}, [start], map[start := None], [])
  {
  }

  lemma StartRecord(g: GraphModel, start: NodeId)
    ensures SearchRecord(g, start, 0, [], [], [start], [], [FirstStep(start)])
  {
    ProjectionsSnoc([], FirstStep(start));
    CountKindSnoc([], FirstStep(start));
  }

  /** Popping a node visited earlier changes nothing but the stack. */
  lemma SkipState(g: GraphModel, start: NodeId, u: set<NodeId>, visited: seq<NodeId>, seen: set<NodeId>,
                  stack: seq<NodeId>, pred: map<NodeId, Option<NodeId>>, edges: seq<EdgePointer>)
    requires SearchState(g, start, u, |visited|, visited, seen, stack, pred, edges)
    requires stack != [] && stack[|stack| - 1] in seen
    ensures SearchState(g, start, u, |visited|, visited, seen, stack[..|stack| - 1], pred, edges)
  {
    var stack' := stack[..|stack| - 1];
    assert forall x :: x in stack ==> x in stack' || x == stack[|stack| - 1] by {
      SplitLast(stack);
    }
  }

  /** ... and records one skip. */
  lemma SkipRecord(g: GraphModel, start: NodeId, visited: seq<NodeId>, stack: seq<NodeId>, edges: seq<EdgePointer>,
                   steps: seq<Step>, s: Step)
    requires SearchRecord(g, start, |visited|, [], visited, stack, edges, steps) && stack != []
    requires s.kind == Custom
    ensures SearchRecord(g, start, |visited|, [], visited, stack[..|stack| - 1], edges, steps + [s])
  {
    ProjectionsSnoc(steps, s);
    CountKindSnoc(steps, s);
  }

  /** Popping an unvisited node `c` visits it and starts its expansion. */
  lemma VisitState(g: GraphModel, start: NodeId, u: set<NodeId>, visited: seq<NodeId>, seen: set<NodeId>,
                   stack: seq<NodeId>, pred: map<NodeId, Option<NodeId>>, edges: seq<EdgePointer>)
    requires SearchState(g, start, u, |visited|, visited, seen, stack, pred, edges)
    requires stack != [] && stack[|stack| - 1] !in seen
    ensures var c := stack[|stack| - 1];
      ExpandState(g, start, u, visited + [c], seen + {c}, stack[..|stack| - 1], pred, edges,
                  c, Reverse(Neighbors(g, c)), 0)
    ensures |seen + {stack[|stack| - 1]}| == |seen| + 1
  {
    var c := stack[|stack| - 1];
    var visited', stack' := visited + [c], stack[..|stack| - 1];
    PopCovers(stack);
    VisitShape(start, u, visited, seen, stack, edges);
    VisitPreds(start, seen, stack, pred, edges);
    VisitPushes(g, start, seen, stack, edges);
    VisitCovered(g, visited, seen, stack);
  }

  /** Popping takes the top off and keeps the rest. */
  lemma PopCovers(stack: seq<NodeId>)
    requires stack != []
    ensures forall x :: x in stack ==> x in stack[..|stack| - 1] || x == stack[|stack| - 1]
    ensures forall x :: x in stack[..|stack| - 1] ==> x in stack
  {
    SplitLast(stack);
  }

  lemma VisitShape(start: NodeId, u: set<NodeId>, visited: seq<NodeId>, seen: set<NodeId>,
                   stack: seq<NodeId>, edges: seq<EdgePointer>)
    requires Shape(start, u, visited, seen, stack, edges)
    requires stack != [] && stack[|stack| - 1] !in seen
    ensures var c := stack[|stack| - 1];
      Shape(start, u, visited + [c], seen + {c}, stack[..|stack| - 1], edges)
  {
    var c := stack[|stack| - 1];
    assert (set x | x in visited + [c]) == seen + {c};
    if visited == [] {
      assert c == start;
    }
  }

  lemma VisitPreds(start: NodeId, seen: set<NodeId>, stack: seq<NodeId>, pred: map<NodeId, Option<NodeId>>,
                   edges: seq<EdgePointer>)
    requires Preds(start, seen, stack, pred, edges) && stack != []
    ensures Preds(start, seen + {stack[|stack| - 1]}, stack[..|stack| - 1], pred, edges)
  {
    assert stack[|stack| - 1] in pred;
  }

  lemma VisitPushes(g: GraphModel, start: NodeId, seen: set<NodeId>, stack: seq<NodeId>, edges: seq<EdgePointer>)
    requires Pushes(g, start, seen, stack, edges) && stack != []
    requires forall x :: x in stack ==> x in stack[..|stack| - 1] || x == stack[|stack| - 1]
    ensures Pushes(g, start, seen + {stack[|stack| - 1]}, stack[..|stack| - 1], edges)
  {
  }

  lemma VisitCovered(g: GraphModel, visited: seq<NodeId>, seen: set<NodeId>, stack: seq<NodeId>)
    requires Covered(g, |visited|, visited, seen, stack) && stack != []
    requires forall x :: x in stack ==> x in stack[..|stack| - 1] || x == stack[|stack| - 1]
    ensures var c := stack[|stack| - 1];
      Covered(g, |visited|, visited + [c], seen + {c}, stack[..|stack| - 1])
  {
    var c := stack[|stack| - 1];
    forall i, w | 0 <= i < |visited| && w in Neighbors(g, (visited + [c])[i])
      ensures w in seen + {c} || w in stack[..|stack| - 1]
    {
      assert (visited + [c])[i] == visited[i];
    }
  }

  /** ... and records its visit. */
  lemma VisitRecord(g: GraphModel, start: NodeId, visited: seq<NodeId>, stack: seq<NodeId>, edges: seq<EdgePointer>,
                    steps: seq<Step>, s: Step)
    requires SearchRecord(g, start, |visited|, [], visited, stack, edges, steps) && stack != []
    requires s.kind == VisitNode && s.currentNode == Some(stack[|stack| - 1])
    ensures SearchRecord(g, start, |visited|, [], visited + [stack[|stack| - 1]], stack[..|stack| - 1], edges, steps + [s])
  {
    ProjectionsSnoc(steps, s);
    CountKindSnoc(steps, s);
    assert visited[..|visited|] == visited;
    assert (visited + [stack[|stack| - 1]])[..|visited|] == visited;
  }

  /** Recording the inspection of the edge to the `k`-th neighbour. */
  lemma InspectRecord(g: GraphModel, start: NodeId, visited: seq<NodeId>, stack: seq<NodeId>, edges: seq<EdgePointer>,
                      steps: seq<Step>, current: NodeId, rev: seq<NodeId>, k: nat, s: Step)
    requires 0 < |visited| && k < |rev|
    requires SearchRecord(g, start, |visited| - 1, Pointers(current, rev[..k]), visited, stack, edges, steps)
    requires s.kind == InspectEdge && s.highlightEdges == Some(EdgeList([EdgePointer(current, rev[k])]))
    ensures SearchRecord(g, start, |visited| - 1, Pointers(current, rev[..k + 1]), visited, stack, edges, steps + [s])
  {
    ProjectionsSnoc(steps, s);
    CountKindSnoc(steps, s);
    PointersSnoc(current, rev, k);
  }

  /** Pushing an unvisited neighbour: it goes on the stack, its predecessor
      is set only if it has none, and the push is recorded. */
  lemma PushState(g: GraphModel, start: NodeId, u: set<NodeId>, visited: seq<NodeId>, seen: set<NodeId>,
                  stack: seq<NodeId>, pred: map<NodeId, Option<NodeId>>, edges: seq<EdgePointer>,
                  current: NodeId, rev: seq<NodeId>, k: nat)
    requires u == {start} + EndPoints(g)
    requires ExpandState(g, start, u, visited, seen, stack, pred, edges, current, rev, k) && k < |rev|
    requires rev[k] !in seen
    ensures var w := rev[k];
      ExpandState(g, start, u, visited, seen, stack + [w], if w in pred then pred else pred[w := Some(current)],
                  edges + [EdgePointer(current, w)], current, rev, k + 1)
  {
    var w := rev[k];
    var ns := Neighbors(g, current);
    assert w in ns by {
      assert w == ns[|ns| - 1 - k];
    }
    NeighborEndPoint(g, current, w);
    PushPreds(start, seen, stack, pred, edges, current, w);
    PushPushes(g, start, seen, stack, edges, current, w);
    assert forall x :: x in stack ==> x in stack + [w];
  }

  lemma PushPreds(start: NodeId, seen: set<NodeId>, stack: seq<NodeId>, pred: map<NodeId, Option<NodeId>>,
                  edges: seq<EdgePointer>, current: NodeId, w: NodeId)
    requires Preds(start, seen, stack, pred, edges)
    ensures Preds(start, seen, stack + [w], if w in pred then pred else pred[w := Some(current)],
                  edges + [EdgePointer(current, w)])
  {
    var edges' := edges + [EdgePointer(current, w)];
    var pred' := if w in pred then pred else pred[w := Some(current)];
    assert Targets(edges') == Targets(edges) + [w];
    forall v | v in pred' && v != start ensures pred'[v] == FirstPusher(edges', v) {
      FirstPusherSnoc(edges, EdgePointer(current, w), v);
      if v == w && w in pred {
        var i :| 0 <= i < |edges| && Targets(edges)[i] == w;
        assert edges[i].to == w;
      }
    }
  }

  lemma PushPushes(g: GraphModel, start: NodeId, seen: set<NodeId>, stack: seq<NodeId>, edges: seq<EdgePointer>,
                   current: NodeId, w: NodeId)
    requires Pushes(g, start, seen, stack, edges)
    requires current in seen && w in Neighbors(g, current)
    ensures Pushes(g, start, seen, stack + [w], edges + [EdgePointer(current, w)])
  {
    assert forall x :: x in stack ==> x in stack + [w];
  }

  /** Recording a push. */
  lemma PushRecord(g: GraphModel, start: NodeId, visited: seq<NodeId>, stack: seq<NodeId>, edges: seq<EdgePointer>,
                   steps: seq<Step>, extra: seq<EdgePointer>, current: NodeId, w: NodeId, s: Step)
    requires 0 < |visited|
    requires SearchRecord(g, start, |visited| - 1, extra, visited, stack, edges, steps)
    requires s.kind == DiscoverNode && s.highlightNodes == Some(NodeList([w]))
    ensures SearchRecord(g, start, |visited| - 1, extra, visited, stack + [w], edges + [EdgePointer(current, w)], steps + [s])
  {
    ProjectionsSnoc(steps, s);
    CountKindSnoc(steps, s);
    assert Targets(edges + [EdgePointer(current, w)]) == Targets(edges) + [w];
  }

  /** A neighbour visited earlier is not pushed. */
  lemma SeenState(g: GraphModel, start: NodeId, u: set<NodeId>, visited: seq<NodeId>, seen: set<NodeId>,
                  stack: seq<NodeId>, pred: map<NodeId, Option<NodeId>>, edges: seq<EdgePointer>,
                  current: NodeId, rev: seq<NodeId>, k: nat)
    requires ExpandState(g, start, u, visited, seen, stack, pred, edges, current, rev, k) && k < |rev|
    requires rev[k] in seen
    ensures ExpandState(g, start, u, visited, seen, stack, pred, edges, current, rev, k + 1)
  {
  }

  /** Once every neighbour is inspected, `current` counts as expanded. */
  lemma ExpandStateDone(g: GraphModel, start: NodeId, u: set<NodeId>, visited: seq<NodeId>, seen: set<NodeId>,
                        stack: seq<NodeId>, pred: map<NodeId, Option<NodeId>>, edges: seq<EdgePointer>,
                        current: NodeId, rev: seq<NodeId>)
    requires ExpandState(g, start, u, visited, seen, stack, pred, edges, current, rev, |rev|)
    ensures SearchState(g, start, u, |visited|, visited, seen, stack, pred, edges)
  {
    var ns := Neighbors(g, current);
    forall i, w | 0 <= i < |visited| && w in Neighbors(g, visited[i]) ensures w in seen || w in stack {
      if i == |visited| - 1 {
        var j :| 0 <= j < |ns| && ns[j] == w;
        assert rev[|ns| - 1 - j] == w;
      }
    }
  }

  /** ... and its inspections complete its share of the expansion. */
  lemma ExpandRecordDone(g: GraphModel, start: NodeId, visited: seq<NodeId>, stack: seq<NodeId>, edges: seq<EdgePointer>,
                         steps: seq<Step>, current: NodeId)
    requires 0 < |visited| && current == visited[|visited| - 1]
    requires var rev := Reverse(Neighbors(g, current));
      SearchRecord(g, start, |visited| - 1, Pointers(current, rev[..|rev|]), visited, stack, edges, steps)
    ensures SearchRecord(g, start, |visited|, [], visited, stack, edges, steps)
  {
    var rev := Reverse(Neighbors(g, current));
    assert rev[..|rev|] == rev;
    assert visited[..|visited|] == visited;
    assert visited[..|visited|][..|visited| - 1] == visited[..|visited| - 1];
    assert DfsExpansion(g, visited[..|visited|]) + [] == DfsExpansion(g, visited[..|visited| - 1]) + Pointers(current, rev);
  }

  /** One pass of the inner loop of `dfs`: records the inspection of the
      edge to the `k`-th neighbour (in reverse order) and, when that
      neighbour is unvisited, pushes it and records the push. */
  method InspectNeighbor(g: GraphModel, start: NodeId, ghost u: set<NodeId>, current: NodeId, rev: seq<NodeId>, k: nat,
                         visited: seq<NodeId>, ghost seen: set<NodeId>, stack0: seq<NodeId>,
                         pred0: map<NodeId, Option<NodeId>>, edges0: seq<EdgePointer>, steps0: seq<Step>)
    returns (stack: seq<NodeId>, pred: map<NodeId, Option<NodeId>>, edges: seq<EdgePointer>, steps: seq<Step>)
    requires u == {start} + EndPoints(g) && k < |rev|
    requires ExpandState(g, start, u, visited, seen, stack0, pred0, edges0, current, rev, k)
    requires SearchRecord(g, start, |visited| - 1, Pointers(current, rev[..k]), visited, stack0, edges0, steps0)
    ensures ExpandState(g, start, u, visited, seen, stack, pred, edges, current, rev, k + 1)
    ensures SearchRecord(g, start, |visited| - 1, Pointers(current, rev[..k + 1]), visited, stack, edges, steps)
  {
    stack, pred, edges, steps := stack0, pred0, edges0, steps0;
    var neighbor := rev[k];
    var inspectStep := CreateStep(StepId(|steps|), InspectEdge, Overrides(
      currentNode := Some(current), highlightEdges := Some(EdgeList([EdgePointer(current, neighbor)])),
      visitedNodes := Some(visited), visitedEdges := Some(edges), queuedNodes := Some(stack),
      state := Some(AlgorithmState(stack := Some(stack)))));
    InspectRecord(g, start, visited, stack, edges, steps, current, rev, k, inspectStep);
    steps := steps + [inspectStep];

    if neighbor !in visited {
      PushState(g, start, u, visited, seen, stack, pred, edges, current, rev, k);
      ghost var stackBefore, edgesBefore := stack, edges;
      stack := stack + [neighbor];
      if neighbor !in pred {
        pred := pred[neighbor := Some(current)];
      }
      edges := edges + [EdgePointer(current, neighbor)];
      var discoverStep := CreateStep(StepId(|steps|), DiscoverNode, Overrides(
        currentNode := Some(current), highlightNodes := Some(NodeList([neighbor])),
        highlightEdges := Some(EdgeList([EdgePointer(current, neighbor)])),
        visitedNodes := Some(visited), visitedEdges := Some(edges), queuedNodes := Some(stack),
        state := Some(AlgorithmState(stack := Some(stack), predecessors := Some(pred)))));
      PushRecord(g, start, visited, stackBefore, edgesBefore, steps, Pointers(current, rev[..k + 1]),
                 current, neighbor, discoverStep);
      steps := steps + [discoverStep];
    } else {
      SeenState(g, start, u, visited, seen, stack, pred, edges, current, rev, k);
    }
  }

  /** Visiting a popped node that was not visited yet: records the visit and
      expands it. */
  method VisitAndExpand(g: GraphModel, start: NodeId, ghost u: set<NodeId>, current: NodeId,
                   visited0: seq<NodeId>, ghost seen0: set<NodeId>, stack0: seq<NodeId>,
                   pred0: map<NodeId, Option<NodeId>>, edges0: seq<EdgePointer>, steps0: seq<Step>)
    returns (visited: seq<NodeId>, ghost seen: set<NodeId>, stack: seq<NodeId>, pred: map<NodeId, Option<NodeId>>,
             edges: seq<EdgePointer>, steps: seq<Step>)
    requires u == {start} + EndPoints(g) && stack0 != [] && current == stack0[|stack0| - 1] && current !in seen0
    requires SearchState(g, start, u, |visited0|, visited0, seen0, stack0, pred0, edges0)
    requires SearchRecord(g, start, |visited0|, [], visited0, stack0, edges0, steps0)
    ensures SearchState(g, start, u, |visited|, visited, seen, stack, pred, edges)
    ensures SearchRecord(g, start, |visited|, [], visited, stack, edges, steps)
    ensures |seen| == |seen0| + 1
  {
    stack := stack0[..|stack0| - 1];
    visited := visited0 + [current];
    seen := seen0 + {current};
    pred, edges := pred0, edges0;
    var visitStep := CreateStep(StepId(|steps0|), VisitNode, Overrides(
      currentNode := Some(current), visitedNodes := Some(visited), visitedEdges := Some(edges),
      queuedNodes := Some(stack), state := Some(AlgorithmState(stack := Some(stack)))));
    VisitState(g, start, u, visited0, seen0, stack0, pred0, edges0);
    VisitRecord(g, start, visited0, stack0, edges0, steps0, visitStep);
    steps := steps0 + [visitStep];

    var rev := Reverse(Neighbors(g, current));
    for k := 0 to |rev|
      invariant ExpandState(g, start, u, visited, seen, stack, pred, edges, current, rev, k)
      invariant SearchRecord(g, start, |visited| - 1, Pointers(current, rev[..k]), visited, stack, edges, steps)
    {
      stack, pred, edges, steps := InspectNeighbor(g, start, u, current, rev, k, visited, seen, stack, pred, edges, steps);
    }
    ExpandStateDone(g, start, u, visited, seen, stack, pred, edges, current, rev);
    ExpandRecordDone(g, start, visited, stack, edges, steps, current);
  }

  /** The loop of `dfs`: pop until the stack is empty, skipping nodes
      visited earlier. */
  method Search(g: GraphModel, start: NodeId)
    returns (ghost u: set<NodeId>, visited: seq<NodeId>, ghost seen: set<NodeId>, pred: map<NodeId, Option<NodeId>>,
             edges: seq<EdgePointer>, steps: seq<Step>)
    ensures SearchState(g, start, u, |visited|, visited, seen, [], pred, edges)
    ensures SearchRecord(g, start, |visited|, [], visited, [], edges, steps)
  {
    visited, seen, edges := [], {}, [];
    var stack: seq<NodeId> := [start];
    pred := map[start := None];
    steps := [FirstStep(start)];
    u := {start} + EndPoints(g);
    StartState(g, start);
    StartRecord(g, start);

    while stack != []
      invariant SearchState(g, start, u, |visited|, visited, seen, stack, pred, edges)
      invariant SearchRecord(g, start, |visited|, [], visited, stack, edges, steps)
      decreases |u| - |seen|, |stack|
    {
      var current := stack[|stack| - 1];
      if current in visited {
        SkipState(g, start, u, visited, seen, stack, pred, edges);
        stack := stack[..|stack| - 1];
        var skipStep := CreateStep(StepId(|steps|), Custom, Overrides(
          visitedNodes := Some(visited), visitedEdges := Some(edges), queuedNodes := Some(stack),
          state := Some(AlgorithmState(stack := Some(stack)))));
        SkipRecord(g, start, visited, stack + [current], edges, steps, skipStep);
        steps := steps + [skipStep];
      } else {
        SubsetCard(seen + {current}, u);
        visited, seen, stack, pred, edges, steps := VisitAndExpand(g, start, u, current, visited, seen, stack, pred, edges, steps);
      }
    }
  }

  /** What the search gives once the stack is empty. */
  lemma StateDone(g: GraphModel, start: NodeId, u: set<NodeId>, visited: seq<NodeId>, seen: set<NodeId>,
                  pred: map<NodeId, Option<NodeId>>, edges: seq<EdgePointer>)
    requires SearchState(g, start, u, |visited|, visited, seen, [], pred, edges)
    ensures NoDup(visited) && |visited| > 0 && visited[0] == start
    ensures forall v :: v in pred <==> v in visited
    ensures pred[start] == None
    ensures forall v :: v in pred && v != start ==> pred[v].Some? && pred[v] == FirstPusher(edges, v)
    ensures forall i :: 0 <= i < |edges| ==> edges[i].from in visited && edges[i].to in Neighbors(g, edges[i].from)
    ensures forall v, w :: v in visited && w in Neighbors(g, v) ==> w in visited
  {
    CardNoDup(visited);
    forall v, w | v in visited && w in Neighbors(g, v) ensures w in visited {
      var i :| 0 <= i < |visited| && visited[i] == v;
    }
    forall v | v in pred ensures v in visited && (v != start ==> pred[v].Some?) {
      if v != start {
        var i :| 0 <= i < |edges| && Targets(edges)[i] == v;
      }
    }
  }

  /** What the steps record once the stack is empty, with the closing step
      added. */
  lemma RecordDone(g: GraphModel, start: NodeId, visited: seq<NodeId>, edges: seq<EdgePointer>,
                   pred: map<NodeId, Option<NodeId>>, steps0: seq<Step>, steps: seq<Step>)
    requires SearchRecord(g, start, |visited|, [], visited, [], edges, steps0)
    requires steps == steps0 + [LastStep(StepId(|steps0|), visited, edges, pred)]
    ensures |steps| >= 2 && steps[0] == FirstStep(start)
    ensures steps[|steps| - 1] == LastStep(StepId(|steps| - 1), visited, edges, pred)
    ensures Visits(steps) == visited
    ensures Inspections(steps) == DfsExpansion(g, visited)
    ensures Discoveries(steps) == Targets(edges)
    ensures |visited| + CountKind(steps, Custom) == 3 + |edges|
    ensures |steps| == CountKind(steps, Custom) + |visited| + |Inspections(steps)| + |edges|
  {
    var last := LastStep(StepId(|steps0|), visited, edges, pred);
    ProjectionsSnoc(steps0, last);
    CountKindSnoc(steps0, last);
    assert visited[..|visited|] == visited;
  }

  /** `dfs(graph, startNode)`. The ghost results are the visiting order, the
      pushes (`visitedEdges`) and the predecessors. */
  method Dfs(g: GraphModel, start: NodeId)
    returns (steps: seq<Step>, ghost order: seq<NodeId>, ghost pushes: seq<EdgePointer>,
             ghost parent: map<NodeId, Option<NodeId>>)
    ensures |steps| >= 2 && steps[0] == FirstStep(start)
    ensures steps[|steps| - 1] == LastStep(StepId(|steps| - 1), order, pushes, parent)
    ensures NoDup(order) && |order| > 0 && order[0] == start
    ensures Visits(steps) == order
    ensures Inspections(steps) == DfsExpansion(g, order)
    ensures Discoveries(steps) == Targets(pushes)
    ensures |order| + CountKind(steps, Custom) == 3 + |pushes|
    ensures |steps| == CountKind(steps, Custom) + |order| + |Inspections(steps)| + |pushes|
    ensures forall v :: v in parent <==> v in order
    ensures parent[start] == None
    ensures forall v :: v in parent && v != start ==> parent[v].Some? && parent[v] == FirstPusher(pushes, v)
    ensures forall i :: 0 <= i < |pushes| ==> pushes[i].from in order && pushes[i].to in Neighbors(g, pushes[i].from)
    ensures forall v, w :: v in order && w in Neighbors(g, v) ==> w in order
  {
    ghost var u, seen;
    var visited, pred, edges;
    u, visited, seen, pred, edges, steps := Search(g, start);
    StateDone(g, start, u, visited, seen, pred, edges);
    var lastStep := LastStep(StepId(|steps|), visited, edges, pred);
    RecordDone(g, start, visited, edges, pred, steps, steps + [lastStep]);
    steps := steps + [lastStep];
    assert steps[|steps| - 1] == LastStep(StepId(|steps| - 1), visited, edges, pred);
    order, pushes, parent := visited, edges, pred;
  }

  /** Each predecessor is a visited node that lists the node as a neighbour
      and pushed it before any other node did. */
  lemma ParentIsFirstPusher(g: GraphModel, order: seq<NodeId>, pushes: seq<EdgePointer>,
                            parent: map<NodeId, Option<NodeId>>, start: NodeId, v: NodeId)
    requires forall x :: x in parent && x != start ==> parent[x].Some? && parent[x] == FirstPusher(pushes, x)
    requires forall i :: 0 <= i < |pushes| ==> pushes[i].from in order && pushes[i].to in Neighbors(g, pushes[i].from)
    requires v in parent && v != start
    ensures parent[v].value in order && v in Neighbors(g, parent[v].value)
    ensures exists i :: 0 <= i < |pushes| && pushes[i] == EdgePointer(parent[v].value, v)
                        && forall j :: 0 <= j < i ==> pushes[j].to != v
  {
    var i :| 0 <= i < |pushes| && pushes[i] == EdgePointer(parent[v].value, v)
             && forall j :: 0 <= j < i ==> pushes[j].to != v;
    assert pushes[i].from == parent[v].value;
  }
}
