/** The step records the algorithms emit: a tag out of seven, the nodes and
    edges to highlight, the visited/queued/rejected sets, and a snapshot of the
    algorithm's state. `createStep` builds one from a tag and a partial record
    whose fields win over the defaults. Narration comments are not modelled. */
module Steps {
  import opened Wrappers
  import opened Collections
  import opened Graph
  import opened Strings

  datatype StepType = VisitNode | DiscoverNode | RelaxEdge | InspectEdge | UpdateDistance | MatrixUpdate | Custom

  /** The string each tag is written as. */
  function TagName(t: StepType): string {
    match t
    case VisitNode => "visit-node"
    case DiscoverNode => "discover-node"
    case RelaxEdge => "relax-edge"
    case InspectEdge => "inspect-edge"
    case UpdateDistance => "update-distance"
    case MatrixUpdate => "matrix-update"
    case Custom => "custom"
  }

  /** The seven tags, with distinct names. */
  function AllStepTypes(): (ts: seq<StepType>)
    ensures |ts| == 7
    ensures forall i, j :: 0 <= i < j < |ts| ==> TagName(ts[i]) != TagName(ts[j])
  {
    [VisitNode, DiscoverNode, RelaxEdge, InspectEdge, UpdateDistance, MatrixUpdate, Custom]
  }

  /** Every tag is one of the seven. */
  lemma StepTypesClosed(t: StepType)
    ensures t in AllStepTypes()
  {
    var ts := AllStepTypes();
    match t
    case VisitNode => assert ts[0] == t;
    case DiscoverNode => assert ts[1] == t;
    case RelaxEdge => assert ts[2] == t;
    case InspectEdge => assert ts[3] == t;
    case UpdateDistance => assert ts[4] == t;
    case MatrixUpdate => assert ts[5] == t;
    case Custom => assert ts[6] == t;
  }

  /** A distance as the algorithms store it: a number or `Infinity`. */
  datatype Dist = Inf | Fin(value: real)

  /** `+` on such numbers: anything plus `Infinity` is `Infinity`. */
  function Add(a: Dist, w: real): Dist {
    match a
    case Inf => Inf
    case Fin(x) => Fin(x + w)
  }

  /** `<` on such numbers: `Infinity` is below nothing, every number is below it. */
  predicate Less(a: Dist, b: Dist) {
    match (a, b)
    case (Fin(x), Fin(y)) => x < y
    case (Fin(_), Inf) => true
    case (Inf, _) => false
  }

  predicate AtMost(a: Dist, b: Dist) {
    !Less(b, a)
  }

  lemma AtMostRefl(a: Dist)
    ensures AtMost(a, a)
  {
  }

  lemma LessAtMost(a: Dist, b: Dist)
    requires Less(a, b)
    ensures AtMost(a, b)
  {
  }

  lemma AtMostTrans(a: Dist, b: Dist, c: Dist)
    requires AtMost(a, b) && AtMost(b, c)
    ensures AtMost(a, c)
  {
  }

  datatype EdgePointer = EdgePointer(from: NodeId, to: NodeId)

  /** The edge pointers from `u` to each of `ns`, in order. */
  function Pointers(u: NodeId, ns: seq<NodeId>): (ps: seq<EdgePointer>)
    ensures |ps| == |ns|
    ensures forall i :: 0 <= i < |ns| ==> ps[i] == EdgePointer(u, ns[i])
  {
    seq(|ns|, i requires 0 <= i < |ns| => EdgePointer(u, ns[i]))
  }

  /** One more target adds one pointer. */
  lemma PointersSnoc(u: NodeId, ns: seq<NodeId>, k: nat)
    requires k < |ns|
    ensures Pointers(u, ns[..k + 1]) == Pointers(u, ns[..k]) + [EdgePointer(u, ns[k])]
  {
    assert Pointers(u, ns[..k + 1])[k] == EdgePointer(u, ns[k]);
  }

  /** Appending a target appends its pointer. */
  lemma PointersAppend(u: NodeId, ns: seq<NodeId>, v: NodeId)
    ensures Pointers(u, ns + [v]) == Pointers(u, ns) + [EdgePointer(u, v)]
  {
    PointersSnoc(u, ns + [v], |ns|);
    assert (ns + [v])[..|ns| + 1] == ns + [v];
    assert (ns + [v])[..|ns|] == ns;
  }

  /** `highlightNodes`: a flat list, or the structured form with roles. */
  datatype HighlightNodes =
    | NodeList(ids: seq<NodeId>)
    | Roles(nodes: Option<seq<NodeId>> := None, intermediary: Option<seq<NodeId>> := None,
            source: Option<seq<NodeId>> := None, destination: Option<seq<NodeId>> := None)

  datatype HighlightEdge = HighlightEdge(from: NodeId, to: NodeId, style: Option<string> := None, color: Option<string> := None)

  /** `highlightEdges`: a plain list of edge pointers, or edges grouped into
      general edges, an old path and a new path. */
  datatype HighlightEdges =
    | EdgeList(pointers: seq<EdgePointer>)
    | PathGroups(edges: Option<seq<HighlightEdge>> := None, oldPath: Option<seq<HighlightEdge>> := None,
                 newPath: Option<seq<HighlightEdge>> := None)

  /** The snapshot of an algorithm's state a step carries. */
  datatype AlgorithmState = AlgorithmState(
    queue: Option<seq<NodeId>> := None,
    stack: Option<seq<NodeId>> := None,
    distances: Option<map<NodeId, Dist>> := None,
    predecessors: Option<map<NodeId, Option<NodeId>>> := None,
    fwMatrix: Option<seq<seq<Dist>>> := None,
    fwNodes: Option<seq<NodeId>> := None)

  datatype Step = Step(
    id: string,
    kind: StepType,
    highlightNodes: Option<HighlightNodes>,
    highlightEdges: Option<HighlightEdges>,
    visitedNodes: Option<seq<NodeId>>,
    visitedEdges: Option<seq<EdgePointer>>,
    queuedNodes: Option<seq<NodeId>>,
    rejectedNodes: Option<seq<NodeId>>,
    currentNode: Option<NodeId>,
    state: Option<AlgorithmState>)

  /** `Partial<Step>`: every field may be absent, `id` and `type` included. */
  datatype Overrides = Overrides(
    id: Option<string> := None,
    kind: Option<StepType> := None,
    highlightNodes: Option<HighlightNodes> := None,
    highlightEdges: Option<HighlightEdges> := None,
    visitedNodes: Option<seq<NodeId>> := None,
    visitedEdges: Option<seq<EdgePointer>> := None,
    queuedNodes: Option<seq<NodeId>> := None,
    rejectedNodes: Option<seq<NodeId>> := None,
    currentNode: Option<NodeId> := None,
    state: Option<AlgorithmState> := None)

  /** The id of the `k`-th step of a run. `createStep` draws ids from the
      clock and a random number; the model numbers the steps instead. */
  function StepId(k: nat): (id: string)
    ensures |id| > 5 && id[..5] == "step-"
  {
    "step-" + NatToString(k)
  }

  /** Distinct positions get distinct ids. */
  lemma StepIdsDistinct(j: nat, k: nat)
    requires j != k
    ensures StepId(j) != StepId(k)
  {
    NatToStringValue(j);
    NatToStringValue(k);
    assert StepId(j)[5..] == NatToString(j) && StepId(k)[5..] == NatToString(k);
  }

  /** `createStep(type, overrides)`: `freshId` is the generated id; the
      overrides are spread last, so each field they carry wins. */
  function CreateStep(freshId: string, t: StepType, o: Overrides := Overrides()): (s: Step)
    ensures s.kind == (if o.kind.Some? then o.kind.value else t)
    ensures s.id == (if o.id.Some? then o.id.value else freshId)
    ensures o.kind.None? ==> s.kind == t
    ensures s.highlightNodes == o.highlightNodes && s.highlightEdges == o.highlightEdges
    ensures s.visitedNodes == o.visitedNodes && s.visitedEdges == o.visitedEdges
    ensures s.queuedNodes == o.queuedNodes && s.rejectedNodes == o.rejectedNodes
    ensures s.currentNode == o.currentNode && s.state == o.state
  {
    Step(o.id.GetOr(freshId), o.kind.GetOr(t), o.highlightNodes, o.highlightEdges, o.visitedNodes,
         o.visitedEdges, o.queuedNodes, o.rejectedNodes, o.currentNode, o.state)
  }

  /** A step built without overrides carries nothing but its id and tag. */
  lemma CreateStepBare(freshId: string, t: StepType)
    ensures var s := CreateStep(freshId, t);
      s.id == freshId && s.kind == t && s.highlightNodes.None? && s.highlightEdges.None?
      && s.visitedNodes.None? && s.visitedEdges.None? && s.queuedNodes.None?
      && s.rejectedNodes.None? && s.currentNode.None? && s.state.None?
  {
  }

  // Projections of a list of steps, used to state what an algorithm records.

  /** How many steps carry tag `t`. */
  function CountKind(steps: seq<Step>, t: StepType): nat {
    if steps == [] then 0
    else CountKind(steps[..|steps| - 1], t) + (if steps[|steps| - 1].kind == t then 1 else 0)
  }

  /** The current node of every `visit-node` step, in order. */
  function Visits(steps: seq<Step>): seq<NodeId> {
    if steps == [] then []
    else
      var s := steps[|steps| - 1];
      Visits(steps[..|steps| - 1]) + (if s.kind == VisitNode && s.currentNode.Some? then [s.currentNode.value] else [])
  }

  /** The highlighted edges of every `inspect-edge` step, in order. */
  function Inspections(steps: seq<Step>): seq<EdgePointer> {
    if steps == [] then []
    else
      var s := steps[|steps| - 1];
      Inspections(steps[..|steps| - 1])
        + (if s.kind == InspectEdge && s.highlightEdges.Some? && s.highlightEdges.value.EdgeList?
           then s.highlightEdges.value.pointers else [])
  }

  /** The highlighted nodes of every `discover-node` step, in order. */
  function Discoveries(steps: seq<Step>): seq<NodeId> {
    if steps == [] then []
    else
      var s := steps[|steps| - 1];
      Discoveries(steps[..|steps| - 1])
        + (if s.kind == DiscoverNode && s.highlightNodes.Some? && s.highlightNodes.value.NodeList?
           then s.highlightNodes.value.ids else [])
  }

  /** Appending one step adds one to the count of its own tag alone. */
  lemma CountKindSnoc(steps: seq<Step>, s: Step)
    ensures CountKind(steps + [s], s.kind) == CountKind(steps, s.kind) + 1
    ensures forall t :: t != s.kind ==> CountKind(steps + [s], t) == CountKind(steps, t)
  {
    assert (steps + [s])[..|steps|] == steps;
  }

  /** Appending one step extends each projection by that step's share alone. */
  lemma ProjectionsSnoc(steps: seq<Step>, s: Step)
    ensures Visits(steps + [s]) == Visits(steps) + (if s.kind == VisitNode && s.currentNode.Some? then [s.currentNode.value] else [])
    ensures Inspections(steps + [s]) == Inspections(steps)
      + (if s.kind == InspectEdge && s.highlightEdges.Some? && s.highlightEdges.value.EdgeList?
         then s.highlightEdges.value.pointers else [])
    ensures Discoveries(steps + [s]) == Discoveries(steps)
      + (if s.kind == DiscoverNode && s.highlightNodes.Some? && s.highlightNodes.value.NodeList?
         then s.highlightNodes.value.ids else [])
  {
    assert (steps + [s])[..|steps|] == steps;
  }
}
