/** `GraphContext`: the editor state behind the canvas and the operations
    that change it. Each operation replaces the graph as a whole value, as
    the provider's `setGraph` does, and some of them reset the algorithm
    run. */
module GraphContext {
  import opened Wrappers
  import opened Strings
  import opened Collections
  import opened Graph
  import Steps
  import Validation

  // Node ids.

  const Alphabet: string := "ABCDEFGHIJKLMNOPQRSTUVWXYZ"

  /** The one-letter id `Alphabet[i]`. */
  function Letter(i: nat): NodeId
    requires i < 26
  {
    [Alphabet[i]]
  }

  /** The first letter from the `i`-th on that is not one of `ids`. */
  function FirstFree(ids: seq<NodeId>, i: nat): Option<NodeId>
    requires i <= 26
    decreases 26 - i
  {
    if i == 26 then None
    else if Letter(i) !in ids then Some(Letter(i))
    else FirstFree(ids, i + 1)
  }

  /** The id `generateNodeId` picks for a graph of `count` nodes with ids `ids`. */
  function NodeIdFor(ids: seq<NodeId>, count: nat): NodeId {
    match FirstFree(ids, 0)
    case Some(letter) => letter
    case None => "N" + NatToString(count + 1)
  }

  lemma {:induction false} FirstFreeSpec(ids: seq<NodeId>, i: nat)
    requires i <= 26
    ensures FirstFree(ids, i).Some? <==> exists j :: i <= j < 26 && Letter(j) !in ids
    ensures FirstFree(ids, i).Some? ==>
              exists j :: && i <= j < 26 && FirstFree(ids, i).value == Letter(j) && Letter(j) !in ids
                          && forall k :: i <= k < j ==> Letter(k) in ids
    decreases 26 - i
  {
    if i < 26 {
      if Letter(i) !in ids {
        assert FirstFree(ids, i) == Some(Letter(i));
      } else {
        FirstFreeSpec(ids, i + 1);
        assert FirstFree(ids, i) == FirstFree(ids, i + 1);
        if FirstFree(ids, i).Some? {
          var j :| && i + 1 <= j < 26 && FirstFree(ids, i + 1).value == Letter(j) && Letter(j) !in ids
                   && forall k :: i + 1 <= k < j ==> Letter(k) in ids;
          assert forall k :: i <= k < j ==> Letter(k) in ids;
        }
      }
    }
  }

  /** The id is the first letter that is not an id; only when all 26
      letters are taken is it "N" and the node count plus one. */
  lemma NodeIdForSpec(ids: seq<NodeId>, count: nat)
    ensures (exists i :: 0 <= i < 26 && Letter(i) !in ids) ==>
              exists i :: && 0 <= i < 26 && NodeIdFor(ids, count) == Letter(i) && Letter(i) !in ids
                          && forall k :: 0 <= k < i ==> Letter(k) in ids
    ensures (forall i :: 0 <= i < 26 ==> Letter(i) in ids) ==> NodeIdFor(ids, count) == "N" + NatToString(count + 1)
  {
    FirstFreeSpec(ids, 0);
  }

  /** The 26 letters followed by "N28". */
  function CollidingIds(): (ids: seq<NodeId>)
    ensures |ids| == 27 && ids[26] == "N28"
  {
    seq(26, i requires 0 <= i < 26 => Letter(i)) + ["N28"]
  }

  lemma LettersTaken()
    ensures forall i :: 0 <= i < 26 ==> Letter(i) in CollidingIds()
  {
    var ids := CollidingIds();
    forall i | 0 <= i < 26 ensures Letter(i) in ids {
      assert ids[i] == Letter(i);
    }
  }

  /** The fallback id is not checked against the ids: with all letters
      taken and a node already called "N28", a graph of 27 nodes is given
      "N28" a second time. */
  lemma FallbackCollides()
    ensures NodeIdFor(CollidingIds(), |CollidingIds()|) == "N28" && "N28" in CollidingIds()
  {
    LettersTaken();
    NodeIdForSpec(CollidingIds(), 27);
    TwentyEight();
  }

  lemma TwentyEight()
    ensures NatToString(28) == "28"
  {
    assert NatToString(28) == NatToString(2) + [DigitChar(8)];
  }

  /** `generateNodeId`. */
  method GenerateNodeId(nodes: seq<Node>) returns (id: NodeId)
    ensures id == NodeIdFor(NodeIds(nodes), |nodes|)
  {
    var ids := NodeIds(nodes);
    for i := 0 to 26
      invariant FirstFree(ids, i) == FirstFree(ids, 0)
    {
      var candidate := Letter(i);
      if candidate !in ids {
        return candidate;
      }
    }
    return "N" + NatToString(|nodes| + 1);
  }

  lemma NodeIdForFresh(ids: seq<NodeId>, count: nat, free: nat)
    requires free < 26 && Letter(free) !in ids
    ensures NodeIdFor(ids, count) !in ids
  {
    FirstFreeSpec(ids, 0);
  }

  /** While a letter is free, the id `addNode` picks is new: the ids stay
      free of repetitions. */
  lemma AddedIdFresh(ids: seq<NodeId>, count: nat)
    requires NoDup(ids) && FirstFree(ids, 0).Some?
    ensures NoDup(ids + [NodeIdFor(ids, count)])
  {
    FirstFreeSpec(ids, 0);
    var free :| 0 <= free < 26 && Letter(free) !in ids;
    NodeIdForFresh(ids, count, free);
    NoDupSnoc(ids, NodeIdFor(ids, count));
  }

  /** Appending a node whose id is new keeps the node ids free of repetitions. */
  lemma AppendFreshNode(nodes: seq<Node>, n: Node)
    requires NoDup(NodeIds(nodes)) && n.id !in NodeIds(nodes)
    ensures NoDup(NodeIds(nodes + [n]))
  {
    NodeIdsSnoc(nodes, n);
    NoDupSnoc(NodeIds(nodes), n.id);
  }

  lemma NodeIdsSnoc(nodes: seq<Node>, n: Node)
    ensures NodeIds(nodes + [n]) == NodeIds(nodes) + [n.id]
  {
    assert (nodes + [n])[..|nodes|] == nodes;
  }

  // Removing nodes and edges.

  /** `nodes.filter(n => n.id !== id)`. */
  function NodesWithout(nodes: seq<Node>, id: NodeId): (r: seq<Node>)
    ensures forall n :: n in r <==> n in nodes && n.id != id
    ensures |r| <= |nodes|
  {
    if nodes == [] then []
    else
      var last := nodes[|nodes| - 1];
      NodesWithout(nodes[..|nodes| - 1], id) + (if last.id != id then [last] else [])
  }

  /** `edges.filter(e => e.from !== id && e.to !== id)`. */
  function EdgesAvoiding(edges: seq<Edge>, id: NodeId): (r: seq<Edge>)
    ensures forall e :: e in r <==> e in edges && e.from != id && e.to != id
    ensures |r| <= |edges|
  {
    if edges == [] then []
    else
      var last := edges[|edges| - 1];
      EdgesAvoiding(edges[..|edges| - 1], id) + (if last.from != id && last.to != id then [last] else [])
  }

  /** `edges.filter(e => e.id !== id)`. */
  function EdgesWithoutId(edges: seq<Edge>, id: string): (r: seq<Edge>)
    ensures forall e :: e in r <==> e in edges && e.id != id
    ensures |r| <= |edges|
  {
    if edges == [] then []
    else
      var last := edges[|edges| - 1];
      EdgesWithoutId(edges[..|edges| - 1], id) + (if last.id != id then [last] else [])
  }

  /** Every edge end is a node. */
  ghost predicate Closed(g: GraphModel) {
    forall e :: e in g.edges ==> e.from in NodeIds(g.nodes) && e.to in NodeIds(g.nodes)
  }

  lemma IdsOfNodes(nodes: seq<Node>, id: NodeId)
    ensures id in NodeIds(nodes) <==> exists n :: n in nodes && n.id == id
  {
    HasNodeIds(GraphModel(nodes, [], false), id);
    if id in NodeIds(nodes) {
      var i :| 0 <= i < |nodes| && nodes[i].id == id;
      assert nodes[i] in nodes;
    }
  }

  /** Removing a node removes every edge at it, so no edge is left hanging,
      and the node is gone. */
  lemma RemoveNodeKeepsClosed(g: GraphModel, id: NodeId)
    requires Closed(g)
    ensures var g' := g.(nodes := NodesWithout(g.nodes, id), edges := EdgesAvoiding(g.edges, id));
      Closed(g') && id !in NodeIds(g'.nodes)
  {
    var nodes' := NodesWithout(g.nodes, id);
    forall e | e in EdgesAvoiding(g.edges, id) ensures e.from in NodeIds(nodes') && e.to in NodeIds(nodes') {
      IdsOfNodes(g.nodes, e.from);
      IdsOfNodes(g.nodes, e.to);
      IdsOfNodes(nodes', e.from);
      IdsOfNodes(nodes', e.to);
    }
    IdsOfNodes(nodes', id);
  }

  /** Removing edges leaves no edge hanging. */
  lemma RemoveEdgeKeepsClosed(g: GraphModel, id: string)
    requires Closed(g)
    ensures Closed(g.(edges := EdgesWithoutId(g.edges, id)))
  {
  }

  // Adding edges.

  /** `e` joins `from` to `to`: in that orientation, or, in an undirected
      graph, in either. */
  predicate Joins(e: Edge, from: NodeId, to: NodeId, directed: bool) {
    (e.from == from && e.to == to) || (!directed && e.from == to && e.to == from)
  }

  /** `edges.find(...)` of `addEdge` finds an edge. */
  predicate Linked(edges: seq<Edge>, from: NodeId, to: NodeId, directed: bool) {
    exists k :: 0 <= k < |edges| && Joins(edges[k], from, to, directed)
  }

  /** No two edges join the same pair (the same unordered pair in an
      undirected graph). */
  predicate Simple(edges: seq<Edge>, directed: bool) {
    forall i, j :: 0 <= i < j < |edges| ==> !Joins(edges[j], edges[i].from, edges[i].to, directed)
  }

  /** The edges after `addEdge`: unchanged for a self-loop or a pair already
      joined, else with the new edge appended; the error is the one
      `createEdge` throws for a weight it refuses. */
  function EdgesAdded(edges: seq<Edge>, directed: bool, from: NodeId, to: NodeId, weight: Number, now: nat): Result<seq<Edge>> {
    if Linked(edges, from, to, directed) || from == to then Success(edges)
    else
      match CreateEdge(from, to, now, weight, directed)
      case Success(e) => Success(edges + [e])
      case Failure(message) => Failure(message)
  }

  /** An edge is appended exactly when the ends differ, are not yet joined
      and the weight is valid; it joins them and carries the graph's
      direction. The call fails exactly when it would append an edge with a
      weight `createEdge` refuses. */
  lemma EdgesAddedSpec(edges: seq<Edge>, directed: bool, from: NodeId, to: NodeId, weight: Number, now: nat)
    ensures var r := EdgesAdded(edges, directed, from, to, weight, now);
      && (r.Failure? <==> !Linked(edges, from, to, directed) && from != to && !Validation.IsValidWeight(Validation.NumberValue(weight)))
      && (r.Success? && |r.value| != |edges| <==>
            !Linked(edges, from, to, directed) && from != to && Validation.IsValidWeight(Validation.NumberValue(weight)))
      && (r.Success? && |r.value| != |edges| ==>
            && r.value[..|edges|] == edges && |r.value| == |edges| + 1
            && var e := r.value[|edges|]; e.from == from && e.to == to && e.directed == directed && e.weight == weight.value)
      && (r.Success? && from != to ==> Linked(r.value, from, to, directed))
  {
    var r := EdgesAdded(edges, directed, from, to, weight, now);
    if r.Success? && |r.value| != |edges| {
      assert r.value[..|edges|] == edges;
      assert Joins(r.value[|edges|], from, to, directed);
    }
    if r.Success? && from != to && Linked(edges, from, to, directed) {
      var k :| 0 <= k < |edges| && Joins(edges[k], from, to, directed);
      assert Joins(r.value[k], from, to, directed);
    }
  }

  /** `addEdge` never joins a pair twice. */
  lemma AddEdgeKeepsSimple(edges: seq<Edge>, directed: bool, from: NodeId, to: NodeId, weight: Number, now: nat)
    requires Simple(edges, directed)
    requires EdgesAdded(edges, directed, from, to, weight, now).Success?
    ensures Simple(EdgesAdded(edges, directed, from, to, weight, now).value, directed)
  {
    var r := EdgesAdded(edges, directed, from, to, weight, now).value;
    if r != edges {
      var e := r[|edges|];
      forall i, j | 0 <= i < j < |r| ensures !Joins(r[j], r[i].from, r[i].to, directed) {
        if j == |edges| {
          assert r[i] == edges[i];
          assert !Joins(edges[i], from, to, directed);
        } else {
          assert r[i] == edges[i] && r[j] == edges[j];
        }
      }
    }
  }

  /** Removing edges never makes a pair joined twice. */
  lemma {:induction false} RemoveEdgeKeepsSimple(edges: seq<Edge>, directed: bool, id: string)
    requires Simple(edges, directed)
    ensures Simple(EdgesWithoutId(edges, id), directed)
    decreases |edges|
  {
    if edges != [] {
      var init, last := edges[..|edges| - 1], edges[|edges| - 1];
      assert Simple(init, directed) by {
        forall i, j | 0 <= i < j < |init| ensures !Joins(init[j], init[i].from, init[i].to, directed) {
          assert init[i] == edges[i] && init[j] == edges[j];
        }
      }
      RemoveEdgeKeepsSimple(init, directed, id);
      var r0 := EdgesWithoutId(init, id);
      var r := EdgesWithoutId(edges, id);
      if last.id != id {
        assert r == r0 + [last];
        forall i, j | 0 <= i < j < |r| ensures !Joins(r[j], r[i].from, r[i].to, directed) {
          if j == |r0| {
            assert r[i] == r0[i] && r0[i] in init;
            var k :| 0 <= k < |init| && init[k] == r0[i];
            assert edges[k] == r0[i];
          } else {
            assert r[i] == r0[i] && r[j] == r0[j];
          }
        }
      }
    }
  }

  // Updating nodes and edges.

  /** `Partial<NodeModel>`: the fields an update sets. */
  datatype NodeUpdate = NodeUpdate(
    id: Option<NodeId> := None,
    caption: Option<string> := None,
    x: Option<real> := None,
    y: Option<real> := None,
    weight: Option<real> := None)

  /** `{ ...n, ...updates }`. */
  function ApplyToNode(n: Node, u: NodeUpdate): Node {
    Node(u.id.GetOr(n.id),
         if u.caption.Some? then u.caption else n.caption,
         u.x.GetOr(n.x), u.y.GetOr(n.y),
         if u.weight.Some? then u.weight else n.weight)
  }

  /** `nodes.map(n => n.id === id ? { ...n, ...updates } : n)`. */
  function NodesUpdated(nodes: seq<Node>, id: NodeId, u: NodeUpdate): (r: seq<Node>)
    ensures |r| == |nodes|
    ensures forall i :: 0 <= i < |nodes| ==> r[i] == if nodes[i].id == id then ApplyToNode(nodes[i], u) else nodes[i]
  {
    if nodes == [] then []
    else
      var last := nodes[|nodes| - 1];
      NodesUpdated(nodes[..|nodes| - 1], id, u) + [if last.id == id then ApplyToNode(last, u) else last]
  }

  /** An update that leaves ids alone keeps the list of ids, so no edge is
      left hanging. */
  lemma UpdateNodeKeepsIds(g: GraphModel, id: NodeId, u: NodeUpdate)
    requires u.id.None? || u.id == Some(id)
    ensures NodeIds(NodesUpdated(g.nodes, id, u)) == NodeIds(g.nodes)
    ensures Closed(g) ==> Closed(g.(nodes := NodesUpdated(g.nodes, id, u)))
  {
    assert NodeIds(NodesUpdated(g.nodes, id, u)) == NodeIds(g.nodes);
  }

  /** `Partial<EdgeModel>`: the fields an update sets. */
  datatype EdgeUpdate = EdgeUpdate(
    id: Option<string> := None,
    from: Option<NodeId> := None,
    to: Option<NodeId> := None,
    weight: Option<real> := None,
    directed: Option<bool> := None)

  /** `{ ...e, ...updates }`. */
  function ApplyToEdge(e: Edge, u: EdgeUpdate): Edge {
    Edge(u.id.GetOr(e.id), u.from.GetOr(e.from), u.to.GetOr(e.to), u.weight.GetOr(e.weight), u.directed.GetOr(e.directed))
  }

  /** `edges.map(e => e.id === id ? { ...e, ...updates } : e)`. */
  function EdgesUpdated(edges: seq<Edge>, id: string, u: EdgeUpdate): (r: seq<Edge>)
    ensures |r| == |edges|
    ensures forall i :: 0 <= i < |edges| ==> r[i] == if edges[i].id == id then ApplyToEdge(edges[i], u) else edges[i]
  {
    if edges == [] then []
    else
      var last := edges[|edges| - 1];
      EdgesUpdated(edges[..|edges| - 1], id, u) + [if last.id == id then ApplyToEdge(last, u) else last]
  }

  /** An update that leaves the ends alone keeps every edge between the
      same nodes, so the graph stays closed and simple. */
  lemma UpdateEdgeKeepsEnds(g: GraphModel, id: string, u: EdgeUpdate)
    requires u.from.None? && u.to.None?
    ensures Closed(g) ==> Closed(g.(edges := EdgesUpdated(g.edges, id, u)))
    ensures Simple(g.edges, g.directed) ==> Simple(EdgesUpdated(g.edges, id, u), g.directed)
  {
    var r := EdgesUpdated(g.edges, id, u);
    forall e | e in r ensures exists e0 :: e0 in g.edges && e0.from == e.from && e0.to == e.to {
      var i :| 0 <= i < |r| && r[i] == e;
      assert g.edges[i] in g.edges;
    }
  }

  /** Some edge has id `id`: `edges.some(e => e.id === edgeId)`. */
  predicate HasEdgeId(edges: seq<Edge>, id: string) {
    exists k :: 0 <= k < |edges| && edges[k].id == id
  }

  /** A weight update changes that edge's weight and nothing else: every
      edge keeps its id, ends and direction, and the edges with the id now
      carry the new weight. */
  lemma ReweightSpec(edges: seq<Edge>, id: string, w: real)
    ensures var r := EdgesUpdated(edges, id, EdgeUpdate(weight := Some(w)));
      && |r| == |edges|
      && (forall i :: 0 <= i < |r| ==>
            && r[i].id == edges[i].id && r[i].from == edges[i].from && r[i].to == edges[i].to
            && r[i].directed == edges[i].directed
            && r[i].weight == if edges[i].id == id then w else edges[i].weight)
      && (!HasEdgeId(edges, id) ==> r == edges)
  {
    var r := EdgesUpdated(edges, id, EdgeUpdate(weight := Some(w)));
    if !HasEdgeId(edges, id) {
      assert forall i :: 0 <= i < |r| ==> r[i] == edges[i];
    }
  }

  // Changing direction.

  /** `[edge.from, edge.to].sort().join('-')`. */
  function EdgeKey(e: Edge): string {
    PairKey(e.from, e.to)
  }

  /** The keys of the edges, in order. */
  function KeySeq(edges: seq<Edge>): (r: seq<string>)
    ensures |r| == |edges| && forall i :: 0 <= i < |edges| ==> r[i] == EdgeKey(edges[i])
  {
    if edges == [] then [] else KeySeq(edges[..|edges| - 1]) + [EdgeKey(edges[|edges| - 1])]
  }

  /** `edges.map(edge => ({ ...edge, directed: true }))`. */
  function AllDirected(edges: seq<Edge>): (r: seq<Edge>)
    ensures |r| == |edges| && forall i :: 0 <= i < |edges| ==> r[i] == edges[i].(directed := true)
  {
    if edges == [] then [] else AllDirected(edges[..|edges| - 1]) + [edges[|edges| - 1].(directed := true)]
  }

  /** The values of the `edgeMap` of `toggleDirection`: per key, the first
      edge with that key, made undirected, in the order the keys first
      appear. */
  function FirstPerKey(edges: seq<Edge>): seq<Edge> {
    if edges == [] then []
    else
      var init, last := edges[..|edges| - 1], edges[|edges| - 1];
      FirstPerKey(init) + (if EdgeKey(last) in KeySeq(init) then [] else [last.(directed := false)])
  }

  /** One more edge adds its key, and the edge itself when the key is new. */
  lemma FirstPerKeyStep(edges: seq<Edge>, k: nat)
    requires k < |edges|
    ensures KeySeq(edges[..k + 1]) == KeySeq(edges[..k]) + [EdgeKey(edges[k])]
    ensures FirstPerKey(edges[..k + 1]) ==
              FirstPerKey(edges[..k]) + (if EdgeKey(edges[k]) in KeySeq(edges[..k]) then [] else [edges[k].(directed := false)])
  {
    assert edges[..k + 1][..k] == edges[..k];
  }

  /** Merging keeps one edge per key, for every key, each an undirected copy
      of an edge it was given. */
  lemma FirstPerKeySpec(edges: seq<Edge>)
    ensures var r := FirstPerKey(edges);
      && NoDup(KeySeq(r))
      && (forall k :: k in KeySeq(r) <==> k in KeySeq(edges))
      && (forall e :: e in r ==> exists e0 :: e0 in edges && e == e0.(directed := false))
      && |r| <= |edges|
  {
    FirstPerKeyKeys(edges);
    FirstPerKeyFrom(edges);
    FirstPerKeyLength(edges);
  }

  lemma {:induction false} FirstPerKeyKeys(edges: seq<Edge>)
    ensures NoDup(KeySeq(FirstPerKey(edges)))
    ensures forall k :: k in KeySeq(FirstPerKey(edges)) <==> k in KeySeq(edges)
    decreases |edges|
  {
    if edges != [] {
      var init, last := edges[..|edges| - 1], edges[|edges| - 1];
      SplitLast(edges);
      FirstPerKeyKeys(init);
      FirstPerKeySnoc(init, last);
      KeySeqSnoc(init, last);
      var r0 := FirstPerKey(init);
      var key := EdgeKey(last);
      if key !in KeySeq(init) {
        KeySeqSnoc(r0, last.(directed := false));
        NoDupSnoc(KeySeq(r0), key);
        assert KeySeq(FirstPerKey(edges)) == KeySeq(r0) + [key];
      } else {
        assert KeySeq(FirstPerKey(edges)) == KeySeq(r0);
      }
      assert KeySeq(edges) == KeySeq(init) + [key];
      forall k ensures k in KeySeq(FirstPerKey(edges)) <==> k in KeySeq(edges) {
        assert k in KeySeq(init) + [key] <==> k in KeySeq(init) || k == key;
      }
    }
  }

  lemma {:induction false} FirstPerKeyFrom(edges: seq<Edge>)
    ensures forall e :: e in FirstPerKey(edges) ==> exists e0 :: e0 in edges && e == e0.(directed := false)
    decreases |edges|
  {
    if edges != [] {
      var init, last := edges[..|edges| - 1], edges[|edges| - 1];
      SplitLast(edges);
      FirstPerKeyFrom(init);
      FirstPerKeySnoc(init, last);
      forall e | e in FirstPerKey(edges) ensures exists e0 :: e0 in edges && e == e0.(directed := false) {
        if e in FirstPerKey(init) {
          var e0 :| e0 in init && e == e0.(directed := false);
          assert e0 in edges;
        } else {
          assert last in edges;
        }
      }
    }
  }

  lemma {:induction false} FirstPerKeyLength(edges: seq<Edge>)
    ensures |FirstPerKey(edges)| <= |edges|
    decreases |edges|
  {
    if edges != [] {
      var init, last := edges[..|edges| - 1], edges[|edges| - 1];
      SplitLast(edges);
      FirstPerKeyLength(init);
      FirstPerKeySnoc(init, last);
    }
  }

  lemma FirstPerKeySnoc(edges: seq<Edge>, e: Edge)
    ensures FirstPerKey(edges + [e]) ==
              FirstPerKey(edges) + (if EdgeKey(e) in KeySeq(edges) then [] else [e.(directed := false)])
  {
    assert (edges + [e])[..|edges|] == edges;
  }

  lemma KeySeqSnoc(edges: seq<Edge>, e: Edge)
    ensures KeySeq(edges + [e]) == KeySeq(edges) + [EdgeKey(e)]
  {
    assert (edges + [e])[..|edges|] == edges;
  }

  lemma AllDirectedSnoc(edges: seq<Edge>, e: Edge)
    ensures AllDirected(edges + [e]) == AllDirected(edges) + [e.(directed := true)]
  {
    assert (edges + [e])[..|edges|] == edges;
  }

  /** Making edges directed keeps their keys. */
  lemma KeySeqDirected(edges: seq<Edge>)
    ensures KeySeq(AllDirected(edges)) == KeySeq(edges)
  {
    var d := AllDirected(edges);
    assert forall i :: 0 <= i < |edges| ==> EdgeKey(d[i]) == EdgeKey(edges[i]);
  }

  /** When the keys are distinct and the edges undirected, toggling to
      directed and back gives the same edges. */
  lemma {:induction false} ToggleTwiceKeeps(edges: seq<Edge>)
    requires NoDup(KeySeq(edges)) && forall i :: 0 <= i < |edges| ==> !edges[i].directed
    ensures FirstPerKey(AllDirected(edges)) == edges
    decreases |edges|
  {
    if edges != [] {
      var n := |edges| - 1;
      var init, last := edges[..n], edges[n];
      SplitLast(edges);
      KeySeqSnoc(init, last);
      NoDupInit(KeySeq(init), EdgeKey(last));
      assert forall i :: 0 <= i < |init| ==> init[i] == edges[i];
      ToggleTwiceKeeps(init);
      AllDirectedSnoc(init, last);
      FirstPerKeySnoc(AllDirected(init), last.(directed := true));
      KeySeqDirected(init);
      assert last.(directed := true).(directed := false) == last;
    }
  }

  /** The key of an unordered pair is not unique when ids contain '-':
      merging an edge from "a-b" to "c" after one from "a" to "b-c" drops
      it, though it joins another pair. */
  lemma KeysCollide()
    ensures var e1, e2 := Edge("e1", "a", "b-c", 1.0, true), Edge("e2", "a-b", "c", 1.0, true);
      && !Joins(e2, e1.from, e1.to, false)
      && FirstPerKey([e1, e2]) == [e1.(directed := false)]
  {
    var e1, e2 := Edge("e1", "a", "b-c", 1.0, true), Edge("e2", "a-b", "c", 1.0, true);
    assert !StrLess("b-c", "a") && !StrLess("c", "a-b");
    assert EdgeKey(e1) == "a-b-c" == EdgeKey(e2);
    assert [e1, e2][..1] == [e1] && [e1][..0] == [];
    assert FirstPerKey([e1]) == [e1.(directed := false)];
    assert KeySeq([e1]) == [EdgeKey(e1)];
  }

  // The editor.

  /** The graph shown when nothing was saved. */
  const DefaultGraph: GraphModel := GraphModel(
    [Node("A", Some("A"), 150.0, 100.0), Node("B", Some("B"), 300.0, 100.0), Node("C", Some("C"), 450.0, 100.0),
     Node("D", Some("D"), 150.0, 250.0), Node("E", Some("E"), 300.0, 250.0), Node("F", Some("F"), 450.0, 250.0)],
    [Edge("e1", "A", "B", 1.0, false), Edge("e2", "B", "C", 2.0, false), Edge("e3", "A", "D", 3.0, false),
     Edge("e4", "B", "E", 1.0, false), Edge("e5", "C", "F", 2.0, false), Edge("e6", "D", "E", 1.0, false),
     Edge("e7", "E", "F", 1.0, false)],
    false)

  /** The provider's state: the graph, the selection, the start node and
      the algorithm run. */
  class Editor {
    var graph: GraphModel
    var selectedNode: Option<NodeId>
    var startNode: Option<NodeId>
    var steps: seq<Steps.Step>
    var currentStepIndex: int
    var isRunning: bool

    /** The algorithm run: steps, index and running flag. */
    function Run(): (seq<Steps.Step>, int, bool)
      reads this
    {
      (steps, currentStepIndex, isRunning)
    }

    /** The selected node and the start node. */
    function Marks(): (Option<NodeId>, Option<NodeId>)
      reads this
    {
      (selectedNode, startNode)
    }

    /** The initial state; `saved` is what storage held, if anything. */
    constructor (saved: Option<GraphModel>)
      ensures graph == saved.GetOr(DefaultGraph)
      ensures selectedNode == None && startNode == Some("A")
      ensures steps == [] && currentStepIndex == -1 && !isRunning
    {
      graph := saved.GetOr(DefaultGraph);
      selectedNode := None;
      startNode := Some("A");
      steps := [];
      currentStepIndex := -1;
      isRunning := false;
    }

    /** `addNode`: one more node, labelled with its generated id. */
    method AddNode(x: real, y: real)
      modifies this
      ensures graph == old(graph).(nodes := old(graph.nodes) + [CreateNode(NodeIdFor(NodeIds(old(graph.nodes)), |old(graph.nodes)|), x, y)])
      ensures Run() == old(Run()) && Marks() == old(Marks())
    {
      var id := GenerateNodeId(graph.nodes);
      graph := graph.(nodes := graph.nodes + [CreateNode(id, x, y)]);
    }

    /** `removeNode`: the node and every edge at it go; a selection or start
      node naming it is cleared. */
    method RemoveNode(id: NodeId)
      modifies this
      ensures graph == old(graph).(nodes := NodesWithout(old(graph.nodes), id), edges := EdgesAvoiding(old(graph.edges), id))
      ensures selectedNode == if old(selectedNode) == Some(id) then None else old(selectedNode)
      ensures startNode == if old(startNode) == Some(id) then None else old(startNode)
      ensures Run() == old(Run())
    {
      graph := graph.(nodes := NodesWithout(graph.nodes, id), edges := EdgesAvoiding(graph.edges, id));
      if selectedNode == Some(id) {
        selectedNode := None;
      }
      if startNode == Some(id) {
        startNode := None;
      }
    }

    /** `updateNode`: the nodes with id `id` take the update's fields. */
    method UpdateNode(id: NodeId, u: NodeUpdate)
      modifies this
      ensures graph == old(graph).(nodes := NodesUpdated(old(graph.nodes), id, u))
      ensures Run() == old(Run()) && Marks() == old(Marks())
    {
      graph := graph.(nodes := NodesUpdated(graph.nodes, id, u));
    }

    /** `addEdge`; `now` is the clock reading that makes the edge id. The
      result is the error `createEdge` throws, after which nothing has
      changed. */
    method AddEdge(from: NodeId, to: NodeId, now: nat, weight: Number := Finite(1.0)) returns (thrown: Option<string>)
      modifies this
      ensures var r := EdgesAdded(old(graph.edges), old(graph.directed), from, to, weight, now);
        && (thrown.Some? <==> r.Failure?)
        && graph == if r.Success? then old(graph).(edges := r.value) else old(graph)
      ensures Run() == old(Run()) && Marks() == old(Marks())
    {
      var existing := Linked(graph.edges, from, to, graph.directed);
      if existing || from == to {
        return None;
      }
      var newEdge := CreateEdge(from, to, now, weight, graph.directed);
      if newEdge.Failure? {
        return Some(newEdge.error);
      }
      graph := graph.(edges := graph.edges + [newEdge.value]);
      return None;
    }

    /** `removeEdge`: the edges with id `id` go. */
    method RemoveEdge(id: string)
      modifies this
      ensures graph == old(graph).(edges := EdgesWithoutId(old(graph.edges), id))
      ensures Run() == old(Run()) && Marks() == old(Marks())
    {
      graph := graph.(edges := EdgesWithoutId(graph.edges, id));
    }

    /** `updateEdge`: the edges with id `id` take the update's fields. */
    method UpdateEdge(id: string, u: EdgeUpdate)
      modifies this
      ensures graph == old(graph).(edges := EdgesUpdated(old(graph.edges), id, u))
      ensures Run() == old(Run()) && Marks() == old(Marks())
    {
      graph := graph.(edges := EdgesUpdated(graph.edges, id, u));
    }

    /** `updateEdgeWeight`: refused, changing nothing, for a weight
      `isValidWeight` refuses or an unknown id; otherwise only that edge's
      weight changes and the algorithm run is reset. */
    method UpdateEdgeWeight(edgeId: string, weight: Number) returns (ok: bool)
      modifies this
      ensures ok <==> Validation.IsValidWeight(Validation.NumberValue(weight)) && HasEdgeId(old(graph.edges), edgeId)
      ensures !ok ==> graph == old(graph) && Run() == old(Run())
      ensures ok ==> && graph == old(graph).(edges := EdgesUpdated(old(graph.edges), edgeId, EdgeUpdate(weight := Some(weight.value))))
                     && Run() == ([], -1, false)
      ensures Marks() == old(Marks())
    {
      if !Validation.IsValidWeight(Validation.NumberValue(weight)) {
        return false;
      }
      var edgeExists := HasEdgeId(graph.edges, edgeId);
      if !edgeExists {
        return false;
      }
      graph := graph.(edges := EdgesUpdated(graph.edges, edgeId, EdgeUpdate(weight := Some(weight.value))));
      steps := [];
      currentStepIndex := -1;
      isRunning := false;
      return true;
    }

    /** `clearGraph`: an empty undirected graph, no selection, no start
      node, no steps; the running flag is left as it was. */
    method ClearGraph()
      modifies this
      ensures graph == GraphModel([], [], false)
      ensures Marks() == (None, None)
      ensures steps == [] && currentStepIndex == -1 && isRunning == old(isRunning)
    {
      graph := GraphModel([], [], false);
      selectedNode := None;
      startNode := None;
      steps := [];
      currentStepIndex := -1;
    }

    /** `setDirected`: only the graph's flag changes. */
    method SetDirected(directed: bool)
      modifies this
      ensures graph == old(graph).(directed := directed)
      ensures Run() == old(Run()) && Marks() == old(Marks())
    {
      graph := graph.(directed := directed);
    }

    /** `toggleDirection`: to directed, every edge is marked directed and
      kept; to undirected, the first edge per unordered pair is kept,
      undirected. Either way the algorithm run is reset. */
    method ToggleDirection()
      modifies this
      ensures graph == if old(graph.directed)
                       then old(graph).(directed := false, edges := FirstPerKey(old(graph.edges)))
                       else old(graph).(directed := true, edges := AllDirected(old(graph.edges)))
      ensures Run() == ([], -1, false) && Marks() == old(Marks())
    {
      var newDirected := !graph.directed;
      if newDirected {
        graph := graph.(directed := true, edges := AllDirected(graph.edges));
      } else {
        var edges := graph.edges;
        var merged: seq<Edge> := [];
        var keys: set<string> := {};
        for k := 0 to |edges|
          modifies {}
          invariant merged == FirstPerKey(edges[..k])
          invariant forall key :: key in keys <==> key in KeySeq(edges[..k])
        {
          var edge := edges[k];
          var key := PairKey(edge.from, edge.to);
          FirstPerKeyStep(edges, k);
          if key !in keys {
            merged := merged + [edge.(directed := false)];
            keys := keys + {key};
          }
        }
        assert edges[..|edges|] == edges;
        graph := graph.(directed := false, edges := merged);
      }
      steps := [];
      currentStepIndex := -1;
      isRunning := false;
    }
  }
}
