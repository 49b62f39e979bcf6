/** The graph data model: nodes, edges, the graph record, and the queries the
    algorithms use (`getNeighbors`, `getEdgeBetween`) together with the edge
    factory `createEdge`, which rejects weights that are not non-negative
    finite numbers. */
module Graph {
  import opened Wrappers
  import opened Strings
  import opened Collections

  type NodeId = string

  /** A JavaScript number as far as the model needs it: NaN, an infinity, or a
      finite value (doubles are represented by exact reals). */
  datatype Number = NaN | Infinity(negative: bool) | Finite(value: real)

  /** `NodeModel`; `caption` is its `label` (a reserved word here), `weight` is the optional heuristic value the A* search reads. */
  datatype Node = Node(id: NodeId, caption: Option<string>, x: real, y: real, weight: Option<real> := None)

  /** `EdgeModel`; an absent `directed` flag is `false`. */
  datatype Edge = Edge(id: string, from: NodeId, to: NodeId, weight: real, directed: bool)

  /** `GraphModel`; an absent `directed` flag is `false`. */
  datatype GraphModel = GraphModel(nodes: seq<Node>, edges: seq<Edge>, directed: bool)

  /** `graph.nodes.map(n => n.id)`. */
  function NodeIds(nodes: seq<Node>): (ids: seq<NodeId>)
    ensures |ids| == |nodes|
    ensures forall i :: 0 <= i < |nodes| ==> ids[i] == nodes[i].id
  {
    if nodes == [] then [] else NodeIds(nodes[..|nodes| - 1]) + [nodes[|nodes| - 1].id]
  }

  predicate HasNode(g: GraphModel, id: NodeId) {
    exists i :: 0 <= i < |g.nodes| && g.nodes[i].id == id
  }

  lemma HasNodeIds(g: GraphModel, id: NodeId)
    ensures HasNode(g, id) <==> id in NodeIds(g.nodes)
  {
    var ids := NodeIds(g.nodes);
    if id in ids {
      var i :| 0 <= i < |ids| && ids[i] == id;
      assert g.nodes[i].id == id;
    }
  }

  predicate NonNegativeWeights(g: GraphModel) {
    forall e :: e in g.edges ==> e.weight >= 0.0
  }

  /** `createNode`: the label is the id, the position is kept. */
  function CreateNode(id: NodeId, x: real, y: real): (n: Node)
    ensures n.id == id && n.caption == Some(id)
    ensures n.x == x && n.y == y && n.weight == None
  {
    Node(id, Some(id), x, y)
  }

  /** The weights `createEdge` accepts: numbers that are not NaN, finite, and not negative. */
  predicate ValidWeight(w: Number) {
    w.Finite? && w.value >= 0.0
  }

  /** `createEdge`; `now` is the clock reading that makes the id. */
  function CreateEdge(from: NodeId, to: NodeId, now: nat, weight: Number := Finite(1.0), directed: bool := false): (r: Result<Edge>)
    ensures r.Success? <==> ValidWeight(weight)
    ensures r.Success? ==>
              && r.value.from == from && r.value.to == to
              && r.value.weight == weight.value && r.value.directed == directed
              && r.value.id == "e-" + from + "-" + to + "-" + NatToString(now)
  {
    if !weight.Finite? || weight.value < 0.0 then
      Failure("Invalid edge weight. Weight must be a non-negative finite number.")
    else
      Success(Edge("e-" + from + "-" + to + "-" + NatToString(now), from, to, weight.value, directed))
  }

  /** Edge `e`, seen from node `id`, leads to `v`: it leaves `id` towards `v`, or,
      in an undirected graph, it arrives at `id` from `v`. */
  predicate Yields(e: Edge, directed: bool, id: NodeId, v: NodeId) {
    (e.from == id && e.to == v) || (!directed && e.to == id && e.from == v)
  }

  /** Some edge of the graph leads from `u` to `v`. */
  predicate Adjacent(g: GraphModel, u: NodeId, v: NodeId) {
    Leads(g.edges, g.directed, u, v)
  }

  /** Every node id an edge mentions. */
  function EndPoints(g: GraphModel): set<NodeId> {
    (set i | 0 <= i < |g.edges| :: g.edges[i].from) + (set i | 0 <= i < |g.edges| :: g.edges[i].to)
  }

  lemma AdjacentEndPoint(g: GraphModel, u: NodeId, v: NodeId)
    requires Adjacent(g, u, v)
    ensures v in EndPoints(g)
  {
    var i :| 0 <= i < |g.edges| && Yields(g.edges[i], g.directed, u, v);
  }

  /** A walk along neighbour links: each element is a neighbour of the one before. */
  predicate IsWalk(g: GraphModel, w: seq<NodeId>) {
    |w| > 0 && forall i :: 0 <= i < |w| - 1 ==> Adjacent(g, w[i], w[i + 1])
  }

  /** The `filter`/`map` part of `getNeighbors`: the far end of every edge that
      touches `id`, in edge order, with repetitions. */
  function MatchedEnds(edges: seq<Edge>, directed: bool, id: NodeId): (ends: seq<NodeId>)
  {
    if edges == [] then []
    else
      var e := edges[|edges| - 1];
      MatchedEnds(edges[..|edges| - 1], directed, id)
        + (if e.from == id || (!directed && e.to == id) then [if e.from == id then e.to else e.from] else [])
  }

  /** `getNeighbors`. */
  function Neighbors(g: GraphModel, id: NodeId): (r: seq<NodeId>)
    ensures NoDup(r)
  {
    Dedup(MatchedEnds(g.edges, g.directed, id))
  }

  /** A node is listed as a neighbour exactly when some edge leads to it:
      in a directed graph the `to` of an edge leaving `id`; in an undirected
      one also the `from` of an edge arriving at `id`. */
  lemma NeighborsSpec(g: GraphModel, id: NodeId)
    ensures forall v :: v in Neighbors(g, id) <==> Adjacent(g, id, v)
  {
    NeighborsOfEdges(g.edges, g.directed, id);
  }

  /** Every neighbour is an end point of some edge. */
  lemma NeighborEndPoint(g: GraphModel, id: NodeId, v: NodeId)
    requires v in Neighbors(g, id)
    ensures v in EndPoints(g)
  {
    NeighborsSpec(g, id);
    AdjacentEndPoint(g, id, v);
  }

  /** Each neighbour sits at the position of its first matching edge. */
  lemma NeighborsOrder(g: GraphModel, id: NodeId)
    ensures FirstMatchOrder(g.edges, g.directed, id, Neighbors(g, id))
  {
    NeighborsOfEdges(g.edges, g.directed, id);
  }

  /** Neighbour `r[i]` is listed before `r[j]` exactly when an edge leading to
      `r[i]` comes before every edge leading to `r[j]`. */
  predicate FirstMatchOrder(edges: seq<Edge>, directed: bool, id: NodeId, r: seq<NodeId>) {
    forall i, j, q :: 0 <= i < j < |r| && 0 <= q < |edges| && Yields(edges[q], directed, id, r[j]) ==>
      exists p :: 0 <= p < q && Yields(edges[p], directed, id, r[i])
  }

  /** Some edge of the list leads from `id` to `v`. */
  predicate Leads(edges: seq<Edge>, directed: bool, id: NodeId, v: NodeId) {
    exists i :: 0 <= i < |edges| && Yields(edges[i], directed, id, v)
  }

  lemma MatchedEndsSnoc(edges: seq<Edge>, directed: bool, id: NodeId)
    requires edges != []
    ensures var es := edges[..|edges| - 1];
            var e := edges[|edges| - 1];
            (forall w :: Yields(e, directed, id, w) ==> MatchedEnds(edges, directed, id) == MatchedEnds(es, directed, id) + [w])
            && ((forall w :: !Yields(e, directed, id, w)) ==> MatchedEnds(edges, directed, id) == MatchedEnds(es, directed, id))
            && (forall w :: Leads(edges, directed, id, w) <==> Leads(es, directed, id, w) || Yields(e, directed, id, w))
  {
    var es := edges[..|edges| - 1];
    forall w | Leads(es, directed, id, w) ensures Leads(edges, directed, id, w) {
      var i :| 0 <= i < |es| && Yields(es[i], directed, id, w);
      assert Yields(edges[i], directed, id, w);
    }
    forall w | Leads(edges, directed, id, w) && !Yields(edges[|edges| - 1], directed, id, w)
      ensures Leads(es, directed, id, w)
    {
      var i :| 0 <= i < |edges| && Yields(edges[i], directed, id, w);
      assert Yields(es[i], directed, id, w);
    }
  }

  lemma {:induction false} NeighborsOfEdges(edges: seq<Edge>, directed: bool, id: NodeId)
    ensures var r := Dedup(MatchedEnds(edges, directed, id));
      (forall v :: v in r <==> Leads(edges, directed, id, v))
      && FirstMatchOrder(edges, directed, id, r)
  {
    if edges != [] {
      var es := edges[..|edges| - 1];
      var e := edges[|edges| - 1];
      NeighborsOfEdges(es, directed, id);
      MatchedEndsSnoc(edges, directed, id);
      var xs := MatchedEnds(es, directed, id);
      var r0 := Dedup(xs);
      var r := Dedup(MatchedEnds(edges, directed, id));
      if e.from == id || (!directed && e.to == id) {
        var v := if e.from == id then e.to else e.from;
        assert Yields(e, directed, id, v);
        DedupSnoc(xs, v);
        OrderSnoc(edges, directed, id, r0, r, v);
      } else {
        assert forall w :: !Yields(e, directed, id, w);
        OrderSnoc(edges, directed, id, r0, r, id);
      }
    }
  }

  lemma OrderSnoc(edges: seq<Edge>, directed: bool, id: NodeId, r0: seq<NodeId>, r: seq<NodeId>, v: NodeId)
    requires edges != []
    requires forall w :: w in r0 <==> Leads(edges[..|edges| - 1], directed, id, w)
    requires FirstMatchOrder(edges[..|edges| - 1], directed, id, r0)
    requires r == r0 || (v !in r0 && r == r0 + [v])
    requires forall w :: Yields(edges[|edges| - 1], directed, id, w) ==> w in r
    ensures FirstMatchOrder(edges, directed, id, r)
  {
    var es := edges[..|edges| - 1];
    forall i, j, q | 0 <= i < j < |r| && 0 <= q < |edges| && Yields(edges[q], directed, id, r[j])
      ensures exists p :: 0 <= p < q && Yields(edges[p], directed, id, r[i])
    {
      assert r[i] == r0[i];
      if q < |es| {
        assert es[q] == edges[q];
        assert Leads(es, directed, id, r[j]);
        assert j < |r0|;
        assert r[j] == r0[j];
        var p :| 0 <= p < q && Yields(es[p], directed, id, r0[i]);
        assert Yields(edges[p], directed, id, r[i]);
      } else {
        assert r0[i] in r0;
        var p :| 0 <= p < |es| && Yields(es[p], directed, id, r0[i]);
        assert Yields(edges[p], directed, id, r[i]);
      }
    }
  }

  /** In an undirected graph adjacency is symmetric. */
  lemma NeighborsSymmetric(g: GraphModel, a: NodeId, b: NodeId)
    requires !g.directed
    ensures b in Neighbors(g, a) <==> a in Neighbors(g, b)
  {
    NeighborsSpec(g, a);
    NeighborsSpec(g, b);
    if b in Neighbors(g, a) {
      var i :| 0 <= i < |g.edges| && Yields(g.edges[i], g.directed, a, b);
      assert Yields(g.edges[i], g.directed, b, a);
    }
    if a in Neighbors(g, b) {
      var i :| 0 <= i < |g.edges| && Yields(g.edges[i], g.directed, b, a);
      assert Yields(g.edges[i], g.directed, a, b);
    }
  }

  /** The edge `getEdgeBetween` looks for: (from, to), or (to, from) when undirected. */
  predicate Connects(e: Edge, directed: bool, from: NodeId, to: NodeId) {
    (e.from == from && e.to == to) || (!directed && e.from == to && e.to == from)
  }

  /** `e` is an edge of the list that connects the two nodes, and no earlier one does. */
  predicate FirstConnecting(edges: seq<Edge>, directed: bool, from: NodeId, to: NodeId, e: Edge) {
    exists i :: 0 <= i < |edges| && edges[i] == e && Connects(e, directed, from, to)
      && forall j :: 0 <= j < i ==> !Connects(edges[j], directed, from, to)
  }

  /** `getEdgeBetween`: the first connecting edge in list order. */
  function EdgeBetween(g: GraphModel, from: NodeId, to: NodeId): (r: Option<Edge>)
    ensures r.None? <==> forall i :: 0 <= i < |g.edges| ==> !Connects(g.edges[i], g.directed, from, to)
    ensures r.Some? ==> FirstConnecting(g.edges, g.directed, from, to, r.value)
  {
    FindEdge(g.edges, g.directed, from, to)
  }

  function FindEdge(edges: seq<Edge>, directed: bool, from: NodeId, to: NodeId): (r: Option<Edge>)
    ensures r.None? <==> forall i :: 0 <= i < |edges| ==> !Connects(edges[i], directed, from, to)
    ensures r.Some? ==> FirstConnecting(edges, directed, from, to, r.value)
  {
    if edges == [] then None
    else if Connects(edges[0], directed, from, to) then Some(edges[0])
    else
      var r := FindEdge(edges[1..], directed, from, to);
      assert r.Some? ==> FirstConnecting(edges, directed, from, to, r.value) by {
        if r.Some? {
          var i :| 0 <= i < |edges[1..]| && edges[1..][i] == r.value
            && Connects(r.value, directed, from, to)
            && forall j :: 0 <= j < i ==> !Connects(edges[1..][j], directed, from, to);
          assert edges[i + 1] == r.value;
          forall j | 0 <= j < i + 1 ensures !Connects(edges[j], directed, from, to) {
            if j > 0 { assert edges[j] == edges[1..][j - 1]; }
          }
        }
      }
      r
  }
}
