/** Weighted paths, as the shortest-path searches see the graph: from a node
    one can follow every edge that leaves it, or, in an undirected graph, that
    arrives at it, paying the edge's weight. */
module Paths {
  import opened Wrappers
  import opened Graph

  /** One entry of the neighbour list the weighted searches build: the far
      end of an edge and the edge's weight. */
  datatype Arc = Arc(node: NodeId, weight: real)

  /** The `filter`/`map` over `graph.edges` that lists the arcs out of `id`,
      in edge order, with repetitions when several edges join the same pair. */
  function Arcs(edges: seq<Edge>, directed: bool, id: NodeId): (arcs: seq<Arc>)
  {
    if edges == [] then []
    else
      var e := edges[|edges| - 1];
      Arcs(edges[..|edges| - 1], directed, id)
        + (if e.from == id || (!directed && e.to == id) then [Arc(if e.from == id then e.to else e.from, e.weight)] else [])
  }

  /** An arc out of `id` is exactly an edge that leads from `id` to its node,
      carrying that edge's weight. */
  lemma {:induction false} ArcsSpec(edges: seq<Edge>, directed: bool, id: NodeId)
    ensures forall a :: a in Arcs(edges, directed, id) <==>
      exists i :: 0 <= i < |edges| && Yields(edges[i], directed, id, a.node) && edges[i].weight == a.weight
  {
    if edges != [] {
      var es, e := edges[..|edges| - 1], edges[|edges| - 1];
      ArcsSpec(es, directed, id);
      forall a ensures a in Arcs(edges, directed, id) <==>
        exists i :: 0 <= i < |edges| && Yields(edges[i], directed, id, a.node) && edges[i].weight == a.weight
      {
        if a in Arcs(es, directed, id) {
          var i :| 0 <= i < |es| && Yields(es[i], directed, id, a.node) && es[i].weight == a.weight;
          assert edges[i] == es[i];
        }
        if exists i :: 0 <= i < |edges| && Yields(edges[i], directed, id, a.node) && edges[i].weight == a.weight {
          var i :| 0 <= i < |edges| && Yields(edges[i], directed, id, a.node) && edges[i].weight == a.weight;
          if i < |es| {
            assert es[i] == edges[i];
          }
        }
      }
    }
  }

  /** The arc ends, repetitions included, are the ends `getNeighbors` lists
      before removing repetitions; so the distinct ends are the neighbours. */
  lemma {:induction false} ArcNodes(edges: seq<Edge>, directed: bool, id: NodeId)
    ensures forall v :: (exists a :: a in Arcs(edges, directed, id) && a.node == v) <==> v in MatchedEnds(edges, directed, id)
  {
    if edges != [] {
      var es := edges[..|edges| - 1];
      ArcNodes(es, directed, id);
      var e := edges[|edges| - 1];
      var far := if e.from == id then e.to else e.from;
      assert forall a :: a in Arcs(edges, directed, id) <==>
        a in Arcs(es, directed, id) || (a == Arc(far, e.weight) && (e.from == id || (!directed && e.to == id)));
    }
  }

  /** One step along a path: from a node to an arc's node, at the arc's weight. */
  datatype Hop = Hop(from: NodeId, to: NodeId, weight: real)

  /** The node a path from `s` ends at. */
  function End(s: NodeId, p: seq<Hop>): NodeId {
    if p == [] then s else p[|p| - 1].to
  }

  /** `p` is a path from `s` to `t` that follows arcs of `g` and stays among
      the nodes `ks`. */
  predicate IsPath(g: GraphModel, ks: set<NodeId>, s: NodeId, t: NodeId, p: seq<Hop>) {
    && s in ks && End(s, p) == t
    && (p != [] ==> p[0].from == s)
    && (forall i :: 0 <= i < |p| - 1 ==> p[i].to == p[i + 1].from)
    && (forall i :: 0 <= i < |p| ==> p[i].to in ks && Arc(p[i].to, p[i].weight) in Arcs(g.edges, g.directed, p[i].from))
  }

  /** Predecessor links lead to keys of lower rank, so following them ends. */
  ghost predicate Ranked(pred: map<NodeId, Option<NodeId>>, rank: map<NodeId, nat>) {
    forall v :: v in pred ==> v in rank && (pred[v].Some? ==> pred[v].value in pred && pred[v].value in rank
                                                              && rank[pred[v].value] < rank[v])
  }

  /** `path` is a walk back along predecessor links, written from its far
      end: the first node has no predecessor, and each later node's
      predecessor is the node before it. */
  predicate PredChain(pred: map<NodeId, Option<NodeId>>, path: seq<NodeId>) {
    && path != [] && path[0] in pred && pred[path[0]] == None
    && forall i :: 0 < i < |path| ==> path[i] in pred && pred[path[i]] == Some(path[i - 1])
  }

  /** The sum of the weights along a path. */
  function Cost(p: seq<Hop>): real {
    if p == [] then 0.0 else Cost(p[..|p| - 1]) + p[|p| - 1].weight
  }

  /** No path within `ks` from `s` to `t` is cheaper than `d`. */
  ghost predicate LowerBound(g: GraphModel, ks: set<NodeId>, s: NodeId, t: NodeId, d: real) {
    forall p :: IsPath(g, ks, s, t, p) ==> d <= Cost(p)
  }

  /** `d` is the cost of a cheapest path within `ks` from `s` to `t`. */
  ghost predicate IsShortest(g: GraphModel, ks: set<NodeId>, s: NodeId, t: NodeId, d: real) {
    (exists p :: IsPath(g, ks, s, t, p) && Cost(p) == d) && LowerBound(g, ks, s, t, d)
  }

  /** No path within `ks` leads from `s` to `t`. */
  ghost predicate Unreachable(g: GraphModel, ks: set<NodeId>, s: NodeId, t: NodeId) {
    forall p :: !IsPath(g, ks, s, t, p)
  }

  /** Following one more arc extends a path and adds the arc's weight. */
  lemma PathSnoc(g: GraphModel, ks: set<NodeId>, s: NodeId, t: NodeId, p: seq<Hop>, a: Arc)
    requires IsPath(g, ks, s, t, p)
    requires a in Arcs(g.edges, g.directed, t) && a.node in ks
    ensures IsPath(g, ks, s, a.node, p + [Hop(t, a.node, a.weight)])
    ensures Cost(p + [Hop(t, a.node, a.weight)]) == Cost(p) + a.weight
  {
    var q := p + [Hop(t, a.node, a.weight)];
    assert q[..|p|] == p;
  }

  /** The last hop of a path follows an arc and adds its weight. */
  lemma PathLast(g: GraphModel, ks: set<NodeId>, s: NodeId, t: NodeId, p: seq<Hop>, h: Hop)
    requires IsPath(g, ks, s, t, p + [h])
    ensures Arc(h.to, h.weight) in Arcs(g.edges, g.directed, h.from) && h.to == t
    ensures Cost(p + [h]) == Cost(p) + h.weight
  {
    assert (p + [h])[|p|] == h;
    assert (p + [h])[..|p|] == p;
  }

  /** A prefix of a path is a path to the node it ends at. */
  lemma PathPrefix(g: GraphModel, ks: set<NodeId>, s: NodeId, t: NodeId, p: seq<Hop>, k: nat)
    requires IsPath(g, ks, s, t, p) && k <= |p|
    ensures IsPath(g, ks, s, End(s, p[..k]), p[..k])
  {
    var q := p[..k];
    forall i | 0 <= i < |q| - 1 ensures q[i].to == q[i + 1].from {
      assert q[i] == p[i] && q[i + 1] == p[i + 1];
    }
  }

  /** With no negative weights, a prefix costs at most the whole path. */
  lemma {:induction false} CostPrefix(g: GraphModel, ks: set<NodeId>, s: NodeId, t: NodeId, p: seq<Hop>, k: nat)
    requires NonNegativeWeights(g) && IsPath(g, ks, s, t, p) && k <= |p|
    ensures Cost(p[..k]) <= Cost(p)
    decreases |p| - k
  {
    if k < |p| {
      var q := p[..|p| - 1];
      PathPrefix(g, ks, s, t, p, |p| - 1);
      assert q[..k] == p[..k];
      CostPrefix(g, ks, s, End(s, q), q, k);
      var h := p[|p| - 1];
      ArcWeight(g, h.from, Arc(h.to, h.weight));
      assert Cost(p) == Cost(q) + h.weight;
    } else {
      assert p[..k] == p;
    }
  }

  lemma ArcWeight(g: GraphModel, u: NodeId, a: Arc)
    requires NonNegativeWeights(g) && a in Arcs(g.edges, g.directed, u)
    ensures a.weight >= 0.0
  {
    ArcsSpec(g.edges, g.directed, u);
    var i :| 0 <= i < |g.edges| && Yields(g.edges[i], g.directed, u, a.node) && g.edges[i].weight == a.weight;
    assert g.edges[i] in g.edges;
  }

  /** A path that starts inside a set and ends outside it has a first hop
      that leaves the set, and the path up to that hop stays a path. */
  lemma {:induction false} Crossing(g: GraphModel, ks: set<NodeId>, s: NodeId, t: NodeId, p: seq<Hop>, inside: set<NodeId>)
    returns (k: nat)
    requires IsPath(g, ks, s, t, p) && s in inside && t !in inside
    ensures k < |p| && p[k].from in inside && p[k].to !in inside
    ensures IsPath(g, ks, s, p[k].from, p[..k])
    decreases |p|
  {
    var q := p[..|p| - 1];
    var u := End(s, q);
    PathPrefix(g, ks, s, t, p, |p| - 1);
    if u in inside {
      k := |p| - 1;
    } else {
      k := Crossing(g, ks, s, u, q, inside);
      assert q[..k] == p[..k];
    }
  }
}
