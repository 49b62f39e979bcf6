/** `GraphModelTransformer`: turns a parsed graph into a graph model, either
    afresh or keeping the node records of the graph being edited. Nodes come
    in ascending order of their names; edges come one per definition, in
    order. */
module GraphModelTransformer {
  import opened Wrappers
  import opened Strings
  import opened Collections
  import opened Graph
  import opened TextParser

  /** The canvas position of the node placed `index`-th of `count`: the
      circular layout, whose trigonometry is not part of this model. */
  type Layout = (nat, nat) -> (real, real)

  /** The clock reading `Date.now()` gives at the call for definition `k`. */
  type Clock = nat -> nat

  // Sorting the vertices.

  /** Strictly ascending in string order. */
  predicate Ascending(s: seq<string>) {
    forall i, j :: 0 <= i < j < |s| ==> StrLess(s[i], s[j])
  }

  predicate IsLeast(m: string, vs: set<string>) {
    m in vs && forall v :: v in vs ==> v == m || StrLess(m, v)
  }

  lemma {:induction false} LeastExists(vs: set<string>)
    requires vs != {}
    ensures exists m :: IsLeast(m, vs)
    decreases |vs|
  {
    var v :| v in vs;
    if vs == {v} {
      assert IsLeast(v, vs);
    } else {
      var rest := vs - {v};
      LeastExists(rest);
      var m :| IsLeast(m, rest);
      StrLessTotal(m, v);
      if StrLess(v, m) {
        forall u | u in vs ensures u == v || StrLess(v, u) {
          if u != v && u != m {
            assert u in rest && StrLess(m, u);
            StrLessTransitive(v, m, u);
          }
        }
        assert IsLeast(v, vs);
      } else {
        assert IsLeast(m, vs);
      }
    }
  }

  /** `Array.from(vertices).sort()`: the vertices in ascending order. */
  method SortVertices(vertices: set<string>) returns (ids: seq<string>)
    ensures Ascending(ids)
    ensures forall v :: v in ids <==> v in vertices
    ensures |ids| == |vertices|
  {
    ids := [];
    var rest := vertices;
    while rest != {}
      invariant Ascending(ids)
      invariant forall v :: v in vertices <==> v in ids || v in rest
      invariant forall u, v :: u in ids && v in rest ==> StrLess(u, v)
      invariant |ids| + |rest| == |vertices|
      decreases |rest|
    {
      LeastExists(rest);
      var m :| IsLeast(m, rest);
      forall u | u in ids ensures StrLess(u, m) {
      }
      ids := ids + [m];
      rest := rest - {m};
    }
  }

  /** Ascending names are distinct. */
  lemma AscendingNoDup(s: seq<string>)
    requires Ascending(s)
    ensures NoDup(s)
  {
    forall i, j | 0 <= i < j < |s| ensures s[i] != s[j] {
      StrLessIrreflexive(s[i]);
    }
  }

  /** A set of names has one ascending order, so the sorted array does not
      depend on the order the set was filled in. */
  lemma {:induction false} AscendingUnique(a: seq<string>, b: seq<string>)
    requires Ascending(a) && Ascending(b)
    requires forall v :: v in a <==> v in b
    ensures a == b
    decreases |a|
  {
    AscendingNoDup(a);
    AscendingNoDup(b);
    NoDupCard(a);
    NoDupCard(b);
    assert (set v | v in a) == (set v | v in b);
    if a != [] {
      if a[0] != b[0] {
        assert a[0] in b && b[0] in a;
        var j :| 0 <= j < |b| && b[j] == a[0];
        var i :| 0 <= i < |a| && a[i] == b[0];
        assert StrLess(b[0], a[0]) && StrLess(a[0], b[0]);
        StrLessAsymmetric(a[0], b[0]);
      }
      forall v ensures v in a[1..] <==> v in b[1..] {
        if v in a[1..] {
          var i :| 0 <= i < |a[1..]| && a[1..][i] == v;
          assert v == a[i + 1] && v != a[0];
        }
        if v in b[1..] {
          var i :| 0 <= i < |b[1..]| && b[1..][i] == v;
          assert v == b[i + 1] && v != b[0];
        }
        assert v in a <==> v == a[0] || v in a[1..];
        assert v in b <==> v == b[0] || v in b[1..];
      }
      AscendingUnique(a[1..], b[1..]);
      assert a == [a[0]] + a[1..] && b == [b[0]] + b[1..];
    }
  }

  // Nodes.

  /** `createNodesFromVertices`: one node per vertex, in ascending order of
      the names, labelled with its name, the `index`-th placed by the layout. */
  method CreateNodesFromVertices(vertices: set<string>, layout: Layout) returns (nodes: seq<Node>)
    ensures Ascending(NodeIds(nodes)) && forall v :: v in NodeIds(nodes) <==> v in vertices
    ensures |nodes| == |vertices|
    ensures forall i :: 0 <= i < |nodes| ==>
              nodes[i] == CreateNode(nodes[i].id, layout(i, |vertices|).0, layout(i, |vertices|).1)
  {
    var ids := SortVertices(vertices);
    nodes := [];
    for index := 0 to |ids|
      invariant |nodes| == index
      invariant forall i :: 0 <= i < index ==> nodes[i] == CreateNode(ids[i], layout(i, |ids|).0, layout(i, |ids|).1)
    {
      var (x, y) := layout(index, |ids|);
      nodes := nodes + [CreateNode(ids[index], x, y)];
    }
    assert NodeIds(nodes) == ids;
  }

  /** `existingNodes`: each id maps to the last node with that id. */
  function NodeIndex(nodes: seq<Node>): (m: map<NodeId, Node>)
    ensures forall id :: id in m <==> id in NodeIds(nodes)
    ensures forall id :: id in m ==> m[id].id == id && m[id] in nodes
  {
    if nodes == [] then map[]
    else
      var init, last := nodes[..|nodes| - 1], nodes[|nodes| - 1];
      assert NodeIds(nodes) == NodeIds(init) + [last.id];
      NodeIndex(init)[last.id := last]
  }

  /** The node an id maps to is the last node with that id. */
  lemma {:induction false} NodeIndexLast(nodes: seq<Node>, i: nat)
    requires i < |nodes| && forall j :: i < j < |nodes| ==> nodes[j].id != nodes[i].id
    ensures NodeIndex(nodes)[nodes[i].id] == nodes[i]
    decreases |nodes|
  {
    var init := nodes[..|nodes| - 1];
    if i < |nodes| - 1 {
      assert init[i] == nodes[i];
      NodeIndexLast(init, i);
    }
  }

  /** The loop of `updateGraphModel` that fills `existingNodes`. */
  method IndexNodes(nodes: seq<Node>) returns (m: map<NodeId, Node>)
    ensures m == NodeIndex(nodes)
  {
    m := map[];
    for k := 0 to |nodes|
      invariant m == NodeIndex(nodes[..k])
    {
      assert nodes[..k + 1][..k] == nodes[..k];
      m := m[nodes[k].id := nodes[k]];
    }
    assert nodes[..|nodes|] == nodes;
  }

  /** How many of the names are not yet nodes: the value of `newNodeIndex`
      after them. */
  function Fresh(ids: seq<string>, existing: map<NodeId, Node>): (n: nat)
    ensures n <= |ids|
  {
    if ids == [] then 0
    else Fresh(ids[..|ids| - 1], existing) + (if ids[|ids| - 1] in existing then 0 else 1)
  }

  /** The node kept for an existing name: its whole record, with the name
      as its label. */
  function Relabel(n: Node, name: string): Node {
    n.(caption := Some(name))
  }

  /** The node placed for name `i`: an existing node's whole record with the
      name as its label, or a fresh node placed by the layout at the count
      of new names before it. */
  function Placed(ids: seq<string>, i: nat, existing: map<NodeId, Node>, layout: Layout): Node
    requires i < |ids|
  {
    if ids[i] in existing then Relabel(existing[ids[i]], ids[i])
    else
      var p := layout(Fresh(ids[..i], existing), |ids|);
      CreateNode(ids[i], p.0, p.1)
  }

  /** `createNodesPreservingPositions`: one node per vertex, in ascending
      order of the names. A name that is already a node keeps that node's
      record, position included, with the name as label; a new name gets a
      fresh node placed by the layout at the count of new names before it. */
  method CreateNodesPreservingPositions(vertices: set<string>, existing: map<NodeId, Node>, layout: Layout)
    returns (nodes: seq<Node>)
    requires forall id :: id in existing ==> existing[id].id == id
    ensures Ascending(NodeIds(nodes)) && forall v :: v in NodeIds(nodes) <==> v in vertices
    ensures |nodes| == |vertices|
    ensures forall i :: 0 <= i < |nodes| ==> nodes[i] == Placed(NodeIds(nodes), i, existing, layout)
  {
    var ids := SortVertices(vertices);
    nodes := PlaceAll(ids, existing, layout);
    forall i | 0 <= i < |nodes| ensures nodes[i].id == ids[i] {
      PlacedKeeps(ids, i, existing, layout);
    }
    assert NodeIds(nodes) == ids;
  }

  /** The loop of `createNodesPreservingPositions`, over the sorted names. */
  method PlaceAll(ids: seq<string>, existing: map<NodeId, Node>, layout: Layout) returns (nodes: seq<Node>)
    ensures |nodes| == |ids|
    ensures forall i :: 0 <= i < |ids| ==> nodes[i] == Placed(ids, i, existing, layout)
  {
    nodes := [];
    var newNodeIndex := 0;
    for index := 0 to |ids|
      invariant |nodes| == index
      invariant newNodeIndex == Fresh(ids[..index], existing)
      invariant forall i {:trigger nodes[i]} :: 0 <= i < index ==> nodes[i] == Placed(ids, i, existing, layout)
    {
      assert ids[..index + 1][..index] == ids[..index];
      var vertex := ids[index];
      if vertex in existing {
        nodes := nodes + [Relabel(existing[vertex], vertex)];
      } else {
        var (x, y) := layout(newNodeIndex, |ids|);
        nodes := nodes + [CreateNode(vertex, x, y)];
        newNodeIndex := newNodeIndex + 1;
      }
      assert nodes[index] == Placed(ids, index, existing, layout);
    }
  }

  /** Every placed node is labelled with its name; a name that was a node
      keeps that node's record, so its position and heuristic weight. */
  lemma PlacedKeeps(ids: seq<string>, i: nat, existing: map<NodeId, Node>, layout: Layout)
    requires i < |ids|
    requires forall id :: id in existing ==> existing[id].id == id
    ensures Placed(ids, i, existing, layout).id == ids[i]
    ensures Placed(ids, i, existing, layout).caption == Some(ids[i])
    ensures ids[i] in existing ==>
              var n := Placed(ids, i, existing, layout);
              n.x == existing[ids[i]].x && n.y == existing[ids[i]].y && n.weight == existing[ids[i]].weight
    ensures ids[i] !in existing ==> Placed(ids, i, existing, layout).weight == None
  {
  }

  // Edges.

  /** `createEdge` on a definition: an undirected edge with its names and weight. */
  function EdgeFor(d: EdgeDefinition, now: nat): Result<Edge> {
    CreateEdge(d.sourceVertex, d.targetVertex, now, Finite(d.weight), false)
  }

  /** The edges of the definitions in order; a definition `createEdge`
      refuses is dropped. */
  function BuiltEdges(defs: seq<EdgeDefinition>, clock: Clock): seq<Edge> {
    if defs == [] then []
    else
      var e := EdgeFor(defs[|defs| - 1], clock(|defs| - 1));
      BuiltEdges(defs[..|defs| - 1], clock) + (if e.Success? then [e.value] else [])
  }

  /** `createEdgesFromDefinitions`. */
  method CreateEdgesFromDefinitions(defs: seq<EdgeDefinition>, clock: Clock) returns (edges: seq<Edge>)
    ensures edges == BuiltEdges(defs, clock)
  {
    edges := [];
    for k := 0 to |defs|
      invariant edges == BuiltEdges(defs[..k], clock)
    {
      assert defs[..k + 1][..k] == defs[..k];
      var edge := EdgeFor(defs[k], clock(k));
      if edge.Failure? {
        continue;
      }
      edges := edges + [edge.value];
    }
    assert defs[..|defs|] == defs;
  }

  predicate NonNegativeDefinitions(defs: seq<EdgeDefinition>) {
    forall k :: 0 <= k < |defs| ==> defs[k].weight >= 0.0
  }

  lemma NonNegativeSnoc(defs: seq<EdgeDefinition>)
    requires defs != []
    ensures NonNegativeDefinitions(defs) <==>
      NonNegativeDefinitions(defs[..|defs| - 1]) && defs[|defs| - 1].weight >= 0.0
  {
    var init := defs[..|defs| - 1];
    assert forall k :: 0 <= k < |init| ==> init[k] == defs[k];
  }

  /** Only a negative weight is refused, so every definition yields an edge
      exactly when no weight is negative. */
  lemma {:induction false} BuiltEdgesCount(defs: seq<EdgeDefinition>, clock: Clock)
    ensures |BuiltEdges(defs, clock)| <= |defs|
    ensures |BuiltEdges(defs, clock)| == |defs| <==> NonNegativeDefinitions(defs)
    decreases |defs|
  {
    if defs != [] {
      BuiltEdgesCount(defs[..|defs| - 1], clock);
      NonNegativeSnoc(defs);
    }
  }

  /** With no negative weight, edge `k` is the undirected edge of definition
      `k`, with its names and weight. */
  lemma {:induction false} BuiltEdgesEach(defs: seq<EdgeDefinition>, clock: Clock)
    requires NonNegativeDefinitions(defs)
    ensures |BuiltEdges(defs, clock)| == |defs|
    ensures forall k :: 0 <= k < |defs| ==>
              var e := BuiltEdges(defs, clock)[k];
              && e.from == defs[k].sourceVertex && e.to == defs[k].targetVertex
              && e.weight == defs[k].weight && !e.directed
    decreases |defs|
  {
    if defs != [] {
      var init := defs[..|defs| - 1];
      NonNegativeSnoc(defs);
      BuiltEdgesEach(init, clock);
      var r, r0 := BuiltEdges(defs, clock), BuiltEdges(init, clock);
      var e := EdgeFor(defs[|defs| - 1], clock(|defs| - 1)).value;
      assert r == r0 + [e];
      forall k | 0 <= k < |defs|
        ensures r[k].from == defs[k].sourceVertex && r[k].to == defs[k].targetVertex
        ensures r[k].weight == defs[k].weight && !r[k].directed
      {
        if k < |init| {
          assert r[k] == r0[k] && defs[k] == init[k];
        } else {
          assert k == |r0| && r[k] == e;
        }
      }
    }
  }

  // The transformations.

  /** `parsedGraphToModel`: the nodes of the vertices, the edges of the
      definitions, and an undirected graph. */
  method ParsedGraphToModel(pg: ParsedGraph, layout: Layout, clock: Clock) returns (g: GraphModel)
    ensures !g.directed
    ensures Ascending(NodeIds(g.nodes)) && forall v :: v in NodeIds(g.nodes) <==> v in pg.vertices
    ensures forall i :: 0 <= i < |g.nodes| ==>
              g.nodes[i] == CreateNode(g.nodes[i].id, layout(i, |pg.vertices|).0, layout(i, |pg.vertices|).1)
    ensures g.edges == BuiltEdges(pg.edgeDefinitions, clock)
  {
    var nodes := CreateNodesFromVertices(pg.vertices, layout);
    var edges := CreateEdgesFromDefinitions(pg.edgeDefinitions, clock);
    g := GraphModel(nodes, edges, false);
  }

  /** `updateGraphModel`: the nodes of the vertices, keeping the record of
      each one the graph already has; the edges rebuilt from the
      definitions; the graph's direction kept. */
  method UpdateGraphModel(existing: GraphModel, pg: ParsedGraph, layout: Layout, clock: Clock) returns (g: GraphModel)
    ensures g.directed == existing.directed
    ensures Ascending(NodeIds(g.nodes)) && forall v :: v in NodeIds(g.nodes) <==> v in pg.vertices
    ensures forall i :: 0 <= i < |g.nodes| ==>
              g.nodes[i] == Placed(NodeIds(g.nodes), i, NodeIndex(existing.nodes), layout)
    ensures g.edges == BuiltEdges(pg.edgeDefinitions, clock)
  {
    var existingNodes := IndexNodes(existing.nodes);
    var nodes := CreateNodesPreservingPositions(pg.vertices, existingNodes, layout);
    var edges := CreateEdgesFromDefinitions(pg.edgeDefinitions, clock);
    g := GraphModel(nodes, edges, existing.directed);
  }

  /** After an update every node is labelled with its name, and a node of
      the edited graph whose id is still a vertex, and the only node with
      that id, is kept whole: same position, same heuristic weight. */
  lemma UpdateKeepsPosition(existing: GraphModel, g: GraphModel, pg: ParsedGraph, layout: Layout, i: nat)
    requires i < |existing.nodes| && existing.nodes[i].id in pg.vertices
    requires forall j :: 0 <= j < |existing.nodes| && j != i ==> existing.nodes[j].id != existing.nodes[i].id
    requires forall v :: v in NodeIds(g.nodes) <==> v in pg.vertices
    requires forall k :: 0 <= k < |g.nodes| ==>
               g.nodes[k] == Placed(NodeIds(g.nodes), k, NodeIndex(existing.nodes), layout)
    ensures forall k :: 0 <= k < |g.nodes| ==> g.nodes[k].caption == Some(g.nodes[k].id)
    ensures exists k :: 0 <= k < |g.nodes| && g.nodes[k] == Relabel(existing.nodes[i], existing.nodes[i].id)
  {
    var ids := NodeIds(g.nodes);
    var m := NodeIndex(existing.nodes);
    forall k | 0 <= k < |g.nodes| ensures g.nodes[k].caption == Some(g.nodes[k].id) {
      PlacedKeeps(ids, k, m, layout);
    }
    var n := existing.nodes[i];
    var k :| 0 <= k < |ids| && ids[k] == n.id;
    assert NodeIds(existing.nodes)[i] == n.id;
    NodeIndexLast(existing.nodes, i);
    assert g.nodes[k] == Placed(ids, k, m, layout) == Relabel(n, n.id);
  }
}
