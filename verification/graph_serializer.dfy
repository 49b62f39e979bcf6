/** `GraphSerializer`: writes a graph back in the text edge-list format. The
    edges whose two ends are nodes become definitions named by the nodes'
    labels; these are sorted by source, target and weight unless sorting is
    switched off, and written one per line, optionally after a comment
    header. */
module GraphSerializer {
  import opened Wrappers
  import opened Strings
  import opened Graph
  import opened TextFormat
  import opened TextParser

  /** `SerializeOptions['format']`. */
  datatype Format = Compact | Readable

  /** `SerializeOptions`: an absent field is `None`. */
  datatype SerializeOptions = SerializeOptions(
    sortEdges: Option<bool> := None,
    includeComments: Option<bool> := None,
    precision: Option<int> := None,
    format: Option<Format> := None)

  /** `Required<SerializeOptions>`. */
  datatype SerializeConfig = SerializeConfig(sortEdges: bool, includeComments: bool, precision: int, format: Format)

  /** `DEFAULT_OPTIONS`. */
  const Defaults: SerializeConfig := SerializeConfig(true, false, 2, Compact)

  /** `{ ...DEFAULT_OPTIONS, ...options }`: a field given in the options wins. */
  function Resolve(o: SerializeOptions): (c: SerializeConfig)
    ensures o == SerializeOptions() ==> c == Defaults
    ensures o.sortEdges.Some? ==> c.sortEdges == o.sortEdges.value
    ensures o.includeComments.Some? ==> c.includeComments == o.includeComments.value
    ensures o.precision.Some? ==> c.precision == o.precision.value
    ensures o.format.Some? ==> c.format == o.format.value
  {
    SerializeConfig(o.sortEdges.GetOr(Defaults.sortEdges),
                    o.includeComments.GetOr(Defaults.includeComments),
                    o.precision.GetOr(Defaults.precision),
                    o.format.GetOr(Defaults.format))
  }

  // Extracting the definitions.

  /** `graph.nodes.find(n => n.id === id)`. */
  function FindNode(nodes: seq<Node>, id: NodeId): (r: Option<Node>)
    ensures r.None? <==> id !in NodeIds(nodes)
    ensures r.Some? ==> r.value.id == id && r.value in nodes
  {
    if nodes == [] then None
    else if nodes[0].id == id then Some(nodes[0])
    else
      var r := FindNode(nodes[1..], id);
      assert NodeIds(nodes) == [nodes[0].id] + NodeIds(nodes[1..]) by {
        assert forall i :: 1 <= i < |nodes| ==> nodes[i] == nodes[1..][i - 1];
      }
      r
  }

  /** `node.label || node.id`: an absent or empty label falls back to the id. */
  function Name(n: Node): (s: string)
    ensures s == n.id || (n.caption == Some(s) && s != [])
  {
    if n.caption.Some? && n.caption.value != [] then n.caption.value else n.id
  }

  /** The name an edge end is written with: the label of the node with that
      id, or else its id. */
  function NameOf(nodes: seq<Node>, id: NodeId): string {
    match FindNode(nodes, id)
    case Some(n) => Name(n)
    case None => id
  }

  /** The definition one edge is written as. */
  function Definition(nodes: seq<Node>, e: Edge): EdgeDefinition {
    EdgeDefinition(NameOf(nodes, e.from), NameOf(nodes, e.to), e.weight, 0, "")
  }

  /** The definition one edge yields, when both of its ends are nodes. */
  function DefinitionOf(nodes: seq<Node>, e: Edge): (r: Option<EdgeDefinition>)
    ensures r.Some? <==> e.from in NodeIds(nodes) && e.to in NodeIds(nodes)
    ensures r.Some? ==> r.value == Definition(nodes, e)
  {
    match (FindNode(nodes, e.from), FindNode(nodes, e.to))
    case (Some(s), Some(t)) => Some(EdgeDefinition(Name(s), Name(t), e.weight, 0, ""))
    case _ => None
  }

  /** The definitions of the edges in order, skipping edges with a missing end. */
  function Extracted(nodes: seq<Node>, edges: seq<Edge>): seq<EdgeDefinition> {
    if edges == [] then []
    else
      var d := DefinitionOf(nodes, edges[|edges| - 1]);
      Extracted(nodes, edges[..|edges| - 1]) + (if d.Some? then [d.value] else [])
  }

  /** `extractEdgeDefinitions`. */
  method ExtractEdgeDefinitions(g: GraphModel) returns (defs: seq<EdgeDefinition>)
    ensures defs == Extracted(g.nodes, g.edges)
  {
    defs := [];
    for k := 0 to |g.edges|
      invariant defs == Extracted(g.nodes, g.edges[..k])
    {
      var edge := g.edges[k];
      assert g.edges[..k + 1][..k] == g.edges[..k];
      var sourceNode := FindNode(g.nodes, edge.from);
      var targetNode := FindNode(g.nodes, edge.to);
      if sourceNode.None? || targetNode.None? {
        continue;
      }
      defs := defs + [EdgeDefinition(Name(sourceNode.value), Name(targetNode.value), edge.weight, 0, "")];
    }
    assert g.edges[..|g.edges|] == g.edges;
  }

  /** `canSerializeGraph`: every edge end is a node id. */
  predicate CanSerializeGraph(g: GraphModel) {
    EndsAreNodes(g.nodes, g.edges)
  }

  predicate EndsAreNodes(nodes: seq<Node>, edges: seq<Edge>) {
    forall k :: 0 <= k < |edges| ==> edges[k].from in NodeIds(nodes) && edges[k].to in NodeIds(nodes)
  }

  lemma EndsSnoc(nodes: seq<Node>, edges: seq<Edge>)
    requires edges != []
    ensures EndsAreNodes(nodes, edges) <==>
      EndsAreNodes(nodes, edges[..|edges| - 1]) && DefinitionOf(nodes, edges[|edges| - 1]).Some?
  {
    var init := edges[..|edges| - 1];
    assert forall k :: 0 <= k < |init| ==> init[k] == edges[k];
  }

  /** Extraction drops exactly the edges with a missing end, so it keeps
      every edge of a graph `canSerializeGraph` accepts and drops one of any
      other graph. */
  lemma {:induction false} ExtractedCount(nodes: seq<Node>, edges: seq<Edge>)
    ensures |Extracted(nodes, edges)| <= |edges|
    ensures |Extracted(nodes, edges)| == |edges| <==> CanSerializeGraph(GraphModel(nodes, edges, false))
    decreases |edges|
  {
    if edges != [] {
      ExtractedCount(nodes, edges[..|edges| - 1]);
      EndsSnoc(nodes, edges);
    }
  }

  /** When every edge end is a node, the definitions are those of the edges,
      one for one and in order. */
  lemma {:induction false} ExtractedEach(nodes: seq<Node>, edges: seq<Edge>)
    requires EndsAreNodes(nodes, edges)
    ensures |Extracted(nodes, edges)| == |edges|
    ensures forall k :: 0 <= k < |edges| ==> Extracted(nodes, edges)[k] == Definition(nodes, edges[k])
    decreases |edges|
  {
    if edges != [] {
      var init := edges[..|edges| - 1];
      EndsSnoc(nodes, edges);
      ExtractedEach(nodes, init);
      var r, r0 := Extracted(nodes, edges), Extracted(nodes, init);
      var d := Definition(nodes, edges[|edges| - 1]);
      assert r == r0 + [d];
      forall k | 0 <= k < |edges| ensures r[k] == Definition(nodes, edges[k]) {
        if k < |init| {
          assert r[k] == r0[k] && edges[k] == init[k];
        } else {
          assert k == |r0| && r[k] == d;
        }
      }
    }
  }

  // Sorting.

  /** The comparator of `sortEdgeDefinitions` is negative: `a` goes before `b`
      by source, then by target, then by weight. */
  predicate Before(a: EdgeDefinition, b: EdgeDefinition) {
    || StrLess(a.sourceVertex, b.sourceVertex)
    || (a.sourceVertex == b.sourceVertex && StrLess(a.targetVertex, b.targetVertex))
    || (a.sourceVertex == b.sourceVertex && a.targetVertex == b.targetVertex && a.weight < b.weight)
  }

  /** No definition goes before the one in front of it. */
  predicate Ordered(s: seq<EdgeDefinition>) {
    forall i :: 0 < i < |s| ==> !Before(s[i], s[i - 1])
  }

  lemma BeforeAsymmetric(a: EdgeDefinition, b: EdgeDefinition)
    ensures !(Before(a, b) && Before(b, a))
  {
    StrLessAsymmetric(a.sourceVertex, b.sourceVertex);
    StrLessAsymmetric(a.targetVertex, b.targetVertex);
    StrLessIrreflexive(a.sourceVertex);
    StrLessIrreflexive(a.targetVertex);
  }

  /** "Not before" is transitive, as the comparator orders by a key. */
  lemma NotBeforeTransitive(a: EdgeDefinition, b: EdgeDefinition, c: EdgeDefinition)
    requires !Before(b, a) && !Before(c, b)
    ensures !Before(c, a)
  {
    StrLessTotal(a.sourceVertex, b.sourceVertex);
    StrLessTotal(b.sourceVertex, c.sourceVertex);
    StrLessTotal(a.targetVertex, b.targetVertex);
    StrLessTotal(b.targetVertex, c.targetVertex);
    if Before(c, a) {
      if StrLess(c.sourceVertex, a.sourceVertex) {
        if StrLess(a.sourceVertex, b.sourceVertex) {
          StrLessTransitive(c.sourceVertex, a.sourceVertex, b.sourceVertex);
        }
      } else if StrLess(c.targetVertex, a.targetVertex) {
        if StrLess(a.targetVertex, b.targetVertex) {
          StrLessTransitive(c.targetVertex, a.targetVertex, b.targetVertex);
        }
      }
    }
  }

  /** Puts `x` after every definition that does not come after it, as a
      stable sort does with a later element. */
  function Insert(s: seq<EdgeDefinition>, x: EdgeDefinition): (r: seq<EdgeDefinition>)
    ensures multiset(r) == multiset(s) + multiset{x}
    ensures |r| == |s| + 1
  {
    if s == [] then [x]
    else if Before(x, s[0]) then [x] + s
    else
      assert s == [s[0]] + s[1..];
      [s[0]] + Insert(s[1..], x)
  }

  lemma {:induction false} InsertOrdered(s: seq<EdgeDefinition>, x: EdgeDefinition)
    requires Ordered(s)
    ensures Ordered(Insert(s, x))
    ensures Insert(s, x)[0] == x || (s != [] && Insert(s, x)[0] == s[0])
    decreases |s|
  {
    if s != [] {
      if Before(x, s[0]) {
        BeforeAsymmetric(x, s[0]);
      } else {
        var t := s[1..];
        assert Ordered(t) by {
          forall i | 0 < i < |t| ensures !Before(t[i], t[i - 1]) {
            assert t[i] == s[i + 1] && t[i - 1] == s[i];
          }
        }
        InsertOrdered(t, x);
        var r := Insert(t, x);
        assert t != [] ==> !Before(t[0], s[0]) by {
          if t != [] {
            assert t[0] == s[1];
          }
        }
        var u := [s[0]] + r;
        forall i | 0 < i < |u| ensures !Before(u[i], u[i - 1]) {
          if i > 1 {
            assert u[i] == r[i - 1] && u[i - 1] == r[i - 2];
          }
        }
      }
    }
  }

  /** `[...edgeDefinitions].sort(comparator)`, a stable sort. */
  function SortDefinitions(ds: seq<EdgeDefinition>): (r: seq<EdgeDefinition>)
    ensures multiset(r) == multiset(ds) && |r| == |ds|
  {
    if ds == [] then []
    else
      assert ds == ds[..|ds| - 1] + [ds[|ds| - 1]];
      Insert(SortDefinitions(ds[..|ds| - 1]), ds[|ds| - 1])
  }

  /** The sorted definitions are in comparator order, each next to one it
      does not go before, and therefore all pairs are in order. */
  lemma {:induction false} SortOrdered(ds: seq<EdgeDefinition>)
    ensures Ordered(SortDefinitions(ds))
    ensures forall i, j :: 0 <= i < j < |ds| ==> !Before(SortDefinitions(ds)[j], SortDefinitions(ds)[i])
    decreases |ds|
  {
    if ds != [] {
      SortOrdered(ds[..|ds| - 1]);
      InsertOrdered(SortDefinitions(ds[..|ds| - 1]), ds[|ds| - 1]);
    }
    OrderedPairs(SortDefinitions(ds));
  }

  lemma {:induction false} OrderedPairs(s: seq<EdgeDefinition>)
    requires Ordered(s)
    ensures forall i, j :: 0 <= i < j < |s| ==> !Before(s[j], s[i])
  {
    forall i, j | 0 <= i < j < |s| ensures !Before(s[j], s[i]) {
      OrderedFrom(s, i, j);
    }
  }

  lemma {:induction false} OrderedFrom(s: seq<EdgeDefinition>, i: nat, j: nat)
    requires Ordered(s) && i < j < |s|
    ensures !Before(s[j], s[i])
    decreases j - i
  {
    if j > i + 1 {
      OrderedFrom(s, i, j - 1);
      NotBeforeTransitive(s[i], s[j - 1], s[j]);
    }
  }

  /** Inserting a definition of a new pair keeps the pairs unique and adds
      that pair. */
  lemma {:induction false} InsertPairs(s: seq<EdgeDefinition>, x: EdgeDefinition)
    requires UniquePairs(s) && !HasPair(s, x)
    ensures UniquePairs(Insert(s, x))
    ensures forall y :: HasPair(Insert(s, x), y) <==> HasPair(s, y) || SamePair(x, y)
    decreases |s|
  {
    var r := Insert(s, x);
    if s == [] {
      assert r == [x];
      forall y ensures HasPair(r, y) <==> SamePair(x, y) {
        HasPairCons(x, [], y);
      }
    } else if Before(x, s[0]) {
      UniqueCons(x, s);
      forall y ensures HasPair(r, y) <==> HasPair(s, y) || SamePair(x, y) {
        HasPairCons(x, s, y);
      }
    } else {
      var t := s[1..];
      assert s == [s[0]] + t;
      HasPairCons(s[0], t, x);
      assert UniquePairs(t) by {
        forall i, j | 0 <= i < j < |t| ensures !SamePair(t[i], t[j]) {
          assert t[i] == s[i + 1] && t[j] == s[j + 1];
        }
      }
      InsertPairs(t, x);
      var rt := Insert(t, x);
      assert !HasPair(t, s[0]) by {
        forall k | 0 <= k < |t| ensures !SamePair(t[k], s[0]) {
          assert t[k] == s[k + 1];
        }
      }
      assert !HasPair(rt, s[0]);
      UniqueCons(s[0], rt);
      forall y ensures HasPair(r, y) <==> HasPair(s, y) || SamePair(x, y) {
        HasPairCons(s[0], rt, y);
        HasPairCons(s[0], t, y);
      }
    }
  }

  /** A definition of a pair the rest does not have, in front of it, keeps
      the pairs unique. */
  lemma UniqueCons(x: EdgeDefinition, s: seq<EdgeDefinition>)
    requires UniquePairs(s) && !HasPair(s, x)
    ensures UniquePairs([x] + s)
  {
    var u := [x] + s;
    forall i, j | 0 <= i < j < |u| ensures !SamePair(u[i], u[j]) {
      assert u[j] == s[j - 1];
      if i > 0 {
        assert u[i] == s[i - 1];
      }
    }
  }

  /** Sorting keeps the pairs, and so keeps them unique. */
  lemma {:induction false} SortPairs(ds: seq<EdgeDefinition>)
    requires UniquePairs(ds)
    ensures UniquePairs(SortDefinitions(ds))
    ensures forall y :: HasPair(SortDefinitions(ds), y) <==> HasPair(ds, y)
    decreases |ds|
  {
    if ds != [] {
      var init, last := ds[..|ds| - 1], ds[|ds| - 1];
      assert ds == init + [last];
      assert UniquePairs(init) by {
        forall i, j | 0 <= i < j < |init| ensures !SamePair(init[i], init[j]) {
          assert init[i] == ds[i] && init[j] == ds[j];
        }
      }
      SortPairs(init);
      assert !HasPair(init, last) by {
        forall k | 0 <= k < |init| ensures !SamePair(init[k], last) {
          assert init[k] == ds[k];
        }
      }
      InsertPairs(SortDefinitions(init), last);
      forall y ensures HasPair(SortDefinitions(ds), y) <==> HasPair(ds, y) {
        HasPairSnoc(init, last, y);
      }
    }
  }

  // Formatting.

  /** `n.toString()` for an integer below 10^21 in size. */
  function IntText(n: int): (s: string)
    ensures n >= 0 ==> s == NatToString(n)
    ensures n < 0 ==> s == "-" + NatToString(-n)
  {
    if n < 0 then "-" + NatToString(-n) else NatToString(n)
  }

  /** The integer `n` with `n / 10^p` nearest to `x`, the larger one on a tie. */
  function Rounded(x: real, p: nat): (n: nat)
    requires x >= 0.0
    ensures n as real - 0.5 <= x * Pow10(p) as real < n as real + 0.5
  {
    (x * Pow10(p) as real + 0.5).Floor
  }

  /** `k` copies of the character `c`: the zeros `toFixed` pads with and the
      spaces `padEnd` adds. */
  function Repeat(c: char, k: nat): (s: string)
    ensures |s| == k && forall i :: 0 <= i < k ==> s[i] == c
  {
    if k == 0 then [] else Repeat(c, k - 1) + [c]
  }

  /** `x.toFixed(p)` for `0 <= x < 10^21`: the digits of `Rounded(x, p)`,
      padded with zeros to more than `p` digits, with a point before the last
      `p` of them. */
  function FixedDigits(x: real, p: nat): (s: string)
    requires x >= 0.0
  {
    var m := NatToString(Rounded(x, p));
    if p == 0 then m
    else
      var padded := if |m| <= p then Repeat('0', p + 1 - |m|) + m else m;
      padded[..|padded| - p] + "." + padded[|padded| - p..]
  }

  /** `x.toFixed(p)`: a negative value is written as its size after a '-'. */
  function ToFixed(x: real, p: nat): string {
    if x < 0.0 then "-" + FixedDigits(-x, p) else FixedDigits(x, p)
  }

  /** The number of '0' characters `s` ends with. */
  function TrailingZeros(s: string): (k: nat)
    ensures k <= |s| && forall i :: |s| - k <= i < |s| ==> s[i] == '0'
    ensures k < |s| ==> s[|s| - k - 1] != '0'
  {
    if s == [] || s[|s| - 1] != '0' then 0 else TrailingZeros(s[..|s| - 1]) + 1
  }

  /** `s.replace(/\.?0+$/, '')`: the leftmost match of an optional point
      followed by zeros up to the end is removed. That match starts at the
      first of the trailing zeros, or at the point just before them. */
  function StripZeros(s: string): (r: string)
    ensures TrailingZeros(s) == 0 ==> r == s
    ensures |r| <= |s| && r == s[..|r|]
  {
    var k := TrailingZeros(s);
    if k == 0 then s
    else
      var i := |s| - k;
      if i > 0 && s[i - 1] == '.' then s[..i - 1] else s[..i]
  }

  /** The message of the `RangeError` `toFixed` throws for a precision
      outside 0..100. */
  const PrecisionError := "toFixed() digits argument must be between 0 and 100"

  predicate IsInteger(w: real) {
    w == w.Floor as real
  }

  /** `formatWeight` as written: an integer is written without a point; any
      other value with `precision` decimals, less what the pattern strips.
      With precision 0 there is no point, and the pattern strips the zeros
      that end the integer part. */
  function WeightTextAsWritten(w: real, precision: int): (r: Result<string>)
    ensures r.Failure? <==> !IsInteger(w) && !(0 <= precision <= 100)
    ensures IsInteger(w) ==> r == Success(IntText(w.Floor))
  {
    if IsInteger(w) then Success(IntText(w.Floor))
    else if precision < 0 || precision > 100 then Failure(PrecisionError)
    else Success(StripZeros(ToFixed(w, precision)))
  }

  /** `formatWeight` as intended: the trailing zeros are stripped only after
      a decimal point, so the integer part is kept whole. */
  function WeightText(w: real, precision: int): (r: Result<string>)
    ensures r.Failure? <==> !IsInteger(w) && !(0 <= precision <= 100)
    ensures r.Failure? ==> r.error == PrecisionError
    ensures IsInteger(w) ==> r == Success(IntText(w.Floor))
    ensures precision != 0 ==> r == WeightTextAsWritten(w, precision)
  {
    if IsInteger(w) then Success(IntText(w.Floor))
    else if precision < 0 || precision > 100 then Failure(PrecisionError)
    else if precision == 0 then Success(ToFixed(w, 0))
    else Success(StripZeros(ToFixed(w, precision)))
  }

  /** As written, 10.4 at precision 0 is rounded to 10 and then written "1",
      which reads back as 1; 0.4 is written as an empty token. */
  lemma IntegerZerosStripped()
    ensures Rounded(10.4, 0) == 10
    ensures WeightTextAsWritten(10.4, 0) == Success("1")
    ensures ParseDecimal("1") == Some(1.0)
    ensures WeightTextAsWritten(0.4, 0) == Success("")
  {
    assert NatToString(10) == "10";
    assert TrailingZeros("10") == 1;
    assert NatToString(0) == "0";
    assert TrailingZeros("0") == 1;
    ParseNatText(1);
  }

  /** As intended, a value that is not an integer is written at precision 0
      as the nearest integer, and reads back as that integer. */
  lemma WholeRounding(w: real)
    requires !IsInteger(w) && w >= 0.0
    ensures WeightText(w, 0) == Success(NatToString(Rounded(w, 0)))
    ensures ParseDecimal(WeightText(w, 0).value) == Some(Rounded(w, 0) as real)
  {
    ParseNatText(Rounded(w, 0));
  }

  /** `s.padEnd(n)`: spaces are added up to length `n`. */
  function PadEnd(s: string, n: nat): (r: string)
    ensures |r| == if |s| < n then n else |s|
    ensures r == s + Repeat(' ', |r| - |s|)
  {
    if |s| < n then s + Repeat(' ', n - |s|) else (assert s + [] == s; s)
  }

  function Max(a: nat, b: nat): nat {
    if a < b then b else a
  }

  /** `formatEdgeLine`: the compact line is the two names and the weight
      separated by one space; the readable one pads both names to the longer
      name's length, and to at least 8. */
  function FormatEdgeLine(d: EdgeDefinition, c: SerializeConfig): (r: Result<string>)
    ensures r.Failure? <==> WeightText(d.weight, c.precision).Failure?
  {
    match WeightText(d.weight, c.precision)
    case Failure(e) => Failure(e)
    case Success(w) =>
      if c.format == Compact then Success(d.sourceVertex + " " + d.targetVertex + " " + w)
      else
        var width := Max(Max(|d.sourceVertex|, |d.targetVertex|), 8);
        Success(PadEnd(d.sourceVertex, width) + " " + PadEnd(d.targetVertex, width) + " " + w)
  }

  /** The lines of the definitions in order, or the error of the first line
      that cannot be written. */
  function FormatLines(ds: seq<EdgeDefinition>, c: SerializeConfig): (r: Result<seq<string>>)
    ensures r.Success? ==> |r.value| == |ds|
    ensures r.Failure? ==> r.error == PrecisionError
  {
    if ds == [] then Success([])
    else
      match FormatLines(ds[..|ds| - 1], c)
      case Failure(e) => Failure(e)
      case Success(init) =>
        match FormatEdgeLine(ds[|ds| - 1], c)
        case Failure(e) => Failure(e)
        case Success(line) => Success(init + [line])
  }

  /** The three header lines of `includeComments`, counting all nodes and
      edges of the graph, kept or not. */
  function Header(nodeCount: nat, edgeCount: nat): seq<string> {
    ["# Graph with " + NatToString(nodeCount) + " nodes and " + NatToString(edgeCount) + " edges",
     "# Format: source_vertex target_vertex weight",
     ""]
  }

  const EmptyComment := "# Empty graph - no edges defined\n"

  /** The definitions in the order they are written. */
  function Written(defs: seq<EdgeDefinition>, c: SerializeConfig): (r: seq<EdgeDefinition>)
    ensures multiset(r) == multiset(defs) && |r| == |defs|
  {
    if c.sortEdges then SortDefinitions(defs) else defs
  }

  /** What `serialize` returns, or the error it throws. */
  function SerializeText(g: GraphModel, c: SerializeConfig): Result<string> {
    var defs := Extracted(g.nodes, g.edges);
    if defs == [] then Success(if c.includeComments then EmptyComment else "")
    else
      var header := if c.includeComments then Header(|g.nodes|, |g.edges|) else [];
      match FormatLines(Written(defs, c), c)
      case Failure(e) => Failure(e)
      case Success(lines) => Success(Join(header + lines, "\n"))
  }

  /** `serialize`. */
  method Serialize(g: GraphModel, options: SerializeOptions) returns (r: Result<string>)
    ensures r == SerializeText(g, Resolve(options))
  {
    var c := Resolve(options);
    var defs := ExtractEdgeDefinitions(g);
    if |defs| == 0 {
      return Success(if c.includeComments then EmptyComment else "");
    }
    var sorted := if c.sortEdges then SortDefinitions(defs) else defs;
    assert sorted == Written(defs, c);
    var header: seq<string> := if c.includeComments then Header(|g.nodes|, |g.edges|) else [];
    var lines := PushLines(header, sorted, c);
    if lines.Failure? {
      return Failure(lines.error);
    }
    r := Success(Join(lines.value, "\n"));
  }

  /** The loop of `serialize`: the line of each definition is pushed after
      `lines`; the first one that cannot be written throws. */
  method PushLines(lines: seq<string>, ds: seq<EdgeDefinition>, c: SerializeConfig) returns (r: Result<seq<string>>)
    ensures r.Failure? <==> FormatLines(ds, c).Failure?
    ensures r.Failure? ==> r.error == PrecisionError
    ensures r.Success? ==> r.value == lines + FormatLines(ds, c).value
  {
    var out := lines;
    for k := 0 to |ds|
      invariant FormatLines(ds[..k], c).Success?
      invariant out == lines + FormatLines(ds[..k], c).value
    {
      assert ds[..k + 1][..k] == ds[..k];
      var line := FormatEdgeLine(ds[k], c);
      if line.Failure? {
        FormatLinesFail(ds, k + 1, c);
        return Failure(line.error);
      }
      out := out + [line.value];
    }
    assert ds[..|ds|] == ds;
    r := Success(out);
  }

  /** Once a line cannot be written, the whole list cannot. */
  lemma {:induction false} FormatLinesFail(ds: seq<EdgeDefinition>, k: nat, c: SerializeConfig)
    requires 0 < k <= |ds| && FormatLines(ds[..k], c).Failure?
    ensures FormatLines(ds, c).Failure?
    decreases |ds| - k
  {
    if k < |ds| {
      assert ds[..k + 1][..k] == ds[..k];
      FormatLinesFail(ds, k + 1, c);
    } else {
      assert ds[..k] == ds;
    }
  }
}
