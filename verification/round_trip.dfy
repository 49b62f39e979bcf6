/** Reading serialized text back: the lines `serialize` writes are lines
    `parseText` accepts, one definition per line, of the same pairs in the
    written order. */
module RoundTrip {
  import opened Wrappers
  import opened Strings
  import opened Collections
  import opened Graph
  import opened TextFormat
  import opened TextParser
  import opened GraphSerializer
  import opened GraphModelTransformer

  // One line.

  /** A line that starts and ends with a non-space character is its own trim. */
  lemma TrimKeeps(s: string)
    requires s != [] && !IsSpace(s[0]) && !IsSpace(s[|s| - 1])
    ensures Trim(s) == s
  {
    assert TrimStart(s) == s;
    assert TrimEnd(s) == s;
  }

  lemma NameIsWord(s: string)
    requires IsVertexName(s)
    ensures s != [] && NoSpace(s) && NoBreaks(s)
  {
    forall i | 0 <= i < |s| ensures !IsSpace(s[i]) && !IsBreak(s[i]) {
      assert IsVertexChar(s[i]);
    }
  }

  lemma DecimalIsWord(s: string)
    requires IsDecimalText(s)
    ensures s != [] && NoSpace(s) && NoBreaks(s)
  {
    forall i | 0 <= i < |s| ensures !IsSpace(s[i]) && !IsBreak(s[i]) {
      assert IsDigit(s[i]) || s[i] == '.';
    }
  }

  lemma NoBreaksAppend(a: string, b: string)
    requires NoBreaks(a) && NoBreaks(b)
    ensures NoBreaks(a + b)
  {
    var u := a + b;
    forall i | 0 <= i < |u| ensures !IsBreak(u[i]) {
      if i < |a| {
        assert u[i] == a[i];
      } else {
        assert u[i] == b[i - |a|];
      }
    }
  }

  /** A definition whose line the parser reads back: both names are vertex
      names, a self-loop only where the parser allows one, and a weight
      written as a token the parser accepts. */
  predicate Writable(d: EdgeDefinition, precision: int, pc: Config) {
    && IsVertexName(d.sourceVertex) && IsVertexName(d.targetVertex)
    && (pc.allowSelfLoops || d.sourceVertex != d.targetVertex)
    && WeightText(d.weight, precision).Success?
    && AcceptableWeight(WeightText(d.weight, precision).value)
  }

  /** The value the parser reads from the weight token written for `w`;
      zero when none is written. */
  function TokenValue(w: real, precision: int): real {
    match WeightText(w, precision)
    case Success(t) => ParseDecimal(t).GetOr(0.0)
    case Failure(_) => 0.0
  }

  /** What the parser makes of the line `line`, numbered `k`, written for `d`. */
  function ReadBack(d: EdgeDefinition, precision: int, k: nat, line: string): EdgeDefinition {
    EdgeDefinition(d.sourceVertex, d.targetVertex, TokenValue(d.weight, precision), k, line)
  }

  /** The separator after a name in a line: one space, or in the readable
      format the padding up to the width and then one space. */
  function Gap(name: string, width: nat, format: Format): (s: string)
    ensures s != [] && forall i :: 0 <= i < |s| ==> s[i] == ' '
  {
    if format == Compact || width <= |name| then " " else Repeat(' ', width - |name|) + " "
  }

  /** The line of `d` is its two names and its weight token, separated by
      white space. */
  lemma LineShape(d: EdgeDefinition, c: SerializeConfig)
    requires WeightText(d.weight, c.precision).Success?
    ensures FormatEdgeLine(d, c).Success?
    ensures var width := Max(Max(|d.sourceVertex|, |d.targetVertex|), 8);
      FormatEdgeLine(d, c).value ==
        d.sourceVertex + Gap(d.sourceVertex, width, c.format) + d.targetVertex
        + Gap(d.targetVertex, width, c.format) + WeightText(d.weight, c.precision).value
  {
    var width := Max(Max(|d.sourceVertex|, |d.targetVertex|), 8);
    GapsJoin(d.sourceVertex, d.targetVertex, WeightText(d.weight, c.precision).value, width, c.format);
  }

  /** The two ways of writing the separators agree. */
  lemma GapsJoin(a: string, b: string, w: string, width: nat, format: Format)
    ensures (if format == Compact then a + " " + b + " " + w
             else PadEnd(a, width) + " " + PadEnd(b, width) + " " + w)
            == a + Gap(a, width, format) + b + Gap(b, width, format) + w
  {
    if format == Readable {
      var x := a + Gap(a, width, format);
      assert PadEnd(a, width) + " " == x;
      assert PadEnd(b, width) + " " == b + Gap(b, width, format);
      AppendAssoc(x, PadEnd(b, width), " ");
      AppendAssoc(x, b, Gap(b, width, format));
    }
  }

  /** The line written for a definition with vertex names and an
      acceptable weight token holds no break, is its own trim, and its words
      are the two names and the token. */
  lemma LineWords(d: EdgeDefinition, c: SerializeConfig)
    requires IsVertexName(d.sourceVertex) && IsVertexName(d.targetVertex)
    requires WeightText(d.weight, c.precision).Success?
    requires AcceptableWeight(WeightText(d.weight, c.precision).value)
    ensures FormatEdgeLine(d, c).Success?
    ensures var line := FormatEdgeLine(d, c).value;
      && NoBreaks(line) && Trim(line) == line
      && Words(line) == [d.sourceVertex, d.targetVertex, WeightText(d.weight, c.precision).value]
  {
    var width := Max(Max(|d.sourceVertex|, |d.targetVertex|), 8);
    LineShape(d, c);
    SpacedWords(d.sourceVertex, Gap(d.sourceVertex, width, c.format), d.targetVertex,
                Gap(d.targetVertex, width, c.format), WeightText(d.weight, c.precision).value);
  }

  /** Two names and a decimal token, separated by spaces, form a line
      without breaks that is its own trim and whose words are those three. */
  lemma SpacedWords(src: string, s1: string, tgt: string, s2: string, w: string)
    requires IsVertexName(src) && IsVertexName(tgt) && IsDecimalText(w)
    requires s1 != [] && forall i :: 0 <= i < |s1| ==> s1[i] == ' '
    requires s2 != [] && forall i :: 0 <= i < |s2| ==> s2[i] == ' '
    ensures var line := src + s1 + tgt + s2 + w;
      NoBreaks(line) && Trim(line) == line && Words(line) == [src, tgt, w]
  {
    var line := src + s1 + tgt + s2 + w;
    NameIsWord(src);
    NameIsWord(tgt);
    DecimalIsWord(w);
    ThreeWords(src, s1, tgt, s2, w);
    assert line[0] == src[0];
    assert line[|line| - 1] == w[|w| - 1];
    TrimKeeps(line);
    assert NoBreaks(s1) && NoBreaks(s2);
    NoBreaksAppend(src, s1);
    NoBreaksAppend(src + s1, tgt);
    NoBreaksAppend(src + s1 + tgt, s2);
    NoBreaksAppend(src + s1 + tgt + s2, w);
  }

  /** The line written for a writable definition holds no break, and the
      parser accepts it as the same pair with the weight its token reads as. */
  lemma LineReadBack(d: EdgeDefinition, c: SerializeConfig, pc: Config, k: nat)
    requires Writable(d, c.precision, pc)
    ensures FormatEdgeLine(d, c).Success?
    ensures var line := FormatEdgeLine(d, c).value;
      NoBreaks(line) && Classify(line, k, pc) == Accept(ReadBack(d, c.precision, k, line))
  {
    LineWords(d, c);
    var line := FormatEdgeLine(d, c).value;
    var w := WeightText(d.weight, c.precision).value;
    TokensAccepted([d.sourceVertex, d.targetVertex, w], line, k);
  }

  // All lines.

  /** What the parser makes of line `k` of `lines`, numbered `k + 1`. */
  function Outcome(lines: seq<string>, k: nat, pc: Config): LineOutcome
    requires k < |lines|
  {
    Classify(lines[k], k + 1, pc)
  }

  lemma AcceptedSnoc(init: seq<string>, line: string, pc: Config)
    ensures Accepted(init + [line], pc) == Accepted(init, pc) + EdgesOf(Classify(line, |init| + 1, pc))
    ensures LineErrors(init + [line], pc) == LineErrors(init, pc) + ErrorsOf(Classify(line, |init| + 1, pc))
  {
    assert (init + [line])[..|init|] == init;
  }

  /** Lines the parser each accepts raise no error and yield their
      definitions in order. */
  lemma {:induction false} AcceptedEach(lines: seq<string>, pc: Config)
    requires forall k {:trigger Outcome(lines, k, pc)} :: 0 <= k < |lines| ==> Outcome(lines, k, pc).Accept?
    ensures LineErrors(lines, pc) == []
    ensures |Accepted(lines, pc)| == |lines|
    ensures forall k {:trigger Accepted(lines, pc)[k]} :: 0 <= k < |lines| ==>
              Accepted(lines, pc)[k] == Outcome(lines, k, pc).edge
    decreases |lines|
  {
    if lines != [] {
      var n := |lines| - 1;
      var init, last := lines[..n], lines[n];
      forall k | 0 <= k < n ensures Outcome(init, k, pc) == Outcome(lines, k, pc) {
        assert init[k] == lines[k];
      }
      AcceptedEach(init, pc);
      SplitLast(lines);
      AcceptedSnoc(init, last, pc);
      var o := Outcome(lines, n, pc);
      assert o == Classify(last, |init| + 1, pc) && o.Accept?;
      assert EdgesOf(o) == [o.edge] && ErrorsOf(o) == [];
      var acc, acc0 := Accepted(lines, pc), Accepted(init, pc);
      assert acc == acc0 + [o.edge];
      forall k | 0 <= k < |lines| ensures acc[k] == Outcome(lines, k, pc).edge {
        if k < n {
          assert acc[k] == acc0[k] == Outcome(init, k, pc).edge;
        }
      }
    }
  }

  lemma FormatLinesSnoc(init: seq<EdgeDefinition>, d: EdgeDefinition, c: SerializeConfig)
    requires FormatLines(init, c).Success? && FormatEdgeLine(d, c).Success?
    ensures FormatLines(init + [d], c) == Success(FormatLines(init, c).value + [FormatEdgeLine(d, c).value])
  {
    assert (init + [d])[..|init|] == init;
  }

  /** The lines are those of the definitions, one for one. */
  lemma {:induction false} FormatLinesEach(ds: seq<EdgeDefinition>, c: SerializeConfig)
    requires forall i :: 0 <= i < |ds| ==> FormatEdgeLine(ds[i], c).Success?
    ensures FormatLines(ds, c).Success?
    ensures forall k {:trigger FormatLines(ds, c).value[k]} :: 0 <= k < |ds| ==>
              FormatLines(ds, c).value[k] == FormatEdgeLine(ds[k], c).value
    decreases |ds|
  {
    if ds != [] {
      var init, last := ds[..|ds| - 1], ds[|ds| - 1];
      assert forall i :: 0 <= i < |init| ==> init[i] == ds[i];
      FormatLinesEach(init, c);
      SplitLast(ds);
      FormatLinesSnoc(init, last, c);
    }
  }

  lemma WritableLine(d: EdgeDefinition, c: SerializeConfig, pc: Config)
    requires Writable(d, c.precision, pc)
    ensures FormatEdgeLine(d, c).Success?
  {
  }

  /** Line `k` of the lines of `ds` is read back from `ds[k]`. */
  lemma LineAt(ds: seq<EdgeDefinition>, lines: seq<string>, c: SerializeConfig, pc: Config, k: nat)
    requires k < |ds| == |lines| && Writable(ds[k], c.precision, pc)
    requires FormatEdgeLine(ds[k], c).Success? && lines[k] == FormatEdgeLine(ds[k], c).value
    ensures NoBreaks(lines[k]) && Outcome(lines, k, pc) == Accept(ReadBack(ds[k], c.precision, k + 1, lines[k]))
  {
    LineReadBack(ds[k], c, pc, k + 1);
  }

  /** The lines of writable definitions hold no break, raise no error, and
      are read back one definition per line, in order: the same pair, the
      weight its token reads as, the line number and the line. */
  lemma LinesReadBack(ds: seq<EdgeDefinition>, c: SerializeConfig, pc: Config)
    requires forall i {:trigger Writable(ds[i], c.precision, pc)} :: 0 <= i < |ds| ==> Writable(ds[i], c.precision, pc)
    ensures FormatLines(ds, c).Success?
    ensures var lines := FormatLines(ds, c).value;
      && (forall k :: 0 <= k < |lines| ==> NoBreaks(lines[k]))
      && LineErrors(lines, pc) == []
      && |Accepted(lines, pc)| == |ds|
      && forall k {:trigger Accepted(lines, pc)[k]} :: 0 <= k < |ds| ==>
           Accepted(lines, pc)[k] == ReadBack(ds[k], c.precision, k + 1, lines[k])
  {
    forall i | 0 <= i < |ds| ensures FormatEdgeLine(ds[i], c).Success? {
      WritableLine(ds[i], c, pc);
    }
    FormatLinesEach(ds, c);
    var lines := FormatLines(ds, c).value;
    forall k | 0 <= k < |lines|
      ensures NoBreaks(lines[k]) && Outcome(lines, k, pc) == Accept(ReadBack(ds[k], c.precision, k + 1, lines[k]))
    {
      LineAt(ds, lines, c, pc, k);
    }
    AcceptedEach(lines, pc);
  }

  /** A definition of the written order comes from the extracted ones. */
  lemma WrittenFrom(defs: seq<EdgeDefinition>, c: SerializeConfig, i: nat)
    requires i < |Written(defs, c)|
    ensures Written(defs, c)[i] in defs
  {
    var r := Written(defs, c);
    assert r[i] in multiset(r);
  }

  /** Without the header, the text of a graph with definitions splits into
      their lines. */
  lemma TextLines(g: GraphModel, c: SerializeConfig)
    requires !c.includeComments && Extracted(g.nodes, g.edges) != []
    requires FormatLines(Written(Extracted(g.nodes, g.edges), c), c).Success?
    requires forall k :: 0 <= k < |FormatLines(Written(Extracted(g.nodes, g.edges), c), c).value| ==>
               NoBreaks(FormatLines(Written(Extracted(g.nodes, g.edges), c), c).value[k])
    ensures SerializeText(g, c).Success?
    ensures SplitLines(SerializeText(g, c).value) == FormatLines(Written(Extracted(g.nodes, g.edges), c), c).value
  {
    var lines := FormatLines(Written(Extracted(g.nodes, g.edges), c), c).value;
    assert [] + lines == lines;
    SplitJoin(lines);
  }

  /** Serializing without the comment header and parsing the text back
      reports no line error and reads one definition per written edge: the
      same pair as the written definition at that position, and the weight
      its token reads as. */
  lemma SerializeReadBack(g: GraphModel, c: SerializeConfig, pc: Config)
    requires !c.includeComments
    requires forall d :: d in Extracted(g.nodes, g.edges) ==> Writable(d, c.precision, pc)
    ensures SerializeText(g, c).Success?
    ensures var lines := SplitLines(SerializeText(g, c).value);
      var written := Written(Extracted(g.nodes, g.edges), c);
      && LineErrors(lines, pc) == []
      && |Accepted(lines, pc)| == |written|
      && forall k :: 0 <= k < |written| ==>
           SamePair(Accepted(lines, pc)[k], written[k])
           && Accepted(lines, pc)[k].weight == TokenValue(written[k].weight, c.precision)
  {
    var defs := Extracted(g.nodes, g.edges);
    var written := Written(defs, c);
    if defs == [] {
      assert SerializeText(g, c) == Success("");
      assert SplitLines("") == [""];
      assert [""][..0] == [];
      assert Trim("") == [];
    } else {
      forall i | 0 <= i < |written| ensures Writable(written[i], c.precision, pc) {
        WrittenFrom(defs, c, i);
      }
      LinesReadBack(written, c, pc);
      TextLines(g, c);
    }
  }

  // Whole graphs.

  /** Pointwise equal pairs give the same pairs. */
  lemma PairsAlike(a: seq<EdgeDefinition>, b: seq<EdgeDefinition>)
    requires |a| == |b| && forall k :: 0 <= k < |a| ==> SamePair(a[k], b[k])
    ensures forall y :: HasPair(a, y) <==> HasPair(b, y)
    ensures UniquePairs(a) <==> UniquePairs(b)
  {
    forall y ensures HasPair(a, y) <==> HasPair(b, y) {
      if HasPair(a, y) {
        var i :| 0 <= i < |a| && SamePair(a[i], y);
        assert SamePair(b[i], y);
      }
      if HasPair(b, y) {
        var i :| 0 <= i < |b| && SamePair(b[i], y);
        assert SamePair(a[i], y);
      }
    }
  }

  /** Sequences that are permutations of each other have the same pairs. */
  lemma PairsPermuted(a: seq<EdgeDefinition>, b: seq<EdgeDefinition>)
    requires multiset(a) == multiset(b)
    ensures forall y :: HasPair(a, y) <==> HasPair(b, y)
  {
    forall y ensures HasPair(a, y) ==> HasPair(b, y) {
      if HasPair(a, y) {
        var i :| 0 <= i < |a| && SamePair(a[i], y);
        assert a[i] in multiset(b);
        var j :| 0 <= j < |b| && b[j] == a[i];
      }
    }
    forall y ensures HasPair(b, y) ==> HasPair(a, y) {
      if HasPair(b, y) {
        var i :| 0 <= i < |b| && SamePair(b[i], y);
        assert b[i] in multiset(a);
        var j :| 0 <= j < |a| && a[j] == b[i];
      }
    }
  }

  /** "Last wins" keeps definitions whose pairs are already unique. */
  lemma {:induction false} LastWinsUniqueKeeps(s: seq<EdgeDefinition>)
    requires UniquePairs(s)
    ensures LastWins(s) == s
    decreases |s|
  {
    if s != [] {
      var t := s[1..];
      forall k | 0 <= k < |t| ensures !SamePair(t[k], s[0]) {
        assert t[k] == s[k + 1];
      }
      assert UniquePairs(t) by {
        forall i, j | 0 <= i < j < |t| ensures !SamePair(t[i], t[j]) {
          assert t[i] == s[i + 1] && t[j] == s[j + 1];
        }
      }
      LastWinsUniqueKeeps(t);
      assert [s[0]] + t == s;
    }
  }

  /** Parsing the serialized text gives a graph with exactly the pairs of
      the extracted definitions, and, when those pairs are distinct, one
      definition per serialized edge. */
  lemma {:induction false} SerializeParsePairs(g: GraphModel, c: SerializeConfig, pc: Config)
    requires !c.includeComments
    requires forall d :: d in Extracted(g.nodes, g.edges) ==> Writable(d, c.precision, pc)
    ensures SerializeText(g, c).Success?
    ensures var parsed := ParseOutcome(SerializeText(g, c).value, pc).graph.value.edgeDefinitions;
      var defs := Extracted(g.nodes, g.edges);
      && (forall y :: HasPair(parsed, y) <==> HasPair(defs, y))
      && (UniquePairs(defs) ==> |parsed| == |defs|)
  {
    SerializeReadBack(g, c, pc);
    var defs := Extracted(g.nodes, g.edges);
    var written := Written(defs, c);
    var acc := Accepted(SplitLines(SerializeText(g, c).value), pc);
    var parsed := Kept(acc, pc.allowDuplicateEdges);
    PairsAlike(acc, written);
    PairsPermuted(written, defs);
    forall y ensures HasPair(parsed, y) <==> HasPair(acc, y) {
      if pc.allowDuplicateEdges {
        LastWinsPairs(acc, y);
      }
    }
    if UniquePairs(defs) {
      if c.sortEdges {
        SortPairs(defs);
      }
      assert UniquePairs(written);
      if pc.allowDuplicateEdges {
        LastWinsUniqueKeeps(acc);
      }
    }
  }

  // Integer weights.

  /** A positive integer weight is written as its digits and read back exactly. */
  lemma IntegerWeight(w: real, precision: int)
    requires IsInteger(w) && w >= 1.0
    ensures WeightText(w, precision) == Success(NatToString(w.Floor))
    ensures AcceptableWeight(WeightText(w, precision).value)
    ensures TokenValue(w, precision) == w
  {
    var n: nat := w.Floor;
    ParseNatText(n);
  }

  /** A graph whose edges join nodes named by vertex names, with positive
      integer weights, is read back with exactly its pairs and weights, in
      the written order. */
  lemma SerializeIntegerWeights(g: GraphModel, c: SerializeConfig, pc: Config)
    requires !c.includeComments
    requires forall d :: d in Extracted(g.nodes, g.edges) ==>
               && IsVertexName(d.sourceVertex) && IsVertexName(d.targetVertex)
               && (pc.allowSelfLoops || d.sourceVertex != d.targetVertex)
               && IsInteger(d.weight) && d.weight >= 1.0
    ensures SerializeText(g, c).Success?
    ensures var lines := SplitLines(SerializeText(g, c).value);
      var written := Written(Extracted(g.nodes, g.edges), c);
      && LineErrors(lines, pc) == []
      && |Accepted(lines, pc)| == |written|
      && forall k :: 0 <= k < |written| ==>
           SamePair(Accepted(lines, pc)[k], written[k]) && Accepted(lines, pc)[k].weight == written[k].weight
  {
    var defs := Extracted(g.nodes, g.edges);
    forall d | d in defs ensures Writable(d, c.precision, pc) {
      IntegerWeight(d.weight, c.precision);
    }
    SerializeReadBack(g, c, pc);
    var written := Written(defs, c);
    forall k | 0 <= k < |written| ensures TokenValue(written[k].weight, c.precision) == written[k].weight {
      WrittenFrom(defs, c, k);
      IntegerWeight(written[k].weight, c.precision);
    }
  }

  // Parse, build, serialize, parse again.

  /** A graph built from a parse as `parsedGraphToModel` and
      `updateGraphModel` build it: a node labelled with its id for each
      vertex, and the edges of the definitions. */
  ghost predicate BuiltFrom(g: GraphModel, pg: ParsedGraph, clock: Clock) {
    && (forall v :: v in NodeIds(g.nodes) <==> v in pg.vertices)
    && (forall i :: 0 <= i < |g.nodes| ==> g.nodes[i].caption == Some(g.nodes[i].id))
    && g.edges == BuiltEdges(pg.edgeDefinitions, clock)
  }

  /** Definitions with the same pairs have the same endpoints. */
  lemma PairsEndpoints(a: seq<EdgeDefinition>, b: seq<EdgeDefinition>)
    requires forall y :: HasPair(a, y) <==> HasPair(b, y)
    ensures Endpoints(a) == Endpoints(b)
  {
    forall v | v in Endpoints(a) ensures v in Endpoints(b) {
      EndpointsMember(a, v);
      var i :| 0 <= i < |a| && (a[i].sourceVertex == v || a[i].targetVertex == v);
      assert HasPair(a, a[i]);
      var j :| 0 <= j < |b| && SamePair(b[j], a[i]);
      EndpointsMember(b, v);
    }
    forall v | v in Endpoints(b) ensures v in Endpoints(a) {
      EndpointsMember(b, v);
      var i :| 0 <= i < |b| && (b[i].sourceVertex == v || b[i].targetVertex == v);
      assert HasPair(b, b[i]);
      var j :| 0 <= j < |a| && SamePair(a[j], b[i]);
      EndpointsMember(a, v);
    }
  }

  /** A node whose label is its id is written with its id. */
  lemma NameOfBuilt(nodes: seq<Node>, id: NodeId)
    requires id in NodeIds(nodes)
    requires forall i :: 0 <= i < |nodes| ==> nodes[i].caption == Some(nodes[i].id)
    ensures NameOf(nodes, id) == id
  {
    var n := FindNode(nodes, id).value;
    var i :| 0 <= i < |nodes| && nodes[i] == n;
  }

  /** Serializing a built graph writes each definition as it was parsed:
      one per definition, in order, with its names and weight. */
  lemma BuiltExtracted(g: GraphModel, pg: ParsedGraph, clock: Clock)
    requires BuiltFrom(g, pg, clock)
    requires forall d :: d in pg.edgeDefinitions ==>
               d.weight > 0.0 && d.sourceVertex in pg.vertices && d.targetVertex in pg.vertices
    ensures var defs, ex := pg.edgeDefinitions, Extracted(g.nodes, g.edges);
      && |ex| == |defs|
      && forall k :: 0 <= k < |defs| ==> SamePair(ex[k], defs[k]) && ex[k].weight == defs[k].weight
  {
    var defs := pg.edgeDefinitions;
    assert NonNegativeDefinitions(defs) by {
      forall k | 0 <= k < |defs| ensures defs[k].weight >= 0.0 {
        assert defs[k] in defs;
      }
    }
    BuiltEdgesEach(defs, clock);
    var edges := g.edges;
    assert EndsAreNodes(g.nodes, edges) by {
      forall k | 0 <= k < |edges| ensures edges[k].from in NodeIds(g.nodes) && edges[k].to in NodeIds(g.nodes) {
        assert defs[k] in defs;
      }
    }
    ExtractedEach(g.nodes, edges);
    forall k | 0 <= k < |defs|
      ensures SamePair(Extracted(g.nodes, edges)[k], defs[k])
      ensures Extracted(g.nodes, edges)[k].weight == defs[k].weight
    {
      assert defs[k] in defs;
      NameOfBuilt(g.nodes, edges[k].from);
      NameOfBuilt(g.nodes, edges[k].to);
    }
  }

  /** The definitions a parse keeps have the pairs of the accepted ones and
      their endpoints; each of them was accepted. */
  lemma KeptFacts(acc: seq<EdgeDefinition>, dedup: bool)
    ensures forall d :: d in Kept(acc, dedup) ==> d in acc
    ensures forall y :: HasPair(Kept(acc, dedup), y) <==> HasPair(acc, y)
    ensures Endpoints(Kept(acc, dedup)) == Endpoints(acc)
    ensures dedup ==> UniquePairs(Kept(acc, dedup))
  {
    if dedup {
      forall y ensures HasPair(Kept(acc, dedup), y) <==> HasPair(acc, y) {
        LastWinsPairs(acc, y);
      }
      LastWinsEndpoints(acc);
      LastWinsUnique(acc);
    }
  }

  /** The weights are written at `precision` as numbers the parser reads
      as positive. */
  predicate ReadBackPositive(defs: seq<EdgeDefinition>, precision: int) {
    forall d :: d in defs ==>
      WeightText(d.weight, precision).Success? && AcceptableWeight(WeightText(d.weight, precision).value)
  }

  /** Both names of every definition are endpoints. */
  lemma EndsAreEndpoints(ds: seq<EdgeDefinition>)
    ensures forall d :: d in ds ==> d.sourceVertex in Endpoints(ds) && d.targetVertex in Endpoints(ds)
  {
    forall d | d in ds ensures d.sourceVertex in Endpoints(ds) && d.targetVertex in Endpoints(ds) {
      var i :| 0 <= i < |ds| && ds[i] == d;
      EndpointsMember(ds, d.sourceVertex);
      EndpointsMember(ds, d.targetVertex);
    }
  }

  /** A graph built from the definitions kept of accepted lines is
      written as definitions with their pairs, each of them writable. */
  lemma BuiltWritable(acc: seq<EdgeDefinition>, pg: ParsedGraph, pc: Config, g: GraphModel, clock: Clock, precision: int)
    requires pg.edgeDefinitions == Kept(acc, pc.allowDuplicateEdges) && pg.vertices == Endpoints(acc)
    requires forall d :: d in acc ==>
               && IsVertexName(d.sourceVertex) && IsVertexName(d.targetVertex) && d.weight > 0.0
               && (pc.allowSelfLoops || d.sourceVertex != d.targetVertex)
    requires BuiltFrom(g, pg, clock)
    requires ReadBackPositive(pg.edgeDefinitions, precision)
    ensures forall d :: d in Extracted(g.nodes, g.edges) ==> Writable(d, precision, pc)
    ensures forall y :: HasPair(Extracted(g.nodes, g.edges), y) <==> HasPair(pg.edgeDefinitions, y)
    ensures UniquePairs(Extracted(g.nodes, g.edges)) <==> UniquePairs(pg.edgeDefinitions)
    ensures |Extracted(g.nodes, g.edges)| == |pg.edgeDefinitions|
  {
    var defs := pg.edgeDefinitions;
    KeptFacts(acc, pc.allowDuplicateEdges);
    EndsAreEndpoints(defs);
    BuiltExtracted(g, pg, clock);
    var ex := Extracted(g.nodes, g.edges);
    AllWritable(acc, defs, ex, precision, pc);
    PairsAlike(ex, defs);
  }

  /** Definitions with the pairs and weights of accepted ones whose weights
      read back positive are writable. */
  lemma AllWritable(acc: seq<EdgeDefinition>, defs: seq<EdgeDefinition>, ex: seq<EdgeDefinition>, precision: int, pc: Config)
    requires forall d :: d in acc ==>
               && IsVertexName(d.sourceVertex) && IsVertexName(d.targetVertex) && d.weight > 0.0
               && (pc.allowSelfLoops || d.sourceVertex != d.targetVertex)
    requires forall d :: d in defs ==> d in acc
    requires ReadBackPositive(defs, precision)
    requires |ex| == |defs| && forall k :: 0 <= k < |ex| ==> SamePair(ex[k], defs[k]) && ex[k].weight == defs[k].weight
    ensures forall d :: d in ex ==> Writable(d, precision, pc)
  {
    forall d | d in ex ensures Writable(d, precision, pc) {
      var k :| 0 <= k < |ex| && ex[k] == d;
      assert defs[k] in defs;
    }
  }

  /** The graph half of `ReparseBuilt`: the serialized text of a graph built
      from the definitions kept of `acc` reads back without line errors, as
      definitions with the same count, pairs and endpoints. */
  lemma ReparseGraph(acc: seq<EdgeDefinition>, pg: ParsedGraph, pc: Config, g: GraphModel, clock: Clock, c: SerializeConfig)
    requires pg.edgeDefinitions == Kept(acc, pc.allowDuplicateEdges) && pg.vertices == Endpoints(acc)
    requires forall d :: d in acc ==>
               && IsVertexName(d.sourceVertex) && IsVertexName(d.targetVertex) && d.weight > 0.0
               && (pc.allowSelfLoops || d.sourceVertex != d.targetVertex)
    requires BuiltFrom(g, pg, clock)
    requires !c.includeComments && ReadBackPositive(pg.edgeDefinitions, c.precision)
    ensures SerializeText(g, c).Success?
    ensures var acc' := Accepted(SplitLines(SerializeText(g, c).value), pc);
      var defs' := Kept(acc', pc.allowDuplicateEdges);
      && LineErrors(SplitLines(SerializeText(g, c).value), pc) == []
      && |defs'| == |pg.edgeDefinitions|
      && (forall y :: HasPair(defs', y) <==> HasPair(pg.edgeDefinitions, y))
      && Endpoints(acc') == pg.vertices
  {
    BuiltWritable(acc, pg, pc, g, clock, c.precision);
    KeptFacts(acc, pc.allowDuplicateEdges);
    SerializeReadBack(g, c, pc);
    SerializeParsePairs(g, c, pc);
    var acc' := Accepted(SplitLines(SerializeText(g, c).value), pc);
    KeptFacts(acc', pc.allowDuplicateEdges);
    PairsEndpoints(Kept(acc', pc.allowDuplicateEdges), pg.edgeDefinitions);
  }

  /** Parsing text, building a graph from the result, serializing the graph
      without comments and parsing the text again succeeds, with the same
      number of definitions, the same pairs and the same vertices, provided
      every weight is written as a number read back as positive. */
  lemma ReparseBuilt(text: string, pc: Config, pg: ParsedGraph, g: GraphModel, clock: Clock, c: SerializeConfig)
    requires ParseOutcome(text, pc).success && ParseOutcome(text, pc).graph == Some(pg)
    requires BuiltFrom(g, pg, clock)
    requires !c.includeComments && ReadBackPositive(pg.edgeDefinitions, c.precision)
    ensures SerializeText(g, c).Success?
    ensures var again := ParseOutcome(SerializeText(g, c).value, pc);
      && again.success && again.graph.Some?
      && |again.graph.value.edgeDefinitions| == |pg.edgeDefinitions|
      && (forall y :: HasPair(again.graph.value.edgeDefinitions, y) <==> HasPair(pg.edgeDefinitions, y))
      && again.graph.value.vertices == pg.vertices
  {
    var acc := Accepted(SplitLines(text), pc);
    AcceptedFacts(SplitLines(text), pc);
    assert pg.edgeDefinitions == Kept(acc, pc.allowDuplicateEdges) && pg.vertices == Endpoints(acc);
    assert LimitErrors(|pg.vertices|, |pg.edgeDefinitions|, pc) == [];
    ReparseGraph(acc, pg, pc, g, clock, c);
    var text' := SerializeText(g, c).value;
    var acc' := Accepted(SplitLines(text'), pc);
    var defs' := Kept(acc', pc.allowDuplicateEdges);
    assert ParseOutcome(text', pc).graph == Some(ParsedGraph(Endpoints(acc'), defs', Adjacency(defs'), ParseOutcome(text', pc).metadata));
    assert LimitErrors(|Endpoints(acc')|, |defs'|, pc) == [];
  }
}
