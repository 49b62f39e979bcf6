/** `GraphTextParser`: reads the text edge-list format, one
    "source target weight" line per edge. `parseText` reports at most one
    error per line, keeps the last definition of each (source, target) pair,
    collects the vertices and checks the size limits; `validateText` reports
    the per-line errors only. */
module TextParser {
  import opened Wrappers
  import opened Strings
  import opened Collections
  import opened TextFormat

  /** `ValidationError['type']`; `DuplicateEdge` is declared but never produced. */
  datatype ErrorType = FormatError | VertexInvalid | WeightInvalid | DuplicateEdge

  /** Which check refused a line or the text; it stands for the message and
      the suggestion of the error. */
  datatype Rule =
    | BadFormat | BadSource | BadTarget
    | NegativeWeight | NonNumericWeight | BadWeightChars | UnparsableWeight | NonPositiveWeight
    | SelfLoop | TooManyNodes | TooManyEdges

  /** The `type` each refusal is reported with. */
  function KindOf(r: Rule): ErrorType {
    match r
    case BadFormat | TooManyNodes | TooManyEdges => FormatError
    case BadSource | BadTarget | SelfLoop => VertexInvalid
    case _ => WeightInvalid
  }

  /** `ValidationError`; the severity is always 'error'. */
  datatype ValidationError = ValidationError(kind: ErrorType, lineNumber: nat, rule: Rule, columnRange: Option<(nat, nat)>)

  /** `createValidationError` for a refusal. */
  function Refusal(rule: Rule, lineNumber: nat, columnRange: Option<(nat, nat)> := None): (e: ValidationError)
    ensures e.kind == KindOf(rule) && e.rule == rule && e.lineNumber == lineNumber
  {
    ValidationError(KindOf(rule), lineNumber, rule, columnRange)
  }

  /** `EdgeDefinition`. */
  datatype EdgeDefinition = EdgeDefinition(sourceVertex: string, targetVertex: string, weight: real, lineNumber: nat, rawText: string)

  /** What `parseEdgeLine` returns: `{ edge }` or `{ error }`. */
  datatype LineResult = Parsed(edge: EdgeDefinition) | Refused(error: ValidationError)

  /** A weight token the parser accepts: only digits and dots, read by
      `parseFloat` as a positive number. */
  predicate AcceptableWeight(w: string) {
    IsDecimalText(w) && ParseDecimal(w).Some? && ParseDecimal(w).value > 0.0
  }

  /** `parseEdgeLine`: the trimmed line must match `^(\S+)\s+(\S+)\s+(\S+)$`,
      that is, be three white-space separated tokens; the tokens are then
      checked. */
  function ParseEdgeLine(line: string, lineNumber: nat): (r: LineResult)
    ensures r.Parsed? ==> && r.edge.lineNumber == lineNumber && r.edge.rawText == line && r.edge.weight > 0.0
                          && IsVertexName(r.edge.sourceVertex) && IsVertexName(r.edge.targetVertex)
    ensures r.Refused? ==> r.error.lineNumber == lineNumber && r.error.kind == KindOf(r.error.rule)
    ensures r.Refused? ==> r.error.rule !in {SelfLoop, TooManyNodes, TooManyEdges}
  {
    CheckTokens(Words(Trim(line)), line, lineNumber)
  }

  /** The checks of `parseEdgeLine` on the tokens `ws` of `line`: three
      tokens; the source, then the target, must be vertex names; the weight
      is then checked for a leading '-', the words NaN and Infinity,
      characters other than digits and dots, an unreadable number, and a
      value that is not positive, in that order. */
  function CheckTokens(ws: seq<string>, line: string, lineNumber: nat): (r: LineResult)
    ensures r.Parsed? ==> && r.edge.lineNumber == lineNumber && r.edge.rawText == line && r.edge.weight > 0.0
                          && IsVertexName(r.edge.sourceVertex) && IsVertexName(r.edge.targetVertex)
    ensures r.Refused? ==> r.error.lineNumber == lineNumber && r.error.kind == KindOf(r.error.rule)
    ensures r.Refused? ==> r.error.rule !in {SelfLoop, TooManyNodes, TooManyEdges}
  {
    if |ws| != 3 then Refused(Refusal(BadFormat, lineNumber, Some((0, |line|))))
    else if !IsVertexName(ws[0]) then Refused(Refusal(BadSource, lineNumber))
    else if !IsVertexName(ws[1]) then Refused(Refusal(BadTarget, lineNumber))
    else
      var w := ws[2];
      if |w| > 0 && w[0] == '-' then Refused(Refusal(NegativeWeight, lineNumber))
      else if w == "NaN" || w == "Infinity" || w == "-Infinity" then Refused(Refusal(NonNumericWeight, lineNumber))
      else if !IsDecimalText(w) then Refused(Refusal(BadWeightChars, lineNumber))
      else if ParseDecimal(w).None? then Refused(Refusal(UnparsableWeight, lineNumber))
      else if ParseDecimal(w).value <= 0.0 then Refused(Refusal(NonPositiveWeight, lineNumber))
      else Parsed(EdgeDefinition(ws[0], ws[1], ParseDecimal(w).value, lineNumber, line))
  }

  /** The checks accept exactly three tokens whose first two are vertex
      names and whose third is an acceptable weight, and return those tokens. */
  lemma TokensAccepted(ws: seq<string>, line: string, lineNumber: nat)
    ensures var r := CheckTokens(ws, line, lineNumber);
      && (r.Parsed? <==> |ws| == 3 && IsVertexName(ws[0]) && IsVertexName(ws[1]) && AcceptableWeight(ws[2]))
      && (r.Parsed? ==> r.edge == EdgeDefinition(ws[0], ws[1], ParseDecimal(ws[2]).value, lineNumber, line))
  {
    if |ws| == 3 && IsDecimalText(ws[2]) {
      DecimalTextNoWord(ws[2]);
    }
  }

  /** Which check refuses the tokens: their count first, then the source,
      then the target, and only then the weight. */
  lemma TokensRefused(ws: seq<string>, line: string, lineNumber: nat)
    ensures var r := CheckTokens(ws, line, lineNumber);
      && (r.Refused? && r.error.rule == BadFormat <==> |ws| != 3)
      && (r.Refused? && r.error.rule == BadFormat ==> r.error.columnRange == Some((0, |line|)))
      && (r.Refused? && r.error.rule == BadSource <==> |ws| == 3 && !IsVertexName(ws[0]))
      && (r.Refused? && r.error.rule == BadTarget <==> |ws| == 3 && IsVertexName(ws[0]) && !IsVertexName(ws[1]))
      && (r.Refused? && r.error.kind == WeightInvalid ==> |ws| == 3 && IsVertexName(ws[0]) && IsVertexName(ws[1]))
  {
  }

  /** A text of digits and dots starts with neither '-' nor a letter. */
  lemma DecimalTextNoWord(w: string)
    requires IsDecimalText(w)
    ensures w[0] != '-' && w != "NaN" && w != "Infinity" && w != "-Infinity"
  {
    assert IsDigit(w[0]) || w[0] == '.';
    assert "NaN"[0] == 'N' && "Infinity"[0] == 'I' && "-Infinity"[0] == '-';
  }

  // Options.

  /** `ParseOptions`: an absent field is `None`. */
  datatype ParseOptions = ParseOptions(
    allowSelfLoops: Option<bool> := None,
    allowDuplicateEdges: Option<bool> := None,
    strictWhitespace: Option<bool> := None,
    maxNodes: Option<int> := None,
    maxEdges: Option<int> := None)

  /** `Required<ParseOptions>`. */
  datatype Config = Config(allowSelfLoops: bool, allowDuplicateEdges: bool, strictWhitespace: bool, maxNodes: int, maxEdges: int)

  /** `DEFAULT_OPTIONS`. */
  const Defaults: Config := Config(false, true, false, 1000, 1000)

  /** `{ ...DEFAULT_OPTIONS, ...options }`: a field given in the options wins. */
  function Resolve(o: ParseOptions): (c: Config)
    ensures o == ParseOptions() ==> c == Defaults
    ensures o.allowSelfLoops.Some? ==> c.allowSelfLoops == o.allowSelfLoops.value
    ensures o.allowDuplicateEdges.Some? ==> c.allowDuplicateEdges == o.allowDuplicateEdges.value
    ensures o.maxNodes.Some? ==> c.maxNodes == o.maxNodes.value
    ensures o.maxEdges.Some? ==> c.maxEdges == o.maxEdges.value
  {
    Config(o.allowSelfLoops.GetOr(Defaults.allowSelfLoops),
           o.allowDuplicateEdges.GetOr(Defaults.allowDuplicateEdges),
           o.strictWhitespace.GetOr(Defaults.strictWhitespace),
           o.maxNodes.GetOr(Defaults.maxNodes),
           o.maxEdges.GetOr(Defaults.maxEdges))
  }

  // One line of `parseText`.

  /** What the loop of `parseText` does with one line. */
  datatype LineOutcome = Skip | Reject(error: ValidationError) | Accept(edge: EdgeDefinition)

  /** One pass of the loop of `parseText` over the line `raw`, numbered
      `lineNumber`: a blank line is skipped, and any other line is decided
      by what `parseEdgeLine` makes of it. */
  function Classify(raw: string, lineNumber: nat, c: Config): (o: LineOutcome)
    ensures o.Skip? <==> Trim(raw) == []
    ensures o.Accept? ==> && o.edge.lineNumber == lineNumber && o.edge.rawText == Trim(raw)
                          && IsVertexName(o.edge.sourceVertex) && IsVertexName(o.edge.targetVertex)
                          && o.edge.weight > 0.0
                          && (c.allowSelfLoops || o.edge.sourceVertex != o.edge.targetVertex)
    ensures o.Reject? ==> o.error.lineNumber == lineNumber && o.error.kind == KindOf(o.error.rule)
  {
    var line := Trim(raw);
    if line == [] then Skip else Decide(ParseEdgeLine(line, lineNumber), lineNumber, c)
  }

  /** The loop's decision on a parsed line: a refusal is an error, and a
      self-loop is an error unless self-loops are allowed. */
  function Decide(r: LineResult, lineNumber: nat, c: Config): (o: LineOutcome)
    ensures o.Skip? == false
    ensures o.Accept? <==> r.Parsed? && (c.allowSelfLoops || r.edge.sourceVertex != r.edge.targetVertex)
    ensures o.Accept? ==> o.edge == r.edge
    ensures o.Reject? && r.Refused? ==> o.error == r.error
    ensures o.Reject? && r.Parsed? ==> o.error == Refusal(SelfLoop, lineNumber)
  {
    match r
    case Refused(e) => Reject(e)
    case Parsed(d) =>
      if !c.allowSelfLoops && d.sourceVertex == d.targetVertex then Reject(Refusal(SelfLoop, lineNumber))
      else Accept(d)
  }

  function ErrorsOf(o: LineOutcome): seq<ValidationError> {
    if o.Reject? then [o.error] else []
  }

  function EdgesOf(o: LineOutcome): seq<EdgeDefinition> {
    if o.Accept? then [o.edge] else []
  }

  /** The errors the lines report, in line order; line `k` of `lines` has
      number `k + 1`. */
  function LineErrors(lines: seq<string>, c: Config): seq<ValidationError> {
    if lines == [] then []
    else LineErrors(lines[..|lines| - 1], c) + ErrorsOf(Classify(lines[|lines| - 1], |lines|, c))
  }

  /** Every definition the lines yield, in line order, before duplicates are resolved. */
  function Accepted(lines: seq<string>, c: Config): seq<EdgeDefinition> {
    if lines == [] then []
    else Accepted(lines[..|lines| - 1], c) + EdgesOf(Classify(lines[|lines| - 1], |lines|, c))
  }

  /** Every accepted definition joins two vertex names by a positive
      weight, and is no self-loop unless self-loops are allowed. */
  lemma {:induction false} AcceptedFacts(lines: seq<string>, c: Config)
    ensures forall d :: d in Accepted(lines, c) ==>
              && IsVertexName(d.sourceVertex) && IsVertexName(d.targetVertex) && d.weight > 0.0
              && (c.allowSelfLoops || d.sourceVertex != d.targetVertex)
    decreases |lines|
  {
    if lines != [] {
      AcceptedFacts(lines[..|lines| - 1], c);
    }
  }

  // Duplicate definitions.

  /** Two definitions of the same ordered (source, target) pair. */
  predicate SamePair(a: EdgeDefinition, b: EdgeDefinition) {
    a.sourceVertex == b.sourceVertex && a.targetVertex == b.targetVertex
  }

  predicate HasPair(ds: seq<EdgeDefinition>, d: EdgeDefinition) {
    exists i :: 0 <= i < |ds| && SamePair(ds[i], d)
  }

  /** No two definitions of the same pair. */
  predicate UniquePairs(ds: seq<EdgeDefinition>) {
    forall i, j :: 0 <= i < j < |ds| ==> !SamePair(ds[i], ds[j])
  }

  /** The definitions of other pairs than `d`'s, in order. */
  function Without(ds: seq<EdgeDefinition>, d: EdgeDefinition): (r: seq<EdgeDefinition>) {
    if ds == [] then []
    else (if SamePair(ds[0], d) then [] else [ds[0]]) + Without(ds[1..], d)
  }

  /** The reference reading of "last definition wins": a definition is kept
      exactly when no later one has the same pair, and the kept ones stay in
      order. */
  function LastWins(s: seq<EdgeDefinition>): (r: seq<EdgeDefinition>)
    ensures forall x :: x in r ==> x in s
  {
    if s == [] then []
    else (if HasPair(s[1..], s[0]) then [] else [s[0]]) + LastWins(s[1..])
  }

  /** `edgeDefinitions.findIndex(...)` for the pair of `d`, -1 when absent. */
  function FindPair(ds: seq<EdgeDefinition>, d: EdgeDefinition): (i: int)
    ensures -1 <= i < |ds|
    ensures i == -1 <==> !HasPair(ds, d)
    ensures i >= 0 ==> SamePair(ds[i], d) && forall j :: 0 <= j < i ==> !SamePair(ds[j], d)
  {
    if ds == [] then -1
    else if SamePair(ds[0], d) then 0
    else
      var r := FindPair(ds[1..], d);
      assert forall j :: 1 <= j < |ds| ==> ds[j] == ds[1..][j - 1];
      if r < 0 then -1 else r + 1
  }

  lemma HasPairSnoc(t: seq<EdgeDefinition>, e: EdgeDefinition, x: EdgeDefinition)
    ensures HasPair(t + [e], x) <==> HasPair(t, x) || SamePair(e, x)
  {
    var u := t + [e];
    if HasPair(u, x) {
      var i :| 0 <= i < |u| && SamePair(u[i], x);
      if i < |t| {
        assert u[i] == t[i];
      }
    }
    if HasPair(t, x) {
      var i :| 0 <= i < |t| && SamePair(t[i], x);
      assert u[i] == t[i];
    }
    if SamePair(e, x) {
      assert u[|t|] == e;
    }
  }

  lemma {:induction false} WithoutAppend(a: seq<EdgeDefinition>, b: seq<EdgeDefinition>, d: EdgeDefinition)
    ensures Without(a + b, d) == Without(a, d) + Without(b, d)
    decreases |a|
  {
    if a == [] {
      assert a + b == b;
    } else {
      assert (a + b)[0] == a[0] && (a + b)[1..] == a[1..] + b;
      WithoutAppend(a[1..], b, d);
    }
  }

  /** Adding a definition at the end: the new one survives, the earlier
      definition of its pair goes, everything else stays in order. */
  lemma {:induction false} LastWinsSnoc(s: seq<EdgeDefinition>, e: EdgeDefinition)
    ensures LastWins(s + [e]) == Without(LastWins(s), e) + [e]
    decreases |s|
  {
    if s == [] {
      assert !HasPair([], e);
      assert LastWins([e]) == [e] + LastWins([]);
    } else {
      var x, t := s[0], s[1..];
      var u := s + [e];
      assert u[0] == x && u[1..] == t + [e];
      var h0 := if HasPair(t, x) then [] else [x];
      var h1 := if HasPair(t + [e], x) then [] else [x];
      HasPairSnoc(t, e, x);
      assert Without(h0, e) == h1;
      calc {
        LastWins(u);
        h1 + LastWins(t + [e]);
        { LastWinsSnoc(t, e); }
        h1 + (Without(LastWins(t), e) + [e]);
        (Without(h0, e) + Without(LastWins(t), e)) + [e];
        { WithoutAppend(h0, LastWins(t), e); }
        Without(h0 + LastWins(t), e) + [e];
        { assert LastWins(s) == h0 + LastWins(t); }
        Without(LastWins(s), e) + [e];
      }
    }
  }

  /** After "last wins" each pair has one definition. */
  lemma {:induction false} LastWinsUnique(s: seq<EdgeDefinition>)
    ensures UniquePairs(LastWins(s))
    decreases |s|
  {
    if s != [] {
      LastWinsUnique(s[1..]);
      var r := LastWins(s[1..]);
      if !HasPair(s[1..], s[0]) {
        forall j | 0 <= j < |r| ensures !SamePair(s[0], r[j]) {
          assert r[j] in s[1..];
          var i :| 0 <= i < |s[1..]| && s[1..][i] == r[j];
          assert !SamePair(s[1..][i], s[0]);
        }
        var all := [s[0]] + r;
        forall i, j | 0 <= i < j < |all| ensures !SamePair(all[i], all[j]) {
          if i == 0 {
            assert all[j] == r[j - 1];
          } else {
            assert all[i] == r[i - 1] && all[j] == r[j - 1];
          }
        }
      }
    }
  }

  /** "Last wins" loses no pair: each pair defined in `s` still has a definition. */
  lemma {:induction false} LastWinsPairs(s: seq<EdgeDefinition>, d: EdgeDefinition)
    ensures HasPair(LastWins(s), d) <==> HasPair(s, d)
    decreases |s|
  {
    if s != [] {
      var x, t := s[0], s[1..];
      LastWinsPairs(t, d);
      var r := LastWins(t);
      var head := if HasPair(t, x) then [] else [x];
      assert LastWins(s) == head + r;
      assert s == [x] + t;
      HasPairCons(x, t, d);
      HasPairAppend(head, r, d);
      if head == [] && SamePair(x, d) {
        var k :| 0 <= k < |t| && SamePair(t[k], x);
        assert SamePair(t[k], d);
      }
    }
  }

  lemma HasPairCons(x: EdgeDefinition, t: seq<EdgeDefinition>, d: EdgeDefinition)
    ensures HasPair([x] + t, d) <==> SamePair(x, d) || HasPair(t, d)
  {
    var u := [x] + t;
    if HasPair(u, d) {
      var i :| 0 <= i < |u| && SamePair(u[i], d);
      if i > 0 {
        assert u[i] == t[i - 1];
      }
    }
    if HasPair(t, d) {
      var i :| 0 <= i < |t| && SamePair(t[i], d);
      assert u[i + 1] == t[i];
    }
    assert u[0] == x;
  }

  lemma HasPairAppend(a: seq<EdgeDefinition>, b: seq<EdgeDefinition>, d: EdgeDefinition)
    ensures HasPair(a + b, d) <==> HasPair(a, d) || HasPair(b, d)
  {
    var u := a + b;
    if HasPair(u, d) {
      var i :| 0 <= i < |u| && SamePair(u[i], d);
      if i < |a| {
        assert u[i] == a[i];
      } else {
        assert u[i] == b[i - |a|];
      }
    }
    if HasPair(a, d) {
      var i :| 0 <= i < |a| && SamePair(a[i], d);
      assert u[i] == a[i];
    }
    if HasPair(b, d) {
      var i :| 0 <= i < |b| && SamePair(b[i], d);
      assert u[|a| + i] == b[i];
    }
  }

  lemma {:induction false} WithoutNone(ds: seq<EdgeDefinition>, d: EdgeDefinition)
    requires !HasPair(ds, d)
    ensures Without(ds, d) == ds
    decreases |ds|
  {
    if ds != [] {
      HasPairCons(ds[0], ds[1..], d);
      assert [ds[0]] + ds[1..] == ds;
      WithoutNone(ds[1..], d);
    }
  }

  /** With each pair defined once, `splice(findIndex(...), 1)` removes
      exactly the definitions of that pair. */
  lemma SpliceRemovesPair(ds: seq<EdgeDefinition>, d: EdgeDefinition)
    requires UniquePairs(ds)
    ensures var i := FindPair(ds, d);
      (if i >= 0 then ds[..i] + ds[i + 1..] else ds) == Without(ds, d)
  {
    var i := FindPair(ds, d);
    if i >= 0 {
      forall k | 0 <= k < i ensures !SamePair(ds[..i][k], d) {
        assert ds[..i][k] == ds[k];
      }
      LaterNoPair(ds, i, d);
      SpliceAt(ds, i, d);
    } else {
      WithoutNone(ds, d);
    }
  }

  lemma SpliceAt(ds: seq<EdgeDefinition>, i: nat, d: EdgeDefinition)
    requires i < |ds| && SamePair(ds[i], d) && !HasPair(ds[..i], d) && !HasPair(ds[i + 1..], d)
    ensures ds[..i] + ds[i + 1..] == Without(ds, d)
  {
    var a, b := ds[..i], ds[i + 1..];
    var c := [ds[i]] + b;
    assert ds == a + c;
    calc {
      Without(ds, d);
      Without(a + c, d);
      { WithoutAppend(a, c, d); }
      Without(a, d) + Without(c, d);
      { WithoutNone(a, d); }
      a + Without(c, d);
      { assert c[0] == ds[i] && c[1..] == b; }
      a + Without(b, d);
      { WithoutNone(b, d); }
      a + b;
    }
  }

  lemma LaterNoPair(ds: seq<EdgeDefinition>, i: nat, d: EdgeDefinition)
    requires UniquePairs(ds) && i < |ds| && SamePair(ds[i], d)
    ensures !HasPair(ds[i + 1..], d)
  {
    var b := ds[i + 1..];
    forall k | 0 <= k < |b| ensures !SamePair(b[k], d) {
      assert b[k] == ds[i + 1 + k];
      assert !SamePair(ds[i], ds[i + 1 + k]);
    }
  }

  // Vertices and the adjacency map.

  /** The names the definitions mention. */
  function Endpoints(ds: seq<EdgeDefinition>): set<string> {
    if ds == [] then {}
    else Endpoints(ds[..|ds| - 1]) + {ds[|ds| - 1].sourceVertex, ds[|ds| - 1].targetVertex}
  }

  /** A name is an endpoint exactly when some definition mentions it. */
  lemma {:induction false} EndpointsMember(ds: seq<EdgeDefinition>, v: string)
    ensures v in Endpoints(ds) <==> exists i :: 0 <= i < |ds| && (ds[i].sourceVertex == v || ds[i].targetVertex == v)
    decreases |ds|
  {
    if ds != [] {
      var init := ds[..|ds| - 1];
      EndpointsMember(init, v);
      if exists i :: 0 <= i < |init| && (init[i].sourceVertex == v || init[i].targetVertex == v) {
        var i :| 0 <= i < |init| && (init[i].sourceVertex == v || init[i].targetVertex == v);
        assert ds[i] == init[i];
      }
      if exists i :: 0 <= i < |ds| && (ds[i].sourceVertex == v || ds[i].targetVertex == v) {
        var i :| 0 <= i < |ds| && (ds[i].sourceVertex == v || ds[i].targetVertex == v);
        if i < |init| {
          assert ds[i] == init[i];
        }
      }
    }
  }

  /** "Last wins" keeps the vertex set. */
  lemma LastWinsEndpoints(s: seq<EdgeDefinition>)
    ensures Endpoints(LastWins(s)) == Endpoints(s)
  {
    var r := LastWins(s);
    forall v ensures v in Endpoints(r) <==> v in Endpoints(s) {
      EndpointsMember(s, v);
      EndpointsMember(r, v);
      if v in Endpoints(s) {
        var i :| 0 <= i < |s| && (s[i].sourceVertex == v || s[i].targetVertex == v);
        assert HasPair(s, s[i]);
        LastWinsPairs(s, s[i]);
        var k :| 0 <= k < |r| && SamePair(r[k], s[i]);
        assert r[k].sourceVertex == v || r[k].targetVertex == v;
      }
      if v in Endpoints(r) {
        var k :| 0 <= k < |r| && (r[k].sourceVertex == v || r[k].targetVertex == v);
        assert r[k] in s;
        var i :| 0 <= i < |s| && s[i] == r[k];
      }
    }
  }

  /** The names `v` is joined to, one per definition end at `v`, in order. */
  function AdjList(ds: seq<EdgeDefinition>, v: string): (r: seq<string>) {
    if ds == [] then []
    else
      var d := ds[|ds| - 1];
      AdjList(ds[..|ds| - 1], v) + (if d.sourceVertex == v then [d.targetVertex] else [])
                                 + (if d.targetVertex == v then [d.sourceVertex] else [])
  }

  /** The adjacency lists are symmetric: `b` is listed for `a` exactly when
      `a` is listed for `b`. */
  lemma {:induction false} AdjListSymmetric(ds: seq<EdgeDefinition>, a: string, b: string)
    ensures b in AdjList(ds, a) <==> a in AdjList(ds, b)
    decreases |ds|
  {
    if ds != [] {
      AdjListSymmetric(ds[..|ds| - 1], a, b);
    }
  }

  /** Only endpoints have non-empty lists. */
  lemma {:induction false} AdjListEndpoints(ds: seq<EdgeDefinition>, v: string)
    requires v !in Endpoints(ds)
    ensures AdjList(ds, v) == []
    decreases |ds|
  {
    if ds != [] {
      AdjListEndpoints(ds[..|ds| - 1], v);
    }
  }

  function Lookup(m: map<string, seq<string>>, k: string): seq<string> {
    if k in m then m[k] else []
  }

  /** The map `buildAdjacencyMap` fills: for each definition in turn, the
      source's list gets the target, then the target's list gets the source. */
  function Adjacency(ds: seq<EdgeDefinition>): map<string, seq<string>> {
    if ds == [] then map[]
    else
      var a := Adjacency(ds[..|ds| - 1]);
      var d := ds[|ds| - 1];
      var a1 := a[d.sourceVertex := Lookup(a, d.sourceVertex) + [d.targetVertex]];
      a1[d.targetVertex := Lookup(a1, d.targetVertex) + [d.sourceVertex]]
  }

  /** The keys of the adjacency map are the endpoints, and each key's list
      is the names it is joined to, in definition order. */
  lemma {:induction false} AdjacencySpec(ds: seq<EdgeDefinition>)
    ensures Adjacency(ds).Keys == Endpoints(ds)
    ensures forall v :: v in Adjacency(ds) ==> Adjacency(ds)[v] == AdjList(ds, v)
    decreases |ds|
  {
    if ds != [] {
      var init := ds[..|ds| - 1];
      AdjacencySpec(init);
      var a := Adjacency(init);
      forall v | v in Adjacency(ds) ensures Adjacency(ds)[v] == AdjList(ds, v) {
        if v !in a {
          AdjListEndpoints(init, v);
        }
      }
    }
  }

  /** The total length of the lists of the names in `vs`. */
  function ListTotal(ds: seq<EdgeDefinition>, vs: seq<string>): nat {
    if vs == [] then 0 else ListTotal(ds, vs[..|vs| - 1]) + |AdjList(ds, vs[|vs| - 1])|
  }

  /** How often `x` occurs in `vs`. */
  function Occurrences(vs: seq<string>, x: string): nat {
    if vs == [] then 0 else Occurrences(vs[..|vs| - 1], x) + (if vs[|vs| - 1] == x then 1 else 0)
  }

  lemma {:induction false} OccursOnce(vs: seq<string>, x: string)
    requires NoDup(vs) && x in vs
    ensures Occurrences(vs, x) == 1
    decreases |vs|
  {
    var init := vs[..|vs| - 1];
    assert forall i, j :: 0 <= i < j < |init| ==> init[i] == vs[i] && init[j] == vs[j];
    if vs[|vs| - 1] == x {
      forall i | 0 <= i < |init| ensures init[i] != x {
        assert vs[i] != vs[|vs| - 1];
      }
      OccursNot(init, x);
    } else {
      assert x in init;
      OccursOnce(init, x);
    }
  }

  lemma {:induction false} OccursNot(vs: seq<string>, x: string)
    requires x !in vs
    ensures Occurrences(vs, x) == 0
    decreases |vs|
  {
    if vs != [] {
      assert vs[..|vs| - 1] <= vs;
      OccursNot(vs[..|vs| - 1], x);
    }
  }

  /** One more definition lengthens the list of its source and the list of
      its target by one each. */
  lemma {:induction false} ListTotalSnoc(ds: seq<EdgeDefinition>, vs: seq<string>)
    requires ds != []
    ensures var d := ds[|ds| - 1];
      ListTotal(ds, vs) == ListTotal(ds[..|ds| - 1], vs) + Occurrences(vs, d.sourceVertex) + Occurrences(vs, d.targetVertex)
    decreases |vs|
  {
    if vs != [] {
      ListTotalSnoc(ds, vs[..|vs| - 1]);
    }
  }

  /** Every definition puts one name in two lists, so the lists of all the
      endpoints together hold twice as many names as there are definitions. */
  lemma {:induction false} AdjListTotal(ds: seq<EdgeDefinition>, vs: seq<string>)
    requires NoDup(vs) && forall v :: v in Endpoints(ds) ==> v in vs
    ensures ListTotal(ds, vs) == 2 * |ds|
    decreases |ds|
  {
    if ds == [] {
      ListTotalEmpty(vs);
    } else {
      var d := ds[|ds| - 1];
      ListTotalSnoc(ds, vs);
      AdjListTotal(ds[..|ds| - 1], vs);
      OccursOnce(vs, d.sourceVertex);
      OccursOnce(vs, d.targetVertex);
    }
  }

  lemma {:induction false} ListTotalEmpty(vs: seq<string>)
    ensures ListTotal([], vs) == 0
    decreases |vs|
  {
    if vs != [] {
      ListTotalEmpty(vs[..|vs| - 1]);
    }
  }

  /** `buildAdjacencyMap`. */
  method BuildAdjacencyMap(defs: seq<EdgeDefinition>) returns (adj: map<string, seq<string>>)
    ensures adj == Adjacency(defs)
  {
    adj := map[];
    for k := 0 to |defs|
      invariant adj == Adjacency(defs[..k])
    {
      var e := defs[k];
      assert defs[..k + 1][..k] == defs[..k];
      if e.sourceVertex !in adj {
        adj := adj[e.sourceVertex := []];
      }
      adj := adj[e.sourceVertex := adj[e.sourceVertex] + [e.targetVertex]];
      if e.targetVertex !in adj {
        adj := adj[e.targetVertex := []];
      }
      adj := adj[e.targetVertex := adj[e.targetVertex] + [e.sourceVertex]];
    }
    assert defs[..|defs|] == defs;
  }

  // The whole text.

  /** The size-limit errors, reported on line 0. */
  function LimitErrors(vertexCount: nat, edgeCount: nat, c: Config): (es: seq<ValidationError>)
    ensures forall k :: 0 <= k < |es| ==> es[k].lineNumber == 0 && es[k].kind == FormatError
    ensures (Refusal(TooManyNodes, 0) in es <==> vertexCount > c.maxNodes)
    ensures (Refusal(TooManyEdges, 0) in es <==> edgeCount > c.maxEdges)
    ensures es == [] <==> vertexCount <= c.maxNodes && edgeCount <= c.maxEdges
  {
    (if vertexCount > c.maxNodes then [Refusal(TooManyNodes, 0)] else [])
    + (if edgeCount > c.maxEdges then [Refusal(TooManyEdges, 0)] else [])
  }

  /** `ParseMetadata` without the parse time. */
  datatype ParseMetadata = ParseMetadata(vertexCount: nat, edgeCount: nat, errorCount: nat, isIncremental: bool)

  /** `ParsedGraph`. */
  datatype ParsedGraph = ParsedGraph(
    vertices: set<string>,
    edgeDefinitions: seq<EdgeDefinition>,
    adjacencyMap: map<string, seq<string>>,
    metadata: ParseMetadata)

  /** `ParseResult`; the graph is always present. */
  datatype ParseResult = ParseResult(success: bool, graph: Option<ParsedGraph>, errors: seq<ValidationError>, metadata: ParseMetadata)

  /** The definitions `parseText` keeps of the accepted ones. */
  function Kept(acc: seq<EdgeDefinition>, dedup: bool): seq<EdgeDefinition> {
    if dedup then LastWins(acc) else acc
  }

  /** What `parseText` returns for `text` under `c`: the line errors followed
      by the limit errors, the kept definitions, the vertices of every
      accepted line, and the counts. */
  function ParseOutcome(text: string, c: Config): ParseResult {
    var lines := SplitLines(text);
    var acc := Accepted(lines, c);
    var defs := Kept(acc, c.allowDuplicateEdges);
    var vs := Endpoints(acc);
    var errors := LineErrors(lines, c) + LimitErrors(|vs|, |defs|, c);
    var md := ParseMetadata(|vs|, |defs|, |errors|, false);
    ParseResult(errors == [], Some(ParsedGraph(vs, defs, Adjacency(defs), md)), errors, md)
  }

  /** The definitions after one more line of the loop. */
  function Admit(defs: seq<EdgeDefinition>, o: LineOutcome, dedup: bool): seq<EdgeDefinition> {
    if o.Accept? then (if dedup then Without(defs, o.edge) else defs) + [o.edge] else defs
  }

  /** One pass of the loop of `parseText`. */
  method ScanLine(raw: string, lineNumber: nat, c: Config,
                  errors: seq<ValidationError>, defs: seq<EdgeDefinition>, vertices: set<string>)
    returns (errors': seq<ValidationError>, defs': seq<EdgeDefinition>, vertices': set<string>)
    requires c.allowDuplicateEdges ==> UniquePairs(defs)
    ensures var o := Classify(raw, lineNumber, c);
      && errors' == errors + ErrorsOf(o)
      && defs' == Admit(defs, o, c.allowDuplicateEdges)
      && vertices' == vertices + Endpoints(EdgesOf(o))
  {
    var line := Trim(raw);
    if line == [] {
      errors', defs', vertices' := errors, defs, vertices;
      assert errors + [] == errors && Endpoints([]) == {};
      return;
    }
    var result := ParseEdgeLine(line, lineNumber);
    errors', defs', vertices' := Record(result, lineNumber, c, errors, defs, vertices);
  }

  /** The rest of one pass, once `parseEdgeLine` has read the line. */
  method Record(result: LineResult, lineNumber: nat, c: Config,
                errors: seq<ValidationError>, defs: seq<EdgeDefinition>, vertices: set<string>)
    returns (errors': seq<ValidationError>, defs': seq<EdgeDefinition>, vertices': set<string>)
    requires c.allowDuplicateEdges ==> UniquePairs(defs)
    ensures var o := Decide(result, lineNumber, c);
      && errors' == errors + ErrorsOf(o)
      && defs' == Admit(defs, o, c.allowDuplicateEdges)
      && vertices' == vertices + Endpoints(EdgesOf(o))
  {
    errors', defs', vertices' := errors, defs, vertices;
    if result.Refused? {
      errors' := errors + [result.error];
      return;
    }
    var edge := result.edge;
    if !c.allowSelfLoops && edge.sourceVertex == edge.targetVertex {
      errors' := errors + [Refusal(SelfLoop, lineNumber)];
      return;
    }
    vertices' := vertices + {edge.sourceVertex} + {edge.targetVertex};
    defs' := Store(defs, edge, c.allowDuplicateEdges);
    assert Endpoints([edge]) == {edge.sourceVertex, edge.targetVertex};
  }

  /** Storing an accepted definition: with duplicates allowed, the earlier
      definition of its pair is spliced out first. */
  method Store(defs: seq<EdgeDefinition>, edge: EdgeDefinition, dedup: bool) returns (defs': seq<EdgeDefinition>)
    requires dedup ==> UniquePairs(defs)
    ensures defs' == (if dedup then Without(defs, edge) else defs) + [edge]
  {
    defs' := defs;
    if dedup {
      var existing := FindPair(defs, edge);
      if existing >= 0 {
        defs' := defs[..existing] + defs[existing + 1..];
      }
      SpliceRemovesPair(defs, edge);
    }
    defs' := defs' + [edge];
  }

  lemma LinesStep(lines: seq<string>, i: nat, c: Config)
    requires i < |lines|
    ensures var o := Classify(lines[i], i + 1, c);
      && LineErrors(lines[..i + 1], c) == LineErrors(lines[..i], c) + ErrorsOf(o)
      && Accepted(lines[..i + 1], c) == Accepted(lines[..i], c) + EdgesOf(o)
  {
    var init := lines[..i + 1];
    assert init[..i] == lines[..i] && init[i] == lines[i];
    var o := Classify(lines[i], i + 1, c);
    assert LineErrors(init, c) == LineErrors(lines[..i], c) + ErrorsOf(o);
    assert Accepted(init, c) == Accepted(lines[..i], c) + EdgesOf(o);
  }

  lemma KeptStep(acc: seq<EdgeDefinition>, o: LineOutcome, dedup: bool)
    ensures Kept(acc + EdgesOf(o), dedup) == Admit(Kept(acc, dedup), o, dedup)
    ensures Endpoints(acc + EdgesOf(o)) == Endpoints(acc) + Endpoints(EdgesOf(o))
  {
    if o.Accept? {
      if dedup {
        LastWinsSnoc(acc, o.edge);
      }
      assert (acc + [o.edge])[..|acc|] == acc;
    } else {
      assert acc + [] == acc;
    }
  }

  /** The loop of `parseText` over all lines. */
  method ScanLines(lines: seq<string>, c: Config)
    returns (errors: seq<ValidationError>, defs: seq<EdgeDefinition>, vertices: set<string>)
    ensures errors == LineErrors(lines, c)
    ensures defs == Kept(Accepted(lines, c), c.allowDuplicateEdges)
    ensures vertices == Endpoints(Accepted(lines, c))
  {
    errors, defs, vertices := [], [], {};
    for i := 0 to |lines|
      invariant errors == LineErrors(lines[..i], c)
      invariant defs == Kept(Accepted(lines[..i], c), c.allowDuplicateEdges)
      invariant vertices == Endpoints(Accepted(lines[..i], c))
    {
      var acc := Accepted(lines[..i], c);
      LastWinsUnique(acc);
      LinesStep(lines, i, c);
      KeptStep(acc, Classify(lines[i], i + 1, c), c.allowDuplicateEdges);
      errors, defs, vertices := ScanLine(lines[i], i + 1, c, errors, defs, vertices);
    }
    assert lines[..|lines|] == lines;
  }

  /** `parseText`; the parse time and the catch path are not modelled. */
  method ParseText(text: string, options: ParseOptions) returns (r: ParseResult)
    ensures r == ParseOutcome(text, Resolve(options))
  {
    var c := Resolve(options);
    var lines := SplitLines(text);
    var errors, defs, vertices := ScanLines(lines, c);
    errors := CheckLimits(errors, |vertices|, |defs|, c);
    var metadata := ParseMetadata(|vertices|, |defs|, |errors|, false);
    var adjacency := BuildAdjacencyMap(defs);
    r := ParseResult(|errors| == 0, Some(ParsedGraph(vertices, defs, adjacency, metadata)), errors, metadata);
  }

  /** The two limit checks of `parseText`. */
  method CheckLimits(errors: seq<ValidationError>, vertexCount: nat, edgeCount: nat, c: Config)
    returns (errors': seq<ValidationError>)
    ensures errors' == errors + LimitErrors(vertexCount, edgeCount, c)
  {
    errors' := errors;
    if vertexCount > c.maxNodes {
      errors' := errors' + [Refusal(TooManyNodes, 0)];
    }
    if edgeCount > c.maxEdges {
      errors' := errors' + [Refusal(TooManyEdges, 0)];
    }
  }

  /** `incrementalParse`: a full parse with the default options whose
      top-level metadata is marked incremental; the graph's own metadata
      record is a different object and stays unmarked. */
  method IncrementalParse(previous: ParseResult, newText: string) returns (r: ParseResult)
    ensures var full := ParseOutcome(newText, Defaults);
      r == full.(metadata := full.metadata.(isIncremental := true))
    ensures r.metadata.isIncremental && !r.graph.value.metadata.isIncremental
  {
    var result := ParseText(newText, ParseOptions());
    r := result.(metadata := result.metadata.(isIncremental := true));
  }

  /** The error `validateText` reports for one line: the refusal of
      `parseEdgeLine`, with no self-loop check. */
  function Refusals(raw: string, lineNumber: nat): seq<ValidationError> {
    var line := Trim(raw);
    if line == [] then [] else
      var r := ParseEdgeLine(line, lineNumber);
      if r.Refused? then [r.error] else []
  }

  /** The errors `validateText` reports for the lines, in line order. */
  function ValidateErrors(lines: seq<string>): seq<ValidationError> {
    if lines == [] then []
    else ValidateErrors(lines[..|lines| - 1]) + Refusals(lines[|lines| - 1], |lines|)
  }

  /** `validateText`. */
  method ValidateText(text: string) returns (errors: seq<ValidationError>)
    ensures errors == ValidateErrors(SplitLines(text))
  {
    errors := [];
    var lines := SplitLines(text);
    for i := 0 to |lines|
      invariant errors == ValidateErrors(lines[..i])
    {
      assert lines[..i + 1][..i] == lines[..i];
      var found := ValidateLine(lines[i], i + 1);
      errors := errors + found;
    }
    assert lines[..|lines|] == lines;
  }

  /** One pass of the loop of `validateText`. */
  method ValidateLine(raw: string, lineNumber: nat) returns (found: seq<ValidationError>)
    ensures found == Refusals(raw, lineNumber)
  {
    found := [];
    var line := Trim(raw);
    if line != [] {
      var result := ParseEdgeLine(line, lineNumber);
      if result.Refused? {
        found := [result.error];
      }
    }
  }

  /** The errors that are not self-loop refusals, in order. */
  function WithoutSelfLoops(es: seq<ValidationError>): seq<ValidationError> {
    if es == [] then []
    else WithoutSelfLoops(es[..|es| - 1]) + (if es[|es| - 1].rule == SelfLoop then [] else [es[|es| - 1]])
  }

  /** On one line, `validateText` reports what `parseText` reports unless
      that is a self-loop refusal. */
  lemma RefusalsOfLine(raw: string, lineNumber: nat, c: Config)
    ensures Refusals(raw, lineNumber) == WithoutSelfLoops(ErrorsOf(Classify(raw, lineNumber, c)))
  {
    var line := Trim(raw);
    if line != [] {
      var r := ParseEdgeLine(line, lineNumber);
      var o := Decide(r, lineNumber, c);
      assert Classify(raw, lineNumber, c) == o;
      if o.Reject? {
        assert WithoutSelfLoops([o.error]) == WithoutSelfLoops([]) + (if o.error.rule == SelfLoop then [] else [o.error]);
      }
    }
  }

  lemma WithoutSelfLoopsAppend(a: seq<ValidationError>, b: seq<ValidationError>)
    requires |b| <= 1
    ensures WithoutSelfLoops(a + b) == WithoutSelfLoops(a) + WithoutSelfLoops(b)
  {
    if b == [] {
      assert a + b == a;
    } else {
      assert (a + b)[..|a + b| - 1] == a;
      assert WithoutSelfLoops(b) == WithoutSelfLoops([]) + (if b[0].rule == SelfLoop then [] else [b[0]]);
    }
  }

  /** `validateText` reports the line errors of `parseText` except the
      self-loop ones, whatever the options. */
  lemma {:induction false} ValidateMatchesParse(lines: seq<string>, c: Config)
    ensures ValidateErrors(lines) == WithoutSelfLoops(LineErrors(lines, c))
    decreases |lines|
  {
    if lines != [] {
      var init, last := lines[..|lines| - 1], lines[|lines| - 1];
      ValidateMatchesParse(init, c);
      RefusalsOfLine(last, |lines|, c);
      WithoutSelfLoopsAppend(LineErrors(init, c), ErrorsOf(Classify(last, |lines|, c)));
    }
  }

  /** Text that `parseText` accepts is valid for `validateText` too. */
  lemma ParsedTextIsValid(text: string, c: Config)
    requires ParseOutcome(text, c).success
    ensures ValidateErrors(SplitLines(text)) == []
  {
    var lines := SplitLines(text);
    ValidateMatchesParse(lines, c);
    assert LineErrors(lines, c) == [];
  }

  /** `GraphTextRepresentation` without `lastModified`. */
  datatype GraphTextRepresentation = GraphTextRepresentation(content: string, lines: seq<string>, isValid: bool, errors: seq<ValidationError>)

  /** `createGraphTextRepresentation`. */
  method CreateGraphTextRepresentation(content: string) returns (rep: GraphTextRepresentation)
    ensures rep.content == content && rep.lines == SplitLines(content)
    ensures rep.errors == ValidateErrors(SplitLines(content))
    ensures rep.isValid <==> rep.errors == []
  {
    var lines := SplitLines(content);
    var validation := ValidateText(content);
    rep := GraphTextRepresentation(content, lines, |validation| == 0, validation);
  }
}
