/** Queries the canvas makes of a step: is an edge highlighted, how should it
    be drawn, has it been visited. Edges are matched in either orientation. */
module StepHelpers {
  import opened Wrappers
  import opened Graph
  import opened Steps

  /** The pair (a, b) is the edge between `from` and `to`, in either orientation. */
  predicate Joins(a: NodeId, b: NodeId, from: NodeId, to: NodeId) {
    (a == from && b == to) || (a == to && b == from)
  }

  /** `ps.some(...)` with the orientation-blind match. */
  function AnyPointer(ps: seq<EdgePointer>, from: NodeId, to: NodeId): (r: bool)
    ensures r <==> exists i :: 0 <= i < |ps| && Joins(ps[i].from, ps[i].to, from, to)
  {
    if ps == [] then false
    else AnyPointer(ps[..|ps| - 1], from, to) || Joins(ps[|ps| - 1].from, ps[|ps| - 1].to, from, to)
  }

  /** `es[i]` is the first edge of `es` that joins `from` and `to`. */
  predicate FirstJoin(es: seq<HighlightEdge>, i: int, from: NodeId, to: NodeId) {
    && 0 <= i < |es| && Joins(es[i].from, es[i].to, from, to)
    && forall j :: 0 <= j < i ==> !Joins(es[j].from, es[j].to, from, to)
  }

  /** `es.find(...)` with the orientation-blind match: the first edge that
      joins `from` and `to`. */
  function FindJoining(es: seq<HighlightEdge>, from: NodeId, to: NodeId): (r: Option<HighlightEdge>)
    ensures r.None? <==> forall i :: 0 <= i < |es| ==> !Joins(es[i].from, es[i].to, from, to)
    ensures r.Some? ==> exists i :: 0 <= i < |es| && es[i] == r.value && Joins(es[i].from, es[i].to, from, to)
                                    && forall j :: 0 <= j < i ==> !Joins(es[j].from, es[j].to, from, to)
    ensures forall i :: FirstJoin(es, i, from, to) ==> r == Some(es[i])
  {
    if es == [] then None
    else if Joins(es[0].from, es[0].to, from, to) then Some(es[0])
    else
      var r := FindJoining(es[1..], from, to);
      assert forall i :: 1 <= i < |es| ==> es[i] == es[1..][i - 1];
      r
  }

  /** Some edge of `es` joins `from` and `to`. */
  ghost predicate AnyJoining(es: seq<HighlightEdge>, from: NodeId, to: NodeId) {
    exists i :: 0 <= i < |es| && Joins(es[i].from, es[i].to, from, to)
  }

  /** `list || []` for an optional list. */
  function OrEmpty(s: Option<seq<HighlightEdge>>): seq<HighlightEdge> {
    if s.Some? then s.value else []
  }

  /** `isEdgeHighlighted`: the plain list is searched as it is; the grouped
      form is searched as `edges`, then `oldPath`, then `newPath`. */
  function IsEdgeHighlighted(step: Option<Step>, from: NodeId, to: NodeId): (r: bool)
    ensures step.None? || step.value.highlightEdges.None? ==> !r
  {
    if step.None? || step.value.highlightEdges.None? then false
    else
      match step.value.highlightEdges.value
      case EdgeList(ps) => AnyPointer(ps, from, to)
      case PathGroups(edges, oldPath, newPath) =>
        FindJoining(OrEmpty(edges) + OrEmpty(oldPath) + OrEmpty(newPath), from, to).Some?
  }

  /** The grouped form highlights exactly the edges of its three lists. */
  lemma HighlightedUnion(step: Step, from: NodeId, to: NodeId)
    requires step.highlightEdges.Some? && step.highlightEdges.value.PathGroups?
    ensures var h := step.highlightEdges.value;
      IsEdgeHighlighted(Some(step), from, to)
      <==> AnyJoining(OrEmpty(h.edges), from, to) || AnyJoining(OrEmpty(h.oldPath), from, to)
           || AnyJoining(OrEmpty(h.newPath), from, to)
  {
    var h := step.highlightEdges.value;
    var e, o, n := OrEmpty(h.edges), OrEmpty(h.oldPath), OrEmpty(h.newPath);
    var all := e + o + n;
    if FindJoining(all, from, to).Some? {
      var i :| 0 <= i < |all| && Joins(all[i].from, all[i].to, from, to);
      if i < |e| {
        assert all[i] == e[i];
      } else if i < |e| + |o| {
        assert all[i] == o[i - |e|];
      } else {
        assert all[i] == n[i - |e| - |o|];
      }
    } else {
      forall i | 0 <= i < |e| ensures !Joins(e[i].from, e[i].to, from, to) {
        assert all[i] == e[i];
      }
      forall i | 0 <= i < |o| ensures !Joins(o[i].from, o[i].to, from, to) {
        assert all[|e| + i] == o[i];
      }
      forall i | 0 <= i < |n| ensures !Joins(n[i].from, n[i].to, from, to) {
        assert all[|e| + |o| + i] == n[i];
      }
    }
  }

  /** Swapping the two ends does not change the answer. */
  lemma HighlightedSymmetric(step: Option<Step>, a: NodeId, b: NodeId)
    ensures IsEdgeHighlighted(step, a, b) == IsEdgeHighlighted(step, b, a)
  {
    if step.Some? && step.value.highlightEdges.Some? && step.value.highlightEdges.value.PathGroups? {
      HighlightedUnion(step.value, a, b);
      HighlightedUnion(step.value, b, a);
    }
  }

  /** What `getEdgeHighlightInfo` returns; an absent key is `None`. */
  datatype HighlightInfo = HighlightInfo(
    isHighlighted: bool,
    style: Option<string> := None,
    color: Option<string> := None,
    isOldPath: Option<bool> := None,
    isNewPath: Option<bool> := None)

  /** `style || fallback`: an absent or empty style gives way to the fallback. */
  function StyleOr(style: Option<string>, fallback: string): (r: string)
    ensures style.Some? && style.value != [] ==> r == style.value
    ensures style.None? || style.value == [] ==> r == fallback
  {
    if style.Some? && style.value != [] then style.value else fallback
  }

  /** `getEdgeHighlightInfo`: the old path is looked at first, then the new
      path, then the general edges; a plain list only answers whether the
      edge is there. */
  function GetEdgeHighlightInfo(step: Option<Step>, from: NodeId, to: NodeId): (info: HighlightInfo)
    ensures info.isHighlighted == IsEdgeHighlighted(step, from, to)
    ensures !info.isHighlighted ==> info == HighlightInfo(false)
    ensures info.isOldPath.Some? ==> info.isOldPath == Some(true) && info.isNewPath.None?
    ensures info.isNewPath.Some? ==> info.isNewPath == Some(true)
    ensures step.Some? && step.value.highlightEdges.Some? && step.value.highlightEdges.value.EdgeList? ==>
              info.style.None? && info.color.None? && info.isOldPath.None? && info.isNewPath.None?
    ensures step.Some? && step.value.highlightEdges.Some? && step.value.highlightEdges.value.PathGroups? ==>
              var h := step.value.highlightEdges.value;
              && (AnyJoining(OrEmpty(h.oldPath), from, to) <==> info.isOldPath == Some(true))
              && (info.isNewPath == Some(true) <==>
                    !AnyJoining(OrEmpty(h.oldPath), from, to) && AnyJoining(OrEmpty(h.newPath), from, to))
              && (info.isOldPath.Some? || info.isNewPath.Some? ==> info.style.Some? && info.style.value != [])
    ensures step.Some? && step.value.highlightEdges.Some? && step.value.highlightEdges.value.PathGroups? ==>
              var h := step.value.highlightEdges.value;
              var o, n, e := OrEmpty(h.oldPath), OrEmpty(h.newPath), OrEmpty(h.edges);
              && (forall i :: FirstJoin(o, i, from, to) ==>
                    info == HighlightInfo(true, Some(StyleOr(o[i].style, "path-old")), o[i].color, isOldPath := Some(true)))
              && (forall i :: !AnyJoining(o, from, to) && FirstJoin(n, i, from, to) ==>
                    info == HighlightInfo(true, Some(StyleOr(n[i].style, "path-new")), n[i].color, isNewPath := Some(true)))
              && (forall i :: !AnyJoining(o, from, to) && !AnyJoining(n, from, to) && FirstJoin(e, i, from, to) ==>
                    info == HighlightInfo(true, e[i].style, e[i].color))
  {
    if step.None? || step.value.highlightEdges.None? then HighlightInfo(false)
    else
      match step.value.highlightEdges.value
      case EdgeList(ps) => HighlightInfo(AnyPointer(ps, from, to))
      case PathGroups(edges, oldPath, newPath) =>
        HighlightedUnion(step.value, from, to);
        var o := FindJoining(OrEmpty(oldPath), from, to);
        var n := FindJoining(OrEmpty(newPath), from, to);
        var e := FindJoining(OrEmpty(edges), from, to);
        if o.Some? then
          HighlightInfo(true, Some(StyleOr(o.value.style, "path-old")), o.value.color, isOldPath := Some(true))
        else if n.Some? then
          HighlightInfo(true, Some(StyleOr(n.value.style, "path-new")), n.value.color, isNewPath := Some(true))
        else if e.Some? then
          HighlightInfo(true, e.value.style, e.value.color)
        else
          HighlightInfo(false)
  }

  /** `isEdgeVisited`: the step's visited edges, matched in either orientation. */
  function IsEdgeVisited(step: Option<Step>, from: NodeId, to: NodeId): (r: bool)
    ensures r <==> step.Some? && step.value.visitedEdges.Some?
                   && exists i :: 0 <= i < |step.value.visitedEdges.value| &&
                        Joins(step.value.visitedEdges.value[i].from, step.value.visitedEdges.value[i].to, from, to)
  {
    step.Some? && step.value.visitedEdges.Some? && AnyPointer(step.value.visitedEdges.value, from, to)
  }

  lemma VisitedSymmetric(step: Option<Step>, a: NodeId, b: NodeId)
    ensures IsEdgeVisited(step, a, b) == IsEdgeVisited(step, b, a)
  {
  }
}
