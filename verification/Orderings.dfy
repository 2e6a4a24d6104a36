/**
  Measures taken from scratch: the cut of a set, the validity of a path or an
  ordering, and the cutwidth of an ordering.
 */
module Orderings {
  import opened Options
  import opened Graphs
  import opened Feasibility

  /** Vertices of the prefix, or None if the path is not duplicate-free within the graph. */
  method CollectPrefix(g: Graph, path: seq<Vertex>) returns (r: Option<set<Vertex>>)
    ensures r.Some? <==> IsPath(g, path)
    ensures r.Some? ==> r.value == Elems(path)
  {
    var prefix: set<Vertex> := {};
    for i := 0 to |path|
      invariant IsPath(g, path[..i]) && prefix == Elems(path[..i])
    {
      assert path[..i + 1] == path[..i] + [path[i]];
      if path[i] >= Size(g) || path[i] in prefix {
        assert IsPath(g, path) ==> path[i] in Elems(path);
        return None;
      }
      ExtendPath(g, path[..i], path[i]);
      prefix := prefix + {path[i]};
    }
    assert path[..|path|] == path;
    return Some(prefix);
  }

  /** The edges that leave S, counted vertex by vertex. */
  method CutOf(g: Graph, S: set<Vertex>) returns (cut: nat)
    requires S <= Vertices(g)
    ensures cut == Cut(g, S)
  {
    cut := 0;
    assert OutgoingBelow(g, S, 0) == {};
    for v := 0 to Size(g)
      invariant cut == |OutgoingBelow(g, S, v)|
    {
      OutgoingStep(g, S, v);
      if v !in S {
        continue;
      }
      cut := cut + |Neighbours(g, v) - S|;
    }
    assert OutgoingBelow(g, S, Size(g)) == Boundary(g, S);
  }

  ghost function OutgoingBelow(g: Graph, S: set<Vertex>, n: nat): set<(Vertex, Vertex)> {
    set e | e in Boundary(g, S) && e.0 < n
  }

  lemma OutgoingSplit(g: Graph, S: set<Vertex>, v: Vertex)
    requires v in S
    ensures OutgoingBelow(g, S, v) !! OutOf(Neighbours(g, v) - S, v)
    ensures OutgoingBelow(g, S, v + 1) == OutgoingBelow(g, S, v) + OutOf(Neighbours(g, v) - S, v)
  {
    hide Boundary, Neighbours;
    forall e: (Vertex, Vertex)
      ensures e in OutgoingBelow(g, S, v + 1) <==> e in OutgoingBelow(g, S, v) || e in OutOf(Neighbours(g, v) - S, v)
    {
      BoundaryPairs(g, S, e);
    }
  }

  lemma OutgoingSame(g: Graph, S: set<Vertex>, v: Vertex)
    requires v !in S
    ensures OutgoingBelow(g, S, v + 1) == OutgoingBelow(g, S, v)
  {
    hide Boundary, Neighbours;
    forall e: (Vertex, Vertex) ensures e in OutgoingBelow(g, S, v + 1) <==> e in OutgoingBelow(g, S, v) {
      BoundaryPairs(g, S, e);
    }
  }

  lemma OutgoingStep(g: Graph, S: set<Vertex>, v: Vertex)
    ensures |OutgoingBelow(g, S, v + 1)| == |OutgoingBelow(g, S, v)| + if v in S then |Neighbours(g, v) - S| else 0
  {
    hide *;
    if v in S {
      TaggedSize(Neighbours(g, v) - S, v);
      OutgoingSplit(g, S, v);
    } else {
      OutgoingSame(g, S, v);
    }
  }

  lemma BoundaryPairs(g: Graph, S: set<Vertex>, e: (Vertex, Vertex))
    ensures e in Boundary(g, S) <==> e.0 in S && e.1 in Neighbours(g, e.0) && e.1 !in S
  {
    assert e == (e.0, e.1);
  }

  /** The largest cut over all prefixes of o. */
  ghost function Width(g: Graph, o: seq<Vertex>): nat {
    if o == [] then 0
    else
      var rest, last := Width(g, o[..|o| - 1]), Cut(g, Elems(o));
      if last > rest then last else rest
  }

  lemma {:induction false} WidthIsLargest(g: Graph, k: nat, o: seq<Vertex>)
    ensures Width(g, o) <= k <==> CutsWithin(g, k, o, 0)
  {
    if o == [] {
      EmptyCut(g);
      assert Elems([]) == {};
    } else {
      var rest := o[..|o| - 1];
      WidthIsLargest(g, k, rest);
      assert o[..|o|] == o;
      assert forall i :: 0 <= i <= |rest| ==> rest[..i] == o[..i];
    }
  }

  method ValidateOrdering(g: Graph, o: seq<Vertex>) returns (ok: bool)
    ensures ok <==> IsOrdering(g, o)
  {
    if |o| != Size(g) {
      return false;
    }
    var path := CollectPrefix(g, o);
    return path.Some?;
  }

  /** None stands for the exception on an invalid ordering. */
  method OrderingCutwidth(g: Graph, o: seq<Vertex>) returns (w: Option<nat>)
    ensures w == if IsOrdering(g, o) then Some(Width(g, o)) else None
  {
    var ok := ValidateOrdering(g, o);
    if !ok {
      return None;
    }
    var prefix, width: nat := {}, 0;
    for i := 0 to |o|
      invariant prefix == Elems(o[..i]) && width == Width(g, o[..i])
    {
      assert o[..i + 1] == o[..i] + [o[i]] && o[..i + 1][..i] == o[..i];
      prefix := prefix + {o[i]};
      assert prefix <= Vertices(g) by {
        assert forall v :: v in o[..i + 1] ==> v in o;
      }
      var cut := CutOf(g, prefix);
      if cut > width {
        width := cut;
      }
    }
    assert o[..|o|] == o;
    return Some(width);
  }

  /** Accepts exactly the orderings of width at most k. */
  method IsWithin(g: Graph, k: nat, o: seq<Vertex>) returns (ok: bool)
    ensures ok <==> IsWitness(g, k, o)
  {
    var w := OrderingCutwidth(g, o);
    WidthIsLargest(g, k, o);
    return w.Some? && w.value <= k;
  }
}
