/**
  Undirected simple graphs, the cut of a vertex set, and the cut recurrence on
  which every incremental computation of the solver rests.
 */
module Graphs {

  type Vertex = nat

  /** Row `v` holds the neighbours of `v`. */
  datatype Adjacency = Adjacency(rows: seq<set<Vertex>>) {
    ghost predicate Simple() {
      forall u: nat, v: nat {:trigger v in rows[u]} :: u < |rows| && v in rows[u] ==> v < |rows| && v != u && u in rows[v]
    }
  }

  type Graph = a: Adjacency | a.Simple() witness Adjacency([])

  function Size(g: Graph): nat {
    |g.rows|
  }

  function Below(n: nat): (r: set<nat>)
    ensures forall v: nat :: v in r <==> v < n
    ensures |r| == n
  {
    if n == 0 then {} else Below(n - 1) + {n - 1}
  }

  lemma BelowStep(v: nat)
    ensures v !in Below(v) && v in Below(v + 1) && Below(v + 1) == Below(v) + {v}
  {
  }

  function Vertices(g: Graph): set<Vertex> {
    Below(Size(g))
  }

  function Neighbours(g: Graph, v: Vertex): set<Vertex> {
    if v < |g.rows| then g.rows[v] else {}
  }

  function Degree(g: Graph, v: Vertex): nat {
    |Neighbours(g, v)|
  }

  /** The largest degree among the first n vertices. */
  function MaximumDegree(g: Graph, n: nat): (m: nat)
    ensures forall v :: 0 <= v < n ==> Degree(g, v) <= m
  {
    if n == 0 then 0
    else
      var rest := MaximumDegree(g, n - 1);
      if Degree(g, n - 1) > rest then Degree(g, n - 1) else rest
  }

  /** Some vertex has the largest degree, unless that is zero. */
  lemma {:induction false} MaximumDegreeAttained(g: Graph, n: nat)
    ensures MaximumDegree(g, n) > 0 ==> exists v :: 0 <= v < n && Degree(g, v) == MaximumDegree(g, n)
  {
    if n > 0 {
      MaximumDegreeAttained(g, n - 1);
    }
  }

  predicate Adjacent(g: Graph, u: Vertex, v: Vertex) {
    v in Neighbours(g, u)
  }

  lemma NeighbourFacts(g: Graph, u: Vertex, v: Vertex)
    requires v in Neighbours(g, u)
    ensures u in Vertices(g) && v in Vertices(g) && u != v && u in Neighbours(g, v)
  {
    assert v in g.rows[u];
  }

  /** The edges that leave S, each directed from its endpoint in S. */
  ghost function Boundary(g: Graph, S: set<Vertex>): set<(Vertex, Vertex)> {
    set u, v | u in S && v in Neighbours(g, u) && v !in S :: (u, v)
  }

  ghost function Cut(g: Graph, S: set<Vertex>): nat {
    |Boundary(g, S)|
  }

  /** The edges between `v` and the vertices of X, directed into and out of `v`. */
  ghost function Into(X: set<Vertex>, v: Vertex): set<(Vertex, Vertex)> {
    set u | u in X :: (u, v)
  }

  ghost function OutOf(X: set<Vertex>, v: Vertex): set<(Vertex, Vertex)> {
    set u | u in X :: (v, u)
  }

  lemma {:induction false} TaggedSize(X: set<Vertex>, v: Vertex)
    ensures |Into(X, v)| == |X|
    ensures |OutOf(X, v)| == |X|
    decreases X
  {
    if X != {} {
      var x :| x in X;
      TaggedSize(X - {x}, v);
      assert Into(X, v) == Into(X - {x}, v) + {(x, v)};
      assert OutOf(X, v) == OutOf(X - {x}, v) + {(v, x)};
    }
  }

  lemma BoundaryStep(g: Graph, S: set<Vertex>, v: Vertex)
    requires v !in S
    ensures Into(Neighbours(g, v) * S, v) <= Boundary(g, S)
    ensures Boundary(g, S + {v}) ==
            (Boundary(g, S) - Into(Neighbours(g, v) * S, v)) + OutOf(Neighbours(g, v) - S, v)
  {
    var N := Neighbours(g, v);
    forall u | u in N ensures v in Neighbours(g, u) && u != v {
      NeighbourFacts(g, v, u);
    }
    forall u | v in Neighbours(g, u) ensures u in N {
      NeighbourFacts(g, u, v);
    }
  }

  /** cut(S + v) = cut(S) + deg(v) - 2 |N(v) * S| */
  lemma CutRecurrence(g: Graph, S: set<Vertex>, v: Vertex)
    requires v !in S
    ensures Cut(g, S + {v}) == Cut(g, S) + Degree(g, v) - 2 * |Neighbours(g, v) * S|
  {
    var N := Neighbours(g, v);
    var inward, outward := Into(N * S, v), OutOf(N - S, v);
    TaggedSize(N * S, v);
    TaggedSize(N - S, v);
    BoundaryStep(g, S, v);
    assert (Boundary(g, S) - inward) !! outward;
    SwapSize(Boundary(g, S), inward, outward);
    assert N == (N * S) + (N - S) && (N * S) !! (N - S);
  }

  lemma SwapSize<T>(A: set<T>, out: set<T>, in': set<T>)
    requires out <= A && (A - out) !! in'
    ensures |(A - out) + in'| == |A| - |out| + |in'|
  {
    assert |A - out| == |A| - |out|;
  }

  lemma EmptyCut(g: Graph)
    ensures Cut(g, {}) == 0
  {
    assert Boundary(g, {}) == {};
  }

  lemma FullCut(g: Graph)
    ensures Cut(g, Vertices(g)) == 0
  {
    forall u, v | v in Neighbours(g, u) ensures v in Vertices(g) {
      NeighbourFacts(g, u, v);
    }
    assert Boundary(g, Vertices(g)) == {};
  }

  /** A vertex outside S sends all its edges into S across the cut. */
  lemma InwardEdgesCross(g: Graph, S: set<Vertex>, v: Vertex)
    requires v !in S
    ensures |Neighbours(g, v) * S| <= Cut(g, S)
  {
    TaggedSize(Neighbours(g, v) * S, v);
    BoundaryStep(g, S, v);
    SubsetSize(Into(Neighbours(g, v) * S, v), Boundary(g, S));
  }

  lemma SubsetSize<T>(A: set<T>, B: set<T>)
    requires A <= B
    ensures |A| <= |B|
  {
    assert B == A + (B - A);
  }
}
