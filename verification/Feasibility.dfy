/**
  Orderings, completions of a prefix, and what it means for a prefix to be
  feasible at a threshold.  Feasibility depends on the set of placed vertices
  only, which is what lets a cache keyed by that set hold proofs.
 */
module Feasibility {
  import opened Graphs

  function Elems(s: seq<Vertex>): (r: set<Vertex>)
    ensures forall v :: v in r <==> v in s
  {
    set v | v in s
  }

  ghost predicate Distinct(s: seq<Vertex>) {
    forall i, j :: 0 <= i < j < |s| ==> s[i] != s[j]
  }

  /** A duplicate-free list of vertices of g. */
  ghost predicate IsPath(g: Graph, p: seq<Vertex>) {
    Distinct(p) && Elems(p) <= Vertices(g)
  }

  ghost predicate IsOrdering(g: Graph, o: seq<Vertex>) {
    IsPath(g, o) && |o| == Size(g)
  }

  /** Every prefix of `o` with at least `from` vertices has cut at most k. */
  ghost predicate CutsWithin(g: Graph, k: nat, o: seq<Vertex>, from: nat) {
    forall i :: from <= i <= |o| ==> Cut(g, Elems(o[..i])) <= k
  }

  /** `o` is an ordering of g of cutwidth at most k. */
  ghost predicate IsWitness(g: Graph, k: nat, o: seq<Vertex>) {
    IsOrdering(g, o) && CutsWithin(g, k, o, 0)
  }

  /** `c` places every vertex outside S, and all cuts from S on stay within k. */
  ghost predicate Completes(g: Graph, k: nat, S: set<Vertex>, c: seq<Vertex>)
    decreases |c|
  {
    && Cut(g, S) <= k
    && if c == [] then S == Vertices(g)
       else c[0] in Vertices(g) - S && Completes(g, k, S + {c[0]}, c[1..])
  }

  ghost predicate Feasible(g: Graph, k: nat, S: set<Vertex>) {
    exists c :: Completes(g, k, S, c)
  }

  lemma ElemsAppend(p: seq<Vertex>, v: Vertex)
    ensures Elems(p + [v]) == Elems(p) + {v}
  {
  }

  lemma {:induction false} DistinctSize(p: seq<Vertex>)
    requires Distinct(p)
    ensures |Elems(p)| == |p|
  {
    if p != [] {
      var q := p[..|p| - 1];
      DistinctSize(q);
      assert p == q + [p[|p| - 1]];
      assert Elems(p) == Elems(q) + {p[|p| - 1]};
    } else {
      assert Elems(p) == {};
    }
  }

  /** A path is complete exactly when it has placed as many vertices as g has. */
  lemma PathIsFull(g: Graph, p: seq<Vertex>)
    requires IsPath(g, p)
    ensures |p| <= Size(g)
    ensures Elems(p) == Vertices(g) <==> |p| == Size(g)
  {
    DistinctSize(p);
    SubsetSize(Elems(p), Vertices(g));
    assert |Vertices(g) - Elems(p)| == |Vertices(g)| - |Elems(p)|;
  }

  lemma ExtendPath(g: Graph, p: seq<Vertex>, v: Vertex)
    requires IsPath(g, p) && v in Vertices(g) && v !in p
    ensures IsPath(g, p + [v]) && Elems(p + [v]) == Elems(p) + {v}
  {
  }

  /** Completions of the set of a path are exactly the tails of orderings that start with it. */
  lemma {:induction false} CompletionIsTail(g: Graph, k: nat, p: seq<Vertex>, c: seq<Vertex>)
    requires IsPath(g, p)
    ensures Completes(g, k, Elems(p), c) <==> IsOrdering(g, p + c) && CutsWithin(g, k, p + c, |p|)
    decreases |c|
  {
    PathIsFull(g, p);
    assert (p + c)[..|p|] == p;
    if c == [] {
      assert p + c == p;
    } else {
      var q := p + [c[0]];
      assert p + c == q + c[1..];
      if c[0] in Vertices(g) - Elems(p) {
        ExtendPath(g, p, c[0]);
        CompletionIsTail(g, k, q, c[1..]);
        assert CutsWithin(g, k, p + c, |p|) <==> Cut(g, Elems(p)) <= k && CutsWithin(g, k, p + c, |q|);
      } else {
        assert (p + c)[|p|] == c[0];
        assert c[0] in Elems(p + c);
      }
    }
  }

  /** The empty prefix is feasible exactly when some ordering has cutwidth at most k. */
  lemma FeasibleFromScratch(g: Graph, k: nat)
    ensures Feasible(g, k, {}) <==> exists o :: IsWitness(g, k, o)
  {
    assert Elems([]) == {};
    if Feasible(g, k, {}) {
      var c :| Completes(g, k, {}, c);
      CompletionIsTail(g, k, [], c);
      assert [] + c == c;
      assert IsWitness(g, k, c);
    }
    if exists o :: IsWitness(g, k, o) {
      var o :| IsWitness(g, k, o);
      CompletionIsTail(g, k, [], o);
      assert [] + o == o;
    }
  }

  lemma FeasibleFacts(g: Graph, k: nat, S: set<Vertex>)
    requires Feasible(g, k, S)
    ensures Cut(g, S) <= k && S <= Vertices(g)
  {
    var c :| Completes(g, k, S, c);
    CompletionFacts(g, k, S, c);
  }

  lemma {:induction false} CompletionFacts(g: Graph, k: nat, S: set<Vertex>, c: seq<Vertex>)
    requires Completes(g, k, S, c)
    ensures S <= Vertices(g)
    decreases |c|
  {
    if c != [] {
      CompletionFacts(g, k, S + {c[0]}, c[1..]);
    }
  }

  /** A feasible prefix is complete or has a feasible child. */
  lemma FeasibleChild(g: Graph, k: nat, S: set<Vertex>) returns (v: Vertex)
    requires Feasible(g, k, S) && S != Vertices(g)
    ensures v in Vertices(g) - S && Feasible(g, k, S + {v})
  {
    var c :| Completes(g, k, S, c);
    v := c[0];
    assert Completes(g, k, S + {v}, c[1..]);
  }

  lemma FeasibleParent(g: Graph, k: nat, S: set<Vertex>, v: Vertex)
    requires Cut(g, S) <= k && v in Vertices(g) - S && Feasible(g, k, S + {v})
    ensures Feasible(g, k, S)
  {
    var c :| Completes(g, k, S + {v}, c);
    var d := [v] + c;
    assert d[0] == v && d[1..] == c;
    assert Completes(g, k, S, d);
  }

  lemma FullIsFeasible(g: Graph, k: nat)
    ensures Feasible(g, k, Vertices(g))
  {
    FullCut(g);
    assert Completes(g, k, Vertices(g), []);
  }

  /** A failure at a threshold is a failure at every smaller one. */
  lemma FeasibleMonotone(g: Graph, k: nat, k': nat, S: set<Vertex>)
    requires k <= k' && Feasible(g, k, S)
    ensures Feasible(g, k', S)
  {
    var c :| Completes(g, k, S, c);
    CompletesMonotone(g, k, k', S, c);
  }

  lemma {:induction false} CompletesMonotone(g: Graph, k: nat, k': nat, S: set<Vertex>, c: seq<Vertex>)
    requires k <= k' && Completes(g, k, S, c)
    ensures Completes(g, k', S, c)
    decreases |c|
  {
    if c != [] {
      CompletesMonotone(g, k, k', S + {c[0]}, c[1..]);
    }
  }

  /** Placing v moves every edge at v across one of two consecutive cuts. */
  lemma {:induction false} DegreeBound(g: Graph, k: nat, S: set<Vertex>, v: Vertex)
    requires Feasible(g, k, S) && v in Vertices(g) - S
    ensures Degree(g, v) <= 2 * k
    decreases |Vertices(g) - S|
  {
    var c :| Completes(g, k, S, c);
    var w := c[0];
    assert Completes(g, k, S + {w}, c[1..]);
    if w == v {
      FeasibleFacts(g, k, S + {v});
      CutRecurrence(g, S, v);
      InwardEdgesCross(g, S, v);
    } else {
      assert Vertices(g) - S == (Vertices(g) - (S + {w})) + {w};
      DegreeBound(g, k, S + {w}, v);
    }
  }
}
