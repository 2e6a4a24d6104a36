/**
  Twin symmetry.  Two vertices with the same neighbours (apart from each other)
  can be exchanged in every completion, so a search may insist that twins are
  placed in increasing order.
 */
module TwinSymmetry {
  import opened Graphs
  import opened Feasibility

  /** a and b see the same vertices apart from each other. */
  ghost predicate Twins(g: Graph, a: Vertex, b: Vertex) {
    a != b && Neighbours(g, a) - {b} == Neighbours(g, b) - {a}
  }

  /** False twins: not adjacent, equal open neighbourhoods. */
  predicate EqualOpen(g: Graph, a: Vertex, b: Vertex) {
    !Adjacent(g, a, b) && Neighbours(g, a) == Neighbours(g, b)
  }

  /** True twins: adjacent, equal closed neighbourhoods. */
  predicate EqualClosed(g: Graph, a: Vertex, b: Vertex) {
    Adjacent(g, a, b) && Neighbours(g, a) + {a} == Neighbours(g, b) + {b}
  }

  lemma TwinTests(g: Graph, a: Vertex, b: Vertex)
    requires a in Vertices(g) && b in Vertices(g) && a != b
    ensures EqualOpen(g, a, b) || EqualClosed(g, a, b) <==> Twins(g, a, b)
  {
    var A, B := Neighbours(g, a), Neighbours(g, b);
    assert a !in A && b !in B by {
      if a in A { NeighbourFacts(g, a, a); }
      if b in B { NeighbourFacts(g, b, b); }
    }
    if b in A {
      NeighbourFacts(g, a, b);
      assert A + {a} == (A - {b}) + {a, b};
      assert B + {b} == (B - {a}) + {a, b};
      assert A - {b} == (A + {a}) - {a, b};
      assert B - {a} == (B + {b}) - {a, b};
    } else {
      if a in B { NeighbourFacts(g, b, a); }
      assert A - {b} == A && B - {a} == B;
    }
  }

  type TwinTable = seq<seq<Vertex>>

  /** Row v lists earlier twins of v. */
  ghost predicate ValidTwins(g: Graph, twins: TwinTable) {
    |twins| == Size(g) &&
    forall v: Vertex, e: Vertex {:trigger e in twins[v]} :: v in Vertices(g) && e in twins[v] ==> e < v && Twins(g, e, v)
  }

  /** Row v lists exactly the earlier twins of v; nothing where twins are not in use. */
  ghost predicate TwinTableOf(g: Graph, enabled: bool, twins: TwinTable) {
    |twins| == Size(g) &&
    forall v: Vertex, e: Vertex :: v in Vertices(g) ==> (e in twins[v] <==> enabled && e < v && Twins(g, e, v))
  }

  method BuildTwins(g: Graph, enabled: bool) returns (twins: TwinTable)
    ensures ValidTwins(g, twins) && TwinTableOf(g, enabled, twins)
    ensures forall v: Vertex, e: Vertex :: v in Vertices(g) ==>
              (e in twins[v] <==> enabled && e < v && Twins(g, e, v))
    ensures forall v :: v in Vertices(g) ==> Distinct(twins[v])
  {
    twins := seq(Size(g), _ => []);
    if !enabled {
      return;
    }
    for later := 0 to Size(g)
      invariant |twins| == Size(g)
      invariant forall v: Vertex, e: Vertex :: 0 <= v < later ==> (e in twins[v] <==> e < v && Twins(g, e, v))
      invariant forall v :: 0 <= v < later ==> Distinct(twins[v])
      invariant forall v :: later <= v < Size(g) ==> twins[v] == []
    {
      hide Distinct, Twins, Vertices;
      var row := EarlierTwins(g, later);
      twins := twins[later := row];
    }
  }

  method EarlierTwins(g: Graph, later: Vertex) returns (row: seq<Vertex>)
    requires later < Size(g)
    ensures Distinct(row) && forall e: Vertex :: e in row <==> e < later && Twins(g, e, later)
  {
    hide EqualClosed, EqualOpen, Neighbours, Twins;
    row := [];
    for earlier := 0 to later
      invariant Distinct(row) && forall e: Vertex :: e in row <==> e < earlier && Twins(g, e, later)
    {
      TwinTests(g, earlier, later);
      if EqualOpen(g, earlier, later) || EqualClosed(g, earlier, later) {
        row := row + [earlier];
      }
    }
  }

  /** An earlier twin of v has not been placed yet. */
  predicate TwinBlocked(twins: TwinTable, S: set<Vertex>, v: Vertex) {
    v < |twins| && exists i :: 0 <= i < |twins[v]| && twins[v][i] !in S
  }

  /** With such a table a vertex is held back exactly as long as some smaller twin of it is unplaced. */
  lemma BlockedByTwin(g: Graph, enabled: bool, twins: TwinTable, S: set<Vertex>, v: Vertex)
    requires TwinTableOf(g, enabled, twins) && v in Vertices(g)
    ensures TwinBlocked(twins, S, v) <==> enabled && exists e: Vertex :: e < v && e !in S && Twins(g, e, v)
  {
    hide Twins;
    if TwinBlocked(twins, S, v) {
      var i :| 0 <= i < |twins[v]| && twins[v][i] !in S;
      assert twins[v][i] in twins[v];
    }
    if enabled && exists e: Vertex :: e < v && e !in S && Twins(g, e, v) {
      var e: Vertex :| e < v && e !in S && Twins(g, e, v);
      assert e in twins[v];
    }
  }

  /** Outside the pair, twins have the same neighbours. */
  lemma TwinNeighbours(g: Graph, R: set<Vertex>, a: Vertex, b: Vertex)
    requires Twins(g, a, b) && a !in R && b !in R
    requires a in Vertices(g) && b in Vertices(g)
    ensures Neighbours(g, a) * R == Neighbours(g, b) * R
    ensures Degree(g, a) == Degree(g, b)
  {
    hide Neighbours;
    var A, B := Neighbours(g, a), Neighbours(g, b);
    if b in A { NeighbourFacts(g, a, b); }
    if a in B { NeighbourFacts(g, b, a); }
    SameBesides(A, B, R, a, b);
  }

  lemma SameBesides(A: set<Vertex>, B: set<Vertex>, R: set<Vertex>, a: Vertex, b: Vertex)
    requires A - {b} == B - {a} && a !in R && b !in R && (b in A <==> a in B)
    ensures A * R == B * R && |A| == |B|
  {
    assert A * R == (A - {b}) * R && B * R == (B - {a}) * R;
    if b in A {
      assert A == (A - {b}) + {b} && B == (B - {a}) + {a};
    } else {
      assert A == A - {b} && B == B - {a};
    }
  }

  lemma TwinCuts(g: Graph, R: set<Vertex>, a: Vertex, b: Vertex)
    requires Twins(g, a, b) && a !in R && b !in R
    requires a in Vertices(g) && b in Vertices(g)
    ensures Cut(g, R + {a}) == Cut(g, R + {b})
  {
    hide *;
    CutRecurrence(g, R, a);
    CutRecurrence(g, R, b);
    TwinNeighbours(g, R, a, b);
  }

  /** Exchanging two unplaced twins turns a completion into a completion. */
  lemma {:induction false} TwinExchange(g: Graph, k: nat, R: set<Vertex>, a: Vertex, b: Vertex, c: seq<Vertex>)
    returns (d: seq<Vertex>)
    requires Twins(g, a, b) && a !in R && b !in R
    requires a in Vertices(g) && b in Vertices(g)
    requires Completes(g, k, R + {a}, c)
    ensures Completes(g, k, R + {b}, d)
    decreases |c|
  {
    assert b !in R + {a};
    hide Twins, Cut;
    TwinCuts(g, R, a, b);
    var v := c[0];
    if v == b {
      d := [a] + c[1..];
      assert d[1..] == c[1..];
      assert R + {a} + {b} == R + {b} + {a};
    } else {
      assert R + {a} + {v} == R + {v} + {a};
      assert R + {b} + {v} == R + {v} + {b};
      var e := TwinExchange(g, k, R + {v}, a, b, c[1..]);
      d := [v] + e;
      assert d[1..] == e;
    }
  }

  /** A feasible incomplete prefix has a feasible child that no earlier twin blocks. */
  lemma CanonicalChild(g: Graph, k: nat, twins: TwinTable, S: set<Vertex>) returns (v: Vertex)
    requires ValidTwins(g, twins)
    requires Feasible(g, k, S) && S != Vertices(g)
    ensures v in Vertices(g) - S && !TwinBlocked(twins, S, v) && Feasible(g, k, S + {v})
  {
    v := FeasibleChild(g, k, S);
    while TwinBlocked(twins, S, v)
      invariant v in Vertices(g) - S && Feasible(g, k, S + {v})
      decreases v
    {
      var i :| 0 <= i < |twins[v]| && twins[v][i] !in S;
      var e := twins[v][i];
      assert e in twins[v];
      assert Twins(g, v, e);
      var c :| Completes(g, k, S + {v}, c);
      var d := TwinExchange(g, k, S, v, e, c);
      v := e;
    }
  }
}
