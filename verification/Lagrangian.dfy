/**
  The Lagrangian prefix bound.  For a multiplier p/q the cuts of the residual
  vertex sets of one cardinality become cuts of a flow network, up to a constant,
  so a maximum flow bounds all of them from below.
 */
module LagrangianBounds {
  import opened Options
  import opened Graphs
  import opened Feasibility
  import opened FlowNetworks
  import opened DinicFlow

  const INT64_MIN: int := -0x8000_0000_0000_0000
  const UINT32_MAX: int := 0xFFFF_FFFF

  predicate InRange(x: int) {
    INT64_MIN <= x <= INT64_MAX
  }

  /** Checked 64-bit arithmetic: None stands for an overflow. */
  function Checked(x: int): Option<int> {
    if InRange(x) then Some(x) else None
  }

  /** Division as the machine does it, toward zero. */
  function TruncDiv(x: int, y: int): int
    requires y > 0
  {
    if x >= 0 then x / y else -((-x) / y)
  }

  function CeilDiv(x: int, y: int): int
    requires y > 0
  {
    var q := TruncDiv(x, y);
    if x - q * y > 0 then q + 1 else q
  }

  /** CeilDiv(x, y) is the least integer c with x <= c * y, for negative x as well. */
  lemma CeilDivIsLeast(x: int, y: int, c: int)
    requires y > 0
    ensures CeilDiv(x, y) <= c <==> x <= c * y
  {
    var q := TruncDiv(x, y);
    var d := CeilDiv(x, y);
    TruncFacts(x, y);
    assert (d - 1) * y < x <= d * y;
    if d <= c {
      assert d * y <= c * y;
    } else {
      assert c * y <= (d - 1) * y;
    }
  }

  lemma TruncFacts(x: int, y: int)
    requires y > 0
    ensures var q := TruncDiv(x, y); if x >= 0 then q * y <= x < q * y + y else q * y - y < x <= q * y
  {
    if x < 0 {
      var z := -x;
      assert z == (z / y) * y + z % y;
    }
  }

  // ----- the residual vertices -----

  /** The unplaced vertices below m in increasing order. */
  ghost function Unplaced(S: set<Vertex>, m: nat): seq<Vertex> {
    if m == 0 then [] else Unplaced(S, m - 1) + if m - 1 in S then [] else [m - 1]
  }

  method ResidualVertices(g: Graph, S: set<Vertex>) returns (U: seq<Vertex>)
    ensures Distinct(U) && Elems(U) == Vertices(g) - S && U == Unplaced(S, Size(g))
  {
    hide *;
    U := [];
    NoVertices(g, S);
    for v := 0 to Size(g)
      invariant IsPath(g, U) && Elems(U) == Below(v) - S && U == Unplaced(S, v)
    {
      BelowStep(v);
      UnplacedStep(S, v);
      if v !in S {
        NextVertex(g, S, U, v);
        U := U + [v];
      }
    }
    PathIsDistinct(g, U);
    AllBelow(g);
  }

  lemma UnplacedStep(S: set<Vertex>, m: nat)
    ensures Unplaced(S, m + 1) == if m in S then Unplaced(S, m) else Unplaced(S, m) + [m]
  {
  }

  lemma NoVertices(g: Graph, S: set<Vertex>)
    ensures IsPath(g, []) && Elems([]) == Below(0) - S && Unplaced(S, 0) == []
  {
    assert Elems([]) == {};
  }

  lemma NextVertex(g: Graph, S: set<Vertex>, U: seq<Vertex>, v: Vertex)
    requires IsPath(g, U) && Elems(U) == Below(v) - S && v < Size(g) && v !in S
    ensures IsPath(g, U + [v]) && Elems(U + [v]) == Elems(U) + {v}
  {
    hide Distinct;
    ExtendPath(g, U, v);
  }

  lemma PathIsDistinct(g: Graph, U: seq<Vertex>)
    requires IsPath(g, U)
    ensures Distinct(U)
  {
  }

  lemma AllBelow(g: Graph)
    ensures Below(Size(g)) == Vertices(g)
  {
  }

  /** The placed neighbours of each residual vertex. */
  method PlacedNeighbours(g: Graph, S: set<Vertex>, U: seq<Vertex>) returns (a: seq<nat>)
    ensures Counts(g, S, U, a)
  {
    a := [];
    for i := 0 to |U|
      invariant |a| == i && forall j :: 0 <= j < i ==> a[j] == |Neighbours(g, U[j]) * S|
    {
      a := a + [|Neighbours(g, U[i]) * S|];
    }
  }

  ghost predicate Counts(g: Graph, S: set<Vertex>, U: seq<Vertex>, a: seq<nat>) {
    |a| == |U| && forall i :: 0 <= i < |U| ==> a[i] == |Neighbours(g, U[i]) * S|
  }

  // ----- the cut of a prefix and a residual set -----

  /** Adjacent ordered pairs of residual vertices. */
  ghost function ResidualPairs(g: Graph, U: seq<Vertex>): set<(Vertex, Vertex)> {
    set x, y | x in Elems(U) && y in Neighbours(g, x) && y in Elems(U) :: (x, y)
  }

  ghost function Crossing(P: set<(Vertex, Vertex)>, T: set<Vertex>): set<(Vertex, Vertex)> {
    set e | e in P && e.0 in T && e.1 !in T
  }

  /** Sum of the values at residual vertices inside T, or outside it. */
  ghost function SumIn(U: seq<Vertex>, values: seq<int>, T: set<Vertex>, m: nat): int
    requires m <= |U| && m <= |values|
  {
    if m == 0 then 0 else SumIn(U, values, T, m - 1) + if U[m - 1] in T then values[m - 1] else 0
  }

  ghost function SumOut(U: seq<Vertex>, values: seq<int>, T: set<Vertex>, m: nat): int
    requires m <= |U| && m <= |values|
  {
    if m == 0 then 0 else SumOut(U, values, T, m - 1) + if U[m - 1] in T then 0 else values[m - 1]
  }

  /** The edges from S to the first m residual vertices outside T. */
  ghost function FromPrefix(g: Graph, S: set<Vertex>, U: seq<Vertex>, T: set<Vertex>, m: nat): set<(Vertex, Vertex)>
    requires m <= |U|
  {
    set x, y | x in S && y in Neighbours(g, x) && y in Elems(U[..m]) && y !in T :: (x, y)
  }

  lemma {:induction false} FromPrefixSize(g: Graph, S: set<Vertex>, U: seq<Vertex>, a: seq<nat>, T: set<Vertex>, m: nat)
    requires Distinct(U) && Counts(g, S, U, a) && m <= |U| == |a|
    ensures |FromPrefix(g, S, U, T, m)| == SumOut(U, a, T, m)
  {
    hide *;
    SumSteps(U, a, T, m);
    if m == 0 {
      FromPrefixEmpty(g, S, U, T);
    } else {
      FromPrefixSize(g, S, U, a, T, m - 1);
      FromPrefixGrowth(g, S, U, a, T, m - 1);
    }
  }

  lemma FromPrefixEmpty(g: Graph, S: set<Vertex>, U: seq<Vertex>, T: set<Vertex>)
    ensures FromPrefix(g, S, U, T, 0) == {}
  {
  }

  lemma SumSteps(U: seq<Vertex>, values: seq<int>, T: set<Vertex>, m: nat)
    requires m <= |U| && m <= |values|
    ensures m == 0 ==> SumIn(U, values, T, m) == SumOut(U, values, T, m) == 0
    ensures m > 0 ==>
              && SumIn(U, values, T, m) == SumIn(U, values, T, m - 1) + (if U[m - 1] in T then values[m - 1] else 0)
              && SumOut(U, values, T, m) == SumOut(U, values, T, m - 1) + (if U[m - 1] in T then 0 else values[m - 1])
  {
  }

  lemma FromPrefixGrowth(g: Graph, S: set<Vertex>, U: seq<Vertex>, a: seq<nat>, T: set<Vertex>, m: nat)
    requires Distinct(U) && Counts(g, S, U, a) && m < |U| == |a|
    ensures |FromPrefix(g, S, U, T, m + 1)| == |FromPrefix(g, S, U, T, m)| + if U[m] in T then 0 else a[m]
  {
    hide FromPrefix, Into, Distinct;
    FromPrefixStep(g, S, U, T, m);
    TaggedSize(Neighbours(g, U[m]) * S, U[m]);
  }

  lemma FromPrefixStep(g: Graph, S: set<Vertex>, U: seq<Vertex>, T: set<Vertex>, m: nat)
    requires Distinct(U) && m < |U|
    ensures var more := if U[m] in T then {} else Into(Neighbours(g, U[m]) * S, U[m]);
            && FromPrefix(g, S, U, T, m + 1) == FromPrefix(g, S, U, T, m) + more
            && FromPrefix(g, S, U, T, m) !! more
  {
    var v := U[m];
    assert U[..m + 1] == U[..m] + [v] && v !in U[..m];
    var low, high := FromPrefix(g, S, U, T, m), FromPrefix(g, S, U, T, m + 1);
    var more := if v in T then {} else Into(Neighbours(g, v) * S, v);
    forall e: (Vertex, Vertex) ensures e in high <==> e in low || e in more {
      assert e == (e.0, e.1);
      if e.1 == v {
        if v in Neighbours(g, e.0) { NeighbourFacts(g, e.0, v); }
        if e.0 in Neighbours(g, v) { NeighbourFacts(g, v, e.0); }
      }
    }
  }

  /** cut(S + T): residual edges that leave T, and edges from S to residual vertices outside T. */
  lemma CutSplits(g: Graph, S: set<Vertex>, U: seq<Vertex>, a: seq<nat>, T: set<Vertex>)
    requires S <= Vertices(g) && Distinct(U) && Elems(U) == Vertices(g) - S && Counts(g, S, U, a) && T <= Elems(U)
    ensures Cut(g, S + T) == |Crossing(ResidualPairs(g, U), T)| + SumOut(U, a, T, |U|)
  {
    var inner, outer := Crossing(ResidualPairs(g, U), T), FromPrefix(g, S, U, T, |U|);
    assert U[..|U|] == U;
    forall e: (Vertex, Vertex) ensures e in Boundary(g, S + T) <==> e in inner || e in outer {
      assert e == (e.0, e.1);
      if e.1 in Neighbours(g, e.0) { NeighbourFacts(g, e.0, e.1); }
    }
    assert Boundary(g, S + T) == inner + outer && inner !! outer by {
      forall e | e in inner ensures e !in outer {
        assert e == (e.0, e.1);
      }
    }
    FromPrefixSize(g, S, U, a, T, |U|);
  }

  // ----- the sums of the reduction -----

  /** What the terminal arcs of the first m residual vertices add to the cut of T's side. */
  ghost function Terminal(U: seq<Vertex>, w: seq<int>, T: set<Vertex>, m: nat): int
    requires m <= |U| && m <= |w|
  {
    if m == 0 then 0
    else
      Terminal(U, w, T, m - 1) +
      if w[m - 1] >= 0 then (if U[m - 1] in T then w[m - 1] else 0) else (if U[m - 1] in T then 0 else -w[m - 1])
  }

  /** The negative weights among the first m. */
  ghost function Negative(w: seq<int>, m: nat): int
    requires m <= |w|
  {
    if m == 0 then 0 else Negative(w, m - 1) + if w[m - 1] < 0 then w[m - 1] else 0
  }

  function Sum(a: seq<nat>, m: nat): nat
    requires m <= |a|
  {
    if m == 0 then 0 else Sum(a, m - 1) + a[m - 1]
  }

  lemma {:induction false} TerminalIsWeight(U: seq<Vertex>, w: seq<int>, T: set<Vertex>, m: nat)
    requires m <= |U| && m <= |w|
    ensures Negative(w, m) + Terminal(U, w, T, m) == SumIn(U, w, T, m)
  {
    if m > 0 {
      TerminalIsWeight(U, w, T, m - 1);
    }
  }

  ghost predicate Weighted(a: seq<nat>, p: int, q: int, w: seq<int>) {
    |w| == |a| && forall i :: 0 <= i < |a| ==> w[i] == p - q * a[i]
  }

  lemma CountStep(U: seq<Vertex>, T: set<Vertex>, m: nat)
    requires Distinct(U) && m < |U|
    ensures |T * Elems(U[..m + 1])| == |T * Elems(U[..m])| + if U[m] in T then 1 else 0
  {
    var v := U[m];
    assert U[..m + 1] == U[..m] + [v] && v !in U[..m];
    if v in T {
      assert T * Elems(U[..m + 1]) == T * Elems(U[..m]) + {v};
    } else {
      assert T * Elems(U[..m + 1]) == T * Elems(U[..m]);
    }
  }

  lemma {:induction false} WeightSum(U: seq<Vertex>, a: seq<nat>, p: int, q: int, w: seq<int>, T: set<Vertex>, m: nat)
    requires Weighted(a, p, q, w) && Distinct(U) && |U| == |a| == |w| && m <= |U|
    ensures SumIn(U, w, T, m) == p * |T * Elems(U[..m])| - q * SumIn(U, a, T, m)
  {
    hide *;
    SumSteps(U, a, T, m);
    SumSteps(U, w, T, m);
    if m == 0 {
      NoneCounted(U, T);
    } else {
      WeightAt(a, p, q, w, m - 1);
      WeightSum(U, a, p, q, w, T, m - 1);
      CountStep(U, T, m - 1);
      WeightStep(p, q, |T * Elems(U[..m - 1])|, SumIn(U, a, T, m - 1), a[m - 1]);
    }
  }

  lemma NoneCounted(U: seq<Vertex>, T: set<Vertex>)
    ensures |T * Elems(U[..0])| == 0
  {
    assert T * Elems(U[..0]) == {};
  }

  lemma WeightAt(a: seq<nat>, p: int, q: int, w: seq<int>, i: nat)
    requires Weighted(a, p, q, w) && i < |a|
    ensures i < |w| && w[i] == p - q * a[i]
  {
  }

  lemma {:induction false} SumSplits(U: seq<Vertex>, a: seq<nat>, T: set<Vertex>, m: nat)
    requires m <= |U| == |a|
    ensures SumIn(U, a, T, m) + SumOut(U, a, T, m) == Sum(a, m)
  {
    if m > 0 {
      SumSplits(U, a, T, m - 1);
    }
  }

  lemma WeightStep(p: int, q: int, c: int, x: int, y: int)
    ensures p * c - q * x + (p - q * y) == p * (c + 1) - q * (x + y)
  {
  }

  lemma Assemble(q: int, p: int, t: int, sum: int, inside: int, outside: int, crossing: int, weight: int, cut: int)
    requires inside + outside == sum && weight == p * t - q * inside && cut == crossing + outside
    ensures q * sum - p * t + weight + q * crossing == q * cut
  {
    assert q * sum == q * inside + q * outside;
    assert q * cut == q * crossing + q * outside;
  }

  /** The constant, the terminal arcs and the residual arcs together make q times the cut. */
  lemma Reduction(g: Graph, S: set<Vertex>, U: seq<Vertex>, a: seq<nat>, p: int, q: int, w: seq<int>, T: set<Vertex>)
    requires S <= Vertices(g) && Distinct(U) && Elems(U) == Vertices(g) - S && Counts(g, S, U, a) && T <= Elems(U)
    requires Weighted(a, p, q, w)
    ensures |a| == |U| == |w|
    ensures q * Sum(a, |U|) - p * |T| + Negative(w, |U|) + Terminal(U, w, T, |U|)
              + q * |Crossing(ResidualPairs(g, U), T)| == q * Cut(g, S + T)
  {
    hide *;
    CountsLength(g, S, U, a, p, q, w);
    CutSplits(g, S, U, a, T);
    TerminalIsWeight(U, w, T, |U|);
    WeightSum(U, a, p, q, w, T, |U|);
    SumSplits(U, a, T, |U|);
    assert U[..|U|] == U && T * Elems(U) == T;
    Assemble(q, p, |T|, Sum(a, |U|), SumIn(U, a, T, |U|), SumOut(U, a, T, |U|), |Crossing(ResidualPairs(g, U), T)|,
             Negative(w, |U|) + Terminal(U, w, T, |U|), Cut(g, S + T));
  }

  lemma CountsLength(g: Graph, S: set<Vertex>, U: seq<Vertex>, a: seq<nat>, p: int, q: int, w: seq<int>)
    requires Counts(g, S, U, a) && Weighted(a, p, q, w)
    ensures |a| == |U| == |w|
  {
  }

  // ----- the network -----

  /** The source side of a cut that stands for T: the source 0 and the nodes of T's vertices; the sink is 1. */
  ghost function Side(U: seq<Vertex>, T: set<Vertex>): set<nat> {
    {0} + set i | 0 <= i < |U| && U[i] in T :: i + 2
  }

  lemma SideFacts(U: seq<Vertex>, T: set<Vertex>)
    ensures 0 in Side(U, T) && 1 !in Side(U, T)
    ensures forall i :: 0 <= i < |U| ==> (i + 2 in Side(U, T) <==> U[i] in T)
  {
  }

  lemma CutGrows(arcs: seq<Arc>, a: Arc, W: set<nat>)
    ensures CutCapacity(arcs + [a], W) == CutCapacity(arcs, W) + if a.source in W && a.target !in W then a.cap else 0
  {
    assert (arcs + [a])[..|arcs|] == arcs;
  }

  /** The pair joins two residual vertices at positions x < y with x before i, or x = i and y before j. */
  ghost predicate Seen(U: seq<Vertex>, i: nat, j: nat, e: (Vertex, Vertex)) {
    exists x, y :: 0 <= x < y < |U| && (x < i || (x == i && y < j)) && (e == (U[x], U[y]) || e == (U[y], U[x]))
  }

  ghost function SeenPairs(g: Graph, U: seq<Vertex>, i: nat, j: nat): set<(Vertex, Vertex)> {
    set e | e in ResidualPairs(g, U) && Seen(U, i, j, e)
  }

  lemma SeenStep(g: Graph, U: seq<Vertex>, i: nat, j: nat, e: (Vertex, Vertex))
    requires Distinct(U) && i < j < |U|
    ensures Seen(U, i, j + 1, e) <==> Seen(U, i, j, e) || e == (U[i], U[j]) || e == (U[j], U[i])
    ensures e == (U[i], U[j]) || e == (U[j], U[i]) ==> !Seen(U, i, j, e)
  {
    if Seen(U, i, j + 1, e) {
      var x, y :| 0 <= x < y < |U| && (x < i || (x == i && y < j + 1)) && (e == (U[x], U[y]) || e == (U[y], U[x]));
      assert (x == i && y == j) || Seen(U, i, j, e);
    }
  }

  lemma PairIsResidual(g: Graph, U: seq<Vertex>, i: nat, j: nat)
    requires i < |U| && j < |U|
    ensures (U[i], U[j]) in ResidualPairs(g, U) <==> Adjacent(g, U[i], U[j])
    ensures Adjacent(g, U[i], U[j]) <==> Adjacent(g, U[j], U[i])
  {
    assert U[i] in Elems(U) && U[j] in Elems(U);
    if U[j] in Neighbours(g, U[i]) { NeighbourFacts(g, U[i], U[j]); }
    if U[i] in Neighbours(g, U[j]) { NeighbourFacts(g, U[j], U[i]); }
  }

  lemma SeenPairsStep(g: Graph, U: seq<Vertex>, i: nat, j: nat)
    requires Distinct(U) && i < j < |U|
    ensures var P, a, b := SeenPairs(g, U, i, j), (U[i], U[j]), (U[j], U[i]);
            && SeenPairs(g, U, i, j + 1) == (if Adjacent(g, U[i], U[j]) then P + {a, b} else P)
            && a !in P && b !in P && a != b
  {
    hide Seen, Adjacent, ResidualPairs;
    PairIsResidual(g, U, i, j);
    PairIsResidual(g, U, j, i);
    forall e: (Vertex, Vertex)
      ensures Seen(U, i, j + 1, e) <==> Seen(U, i, j, e) || e == (U[i], U[j]) || e == (U[j], U[i])
      ensures e == (U[i], U[j]) || e == (U[j], U[i]) ==> !Seen(U, i, j, e)
    {
      SeenStep(g, U, i, j, e);
    }
  }

  lemma SeenNext(g: Graph, U: seq<Vertex>, i: nat)
    requires i < |U|
    ensures SeenPairs(g, U, i, |U|) == SeenPairs(g, U, i + 1, i + 2)
    ensures SeenPairs(g, U, i, i + 1) == SeenPairs(g, U, i, 0)
  {
    forall e: (Vertex, Vertex) ensures Seen(U, i, |U|, e) <==> Seen(U, i + 1, i + 2, e) {
    }
    forall e: (Vertex, Vertex) ensures Seen(U, i, i + 1, e) <==> Seen(U, i, 0, e) {
    }
  }

  lemma SeenAll(g: Graph, U: seq<Vertex>)
    ensures SeenPairs(g, U, |U|, |U| + 1) == ResidualPairs(g, U)
    ensures SeenPairs(g, U, 0, 1) == {}
  {
    forall e | e in ResidualPairs(g, U) ensures Seen(U, |U|, |U| + 1, e) {
      var x :| 0 <= x < |U| && U[x] == e.0;
      var y :| 0 <= y < |U| && U[y] == e.1;
      NeighbourFacts(g, e.0, e.1);
      assert e == (e.0, e.1);
      assert x < y || y < x;
    }
  }

  lemma CrossingStep(P: set<(Vertex, Vertex)>, x: Vertex, y: Vertex, T: set<Vertex>)
    requires (x, y) !in P && (y, x) !in P && x != y
    ensures |Crossing(P + {(x, y), (y, x)}, T)| ==
              |Crossing(P, T)| + (if x in T && y !in T then 1 else 0) + (if y in T && x !in T then 1 else 0)
  {
    var C, D := Crossing(P, T), Crossing(P + {(x, y), (y, x)}, T);
    if x in T && y !in T {
      assert D == C + {(x, y)};
    } else if y in T && x !in T {
      assert D == C + {(y, x)};
    } else {
      assert D == C;
    }
  }

  /** All arcs are fresh, and the cut of each T's side counts the seen pairs that leave T, q each. */
  ghost predicate PairsCut(arcs: seq<Arc>, U: seq<Vertex>, q: int, P: set<(Vertex, Vertex)>) {
    && (forall k :: 0 <= k < |arcs| ==> arcs[k].flow == 0)
    && forall T: set<Vertex> :: CutCapacity(arcs, Side(U, T)) == q * |Crossing(P, T)|
  }

  lemma PairsCutStart(U: seq<Vertex>, q: int)
    ensures PairsCut([], U, q, {})
  {
    forall T: set<Vertex> ensures CutCapacity([], Side(U, T)) == q * |Crossing({}, T)| {
      assert Crossing({}, T) == {};
    }
  }

  lemma PairsCutStep(arcs: seq<Arc>, U: seq<Vertex>, q: int, P: set<(Vertex, Vertex)>, i: nat, j: nat, a: Arc, b: Arc)
    requires PairsCut(arcs, U, q, P) && i < j < |U| && U[i] != U[j]
    requires (U[i], U[j]) !in P && (U[j], U[i]) !in P
    requires a.source == i + 2 && a.target == j + 2 && a.cap == q && a.flow == 0
    requires b.source == j + 2 && b.target == i + 2 && b.cap == q && b.flow == 0
    ensures PairsCut(arcs + [a] + [b], U, q, P + {(U[i], U[j]), (U[j], U[i])})
  {
    hide Crossing, Side, CutCapacity;
    var Q := P + {(U[i], U[j]), (U[j], U[i])};
    forall T: set<Vertex> ensures CutCapacity(arcs + [a] + [b], Side(U, T)) == q * |Crossing(Q, T)| {
      var W := Side(U, T);
      SideFacts(U, T);
      CutGrows(arcs, a, W);
      CutGrows(arcs + [a], b, W);
      CrossingStep(P, U[i], U[j], T);
      Distribute(q, |Crossing(P, T)|, (if U[i] in T && U[j] !in T then 1 else 0) + if U[j] in T && U[i] !in T then 1 else 0);
    }
  }

  lemma Distribute(q: int, x: int, y: int)
    ensures q * (x + y) == q * x + q * y
  {
  }

  /** Adds two opposite arcs for every edge between residual vertices. */
  method AddResidualArcs(d: Dinic, g: Graph, U: seq<Vertex>, q: int)
    requires d.Valid() && d.n == |U| + 2 && d.arcs == [] && Distinct(U) && q > 0
    modifies d
    ensures d.Valid() && PairsCut(d.arcs, U, q, ResidualPairs(g, U))
  {
    hide *;
    SeenAll(g, U);
    PairsCutStart(U, q);
    for i := 0 to |U|
      invariant d.Valid() && PairsCut(d.arcs, U, q, SeenPairs(g, U, i, i + 1))
    {
      for j := i + 1 to |U|
        invariant d.Valid() && PairsCut(d.arcs, U, q, SeenPairs(g, U, i, j))
      {
        SeenPairsStep(g, U, i, j);
        if Adjacent(g, U[i], U[j]) {
          ghost var arcs := d.arcs;
          d.AddEdge(i + 2, j + 2, q);
          ghost var middle := d.arcs;
          d.AddEdge(j + 2, i + 2, q);
          PairsCutStep(arcs, U, q, SeenPairs(g, U, i, j), i, j, middle[|arcs|], d.arcs[|middle|]);
        }
      }
      SeenNext(g, U, i);
    }
  }

  /** With the first m terminal arcs. */
  ghost predicate NetworkCut(arcs: seq<Arc>, g: Graph, U: seq<Vertex>, q: int, w: seq<int>, m: nat) {
    && m <= |U| && m <= |w|
    && (forall k :: 0 <= k < |arcs| ==> arcs[k].flow == 0)
    && forall T: set<Vertex> {:trigger Side(U, T)} ::
         CutCapacity(arcs, Side(U, T)) == q * |Crossing(ResidualPairs(g, U), T)| + Terminal(U, w, T, m)
  }

  lemma NetworkCutStart(arcs: seq<Arc>, g: Graph, U: seq<Vertex>, q: int, w: seq<int>)
    requires PairsCut(arcs, U, q, ResidualPairs(g, U))
    ensures NetworkCut(arcs, g, U, q, w, 0)
  {
  }

  lemma NetworkCutStep(arcs: seq<Arc>, g: Graph, U: seq<Vertex>, q: int, w: seq<int>, m: nat, a: Arc)
    requires NetworkCut(arcs, g, U, q, w, m) && m < |U| && m < |w| && a.flow == 0
    requires if w[m] >= 0 then a.source == m + 2 && a.target == 1 && a.cap == w[m]
             else a.source == 0 && a.target == m + 2 && a.cap == -w[m]
    ensures NetworkCut(arcs + [a], g, U, q, w, m + 1)
    ensures w[m] == 0 ==> NetworkCut(arcs, g, U, q, w, m + 1)
  {
    hide Crossing, Side, CutCapacity;
    forall T: set<Vertex>
      ensures CutCapacity(arcs + [a], Side(U, T)) == q * |Crossing(ResidualPairs(g, U), T)| + Terminal(U, w, T, m + 1)
      ensures w[m] == 0 ==>
                CutCapacity(arcs, Side(U, T)) == q * |Crossing(ResidualPairs(g, U), T)| + Terminal(U, w, T, m + 1)
    {
      SideFacts(U, T);
      CutGrows(arcs, a, Side(U, T));
    }
  }

  // ----- one grid point -----

  function Weights(a: seq<nat>, p: int, q: int): (w: seq<int>)
    ensures Weighted(a, p, q, w)
  {
    seq(|a|, i requires 0 <= i < |a| => p - q * a[i])
  }

  /** The weights among the first m that are not negative. */
  ghost function Positive(w: seq<int>, m: nat): nat
    requires m <= |w|
  {
    if m == 0 then 0 else Positive(w, m - 1) + if w[m - 1] >= 0 then w[m - 1] else 0
  }

  /**
    The terminal arcs of a point fit: every weight is a 64-bit number, and so is
    the constant with the negative weights folded in, and neither terminal has a
    quarter of the 64-bit range as capacity.
   */
  ghost predicate TerminalsFit(a: seq<nat>, p: int, q: int, constant: int) {
    var w := Weights(a, p, q);
    && (forall i :: 0 <= i < |a| ==> InRange(q * a[i]) && InRange(w[i]))
    && InRange(constant + Negative(w, |a|))
    && -Negative(w, |a|) < INT64_MAX / 4 && Positive(w, |a|) < INT64_MAX / 4
  }

  lemma {:induction false} WeightsPileUp(w: seq<int>, i: nat, m: nat)
    requires i <= m <= |w|
    ensures Negative(w, m) <= Negative(w, i) <= 0 && Positive(w, i) <= Positive(w, m)
    decreases m
  {
    if i < m {
      WeightsPileUp(w, i, m - 1);
    } else if i > 0 {
      WeightsPileUp(w, i - 1, i - 1);
    }
  }

  lemma NegativeStep(w: seq<int>, m: nat)
    requires m < |w|
    ensures Negative(w, m + 1) == Negative(w, m) + if w[m] < 0 then w[m] else 0
    ensures Positive(w, m + 1) == Positive(w, m) + if w[m] >= 0 then w[m] else 0
    ensures Negative(w, 0) == Positive(w, 0) == 0
  {
  }

  /**
    Adds the arc of each residual vertex to the sink or from the source and folds
    the negative weights into the constant; None stands for an overflow.
   */
  method AddTerminalArcs(d: Dinic, ghost g: Graph, ghost U: seq<Vertex>, a: seq<nat>, p: int, q: int, constant: int)
    returns (scaled: Option<int>)
    requires d.Valid() && d.n == |a| + 2 && |a| == |U| && PairsCut(d.arcs, U, q, ResidualPairs(g, U))
    requires InRange(constant)
    modifies d
    ensures d.Valid() && |Weights(a, p, q)| == |a|
    ensures scaled.Some? <==> TerminalsFit(a, p, q, constant)
    ensures scaled.Some? ==>
              && NetworkCut(d.arcs, g, U, q, Weights(a, p, q), |U|)
              && scaled.value == constant + Negative(Weights(a, p, q), |U|)
  {
    hide PairsCut, NetworkCut, ResidualPairs, Negative, Positive, Dinic.Valid, Weighted;
    ghost var w := Weights(a, p, q);
    NetworkCutStart(d.arcs, g, U, q, w);
    var sum, sumSource, sumSink := constant, 0, 0;
    NoWeights(w);
    for i := 0 to |a|
      invariant d.Valid() && NetworkCut(d.arcs, g, U, q, w, i)
      invariant sum == constant + Negative(w, i) && sumSource == -Negative(w, i) && sumSink == Positive(w, i)
      invariant InRange(sum) && forall j :: 0 <= j < i ==> InRange(q * a[j]) && InRange(w[j])
    {
      NegativeStep(w, i);
      WeightsPileUp(w, i, |a|);
      WeightsPileUp(w, i + 1, |a|);
      var qa := Checked(q * a[i]);
      if qa == None {
        return None;
      }
      var weight := Checked(p - qa.value);
      if weight == None {
        return None;
      }
      ghost var arcs := d.arcs;
      if weight.value >= 0 {
        var total := Checked(sumSink + weight.value);
        if total == None {
          return None;
        }
        sumSink := total.value;
        d.AddEdge(i + 2, 1, weight.value);
        NetworkCutStep(arcs, g, U, q, w, i, if weight.value == 0 then Arc(i + 2, 1, 0, 0, 0, 0) else d.arcs[|arcs|]);
      } else {
        var folded, negated := Checked(sum + weight.value), Checked(-weight.value);
        if folded == None || negated == None {
          return None;
        }
        var total := Checked(sumSource + negated.value);
        if total == None {
          return None;
        }
        sum, sumSource := folded.value, total.value;
        d.AddEdge(0, i + 2, negated.value);
        NetworkCutStep(arcs, g, U, q, w, i, d.arcs[|arcs|]);
      }
    }
    if sumSource >= INT64_MAX / 4 || sumSink >= INT64_MAX / 4 {
      return None;
    }
    return Some(sum);
  }

  lemma NoWeights(w: seq<int>)
    ensures Negative(w, 0) == Positive(w, 0) == 0
  {
  }

  /** b bounds the cut of S with every residual set of cardinality t. */
  ghost predicate Bounds(g: Graph, S: set<Vertex>, t: nat, b: nat) {
    forall T: set<Vertex> :: T <= Vertices(g) - S && |T| == t ==> b <= Cut(g, S + T)
  }

  lemma {:induction false} FreshIsConserved(arcs: seq<Arc>, x: nat)
    requires forall k :: 0 <= k < |arcs| ==> arcs[k].flow == 0
    ensures NetOut(arcs, x) == 0
  {
    if arcs != [] {
      FreshIsConserved(arcs[..|arcs| - 1], x);
    }
  }

  /** The Lagrangian of the residual set T at multiplier p/q and cardinality t, times q. */
  ghost function Scaled(g: Graph, S: set<Vertex>, p: int, q: int, t: nat, T: set<Vertex>): int {
    q * Cut(g, S + T) + p * (|T| - t)
  }

  /** m is the least Lagrangian of all residual sets. */
  ghost predicate IsLeast(g: Graph, S: set<Vertex>, p: int, q: int, t: nat, m: int) {
    && (forall T: set<Vertex> :: T <= Vertices(g) - S ==> m <= Scaled(g, S, p, q, t, T))
    && exists T: set<Vertex> :: T <= Vertices(g) - S && m == Scaled(g, S, p, q, t, T)
  }

  /** The bound is the least natural number whose q-fold reaches the total; None when one of them does not fit. */
  ghost predicate RoundsUp(total: int, q: int, bound: Option<nat>) {
    && (bound.Some? <==> InRange(total) && total <= UINT32_MAX * q)
    && (bound.Some? ==> total <= bound.value * q && (bound.value > 0 ==> (bound.value - 1) * q < total))
  }

  /** Every intermediate number of the point fits. */
  ghost predicate PointFits(a: seq<nat>, p: int, q: int, t: nat) {
    && q < INT64_MAX / 4 && InRange(q * Sum(a, |a|)) && InRange(p * t) && InRange(q * Sum(a, |a|) - p * t)
    && TerminalsFit(a, p, q, q * Sum(a, |a|) - p * t)
  }

  /** What the grid point p/q, t yields: the least Lagrangian rounded up, or None where something does not fit. */
  ghost predicate PointValue(g: Graph, S: set<Vertex>, a: seq<nat>, q: int, t: nat, p: int, bound: Option<nat>) {
    if PointFits(a, p, q, t) then exists m :: IsLeast(g, S, p, q, t, m) && RoundsUp(m, q, bound) else bound == None
  }

  /** A grid point yields one value only. */
  lemma PointValueIsUnique(g: Graph, S: set<Vertex>, a: seq<nat>, q: int, t: nat, p: int, b: Option<nat>, c: Option<nat>)
    requires q > 0 && PointValue(g, S, a, q, t, p, b) && PointValue(g, S, a, q, t, p, c)
    ensures b == c
  {
    hide Scaled, PointFits;
    if PointFits(a, p, q, t) {
      var m :| IsLeast(g, S, p, q, t, m) && RoundsUp(m, q, b);
      var m' :| IsLeast(g, S, p, q, t, m') && RoundsUp(m', q, c);
      var T :| T <= Vertices(g) - S && m == Scaled(g, S, p, q, t, T);
      var T' :| T' <= Vertices(g) - S && m' == Scaled(g, S, p, q, t, T');
      assert m == m';
      if b.Some? {
        OneRounding(m, q, b.value, c.value);
      }
    }
  }

  lemma OneRounding(m: int, q: int, b: nat, c: nat)
    requires q > 0 && m <= b * q && m <= c * q && (b > 0 ==> (b - 1) * q < m) && (c > 0 ==> (c - 1) * q < m)
    ensures b == c
  {
    if b < c {
      TimesMonotone(b, c - 1, q);
    } else if c < b {
      TimesMonotone(c, b - 1, q);
    }
  }

  lemma TimesMonotone(x: int, y: int, q: int)
    requires x <= y && q > 0
    ensures x * q <= y * q
  {
  }

  /** A point's value bounds every residual set of its cardinality. */
  lemma PointBounds(g: Graph, S: set<Vertex>, a: seq<nat>, q: int, t: nat, p: int, b: nat)
    requires q > 0 && PointValue(g, S, a, q, t, p, Some(b))
    ensures Bounds(g, S, t, b)
  {
    hide PointFits, Cut, Scaled;
    var m :| IsLeast(g, S, p, q, t, m) && RoundsUp(m, q, Some(b));
    forall T: set<Vertex> | T <= Vertices(g) - S && |T| == t ensures b <= Cut(g, S + T) {
      assert m <= Scaled(g, S, p, q, t, T);
      NoDefect(g, S, p, q, t, T);
      Rounding(m, q, b, Cut(g, S + T));
    }
  }

  lemma NoDefect(g: Graph, S: set<Vertex>, p: int, q: int, t: nat, T: set<Vertex>)
    requires |T| == t
    ensures Scaled(g, S, p, q, t, T) == Cut(g, S + T) * q
  {
    assert p * (|T| - t) == 0;
  }

  lemma Rounding(m: int, q: int, b: nat, c: nat)
    requires q > 0 && (b > 0 ==> (b - 1) * q < m) && m <= c * q
    ensures b <= c
  {
    if c < b {
      TimesMonotone(c, b - 1, q);
    }
  }

  /** The constant and the minimum cut make the least Lagrangian; the residual set is read off the cut. */
  lemma CutIsLeast(g: Graph, S: set<Vertex>, U: seq<Vertex>, a: seq<nat>, p: int, q: int, t: nat, arcs: seq<Arc>,
                   minCut: int, W: set<nat>, scaled: int)
    requires S <= Vertices(g) && Distinct(U) && Elems(U) == Vertices(g) - S && Counts(g, S, U, a) && q > 0
    requires |a| == |U| == |Weights(a, p, q)| && NetworkCut(arcs, g, U, q, Weights(a, p, q), |U|)
    requires forall W: set<nat> :: 0 in W && 1 !in W ==> minCut <= CutCapacity(arcs, W)
    requires 0 in W && 1 !in W && W <= Below(|U| + 2) && minCut == CutCapacity(arcs, W)
    requires scaled == q * Sum(a, |U|) - p * t + Negative(Weights(a, p, q), |U|)
    ensures IsLeast(g, S, p, q, t, scaled + minCut)
  {
    hide Counts, ResidualPairs, Crossing, Negative, Terminal, Sum, CutCapacity, Cut, Distinct, Side;
    var w := Weights(a, p, q);
    forall T: set<Vertex> | T <= Vertices(g) - S
      ensures scaled + CutCapacity(arcs, Side(U, T)) == Scaled(g, S, p, q, t, T)
    {
      Reduction(g, S, U, a, p, q, w, T);
      Defect(p, |T|, t);
    }
    forall T: set<Vertex> | T <= Vertices(g) - S ensures scaled + minCut <= Scaled(g, S, p, q, t, T) {
      SideFacts(U, T);
      assert minCut <= CutCapacity(arcs, Side(U, T));
    }
    var T := Picked(U, W);
    PickedSide(U, W);
    assert scaled + minCut == Scaled(g, S, p, q, t, T);
  }

  lemma Defect(p: int, size: int, t: int)
    ensures p * (size - t) == p * size - p * t
  {
  }

  /** The residual vertices whose nodes lie in W. */
  ghost function Picked(U: seq<Vertex>, W: set<nat>): set<Vertex> {
    set i | 0 <= i < |U| && i + 2 in W :: U[i]
  }

  lemma PickedSide(U: seq<Vertex>, W: set<nat>)
    requires Distinct(U) && 0 in W && 1 !in W && W <= Below(|U| + 2)
    ensures Picked(U, W) <= Elems(U) && Side(U, Picked(U, W)) == W
  {
    var T := Picked(U, W);
    forall x: nat ensures x in Side(U, T) <==> x in W {
      if x in W {
        assert x in Below(|U| + 2);
        if x > 0 {
          assert U[x - 2] in T;
        }
      }
    }
  }

  /** One grid point; None stands for a point skipped because of an overflow. */
  method EvaluatePoint(g: Graph, S: set<Vertex>, U: seq<Vertex>, a: seq<nat>, p: int, q: int, t: nat)
    returns (bound: Option<nat>)
    requires S <= Vertices(g) && Distinct(U) && Elems(U) == Vertices(g) - S && Counts(g, S, U, a) && q > 0
    ensures PointValue(g, S, a, q, t, p, bound)
  {
    hide Counts, IsLeast, RoundsUp, Sum, TerminalsFit;
    if q >= INT64_MAX / 4 {
      return None;
    }
    var sum: nat := 0;
    SumStart(a);
    for i := 0 to |a|
      invariant sum == Sum(a, i)
    {
      SumStep(a, i);
      sum := sum + a[i];
    }
    var scaledSum, scaledMultiplier := Checked(q * sum), Checked(p * t);
    if scaledSum == None || scaledMultiplier == None {
      return None;
    }
    var constant := Checked(scaledSum.value - scaledMultiplier.value);
    if constant == None {
      return None;
    }
    bound := SolvePoint(g, S, U, a, p, q, t, constant.value);
  }

  lemma SumStart(a: seq<nat>)
    ensures Sum(a, 0) == 0
  {
  }

  lemma SumStep(a: seq<nat>, i: nat)
    requires i < |a|
    ensures Sum(a, i + 1) == Sum(a, i) + a[i]
  {
  }

  method SolvePoint(g: Graph, S: set<Vertex>, U: seq<Vertex>, a: seq<nat>, p: int, q: int, t: nat, constant: int)
    returns (bound: Option<nat>)
    requires S <= Vertices(g) && Distinct(U) && Elems(U) == Vertices(g) - S && Counts(g, S, U, a) && q > 0
    requires constant == q * Sum(a, |a|) - p * t && InRange(constant)
    ensures if TerminalsFit(a, p, q, constant) then exists m :: IsLeast(g, S, p, q, t, m) && RoundsUp(m, q, bound)
            else bound == None
  {
    hide *;
    SameLength(g, S, U, a);
    var dinic := new Dinic(|U| + 2);
    AddResidualArcs(dinic, g, U, q);
    var scaled := AddTerminalArcs(dinic, g, U, a, p, q, constant);
    if scaled == None {
      return None;
    }
    NetworkIsFresh(dinic.arcs, g, U, q, Weights(a, p, q));
    ghost var arcs := dinic.arcs;
    var minCut, _ := dinic.MaxFlow(0, 1);
    ReachedNodes(dinic);
    CutIsLeast(g, S, U, a, p, q, t, arcs, minCut, Reached(dinic.level), scaled.value);
    bound := RoundBound(scaled.value + minCut, q);
  }

  lemma SameLength(g: Graph, S: set<Vertex>, U: seq<Vertex>, a: seq<nat>)
    requires Counts(g, S, U, a)
    ensures |a| == |U|
  {
  }

  lemma ReachedNodes(d: Dinic)
    requires d.Valid()
    ensures Reached(d.level) <= Below(d.n)
  {
  }

  /** The bound of a point, rounded up; negative bounds read zero, and what does not fit is dropped. */
  method RoundBound(total: int, q: int) returns (bound: Option<nat>)
    requires q > 0
    ensures RoundsUp(total, q, bound)
  {
    if Checked(total) == None {
      return None;
    }
    var b := CeilDiv(total, q);
    CeilDivIsLeast(total, q, b);
    CeilDivIsLeast(total, q, b - 1);
    CeilDivIsLeast(total, q, 0);
    CeilDivIsLeast(total, q, UINT32_MAX);
    if b <= 0 {
      return Some(0);
    }
    return if b > UINT32_MAX then None else Some(b);
  }

  lemma NetworkIsFresh(arcs: seq<Arc>, g: Graph, U: seq<Vertex>, q: int, w: seq<int>)
    requires NetworkCut(arcs, g, U, q, w, |U|)
    ensures Conserved(arcs, 0, 1, 0)
  {
    hide ResidualPairs, Crossing, CutCapacity, Side, Terminal;
    forall x ensures NetOut(arcs, x) == 0 {
      FreshIsConserved(arcs, x);
    }
  }

  // ----- the grid -----

  datatype Telemetry = Telemetry(mincuts: nat, bestCardinality: nat, bestNumerator: int, bestDenominator: int,
                                 certifiedBound: nat, overflow: bool, ineligible: bool)

  const NO_BOUND := Telemetry(0, 0, 0, 1, 0, false, false)

  /** Those selected that lie strictly between zero and the residual size, in the order given; or all such. */
  ghost function CardinalityGrid(selected: seq<nat>, size: nat): seq<nat> {
    if selected == [] then FromOne(size) else Proper(selected, size)
  }

  ghost function FromOne(size: nat): seq<nat> {
    if size <= 1 then [] else FromOne(size - 1) + [size - 1]
  }

  ghost function Proper(selected: seq<nat>, size: nat): seq<nat> {
    if selected == [] then []
    else
      var t := selected[|selected| - 1];
      Proper(selected[..|selected| - 1], size) + if 1 <= t < size then [t] else []
  }

  /** A cardinality is scanned iff it is proper and, where some are selected, among them. */
  lemma {:induction false} GridMembers(selected: seq<nat>, size: nat, t: nat)
    ensures t in FromOne(size) <==> 1 <= t < size
    ensures t in Proper(selected, size) <==> 1 <= t < size && t in selected
    decreases |selected|, size
  {
    if size > 1 {
      GridMembers([], size - 1, t);
    }
    if selected != [] {
      GridMembers(selected[..|selected| - 1], size, t);
      assert selected == selected[..|selected| - 1] + [selected[|selected| - 1]];
    }
  }

  method Cardinalities(selected: seq<nat>, size: nat) returns (ts: seq<nat>)
    requires size > 1
    ensures ts == CardinalityGrid(selected, size)
    ensures forall t :: t in ts <==> 1 <= t < size && (selected == [] || t in selected)
  {
    forall t: nat ensures t in CardinalityGrid(selected, size) <==> 1 <= t < size && (selected == [] || t in selected) {
      GridMembers(selected, size, t);
    }
    ts := [];
    if selected != [] {
      for i := 0 to |selected|
        invariant ts == Proper(selected[..i], size)
      {
        assert selected[..i + 1][..i] == selected[..i];
        if 1 <= selected[i] < size {
          ts := ts + [selected[i]];
        }
      }
      assert selected[..|selected|] == selected;
      return;
    }
    for t := 1 to size
      invariant ts == FromOne(t)
    {
      ts := ts + [t];
    }
  }

  /** The numerators given, or all from -limit to limit; None stands for a range too large. */
  ghost function NumeratorGrid(given: Option<seq<int>>, q: nat, maxDegree: nat): Option<seq<int>> {
    if given.Some? then given
    else if !InRange(q * maxDegree) || q * maxDegree > 100000 then None
    else Some(seq(2 * (q * maxDegree) + 1, i => i - q * maxDegree))
  }

  method Numerators(given: Option<seq<int>>, q: nat, maxDegree: nat) returns (ps: Option<seq<int>>)
    ensures ps == NumeratorGrid(given, q, maxDegree)
  {
    if given.Some? {
      return given;
    }
    var limit := Checked(q * maxDegree);
    if limit == None || limit.value > 100000 {
      return None;
    }
    var list := [];
    var p := -limit.value;
    while p <= limit.value
      invariant -limit.value <= p <= limit.value + 1 && list == seq(p + limit.value, i => i - limit.value)
      decreases limit.value - p
    {
      list := list + [p];
      p := p + 1;
    }
    return Some(list);
  }

  /** What the telemetry certifies. */
  ghost predicate Certifies(g: Graph, S: set<Vertex>, tel: Telemetry) {
    tel.certifiedBound > 0 ==>
      1 <= tel.bestCardinality < |Vertices(g) - S| && Bounds(g, S, tel.bestCardinality, tel.certifiedBound)
  }

  /** The grid row by row: every cardinality with every numerator. */
  ghost function Grid(ts: seq<nat>, ps: seq<int>): seq<(nat, int)> {
    if ts == [] then [] else Grid(ts[..|ts| - 1], ps) + Row(ts[|ts| - 1], ps)
  }

  ghost function Row(t: nat, ps: seq<int>): seq<(nat, int)> {
    if ps == [] then [] else Row(t, ps[..|ps| - 1]) + [(t, ps[|ps| - 1])]
  }

  /** The values of the points, one by one. */
  ghost predicate Values(g: Graph, S: set<Vertex>, a: seq<nat>, q: int, points: seq<(nat, int)>, values: seq<Option<nat>>) {
    && |values| == |points|
    && forall k :: 0 <= k < |points| ==> PointValue(g, S, a, q, points[k].0, points[k].1, values[k])
  }

  /** The telemetry counts the points, keeps the first of the best values, and reports a point that was skipped. */
  ghost predicate KeepsBest(q: int, points: seq<(nat, int)>, values: seq<Option<nat>>, tel: Telemetry) {
    && |values| == |points| == tel.mincuts && (tel.overflow <==> None in values)
    && (forall k :: 0 <= k < |values| && values[k].Some? ==> values[k].value <= tel.certifiedBound)
    && (tel.certifiedBound > 0 ==> BestAt(q, points, values, tel))
  }

  ghost predicate BestAt(q: int, points: seq<(nat, int)>, values: seq<Option<nat>>, tel: Telemetry) {
    exists k :: 0 <= k < |values| && k < |points| && values[k] == Some(tel.certifiedBound)
      && points[k] == (tel.bestCardinality, tel.bestNumerator) && q == tel.bestDenominator
      && Some(tel.certifiedBound) !in values[..k]
  }

  /** No value exceeds the threshold. */
  ghost predicate Within(threshold: Option<nat>, values: seq<Option<nat>>) {
    threshold.Some? ==> forall k :: 0 <= k < |values| && values[k].Some? ==> values[k].value <= threshold.value
  }

  /** The scan covers the grid, or ends with the first point whose value exceeds the threshold. */
  ghost predicate StopsWell(threshold: Option<nat>, grid: seq<(nat, int)>, values: seq<Option<nat>>) {
    || (|values| == |grid| && Within(threshold, values))
    || (0 < |values| <= |grid| && threshold.Some? && Within(threshold, values[..|values| - 1])
        && values[|values| - 1].Some? && values[|values| - 1].value > threshold.value)
  }

  /** A scan of the grid: the values of the points met, up to the first above the threshold, and the best of them. */
  ghost predicate Scanned(g: Graph, S: set<Vertex>, a: seq<nat>, q: int, grid: seq<(nat, int)>, threshold: Option<nat>,
                          values: seq<Option<nat>>, tel: Telemetry) {
    && |values| <= |grid| && Values(g, S, a, q, grid[..|values|], values)
    && KeepsBest(q, grid[..|values|], values, tel) && StopsWell(threshold, grid, values)
  }

  ghost function Degrees(g: Graph, S: set<Vertex>, U: seq<Vertex>): seq<nat> {
    seq(|U|, i requires 0 <= i < |U| => |Neighbours(g, U[i]) * S|)
  }

  lemma CountsAreDegrees(g: Graph, S: set<Vertex>, U: seq<Vertex>, a: seq<nat>)
    requires Counts(g, S, U, a)
    ensures a == Degrees(g, S, U)
  {
  }

  /** Scans the grid of cardinalities and multipliers and keeps the best certified bound. */
  method Evaluate(g: Graph, S: set<Vertex>, threshold: Option<nat>, selected: seq<nat>, denominator: Option<nat>,
                  numerators: Option<seq<int>>)
    returns (tel: Telemetry, ghost values: seq<Option<nat>>)
    requires S <= Vertices(g)
    ensures Certifies(g, S, tel)
    ensures tel.ineligible <==>
              || |Vertices(g) - S| <= 1 || denominator == Some(0)
              || (selected != [] && forall t :: t in selected ==> t == 0 || t >= |Vertices(g) - S|)
    ensures tel.ineligible ==> tel == NO_BOUND.(ineligible := true)
    ensures !tel.ineligible ==>
              var q := if denominator.Some? then denominator.value else 2;
              var ps := NumeratorGrid(numerators, q, MaximumDegree(g, Size(g)));
              if ps == None then tel == NO_BOUND.(overflow := true)
              else Scanned(g, S, Degrees(g, S, Unplaced(S, Size(g))), q,
                           Grid(CardinalityGrid(selected, |Vertices(g) - S|), ps.value), threshold, values, tel)
    ensures !tel.ineligible && Size(g) <= 0x8000 && (denominator.Some? ==> denominator.value <= 0x10_0000)
            && (if numerators.Some? then forall p :: p in numerators.value ==> -0x100_0000_0000 <= p <= 0x100_0000_0000
                else (if denominator.Some? then denominator.value else 2) * MaximumDegree(g, Size(g)) <= 100000) ==>
              !tel.overflow && None !in values
  {
    hide Bounds, Distinct, Grid, Scanned, CardinalityGrid, NumeratorGrid, Degrees, Unplaced;
    tel, values := NO_BOUND, [];
    var U := ResidualVertices(g, S);
    DistinctSize(U);
    if |U| <= 1 {
      return tel.(ineligible := true), values;
    }
    var q := if denominator.Some? then denominator.value else 2;
    if q == 0 {
      return tel.(ineligible := true), values;
    }
    var ts := Cardinalities(selected, |U|);
    assert ts != [] ==> ts[0] in ts;
    assert selected == [] ==> 1 in ts;
    if ts == [] {
      return tel.(ineligible := true), values;
    }
    var ps := Numerators(numerators, q, MaximumDegree(g, Size(g)));
    OrdinaryNumerators(numerators, q, MaximumDegree(g, Size(g)));
    if ps == None {
      return tel.(overflow := true), values;
    }
    tel, values := EvaluateGrid(g, S, U, threshold, ts, ps.value, q);
  }

  /** The scan, from the placed neighbours of the residual vertices. */
  method EvaluateGrid(g: Graph, S: set<Vertex>, U: seq<Vertex>, threshold: Option<nat>, ts: seq<nat>, ps: seq<int>, q: nat)
    returns (tel: Telemetry, ghost values: seq<Option<nat>>)
    requires S <= Vertices(g) && Distinct(U) && Elems(U) == Vertices(g) - S && q > 0
    requires |U| == |Vertices(g) - S| && forall t :: t in ts ==> 1 <= t < |U|
    ensures Certifies(g, S, tel) && !tel.ineligible
    ensures Scanned(g, S, Degrees(g, S, U), q, Grid(ts, ps), threshold, values, tel)
    ensures Size(g) <= 0x8000 && q <= 0x10_0000
            && (forall p :: p in ps ==> -0x100_0000_0000 <= p <= 0x100_0000_0000) ==>
              !tel.overflow && None !in values
  {
    hide Bounds, Certifies, Distinct, Grid, Scanned, Degrees, Vertices;
    var a := PlacedNeighbours(g, S, U);
    CountsAreDegrees(g, S, U, a);
    tel, values := Scan(g, S, U, a, threshold, ts, ps, q);
    OrdinaryScan(g, S, U, a, q, ts, ps, threshold, values, tel);
  }

  method Scan(g: Graph, S: set<Vertex>, U: seq<Vertex>, a: seq<nat>, threshold: Option<nat>, ts: seq<nat>, ps: seq<int>,
              q: nat)
    returns (tel: Telemetry, ghost values: seq<Option<nat>>)
    requires S <= Vertices(g) && Distinct(U) && Elems(U) == Vertices(g) - S && Counts(g, S, U, a) && q > 0
    requires |U| == |Vertices(g) - S| && forall t :: t in ts ==> 1 <= t < |U|
    ensures Certifies(g, S, tel) && !tel.ineligible
    ensures Scanned(g, S, a, q, Grid(ts, ps), threshold, values, tel)
  {
    hide Certifies, Counts, Cut, Distinct, Grid, KeepsBest, PointValue, Row, Scanned, Values, Within;
    tel, values := NO_BOUND, [];
    ghost var points: seq<(nat, int)> := [];
    ScanStarts(g, S, a, q, threshold, ts, ps, tel);
    for i := 0 to |ts|
      invariant points == Grid(ts[..i], ps) && !tel.ineligible
      invariant ScanInvariant(g, S, a, q, threshold, points, values, tel)
    {
      var t := ts[i];
      assert t in ts;
      RowStarts(t, ps);
      for j := 0 to |ps|
        invariant points == Grid(ts[..i], ps) + Row(t, ps[..j]) && !tel.ineligible
        invariant ScanInvariant(g, S, a, q, threshold, points, values, tel)
      {
        var bound := EvaluatePoint(g, S, U, a, ps[j], q, t);
        ghost var last := tel;
        var better := bound.Some? && bound.value > tel.certifiedBound;
        tel := tel.(mincuts := tel.mincuts + 1);
        if bound == None {
          tel := tel.(overflow := true);
        } else if better {
          tel := tel.(bestCardinality := t, bestNumerator := ps[j], bestDenominator := q, certifiedBound := bound.value);
        }
        PointScanned(g, S, a, q, points, values, last, t, ps[j], bound, tel);
        GridStep(ts, ps, i, j);
        ghost var met := values;
        points, values := points + [(t, ps[j])], values + [bound];
        if better && threshold.Some? && tel.certifiedBound > threshold.value {
          ScanStops(g, S, a, q, threshold, Grid(ts, ps), points, met, bound, tel);
          return;
        }
        StillWithin(g, S, a, q, threshold, points, met, bound, last, tel);
      }
      RowEnds(ts, ps, i);
    }
    ScanEnds(g, S, a, q, threshold, ts, ps, points, values, tel);
  }

  /** What holds between two points of a scan that goes on. */
  ghost predicate ScanInvariant(g: Graph, S: set<Vertex>, a: seq<nat>, q: int, threshold: Option<nat>,
                                points: seq<(nat, int)>, values: seq<Option<nat>>, tel: Telemetry) {
    && Certifies(g, S, tel) && Values(g, S, a, q, points, values) && KeepsBest(q, points, values, tel)
    && Within(threshold, values) && (threshold.Some? ==> tel.certifiedBound <= threshold.value)
  }
  lemma ScanStarts(g: Graph, S: set<Vertex>, a: seq<nat>, q: int, threshold: Option<nat>, ts: seq<nat>, ps: seq<int>,
                   tel: Telemetry)
    requires tel == NO_BOUND
    ensures Grid(ts[..0], ps) == [] && !tel.ineligible && ScanInvariant(g, S, a, q, threshold, [], [], tel)
  {
  }

  lemma RowStarts(t: nat, ps: seq<int>)
    ensures Row(t, ps[..0]) == []
  {
  }

  /** The next point extends the row, and the points met stay a prefix of the grid. */
  lemma GridStep(ts: seq<nat>, ps: seq<int>, i: nat, j: nat)
    requires i < |ts| && j < |ps|
    ensures Row(ts[i], ps[..j + 1]) == Row(ts[i], ps[..j]) + [(ts[i], ps[j])]
    ensures Grid(ts[..i], ps) + Row(ts[i], ps[..j + 1]) <= Grid(ts, ps)
  {
    assert ps[..j + 1][..j] == ps[..j];
    RowPrefix(ts[i], ps, j + 1);
    RowEnds(ts, ps, i);
    GridPrefix(ts, ps, i + 1);
    Prefixes(Grid(ts[..i], ps), Row(ts[i], ps[..j + 1]), Row(ts[i], ps), Grid(ts, ps));
  }

  lemma Prefixes<X>(a: seq<X>, b: seq<X>, c: seq<X>, d: seq<X>)
    requires b <= c && a + c <= d
    ensures a + b <= d
  {
    assert d == a + c + d[|a| + |c|..] && c == b + c[|b|..];
    assert d == a + b + (c[|b|..] + d[|a| + |c|..]);
  }

  lemma {:induction false} RowPrefix(t: nat, ps: seq<int>, j: nat)
    requires j <= |ps|
    ensures Row(t, ps[..j]) <= Row(t, ps)
    decreases |ps|
  {
    if j == |ps| {
      assert ps[..j] == ps;
    } else {
      RowPrefix(t, ps[..|ps| - 1], j);
      assert ps[..|ps| - 1][..j] == ps[..j];
    }
  }

  lemma {:induction false} GridPrefix(ts: seq<nat>, ps: seq<int>, i: nat)
    requires i <= |ts|
    ensures Grid(ts[..i], ps) <= Grid(ts, ps)
    decreases |ts|
  {
    if i == |ts| {
      assert ts[..i] == ts;
    } else {
      GridPrefix(ts[..|ts| - 1], ps, i);
      assert ts[..|ts| - 1][..i] == ts[..i];
    }
  }

  lemma RowEnds(ts: seq<nat>, ps: seq<int>, i: nat)
    requires i < |ts|
    ensures Row(ts[i], ps[..|ps|]) == Row(ts[i], ps)
    ensures Grid(ts[..i + 1], ps) == Grid(ts[..i], ps) + Row(ts[i], ps)
  {
    assert ts[..i + 1][..i] == ts[..i] && ps[..|ps|] == ps;
  }

  /** One more point is counted, and its value kept if it is better than all before. */
  lemma PointScanned(g: Graph, S: set<Vertex>, a: seq<nat>, q: int, points: seq<(nat, int)>, values: seq<Option<nat>>,
                     last: Telemetry, t: nat, p: int, bound: Option<nat>, tel: Telemetry)
    requires q > 0 && 1 <= t < |Vertices(g) - S| && PointValue(g, S, a, q, t, p, bound)
    requires Certifies(g, S, last) && Values(g, S, a, q, points, values) && KeepsBest(q, points, values, last)
    requires tel == Updated(last, t, p, q, bound)
    ensures Certifies(g, S, tel)
    ensures Values(g, S, a, q, points + [(t, p)], values + [bound])
    ensures KeepsBest(q, points + [(t, p)], values + [bound], tel)
  {
    hide Bounds, PointValue;
    if bound.Some? {
      PointBounds(g, S, a, q, t, p, bound.value);
    }
    BestStays(q, points, values, last, t, p, bound);
  }

  /** The telemetry after one more point. */
  ghost function Updated(last: Telemetry, t: nat, p: int, q: nat, bound: Option<nat>): Telemetry {
    var counted := last.(mincuts := last.mincuts + 1);
    if bound == None then counted.(overflow := true)
    else if bound.value > last.certifiedBound then
      counted.(bestCardinality := t, bestNumerator := p, bestDenominator := q, certifiedBound := bound.value)
    else counted
  }

  lemma BestStays(q: nat, points: seq<(nat, int)>, values: seq<Option<nat>>, last: Telemetry, t: nat, p: int,
                  bound: Option<nat>)
    requires KeepsBest(q, points, values, last)
    ensures KeepsBest(q, points + [(t, p)], values + [bound], Updated(last, t, p, q, bound))
  {
    var points', values', tel := points + [(t, p)], values + [bound], Updated(last, t, p, q, bound);
    assert None in values' <==> None in values || bound == None;
    if bound.Some? && bound.value > last.certifiedBound {
      assert values'[..|values|] == values && values'[|values|] == Some(tel.certifiedBound);
      assert BestAt(q, points', values', tel);
    } else if tel.certifiedBound > 0 {
      var k :| 0 <= k < |values| && k < |points| && values[k] == Some(last.certifiedBound)
               && points[k] == (last.bestCardinality, last.bestNumerator) && q == last.bestDenominator
               && Some(last.certifiedBound) !in values[..k];
      assert values'[..k] == values[..k] && values'[k] == values[k] && points'[k] == points[k];
      assert BestAt(q, points', values', tel);
    }
  }

  lemma ScanStops(g: Graph, S: set<Vertex>, a: seq<nat>, q: int, threshold: Option<nat>, grid: seq<(nat, int)>,
                  points: seq<(nat, int)>, met: seq<Option<nat>>, bound: Option<nat>, tel: Telemetry)
    requires Values(g, S, a, q, points, met + [bound]) && KeepsBest(q, points, met + [bound], tel) && points <= grid
    requires Within(threshold, met) && threshold.Some? && bound.Some? && bound.value > threshold.value
    ensures Scanned(g, S, a, q, grid, threshold, met + [bound], tel)
  {
    hide PointValue, BestAt;
    var values := met + [bound];
    assert values[..|values| - 1] == met && grid[..|values|] == points;
  }

  lemma StillWithin(g: Graph, S: set<Vertex>, a: seq<nat>, q: int, threshold: Option<nat>, points: seq<(nat, int)>,
                    met: seq<Option<nat>>, bound: Option<nat>, last: Telemetry, tel: Telemetry)
    requires Certifies(g, S, tel) && Values(g, S, a, q, points, met + [bound])
    requires KeepsBest(q, points, met + [bound], tel) && Within(threshold, met)
    requires threshold.Some? ==> tel.certifiedBound <= threshold.value
    ensures ScanInvariant(g, S, a, q, threshold, points, met + [bound], tel)
  {
    hide Bounds, PointValue, BestAt;
  }

  lemma ScanEnds(g: Graph, S: set<Vertex>, a: seq<nat>, q: int, threshold: Option<nat>, ts: seq<nat>, ps: seq<int>,
                 points: seq<(nat, int)>, values: seq<Option<nat>>, tel: Telemetry)
    requires ScanInvariant(g, S, a, q, threshold, points, values, tel) && points == Grid(ts[..|ts|], ps)
    ensures Certifies(g, S, tel) && Scanned(g, S, a, q, Grid(ts, ps), threshold, values, tel)
  {
    hide Bounds, PointValue, BestAt;
    assert ts[..|ts|] == ts && Grid(ts, ps)[..|values|] == Grid(ts, ps);
  }

  // ----- numbers of ordinary size -----

  lemma Product(x: int, y: int, a: nat, b: nat)
    requires 0 - a <= x <= a && 0 <= y <= b
    ensures -(a * b) <= x * y <= a * b
  {
    TimesMonotoneNat(y, b, a);
    if x >= 0 {
      TimesMonotoneNat(x, a, y);
    } else {
      TimesMonotoneNat(-x, a, y);
    }
  }

  lemma TimesMonotoneNat(x: int, y: int, q: int)
    requires 0 <= x <= y && 0 <= q
    ensures 0 <= x * q <= y * q
  {
  }

  lemma {:induction false} SumBound(a: seq<nat>, m: nat, top: nat)
    requires m <= |a| && forall i :: 0 <= i < |a| ==> a[i] <= top
    ensures Sum(a, m) <= m * top
  {
    if m > 0 {
      SumBound(a, m - 1, top);
      assert m * top == (m - 1) * top + top;
    }
  }

  lemma {:induction false} WeightBounds(w: seq<int>, m: nat, top: nat)
    requires m <= |w| && forall i :: 0 <= i < |w| ==> 0 - top <= w[i] <= top
    ensures -(m * top) <= Negative(w, m) <= 0 && Positive(w, m) <= m * top
  {
    if m > 0 {
      WeightBounds(w, m - 1, top);
      assert m * top == (m - 1) * top + top;
    }
  }

  /** Every number of such a point fits, whatever the placed degrees are. */
  lemma OrdinaryFits(a: seq<nat>, p: int, q: nat, t: nat)
    requires |a| <= 0x8000 && (forall i :: 0 <= i < |a| ==> a[i] <= 0x8000) && t <= 0x8000
    requires q <= 0x10_0000 && -0x100_0000_0000 <= p <= 0x100_0000_0000
    ensures PointFits(a, p, q, t)
  {
    hide Sum, Negative, Positive;
    var n, w := |a|, Weights(a, p, q);
    SumBound(a, n, 0x8000);
    TimesMonotoneNat(n, 0x8000, 0x8000);
    Product(q, Sum(a, n), 0x10_0000, 0x4000_0000);
    Product(p, t, 0x100_0000_0000, 0x8000);
    forall i | 0 <= i < n ensures InRange(q * a[i]) && -0x200_0000_0000 <= w[i] <= 0x200_0000_0000 {
      Product(q, a[i], 0x10_0000, 0x8000);
    }
    WeightBounds(w, n, 0x200_0000_0000);
    TimesMonotoneNat(n, 0x8000, 0x200_0000_0000);
  }

  /** Sixty-four bits are all there is. */
  lemma NothingBeyondFits(a: seq<nat>, p: int, q: nat, t: nat)
    requires q >= 0x2000_0000_0000_0000 || p * t >= 0x8000_0000_0000_0000 || p * t < -0x8000_0000_0000_0000
    ensures !PointFits(a, p, q, t)
  {
  }

  lemma {:induction false} CutBound(g: Graph, T: set<Vertex>)
    ensures Cut(g, T) <= |T| * Size(g)
    decreases |T|
  {
    hide Cut, Neighbours;
    if T == {} {
      EmptyCut(g);
    } else {
      var v :| v in T;
      var R := T - {v};
      CutBound(g, R);
      CutRecurrence(g, R, v);
      assert R + {v} == T;
      DegreeBelowSize(g, v);
      assert |T| * Size(g) == |R| * Size(g) + Size(g);
    }
  }

  lemma DegreeBelowSize(g: Graph, v: Vertex)
    ensures Degree(g, v) <= Size(g)
  {
    forall u | u in Neighbours(g, v) ensures u in Below(Size(g)) {
      NeighbourFacts(g, v, u);
    }
    SubsetSize(Neighbours(g, v), Below(Size(g)));
  }

  lemma {:induction false} SomeSubset(X: set<Vertex>, t: nat) returns (T: set<Vertex>)
    requires t <= |X|
    ensures T <= X && |T| == t
    decreases |X|
  {
    if t == |X| {
      T := X;
    } else {
      var v :| v in X;
      T := SomeSubset(X - {v}, t);
    }
  }

  /** The value of such a point exists: it is at most the number of edges. */
  lemma OrdinaryValue(g: Graph, S: set<Vertex>, a: seq<nat>, q: nat, t: nat, p: int, bound: Option<nat>)
    requires PointValue(g, S, a, q, t, p, bound) && S <= Vertices(g) && t <= |Vertices(g) - S| && Size(g) <= 0x8000
    requires |a| <= 0x8000 && (forall i :: 0 <= i < |a| ==> a[i] <= 0x8000)
    requires 0 < q <= 0x10_0000 && -0x100_0000_0000 <= p <= 0x100_0000_0000
    ensures bound.Some?
  {
    hide Cut, IsLeast, PointFits, Vertices;
    VerticesLeft(g, S);
    OrdinaryFits(a, p, q, t);
    var m :| IsLeast(g, S, p, q, t, m) && RoundsUp(m, q, bound);
    LeastIsOrdinary(g, S, p, q, t, m);
  }

  lemma LeastIsOrdinary(g: Graph, S: set<Vertex>, p: int, q: nat, t: nat, m: int)
    requires IsLeast(g, S, p, q, t, m) && S <= Vertices(g) && t <= |Vertices(g) - S| && Size(g) <= 0x8000
    requires 0 < q <= 0x10_0000 && -0x100_0000_0000 <= p <= 0x100_0000_0000
    ensures InRange(m) && m <= UINT32_MAX * q
  {
    hide Cut, InRange, Scaled, Vertices;
    VerticesLeft(g, S);
    var T := SomeSubset(Vertices(g) - S, t);
    var T' :| T' <= Vertices(g) - S && m == Scaled(g, S, p, q, t, T');
    CutInside(g, S, T);
    CutInside(g, S, T');
    NoDefect(g, S, p, q, t, T);
    SubsetSize(T', Vertices(g) - S);
    ScaledAt(g, S, p, q, t, T');
    OrdinaryRange(m, p, q, t, |T'|, Cut(g, S + T'), Cut(g, S + T));
  }

  lemma ScaledAt(g: Graph, S: set<Vertex>, p: int, q: int, t: nat, T: set<Vertex>)
    ensures Scaled(g, S, p, q, t, T) == q * Cut(g, S + T) + p * (|T| - t)
  {
  }

  lemma OrdinaryRange(m: int, p: int, q: nat, t: nat, size: nat, cut: nat, other: nat)
    requires m == q * cut + p * (size - t) && m <= other * q && cut <= 0x4000_0000 && other <= 0x4000_0000
    requires size <= 0x8000 && t <= 0x8000 && q <= 0x10_0000 && -0x100_0000_0000 <= p <= 0x100_0000_0000
    ensures InRange(m) && m <= UINT32_MAX * q
  {
    TimesMonotoneNat(other, 0x4000_0000, q);
    Product(q, cut, 0x10_0000, 0x4000_0000);
    Defect(p, size, t);
    Product(p, size, 0x100_0000_0000, 0x8000);
    Product(p, t, 0x100_0000_0000, 0x8000);
  }

  lemma VerticesLeft(g: Graph, S: set<Vertex>)
    ensures |Vertices(g) - S| <= Size(g) == |Vertices(g)|
  {
    SubsetSize(Vertices(g) - S, Vertices(g));
  }

  lemma CutInside(g: Graph, S: set<Vertex>, T: set<Vertex>)
    requires S <= Vertices(g) && T <= Vertices(g) - S && Size(g) <= 0x8000
    ensures Cut(g, S + T) <= 0x4000_0000
  {
    hide Cut;
    CutBound(g, S + T);
    SubsetSize(S + T, Vertices(g));
    TimesMonotoneNat(|S + T|, 0x8000, Size(g));
    TimesMonotoneNat(Size(g), 0x8000, 0x8000);
  }

  lemma {:induction false} RowPoints(t: nat, ps: seq<int>, point: (nat, int))
    ensures point in Row(t, ps) ==> point.0 == t && point.1 in ps
  {
    if ps != [] {
      RowPoints(t, ps[..|ps| - 1], point);
    }
  }

  /** A point of the grid has one of the cardinalities and one of the numerators. */
  lemma {:induction false} GridPoints(ts: seq<nat>, ps: seq<int>, point: (nat, int))
    ensures point in Grid(ts, ps) ==> point.0 in ts && point.1 in ps
  {
    if ts != [] {
      GridPoints(ts[..|ts| - 1], ps, point);
      RowPoints(ts[|ts| - 1], ps, point);
    }
  }

  lemma DegreesSmall(g: Graph, S: set<Vertex>, U: seq<Vertex>)
    ensures forall i :: 0 <= i < |Degrees(g, S, U)| ==> Degrees(g, S, U)[i] <= Size(g)
  {
    forall i | 0 <= i < |U| ensures Degrees(g, S, U)[i] <= Size(g) {
      DegreeBelowSize(g, U[i]);
      SubsetSize(Neighbours(g, U[i]) * S, Neighbours(g, U[i]));
    }
  }

  /** A scan of such a grid skips no point. */
  lemma NothingSkipped(g: Graph, S: set<Vertex>, a: seq<nat>, q: nat, ts: seq<nat>, ps: seq<int>, threshold: Option<nat>,
                       values: seq<Option<nat>>, tel: Telemetry)
    requires Scanned(g, S, a, q, Grid(ts, ps), threshold, values, tel) && S <= Vertices(g) && Size(g) <= 0x8000
    requires |a| <= Size(g) && (forall i :: 0 <= i < |a| ==> a[i] <= Size(g))
    requires forall t :: t in ts ==> t <= |Vertices(g) - S|
    requires 0 < q <= 0x10_0000 && forall p :: p in ps ==> -0x100_0000_0000 <= p <= 0x100_0000_0000
    ensures !tel.overflow && None !in values
  {
    hide BestAt, Grid, PointValue, StopsWell, Vertices;
    var grid := Grid(ts, ps);
    forall k | 0 <= k < |values| ensures values[k].Some? {
      var point := grid[..|values|][k];
      assert point in grid;
      GridPoints(ts, ps, point);
      OrdinaryValue(g, S, a, q, point.0, point.1, values[k]);
    }
  }

  lemma OrdinaryScan(g: Graph, S: set<Vertex>, U: seq<Vertex>, a: seq<nat>, q: nat, ts: seq<nat>, ps: seq<int>,
                     threshold: Option<nat>, values: seq<Option<nat>>, tel: Telemetry)
    requires Scanned(g, S, a, q, Grid(ts, ps), threshold, values, tel) && S <= Vertices(g)
    requires a == Degrees(g, S, U) && |U| == |Vertices(g) - S| && 0 < q && forall t :: t in ts ==> t < |U|
    ensures Size(g) <= 0x8000 && q <= 0x10_0000
            && (forall p :: p in ps ==> -0x100_0000_0000 <= p <= 0x100_0000_0000) ==>
              !tel.overflow && None !in values
  {
    hide Grid, Scanned, Vertices;
    VerticesLeft(g, S);
    DegreesSmall(g, S, U);
    if Size(g) <= 0x8000 && q <= 0x10_0000 && forall p :: p in ps ==> -0x100_0000_0000 <= p <= 0x100_0000_0000 {
      NothingSkipped(g, S, a, q, ts, ps, threshold, values, tel);
    }
  }

  /**
    The default numerators are all the multiples from minus to plus the largest
    degree, in order; more than two hundred thousand and one of them are refused.
   */
  lemma DefaultNumerators(q: nat, maxDegree: nat)
    ensures NumeratorGrid(None, q, maxDegree).Some? <==> q * maxDegree <= 100000
    ensures q * maxDegree <= 100000 ==>
              forall p :: p in NumeratorGrid(None, q, maxDegree).value ==> -100000 <= p <= 100000
    ensures q * maxDegree <= 100000 ==>
              var ps := NumeratorGrid(None, q, maxDegree).value;
              && |ps| == 2 * (q * maxDegree) + 1
              && forall i :: 0 <= i < |ps| ==> ps[i] == i - q * maxDegree
  {
  }

  lemma OrdinaryNumerators(given: Option<seq<int>>, q: nat, maxDegree: nat)
    ensures (if given.Some? then forall p :: p in given.value ==> -0x100_0000_0000 <= p <= 0x100_0000_0000
             else q * maxDegree <= 100000) ==>
              && NumeratorGrid(given, q, maxDegree).Some?
              && forall p :: p in NumeratorGrid(given, q, maxDegree).value ==> -0x100_0000_0000 <= p <= 0x100_0000_0000
  {
    DefaultNumerators(q, maxDegree);
  }

  // ----- what a certified bound proves -----

  /** A completion of S passes through a residual set of every cardinality. */
  lemma {:induction false} CompletionPasses(g: Graph, k: nat, S: set<Vertex>, t: nat) returns (T: set<Vertex>)
    requires Feasible(g, k, S) && t <= |Vertices(g) - S|
    ensures T <= Vertices(g) - S && |T| == t && Cut(g, S + T) <= k
    decreases t
  {
    hide *;
    if t == 0 {
      T := {};
      FeasibleFacts(g, k, S);
      assert S + {} == S;
    } else {
      NothingLeft(Vertices(g), S);
      var v := FeasibleChild(g, k, S);
      OneOut(Vertices(g), S, v);
      var R := CompletionPasses(g, k, S + {v}, t - 1);
      T := R + {v};
      OneIn(Vertices(g), S, v, R);
    }
  }

  lemma NothingLeft(V: set<Vertex>, S: set<Vertex>)
    ensures S == V ==> |V - S| == 0
  {
  }

  lemma OneOut(V: set<Vertex>, S: set<Vertex>, v: Vertex)
    requires v in V - S
    ensures |V - (S + {v})| == |V - S| - 1
  {
    assert V - S == (V - (S + {v})) + {v};
  }

  lemma OneIn(V: set<Vertex>, S: set<Vertex>, v: Vertex, R: set<Vertex>)
    requires v in V - S && R <= V - (S + {v})
    ensures R + {v} <= V - S && |R + {v}| == |R| + 1 && S + (R + {v}) == S + {v} + R
  {
  }

  /** A certified bound above the threshold proves that the prefix has no completion. */
  lemma CertifiedBoundPrunes(g: Graph, k: nat, S: set<Vertex>, tel: Telemetry)
    requires Certifies(g, S, tel) && tel.certifiedBound > k
    ensures !Feasible(g, k, S)
  {
    if Feasible(g, k, S) {
      var T := CompletionPasses(g, k, S, tel.bestCardinality);
      assert false;
    }
  }
}
