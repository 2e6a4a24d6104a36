/**
  Candidate enumeration at a search node, in the three ways the search offers,
  and the lookahead for a legal second placement.
 */
module Candidates {
  import opened Graphs
  import opened Feasibility
  import opened TwinSymmetry
  import opened CandidateIndexes
  import opened NodeStates
  import opened Sorting

  datatype Candidate = Candidate(vertex: Vertex, cut: nat)

  /** v may be placed next: unplaced, not blocked by an earlier twin, and within the threshold. */
  ghost predicate Legal(g: Graph, k: nat, twins: TwinTable, S: set<Vertex>, v: Vertex) {
    v in Vertices(g) - S && !TwinBlocked(twins, S, v) && Cut(g, S + {v}) <= k
  }

  ghost predicate DistinctVertices(cs: seq<Candidate>) {
    forall i, j :: 0 <= i < j < |cs| ==> cs[i].vertex != cs[j].vertex
  }

  /** `cs` lists exactly the legal vertices of X, each once, with their cuts. */
  ghost predicate ListsWithin(g: Graph, k: nat, twins: TwinTable, S: set<Vertex>, X: set<Vertex>, cs: seq<Candidate>) {
    && DistinctVertices(cs)
    && (forall c :: c in cs ==> c.vertex in X && Legal(g, k, twins, S, c.vertex) && c.cut == Cut(g, S + {c.vertex}))
    && (forall v :: v in X && Legal(g, k, twins, S, v) ==> Candidate(v, Cut(g, S + {v})) in cs)
  }

  ghost predicate ListsLegal(g: Graph, k: nat, twins: TwinTable, S: set<Vertex>, cs: seq<Candidate>) {
    ListsWithin(g, k, twins, S, Vertices(g), cs)
  }

  /** A list of the legal children misses no feasible one. */
  lemma ListedChild(g: Graph, k: nat, twins: TwinTable, S: set<Vertex>, cs: seq<Candidate>) returns (c: Candidate)
    requires ValidTwins(g, twins) && ListsLegal(g, k, twins, S, cs)
    requires Feasible(g, k, S) && S != Vertices(g)
    ensures c in cs && Feasible(g, k, S + {c.vertex})
  {
    var v := LegalChild(g, k, twins, S);
    c := Candidate(v, Cut(g, S + {v}));
  }

  lemma ListedFacts(g: Graph, k: nat, twins: TwinTable, S: set<Vertex>, cs: seq<Candidate>, i: nat)
    requires ListsLegal(g, k, twins, S, cs) && i < |cs|
    ensures cs[i].vertex in Vertices(g) - S && cs[i].cut == Cut(g, S + {cs[i].vertex}) <= k
  {
    hide TwinBlocked, Cut;
    assert cs[i] in cs;
  }

  /** Every feasible incomplete prefix has a legal feasible child. */
  lemma LegalChild(g: Graph, k: nat, twins: TwinTable, S: set<Vertex>) returns (v: Vertex)
    requires ValidTwins(g, twins)
    requires Feasible(g, k, S) && S != Vertices(g)
    ensures Legal(g, k, twins, S, v) && Feasible(g, k, S + {v})
  {
    v := CanonicalChild(g, k, twins, S);
    FeasibleFacts(g, k, S + {v});
  }

  /** One more vertex examined: it joins the list exactly when it is legal. */
  lemma ListsStep(g: Graph, k: nat, twins: TwinTable, S: set<Vertex>, X: set<Vertex>, v: Vertex, cs: seq<Candidate>)
    requires ListsWithin(g, k, twins, S, X, cs) && v !in X
    ensures ListsWithin(g, k, twins, S, X + {v},
                        if Legal(g, k, twins, S, v) then cs + [Candidate(v, Cut(g, S + {v}))] else cs)
  {
    hide Legal, Cut;
    forall i | 0 <= i < |cs| ensures cs[i].vertex != v {
      assert cs[i] in cs;
    }
  }

  /** Only legal vertices matter, so a list within all of them is complete. */
  lemma ListsAll(g: Graph, k: nat, twins: TwinTable, S: set<Vertex>, X: set<Vertex>, cs: seq<Candidate>)
    requires ListsWithin(g, k, twins, S, X, cs)
    requires AllLegalIn(g, k, twins, S, X)
    ensures ListsLegal(g, k, twins, S, cs)
  {
    hide TwinBlocked, Cut;
  }

  ghost predicate AllLegalIn(g: Graph, k: nat, twins: TwinTable, S: set<Vertex>, X: set<Vertex>) {
    forall v :: Legal(g, k, twins, S, v) ==> v in X
  }

  ghost predicate NoneLegalIn(g: Graph, k: nat, twins: TwinTable, S: set<Vertex>, X: set<Vertex>) {
    forall v :: v in X ==> !Legal(g, k, twins, S, v)
  }

  /** The cut after placing v, from the count of its placed neighbours. */
  function NextCut(g: Graph, cut: nat, v: Vertex, count: nat): int {
    cut + Degree(g, v) - 2 * count
  }

  /** The test made for one vertex decides legality, and its arithmetic gives the new cut. */
  lemma LegalTest(g: Graph, k: nat, twins: TwinTable, S: set<Vertex>, cut: nat, v: Vertex, count: nat)
    requires cut == Cut(g, S) && v in Vertices(g) - S && count == |Neighbours(g, v) * S|
    ensures NextCut(g, cut, v, count) == Cut(g, S + {v})
    ensures Legal(g, k, twins, S, v) <==> !TwinBlocked(twins, S, v) && NextCut(g, cut, v, count) <= k
  {
    CutRecurrence(g, S, v);
  }

  /** Placed neighbours of the unplaced vertices. */
  ghost predicate PlacedCounts(g: Graph, S: set<Vertex>, before: seq<nat>) {
    |before| == Size(g) && forall v :: v in Vertices(g) - S ==> before[v] == |Neighbours(g, v) * S|
  }

  lemma NodeCounts(node: NodeState)
    requires node.Counted()
    ensures PlacedCounts(node.g, node.prefix, node.before)
  {
    forall v | v in Vertices(node.g) - node.prefix ensures Earlier(node.path, v) == node.prefix {
      EarlierUnplaced(node.path, v);
    }
  }

  /** Tests the unplaced vertices in increasing order. */
  method Scan(g: Graph, k: nat, twins: TwinTable, S: set<Vertex>, before: seq<nat>, cut: nat)
    returns (cs: seq<Candidate>)
    requires PlacedCounts(g, S, before) && cut == Cut(g, S)
    ensures ListsLegal(g, k, twins, S, cs)
  {
    cs := [];
    for v := 0 to Size(g)
      invariant ListsWithin(g, k, twins, S, Below(v), cs)
    {
      hide ListsWithin, Cut, TwinBlocked, Below;
      BelowStep(v);
      ListsStep(g, k, twins, S, Below(v), v, cs);
      if v !in S {
        LegalTest(g, k, twins, S, cut, v, before[v]);
        var next := NextCut(g, cut, v, before[v]);
        if !TwinBlocked(twins, S, v) && next <= k {
          cs := cs + [Candidate(v, next)];
        }
      }
    }
  }

  /** The unplaced vertices whose placement raises the cut by at most `bound`, each once. */
  ghost predicate Gathered(g: Graph, S: set<Vertex>, bound: int, emitted: seq<(Vertex, int)>) {
    && (forall a, b :: 0 <= a < b < |emitted| ==> emitted[a].0 != emitted[b].0)
    && (forall v: Vertex, d: int {:trigger (v, d) in emitted} :: (v, d) in emitted <==>
          v in Vertices(g) - S && d == Degree(g, v) - 2 * |Neighbours(g, v) * S| && d <= bound)
  }

  method GatherAt(node: NodeState, bound: int) returns (emitted: seq<(Vertex, int)>)
    requires node.Valid() && node.useIndex
    ensures Gathered(node.g, node.prefix, bound, emitted)
  {
    emitted := node.index.Gather(bound);
    NodeCounts(node);
    assert node.index.Contents() == Expected(node.g, node.prefix, node.before);
  }

  /** The vertices among the first i emitted. */
  ghost function Emitted(emitted: seq<(Vertex, int)>, i: nat): set<Vertex>
    requires i <= |emitted|
  {
    set j | 0 <= j < i :: emitted[j].0
  }

  lemma EmittedStep(g: Graph, S: set<Vertex>, bound: int, emitted: seq<(Vertex, int)>, i: nat)
    requires Gathered(g, S, bound, emitted) && i < |emitted|
    ensures var (v, d) := emitted[i];
            && v in Vertices(g) - S && d == Degree(g, v) - 2 * |Neighbours(g, v) * S| && d <= bound
            && v !in Emitted(emitted, i) && Emitted(emitted, i + 1) == Emitted(emitted, i) + {v}
  {
    var (v, d) := emitted[i];
    assert (v, d) in emitted;
    forall u | u in Emitted(emitted, i + 1) ensures u in Emitted(emitted, i) + {v} {
      var j :| 0 <= j < i + 1 && emitted[j].0 == u;
    }
  }

  lemma EmittedAll(g: Graph, S: set<Vertex>, bound: int, emitted: seq<(Vertex, int)>, v: Vertex)
    requires Gathered(g, S, bound, emitted) && v in Vertices(g) - S
    requires Degree(g, v) - 2 * |Neighbours(g, v) * S| <= bound
    ensures v in Emitted(emitted, |emitted|)
  {
    var d := Degree(g, v) - 2 * |Neighbours(g, v) * S|;
    assert (v, d) in emitted;
    var j :| 0 <= j < |emitted| && emitted[j] == (v, d);
    assert emitted[j].0 == v;
  }

  lemma FilterStart(g: Graph, k: nat, twins: TwinTable, S: set<Vertex>, cut: nat, emitted: seq<(Vertex, int)>)
    requires cut == Cut(g, S) && Gathered(g, S, k - cut, emitted)
    ensures ListsWithin(g, k, twins, S, Emitted(emitted, 0), [])
    ensures AllLegalIn(g, k, twins, S, Emitted(emitted, |emitted|))
  {
    forall v | Legal(g, k, twins, S, v) ensures v in Emitted(emitted, |emitted|) {
      CutRecurrence(g, S, v);
      EmittedAll(g, S, k - cut, emitted, v);
    }
  }

  /** The test made for an emitted vertex. */
  lemma FilterStep(g: Graph, k: nat, twins: TwinTable, S: set<Vertex>, cut: nat, emitted: seq<(Vertex, int)>,
                   i: nat, cs: seq<Candidate>)
    requires cut == Cut(g, S) && Gathered(g, S, k - cut, emitted) && i < |emitted|
    requires ListsWithin(g, k, twins, S, Emitted(emitted, i), cs)
    ensures var (v, delta) := emitted[i];
            && 0 <= cut + delta <= k
            && ListsWithin(g, k, twins, S, Emitted(emitted, i + 1),
                           if TwinBlocked(twins, S, v) then cs else cs + [Candidate(v, cut + delta)])
  {
    hide ListsWithin, Gathered, Emitted, Cut, TwinBlocked, Below;
    var (v, delta) := emitted[i];
    EmittedStep(g, S, k - cut, emitted, i);
    LegalTest(g, k, twins, S, cut, v, |Neighbours(g, v) * S|);
    ListsStep(g, k, twins, S, Emitted(emitted, i), v, cs);
  }

  /** Keeps what is not blocked; false stands for the exception on a vertex that is not legal. */
  method FilterEmitted(g: Graph, k: nat, twins: TwinTable, S: set<Vertex>, cut: nat, emitted: seq<(Vertex, int)>)
    returns (cs: seq<Candidate>, ok: bool)
    requires cut == Cut(g, S) && Gathered(g, S, k - cut, emitted)
    ensures ok && ListsLegal(g, k, twins, S, cs)
  {
    hide *;
    cs := [];
    FilterStart(g, k, twins, S, cut, emitted);
    for i := 0 to |emitted|
      invariant ListsWithin(g, k, twins, S, Emitted(emitted, i), cs)
    {
      FilterStep(g, k, twins, S, cut, emitted, i, cs);
      var (v, delta) := emitted[i];
      if !TwinBlocked(twins, S, v) {
        var next := cut + delta;
        if next < 0 || next > k {
          return cs, false;
        }
        cs := cs + [Candidate(v, next)];
      }
    }
    ListsAll(g, k, twins, S, Emitted(emitted, |emitted|), cs);
    return cs, true;
  }

  // ----- the order in which children are tried -----

  datatype Order = ByVertex | LargestCutFirst | SmallestCutFirst

  predicate Precedes(order: Order, a: Candidate, b: Candidate) {
    match order
    case ByVertex => a.vertex < b.vertex || (a.vertex == b.vertex && a.cut < b.cut)
    case LargestCutFirst => a.cut > b.cut || (a.cut == b.cut && a.vertex < b.vertex)
    case SmallestCutFirst => a.cut < b.cut || (a.cut == b.cut && a.vertex < b.vertex)
  }

  function Precedence(order: Order): (Candidate, Candidate) -> bool {
    (a, b) => Precedes(order, a, b)
  }

  lemma PrecedenceIsOrder(order: Order)
    ensures WeakOrder(Precedence(order))
  {
  }

  method SortCandidates(order: Order, cs: seq<Candidate>) returns (r: seq<Candidate>)
    ensures Sorted(Precedence(order), r) && multiset(r) == multiset(cs)
  {
    PrecedenceIsOrder(order);
    r := Sort(Precedence(order), cs);
  }

  /** By cut, largest or smallest first, and by number where cuts agree. */
  ghost predicate InOrder(failFirst: bool, cs: seq<Candidate>) {
    forall i, j :: 0 <= i < j < |cs| ==>
      && (if failFirst then cs[i].cut >= cs[j].cut else cs[i].cut <= cs[j].cut)
      && (cs[i].cut == cs[j].cut ==> cs[i].vertex <= cs[j].vertex)
  }

  lemma SortedInOrder(failFirst: bool, cs: seq<Candidate>)
    requires Sorted(Precedence(if failFirst then LargestCutFirst else SmallestCutFirst), cs)
    ensures InOrder(failFirst, cs)
  {
    var order := if failFirst then LargestCutFirst else SmallestCutFirst;
    forall i, j | 0 <= i < j < |cs|
      ensures (if failFirst then cs[i].cut >= cs[j].cut else cs[i].cut <= cs[j].cut)
              && (cs[i].cut == cs[j].cut ==> cs[i].vertex <= cs[j].vertex)
    {
      assert !Precedence(order)(cs[j], cs[i]);
    }
  }

  /** Legal, spelled out: unplaced, within the threshold, and no smaller twin left behind. */
  lemma LegalIff(g: Graph, k: nat, useTwins: bool, twins: TwinTable, S: set<Vertex>, v: Vertex)
    requires TwinTableOf(g, useTwins, twins)
    ensures Legal(g, k, twins, S, v) <==>
              && v < Size(g) && v !in S && Cut(g, S + {v}) <= k
              && !(useTwins && exists e: Vertex :: e < v && e !in S && Twins(g, e, v))
  {
    hide TwinBlocked, Twins, TwinTableOf;
    if v < Size(g) {
      BlockedByTwin(g, useTwins, twins, S, v);
    }
  }

  lemma Rearranged(g: Graph, k: nat, twins: TwinTable, S: set<Vertex>, cs: seq<Candidate>, r: seq<Candidate>)
    requires ListsLegal(g, k, twins, S, cs) && multiset(r) == multiset(cs)
    ensures ListsLegal(g, k, twins, S, r)
  {
    hide Legal, Cut;
    SameElements(r, cs);
    var vertexOf := (c: Candidate) => c.vertex;
    assert DistinctBy(vertexOf, cs);
    RearrangedDistinct(vertexOf, cs, r);
    assert forall i, j :: 0 <= i < j < |r| ==> vertexOf(r[i]) != vertexOf(r[j]);
  }

  /** Two lists of the legal vertices in the same order are one list. */
  lemma SortedListsAgree(g: Graph, k: nat, twins: TwinTable, S: set<Vertex>, order: Order,
                         a: seq<Candidate>, b: seq<Candidate>)
    requires ListsLegal(g, k, twins, S, a) && Sorted(Precedence(order), a)
    requires ListsLegal(g, k, twins, S, b) && Sorted(Precedence(order), b)
    ensures a == b
  {
    forall c: Candidate ensures c in a <==> c in b {
      assert c in a ==> Candidate(c.vertex, Cut(g, S + {c.vertex})) in b;
      assert c in b ==> Candidate(c.vertex, Cut(g, S + {c.vertex})) in a;
    }
    OrderIsUnique(order, a, b);
  }

  lemma {:induction false} OrderIsUnique(order: Order, a: seq<Candidate>, b: seq<Candidate>)
    requires Sorted(Precedence(order), a) && DistinctVertices(a)
    requires Sorted(Precedence(order), b) && DistinctVertices(b)
    requires forall c :: c in a <==> c in b
    ensures a == b
  {
    EmptyTogether(a, b);
    if a != [] {
      HeadsAgree(order, a, b);
      TailsAgree(a, b);
      OrderIsUnique(order, a[1..], b[1..]);
      assert a == [a[0]] + a[1..] && b == [b[0]] + b[1..];
    }
  }

  lemma EmptyTogether(a: seq<Candidate>, b: seq<Candidate>)
    requires forall c :: c in a <==> c in b
    ensures a == [] <==> b == []
  {
    if a != [] {
      assert a[0] in a;
    }
    if b != [] {
      assert b[0] in b;
    }
  }

  lemma HeadsAgree(order: Order, a: seq<Candidate>, b: seq<Candidate>)
    requires a != [] && b != [] && Sorted(Precedence(order), a) && Sorted(Precedence(order), b)
    requires forall c :: c in a <==> c in b
    ensures a[0] == b[0]
  {
    assert a[0] in b && b[0] in a;
    var i :| 0 <= i < |b| && b[i] == a[0];
    var j :| 0 <= j < |a| && a[j] == b[0];
    assert i > 0 ==> !Precedence(order)(b[i], b[0]);
    assert j > 0 ==> !Precedence(order)(a[j], a[0]);
  }

  lemma TailsAgree(a: seq<Candidate>, b: seq<Candidate>)
    requires a != [] && b != [] && a[0] == b[0] && DistinctVertices(a) && DistinctVertices(b)
    requires forall c :: c in a <==> c in b
    ensures forall c :: c in a[1..] <==> c in b[1..]
  {
    forall c: Candidate ensures c in a[1..] <==> c in b[1..] {
      assert a == [a[0]] + a[1..] && b == [b[0]] + b[1..];
      assert c in a[1..] <==> c in a && c != a[0];
      assert c in b[1..] <==> c in b && c != b[0];
    }
  }

  datatype Enumerator = Scanned | Indexed | CrossChecked

  /** All three enumerators list the same children; false stands for the cross-check exception. */
  method Enumerate(node: NodeState, k: nat, twins: TwinTable, cut: nat, enumerator: Enumerator)
    returns (cs: seq<Candidate>, ok: bool)
    requires node.Valid() && cut == Cut(node.g, node.prefix)
    requires enumerator != Scanned ==> node.useIndex
    ensures ok && ListsLegal(node.g, k, twins, node.prefix, cs)
  {
    NodeCounts(node);
    if enumerator == Scanned {
      cs := Scan(node.g, k, twins, node.prefix, node.before, cut);
      return cs, true;
    }
    var emitted := GatherAt(node, k - cut);
    cs, ok := FilterEmitted(node.g, k, twins, node.prefix, cut, emitted);
    if ok && enumerator == CrossChecked {
      var scanned := Scan(node.g, k, twins, node.prefix, node.before, cut);
      ok := Agree(node.g, k, twins, node.prefix, scanned, cs);
    }
  }

  method Agree(ghost g: Graph, ghost k: nat, ghost twins: TwinTable, ghost S: set<Vertex>,
               scanned: seq<Candidate>, indexed: seq<Candidate>)
    returns (same: bool)
    requires ListsLegal(g, k, twins, S, scanned) && ListsLegal(g, k, twins, S, indexed)
    ensures same
  {
    hide ListsWithin;
    var a := SortCandidates(ByVertex, scanned);
    var b := SortCandidates(ByVertex, indexed);
    Rearranged(g, k, twins, S, scanned, a);
    Rearranged(g, k, twins, S, indexed, b);
    SortedListsAgree(g, k, twins, S, ByVertex, a, b);
    same := a == b;
  }

  // ----- lookahead -----

  /** An earlier twin of v is unplaced after w joins the prefix. */
  predicate TwinBlockedAfter(twins: TwinTable, S: set<Vertex>, w: Vertex, v: Vertex) {
    v < |twins| && exists i :: 0 <= i < |twins[v]| && twins[v][i] != w && twins[v][i] !in S
  }

  lemma BlockedAfter(twins: TwinTable, S: set<Vertex>, w: Vertex, v: Vertex)
    ensures TwinBlockedAfter(twins, S, w, v) <==> TwinBlocked(twins, S + {w}, v)
  {
  }

  /** The lookahead test for v, made without placing w, decides legality after w. */
  lemma LegalAfterTest(g: Graph, k: nat, twins: TwinTable, S: set<Vertex>, w: Vertex, cut: nat, v: Vertex, count: nat)
    requires w in Vertices(g) - S && cut == Cut(g, S + {w}) && v in Vertices(g)
    requires v !in S ==> count == |Neighbours(g, v) * S|
    ensures Legal(g, k, twins, S + {w}, v) <==>
              && v != w && v !in S && !TwinBlockedAfter(twins, S, w, v)
              && NextCut(g, cut, v, count + if Adjacent(g, w, v) then 1 else 0) <= k
  {
    BlockedAfter(twins, S, w, v);
    if v != w && v !in S {
      SetStep(Neighbours(g, v), S, w);
      if v in Neighbours(g, w) { NeighbourFacts(g, w, v); }
      if w in Neighbours(g, v) { NeighbourFacts(g, v, w); }
      CutRecurrence(g, S + {w}, v);
    }
  }

  datatype Lookahead = Interrupted | LegalSecond | NoLegalSecond

  /** Whether some vertex can legally follow w; `*` stands for the deadline and node budget of a limited run. */
  method HasLegalSecond(g: Graph, k: nat, twins: TwinTable, S: set<Vertex>, before: seq<nat>, w: Vertex, cut: nat,
                        limited: bool)
    returns (r: Lookahead)
    requires PlacedCounts(g, S, before) && w in Vertices(g) - S && cut == Cut(g, S + {w})
    ensures r == Interrupted ==> limited
    ensures r == LegalSecond ==> exists v :: Legal(g, k, twins, S + {w}, v)
    ensures r == NoLegalSecond ==> NoneLegalIn(g, k, twins, S + {w}, Vertices(g))
  {
    for v := 0 to Size(g)
      invariant NoneLegalIn(g, k, twins, S + {w}, Below(v))
    {
      hide Legal, Cut, TwinBlockedAfter, Below, NoneLegalIn;
      if limited {
        if * {
          return Interrupted;
        }
      }
      NoneLegalStep(g, k, twins, S + {w}, v);
      LegalAfterTest(g, k, twins, S, w, cut, v, before[v]);
      if v == w || v in S || TwinBlockedAfter(twins, S, w, v) {
        continue;
      }
      if NextCut(g, cut, v, before[v] + if Adjacent(g, w, v) then 1 else 0) <= k {
        return LegalSecond;
      }
    }
    return NoLegalSecond;
  }

  lemma NoneLegalStep(g: Graph, k: nat, twins: TwinTable, S: set<Vertex>, v: Vertex)
    requires NoneLegalIn(g, k, twins, S, Below(v))
    ensures !Legal(g, k, twins, S, v) ==> NoneLegalIn(g, k, twins, S, Below(v + 1))
  {
  }

  lemma SomeLegal(g: Graph, k: nat, twins: TwinTable, S: set<Vertex>)
    requires exists v :: Legal(g, k, twins, S, v)
    ensures !NoneLegalIn(g, k, twins, S, Vertices(g))
  {
    hide Cut, TwinBlocked;
  }

  /** A prefix that is not full and has no legal continuation has no completion. */
  lemma NoLegalFails(g: Graph, k: nat, twins: TwinTable, S: set<Vertex>)
    requires ValidTwins(g, twins) && S != Vertices(g)
    requires NoneLegalIn(g, k, twins, S, Vertices(g))
    ensures !Feasible(g, k, S)
  {
    if Feasible(g, k, S) {
      var v := LegalChild(g, k, twins, S);
      assert false;
    }
  }
}
