/**
  The exact search on graphs that fit one machine word: the recursion with the
  finite-horizon memo, gain-bucket enumeration and the reversible node state.
 */
module WordSearch {
  import opened Options
  import opened Graphs
  import opened Feasibility
  import opened TwinSymmetry
  import opened Candidates
  import opened Sorting
  import opened NodeStates
  import opened ReversibleNodeStates
  import opened FiniteHorizons
  import opened DecisionCaches
  import opened ThresholdSearch

  datatype NodeOrder = ByCut | ByMemo

  datatype WordOptions = WordOptions(
    useTwins: bool, useCache: bool, residualDegreeBound: bool, incremental: bool,
    order: NodeOrder, memoDepth: nat, memoMaxRemaining: nat, failFirst: bool,
    lookahead: bool, lookaheadMaxRemaining: nat)

  const WORD_VERTICES: nat := 63

  // ---- Twins ----

  /** Equal open neighbourhoods already exclude adjacency, since no vertex is its own neighbour. */
  lemma WordTwinTest(g: Graph, a: Vertex, b: Vertex)
    requires a in Vertices(g) && b in Vertices(g) && a != b
    ensures Neighbours(g, a) == Neighbours(g, b) || Neighbours(g, a) + {a} == Neighbours(g, b) + {b} <==> Twins(g, a, b)
  {
    TwinTests(g, a, b);
    var A, B := Neighbours(g, a), Neighbours(g, b);
    if a in A { NeighbourFacts(g, a, a); }
    if b in B { NeighbourFacts(g, b, b); }
    if A + {a} == B + {b} {
      assert b in A + {a};
    }
  }

  /** The same table as for larger graphs, from the word tests. */
  method BuildWordTwins(g: Graph, enabled: bool) returns (twins: TwinTable)
    ensures ValidTwins(g, twins) && TwinTableOf(g, enabled, twins)
  {
    hide Twins, Neighbours;
    twins := seq(Size(g), _ => []);
    if !enabled {
      return;
    }
    for later := 0 to Size(g)
      invariant |twins| == Size(g)
      invariant forall v, e :: 0 <= v < Size(g) ==> (e in twins[v] <==> v < later && 0 <= e < v && Twins(g, e, v))
    {
      for earlier := 0 to later
        invariant |twins| == Size(g)
        invariant forall v, e :: 0 <= v < Size(g) && v != later ==>
                    (e in twins[v] <==> v < later && 0 <= e < v && Twins(g, e, v))
        invariant forall e :: e in twins[later] <==> 0 <= e < earlier && Twins(g, e, later)
      {
        WordTwinTest(g, earlier, later);
        if Neighbours(g, earlier) == Neighbours(g, later) ||
           Neighbours(g, earlier) + {earlier} == Neighbours(g, later) + {later} {
          twins := twins[later := twins[later] + [earlier]];
        }
      }
    }
  }

  // ---- Children ----

  /** Legal children in X, each once and with its cut; those left out are refuted. */
  ghost predicate CoversWithin(g: Graph, k: nat, twins: TwinTable, S: set<Vertex>, X: set<Vertex>, cs: seq<Candidate>) {
    && DistinctVertices(cs)
    && (forall c :: c in cs ==> c.vertex in X && Legal(g, k, twins, S, c.vertex) && c.cut == Cut(g, S + {c.vertex}))
    && (forall v :: v in X && Legal(g, k, twins, S, v) && Feasible(g, k, S + {v}) ==> Candidate(v, Cut(g, S + {v})) in cs)
  }

  ghost predicate Covers(g: Graph, k: nat, twins: TwinTable, S: set<Vertex>, cs: seq<Candidate>) {
    CoversWithin(g, k, twins, S, Vertices(g), cs)
  }

  lemma ListCovers(g: Graph, k: nat, twins: TwinTable, S: set<Vertex>, cs: seq<Candidate>)
    requires ListsLegal(g, k, twins, S, cs)
    ensures Covers(g, k, twins, S, cs)
  {
    hide Feasible, Cut, Legal;
  }

  /** A vertex is listed, or it is not legal, or it is refuted. */
  lemma CoverNext(g: Graph, k: nat, twins: TwinTable, S: set<Vertex>, X: set<Vertex>, cs: seq<Candidate>, v: Vertex)
    requires CoversWithin(g, k, twins, S, X, cs) && v !in X
    ensures Legal(g, k, twins, S, v) ==> CoversWithin(g, k, twins, S, X + {v}, cs + [Candidate(v, Cut(g, S + {v}))])
    ensures !Legal(g, k, twins, S, v) || !Feasible(g, k, S + {v}) ==> CoversWithin(g, k, twins, S, X + {v}, cs)
  {
    hide Legal, Feasible, Cut;
    forall i | 0 <= i < |cs| ensures cs[i].vertex != v {
      assert cs[i] in cs;
    }
  }

  lemma CoveredFacts(g: Graph, k: nat, twins: TwinTable, S: set<Vertex>, cs: seq<Candidate>, i: nat)
    requires Covers(g, k, twins, S, cs) && i < |cs|
    ensures cs[i].vertex in Vertices(g) - S && cs[i].cut == Cut(g, S + {cs[i].vertex}) <= k
    ensures DistinctVertices(cs) && Legal(g, k, twins, S, cs[i].vertex)
  {
    assert cs[i] in cs;
  }

  /** A prefix fails once every child it still has to try has failed. */
  lemma CoveredDone(g: Graph, k: nat, twins: TwinTable, S: set<Vertex>, cs: seq<Candidate>)
    requires ValidTwins(g, twins) && Covers(g, k, twins, S, cs) && S != Vertices(g)
    requires ChildrenFail(g, k, S, cs, |cs|)
    ensures !Feasible(g, k, S)
  {
    hide Legal, ValidTwins;
    if Feasible(g, k, S) {
      var v := LegalChild(g, k, twins, S);
      assert false;
    }
  }

  // ---- Sorting by selection ----

  /** Nothing from position i on precedes what stands before it. */
  ghost predicate Selected(precedes: (Candidate, Candidate) -> bool, s: seq<Candidate>, i: nat)
    requires i <= |s|
  {
    forall p, q :: 0 <= p < q < |s| && p < i ==> !precedes(s[q], s[p])
  }

  function SwappedAt<T>(s: seq<T>, i: nat, j: nat): seq<T>
    requires i < |s| && j < |s|
  {
    s[i := s[j]][j := s[i]]
  }

  lemma SwapKeepsElements<T>(s: seq<T>, i: nat, j: nat)
    requires i <= j < |s|
    ensures multiset(SwappedAt(s, i, j)) == multiset(s)
  {
  }

  lemma SelectNext(precedes: (Candidate, Candidate) -> bool, s: seq<Candidate>, i: nat, best: nat)
    requires WeakOrder(precedes) && i <= best < |s| && Selected(precedes, s, i)
    requires forall j :: i <= j < |s| ==> !precedes(s[j], s[best])
    ensures Selected(precedes, SwappedAt(s, i, best), i + 1)
  {
    var t := SwappedAt(s, i, best);
    forall p, q | 0 <= p < q < |t| && p < i + 1 ensures !precedes(t[q], t[p]) {
      if p < i {
        assert t[p] == s[p];
        var from := if q == i then best else if q == best then i else q;
        assert t[q] == s[from] && p < from;
      } else {
        var from := if q == best then i else q;
        assert t[q] == s[from] && t[p] == s[best];
      }
    }
  }

  /** Sorts the array in place: each round brings the best remaining child forward. */
  method SelectionSort(a: array<Candidate>, order: Order)
    modifies a
    ensures Sorted(Precedence(order), a[..]) && multiset(a[..]) == multiset(old(a[..]))
  {
    PrecedenceIsOrder(order);
    hide WeakOrder, Precedence;
    ghost var precedes := Precedence(order);
    for i := 0 to a.Length
      invariant Selected(precedes, a[..], i) && multiset(a[..]) == multiset(old(a[..]))
    {
      ghost var s := a[..];
      var best := BestFrom(a, order, i);
      SelectNext(precedes, s, i, best);
      SwapKeepsElements(s, i, best);
      a[i], a[best] := a[best], a[i];
      assert a[..] == SwappedAt(s, i, best);
    }
  }

  method BestFrom(a: array<Candidate>, order: Order, i: nat) returns (best: nat)
    requires i < a.Length
    ensures i <= best < a.Length && forall j :: i <= j < a.Length ==> !Precedence(order)(a[j], a[best])
  {
    PrecedenceIsOrder(order);
    best := i;
    for j := i + 1 to a.Length
      invariant i <= best < a.Length && best < j
      invariant forall p :: i <= p < j ==> !Precedence(order)(a[p], a[best])
    {
      if Precedes(order, a[j], a[best]) {
        best := j;
      }
    }
  }

  // ---- Enumeration in cut order ----

  /** The cut after placing v is the current cut plus the gain its bucket stands for. */
  lemma GainIsRise(g: Graph, S: set<Vertex>, v: Vertex)
    requires v !in S
    ensures Cut(g, S + {v}) == Cut(g, S) + |Neighbours(g, v) - S| - |Neighbours(g, v) * S|
  {
    CutRecurrence(g, S, v);
    var N := Neighbours(g, v);
    assert N == (N * S) + (N - S);
  }

  /** `cs` lists, in order, the legal vertices of the visited set X. */
  ghost predicate Listing(g: Graph, k: nat, twins: TwinTable, S: set<Vertex>, order: Order, X: set<Vertex>, cs: seq<Candidate>) {
    ListsWithin(g, k, twins, S, X, cs) && Sorted(Precedence(order), cs)
  }

  /** Everything visited so far comes no later than v. */
  ghost predicate AllBefore(order: Order, cs: seq<Candidate>, c: Candidate) {
    forall i :: 0 <= i < |cs| ==> Precedes(order, cs[i], c)
  }

  lemma ListNext(g: Graph, k: nat, twins: TwinTable, S: set<Vertex>, order: Order, X: set<Vertex>, cs: seq<Candidate>,
                 v: Vertex)
    requires Listing(g, k, twins, S, order, X, cs) && v !in X
    requires Legal(g, k, twins, S, v) ==> AllBefore(order, cs, Candidate(v, Cut(g, S + {v})))
    ensures Listing(g, k, twins, S, order, X + {v},
                    if Legal(g, k, twins, S, v) then cs + [Candidate(v, Cut(g, S + {v}))] else cs)
  {
    hide Legal, Cut, ListsWithin;
    ListsStep(g, k, twins, S, X, v, cs);
    PrecedenceIsOrder(order);
  }

  // ---- Bucket order ----

  /** Bucket b is visited before bucket i. */
  predicate Ahead(order: Order, b: int, i: int) {
    if order == LargestCutFirst then b > i else b < i
  }

  /** The unplaced vertices met before vertex v of bucket i. */
  ghost function Visited(g: Graph, S: set<Vertex>, gains: seq<int>, order: Order, i: int, v: nat): set<Vertex>
    requires |gains| == Size(g)
  {
    set u | u in Vertices(g) - S && (Ahead(order, gains[u], i) || (gains[u] == i && u < v))
  }

  lemma VisitedStep(g: Graph, S: set<Vertex>, gains: seq<int>, order: Order, i: int, v: Vertex)
    requires |gains| == Size(g) && v < Size(g)
    ensures v !in Visited(g, S, gains, order, i, v) || gains[v] != i
    ensures Visited(g, S, gains, order, i, v + 1) ==
            if v !in S && gains[v] == i then Visited(g, S, gains, order, i, v) + {v} else Visited(g, S, gains, order, i, v)
  {
    hide Below;
    assert v in Vertices(g);
  }

  lemma VisitedRow(g: Graph, S: set<Vertex>, gains: seq<int>, order: Order, i: int)
    requires |gains| == Size(g) && order != ByVertex
    ensures Visited(g, S, gains, order, i, Size(g)) ==
            Visited(g, S, gains, order, if order == LargestCutFirst then i - 1 else i + 1, 0)
  {
  }

  lemma VisitedEnds(g: Graph, S: set<Vertex>, gains: seq<int>, order: Order)
    requires |gains| == Size(g) && order != ByVertex
    requires forall u :: u in Vertices(g) - S ==> 0 <= gains[u] <= 2 * Size(g)
    ensures var first, after := if order == LargestCutFirst then 2 * Size(g) else 0,
                                if order == LargestCutFirst then -1 else 2 * Size(g) + 1;
            && Visited(g, S, gains, order, first, 0) == {}
            && Visited(g, S, gains, order, after, 0) == Vertices(g) - S
  {
  }

  /** What a vertex of the current bucket follows in the order of cuts. */
  lemma VisitedPrecede(g: Graph, k: nat, twins: TwinTable, S: set<Vertex>, gains: seq<int>, order: Order, i: int, v: Vertex,
                       cs: seq<Candidate>)
    requires |gains| == Size(g) && order != ByVertex && v in Vertices(g) - S && gains[v] == i
    requires forall u :: u in Vertices(g) - S ==> Cut(g, S + {u}) == Cut(g, S) + gains[u] - Size(g)
    requires ListsWithin(g, k, twins, S, Visited(g, S, gains, order, i, v), cs)
    ensures AllBefore(order, cs, Candidate(v, Cut(g, S + {v})))
  {
    hide Cut, Below, Legal;
    forall j | 0 <= j < |cs| ensures Precedes(order, cs[j], Candidate(v, Cut(g, S + {v}))) {
      assert cs[j] in cs;
    }
  }

  /** One vertex of the current bucket: it joins the list exactly when it is legal. */
  lemma VisitVertex(g: Graph, k: nat, twins: TwinTable, S: set<Vertex>, gains: seq<int>, order: Order, i: int, v: Vertex,
                    cs: seq<Candidate>)
    requires |gains| == Size(g) && order != ByVertex && v in Vertices(g) - S && gains[v] == i
    requires forall u :: u in Vertices(g) - S ==> Cut(g, S + {u}) == Cut(g, S) + gains[u] - Size(g)
    requires Listing(g, k, twins, S, order, Visited(g, S, gains, order, i, v), cs)
    ensures Listing(g, k, twins, S, order, Visited(g, S, gains, order, i, v + 1),
                    if Legal(g, k, twins, S, v) then cs + [Candidate(v, Cut(g, S + {v}))] else cs)
  {
    hide Legal, Cut, ListsWithin, Visited;
    VisitedStep(g, S, gains, order, i, v);
    VisitedPrecede(g, k, twins, S, gains, order, i, v, cs);
    ListNext(g, k, twins, S, order, Visited(g, S, gains, order, i, v), cs, v);
  }

  ghost function Gains(g: Graph, S: set<Vertex>): (r: seq<int>)
    ensures |r| == Size(g)
  {
    seq(Size(g), v requires 0 <= v < Size(g) => |Neighbours(g, v) - S| - |Neighbours(g, v) * S| + Size(g))
  }

  lemma GainFacts(g: Graph, S: set<Vertex>)
    ensures forall u :: u in Vertices(g) - S ==> 0 <= Gains(g, S)[u] <= 2 * Size(g)
    ensures forall u :: u in Vertices(g) - S ==> Cut(g, S + {u}) == Cut(g, S) + Gains(g, S)[u] - Size(g)
  {
    forall u | u in Vertices(g) - S
      ensures 0 <= Gains(g, S)[u] <= 2 * Size(g) && Cut(g, S + {u}) == Cut(g, S) + Gains(g, S)[u] - Size(g)
    {
      GainIsRise(g, S, u);
      CountsWithin(g, S, u);
    }
  }

  lemma GainOf(g: Graph, S: set<Vertex>, v: Vertex)
    requires v < Size(g)
    ensures Gains(g, S)[v] == |Neighbours(g, v) - S| - |Neighbours(g, v) * S| + Size(g)
  {
  }

  /** A bucket holds exactly the unplaced vertices of its gain. */
  lemma BucketFacts(state: ReversibleNodeState, i: nat, v: Vertex)
    requires state.Valid() && v in Vertices(state.g) && v < Size(state.g) && i < 2 * Size(state.g) + 1
    ensures |state.gainBuckets| == 2 * Size(state.g) + 1 && |state.before| == Size(state.g)
    ensures v in state.gainBuckets[i] <==> v !in state.prefix && Gains(state.g, state.prefix)[v] == i
    ensures v !in state.prefix ==> state.before[v] == |Neighbours(state.g, v) * state.prefix|
  {
    hide ReversibleNodeState.Valid, Gains, Neighbours, Below;
    state.BucketOf(i, v);
    if v !in state.prefix {
      state.UnplacedFacts(v);
      GainOf(state.g, state.prefix, v);
    }
  }

  /** The bucket visited when `left` of n are still to come. */
  function BucketAt(order: Order, n: nat, left: nat): int {
    if order == LargestCutFirst then left - 1 else n - left
  }

  lemma StartListing(g: Graph, k: nat, twins: TwinTable, S: set<Vertex>, order: Order)
    requires order != ByVertex
    ensures var n := 2 * Size(g) + 1;
            Listing(g, k, twins, S, order, Visited(g, S, Gains(g, S), order, BucketAt(order, n, n), 0), [])
  {
    GainFacts(g, S);
    hide Gains;
    VisitedEnds(g, S, Gains(g, S), order);
    hide Visited;
  }

  lemma FinishListing(g: Graph, k: nat, twins: TwinTable, S: set<Vertex>, order: Order, cs: seq<Candidate>)
    requires order != ByVertex
    requires var n := 2 * Size(g) + 1;
             Listing(g, k, twins, S, order, Visited(g, S, Gains(g, S), order, BucketAt(order, n, 0), 0), cs)
    ensures ListsLegal(g, k, twins, S, cs) && Sorted(Precedence(order), cs)
  {
    hide Gains, Visited, ListsWithin, Cut, Below, TwinBlocked, Precedence, Sorted;
    GainFacts(g, S);
    VisitedEnds(g, S, Gains(g, S), order);
    assert AllLegalIn(g, k, twins, S, Vertices(g) - S);
    ListsAll(g, k, twins, S, Vertices(g) - S, cs);
  }

  lemma NextBucket(g: Graph, S: set<Vertex>, order: Order, left: nat)
    requires order != ByVertex && 0 < left
    ensures var n, gains := 2 * Size(g) + 1, Gains(g, S);
            Visited(g, S, gains, order, BucketAt(order, n, left), Size(g)) ==
            Visited(g, S, gains, order, BucketAt(order, n, left - 1), 0)
  {
    hide Gains, Visited;
    VisitedRow(g, S, Gains(g, S), order, BucketAt(order, 2 * Size(g) + 1, left));
  }

  /** The legal children read off the gain buckets: sorted by cut without sorting. */
  method EnumerateBuckets(state: ReversibleNodeState, k: nat, twins: TwinTable, cut: nat, order: Order)
    returns (cs: seq<Candidate>)
    requires state.Valid() && cut == Cut(state.g, state.prefix) && order != ByVertex
    ensures ListsLegal(state.g, k, twins, state.prefix, cs) && Sorted(Precedence(order), cs)
  {
    hide Gains, Visited, Listing, ReversibleNodeState.Valid, Cut, Below, Precedence, Sorted, ListsLegal;
    ghost var g, S := state.g, state.prefix;
    var n: nat := 2 * Size(state.g) + 1;
    StartListing(g, k, twins, S, order);
    cs := [];
    var left: nat := n;
    while left > 0
      invariant left <= n
      invariant Listing(g, k, twins, S, order, Visited(g, S, Gains(g, S), order, BucketAt(order, n, left), 0), cs)
    {
      cs := VisitBucket(state, k, twins, cut, order, BucketAt(order, n, left), cs);
      NextBucket(g, S, order, left);
      left := left - 1;
    }
    FinishListing(g, k, twins, S, order, cs);
  }

  lemma VertexBelow(g: Graph, v: nat)
    requires v < Size(g)
    ensures v in Vertices(g)
  {
  }

  method VisitBucket(state: ReversibleNodeState, k: nat, twins: TwinTable, cut: nat, order: Order, i: nat, listed: seq<Candidate>)
    returns (cs: seq<Candidate>)
    requires state.Valid() && cut == Cut(state.g, state.prefix) && order != ByVertex && i < 2 * Size(state.g) + 1
    requires Listing(state.g, k, twins, state.prefix, order,
                     Visited(state.g, state.prefix, Gains(state.g, state.prefix), order, i, 0), listed)
    ensures Listing(state.g, k, twins, state.prefix, order,
                    Visited(state.g, state.prefix, Gains(state.g, state.prefix), order, i, Size(state.g)), cs)
  {
    hide Gains, Visited, Listing, ReversibleNodeState.Valid, Cut, Legal, TwinBlocked, Below, Neighbours;
    ghost var g, S := state.g, state.prefix;
    ghost var gains := Gains(g, S);
    GainFacts(g, S);
    cs := listed;
    for v := 0 to Size(state.g)
      invariant Listing(g, k, twins, S, order, Visited(g, S, gains, order, i, v), cs)
    {
      VertexBelow(state.g, v);
      BucketFacts(state, i, v);
      if v in state.gainBuckets[i] && v !in state.prefix {
        VisitVertex(g, k, twins, S, gains, order, i, v, cs);
        LegalTest(g, k, twins, S, cut, v, state.before[v]);
        if TwinBlocked(twins, state.prefix, v) {
          continue;
        }
        var next := NextCut(state.g, cut, v, state.before[v]);
        if next <= k {
          cs := cs + [Candidate(v, next)];
        }
      } else {
        VisitedStep(g, S, gains, order, i, v);
      }
    }
  }

  // ---- Lookahead ----

  /** Whether some vertex may be placed next, counting its placed neighbours afresh. */
  method HasLegalNext(g: Graph, k: nat, twins: TwinTable, S: set<Vertex>, cut: nat, limited: bool) returns (r: Lookahead)
    requires cut == Cut(g, S)
    ensures r == Interrupted ==> limited
    ensures r == LegalSecond ==> exists v :: Legal(g, k, twins, S, v)
    ensures r == NoLegalSecond ==> NoneLegalIn(g, k, twins, S, Vertices(g))
  {
    hide Legal, Cut, TwinBlocked, Below, NoneLegalIn, Neighbours;
    NothingLegalBelow(g, k, twins, S);
    for v := 0 to Size(g)
      invariant NoneLegalIn(g, k, twins, S, Below(v))
    {
      if limited {
        if * {
          return Interrupted;
        }
      }
      NoneLegalStep(g, k, twins, S, v);
      if v in S {
        PlacedIsIllegal(g, k, twins, S, v);
        continue;
      }
      VertexBelow(g, v);
      LegalTest(g, k, twins, S, cut, v, |Neighbours(g, v) * S|);
      if TwinBlocked(twins, S, v) {
        continue;
      }
      if NextCut(g, cut, v, |Neighbours(g, v) * S|) <= k {
        return LegalSecond;
      }
    }
    return NoLegalSecond;
  }

  lemma NothingLegalBelow(g: Graph, k: nat, twins: TwinTable, S: set<Vertex>)
    ensures NoneLegalIn(g, k, twins, S, Below(0))
  {
  }

  lemma PlacedIsIllegal(g: Graph, k: nat, twins: TwinTable, S: set<Vertex>, v: Vertex)
    requires v in S
    ensures !Legal(g, k, twins, S, v)
  {
  }

  // ---- Children rated by the memo ----

  datatype Rated = Rated(child: Candidate, memo: nat)

  /** Largest lower bound first, then largest cut, then smallest vertex. */
  predicate RatedBefore(a: Rated, b: Rated) {
    if a.memo != b.memo then a.memo > b.memo
    else Precedes(LargestCutFirst, a.child, b.child)
  }

  function Children(rated: seq<Rated>): (cs: seq<Candidate>)
    ensures |cs| == |rated| && forall i :: 0 <= i < |rated| ==> cs[i] == rated[i].child
  {
    seq(|rated|, i requires 0 <= i < |rated| => rated[i].child)
  }

  /** Sorting the rated children keeps what they cover. */
  lemma CoversSorted(g: Graph, k: nat, twins: TwinTable, S: set<Vertex>, a: seq<Rated>, b: seq<Rated>)
    requires Covers(g, k, twins, S, Children(a)) && multiset(b) == multiset(a)
    ensures Covers(g, k, twins, S, Children(b))
  {
    hide Legal, Cut, Feasible, Below;
    SameElements(b, a);
    forall c: Candidate ensures c in Children(b) <==> c in Children(a) {
      ChildOf(a, c);
      ChildOf(b, c);
    }
    var vertexOf := (r: Rated) => r.child.vertex;
    assert DistinctBy(vertexOf, a) by {
      forall i, j | 0 <= i < j < |a| ensures vertexOf(a[i]) != vertexOf(a[j]) {
        assert Children(a)[i].vertex != Children(a)[j].vertex;
      }
    }
    RearrangedDistinct(vertexOf, a, b);
    assert forall i, j :: 0 <= i < j < |b| ==> vertexOf(b[i]) != vertexOf(b[j]);
  }

  lemma ChildOf(rated: seq<Rated>, c: Candidate)
    ensures c in Children(rated) <==> exists r :: r in rated && r.child == c
  {
    if c in Children(rated) {
      var i :| 0 <= i < |rated| && Children(rated)[i] == c;
      assert rated[i] in rated;
    }
    if r :| r in rated && r.child == c {
      var i :| 0 <= i < |rated| && rated[i] == r;
      assert Children(rated)[i] == c;
    }
  }

  method SortRated(rated: seq<Rated>) returns (sorted: seq<Rated>)
    ensures Sorted(RatedBefore, sorted) && multiset(sorted) == multiset(rated)
  {
    assert WeakOrder(RatedBefore);
    sorted := Sort(RatedBefore, rated);
  }

  // ---- The search ----

  lemma SolvesParent(g: Graph, k: nat, path: seq<Vertex>, v: Vertex, o: seq<Vertex>)
    requires Solves(g, k, path + [v], o) && Cut(g, Elems(path)) <= k
    ensures Solves(g, k, path, o)
  {
    assert path <= path + [v];
    assert o[..|path|] == path;
  }

  lemma FullPathSolves(g: Graph, k: nat, path: seq<Vertex>)
    requires IsPath(g, path) && |path| == Size(g)
    ensures Solves(g, k, path, path)
  {
    PathIsFull(g, path);
    FullCut(g);
    assert path[..|path|] == path;
  }

  class Search64 {
    const g: Graph
    const k: nat
    const options: WordOptions
    const twins: TwinTable
    const cache: ProofCache
    const oracle: FiniteHorizonOracle
    const state: ReversibleNodeState
    const limited: bool
    var path: seq<Vertex>
    var solution: seq<Vertex>
    var nodesExpanded: nat

    ghost predicate Configured() {
      && ValidTwins(g, twins) && oracle.g == g && state.g == g && options.memoDepth <= MAXIMUM_DEPTH
    }

    ghost predicate CacheIsTruthful()
      reads cache
    {
      cache.Valid() && Truthful(g, cache.Entries())
    }

    ghost predicate Valid()
      reads this, cache, oracle.memo, state
    {
      && Configured() && CacheIsTruthful() && oracle.Valid() && state.Valid()
      && IsPath(g, path) && (options.incremental ==> state.prefix == Elems(path))
    }

    /** The proofs held by the shared cache. */
    ghost function Proofs(): map<set<Vertex>, nat>
      requires CacheIsTruthful()
      reads cache
    {
      cache.Entries()
    }

    /** The failure of S up to the given threshold is published, where a cache is used. */
    ghost predicate Known(S: set<Vertex>, threshold: nat)
      requires CacheIsTruthful()
      reads cache
    {
      options.useCache ==> Kept(cache, S, threshold)
    }

    lemma KnownBelow(S: set<Vertex>, threshold: nat)
      requires CacheIsTruthful() && Known(S, threshold) && k <= threshold
      ensures Known(S, k)
    {
    }

    constructor (g: Graph, k: nat, options: WordOptions, cache: ProofCache, oracle: FiniteHorizonOracle,
                 path: seq<Vertex>, cut: nat, limited: bool)
      requires options.memoDepth <= MAXIMUM_DEPTH && IsPath(g, path)
      requires cache.Valid() && Truthful(g, cache.Entries()) && oracle.Valid() && oracle.g == g
      ensures Valid() && this.g == g && this.k == k && this.path == path && this.cache == cache && this.oracle == oracle
      ensures this.options == options && this.limited == limited && fresh(state)
      ensures TwinTableOf(g, options.useTwins, twins)
    {
      this.g, this.k, this.options, this.cache, this.oracle := g, k, options, cache, oracle;
      this.limited, this.path, solution, nodesExpanded := limited, path, [], 0;
      var table := BuildWordTwins(g, options.useTwins);
      twins := table;
      state := new ReversibleNodeState(g, Elems(path), cut);
    }

    /** The external stop and the deadline of a limited run. */
    method Expired() returns (stop: bool)
      ensures stop ==> limited
    {
      stop := false;
      if limited {
        stop := *;
      }
    }

    method Record(prefix: set<Vertex>)
      requires CacheIsTruthful() && !Feasible(g, k, prefix)
      modifies cache
      ensures CacheIsTruthful() && Known(prefix, k) && Learns(options.useCache, old(Proofs()), Proofs())
    {
      hide Feasible, DynamicDecisionCache.Valid, DynamicDecisionCache.Entries, DynamicDecisionCache.HasRoom, Truthful;
      if options.useCache {
        RecordFailure(g, k, cache, prefix);
      }
    }

    /** Records the largest refuted threshold, or failing that the one being decided. */
    method RecordThrough(prefix: set<Vertex>, maximumFailed: nat)
      requires CacheIsTruthful() && k <= maximumFailed && !Feasible(g, maximumFailed, prefix)
      modifies cache
      ensures CacheIsTruthful() && Known(prefix, maximumFailed) && Learns(options.useCache, old(Proofs()), Proofs())
    {
      hide Feasible, DynamicDecisionCache.Valid, DynamicDecisionCache.Entries, DynamicDecisionCache.HasRoom, Truthful;
      if !options.useCache {
        return;
      }
      ghost var entries := cache.Entries();
      var retained := cache.RecordFailed(prefix, maximumFailed);
      TruthfulRecord(g, entries, cache.Entries(), prefix, maximumFailed);
      if !retained && maximumFailed != k {
        if Feasible(g, k, prefix) {
          FeasibleMonotone(g, k, maximumFailed, prefix);
          assert false;
        }
        RecordFailure(g, k, cache, prefix);
      }
    }

    predicate MemoGate(remaining: int) {
      options.memoDepth != 0 && (options.memoMaxRemaining == 0 || remaining <= options.memoMaxRemaining)
    }

    /** A complete horizon value above the threshold refutes the prefix, up to just below the value. */
    method MemoRefutes(prefix: set<Vertex>, depth: nat) returns (refuted: bool, bound: nat)
      requires Configured() && CacheIsTruthful() && oracle.Valid() && prefix <= Vertices(g) && depth <= MAXIMUM_DEPTH
      modifies cache, oracle.memo
      ensures CacheIsTruthful() && oracle.Valid()
      ensures refuted ==> !Feasible(g, k, prefix) && k < bound && Known(prefix, bound - 1)
      ensures refuted ==> IsHorizon(g, prefix, depth, bound)
      ensures Learns(options.useCache, old(Proofs()), Proofs())
      ensures !limited ==> IsHorizon(g, prefix, depth, bound) && (refuted <==> bound > k)
    {
      hide Feasible, CacheIsTruthful, FiniteHorizonOracle.Valid, IsHorizon, Cut, Known, Learns, Proofs, ValidTwins, Below;
      LearnsNothing(options.useCache, Proofs());
      var r := oracle.Evaluate(prefix, depth, limited);
      bound := r.value.bound;
      if r.value.complete && bound > k {
        HorizonRefutes(g, prefix, depth, bound, bound - 1);
        HorizonRefutes(g, prefix, depth, bound, k);
        RecordThrough(prefix, bound - 1);
        return true, bound;
      }
      return false, bound;
    }

    /** The prunes made before children are listed; each is a proof. */
    method Prune(prefix: set<Vertex>) returns (pruned: bool)
      requires Valid() && prefix == Elems(path) && prefix != Vertices(g)
      modifies cache, oracle.memo
      ensures Valid() && (pruned ==> !Feasible(g, k, prefix) && Known(prefix, k))
      ensures Learns(options.useCache, old(Proofs()), Proofs())
      ensures options.useCache && Proven(old(Proofs()), prefix, k) ==> pruned
      ensures options.residualDegreeBound && Crowded(g, k, prefix) ==> pruned
      ensures pruned && options.memoDepth == 0 ==>
                || (options.useCache && Proven(old(Proofs()), prefix, k))
                || (options.residualDegreeBound && Crowded(g, k, prefix))
      ensures !limited ==>
                (pruned <==> || (options.useCache && Proven(old(Proofs()), prefix, k))
                             || (options.memoDepth != 0
                                 && (options.memoMaxRemaining == 0 || Size(g) - |path| <= options.memoMaxRemaining)
                                 && !Bounded(g, k, prefix, options.memoDepth))
                             || (options.residualDegreeBound && Crowded(g, k, prefix)))
    {
      hide Feasible, CacheIsTruthful, FiniteHorizonOracle.Valid, ReversibleNodeState.Valid, Elems, Distinct, Below,
        Kept, Learns, ValidTwins, Neighbours, Bounded, Crowded, Proven, DynamicDecisionCache.Entries,
        DynamicDecisionCache.HasRoom;
      LearnsNothing(options.useCache, Proofs());
      if options.useCache {
        var hit := CacheHit(prefix);
        if hit {
          return true;
        }
      }
      PathIsFull(g, path);
      if MemoGate(Size(g) - |path|) {
        var refuted, bound := MemoRefutes(prefix, options.memoDepth);
        if refuted {
          KnownBelow(prefix, bound - 1);
          return true;
        }
      }
      if options.residualDegreeBound {
        ghost var known := Proofs();
        pruned := DegreeRefutes(prefix);
        LearnsFurther(options.useCache, old(Proofs()), known, Proofs());
        return;
      }
      return false;
    }

    /** The residual-degree bound, from the kept histogram or counted afresh. */
    method DegreeRefutes(prefix: set<Vertex>) returns (refuted: bool)
      requires CacheIsTruthful()
      requires options.incremental ==> state.Valid() && state.g == g && state.prefix == prefix
      modifies cache
      ensures CacheIsTruthful() && (refuted ==> !Feasible(g, k, prefix) && Known(prefix, k))
      ensures (refuted <==> Crowded(g, k, prefix)) && Learns(options.useCache, old(Proofs()), Proofs())
    {
      hide Feasible, CacheIsTruthful, Known, Learns, Proofs, ReversibleNodeState.Valid, Below, Neighbours, Crowded;
      LearnsNothing(options.useCache, Proofs());
      var maximum: nat;
      if options.incremental {
        maximum := state.MaximumResidualDegree();
      } else {
        maximum := MaximumResidualDegree(g, prefix);
      }
      LargestDecides(g, k, prefix, maximum);
      if (maximum + 1) / 2 > k {
        ghost var v: Vertex :| v in Vertices(g) - prefix && |Neighbours(g, v) - prefix| == maximum;
        ResidualDegreeProves(g, k, prefix, v);
        Record(prefix);
        return true;
      }
      return false;
    }

    method CacheHit(prefix: set<Vertex>) returns (hit: bool)
      requires CacheIsTruthful()
      modifies cache
      ensures CacheIsTruthful() && (hit ==> !Feasible(g, k, prefix))
      ensures cache.Entries() == old(cache.Entries()) && (hit <==> Proven(cache.Entries(), prefix, k))
      ensures Proofs() == old(Proofs()) && (hit ==> Known(prefix, k))
    {
      hide Feasible, DynamicDecisionCache.Valid, DynamicDecisionCache.Entries, Truthful;
      hit := ProvenFailed(g, k, cache, prefix);
    }

    function CutOrder(): Order {
      if options.failFirst then LargestCutFirst else SmallestCutFirst
    }

    /** The placed neighbours of an unplaced vertex, kept or counted afresh. */
    method PlacedBefore(prefix: set<Vertex>, v: Vertex) returns (count: nat)
      requires Valid() && prefix == Elems(path) && v in Vertices(g) - prefix
      ensures count == |Neighbours(g, v) * prefix|
    {
      hide CacheIsTruthful, FiniteHorizonOracle.Valid, ReversibleNodeState.Valid, Elems, Distinct, Below, ValidTwins,
        Neighbours;
      if options.incremental {
        state.UnplacedFacts(v);
        return state.before[v];
      }
      return |Neighbours(g, v) * prefix|;
    }

    /** Tests the unplaced vertices in increasing order. */
    method ScanLegal(prefix: set<Vertex>, cut: nat) returns (cs: seq<Candidate>)
      requires Valid() && prefix == Elems(path) && cut == Cut(g, prefix)
      ensures ListsLegal(g, k, twins, prefix, cs)
    {
      hide Valid, Cut, Legal, TwinBlocked, Below, ListsWithin, Neighbours, Elems;
      cs := [];
      StartScan(g, k, twins, prefix);
      for v := 0 to Size(g)
        invariant ListsWithin(g, k, twins, prefix, Below(v), cs)
      {
        BelowStep(v);
        ListsStep(g, k, twins, prefix, Below(v), v, cs);
        if v in prefix {
          PlacedIsIllegal(g, k, twins, prefix, v);
          continue;
        }
        VertexBelow(g, v);
        var before := PlacedBefore(prefix, v);
        LegalTest(g, k, twins, prefix, cut, v, before);
        if !TwinBlocked(twins, prefix, v) && NextCut(g, cut, v, before) <= k {
          cs := cs + [Candidate(v, NextCut(g, cut, v, before))];
        }
      }
    }

    /** Each child is rated by its horizon, one step shorter than the node's; without the gate by nothing. */
    ghost predicate RatedBy(prefix: set<Vertex>, gate: bool, rated: seq<Rated>)
      requires gate ==> options.memoDepth > 0
    {
      forall i :: 0 <= i < |rated| ==>
        if gate then limited || IsHorizon(g, prefix + {rated[i].child.vertex}, options.memoDepth - 1, rated[i].memo)
        else rated[i].memo == 0
    }

    lemma RatedToo(prefix: set<Vertex>, gate: bool, a: seq<Rated>, b: seq<Rated>)
      requires (gate ==> options.memoDepth > 0) && RatedBy(prefix, gate, a) && multiset(b) == multiset(a)
      ensures RatedBy(prefix, gate, b)
    {
      hide IsHorizon;
      SameElements(b, a);
      forall i | 0 <= i < |b|
        ensures if gate then limited || IsHorizon(g, prefix + {b[i].child.vertex}, options.memoDepth - 1, b[i].memo)
                else b[i].memo == 0
      {
        assert b[i] in a;
        var j :| 0 <= j < |a| && a[j] == b[i];
      }
    }

    /** The same scan, rating each child by the memo and leaving out those it refutes. */
    method ScanRated(prefix: set<Vertex>, cut: nat, gate: bool) returns (rated: seq<Rated>)
      requires Valid() && prefix == Elems(path) && cut == Cut(g, prefix) && (gate ==> options.memoDepth > 0)
      modifies cache, oracle.memo
      ensures Valid() && Covers(g, k, twins, prefix, Children(rated)) && RatedBy(prefix, gate, rated)
      ensures Learns(options.useCache, old(Proofs()), Proofs())
    {
      hide Learns, Proofs, CacheIsTruthful, Valid, Cut, Legal, TwinBlocked, Below, CoversWithin, IsHorizon, Neighbours, Elems, Feasible;
      rated := [];
      StartRated(g, k, twins, prefix);
      TruthfulCache();
      LearnsNothing(options.useCache, Proofs());
      for v := 0 to Size(g)
        invariant Valid() && CoversWithin(g, k, twins, prefix, Below(v), Children(rated))
        invariant CacheIsTruthful() && Learns(options.useCache, old(Proofs()), Proofs())
        invariant RatedBy(prefix, gate, rated)
      {
        ghost var known := Proofs();
        BelowStep(v);
        CoverNext(g, k, twins, prefix, Below(v), Children(rated), v);
        if v in prefix {
          PlacedIsIllegal(g, k, twins, prefix, v);
          continue;
        }
        VertexBelow(g, v);
        var before := PlacedBefore(prefix, v);
        LegalTest(g, k, twins, prefix, cut, v, before);
        if TwinBlocked(twins, prefix, v) || NextCut(g, cut, v, before) > k {
          continue;
        }
        var refuted, memo := false, 0;
        if gate {
          refuted, memo := RateChild(prefix, v);
          LearnsFurther(options.useCache, old(Proofs()), known, Proofs());
        }
        if !refuted {
          OneMoreChild(rated, Rated(Candidate(v, NextCut(g, cut, v, before)), memo));
          rated := rated + [Rated(Candidate(v, NextCut(g, cut, v, before)), memo)];
        }
      }
    }

    lemma TruthfulCache()
      requires Valid()
      ensures CacheIsTruthful()
    {
      hide CacheIsTruthful, FiniteHorizonOracle.Valid, ReversibleNodeState.Valid, IsPath;
    }

    /** A refuted child is published up to just below its horizon; another is rated by its horizon. */
    method RateChild(prefix: set<Vertex>, v: Vertex) returns (refuted: bool, memo: nat)
      requires Valid() && prefix == Elems(path) && v in Vertices(g) - prefix && options.memoDepth > 0
      modifies cache, oracle.memo
      ensures Valid() && (refuted ==> !Feasible(g, k, prefix + {v}) && k < memo && Known(prefix + {v}, memo - 1))
      ensures !limited ==> IsHorizon(g, prefix + {v}, options.memoDepth - 1, memo) && (refuted <==> memo > k)
      ensures CacheIsTruthful() && Learns(options.useCache, old(Proofs()), Proofs())
    {
      hide Feasible, IsHorizon, Known, Learns, Proofs, CacheIsTruthful, FiniteHorizonOracle.Valid, ReversibleNodeState.Valid, Elems, Distinct, Below,
        ValidTwins, Neighbours;
      refuted, memo := MemoRefutes(prefix + {v}, options.memoDepth - 1);
    }

    /** Every enumeration covers what is left to try; in cut order all of them give one and the same list. */
    method ListChildren(prefix: set<Vertex>, cut: nat) returns (cs: seq<Candidate>)
      requires Valid() && prefix == Elems(path) && cut == Cut(g, prefix) <= k
      modifies cache, oracle.memo
      ensures Valid() && Covers(g, k, twins, prefix, cs) && Learns(options.useCache, old(Proofs()), Proofs())
      ensures options.order == ByMemo ==>
                exists rated :: Sorted(RatedBefore, rated) && RatedBy(prefix, MemoGate(Size(g) - |path|), rated) && cs == Children(rated)
      ensures options.order == ByCut ==> ListsLegal(g, k, twins, prefix, cs) && Sorted(Precedence(CutOrder()), cs)
      ensures options.order == ByCut ==> InOrder(options.failFirst, cs)
    {
      hide CacheIsTruthful, FiniteHorizonOracle.Valid, ReversibleNodeState.Valid, Elems, Distinct, Below, ValidTwins,
        Cut, Covers, InOrder, Learns, ListsLegal, Proofs, RatedBy, Sorted, Precedence;
      LearnsNothing(options.useCache, Proofs());
      if options.order == ByMemo {
        PathIsFull(g, path);
        var rated := ScanRated(prefix, cut, MemoGate(Size(g) - |path|));
        var sorted := SortRated(rated);
        CoversSorted(g, k, twins, prefix, rated, sorted);
        RatedToo(prefix, MemoGate(Size(g) - |path|), rated, sorted);
        return Children(sorted);
      }
      if options.incremental {
        cs := EnumerateBuckets(state, k, twins, cut, CutOrder());
      } else {
        var listed := ScanLegal(prefix, cut);
        cs := Arrange(listed);
        Rearranged(g, k, twins, prefix, listed, cs);
      }
      ListCovers(g, k, twins, prefix, cs);
      SortedInOrder(options.failFirst, cs);
    }

    method Arrange(listed: seq<Candidate>) returns (cs: seq<Candidate>)
      ensures multiset(cs) == multiset(listed) && Sorted(Precedence(CutOrder()), cs)
    {
      hide Sorted, Precedence;
      var a := new Candidate[|listed|](i requires 0 <= i < |listed| => listed[i]);
      assert a[..] == listed;
      SelectionSort(a, CutOrder());
      return a[..];
    }

    method Dfs(prefix: set<Vertex>, cut: nat) returns (outcome: Outcome)
      requires Valid() && prefix == Elems(path) && cut == Cut(g, prefix) <= k
      modifies this`path, this`solution, this`nodesExpanded, state, cache, oracle.memo
      ensures Valid() && path == old(path) && state.pushed == old(state.pushed)
      ensures outcome == Failed ==> !Feasible(g, k, prefix) && Known(prefix, k)
      ensures Learns(options.useCache, old(Proofs()), Proofs())
      ensures outcome == Found ==> Solves(g, k, path, solution)
      ensures outcome == TimedOut ==> limited
      ensures old(nodesExpanded) <= nodesExpanded <= old(nodesExpanded) + TreeSize(g, k, twins, Cuts(), prefix)
      ensures outcome == Failed && Exhaustive() ==>
                nodesExpanded == old(nodesExpanded) + TreeSize(g, k, twins, Cuts(), prefix)
      ensures |path| < Size(g) && options.useCache && Proven(old(Proofs()), prefix, k) ==>
                nodesExpanded <= old(nodesExpanded) + 1
      ensures |path| < Size(g) && !limited && options.memoDepth != 0
              && (options.memoMaxRemaining == 0 || Size(g) - |path| <= options.memoMaxRemaining)
              && !Bounded(g, k, prefix, options.memoDepth) ==>
                nodesExpanded <= old(nodesExpanded) + 1
      decreases Size(g) - |path|, 1
    {
      hide CacheIsTruthful, FiniteHorizonOracle.Valid, ReversibleNodeState.Valid, Elems, Distinct, Below, ValidTwins,
        Bounded, Cut, Covers, Crowded, InOrder, Known, Learns, ListsLegal, Feasible, Proofs, Proven, RatedBy, Searched,
        Solves, Sorted, TreeSize, TreeSizes;
      LearnsNothing(options.useCache, Proofs());
      TreeOf(prefix);
      var stop := Expired();
      if stop {
        return TimedOut;
      }
      nodesExpanded := nodesExpanded + 1;
      PathIsFull(g, path);
      if prefix == Vertices(g) {
        solution := path;
        FullPathSolves(g, k, path);
        return Found;
      }
      var pruned := Prune(prefix);
      if pruned {
        return Failed;
      }
      ghost var pruning := Proofs();
      var cs := ListChildren(prefix, cut);
      ghost var listing := Proofs();
      LearnsFurther(options.useCache, old(Proofs()), pruning, listing);
      outcome := TryChildren(prefix, cut, cs);
      LearnsFurther(options.useCache, old(Proofs()), listing, Proofs());
    }

    method TryChildren(prefix: set<Vertex>, cut: nat, cs: seq<Candidate>) returns (outcome: Outcome)
      requires Valid() && prefix == Elems(path) && cut == Cut(g, prefix) <= k && |path| < Size(g)
      requires Covers(g, k, twins, prefix, cs) && (Exhaustive() ==> ListsLegal(g, k, twins, prefix, cs))
      modifies this`path, this`solution, this`nodesExpanded, state, cache, oracle.memo
      ensures Valid() && path == old(path) && state.pushed == old(state.pushed)
      ensures outcome == Failed ==> !Feasible(g, k, prefix) && Known(prefix, k)
      ensures Learns(options.useCache, old(Proofs()), Proofs())
      ensures outcome == Found ==> Solves(g, k, path, solution)
      ensures outcome == TimedOut ==> limited
      ensures old(nodesExpanded) <= nodesExpanded <= old(nodesExpanded) + Trees(prefix, Open(prefix))
      ensures outcome == Failed && Exhaustive() ==> nodesExpanded == old(nodesExpanded) + Trees(prefix, Open(prefix))
      decreases Size(g) - |path|, 0
    {
      hide CacheIsTruthful, Known, Learns, Proofs, Valid, Elems, Below, ValidTwins, Cut, Covers, Legal, Feasible, Solves,
        ChildrenFail, DistinctVertices, LeftOpen, ListsLegal, NoneLegalIn, Refused, Searched, TreeSize, TreeSizes;
      PathOf(prefix);
      TruthfulCache();
      LearnsNothing(options.useCache, Proofs());
      ChildrenStart(g, k, prefix, cs);
      ghost var left := Open(prefix);
      OpenFirst(g, k, twins, Cuts(), prefix, cs);
      for i := 0 to |cs|
        invariant Valid() && path == old(path) && state.pushed == old(state.pushed)
        invariant CacheIsTruthful() && Learns(options.useCache, old(Proofs()), Proofs())
        invariant ChildrenFail(g, k, prefix, cs, i)
        invariant left <= Open(prefix) && LeftOpen(g, k, twins, Cuts(), prefix, cs, i, left)
        invariant old(nodesExpanded) <= nodesExpanded <= old(nodesExpanded) + Trees(prefix, Open(prefix)) - Trees(prefix, left)
        invariant Exhaustive() ==> nodesExpanded == old(nodesExpanded) + Trees(prefix, Open(prefix)) - Trees(prefix, left)
      {
        ghost var known := Proofs();
        var stop := Expired();
        if stop {
          return TimedOut;
        }
        CoveredFacts(g, k, twins, prefix, cs, i);
        RefusedHere(prefix, cs[i].vertex);
        var refused, interrupted := LookaheadRefuses(prefix, cs[i]);
        if interrupted {
          return TimedOut;
        }
        if refused {
          ChildrenStep(g, k, prefix, cs, i);
          OpenRefused(g, k, twins, Cuts(), prefix, cs, i, left);
          continue;
        }
        OpenTaken(g, k, twins, Cuts(), prefix, cs, i, left);
        left := left - {cs[i].vertex};
        outcome := Descend(prefix, cut, cs[i]);
        LearnsFurther(options.useCache, old(Proofs()), known, Proofs());
        if outcome != Failed {
          return outcome;
        }
        ChildrenStep(g, k, prefix, cs, i);
      }
      CoveredDone(g, k, twins, prefix, cs);
      if Exhaustive() {
        OpenLast(g, k, twins, Cuts(), prefix, cs, left);
      }
      ghost var tried := Proofs();
      RecordHere(prefix);
      LearnsFurther(options.useCache, old(Proofs()), tried, Proofs());
      return Failed;
    }

    /** Nothing but the shortcuts keeps a prefix from being searched. */
    ghost predicate Exhaustive() {
      !options.useCache && options.memoDepth == 0 && options.order == ByCut
    }

    ghost function Cuts(): Shortcuts {
      Shortcuts(options.residualDegreeBound, false, options.lookahead, options.lookaheadMaxRemaining)
    }

    ghost function Open(S: set<Vertex>): (X: set<Vertex>)
      ensures X <= Vertices(g) - S
    {
      Searched(g, k, twins, Cuts(), S)
    }

    ghost function Trees(S: set<Vertex>, X: set<Vertex>): nat
      requires S <= Vertices(g) && X <= Vertices(g) - S
    {
      TreeSizes(g, k, twins, Cuts(), S, X, Size(g))
    }

    lemma TreeOf(S: set<Vertex>)
      requires S <= Vertices(g)
      ensures S == Vertices(g) ==> TreeSize(g, k, twins, Cuts(), S) == 1
      ensures S != Vertices(g) ==>
                TreeSize(g, k, twins, Cuts(), S) ==
                if options.residualDegreeBound && Crowded(g, k, S) then 1 else 1 + Trees(S, Open(S))
    {
      hide Crowded, Searched, TreeSizes, Vertices;
    }

    /** The test made before a child is searched decides whether it is open. */
    lemma RefusedHere(prefix: set<Vertex>, v: Vertex)
      requires IsPath(g, path) && prefix == Elems(path) && v in Vertices(g) - prefix
      ensures Refused(g, k, twins, Cuts(), prefix, v) <==>
              && options.lookahead
              && (options.lookaheadMaxRemaining == 0 || Size(g) - |path| - 1 <= options.lookaheadMaxRemaining)
              && prefix + {v} != Vertices(g) && NoneLegalIn(g, k, twins, prefix + {v}, Vertices(g))
    {
      hide NoneLegalIn, Vertices;
      DistinctSize(path);
    }

    lemma PathOf(prefix: set<Vertex>)
      requires Valid() && prefix == Elems(path)
      ensures IsPath(g, path) && ValidTwins(g, twins) && |path| <= Size(g)
      ensures prefix == Vertices(g) <==> |path| == Size(g)
    {
      hide CacheIsTruthful, FiniteHorizonOracle.Valid, ReversibleNodeState.Valid, ValidTwins;
      PathIsFull(g, path);
    }

    method RecordHere(prefix: set<Vertex>)
      requires Valid() && !Feasible(g, k, prefix)
      modifies cache
      ensures Valid() && CacheIsTruthful() && Known(prefix, k) && Learns(options.useCache, old(Proofs()), Proofs())
    {
      hide CacheIsTruthful, Known, Learns, Proofs, FiniteHorizonOracle.Valid, ReversibleNodeState.Valid, Feasible, IsPath, Elems, ValidTwins;
      Record(prefix);
    }

    predicate LookaheadGate()
      reads this
    {
      options.lookaheadMaxRemaining == 0 || Size(g) - |path| - 1 <= options.lookaheadMaxRemaining
    }

    /** A child after which nothing can legally follow is not searched. */
    method LookaheadRefuses(prefix: set<Vertex>, c: Candidate) returns (refused: bool, interrupted: bool)
      requires Valid() && prefix == Elems(path) && |path| < Size(g)
      requires c.vertex in Vertices(g) - prefix && c.cut == Cut(g, prefix + {c.vertex})
      ensures refused ==> !Feasible(g, k, prefix + {c.vertex})
      ensures interrupted ==> limited
      ensures !interrupted ==>
                (refused <==> && options.lookahead
                              && (options.lookaheadMaxRemaining == 0 ||
                                  Size(g) - |path| - 1 <= options.lookaheadMaxRemaining)
                              && prefix + {c.vertex} != Vertices(g)
                              && NoneLegalIn(g, k, twins, prefix + {c.vertex}, Vertices(g)))
    {
      hide Valid, Elems, Below, ValidTwins, Cut, Legal, Feasible, NoneLegalIn;
      PathOf(prefix);
      if !options.lookahead || !LookaheadGate() || prefix + {c.vertex} == Vertices(g) {
        return false, false;
      }
      var next := HasLegalNext(g, k, twins, prefix + {c.vertex}, c.cut, limited);
      if next == NoLegalSecond {
        NoLegalFails(g, k, twins, prefix + {c.vertex});
        return true, false;
      }
      if next == LegalSecond {
        SomeLegal(g, k, twins, prefix + {c.vertex});
      }
      return false, next == Interrupted;
    }

    /** Places a child, searches below it, and rolls the node state back. */
    method Descend(prefix: set<Vertex>, cut: nat, c: Candidate) returns (outcome: Outcome)
      requires Valid() && prefix == Elems(path) && cut == Cut(g, prefix) <= k && |path| < Size(g)
      requires c.vertex in Vertices(g) - prefix && c.cut == Cut(g, prefix + {c.vertex}) <= k
      modifies this`path, this`solution, this`nodesExpanded, state, cache, oracle.memo
      ensures old(nodesExpanded) <= nodesExpanded <=
              old(nodesExpanded) + TreeSize(g, k, twins, Cuts(), prefix + {c.vertex})
      ensures outcome == Failed && Exhaustive() ==>
                nodesExpanded == old(nodesExpanded) + TreeSize(g, k, twins, Cuts(), prefix + {c.vertex})
      ensures Valid() && path == old(path) && state.pushed == old(state.pushed)
      ensures outcome == Failed ==> !Feasible(g, k, prefix + {c.vertex}) && Known(prefix + {c.vertex}, k)
      ensures CacheIsTruthful() && Learns(options.useCache, old(Proofs()), Proofs())
      ensures outcome == Found ==> Solves(g, k, path, solution)
      ensures outcome == TimedOut ==> limited
      decreases Size(g) - |path| - 1, 2
    {
      hide CacheIsTruthful, FiniteHorizonOracle.Valid, ReversibleNodeState.Valid, Elems, Distinct, Below, ValidTwins,
        Bounded, Cut, Feasible, Known, Learns, Proofs, Proven, Solves, TreeSize;
      ghost var here := path;
      ExtendPath(g, path, c.vertex);
      path := path + [c.vertex];
      if options.incremental {
        state.Push(c.vertex, c.cut);
      }
      outcome := Dfs(prefix + {c.vertex}, c.cut);
      if options.incremental {
        state.Pop(c.vertex, cut);
      }
      path := path[..|path| - 1];
      assert path == here;
      if outcome == Found {
        SolvesParent(g, k, path, c.vertex, solution);
      }
    }
  }

  lemma StartScan(g: Graph, k: nat, twins: TwinTable, S: set<Vertex>)
    ensures ListsWithin(g, k, twins, S, Below(0), [])
  {
  }

  lemma StartRated(g: Graph, k: nat, twins: TwinTable, S: set<Vertex>)
    ensures CoversWithin(g, k, twins, S, Below(0), Children([]))
  {
  }

  lemma OneMoreChild(rated: seq<Rated>, r: Rated)
    ensures Children(rated + [r]) == Children(rated) + [r.child]
  {
  }

  // ---- Deciding ----

  /** The word search from scratch decides as the general one does. */
  method DecideWord(g: Graph, k: nat, options: WordOptions, cache: ProofCache, oracle: FiniteHorizonOracle, limited: bool)
    returns (d: Decision)
    requires options.memoDepth <= MAXIMUM_DEPTH
    requires cache.Valid() && Truthful(g, cache.Entries()) && oracle.Valid() && oracle.g == g
    modifies cache, oracle.memo
    ensures cache.Valid() && Truthful(g, cache.Entries()) && oracle.Valid()
    ensures Grows(old(cache.Entries()), cache.Entries()) && (d == Refuted && options.useCache ==> Kept(cache, {}, k))
    ensures d == Refuted ==> !exists o :: IsWitness(g, k, o)
    ensures d.Witness? ==> IsWitness(g, k, d.ordering)
    ensures d == Undecided ==> limited
  {
    EmptyCut(g);
    assert Elems([]) == {};
    d := SearchFrom(g, k, options, cache, oracle, [], 0, limited);
    FeasibleFromScratch(g, k);
  }

  /** Searches below a prefix whose cut is within the threshold. */
  method SearchFrom(g: Graph, k: nat, options: WordOptions, cache: ProofCache, oracle: FiniteHorizonOracle,
                    path: seq<Vertex>, cut: nat, limited: bool)
    returns (d: Decision)
    requires options.memoDepth <= MAXIMUM_DEPTH
    requires cache.Valid() && Truthful(g, cache.Entries()) && oracle.Valid() && oracle.g == g
    requires IsPath(g, path) && cut == Cut(g, Elems(path)) <= k
    modifies cache, oracle.memo
    ensures cache.Valid() && Truthful(g, cache.Entries()) && oracle.Valid()
    ensures Grows(old(cache.Entries()), cache.Entries())
    ensures d == Refuted && options.useCache ==> Kept(cache, Elems(path), k)
    ensures d == Refuted ==> !Feasible(g, k, Elems(path))
    ensures d.Witness? ==> Solves(g, k, path, d.ordering)
    ensures d == Undecided ==> limited
  {
    hide FiniteHorizonOracle.Valid, ReversibleNodeState.Valid, Elems, Distinct, Below, ValidTwins, Cut, Feasible, Solves,
      DynamicDecisionCache.Valid, DynamicDecisionCache.Entries, Truthful;
    var search := new Search64(g, k, options, cache, oracle, path, cut, limited);
    var outcome := search.Dfs(Elems(path), cut);
    match outcome
    case Found => d := Witness(search.solution);
    case Failed => d := Refuted;
    case TimedOut => d := Undecided;
  }

  /** The first vertices the parallel workers share out. */
  method WordRoots(g: Graph, k: nat, useTwins: bool) returns (roots: seq<Vertex>)
    ensures forall v :: v in roots <==> IsRoot(g, k, useTwins, v)
    ensures Distinct(roots)
  {
    hide Twins, Neighbours;
    roots := [];
    for v := 0 to Size(g)
      invariant forall u: Vertex :: u in roots <==> u < v && IsRoot(g, k, useTwins, u)
      invariant Distinct(roots)
    {
      if Degree(g, v) > k {
        continue;
      }
      var blocked := false;
      if useTwins {
        blocked := HasEarlierTwin(g, v);
      }
      if !blocked {
        assert v !in roots;
        roots := roots + [v];
      }
    }
  }

  method HasEarlierTwin(g: Graph, v: Vertex) returns (blocked: bool)
    requires v < Size(g)
    ensures blocked <==> exists e: Vertex :: e < v && Twins(g, e, v)
  {
    hide Twins, Neighbours;
    for e := 0 to v
      invariant forall u: Vertex :: u < e ==> !Twins(g, u, v)
    {
      WordTwinTest(g, e, v);
      if Neighbours(g, e) == Neighbours(g, v) || Neighbours(g, e) + {e} == Neighbours(g, v) + {v} {
        return true;
      }
    }
    return false;
  }

  ghost predicate IsRoot(g: Graph, k: nat, useTwins: bool, v: Vertex) {
    v < Size(g) && Degree(g, v) <= k && !(useTwins && exists e: Vertex :: e < v && Twins(g, e, v))
  }

  /** If no root can be completed, no ordering exists. */
  lemma RootsCover(g: Graph, k: nat, useTwins: bool, twins: TwinTable)
    requires ValidTwins(g, twins) && Size(g) > 0
    requires forall v: Vertex, e: Vertex :: v in Vertices(g) ==> (e in twins[v] <==> useTwins && e < v && Twins(g, e, v))
    requires forall v :: IsRoot(g, k, useTwins, v) ==> !Feasible(g, k, {v})
    ensures !exists o :: IsWitness(g, k, o)
  {
    FeasibleFromScratch(g, k);
    if Feasible(g, k, {}) {
      assert 0 in Vertices(g);
      var v := LegalChild(g, k, twins, {});
      RootIsLegal(g, k, useTwins, twins, v);
      assert false;
    }
  }

  lemma RootIsLegal(g: Graph, k: nat, useTwins: bool, twins: TwinTable, v: Vertex)
    requires ValidTwins(g, twins) && Legal(g, k, twins, {}, v)
    requires forall u: Vertex, e: Vertex :: u in Vertices(g) ==> (e in twins[u] <==> useTwins && e < u && Twins(g, e, u))
    ensures IsRoot(g, k, useTwins, v)
  {
    hide Twins, Neighbours, Cut;
    CutRecurrence(g, {}, v);
    EmptyCut(g);
    assert Neighbours(g, v) * {} == {};
  }
}
