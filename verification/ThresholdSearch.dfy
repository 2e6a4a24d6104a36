/**
  The recursive exact threshold search with its failed-state cache, its prunes,
  twin symmetry, lookahead and local continuation probe, and the subtree worker
  that validates a prefix before searching below it.
 */
module ThresholdSearch {
  import opened Options
  import opened Graphs
  import opened Feasibility
  import opened TwinSymmetry
  import opened CandidateIndexes
  import opened Histograms
  import opened NodeStates
  import opened Candidates
  import opened Orderings
  import opened LocalProbes
  import opened DecisionCaches

  datatype SearchOptions = SearchOptions(
    useTwins: bool, useCache: bool, usePartialBounds: bool, residualDegreeBound: bool, bestNext: bool,
    enumerator: Enumerator, failFirst: bool,
    lookahead: bool, lookaheadMaxRemaining: nat,
    localDepth: nat, localMaxSlack: nat, localMaxChildren: nat, localMaxStates: nat)
  {
    /** The residual-degree bound is both configured and in use. */
    predicate PrunesByDegree() {
      usePartialBounds && residualDegreeBound
    }
  }

  type ProofCache = DynamicDecisionCache<set<Vertex>>

  /** Every retained proof is a true failure. */
  ghost predicate Truthful(g: Graph, entries: map<set<Vertex>, nat>) {
    forall S :: S in entries ==> !Feasible(g, entries[S], S)
  }

  /** A retained proof covers its own threshold and all smaller ones. */
  lemma RetainedMeansFailed(g: Graph, entries: map<set<Vertex>, nat>, S: set<Vertex>, k: nat)
    requires Truthful(g, entries) && S in entries && k <= entries[S]
    ensures !Feasible(g, k, S)
  {
    if Feasible(g, k, S) {
      FeasibleMonotone(g, k, entries[S], S);
      assert false;
    }
  }

  /** `o` is an ordering that starts with the path and keeps within k once it leaves the path. */
  ghost predicate Continues(g: Graph, k: nat, path: seq<Vertex>, o: seq<Vertex>) {
    IsOrdering(g, o) && path <= o && CutsWithin(g, k, o, |path| + 1)
  }

  lemma ContinuesIsSolves(g: Graph, k: nat, path: seq<Vertex>, o: seq<Vertex>)
    ensures Solves(g, k, path, o) <==> Continues(g, k, path, o) && Cut(g, Elems(path)) <= k
  {
    if path <= o {
      assert o[..|path|] == path;
    }
  }

  /** `o` is an ordering that starts with the path and keeps within k from there on. */
  ghost predicate Solves(g: Graph, k: nat, path: seq<Vertex>, o: seq<Vertex>) {
    IsOrdering(g, o) && path <= o && CutsWithin(g, k, o, |path|)
  }

  lemma ContinuesParent(g: Graph, k: nat, path: seq<Vertex>, v: Vertex, o: seq<Vertex>)
    requires Continues(g, k, path + [v], o) && Cut(g, Elems(path + [v])) <= k
    ensures Continues(g, k, path, o)
  {
    ContinuesIsSolves(g, k, path + [v], o);
    assert path <= path + [v];
  }

  lemma FullPathContinues(g: Graph, k: nat, path: seq<Vertex>)
    requires IsPath(g, path) && |path| == Size(g)
    ensures Continues(g, k, path, path)
  {
  }

  /** A solution exists exactly when the set of the path is feasible. */
  lemma SolvableIffFeasible(g: Graph, k: nat, path: seq<Vertex>)
    requires IsPath(g, path)
    ensures (exists o :: Solves(g, k, path, o)) <==> Feasible(g, k, Elems(path))
  {
    if exists o :: Solves(g, k, path, o) {
      var o :| Solves(g, k, path, o);
      var c := o[|path|..];
      assert path + c == o;
      CompletionIsTail(g, k, path, c);
    }
    if Feasible(g, k, Elems(path)) {
      var c :| Completes(g, k, Elems(path), c);
      CompletionIsTail(g, k, path, c);
      assert Solves(g, k, path, path + c);
    }
  }

  // ----- prunes -----

  /** Placing v raises the cut by at least the least delta held. */
  lemma NextAtLeast(g: Graph, S: set<Vertex>, before: seq<nat>, least: int, v: Vertex)
    requires PlacedCounts(g, S, before) && v in Vertices(g) - S
    requires forall d :: d in Values(Vertices(g) - S, Deltas(g, before)) ==> least <= d
    ensures Cut(g, S + {v}) >= Cut(g, S) + least
  {
    hide Below, Cut, Degree, Deltas, Neighbours, ValuesBelow;
    var X, D := Vertices(g) - S, Deltas(g, before);
    CutRecurrence(g, S, v);
    assert v in X && D[v] == Degree(g, v) - 2 * |Neighbours(g, v) * S|;
    ValuesMember(X, D, |D|, D[v]);
    assert D[v] in Values(X, D);
  }

  lemma SomeDelta(g: Graph, S: set<Vertex>, before: seq<nat>)
    requires PlacedCounts(g, S, before) && S <= Vertices(g) && S != Vertices(g)
    ensures Values(Vertices(g) - S, Deltas(g, before)) != multiset{}
  {
    hide Below, Cut, Degree, Neighbours, ValuesBelow;
    var X, D := Vertices(g) - S, Deltas(g, before);
    assert X != {} by {
      assert Vertices(g) == X + S;
    }
    var v :| v in X;
    ValuesMember(X, D, |D|, D[v]);
  }

  /** No unplaced vertex can come next within the threshold. */
  ghost predicate NothingFits(g: Graph, k: nat, S: set<Vertex>) {
    forall v :: v in Vertices(g) - S ==> Cut(g, S + {v}) > k
  }

  /** A vertex of least delta attains the least next cut, so the minimum alone decides whether anything fits. */
  lemma LeastDecides(g: Graph, k: nat, S: set<Vertex>, before: seq<nat>, least: int)
    requires PlacedCounts(g, S, before) && least in Values(Vertices(g) - S, Deltas(g, before))
    requires forall d :: d in Values(Vertices(g) - S, Deltas(g, before)) ==> least <= d
    ensures NothingFits(g, k, S) <==> Cut(g, S) + least > k
  {
    hide Below, Cut, Degree, Deltas, Neighbours, ValuesBelow, Vertices;
    var X, D := Vertices(g) - S, Deltas(g, before);
    ValuesMember(X, D, |D|, least);
    var v :| 0 <= v < |D| && v in X && D[v] == least;
    CutRecurrence(g, S, v);
    forall u | u in X ensures Cut(g, S + {u}) >= Cut(g, S) + least {
      NextAtLeast(g, S, before, least, u);
    }
  }

  /** If even the least delta exceeds the slack, no child stays within the threshold. */
  lemma BestNextProves(g: Graph, k: nat, S: set<Vertex>, before: seq<nat>, cut: nat, least: int)
    requires PlacedCounts(g, S, before) && cut == Cut(g, S) && S != Vertices(g)
    requires forall d :: d in Values(Vertices(g) - S, Deltas(g, before)) ==> least <= d
    requires cut + least > k
    ensures !Feasible(g, k, S)
  {
    hide *;
    if Feasible(g, k, S) {
      var v := FeasibleChild(g, k, S);
      FeasibleFacts(g, k, S + {v});
      NextAtLeast(g, S, before, least, v);
      assert false;
    }
  }

  /** The largest number of unplaced neighbours of an unplaced vertex. */
  method MaximumResidualDegree(g: Graph, S: set<Vertex>) returns (maximum: nat)
    ensures forall v :: v in Vertices(g) - S ==> |Neighbours(g, v) - S| <= maximum
    ensures maximum > 0 ==> exists v :: v in Vertices(g) - S && |Neighbours(g, v) - S| == maximum
  {
    maximum := 0;
    for v := 0 to Size(g)
      invariant forall u :: 0 <= u < v && u !in S ==> |Neighbours(g, u) - S| <= maximum
      invariant maximum > 0 ==> exists u :: u in Vertices(g) - S && |Neighbours(g, u) - S| == maximum
    {
      if v in S {
        continue;
      }
      assert v in Vertices(g) - S;
      var degree := |Neighbours(g, v) - S|;
      if degree > maximum {
        maximum := degree;
      }
    }
  }

  /** Some unplaced vertex has too many unplaced neighbours for the threshold. */
  ghost predicate Crowded(g: Graph, k: nat, S: set<Vertex>) {
    exists v :: v in Vertices(g) - S && (|Neighbours(g, v) - S| + 1) / 2 > k
  }

  /** The largest residual degree alone decides it. */
  lemma LargestDecides(g: Graph, k: nat, S: set<Vertex>, maximum: nat)
    requires forall v :: v in Vertices(g) - S ==> |Neighbours(g, v) - S| <= maximum
    requires maximum > 0 ==> exists v :: v in Vertices(g) - S && |Neighbours(g, v) - S| == maximum
    ensures Crowded(g, k, S) <==> (maximum + 1) / 2 > k
  {
    hide Neighbours, Vertices;
    if (maximum + 1) / 2 > k {
      var v :| v in Vertices(g) - S && |Neighbours(g, v) - S| == maximum;
      assert Crowded(g, k, S);
    }
  }

  /** Half the residual degree of an unplaced vertex, rounded up, bounds every completion from below. */
  lemma ResidualDegreeProves(g: Graph, k: nat, S: set<Vertex>, v: Vertex)
    requires v in Vertices(g) - S && (|Neighbours(g, v) - S| + 1) / 2 > k
    ensures !Feasible(g, k, S)
  {
    if Feasible(g, k, S) {
      DegreeBound(g, k, S, v);
      SubsetSize(Neighbours(g, v) - S, Neighbours(g, v));
      assert false;
    }
  }

  // ----- children -----

  /** No listed child before position i is feasible. */
  ghost predicate ChildrenFail(g: Graph, k: nat, S: set<Vertex>, cs: seq<Candidate>, i: nat)
    requires i <= |cs|
  {
    forall j :: 0 <= j < i ==> !Feasible(g, k, S + {cs[j].vertex})
  }

  lemma ChildrenStart(g: Graph, k: nat, S: set<Vertex>, cs: seq<Candidate>)
    ensures ChildrenFail(g, k, S, cs, 0)
  {
  }

  lemma ChildrenStep(g: Graph, k: nat, S: set<Vertex>, cs: seq<Candidate>, i: nat)
    requires i < |cs| && ChildrenFail(g, k, S, cs, i) && !Feasible(g, k, S + {cs[i].vertex})
    ensures ChildrenFail(g, k, S, cs, i + 1)
  {
  }

  /** An incomplete prefix fails once all its listed children have failed. */
  lemma ChildrenDone(g: Graph, k: nat, twins: TwinTable, S: set<Vertex>, cs: seq<Candidate>)
    requires ValidTwins(g, twins) && ListsLegal(g, k, twins, S, cs) && S != Vertices(g)
    requires ChildrenFail(g, k, S, cs, |cs|)
    ensures !Feasible(g, k, S)
  {
    if Feasible(g, k, S) {
      var c := ListedChild(g, k, twins, S, cs);
      assert false;
    }
  }

  lemma TruthfulRecord(g: Graph, entries: map<set<Vertex>, nat>, after: map<set<Vertex>, nat>, S: set<Vertex>, k: nat)
    requires Truthful(g, entries) && !Feasible(g, k, S)
    requires after == entries || after == entries[S := k] || (S in entries && after == entries[S := entries[S]])
    ensures Truthful(g, after)
  {
    hide Feasible;
  }

  /** Listed children are distinct unplaced vertices: after the path they make another path. */
  lemma ListedCount(g: Graph, k: nat, twins: TwinTable, path: seq<Vertex>, cs: seq<Candidate>)
    requires ListsLegal(g, k, twins, Elems(path), cs) && IsPath(g, path)
    ensures |path| + |cs| <= Size(g)
  {
    hide Cut, TwinBlocked, ListsLegal, Vertices;
    var listed := seq(|cs|, i requires 0 <= i < |cs| => cs[i].vertex);
    var p := path + listed;
    ListedDistinct(g, k, twins, Elems(path), cs);
    forall i | 0 <= i < |cs| ensures listed[i] in Vertices(g) - Elems(path) {
      ListedFacts(g, k, twins, Elems(path), cs, i);
    }
    assert Distinct(p) by {
      forall i, j | 0 <= i < j < |p| ensures p[i] != p[j] {
        assert i < |path| ==> p[i] in Elems(path);
      }
    }
    PathIsFull(g, p);
  }

  ghost function LegalChildren(g: Graph, k: nat, twins: TwinTable, S: set<Vertex>): set<Vertex> {
    set v | v in Vertices(g) && Legal(g, k, twins, S, v)
  }

  /** Each legal child is listed once. */
  lemma ListedSize(g: Graph, k: nat, twins: TwinTable, S: set<Vertex>, cs: seq<Candidate>)
    requires ListsLegal(g, k, twins, S, cs)
    ensures |cs| == |LegalChildren(g, k, twins, S)|
  {
    hide Cut, TwinBlocked, Vertices;
    var listed := seq(|cs|, i requires 0 <= i < |cs| => cs[i].vertex);
    DistinctSize(listed);
    forall v | v in LegalChildren(g, k, twins, S) ensures v in listed {
      var i :| 0 <= i < |cs| && cs[i] == Candidate(v, Cut(g, S + {v}));
      assert listed[i] == v;
    }
    forall i | 0 <= i < |cs| ensures listed[i] in LegalChildren(g, k, twins, S) {
      assert cs[i] in cs;
    }
    assert Elems(listed) == LegalChildren(g, k, twins, S);
  }

  lemma ListedLegal(g: Graph, k: nat, twins: TwinTable, S: set<Vertex>, cs: seq<Candidate>, i: nat)
    requires ListsLegal(g, k, twins, S, cs) && i < |cs|
    ensures DistinctVertices(cs) && Legal(g, k, twins, S, cs[i].vertex)
  {
    hide Legal;
    assert cs[i] in cs;
  }

  lemma ListedDistinct(g: Graph, k: nat, twins: TwinTable, S: set<Vertex>, cs: seq<Candidate>)
    requires ListsLegal(g, k, twins, S, cs)
    ensures DistinctVertices(cs)
  {
  }

  /** The nodes of a search tree in which every order of this many vertices is tried. */
  ghost function Nodes(height: nat): nat {
    if height == 0 then 1 else 1 + height * Nodes(height - 1)
  }

  /** The nodes of the tree below a path of the given length. */
  ghost function NodesAt(g: Graph, depth: nat): nat {
    Nodes(if depth < Size(g) then Size(g) - depth else 0)
  }

  lemma NodesPositive(g: Graph, depth: nat)
    ensures NodesAt(g, depth) >= 1
  {
  }

  lemma MoreTimes(x: nat, y: nat, q: nat)
    requires x <= y
    ensures x * q <= y * q
  {
  }

  // ----- the tree that is searched -----

  /** The shortcuts that decide which prefixes are searched, apart from cache and probe. */
  datatype Shortcuts = Shortcuts(byDegree: bool, bestNext: bool, lookahead: bool, lookaheadMaxRemaining: nat)

  /** A prefix that is refuted at sight. */
  ghost predicate RuledOut(g: Graph, k: nat, cuts: Shortcuts, S: set<Vertex>) {
    (cuts.byDegree && Crowded(g, k, S)) || (cuts.bestNext && NothingFits(g, k, S))
  }

  /** The lookahead refuses a child that nothing can legally follow. */
  ghost predicate Refused(g: Graph, k: nat, twins: TwinTable, cuts: Shortcuts, S: set<Vertex>, v: Vertex) {
    && cuts.lookahead && (cuts.lookaheadMaxRemaining == 0 || Size(g) - |S| - 1 <= cuts.lookaheadMaxRemaining)
    && S + {v} != Vertices(g) && NoneLegalIn(g, k, twins, S + {v}, Vertices(g))
  }

  /** The children that are searched: legal, unblocked and not refused. */
  ghost function Searched(g: Graph, k: nat, twins: TwinTable, cuts: Shortcuts, S: set<Vertex>): set<Vertex> {
    set v | v in Vertices(g) - S && Legal(g, k, twins, S, v) && !Refused(g, k, twins, cuts, S, v)
  }

  /** The number of nodes below S when every child is searched that has to be. */
  ghost function TreeSize(g: Graph, k: nat, twins: TwinTable, cuts: Shortcuts, S: set<Vertex>): nat
    requires S <= Vertices(g)
    decreases |Vertices(g) - S|, Size(g) + 1
  {
    if S == Vertices(g) || RuledOut(g, k, cuts, S) then 1
    else 1 + TreeSizes(g, k, twins, cuts, S, Searched(g, k, twins, cuts, S), Size(g))
  }

  /** The nodes below those children of S in X that are numbered below n. */
  ghost function TreeSizes(g: Graph, k: nat, twins: TwinTable, cuts: Shortcuts, S: set<Vertex>, X: set<Vertex>, n: nat): nat
    requires S <= Vertices(g) && X <= Vertices(g) - S && n <= Size(g)
    decreases |Vertices(g) - S|, n
  {
    if n == 0 then 0
    else if n - 1 !in X then TreeSizes(g, k, twins, cuts, S, X, n - 1)
    else SmallerRest(g, S, n - 1);
         TreeSizes(g, k, twins, cuts, S, X, n - 1) + TreeSize(g, k, twins, cuts, S + {n - 1})
  }

  lemma SmallerRest(g: Graph, S: set<Vertex>, v: Vertex)
    requires v in Vertices(g) - S
    ensures |Vertices(g) - (S + {v})| < |Vertices(g) - S|
  {
    hide Vertices;
    assert Vertices(g) - (S + {v}) == Vertices(g) - S - {v};
  }

  lemma {:induction false} NoTrees(g: Graph, k: nat, twins: TwinTable, cuts: Shortcuts, S: set<Vertex>, n: nat)
    requires S <= Vertices(g) && n <= Size(g)
    ensures TreeSizes(g, k, twins, cuts, S, {}, n) == 0
  {
    hide TreeSize, Vertices;
    if n > 0 {
      NoTrees(g, k, twins, cuts, S, n - 1);
    }
  }

  /** The order in which the children are searched does not matter: any of them may be taken first. */
  lemma {:induction false} OneTreeLess(g: Graph, k: nat, twins: TwinTable, cuts: Shortcuts, S: set<Vertex>,
                                       X: set<Vertex>, n: nat, v: Vertex)
    requires S <= Vertices(g) && X <= Vertices(g) - S && n <= Size(g) && v in X
    ensures TreeSizes(g, k, twins, cuts, S, X, n) ==
            TreeSizes(g, k, twins, cuts, S, X - {v}, n) + if v < n then TreeSize(g, k, twins, cuts, S + {v}) else 0
  {
    hide TreeSize, Vertices;
    if n > 0 {
      OneTreeLess(g, k, twins, cuts, S, X, n - 1, v);
    }
  }

  /** No tree is larger than the one in which every order is tried. */
  lemma {:induction false} TreeWithin(g: Graph, k: nat, twins: TwinTable, cuts: Shortcuts, S: set<Vertex>)
    requires S <= Vertices(g)
    ensures TreeSize(g, k, twins, cuts, S) <= NodesAt(g, |S|)
    decreases |Vertices(g) - S|, |Vertices(g)| + 1
  {
    hide Crowded, Legal, NothingFits, Refused, Vertices;
    VerticesSize(g, S);
    NodesPositive(g, |S|);
    var X := Searched(g, k, twins, cuts, S);
    if S != Vertices(g) && !RuledOut(g, k, cuts, S) {
      SubsetSize(X, Vertices(g) - S);
      TreesWithin(g, k, twins, cuts, S, X);
      MoreTimes(|X|, Size(g) - |S|, NodesAt(g, |S| + 1));
    }
  }

  lemma {:induction false} TreesWithin(g: Graph, k: nat, twins: TwinTable, cuts: Shortcuts, S: set<Vertex>, X: set<Vertex>)
    requires S <= Vertices(g) && X <= Vertices(g) - S
    ensures TreeSizes(g, k, twins, cuts, S, X, Size(g)) <= |X| * NodesAt(g, |S| + 1)
    decreases |Vertices(g) - S|, |X|
  {
    hide NodesAt, TreeSize, TreeSizes;
    if X == {} {
      NoTrees(g, k, twins, cuts, S, Size(g));
    } else {
      var v :| v in X;
      OneTreeLess(g, k, twins, cuts, S, X, Size(g), v);
      SmallerRest(g, S, v);
      TreeWithin(g, k, twins, cuts, S + {v});
      TreesWithin(g, k, twins, cuts, S, X - {v});
      assert |X - {v}| == |X| - 1;
    }
  }

  lemma VerticesSize(g: Graph, S: set<Vertex>)
    requires S <= Vertices(g)
    ensures |Vertices(g)| == Size(g) && |Vertices(g) - S| == Size(g) - |S|
    ensures S != Vertices(g) ==> |S| < Size(g)
  {
    assert Vertices(g) == S + (Vertices(g) - S);
  }

  /** What is left to search once the first i children were taken. */
  ghost predicate LeftOpen(g: Graph, k: nat, twins: TwinTable, cuts: Shortcuts, S: set<Vertex>, cs: seq<Candidate>,
                           i: nat, left: set<Vertex>)
    requires i <= |cs|
  {
    && left <= Searched(g, k, twins, cuts, S)
    && forall v :: v in Searched(g, k, twins, cuts, S) ==> (v in left <==> forall j :: 0 <= j < i ==> cs[j].vertex != v)
  }

  lemma OpenFirst(g: Graph, k: nat, twins: TwinTable, cuts: Shortcuts, S: set<Vertex>, cs: seq<Candidate>)
    ensures LeftOpen(g, k, twins, cuts, S, cs, 0, Searched(g, k, twins, cuts, S))
  {
    hide Searched;
  }

  lemma OpenRefused(g: Graph, k: nat, twins: TwinTable, cuts: Shortcuts, S: set<Vertex>, cs: seq<Candidate>,
                    i: nat, left: set<Vertex>)
    requires i < |cs| && LeftOpen(g, k, twins, cuts, S, cs, i, left) && Refused(g, k, twins, cuts, S, cs[i].vertex)
    ensures LeftOpen(g, k, twins, cuts, S, cs, i + 1, left)
  {
    hide Legal, Refused, Vertices;
  }

  lemma OpenTaken(g: Graph, k: nat, twins: TwinTable, cuts: Shortcuts, S: set<Vertex>, cs: seq<Candidate>,
                  i: nat, left: set<Vertex>)
    requires S <= Vertices(g) && i < |cs| && DistinctVertices(cs) && LeftOpen(g, k, twins, cuts, S, cs, i, left)
    requires Legal(g, k, twins, S, cs[i].vertex) && !Refused(g, k, twins, cuts, S, cs[i].vertex)
    ensures LeftOpen(g, k, twins, cuts, S, cs, i + 1, left - {cs[i].vertex}) && cs[i].vertex in Vertices(g) - S
    ensures TreeSizes(g, k, twins, cuts, S, left, Size(g)) ==
            TreeSize(g, k, twins, cuts, S + {cs[i].vertex})
            + TreeSizes(g, k, twins, cuts, S, left - {cs[i].vertex}, Size(g))
  {
    hide Below, Cut, TwinBlocked, Refused, TreeSize, TreeSizes;
    assert cs[i].vertex < Size(g);
    OneTreeLess(g, k, twins, cuts, S, left, Size(g), cs[i].vertex);
  }

  /** Once all legal children were taken nothing is left to search. */
  lemma OpenLast(g: Graph, k: nat, twins: TwinTable, cuts: Shortcuts, S: set<Vertex>, cs: seq<Candidate>, left: set<Vertex>)
    requires S <= Vertices(g) && ListsLegal(g, k, twins, S, cs) && LeftOpen(g, k, twins, cuts, S, cs, |cs|, left)
    ensures TreeSizes(g, k, twins, cuts, S, left, Size(g)) == 0
  {
    hide Cut, TwinBlocked, Refused, TreeSize, TreeSizes;
    assert left == {};
    NoTrees(g, k, twins, cuts, S, Size(g));
  }

  // ----- facts about a node -----

  lemma NodeFacts(node: NodeState)
    requires node.Valid()
    ensures PlacedCounts(node.g, node.prefix, node.before) && node.prefix <= Vertices(node.g)
    ensures node.useDeltas ==> DeltaSync(node.g, node.deltas, node.prefix, node.before)
  {
    NodeCounts(node);
  }

  lemma PathFacts(node: NodeState)
    requires node.Valid()
    ensures IsPath(node.g, node.path) && node.prefix == Elems(node.path)
    ensures |node.path| <= Size(node.g)
    ensures node.prefix == Vertices(node.g) <==> |node.path| == Size(node.g)
  {
    PathIsFull(node.g, node.path);
  }

  /** No legal vertex can follow: the child has no completion. */
  lemma LookaheadProves(node: NodeState, k: nat, twins: TwinTable, v: Vertex)
    requires node.Valid() && ValidTwins(node.g, twins) && v in Vertices(node.g) - node.prefix
    requires |node.path| + 1 < Size(node.g)
    requires NoneLegalIn(node.g, k, twins, node.prefix + {v}, Vertices(node.g))
    ensures !Feasible(node.g, k, node.prefix + {v})
  {
    hide BeforeCounts, DynamicDecisionCache.Valid, Elems, Feasible, IsPath, LocalContinuationProbe.Valid,
      NoneLegalIn, ResidualDegrees, SearchDynamic.Valid, ValidTwins, Vertices;
    ExtendPath(node.g, node.path, v);
    PathIsFull(node.g, node.path + [v]);
    NoLegalFails(node.g, k, twins, node.prefix + {v});
  }

  // ----- shared by the recursive search and the session -----

  /** The entries prove that S fails at k. */
  ghost predicate Proven(entries: map<set<Vertex>, nat>, S: set<Vertex>, k: nat) {
    S in entries && k <= entries[S]
  }

  /** The failure of S at k was published: a known prefix is raised, a new one may be declined. */
  ghost predicate Published(before: map<set<Vertex>, nat>, after: map<set<Vertex>, nat>, S: set<Vertex>, k: nat) {
    if S in before then after == before[S := if k > before[S] then k else before[S]]
    else after == before || after == before[S := k]
  }

  /** The failure of S at k is in the cache, unless that has no room for it. */
  ghost predicate Kept(cache: ProofCache, S: set<Vertex>, k: nat)
    requires cache.Valid()
    reads cache
  {
    Proven(cache.Entries(), S, k) || !cache.HasRoom()
  }

  /** In a cache without limits every published failure is kept. */
  lemma KeptWithoutLimits(cache: ProofCache, S: set<Vertex>, k: nat)
    requires cache.Valid() && cache.maxEntries == 0 && cache.maxMemory == 0 && Kept(cache, S, k)
    ensures S in cache.Entries() && k <= cache.Entries()[S]
  {
    hide DynamicDecisionCache.Valid, DynamicDecisionCache.Entries, DynamicDecisionCache.HasRoom;
    cache.UnlimitedHasRoom();
  }

  /** Whatever was proven before still is. */
  ghost predicate Grows(before: map<set<Vertex>, nat>, after: map<set<Vertex>, nat>) {
    forall S :: S in before ==> S in after && before[S] <= after[S]
  }

  /** Nothing proven is forgotten, and where no cache is used nothing is published. */
  ghost predicate Learns(useCache: bool, before: map<set<Vertex>, nat>, after: map<set<Vertex>, nat>) {
    Grows(before, after) && (!useCache ==> after == before)
  }

  lemma LearnsNothing(useCache: bool, entries: map<set<Vertex>, nat>)
    ensures Learns(useCache, entries, entries)
  {
  }

  lemma LearnsFurther(useCache: bool, a: map<set<Vertex>, nat>, b: map<set<Vertex>, nat>, c: map<set<Vertex>, nat>)
    requires Learns(useCache, a, b) && Learns(useCache, b, c)
    ensures Learns(useCache, a, c)
  {
  }

  /** Publishes a true failure; the cache may decline a new prefix for lack of room. */
  method RecordFailure(ghost g: Graph, k: nat, cache: ProofCache, S: set<Vertex>)
    requires cache.Valid() && Truthful(g, cache.Entries()) && !Feasible(g, k, S)
    modifies cache
    ensures cache.Valid() && Truthful(g, cache.Entries())
    ensures Published(old(cache.Entries()), cache.Entries(), S, k)
    ensures S in cache.Entries() <==> S in old(cache.Entries()) || old(cache.HasRoom())
    ensures Kept(cache, S, k) && Grows(old(cache.Entries()), cache.Entries())
  {
    hide DynamicDecisionCache.HasRoom, DynamicDecisionCache.Entries, DynamicDecisionCache.Valid, Feasible, Truthful;
    ghost var entries := cache.Entries();
    var retained := cache.RecordFailed(S, k);
    TruthfulRecord(g, entries, cache.Entries(), S, k);
  }

  /** A hit is a proof. */
  method ProvenFailed(ghost g: Graph, k: nat, cache: ProofCache, S: set<Vertex>) returns (hit: bool)
    requires cache.Valid() && Truthful(g, cache.Entries())
    modifies cache
    ensures cache.Valid() && Truthful(g, cache.Entries())
    ensures cache.Entries() == old(cache.Entries())
    ensures (hit <==> Proven(cache.Entries(), S, k)) && (hit ==> !Feasible(g, k, S))
  {
    hide DynamicDecisionCache.Entries, DynamicDecisionCache.Valid, Feasible, Truthful;
    hit := cache.ProvesFailed(S, k);
    if hit {
      RetainedMeansFailed(g, cache.Entries(), S, k);
    }
  }

  /** The unsigned 32-bit difference: a cut above the threshold has a huge slack. */
  function Slack(k: nat, cut: nat): int {
    if cut <= k then k - cut else 0x1_0000_0000 + k - cut
  }

  /** A probe without a state limit is within its gates and finds that the legal steps run out. */
  ghost predicate RunsOut(g: Graph, k: nat, twins: TwinTable, options: SearchOptions, S: set<Vertex>) {
    && options.localDepth > 0 && options.localMaxStates == 0
    && |LegalChildren(g, k, twins, S)| <= options.localMaxChildren
    && (if Cut(g, S) <= k then k - Cut(g, S) else 0x1_0000_0000 + k - Cut(g, S)) <= options.localMaxSlack
    && !Extendable(g, k, twins, S, options.localDepth)
  }

  /** The local continuation probe, behind its slack and branching gates. */
  method LocalContinuationPrunes(node: NodeState, k: nat, twins: TwinTable, options: SearchOptions,
                                 cut: nat, viableChildren: nat)
    returns (pruned: bool)
    requires node.Valid() && ValidTwins(node.g, twins) && (options.localDepth > 0 ==> node.useIndex)
    requires cut == Cut(node.g, node.prefix)
    ensures pruned ==> !Feasible(node.g, k, node.prefix) && options.localDepth > 0
    ensures pruned ==> !Extendable(node.g, k, twins, node.prefix, options.localDepth)
    ensures options.localMaxStates == 0 ==>
              (pruned <==> && options.localDepth > 0 && viableChildren <= options.localMaxChildren
                           && (if cut <= k then k - cut else 0x1_0000_0000 + k - cut) <= options.localMaxSlack
                           && !Extendable(node.g, k, twins, node.prefix, options.localDepth))
  {
    hide NodeState.Valid, NodeState.Counted, LocalContinuationProbe.Valid, ValidTwins, Feasible, Extendable, Cut,
      DynamicDecisionCache.Valid, SearchDynamic.Valid, Vertices, Neighbours;
    if options.localDepth == 0 || Slack(k, cut) > options.localMaxSlack || viableChildren > options.localMaxChildren {
      return false;
    }
    var probe := new LocalContinuationProbe(node, k, twins, options.enumerator == CrossChecked, options.localMaxStates);
    var r := probe.Run(cut, options.localDepth);
    if !r.conclusive || r.continuationExists {
      return false;
    }
    ProbePruneIsProof(node.g, k, twins, node.prefix, options.localDepth);
    return true;
  }

  datatype Outcome = Found | Failed | TimedOut

  class SearchDynamic {
    const node: NodeState
    const cache: ProofCache
    const k: nat
    const twins: TwinTable
    const options: SearchOptions
    const watched: bool
    const maximumNodes: Option<nat>
    var nodesExpanded: nat
    var solution: seq<Vertex>

    ghost predicate Configured() {
      && ValidTwins(node.g, twins)
      && node.useIndex == (options.enumerator != Scanned) && node.useDeltas == options.bestNext && !node.useBins
      && (options.localDepth > 0 ==> node.useIndex)
    }

    ghost predicate CacheIsTruthful()
      reads cache
    {
      cache.Valid() && Truthful(node.g, cache.Entries())
    }

    ghost predicate Valid()
      reads this, node, node.index, node.deltas, node.bins, cache
    {
      Configured() && node.Valid() && CacheIsTruthful() && (maximumNodes.Some? ==> nodesExpanded <= maximumNodes.value)
    }

    /** The probe needs the candidate index. */
    constructor (g: Graph, k: nat, options: SearchOptions, cache: ProofCache, path: seq<Vertex>,
                 twins: TwinTable, watched: bool, maximumNodes: Option<nat>)
      requires options.localDepth > 0 ==> options.enumerator != Scanned
      requires IsPath(g, path) && ValidTwins(g, twins) && TwinTableOf(g, options.useTwins, twins)
      requires cache.Valid() && Truthful(g, cache.Entries())
      ensures Valid() && node.g == g && node.path == path && this.k == k && this.cache == cache
      ensures this.options == options && this.twins == twins && this.watched == watched && this.maximumNodes == maximumNodes
      ensures nodesExpanded == 0 && fresh(node) && fresh(node.index) && fresh(node.deltas) && fresh(node.bins)
    {
      this.k, this.options, this.cache, this.twins := k, options, cache, twins;
      this.watched, this.maximumNodes := watched, maximumNodes;
      nodesExpanded, solution := 0, [];
      node := new NodeState(g, path, options.enumerator != Scanned, options.bestNext, false);
    }

    /** The node budget is spent. */
    predicate Spent()
      reads this`nodesExpanded
    {
      maximumNodes.Some? && nodesExpanded >= maximumNodes.value
    }

    /** The node budget, and the deadline and external stop of a watched run. */
    method Expired() returns (stop: bool)
      ensures stop ==> watched || Spent()
      ensures Spent() ==> stop
    {
      if Spent() {
        return true;
      }
      stop := false;
      if watched {
        stop := *;
      }
    }

    /** The proofs held by the shared cache. */
    ghost function Proofs(): map<set<Vertex>, nat>
      requires CacheIsTruthful()
      reads cache
    {
      cache.Entries()
    }

    /** The failure of S at the threshold is published, where a cache is used. */
    ghost predicate Known(S: set<Vertex>)
      requires CacheIsTruthful()
      reads cache
    {
      options.useCache ==> Kept(cache, S, k)
    }

    method Record()
      requires Valid() && !Feasible(node.g, k, node.prefix)
      modifies cache
      ensures Valid() && Known(node.prefix) && Learns(options.useCache, old(Proofs()), Proofs())
    {
      hide Configured, DynamicDecisionCache.Entries, DynamicDecisionCache.Valid, Feasible,
        LocalContinuationProbe.Valid, NodeState.Valid, Truthful;
      if options.useCache {
        RecordFailure(node.g, k, cache, node.prefix);
      }
    }

    /** The prunes made before children are listed; each is a proof, and is recorded. */
    method Prune(cut: nat) returns (pruned: bool)
      requires Valid() && cut == Cut(node.g, node.prefix) && node.prefix != Vertices(node.g)
      modifies cache
      ensures Valid() && (pruned ==> !Feasible(node.g, k, node.prefix))
      ensures (pruned ==> Known(node.prefix)) && Learns(options.useCache, old(Proofs()), Proofs())
      ensures pruned <==> || (options.useCache && Proven(old(Proofs()), node.prefix, k))
                          || (options.PrunesByDegree() && Crowded(node.g, k, node.prefix))
                          || (options.bestNext && NothingFits(node.g, k, node.prefix))
    {
      hide Configured, Cut, DynamicDecisionCache.Entries, DynamicDecisionCache.Valid, Feasible, NodeState.Valid,
        Truthful, Vertices;
      if options.useCache {
        var hit := ProvenFailed(node.g, k, cache, node.prefix);
        if hit {
          return true;
        }
      }
      if options.PrunesByDegree() {
        pruned := DegreePrunes();
        if pruned {
          return;
        }
      }
      if options.bestNext {
        pruned := BestNextPrunes(cut);
        return;
      }
      return false;
    }

    method DegreePrunes() returns (pruned: bool)
      requires Valid()
      modifies cache
      ensures Valid() && (pruned ==> !Feasible(node.g, k, node.prefix))
      ensures pruned <==> Crowded(node.g, k, node.prefix)
      ensures (pruned ==> Known(node.prefix)) && Learns(options.useCache, old(Proofs()), Proofs())
      ensures !pruned ==> cache.Entries() == old(cache.Entries())
    {
      hide Configured, CacheIsTruthful, Crowded, DynamicDecisionCache.Entries, DynamicDecisionCache.Valid, Feasible,
        Kept, Known, NodeState.Valid, Neighbours, Truthful, Vertices;
      var maximum := MaximumResidualDegree(node.g, node.prefix);
      LargestDecides(node.g, k, node.prefix, maximum);
      if (maximum + 1) / 2 > k {
        ghost var v: Vertex :| v in Vertices(node.g) - node.prefix && |Neighbours(node.g, v) - node.prefix| == maximum;
        ResidualDegreeProves(node.g, k, node.prefix, v);
        Record();
        return true;
      }
      return false;
    }

    method BestNextPrunes(cut: nat) returns (pruned: bool)
      requires Valid() && options.bestNext && cut == Cut(node.g, node.prefix) && node.prefix != Vertices(node.g)
      modifies cache
      ensures Valid() && (pruned ==> !Feasible(node.g, k, node.prefix))
      ensures pruned <==> NothingFits(node.g, k, node.prefix)
      ensures (pruned ==> Known(node.prefix)) && Learns(options.useCache, old(Proofs()), Proofs())
    {
      hide Cut, Deltas, DynamicDecisionCache.Entries, DynamicDecisionCache.Valid, Feasible,
        Kept, Known, LocalContinuationProbe.Valid, Neighbours, NodeState.Valid, PlacedCounts, Truthful, ValidTwins,
        Values, Vertices;
      NodeFacts(node);
      var least := node.deltas.MinDelta();
      SomeDelta(node.g, node.prefix, node.before);
      LeastDecides(node.g, k, node.prefix, node.before, least.value);
      if least.Some? && cut + least.value > k {
        BestNextProves(node.g, k, node.prefix, node.before, cut, least.value);
        Record();
        return true;
      }
      return false;
    }

    method Dfs(cut: nat) returns (outcome: Outcome)
      requires Valid() && cut == Cut(node.g, node.prefix)
      modifies this`nodesExpanded, this`solution, node, node.index, node.deltas, node.bins, cache
      ensures Valid() && node.path == old(node.path) && node.prefix == old(node.prefix)
      ensures outcome == Failed ==> !Feasible(node.g, k, node.prefix) && Known(node.prefix)
      ensures Learns(options.useCache, old(Proofs()), Proofs())
      ensures outcome == Found ==> Continues(node.g, k, node.path, solution)
      ensures outcome == TimedOut ==> watched || Spent()
      ensures old(nodesExpanded) <= nodesExpanded <= old(nodesExpanded) + Tree(node.prefix)
      ensures outcome == Failed && Exhaustive() ==> nodesExpanded == old(nodesExpanded) + Tree(node.prefix)
      ensures |node.path| < Size(node.g) && ((options.useCache && Proven(old(Proofs()), node.prefix, k))
                                              || RunsOut(node.g, k, twins, options, node.prefix)) ==>
                nodesExpanded <= old(nodesExpanded) + 1
      decreases Size(node.g) - |node.path|, 1
    {
      hide CacheIsTruthful, Cut, DynamicDecisionCache.Valid, Elems, Feasible, InOrder, IsPath, ListsLegal,
        Crowded, Extendable, Known, Learns, LegalChildren, LocalContinuationProbe.Valid, NodeState.Valid, NothingFits, Open, Placed, Precedence,
        Proofs, Proven, Continues, Tree, TreesOf, ValidTwins, Vertices;
      LearnsNothing(options.useCache, Proofs());
      NodeFacts(node);
      TreeOf(node.prefix);
      var stop := Expired();
      if stop {
        return TimedOut;
      }
      nodesExpanded := nodesExpanded + 1;
      PathFacts(node);
      if |node.path| == Size(node.g) {
        solution := node.path;
        FullPathContinues(node.g, k, node.path);
        return Found;
      }
      var pruned := Prune(cut);
      if pruned {
        return Failed;
      }
      var listed, ok := Enumerate(node, k, twins, cut, options.enumerator);
      var cs := SortCandidates(if options.failFirst then LargestCutFirst else SmallestCutFirst, listed);
      Rearranged(node.g, k, twins, node.prefix, listed, cs);
      SortedInOrder(options.failFirst, cs);
      ListedSize(node.g, k, twins, node.prefix, cs);
      pruned := LocalContinuationPrunes(node, k, twins, options, cut, |cs|);
      ghost var known := Proofs();
      if pruned {
        Record();
        outcome := Failed;
      } else {
        outcome := Children(cut, cs);
      }
      LearnsFurther(options.useCache, old(Proofs()), known, Proofs());
    }

    /** Nothing but the shortcuts keeps a prefix from being searched. */
    ghost predicate Exhaustive() {
      !options.useCache && options.localDepth == 0
    }

    ghost function Cuts(): Shortcuts {
      Shortcuts(options.PrunesByDegree(), options.bestNext, options.lookahead, options.lookaheadMaxRemaining)
    }

    ghost function Tree(S: set<Vertex>): nat
      requires S <= Vertices(node.g)
    {
      TreeSize(node.g, k, twins, Cuts(), S)
    }

    ghost function Open(S: set<Vertex>): (X: set<Vertex>)
      ensures X <= Vertices(node.g) - S
    {
      Searched(node.g, k, twins, Cuts(), S)
    }

    ghost function TreesOf(S: set<Vertex>, X: set<Vertex>): nat
      requires S <= Vertices(node.g) && X <= Vertices(node.g) - S
    {
      TreeSizes(node.g, k, twins, Cuts(), S, X, Size(node.g))
    }

    lemma TreeOf(S: set<Vertex>)
      requires S <= Vertices(node.g)
      ensures S == Vertices(node.g) ==> Tree(S) == 1
      ensures S != Vertices(node.g) ==>
                Tree(S) == if || (options.PrunesByDegree() && Crowded(node.g, k, S))
                              || (options.bestNext && NothingFits(node.g, k, S)) then 1
                           else 1 + TreesOf(S, Open(S))
    {
      hide Crowded, NothingFits, TreeSizes, Vertices, Searched;
    }

    /** The test made before a child is searched decides whether it is open. */
    lemma RefusedHere(v: Vertex)
      requires Valid() && v in Vertices(node.g) - node.prefix
      ensures Refused(node.g, k, twins, Cuts(), node.prefix, v) <==>
              && options.lookahead && |node.path| + 1 < Size(node.g)
              && (options.lookaheadMaxRemaining == 0 || Size(node.g) - |node.path| - 1 <= options.lookaheadMaxRemaining)
              && NoneLegalIn(node.g, k, twins, node.prefix + {v}, Vertices(node.g))
    {
      hide NodeState.Valid, CacheIsTruthful, NoneLegalIn, Vertices;
      PathFacts(node);
      DistinctSize(node.path);
      ExtendPath(node.g, node.path, v);
      PathIsFull(node.g, node.path + [v]);
    }

    /** A child after which nothing can legally follow is not searched. */
    method LookaheadRefuses(c: Candidate) returns (refused: bool, interrupted: bool)
      requires Valid() && |node.path| < Size(node.g)
      requires c.vertex in Vertices(node.g) - node.prefix && c.cut == Cut(node.g, node.prefix + {c.vertex})
      ensures refused ==> !Feasible(node.g, k, node.prefix + {c.vertex})
      ensures interrupted ==> watched
      ensures !interrupted ==>
                (refused <==> && options.lookahead
                              && (options.lookaheadMaxRemaining == 0 ||
                                  Size(node.g) - |node.path| - 1 <= options.lookaheadMaxRemaining)
                              && |node.path| + 1 < Size(node.g)
                              && NoneLegalIn(node.g, k, twins, node.prefix + {c.vertex}, Vertices(node.g)))
    {
      hide CacheIsTruthful, Cut, DeltaSync, DynamicDecisionCache.Valid, Feasible, Legal, LocalContinuationProbe.Valid,
        NodeState.Valid, NoneLegalIn, PlacedCounts, ValidTwins, Vertices;
      var remainingAfterChild := Size(node.g) - |node.path| - 1;
      var gate := options.lookaheadMaxRemaining == 0 || remainingAfterChild <= options.lookaheadMaxRemaining;
      if !options.lookahead || !gate || |node.path| + 1 == Size(node.g) {
        return false, false;
      }
      NodeFacts(node);
      var second := HasLegalSecond(node.g, k, twins, node.prefix, node.before, c.vertex, c.cut, watched);
      if second == NoLegalSecond {
        LookaheadProves(node, k, twins, c.vertex);
        return true, false;
      }
      if second == LegalSecond {
        SomeLegal(node.g, k, twins, node.prefix + {c.vertex});
      }
      return false, second == Interrupted;
    }

    method Children(cut: nat, cs: seq<Candidate>) returns (outcome: Outcome)
      requires Valid() && cut == Cut(node.g, node.prefix) && |node.path| < Size(node.g)
      requires ListsLegal(node.g, k, twins, node.prefix, cs) && InOrder(options.failFirst, cs)
      modifies this`nodesExpanded, this`solution, node, node.index, node.deltas, node.bins, cache
      ensures Valid() && node.path == old(node.path) && node.prefix == old(node.prefix)
      ensures outcome == Failed ==> !Feasible(node.g, k, node.prefix) && Known(node.prefix)
      ensures Learns(options.useCache, old(Proofs()), Proofs())
      ensures outcome == Found ==> Continues(node.g, k, node.path, solution)
      ensures outcome == TimedOut ==> watched || Spent()
      ensures old(nodesExpanded) <= nodesExpanded <= old(nodesExpanded) + TreesOf(node.prefix, Open(node.prefix))
      ensures outcome == Failed && Exhaustive() ==>
                nodesExpanded == old(nodesExpanded) + TreesOf(node.prefix, Open(node.prefix))
      decreases Size(node.g) - |node.path|, 0
    {
      hide InOrder, CacheIsTruthful, ChildrenFail, Cut, DeltaSync, DynamicDecisionCache.Valid, Elems, Feasible, IsPath,
        Known, Learns, Legal, ListsLegal, LocalContinuationProbe.Valid, NodeState.Valid, NoneLegalIn, PlacedCounts,
        DistinctVertices, LeftOpen, Proofs, Refused, Searched, Solves, TreeSize, TreeSizes, ValidTwins, Vertices;
      ghost var S := node.prefix;
      PathFacts(node);
      ChildrenStart(node.g, k, S, cs);
      LearnsNothing(options.useCache, Proofs());
      ghost var left := Open(S);
      OpenFirst(node.g, k, twins, Cuts(), S, cs);
      for i := 0 to |cs|
        invariant Valid() && node.path == old(node.path) && node.prefix == S
        invariant ChildrenFail(node.g, k, S, cs, i) && Learns(options.useCache, old(Proofs()), Proofs())
        invariant left <= Open(S) && LeftOpen(node.g, k, twins, Cuts(), S, cs, i, left)
        invariant old(nodesExpanded) <= nodesExpanded <= old(nodesExpanded) + TreesOf(S, Open(S)) - TreesOf(S, left)
        invariant Exhaustive() ==> nodesExpanded == old(nodesExpanded) + TreesOf(S, Open(S)) - TreesOf(S, left)
      {
        ghost var known := Proofs();
        var stop := Expired();
        if stop {
          return TimedOut;
        }
        ListedFacts(node.g, k, twins, S, cs, i);
        RefusedHere(cs[i].vertex);
        var refused, interrupted := LookaheadRefuses(cs[i]);
        if interrupted {
          return TimedOut;
        }
        if refused {
          ChildrenStep(node.g, k, S, cs, i);
          OpenRefused(node.g, k, twins, Cuts(), S, cs, i, left);
          continue;
        }
        ListedLegal(node.g, k, twins, S, cs, i);
        OpenTaken(node.g, k, twins, Cuts(), S, cs, i, left);
        left := left - {cs[i].vertex};
        outcome := Descend(cs[i].vertex, cs[i].cut);
        LearnsFurther(options.useCache, old(Proofs()), known, Proofs());
        if outcome != Failed {
          return outcome;
        }
        ChildrenStep(node.g, k, S, cs, i);
      }
      ChildrenDone(node.g, k, twins, S, cs);
      OpenLast(node.g, k, twins, Cuts(), S, cs, left);
      ghost var known := Proofs();
      Record();
      LearnsFurther(options.useCache, old(Proofs()), known, Proofs());
      return Failed;
    }

    /** Places a child, searches below it, and takes it off again. */
    method Descend(vertex: Vertex, childCut: nat) returns (outcome: Outcome)
      requires Valid() && |node.path| < Size(node.g)
      requires vertex in Vertices(node.g) - node.prefix && childCut == Cut(node.g, node.prefix + {vertex}) <= k
      modifies this`nodesExpanded, this`solution, node, node.index, node.deltas, node.bins, cache
      ensures Valid() && node.path == old(node.path) && node.prefix == old(node.prefix)
      ensures outcome == Failed ==> !Feasible(node.g, k, node.prefix + {vertex}) && Known(node.prefix + {vertex})
      ensures Learns(options.useCache, old(Proofs()), Proofs())
      ensures outcome == Found ==> Continues(node.g, k, node.path, solution)
      ensures outcome == TimedOut ==> watched || Spent()
      ensures old(nodesExpanded) <= nodesExpanded <= old(nodesExpanded) + Tree(node.prefix + {vertex})
      ensures outcome == Failed && Exhaustive() ==> nodesExpanded == old(nodesExpanded) + Tree(node.prefix + {vertex})
      decreases Size(node.g) - |node.path| - 1, 2
    {
      hide CacheIsTruthful, Cut, DynamicDecisionCache.Valid, Elems, Feasible, IsPath, Known, Learns,
        LocalContinuationProbe.Valid, NodeState.Valid, Continues, Proofs, ValidTwins, Vertices;
      PathFacts(node);
      ElemsAppend(node.path, vertex);
      var ok := node.Apply(vertex);
      PathFacts(node);
      outcome := Dfs(childCut);
      node.Undo();
      PathFacts(node);
      if outcome == Found {
        ContinuesParent(node.g, k, node.path, vertex, solution);
      }
    }
  }
  datatype Decision = Witness(ordering: seq<Vertex>) | Refuted | Undecided

  datatype SubtreeResult = Decided(decision: Decision) | InvalidPrefix | CutMismatch

  /** Searches for an ordering of width at most k from scratch. */
  method Decide(g: Graph, k: nat, options: SearchOptions, cache: ProofCache, watched: bool, maximumNodes: Option<nat>)
    returns (d: Decision)
    requires options.localDepth > 0 ==> options.enumerator != Scanned
    requires cache.Valid() && Truthful(g, cache.Entries())
    modifies cache
    ensures cache.Valid() && Truthful(g, cache.Entries()) && Grows(old(cache.Entries()), cache.Entries())
    ensures d == Refuted && options.useCache ==> Kept(cache, {}, k)
    ensures d == Refuted ==> !exists o :: IsWitness(g, k, o)
    ensures d.Witness? ==> IsWitness(g, k, d.ordering)
    ensures d == Undecided ==>
              watched || (maximumNodes.Some? && maximumNodes.value <= NodesAt(g, 0))
  {
    EmptyCut(g);
    assert Elems([]) == {};
    d := SearchBelow(g, k, options, cache, [], 0, watched, maximumNodes);
    FeasibleFromScratch(g, k);
  }

  method SearchBelow(g: Graph, k: nat, options: SearchOptions, cache: ProofCache, path: seq<Vertex>, cut: nat,
                     watched: bool, maximumNodes: Option<nat>)
    returns (d: Decision)
    requires options.localDepth > 0 ==> options.enumerator != Scanned
    requires cache.Valid() && Truthful(g, cache.Entries())
    requires IsPath(g, path) && cut == Cut(g, Elems(path))
    modifies cache
    ensures cache.Valid() && Truthful(g, cache.Entries()) && Grows(old(cache.Entries()), cache.Entries())
    ensures d == Refuted && options.useCache ==> Kept(cache, Elems(path), k)
    ensures d == Refuted ==> !Feasible(g, k, Elems(path))
    ensures d.Witness? ==> Continues(g, k, path, d.ordering) && (Solves(g, k, path, d.ordering) <==> cut <= k)
    ensures d == Undecided ==>
              watched || (maximumNodes.Some? && maximumNodes.value <= NodesAt(g, |path|))
  {
    hide Cut, Distinct, DynamicDecisionCache.Entries, DynamicDecisionCache.Valid, Elems, Feasible, IsPath,
      LocalContinuationProbe.Valid, NodeState.Valid, Continues, RunsOut, TreeSize, Truthful, TwinTableOf, Twins, ValidTwins, Vertices;
    var twins := BuildTwins(g, options.useTwins);
    var search := new SearchDynamic(g, k, options, cache, path, twins, watched, maximumNodes);
    PathFacts(search.node);
    DistinctSize(path);
    TreeWithin(g, k, twins, search.Cuts(), Elems(path));
    var outcome := search.Dfs(cut);
    match outcome
    case Found =>
      ContinuesIsSolves(g, k, path, search.solution);
      d := Witness(search.solution);
    case Failed => d := Refuted;
    case TimedOut => d := Undecided;
  }

  /** Validates a prefix and its claimed cut, then searches below it. */
  method RunSubtree(g: Graph, k: nat, options: SearchOptions, cache: ProofCache, path: seq<Vertex>, cut: nat,
                    watched: bool, maximumNodes: Option<nat>)
    returns (r: SubtreeResult)
    requires options.localDepth > 0 ==> options.enumerator != Scanned
    requires cache.Valid() && Truthful(g, cache.Entries())
    modifies cache
    ensures cache.Valid() && Truthful(g, cache.Entries()) && Grows(old(cache.Entries()), cache.Entries())
    ensures r == Decided(Refuted) && options.useCache ==> Kept(cache, Elems(path), k)
    ensures r == InvalidPrefix <==> !IsPath(g, path)
    ensures r == CutMismatch <==> IsPath(g, path) && cut != Cut(g, Elems(path))
    ensures r == Decided(Refuted) ==> !Feasible(g, k, Elems(path))
    ensures r.Decided? && r.decision.Witness? ==>
              && Continues(g, k, path, r.decision.ordering)
              && (Solves(g, k, path, r.decision.ordering) <==> cut <= k)
    ensures r == Decided(Undecided) ==>
              watched || (maximumNodes.Some? && maximumNodes.value <= NodesAt(g, |path|))
  {
    var prefix := CollectPrefix(g, path);
    if prefix == None {
      return InvalidPrefix;
    }
    var recomputed := CutOf(g, prefix.value);
    if recomputed != cut {
      return CutMismatch;
    }
    var d := SearchBelow(g, k, options, cache, path, cut, watched, maximumNodes);
    return Decided(d);
  }
}
