/**
  The local continuation probe: a depth-limited search for legal continuations
  that places vertices in an overlay only and reads the node's candidate index
  through a widened bound.
 */
module LocalProbes {
  import opened Graphs
  import opened Feasibility
  import opened TwinSymmetry
  import opened NodeStates
  import opened Candidates

  /** Legal placements can go on from S for the given number of steps, or until all is placed. */
  ghost predicate Extendable(g: Graph, k: nat, twins: TwinTable, S: set<Vertex>, steps: nat)
    decreases steps
  {
    || S == Vertices(g) || steps == 0
    || exists v :: Legal(g, k, twins, S, v) && Extendable(g, k, twins, S + {v}, steps - 1)
  }

  lemma EndOfSearch(g: Graph, k: nat, twins: TwinTable, S: set<Vertex>, steps: nat)
    ensures S == Vertices(g) || steps == 0 ==> Extendable(g, k, twins, S, steps)
  {
  }

  /** A feasible prefix is extendable for any number of steps. */
  lemma {:induction false} FeasibleIsExtendable(g: Graph, k: nat, twins: TwinTable, S: set<Vertex>, steps: nat)
    requires ValidTwins(g, twins) && Feasible(g, k, S)
    ensures Extendable(g, k, twins, S, steps)
    decreases steps
  {
    hide Feasible, Legal, ValidTwins, Vertices;
    if S != Vertices(g) && steps > 0 {
      var v := LegalChild(g, k, twins, S);
      FeasibleIsExtendable(g, k, twins, S + {v}, steps - 1);
    }
  }

  /** From S, no listed child before position i extends. */
  ghost predicate NoneExtend(g: Graph, k: nat, twins: TwinTable, S: set<Vertex>, cs: seq<Candidate>, i: nat, steps: nat)
    requires i <= |cs|
  {
    forall j :: 0 <= j < i ==> !Extendable(g, k, twins, S + {cs[j].vertex}, steps)
  }

  lemma ListedAt(g: Graph, k: nat, twins: TwinTable, S: set<Vertex>, cs: seq<Candidate>, v: Vertex) returns (j: nat)
    requires ListsLegal(g, k, twins, S, cs) && Legal(g, k, twins, S, v)
    ensures j < |cs| && cs[j].vertex == v
  {
    hide TwinBlocked, Cut;
    j :| 0 <= j < |cs| && cs[j] == Candidate(v, Cut(g, S + {v}));
  }

  lemma NoneExtendAll(g: Graph, k: nat, twins: TwinTable, S: set<Vertex>, cs: seq<Candidate>, steps: nat)
    requires ListsLegal(g, k, twins, S, cs) && S != Vertices(g) && steps > 0
    requires NoneExtend(g, k, twins, S, cs, |cs|, steps - 1)
    ensures !Extendable(g, k, twins, S, steps)
  {
    hide Legal, ListsLegal, Vertices;
    forall v | Legal(g, k, twins, S, v) ensures !Extendable(g, k, twins, S + {v}, steps - 1) {
      var j := ListedAt(g, k, twins, S, cs, v);
    }
  }

  lemma NoneExtendNone(g: Graph, k: nat, twins: TwinTable, S: set<Vertex>, cs: seq<Candidate>, steps: nat)
    ensures NoneExtend(g, k, twins, S, cs, 0, steps)
  {
  }

  lemma NoneExtendStep(g: Graph, k: nat, twins: TwinTable, S: set<Vertex>, cs: seq<Candidate>, i: nat, steps: nat)
    requires i < |cs| && NoneExtend(g, k, twins, S, cs, i, steps)
    requires !Extendable(g, k, twins, S + {cs[i].vertex}, steps)
    ensures NoneExtend(g, k, twins, S, cs, i + 1, steps)
  {
  }

  lemma ListedExtends(g: Graph, k: nat, twins: TwinTable, S: set<Vertex>, cs: seq<Candidate>, i: nat, steps: nat)
    requires ListsLegal(g, k, twins, S, cs) && i < |cs| && steps > 0
    requires Extendable(g, k, twins, S + {cs[i].vertex}, steps - 1)
    ensures Extendable(g, k, twins, S, steps)
  {
    hide Legal, Cut;
    assert cs[i] in cs;
  }

  /** Vertices placed by the overlay on top of the prefix P. */
  ghost predicate Overlay(g: Graph, P: set<Vertex>, overlay: seq<Vertex>) {
    IsPath(g, overlay) && P !! Elems(overlay) && P <= Vertices(g)
  }

  /** An overlay of m vertices lowers a base delta by two for each placed neighbour, hence by at most 2m. */
  lemma OverlayDelta(g: Graph, P: set<Vertex>, overlay: seq<Vertex>, v: Vertex)
    requires Overlay(g, P, overlay)
    ensures var N, O := Neighbours(g, v), Elems(overlay);
            |N * (P + O)| == |N * P| + |N * O| && |N * O| <= |overlay|
  {
    var N, O := Neighbours(g, v), Elems(overlay);
    assert N * (P + O) == N * P + N * O && (N * P) !! (N * O);
    SubsetSize(N * O, O);
    DistinctSize(overlay);
  }

  lemma OverlayFull(g: Graph, P: set<Vertex>, overlay: seq<Vertex>)
    requires Overlay(g, P, overlay)
    ensures |P| + |overlay| == Size(g) <==> P + Elems(overlay) == Vertices(g)
  {
    DistinctSize(overlay);
    var S := P + Elems(overlay);
    assert |Vertices(g) - S| == |Vertices(g)| - |S|;
  }

  lemma OverlayChild(g: Graph, k: nat, twins: TwinTable, P: set<Vertex>, overlay: seq<Vertex>, cs: seq<Candidate>, i: nat)
    requires Overlay(g, P, overlay) && ListsLegal(g, k, twins, P + Elems(overlay), cs) && i < |cs|
    ensures var c, S := cs[i], P + Elems(overlay);
            && Overlay(g, P, overlay + [c.vertex]) && P + Elems(overlay + [c.vertex]) == S + {c.vertex}
            && c.cut == Cut(g, S + {c.vertex}) <= k && (overlay + [c.vertex])[..|overlay|] == overlay
  {
    hide *;
    ListedFacts(g, k, twins, P + Elems(overlay), cs, i);
    OverlayGrow(g, P, overlay, cs[i].vertex);
  }

  lemma OverlayGrow(g: Graph, P: set<Vertex>, overlay: seq<Vertex>, v: Vertex)
    requires Overlay(g, P, overlay) && v in Vertices(g) - (P + Elems(overlay))
    ensures Overlay(g, P, overlay + [v]) && P + Elems(overlay + [v]) == P + Elems(overlay) + {v}
    ensures (overlay + [v])[..|overlay|] == overlay
  {
    hide Below;
    ExtendPath(g, overlay, v);
  }

  /** The test made for one vertex gathered at the base prefix. */
  lemma OverlayTest(g: Graph, k: nat, twins: TwinTable, P: set<Vertex>, overlay: seq<Vertex>, cut: nat,
                    v: Vertex, base: int, near: nat)
    requires Overlay(g, P, overlay) && v in Vertices(g) - P && cut == Cut(g, P + Elems(overlay))
    requires base == Degree(g, v) - 2 * |Neighbours(g, v) * P| && near == |Neighbours(g, v) * Elems(overlay)|
    ensures var S, next := P + Elems(overlay), cut + base - 2 * near;
            && (Legal(g, k, twins, S, v) <==> v !in overlay && !TwinBlocked(twins, S, v) && 0 <= next <= k)
            && (v !in overlay ==> next == Cut(g, S + {v}))
  {
    OverlayDelta(g, P, overlay, v);
    if v !in overlay {
      LegalTest(g, k, twins, P + Elems(overlay), cut, v, |Neighbours(g, v) * (P + Elems(overlay))|);
    }
  }

  /** Gathering at the widened bound misses no legal child. */
  lemma GatherIsSuperset(g: Graph, k: nat, twins: TwinTable, P: set<Vertex>, overlay: seq<Vertex>, cut: nat,
                         emitted: seq<(Vertex, int)>)
    requires Overlay(g, P, overlay) && cut == Cut(g, P + Elems(overlay))
    requires Gathered(g, P, k - cut + 2 * |overlay|, emitted)
    ensures AllLegalIn(g, k, twins, P + Elems(overlay), Emitted(emitted, |emitted|))
  {
    var S, bound := P + Elems(overlay), k - cut + 2 * |overlay|;
    forall v | Legal(g, k, twins, S, v) ensures v in Emitted(emitted, |emitted|) {
      OverlayDelta(g, P, overlay, v);
      CutRecurrence(g, S, v);
      EmittedAll(g, P, bound, emitted, v);
    }
  }

  /** The scan's test, from the counts at the base prefix. */
  lemma ScanStep(g: Graph, k: nat, twins: TwinTable, P: set<Vertex>, overlay: seq<Vertex>, before: seq<nat>, cut: nat,
                 v: Vertex, near: nat, cs: seq<Candidate>)
    requires Overlay(g, P, overlay) && cut == Cut(g, P + Elems(overlay)) && PlacedCounts(g, P, before)
    requires v < Size(g) && near == |Neighbours(g, v) * Elems(overlay)|
    requires ListsWithin(g, k, twins, P + Elems(overlay), Below(v), cs)
    ensures |before| == Size(g)
    ensures var S, next := P + Elems(overlay), NextCut(g, cut, v, before[v] + near);
            ListsWithin(g, k, twins, S, Below(v + 1),
                        if v !in P && v !in overlay && !TwinBlocked(twins, S, v) && 0 <= next <= k
                        then cs + [Candidate(v, next)] else cs)
  {
    hide Below, Cut, Degree, Elems, ListsWithin, Neighbours, Overlay, PlacedCounts, TwinBlocked, Vertices;
    BelowStep(v);
    CountAt(g, P, before, v);
    assert v in P ==> !Legal(g, k, twins, P + Elems(overlay), v);
    ListsStep(g, k, twins, P + Elems(overlay), Below(v), v, cs);
    if v !in P {
      OverlayTest(g, k, twins, P, overlay, cut, v, Degree(g, v) - 2 * before[v], near);
    }
  }

  lemma CountAt(g: Graph, P: set<Vertex>, before: seq<nat>, v: Vertex)
    requires PlacedCounts(g, P, before) && v < Size(g)
    ensures |before| == Size(g) && v in Vertices(g) && (v !in P ==> before[v] == |Neighbours(g, v) * P|)
  {
  }

  lemma ScanStart(g: Graph, k: nat, twins: TwinTable, S: set<Vertex>)
    ensures ListsWithin(g, k, twins, S, Below(0), [])
  {
  }

  lemma OverlayStart(g: Graph, k: nat, twins: TwinTable, S: set<Vertex>, emitted: seq<(Vertex, int)>)
    ensures ListsWithin(g, k, twins, S, Emitted(emitted, 0), [])
  {
  }

  lemma OverlayStep(g: Graph, k: nat, twins: TwinTable, P: set<Vertex>, overlay: seq<Vertex>, cut: nat, bound: int,
                    emitted: seq<(Vertex, int)>, i: nat, near: nat, cs: seq<Candidate>)
    requires Overlay(g, P, overlay) && cut == Cut(g, P + Elems(overlay))
    requires Gathered(g, P, bound, emitted) && i < |emitted|
    requires near == |Neighbours(g, emitted[i].0) * Elems(overlay)|
    requires ListsWithin(g, k, twins, P + Elems(overlay), Emitted(emitted, i), cs)
    ensures var (v, base) := emitted[i];
            var S := P + Elems(overlay);
            var next := cut + base - 2 * near;
            ListsWithin(g, k, twins, S, Emitted(emitted, i + 1),
                        if v !in overlay && !TwinBlocked(twins, S, v) && 0 <= next <= k
                        then cs + [Candidate(v, next)] else cs)
  {
    hide ListsWithin, Gathered, Emitted, Cut, TwinBlocked, Below, Overlay;
    var (v, base) := emitted[i];
    var S := P + Elems(overlay);
    EmittedStep(g, P, bound, emitted, i);
    OverlayTest(g, k, twins, P, overlay, cut, v, base, near);
    ListsStep(g, k, twins, S, Emitted(emitted, i), v, cs);
  }

  ghost function NearIn(g: Graph, v: Vertex, overlay: seq<Vertex>, i: nat): nat
    requires i <= |overlay|
  {
    |Neighbours(g, v) * Elems(overlay[..i])|
  }

  lemma CountNone(g: Graph, v: Vertex, overlay: seq<Vertex>)
    ensures NearIn(g, v, overlay, 0) == 0
  {
    assert Neighbours(g, v) * Elems(overlay[..0]) == {};
  }

  lemma CountAll(g: Graph, v: Vertex, overlay: seq<Vertex>)
    ensures NearIn(g, v, overlay, |overlay|) == |Neighbours(g, v) * Elems(overlay)|
  {
    assert overlay[..|overlay|] == overlay;
  }

  lemma NearStep(g: Graph, v: Vertex, overlay: seq<Vertex>, i: nat)
    requires Distinct(overlay) && i < |overlay|
    ensures NearIn(g, v, overlay, i + 1) == NearIn(g, v, overlay, i) + if Adjacent(g, v, overlay[i]) then 1 else 0
  {
    var w := overlay[i];
    assert overlay[..i + 1] == overlay[..i] + [w] && w !in overlay[..i];
    ElemsAppend(overlay[..i], w);
    SetStep(Neighbours(g, v), Elems(overlay[..i]), w);
  }

  datatype Continuation = Nothing | Exists | Inconclusive

  /** The states that so many further steps can reach, with at most n children each. */
  ghost function Reach(n: nat, steps: nat): nat {
    if steps == 0 then 1 else 1 + n * Reach(n, steps - 1)
  }

  /** The state itself and those of its first i children. */
  ghost function ReachUpTo(n: nat, steps: nat, i: nat): nat
    requires steps > 0
  {
    1 + i * Reach(n, steps - 1)
  }

  lemma ReachStep(n: nat, steps: nat, i: nat)
    requires steps > 0 && i < n
    ensures ReachUpTo(n, steps, 0) == 1 <= Reach(n, steps)
    ensures ReachUpTo(n, steps, i) + Reach(n, steps - 1) == ReachUpTo(n, steps, i + 1) <= Reach(n, steps)
  {
    MoreTimes(i + 1, n, Reach(n, steps - 1));
  }

  lemma MoreTimes(x: nat, y: nat, q: nat)
    requires x <= y
    ensures x * q <= y * q
  {
  }

  lemma ReachStart(n: nat, steps: nat)
    ensures 1 <= Reach(n, steps)
  {
  }

  lemma FewListed(g: Graph, k: nat, twins: TwinTable, S: set<Vertex>, cs: seq<Candidate>)
    requires ListsLegal(g, k, twins, S, cs)
    ensures |cs| <= Size(g)
  {
    hide Cut, TwinBlocked, Below;
    var listed := seq(|cs|, i requires 0 <= i < |cs| => cs[i].vertex);
    forall i | 0 <= i < |cs| ensures listed[i] in Vertices(g) {
      assert cs[i] in cs;
    }
    DistinctSize(listed);
    SubsetSize(Elems(listed), Vertices(g));
  }

  datatype ProbeResult = ProbeResult(continuationExists: bool, conclusive: bool, states: nat)

  class LocalContinuationProbe {
    const node: NodeState
    const k: nat
    const twins: TwinTable
    const crossCheck: bool
    const maximumStates: nat
    var overlay: seq<Vertex>
    var states: nat

    ghost predicate Valid()
      reads this, node, node.index, node.deltas, node.bins
    {
      node.Valid() && node.useIndex && ValidTwins(node.g, twins) && Overlay(node.g, node.prefix, overlay)
    }

    /** The hypothetical prefix. */
    ghost function Placed(): set<Vertex>
      reads this, node
    {
      node.prefix + Elems(overlay)
    }

    constructor (node: NodeState, k: nat, twins: TwinTable, crossCheck: bool, maximumStates: nat)
      requires node.Valid() && node.useIndex && ValidTwins(node.g, twins)
      ensures Valid() && this.node == node && this.k == k && this.twins == twins && states == 0
      ensures this.maximumStates == maximumStates
    {
      this.node, this.k, this.twins, this.crossCheck, this.maximumStates := node, k, twins, crossCheck, maximumStates;
      overlay, states := [], 0;
    }

    /** How many overlay vertices are adjacent to v. */
    method LocalNeighbours(v: Vertex) returns (count: nat)
      requires Distinct(overlay)
      ensures count == |Neighbours(node.g, v) * Elems(overlay)|
    {
      hide *;
      var g, placed := node.g, overlay;
      count := 0;
      CountNone(g, v, placed);
      CountAll(g, v, placed);
      for i := 0 to |placed|
        invariant count == NearIn(g, v, placed, i)
      {
        NearStep(g, v, placed, i);
        if Adjacent(g, v, placed[i]) {
          count := count + 1;
        }
      }
    }

    method Filter(cut: nat, emitted: seq<(Vertex, int)>) returns (cs: seq<Candidate>)
      requires Overlay(node.g, node.prefix, overlay) && cut == Cut(node.g, Placed())
      requires Gathered(node.g, node.prefix, k - cut + 2 * |overlay|, emitted)
      ensures ListsLegal(node.g, k, twins, Placed(), cs)
    {
      hide AllLegalIn, Cut, Distinct, Elems, Emitted, Gathered, ListsLegal, ListsWithin, Neighbours, TwinBlocked,
        Vertices;
      var g, P := node.g, node.prefix;
      var S := P + Elems(overlay);
      assert Distinct(overlay);
      cs := [];
      OverlayStart(g, k, twins, S, emitted);
      GatherIsSuperset(g, k, twins, P, overlay, cut, emitted);
      for i := 0 to |emitted|
        invariant ListsWithin(g, k, twins, S, Emitted(emitted, i), cs)
      {
        var (v, base) := emitted[i];
        var near := LocalNeighbours(v);
        OverlayStep(g, k, twins, P, overlay, cut, k - cut + 2 * |overlay|, emitted, i, near, cs);
        var next := cut + base - 2 * near;
        if v !in overlay && !TwinBlocked(twins, S, v) && 0 <= next <= k {
          cs := cs + [Candidate(v, next)];
        }
      }
      ListsAll(g, k, twins, S, Emitted(emitted, |emitted|), cs);
    }

    method ScanLocal(cut: nat) returns (cs: seq<Candidate>)
      requires Valid() && cut == Cut(node.g, Placed())
      ensures ListsLegal(node.g, k, twins, Placed(), cs)
    {
      NodeCounts(node);
      hide Below, Cut, Distinct, Elems, ListsWithin, Neighbours, NextCut, NodeState.Counted, NodeState.Valid,
        PlacedCounts, TwinBlocked, ValidTwins;
      var g, P, before := node.g, node.prefix, node.before;
      var S := P + Elems(overlay);
      assert Overlay(g, P, overlay) && Distinct(overlay);
      cs := [];
      ScanStart(g, k, twins, S);
      for v := 0 to Size(g)
        invariant ListsWithin(g, k, twins, S, Below(v), cs)
      {
        var near := LocalNeighbours(v);
        ScanStep(g, k, twins, P, overlay, before, cut, v, near, cs);
        if v !in P && v !in overlay && !TwinBlocked(twins, S, v) {
          var next := NextCut(g, cut, v, before[v] + near);
          if 0 <= next <= k {
            cs := cs + [Candidate(v, next)];
          }
        }
      }
    }

    /** The legal children of the overlay, largest cut first; false stands for the cross-check exception. */
    method Enumerate(cut: nat) returns (cs: seq<Candidate>, ok: bool)
      requires Valid() && cut == Cut(node.g, Placed())
      ensures ok && ListsLegal(node.g, k, twins, Placed(), cs) && InOrder(true, cs)
    {
      hide InOrder, ListsLegal, Overlay, Gathered;
      var emitted := GatherAt(node, k - cut + 2 * |overlay|);
      var found := Filter(cut, emitted);
      ok := true;
      if crossCheck {
        var scanned := ScanLocal(cut);
        ok := Agree(node.g, k, twins, Placed(), scanned, found);
      }
      cs := SortCandidates(LargestCutFirst, found);
      Rearranged(node.g, k, twins, Placed(), found, cs);
      SortedInOrder(true, cs);
    }

    method Search(cut: nat, remaining: nat) returns (outcome: Continuation)
      requires Valid() && cut == Cut(node.g, Placed())
      modifies this`overlay, this`states
      ensures Valid() && overlay == old(overlay) && states >= old(states)
      ensures outcome == Nothing ==> !Extendable(node.g, k, twins, Placed(), remaining)
      ensures outcome == Exists ==> Extendable(node.g, k, twins, Placed(), remaining)
      ensures outcome == Inconclusive ==> maximumStates != 0 && states >= maximumStates
      ensures maximumStates != 0 && old(states) <= maximumStates ==> states <= maximumStates
      ensures states <= old(states) + Reach(Size(node.g), remaining)
      decreases remaining, 1
    {
      hide Cut, Elems, Extendable, ListsLegal, NodeState.Valid, NoneExtend, Overlay, Reach, ReachUpTo, ValidTwins, Vertices;
      ReachStart(Size(node.g), remaining);
      if maximumStates != 0 && states >= maximumStates {
        return Inconclusive;
      }
      states := states + 1;
      ghost var S := Placed();
      OverlayFull(node.g, node.prefix, overlay);
      EndOfSearch(node.g, k, twins, S, remaining);
      if |node.prefix| + |overlay| == Size(node.g) || remaining == 0 {
        return Exists;
      }
      var cs, ok := Enumerate(cut);
      if cs == [] {
        NoneExtendNone(node.g, k, twins, S, cs, remaining - 1);
        NoneExtendAll(node.g, k, twins, S, cs, remaining);
        return Nothing;
      }
      outcome := Children(cs, remaining);
    }

    method Children(cs: seq<Candidate>, remaining: nat) returns (outcome: Continuation)
      requires Valid() && remaining > 0 && cs != [] && ListsLegal(node.g, k, twins, Placed(), cs)
      requires Placed() != Vertices(node.g)
      modifies this`overlay, this`states
      ensures Valid() && overlay == old(overlay) && states >= old(states)
      ensures outcome == Nothing ==> !Extendable(node.g, k, twins, Placed(), remaining)
      ensures outcome == Exists ==> Extendable(node.g, k, twins, Placed(), remaining)
      ensures outcome == Inconclusive ==> maximumStates != 0 && states >= maximumStates
      ensures maximumStates != 0 && old(states) <= maximumStates ==> states <= maximumStates
      ensures 1 + states <= old(states) + Reach(Size(node.g), remaining)
      decreases remaining, 0
    {
      hide Cut, Elems, Extendable, ListsLegal, NodeState.Valid, NoneExtend, Overlay, Reach, ReachUpTo, ValidTwins, Vertices;
      ghost var S := Placed();
      var sawInconclusive := false;
      FewListed(node.g, k, twins, S, cs);
      ReachStep(Size(node.g), remaining, 0);
      NoneExtendNone(node.g, k, twins, S, cs, remaining - 1);
      for i := 0 to |cs|
        invariant Valid() && overlay == old(overlay) && states >= old(states) && Placed() == S
        invariant maximumStates != 0 && old(states) <= maximumStates ==> states <= maximumStates
        invariant sawInconclusive ==> maximumStates != 0 && states >= maximumStates
        invariant 1 + states <= old(states) + ReachUpTo(Size(node.g), remaining, i) <= old(states) + Reach(Size(node.g), remaining)
        invariant !sawInconclusive ==> NoneExtend(node.g, k, twins, S, cs, i, remaining - 1)
      {
        OverlayChild(node.g, k, twins, node.prefix, overlay, cs, i);
        ReachStep(Size(node.g), remaining, i);
        overlay := overlay + [cs[i].vertex];
        outcome := Search(cs[i].cut, remaining - 1);
        overlay := overlay[..|overlay| - 1];
        if outcome == Exists {
          ListedExtends(node.g, k, twins, S, cs, i, remaining);
          return Exists;
        }
        if outcome == Nothing && !sawInconclusive {
          NoneExtendStep(node.g, k, twins, S, cs, i, remaining - 1);
        }
        if outcome == Inconclusive {
          sawInconclusive := true;
        }
      }
      if sawInconclusive {
        return Inconclusive;
      }
      NoneExtendAll(node.g, k, twins, S, cs, remaining);
      return Nothing;
    }

    /** A conclusive answer tells whether legal placements can go on for the horizon. */
    method Run(cut: nat, horizon: nat) returns (r: ProbeResult)
      requires Valid() && states == 0 && cut == Cut(node.g, node.prefix)
      modifies this`overlay, this`states
      ensures r.conclusive ==> (r.continuationExists <==> Extendable(node.g, k, twins, node.prefix, horizon))
      ensures !r.conclusive ==> 0 < maximumStates <= r.states
      ensures maximumStates != 0 ==> r.states <= maximumStates
      ensures r.states <= Reach(Size(node.g), horizon)
    {
      hide NodeState.Valid, ValidTwins, Extendable;
      overlay := [];
      assert node.prefix + Elems(overlay) == node.prefix;
      var outcome := Search(cut, horizon);
      r := ProbeResult(outcome != Nothing, outcome != Inconclusive, states);
    }
  }

  /** The probe never prunes a prefix that has a completion. */
  lemma ProbePruneIsProof(g: Graph, k: nat, twins: TwinTable, S: set<Vertex>, horizon: nat)
    requires ValidTwins(g, twins) && !Extendable(g, k, twins, S, horizon)
    ensures !Feasible(g, k, S)
  {
    if Feasible(g, k, S) {
      FeasibleIsExtendable(g, k, twins, S, horizon);
      assert false;
    }
  }
}
