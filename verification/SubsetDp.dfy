/**
  The subset dynamic program: the best width of every vertex set, indexed by its
  bit mask, and an ordering read back through the parents.
 */
module SubsetDp {
  import opened Options
  import opened Graphs
  import opened Feasibility
  import opened Orderings

  const VERTEX_LIMIT: nat := 25

  // ----- masks -----

  function Pow2(n: nat): (p: nat)
    ensures p > 0
  {
    if n == 0 then 1 else 2 * Pow2(n - 1)
  }

  predicate Bit(m: nat, v: nat) {
    if v == 0 then m % 2 == 1 else Bit(m / 2, v - 1)
  }

  /** The mask with bit v cleared. */
  function Without(m: nat, v: nat): (r: nat)
    requires Bit(m, v)
    ensures r < m
  {
    if v == 0 then m - 1 else 2 * Without(m / 2, v - 1) + m % 2
  }

  lemma {:induction false} WithoutBits(m: nat, v: nat, u: nat)
    requires Bit(m, v)
    ensures Bit(Without(m, v), u) <==> Bit(m, u) && u != v
    decreases u
  {
    if v > 0 && u > 0 {
      WithoutBits(m / 2, v - 1, u - 1);
      assert Without(m, v) / 2 == Without(m / 2, v - 1);
    }
  }

  lemma {:induction false} FullMaskBits(n: nat, u: nat)
    ensures Bit(Pow2(n) - 1, u) <==> u < n
    decreases u
  {
    if n == 0 {
      ZeroBits(u);
    } else if u > 0 {
      assert (Pow2(n) - 1) / 2 == Pow2(n - 1) - 1;
      FullMaskBits(n - 1, u - 1);
    }
  }

  lemma {:induction false} ZeroBits(u: nat)
    ensures !Bit(0, u)
  {
    if u > 0 {
      ZeroBits(u - 1);
    }
  }

  /** The vertices below n in the mask. */
  function Members(m: nat, n: nat): set<Vertex> {
    set v | v in Below(n) && Bit(m, v)
  }

  lemma MembersWithout(m: nat, n: nat, v: Vertex)
    requires Bit(m, v)
    ensures Members(Without(m, v), n) == Members(m, n) - {v}
  {
    hide Bit, Without;
    forall u | u in Below(n) ensures Bit(Without(m, v), u) <==> Bit(m, u) && u != v {
      WithoutBits(m, v, u);
    }
  }

  lemma MembersEnds(n: nat)
    ensures Members(0, n) == {} && Members(Pow2(n) - 1, n) == Below(n)
  {
    hide Bit;
    forall u | u in Below(n) ensures !Bit(0, u) && Bit(Pow2(n) - 1, u) {
      ZeroBits(u);
      FullMaskBits(n, u);
    }
  }

  lemma {:induction false} NonzeroHasMember(m: nat, n: nat) returns (v: Vertex)
    requires 0 < m < Pow2(n)
    ensures v < n && Bit(m, v)
  {
    if m % 2 == 1 {
      v := 0;
    } else {
      var u := NonzeroHasMember(m / 2, n - 1);
      v := u + 1;
    }
  }

  // ----- what the table holds -----

  /** The vertices of S can be placed in some order with every cut within k. */
  ghost predicate Buildable(g: Graph, k: nat, S: set<Vertex>) {
    exists p :: IsPath(g, p) && Elems(p) == S && CutsWithin(g, k, p, 0)
  }

  ghost predicate IsBest(g: Graph, S: set<Vertex>, b: nat) {
    forall k: nat :: b <= k <==> Buildable(g, k, S)
  }

  lemma BuildableEmpty(g: Graph)
    ensures IsBest(g, {}, 0)
  {
    EmptyCut(g);
    assert Elems([]) == {};
    forall k: nat ensures Buildable(g, k, {}) {
      assert IsPath(g, []) && CutsWithin(g, k, [], 0);
    }
  }

  lemma BuildableFacts(g: Graph, k: nat, S: set<Vertex>)
    requires Buildable(g, k, S)
    ensures Cut(g, S) <= k && S <= Vertices(g)
  {
    var p :| IsPath(g, p) && Elems(p) == S && CutsWithin(g, k, p, 0);
    assert p[..|p|] == p;
  }

  /** Placing v last. */
  lemma BuildableStep(g: Graph, k: nat, S: set<Vertex>, v: Vertex)
    requires v in S && v in Vertices(g) && Cut(g, S) <= k && Buildable(g, k, S - {v})
    ensures Buildable(g, k, S)
  {
    var p :| IsPath(g, p) && Elems(p) == S - {v} && CutsWithin(g, k, p, 0);
    ExtendPath(g, p, v);
    var q := p + [v];
    assert S - {v} + {v} == S;
    hide Cut, Distinct;
    forall i | 0 <= i <= |q| ensures Cut(g, Elems(q[..i])) <= k {
      if i <= |p| {
        assert q[..i] == p[..i];
      } else {
        assert q[..i] == q;
      }
    }
  }

  /** Taking the last vertex away. */
  lemma BuildableLast(g: Graph, k: nat, S: set<Vertex>) returns (v: Vertex)
    requires Buildable(g, k, S) && S != {}
    ensures v in S && Buildable(g, k, S - {v})
  {
    var p :| IsPath(g, p) && Elems(p) == S && CutsWithin(g, k, p, 0);
    assert p != [];
    v := p[|p| - 1];
    var q := p[..|p| - 1];
    assert p == q + [v];
    assert v !in q;
    assert Elems(q) == S - {v};
    forall i | 0 <= i <= |q| ensures q[..i] == p[..i] {
    }
    assert IsPath(g, q) && CutsWithin(g, k, q, 0);
  }

  /** The best value over the last vertices below n tried so far; None before the first. */
  ghost predicate LastBuilds(g: Graph, k: nat, S: set<Vertex>, n: nat) {
    exists v :: v in Below(n) && v in S && Buildable(g, k, S - {v})
  }

  ghost predicate PartialBest(g: Graph, S: set<Vertex>, n: nat, value: Option<nat>) {
    forall k: nat :: (value.Some? && value.value <= k) <==> Cut(g, S) <= k && LastBuilds(g, k, S, n)
  }

  lemma LastBuildsStep(g: Graph, k: nat, S: set<Vertex>, v: Vertex)
    ensures LastBuilds(g, k, S, v + 1) <==> LastBuilds(g, k, S, v) || (v in S && Buildable(g, k, S - {v}))
  {
    hide Buildable;
    BelowStep(v);
    if LastBuilds(g, k, S, v) {
      var u :| u in Below(v) && u in S && Buildable(g, k, S - {u});
      assert u in Below(v + 1);
    }
  }

  function Larger(a: nat, b: nat): nat {
    if a > b then a else b
  }

  lemma PartialStep(g: Graph, S: set<Vertex>, v: Vertex, value: Option<nat>, best: nat)
    requires PartialBest(g, S, v, value) && v in S && IsBest(g, S - {v}, best)
    ensures var candidate := Larger(best, Cut(g, S));
            PartialBest(g, S, v + 1, if value.Some? && value.value <= candidate then value else Some(candidate))
  {
    hide Buildable, LastBuilds, Cut;
    var n := v + 1;
    forall k: nat ensures LastBuilds(g, k, S, n) <==> LastBuilds(g, k, S, v) || best <= k {
      LastBuildsStep(g, k, S, v);
      assert best <= k <==> Buildable(g, k, S - {v});
    }
  }

  lemma PartialSkip(g: Graph, S: set<Vertex>, v: Vertex, value: Option<nat>)
    requires PartialBest(g, S, v, value) && v !in S
    ensures PartialBest(g, S, v + 1, value)
  {
    hide Buildable, LastBuilds, Cut;
    var n := v + 1;
    forall k: nat ensures LastBuilds(g, k, S, n) <==> LastBuilds(g, k, S, v) {
      LastBuildsStep(g, k, S, v);
    }
  }

  lemma PartialStart(g: Graph, S: set<Vertex>)
    ensures PartialBest(g, S, 0, None)
  {
  }

  /** All last vertices tried: the value is the best. */
  lemma PartialDone(g: Graph, S: set<Vertex>, value: Option<nat>)
    requires PartialBest(g, S, Size(g), value) && S <= Vertices(g) && S != {}
    ensures value.Some? && IsBest(g, S, value.value)
  {
    hide Buildable, LastBuilds, Cut;
    var top := SomeWidth(g, S);
    SomeLast(g, top, S);
    assert LastBuilds(g, top, S, Size(g));
    forall k: nat ensures value.value <= k <==> Buildable(g, k, S) {
      SomeLast(g, k, S);
      var both := LastBuilds(g, k, S, Size(g));
    }
  }

  lemma {:induction false} SomeWidth(g: Graph, S: set<Vertex>) returns (k: nat)
    requires S <= Vertices(g)
    ensures Buildable(g, k, S)
    decreases S
  {
    hide Buildable, Cut;
    if S == {} {
      BuildableEmpty(g);
      k := 0;
    } else {
      var v :| v in S;
      var rest := SomeWidth(g, S - {v});
      k := Larger(rest, Cut(g, S));
      BuildableGrows(g, rest, k, S - {v});
      BuildableStep(g, k, S, v);
    }
  }

  lemma BuildableGrows(g: Graph, k: nat, k': nat, S: set<Vertex>)
    requires Buildable(g, k, S) && k <= k'
    ensures Buildable(g, k', S)
  {
    hide Cut, Distinct;
    var p :| IsPath(g, p) && Elems(p) == S && CutsWithin(g, k, p, 0);
    assert CutsWithin(g, k', p, 0);
  }

  lemma SomeLast(g: Graph, k: nat, S: set<Vertex>)
    requires S <= Vertices(g) && S != {}
    ensures Cut(g, S) <= k && LastBuilds(g, k, S, Size(g)) <==> Buildable(g, k, S)
  {
    hide Buildable, Cut;
    if Cut(g, S) <= k && LastBuilds(g, k, S, Size(g)) {
      var v :| v in Below(Size(g)) && v in S && Buildable(g, k, S - {v});
      BuildableStep(g, k, S, v);
    }
    if Buildable(g, k, S) {
      BuildableFacts(g, k, S);
      var v := BuildableLast(g, k, S);
      assert v in Below(Size(g));
    }
  }

  // ----- the tables -----

  datatype OracleResult = OracleResult(cutwidth: nat, ordering: seq<Vertex>)

  /** The first `count` masks have their best values, and parents that attain them. */
  ghost predicate TablesOk(g: Graph, dp: seq<Option<nat>>, parent: seq<nat>, count: nat) {
    && |dp| == |parent| == Pow2(Size(g)) && count <= |dp|
    && forall m :: 0 <= m < count ==> EntryOk(g, dp, parent, m)
  }

  ghost predicate EntryOk(g: Graph, dp: seq<Option<nat>>, parent: seq<nat>, m: nat)
    requires m < |dp| && m < |parent|
  {
    && dp[m].Some? && IsBest(g, Members(m, Size(g)), dp[m].value)
    && (m > 0 ==> Attains(g, dp, parent[m], m, dp[m].value))
  }

  /** Placing v last in the mask attains the value. */
  ghost predicate Attains(g: Graph, dp: seq<Option<nat>>, v: Vertex, m: nat, value: nat) {
    && v < Size(g) && Bit(m, v) && Without(m, v) < |dp| && dp[Without(m, v)].Some?
    && dp[Without(m, v)].value <= value && Cut(g, Members(m, Size(g))) <= value
  }

  lemma EntryStays(g: Graph, dp: seq<Option<nat>>, parent: seq<nat>, m: nat, i: nat, value: Option<nat>, p: nat)
    requires m < i < |dp| == |parent| && EntryOk(g, dp, parent, m)
    ensures EntryOk(g, dp[i := value], parent[i := p], m)
  {
    hide IsBest, Members, Bit, Without, Cut;
  }

  /** Fills one entry from the entries of smaller masks. */
  method FillEntry(g: Graph, dp: seq<Option<nat>>, ghost parent: seq<nat>, m: nat) returns (value: nat, last: Vertex)
    requires 0 < m < |dp| && TablesOk(g, dp, parent, m)
    ensures IsBest(g, Members(m, Size(g)), value) && Attains(g, dp, last, m, value)
  {
    hide IsBest, Members, Bit, Without, Cut, PartialBest, EntryOk;
    var n := Size(g);
    ghost var S := Members(m, n);
    MembersFacts(g, m);
    var boundary := CutOf(g, Members(m, n));
    var best: Option<nat> := None;
    last := 0;
    PartialStart(g, S);
    for v := 0 to n
      invariant PartialBest(g, S, v, best)
      invariant best.Some? ==> Attains(g, dp, last, m, best.value)
    {
      MemberBit(g, m, v);
      if Bit(m, v) {
        var previous := Without(m, v);
        EntryFacts(g, dp, parent, previous);
        MembersWithout(m, n, v);
        PartialStep(g, S, v, best, dp[previous].value);
        var candidate := Larger(dp[previous].value, boundary);
        if best == None || candidate < best.value {
          best, last := Some(candidate), v;
        }
      } else {
        PartialSkip(g, S, v, best);
      }
    }
    PartialDone(g, S, best);
    value := best.value;
  }

  lemma EntryFacts(g: Graph, dp: seq<Option<nat>>, parent: seq<nat>, m: nat)
    requires m < |dp| && m < |parent| && EntryOk(g, dp, parent, m)
    ensures dp[m].Some? && IsBest(g, Members(m, Size(g)), dp[m].value)
    ensures m > 0 ==> Attains(g, dp, parent[m], m, dp[m].value)
  {
  }

  lemma MemberBit(g: Graph, m: nat, v: Vertex)
    requires v < Size(g)
    ensures Bit(m, v) <==> v in Members(m, Size(g))
  {
  }

  lemma MembersFacts(g: Graph, m: nat)
    requires 0 < m < Pow2(Size(g))
    ensures Members(m, Size(g)) <= Vertices(g) && Members(m, Size(g)) != {}
  {
    var v := NonzeroHasMember(m, Size(g));
    assert v in Members(m, Size(g));
  }

  method FillTables(g: Graph) returns (dp: seq<Option<nat>>, parent: seq<nat>)
    ensures TablesOk(g, dp, parent, Pow2(Size(g)))
  {
    hide IsBest, Members, Bit, Without, Cut, Attains;
    var states := Pow2(Size(g));
    dp := seq(states, _ => None);
    parent := seq(states, _ => 0);
    dp := dp[0 := Some(0)];
    MembersEnds(Size(g));
    BuildableEmpty(g);
    for m := 1 to states
      invariant TablesOk(g, dp, parent, m)
    {
      var value, last := FillEntry(g, dp, parent, m);
      Extend(g, dp, parent, m, value, last);
      dp, parent := dp[m := Some(value)], parent[m := last];
    }
  }

  lemma Extend(g: Graph, dp: seq<Option<nat>>, parent: seq<nat>, m: nat, value: nat, last: Vertex)
    requires 0 < m < |dp| && TablesOk(g, dp, parent, m)
    requires IsBest(g, Members(m, Size(g)), value) && Attains(g, dp, last, m, value)
    ensures TablesOk(g, dp[m := Some(value)], parent[m := last], m + 1)
  {
    hide IsBest, Members, Cut, EntryOk;
    var dp', parent' := dp[m := Some(value)], parent[m := last];
    forall i | 0 <= i < m ensures EntryOk(g, dp', parent', i) {
      EntryStays(g, dp, parent, i, m, Some(value), last);
    }
    NewEntry(g, dp, parent, m, value, last);
  }

  lemma NewEntry(g: Graph, dp: seq<Option<nat>>, parent: seq<nat>, m: nat, value: nat, last: Vertex)
    requires 0 < m < |dp| == |parent| && IsBest(g, Members(m, Size(g)), value) && Attains(g, dp, last, m, value)
    ensures EntryOk(g, dp[m := Some(value)], parent[m := last], m)
  {
    hide IsBest, Members, Cut;
  }

  /** Reads an ordering back through the parents, last vertex first. */
  method Reconstruct(g: Graph, dp: seq<Option<nat>>, parent: seq<nat>) returns (ordering: seq<Vertex>)
    requires TablesOk(g, dp, parent, Pow2(Size(g)))
    ensures dp[Pow2(Size(g)) - 1].Some? && Completes(g, dp[Pow2(Size(g)) - 1].value, {}, ordering)
  {
    hide IsBest, Members, Bit, Without, Cut, EntryOk, Completes, Attains;
    var n := Size(g);
    var m: nat := Pow2(n) - 1;
    EntryFacts(g, dp, parent, m);
    ghost var width := dp[m].value;
    ordering := [];
    MembersEnds(n);
    FullCompletes(g, width);
    while m != 0
      invariant m < |dp| && dp[m].Some? && dp[m].value <= width && Completes(g, width, Members(m, n), ordering)
      decreases m
    {
      EntryFacts(g, dp, parent, m);
      var v := parent[m];
      AttainFacts(g, dp, v, m, dp[m].value);
      EntryFacts(g, dp, parent, Without(m, v));
      MembersWithout(m, n, v);
      StepBack(g, width, Members(m, n), v, ordering, dp[Without(m, v)].value);
      ordering := [v] + ordering;
      m := Without(m, v);
    }
  }

  lemma AttainFacts(g: Graph, dp: seq<Option<nat>>, v: Vertex, m: nat, value: nat)
    requires Attains(g, dp, v, m, value)
    ensures v < Size(g) && Bit(m, v) && v in Members(m, Size(g)) && Without(m, v) < |dp|
    ensures dp[Without(m, v)].Some? && dp[Without(m, v)].value <= value
  {
  }

  lemma FullCompletes(g: Graph, k: nat)
    ensures Completes(g, k, Below(Size(g)), [])
  {
    FullCut(g);
  }

  lemma StepBack(g: Graph, k: nat, S: set<Vertex>, v: Vertex, c: seq<Vertex>, best: nat)
    requires Completes(g, k, S, c) && v in S && v < Size(g) && IsBest(g, S - {v}, best) && best <= k
    ensures Completes(g, k, S - {v}, [v] + c)
  {
    assert Buildable(g, best, S - {v});
    BuildableFacts(g, best, S - {v});
    assert S - {v} + {v} == S && ([v] + c)[1..] == c;
    hide Buildable, IsBest, Cut;
  }

  /** The least width over all orderings, with an ordering that attains it; None stands for too many vertices. */
  method Solve(g: Graph) returns (r: Option<OracleResult>)
    ensures r == None <==> Size(g) > 25
    ensures r.Some? ==>
              && IsOrdering(g, r.value.ordering) && Width(g, r.value.ordering) == r.value.cutwidth
              && forall o :: IsOrdering(g, o) ==> r.value.cutwidth <= Width(g, o)
  {
    if Size(g) > VERTEX_LIMIT {
      return None;
    }
    hide *;
    var dp, parent := FillTables(g);
    var ordering := Reconstruct(g, dp, parent);
    var width := dp[Pow2(Size(g)) - 1];
    AllMaskIsBest(g, dp, parent);
    BestIsOptimal(g, width.value, ordering);
    return Some(OracleResult(width.value, ordering));
  }

  lemma AllMaskIsBest(g: Graph, dp: seq<Option<nat>>, parent: seq<nat>)
    requires TablesOk(g, dp, parent, Pow2(Size(g))) && |dp| == Pow2(Size(g)) && dp[Pow2(Size(g)) - 1].Some?
    ensures IsBest(g, Vertices(g), dp[Pow2(Size(g)) - 1].value)
  {
    hide IsBest, Members;
    MembersEnds(Size(g));
    assert EntryOk(g, dp, parent, Pow2(Size(g)) - 1);
  }

  lemma BestIsOptimal(g: Graph, k: nat, ordering: seq<Vertex>)
    requires IsBest(g, Vertices(g), k) && Completes(g, k, {}, ordering)
    ensures IsOrdering(g, ordering) && Width(g, ordering) == k
    ensures forall o :: IsOrdering(g, o) ==> k <= Width(g, o)
  {
    hide Completes, Width, Distinct;
    assert Elems([]) == {} && [] + ordering == ordering;
    CompletionIsTail(g, k, [], ordering);
    WidthIsLargest(g, k, ordering);
    forall o | IsOrdering(g, o) ensures k <= Width(g, o) {
      OrderingBuilds(g, o);
      assert Buildable(g, Width(g, o), Vertices(g));
    }
  }

  lemma OrderingBuilds(g: Graph, o: seq<Vertex>)
    requires IsOrdering(g, o)
    ensures Buildable(g, Width(g, o), Vertices(g))
  {
    PathIsFull(g, o);
    WidthIsLargest(g, Width(g, o), o);
  }
}
