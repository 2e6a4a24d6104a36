/**
  Layouts under swaps, insertions and reversals: only the cuts of the interval a
  move touches are recomputed, and the result is the full evaluation.
 */
module IncrementalLayouts {
  import opened Options
  import opened Graphs
  import opened Feasibility
  import opened NodeStates
  import opened Orderings
  import opened Sorting

  datatype Move = Swap | Insertion | Reversal

  function Lower(a: nat, b: nat): nat {
    if a <= b then a else b
  }

  function Upper(a: nat, b: nat): nat {
    if a <= b then b else a
  }

  function Reversed<T>(s: seq<T>): (r: seq<T>)
    ensures |r| == |s| && multiset(r) == multiset(s)
  {
    if s == [] then []
    else
      assert s == [s[0]] + s[1..];
      Reversed(s[1..]) + [s[0]]
  }

  function Inserted<T>(s: seq<T>, a: nat, b: nat): seq<T>
    requires a < |s| && b < |s|
  {
    var rest := s[..a] + s[a + 1..];
    rest[..b] + [s[a]] + rest[b..]
  }

  function Mutated<T>(s: seq<T>, move: Move, a: nat, b: nat): seq<T>
    requires a < |s| && b < |s|
  {
    match move
    case Swap => s[a := s[b]][b := s[a]]
    case Insertion => Inserted(s, a, b)
    case Reversal =>
      var lo, hi := Lower(a, b), Upper(a, b);
      s[..lo] + Reversed(s[lo..hi + 1]) + s[hi + 1..]
  }

  // ----- what each move does, position by position -----

  /** Two positions are exchanged, and every other one is left alone. */
  ghost predicate Swaps<T>(s: seq<T>, r: seq<T>, a: nat, b: nat) {
    && |r| == |s| && a < |s| && b < |s| && r[a] == s[b] && r[b] == s[a]
    && forall i :: 0 <= i < |s| && i != a && i != b ==> r[i] == s[i]
  }

  /** The element of position a comes to position b, and those between close up towards a. */
  ghost predicate Inserts<T>(s: seq<T>, r: seq<T>, a: nat, b: nat) {
    && |r| == |s| && a < |s| && b < |s| && r[b] == s[a]
    && (forall i :: 0 <= i < |s| && ((i < a && i < b) || (i > a && i > b)) ==> r[i] == s[i])
    && (forall i :: a <= i < b ==> r[i] == s[i + 1])
    && (forall i :: b < i <= a ==> r[i] == s[i - 1])
  }

  /** The interval between the two positions, given in either order, is mirrored. */
  ghost predicate Mirrors<T>(s: seq<T>, r: seq<T>, a: nat, b: nat) {
    && |r| == |s| && a < |s| && b < |s|
    && (forall i :: 0 <= i < |s| && ((i < a && i < b) || (i > a && i > b)) ==> r[i] == s[i])
    && (forall i, j :: 0 <= i < |s| && 0 <= j < |s| && i + j == a + b && (a <= i <= b || b <= i <= a) ==> r[i] == s[j])
  }

  lemma SwapMoves<T>(s: seq<T>, a: nat, b: nat)
    requires a < |s| && b < |s|
    ensures Swaps(s, Mutated(s, Swap, a, b), a, b)
  {
  }

  lemma InsertionMoves<T>(s: seq<T>, a: nat, b: nat)
    requires a < |s| && b < |s|
    ensures Inserts(s, Mutated(s, Insertion, a, b), a, b)
  {
  }

  lemma ReversalMoves<T>(s: seq<T>, a: nat, b: nat)
    requires a < |s| && b < |s|
    ensures Mirrors(s, Mutated(s, Reversal, a, b), a, b)
  {
    hide Mirrors, Reversed;
    MirroredBetween(s, Lower(a, b), Upper(a, b));
    EitherWay(s, Mutated(s, Reversal, a, b), Lower(a, b), Upper(a, b));
  }

  lemma EitherWay<T>(s: seq<T>, r: seq<T>, a: nat, b: nat)
    requires Mirrors(s, r, a, b)
    ensures Mirrors(s, r, b, a)
  {
    forall i | 0 <= i < |s| && ((i < b && i < a) || (i > b && i > a)) ensures r[i] == s[i] {
    }
    forall i, j | 0 <= i < |s| && 0 <= j < |s| && i + j == b + a && (b <= i <= a || a <= i <= b) ensures r[i] == s[j] {
    }
  }

  lemma MirroredBetween<T>(s: seq<T>, lo: nat, hi: nat)
    requires lo <= hi < |s|
    ensures Mirrors(s, s[..lo] + Reversed(s[lo..hi + 1]) + s[hi + 1..], lo, hi)
  {
    hide Reversed;
    var r := s[..lo] + Reversed(s[lo..hi + 1]) + s[hi + 1..];
    forall i | 0 <= i < |s| && ((i < lo && i < hi) || (i > lo && i > hi)) ensures r[i] == s[i] {
      MirroredAt(s, lo, hi, i);
    }
    forall i, j | 0 <= i < |s| && 0 <= j < |s| && i + j == lo + hi && lo <= i <= hi ensures r[i] == s[j] {
      MirroredAt(s, lo, hi, i);
    }
  }

  lemma MirroredAt<T>(s: seq<T>, lo: nat, hi: nat, i: nat)
    requires lo <= hi < |s| && i < |s|
    ensures (s[..lo] + Reversed(s[lo..hi + 1]) + s[hi + 1..])[i] == if lo <= i <= hi then s[lo + hi - i] else s[i]
  {
    hide Reversed;
    var inner := s[lo..hi + 1];
    Joined(s[..lo], Reversed(inner), s[hi + 1..], i);
    if lo <= i <= hi {
      ReversedAt(inner, i - lo);
    }
  }

  lemma Joined<T>(x: seq<T>, y: seq<T>, z: seq<T>, i: nat)
    requires i < |x| + |y| + |z|
    ensures (x + y + z)[i] ==
              if i < |x| then x[i] else if i < |x| + |y| then y[i - |x|] else z[i - |x| - |y|]
  {
  }

  lemma {:induction false} ReversedAt<T>(s: seq<T>, i: nat)
    requires i < |s|
    ensures Reversed(s)[i] == s[|s| - 1 - i]
  {
    if i < |s| - 1 {
      ReversedAt(s[1..], i);
    }
  }

  /** Only the interval from lo to hi is rearranged. */
  ghost predicate Local<T>(s: seq<T>, r: seq<T>, lo: nat, hi: nat) {
    && lo <= hi < |s| == |r| && r[..lo] == s[..lo] && r[hi + 1..] == s[hi + 1..]
    && multiset(r[lo..hi + 1]) == multiset(s[lo..hi + 1])
  }

  /** A move rearranges the interval between its two positions and nothing else. */
  lemma MoveIsLocal<T>(s: seq<T>, move: Move, a: nat, b: nat)
    requires a < |s| && b < |s|
    ensures Local(s, Mutated(s, move, a, b), Lower(a, b), Upper(a, b))
  {
    hide Local, Inserted;
    match move
    case Swap => SwapIsLocal(s, a, b);
    case Insertion => InsertionIsLocal(s, a, b);
    case Reversal => ReversalIsLocal(s, Lower(a, b), Upper(a, b));
  }

  lemma ReversalIsLocal<T>(s: seq<T>, lo: nat, hi: nat)
    requires lo <= hi < |s|
    ensures Local(s, s[..lo] + Reversed(s[lo..hi + 1]) + s[hi + 1..], lo, hi)
  {
    var r := s[..lo] + Reversed(s[lo..hi + 1]) + s[hi + 1..];
    assert r[lo..hi + 1] == Reversed(s[lo..hi + 1]);
  }

  lemma SwapIsLocal<T>(s: seq<T>, a: nat, b: nat)
    requires a < |s| && b < |s|
    ensures Local(s, s[a := s[b]][b := s[a]], Lower(a, b), Upper(a, b))
  {
    hide Local;
    SwapCommutes(s, a, b);
    if a < b {
      SwapApart(s, a, b);
    } else if b < a {
      SwapApart(s, b, a);
    } else {
      SameIsLocal(s, a);
    }
  }

  lemma SameIsLocal<T>(s: seq<T>, a: nat)
    requires a < |s|
    ensures Local(s, s, a, a)
  {
  }

  lemma SwapCommutes<T>(s: seq<T>, a: nat, b: nat)
    requires a < |s| && b < |s|
    ensures a == b ==> s[a := s[b]][b := s[a]] == s
    ensures s[a := s[b]][b := s[a]] == s[b := s[a]][a := s[b]]
  {
  }

  lemma SwapApart<T>(s: seq<T>, lo: nat, hi: nat)
    requires lo < hi < |s|
    ensures Local(s, s[lo := s[hi]][hi := s[lo]], lo, hi)
  {
    var r, mid := s[lo := s[hi]][hi := s[lo]], s[lo + 1..hi];
    assert s[lo..hi + 1] == [s[lo]] + mid + [s[hi]];
    assert r[lo..hi + 1] == [s[hi]] + mid + [s[lo]];
    EndsExchanged(s[lo], mid, s[hi]);
  }

  lemma EndsExchanged<T>(x: T, mid: seq<T>, y: T)
    ensures multiset([x] + mid + [y]) == multiset([y] + mid + [x])
  {
    assert multiset([x] + mid + [y]) == multiset{x} + multiset(mid) + multiset{y};
    assert multiset([y] + mid + [x]) == multiset{y} + multiset(mid) + multiset{x};
  }

  lemma InsertionIsLocal<T>(s: seq<T>, a: nat, b: nat)
    requires a < |s| && b < |s|
    ensures Local(s, Inserted(s, a, b), Lower(a, b), Upper(a, b))
  {
    hide Inserted, Local;
    if a <= b {
      InsertLater(s, a, b);
    } else {
      InsertEarlier(s, a, b);
    }
  }

  lemma InsertLater<T>(s: seq<T>, a: nat, b: nat)
    requires a <= b < |s|
    ensures Local(s, Inserted(s, a, b), a, b)
  {
    var x, mid := s[a], s[a + 1..b + 1];
    assert Inserted(s, a, b) == s[..a] + (mid + [x]) + s[b + 1..];
    assert Inserted(s, a, b)[a..b + 1] == mid + [x] && s[a..b + 1] == [x] + mid;
  }

  lemma InsertEarlier<T>(s: seq<T>, a: nat, b: nat)
    requires b < a < |s|
    ensures Local(s, Inserted(s, a, b), b, a)
  {
    var x, mid := s[a], s[b..a];
    assert Inserted(s, a, b) == s[..b] + ([x] + mid) + s[a + 1..];
    assert Inserted(s, a, b)[b..a + 1] == [x] + mid && s[b..a + 1] == mid + [x];
  }

  /** Prefixes that end before or after the interval hold the same vertices. */
  lemma PrefixesOutside(s: seq<Vertex>, move: Move, a: nat, b: nat, i: nat)
    requires a < |s| && b < |s| && i <= |s| && (i <= Lower(a, b) || i > Upper(a, b))
    ensures |Mutated(s, move, a, b)| == |s|
    ensures Elems(Mutated(s, move, a, b)[..i]) == Elems(s[..i])
  {
    hide *;
    MoveIsLocal(s, move, a, b);
    LowerUpper(a, b);
    LocalPrefix(s, Mutated(s, move, a, b), Lower(a, b), Upper(a, b), i);
  }

  lemma LocalPrefix(s: seq<Vertex>, r: seq<Vertex>, lo: nat, hi: nat, i: nat)
    requires Local(s, r, lo, hi) && i <= |s| && (i <= lo || i > hi)
    ensures |r| == |s| && Elems(r[..i]) == Elems(s[..i])
  {
    if i <= lo {
      assert r[..i] == r[..lo][..i] && s[..i] == s[..lo][..i];
    } else {
      var k := i - (hi + 1);
      assert r[..i] == r[..lo] + r[lo..hi + 1] + r[hi + 1..][..k];
      assert s[..i] == s[..lo] + s[lo..hi + 1] + s[hi + 1..][..k];
      assert multiset(r[..i]) == multiset(s[..i]);
      SameElements(r[..i], s[..i]);
    }
  }

  lemma MoveKeepsOrdering(g: Graph, s: seq<Vertex>, move: Move, a: nat, b: nat)
    requires IsOrdering(g, s) && a < |s| && b < |s|
    ensures IsOrdering(g, Mutated(s, move, a, b))
  {
    hide *;
    MoveIsLocal(s, move, a, b);
    LowerUpper(a, b);
    LocalPermutation(s, Mutated(s, move, a, b), Lower(a, b), Upper(a, b));
    PermutedOrdering(g, s, Mutated(s, move, a, b));
  }

  lemma LocalPermutation<T>(s: seq<T>, r: seq<T>, lo: nat, hi: nat)
    requires Local(s, r, lo, hi)
    ensures multiset(r) == multiset(s)
  {
    assert r == r[..lo] + r[lo..hi + 1] + r[hi + 1..];
    assert s == s[..lo] + s[lo..hi + 1] + s[hi + 1..];
  }

  lemma PermutedOrdering(g: Graph, s: seq<Vertex>, r: seq<Vertex>)
    requires IsOrdering(g, s) && multiset(r) == multiset(s)
    ensures IsOrdering(g, r)
  {
    var same := (v: Vertex) => v;
    assert DistinctBy(same, s);
    RearrangedDistinct(same, s, r);
    SameElements(r, s);
    assert forall i, j :: 0 <= i < j < |r| ==> same(r[i]) != same(r[j]);
  }

  // ----- what the evaluator maintains -----

  /** Entry i is the cut of the first i + 1 vertices. */
  ghost predicate CutsOf(g: Graph, order: seq<Vertex>, cuts: seq<nat>) {
    |cuts| == |order| && forall i :: 0 <= i < |order| ==> cuts[i] == PrefixCut(g, order, i + 1)
  }

  ghost function PrefixCut(g: Graph, order: seq<Vertex>, i: nat): nat
    requires i <= |order|
  {
    Cut(g, Elems(order[..i]))
  }

  ghost predicate PositionsOf(order: seq<Vertex>, positions: seq<nat>) {
    |positions| == |order| && forall i :: 0 <= i < |order| ==> order[i] < |positions| && positions[order[i]] == i
  }

  /** Positions decide membership in prefixes. */
  lemma PositionsDecide(g: Graph, order: seq<Vertex>, positions: seq<nat>, v: Vertex, i: nat)
    requires IsOrdering(g, order) && PositionsOf(order, positions) && v in Vertices(g) && i <= |order|
    ensures v < |positions| && (positions[v] < i <==> v in Elems(order[..i]))
  {
    PathIsFull(g, order);
    assert v in Elems(order);
    var j :| 0 <= j < |order| && order[j] == v;
    assert positions[order[j]] == j;
    if v in order[..i] {
      var x :| 0 <= x < i && order[x] == v;
      assert positions[order[x]] == x;
    }
    assert j < i ==> order[..i][j] == v;
  }

  method PositionTable(g: Graph, order: seq<Vertex>) returns (positions: seq<nat>)
    requires IsOrdering(g, order)
    ensures PositionsOf(order, positions)
  {
    positions := seq(Size(g), _ => 0);
    for i := 0 to |order|
      invariant |positions| == |order|
      invariant forall j :: 0 <= j < i ==> order[j] < |positions| && positions[order[j]] == j
    {
      assert order[i] in Elems(order);
      positions := positions[order[i] := i];
    }
  }

  /** The neighbours of the vertex at position i that stand before it. */
  method CountBefore(g: Graph, order: seq<Vertex>, positions: seq<nat>, i: nat) returns (before: nat)
    requires IsOrdering(g, order) && PositionsOf(order, positions) && i < |order|
    ensures before == |Neighbours(g, order[i]) * Elems(order[..i])|
  {
    hide *;
    var v := order[i];
    before := 0;
    FoundNone(g, order, i);
    for u := 0 to Size(g)
      invariant before == |FoundBelow(g, order, i, u)|
    {
      InGraph(g, u);
      PositionsDecide(g, order, positions, u, i);
      FoundStep(g, order, i, u);
      if Adjacent(g, v, u) && positions[u] < i {
        before := before + 1;
      }
    }
    FoundAll(g, order, i);
  }

  /** The neighbours below u of the vertex at position i that stand before it. */
  ghost function FoundBelow(g: Graph, order: seq<Vertex>, i: nat, u: nat): set<Vertex>
    requires i < |order|
  {
    set x | x in Below(u) && x in Neighbours(g, order[i]) && x in Elems(order[..i])
  }

  lemma FoundNone(g: Graph, order: seq<Vertex>, i: nat)
    requires i < |order|
    ensures |FoundBelow(g, order, i, 0)| == 0
  {
    assert FoundBelow(g, order, i, 0) == {};
  }

  lemma InGraph(g: Graph, v: Vertex)
    requires v < Size(g)
    ensures v in Vertices(g)
  {
  }

  lemma FoundStep(g: Graph, order: seq<Vertex>, i: nat, u: Vertex)
    requires i < |order|
    ensures |FoundBelow(g, order, i, u + 1)| ==
              |FoundBelow(g, order, i, u)| + if Adjacent(g, order[i], u) && u in Elems(order[..i]) then 1 else 0
  {
    hide Neighbours, Elems;
    BelowStep(u);
    var low, high := FoundBelow(g, order, i, u), FoundBelow(g, order, i, u + 1);
    if Adjacent(g, order[i], u) && u in Elems(order[..i]) {
      assert high == low + {u} && u !in low;
    } else {
      assert high == low;
    }
  }

  lemma FoundAll(g: Graph, order: seq<Vertex>, i: nat)
    requires i < |order|
    ensures FoundBelow(g, order, i, Size(g)) == Neighbours(g, order[i]) * Elems(order[..i])
  {
    forall x | x in Neighbours(g, order[i]) ensures x in Below(Size(g)) {
      NeighbourFacts(g, order[i], x);
    }
  }

  lemma PrefixCutStep(g: Graph, order: seq<Vertex>, i: nat)
    requires Distinct(order) && i < |order|
    ensures PrefixCut(g, order, i + 1) ==
              PrefixCut(g, order, i) + Degree(g, order[i]) - 2 * |Neighbours(g, order[i]) * Elems(order[..i])|
  {
    assert order[..i + 1] == order[..i] + [order[i]] && order[i] !in order[..i];
    ElemsAppend(order[..i], order[i]);
    CutRecurrence(g, Elems(order[..i]), order[i]);
  }

  lemma PrefixCutStart(g: Graph, order: seq<Vertex>)
    ensures PrefixCut(g, order, 0) == 0
  {
    EmptyCut(g);
    assert Elems(order[..0]) == {};
  }

  function Largest(cuts: seq<nat>): (m: nat)
    ensures forall i :: 0 <= i < |cuts| ==> cuts[i] <= m
    ensures m == 0 || m in cuts
  {
    if cuts == [] then 0
    else
      var rest := Largest(cuts[..|cuts| - 1]);
      if cuts[|cuts| - 1] > rest then cuts[|cuts| - 1] else rest
  }

  lemma {:induction false} LargestIsWidth(g: Graph, order: seq<Vertex>, cuts: seq<nat>)
    requires CutsOf(g, order, cuts)
    ensures Largest(cuts) == Width(g, order)
  {
    if order != [] {
      var n := |order| - 1;
      forall i | 0 <= i < n ensures cuts[..n][i] == PrefixCut(g, order[..n], i + 1) {
        assert order[..n][..i + 1] == order[..i + 1];
      }
      LargestIsWidth(g, order[..n], cuts[..n]);
      assert order[..|order|] == order && cuts[n] == PrefixCut(g, order, n + 1);
    }
  }

  ghost predicate CountsOf(cuts: seq<nat>, maximum: nat, histogram: seq<nat>) {
    |histogram| == maximum + 1 && forall c :: 0 <= c <= maximum ==> histogram[c] == multiset(cuts)[c]
  }

  method CountCuts(cuts: seq<nat>, maximum: nat) returns (histogram: seq<nat>)
    requires forall i :: 0 <= i < |cuts| ==> cuts[i] <= maximum
    ensures CountsOf(cuts, maximum, histogram)
  {
    histogram := seq(maximum + 1, _ => 0);
    assert cuts[..0] == [];
    for i := 0 to |cuts|
      invariant CountsOf(cuts[..i], maximum, histogram)
    {
      assert cuts[..i + 1] == cuts[..i] + [cuts[i]];
      histogram := histogram[cuts[i] := histogram[cuts[i]] + 1];
    }
    assert cuts[..|cuts|] == cuts;
  }

  class IncrementalLayoutEvaluator {
    const g: Graph
    var order: seq<Vertex>
    var positions: seq<nat>
    var cuts: seq<nat>
    var histogram: seq<nat>
    var maximum: nat

    /** The order is a permutation, and everything else is what a full evaluation of it gives. */
    ghost predicate Valid()
      reads this
    {
      && IsOrdering(g, order) && PositionsOf(order, positions) && CutsOf(g, order, cuts)
      && maximum == Width(g, order) && CountsOf(cuts, maximum, histogram)
    }

    constructor (g: Graph, ordering: seq<Vertex>)
      requires IsOrdering(g, ordering)
      ensures Valid() && this.g == g && order == ordering
    {
      this.g, order := g, ordering;
      new;
      positions := PositionTable(g, order);
      PrefixCutStart(g, order);
      cuts := Interval(order, positions, seq(|order|, _ => 0), 0, |order|, 0);
      RebuildHistogram();
    }

    /** Recomputes the cuts of positions lo up to hi from the cut before lo. */
    method Interval(candidate: seq<Vertex>, places: seq<nat>, base: seq<nat>, lo: nat, hi: nat, start: nat)
      returns (result: seq<nat>)
      requires IsOrdering(g, candidate) && PositionsOf(candidate, places) && |base| == |candidate|
      requires lo <= hi <= |candidate| && start == PrefixCut(g, candidate, lo)
      ensures |result| == |base|
      ensures forall i :: 0 <= i < |base| ==>
                result[i] == if lo <= i < hi then PrefixCut(g, candidate, i + 1) else base[i]
    {
      hide PositionsOf, PrefixCut, Distinct;
      result := base;
      var crossing := start;
      for at := lo to hi
        invariant |result| == |base| && crossing == PrefixCut(g, candidate, at)
        invariant forall i :: 0 <= i < |base| ==>
                    result[i] == if lo <= i < at then PrefixCut(g, candidate, i + 1) else base[i]
      {
        var vertex := candidate[at];
        var before := CountBefore(g, candidate, places, at);
        PrefixCutStep(g, candidate, at);
        crossing := crossing + Degree(g, vertex) - 2 * before;
        result := result[at := crossing];
      }
    }

    /** The cuts after a move, recomputing only the interval it touches; None stands for an index out of range. */
    method Evaluate(move: Move, a: nat, b: nat) returns (result: Option<seq<nat>>)
      requires Valid()
      ensures result.Some? <==> a < |order| && b < |order|
      ensures result.Some? ==> CutsOf(g, Mutated(order, move, a, b), result.value)
    {
      if a >= |order| || b >= |order| {
        return None;
      }
      hide *;
      var candidate := Mutated(order, move, a, b);
      ValidFacts();
      MoveKeepsOrdering(g, order, move, a, b);
      var lo, hi := Lower(a, b), Upper(a, b);
      LowerUpper(a, b);
      var places := PositionTable(g, candidate);
      UntouchedCut(g, order, move, a, b, lo);
      PrefixCutStart(g, order);
      var found := Interval(candidate, places, cuts, lo, hi + 1, if lo == 0 then 0 else cuts[lo - 1]);
      MovedCuts(g, order, cuts, move, a, b, found);
      return Some(found);
    }

    lemma ValidFacts()
      requires Valid()
      ensures IsOrdering(g, order) && PositionsOf(order, positions) && CutsOf(g, order, cuts) && |cuts| == |order|
      ensures forall i :: 0 <= i < |order| ==> cuts[i] == PrefixCut(g, order, i + 1)
    {
      hide IsOrdering, PositionsOf, PrefixCut, Width, CountsOf;
    }

    method RebuildHistogram()
      requires IsOrdering(g, order) && PositionsOf(order, positions) && CutsOf(g, order, cuts)
      modifies this`maximum, this`histogram
      ensures Valid()
    {
      hide *;
      maximum := Largest(cuts);
      LargestIsWidth(g, order, cuts);
      histogram := CountCuts(cuts, maximum);
      Assembled();
    }

    lemma Assembled()
      requires IsOrdering(g, order) && PositionsOf(order, positions) && CutsOf(g, order, cuts)
      requires maximum == Width(g, order) && CountsOf(cuts, maximum, histogram)
      ensures Valid()
    {
      hide IsOrdering, PositionsOf, CutsOf, Width;
    }

    /** Performs a move; false stands for an index out of range, which changes nothing. */
    method Apply(move: Move, a: nat, b: nat) returns (ok: bool)
      requires Valid()
      modifies this
      ensures Valid() && (ok <==> a < |old(order)| && b < |old(order)|)
      ensures order == if ok then Mutated(old(order), move, a, b) else old(order)
      ensures ok ==>
                match move
                case Swap => Swaps(old(order), order, a, b)
                case Insertion => Inserts(old(order), order, a, b)
                case Reversal => Mirrors(old(order), order, a, b)
    {
      var next := Evaluate(move, a, b);
      if next == None {
        return false;
      }
      hide Mutated, Swaps, Inserts, Mirrors, IsOrdering, CutsOf;
      MoveKeepsOrdering(g, order, move, a, b);
      SwapMoves(order, a, b);
      InsertionMoves(order, a, b);
      ReversalMoves(order, a, b);
      order := Mutated(order, move, a, b);
      cuts := next.value;
      positions := PositionTable(g, order);
      RebuildHistogram();
      return true;
    }
  }

  lemma UntouchedCut(g: Graph, order: seq<Vertex>, move: Move, a: nat, b: nat, i: nat)
    requires a < |order| && b < |order| && i <= |order| && (i <= Lower(a, b) || i > Upper(a, b))
    ensures |Mutated(order, move, a, b)| == |order|
    ensures PrefixCut(g, Mutated(order, move, a, b), i) == PrefixCut(g, order, i)
  {
    PrefixesOutside(order, move, a, b, i);
  }

  /** Recomputed inside the interval and kept outside it, the cuts are those of the moved order. */
  lemma MovedCuts(g: Graph, order: seq<Vertex>, cuts: seq<nat>, move: Move, a: nat, b: nat, found: seq<nat>)
    requires CutsOf(g, order, cuts) && a < |order| && b < |order|
    requires |found| == |cuts| == |order| == |Mutated(order, move, a, b)|
    requires forall i :: 0 <= i < |cuts| ==>
               found[i] == if Lower(a, b) <= i < Upper(a, b) + 1 then PrefixCut(g, Mutated(order, move, a, b), i + 1) else cuts[i]
    ensures CutsOf(g, Mutated(order, move, a, b), found)
  {
    hide Mutated, PrefixCut, Lower, Upper;
    LowerUpper(a, b);
    forall i | 0 <= i < |order| ensures found[i] == PrefixCut(g, Mutated(order, move, a, b), i + 1) {
      if !(Lower(a, b) <= i < Upper(a, b) + 1) {
        UntouchedCut(g, order, move, a, b, i + 1);
      }
    }
  }

  lemma LowerUpper(a: nat, b: nat)
    ensures Lower(a, b) <= a <= Upper(a, b) && Lower(a, b) <= b <= Upper(a, b)
    ensures Lower(a, b) in {a, b} && Upper(a, b) in {a, b}
  {
  }

  datatype Step = Step(move: Move, a: nat, b: nat)

  /** Any run of moves, each within range, refines full evaluation of the moved order. */
  method RunMoves(layout: IncrementalLayoutEvaluator, steps: seq<Step>)
    requires layout.Valid()
    modifies layout
    ensures layout.Valid() && layout.order == AfterMoves(old(layout.order), steps)
  {
    assert steps[..0] == [];
    for i := 0 to |steps|
      invariant layout.Valid() && layout.order == AfterMoves(old(layout.order), steps[..i])
    {
      hide IncrementalLayoutEvaluator.Valid, Mutated;
      assert steps[..i + 1][..i] == steps[..i];
      var ok := layout.Apply(steps[i].move, steps[i].a, steps[i].b);
    }
    assert steps[..|steps|] == steps;
  }

  /** Moves out of range are skipped. */
  ghost function AfterMoves(order: seq<Vertex>, steps: seq<Step>): seq<Vertex> {
    if steps == [] then order
    else
      var before, s := AfterMoves(order, steps[..|steps| - 1]), steps[|steps| - 1];
      if s.a < |before| && s.b < |before| then Mutated(before, s.move, s.a, s.b) else before
  }
}
