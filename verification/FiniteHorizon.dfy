/**
  The finite-horizon oracle: the least cut bound within which a prefix can go on
  for a given number of placements, memoised in a table that overwrites slots on
  collision.
 */
module FiniteHorizons {
  import opened Options
  import opened Graphs
  import opened Feasibility
  import opened Orderings

  const MAXIMUM_DEPTH: nat := 4

  /** From S, d more vertices can be placed (or all that remain) with every cut within k. */
  ghost predicate Bounded(g: Graph, k: nat, S: set<Vertex>, d: nat)
    decreases d
  {
    && Cut(g, S) <= k
    && (d == 0 || S == Vertices(g) || exists v :: v in Vertices(g) - S && Bounded(g, k, S + {v}, d - 1))
  }

  lemma BoundedChild(g: Graph, k: nat, S: set<Vertex>, d: nat) returns (v: Vertex)
    requires Bounded(g, k, S, d) && d > 0 && S != Vertices(g)
    ensures v in Vertices(g) - S && Bounded(g, k, S + {v}, d - 1)
  {
    hide Cut;
    v :| v in Vertices(g) - S && Bounded(g, k, S + {v}, d - 1);
  }

  lemma BoundedParent(g: Graph, k: nat, S: set<Vertex>, d: nat, v: Vertex)
    requires Cut(g, S) <= k && d > 0 && v in Vertices(g) - S && Bounded(g, k, S + {v}, d - 1)
    ensures Bounded(g, k, S, d)
  {
    hide Cut;
  }

  lemma BoundedFacts(g: Graph, k: nat, S: set<Vertex>, d: nat)
    ensures Bounded(g, k, S, d) ==> Cut(g, S) <= k
    ensures d == 0 || S == Vertices(g) ==> (Bounded(g, k, S, d) <==> Cut(g, S) <= k)
  {
    hide Cut;
  }

  /** h is the value of the horizon recurrence: the least threshold for d placements. */
  ghost predicate IsHorizon(g: Graph, S: set<Vertex>, d: nat, h: nat) {
    forall k: nat :: h <= k <==> Bounded(g, k, S, d)
  }

  lemma HorizonUnique(g: Graph, S: set<Vertex>, d: nat, h: nat, h': nat)
    requires IsHorizon(g, S, d, h) && IsHorizon(g, S, d, h')
    ensures h == h'
  {
    assert Bounded(g, h, S, d) && Bounded(g, h', S, d);
  }

  /** A completion within k stays within k for any horizon. */
  lemma {:induction false} FeasibleIsBounded(g: Graph, k: nat, S: set<Vertex>, d: nat)
    requires Feasible(g, k, S)
    ensures Bounded(g, k, S, d)
    decreases d
  {
    hide Cut, Feasible, Bounded;
    FeasibleFacts(g, k, S);
    BoundedFacts(g, k, S, d);
    if d > 0 && S != Vertices(g) {
      var v := FeasibleChild(g, k, S);
      FeasibleIsBounded(g, k, S + {v}, d - 1);
      BoundedParent(g, k, S, d, v);
    }
  }

  /** A horizon that reaches the end is exact. */
  lemma FullHorizonIsExact(g: Graph, k: nat, S: set<Vertex>, d: nat)
    requires S <= Vertices(g) && |Vertices(g) - S| <= d
    ensures Bounded(g, k, S, d) <==> Feasible(g, k, S)
  {
    hide Bounded, Feasible;
    if Feasible(g, k, S) {
      FeasibleIsBounded(g, k, S, d);
    }
    if Bounded(g, k, S, d) {
      BoundedToTheEnd(g, k, S, d);
    }
  }

  lemma {:induction false} BoundedToTheEnd(g: Graph, k: nat, S: set<Vertex>, d: nat)
    requires S <= Vertices(g) && |Vertices(g) - S| <= d && Bounded(g, k, S, d)
    ensures Feasible(g, k, S)
    decreases d
  {
    hide Cut, Feasible, Bounded;
    BoundedFacts(g, k, S, d);
    if S == Vertices(g) {
      FullIsFeasible(g, k);
    } else {
      SomeLeft(Vertices(g), S);
      var v := BoundedChild(g, k, S, d);
      OneFewer(Vertices(g), S, v);
      BoundedToTheEnd(g, k, S + {v}, d - 1);
      FeasibleParent(g, k, S, v);
    }
  }

  lemma SomeLeft(V: set<Vertex>, S: set<Vertex>)
    requires S <= V && S != V
    ensures |V - S| > 0
  {
    var v := AnyOutside(V, S);
  }

  lemma OneFewer(V: set<Vertex>, S: set<Vertex>, v: Vertex)
    requires v in V - S
    ensures |V - (S + {v})| == |V - S| - 1
  {
    assert V - S == (V - (S + {v})) + {v};
  }

  /** Looking less far ahead never raises the value. */
  lemma {:induction false} HorizonMonotone(g: Graph, k: nat, S: set<Vertex>, d: nat, d': nat)
    requires Bounded(g, k, S, d) && d' <= d
    ensures Bounded(g, k, S, d')
    decreases d
  {
    hide Cut, Bounded;
    BoundedFacts(g, k, S, d);
    BoundedFacts(g, k, S, d');
    if d' > 0 && S != Vertices(g) {
      var v := BoundedChild(g, k, S, d);
      HorizonMonotone(g, k, S + {v}, d - 1, d' - 1);
      BoundedParent(g, k, S, d', v);
    }
  }

  /** Values of longer horizons dominate. */
  lemma LongerHorizonDominates(g: Graph, S: set<Vertex>, d: nat, h: nat, d': nat, h': nat)
    requires IsHorizon(g, S, d, h) && IsHorizon(g, S, d', h') && d' <= d
    ensures h' <= h
  {
    HorizonMonotone(g, h, S, d, d');
  }

  /** A horizon value above the threshold refutes the prefix at every smaller threshold. */
  lemma HorizonRefutes(g: Graph, S: set<Vertex>, d: nat, h: nat, k: nat)
    requires IsHorizon(g, S, d, h) && k < h
    ensures !Feasible(g, k, S)
  {
    if Feasible(g, k, S) {
      FeasibleIsBounded(g, k, S, d);
      assert false;
    }
  }

  // ----- the memo -----

  datatype MemoValue = MemoValue(prefix: set<Vertex>, bound: nat, completedDepth: nat, complete: bool)

  /** What is held looks further than the value and bounds no less. */
  predicate Stronger(held: Option<MemoValue>, value: MemoValue) {
    held.Some? && held.value.completedDepth > value.completedDepth && held.value.bound >= value.bound
  }

  ghost predicate SlotOk(g: Graph, slot: Option<MemoValue>) {
    slot.Some? && slot.value.complete ==> IsHorizon(g, slot.value.prefix, slot.value.completedDepth, slot.value.bound)
  }

  /** The slots of shard i: the capacity divided evenly, the first shards taking what is left over. */
  function Share(capacity: nat, count: nat, i: nat): (n: nat)
    requires 0 < count
    ensures count <= capacity ==> n > 0
  {
    PositiveQuotient(capacity, count);
    capacity / count + if i < capacity % count then 1 else 0
  }

  class NodeMemoTable {
    ghost const g: Graph
    const hash: set<Vertex> -> nat
    var shards: seq<seq<Option<MemoValue>>>
    var collisions: nat
    var saturation: nat
    var hits: nat

    /** Every complete entry is an exact value for its own prefix and depth. */
    ghost predicate Valid()
      reads this
    {
      && (forall i :: 0 <= i < |shards| ==> shards[i] != [])
      && forall i, j :: 0 <= i < |shards| && 0 <= j < |shards[i]| ==> SlotOk(g, shards[i][j])
    }

    /** Whether the two prefixes compete for one slot. */
    predicate SharesSlot(a: set<Vertex>, b: set<Vertex>)
      requires forall i :: 0 <= i < |shards| ==> shards[i] != []
      reads this
    {
      shards != [] && hash(a) % |shards| == hash(b) % |shards| &&
      var slots := |shards[hash(a) % |shards|]|; hash(a) % slots == hash(b) % slots
    }

    /** What the table holds for this prefix, if its slot has not gone to another one. */
    ghost function Retained(key: set<Vertex>): (r: Option<MemoValue>)
      requires forall i :: 0 <= i < |shards| ==> shards[i] != []
      reads this
      ensures r.Some? ==> r.value.prefix == key
    {
      if shards == [] then None
      else
        var slots := shards[hash(key) % |shards|];
        var slot := slots[hash(key) % |slots|];
        if slot.Some? && slot.value.prefix == key then slot else None
    }

    /** Splits the capacity over the shards; without room for a slot there is no shard. */
    constructor (g: Graph, hash: set<Vertex> -> nat, capacity: nat, shardCount: nat)
      requires shardCount > 0
      ensures Valid() && this.g == g
      ensures |shards| == if capacity < shardCount then capacity else shardCount
      ensures forall i :: 0 <= i < |shards| ==> |shards[i]| == Share(capacity, |shards|, i)
      ensures forall key :: Retained(key) == None
    {
      this.g, this.hash := g, hash;
      var count := if capacity < shardCount then capacity else shardCount;
      shards := if count == 0 then []
                else seq(count, i requires 0 <= i < count => seq(Share(capacity, count, i), _ => None));
      collisions, saturation, hits := 0, 0, 0;
      new;
      hide Share;
    }

    /** Only an exact match of prefix and depth is returned. */
    method Find(prefix: set<Vertex>, depth: nat) returns (found: Option<MemoValue>)
      requires Valid()
      modifies this`collisions, this`hits
      ensures Valid()
      ensures found.Some? ==>
                && found == Retained(prefix) && found.value.completedDepth == depth
                && IsHorizon(g, prefix, depth, found.value.bound)
      ensures found.None? && depth <= MAXIMUM_DEPTH && Retained(prefix).Some? ==>
                !Retained(prefix).value.complete || Retained(prefix).value.completedDepth != depth
    {
      if shards == [] || depth > MAXIMUM_DEPTH {
        return None;
      }
      var i := hash(prefix) % |shards|;
      var slot := shards[i][hash(prefix) % |shards[i]|];
      if slot == None {
        return None;
      }
      if slot.value.prefix != prefix {
        collisions := collisions + 1;
        return None;
      }
      if !slot.value.complete || slot.value.completedDepth != depth {
        return None;
      }
      hits := hits + 1;
      return slot;
    }

    /** Stores a value, over another prefix or over one of the same prefix that it does not fall short of. */
    method Store(value: MemoValue)
      requires Valid() && SlotOk(g, Some(value))
      modifies this`shards, this`collisions, this`saturation
      ensures Valid() && |shards| == |old(shards)|
      ensures shards != [] ==>
                Retained(value.prefix) == if old(Stronger(Retained(value.prefix), value))
                                          then old(Retained(value.prefix)) else Some(value)
      ensures forall key :: key != value.prefix && !old(SharesSlot(key, value.prefix)) ==> Retained(key) == old(Retained(key))
      ensures forall key :: key != value.prefix && old(SharesSlot(key, value.prefix)) ==> Retained(key) == None
    {
      if shards == [] {
        saturation := saturation + 1;
        return;
      }
      var i := hash(value.prefix) % |shards|;
      var j := hash(value.prefix) % |shards[i]|;
      var slot := shards[i][j];
      if slot.Some? && slot.value.prefix != value.prefix {
        collisions, saturation := collisions + 1, saturation + 1;
      }
      if slot == None || slot.value.prefix != value.prefix ||
         value.completedDepth >= slot.value.completedDepth || value.bound > slot.value.bound {
        shards := shards[i := shards[i][j := Some(value)]];
      }
    }
  }

  lemma PositiveQuotient(x: nat, y: nat)
    requires 0 < y
    ensures y <= x ==> x / y > 0
  {
  }

  // ----- the oracle -----

  datatype NodeOracleResult = NodeOracleResult(bound: nat, complete: bool, completedDepth: nat)

  /** Some child below n is bounded by k. */
  ghost predicate ChildBounded(g: Graph, k: nat, S: set<Vertex>, d: nat, n: nat) {
    exists v :: v in Below(n) - S && Bounded(g, k, S + {v}, d)
  }

  /** `minimum` is the least horizon value among the children below n; None when there is none. */
  ghost predicate ChildrenBelow(g: Graph, S: set<Vertex>, d: nat, n: nat, minimum: Option<nat>) {
    forall k: nat :: (minimum.Some? && minimum.value <= k) <==> ChildBounded(g, k, S, d, n)
  }

  lemma ChildBoundedStep(g: Graph, k: nat, S: set<Vertex>, d: nat, v: Vertex)
    ensures ChildBounded(g, k, S, d, v + 1) <==>
              ChildBounded(g, k, S, d, v) || (v !in S && Bounded(g, k, S + {v}, d))
  {
    hide Bounded;
    BelowStep(v);
    if ChildBounded(g, k, S, d, v) {
      var u :| u in Below(v) - S && Bounded(g, k, S + {u}, d);
      assert u in Below(v + 1) - S;
    }
    if v !in S && Bounded(g, k, S + {v}, d) {
      assert v in Below(v + 1) - S;
    }
  }

  lemma NextChild(g: Graph, S: set<Vertex>, d: nat, v: Vertex, minimum: Option<nat>, h: nat)
    requires ChildrenBelow(g, S, d, v, minimum) && v !in S && IsHorizon(g, S + {v}, d, h)
    ensures ChildrenBelow(g, S, d, v + 1, Some(if minimum.Some? && minimum.value <= h then minimum.value else h))
  {
    hide Bounded, ChildBounded;
    var least := if minimum.Some? && minimum.value <= h then minimum.value else h;
    var n := v + 1;
    forall k: nat ensures least <= k <==> ChildBounded(g, k, S, d, n) {
      ChildBoundedStep(g, k, S, d, v);
      assert h <= k <==> Bounded(g, k, S + {v}, d);
    }
  }

  lemma SkipChild(g: Graph, S: set<Vertex>, d: nat, v: Vertex, minimum: Option<nat>)
    requires ChildrenBelow(g, S, d, v, minimum) && v in S
    ensures ChildrenBelow(g, S, d, v + 1, minimum)
  {
    hide Bounded, ChildBounded;
    var n := v + 1;
    forall k: nat ensures ChildBounded(g, k, S, d, n) <==> ChildBounded(g, k, S, d, v) {
      ChildBoundedStep(g, k, S, d, v);
    }
  }

  /** The recurrence: the larger of the cut and the least child value. */
  lemma Recurrence(g: Graph, S: set<Vertex>, d: nat, minimum: Option<nat>, cut: nat)
    requires S <= Vertices(g) && S != Vertices(g) && d > 0 && cut == Cut(g, S)
    requires ChildrenBelow(g, S, d - 1, Size(g), minimum)
    ensures minimum.Some? && IsHorizon(g, S, d, if cut > minimum.value then cut else minimum.value)
  {
    hide Bounded, ChildBounded, Cut;
    SomeChildBounded(g, S, d - 1);
    forall k: nat ensures Bounded(g, k, S, d) <==> cut <= k && ChildBounded(g, k, S, d - 1, Size(g)) {
      RecurrenceHolds(g, k, S, d);
    }
  }

  lemma RecurrenceHolds(g: Graph, k: nat, S: set<Vertex>, d: nat)
    requires S != Vertices(g) && d > 0
    ensures Bounded(g, k, S, d) <==> Cut(g, S) <= k && ChildBounded(g, k, S, d - 1, Size(g))
  {
    hide Cut;
    assert Below(Size(g)) == Vertices(g);
  }

  lemma SomeChildBounded(g: Graph, S: set<Vertex>, d: nat)
    requires S <= Vertices(g) && S != Vertices(g)
    ensures exists k: nat :: ChildBounded(g, k, S, d, Size(g))
  {
    hide Bounded, Cut;
    var v := AnyOutside(Vertices(g), S);
    BoundedEventually(g, S + {v}, d);
    var k: nat :| Bounded(g, k, S + {v}, d);
    assert v in Below(Size(g)) - S;
    assert ChildBounded(g, k, S, d, Size(g));
  }

  lemma AnyOutside(V: set<Vertex>, S: set<Vertex>) returns (v: Vertex)
    requires S <= V && S != V
    ensures v in V - S
  {
    assert V - S != {} by {
      assert V == (V - S) + S;
    }
    v :| v in V - S;
  }

  lemma {:induction false} BoundedEventually(g: Graph, S: set<Vertex>, d: nat)
    requires S <= Vertices(g)
    ensures exists k: nat :: Bounded(g, k, S, d)
    decreases d
  {
    hide Cut, Bounded;
    if d == 0 || S == Vertices(g) {
      BoundedFacts(g, Cut(g, S), S, d);
    } else {
      var v := AnyOutside(Vertices(g), S);
      BoundedEventually(g, S + {v}, d - 1);
      var k: nat :| Bounded(g, k, S + {v}, d - 1);
      var top := if Cut(g, S) > k then Cut(g, S) else k;
      BoundedGrows(g, k, top, S + {v}, d - 1);
      BoundedParent(g, top, S, d, v);
    }
  }

  lemma {:induction false} BoundedGrows(g: Graph, k: nat, k': nat, S: set<Vertex>, d: nat)
    requires Bounded(g, k, S, d) && k <= k'
    ensures Bounded(g, k', S, d)
    decreases d
  {
    hide Cut, Bounded;
    BoundedFacts(g, k, S, d);
    BoundedFacts(g, k', S, d);
    if d > 0 && S != Vertices(g) {
      var v := BoundedChild(g, k, S, d);
      BoundedGrows(g, k, k', S + {v}, d - 1);
      BoundedParent(g, k', S, d, v);
    }
  }

  class FiniteHorizonOracle {
    const g: Graph
    const memo: NodeMemoTable

    ghost predicate Valid()
      reads memo
    {
      memo.g == g && memo.Valid()
    }

    constructor (g: Graph, memo: NodeMemoTable)
      requires memo.g == g && memo.Valid()
      ensures Valid() && this.g == g && this.memo == memo
    {
      this.g, this.memo := g, memo;
    }

    /** A table with any room holds the horizon of the prefix, for this depth or a larger one. */
    ghost predicate Remembered(prefix: set<Vertex>, depth: nat)
      requires memo.Valid()
      reads memo
    {
      memo.shards != [] ==> memo.Retained(prefix).Some? && memo.Retained(prefix).value.completedDepth >= depth
    }

    /** None stands for the exceptions on a depth or prefix out of range. */
    method Evaluate(prefix: set<Vertex>, depth: nat, limited: bool) returns (r: Option<NodeOracleResult>)
      requires Valid()
      modifies memo
      ensures Valid()
      ensures r == None <==> depth > 4 || !(prefix <= Vertices(g))
      ensures r.Some? && r.value.complete ==> r.value.completedDepth == depth && IsHorizon(g, prefix, depth, r.value.bound)
      ensures r.Some? && !r.value.complete ==> limited && r.value.bound == Cut(g, prefix)
      ensures r.Some? && r.value.complete ==> Remembered(prefix, depth)
    {
      if depth > MAXIMUM_DEPTH || !(prefix <= Vertices(g)) {
        return None;
      }
      var result := Compute(prefix, depth, limited);
      return Some(result);
    }

    /** The stop flag or the deadline may be seen at any moment, if either was given. */
    method Interrupted(limited: bool) returns (stop: bool)
      ensures stop ==> limited
    {
      if !limited {
        return false;
      }
      stop := *;
    }

    /** The recurrence of one prefix; only an interruption leaves it incomplete. */
    method Compute(prefix: set<Vertex>, depth: nat, limited: bool) returns (r: NodeOracleResult)
      requires Valid() && depth <= MAXIMUM_DEPTH && prefix <= Vertices(g)
      modifies memo
      ensures Valid()
      ensures r.complete ==> r.completedDepth == depth && IsHorizon(g, prefix, depth, r.bound)
      ensures !r.complete ==> limited && r.bound == Cut(g, prefix)
      ensures r.complete ==> Remembered(prefix, depth)
      decreases depth
    {
      hide Bounded, NodeMemoTable.Valid, IsHorizon, Cut, ChildrenBelow;
      var cached := memo.Find(prefix, depth);
      if cached.Some? {
        return NodeOracleResult(cached.value.bound, true, depth);
      }
      var cut := CutOf(g, prefix);
      if depth == 0 || prefix == Vertices(g) {
        EndHorizon(g, prefix, depth);
        memo.Store(MemoValue(prefix, cut, depth, true));
        return NodeOracleResult(cut, true, depth);
      }
      var stop := Interrupted(limited);
      if stop {
        return NodeOracleResult(cut, false, 0);
      }
      var minimum: Option<nat> := None;
      NoChildren(g, prefix, depth - 1);
      for v := 0 to Size(g)
        invariant Valid() && ChildrenBelow(g, prefix, depth - 1, v, minimum)
      {
        if v in prefix {
          SkipChild(g, prefix, depth - 1, v, minimum);
          continue;
        }
        stop := Interrupted(limited);
        if stop {
          return NodeOracleResult(cut, false, 0);
        }
        var child := Compute(prefix + {v}, depth - 1, limited);
        if !child.complete {
          return NodeOracleResult(cut, false, 0);
        }
        NextChild(g, prefix, depth - 1, v, minimum, child.bound);
        minimum := Some(if minimum.Some? && minimum.value <= child.bound then minimum.value else child.bound);
      }
      Recurrence(g, prefix, depth, minimum, cut);
      var value := if cut > minimum.value then cut else minimum.value;
      memo.Store(MemoValue(prefix, value, depth, true));
      return NodeOracleResult(value, true, depth);
    }
  }

  lemma NoChildren(g: Graph, S: set<Vertex>, d: nat)
    ensures ChildrenBelow(g, S, d, 0, None)
  {
  }

  lemma EndHorizon(g: Graph, S: set<Vertex>, d: nat)
    requires d == 0 || S == Vertices(g)
    ensures IsHorizon(g, S, d, Cut(g, S))
  {
  }

  /** Complete or not, the bound never exceeds the best completion. */
  lemma ResultIsLowerBound(g: Graph, k: nat, S: set<Vertex>, d: nat, r: NodeOracleResult)
    requires r.complete ==> IsHorizon(g, S, d, r.bound)
    requires !r.complete ==> r.bound == Cut(g, S)
    requires Feasible(g, k, S)
    ensures r.bound <= k
  {
    FeasibleIsBounded(g, k, S, d);
  }
}
