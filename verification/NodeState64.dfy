/**
  The node state of the word search: placed and unplaced neighbour counts, a residual
  histogram and gain buckets, moved by pushes and moved back by pops.
 */
module ReversibleNodeStates {
  import opened Options
  import opened Graphs
  import opened Feasibility
  import opened NodeStates

  /** The vertices placed when the counts of v were last moved: its own prefix once it is placed. */
  ghost function Seen(base: set<Vertex>, pushed: seq<Vertex>, v: Vertex): set<Vertex> {
    if v in base then base else base + Earlier(pushed, v)
  }

  ghost predicate Split(g: Graph, base: set<Vertex>, pushed: seq<Vertex>, before: seq<nat>, residual: seq<nat>) {
    && |before| == |residual| == Size(g)
    && forall v :: 0 <= v < Size(g) ==>
         && before[v] == |Neighbours(g, v) * Seen(base, pushed, v)|
         && residual[v] == |Neighbours(g, v) - Seen(base, pushed, v)|
  }

  /** Entry d counts the members of X whose residual degree is d. */
  ghost predicate Counted(g: Graph, X: set<Vertex>, residual: seq<nat>, histogram: seq<nat>) {
    && |histogram| == Size(g) + 1
    && forall d :: 0 <= d <= Size(g) ==> histogram[d] == Values(X, residual)[d]
  }

  ghost predicate Narrow(g: Graph, before: seq<nat>, residual: seq<nat>) {
    && |before| == |residual| == Size(g)
    && forall v :: 0 <= v < Size(g) ==> before[v] <= Size(g) && residual[v] <= Size(g)
  }

  function GainIndex(g: Graph, before: seq<nat>, residual: seq<nat>, v: Vertex): int
    requires |before| == |residual| == Size(g) && v < Size(g)
  {
    residual[v] - before[v] + Size(g)
  }

  /** Bucket i holds exactly the members of X whose placement raises the cut by i - n. */
  ghost predicate Bucketed(g: Graph, X: set<Vertex>, before: seq<nat>, residual: seq<nat>, buckets: seq<set<Vertex>>)
    requires |before| == |residual| == Size(g)
  {
    && |buckets| == 2 * Size(g) + 1
    && forall i, v :: 0 <= i < |buckets| && 0 <= v < Size(g) ==>
         (v in buckets[i] <==> v in X && GainIndex(g, before, residual, v) == i)
  }

  ghost predicate OnlyVertices(g: Graph, buckets: seq<set<Vertex>>) {
    forall i :: 0 <= i < |buckets| ==> buckets[i] <= Vertices(g)
  }

  /** The values as one: everything the state derives from its counts. */
  ghost predicate Derived(g: Graph, X: set<Vertex>, before: seq<nat>, residual: seq<nat>, histogram: seq<nat>,
                          buckets: seq<set<Vertex>>) {
    && Narrow(g, before, residual) && Counted(g, X, residual, histogram)
    && Bucketed(g, X, before, residual, buckets) && OnlyVertices(g, buckets)
  }

  lemma SplitIsNarrow(g: Graph, base: set<Vertex>, pushed: seq<Vertex>, before: seq<nat>, residual: seq<nat>)
    requires Split(g, base, pushed, before, residual)
    ensures Narrow(g, before, residual)
  {
    forall v | 0 <= v < Size(g) ensures before[v] <= Size(g) && residual[v] <= Size(g) {
      var N, E := Neighbours(g, v), Seen(base, pushed, v);
      forall u | u in N ensures u in Vertices(g) {
        NeighbourFacts(g, v, u);
      }
      SubsetSize(N * E, Vertices(g));
      SubsetSize(N - E, Vertices(g));
    }
  }

  /** The state is a function of the prefix it started from and the placements since. */
  lemma StateUnique(g: Graph, base: set<Vertex>, pushed: seq<Vertex>, X: set<Vertex>,
                    before: seq<nat>, residual: seq<nat>, histogram: seq<nat>, buckets: seq<set<Vertex>>,
                    before': seq<nat>, residual': seq<nat>, histogram': seq<nat>, buckets': seq<set<Vertex>>)
    requires Split(g, base, pushed, before, residual) && Derived(g, X, before, residual, histogram, buckets)
    requires Split(g, base, pushed, before', residual') && Derived(g, X, before', residual', histogram', buckets')
    ensures before == before' && residual == residual' && histogram == histogram' && buckets == buckets'
  {
    assert before == before' && residual == residual';
    assert histogram == histogram';
    forall i: nat | i < |buckets| ensures buckets[i] == buckets'[i] {
      BucketMembers(g, X, before, residual, buckets, i);
      BucketMembers(g, X, before, residual, buckets', i);
    }
  }

  lemma BucketMembers(g: Graph, X: set<Vertex>, before: seq<nat>, residual: seq<nat>, buckets: seq<set<Vertex>>, i: nat)
    requires |before| == |residual| == Size(g) && Bucketed(g, X, before, residual, buckets)
    requires OnlyVertices(g, buckets) && i < |buckets|
    ensures buckets[i] == set v | v in Vertices(g) && v in X && GainIndex(g, before, residual, v) == i
  {
    assert buckets[i] <= Vertices(g);
  }

  // ---- One vertex ----

  function Lowered(histogram: seq<nat>, d: nat): seq<nat>
    requires d < |histogram| && histogram[d] > 0
  {
    histogram[d := histogram[d] - 1]
  }

  function Raised(histogram: seq<nat>, d: nat): seq<nat>
    requires d < |histogram|
  {
    histogram[d := histogram[d] + 1]
  }

  lemma TakenOut(g: Graph, X: set<Vertex>, before: seq<nat>, residual: seq<nat>, histogram: seq<nat>,
                 buckets: seq<set<Vertex>>, v: Vertex)
    requires Derived(g, X, before, residual, histogram, buckets) && v in X && v < Size(g)
    ensures residual[v] < |histogram| && histogram[residual[v]] > 0
    ensures 0 <= GainIndex(g, before, residual, v) < |buckets|
    ensures var i := GainIndex(g, before, residual, v);
            Derived(g, X - {v}, before, residual, Lowered(histogram, residual[v]), buckets[i := buckets[i] - {v}])
  {
    hide ValuesBelow;
    ValuesRemove(X, residual, v, |residual|);
  }

  lemma PutIn(g: Graph, X: set<Vertex>, before: seq<nat>, residual: seq<nat>, histogram: seq<nat>,
              buckets: seq<set<Vertex>>, v: Vertex)
    requires Derived(g, X, before, residual, histogram, buckets) && v !in X && v in Vertices(g)
    ensures residual[v] < |histogram| && 0 <= GainIndex(g, before, residual, v) < |buckets|
    ensures var i := GainIndex(g, before, residual, v);
            Derived(g, X + {v}, before, residual, Raised(histogram, residual[v]), buckets[i := buckets[i] + {v}])
  {
    hide Bucketed, Counted, OnlyVertices, ValuesBelow;
    HistogramFits(g, X, residual, histogram);
    PutInHistogram(g, X, residual, histogram, v);
    PutInBucket(g, X, before, residual, buckets, v);
  }

  lemma HistogramFits(g: Graph, X: set<Vertex>, residual: seq<nat>, histogram: seq<nat>)
    requires Counted(g, X, residual, histogram)
    ensures |histogram| == Size(g) + 1
  {
  }

  lemma PutInBucket(g: Graph, X: set<Vertex>, before: seq<nat>, residual: seq<nat>, buckets: seq<set<Vertex>>, v: Vertex)
    requires |before| == |residual| == Size(g) && v in Vertices(g) && v !in X
    requires Bucketed(g, X, before, residual, buckets) && OnlyVertices(g, buckets)
    requires before[v] <= Size(g) && residual[v] <= Size(g)
    ensures 0 <= GainIndex(g, before, residual, v) < |buckets|
    ensures var i := GainIndex(g, before, residual, v);
            var after := buckets[i := buckets[i] + {v}];
            Bucketed(g, X + {v}, before, residual, after) && OnlyVertices(g, after)
  {
  }

  lemma PutInHistogram(g: Graph, X: set<Vertex>, residual: seq<nat>, histogram: seq<nat>, v: Vertex)
    requires |residual| == Size(g) && Counted(g, X, residual, histogram) && v !in X && v < Size(g)
    requires residual[v] < |histogram|
    ensures Counted(g, X + {v}, residual, Raised(histogram, residual[v]))
  {
    hide ValuesBelow;
    assert X + {v} - {v} == X;
    ValuesRemove(X + {v}, residual, v, |residual|);
  }

  /** The counts of a vertex outside X do not matter. */
  lemma CountsReplaced(g: Graph, X: set<Vertex>, before: seq<nat>, residual: seq<nat>, histogram: seq<nat>,
                       buckets: seq<set<Vertex>>, v: Vertex, b: nat, r: nat)
    requires Derived(g, X, before, residual, histogram, buckets) && v !in X && v < Size(g)
    requires b <= Size(g) && r <= Size(g)
    ensures Derived(g, X, before[v := b], residual[v := r], histogram, buckets)
  {
    hide ValuesBelow;
    ValuesRest(X, residual, residual[v := r], v, |residual|);
  }

  // ---- One placement ----

  lemma SeenStep(base: set<Vertex>, pushed: seq<Vertex>, w: Vertex, v: Vertex)
    requires w !in base && w !in pushed
    ensures v in base || v in pushed || v == w ==> Seen(base, pushed + [w], v) == Seen(base, pushed, v)
    ensures v !in base && v !in pushed ==>
      && Seen(base, pushed, v) == base + Elems(pushed)
      && (v != w ==> Seen(base, pushed + [w], v) == base + Elems(pushed) + {w})
  {
    EarlierAppend(pushed, w, v);
    if v !in pushed {
      EarlierUnplaced(pushed, v);
    }
    hide Earlier;
    assert base + (Elems(pushed) + {w}) == base + Elems(pushed) + {w};
  }

  /** Placing w moves the two counts of each vertex against each other. */
  lemma PlacementSplits(g: Graph, base: set<Vertex>, pushed: seq<Vertex>, w: Vertex, v: Vertex)
    requires w in Vertices(g) && v in Vertices(g) && w !in base && w !in pushed
    ensures var N, t := Neighbours(g, v), if Touched(g, base + Elems(pushed) + {w}, w, Size(g), v) then 1 else 0;
            && |N * Seen(base, pushed + [w], v)| == |N * Seen(base, pushed, v)| + t
            && |N - Seen(base, pushed, v)| == |N - Seen(base, pushed + [w], v)| + t
  {
    hide Seen, Cut;
    SeenStep(base, pushed, w, v);
    var N, E := Neighbours(g, v), base + Elems(pushed);
    if v !in E && v != w {
      SetStep(N, E, w);
      if w in N { NeighbourFacts(g, v, w); }
      if v in Neighbours(g, w) { NeighbourFacts(g, w, v); }
    }
  }

  /** Pushing w and popping it again are the two directions of one equivalence. */
  lemma PlacementSplitsAll(g: Graph, base: set<Vertex>, pushed: seq<Vertex>, w: Vertex,
                           low: seq<nat>, high: seq<nat>, less: seq<nat>, more: seq<nat>)
    requires w in Vertices(g) && w !in base && w !in pushed
    requires CountsMoved(g, base + Elems(pushed) + {w}, w, Size(g), low, high)
    requires CountsMoved(g, base + Elems(pushed) + {w}, w, Size(g), less, more)
    ensures Split(g, base, pushed, low, more) <==> Split(g, base, pushed + [w], high, less)
  {
    hide Touched, Seen;
    forall v | 0 <= v < Size(g)
      ensures low[v] == |Neighbours(g, v) * Seen(base, pushed, v)| <==>
              high[v] == |Neighbours(g, v) * Seen(base, pushed + [w], v)|
      ensures more[v] == |Neighbours(g, v) - Seen(base, pushed, v)| <==>
              less[v] == |Neighbours(g, v) - Seen(base, pushed + [w], v)|
    {
      PlacementSplits(g, base, pushed, w, v);
    }
  }

  /** A vertex is not its own neighbour, so it does not matter whether w counts as placed. */
  lemma MovedEitherWay(g: Graph, placed: set<Vertex>, w: Vertex, low: seq<nat>, high: seq<nat>)
    ensures CountsMoved(g, placed, w, Size(g), low, high) <==> CountsMoved(g, placed + {w}, w, Size(g), low, high)
  {
    if w in Neighbours(g, w) { NeighbourFacts(g, w, w); }
    assert forall v: Vertex :: Touched(g, placed, w, Size(g), v) <==> Touched(g, placed + {w}, w, Size(g), v);
  }

  /** An unplaced neighbour of an unplaced vertex has room to count it. */
  lemma RoomToPush(g: Graph, base: set<Vertex>, pushed: seq<Vertex>, before: seq<nat>, residual: seq<nat>, w: Vertex, v: Vertex)
    requires Split(g, base, pushed, before, residual) && w !in base && w !in pushed
    requires v in Neighbours(g, w) && v !in base && v !in pushed
    ensures v < Size(g) && residual[v] > 0 && before[v] < Size(g)
  {
    NeighbourFacts(g, w, v);
    SeenStep(base, pushed, w, v);
    CountsOf(g, base, pushed, v);
    hide Seen;
    assert w in Neighbours(g, v) - Seen(base, pushed, v);
  }

  /** An unplaced neighbour of the last vertex has counted it. */
  lemma RoomToPop(g: Graph, base: set<Vertex>, pushed: seq<Vertex>, before: seq<nat>, residual: seq<nat>, w: Vertex, v: Vertex)
    requires Split(g, base, pushed + [w], before, residual) && w !in base && w !in pushed
    requires v in Neighbours(g, w) && v !in base && v !in pushed
    ensures v < Size(g) && before[v] > 0 && residual[v] < Size(g)
  {
    NeighbourFacts(g, w, v);
    SeenStep(base, pushed, w, v);
    CountsOf(g, base, pushed + [w], v);
    hide Seen;
    assert w in Neighbours(g, v) * Seen(base, pushed + [w], v);
  }

  lemma CountsOf(g: Graph, base: set<Vertex>, pushed: seq<Vertex>, v: Vertex)
    ensures |Neighbours(g, v) * Seen(base, pushed, v)| + |Neighbours(g, v) - Seen(base, pushed, v)| <= Size(g)
  {
    var N, E := Neighbours(g, v), Seen(base, pushed, v);
    assert N == (N * E) + (N - E);
    forall u | u in N ensures u in Vertices(g) {
      NeighbourFacts(g, v, u);
    }
    SubsetSize(N, Vertices(g));
  }

  lemma CountsWithin(g: Graph, prefix: set<Vertex>, v: Vertex)
    ensures |Neighbours(g, v) * prefix| <= Size(g) && |Neighbours(g, v) - prefix| <= Size(g)
  {
    forall u | u in Neighbours(g, v) ensures u in Vertices(g) {
      NeighbourFacts(g, v, u);
    }
    SubsetSize(Neighbours(g, v) * prefix, Vertices(g));
    SubsetSize(Neighbours(g, v) - prefix, Vertices(g));
  }

  lemma NothingFiled(g: Graph, before: seq<nat>, residual: seq<nat>, histogram: seq<nat>, buckets: seq<set<Vertex>>)
    requires before == seq(Size(g), _ => 0) && residual == before && histogram == seq(Size(g) + 1, _ => 0)
    requires buckets == seq(2 * Size(g) + 1, _ => {})
    ensures Derived(g, {}, before, residual, histogram, buckets)
  {
    NoValues(residual, |residual|);
  }

  lemma {:induction false} NoValues(values: seq<int>, n: nat)
    requires n <= |values|
    ensures ValuesBelow({}, values, n) == multiset{}
  {
    if n > 0 {
      NoValues(values, n - 1);
    }
  }

  ghost predicate CountedBelow(g: Graph, base: set<Vertex>, before: seq<nat>, residual: seq<nat>, n: nat) {
    && |before| == |residual| == Size(g)
    && forall v :: 0 <= v < n && v < Size(g) ==>
         before[v] == |Neighbours(g, v) * base| && residual[v] == |Neighbours(g, v) - base|
  }

  lemma LoadFacts(g: Graph, prefix: set<Vertex>, before: seq<nat>, residual: seq<nat>, v: Vertex, b: nat, r: nat)
    requires v in Vertices(g) && CountedBelow(g, prefix, before, residual, v)
    requires b == |Neighbours(g, v) * prefix| && r == |Neighbours(g, v) - prefix|
    ensures v < Size(g) == |before| == |residual| && b <= Size(g) && r <= Size(g)
    ensures v !in Below(v) - prefix
    ensures Below(v + 1) - prefix == if v in prefix then Below(v) - prefix else Below(v) - prefix + {v}
    ensures CountedBelow(g, prefix, before[v := b], residual[v := r], v + 1)
  {
    hide Below, Neighbours;
    BelowStep(v);
    BelowWithout(prefix, v);
    CountsWithin(g, prefix, v);
  }

  lemma BelowWithout(prefix: set<Vertex>, v: Vertex)
    ensures v !in Below(v) - prefix
    ensures Below(v + 1) - prefix == if v in prefix then Below(v) - prefix else Below(v) - prefix + {v}
  {
    hide Below;
    BelowStep(v);
  }

  lemma BaseIsSplit(g: Graph, base: set<Vertex>, before: seq<nat>, residual: seq<nat>)
    requires CountedBelow(g, base, before, residual, Size(g))
    ensures Split(g, base, [], before, residual)
  {
    forall v: Vertex ensures Seen(base, [], v) == base {
      assert base + {} == base;
    }
  }

  lemma LastIsNew(rest: seq<Vertex>, vertex: Vertex)
    requires Distinct(rest + [vertex])
    ensures vertex !in rest && Distinct(rest)
  {
    var all := rest + [vertex];
    assert all[|rest|] == vertex && forall i :: 0 <= i < |rest| ==> all[i] == rest[i];
  }

  /** The counts of an unplaced vertex are those of the whole prefix. */
  lemma UnplacedCounts(g: Graph, base: set<Vertex>, pushed: seq<Vertex>, before: seq<nat>, residual: seq<nat>, v: Vertex)
    requires Split(g, base, pushed, before, residual) && v < Size(g) && v !in base && v !in pushed
    ensures before[v] == |Neighbours(g, v) * (base + Elems(pushed))|
    ensures residual[v] == |Neighbours(g, v) - (base + Elems(pushed))|
  {
    EarlierUnplaced(pushed, v);
  }

  /** Counting w up turns the counts of the shorter prefix into those of the longer, and counting down back. */
  lemma Pushed(g: Graph, base: set<Vertex>, pushed: seq<Vertex>, prefix: set<Vertex>, w: Vertex,
               low: seq<nat>, high: seq<nat>, less: seq<nat>, more: seq<nat>)
    requires Consistent(g, base, pushed, prefix) && w in Vertices(g) - prefix
    requires CountsMoved(g, prefix, w, Size(g), low, high) && CountsMoved(g, prefix, w, Size(g), less, more)
    ensures Split(g, base, pushed, low, more) <==> Split(g, base, pushed + [w], high, less)
  {
    hide Split, CountsMoved;
    MovedEitherWay(g, prefix, w, low, high);
    MovedEitherWay(g, prefix, w, less, more);
    PlacementSplitsAll(g, base, pushed, w, low, high, less, more);
  }

  lemma LongerIsConsistent(g: Graph, base: set<Vertex>, pushed: seq<Vertex>, prefix: set<Vertex>, w: Vertex)
    requires Consistent(g, base, pushed, prefix) && w in Vertices(g) - prefix
    ensures Consistent(g, base, pushed + [w], prefix + {w})
  {
    ElemsAppend(pushed, w);
  }

  lemma PushHasRoom(g: Graph, base: set<Vertex>, pushed: seq<Vertex>, prefix: set<Vertex>, before: seq<nat>,
                    residual: seq<nat>, w: Vertex, Y: set<Vertex>)
    requires Consistent(g, base, pushed, prefix) && w in Vertices(g) - prefix && Y == Vertices(g) - prefix - {w}
    requires Split(g, base, pushed, before, residual)
    ensures RoomAbove(g, prefix, w, Y, before, residual)
  {
    hide Seen, Distinct, Below;
    forall v: Vertex | Touched(g, prefix, w, Size(g), v)
      ensures v in Y && residual[v] > 0 && before[v] < Size(g)
    {
      RoomToPush(g, base, pushed, before, residual, w, v);
      NeighbourFacts(g, w, v);
    }
  }

  ghost predicate RoomAbove(g: Graph, placed: set<Vertex>, w: Vertex, X: set<Vertex>, before: seq<nat>, residual: seq<nat>) {
    && |before| == |residual| == Size(g)
    && forall v: Vertex :: Touched(g, placed, w, Size(g), v) ==> v in X && residual[v] > 0 && before[v] < Size(g)
  }

  ghost predicate RoomBelow(g: Graph, placed: set<Vertex>, w: Vertex, X: set<Vertex>, before: seq<nat>, residual: seq<nat>) {
    && |before| == |residual| == Size(g)
    && forall v: Vertex :: Touched(g, placed, w, Size(g), v) ==> v in X && before[v] > 0 && residual[v] < Size(g)
  }

  /** The prefix is the base together with the vertices pushed since, each once. */
  ghost predicate Consistent(g: Graph, base: set<Vertex>, pushed: seq<Vertex>, prefix: set<Vertex>) {
    && Distinct(pushed) && Elems(pushed) !! base
    && prefix == base + Elems(pushed) && prefix <= Vertices(g)
  }

  class ReversibleNodeState {
    const g: Graph
    ghost const base: set<Vertex>
    ghost var pushed: seq<Vertex>
    var prefix: set<Vertex>
    var cut: nat
    var before: seq<nat>
    var residual: seq<nat>
    var histogram: seq<nat>
    var gainBuckets: seq<set<Vertex>>

    /** Every derived value is the one recomputed from the prefix. */
    ghost predicate Valid()
      reads this
    {
      && Consistent(g, base, pushed, prefix) && Split(g, base, pushed, before, residual)
      && Derived(g, Vertices(g) - prefix, before, residual, histogram, gainBuckets)
    }

    constructor (g: Graph, prefix: set<Vertex>, cut: nat)
      requires prefix <= Vertices(g)
      ensures Valid() && this.g == g && base == prefix && this.prefix == prefix && this.cut == cut && pushed == []
    {
      this.g, base, this.prefix, this.cut, pushed := g, prefix, prefix, cut, [];
      before, residual, histogram, gainBuckets := [], [], [], [];
      new;
      Load();
    }

    /** Counts every vertex against the prefix and files the unplaced ones. */
    method Load()
      requires prefix <= Vertices(g) && prefix == base && pushed == []
      modifies this`before, this`residual, this`histogram, this`gainBuckets
      ensures Valid()
    {
      Clear();
      assert Below(0) - prefix == {};
      hide Derived, Below, Seen, Split, Neighbours, CountedBelow;
      for v := 0 to Size(g)
        invariant Derived(g, Below(v) - prefix, before, residual, histogram, gainBuckets)
        invariant CountedBelow(g, prefix, before, residual, v)
      {
        LoadOne(v);
      }
      BaseIsSplit(g, base, before, residual);
      assert base + Elems([]) == base;
    }

    method Clear()
      modifies this`before, this`residual, this`histogram, this`gainBuckets
      ensures Derived(g, {}, before, residual, histogram, gainBuckets)
      ensures CountedBelow(g, prefix, before, residual, 0)
    {
      before, residual := seq(Size(g), _ => 0), seq(Size(g), _ => 0);
      histogram := seq(Size(g) + 1, _ => 0);
      gainBuckets := seq(2 * Size(g) + 1, _ => {});
      NothingFiled(g, before, residual, histogram, gainBuckets);
    }

    method LoadOne(v: Vertex)
      requires v in Vertices(g) && Derived(g, Below(v) - prefix, before, residual, histogram, gainBuckets)
      requires CountedBelow(g, prefix, before, residual, v)
      modifies this`before, this`residual, this`histogram, this`gainBuckets
      ensures Derived(g, Below(v + 1) - prefix, before, residual, histogram, gainBuckets)
      ensures CountedBelow(g, prefix, before, residual, v + 1)
    {
      hide *;
      ghost var X := Below(v) - prefix;
      var b, r := |Neighbours(g, v) * prefix|, |Neighbours(g, v) - prefix|;
      LoadFacts(g, prefix, before, residual, v, b, r);
      CountsReplaced(g, X, before, residual, histogram, gainBuckets, v, b, r);
      before := before[v := b];
      residual := residual[v := r];
      if v !in prefix {
        PutBack(X, v);
      }
    }

    method RemoveGain(v: Vertex)
      requires |before| == |residual| == Size(g) && v < Size(g)
      requires 0 <= GainIndex(g, before, residual, v) < |gainBuckets|
      modifies this`gainBuckets
      ensures var i := GainIndex(g, before, residual, v);
              gainBuckets == old(gainBuckets)[i := old(gainBuckets)[i] - {v}]
    {
      var i := GainIndex(g, before, residual, v);
      gainBuckets := gainBuckets[i := gainBuckets[i] - {v}];
    }

    method AddGain(v: Vertex)
      requires |before| == |residual| == Size(g) && v < Size(g)
      requires 0 <= GainIndex(g, before, residual, v) < |gainBuckets|
      modifies this`gainBuckets
      ensures var i := GainIndex(g, before, residual, v);
              gainBuckets == old(gainBuckets)[i := old(gainBuckets)[i] + {v}]
    {
      var i := GainIndex(g, before, residual, v);
      gainBuckets := gainBuckets[i := gainBuckets[i] + {v}];
    }

    /** Takes an unplaced vertex out of its bin and its bucket. */
    method TakeOut(ghost X: set<Vertex>, v: Vertex)
      requires Derived(g, X, before, residual, histogram, gainBuckets) && v in X && v < Size(g)
      modifies this`histogram, this`gainBuckets
      ensures Derived(g, X - {v}, before, residual, histogram, gainBuckets)
    {
      TakenOut(g, X, before, residual, histogram, gainBuckets, v);
      hide Counted, Bucketed, OnlyVertices;
      RemoveGain(v);
      histogram := Lowered(histogram, residual[v]);
    }

    method PutBack(ghost X: set<Vertex>, v: Vertex)
      requires Derived(g, X, before, residual, histogram, gainBuckets) && v !in X && v in Vertices(g)
      modifies this`histogram, this`gainBuckets
      ensures Derived(g, X + {v}, before, residual, histogram, gainBuckets)
    {
      PutIn(g, X, before, residual, histogram, gainBuckets, v);
      hide Counted, Bucketed, OnlyVertices;
      histogram := Raised(histogram, residual[v]);
      AddGain(v);
    }

    /** Moves the counts of one member of X, and with them its bin and its bucket. */
    method Recount(ghost X: set<Vertex>, other: Vertex, b: nat, r: nat)
      requires Derived(g, X, before, residual, histogram, gainBuckets) && other in X && other in Vertices(g)
      requires b <= Size(g) && r <= Size(g)
      modifies this`before, this`residual, this`histogram, this`gainBuckets
      ensures Derived(g, X, before, residual, histogram, gainBuckets)
      ensures before == old(before)[other := b] && residual == old(residual)[other := r]
    {
      ghost var Y := X - {other};
      assert Y + {other} == X && other < Size(g) && |before| == |residual| == Size(g);
      hide *;
      TakeOut(X, other);
      CountsReplaced(g, Y, before, residual, histogram, gainBuckets, other, b, r);
      residual := residual[other := r];
      before := before[other := b];
      PutBack(Y, other);
    }

    /** Counts w at each of its unplaced neighbours. */
    method CountUp(ghost X: set<Vertex>, w: Vertex)
      requires Derived(g, X, before, residual, histogram, gainBuckets)
      requires RoomAbove(g, prefix, w, X, before, residual)
      modifies this`before, this`residual, this`histogram, this`gainBuckets
      ensures Derived(g, X, before, residual, histogram, gainBuckets)
      ensures CountsMoved(g, prefix, w, Size(g), old(before), before)
      ensures CountsMoved(g, prefix, w, Size(g), residual, old(residual))
    {
      hide Counted, Bucketed, OnlyVertices;
      for other := 0 to Size(g)
        invariant Derived(g, X, before, residual, histogram, gainBuckets)
        invariant CountsMoved(g, prefix, w, other, old(before), before)
        invariant CountsMoved(g, prefix, w, other, residual, old(residual))
      {
        if Adjacent(g, w, other) && other !in prefix {
          assert Touched(g, prefix, w, Size(g), other);
          Recount(X, other, before[other] + 1, residual[other] - 1);
        }
      }
    }

    /** Takes w back at each of its unplaced neighbours. */
    method CountDown(ghost X: set<Vertex>, w: Vertex)
      requires Derived(g, X, before, residual, histogram, gainBuckets)
      requires RoomBelow(g, prefix, w, X, before, residual)
      modifies this`before, this`residual, this`histogram, this`gainBuckets
      ensures Derived(g, X, before, residual, histogram, gainBuckets)
      ensures CountsMoved(g, prefix, w, Size(g), before, old(before))
      ensures CountsMoved(g, prefix, w, Size(g), old(residual), residual)
    {
      hide Counted, Bucketed, OnlyVertices;
      for other := 0 to Size(g)
        invariant Derived(g, X, before, residual, histogram, gainBuckets)
        invariant CountsMoved(g, prefix, w, other, before, old(before))
        invariant CountsMoved(g, prefix, w, other, old(residual), residual)
      {
        if Adjacent(g, w, other) && other !in prefix {
          assert Touched(g, prefix, w, Size(g), other);
          Recount(X, other, before[other] - 1, residual[other] + 1);
        }
      }
    }

    method Push(vertex: Vertex, nextCut: nat)
      requires Valid() && vertex in Vertices(g) - prefix
      modifies this
      ensures Valid() && pushed == old(pushed) + [vertex] && prefix == old(prefix) + {vertex} && cut == nextCut
    {
      hide *;
      ghost var X, Y := Vertices(g) - prefix, Vertices(g) - prefix - {vertex};
      PushFacts(vertex, X, Y);
      PushCounts(X, Y, vertex);
      prefix := prefix + {vertex};
      pushed := pushed + [vertex];
      cut := nextCut;
      Closed(Y);
    }

    method PushCounts(ghost X: set<Vertex>, ghost Y: set<Vertex>, vertex: Vertex)
      requires Derived(g, X, before, residual, histogram, gainBuckets) && Split(g, base, pushed, before, residual)
      requires vertex in X && vertex < Size(g) && Y == X - {vertex}
      requires Consistent(g, base, pushed, prefix) && vertex in Vertices(g) - prefix
      requires RoomAbove(g, prefix, vertex, Y, before, residual)
      modifies this`before, this`residual, this`histogram, this`gainBuckets
      ensures Derived(g, Y, before, residual, histogram, gainBuckets)
      ensures Split(g, base, pushed + [vertex], before, residual)
    {
      hide *;
      TakeOut(X, vertex);
      ghost var low, more := before, residual;
      CountUp(Y, vertex);
      Pushed(g, base, pushed, prefix, vertex, low, before, residual, more);
    }

    /** What holds before a vertex is pushed, for the longer prefix. */
    lemma PushFacts(vertex: Vertex, X: set<Vertex>, Y: set<Vertex>)
      requires Valid() && vertex in Vertices(g) - prefix
      requires X == Vertices(g) - prefix && Y == Vertices(g) - prefix - {vertex}
      ensures vertex in X && vertex < Size(g) && Y == X - {vertex}
      ensures Consistent(g, base, pushed, prefix)
      ensures Consistent(g, base, pushed + [vertex], prefix + {vertex}) && Y == Vertices(g) - (prefix + {vertex})
      ensures Derived(g, X, before, residual, histogram, gainBuckets) && Split(g, base, pushed, before, residual)
      ensures RoomAbove(g, prefix, vertex, Y, before, residual)
    {
      hide Split, Derived, Seen, Below, RoomAbove;
      LongerIsConsistent(g, base, pushed, prefix, vertex);
      assert Y == Vertices(g) - (prefix + {vertex});
      SplitIsNarrow(g, base, pushed, before, residual);
      PushHasRoom(g, base, pushed, prefix, before, residual, vertex, Y);
    }

    /** Takes the last pushed vertex off again. */
    method Pop(vertex: Vertex, previousCut: nat)
      requires Valid() && pushed != [] && vertex == pushed[|pushed| - 1]
      modifies this
      ensures Valid() && pushed == old(pushed)[..|old(pushed)| - 1] && prefix == old(prefix) - {vertex} && cut == previousCut
    {
      hide *;
      ghost var rest, X, left := pushed[..|pushed| - 1], Vertices(g) - prefix, prefix - {vertex};
      PopFacts(rest, vertex, X, left);
      prefix := prefix - {vertex};
      PopCounts(rest, X, vertex);
      pushed := rest;
      cut := previousCut;
      Closed(X + {vertex});
    }

    method PopCounts(ghost rest: seq<Vertex>, ghost X: set<Vertex>, vertex: Vertex)
      requires Derived(g, X, before, residual, histogram, gainBuckets)
      requires Split(g, base, rest + [vertex], before, residual) && RoomBelow(g, prefix, vertex, X, before, residual)
      requires Consistent(g, base, rest, prefix) && vertex in Vertices(g) - prefix && vertex in Vertices(g) && vertex !in X
      modifies this`before, this`residual, this`histogram, this`gainBuckets
      ensures Derived(g, X + {vertex}, before, residual, histogram, gainBuckets)
      ensures Split(g, base, rest, before, residual)
    {
      hide *;
      ghost var high, less := before, residual;
      CountDown(X, vertex);
      Pushed(g, base, rest, prefix, vertex, before, high, less, residual);
      PutBack(X, vertex);
    }

    /** What holds before the last vertex is popped, for the shorter prefix. */
    lemma PopFacts(rest: seq<Vertex>, vertex: Vertex, X: set<Vertex>, left: set<Vertex>)
      requires Valid() && pushed == rest + [vertex] && X == Vertices(g) - prefix && left == prefix - {vertex}
      ensures vertex in Vertices(g) && vertex !in X && X + {vertex} == Vertices(g) - left
      ensures Consistent(g, base, rest, left) && vertex in Vertices(g) - left
      ensures Derived(g, X, before, residual, histogram, gainBuckets)
      ensures Split(g, base, rest + [vertex], before, residual) && RoomBelow(g, left, vertex, X, before, residual)
    {
      hide Split, Derived, Seen;
      LastIsNew(rest, vertex);
      ElemsAppend(rest, vertex);
      assert vertex in Elems(pushed);
      assert left == base + Elems(rest);
      SplitIsNarrow(g, base, pushed, before, residual);
      forall v: Vertex | Touched(g, left, vertex, Size(g), v)
        ensures v in X && before[v] > 0 && residual[v] < Size(g)
      {
        RoomToPop(g, base, rest, before, residual, vertex, v);
        NeighbourFacts(g, vertex, v);
      }
    }

    lemma Closed(X: set<Vertex>)
      requires Consistent(g, base, pushed, prefix) && Split(g, base, pushed, before, residual) && X == Vertices(g) - prefix
      requires Derived(g, X, before, residual, histogram, gainBuckets)
      ensures Valid()
    {
    }

    lemma UnplacedFacts(v: Vertex)
      requires Valid() && v in Vertices(g) - prefix
      ensures |before| == |residual| == Size(g)
      ensures before[v] == |Neighbours(g, v) * prefix| && residual[v] == |Neighbours(g, v) - prefix|
    {
      UnplacedCounts(g, base, pushed, before, residual, v);
    }

    lemma BucketOf(i: nat, v: Vertex)
      requires Valid() && v in Vertices(g) && i < 2 * Size(g) + 1
      ensures |gainBuckets| == 2 * Size(g) + 1 && |before| == |residual| == Size(g)
      ensures v in gainBuckets[i] <==> v !in prefix && GainIndex(g, before, residual, v) == i
    {
      hide Split, Counted, OnlyVertices, Consistent;
    }

    /** The highest occupied bin is the largest residual degree of an unplaced vertex. */
    method MaximumResidualDegree() returns (maximum: nat)
      requires Valid()
      ensures forall v :: v in Vertices(g) - prefix ==> |Neighbours(g, v) - prefix| <= maximum
      ensures maximum > 0 ==> exists v :: v in Vertices(g) - prefix && |Neighbours(g, v) - prefix| == maximum
    {
      hide Valid, Neighbours;
      var d: nat := |histogram|;
      while d > 0
        invariant d <= |histogram|
        invariant forall e: nat :: d <= e < |histogram| ==> histogram[e] == 0
      {
        d := d - 1;
        if histogram[d] != 0 {
          break;
        }
      }
      forall v | v in Vertices(g) - prefix ensures |Neighbours(g, v) - prefix| <= d {
        OccupiesBin(v);
      }
      if d > 0 {
        BinIsOccupied(d);
      }
      return d;
    }

    lemma OccupiesBin(v: Vertex)
      requires Valid() && v in Vertices(g) - prefix
      ensures |Neighbours(g, v) - prefix| < |histogram| && histogram[|Neighbours(g, v) - prefix|] > 0
    {
      UnplacedFacts(v);
      ValuesMember(Vertices(g) - prefix, residual, |residual|, residual[v]);
    }

    lemma BinIsOccupied(d: nat)
      requires Valid() && d < |histogram| && histogram[d] != 0
      ensures exists v :: v in Vertices(g) - prefix && |Neighbours(g, v) - prefix| == d
    {
      var X := Vertices(g) - prefix;
      ValuesMember(X, residual, |residual|, d);
      var v: Vertex :| 0 <= v < |residual| && v in X && residual[v] == d;
      UnplacedFacts(v);
    }
  }
}
