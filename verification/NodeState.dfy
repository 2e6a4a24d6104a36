/**
  The state of one search node that is updated when a vertex is placed and rolled
  back when it is taken off again: the path, the counts of placed neighbours, and
  the derived structures (candidate index, delta histogram, residual degrees).
 */
module NodeStates {
  import opened Options
  import opened Graphs
  import opened Feasibility
  import opened CandidateIndexes
  import opened Histograms

  /** The vertices placed before v; the whole path when v is not placed. */
  ghost function Earlier(path: seq<Vertex>, v: Vertex): set<Vertex> {
    if path == [] then {}
    else
      var init := path[..|path| - 1];
      if v in init then Earlier(init, v)
      else if v == path[|path| - 1] then Elems(init)
      else Elems(path)
  }

  lemma EarlierAppend(path: seq<Vertex>, w: Vertex, v: Vertex)
    requires w !in path
    ensures Earlier(path + [w], v) ==
            if v in path then Earlier(path, v) else if v == w then Elems(path) else Elems(path) + {w}
  {
    assert (path + [w])[..|path|] == path;
    ElemsAppend(path, w);
  }

  lemma EarlierUnplaced(path: seq<Vertex>, v: Vertex)
    requires v !in path
    ensures Earlier(path, v) == Elems(path)
  {
  }

  /** Placed neighbours of v, as recorded when v was placed or as of now. */
  ghost predicate BeforeCounts(g: Graph, path: seq<Vertex>, before: seq<nat>) {
    |before| == Size(g) &&
    forall v :: 0 <= v < Size(g) ==> before[v] == |Neighbours(g, v) * Earlier(path, v)|
  }

  /**
    Unplaced neighbours of v likewise, up to what the entry of v misses: a rebuild
    leaves the entries of placed vertices at zero.
   */
  ghost predicate ResidualDegrees(g: Graph, path: seq<Vertex>, deficit: seq<nat>, residual: seq<nat>) {
    |residual| == |deficit| == Size(g) &&
    forall v :: 0 <= v < Size(g) ==> residual[v] + deficit[v] == |Neighbours(g, v) - Earlier(path, v)|
  }

  /** What the entries miss after a rebuild. */
  ghost function Missing(g: Graph, path: seq<Vertex>): (deficit: seq<nat>)
    ensures |deficit| == Size(g)
  {
    seq(Size(g), v requires 0 <= v < Size(g) => if v in path then |Neighbours(g, v) - Earlier(path, v)| else 0)
  }

  /** No entry misses anything, except perhaps those of the first r vertices of the path. */
  ghost predicate NoneMissing(g: Graph, path: seq<Vertex>, r: nat, deficit: seq<nat>) {
    |deficit| == Size(g) && r <= |path| && forall v :: 0 <= v < Size(g) && v !in path[..r] ==> deficit[v] == 0
  }

  /** The unplaced neighbours of w below i, whose counts a placement of w changes. */
  predicate Touched(g: Graph, placed: set<Vertex>, w: Vertex, i: nat, v: Vertex) {
    v < i && v in Neighbours(g, w) && v !in placed
  }

  ghost predicate CountsMoved(g: Graph, placed: set<Vertex>, w: Vertex, i: nat, low: seq<nat>, high: seq<nat>) {
    |low| == |high| == Size(g) &&
    forall v :: 0 <= v < Size(g) ==> high[v] == low[v] + if Touched(g, placed, w, i, v) then 1 else 0
  }

  lemma SetStep(N: set<Vertex>, E: set<Vertex>, w: Vertex)
    requires w !in E
    ensures |N * (E + {w})| == |N * E| + if w in N then 1 else 0
    ensures |N - E| == |N - (E + {w})| + if w in N then 1 else 0
  {
    if w in N {
      assert N * (E + {w}) == N * E + {w};
      assert N - E == (N - (E + {w})) + {w};
    } else {
      assert N * (E + {w}) == N * E;
      assert N - (E + {w}) == N - E;
    }
  }

  /** What placing w does to the placed and the unplaced neighbours of one vertex. */
  lemma PlacementMovesOne(g: Graph, path: seq<Vertex>, w: Vertex, v: Vertex)
    requires w in Vertices(g) && v in Vertices(g) && w !in path
    ensures var N, t := Neighbours(g, v), if Touched(g, Elems(path) + {w}, w, Size(g), v) then 1 else 0;
            && |N * Earlier(path + [w], v)| == |N * Earlier(path, v)| + t
            && |N - Earlier(path, v)| == |N - Earlier(path + [w], v)| + t
  {
    EarlierAppend(path, w, v);
    var N := Neighbours(g, v);
    if w in N { NeighbourFacts(g, v, w); }
    if v in Neighbours(g, w) { NeighbourFacts(g, w, v); }
    if v !in path {
      EarlierUnplaced(path, v);
      SetStep(N, Elems(path), w);
    }
  }

  /** Placing w moves the counts of its unplaced neighbours by one, in either direction. */
  lemma PlacementMovesCounts(g: Graph, path: seq<Vertex>, w: Vertex, low: seq<nat>, high: seq<nat>)
    requires w in Vertices(g) && w !in path
    requires CountsMoved(g, Elems(path) + {w}, w, Size(g), low, high)
    ensures BeforeCounts(g, path, low) <==> BeforeCounts(g, path + [w], high)
  {
    hide Touched, Earlier;
    forall v | 0 <= v < Size(g)
      ensures low[v] == |Neighbours(g, v) * Earlier(path, v)| <==>
              high[v] == |Neighbours(g, v) * Earlier(path + [w], v)|
    {
      PlacementMovesOne(g, path, w, v);
    }
  }

  lemma PlacementMovesResiduals(g: Graph, path: seq<Vertex>, deficit: seq<nat>, w: Vertex, low: seq<nat>, high: seq<nat>)
    requires w in Vertices(g) && w !in path
    requires CountsMoved(g, Elems(path) + {w}, w, Size(g), low, high)
    ensures ResidualDegrees(g, path, deficit, high) <==> ResidualDegrees(g, path + [w], deficit, low)
  {
    hide Touched, Earlier;
    if |deficit| == Size(g) {
      forall v | 0 <= v < Size(g)
        ensures high[v] + deficit[v] == |Neighbours(g, v) - Earlier(path, v)| <==>
                low[v] + deficit[v] == |Neighbours(g, v) - Earlier(path + [w], v)|
      {
        PlacementMovesOne(g, path, w, v);
      }
    }
  }

  /** The counts are determined by the path, so undoing a placement restores them. */
  lemma BeforeUnique(g: Graph, path: seq<Vertex>, a: seq<nat>, b: seq<nat>)
    requires BeforeCounts(g, path, a) && BeforeCounts(g, path, b)
    ensures a == b
  {
  }

  // ----- the multiset of the values of a set of vertices -----

  ghost function ValuesBelow(X: set<Vertex>, values: seq<int>, n: nat): multiset<int>
    requires n <= |values|
  {
    if n == 0 then multiset{}
    else ValuesBelow(X, values, n - 1) + if n - 1 in X then multiset{values[n - 1]} else multiset{}
  }

  ghost function Values(X: set<Vertex>, values: seq<int>): multiset<int> {
    ValuesBelow(X, values, |values|)
  }

  lemma {:induction false} ValuesElsewhere(X: set<Vertex>, Y: set<Vertex>, a: seq<int>, b: seq<int>, n: nat)
    requires n <= |a| && n <= |b|
    requires forall v :: 0 <= v < n ==> (v in X <==> v in Y) && a[v] == b[v]
    ensures ValuesBelow(X, a, n) == ValuesBelow(Y, b, n)
  {
    if n > 0 {
      ValuesElsewhere(X, Y, a, b, n - 1);
    }
  }

  /** Taking v out of X takes its value out of the multiset. */
  lemma {:induction false} ValuesRemove(X: set<Vertex>, values: seq<int>, v: Vertex, n: nat)
    requires v in X && v < n <= |values|
    ensures ValuesBelow(X, values, n) == ValuesBelow(X - {v}, values, n) + multiset{values[v]}
  {
    hide ValuesBelow;
    ValuesStep(X, values, n);
    ValuesStep(X - {v}, values, n);
    if n - 1 == v {
      ValuesElsewhere(X, X - {v}, values, values, v);
    } else {
      ValuesRemove(X, values, v, n - 1);
      LastFirst(ValuesBelow(X - {v}, values, n - 1), multiset{values[v]},
                if n - 1 in X then multiset{values[n - 1]} else multiset{});
    }
  }

  lemma ValuesStep(X: set<Vertex>, values: seq<int>, n: nat)
    requires 0 < n <= |values|
    ensures ValuesBelow(X, values, n) ==
            ValuesBelow(X, values, n - 1) + if n - 1 in X then multiset{values[n - 1]} else multiset{}
  {
  }

  lemma LastFirst(A: multiset<int>, B: multiset<int>, C: multiset<int>)
    ensures A + B + C == A + C + B
  {
  }

  lemma ValuesChange(X: set<Vertex>, values: seq<int>, v: Vertex, to: int)
    requires v in X && v < |values|
    ensures values[v] in Values(X, values)
    ensures Values(X, values[v := to]) == Values(X, values) - multiset{values[v]} + multiset{to}
  {
    var b := values[v := to];
    ValuesRemove(X, values, v, |values|);
    ValuesRemove(X, b, v, |b|);
    ValuesRest(X - {v}, values, b, v, |values|);
  }

  lemma {:induction false} ValuesRest(X: set<Vertex>, a: seq<int>, b: seq<int>, v: Vertex, n: nat)
    requires v !in X && n <= |a| == |b| && forall u :: 0 <= u < n && u != v ==> a[u] == b[u]
    ensures ValuesBelow(X, a, n) == ValuesBelow(X, b, n)
  {
    if n > 0 {
      ValuesRest(X, a, b, v, n - 1);
    }
  }

  lemma {:induction false} ValuesMember(X: set<Vertex>, values: seq<int>, n: nat, d: int)
    requires n <= |values|
    ensures d in ValuesBelow(X, values, n) <==> exists v :: 0 <= v < n && v in X && values[v] == d
  {
    if n > 0 {
      ValuesMember(X, values, n - 1, d);
    }
  }

  function Deltas(g: Graph, before: seq<nat>): (r: seq<int>)
    requires |before| == Size(g)
    ensures |r| == Size(g) && forall v :: 0 <= v < Size(g) ==> r[v] == DeltaOf(g, before, v)
  {
    seq(Size(g), v requires 0 <= v < Size(g) => DeltaOf(g, before, v))
  }

  lemma DeltasChange(g: Graph, before: seq<nat>, v: Vertex, to: nat)
    requires |before| == Size(g) && v < Size(g)
    ensures Deltas(g, before[v := to]) == Deltas(g, before)[v := Degree(g, v) - 2 * to]
  {
  }

  /** Deltas of unplaced vertices stay within the degree range. */
  lemma DeltaInRange(g: Graph, v: Vertex, count: nat)
    requires v < Size(g) && count <= Degree(g, v)
    ensures -(MaximumDegree(g, Size(g)) as int) <= Degree(g, v) - 2 * count <= MaximumDegree(g, Size(g))
  {
  }

  // ----- one derived structure at a time -----

  ghost predicate IndexSync(g: Graph, index: DeltaBucketCandidateIndex, prefix: set<Vertex>, before: seq<nat>)
    requires |before| == Size(g)
    reads index
  {
    index.Valid() && index.n == Size(g) && index.maximumDegree == MaximumDegree(g, Size(g)) &&
    index.Contents() == Expected(g, prefix, before)
  }

  ghost predicate DeltaSync(g: Graph, deltas: DeltaHistogram, prefix: set<Vertex>, before: seq<nat>)
    requires |before| == Size(g)
    reads deltas
  {
    deltas.Valid() && deltas.offset == MaximumDegree(g, Size(g)) &&
    deltas.held == Values(Vertices(g) - prefix, Deltas(g, before))
  }

  ghost predicate BinSync(g: Graph, bins: ResidualHistogram, prefix: set<Vertex>, residual: seq<nat>)
    requires |residual| == Size(g)
    reads bins
  {
    bins.Valid() && |bins.counts| == Size(g) + 1 &&
    bins.held == Values(Vertices(g) - prefix, residual)
  }

  lemma MoveInIndexFacts(g: Graph, index: DeltaBucketCandidateIndex, prefix: set<Vertex>, before: seq<nat>,
                         v: Vertex, count: nat, d: int)
    requires |before| == Size(g) && IndexSync(g, index, prefix, before)
    requires v in Vertices(g) - prefix && count <= Degree(g, v) && d == Degree(g, v) - 2 * count
    ensures index.Valid() && index.n == Size(g) && index.maximumDegree == MaximumDegree(g, Size(g))
    ensures v < index.n && v in index.Contents() && index.InRange(d)
    ensures index.Contents()[v := d] == Expected(g, prefix, before[v := count])
  {
    DeltaInRange(g, v, count);
    ExpectedChange(g, prefix, before, v, count);
  }

  lemma SyncedIndex(g: Graph, index: DeltaBucketCandidateIndex, prefix: set<Vertex>, before: seq<nat>)
    requires |before| == Size(g) && index.Valid()
    requires index.n == Size(g) && index.maximumDegree == MaximumDegree(g, Size(g))
    requires index.Contents() == Expected(g, prefix, before)
    ensures IndexSync(g, index, prefix, before)
  {
  }

  method MoveInIndex(g: Graph, index: DeltaBucketCandidateIndex, prefix: set<Vertex>, before: seq<nat>,
                     v: Vertex, count: nat)
    requires |before| == Size(g) && IndexSync(g, index, prefix, before)
    requires v in Vertices(g) - prefix && count <= Degree(g, v)
    modifies index
    ensures IndexSync(g, index, prefix, before[v := count])
  {
    hide *;
    var d := Degree(g, v) - 2 * count;
    MoveInIndexFacts(g, index, prefix, before, v, count, d);
    var moved := index.Move(v, d);
    SyncedIndex(g, index, prefix, before[v := count]);
  }

  method RemoveFromIndex(g: Graph, index: DeltaBucketCandidateIndex, prefix: set<Vertex>, before: seq<nat>, v: Vertex)
    requires |before| == Size(g) && IndexSync(g, index, prefix, before)
    requires v in Vertices(g) - prefix
    modifies index
    ensures IndexSync(g, index, prefix + {v}, before)
  {
    ExpectedRemove(g, prefix, before, v);
    hide Expected, Shaped, Seated, Filed, ContentsOf;
    var removed := index.Remove(v);
  }

  method InsertIntoIndex(g: Graph, index: DeltaBucketCandidateIndex, prefix: set<Vertex>, before: seq<nat>, v: Vertex)
    requires |before| == Size(g) && IndexSync(g, index, prefix, before)
    requires v in Vertices(g) && v in prefix && before[v] <= Degree(g, v)
    modifies index
    ensures IndexSync(g, index, prefix - {v}, before)
  {
    DeltaInRange(g, v, before[v]);
    ExpectedInsert(g, prefix, before, v);
    hide Expected, Shaped, Seated, Filed, ContentsOf;
    var added := index.Insert(v, DeltaOf(g, before, v));
  }

  lemma UnplacedAfter(g: Graph, prefix: set<Vertex>, v: Vertex)
    ensures Vertices(g) - (prefix + {v}) == (Vertices(g) - prefix) - {v}
    ensures v in prefix ==> Vertices(g) - prefix == (Vertices(g) - (prefix - {v})) - {v}
  {
  }

  method RemoveDelta(g: Graph, deltas: DeltaHistogram, prefix: set<Vertex>, before: seq<nat>, v: Vertex)
    requires |before| == Size(g) && DeltaSync(g, deltas, prefix, before)
    requires v in Vertices(g) - prefix
    modifies deltas
    ensures DeltaSync(g, deltas, prefix + {v}, before)
  {
    UnplacedAfter(g, prefix, v);
    ValuesRemove(Vertices(g) - prefix, Deltas(g, before), v, Size(g));
    deltas.Remove(DeltaOf(g, before, v));
  }

  method InsertDelta(g: Graph, deltas: DeltaHistogram, prefix: set<Vertex>, before: seq<nat>, v: Vertex)
    requires |before| == Size(g) && DeltaSync(g, deltas, prefix, before)
    requires v in Vertices(g) && v in prefix && before[v] <= Degree(g, v)
    modifies deltas
    ensures DeltaSync(g, deltas, prefix - {v}, before)
  {
    DeltaInRange(g, v, before[v]);
    UnplacedAfter(g, prefix, v);
    ValuesRemove(Vertices(g) - (prefix - {v}), Deltas(g, before), v, Size(g));
    deltas.Add(DeltaOf(g, before, v));
  }

  method RemoveResidual(g: Graph, bins: ResidualHistogram, prefix: set<Vertex>, residual: seq<nat>, v: Vertex)
    requires |residual| == Size(g) && BinSync(g, bins, prefix, residual)
    requires v in Vertices(g) - prefix
    modifies bins
    ensures BinSync(g, bins, prefix + {v}, residual)
  {
    UnplacedAfter(g, prefix, v);
    ValuesRemove(Vertices(g) - prefix, residual, v, Size(g));
    var removed := bins.RemoveBin(residual[v]);
  }

  method InsertResidual(g: Graph, bins: ResidualHistogram, prefix: set<Vertex>, residual: seq<nat>, v: Vertex)
    requires |residual| == Size(g) && BinSync(g, bins, prefix, residual)
    requires v in Vertices(g) && v in prefix && residual[v] <= Size(g)
    modifies bins
    ensures BinSync(g, bins, prefix - {v}, residual)
  {
    UnplacedAfter(g, prefix, v);
    ValuesRemove(Vertices(g) - (prefix - {v}), residual, v, Size(g));
    var added := bins.AddBin(residual[v]);
  }

  method MoveDelta(g: Graph, deltas: DeltaHistogram, prefix: set<Vertex>, before: seq<nat>, v: Vertex, count: nat)
    requires |before| == Size(g) && DeltaSync(g, deltas, prefix, before)
    requires v in Vertices(g) - prefix && count <= Degree(g, v)
    modifies deltas
    ensures DeltaSync(g, deltas, prefix, before[v := count])
  {
    hide Values, ValuesBelow, MaximumDegree, Degree;
    DeltaInRange(g, v, count);
    DeltasChange(g, before, v, count);
    ValuesChange(Vertices(g) - prefix, Deltas(g, before), v, Degree(g, v) - 2 * count);
    deltas.Replace(DeltaOf(g, before, v), Degree(g, v) - 2 * count);
  }

  method MoveBin(g: Graph, bins: ResidualHistogram, prefix: set<Vertex>, residual: seq<nat>, v: Vertex, count: nat)
    requires |residual| == Size(g) && BinSync(g, bins, prefix, residual)
    requires v in Vertices(g) - prefix && count <= Size(g)
    modifies bins
    ensures BinSync(g, bins, prefix, residual[v := count])
  {
    ValuesChange(Vertices(g) - prefix, residual, v, count);
    var removed := bins.RemoveBin(residual[v]);
    var added := bins.AddBin(count);
  }

  function NothingPlaced(g: Graph): (before: seq<nat>)
    ensures BeforeCounts(g, [], before)
  {
    seq(Size(g), _ => 0)
  }

  lemma CountsLength(g: Graph, path: seq<Vertex>, counts: seq<nat>)
    requires BeforeCounts(g, path, counts)
    ensures |counts| == Size(g)
  {
  }

  /** The counts of placed neighbours, recorded along the path. */
  method CountPlaced(g: Graph, path: seq<Vertex>) returns (before: seq<nat>)
    requires IsPath(g, path)
    ensures BeforeCounts(g, path, before)
  {
    before := NothingPlaced(g);
    assert path[..0] == [];
    hide BeforeCounts;
    for i := 0 to |path|
      invariant BeforeCounts(g, path[..i], before)
    {
      assert path[i] in Elems(path) && path[i] !in path[..i];
      assert path[..i + 1] == path[..i] + [path[i]];
      before := CountOne(g, path[..i], path[i], before);
    }
    assert path[..|path|] == path;
  }

  method CountOne(g: Graph, path: seq<Vertex>, vertex: Vertex, counts: seq<nat>) returns (before: seq<nat>)
    requires vertex in Vertices(g) && vertex !in path && BeforeCounts(g, path, counts)
    ensures BeforeCounts(g, path + [vertex], before)
  {
    hide BeforeCounts;
    before := counts;
    assert |counts| == Size(g) by { CountsLength(g, path, counts); }
    for other := 0 to Size(g)
      invariant CountsMoved(g, Elems(path) + {vertex}, vertex, other, counts, before)
    {
      if other !in path && other != vertex && Adjacent(g, vertex, other) {
        before := before[other := before[other] + 1];
      }
    }
    PlacementMovesCounts(g, path, vertex, counts, before);
  }

  /** The residual degrees of the unplaced vertices; placed ones read zero. */
  method CountResiduals(g: Graph, path: seq<Vertex>) returns (residual: seq<nat>)
    requires IsPath(g, path)
    ensures ResidualDegrees(g, path, Missing(g, path), residual)
    ensures forall v :: 0 <= v < Size(g) ==> residual[v] <= Size(g) && (v in path ==> residual[v] == 0)
  {
    hide *;
    residual := seq(Size(g), _ => 0);
    for v := 0 to Size(g)
      invariant |residual| == Size(g)
      invariant forall u :: 0 <= u < Size(g) && u in path ==> residual[u] == 0
      invariant forall u :: 0 <= u < Size(g) ==> residual[u] <= Size(g)
      invariant forall u :: 0 <= u < v && u !in path ==> residual[u] == OpenDegree(g, path, u)
    {
      if v !in path {
        residual := residual[v := OpenDegree(g, path, v)];
      }
    }
    OpenDegreesAreResidual(g, path, residual);
  }

  lemma OpenDegreesAreResidual(g: Graph, path: seq<Vertex>, residual: seq<nat>)
    requires |residual| == Size(g)
    requires forall v :: 0 <= v < Size(g) && v !in path ==> residual[v] == OpenDegree(g, path, v)
    requires forall v :: 0 <= v < Size(g) && v in path ==> residual[v] == 0
    ensures ResidualDegrees(g, path, Missing(g, path), residual)
  {
    hide Earlier, OpenDegree;
    forall v | 0 <= v < Size(g) && v !in path ensures residual[v] == |Neighbours(g, v) - Earlier(path, v)| {
      OpenIsResidual(g, path, v);
    }
  }

  lemma OpenIsResidual(g: Graph, path: seq<Vertex>, v: Vertex)
    requires v !in path
    ensures OpenDegree(g, path, v) == |Neighbours(g, v) - Earlier(path, v)|
  {
    EarlierUnplaced(path, v);
  }

  function OpenDegree(g: Graph, path: seq<Vertex>, v: Vertex): (d: nat)
    ensures d <= Size(g)
  {
    var open := Neighbours(g, v) - Elems(path);
    assert open <= Vertices(g) by {
      forall u | u in open ensures u in Vertices(g) { NeighbourFacts(g, v, u); }
    }
    SubsetSize(open, Vertices(g));
    |open|
  }

  method FillBins(bins: ResidualHistogram, size: nat, X: set<Vertex>, values: seq<nat>)
    requires forall v :: 0 <= v < |values| ==> values[v] <= size
    modifies bins
    ensures bins.Valid() && |bins.counts| == size + 1 && bins.held == Values(X, values)
  {
    bins.Clear(size + 1);
    for v := 0 to |values|
      invariant bins.Valid() && |bins.counts| == size + 1
      invariant bins.held == ValuesBelow(X, values, v)
    {
      if v in X {
        var added := bins.AddBin(values[v]);
      }
    }
  }

  method LoadBins(g: Graph, bins: ResidualHistogram, prefix: set<Vertex>, residual: seq<nat>)
    requires |residual| == Size(g) && forall v :: 0 <= v < Size(g) ==> residual[v] <= Size(g)
    modifies bins
    ensures BinSync(g, bins, prefix, residual)
  {
    FillBins(bins, Size(g), Vertices(g) - prefix, residual);
  }

  method LoadDeltas(g: Graph, deltas: DeltaHistogram, prefix: set<Vertex>, before: seq<nat>)
    requires |before| == Size(g) && deltas.offset == MaximumDegree(g, Size(g))
    requires forall v :: v in Vertices(g) ==> deltas.InRange(Deltas(g, before)[v])
    modifies deltas
    ensures DeltaSync(g, deltas, prefix, before)
  {
    hide MaximumDegree;
    FillDeltas(deltas, Vertices(g) - prefix, Deltas(g, before));
  }

  method FillDeltas(deltas: DeltaHistogram, X: set<Vertex>, values: seq<int>)
    requires forall v :: v in X && v < |values| ==> deltas.InRange(values[v])
    modifies deltas
    ensures deltas.Valid() && deltas.held == Values(X, values)
  {
    deltas.Clear();
    for v := 0 to |values|
      invariant deltas.Valid() && deltas.held == ValuesBelow(X, values, v)
    {
      if v in X {
        deltas.Add(values[v]);
      }
    }
  }

  lemma ShorterPath(g: Graph, P: seq<Vertex>, v: Vertex)
    requires IsPath(g, P + [v])
    ensures IsPath(g, P) && v in Vertices(g) && v !in P
    ensures Elems(P + [v]) == Elems(P) + {v} && Elems(P + [v]) - {v} == Elems(P)
  {
    var Q := P + [v];
    assert Q[..|P|] == P && Q[|P|] == v && v in Elems(Q);
    ElemsAppend(P, v);
    forall i, j | 0 <= i < j < |P| ensures P[i] != P[j] {
      assert Q[i] == P[i] && Q[j] == P[j];
    }
    forall i | 0 <= i < |P| ensures P[i] != v {
      assert Q[i] == P[i];
    }
  }

  lemma CountBounds(g: Graph, path: seq<Vertex>, before: seq<nat>, v: Vertex)
    requires BeforeCounts(g, path, before) && v in Vertices(g)
    ensures |before| == Size(g) && before[v] <= Degree(g, v)
  {
    SubsetSize(Neighbours(g, v) * Earlier(path, v), Neighbours(g, v));
  }

  lemma ResidualBounds(g: Graph, path: seq<Vertex>, deficit: seq<nat>, residual: seq<nat>, v: Vertex)
    requires ResidualDegrees(g, path, deficit, residual) && v in Vertices(g)
    ensures |residual| == Size(g) && residual[v] <= Size(g)
  {
    var N := Neighbours(g, v) - Earlier(path, v);
    forall u | u in N ensures u in Vertices(g) { NeighbourFacts(g, v, u); }
    SubsetSize(N, Vertices(g));
  }

  lemma CountsInRange(g: Graph, path: seq<Vertex>, before: seq<nat>)
    requires BeforeCounts(g, path, before)
    ensures forall v :: v in Vertices(g) ==> before[v] <= Degree(g, v)
    ensures forall v :: v in Vertices(g) ==>
              -(MaximumDegree(g, Size(g)) as int) <= Deltas(g, before)[v] <= MaximumDegree(g, Size(g))
  {
    forall v | v in Vertices(g)
      ensures before[v] <= Degree(g, v)
      ensures -(MaximumDegree(g, Size(g)) as int) <= Deltas(g, before)[v] <= MaximumDegree(g, Size(g))
    {
      SubsetSize(Neighbours(g, v) * Earlier(path, v), Neighbours(g, v));
      DeltaInRange(g, v, before[v]);
    }
  }

  class NodeState {
    const g: Graph
    const useIndex: bool
    const useDeltas: bool
    const useBins: bool
    const index: DeltaBucketCandidateIndex
    const deltas: DeltaHistogram
    const bins: ResidualHistogram
    var path: seq<Vertex>
    var prefix: set<Vertex>
    var before: seq<nat>
    var residual: seq<nat>
    ghost var deficit: seq<nat>

    /** Each derived structure in use describes the unplaced vertices. */
    ghost predicate Synced()
      reads this, index, deltas, bins
    {
      && prefix <= Vertices(g) && |before| == |residual| == Size(g)
      && (useIndex ==> IndexSync(g, index, prefix, before))
      && (useDeltas ==> DeltaSync(g, deltas, prefix, before))
      && (useBins ==> BinSync(g, bins, prefix, residual))
    }

    /** The counts are those of the path. */
    ghost predicate Counted()
      reads this
    {
      && IsPath(g, path) && prefix == Elems(path)
      && BeforeCounts(g, path, before)
      && (useBins ==> ResidualDegrees(g, path, deficit, residual))
    }

    ghost predicate Valid()
      reads this, index, deltas, bins
    {
      Counted() && Synced()
    }

    /** The derived structures have the dimensions of the graph. */
    ghost predicate Fitted() {
      && index.n == Size(g) && index.maximumDegree == MaximumDegree(g, Size(g))
      && deltas.offset == MaximumDegree(g, Size(g))
    }

    constructor (g: Graph, path: seq<Vertex>, useIndex: bool, useDeltas: bool, useBins: bool)
      requires IsPath(g, path)
      ensures this.g == g && this.useIndex == useIndex && this.useDeltas == useDeltas && this.useBins == useBins
      ensures Valid() && Fitted() && this.path == path && deficit == Missing(g, path)
      ensures fresh(index) && fresh(deltas) && fresh(bins)
    {
      this.g, this.useIndex, this.useDeltas, this.useBins := g, useIndex, useDeltas, useBins;
      index := new DeltaBucketCandidateIndex(g, {}, seq(Size(g), _ => 0));
      deltas := new DeltaHistogram(MaximumDegree(g, Size(g)));
      bins := new ResidualHistogram(Size(g) + 1);
      new;
      Load(path);
    }

    /** Moves the count of one unplaced vertex by one, with every derived structure. */
    method Bump(other: Vertex, up: bool)
      requires Synced() && other in Vertices(g) - prefix
      requires if up then before[other] < Degree(g, other) else 0 < before[other] <= Degree(g, other)
      requires useBins ==> if up then 0 < residual[other] <= Size(g) else residual[other] < Size(g)
      modifies this`before, this`residual, index, deltas, bins
      ensures Synced()
      ensures before == old(before)[other := if up then old(before)[other] + 1 else old(before)[other] - 1]
      ensures useBins ==>
                residual == old(residual)[other := if up then old(residual)[other] - 1 else old(residual)[other] + 1]
    {
      hide IndexSync, DeltaSync, BinSync;
      var count := if up then before[other] + 1 else before[other] - 1;
      if useBins {
        var r := if up then residual[other] - 1 else residual[other] + 1;
        MoveBin(g, bins, prefix, residual, other, r);
        residual := residual[other := r];
      }
      if useDeltas {
        MoveDelta(g, deltas, prefix, before, other, count);
      }
      if useIndex {
        MoveInIndex(g, index, prefix, before, other, count);
      }
      before := before[other := count];
    }

    /** Takes one unplaced vertex out of the derived structures. */
    method Withdraw(vertex: Vertex)
      requires Synced() && vertex in Vertices(g) - prefix
      modifies this`prefix, index, deltas, bins
      ensures Synced() && prefix == old(prefix) + {vertex}
    {
      if useBins {
        RemoveResidual(g, bins, prefix, residual, vertex);
      }
      if useDeltas {
        RemoveDelta(g, deltas, prefix, before, vertex);
      }
      if useIndex {
        RemoveFromIndex(g, index, prefix, before, vertex);
      }
      prefix := prefix + {vertex};
    }

    /** Puts a vertex just taken off the path back into the derived structures. */
    method PutBack(vertex: Vertex)
      requires Synced() && vertex in prefix && before[vertex] <= Degree(g, vertex)
      requires useBins ==> residual[vertex] <= Size(g)
      modifies this`prefix, index, deltas, bins
      ensures Synced() && prefix == old(prefix) - {vertex}
    {
      if useBins {
        InsertResidual(g, bins, prefix, residual, vertex);
      }
      if useDeltas {
        InsertDelta(g, deltas, prefix, before, vertex);
      }
      if useIndex {
        InsertIntoIndex(g, index, prefix, before, vertex);
      }
      prefix := prefix - {vertex};
    }

    /** The unplaced neighbours of a vertex can take one more, or one less, placed neighbour. */
    ghost predicate Room(vertex: Vertex, up: bool)
      reads this
    {
      |before| == |residual| == Size(g) &&
      forall v :: v in Neighbours(g, vertex) && v !in prefix ==>
        && v < Size(g)
        && (if up then before[v] < Degree(g, v) else 0 < before[v] <= Degree(g, v))
        && (useBins ==> if up then residual[v] <= Size(g) else residual[v] < Size(g))
    }

    /** Every unplaced neighbour of the vertex still counts one in its residual degree. */
    ghost predicate Lowerable(vertex: Vertex)
      reads this`prefix, this`residual
    {
      useBins ==>
        |residual| == Size(g) &&
        forall v :: v in Neighbours(g, vertex) && v !in prefix && v < Size(g) ==> residual[v] > 0
    }

    /**
      Moves the counts of all unplaced neighbours of a vertex; false stands for
      the exception when a residual degree of zero would be lowered.
     */
    method BumpNeighbours(vertex: Vertex, up: bool) returns (ok: bool)
      requires Synced() && Room(vertex, up)
      modifies this`before, this`residual, index, deltas, bins
      ensures ok <==> !up || old(Lowerable(vertex))
      ensures ok ==> Synced()
      ensures ok ==> if up then CountsMoved(g, prefix, vertex, Size(g), old(before), before)
                     else CountsMoved(g, prefix, vertex, Size(g), before, old(before))
      ensures ok && useBins ==>
                if up then CountsMoved(g, prefix, vertex, Size(g), residual, old(residual))
                else CountsMoved(g, prefix, vertex, Size(g), old(residual), residual)
    {
      hide IndexSync, DeltaSync, BinSync;
      for other := 0 to Size(g)
        invariant Synced()
        invariant if up then CountsMoved(g, prefix, vertex, other, old(before), before)
                  else CountsMoved(g, prefix, vertex, other, before, old(before))
        invariant useBins ==>
                    if up then CountsMoved(g, prefix, vertex, other, residual, old(residual))
                    else CountsMoved(g, prefix, vertex, other, old(residual), residual)
      {
        if other in Neighbours(g, vertex) && other !in prefix {
          if useBins && up && residual[other] == 0 {
            return false;
          }
          Bump(other, up);
        }
      }
      return true;
    }

    /**
      Places an unplaced vertex.  False stands for the exception when a residual
      degree of zero would be lowered; the state is then of no use any more.
     */
    method Apply(vertex: Vertex) returns (ok: bool)
      requires Valid() && vertex in Vertices(g) - prefix
      modifies this, index, deltas, bins
      ensures ok <==> old(Lowerable(vertex))
      ensures ok ==> Valid() && path == old(path) + [vertex] && deficit == old(deficit)
    {
      hide IndexSync, DeltaSync, BinSync, BeforeCounts, ResidualDegrees, CountsMoved, IsPath, Neighbours;
      RoomToPlace(vertex);
      Withdraw(vertex);
      path := path + [vertex];
      ok := BumpNeighbours(vertex, true);
      if ok {
        AfterPlacing(old(path), old(before), old(residual), vertex);
      }
    }

    lemma RoomToPlace(vertex: Vertex)
      requires Counted() && |residual| == Size(g) && vertex in Vertices(g) - prefix
      ensures forall v :: v in Neighbours(g, vertex) && v !in prefix ==> v != vertex
      ensures Room(vertex, true)
    {
      hide ResidualDegrees;
      forall v | v in Neighbours(g, vertex) && v !in path
        ensures v < Size(g) && before[v] < Degree(g, v) && (useBins ==> residual[v] <= Size(g))
        ensures v != vertex
      {
        NeighbourFacts(g, vertex, v);
        CountRoom(path, before, residual, vertex, v);
      }
    }

    lemma AfterPlacing(P: seq<Vertex>, before0: seq<nat>, residual0: seq<nat>, vertex: Vertex)
      requires IsPath(g, P) && BeforeCounts(g, P, before0) && (useBins ==> ResidualDegrees(g, P, deficit, residual0))
      requires vertex in Vertices(g) && vertex !in P && path == P + [vertex] && prefix == Elems(P) + {vertex}
      requires CountsMoved(g, prefix, vertex, Size(g), before0, before)
      requires useBins ==> CountsMoved(g, prefix, vertex, Size(g), residual, residual0)
      ensures Counted()
    {
      ExtendPath(g, P, vertex);
      PlacementMovesCounts(g, P, vertex, before0, before);
      if useBins {
        PlacementMovesResiduals(g, P, deficit, vertex, residual, residual0);
      }
    }

    /** An unplaced neighbour of an unplaced vertex has room to count it. */
    lemma CountRoom(P: seq<Vertex>, before0: seq<nat>, residual0: seq<nat>, vertex: Vertex, other: Vertex)
      requires IsPath(g, P) && BeforeCounts(g, P, before0) && (useBins ==> ResidualDegrees(g, P, deficit, residual0))
      requires vertex in Vertices(g) && vertex !in P && other !in P && other in Neighbours(g, vertex)
      ensures other in Vertices(g) && before0[other] < Degree(g, other)
      ensures useBins ==> residual0[other] <= Size(g)
    {
      NeighbourFacts(g, vertex, other);
      var N := Neighbours(g, other);
      EarlierUnplaced(P, other);
      SubsetSize(N * Elems(P), N - {vertex});
      assert N == (N - {vertex}) + {vertex};
      if useBins {
        ResidualBounds(g, P, deficit, residual0, other);
      }
    }

    /** Moves the counts back to those of the path without its last vertex. */
    method Uncount(vertex: Vertex, shorter: seq<Vertex>)
      requires Valid() && path == shorter + [vertex]
      modifies this`before, this`residual, index, deltas, bins
      ensures Synced() && IsPath(g, shorter) && prefix - {vertex} == Elems(shorter)
      ensures BeforeCounts(g, shorter, before)
      ensures useBins ==> ResidualDegrees(g, shorter, deficit, residual)
      ensures vertex in prefix && vertex in Vertices(g)
      ensures before[vertex] <= Degree(g, vertex) && (useBins ==> residual[vertex] <= Size(g))
    {
      hide IndexSync, DeltaSync, BinSync, BeforeCounts, ResidualDegrees, CountsMoved, IsPath, Room;
      RoomToUndo(vertex, shorter);
      var ok := BumpNeighbours(vertex, false);
      AfterUndoing(shorter, old(before), old(residual), vertex);
    }

    /** Takes the last vertex of the path off again. */
    method Undo()
      requires Valid() && path != []
      modifies this, index, deltas, bins
      ensures Valid() && path == old(path)[..|old(path)| - 1] && deficit == old(deficit)
    {
      hide IndexSync, DeltaSync, BinSync, BeforeCounts, ResidualDegrees, IsPath, Elems;
      var vertex, shorter := path[|path| - 1], path[..|path| - 1];
      assert path == shorter + [vertex];
      Uncount(vertex, shorter);
      path := shorter;
      PutBack(vertex);
    }

    lemma RoomToUndo(vertex: Vertex, shorter: seq<Vertex>)
      requires Counted() && |residual| == Size(g) && path == shorter + [vertex]
      ensures Room(vertex, false) && vertex in prefix
    {
      assert vertex in Elems(path);
      forall v | v in Neighbours(g, vertex) && v !in prefix
        ensures v < Size(g) && 0 < before[v] <= Degree(g, v) && (useBins ==> residual[v] < Size(g))
      {
        UncountRoom(shorter, before, residual, vertex, v);
      }
    }

    lemma AfterUndoing(P: seq<Vertex>, before0: seq<nat>, residual0: seq<nat>, vertex: Vertex)
      requires IsPath(g, P + [vertex]) && BeforeCounts(g, P + [vertex], before0)
      requires useBins ==> ResidualDegrees(g, P + [vertex], deficit, residual0)
      requires prefix == Elems(P + [vertex])
      requires CountsMoved(g, prefix, vertex, Size(g), before, before0)
      requires useBins ==> CountsMoved(g, prefix, vertex, Size(g), residual0, residual)
      ensures IsPath(g, P) && BeforeCounts(g, P, before)
      ensures useBins ==> ResidualDegrees(g, P, deficit, residual)
      ensures vertex in Vertices(g) && prefix - {vertex} == Elems(P)
      ensures before[vertex] <= Degree(g, vertex) && (useBins ==> residual[vertex] <= Size(g))
    {
      hide BeforeCounts, ResidualDegrees, CountsMoved;
      ShorterPath(g, P, vertex);
      PlacementMovesCounts(g, P, vertex, before, before0);
      CountBounds(g, P, before, vertex);
      if useBins {
        PlacementMovesResiduals(g, P, deficit, vertex, residual0, residual);
        ResidualBounds(g, P, deficit, residual, vertex);
      }
    }

    /** An unplaced neighbour of the last vertex has counted it. */
    lemma UncountRoom(P: seq<Vertex>, before0: seq<nat>, residual0: seq<nat>, vertex: Vertex, other: Vertex)
      requires IsPath(g, P + [vertex]) && BeforeCounts(g, P + [vertex], before0)
      requires useBins ==> ResidualDegrees(g, P + [vertex], deficit, residual0)
      requires other !in P + [vertex] && other in Neighbours(g, vertex)
      ensures other in Vertices(g) && 0 < before0[other] <= Degree(g, other)
      ensures useBins ==> residual0[other] < Size(g)
    {
      NeighbourFacts(g, vertex, other);
      var N, Q := Neighbours(g, other), P + [vertex];
      EarlierUnplaced(Q, other);
      assert vertex in N * Elems(Q);
      SubsetSize(N * Elems(Q), N);
      if useBins {
        forall u | u in N - Elems(Q) ensures u in Vertices(g) - {vertex} { NeighbourFacts(g, other, u); }
        assert vertex in Elems(Q);
        SubsetSize(N - Elems(Q), Vertices(g) - {vertex});
      }
    }

    /** Counts placed neighbours from scratch along the given path, then rebuilds what is derived. */
    method Load(newPath: seq<Vertex>)
      requires IsPath(g, newPath) && Fitted()
      modifies this, index, deltas, bins
      ensures Valid() && path == newPath && deficit == Missing(g, newPath)
    {
      hide BeforeCounts, IndexSync, DeltaSync, BinSync;
      path := newPath;
      prefix := Elems(newPath);
      deficit := Missing(g, newPath);
      before := CountPlaced(g, newPath);
      residual := CountResiduals(g, newPath);
      RebuildDerived();
    }

    method RebuildDerived()
      requires prefix <= Vertices(g) && BeforeCounts(g, path, before)
      requires |residual| == Size(g) && forall v :: 0 <= v < Size(g) ==> residual[v] <= Size(g)
      requires Fitted()
      modifies index, deltas, bins
      ensures Synced()
    {
      CountsInRange(g, path, before);
      hide BeforeCounts, MaximumDegree, BinSync, DeltaSync;
      if useBins {
        LoadBins(g, bins, prefix, residual);
      }
      if useDeltas {
        LoadDeltas(g, deltas, prefix, before);
      }
      if useIndex {
        index.Rebuild(g, prefix, before);
      }
    }
  }
}
