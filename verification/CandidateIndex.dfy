/**
  The delta-bucket candidate index: unplaced vertices grouped by the change their
  placement makes to the cut, with constant-time removal by swapping with the
  last member of a bucket.
 */
module CandidateIndexes {
  import opened Graphs

  /** The change of the cut when v is placed next, with `before` of its neighbours placed. */
  function DeltaOf(g: Graph, before: seq<nat>, v: Vertex): int
    requires v < |before|
  {
    Degree(g, v) - 2 * before[v]
  }

  /** The contents an index must have for the given prefix. */
  ghost function Expected(g: Graph, prefix: set<Vertex>, before: seq<nat>): map<Vertex, int>
    requires |before| == Size(g)
  {
    ExpectedBelow(g, prefix, before, Size(g))
  }

  ghost function ExpectedBelow(g: Graph, prefix: set<Vertex>, before: seq<nat>, n: nat): map<Vertex, int>
    requires n <= |before|
  {
    map v | v in Below(n) - prefix :: DeltaOf(g, before, v)
  }

  lemma ExpectedStep(g: Graph, prefix: set<Vertex>, before: seq<nat>, n: nat)
    requires n < |before|
    ensures n !in ExpectedBelow(g, prefix, before, n)
    ensures ExpectedBelow(g, prefix, before, n + 1) ==
            if n in prefix then ExpectedBelow(g, prefix, before, n)
            else ExpectedBelow(g, prefix, before, n)[n := DeltaOf(g, before, n)]
  {
  }

  lemma ExpectedChange(g: Graph, prefix: set<Vertex>, before: seq<nat>, v: Vertex, count: nat)
    requires |before| == Size(g) && v in Vertices(g) - prefix
    ensures v in Expected(g, prefix, before)
    ensures Expected(g, prefix, before[v := count]) == Expected(g, prefix, before)[v := Degree(g, v) - 2 * count]
  {
  }

  lemma ExpectedRemove(g: Graph, prefix: set<Vertex>, before: seq<nat>, v: Vertex)
    requires |before| == Size(g) && v in Vertices(g) - prefix
    ensures v in Expected(g, prefix, before)
    ensures Expected(g, prefix + {v}, before) == Expected(g, prefix, before) - {v}
  {
  }

  lemma ExpectedInsert(g: Graph, prefix: set<Vertex>, before: seq<nat>, v: Vertex)
    requires |before| == Size(g) && v in Vertices(g) && v in prefix
    ensures v !in Expected(g, prefix, before)
    ensures Expected(g, prefix - {v}, before) == Expected(g, prefix, before)[v := DeltaOf(g, before, v)]
  {
  }

  /** The fields of an index, as a value. */
  datatype Slots = Slots(delta: seq<int>, bucket: seq<nat>, position: seq<nat>, active: seq<bool>,
                         buckets: seq<seq<Vertex>>)

  ghost predicate Shaped(n: nat, maximum: nat, s: Slots) {
    && |s.delta| == |s.bucket| == |s.position| == |s.active| == n
    && |s.buckets| == 2 * maximum + 1
  }

  /** Every active vertex sits at its recorded position in the bucket of its delta. */
  ghost predicate Seated(n: nat, maximum: nat, s: Slots)
    requires Shaped(n, maximum, s)
  {
    forall v :: 0 <= v < n && s.active[v] ==>
      && -(maximum as int) <= s.delta[v] <= maximum && s.bucket[v] == s.delta[v] + maximum
      && s.position[v] < |s.buckets[s.bucket[v]]| && s.buckets[s.bucket[v]][s.position[v]] == v
  }

  /** Nothing else is in any bucket. */
  ghost predicate Filed(n: nat, maximum: nat, s: Slots)
    requires Shaped(n, maximum, s)
  {
    forall i, p :: 0 <= i < |s.buckets| && 0 <= p < |s.buckets[i]| ==>
      && s.buckets[i][p] < n && s.active[s.buckets[i][p]]
      && s.bucket[s.buckets[i][p]] == i && s.position[s.buckets[i][p]] == p
  }

  ghost function ContentsOf(n: nat, s: Slots): map<Vertex, int>
    requires |s.delta| == |s.active| == n
  {
    map v: Vertex | v in Below(n) && s.active[v] :: s.delta[v]
  }

  function WithVertex(n: nat, maximum: nat, s: Slots, v: Vertex, d: int): Slots
    requires |s.delta| == |s.bucket| == |s.position| == |s.active| == n && |s.buckets| == 2 * maximum + 1
    requires v < n && -(maximum as int) <= d <= maximum
  {
    var i := d + maximum;
    Slots(s.delta[v := d], s.bucket[v := i], s.position[v := |s.buckets[i]|], s.active[v := true],
          s.buckets[i := s.buckets[i] + [v]])
  }

  lemma InsertKeeps(n: nat, maximum: nat, s: Slots, v: Vertex, d: int)
    requires Shaped(n, maximum, s) && Seated(n, maximum, s) && Filed(n, maximum, s)
    requires v < n && !s.active[v] && -(maximum as int) <= d <= maximum
    ensures var t := WithVertex(n, maximum, s, v, d);
            && Shaped(n, maximum, t) && Seated(n, maximum, t) && Filed(n, maximum, t)
            && ContentsOf(n, t) == ContentsOf(n, s)[v := d]
  {
    var t, b := WithVertex(n, maximum, s, v, d), d + maximum;
    forall i, p | 0 <= i < |t.buckets| && 0 <= p < |t.buckets[i]|
      ensures && t.buckets[i][p] < n && t.active[t.buckets[i][p]]
              && t.bucket[t.buckets[i][p]] == i && t.position[t.buckets[i][p]] == p
    {
      if i != b || p < |s.buckets[b]| {
        assert t.buckets[i][p] == s.buckets[i][p];
      }
    }
  }

  /** The last vertex of the bucket takes the place of the removed one. */
  function WithoutVertex(n: nat, maximum: nat, s: Slots, v: Vertex): Slots
    requires |s.delta| == |s.bucket| == |s.position| == |s.active| == n && |s.buckets| == 2 * maximum + 1
    requires v < n && s.bucket[v] < |s.buckets| && s.position[v] < |s.buckets[s.bucket[v]]|
    requires s.buckets[s.bucket[v]][|s.buckets[s.bucket[v]]| - 1] < n
  {
    var values := s.buckets[s.bucket[v]];
    var moved := values[|values| - 1];
    var filled := values[s.position[v] := moved];
    Slots(s.delta, s.bucket, s.position[moved := s.position[v]], s.active[v := false],
          s.buckets[s.bucket[v] := filled[..|values| - 1]])
  }

  lemma RemoveFacts(n: nat, maximum: nat, s: Slots, v: Vertex)
    requires Shaped(n, maximum, s) && Seated(n, maximum, s) && Filed(n, maximum, s)
    requires v < n && s.active[v]
    ensures s.bucket[v] < |s.buckets| && s.position[v] < |s.buckets[s.bucket[v]]|
    ensures s.buckets[s.bucket[v]][s.position[v]] == v
    ensures var last := |s.buckets[s.bucket[v]]| - 1;
            var moved := s.buckets[s.bucket[v]][last];
            moved < n && s.active[moved] && s.bucket[moved] == s.bucket[v] && s.position[moved] == last
  {
  }

  lemma RemoveSeats(n: nat, maximum: nat, s: Slots, v: Vertex, u: Vertex)
    requires Shaped(n, maximum, s) && Seated(n, maximum, s) && Filed(n, maximum, s)
    requires v < n && s.active[v] && u < n && s.active[u] && u != v
    ensures s.bucket[v] < |s.buckets| && s.position[v] < |s.buckets[s.bucket[v]]|
    ensures s.buckets[s.bucket[v]][|s.buckets[s.bucket[v]]| - 1] < n
    ensures var t := WithoutVertex(n, maximum, s, v);
            && -(maximum as int) <= t.delta[u] <= maximum && t.bucket[u] == t.delta[u] + maximum
            && t.position[u] < |t.buckets[t.bucket[u]]| && t.buckets[t.bucket[u]][t.position[u]] == u
  {
    RemoveFacts(n, maximum, s, v);
    RemoveFacts(n, maximum, s, u);
  }

  lemma RemoveFiles(n: nat, maximum: nat, s: Slots, v: Vertex, i: nat, p: nat)
    requires Shaped(n, maximum, s) && Seated(n, maximum, s) && Filed(n, maximum, s)
    requires v < n && s.active[v]
    ensures s.bucket[v] < |s.buckets| && s.position[v] < |s.buckets[s.bucket[v]]|
    ensures s.buckets[s.bucket[v]][|s.buckets[s.bucket[v]]| - 1] < n
    ensures var t := WithoutVertex(n, maximum, s, v);
            i < |t.buckets| && p < |t.buckets[i]| ==>
              && t.buckets[i][p] < n && t.active[t.buckets[i][p]]
              && t.bucket[t.buckets[i][p]] == i && t.position[t.buckets[i][p]] == p
  {
    RemoveFacts(n, maximum, s, v);
    hide Seated;
    var t := WithoutVertex(n, maximum, s, v);
    if i < |t.buckets| && p < |t.buckets[i]| && (i != s.bucket[v] || p != s.position[v]) {
      var u := s.buckets[i][p];
      assert u < n && s.active[u] && s.bucket[u] == i && s.position[u] == p;
      assert t.buckets[i][p] == u;
    }
  }

  lemma RemoveKeeps(n: nat, maximum: nat, s: Slots, v: Vertex)
    requires Shaped(n, maximum, s) && Seated(n, maximum, s) && Filed(n, maximum, s)
    requires v < n && s.active[v]
    ensures s.bucket[v] < |s.buckets| && s.position[v] < |s.buckets[s.bucket[v]]|
    ensures s.buckets[s.bucket[v]][|s.buckets[s.bucket[v]]| - 1] < n
    ensures var t := WithoutVertex(n, maximum, s, v);
            && Shaped(n, maximum, t) && Seated(n, maximum, t) && Filed(n, maximum, t)
            && ContentsOf(n, t) == ContentsOf(n, s) - {v}
  {
    RemoveFacts(n, maximum, s, v);
    var t := WithoutVertex(n, maximum, s, v);
    assert t.active == s.active[v := false] && t.delta == s.delta && Shaped(n, maximum, t);
    assert ContentsOf(n, t) == ContentsOf(n, s) - {v};
    hide WithoutVertex, ContentsOf;
    assert Seated(n, maximum, t) by {
      forall u | 0 <= u < n && t.active[u]
        ensures && -(maximum as int) <= t.delta[u] <= maximum && t.bucket[u] == t.delta[u] + maximum
                && t.position[u] < |t.buckets[t.bucket[u]]| && t.buckets[t.bucket[u]][t.position[u]] == u
      {
        RemoveSeats(n, maximum, s, v, u);
      }
    }
    assert Filed(n, maximum, t) by {
      forall i, p | 0 <= i < |t.buckets| && 0 <= p < |t.buckets[i]|
        ensures && t.buckets[i][p] < n && t.active[t.buckets[i][p]]
                && t.bucket[t.buckets[i][p]] == i && t.position[t.buckets[i][p]] == p
      {
        RemoveFiles(n, maximum, s, v, i, p);
      }
    }
  }

  class DeltaBucketCandidateIndex {
    const n: nat
    const maximumDegree: nat
    var delta: seq<int>
    var bucket: seq<nat>
    var position: seq<nat>
    var active: seq<bool>
    var buckets: seq<seq<Vertex>>

    ghost predicate Shape()
      reads this
    {
      Shaped(n, maximumDegree, State())
    }

    predicate InRange(d: int) {
      -(maximumDegree as int) <= d <= maximumDegree
    }

    function State(): Slots
      reads this
    {
      Slots(delta, bucket, position, active, buckets)
    }

    ghost predicate Valid()
      reads this
    {
      Shape() && Seated(n, maximumDegree, State()) && Filed(n, maximumDegree, State())
    }

    ghost function Contents(): map<Vertex, int>
      requires Shape()
      reads this
    {
      ContentsOf(n, State())
    }

    constructor (g: Graph, prefix: set<Vertex>, before: seq<nat>)
      requires |before| == Size(g)
      requires forall v :: v in Vertices(g) - prefix ==> before[v] <= Degree(g, v)
      ensures Valid() && n == Size(g) && maximumDegree == MaximumDegree(g, Size(g))
      ensures Contents() == Expected(g, prefix, before)
    {
      n := Size(g);
      maximumDegree := MaximumDegree(g, Size(g));
      new;
      Rebuild(g, prefix, before);
    }

    /** Empties the index and inserts every unplaced vertex. */
    method Rebuild(g: Graph, prefix: set<Vertex>, before: seq<nat>)
      requires n == Size(g) == |before| && maximumDegree == MaximumDegree(g, Size(g))
      requires forall v :: v in Vertices(g) - prefix ==> before[v] <= Degree(g, v)
      modifies this
      ensures Valid() && Contents() == Expected(g, prefix, before)
    {
      hide ContentsOf, Degree, Expected, ExpectedBelow, Filed, MaximumDegree, Seated, Shaped;
      Clear();
      ExpectedEnds(g, prefix, before);
      for v := 0 to n
        invariant Valid() && Contents() == ExpectedBelow(g, prefix, before, v)
      {
        ExpectedStep(g, prefix, before, v);
        if v !in prefix {
          DeltaFits(g, prefix, before, v);
          var ok := Insert(v, DeltaOf(g, before, v));
        }
      }
    }

    lemma ExpectedEnds(g: Graph, prefix: set<Vertex>, before: seq<nat>)
      requires |before| == Size(g)
      ensures ExpectedBelow(g, prefix, before, 0) == map[]
      ensures ExpectedBelow(g, prefix, before, Size(g)) == Expected(g, prefix, before)
    {
    }

    lemma DeltaFits(g: Graph, prefix: set<Vertex>, before: seq<nat>, v: Vertex)
      requires Size(g) == |before| && maximumDegree == MaximumDegree(g, Size(g)) && v < Size(g) && v !in prefix
      requires forall u :: u in Vertices(g) - prefix ==> before[u] <= Degree(g, u)
      ensures InRange(DeltaOf(g, before, v))
    {
      assert v in Vertices(g) - prefix;
    }

    method Clear()
      modifies this
      ensures Valid() && Contents() == map[]
    {
      delta := seq(n, _ => 0);
      bucket := seq(n, _ => 0);
      position := seq(n, _ => 0);
      active := seq(n, _ => false);
      buckets := seq(2 * maximumDegree + 1, _ => []);
      assert Contents() == map[];
    }

    method Remove(vertex: Vertex) returns (ok: bool)
      requires Valid() && vertex < n
      modifies this
      ensures Valid()
      ensures ok <==> vertex in old(Contents())
      ensures Contents() == old(Contents()) - {vertex}
    {
      hide Seated, Filed;
      if !active[vertex] {
        assert Contents() == Contents() - {vertex};
        return false;
      }
      RemoveKeeps(n, maximumDegree, State(), vertex);
      assert vertex in Contents();
      hide ContentsOf;
      var values := buckets[bucket[vertex]];
      var at := position[vertex];
      var moved := values[|values| - 1];
      values := values[at := moved];
      position := position[moved := at];
      buckets := buckets[bucket[vertex] := values[..|values| - 1]];
      active := active[vertex := false];
      return true;
    }

    method Insert(vertex: Vertex, d: int) returns (ok: bool)
      requires Valid() && vertex < n
      modifies this
      ensures Valid()
      ensures ok <==> vertex !in old(Contents()) && InRange(d)
      ensures Contents() == if ok then old(Contents())[vertex := d] else old(Contents())
    {
      hide Seated, Filed;
      if active[vertex] || !InRange(d) {
        return false;
      }
      InsertKeeps(n, maximumDegree, State(), vertex, d);
      assert vertex !in Contents();
      hide ContentsOf;
      var index := d + maximumDegree;
      delta := delta[vertex := d];
      bucket := bucket[vertex := index];
      position := position[vertex := |buckets[index]|];
      buckets := buckets[index := buckets[index] + [vertex]];
      active := active[vertex := true];
      return true;
    }

    method Move(vertex: Vertex, d: int) returns (ok: bool)
      requires Valid() && vertex < n
      modifies this
      ensures Valid()
      ensures ok <==> vertex in old(Contents()) && InRange(d)
      ensures ok ==> Contents() == old(Contents())[vertex := d]
    {
      hide Seated, Filed, ContentsOf;
      ok := Remove(vertex);
      if ok {
        ok := Insert(vertex, d);
        assert ok ==> Contents() == old(Contents())[vertex := d];
      }
    }

    /** The vertices of delta at most `maximumDelta`, each once, with their deltas. */
    method Gather(maximumDelta: int) returns (emitted: seq<(Vertex, int)>)
      requires Valid()
      ensures forall i, j :: 0 <= i < j < |emitted| ==> emitted[i].0 != emitted[j].0
      ensures forall v, d :: (v, d) in emitted <==> v in Contents() && Contents()[v] == d && d <= maximumDelta
    {
      emitted := [];
      var upper := if maximumDelta < maximumDegree then maximumDelta else maximumDegree;
      var lower := -(maximumDegree as int);
      if upper < lower {
        return;
      }
      for d := lower to upper + 1
        invariant forall i, j :: 0 <= i < j < |emitted| ==> emitted[i].0 != emitted[j].0
        invariant forall v, e :: (v, e) in emitted <==> v in Contents() && Contents()[v] == e && e < d
      {
        var values := buckets[d + maximumDegree];
        for p := 0 to |values|
          invariant forall i, j :: 0 <= i < j < |emitted| ==> emitted[i].0 != emitted[j].0
          invariant forall v, e :: (v, e) in emitted <==>
                      v in Contents() && Contents()[v] == e && (e < d || (e == d && position[v] < p))
        {
          var v := values[p];
          assert v in Contents() && Contents()[v] == d;
          assert forall i :: 0 <= i < |emitted| ==> (emitted[i].0, emitted[i].1) in emitted;
          emitted := emitted + [(v, d)];
        }
      }
    }

    /** Accepts exactly the states that are intact and describe the given prefix. */
    method Validate(g: Graph, prefix: set<Vertex>, before: seq<nat>) returns (ok: bool)
      requires Shape() && n == Size(g) == |before|
      requires forall v :: v in Vertices(g) - prefix ==> InRange(DeltaOf(g, before, v))
      ensures ok <==> Valid() && Contents() == Expected(g, prefix, before)
    {
      var seen, members := MarkMembers();
      if !members {
        return false;
      }
      ok := Describes(g, prefix, before, seen);
    }

    /** Marks the vertices found in the buckets; stops at an entry that is not recorded consistently. */
    method MarkMembers() returns (seen: seq<bool>, ok: bool)
      requires Shape()
      ensures ok <==> forall a, p :: 0 <= a < |buckets| && 0 <= p < |buckets[a]| ==> Member(a, p)
      ensures ok ==> |seen| == n && forall v :: 0 <= v < n ==> (seen[v] <==> SeenBefore(v, |buckets|, 0))
      ensures Valid() ==> ok
    {
      seen := seq(n, _ => false);
      for i := 0 to |buckets|
        invariant |seen| == n
        invariant forall a, p :: 0 <= a < i && 0 <= p < |buckets[a]| ==> Member(a, p)
        invariant forall v :: 0 <= v < n ==> (seen[v] <==> SeenBefore(v, i, 0))
      {
        for p := 0 to |buckets[i]|
          invariant |seen| == n
          invariant forall a, q :: 0 <= a < i && 0 <= q < |buckets[a]| ==> Member(a, q)
          invariant forall q :: 0 <= q < p ==> Member(i, q)
          invariant forall v :: 0 <= v < n ==> (seen[v] <==> SeenBefore(v, i, p))
        {
          var v := buckets[i][p];
          assert v < n && seen[v] ==> SeenBefore(v, i, p);
          if v >= n || seen[v] || !active[v] || bucket[v] != i || position[v] != p {
            assert !Member(i, p);
            return seen, false;
          }
          assert Member(i, p);
          seen := seen[v := true];
        }
      }
      return seen, true;
    }

    /** The recorded vertices, deltas and buckets are those of the unplaced vertices. */
    method Describes(g: Graph, prefix: set<Vertex>, before: seq<nat>, seen: seq<bool>) returns (ok: bool)
      requires Shape() && n == Size(g) == |before| == |seen|
      requires forall v :: v in Vertices(g) - prefix ==> InRange(DeltaOf(g, before, v))
      requires forall a, p :: 0 <= a < |buckets| && 0 <= p < |buckets[a]| ==> Member(a, p)
      requires forall v :: 0 <= v < n ==> (seen[v] <==> SeenBefore(v, |buckets|, 0))
      ensures ok <==> Valid() && Contents() == Expected(g, prefix, before)
    {
      for v := 0 to n
        invariant forall u :: 0 <= u < v ==> (active[u] <==> u !in prefix) && (seen[u] <==> u !in prefix)
        invariant forall u :: 0 <= u < v && u !in prefix ==>
                    delta[u] == DeltaOf(g, before, u) && bucket[u] == delta[u] + maximumDegree
      {
        var expected := v !in prefix;
        if active[v] != expected || seen[v] != expected {
          assert v in Contents() <==> active[v];
          assert v in Expected(g, prefix, before) <==> expected;
          assert Valid() && active[v] ==> SeenBefore(v, |buckets|, 0);
          return false;
        }
        if expected && (delta[v] != DeltaOf(g, before, v) || bucket[v] != DeltaOf(g, before, v) + maximumDegree) {
          assert v in Contents() && v in Expected(g, prefix, before);
          return false;
        }
      }
      assert Contents() == Expected(g, prefix, before);
      forall v | 0 <= v < n && active[v]
        ensures InRange(delta[v]) && position[v] < |buckets[bucket[v]]| && buckets[bucket[v]][position[v]] == v
      {
        assert v in Vertices(g) - prefix;
        assert SeenBefore(v, |buckets|, 0);
      }
      forall i, p | 0 <= i < |buckets| && 0 <= p < |buckets[i]|
        ensures buckets[i][p] < n && active[buckets[i][p]]
        ensures bucket[buckets[i][p]] == i && position[buckets[i][p]] == p
      {
        assert Member(i, p);
      }
      return true;
    }

    /** The entry at (i, p) is recorded consistently. */
    ghost predicate Member(i: nat, p: nat)
      requires Shape() && i < |buckets| && p < |buckets[i]|
      reads this
    {
      var v := buckets[i][p];
      v < n && active[v] && bucket[v] == i && position[v] == p
    }

    /** v occurs in a bucket before i, or before position p of bucket i. */
    ghost predicate SeenBefore(v: Vertex, i: nat, p: nat)
      requires Shape() && v < n
      reads this
    {
      && bucket[v] < |buckets| && position[v] < |buckets[bucket[v]]|
      && buckets[bucket[v]][position[v]] == v && active[v]
      && (bucket[v] < i || (bucket[v] == i && position[v] < p))
    }
  }
}
