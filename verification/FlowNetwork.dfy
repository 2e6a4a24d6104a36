/**
  Flows as values.  The two entries that an edge has in the adjacency lists are
  views of one arc, so conservation, capacities and cuts are sums over arcs.
 */
module FlowNetworks {
  import opened Graphs

  datatype FlowEdge = FlowEdge(to: nat, cap: int, flow: int, rev: nat)

  /** An arc and the places of its forward and backward entries. */
  datatype Arc = Arc(source: nat, target: nat, cap: int, flow: int, at: nat, back: nat)

  type Lists = seq<seq<FlowEdge>>
  type Tags = seq<seq<nat>>

  /** Arc k is within capacity, and its two entries mirror each other. */
  ghost predicate ArcOk(n: nat, adj: Lists, tags: Tags, k: nat, a: Arc)
    requires |adj| == |tags| == n
  {
    && a.source < n && a.target < n && a.source != a.target && 0 <= a.flow <= a.cap
    && a.at < |adj[a.source]| && a.back < |adj[a.target]|
    && adj[a.source][a.at] == FlowEdge(a.target, a.cap, a.flow, a.back)
    && adj[a.target][a.back] == FlowEdge(a.source, 0, -a.flow, a.at)
    && a.at < |tags[a.source]| && a.back < |tags[a.target]|
    && tags[a.source][a.at] == k && tags[a.target][a.back] == k
  }

  /** Entry (v, i) is one of the two views of the arc it is tagged with. */
  ghost predicate EntryOk(arcs: seq<Arc>, v: nat, i: nat, k: nat) {
    k < |arcs| && ((arcs[k].source == v && arcs[k].at == i) || (arcs[k].target == v && arcs[k].back == i))
  }

  ghost predicate Represents(n: nat, adj: Lists, tags: Tags, arcs: seq<Arc>) {
    && |adj| == |tags| == n
    && (forall v :: 0 <= v < n ==> |tags[v]| == |adj[v]|)
    && (forall k :: 0 <= k < |arcs| ==> ArcOk(n, adj, tags, k, arcs[k]))
    && (forall v, i :: 0 <= v < n && 0 <= i < |adj[v]| ==> EntryOk(arcs, v, i, tags[v][i]))
  }

  /** What an entry says about its arc. */
  lemma EntryFacts(n: nat, adj: Lists, tags: Tags, arcs: seq<Arc>, v: nat, i: nat)
    requires Represents(n, adj, tags, arcs) && v < n && i < |adj[v]|
    ensures var e := adj[v][i];
            && v < |tags| && i < |tags[v]| && tags[v][i] < |arcs| && e.to < n && e.to != v && e.rev < |adj[e.to]|
            && e.cap - e.flow >= 0
            && var a := arcs[tags[v][i]];
               if a.source == v && a.at == i then e == FlowEdge(a.target, a.cap, a.flow, a.back)
               else a.target == v && a.back == i && e == FlowEdge(a.source, 0, -a.flow, a.at)
  {
    assert EntryOk(arcs, v, i, tags[v][i]);
    assert ArcOk(n, adj, tags, tags[v][i], arcs[tags[v][i]]);
  }

  // ----- sums over arcs -----

  /** Flow out of x less flow into x. */
  ghost function NetOut(arcs: seq<Arc>, x: nat): int {
    if arcs == [] then 0
    else
      var a := arcs[|arcs| - 1];
      NetOut(arcs[..|arcs| - 1], x) + (if a.source == x then a.flow else 0) - (if a.target == x then a.flow else 0)
  }

  /** Flow out of W less flow into W. */
  ghost function Across(arcs: seq<Arc>, W: set<nat>): int {
    if arcs == [] then 0
    else
      var a := arcs[|arcs| - 1];
      Across(arcs[..|arcs| - 1], W) + (if a.source in W then a.flow else 0) - (if a.target in W then a.flow else 0)
  }

  /** The capacity of the arcs that leave W. */
  ghost function CutCapacity(arcs: seq<Arc>, W: set<nat>): int {
    if arcs == [] then 0
    else
      var a := arcs[|arcs| - 1];
      CutCapacity(arcs[..|arcs| - 1], W) + if a.source in W && a.target !in W then a.cap else 0
  }

  ghost predicate WithinCapacity(arcs: seq<Arc>) {
    forall k :: 0 <= k < |arcs| ==> 0 <= arcs[k].flow <= arcs[k].cap
  }

  /** The same arcs, up to flow. */
  ghost predicate SameNetwork(arcs: seq<Arc>, other: seq<Arc>) {
    |arcs| == |other| && forall k :: 0 <= k < |arcs| ==> arcs[k].(flow := 0) == other[k].(flow := 0)
  }

  lemma {:induction false} SameCapacity(arcs: seq<Arc>, other: seq<Arc>, W: set<nat>)
    requires SameNetwork(arcs, other)
    ensures CutCapacity(arcs, W) == CutCapacity(other, W)
  {
    if arcs != [] {
      var n := |arcs| - 1;
      assert arcs[n].(flow := 0) == other[n].(flow := 0);
      SameCapacity(arcs[..n], other[..n], W);
    }
  }

  lemma {:induction false} AcrossStep(arcs: seq<Arc>, W: set<nat>, v: nat)
    requires v !in W
    ensures Across(arcs, W + {v}) == Across(arcs, W) + NetOut(arcs, v)
  {
    if arcs != [] {
      AcrossStep(arcs[..|arcs| - 1], W, v);
    }
  }

  lemma {:induction false} AcrossNothing(arcs: seq<Arc>)
    ensures Across(arcs, {}) == 0
  {
    if arcs != [] {
      AcrossNothing(arcs[..|arcs| - 1]);
    }
  }

  /** Flow is conserved everywhere but at s and t, and s sends `value` to t. */
  ghost predicate Conserved(arcs: seq<Arc>, s: nat, t: nat, value: int) {
    forall x :: NetOut(arcs, x) == (if x == s then value else 0) - (if x == t then value else 0)
  }

  /** Every set that separates s from t carries the whole value across. */
  lemma {:induction false} ValueCrosses(arcs: seq<Arc>, s: nat, t: nat, value: int, W: set<nat>)
    requires Conserved(arcs, s, t, value) && t !in W
    ensures Across(arcs, W) == if s in W then value else 0
    decreases |W|
  {
    if W == {} {
      AcrossNothing(arcs);
    } else {
      var v :| v in W;
      ValueCrosses(arcs, s, t, value, W - {v});
      AcrossStep(arcs, W - {v}, v);
      assert W - {v} + {v} == W;
    }
  }

  /** Weak duality: no more can cross than the capacity that leaves. */
  lemma {:induction false} CrossingBounded(arcs: seq<Arc>, W: set<nat>)
    requires WithinCapacity(arcs)
    ensures Across(arcs, W) <= CutCapacity(arcs, W)
  {
    if arcs != [] {
      assert arcs[|arcs| - 1] == arcs[..][|arcs| - 1];
      CrossingBounded(arcs[..|arcs| - 1], W);
    }
  }

  /** Arcs that leave W are full and arcs that enter it are empty. */
  ghost predicate Saturated(arcs: seq<Arc>, W: set<nat>) {
    forall k :: 0 <= k < |arcs| ==>
      && (arcs[k].source in W && arcs[k].target !in W ==> arcs[k].flow == arcs[k].cap)
      && (arcs[k].source !in W && arcs[k].target in W ==> arcs[k].flow == 0)
  }

  lemma {:induction false} SaturatedCarriesAll(arcs: seq<Arc>, W: set<nat>)
    requires Saturated(arcs, W)
    ensures Across(arcs, W) == CutCapacity(arcs, W)
  {
    if arcs != [] {
      assert arcs[|arcs| - 1] == arcs[..][|arcs| - 1];
      SaturatedCarriesAll(arcs[..|arcs| - 1], W);
    }
  }

  lemma FlowWithinCut(n: nat, adj: Lists, tags: Tags, arcs: seq<Arc>, s: nat, t: nat, value: int, W: set<nat>)
    requires Represents(n, adj, tags, arcs) && Conserved(arcs, s, t, value) && s in W && t !in W
    ensures value <= CutCapacity(arcs, W)
  {
    assert WithinCapacity(arcs) by {
      forall k | 0 <= k < |arcs| ensures 0 <= arcs[k].flow <= arcs[k].cap {
        assert ArcOk(n, adj, tags, k, arcs[k]);
      }
    }
    ValueCrosses(arcs, s, t, value, W);
    CrossingBounded(arcs, W);
  }

  // ----- pushing along one entry -----

  /** The arcs after r units are pushed along entry (v, i). */
  ghost function PushedArcs(arcs: seq<Arc>, v: nat, i: nat, k: nat, r: int): seq<Arc>
    requires k < |arcs|
  {
    var a := arcs[k];
    arcs[k := a.(flow := if a.source == v && a.at == i then a.flow + r else a.flow - r)]
  }

  function PushedLists(adj: Lists, v: nat, i: nat, r: int): Lists
    requires v < |adj| && i < |adj[v]|
    requires var e := adj[v][i]; e.to < |adj| && e.to != v && e.rev < |adj[e.to]|
  {
    var e := adj[v][i];
    var back := adj[e.to][e.rev];
    adj[v := adj[v][i := e.(flow := e.flow + r)]][e.to := adj[e.to][e.rev := back.(flow := back.flow - r)]]
  }

  lemma PushKeepsRepresentation(n: nat, adj: Lists, tags: Tags, arcs: seq<Arc>, v: nat, i: nat, r: int)
    requires Represents(n, adj, tags, arcs) && v < n && i < |adj[v]|
    requires 0 <= r <= adj[v][i].cap - adj[v][i].flow
    ensures tags[v][i] < |arcs| && adj[v][i].to < n && adj[v][i].to != v && adj[v][i].rev < |adj[adj[v][i].to]|
    ensures Represents(n, PushedLists(adj, v, i, r), tags, PushedArcs(arcs, v, i, tags[v][i], r))
    ensures SameNetwork(PushedArcs(arcs, v, i, tags[v][i], r), arcs)
  {
    EntryFacts(n, adj, tags, arcs, v, i);
    var k := tags[v][i];
    var after, pushed := PushedLists(adj, v, i, r), PushedArcs(arcs, v, i, k, r);
    forall j | 0 <= j < |pushed| ensures ArcOk(n, after, tags, j, pushed[j]) {
      PushKeepsArc(n, adj, tags, arcs, v, i, r, j);
    }
    hide ArcOk;
    forall u, j | 0 <= u < n && 0 <= j < |after[u]| ensures EntryOk(pushed, u, j, tags[u][j]) {
      assert EntryOk(arcs, u, j, tags[u][j]);
    }
  }

  lemma PushKeepsArc(n: nat, adj: Lists, tags: Tags, arcs: seq<Arc>, v: nat, i: nat, r: int, j: nat)
    requires Represents(n, adj, tags, arcs) && v < n && i < |adj[v]| && j < |arcs|
    requires 0 <= r <= adj[v][i].cap - adj[v][i].flow
    ensures tags[v][i] < |arcs| && adj[v][i].to < n && adj[v][i].to != v && adj[v][i].rev < |adj[adj[v][i].to]|
    ensures ArcOk(n, PushedLists(adj, v, i, r), tags, j, PushedArcs(arcs, v, i, tags[v][i], r)[j])
  {
    EntryFacts(n, adj, tags, arcs, v, i);
    assert ArcOk(n, adj, tags, j, arcs[j]);
    assert ArcOk(n, adj, tags, tags[v][i], arcs[tags[v][i]]);
  }

  lemma TagFacts(n: nat, adj: Lists, tags: Tags, arcs: seq<Arc>, v: nat, i: nat)
    requires Represents(n, adj, tags, arcs) && v < n && i < |adj[v]|
    ensures v < |adj| == |tags| && i < |tags[v]| && tags[v][i] < |arcs|
    ensures var a := arcs[tags[v][i]];
            && a.source != a.target
            && if a.source == v && a.at == i then adj[v][i].to == a.target else a.target == v && adj[v][i].to == a.source
  {
    EntryFacts(n, adj, tags, arcs, v, i);
    assert ArcOk(n, adj, tags, tags[v][i], arcs[tags[v][i]]);
  }

  lemma PushedArc(arcs: seq<Arc>, v: nat, i: nat, k: nat, r: int)
    requires k < |arcs|
    ensures var a := arcs[k];
            PushedArcs(arcs, v, i, k, r)
            == arcs[k := a.(flow := if a.source == v && a.at == i then a.flow + r else a.flow - r)]
  {
  }

  /** Pushing r along (v, i) sends r more out of v and r more into its target. */
  lemma PushMovesFlow(n: nat, adj: Lists, tags: Tags, arcs: seq<Arc>, v: nat, i: nat, r: int, x: nat)
    requires Represents(n, adj, tags, arcs) && v < n && i < |adj[v]|
    ensures v < |adj| == |tags| && i < |tags[v]| && tags[v][i] < |arcs|
    ensures NetOut(PushedArcs(arcs, v, i, tags[v][i], r), x) ==
              NetOut(arcs, x) + (if x == v then r else 0) - (if x == adj[v][i].to then r else 0)
  {
    hide *;
    TagFacts(n, adj, tags, arcs, v, i);
    var k := tags[v][i];
    var a := arcs[k];
    PushedArc(arcs, v, i, k, r);
    if a.source == v && a.at == i {
      NetOutUpdate(arcs, k, a.flow + r, x);
    } else {
      NetOutUpdate(arcs, k, a.flow - r, x);
    }
  }

  lemma {:induction false} NetOutUpdate(arcs: seq<Arc>, k: nat, flow: int, x: nat)
    requires k < |arcs|
    ensures var a := arcs[k];
            NetOut(arcs[k := a.(flow := flow)], x) ==
              NetOut(arcs, x) + (if a.source == x then flow - a.flow else 0) - (if a.target == x then flow - a.flow else 0)
  {
    var n := |arcs| - 1;
    var after := arcs[k := arcs[k].(flow := flow)];
    if k == n {
      assert after[..n] == arcs[..n];
    } else {
      NetOutUpdate(arcs[..n], k, flow, x);
      assert after[..n] == arcs[..n][k := arcs[k].(flow := flow)];
    }
  }
}
