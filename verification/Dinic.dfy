/**
  Dinic's algorithm over adjacency lists with reverse entries: level graphs by
  breadth-first search, augmentation by depth-first search with dead-end
  pointers, and the minimum cut that the last search leaves behind.
 */
module DinicFlow {
  import opened Graphs
  import opened Feasibility
  import opened FlowNetworks

  const INT64_MAX: int := 0x7FFF_FFFF_FFFF_FFFF

  // ----- the level graph -----

  /** Entry (v, i) leads one level up and has residual capacity. */
  predicate Admissible(adj: Lists, level: seq<int>, v: nat, i: nat)
    requires v < |adj| && i < |adj[v]| && v < |level|
  {
    var e := adj[v][i];
    e.to < |level| && level[v] + 1 == level[e.to] && e.cap - e.flow != 0
  }

  /** Levels lie between -1 and n. */
  ghost predicate LevelsOk(n: nat, level: seq<int>) {
    |level| == n && forall v :: 0 <= v < n ==> -1 <= level[v] <= n
  }

  /** t can be reached from v along admissible entries. */
  ghost predicate CanReach(n: nat, adj: Lists, level: seq<int>, t: nat, v: nat)
    requires |adj| == n && LevelsOk(n, level) && v < n
    decreases n - level[v]
  {
    v == t || exists i :: 0 <= i < |adj[v]| && Admissible(adj, level, v, i) && adj[v][i].to < n
                          && CanReach(n, adj, level, t, adj[v][i].to)
  }

  /** Entry (v, i) is of no use: not admissible, or its target cannot reach t. */
  ghost predicate Dead(n: nat, adj: Lists, level: seq<int>, t: nat, v: nat, i: nat)
    requires |adj| == n && LevelsOk(n, level) && v < n && i < |adj[v]|
  {
    Admissible(adj, level, v, i) && adj[v][i].to < n ==> !CanReach(n, adj, level, t, adj[v][i].to)
  }

  /** Everything before the pointers is dead. */
  ghost predicate PointersOk(n: nat, adj: Lists, level: seq<int>, t: nat, ptr: seq<nat>) {
    && |adj| == |ptr| == n && LevelsOk(n, level)
    && (forall v :: 0 <= v < n ==> ptr[v] <= |adj[v]|)
    && (forall v, i :: 0 <= v < n && 0 <= i < ptr[v] ==> Dead(n, adj, level, t, v, i))
  }

  lemma AllDead(n: nat, adj: Lists, level: seq<int>, t: nat, ptr: seq<nat>, v: nat)
    requires PointersOk(n, adj, level, t, ptr) && v < n && v != t && ptr[v] == |adj[v]|
    ensures !CanReach(n, adj, level, t, v)
  {
    forall i | 0 <= i < |adj[v]| && Admissible(adj, level, v, i) && adj[v][i].to < n
      ensures !CanReach(n, adj, level, t, adj[v][i].to)
    {
      assert Dead(n, adj, level, t, v, i);
    }
  }

  /** One more dead entry lets the pointer pass it. */
  lemma PointerStep(n: nat, adj: Lists, level: seq<int>, t: nat, ptr: seq<nat>, v: nat)
    requires PointersOk(n, adj, level, t, ptr) && v < n && ptr[v] < |adj[v]| && Dead(n, adj, level, t, v, ptr[v])
    ensures PointersOk(n, adj, level, t, ptr[v := ptr[v] + 1])
  {
  }

  /** The queue holds the reached vertices in order of discovery; the first `head` have been expanded. */
  ghost predicate QueueOk(n: nat, level: seq<int>, q: seq<nat>, head: nat) {
    && LevelsOk(n, level) && head <= |q| <= n && Distinct(q)
    && (forall v: nat :: v in q <==> v < n && level[v] >= 0)
    && (forall j :: 0 <= j < |q| ==> q[j] < n && level[q[j]] <= j)
    && (forall i, j :: 0 <= i < j < |q| ==> level[q[i]] <= level[q[j]])
    && (head < |q| ==> forall j :: 0 <= j < |q| ==> level[q[j]] <= level[q[head]] + 1)
  }

  /** Reached vertices stand one level above some neighbour, down to s. */
  ghost predicate Layers(n: nat, adj: Lists, level: seq<int>, s: nat) {
    && |adj| == n && LevelsOk(n, level) && s < n && level[s] == 0
    && (forall v :: 0 <= v < n && level[v] > 0 ==> Preceded(n, adj, level, v))
    && (forall v :: 0 <= v < n && level[v] == 0 ==> v == s)
  }

  /** The first i entries of v, where residual, lead to reached vertices at most one level up. */
  ghost predicate ExpandedTo(n: nat, adj: Lists, level: seq<int>, v: nat, i: nat) {
    && |adj| == |level| == n && v < n && i <= |adj[v]|
    && forall j :: 0 <= j < i && adj[v][j].cap - adj[v][j].flow > 0 ==>
         adj[v][j].to < n && 0 <= level[adj[v][j].to] <= level[v] + 1
  }

  ghost predicate Expanded(n: nat, adj: Lists, level: seq<int>, v: nat) {
    |adj| == n && v < n && ExpandedTo(n, adj, level, v, |adj[v]|)
  }

  ghost predicate HeadExpanded(n: nat, adj: Lists, level: seq<int>, q: seq<nat>, head: nat) {
    head <= |q| && forall j :: 0 <= j < head ==> Expanded(n, adj, level, q[j])
  }

  lemma ExpandedStart(n: nat, adj: Lists, level: seq<int>, v: nat)
    requires |adj| == |level| == n && v < n
    ensures ExpandedTo(n, adj, level, v, 0)
  {
  }

  lemma ExpandedStep(n: nat, adj: Lists, level: seq<int>, v: nat, i: nat)
    requires ExpandedTo(n, adj, level, v, i) && i < |adj[v]|
    requires var e := adj[v][i]; e.cap - e.flow > 0 ==> e.to < n && 0 <= level[e.to] <= level[v] + 1
    ensures ExpandedTo(n, adj, level, v, i + 1)
  {
  }

  /** Giving an unreached vertex a level keeps what has been expanded. */
  lemma StayExpanded(n: nat, adj: Lists, level: seq<int>, q: seq<nat>, head: nat, v: nat, i: nat, w: nat, d: int)
    requires HeadExpanded(n, adj, level, q, head) && ExpandedTo(n, adj, level, v, i) && w < n && d >= 0
    requires |level| == n && level[w] == -1 && v != w && forall j :: 0 <= j < head ==> q[j] != w
    ensures HeadExpanded(n, adj, level[w := d], q + [w], head) && ExpandedTo(n, adj, level[w := d], v, i)
  {
    forall j | 0 <= j < head ensures Expanded(n, adj, level[w := d], q[j]) {
      assert Expanded(n, adj, level, q[j]);
    }
  }

  lemma HeadStep(n: nat, adj: Lists, level: seq<int>, q: seq<nat>, head: nat)
    requires HeadExpanded(n, adj, level, q, head) && head < |q| && Expanded(n, adj, level, q[head])
    ensures HeadExpanded(n, adj, level, q, head + 1)
  {
  }

  lemma QueueStep(n: nat, level: seq<int>, q: seq<nat>, head: nat)
    requires QueueOk(n, level, q, head) && head < |q|
    ensures QueueOk(n, level, q, head + 1) && head < n
  {
  }

  /** Once everything in the queue has been expanded, the levels are a layering. */
  lemma SearchEnds(n: nat, adj: Lists, level: seq<int>, s: nat, q: seq<nat>, head: nat)
    requires QueueOk(n, level, q, head) && Layers(n, adj, level, s) && HeadExpanded(n, adj, level, q, head)
    requires head >= |q|
    ensures Layered(n, adj, level, s)
  {
    hide Distinct, Preceded;
    forall v, i | 0 <= v < n && 0 <= i < |adj[v]| && level[v] >= 0 && adj[v][i].cap - adj[v][i].flow > 0
      ensures adj[v][i].to < n && 0 <= level[adj[v][i].to] <= level[v] + 1
    {
      assert v in q;
      var j :| 0 <= j < |q| && q[j] == v;
      assert Expanded(n, adj, level, q[j]);
    }
  }

  lemma SearchStarts(n: nat, adj: Lists, s: nat)
    requires |adj| == n && s < n
    ensures var level := seq(n, _ => -1)[s := 0];
            QueueOk(n, level, [s], 0) && Layers(n, adj, level, s) && HeadExpanded(n, adj, level, [s], 0)
  {
    QueueFits(n, [s]);
  }

  /** A newly discovered vertex joins the queue. */
  lemma Enqueue(n: nat, level: seq<int>, q: seq<nat>, head: nat, w: nat)
    requires QueueOk(n, level, q, head) && head < |q| && w < n && level[w] == -1
    ensures q[head] < n && 0 <= level[q[head]] < n
    ensures QueueOk(n, level[w := level[q[head]] + 1], q + [w], head)
  {
    var v := q[head];
    assert v in q && w !in q;
    Joined(n, level, q, w, level[v] + 1);
    KeptLevels(n, level, q, w, level[v] + 1);
    assert Distinct(q + [w]) by {
      hide QueueOk;
      NewIsDistinct(q, w);
    }
    QueueFits(n, q + [w]);
  }

  lemma Joined(n: nat, level: seq<int>, q: seq<nat>, w: nat, d: int)
    requires |level| == n && w < n && d >= 0 && forall v: nat :: v in q <==> v < n && level[v] >= 0
    ensures forall v: nat :: v in q + [w] <==> v < n && level[w := d][v] >= 0
  {
  }

  lemma KeptLevels(n: nat, level: seq<int>, q: seq<nat>, w: nat, d: int)
    requires |level| == n && w < n && w !in q && forall j :: 0 <= j < |q| ==> q[j] < n
    ensures forall j :: 0 <= j < |q| ==> (q + [w])[j] < n && level[w := d][(q + [w])[j]] == level[q[j]]
    ensures (q + [w])[|q|] == w && level[w := d][w] == d
  {
    forall j | 0 <= j < |q| ensures (q + [w])[j] < n && level[w := d][(q + [w])[j]] == level[q[j]] {
      assert q[j] in q;
    }
  }

  lemma NewIsDistinct(q: seq<nat>, w: nat)
    requires Distinct(q) && w !in q
    ensures Distinct(q + [w])
  {
  }

  /** A residual entry to an unreached vertex gives it the next level. */
  lemma Discover(n: nat, adj: Lists, level: seq<int>, s: nat, v: nat, i: nat)
    requires Layers(n, adj, level, s) && v < n && 0 <= level[v] < n && i < |adj[v]|
    requires var e := adj[v][i]; e.cap - e.flow > 0 && e.to < n && level[e.to] == -1
    ensures Layers(n, adj, level[adj[v][i].to := level[v] + 1], s)
  {
    var w := adj[v][i].to;
    var level' := level[w := level[v] + 1];
    assert Admissible(adj, level', v, i);
    forall u | 0 <= u < n && level'[u] > 0 && u != w ensures Preceded(n, adj, level', u) {
      StayPreceded(n, adj, level, u, w, level[v] + 1);
    }
  }

  lemma StayPreceded(n: nat, adj: Lists, level: seq<int>, u: nat, w: nat, d: int)
    requires |adj| == n && LevelsOk(n, level) && u < n && w < n && 0 <= d <= n
    requires Preceded(n, adj, level, u) && level[w] == -1 && level[u] > 0
    ensures Preceded(n, adj, level[w := d], u)
  {
    var x, j :| 0 <= x < n && 0 <= j < |adj[x]| && adj[x][j].to == u && Admissible(adj, level, x, j);
    assert Admissible(adj, level[w := d], x, j);
  }

  lemma QueueFits(n: nat, q: seq<nat>)
    requires Distinct(q) && forall v :: v in q ==> v < n
    ensures |q| <= n
  {
    DistinctSize(q);
    SubsetSize(Elems(q), Below(n));
  }

  /** A vertex on a level above zero was reached through a residual entry from the level below. */
  ghost predicate Preceded(n: nat, adj: Lists, level: seq<int>, v: nat)
    requires |adj| == n && LevelsOk(n, level) && v < n
  {
    exists u, i :: 0 <= u < n && 0 <= i < |adj[u]| && adj[u][i].to == v && Admissible(adj, level, u, i)
  }

  /** What breadth-first search leaves: levels that are reached step by step, closed under residual entries. */
  ghost predicate Layered(n: nat, adj: Lists, level: seq<int>, s: nat) {
    && |adj| == n && LevelsOk(n, level) && s < n && level[s] == 0
    && (forall v :: 0 <= v < n && level[v] > 0 ==> Preceded(n, adj, level, v))
    && (forall v :: 0 <= v < n && level[v] == 0 ==> v == s)
    && (forall v, i :: 0 <= v < n && 0 <= i < |adj[v]| && level[v] >= 0 && adj[v][i].cap - adj[v][i].flow > 0 ==>
          adj[v][i].to < n && 0 <= level[adj[v][i].to] <= level[v] + 1)
  }

  // ----- one phase -----

  /** No residual entry of a reached vertex leads more than one level up. */
  ghost predicate OneStepUp(n: nat, adj: Lists, level: seq<int>) {
    |adj| == n && LevelsOk(n, level) &&
    forall v, i :: 0 <= v < n && 0 <= i < |adj[v]| && level[v] >= 0 && adj[v][i].cap - adj[v][i].flow != 0 ==>
      adj[v][i].to < n && 0 <= level[adj[v][i].to] <= level[v] + 1
  }

  /** The same entries; one that became residual leads from a reached vertex down to another. */
  ghost predicate Fewer(level: seq<int>, before: Lists, after: Lists) {
    && |after| == |before| == |level|
    && (forall u :: 0 <= u < |level| ==> |after[u]| == |before[u]|)
    && (forall u, j :: 0 <= u < |level| && 0 <= j < |after[u]| ==> FewerAt(level, u, before[u][j], after[u][j]))
  }

  ghost predicate FewerAt(level: seq<int>, u: nat, before: FlowEdge, after: FlowEdge)
    requires u < |level|
  {
    && after.to == before.to
    && (after.cap - after.flow != 0 ==>
          before.cap - before.flow != 0 || (after.to < |level| && 0 <= level[after.to] < level[u]))
  }

  lemma FewerSelf(level: seq<int>, adj: Lists)
    requires |adj| == |level|
    ensures Fewer(level, adj, adj)
  {
  }

  lemma FewerTrans(level: seq<int>, a: Lists, b: Lists, c: Lists)
    requires Fewer(level, a, b) && Fewer(level, b, c)
    ensures Fewer(level, a, c)
  {
    forall u, j | 0 <= u < |level| && 0 <= j < |c[u]| ensures FewerAt(level, u, a[u][j], c[u][j]) {
      assert FewerAt(level, u, a[u][j], b[u][j]) && FewerAt(level, u, b[u][j], c[u][j]);
    }
  }

  /** A push along an entry that leads up frees only the entry that leads back down. */
  lemma PushedIsFewer(adj: Lists, level: seq<int>, v: nat, i: nat, r: int)
    requires |adj| == |level| && v < |adj| && i < |adj[v]|
    requires var e := adj[v][i];
             && e.to < |adj| && e.to != v && e.rev < |adj[e.to]| && adj[e.to][e.rev].to == v
             && 0 <= level[v] < level[e.to] && 0 <= r && (r > 0 ==> e.cap - e.flow != 0)
    ensures Fewer(level, adj, PushedLists(adj, v, i, r))
  {
  }

  lemma FewerKeepsSteps(n: nat, before: Lists, after: Lists, level: seq<int>)
    requires OneStepUp(n, before, level) && Fewer(level, before, after)
    ensures OneStepUp(n, after, level)
  {
    forall v, i | 0 <= v < n && 0 <= i < |after[v]| && level[v] >= 0 && after[v][i].cap - after[v][i].flow != 0
      ensures after[v][i].to < n && 0 <= level[after[v][i].to] <= level[v] + 1
    {
      assert FewerAt(level, v, before[v][i], after[v][i]);
    }
  }

  lemma FewerAdmissible(level: seq<int>, before: Lists, after: Lists, u: nat, j: nat)
    requires Fewer(level, before, after) && u < |level| && j < |after[u]| && Admissible(after, level, u, j)
    ensures j < |before[u]| && Admissible(before, level, u, j) && before[u][j].to == after[u][j].to
  {
    assert FewerAt(level, u, before[u][j], after[u][j]);
  }

  /** What is out of reach stays out of reach. */
  lemma {:induction false} ReachShrinks(n: nat, before: Lists, after: Lists, level: seq<int>, t: nat, v: nat)
    requires |before| == |after| == n && LevelsOk(n, level) && v < n && Fewer(level, before, after)
    requires CanReach(n, after, level, t, v)
    ensures CanReach(n, before, level, t, v)
    decreases n - level[v]
  {
    hide Fewer;
    if v != t {
      var i :| 0 <= i < |after[v]| && Admissible(after, level, v, i) && after[v][i].to < n
               && CanReach(n, after, level, t, after[v][i].to);
      FewerAdmissible(level, before, after, v, i);
      ReachShrinks(n, before, after, level, t, after[v][i].to);
      assert Admissible(before, level, v, i) && CanReach(n, before, level, t, before[v][i].to);
    }
  }

  lemma PointersStayTrue(n: nat, before: Lists, after: Lists, level: seq<int>, t: nat, ptr: seq<nat>)
    requires PointersOk(n, before, level, t, ptr) && Fewer(level, before, after)
    ensures PointersOk(n, after, level, t, ptr)
  {
    hide CanReach, Admissible;
    forall v, i | 0 <= v < n && 0 <= i < ptr[v] ensures Dead(n, after, level, t, v, i) {
      assert Dead(n, before, level, t, v, i);
      if Admissible(after, level, v, i) && after[v][i].to < n && CanReach(n, after, level, t, after[v][i].to) {
        FewerAdmissible(level, before, after, v, i);
        ReachShrinks(n, before, after, level, t, after[v][i].to);
        assert false;
      }
    }
  }

  lemma LayersStepUp(n: nat, adj: Lists, tags: Tags, arcs: seq<Arc>, level: seq<int>, s: nat)
    requires Represents(n, adj, tags, arcs) && Layered(n, adj, level, s)
    ensures OneStepUp(n, adj, level)
  {
    forall v, i | 0 <= v < n && 0 <= i < |adj[v]| && level[v] >= 0 && adj[v][i].cap - adj[v][i].flow != 0
      ensures adj[v][i].to < n && 0 <= level[adj[v][i].to] <= level[v] + 1
    {
      EntryFacts(n, adj, tags, arcs, v, i);
    }
  }

  /** A later search gives no reached vertex a lower level. */
  lemma {:induction false} LevelsNeverFall(n: nat, adj: Lists, before: seq<int>, after: seq<int>, s: nat, v: nat)
    requires OneStepUp(n, adj, before) && Layered(n, adj, after, s) && before[s] == 0 && v < n && after[v] >= 0
    ensures 0 <= before[v] <= after[v]
    decreases after[v]
  {
    if after[v] > 0 {
      assert Preceded(n, adj, after, v);
      var u, i :| 0 <= u < n && 0 <= i < |adj[u]| && adj[u][i].to == v && Admissible(adj, after, u, i);
      LevelsNeverFall(n, adj, before, after, s, u);
    }
  }

  /** Along a shortest path that kept its levels every entry was admissible before. */
  lemma {:induction false} KeptLevelsReach(n: nat, adj: Lists, before: seq<int>, after: seq<int>, s: nat, t: nat, v: nat)
    requires OneStepUp(n, adj, before) && Layered(n, adj, after, s) && before[s] == 0 && v < n
    requires after[v] >= 0 && before[v] == after[v] && CanReach(n, adj, before, t, v)
    ensures CanReach(n, adj, before, t, s)
    decreases after[v]
  {
    if after[v] > 0 {
      assert Preceded(n, adj, after, v);
      var u, i :| 0 <= u < n && 0 <= i < |adj[u]| && adj[u][i].to == v && Admissible(adj, after, u, i);
      LevelsNeverFall(n, adj, before, after, s, u);
      assert Admissible(adj, before, u, i);
      KeptLevelsReach(n, adj, before, after, s, t, u);
    }
  }

  /** After a blocking flow the sink moves to a higher level. */
  lemma BlockingRaisesSink(n: nat, adj: Lists, before: seq<int>, after: seq<int>, s: nat, t: nat)
    requires OneStepUp(n, adj, before) && Layered(n, adj, after, s) && before[s] == 0 && t < n && after[t] >= 0
    requires s < n && !CanReach(n, adj, before, t, s)
    ensures after[t] > before[t]
  {
    LevelsNeverFall(n, adj, before, after, s, t);
    if after[t] == before[t] {
      KeptLevelsReach(n, adj, before, after, s, t, t);
      assert false;
    }
  }

  /** If t has a level, s reaches t through the level graph. */
  lemma {:induction false} LayersReach(n: nat, adj: Lists, level: seq<int>, s: nat, t: nat, v: nat)
    requires Layered(n, adj, level, s) && t < n && v < n && level[v] >= 0 && CanReach(n, adj, level, t, v)
    ensures CanReach(n, adj, level, t, s)
    decreases level[v]
  {
    if level[v] > 0 {
      assert Preceded(n, adj, level, v);
      var u, i :| 0 <= u < n && 0 <= i < |adj[u]| && adj[u][i].to == v && Admissible(adj, level, u, i);
      LayersReach(n, adj, level, s, t, u);
    }
  }

  /** The vertices that have a level. */
  ghost function Reached(level: seq<int>): set<nat> {
    set v | 0 <= v < |level| && level[v] >= 0
  }

  /** When t was not reached, the reached vertices form a saturated cut. */
  lemma LayersSaturate(n: nat, adj: Lists, tags: Tags, arcs: seq<Arc>, level: seq<int>, s: nat)
    requires Represents(n, adj, tags, arcs) && Layered(n, adj, level, s)
    ensures Saturated(arcs, Reached(level))
  {
    var W := Reached(level);
    forall k | 0 <= k < |arcs|
      ensures arcs[k].source in W && arcs[k].target !in W ==> arcs[k].flow == arcs[k].cap
      ensures arcs[k].source !in W && arcs[k].target in W ==> arcs[k].flow == 0
    {
      assert ArcOk(n, adj, tags, k, arcs[k]);
    }
  }

  class Dinic {
    const n: nat
    var adj: Lists
    var level: seq<int>
    var ptr: seq<nat>
    ghost var arcs: seq<Arc>
    ghost var tags: Tags

    ghost predicate Valid()
      reads this
    {
      Represents(n, adj, tags, arcs) && |level| == |ptr| == n
    }

    constructor (n: nat)
      ensures Valid() && this.n == n && arcs == []
    {
      this.n := n;
      adj, level, ptr := seq(n, _ => []), seq(n, _ => 0), seq(n, _ => 0);
      arcs, tags := [], seq(n, _ => []);
    }

    /** Adds an arc and its reverse entry; arcs without capacity are left out. */
    method AddEdge(source: nat, target: nat, cap: int)
      requires Valid() && source < n && target < n && source != target
      modifies this`adj, this`arcs, this`tags
      ensures Valid()
      ensures arcs == if cap <= 0 then old(arcs)
                      else old(arcs) + [Arc(source, target, cap, 0, |old(adj)[source]|, |old(adj)[target]|)]
    {
      if cap <= 0 {
        return;
      }
      AddKeepsRepresentation(n, adj, tags, arcs, source, target, cap);
      hide Represents;
      var at, back := |adj[source]|, |adj[target]|;
      adj := adj[source := adj[source] + [FlowEdge(target, cap, 0, back)]];
      adj := adj[target := adj[target] + [FlowEdge(source, 0, 0, |adj[source]| - 1)]];
      tags := tags[source := tags[source] + [|arcs|]];
      tags := tags[target := tags[target] + [|arcs|]];
      arcs := arcs + [Arc(source, target, cap, 0, at, back)];
    }

    /** Assigns levels from s; false when t is not reached. */
    method Bfs(s: nat, t: nat) returns (reached: bool)
      requires Valid() && s < n && t < n
      modifies this`level
      ensures Valid() && Layered(n, adj, level, s) && (reached <==> level[t] >= 0) && level[t] < n
    {
      hide ArcOk, EntryOk, Expanded, HeadExpanded, Layered, Layers, QueueOk;
      level := seq(n, _ => -1);
      level := level[s := 0];
      SearchStarts(n, adj, s);
      var q := [s];
      var head := 0;
      while head < |q|
        invariant Valid() && QueueOk(n, level, q, head) && Layers(n, adj, level, s)
        invariant HeadExpanded(n, adj, level, q, head)
        decreases n - head
      {
        QueueStep(n, level, q, head);
        q := Expand(s, q, head);
        head := head + 1;
      }
      SearchEnds(n, adj, level, s, q, head);
      LevelsFit(n, level, q, head, t);
      reached := level[t] != -1;
    }

    /** Expands the vertex at the head of the queue. */
    method Expand(s: nat, q0: seq<nat>, head: nat) returns (q: seq<nat>)
      requires Valid() && QueueOk(n, level, q0, head) && Layers(n, adj, level, s) && head < |q0|
      requires HeadExpanded(n, adj, level, q0, head)
      modifies this`level
      ensures Valid() && QueueOk(n, level, q, head + 1) && Layers(n, adj, level, s)
      ensures HeadExpanded(n, adj, level, q, head + 1) && |q| >= |q0|
    {
      hide ArcOk, Distinct, EntryOk, ExpandedTo, HeadExpanded, Layers, LevelsOk, QueueOk;
      QueueFacts(n, level, q0, head);
      q := q0;
      var v := q[head];
      QueueFacts(n, level, q, head);
      assert |adj| == n;
      ExpandedStart(n, adj, level, v);
      for i := 0 to |adj[v]|
        invariant Valid() && QueueOk(n, level, q, head) && Layers(n, adj, level, s)
        invariant HeadExpanded(n, adj, level, q, head) && |q| >= |q0| && q[head] == v
        invariant ExpandedTo(n, adj, level, v, i)
      {
        var edge := adj[v][i];
        EntryFacts(n, adj, tags, arcs, v, i);
        QueueFacts(n, level, q, head);
        if edge.cap - edge.flow > 0 && level[edge.to] == -1 {
          Enqueue(n, level, q, head, edge.to);
          Discover(n, adj, level, s, v, i);
          Unqueued(n, level, q, head, edge.to);
          StayExpanded(n, adj, level, q, head, v, i, edge.to, level[v] + 1);
          level := level[edge.to := level[v] + 1];
          q := q + [edge.to];
        }
        if edge.cap - edge.flow > 0 {
          NearTheHead(n, level, q, head, edge.to);
        }
        ExpandedStep(n, adj, level, v, i);
      }
      assert Expanded(n, adj, level, q[head]);
      HeadStep(n, adj, level, q, head);
      QueueStep(n, level, q, head);
    }

    /** The pointers stay within the lists. */
    ghost predicate Pointed()
      reads this
    {
      |adj| == |ptr| == n && LevelsOk(n, level) && forall v :: 0 <= v < n ==> ptr[v] <= |adj[v]|
    }

    /**
      Sends up to `pushed` units from v to t through the level graph, past the
      entries already known to be dead.  The pointers go on telling the truth;
      zero means that nothing changed, and that t cannot be reached from v.
     */
    method Dfs(v: nat, t: nat, pushed: int) returns (r: int)
      requires Valid() && Pointed() && v < n && t < n && pushed >= 0 && level[v] >= 0
      modifies this`adj, this`arcs, this`ptr
      ensures Valid() && Pointed() && 0 <= r <= pushed
      ensures Moved(old(arcs), arcs, v, t, r)
      ensures r == 0 ==> adj == old(adj) && arcs == old(arcs)
      ensures SameBelow(level, level[v], old(adj), adj, old(ptr), ptr)
      ensures Fewer(level, old(adj), adj)
      ensures old(PointersOk(n, adj, level, t, ptr)) ==> PointersOk(n, adj, level, t, ptr)
      ensures r == 0 && pushed > 0 && old(PointersOk(n, adj, level, t, ptr)) ==> !CanReach(n, adj, level, t, v)
      decreases n - level[v], 1
    {
      hide Admissible, CanReach, Cut, Dead, Feasible, Fewer, Moved, PointersOk, Represents, SameBelow;
      FewerSelf(level, adj);
      if pushed == 0 {
        NothingMoved(arcs, v, t);
        SameToStart(level, level[v], adj, ptr);
        return 0;
      }
      if v == t {
        NothingMoved(arcs, v, t);
        SameToStart(level, level[v], adj, ptr);
        return pushed;
      }
      NothingMoved(arcs, v, t);
      SameToStart(level, level[v], adj, ptr);
      ghost var truthful := PointersOk(n, adj, level, t, ptr);
      while ptr[v] < |adj[v]|
        invariant Valid() && Pointed() && adj == old(adj) && arcs == old(arcs)
        invariant SameBelow(level, level[v], old(adj), adj, old(ptr), ptr)
        invariant truthful ==> PointersOk(n, adj, level, t, ptr)
        decreases |adj[v]| - ptr[v]
      {
        var cid := ptr[v];
        var edge := adj[v][cid];
        EntryFacts(n, adj, tags, arcs, v, cid);
        if !Admissible(adj, level, v, cid) {
          DeadEnd(n, adj, level, t, v, cid);
          ghost var pointers := ptr;
          Skip(v, t, truthful);
          SameBelowTrans(level, level[v], old(adj), adj, adj, old(ptr), pointers, ptr);
          continue;
        }
        ghost var before, pointers := adj, ptr;
        r := Through(v, t, pushed, truthful);
        SameBelowTrans(level, level[v], old(adj), before, adj, old(ptr), pointers, ptr);
        if r == 0 {
          pointers := ptr;
          Skip(v, t, truthful);
          SameBelowTrans(level, level[v], old(adj), adj, adj, old(ptr), pointers, ptr);
          continue;
        }
        return;
      }
      if truthful {
        AllDead(n, adj, level, t, ptr, v);
      }
      return 0;
    }

    /** Searches on through the admissible entry at the pointer of v, and augments it on success. */
    method Through(v: nat, t: nat, pushed: int, ghost truthful: bool) returns (r: int)
      requires Valid() && Pointed() && v < n && t < n && v != t && pushed > 0 && ptr[v] < |adj[v]| && level[v] >= 0
      requires Admissible(adj, level, v, ptr[v]) && (truthful ==> PointersOk(n, adj, level, t, ptr))
      modifies this`adj, this`arcs, this`ptr
      ensures Valid() && Pointed() && 0 <= r <= pushed && ptr[v] == old(ptr)[v] && |adj[v]| == |old(adj)[v]|
      ensures Moved(old(arcs), arcs, v, t, r)
      ensures r == 0 ==> adj == old(adj) && arcs == old(arcs)
      ensures SameBelow(level, level[v], old(adj), adj, old(ptr), ptr)
      ensures Fewer(level, old(adj), adj) && (truthful ==> PointersOk(n, adj, level, t, ptr))
      ensures r == 0 && truthful ==> Dead(n, adj, level, t, v, ptr[v])
      decreases n - level[v], 0
    {
      hide Admissible, CanReach, Cut, Dead, Feasible, Fewer, Moved, NetOut, PointersOk, Represents, SameBelow,
        SameNetwork;
      var cid := ptr[v];
      var edge := adj[v][cid];
      EntryFacts(n, adj, tags, arcs, v, cid);
      OneUp(adj, level, v, cid);
      ghost var before, pointers := adj, ptr;
      var room := edge.cap - edge.flow;
      r := Dfs(edge.to, t, if pushed < room then pushed else room);
      SameBelowWeaken(level, level[v], level[edge.to], v, before, adj, pointers, ptr);
      if r == 0 {
        DeadTarget(n, adj, level, t, v, cid, truthful);
        NothingMoved(arcs, v, t);
        return;
      }
      ghost var middle, between := adj, arcs;
      Augment(v, cid, r);
      SameBelowTrans(level, level[v], before, middle, adj, pointers, ptr, ptr);
      FewerTrans(level, before, middle, adj);
      if truthful {
        PointersStayTrue(n, middle, adj, level, t, ptr);
      }
      MovedThrough(old(arcs), between, arcs, v, edge.to, t, r);
    }

    /** Moves the pointer of v past a dead entry. */
    method Skip(v: nat, t: nat, ghost truthful: bool)
      requires Valid() && Pointed() && v < n && t < n && ptr[v] < |adj[v]|
      requires truthful ==> PointersOk(n, adj, level, t, ptr) && Dead(n, adj, level, t, v, ptr[v])
      modifies this`ptr
      ensures Valid() && Pointed() && ptr == old(ptr)[v := old(ptr)[v] + 1]
      ensures truthful ==> PointersOk(n, adj, level, t, ptr)
      ensures SameBelow(level, level[v], adj, adj, old(ptr), ptr)
    {
      hide Dead, PointersOk, Represents;
      if truthful {
        PointerStep(n, adj, level, t, ptr, v);
      }
      ptr := ptr[v := ptr[v] + 1];
    }

    /** Adds r units to the entry and takes them from its reverse entry. */
    method Augment(v: nat, cid: nat, r: int)
      requires Valid() && Pointed() && v < n && cid < |adj[v]| && 0 <= r <= adj[v][cid].cap - adj[v][cid].flow
      requires adj[v][cid].to < n && 0 <= level[v] < level[adj[v][cid].to]
      modifies this`adj, this`arcs
      ensures Valid() && Pointed() && SameBelow(level, level[v], old(adj), adj, ptr, ptr)
      ensures Fewer(level, old(adj), adj)
      ensures |adj[v]| == |old(adj)[v]| && SameNetwork(arcs, old(arcs))
      ensures forall x :: NetOut(arcs, x) ==
                NetOut(old(arcs), x) + (if x == v then r else 0) - (if x == old(adj)[v][cid].to then r else 0)
    {
      hide Fewer, NetOut, PushedArcs, Represents, SameBelow, SameNetwork;
      EntryFacts(n, adj, tags, arcs, v, cid);
      ReverseEntry(n, adj, tags, arcs, v, cid);
      PushedIsFewer(adj, level, v, cid, r);
      PushKeepsRepresentation(n, adj, tags, arcs, v, cid, r);
      forall x ensures NetOut(PushedArcs(arcs, v, cid, tags[v][cid], r), x) ==
                         NetOut(arcs, x) + (if x == v then r else 0) - (if x == adj[v][cid].to then r else 0) {
        PushMovesFlow(n, adj, tags, arcs, v, cid, r, x);
      }
      PushedShape(adj, level, ptr, v, cid, r);
      ghost var after := PushedLists(adj, v, cid, r);
      var edge := adj[v][cid];
      var back := adj[edge.to][edge.rev];
      arcs := PushedArcs(arcs, v, cid, tags[v][cid], r);
      adj := adj[v := adj[v][cid := edge.(flow := edge.flow + r)]];
      adj := adj[edge.to := adj[edge.to][edge.rev := back.(flow := back.flow - r)]];
      assert adj == after;
    }

    /**
      Augments until t is out of reach.  The vertices the last search reached
      form a minimum cut, and its capacity is the value of the flow.  Every phase
      raises the level of t, so there are fewer phases than vertices.
     */
    method MaxFlow(s: nat, t: nat) returns (flow: int, ghost phases: nat)
      requires Valid() && s < n && t < n && s != t && Conserved(arcs, s, t, 0)
      modifies this
      ensures Valid() && SameNetwork(arcs, old(arcs)) && Conserved(arcs, s, t, flow)
      ensures s in Reached(level) && t !in Reached(level) && flow == CutCapacity(old(arcs), Reached(level))
      ensures forall W: set<nat> :: s in W && t !in W ==> 0 <= flow <= CutCapacity(old(arcs), W)
      ensures phases < n
    {
      hide Across, CanReach, Conserved, CutCapacity, Layered, OneStepUp, Reached, Represents, SameNetwork, Saturated;
      flow, phases := 0, 0;
      ghost var limit := CutCapacity(arcs, {s});
      SameNetworkSelf(arcs);
      ValueLimited(s, t, flow, old(arcs), limit);
      var reached := Bfs(s, t);
      SinkAboveSource(n, adj, level, s, t);
      while reached
        invariant Valid() && SameNetwork(arcs, old(arcs)) && Conserved(arcs, s, t, flow) && 0 <= flow <= limit
        invariant Layered(n, adj, level, s) && |level| == n && (reached <==> level[t] >= 0)
        invariant phases < n && (reached ==> phases < level[t] < n)
        decreases n - phases
      {
        StartLevel(n, adj, level, s);
        ghost var below := level;
        flow := Phase(s, t, flow, old(arcs), limit);
        reached := Bfs(s, t);
        phases := phases + 1;
        if reached {
          BlockingRaisesSink(n, adj, below, level, s, t);
        }
      }
      LayersSaturate(n, adj, tags, arcs, level, s);
      SaturatedCarriesAll(arcs, Reached(level));
      ReachedFacts(n, adj, level, s, t);
      ValueCrosses(arcs, s, t, flow, Reached(level));
      SameCapacity(arcs, old(arcs), Reached(level));
      forall W: set<nat> | s in W && t !in W ensures 0 <= flow <= CutCapacity(old(arcs), W) {
        FlowWithinCut(n, adj, tags, arcs, s, t, flow, W);
        SameCapacity(arcs, old(arcs), W);
      }
    }

    /** The capacity out of s limits the value. */
    lemma ValueLimited(s: nat, t: nat, flow: int, arcs0: seq<Arc>, limit: int)
      requires Valid() && s != t && Conserved(arcs, s, t, flow) && SameNetwork(arcs, arcs0)
      requires limit == CutCapacity(arcs0, {s})
      ensures flow <= limit
    {
      hide Conserved, CutCapacity, Represents, SameNetwork;
      FlowWithinCut(n, adj, tags, arcs, s, t, flow, {s});
      SameCapacity(arcs, arcs0, {s});
    }

    /**
      One level graph: augments until nothing more goes through.  At least one unit
      does, and the flow left behind blocks every path of the level graph.
     */
    method Phase(s: nat, t: nat, flow0: int, ghost arcs0: seq<Arc>, ghost limit: int) returns (flow: int)
      requires Valid() && s < n && t < n && s != t && Conserved(arcs, s, t, flow0) && 0 <= flow0
      requires SameNetwork(arcs, arcs0) && limit == CutCapacity(arcs0, {s})
      requires Layered(n, adj, level, s) && |level| == n && level[t] >= 0
      modifies this`adj, this`arcs, this`ptr
      ensures Valid() && Conserved(arcs, s, t, flow) && SameNetwork(arcs, arcs0) && flow0 < flow <= limit
      ensures OneStepUp(n, adj, level) && LevelsOk(n, level) && !CanReach(n, adj, level, t, s)
    {
      hide CanReach, Conserved, Cut, CutCapacity, Feasible, Fewer, Layered, Moved, OneStepUp, PointersOk,
        Represents, SameBelow, SameNetwork;
      LayersStepUp(n, adj, tags, arcs, level, s);
      StartLevel(n, adj, level, s);
      flow := flow0;
      ptr := seq(n, _ => 0);
      FreshPointers(s, t);
      var pushed := Dfs(s, t, INT64_MAX);
      SentMore(old(arcs), s, t, flow, pushed, arcs0);
      ValueLimited(s, t, flow + pushed, arcs0, limit);
      FewerKeepsSteps(n, old(adj), adj, level);
      while pushed != 0
        invariant Valid() && Pointed() && OneStepUp(n, adj, level) && PointersOk(n, adj, level, t, ptr)
        invariant pushed == 0 ==> !CanReach(n, adj, level, t, s)
        invariant pushed >= 0 && flow >= flow0 && (pushed == 0 ==> flow > flow0)
        invariant Conserved(arcs, s, t, flow + pushed) && SameNetwork(arcs, arcs0) && flow + pushed <= limit
        decreases limit - flow
      {
        flow := flow + pushed;
        ghost var before, entries := arcs, adj;
        pushed := Dfs(s, t, INT64_MAX);
        FewerKeepsSteps(n, entries, adj, level);
        SentMore(before, s, t, flow, pushed, arcs0);
        ValueLimited(s, t, flow + pushed, arcs0, limit);
      }
    }

    lemma SentMore(before: seq<Arc>, s: nat, t: nat, flow: int, pushed: int, arcs0: seq<Arc>)
      requires Moved(before, arcs, s, t, pushed) && s != t && Conserved(before, s, t, flow) && SameNetwork(before, arcs0)
      ensures Conserved(arcs, s, t, flow + pushed) && SameNetwork(arcs, arcs0)
    {
      hide NetOut;
      forall k | 0 <= k < |arcs| ensures arcs[k].(flow := 0) == arcs0[k].(flow := 0) {
        assert arcs[k].(flow := 0) == before[k].(flow := 0) == arcs0[k].(flow := 0);
      }
    }

    /** With fresh pointers the pointers tell the truth, and s reaches t. */
    lemma FreshPointers(s: nat, t: nat)
      requires Valid() && s < n && t < n && Layered(n, adj, level, s) && level[t] >= 0 && ptr == seq(n, _ => 0)
      ensures Pointed() && PointersOk(n, adj, level, t, ptr) && CanReach(n, adj, level, t, s)
    {
      hide Represents;
      LayersReach(n, adj, level, s, t, t);
    }
  }

  lemma SameNetworkSelf(arcs: seq<Arc>)
    ensures SameNetwork(arcs, arcs)
  {
  }

  lemma ReachedFacts(n: nat, adj: Lists, level: seq<int>, s: nat, t: nat)
    requires Layered(n, adj, level, s) && t < n && level[t] < 0
    ensures s in Reached(level) && t !in Reached(level)
  {
  }

  lemma PushedShape(adj: Lists, level: seq<int>, ptr: seq<nat>, v: nat, i: nat, r: int)
    requires |adj| == |level| == |ptr| && v < |adj| && i < |adj[v]|
    requires var e := adj[v][i]; e.to < |adj| && e.to != v && e.rev < |adj[e.to]| && level[v] < level[e.to]
    ensures var after := PushedLists(adj, v, i, r);
            SameBelow(level, level[v], adj, after, ptr, ptr) && forall u :: 0 <= u < |adj| ==> |after[u]| == |adj[u]|
  {
  }

  /** The same network with r more units from v to t. */
  ghost predicate Moved(arcs: seq<Arc>, after: seq<Arc>, v: nat, t: nat, r: int) {
    && SameNetwork(after, arcs)
    && forall x :: NetOut(after, x) == NetOut(arcs, x) + (if x == v && v != t then r else 0) - (if x == t && v != t then r else 0)
  }

  lemma NothingMoved(arcs: seq<Arc>, v: nat, t: nat)
    ensures Moved(arcs, arcs, v, t, 0) && (v == t ==> forall r :: Moved(arcs, arcs, v, t, r))
  {
  }

  /** Vertices below level d keep their entries and pointers; all keep their number of entries. */
  ghost predicate SameBelow(level: seq<int>, d: int, adj: Lists, after: Lists, ptr: seq<nat>, ptr': seq<nat>) {
    && |adj| == |after| == |ptr| == |ptr'| == |level|
    && (forall u :: 0 <= u < |level| ==> |after[u]| == |adj[u]|)
    && (forall u :: 0 <= u < |level| && level[u] < d ==> after[u] == adj[u] && ptr'[u] == ptr[u])
  }

  lemma SameBelowTrans(level: seq<int>, d: int, a: Lists, b: Lists, c: Lists, p: seq<nat>, q: seq<nat>, r: seq<nat>)
    requires SameBelow(level, d, a, b, p, q) && SameBelow(level, d, b, c, q, r)
    ensures SameBelow(level, d, a, c, p, r)
  {
  }

  /** A search from a higher level leaves vertex v on level d as it was. */
  lemma SameBelowWeaken(level: seq<int>, d: int, d': int, v: nat, a: Lists, b: Lists, p: seq<nat>, q: seq<nat>)
    requires SameBelow(level, d', a, b, p, q) && d < d' && v < |level| && level[v] == d
    ensures SameBelow(level, d, a, b, p, q) && b[v] == a[v] && q[v] == p[v]
  {
  }

  lemma OneUp(adj: Lists, level: seq<int>, v: nat, i: nat)
    requires v < |adj| && i < |adj[v]| && v < |level| && Admissible(adj, level, v, i)
    ensures adj[v][i].to < |level| && level[adj[v][i].to] == level[v] + 1 && adj[v][i].cap - adj[v][i].flow != 0
  {
  }

  lemma DeadEnd(n: nat, adj: Lists, level: seq<int>, t: nat, v: nat, i: nat)
    requires |adj| == n && LevelsOk(n, level) && v < n && i < |adj[v]| && !Admissible(adj, level, v, i)
    ensures Dead(n, adj, level, t, v, i)
  {
  }

  lemma DeadTarget(n: nat, adj: Lists, level: seq<int>, t: nat, v: nat, i: nat, truthful: bool)
    requires |adj| == n && LevelsOk(n, level) && v < n && i < |adj[v]| && adj[v][i].to < n
    requires truthful ==> !CanReach(n, adj, level, t, adj[v][i].to)
    ensures truthful ==> Dead(n, adj, level, t, v, i)
  {
  }

  /** Flow moved from w to t and then along an arc from v to w has moved from v to t. */
  lemma MovedThrough(a: seq<Arc>, b: seq<Arc>, c: seq<Arc>, v: nat, w: nat, t: nat, r: int)
    requires Moved(a, b, w, t, r) && SameNetwork(c, b) && v != t
    requires forall x :: NetOut(c, x) == NetOut(b, x) + (if x == v then r else 0) - (if x == w then r else 0)
    ensures Moved(a, c, v, t, r)
  {
    hide NetOut;
    forall k | 0 <= k < |c| ensures c[k].(flow := 0) == a[k].(flow := 0) {
      assert c[k].(flow := 0) == b[k].(flow := 0) == a[k].(flow := 0);
    }
  }

  lemma SameToStart(level: seq<int>, d: int, adj: Lists, ptr: seq<nat>)
    requires |adj| == |ptr| == |level|
    ensures SameBelow(level, d, adj, adj, ptr, ptr)
  {
  }

  lemma QueueFacts(n: nat, level: seq<int>, q: seq<nat>, head: nat)
    requires QueueOk(n, level, q, head) && head < |q|
    ensures |level| == n && q[head] < n && 0 <= level[q[head]] < n
    ensures forall v :: 0 <= v < n ==> level[v] >= -1
  {
    assert q[head] in q;
  }

  /** The reverse of an entry leads back. */
  lemma ReverseEntry(n: nat, adj: Lists, tags: Tags, arcs: seq<Arc>, v: nat, i: nat)
    requires Represents(n, adj, tags, arcs) && v < n && i < |adj[v]|
    ensures var e := adj[v][i]; e.to < n && e.rev < |adj[e.to]| && adj[e.to][e.rev].to == v
  {
    EntryFacts(n, adj, tags, arcs, v, i);
    var k := tags[v][i];
    assert ArcOk(n, adj, tags, k, arcs[k]);
  }

  lemma StartLevel(n: nat, adj: Lists, level: seq<int>, s: nat)
    requires Layered(n, adj, level, s)
    ensures s < n && |level| == n && level[s] == 0
  {
  }

  lemma SinkAboveSource(n: nat, adj: Lists, level: seq<int>, s: nat, t: nat)
    requires Layered(n, adj, level, s) && t < n && t != s
    ensures |level| == n && level[t] != 0
  {
  }

  lemma LevelsFit(n: nat, level: seq<int>, q: seq<nat>, head: nat, v: nat)
    requires QueueOk(n, level, q, head) && v < n
    ensures |level| == n && -1 <= level[v] < n
  {
    if level[v] >= 0 {
      assert v in q;
    }
  }

  /** Whatever is reached while the head is expanded is at most one level above it. */
  lemma NearTheHead(n: nat, level: seq<int>, q: seq<nat>, head: nat, w: nat)
    requires QueueOk(n, level, q, head) && head < |q| && w < n && level[w] >= 0
    ensures 0 <= level[w] <= level[q[head]] + 1
  {
    assert w in q;
  }

  lemma Unqueued(n: nat, level: seq<int>, q: seq<nat>, head: nat, w: nat)
    requires QueueOk(n, level, q, head) && w < n && level[w] == -1
    ensures w !in q && forall j :: 0 <= j < |q| ==> q[j] != w
  {
  }

  lemma AddKeepsRepresentation(n: nat, adj: Lists, tags: Tags, arcs: seq<Arc>, source: nat, target: nat, cap: int)
    requires Represents(n, adj, tags, arcs) && source < n && target < n && source != target && cap > 0
    ensures |adj| == |tags| == n
    ensures var adj' := adj[source := adj[source] + [FlowEdge(target, cap, 0, |adj[target]|)]]
                           [target := adj[target] + [FlowEdge(source, 0, 0, |adj[source]|)]];
            var tags' := tags[source := tags[source] + [|arcs|]][target := tags[target] + [|arcs|]];
            Represents(n, adj', tags', arcs + [Arc(source, target, cap, 0, |adj[source]|, |adj[target]|)])
  {
    var adj' := adj[source := adj[source] + [FlowEdge(target, cap, 0, |adj[target]|)]]
                   [target := adj[target] + [FlowEdge(source, 0, 0, |adj[source]|)]];
    var tags' := tags[source := tags[source] + [|arcs|]][target := tags[target] + [|arcs|]];
    var after := arcs + [Arc(source, target, cap, 0, |adj[source]|, |adj[target]|)];
    forall k | 0 <= k < |after| ensures ArcOk(n, adj', tags', k, after[k]) {
      if k < |arcs| {
        assert ArcOk(n, adj, tags, k, arcs[k]);
      }
    }
    forall v, i | 0 <= v < n && 0 <= i < |adj'[v]| ensures EntryOk(after, v, i, tags'[v][i]) {
      if i < |adj[v]| {
        assert EntryOk(arcs, v, i, tags[v][i]);
      }
    }
  }
}
