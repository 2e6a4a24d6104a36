/**
  A resumable threshold decision: the search as an explicit-stack machine that
  can stop at any safe point, detach siblings as regions, hand regions to
  external owners, and rejoin.  An infeasible answer is a proof at any time.
 */
module DecisionSessions {
  import opened Options
  import opened Graphs
  import opened Feasibility
  import opened TwinSymmetry
  import opened Histograms
  import opened NodeStates
  import opened Candidates
  import opened DecisionCaches
  import LocalProbes
  import opened Orderings
  import opened ThresholdSearch
  import opened ResidualRollbacks
  import opened SessionFrames

  /** Residual degrees are kept only where their bound can exceed the threshold at all. */
  predicate KeepsResiduals(g: Graph, k: nat, options: SearchOptions) {
    options.residualDegreeBound && (MaximumDegree(g, Size(g)) + 1) / 2 > k
  }

  /** Where none are kept, no prefix is crowded. */
  lemma CrowdedNeedsCeiling(g: Graph, k: nat, S: set<Vertex>)
    requires Crowded(g, k, S)
    ensures (MaximumDegree(g, Size(g)) + 1) / 2 > k
  {
    var v :| v in Vertices(g) - S && (|Neighbours(g, v) - S| + 1) / 2 > k;
    SubsetSize(Neighbours(g, v) - S, Neighbours(g, v));
    assert Degree(g, v) <= MaximumDegree(g, Size(g));
  }

  datatype SessionStatus = Unresolved | Solved | Infeasible | Cancelled

  datatype YieldReason = QuantumComplete | YieldRequested | WorkerDonation | IntervalResolved | Deadline | Terminal

  /** What may interrupt a quantum: a deadline, and a controller that raises the flags while it runs. */
  datatype Surroundings = Surroundings(hasDeadline: bool, hasController: bool)

  /** How an attempt to enter the top frame ended. */
  datatype Entry = Opened | Closed | Completed

  /** A queued region stands at a path whose prefixes stay within the threshold. */
  ghost predicate Queued(g: Graph, k: nat, p: Continuation) {
    IsPath(g, p.path) && CutsWithin(g, k, p.path, 0) && p.cut == Cut(g, Elems(p.path))
  }

  ghost predicate QueueOk(g: Graph, k: nat, pending: seq<Continuation>) {
    forall p :: p in pending ==> Queued(g, k, p)
  }

  lemma QueueFront(g: Graph, k: nat, pending: seq<Continuation>)
    requires QueueOk(g, k, pending) && pending != []
    ensures Queued(g, k, pending[0]) && QueueOk(g, k, pending[1..])
  {
    hide Queued;
  }

  lemma QueueBack(g: Graph, k: nat, pending: seq<Continuation>, p: Continuation)
    requires QueueOk(g, k, pending) && Queued(g, k, p)
    ensures QueueOk(g, k, pending + [p])
  {
    hide Queued;
  }

  lemma WithinNow(g: Graph, k: nat, path: seq<Vertex>)
    requires CutsWithin(g, k, path, 0)
    ensures Cut(g, Elems(path)) <= k
  {
    assert path[..|path|] == path;
  }

  /** A fresh root frame owes its whole region. */
  lemma FreshRoot(g: Graph, k: nat, path: seq<Vertex>, cut: nat, owed: bool)
    requires cut == Cut(g, Elems(path)) && CutsWithin(g, k, path, 0)
    ensures StackOk(g, k, path, |path|, [Frame(cut, None, false, true, [], 0)], owed)
  {
    WithinNow(g, k, path);
    assert path[..|path|] == path;
    var stack := [Frame(cut, None, false, true, [], 0)];
    assert Level(g, k, path, |path|, stack, owed, 0);
  }

  /** The residual-degree bound, from the maintained maximum. */
  lemma ResidualMaximumProves(node: NodeState, k: nat)
    requires node.Valid() && node.useBins && (node.bins.maximum + 1) / 2 > k
    ensures Crowded(node.g, k, node.prefix) && !Feasible(node.g, k, node.prefix)
  {
    hide Neighbours;
    MaximumIsLargest(node.bins);
    var X := Vertices(node.g) - node.prefix;
    ValuesMember(X, node.residual, |node.residual|, node.bins.maximum);
    var v: nat :| v < |node.residual| && v in X && node.residual[v] == node.bins.maximum;
    UnplacedEntry(node.g, node.path, node.deficit, node.residual, v);
    ResidualDegreeProves(node.g, k, node.prefix, v);
  }

  /** Where no entry misses anything, the maintained maximum decides the bound. */
  lemma ResidualMaximumDecides(node: NodeState, k: nat, r: nat)
    requires node.Valid() && node.useBins && NoneMissing(node.g, node.path, r, node.deficit)
    ensures Crowded(node.g, k, node.prefix) <==> (node.bins.maximum + 1) / 2 > k
  {
    hide Vertices, Neighbours;
    MaximumIsLargest(node.bins);
    var X := Vertices(node.g) - node.prefix;
    forall v | v in X ensures |Neighbours(node.g, v) - node.prefix| <= node.bins.maximum {
      UnplacedResidual(node, v, r);
      ValuesMember(X, node.residual, |node.residual|, node.residual[v]);
    }
    if node.bins.maximum > 0 {
      ValuesMember(X, node.residual, |node.residual|, node.bins.maximum);
      var v: nat :| v < |node.residual| && v in X && node.residual[v] == node.bins.maximum;
      UnplacedResidual(node, v, r);
    }
    LargestDecides(node.g, k, node.prefix, node.bins.maximum);
  }

  lemma UnplacedResidual(node: NodeState, v: Vertex, r: nat)
    requires node.Counted() && node.useBins && v in Vertices(node.g) - node.prefix
    requires NoneMissing(node.g, node.path, r, node.deficit)
    ensures v < |node.residual| && node.residual[v] == |Neighbours(node.g, v) - node.prefix|
  {
    hide Neighbours;
    UnplacedEntry(node.g, node.path, node.deficit, node.residual, v);
    assert forall u :: u in node.path[..r] ==> u in node.path;
  }

  /** Where no entry misses anything, every placement can lower the entries it has to. */
  lemma NothingUnderflows(node: NodeState, r: nat, vertex: Vertex)
    requires node.Valid() && vertex in Vertices(node.g) - node.prefix
    requires node.useBins ==> NoneMissing(node.g, node.path, r, node.deficit)
    ensures node.Lowerable(vertex)
  {
    if node.useBins {
      forall v | v in Neighbours(node.g, vertex) && v !in node.prefix && v < Size(node.g) ensures node.residual[v] > 0 {
        NeighbourFacts(node.g, vertex, v);
        UnplacedResidual(node, v, r);
        assert vertex in Neighbours(node.g, v) - node.prefix;
      }
    }
  }

  lemma StillNoneMissing(g: Graph, path: seq<Vertex>, r: nat, deficit: seq<nat>)
    requires NoneMissing(g, path, r, deficit) && r < |path|
    ensures NoneMissing(g, path[..|path| - 1], r, deficit)
  {
    assert path[..|path| - 1][..r] == path[..r];
  }

  lemma NoneMissingBeyond(g: Graph, path: seq<Vertex>, r: nat, deficit: seq<nat>, v: Vertex)
    requires NoneMissing(g, path, r, deficit)
    ensures NoneMissing(g, path + [v], r, deficit)
  {
    assert (path + [v])[..r] == path[..r];
  }

  lemma FreshRegionMissesNothing(g: Graph, path: seq<Vertex>)
    ensures NoneMissing(g, path, |path|, Missing(g, path))
  {
    hide Neighbours, Earlier;
    assert path[..|path|] == path;
  }

  lemma SomeElement(s: seq<Vertex>)
    requires s != []
    ensures exists v :: v in s
  {
    assert s[0] in s;
  }

  lemma NoTwins(g: Graph, twins: TwinTable)
    requires ValidTwins(g, twins) && forall v: Vertex, e: Vertex :: v in Vertices(g) ==> e !in twins[v]
    ensures |twins| == Size(g) && forall v :: 0 <= v < Size(g) ==> twins[v] == []
  {
    forall v | 0 <= v < Size(g) ensures twins[v] == [] {
      assert v in Vertices(g);
      if twins[v] != [] {
        SomeElement(twins[v]);
      }
    }
  }

  // ----- snapshots -----

  datatype FrameSnapshot = FrameSnapshot(cut: nat, incoming: Option<Vertex>, entered: bool,
                                         candidates: seq<Candidate>, next: nat)

  datatype SessionSnapshot = SessionSnapshot(
    threshold: nat, status: SessionStatus, path: seq<Vertex>, ordering: seq<Vertex>, frames: seq<FrameSnapshot>,
    pending: seq<Continuation>, unfinished: nat, externalRegions: nat, partitioned: bool, nodesExpanded: nat)

  function SaveFrame(f: Frame): FrameSnapshot {
    FrameSnapshot(f.cut, f.incoming, f.entered, f.candidates, f.next)
  }

  /** A snapshot does not say which ancestors donated, so all or none are taken to be complete. */
  function LoadFrame(s: FrameSnapshot, complete: bool): Frame {
    Frame(s.cut, s.incoming, s.entered, complete, s.candidates, s.next)
  }

  function SaveFrames(stack: seq<Frame>): (r: seq<FrameSnapshot>)
    ensures |r| == |stack|
  {
    seq(|stack|, i requires 0 <= i < |stack| => SaveFrame(stack[i]))
  }

  function LoadFrames(frames: seq<FrameSnapshot>, complete: bool): (r: seq<Frame>)
    ensures |r| == |frames|
  {
    seq(|frames|, i requires 0 <= i < |frames| => LoadFrame(frames[i], complete))
  }

  /** A snapshot whose obligations cover the root, given the sets owned externally. */
  ghost predicate Resumable(g: Graph, k: nat, s: SessionSnapshot, root: set<Vertex>, external: seq<set<Vertex>>) {
    && s.threshold == k && s.status != Cancelled && IsPath(g, s.path)
    && (s.status == Unresolved ==> Covering(g, k, s, root, external))
    && (s.status == Solved ==> IsWitness(g, k, s.ordering) && s.unfinished > |s.pending|)
    && (s.status == Infeasible ==> !Feasible(g, k, root) && s.pending == [] && s.unfinished <= 1)
    && (s.status != Unresolved ==> s.unfinished == |s.pending| + s.externalRegions)
  }

  /** The depth at which a snapshot's local region begins. */
  function RootDepth(s: SessionSnapshot): nat {
    if s.frames == [] || |s.frames| > |s.path| + 1 then |s.path| else |s.path| + 1 - |s.frames|
  }

  ghost predicate Covering(g: Graph, k: nat, s: SessionSnapshot, root: set<Vertex>, external: seq<set<Vertex>>) {
    var owed := Outstanding(g, k, s.pending, external);
    && s.unfinished == |s.pending| + |external| + (if s.frames == [] then 0 else 1) && s.unfinished > 0
    && s.externalRegions == |external| && QueueOk(g, k, s.pending) && CutsWithin(g, k, s.path, 0)
    && if s.frames == [] then
         && s.pending == [] && (Feasible(g, k, Elems(s.path)) ==> owed) && (Feasible(g, k, root) ==> owed)
       else
         && |s.frames| <= |s.path| + 1
         && StackOk(g, k, s.path, |s.path| + 1 - |s.frames|, LoadFrames(s.frames, !s.partitioned), owed)
         && (Feasible(g, k, root) ==> owed || Feasible(g, k, At(s.path, |s.path| + 1 - |s.frames|)))
  }

  /** The snapshot of a handed-over region: one fresh frame. */
  function ChildSnapshot(k: nat, p: Continuation): SessionSnapshot {
    SessionSnapshot(k, Unresolved, p.path, [], [FrameSnapshot(p.cut, None, false, [], 0)], [], 1, 0, false, 0)
  }

  /** Reloading the stack of a live session forgets at most which frames are complete. */
  lemma ReloadedStack(g: Graph, k: nat, path: seq<Vertex>, r: nat, stack: seq<Frame>, owed: bool, complete: bool)
    requires StackOk(g, k, path, r, stack, owed) && (complete ==> NoneLost(stack))
    ensures StackOk(g, k, path, r, LoadFrames(SaveFrames(stack), complete), owed)
  {
    hide Feasible, At, Cut;
    var after := LoadFrames(SaveFrames(stack), complete);
    forall i | 0 <= i < |after| ensures Level(g, k, path, r, after, owed, i) {
      assert Level(g, k, path, r, stack, owed, i);
    }
  }

  lemma ResavedFrames(frames: seq<FrameSnapshot>, complete: bool)
    ensures SaveFrames(LoadFrames(frames, complete)) == frames
  {
  }

  lemma ChildIsResumable(g: Graph, k: nat, p: Continuation)
    requires Queued(g, k, p)
    ensures Resumable(g, k, ChildSnapshot(k, p), Elems(p.path), [])
  {
    hide StackOk, IsPath, CutsWithin, Feasible, At;
    FreshRoot(g, k, p.path, p.cut, Outstanding(g, k, [], []));
    ChildSets(p.path, 0);
    assert LoadFrames([FrameSnapshot(p.cut, None, false, [], 0)], true) == [Frame(p.cut, None, false, true, [], 0)];
  }

  /** No frame has lost a sibling to a detached region. */
  ghost predicate NoneLost(stack: seq<Frame>) {
    forall i :: 0 <= i < |stack| ==> stack[i].canonicalComplete
  }

  class DecisionSession {
    const node: NodeState
    const cache: ProofCache
    const k: nat
    const twins: TwinTable
    const options: SearchOptions
    ghost const root: set<Vertex>
    var rootDepth: nat
    var stack: seq<Frame>
    var pending: seq<Continuation>
    var unfinished: nat
    var partitioned: bool
    var localComplete: bool
    var status: SessionStatus
    var solution: seq<Vertex>
    var nodesExpanded: nat
    var yieldRequested: bool
    var cancelRequested: bool
    ghost var external: seq<set<Vertex>>

    ghost predicate Configured() {
      && ValidTwins(node.g, twins) && node.Fitted()
      && node.useIndex == (options.enumerator != Scanned) && node.useBins == KeepsResiduals(node.g, k, options)
      && (options.localDepth > 0 ==> node.useIndex)
    }

    ghost predicate CacheIsTruthful()
      reads cache
    {
      cache.Valid() && Truthful(node.g, cache.Entries())
    }

    /** The proofs held by the shared cache. */
    ghost function Proofs(): map<set<Vertex>, nat>
      reads cache
    {
      if cache.Valid() then cache.Entries() else map[]
    }

    /** The failure of S at the threshold is published, where a cache is used. */
    ghost predicate Known(S: set<Vertex>)
      reads cache
    {
      cache.Valid() && (options.useCache ==> Kept(cache, S, k))
    }

    /** The turns that can still be taken for the active region and the queued ones. */
    ghost function Effort(): nat
      reads this`stack, this`pending, this`rootDepth
    {
      StackEffort(Size(node.g), rootDepth, stack) + QueueEffort(Size(node.g), pending)
    }

    /** A turn ends below a stack of the given height, or at a frame that is still to be entered. */
    ghost predicate TurnOver(height: nat)
      reads this`stack
    {
      |stack| < height || (stack != [] && !stack[|stack| - 1].entered)
    }

    lemma TurnIsOver(height: nat)
      requires |stack| < height || (stack != [] && !stack[|stack| - 1].entered)
      ensures TurnOver(height)
    {
    }

    lemma EffortOf()
      ensures Effort() == StackEffort(Size(node.g), rootDepth, stack) + QueueEffort(Size(node.g), pending)
    {
    }

    /** Some detached region is feasible. */
    ghost predicate Owed()
      reads this`pending, this`external
    {
      Outstanding(node.g, k, pending, external)
    }

    ghost predicate Accounted()
      reads this`pending, this`external, this`unfinished, this`localComplete
    {
      unfinished == |pending| + |external| + (if localComplete then 0 else 1)
    }

    /** The active region: a covered stack, or a finished region that owes only detached ones. */
    ghost predicate Active()
      reads this, node
    {
      if localComplete then
        stack == [] && pending == [] && (Feasible(node.g, k, node.prefix) ==> Owed())
      else
        stack != [] && StackOk(node.g, k, node.path, rootDepth, stack, Owed())
    }

    /** No residual degree of the active region misses anything, nor will it when the region is unwound. */
    ghost predicate Healthy()
      reads this`status, this`localComplete, this`rootDepth, node
    {
      status == Unresolved && !localComplete && node.useBins ==>
        NoneMissing(node.g, node.path, rootDepth, node.deficit)
    }

    /** If the root is feasible, some live obligation is. */
    ghost predicate RootCovered()
      reads this`pending, this`external, this`localComplete, this`rootDepth, node
    {
      Feasible(node.g, k, root) ==>
        Owed() || (!localComplete && rootDepth <= |node.path| && Feasible(node.g, k, At(node.path, rootDepth)))
    }

    ghost predicate Live()
      reads this, node
    {
      && Accounted() && unfinished > 0 && QueueOk(node.g, k, pending) && CutsWithin(node.g, k, node.path, 0)
      && Active() && RootCovered()
      && (!partitioned ==> NoneLost(stack))
    }

    ghost predicate Valid()
      reads this, node, node.index, node.deltas, node.bins, cache
    {
      && Configured() && node.Valid() && CacheIsTruthful()
      && (status == Unresolved ==> Live())
      && (status in {Solved, Cancelled} ==> unfinished > |pending|)
      && (status == Solved ==> IsWitness(node.g, k, solution))
      && (status == Infeasible ==> !Feasible(node.g, k, root) && pending == [] && unfinished <= 1)
    }

    constructor (g: Graph, k: nat, options: SearchOptions, cache: ProofCache)
      requires options.localDepth > 0 ==> options.enumerator != Scanned
      requires cache.Valid() && Truthful(g, cache.Entries())
      ensures Valid() && Healthy() && status == Unresolved && root == {} && node.g == g && this.k == k && this.cache == cache
      ensures this.options == options && stack == [Frame(0, None, false, true, [], 0)] && node.path == []
      ensures rootDepth == 0 && !localComplete && !partitioned && pending == [] && external == [] && unfinished == 1
      ensures TwinTableOf(g, options.useTwins, twins)
      ensures !yieldRequested && !cancelRequested && nodesExpanded == 0 && Effort() == Turns(Size(g))
      ensures !options.useTwins ==> |twins| == Size(g) && forall v :: 0 <= v < Size(g) ==> twins[v] == []
      ensures fresh(node) && fresh(node.index) && fresh(node.deltas) && fresh(node.bins)
    {
      hide Cut, CutsWithin, Distinct, DynamicDecisionCache.Entries, DynamicDecisionCache.Valid, Elems, Feasible,
        IsPath, IsWitness, NodeState.Fitted, NodeState.Valid, Owed, Queued, SearchDynamic.Valid, StackOk, Truthful,
        TwinTableOf, Twins, ValidTwins, Vertices;
      var builtTwins := BuildTwins(g, options.useTwins);
      if !options.useTwins {
        NoTwins(g, builtTwins);
      }
      twins := builtTwins;
      this.k, this.options, this.cache, root := k, options, cache, {};
      EmptyPath(g);
      node := new NodeState(g, [], options.enumerator != Scanned, false, KeepsResiduals(g, k, options));
      rootDepth, pending, unfinished, external := 0, [], 1, [];
      stack := [Frame(0, None, false, true, [], 0)];
      partitioned, localComplete, status, solution := false, false, Unresolved, [];
      nodesExpanded, yieldRequested, cancelRequested := 0, false, false;
      new;
      EmptyWithin(g, k);
      FreshRoot(g, k, [], 0, Owed());
      assert node.path[..0] == [];
      FreshRegionMissesNothing(g, []);
      FreshEffort(Size(g), 0, stack[0]);
    }

    /** What is left to show after an operation that only changed the stack. */
    lemma StackChanged()
      requires Configured() && node.Valid() && CacheIsTruthful() && status == Unresolved && !localComplete
      requires Accounted() && QueueOk(node.g, k, pending) && CutsWithin(node.g, k, node.path, 0) && RootCovered()
      requires stack != [] && StackOk(node.g, k, node.path, rootDepth, stack, Owed())
      requires !partitioned ==> NoneLost(stack)
      ensures Valid()
    {
      hide CacheIsTruthful, Configured, CutsWithin, DynamicDecisionCache.Valid, Feasible, IsWitness,
        NodeState.Valid, NoneLost, Owed, QueueOk, RootCovered, SearchDynamic.Valid, StackOk;
    }

    /** What a session with an active region offers to an operation on its stack. */
    lemma StackFacts()
      requires Valid() && status == Unresolved && !localComplete
      ensures Configured() && node.Valid() && CacheIsTruthful()
      ensures Accounted() && QueueOk(node.g, k, pending) && CutsWithin(node.g, k, node.path, 0) && RootCovered()
      ensures stack != [] && StackOk(node.g, k, node.path, rootDepth, stack, Owed())
      ensures !partitioned ==> NoneLost(stack)
      ensures node.prefix == Elems(node.path) && IsPath(node.g, node.path)
    {
      hide Accounted, CacheIsTruthful, Configured, CutsWithin, DynamicDecisionCache.Valid, Elems, Feasible, IsPath,
        IsWitness, NodeState.Valid, NoneLost, Owed, QueueOk, RootCovered, SearchDynamic.Valid, StackOk, Vertices;
      PathFacts(node);
    }

    // ----- completing frames and regions -----

    /** The local region is finished: start the next queued one, or close, or wait for external owners. */
    method CompleteRegion()
      requires Configured() && node.Valid() && CacheIsTruthful() && status == Unresolved
      requires !localComplete && Accounted() && QueueOk(node.g, k, pending) && stack == []
      requires CutsWithin(node.g, k, node.path, 0)
      requires Feasible(node.g, k, node.prefix) ==> Owed()
      requires Feasible(node.g, k, root) ==> Owed()
      modifies this, node, node.index, node.deltas, node.bins
      ensures Valid() && Healthy() && status in {Unresolved, Infeasible}
      ensures nodesExpanded == old(nodesExpanded) && solution == old(solution) && external == old(external)
      ensures cancelRequested == old(cancelRequested) && yieldRequested == old(yieldRequested)
      ensures Effort() <= QueueEffort(Size(node.g), old(pending)) && unfinished == old(unfinished) - 1
      ensures status == Infeasible ==> unfinished == 0
      ensures old(pending) != [] ==>
                && status == Unresolved && !localComplete && pending == old(pending)[1..]
                && stack == [Frame(old(pending)[0].cut, None, false, true, [], 0)] && node.path == old(pending)[0].path
      ensures old(pending) == [] ==>
                && stack == [] && pending == [] && node.path == old(node.path)
                && (status == Infeasible <==> external == []) && (localComplete <==> external != [])
    {
      hide At, CacheIsTruthful, Configured, CutsWithin, DynamicDecisionCache.Valid, Elems, Feasible, IsWitness,
        NodeState.Valid, Outstanding, QueueOk, Queued, SearchDynamic.Valid, StackOk, Turns, FrameEffort;
      unfinished := unfinished - 1;
      if pending != [] {
        var next := pending[0];
        OutstandingFront(node.g, k, pending, external);
        QueueFront(node.g, k, pending);
        pending := pending[1..];
        LoadPending(next);
        FreshEffort(Size(node.g), rootDepth, stack[0]);
      } else if unfinished == 0 {
        assert external == [];
        NothingOutstanding(node.g, k);
        status := Infeasible;
        assert !Feasible(node.g, k, root);
        assert Valid();
      } else {
        localComplete := true;
        assert Valid();
      }
    }

    /** Rebuilds the node at a queued region and pushes its root frame. */
    method LoadPending(p: Continuation)
      requires Configured() && node.Valid() && CacheIsTruthful() && status == Unresolved
      requires Queued(node.g, k, p) && QueueOk(node.g, k, pending)
      requires unfinished == |pending| + |external| + 1
      requires Feasible(node.g, k, root) ==> Owed() || Feasible(node.g, k, Elems(p.path))
      modifies this, node, node.index, node.deltas, node.bins
      ensures Valid() && Healthy() && status == Unresolved && !localComplete
      ensures stack == [Frame(p.cut, None, false, true, [], 0)] && !partitioned
      ensures node.path == p.path && rootDepth == |p.path| && unfinished == old(unfinished)
      ensures pending == old(pending) && external == old(external) && solution == old(solution)
      ensures nodesExpanded == old(nodesExpanded)
      ensures cancelRequested == old(cancelRequested) && yieldRequested == old(yieldRequested)
    {
      hide At, Cut, CutsWithin, DynamicDecisionCache.Entries, DynamicDecisionCache.Valid, Elems, Feasible, IsPath,
        IsWitness, Missing, MaximumDegree, NodeState.Fitted, NodeState.Valid, NoneMissing, Outstanding, QueueOk, SearchDynamic.Valid, StackOk, Truthful,
        ValidTwins;
      partitioned, localComplete := false, false;
      node.Load(p.path);
      rootDepth := |p.path|;
      stack := [Frame(p.cut, None, false, true, [], 0)];
      FreshRoot(node.g, k, p.path, p.cut, Owed());
      ChildSets(p.path, 0);
      FreshRegionMissesNothing(node.g, p.path);
    }

    /** Pops a failed top frame, publishing its proof if it lost no sibling. */
    method FinishFailedFrame(publish: bool)
      requires Valid() && status == Unresolved && !localComplete
      requires stack != [] && TopFails(node.g, k, node.path, stack, Owed())
      modifies this, node, node.index, node.deltas, node.bins, cache
      ensures Valid() && status in {Unresolved, Infeasible} && (old(Healthy()) ==> Healthy())
      ensures nodesExpanded == old(nodesExpanded) && solution == old(solution) && external == old(external)
      ensures cancelRequested == old(cancelRequested) && yieldRequested == old(yieldRequested)
      ensures Effort() < old(Effort()) && Learns(options.useCache, old(Proofs()), Proofs())
      ensures publish && old(stack)[|old(stack)| - 1].canonicalComplete ==> Known(old(node.prefix))
      ensures !publish ==> Proofs() == old(Proofs())
      ensures TurnOver(|old(stack)|)
      ensures status == Infeasible ==> unfinished == 0
      ensures |old(stack)| > 1 ==>
                && status == Unresolved && !localComplete && stack == old(stack)[..|old(stack)| - 1]
                && node.path == old(node.path)[..|old(node.path)| - 1]
                && pending == old(pending) && unfinished == old(unfinished)
                && rootDepth == old(rootDepth) && node.deficit == old(node.deficit)
      ensures |old(stack)| == 1 && old(pending) != [] ==>
                && status == Unresolved && !localComplete && pending == old(pending)[1..]
                && stack == [Frame(old(pending)[0].cut, None, false, true, [], 0)] && node.path == old(pending)[0].path
      ensures |old(stack)| == 1 && old(pending) == [] ==>
                stack == [] && (status == Infeasible <==> external == []) && (localComplete <==> external != [])
    {
      hide *;
      StackFacts();
      EffortOf();
      LearnsNothing(options.useCache, Proofs());
      KnownUnused(node.prefix);
      var top := stack[|stack| - 1];
      if publish && top.canonicalComplete && options.useCache {
        PublishFailure();
      }
      EffortSteps(Size(node.g), rootDepth, stack, top, top);
      if |stack| > 1 {
        PopChild();
        EffortOf();
      } else {
        StackFacts();
        RegionFails();
        NoEffort(Size(node.g), rootDepth);
        assert stack[..|stack| - 1] == [];
        stack := [];
        CompleteRegion();
      }
      TurnIsOver(|old(stack)|);
    }

    lemma KnownUnused(S: set<Vertex>)
      requires CacheIsTruthful()
      ensures !options.useCache ==> Known(S)
    {
    }

    /** The top frame lost no sibling, so its prefix is a true failure. */
    method PublishFailure()
      requires Valid() && status == Unresolved && !localComplete
      requires stack != [] && TopFails(node.g, k, node.path, stack, Owed()) && stack[|stack| - 1].canonicalComplete
      requires options.useCache
      modifies cache
      ensures Valid() && Known(node.prefix) && Learns(options.useCache, old(Proofs()), Proofs())
    {
      hide Kept, Live, Configured, NodeState.Valid, Truthful, DynamicDecisionCache.Valid, DynamicDecisionCache.Entries, Feasible,
        IsWitness, Elems;
      StackFacts();
      RecordFailure(node.g, k, cache, node.prefix);
    }

    /** Takes the failed top frame and its vertex off; its parent takes over. */
    method PopChild()
      requires Valid() && status == Unresolved && !localComplete
      requires |stack| > 1 && TopFails(node.g, k, node.path, stack, Owed())
      modifies this`stack, node, node.index, node.deltas, node.bins
      ensures Valid() && stack == old(stack)[..|old(stack)| - 1]
      ensures node.path == old(node.path)[..|old(node.path)| - 1] && node.deficit == old(node.deficit)
      ensures old(Healthy()) ==> Healthy()
    {
      hide Accounted, At, CacheIsTruthful, Configured, CutsWithin, Elems, Feasible, IsPath, NodeState.Valid,
        NoneMissing, Owed, QueueOk, StackOk, TopFails, Valid;
      StackFacts();
      StackHeight(node.g, k, node.path, rootDepth, stack, Owed());
      PopFrame(node.g, k, node.path, rootDepth, stack, Owed());
      PathPrefix(node.g, k, node.path, |node.path| - 1);
      Popped(node.path, rootDepth, |stack|);
      if node.useBins && Healthy() {
        StillNoneMissing(node.g, node.path, rootDepth, node.deficit);
      }
      stack := stack[..|stack| - 1];
      node.Undo();
      StackChanged();
    }

    /** When the last frame fails, only detached regions are owed. */
    lemma RegionFails()
      requires Valid() && status == Unresolved && !localComplete
      requires |stack| == 1 && TopFails(node.g, k, node.path, stack, Owed())
      ensures Feasible(node.g, k, node.prefix) ==> Owed()
      ensures Feasible(node.g, k, root) ==> Owed()
    {
      hide Accounted, Configured, CutsWithin, Elems, Feasible, IsPath, Level, NodeState.Valid, Owed, QueueOk, Valid, At;
      StackFacts();
      TopSet(node.path, rootDepth, stack);
    }

    // ----- one step of service -----

    /** Enters the top frame: a witness, a proof of failure, or a list of children to try. */
    method EnterFrame() returns (entry: Entry)
      requires Valid() && status == Unresolved && !localComplete && stack != [] && !stack[|stack| - 1].entered
      modifies this, node, node.index, node.deltas, node.bins, cache
      ensures Valid() && external == old(external) && (old(Healthy()) ==> Healthy())
      ensures cancelRequested == old(cancelRequested) && yieldRequested == old(yieldRequested)
      ensures entry == Completed ==>
                status == Solved && solution == old(node.path) && nodesExpanded == old(nodesExpanded) + 1
      ensures entry == Completed <==> |old(node.path)| == Size(node.g)
      ensures entry == Opened ==>
                && status == Unresolved && !localComplete && |stack| == |old(stack)| && stack[|stack| - 1].entered
                && nodesExpanded == old(nodesExpanded) + 1
                && node.path == old(node.path) && OpensTop(old(stack), node.prefix)
      ensures entry == Closed ==>
                || (options.useCache && Proven(old(Proofs()), old(node.prefix), k))
                || (options.PrunesByDegree() && Crowded(node.g, k, old(node.prefix)))
                || options.localDepth > 0
      ensures entry == Opened ==> !(options.useCache && Proven(old(Proofs()), old(node.prefix), k)) && ProbeClear()
      ensures old(Healthy()) && entry == Opened ==> !(options.PrunesByDegree() && Crowded(node.g, k, node.prefix))
      ensures status == Infeasible ==> unfinished == 0
      ensures entry == Closed ==>
                && status in {Unresolved, Infeasible}
                && old(nodesExpanded) <= nodesExpanded <= old(nodesExpanded) + 1
                && (old(stack)[|old(stack)| - 1].canonicalComplete ==> Known(old(node.prefix)))
      ensures Effort() < old(Effort()) && Learns(options.useCache, old(Proofs()), Proofs())
      ensures entry == Closed ==> TurnOver(|old(stack)|)
    {
      hide Accounted, Configured, CutsWithin, DynamicDecisionCache.Entries, DynamicDecisionCache.Valid, Elems,
        Feasible, IsPath, IsWitness, NodeState.Valid, NoneLost, Owed, QueueOk, RootCovered, SearchDynamic.Valid,
        StackOk, Truthful, Vertices;
      PathFacts(node);
      LearnsNothing(options.useCache, Proofs());
      if |node.path| == Size(node.g) {
        Complete();
        return Completed;
      }
      if options.useCache {
        var hit := ProvenFailed(node.g, k, cache, node.prefix);
        if hit {
          FinishFailedFrame(false);
          return Closed;
        }
      }
      entry := Expand();
    }

    /** Counts the node, tries to refute the top frame, and lists its children. */
    method Expand() returns (entry: Entry)
      requires Valid() && status == Unresolved && !localComplete && stack != [] && |node.path| < Size(node.g)
      requires !stack[|stack| - 1].entered
      modifies this, node, node.index, node.deltas, node.bins, cache
      ensures Effort() < old(Effort()) && Learns(options.useCache, old(Proofs()), Proofs())
      ensures entry == Closed && old(stack)[|old(stack)| - 1].canonicalComplete ==> Known(old(node.prefix))
      ensures entry == Opened ==> ProbeClear()
      ensures entry == Closed ==> TurnOver(|old(stack)|)
      ensures Valid() && external == old(external) && (old(Healthy()) ==> Healthy())
      ensures cancelRequested == old(cancelRequested) && yieldRequested == old(yieldRequested)
      ensures nodesExpanded == old(nodesExpanded) + 1
      ensures entry == Opened ==>
                status == Unresolved && !localComplete && node.path == old(node.path) && OpensTop(old(stack), node.prefix)
      ensures status == Infeasible ==> unfinished == 0
      ensures entry == Closed ==>
                && status in {Unresolved, Infeasible}
                && ((options.PrunesByDegree() && Crowded(node.g, k, old(node.prefix))) || options.localDepth > 0)
      ensures old(Healthy()) && entry == Opened ==> !(options.PrunesByDegree() && Crowded(node.g, k, node.prefix))
      ensures entry != Completed
    {
      hide Accounted, CacheIsTruthful, Configured, CutsWithin, DynamicDecisionCache.Valid, Effort, Feasible, Healthy,
        Known, Learns, ListsLegal, NodeState.Fitted, NodeState.Valid, NoneLost, NoneMissing, Owed, Proofs, QueueOk,
        RootCovered, SearchDynamic.Valid, StackOk, TopFails, TurnOver, Turns, Valid, ValidTwins, Crowded;
      StackFacts();
      LearnsNothing(options.useCache, Proofs());
      nodesExpanded := nodesExpanded + 1;
      StackChanged();
      var refuted := BoundRefutes();
      if refuted {
        FinishFailedFrame(true);
        return Closed;
      }
      OpenTop();
      var pruned := ProbePrunes();
      if pruned {
        FinishFailedFrame(true);
        return Closed;
      }
      return Opened;
    }

    /** In a healthy session the bound is exact, whether residual degrees are kept or not. */
    lemma DegreeDecides()
      requires Valid() && Healthy() && status == Unresolved && !localComplete && options.residualDegreeBound
      ensures Crowded(node.g, k, node.prefix) <==> node.useBins && (node.bins.maximum + 1) / 2 > k
    {
      hide Accounted, CacheIsTruthful, Crowded, CutsWithin, DynamicDecisionCache.Valid, Feasible, MaximumDegree,
        NodeState.Fitted, NodeState.Valid, NoneLost, NoneMissing, Owed, QueueOk, RootCovered, SearchDynamic.Valid,
        StackOk, ValidTwins;
      if node.useBins {
        ResidualMaximumDecides(node, k, rootDepth);
      } else if Crowded(node.g, k, node.prefix) {
        CrowdedNeedsCeiling(node.g, k, node.prefix);
        assert false;
      }
    }

    /** The residual-degree bound, where it is in use. */
    method BoundRefutes() returns (refuted: bool)
      requires Valid() && status == Unresolved && !localComplete && stack != [] && !stack[|stack| - 1].entered
      modifies this`stack
      ensures Valid() && |stack| == |old(stack)| && Effort() <= old(Effort())
      ensures stack[|stack| - 1].canonicalComplete == old(stack)[|old(stack)| - 1].canonicalComplete
      ensures refuted ==> TopFails(node.g, k, node.path, stack, Owed()) && options.PrunesByDegree()
      ensures refuted ==> Crowded(node.g, k, node.prefix)
      ensures !refuted ==> stack == old(stack) && !(Healthy() && options.PrunesByDegree() && Crowded(node.g, k, node.prefix))
    {
      hide Accounted, CacheIsTruthful, CutsWithin, DynamicDecisionCache.Valid, Feasible, NodeState.Fitted,
        NodeState.Valid, NoneLost, Owed, QueueOk, RootCovered, SearchDynamic.Valid, StackOk, TopFails, NoneMissing,
        Valid, ValidTwins, Crowded, Turns, Effort;
      StackFacts();
      if Healthy() && options.PrunesByDegree() {
        DegreeDecides();
      }
      if options.usePartialBounds && node.useBins && (node.bins.maximum + 1) / 2 > k {
        ResidualMaximumProves(node, k);
        RefuteTop();
        return true;
      }
      return false;
    }

    /** The residual-degree bound refutes the top frame, which is entered without candidates. */
    method RefuteTop()
      requires Valid() && status == Unresolved && !localComplete && stack != [] && !stack[|stack| - 1].entered
      requires node.useBins && (node.bins.maximum + 1) / 2 > k
      modifies this`stack
      ensures Valid() && |stack| == |old(stack)| && Effort() < old(Effort())
      ensures stack[|stack| - 1].canonicalComplete == old(stack)[|old(stack)| - 1].canonicalComplete
      ensures TopFails(node.g, k, node.path, stack, Owed())
    {
      hide Turns, FrameEffort, Accounted, CacheIsTruthful, Covered, Cut, CutsWithin, DynamicDecisionCache.Valid, Elems, Feasible,
        FrameOk, IsPath, NodeState.Fitted, NodeState.Valid, NoneLost, Owed, QueueOk, RootCovered,
        SearchDynamic.Valid, StackOk, Valid, ValidTwins, Vertices;
      StackFacts();
      var top := |stack| - 1;
      var frame := stack[top];
      ResidualMaximumProves(node, k);
      EnterFailed(node.g, k, node.path, rootDepth, stack, Owed());
      OpenedEffort();
      SameFlags(stack, top, frame.(entered := true));
      stack := stack[top := frame.(entered := true)];
      StackChanged();
    }

    /** The top frame is entered with its children listed. */
    method OpenTop()
      requires Valid() && status == Unresolved && !localComplete && stack != [] && |node.path| < Size(node.g)
      requires !stack[|stack| - 1].entered
      modifies this`stack
      ensures Valid() && OpensTop(old(stack), node.prefix) && Effort() < old(Effort())
    {
      hide Accounted, CacheIsTruthful, Covered, Cut, CutsWithin, DynamicDecisionCache.Valid, Elems, Feasible,
        FrameOk, IsPath, ListsLegal, NodeState.Fitted, NodeState.Valid, NoneLost, Owed, QueueOk, RootCovered,
        SearchDynamic.Valid, StackOk, Valid, ValidTwins, Vertices;
      StackFacts();
      PathFacts(node);
      TopFacts(node.g, k, node.path, rootDepth, stack, Owed());
      var top := |stack| - 1;
      var frame := stack[top];
      var cs := ListChildren(frame.cut);
      EnterTop(node.g, k, twins, node.path, rootDepth, stack, Owed(), cs);
      ListedCount(node.g, k, twins, node.path, cs);
      StackHeight(node.g, k, node.path, rootDepth, stack, Owed());
      EffortSteps(Size(node.g), rootDepth, stack, frame.(entered := true, candidates := cs, next := 0), frame);
      SameFlags(stack, top, frame.(entered := true, candidates := cs, next := 0));
      stack := stack[top := frame.(entered := true, candidates := cs, next := 0)];
      StackChanged();
    }

    /** Only the top frame changed: it is entered and lists its legal children. */
    ghost predicate OpensTop(before: seq<Frame>, S: set<Vertex>)
      reads this`stack
    {
      |stack| == |before| > 0 && stack[..|stack| - 1] == before[..|stack| - 1] &&
      var f := stack[|stack| - 1];
      && f == before[|stack| - 1].(entered := true, candidates := f.candidates, next := 0)
      && ListsLegal(node.g, k, twins, S, f.candidates) && InOrder(options.failFirst, f.candidates)
    }

    /** The probe is configured, and the slack and the branching of the frame are small enough for it. */
    ghost predicate ProbeOpen(f: Frame) {
      options.localDepth > 0 && f.cut <= k && k - f.cut <= options.localMaxSlack && |f.candidates| <= options.localMaxChildren
    }

    /** An unlimited probe, where it applies, has found that the top frame can be continued. */
    ghost predicate ProbeClear()
      reads this`stack, node
    {
      stack != [] && options.localMaxStates == 0 && ProbeOpen(stack[|stack| - 1]) ==>
        LocalProbes.Extendable(node.g, k, twins, node.prefix, options.localDepth)
    }

    /** The local continuation probe below the top frame. */
    method ProbePrunes() returns (pruned: bool)
      requires Valid() && status == Unresolved && !localComplete && stack != []
      ensures pruned ==> TopFails(node.g, k, node.path, stack, Owed()) && options.localDepth > 0
      ensures options.localMaxStates == 0 ==>
                (pruned <==> ProbeOpen(stack[|stack| - 1]) && !LocalProbes.Extendable(node.g, k, twins, node.prefix, options.localDepth))
    {
      hide Accounted, CacheIsTruthful, Covered, Cut, CutsWithin, DynamicDecisionCache.Valid, Elems, Feasible,
        FrameOk, IsPath, NodeState.Fitted, NodeState.Valid, NoneLost, Owed, QueueOk, RootCovered,
        SearchDynamic.Valid, StackOk, Valid, ValidTwins, Vertices;
      StackFacts();
      TopFacts(node.g, k, node.path, rootDepth, stack, Owed());
      var top := stack[|stack| - 1];
      pruned := LocalContinuationPrunes(node, k, twins, options, top.cut, |top.candidates|);
    }

    /** The legal children in the order they will be tried. */
    method ListChildren(cut: nat) returns (cs: seq<Candidate>)
      requires Configured() && node.Valid() && cut == Cut(node.g, node.prefix) && cut <= k
      ensures ListsLegal(node.g, k, twins, node.prefix, cs) && InOrder(options.failFirst, cs)
    {
      hide InOrder, Cut, DynamicDecisionCache.Valid, ListsLegal, NodeState.Fitted, NodeState.Valid, Placed, Precedence,
        SearchDynamic.Valid, Valid, ValidTwins;
      var listed, ok := Enumerate(node, k, twins, cut, options.enumerator);
      cs := SortCandidates(if options.failFirst then LargestCutFirst else SmallestCutFirst, listed);
      Rearranged(node.g, k, twins, node.prefix, listed, cs);
      SortedInOrder(options.failFirst, cs);
    }

    /** The path is an ordering within the threshold. */
    method Complete()
      requires Valid() && status == Unresolved && !localComplete && stack != [] && |node.path| == Size(node.g)
      requires !stack[|stack| - 1].entered
      modifies this`stack, this`nodesExpanded, this`solution, this`status
      ensures Valid() && status == Solved && solution == node.path && nodesExpanded == old(nodesExpanded) + 1
      ensures Effort() < old(Effort()) && Proofs() == old(Proofs())
    {
      hide CacheIsTruthful, Configured, CutsWithin, DynamicDecisionCache.Valid, Elems, Feasible, IsPath,
        NodeState.Valid, NoneLost, Owed, QueueOk, RootCovered, SearchDynamic.Valid, StackOk, Vertices;
      assert IsWitness(node.g, k, node.path) && unfinished > |pending| by {
        PathFacts(node);
      }
      var top := |stack| - 1;
      OpenedEffort();
      stack := stack[top := stack[top].(entered := true)];
      nodesExpanded := nodesExpanded + 1;
      solution := node.path;
      var ok := IsWithin(node.g, k, solution);
      assert ok;
      status := Solved;
    }

    lemma OpenedEffort()
      requires Valid() && status == Unresolved && !localComplete && stack != [] && !stack[|stack| - 1].entered
      ensures var top := |stack| - 1;
              StackEffort(Size(node.g), rootDepth, stack[top := stack[top].(entered := true)]) <
                StackEffort(Size(node.g), rootDepth, stack)
    {
      hide FrameOk, Covered, Turns, Valid;
      StackFacts();
      TopFacts(node.g, k, node.path, rootDepth, stack, Owed());
      var f := stack[|stack| - 1];
      UnenteredIsEmpty(node.g, k, node.prefix, f);
      EffortSteps(Size(node.g), rootDepth, stack, f.(entered := true), f);
    }

    /**
      Descends to the next candidate that survives the lookahead, or finishes the
      exhausted frame; false stands for the exception of a placement.
     */
    method Advance() returns (ok: bool, descended: bool)
      requires Valid() && status == Unresolved && !localComplete && stack != [] && stack[|stack| - 1].entered
      modifies this, node, node.index, node.deltas, node.bins, cache
      ensures old(Healthy()) ==> ok && Healthy()
      ensures ok ==> Valid() && status in {Unresolved, Infeasible} && external == old(external)
      ensures ok ==> cancelRequested == old(cancelRequested) && yieldRequested == old(yieldRequested)
      ensures ok ==> nodesExpanded == old(nodesExpanded) && (status == Infeasible ==> unfinished == 0)
      ensures ok ==> Effort() < old(Effort()) && Learns(options.useCache, old(Proofs()), Proofs())
      ensures ok && descended ==> |stack| == |old(stack)| + 1 && Proofs() == old(Proofs())
      ensures ok ==> TurnOver(|old(stack)|)
      ensures ok && !descended && old(stack)[|old(stack)| - 1].canonicalComplete ==> Known(old(node.prefix))
    {
      hide *;
      StackFacts();
      LearnsNothing(options.useCache, Proofs());
      descended := false;
      var top := |stack| - 1;
      while stack[top].next < |stack[top].candidates|
        invariant Valid() && status == Unresolved && !localComplete && |stack| == top + 1 && stack[top].entered
        invariant old(Healthy()) ==> Healthy()
        invariant pending == old(pending) && external == old(external) && nodesExpanded == old(nodesExpanded)
        invariant cancelRequested == old(cancelRequested) && yieldRequested == old(yieldRequested)
        invariant Effort() <= old(Effort()) && Proofs() == old(Proofs())
        invariant node.prefix == old(node.prefix)
        invariant stack[top].canonicalComplete == old(stack)[top].canonicalComplete
        decreases |stack[top].candidates| - stack[top].next
      {
        ok, descended := TryNext();
        if !ok {
          return;
        }
        if descended {
          TurnIsOver(|old(stack)|);
          return;
        }
      }
      StackFacts();
      ExhaustedFails(node.g, k, node.path, rootDepth, stack, Owed());
      FinishFailedFrame(true);
      return true, false;
    }

    /** Takes the next candidate of the top frame: the lookahead passes it over, or it is placed. */
    method TryNext() returns (ok: bool, descended: bool)
      requires Valid() && status == Unresolved && !localComplete && stack != []
      requires var f := stack[|stack| - 1]; f.entered && f.next < |f.candidates|
      modifies this`stack, node, node.index, node.deltas, node.bins
      ensures old(Healthy()) ==> ok && Healthy()
      ensures ok ==> Valid() && Effort() < old(Effort())
      ensures ok && descended ==> |stack| == |old(stack)| + 1 && !stack[|stack| - 1].entered
      ensures ok && !descended ==>
                && node.prefix == old(node.prefix)
                && var f := old(stack)[|old(stack)| - 1];
                   stack == old(stack)[|old(stack)| - 1 := f.(next := f.next + 1)]
    {
      hide *;
      StackFacts();
      EffortOf();
      var frame := stack[|stack| - 1];
      var c := frame.candidates[frame.next];
      TopFacts(node.g, k, node.path, rootDepth, stack, Owed());
      NotFull(node, k, frame);
      CandidateFacts(node.g, k, node.prefix, frame, frame.next);
      StackHeight(node.g, k, node.path, rootDepth, stack, Owed());
      EffortSteps(Size(node.g), rootDepth, stack, frame.(next := frame.next + 1),
                  Frame(c.cut, Some(c.vertex), false, true, [], 0));
      var rejected := LookaheadRejects(c);
      if rejected {
        Skip(c);
        EffortOf();
        return true, false;
      }
      ok := Descend(c);
      EffortOf();
      return ok, true;
    }

    /** Passes over the next candidate of the top frame, whose child fails. */
    method Skip(c: Candidate)
      requires Valid() && status == Unresolved && !localComplete && stack != []
      requires var f := stack[|stack| - 1]; f.entered && f.next < |f.candidates| && c == f.candidates[f.next]
      requires !Feasible(node.g, k, node.prefix + {c.vertex})
      modifies this`stack
      ensures Valid()
      ensures var f := old(stack)[|old(stack)| - 1];
              stack == old(stack)[|old(stack)| - 1 := f.(next := f.next + 1)]
    {
      hide *;
      StackFacts();
      var top := |stack| - 1;
      var frame := stack[top];
      SkipCandidate(node.g, k, node.path, rootDepth, stack, Owed());
      SameFlags(stack, top, frame.(next := frame.next + 1));
      stack := stack[top := frame.(next := frame.next + 1)];
      StackChanged();
    }

    /** The depth-two lookahead, behind its gate: no legal vertex can follow c. */
    method LookaheadRejects(c: Candidate) returns (rejected: bool)
      requires Configured() && node.Valid() && |node.path| < Size(node.g)
      requires c.vertex in Vertices(node.g) - node.prefix && c.cut == Cut(node.g, node.prefix + {c.vertex})
      ensures rejected ==> !Feasible(node.g, k, node.prefix + {c.vertex})
      ensures rejected <==> && options.lookahead && |node.path| + 1 < Size(node.g)
                            && (options.lookaheadMaxRemaining == 0 ||
                                Size(node.g) - |node.path| - 1 <= options.lookaheadMaxRemaining)
                            && NoneLegalIn(node.g, k, twins, node.prefix + {c.vertex}, Vertices(node.g))
    {
      hide Cut, DeltaSync, DynamicDecisionCache.Valid, Feasible, Legal, NodeState.Fitted, NodeState.Valid,
        NoneLegalIn, PlacedCounts, SearchDynamic.Valid, Valid, ValidTwins, Vertices;
      var remaining := Size(node.g) - |node.path| - 1;
      var gate := options.lookaheadMaxRemaining == 0 || remaining <= options.lookaheadMaxRemaining;
      if !(options.lookahead && gate && |node.path| + 1 < Size(node.g)) {
        return false;
      }
      NodeFacts(node);
      var second := HasLegalSecond(node.g, k, twins, node.prefix, node.before, c.vertex, c.cut, false);
      rejected := second == NoLegalSecond;
      if rejected {
        LookaheadProves(node, k, twins, c.vertex);
      } else {
        SomeLegal(node.g, k, twins, node.prefix + {c.vertex});
      }
    }

    /**
      Consumes the next candidate of the top frame by placing it under a new frame;
      false stands for the exception when a residual degree would fall below zero.
     */
    method Descend(c: Candidate) returns (ok: bool)
      requires Valid() && status == Unresolved && !localComplete && stack != []
      requires var f := stack[|stack| - 1]; f.entered && f.next < |f.candidates| && c == f.candidates[f.next]
      modifies this`stack, node, node.index, node.deltas, node.bins
      ensures ok <==> old(node.Lowerable(c.vertex))
      ensures old(Healthy()) ==> ok && Healthy()
      ensures ok ==> Valid() && node.path == old(node.path) + [c.vertex] && node.deficit == old(node.deficit)
      ensures ok ==>
              var f := old(stack)[|old(stack)| - 1];
              stack == old(stack)[|old(stack)| - 1 := f.(next := f.next + 1)] +
                       [Frame(c.cut, Some(c.vertex), false, true, [], 0)]
    {
      hide Accounted, At, CacheIsTruthful, Configured, Covered, Cut, CutsWithin, DynamicDecisionCache.Valid, Elems,
        Feasible, FrameOk, IsPath, NodeState.Lowerable, NodeState.Valid, NoneMissing, Owed, QueueOk,
        SearchDynamic.Valid, Solves, StackOk, Valid, Vertices;
      StackFacts();
      var top := |stack| - 1;
      var frame := stack[top];
      TopFacts(node.g, k, node.path, rootDepth, stack, Owed());
      CandidateFacts(node.g, k, node.prefix, frame, frame.next);
      PushChild(node.g, k, node.path, rootDepth, stack, Owed());
      SameFlags(stack, top, frame.(next := frame.next + 1));
      ExtendWithin(node.g, k, node.path, c.vertex);
      ChildSets(node.path, c.vertex);
      RootDepthBelow(node.g, k, node.path, rootDepth, stack, Owed());
      stack := stack[top := frame.(next := frame.next + 1)];
      stack := stack + [Frame(c.cut, Some(c.vertex), false, true, [], 0)];
      if Healthy() {
        NothingUnderflows(node, rootDepth, c.vertex);
        if node.useBins {
          NoneMissingBeyond(node.g, node.path, rootDepth, node.deficit, c.vertex);
        }
      }
      ok := node.Apply(c.vertex);
      if ok {
        StackChanged();
      }
    }

    // ----- service -----

    /** A controller may raise the flags at any safe point; nobody else does. */
    method ObserveFlags(around: Surroundings)
      requires Valid()
      modifies this`yieldRequested, this`cancelRequested
      ensures Valid() && (old(cancelRequested) ==> cancelRequested) && (old(yieldRequested) ==> yieldRequested)
      ensures !around.hasController ==> cancelRequested == old(cancelRequested) && yieldRequested == old(yieldRequested)
    {
      hide Accounted, CacheIsTruthful, Configured, CutsWithin, DynamicDecisionCache.Valid, Feasible, IsWitness,
        NodeState.Valid, NoneLost, Owed, QueueOk, RootCovered, SearchDynamic.Valid, StackOk;
      if around.hasController {
        if * {
          yieldRequested := true;
        }
        if * {
          cancelRequested := true;
        }
      }
    }

    /** A safe point: a raised cancellation or yield, or a deadline, ends the quantum; nothing else does. */
    method SafePoint(around: Surroundings) returns (stop: Option<YieldReason>)
      requires Valid() && status == Unresolved && !localComplete
      modifies this`yieldRequested, this`cancelRequested, this`status
      ensures Valid() && (old(Healthy()) ==> Healthy())
      ensures stop == None ==> status == Unresolved && !cancelRequested && !yieldRequested
      ensures stop.Some? ==>
                if stop.value == IntervalResolved then status == Cancelled && cancelRequested
                else stop.value in {Deadline, YieldRequested} && status == Unresolved && !cancelRequested
      ensures stop == Some(Deadline) ==> around.hasDeadline
      ensures stop == Some(YieldRequested) ==> yieldRequested
      ensures old(cancelRequested) ==> status == Cancelled
      ensures old(yieldRequested) ==> stop.Some?
      ensures !around.hasController ==> cancelRequested == old(cancelRequested) && yieldRequested == old(yieldRequested)
    {
      hide NoneMissing, Valid;
      ObserveFlags(around);
      if cancelRequested {
        CancelNow();
        return Some(IntervalResolved);
      }
      if around.hasDeadline {
        if * {
          return Some(Deadline);
        }
      }
      if yieldRequested {
        return Some(YieldRequested);
      }
      return None;
    }

    /** Enters the top frame if it is new, and advances it unless that closed it. */
    method Work() returns (ok: bool)
      requires Valid() && status == Unresolved && !localComplete
      modifies this, node, node.index, node.deltas, node.bins, cache
      ensures old(Healthy()) ==> ok && Healthy()
      ensures ok ==> Valid() && external == old(external) && status in {Unresolved, Solved, Infeasible}
      ensures ok ==> cancelRequested == old(cancelRequested) && yieldRequested == old(yieldRequested)
      ensures ok ==> old(nodesExpanded) <= nodesExpanded <= old(nodesExpanded) + 1
      ensures ok ==> Effort() < old(Effort()) && Learns(options.useCache, old(Proofs()), Proofs())
      ensures ok && status == Infeasible ==> unfinished == 0
      ensures ok && status != Solved ==> TurnOver(|old(stack)|)
    {
      hide *;
      StackFacts();
      LearnsNothing(options.useCache, Proofs());
      if !stack[|stack| - 1].entered {
        var entry := EnterFrame();
        if entry != Opened {
          return true;
        }
      }
      StackFacts();
      ghost var entered := Proofs();
      var descended;
      ok, descended := Advance();
      if ok {
        LearnsFurther(options.useCache, old(Proofs()), entered, Proofs());
      }
    }

    /**
      Runs until the budget of expansions is spent, a terminal status is
      reached, or a safe point yields.  A quantum that ends normally has
      expanded exactly the budget; only a deadline or a raised flag ends it sooner,
      and every node it expands takes at least one turn off what is left to do.
      False stands for the exception of a placement, which a healthy session never
      makes.
     */
    method Service(workUnits: nat, around: Surroundings) returns (reason: YieldReason, ok: bool)
      requires Valid()
      modifies this, node, node.index, node.deltas, node.bins, cache
      ensures old(Healthy()) ==> ok && Healthy()
      ensures !ok ==> old(status) == Unresolved && !old(localComplete)
      ensures ok ==> Valid() && external == old(external) && Learns(options.useCache, old(Proofs()), Proofs())
      ensures ok && old(status) != Unresolved ==> status == old(status) && solution == old(solution)
      ensures ok && reason == QuantumComplete ==>
                status == Unresolved && nodesExpanded == old(nodesExpanded) + if workUnits == 0 then 1 else workUnits
      ensures ok && reason == WorkerDonation ==> status == Unresolved && localComplete
      ensures old(status == Unresolved && localComplete) ==>
                reason == WorkerDonation && nodesExpanded == old(nodesExpanded) && Proofs() == old(Proofs())
      ensures ok ==> (reason == Terminal <==> status != Unresolved) && reason != IntervalResolved
      ensures ok && reason == Deadline ==> around.hasDeadline
      ensures ok && reason == YieldRequested ==> yieldRequested
      ensures ok && status == Cancelled && old(status) == Unresolved ==> cancelRequested
      ensures ok && !around.hasController ==>
                cancelRequested == old(cancelRequested) &&
                (old(status) == Unresolved && !old(localComplete) ==> !yieldRequested)
      ensures ok && !around.hasDeadline && !around.hasController && old(status) == Unresolved && !old(cancelRequested) ==>
                || reason in {QuantumComplete, WorkerDonation}
                || (reason == Terminal && status in {Solved, Infeasible})
      ensures ok ==> old(nodesExpanded) <= nodesExpanded <= old(nodesExpanded) + if workUnits == 0 then 1 else workUnits
      ensures ok ==> Effort() + nodesExpanded <= old(Effort()) + old(nodesExpanded)
      ensures ok && old(status) == Unresolved && !old(localComplete) && old(cancelRequested) ==> status == Cancelled
      ensures ok && old(status) == Unresolved && status == Infeasible ==> unfinished == 0
    {
      hide *;
      ProofsHold();
      LearnsNothing(options.useCache, Proofs());
      if status != Unresolved {
        return Terminal, true;
      }
      if localComplete {
        return WorkerDonation, true;
      }
      Reopen();
      reason, ok := QuantumComplete, true;
      var target := if workUnits == 0 then 1 else workUnits;
      var expanded: nat := 0;
      while status == Unresolved
        invariant Valid() && external == old(external) && reason == QuantumComplete && ok
        invariant Learns(options.useCache, old(Proofs()), Proofs())
        invariant old(Healthy()) ==> Healthy()
        invariant expanded < target && nodesExpanded == old(nodesExpanded) + expanded
        invariant Effort() + nodesExpanded <= old(Effort()) + old(nodesExpanded)
        invariant old(cancelRequested) ==> cancelRequested && status == Unresolved && !localComplete
        invariant !around.hasController ==> cancelRequested == old(cancelRequested) && !yieldRequested
        invariant status == Infeasible ==> unfinished == 0
        invariant status in {Unresolved, Solved, Infeasible}
        decreases Effort()
      {
        if localComplete {
          reason := WorkerDonation;
          break;
        }
        ghost var known := Proofs();
        var stop := SafePoint(around);
        if stop.Some? {
          reason := stop.value;
          break;
        }
        var before := nodesExpanded;
        ok := Work();
        if !ok {
          return;
        }
        ProofsHold();
        LearnsFurther(options.useCache, old(Proofs()), known, Proofs());
        expanded := expanded + (nodesExpanded - before);
        if expanded >= target {
          break;
        }
      }
      if status != Unresolved {
        reason := Terminal;
      }
    }

    lemma ProofsHold()
      requires Valid()
      ensures CacheIsTruthful()
    {
      hide Configured, CutsWithin, DynamicDecisionCache.Valid, Feasible, IsWitness, Live, NodeState.Valid, Truthful;
    }

    method Reopen()
      requires Valid()
      modifies this`yieldRequested
      ensures Valid() && !yieldRequested
    {
      hide Accounted, CacheIsTruthful, Configured, CutsWithin, DynamicDecisionCache.Valid, Feasible, IsWitness,
        NodeState.Valid, NoneLost, Owed, QueueOk, RootCovered, SearchDynamic.Valid, StackOk;
      yieldRequested := false;
    }

    method CancelNow()
      requires Valid() && status == Unresolved
      modifies this`status
      ensures Valid() && Healthy() && status == Cancelled
    {
      hide CacheIsTruthful, Configured, CutsWithin, DynamicDecisionCache.Valid, Feasible, IsWitness,
        NodeState.Valid, NoneLost, Owed, QueueOk, RootCovered, SearchDynamic.Valid, StackOk;
      status := Cancelled;
    }

    // ----- splitting and rejoining -----

    /** Detaches the next candidate of the deepest entered frame that has one. */
    method DonateUnexploredSibling() returns (donated: bool)
      requires Valid()
      modifies this`stack, this`pending, this`unfinished, this`partitioned
      ensures Valid()
      ensures donated <==> old(status == Unresolved && exists d :: 0 <= d < |stack| && Open(stack[d]))
      ensures Effort() == old(Effort())
      ensures !donated ==>
                stack == old(stack) && pending == old(pending) && unfinished == old(unfinished) && partitioned == old(partitioned)
      ensures donated ==>
                && |pending| == |old(pending)| + 1 && pending[..|old(pending)|] == old(pending)
                && unfinished == old(unfinished) + 1 && partitioned
                && exists d :: 0 <= d < |old(stack)| && Donates(old(stack), d)
                               && stack == DonatedStack(old(stack), d)
                               && rootDepth + d <= |node.path|
                               && pending[|old(pending)|] == DonatedContinuation(node.path[..rootDepth + d], old(stack), d)
    {
      hide DonatedContinuation, DonatedStack, Valid;
      if status != Unresolved || stack == [] {
        return false;
      }
      for depth := |stack| downto 0
        invariant forall d :: depth <= d < |stack| ==> !Open(stack[d])
        invariant stack == old(stack) && pending == old(pending) && unfinished == old(unfinished)
        invariant partitioned == old(partitioned) && Valid() && Effort() == old(Effort())
      {
        if Open(stack[depth]) {
          Detach(depth);
          return true;
        }
      }
      return false;
    }

    method Detach(depth: nat)
      requires Valid() && status == Unresolved && depth < |stack| && Open(stack[depth])
      modifies this`stack, this`pending, this`unfinished, this`partitioned
      ensures Valid() && partitioned && unfinished == old(unfinished) + 1
      ensures rootDepth + depth <= |node.path| && stack == DonatedStack(old(stack), depth)
      ensures pending == old(pending) + [DonatedContinuation(node.path[..rootDepth + depth], old(stack), depth)]
      ensures Effort() == old(Effort())
    {
      hide Turns, FrameEffort, At, CacheIsTruthful, Configured, Cut, CutsWithin, DonatedStack, DynamicDecisionCache.Valid, Elems,
        Feasible, IsPath, IsWitness, NodeState.Valid, NoneLost, Outstanding, QueueOk, SearchDynamic.Valid, StackOk,
        Vertices;
      PathFacts(node);
      DonatedRegion(node.g, k, node.path, rootDepth, stack, Owed(), depth);
      var donated := DonatedContinuation(node.path[..rootDepth + depth], stack, depth);
      ghost var owed := Owed();
      DonorDepth(depth);
      QueueBack(node.g, k, pending, donated);
      OutstandingQueue(node.g, k, pending, external, donated);
      pending := pending + [donated];
      unfinished := unfinished + 1;
      Donate(node.g, k, node.path, rootDepth, stack, owed, depth, Owed());
      DonatedEffort(Size(node.g), rootDepth, stack, depth);
      QueueBackEffort(Size(node.g), old(pending), donated);
      stack := DonatedStack(stack, depth);
      partitioned := true;
      StackChanged();
    }

    lemma DonorDepth(depth: nat)
      requires IsPath(node.g, node.path) && StackOk(node.g, k, node.path, rootDepth, stack, Owed())
      requires depth < |stack| && Open(stack[depth])
      ensures rootDepth + depth < Size(node.g)
    {
      hide Covered, Cut, Feasible;
      assert Level(node.g, k, node.path, rootDepth, stack, Owed(), depth);
      var P := node.path[..rootDepth + depth];
      CandidateFacts(node.g, k, Elems(P), stack[depth], stack[depth].next);
      PathIsFull(node.g, P);
    }

    /** Hands the first queued region to an external owner, as a snapshot that can be resumed elsewhere. */
    method ExtractPendingContinuation() returns (child: Option<SessionSnapshot>)
      requires Valid()
      modifies this`pending, this`external
      ensures Valid()
      ensures child.Some? <==> old(status == Unresolved && pending != [])
      ensures child == None ==> pending == old(pending) && external == old(external)
      ensures child.Some? ==>
                && child.value == ChildSnapshot(k, old(pending)[0]) && pending == old(pending)[1..]
                && external == old(external) + [Elems(child.value.path)]
                && Effort() + Turns(Height(Size(node.g), |child.value.path|)) < old(Effort())
                && Resumable(node.g, k, child.value, Elems(child.value.path), [])
    {
      hide At, CacheIsTruthful, Configured, CutsWithin, DynamicDecisionCache.Valid, Elems, Feasible, IsWitness,
        NodeState.Valid, NoneLost, Outstanding, QueueOk, Queued, Resumable, SearchDynamic.Valid, StackOk;
      if status != Unresolved || pending == [] {
        return None;
      }
      var p := pending[0];
      QueueFront(node.g, k, pending);
      OutstandingHandOver(node.g, k, pending, external);
      ChildIsResumable(node.g, k, p);
      ghost var owed := Owed();
      pending := pending[1..];
      external := external + [Elems(p.path)];
      assert Owed() == owed && Active() && RootCovered();
      return Some(ChildSnapshot(k, p));
    }

    /**
      An external owner reports that its region failed.  The last report closes
      the session, and publishes the rejoined proof of the local region.  A report
      without an external region is counted all the same: it raises the exception,
      for which false stands, only when it takes the last region, and otherwise
      goes unnoticed; either way the count is wrong afterwards.
     */
    method ResolveExternalFailure(ghost region: nat) returns (ok: bool)
      requires Valid()
      requires status == Unresolved && external != [] ==> region < |external| && !Feasible(node.g, k, external[region])
      modifies this`unfinished, this`external, this`status, cache
      ensures ok <==> old(status == Unresolved && (external != [] || unfinished > 1))
      ensures Valid() <==> old(status != Unresolved || external != [])
      ensures old(status) != Unresolved ==> status == old(status) && unfinished == old(unfinished)
      ensures old(status) == Unresolved ==> unfinished == old(unfinished) - 1
      ensures external == if old(status) == Unresolved && old(external) != []
                          then old(external)[..region] + old(external)[region + 1..] else old(external)
      ensures old(status) == Unresolved && old(external) != [] ==>
                (status == Infeasible <==> external == [] && localComplete) && status in {Unresolved, Infeasible}
      ensures old(external) == [] ==> status == old(status)
      ensures CacheIsTruthful() && Learns(options.useCache, old(Proofs()), Proofs())
      ensures old(status) == Unresolved && status == Infeasible ==> Known(node.prefix)
    {
      hide At, Configured, CutsWithin, DynamicDecisionCache.Entries, DynamicDecisionCache.Valid, Elems, Feasible,
        IsPath, IsWitness, NodeState.Valid, NoneLost, Outstanding, QueueOk, SearchDynamic.Valid, StackOk, Truthful,
        Vertices;
      if status != Unresolved {
        return false;
      }
      PathFacts(node);
      ghost var owed := Owed();
      unfinished := unfinished - 1;
      if external != [] {
        OutstandingClose(node.g, k, pending, external, region);
        external := external[..region] + external[region + 1..];
        assert Owed() == owed && RootCovered();
      }
      if unfinished == 0 {
        if !localComplete || pending != [] {
          return false;
        }
        assert external == [] && pending == [];
        assert !Owed() by {
          NothingOutstanding(node.g, k);
        }
        if options.useCache {
          RecordFailure(node.g, k, cache, node.prefix);
        }
        status := Infeasible;
      }
      return true;
    }

    /**
      A bound certified elsewhere refutes the local region.  Only a session that
      consists of that region alone may be closed this way; false stands for the
      exceptions.
     */
    method MarkCertifiedInfeasible() returns (ok: bool)
      requires Valid()
      requires status == Unresolved && !localComplete ==>
                 rootDepth <= |node.path| && !Feasible(node.g, k, At(node.path, rootDepth))
      modifies this`status, this`stack
      ensures Valid()
      ensures ok <==> old(status == Unresolved && !localComplete && pending == [] && external == [])
      ensures if ok then status == Infeasible && stack == [] && unfinished == 1
              else status == old(status) && stack == old(stack)
    {
      hide Active, At, CacheIsTruthful, Configured, CutsWithin, DynamicDecisionCache.Valid, Feasible, IsWitness,
        NodeState.Valid, NoneLost, Outstanding, QueueOk, SearchDynamic.Valid;
      if status != Unresolved {
        return false;
      }
      var active := if localComplete then 0 else 1;
      var externally := unfinished - |pending| - active;
      if unfinished != 1 || externally != 0 || pending != [] {
        return false;
      }
      NothingOutstanding(node.g, k);
      status := Infeasible;
      stack := [];
      return true;
    }

    /** Adopts a witness found elsewhere; false stands for the exception on an invalid one. */
    method PublishExternalWitness(ordering: seq<Vertex>) returns (ok: bool)
      requires Valid()
      modifies this`solution, this`status
      ensures Valid() && (ok <==> old(status) != Unresolved || IsWitness(node.g, k, ordering))
      ensures old(status) == Unresolved && ok ==> status == Solved && solution == ordering
      ensures old(status) != Unresolved || !ok ==> status == old(status) && solution == old(solution)
    {
      hide CacheIsTruthful, Configured, CutsWithin, DynamicDecisionCache.Valid, Feasible, IsWitness,
        NodeState.Valid, NoneLost, Owed, QueueOk, RootCovered, SearchDynamic.Valid, StackOk;
      if status != Unresolved {
        return true;
      }
      ok := IsWithin(node.g, k, ordering);
      if ok {
        solution := ordering;
        status := Solved;
      }
    }

    method RequestYield()
      requires Valid()
      modifies this`yieldRequested
      ensures Valid() && yieldRequested
    {
      hide Accounted, CacheIsTruthful, Configured, CutsWithin, DynamicDecisionCache.Valid, Feasible, IsWitness,
        NodeState.Valid, NoneLost, Owed, QueueOk, RootCovered, SearchDynamic.Valid, StackOk;
      yieldRequested := true;
    }

    method Cancel()
      requires Valid()
      modifies this`cancelRequested
      ensures Valid() && cancelRequested
    {
      hide Accounted, CacheIsTruthful, Configured, CutsWithin, DynamicDecisionCache.Valid, Feasible, IsWitness,
        NodeState.Valid, NoneLost, Owed, QueueOk, RootCovered, SearchDynamic.Valid, StackOk;
      cancelRequested := true;
    }

    // ----- snapshot and restore -----

    /**
      The proof-relevant state.  None stands for the exception when regions are
      owned externally and the caller asked for a standalone snapshot; a session
      solved, cancelled or closed by a certificate counts its own region as external.
     */
    method Snapshot(allowExternal: bool) returns (r: Option<SessionSnapshot>)
      requires Valid()
      ensures status == Unresolved ==> (r.Some? <==> allowExternal || external == [])
      ensures status in {Solved, Cancelled} ==> (r.Some? <==> allowExternal)
      ensures status == Infeasible ==> (r.Some? <==> allowExternal || unfinished == 0)
      ensures r.Some? && status != Cancelled ==> Resumable(node.g, k, r.value, root, external)
      ensures r.Some? ==> r.value == Saved(r.value.externalRegions)
    {
      hide Active, CacheIsTruthful, Configured, Covering, CutsWithin, DynamicDecisionCache.Valid, Elems, Feasible,
        IsPath, IsWitness, NodeState.Valid, NoneLost, QueueOk, RootCovered, SaveFrames, SearchDynamic.Valid,
        Vertices;
      assert status == Unresolved ==> unfinished == |pending| + |external| + (if localComplete then 0 else 1);
      var active := if status == Unresolved && !localComplete then 1 else 0;
      if unfinished < |pending| + active {
        return None;
      }
      var externally := unfinished - |pending| - active;
      if !allowExternal && externally != 0 {
        return None;
      }
      r := Some(Saved(externally));
      if status == Unresolved {
        SavedIsCovering();
      }
      PathFacts(node);
    }

    function Saved(externally: nat): SessionSnapshot
      reads this, node
    {
      SessionSnapshot(k, status, node.path, solution, SaveFrames(stack), pending, unfinished, externally, partitioned,
                      nodesExpanded)
    }

    lemma SavedIsCovering()
      requires Valid() && status == Unresolved
      ensures Covering(node.g, k, Saved(|external|), root, external)
    {
      hide At, CacheIsTruthful, Configured, CutsWithin, DynamicDecisionCache.Valid, Elems, Feasible, IsPath,
        IsWitness, LoadFrames, NodeState.Valid, NoneLost, Outstanding, QueueOk, SaveFrames, SearchDynamic.Valid,
        StackOk, Vertices;
      PathFacts(node);
      if !localComplete {
        StackHeight(node.g, k, node.path, rootDepth, stack, Owed());
        ReloadedStack(node.g, k, node.path, rootDepth, stack, Owed(), !partitioned);
      }
    }

    /**
      Resumes a snapshot with a fresh cache.  The rebuilt residual degrees miss
      what the vertices of the restored path would count once they are taken off,
      so the session is healthy only if there is nothing to count, or nothing kept.
     */
    constructor Restore(g: Graph, s: SessionSnapshot, options: SearchOptions, cache: ProofCache,
                        ghost root: set<Vertex>, ghost external: seq<set<Vertex>>)
      requires options.localDepth > 0 ==> options.enumerator != Scanned
      requires cache.Valid() && Truthful(g, cache.Entries())
      requires Resumable(g, s.threshold, s, root, external)
      ensures Healthy() <==>
                s.status == Unresolved && s.frames != [] && KeepsResiduals(g, s.threshold, options) ==>
                  Unwindable(g, s.path, RootDepth(s))
      ensures status == s.status && stack == LoadFrames(s.frames, !s.partitioned) && node.path == s.path
      ensures rootDepth == RootDepth(s) && node.deficit == Missing(g, s.path) && this.options == options
      ensures node.useBins == KeepsResiduals(g, s.threshold, options)
      ensures localComplete == (s.status == Unresolved && s.frames == [])
      ensures Valid() && this.root == root && this.external == external && this.cache == cache
      ensures node.g == g && k == s.threshold && Saved(s.externalRegions) == s && TwinTableOf(g, options.useTwins, twins)
      ensures fresh(node) && fresh(node.index) && fresh(node.deltas) && fresh(node.bins)
    {
      hide At, CutsWithin, Distinct, DynamicDecisionCache.Entries, DynamicDecisionCache.Valid, Elems, Feasible,
        IsPath, IsWitness, LoadFrames, MaximumDegree, Missing, NodeState.Fitted, NodeState.Valid, NoneLost,
        NoneMissing, Outstanding, QueueOk, SaveFrames, SearchDynamic.Valid, StackOk, Truthful, Twins, Unwindable,
        ValidTwins, Vertices;
      var builtTwins := BuildTwins(g, options.useTwins);
      twins := builtTwins;
      this.k, this.options, this.cache, this.root := s.threshold, options, cache, root;
      node := new NodeState(g, s.path, options.enumerator != Scanned, false, KeepsResiduals(g, s.threshold, options));
      rootDepth := RootDepth(s);
      pending, unfinished, this.external := s.pending, s.unfinished, external;
      stack := LoadFrames(s.frames, !s.partitioned);
      partitioned, localComplete := s.partitioned, s.status == Unresolved && s.frames == [];
      status, solution := s.status, s.ordering;
      nodesExpanded, yieldRequested, cancelRequested := s.nodesExpanded, false, false;
      new;
      ResavedFrames(s.frames, !s.partitioned);
      PathFacts(node);
      if status == Unresolved {
        LoadedFlags(s.frames, !s.partitioned);
      }
      NoneMissingIffUnwindable(g, s.path, RootDepth(s));
    }
  }

  /** A frame with an unconsumed candidate. */
  predicate Open(f: Frame) {
    f.entered && f.next < |f.candidates|
  }

  /** d is the deepest open frame. */
  predicate Donates(stack: seq<Frame>, d: nat) {
    d < |stack| && Open(stack[d]) && forall e :: d < e < |stack| ==> !Open(stack[e])
  }

  function DonatedContinuation(path: seq<Vertex>, stack: seq<Frame>, d: nat): Continuation
    requires d < |stack| && Open(stack[d])
  {
    var c := stack[d].candidates[stack[d].next];
    Continuation(path + [c.vertex], c.cut)
  }

  lemma LoadedFlags(frames: seq<FrameSnapshot>, complete: bool)
    ensures complete ==> NoneLost(LoadFrames(frames, complete))
  {
  }

  lemma StackHeight(g: Graph, k: nat, path: seq<Vertex>, r: nat, stack: seq<Frame>, owed: bool)
    requires StackOk(g, k, path, r, stack, owed)
    ensures |path| == r + |stack| - 1
  {
  }

  lemma SameFlags(stack: seq<Frame>, i: nat, f: Frame)
    requires i < |stack| && f.canonicalComplete == stack[i].canonicalComplete
    ensures NoneLost(stack) ==> NoneLost(stack[i := f])
  {
  }

  lemma RootDepthBelow(g: Graph, k: nat, path: seq<Vertex>, r: nat, stack: seq<Frame>, owed: bool)
    requires StackOk(g, k, path, r, stack, owed) && stack != []
    ensures r <= |path|
  {
  }

  /** A frame with a candidate left is not complete. */
  lemma NotFull(node: NodeState, k: nat, f: Frame)
    requires node.Valid() && FrameOk(node.g, k, node.prefix, f) && f.next < |f.candidates|
    ensures |node.path| < Size(node.g)
  {
    PathFacts(node);
    CandidateFacts(node.g, k, node.prefix, f, f.next);
  }

  lemma EmptyPath(g: Graph)
    ensures IsPath(g, [])
  {
  }

  lemma EmptyWithin(g: Graph, k: nat)
    ensures CutsWithin(g, k, [], 0) && Elems([]) == {} && Cut(g, {}) == 0
  {
    EmptyCut(g);
    assert Elems([]) == {};
  }

  lemma NoEffort(n: nat, r: nat)
    ensures StackEffort(n, r, []) == 0
  {
  }

  /** A fresh frame at its region root takes its whole tree. */
  lemma FreshEffort(n: nat, r: nat, f: Frame)
    requires !f.entered
    ensures StackEffort(n, r, [f]) == Turns(Height(n, r))
  {
    assert [f][..0] == [];
  }

  lemma UnenteredIsEmpty(g: Graph, k: nat, S: set<Vertex>, f: Frame)
    requires FrameOk(g, k, S, f) && !f.entered
    ensures f.candidates == [] && f.next == 0
  {
  }

  lemma Popped(path: seq<Vertex>, r: nat, height: nat)
    requires height > 1 && |path| == r + height - 1
    ensures r <= |path| - 1 && At(path[..|path| - 1], r) == At(path, r)
  {
    assert path[..|path| - 1][..r] == path[..r];
  }

  /** An infeasible session proves that no ordering within the threshold starts with the root. */
  lemma InfeasibleIsProof(s: DecisionSession, rootPath: seq<Vertex>, o: seq<Vertex>)
    requires s.Valid() && s.status == Infeasible
    requires IsPath(s.node.g, rootPath) && s.root == Elems(rootPath)
    ensures !Solves(s.node.g, s.k, rootPath, o)
  {
    hide DynamicDecisionCache.Valid, Elems, Feasible, IsPath, IsWitness, NodeState.Valid, SearchDynamic.Valid,
      Solves;
    SolvableIffFeasible(s.node.g, s.k, rootPath);
  }

  /** While a session is open, a feasible root means that some local or detached region is feasible. */
  lemma OpenSessionCoversRoot(s: DecisionSession)
    requires s.Valid() && s.status == Unresolved && Feasible(s.node.g, s.k, s.root)
    ensures s.unfinished == |s.pending| + |s.external| + (if s.localComplete then 0 else 1)
    ensures || (exists p :: p in s.pending && Feasible(s.node.g, s.k, Elems(p.path)))
            || (exists S :: S in s.external && Feasible(s.node.g, s.k, S))
            || (!s.localComplete && s.rootDepth <= |s.node.path| && Feasible(s.node.g, s.k, At(s.node.path, s.rootDepth)))
  {
    hide At, CutsWithin, DynamicDecisionCache.Valid, Elems, Feasible, IsWitness, NodeState.Valid, NoneLost,
      QueueOk, SearchDynamic.Valid;
  }
}
