/**
  Whole runs of a tree of sessions: any interleaving of service, donation,
  hand-over, owners that resume, split and suspend their regions, their reports,
  witnesses, certificates, yields and cancellation.
 */
module SessionRuns {
  import opened Options
  import opened Graphs
  import opened Feasibility
  import opened NodeStates
  import opened Candidates
  import opened DecisionCaches
  import opened ThresholdSearch
  import opened ResidualRollbacks
  import opened SessionFrames
  import opened DecisionSessions
  import opened LagrangianBounds

  /** What a controller may do next to the session with the given number. */
  datatype SessionStep =
    | Serving(member: nat, workUnits: nat, around: Surroundings)
    | Donating(member: nat)
    | Extracting(member: nat)
    | Owning(member: nat, region: nat, options: SearchOptions)
    | Reporting(member: nat, region: nat)
    | Restarting(member: nat, options: SearchOptions)
    | Offering(member: nat, ordering: seq<Vertex>)
    | Certifying(member: nat, cardinalities: seq<nat>, denominator: Option<nat>, numerators: Option<seq<int>>)
    | Yielding(member: nat)
    | Cancelling(member: nat)

  /** Who has an external region: nobody yet, or the session with the given number. */
  datatype Holder = Waiting(snapshot: SessionSnapshot) | Held(owner: nat)

  ghost function Footprint(s: DecisionSession): set<object> {
    {s, s.node, s.node.index, s.node.deltas, s.node.bins, s.cache}
  }

  lemma InFootprint(s: DecisionSession)
    ensures s in Footprint(s)
  {
  }

  /** No two sessions share any state. */
  ghost predicate Apart(sessions: seq<DecisionSession>) {
    forall i, j :: 0 <= i < j < |sessions| ==> Footprint(sessions[i]) !! Footprint(sessions[j])
  }

  /** The holder of a region of session i: a snapshot that resumes it, or a later session rooted there. */
  ghost predicate HolderOk(g: Graph, k: nat, region: set<Vertex>, h: Holder, sessions: seq<DecisionSession>, i: nat) {
    match h
    case Waiting(snapshot) => Resumable(g, k, snapshot, region, []) && |snapshot.frames| == 1
    case Held(owner) => i < owner < |sessions| && sessions[owner].root == region
  }

  ghost predicate HoldersOk(g: Graph, k: nat, external: seq<set<Vertex>>, hs: seq<Holder>,
                            sessions: seq<DecisionSession>, i: nat)
  {
    |hs| == |external| && forall r :: 0 <= r < |hs| ==> HolderOk(g, k, external[r], hs[r], sessions, i)
  }

  ghost predicate MemberOk(g: Graph, k: nat, s: DecisionSession, hs: seq<Holder>, sessions: seq<DecisionSession>, i: nat)
    reads Footprint(s)
  {
    s.Valid() && s.node.g == g && s.k == k && HoldersOk(g, k, s.external, hs, sessions, i)
  }

  lemma HasMember(g: Graph, k: nat, s: DecisionSession, hs: seq<Holder>, sessions: seq<DecisionSession>, i: nat)
    requires s.Valid() && s.node.g == g && s.k == k && HoldersOk(g, k, s.external, hs, sessions, i)
    ensures MemberOk(g, k, s, hs, sessions, i)
    ensures s.Healthy() ==> Sound(s)
  {
    hide DecisionSession.Valid, DecisionSession.Healthy, HoldersOk;
  }

  ghost predicate Sound(s: DecisionSession)
    reads Footprint(s)
  {
    s.Healthy()
  }

  /** What a session in a given status has proved about its root. */
  ghost predicate Truthfully(s: DecisionSession)
    reads s, s.node
  {
    match s.status
    case Solved => IsWitness(s.node.g, s.k, s.solution)
    case Infeasible => !Feasible(s.node.g, s.k, s.root)
    case Cancelled => true
    case Unresolved =>
      Feasible(s.node.g, s.k, s.root) ==>
        || (exists p :: p in s.pending && Feasible(s.node.g, s.k, Elems(p.path)))
        || (exists S :: S in s.external && Feasible(s.node.g, s.k, S))
        || ActiveFeasible(s)
  }

  /** The region the session is working on is feasible. */
  ghost predicate ActiveFeasible(s: DecisionSession)
    reads s, s.node
  {
    !s.localComplete && s.rootDepth <= |s.node.path| && Feasible(s.node.g, s.k, At(s.node.path, s.rootDepth))
  }

  lemma ValidIsTruthful(s: DecisionSession)
    requires s.Valid()
    ensures Truthfully(s)
  {
    hide At, CutsWithin, DynamicDecisionCache.Valid, Elems, Feasible, IsWitness, NodeState.Valid, NoneLost,
      QueueOk, SearchDynamic.Valid;
  }

  lemma EmptyCacheIsTruthful(g: Graph, cache: ProofCache)
    requires cache.Valid() && cache.Entries() == map[]
    ensures Truthful(g, cache.Entries())
  {
  }

  lemma FreshRegionUnwinds(g: Graph, child: SessionSnapshot)
    requires |child.frames| == 1
    ensures Unwindable(g, child.path, RootDepth(child))
  {
  }

  lemma SameThreshold(g: Graph, k: nat, child: SessionSnapshot, S: set<Vertex>, external: seq<set<Vertex>>)
    requires Resumable(g, k, child, S, external)
    ensures child.threshold == k && Resumable(g, child.threshold, child, S, external)
  {
  }

  /** More sessions, or the same with other objects of the same roots, leave the holders in order. */
  lemma HoldersStay(g: Graph, k: nat, external: seq<set<Vertex>>, hs: seq<Holder>, sessions: seq<DecisionSession>,
                    after: seq<DecisionSession>, i: nat)
    requires HoldersOk(g, k, external, hs, sessions, i) && |after| >= |sessions|
    requires forall j :: 0 <= j < |sessions| ==> after[j].root == sessions[j].root
    ensures HoldersOk(g, k, external, hs, after, i)
  {
    hide Resumable;
  }

  lemma HolderAdded(g: Graph, k: nat, external: seq<set<Vertex>>, hs: seq<Holder>, sessions: seq<DecisionSession>, i: nat,
                    region: set<Vertex>, h: Holder)
    requires HoldersOk(g, k, external, hs, sessions, i) && HolderOk(g, k, region, h, sessions, i)
    ensures HoldersOk(g, k, external + [region], hs + [h], sessions, i)
  {
    hide Resumable;
  }

  lemma HolderChanged(g: Graph, k: nat, external: seq<set<Vertex>>, hs: seq<Holder>, sessions: seq<DecisionSession>, i: nat,
                      r: nat, h: Holder)
    requires HoldersOk(g, k, external, hs, sessions, i) && r < |hs| && HolderOk(g, k, external[r], h, sessions, i)
    ensures HoldersOk(g, k, external, hs[r := h], sessions, i)
  {
    hide Resumable;
  }

  lemma HolderGone(g: Graph, k: nat, external: seq<set<Vertex>>, hs: seq<Holder>, sessions: seq<DecisionSession>, i: nat,
                   r: nat)
    requires HoldersOk(g, k, external, hs, sessions, i) && r < |hs|
    ensures |external| == |hs|
    ensures HoldersOk(g, k, external[..r] + external[r + 1..], hs[..r] + hs[r + 1..], sessions, i)
  {
    hide Resumable;
  }

  lemma RootFacts(s: DecisionSession)
    requires s.Valid() && s.status == Unresolved && !s.localComplete
    ensures s.rootDepth <= |s.node.path| && Elems(s.node.path[..s.rootDepth]) <= Vertices(s.node.g)
  {
    hide DecisionSession.Valid;
    s.StackFacts();
    RootDepthBelow(s.node.g, s.k, s.node.path, s.rootDepth, s.stack, s.Owed());
    forall v | v in s.node.path[..s.rootDepth] ensures v in Vertices(s.node.g) {
      assert v in Elems(s.node.path);
    }
  }

  lemma WaitingFacts(g: Graph, k: nat, external: seq<set<Vertex>>, hs: seq<Holder>, sessions: seq<DecisionSession>, i: nat,
                     r: nat)
    requires HoldersOk(g, k, external, hs, sessions, i) && r < |hs| && hs[r].Waiting?
    ensures r < |external| && Resumable(g, k, hs[r].snapshot, external[r], []) && |hs[r].snapshot.frames| == 1
  {
    hide Resumable;
  }

  /** A later session rooted there takes a region that was waiting. */
  lemma NowHeld(g: Graph, k: nat, external: seq<set<Vertex>>, hs: seq<Holder>, sessions: seq<DecisionSession>, i: nat,
                r: nat, n: nat)
    requires HoldersOk(g, k, external, hs, sessions, i) && r < |hs| && i < n < |sessions|
    requires sessions[n].root == external[r]
    ensures HoldersOk(g, k, external, hs[r := Held(n)], sessions, i)
  {
    hide Resumable;
    HolderChanged(g, k, external, hs, sessions, i, r, Held(n));
  }

  lemma HeldFacts(g: Graph, k: nat, external: seq<set<Vertex>>, hs: seq<Holder>, sessions: seq<DecisionSession>, i: nat,
                  r: nat)
    requires HoldersOk(g, k, external, hs, sessions, i) && r < |hs| && hs[r].Held?
    ensures r < |external| && i < hs[r].owner < |sessions| && sessions[hs[r].owner].root == external[r]
  {
    hide Resumable;
  }

  lemma ChildWaits(g: Graph, k: nat, child: SessionSnapshot, sessions: seq<DecisionSession>, i: nat)
    requires Resumable(g, k, child, Elems(child.path), []) && |child.frames| == 1
    ensures HolderOk(g, k, Elems(child.path), Waiting(child), sessions, i)
  {
  }

  // ----- one session -----

  predicate Local(step: SessionStep) {
    step.Serving? || step.Donating? || step.Offering? || step.Certifying? || step.Yielding? || step.Cancelling?
  }

  /** What a local step does to an open session. */
  twostate predicate Changed(s: DecisionSession, step: SessionStep)
    reads Footprint(s)
  {
    match step
    case Serving(_, _, around) => Served(s, around)
    case Donating(_) =>
      && s.Effort() == old(s.Effort())
      && |s.pending| == |old(s.pending)| + if old(exists d :: 0 <= d < |s.stack| && Open(s.stack[d])) then 1 else 0
    case Offering(_, ordering) =>
      if IsWitness(s.node.g, s.k, ordering) then s.status == Solved && s.solution == ordering else s.status == Unresolved
    case Certifying(_, _, _, _) => s.status == Unresolved || (s.status == Infeasible && old(s.pending == [] && s.external == []))
    case Yielding(_) => s.yieldRequested && s.status == Unresolved
    case Cancelling(_) => s.cancelRequested && s.status == Unresolved
    case _ => true
  }

  /**
    Every node expanded takes a turn off what is left to do.  Undisturbed, the
    session expands some node, or ends, or has only detached regions left.
   */
  twostate predicate Served(s: DecisionSession, around: Surroundings)
    reads Footprint(s)
  {
    && s.Effort() + s.nodesExpanded <= old(s.Effort()) + old(s.nodesExpanded)
    && (!around.hasDeadline && !around.hasController && !old(s.cancelRequested) ==>
          s.nodesExpanded > old(s.nodesExpanded) || s.localComplete || s.status in {Solved, Infeasible})
  }

  /** A step that neither opens nor closes external regions; false stands for an exception of the service. */
  method Change(s: DecisionSession, step: SessionStep) returns (ok: bool)
    requires s.Valid() && Local(step)
    modifies Footprint(s)
    ensures ok ==> s.Valid() && s.external == old(s.external)
    ensures old(s.Healthy()) ==> ok && s.Healthy()
    ensures !step.Serving? ==> ok
    ensures old(s.status) != Unresolved ==> ok && s.status == old(s.status) && s.solution == old(s.solution)
    ensures ok && old(s.status) == Unresolved ==> Changed(s, step)
  {
    hide DecisionSession.Valid, DecisionSession.Effort, NoneMissing, IsWitness;
    ok := true;
    if s.status != Unresolved {
      return;
    }
    match step {
      case Serving(_, workUnits, around) =>
        var _, served := s.Service(workUnits, around);
        ok := served;
      case Donating(_) => var _ := s.DonateUnexploredSibling();
      case Offering(_, ordering) => var _ := s.PublishExternalWitness(ordering);
      case Certifying(_, cardinalities, denominator, numerators) =>
        if !s.localComplete {
          var _ := Certify(s, cardinalities, denominator, numerators);
        }
      case Yielding(_) => s.RequestYield();
      case Cancelling(_) => s.Cancel();
    }
  }

  /** A Lagrangian bound of the region root, if it exceeds the threshold, closes a session that has nothing else left. */
  method Certify(s: DecisionSession, cardinalities: seq<nat>, denominator: Option<nat>, numerators: Option<seq<int>>)
    returns (bound: nat)
    requires s.Valid() && s.status == Unresolved && !s.localComplete
    modifies Footprint(s)
    ensures s.Valid() && s.external == old(s.external) && (old(s.Healthy()) ==> s.Healthy())
    ensures s.status == if bound > s.k && old(s.pending == [] && s.external == []) then Infeasible else Unresolved
  {
    hide DecisionSession.Valid, Feasible, Certifies, Elems, NoneMissing;
    RootFacts(s);
    var prefix := Elems(s.node.path[..s.rootDepth]);
    var tel, _ := Evaluate(s.node.g, prefix, Some(s.k), cardinalities, denominator, numerators);
    bound := tel.certifiedBound;
    if bound > s.k {
      CertifiedBoundPrunes(s.node.g, s.k, prefix, tel);
      var _ := s.MarkCertifiedInfeasible();
    }
  }

  // ----- an undisturbed session -----

  /**
    Quanta of any size, undisturbed, end a healthy session: it finds a witness, or
    proves its root infeasible, or has handed regions over and waits for them.  It
    takes no more quanta than it had turns left.
   */
  method Settle(s: DecisionSession, workUnits: nat) returns (ghost quanta: nat)
    requires s.Valid() && s.Healthy() && s.status == Unresolved && !s.cancelRequested
    modifies Footprint(s)
    ensures s.Valid() && s.Healthy() && s.external == old(s.external)
    ensures || (s.status == Solved && IsWitness(s.node.g, s.k, s.solution))
            || (s.status == Infeasible && !Feasible(s.node.g, s.k, s.root))
            || (s.status == Unresolved && s.localComplete && s.external != [])
    ensures quanta <= old(s.Effort()) + 1
  {
    hide DecisionSession.Valid, DecisionSession.Effort, DecisionSession.Healthy, Feasible, IsWitness;
    quanta := 0;
    while s.status == Unresolved && !s.localComplete
      invariant s.Valid() && s.Healthy() && s.external == old(s.external) && !s.cancelRequested
      invariant s.status in {Unresolved, Solved, Infeasible}
      invariant if s.status == Unresolved && !s.localComplete then quanta + s.Effort() <= old(s.Effort())
                else quanta <= old(s.Effort()) + 1
      decreases if s.status == Unresolved && !s.localComplete then s.Effort() + 1 else 0
    {
      var reason, ok := s.Service(workUnits, Surroundings(false, false));
      quanta := quanta + 1;
    }
    ValidIsTruthful(s);
    WaitsForOwners(s);
  }

  lemma WaitsForOwners(s: DecisionSession)
    requires s.Valid()
    ensures s.status == Unresolved && s.localComplete ==> s.external != []
  {
    hide NodeState.Valid, DynamicDecisionCache.Valid, Feasible, IsWitness, QueueOk;
  }

  /**
    A fresh session left to itself decides: it ends after at most as many quanta
    as a full search tree has turns, and finds a witness exactly when there is one.
   */
  method DecideBySession(g: Graph, k: nat, options: SearchOptions, workUnits: nat)
    returns (s: DecisionSession, ghost quanta: nat)
    requires options.localDepth > 0 ==> options.enumerator != Scanned
    ensures s.Valid() && s.node.g == g && s.k == k && s.status in {Solved, Infeasible}
    ensures s.status == Solved <==> exists o :: IsWitness(g, k, o)
    ensures s.status == Solved ==> IsWitness(g, k, s.solution)
    ensures quanta <= Turns(Size(g)) + 1
  {
    hide DecisionSession.Valid, DecisionSession.Effort, DecisionSession.Healthy, Feasible, IsWitness;
    s := Begin(g, k, options);
    quanta := Settle(s, workUnits);
    FeasibleFromScratch(g, k);
  }

  /** Hands the front pending region over. */
  method HandOver(s: DecisionSession) returns (child: Option<SessionSnapshot>)
    requires s.Valid()
    modifies Footprint(s)
    ensures s.Valid() && (old(s.Healthy()) ==> s.Healthy())
    ensures child.Some? <==> old(s.status == Unresolved && s.pending != [])
    ensures child == None ==> s.external == old(s.external)
    ensures child.Some? ==>
              && s.external == old(s.external) + [Elems(child.value.path)]
              && Resumable(s.node.g, s.k, child.value, Elems(child.value.path), []) && |child.value.frames| == 1
  {
    hide DecisionSession.Valid, NoneMissing, Resumable;
    child := s.ExtractPendingContinuation();
  }

  lemma OwnerAnswers(owner: DecisionSession)
    requires owner.Valid()
    ensures owner.status == Infeasible ==> !Feasible(owner.node.g, owner.k, owner.root)
    ensures owner.status == Solved ==> IsWitness(owner.node.g, owner.k, owner.solution)
  {
    ValidIsTruthful(owner);
  }

  /** The owner of an external region reports that it failed. */
  method Close(s: DecisionSession, r: nat)
    requires s.Valid() && s.status == Unresolved && r < |s.external| && !Feasible(s.node.g, s.k, s.external[r])
    modifies Footprint(s)
    ensures s.Valid() && (old(s.Healthy()) ==> s.Healthy())
    ensures s.external == old(s.external)[..r] + old(s.external)[r + 1..]
  {
    hide DecisionSession.Valid, Feasible, NoneMissing;
    var _ := s.ResolveExternalFailure(r);
  }

  /** A session for the whole problem. */
  method Begin(g: Graph, k: nat, options: SearchOptions) returns (s: DecisionSession)
    requires options.localDepth > 0 ==> options.enumerator != Scanned
    ensures fresh(Footprint(s)) && s.Valid() && s.Healthy()
    ensures s.node.g == g && s.k == k && s.root == {} && s.external == []
    ensures s.status == Unresolved && !s.cancelRequested && s.Effort() == Turns(Size(g))
  {
    hide DecisionSession.Valid, DynamicDecisionCache.Entries, DynamicDecisionCache.Valid, NoneMissing, Truthful;
    var cache := new DynamicDecisionCache<set<Vertex>>(S => |S|, 0, 0, 1, 1);
    EmptyCacheIsTruthful(g, cache);
    s := new DecisionSession(g, k, options, cache);
  }

  /** A session of its own for a region that was handed over. */
  method Resume(g: Graph, k: nat, snapshot: SessionSnapshot, ghost region: set<Vertex>, options: SearchOptions)
    returns (owner: DecisionSession)
    requires Resumable(g, k, snapshot, region, []) && |snapshot.frames| == 1
    requires options.localDepth > 0 ==> options.enumerator != Scanned
    ensures fresh(Footprint(owner)) && owner.Valid() && owner.Healthy()
    ensures owner.node.g == g && owner.k == k && owner.root == region && owner.external == []
  {
    hide DecisionSession.Valid, DynamicDecisionCache.Entries, DynamicDecisionCache.Valid, LoadFrames, Missing,
      NoneMissing, Resumable, Truthful, Unwindable;
    var cache := new DynamicDecisionCache<set<Vertex>>(S => |S|, 0, 0, 1, 1);
    EmptyCacheIsTruthful(g, cache);
    FreshRegionUnwinds(g, snapshot);
    SameThreshold(g, k, snapshot, region, []);
    owner := new DecisionSession.Restore(g, snapshot, options, cache, region, []);
  }

  /**
    Suspends a session and resumes it from its snapshot, with other options.  What
    it was healthy of may be lost: the new one is healthy if it keeps no residual
    degrees, or its path can be unwound to the region root.
   */
  method Restart(s: DecisionSession, options: SearchOptions) returns (again: DecisionSession)
    requires s.Valid() && s.status != Cancelled
    requires options.localDepth > 0 ==> options.enumerator != Scanned
    ensures fresh(Footprint(again)) && again.Valid()
    ensures again.node.g == s.node.g && again.k == s.k && again.root == s.root && again.external == s.external
    ensures again.status == s.status && again.node.path == s.node.path
    ensures !KeepsResiduals(s.node.g, s.k, options) || Unwindable(s.node.g, s.node.path, s.rootDepth) ==>
              again.Healthy()
  {
    hide DecisionSession.Valid, DynamicDecisionCache.Entries, DynamicDecisionCache.Valid, KeepsResiduals, LoadFrames,
      Missing, NoneMissing, Resumable, SaveFrames, Truthful, Unwindable;
    var saved := s.Snapshot(true);
    var cache := new DynamicDecisionCache<set<Vertex>>(S => |S|, 0, 0, 1, 1);
    EmptyCacheIsTruthful(s.node.g, cache);
    SameThreshold(s.node.g, s.k, saved.value, s.root, s.external);
    SavedDepth(s, saved.value);
    again := new DecisionSession.Restore(s.node.g, saved.value, options, cache, s.root, s.external);
  }

  // ----- the tree of sessions -----

  lemma IsLocal(step: SessionStep)
    requires !step.Extracting? && !step.Owning? && !step.Reporting? && !step.Restarting?
    ensures Local(step)
  {
  }

  ghost predicate MemberTruthful(s: DecisionSession)
    reads Footprint(s)
  {
    Truthfully(s)
  }

  ghost predicate Pursues(s: DecisionSession, hs: seq<Holder>)
    reads Footprint(s)
  {
    || s.status in {Solved, Cancelled}
    || (s.status == Unresolved &&
        (|| ActiveFeasible(s)
         || (exists p :: p in s.pending && Feasible(s.node.g, s.k, Elems(p.path)))
         || (exists r :: 0 <= r < |hs| && r < |s.external| && hs[r].Waiting? && Feasible(s.node.g, s.k, s.external[r]))))
  }

  /** A feasible root without work of its own left has a feasible region that another session owns. */
  lemma OwnedElsewhere(g: Graph, k: nat, s: DecisionSession, hs: seq<Holder>, sessions: seq<DecisionSession>, i: nat)
    returns (r: nat)
    requires s.node.g == g && s.k == k && HoldersOk(g, k, s.external, hs, sessions, i)
    requires Truthfully(s) && Feasible(g, k, s.root) && !Pursues(s, hs)
    ensures r < |hs| && hs[r].Held? && i < hs[r].owner < |sessions|
    ensures Feasible(g, k, sessions[hs[r].owner].root)
  {
    hide ActiveFeasible, Feasible, IsWitness, Resumable;
    var S :| S in s.external && Feasible(g, k, S);
    r :| 0 <= r < |s.external| && s.external[r] == S;
    assert HolderOk(g, k, s.external[r], hs[r], sessions, i);
  }

  lemma HoldersEmpty(g: Graph, k: nat, sessions: seq<DecisionSession>, i: nat)
    ensures HoldersOk(g, k, [], [], sessions, i)
  {
  }

  lemma ApartJoined(sessions: seq<DecisionSession>, s: DecisionSession, repr: set<object>)
    requires Apart(sessions) && (forall t :: t in sessions ==> Footprint(t) <= repr) && Footprint(s) !! repr
    ensures Apart(sessions + [s])
  {
    hide Footprint;
    var after := sessions + [s];
    forall i, j | 0 <= i < j < |after| ensures Footprint(after[i]) !! Footprint(after[j]) {
      assert after[i] in sessions;
    }
  }

  lemma ApartReplaced(sessions: seq<DecisionSession>, n: nat, s: DecisionSession, repr: set<object>)
    requires Apart(sessions) && (forall t :: t in sessions ==> Footprint(t) <= repr) && Footprint(s) !! repr
    requires n < |sessions|
    ensures Apart(sessions[n := s])
  {
    hide Footprint;
    var after := sessions[n := s];
    forall i, j | 0 <= i < j < |after| ensures Footprint(after[i]) !! Footprint(after[j]) {
      assert sessions[i] in sessions && sessions[j] in sessions;
    }
  }

  lemma SavedDepth(s: DecisionSession, saved: SessionSnapshot)
    requires s.Valid() && saved == s.Saved(saved.externalRegions)
    ensures saved.status == Unresolved && saved.frames != [] ==> RootDepth(saved) == s.rootDepth && !s.localComplete
  {
    hide DecisionSession.Valid;
    if s.status == Unresolved && s.stack != [] {
      LocalWork(s);
      s.StackFacts();
      StackHeight(s.node.g, s.k, s.node.path, s.rootDepth, s.stack, s.Owed());
    }
  }

  lemma LocalWork(s: DecisionSession)
    requires s.Valid() && s.status == Unresolved && s.stack != []
    ensures !s.localComplete
  {
    hide NodeState.Valid, DynamicDecisionCache.Valid, Feasible, StackOk;
  }

  class Controller {
    const g: Graph
    const k: nat
    var sessions: seq<DecisionSession>
    var live: seq<bool>
    var holders: seq<seq<Holder>>
    ghost var repr: set<object>

    /** Every session that has not thrown is valid, and each of its external regions has a holder. */
    ghost predicate Valid()
      reads this, repr
    {
      && |sessions| == |live| == |holders| > 0 && Apart(sessions) && sessions[0].root == {}
      && this !in repr && (forall s :: s in sessions ==> Footprint(s) <= repr)
      && forall i :: 0 <= i < |sessions| && live[i] ==> MemberOk(g, k, sessions[i], holders[i], sessions, i)
    }

    /** No session has thrown, and none will. */
    ghost predicate Healthy()
      reads this, repr
    {
      |live| == |sessions| && (forall s :: s in sessions ==> Footprint(s) <= repr) &&
      forall i :: 0 <= i < |sessions| ==> live[i] && Sound(sessions[i])
    }

    constructor (g: Graph, k: nat, options: SearchOptions)
      requires options.localDepth > 0 ==> options.enumerator != Scanned
      ensures Valid() && Healthy() && this.g == g && this.k == k && fresh(repr)
    {
      hide DecisionSession.Valid, DecisionSession.Healthy;
      this.g, this.k := g, k;
      var s := Begin(g, k, options);
      sessions, live, holders, repr := [s], [true], [[]], Footprint(s);
    }

    lemma Member(i: nat)
      requires Valid() && i < |sessions| && live[i]
      ensures |sessions| == |live| == |holders| && sessions[i].Valid() && sessions[i].node.g == g && sessions[i].k == k
      ensures HoldersOk(g, k, sessions[i].external, holders[i], sessions, i)
      ensures sessions[i] in repr && this !in repr && Footprint(sessions[i]) <= repr
    {
      hide DecisionSession.Valid, HoldersOk;
      assert sessions[i] in sessions && sessions[i] in Footprint(sessions[i]);
    }

    lemma OthersApart(i: nat)
      requires Valid() && i < |sessions|
      ensures forall j :: 0 <= j < |sessions| && j != i ==> Footprint(sessions[j]) !! Footprint(sessions[i])
    {
      hide Footprint, MemberOk;
    }

    lemma IsSound(i: nat)
      requires Valid() && i < |sessions|
      ensures Healthy() ==> sessions[i].Healthy()
      ensures sessions[i].Healthy() ==> Sound(sessions[i])
    {
      hide DecisionSession.Healthy, MemberOk;
    }

    /** A local step of session i; the session is given up if it throws. */
    method Work(i: nat, step: SessionStep)
      requires Valid() && i < |sessions| && live[i] && Local(step)
      modifies this`live, Footprint(sessions[i])
      ensures Valid() && (old(Healthy()) ==> Healthy())
      ensures live[i] && old(sessions[i].status) == Unresolved ==> Changed(sessions[i], step)
      ensures live == old(live)[i := live[i]] && (!step.Serving? ==> live[i])
    {
      hide DecisionSession.Valid, DecisionSession.Healthy, Elems, HoldersOk, Changed, Footprint, Local, MemberOk, Sound;
      Member(i);
      OthersApart(i);
      IsSound(i);
      var ok := Change(sessions[i], step);
      live := live[i := ok];
      if ok {
        HasMember(g, k, sessions[i], holders[i], sessions, i);
      }
    }

    /** Hands the front pending region of session i over; its snapshot waits for an owner. */
    method Extract(i: nat)
      requires Valid() && i < |sessions| && live[i]
      modifies this`holders, Footprint(sessions[i])
      ensures Valid() && (old(Healthy()) ==> Healthy()) && i < |holders|
      ensures |holders[i]| == |old(holders[i])| +
                if old(sessions[i].status == Unresolved && sessions[i].pending != []) then 1 else 0
    {
      hide DecisionSession.Valid, DecisionSession.Healthy, Elems, HoldersOk, Resumable;
      ghost var external := sessions[i].external;
      var child := HandOver(sessions[i]);
      if child.Some? {
        ChildWaits(g, k, child.value, sessions, i);
        HolderAdded(g, k, external, holders[i], sessions, i, Elems(child.value.path), Waiting(child.value));
        holders := holders[i := holders[i] + [Waiting(child.value)]];
      }
    }

    /** A session that shares nothing joins. */
    method Join(s: DecisionSession)
      requires Valid() && s.Valid() && s.node.g == g && s.k == k && s.external == []
      requires Footprint(s) !! repr && this !in Footprint(s)
      modifies this`sessions, this`live, this`holders, this`repr
      ensures Valid() && (old(Healthy()) && s.Healthy() ==> Healthy())
      ensures repr == old(repr) + Footprint(s)
      ensures sessions == old(sessions) + [s] && live == old(live) + [true] && holders == old(holders) + [[]]
    {
      hide Apart, DecisionSession.Valid, DecisionSession.Healthy, Footprint, HoldersOk;
      ApartJoined(sessions, s, repr);
      ghost var before := sessions;
      sessions, live, holders := sessions + [s], live + [true], holders + [[]];
      repr := repr + Footprint(s);
      forall j | 0 <= j < |before| && live[j] ensures MemberOk(g, k, sessions[j], holders[j], sessions, j) {
        HoldersStay(g, k, sessions[j].external, holders[j], before, sessions, j);
      }
      HoldersEmpty(g, k, sessions, |before|);
    }

    /** A new session resumes the snapshot that waits for region r of session i. */
    method Own(i: nat, r: nat, options: SearchOptions)
      requires Valid() && i < |sessions| && live[i] && r < |holders[i]| && holders[i][r].Waiting?
      requires options.localDepth > 0 ==> options.enumerator != Scanned
      modifies this`sessions, this`live, this`holders, this`repr
      ensures Valid() && (old(Healthy()) ==> Healthy()) && fresh(repr - old(repr))
      ensures |sessions| == |old(sessions)| + 1 && sessions[..|old(sessions)|] == old(sessions)
      ensures |holders| == |sessions| && r < |holders[i]| && holders[i][r] == Held(|old(sessions)|)
      ensures r < |old(sessions[i].external)| && sessions[|old(sessions)|].root == old(sessions[i].external[r])
    {
      hide *;
      Member(i);
      WaitingFacts(g, k, sessions[i].external, holders[i], sessions, i, r);
      var owner := Resume(g, k, holders[i][r].snapshot, sessions[i].external[r], options);
      var n := |sessions|;
      Join(owner);
      Assign(i, r, n);
    }

    /** Region r of session i goes to session n. */
    method Assign(i: nat, r: nat, n: nat)
      requires Valid() && i < n < |sessions| && live[i] && r < |holders[i]| && r < |sessions[i].external|
      requires sessions[n].root == sessions[i].external[r]
      modifies this`holders
      ensures Valid() && (old(Healthy()) ==> Healthy()) && |holders| == |sessions|
      ensures holders == old(holders)[i := old(holders)[i][r := Held(n)]]
    {
      hide DecisionSession.Valid, DecisionSession.Healthy, HolderOk, Resumable;
      NowHeld(g, k, sessions[i].external, holders[i], sessions, i, r, n);
      holders := holders[i := holders[i][r := Held(n)]];
    }

    /** Region r of session i failed. */
    method Fail(i: nat, r: nat)
      requires Valid() && i < |sessions| && live[i] && sessions[i].status == Unresolved
      requires r < |holders[i]| && r < |sessions[i].external| && !Feasible(g, k, sessions[i].external[r])
      modifies this`holders, Footprint(sessions[i])
      ensures Valid() && (old(Healthy()) ==> Healthy())
      ensures sessions[i].external == old(sessions[i].external)[..r] + old(sessions[i].external)[r + 1..]
    {
      hide DecisionSession.Valid, DecisionSession.Healthy, Feasible, HoldersOk, Resumable;
      ghost var external := sessions[i].external;
      Close(sessions[i], r);
      HolderGone(g, k, external, holders[i], sessions, i, r);
      holders := holders[i := holders[i][..r] + holders[i][r + 1..]];
    }

    /** The owner of region r of session i reports: a failure closes the region, a witness solves the session. */
    method Report(i: nat, r: nat)
      requires Valid() && i < |sessions| && live[i] && sessions[i].status == Unresolved
      requires r < |holders[i]| && holders[i][r].Held? && holders[i][r].owner < |sessions| && live[holders[i][r].owner]
      modifies this`live, this`holders, Footprint(sessions[i])
      ensures Valid() && (old(Healthy()) ==> Healthy())
      ensures var owner := old(sessions[holders[i][r].owner]);
              && (old(owner.status) == Infeasible ==>
                    r < |old(sessions[i].external)| &&
                    sessions[i].external == old(sessions[i].external)[..r] + old(sessions[i].external)[r + 1..])
              && (old(owner.status) == Solved ==> sessions[i].status == Solved && sessions[i].solution == old(owner.solution))
    {
      hide DecisionSession.Valid, DecisionSession.Healthy, Feasible, HolderOk, HoldersOk, IsWitness, Resumable;
      var owner := sessions[holders[i][r].owner];
      HeldFacts(g, k, sessions[i].external, holders[i], sessions, i, r);
      if owner.status == Infeasible {
        OwnerAnswers(owner);
        Fail(i, r);
      } else if owner.status == Solved {
        OwnerAnswers(owner);
        Work(i, Offering(i, owner.solution));
      }
    }

    /** Session i is suspended and goes on from its snapshot. */
    method Reload(i: nat, options: SearchOptions)
      requires Valid() && i < |sessions| && live[i] && sessions[i].status != Cancelled
      requires options.localDepth > 0 ==> options.enumerator != Scanned
      modifies this`sessions, this`repr
      ensures Valid() && fresh(repr - old(repr)) && |sessions| == |old(sessions)| && sessions[i] in repr
      ensures sessions[i].status == old(sessions[i].status)
      ensures !KeepsResiduals(g, k, options) || old(Unwindable(g, sessions[i].node.path, sessions[i].rootDepth)) ==>
                (old(Healthy()) ==> Healthy())
    {
      hide *;
      Member(i);
      var again := Restart(sessions[i], options);
      Replace(i, again);
    }

    /** Another session of the same root and regions takes the place of session i. */
    method Replace(i: nat, s: DecisionSession)
      requires Valid() && i < |sessions| && live[i] && s.Valid() && s.node.g == g && s.k == k
      requires s.root == sessions[i].root && s.external == sessions[i].external
      requires Footprint(s) !! repr && this !in Footprint(s)
      modifies this`sessions, this`repr
      ensures Valid() && (old(Healthy()) && s.Healthy() ==> Healthy())
      ensures repr == old(repr) + Footprint(s) && sessions == old(sessions)[i := s] && s in repr
    {
      hide Apart, DecisionSession.Valid, DecisionSession.Healthy, Footprint, HoldersOk;
      ApartReplaced(sessions, i, s, repr);
      InFootprint(s);
      ghost var before := sessions;
      sessions, repr := sessions[i := s], repr + Footprint(s);
      forall j | 0 <= j < |sessions| && live[j] ensures MemberOk(g, k, sessions[j], holders[j], sessions, j) {
        HoldersStay(g, k, before[j].external, holders[j], before, sessions, j);
      }
    }

    /** The step names a session that has not thrown. */
    predicate Applies(step: SessionStep)
      reads this
    {
      step.member < |sessions| && step.member < |live| && live[step.member] && step.member < |holders|
    }

    /** The step names a region that waits for an owner. */
    predicate Ownable(step: SessionStep)
      reads this
    {
      && step.Owning? && Applies(step) && step.region < |holders[step.member]| && holders[step.member][step.region].Waiting?
      && (step.options.localDepth > 0 ==> step.options.enumerator != Scanned)
    }

    /** The step names a region of an open session whose owner has not thrown. */
    predicate Reportable(step: SessionStep)
      reads this, sessions
    {
      && step.Reporting? && Applies(step) && sessions[step.member].status == Unresolved
      && step.region < |holders[step.member]| && holders[step.member][step.region].Held?
      && var owner := holders[step.member][step.region].owner;
         owner < |sessions| && owner < |live| && live[owner]
    }

    /** What a step does to the tree. */
    twostate predicate Performed(step: SessionStep)
      requires old(Applies(step))
      reads this, repr
    {
      var i := step.member;
      match step
      case Extracting(_) =>
        && i < |holders|
        && |holders[i]| == |old(holders[i])| + if old(sessions[i].status == Unresolved && sessions[i].pending != []) then 1 else 0
      case Owning(_, r, _) =>
        old(Ownable(step)) ==>
          |sessions| == |old(sessions)| + 1 && i < |holders| && r < |holders[i]| && holders[i][r] == Held(|old(sessions)|)
      case Reporting(_, r) =>
        old(Reportable(step)) ==>
          && sessions == old(sessions) && sessions[i] in repr
          && var owner := old(sessions[holders[i][r].owner]);
             && (old(owner.status) == Infeasible ==> |sessions[i].external| == |old(sessions[i].external)| - 1)
             && (old(owner.status) == Solved ==> sessions[i].status == Solved)
      case Restarting(_, _) =>
        |sessions| == |old(sessions)| && sessions[i] in repr && sessions[i].status == old(sessions[i].status)
      case _ =>
        && sessions == old(sessions) && i < |live| && Footprint(sessions[i]) <= repr
        && (live[i] && old(sessions[i].status) == Unresolved ==> Changed(sessions[i], step))
    }

    /**
      One step of the controller; one that does not apply is skipped.  A local step
      changes its session as it should, an extraction offers the front region, an
      owner takes over what it is given, and a report of failure closes the region.
     */
    method Take(step: SessionStep)
      requires Valid()
      modifies this, repr
      ensures Valid() && fresh(repr - old(repr)) && (old(Healthy()) && !step.Restarting? ==> Healthy())
      ensures old(Applies(step)) ==> Performed(step)
    {
      hide Apart, Changed, DecisionSession.Valid, Footprint, Healthy, HolderOk, HoldersOk, MemberOk, Reportable, Ownable,
        Local, Resumable, Sound, Valid;
      var i := step.member;
      Counted();
      Gates(step);
      if i >= |sessions| || !live[i] {
        return;
      }
      Member(i);
      var s := sessions[i];
      match step {
        case Extracting(_) => Extract(i);
        case Owning(_, r, options) =>
          if Ownable(step) {
            Own(i, r, options);
          }
        case Reporting(_, r) =>
          if Reportable(step) {
            Report(i, r);
          }
        case Restarting(_, options) =>
          if s.status != Cancelled && (options.localDepth > 0 ==> options.enumerator != Scanned) {
            Reload(i, options);
          }
        case _ =>
          IsLocal(step);
          Work(i, step);
      }
    }

    lemma Gates(step: SessionStep)
      requires Valid()
      ensures var i := step.member;
              && (Applies(step) <==> i < |sessions| == |live| == |holders| && live[i])
              && (Local(step) ==> !step.Extracting? && !step.Owning? && !step.Reporting? && !step.Restarting?)
              && (Ownable(step) ==>
                    && step.Owning? && Applies(step) && step.region < |holders[i]| && holders[i][step.region].Waiting?
                    && (step.options.localDepth > 0 ==> step.options.enumerator != Scanned))
              && (Reportable(step) ==>
                    && step.Reporting? && Applies(step) && sessions[i].status == Unresolved
                    && step.region < |holders[i]| && holders[i][step.region].Held?
                    && holders[i][step.region].owner < |sessions| && live[holders[i][step.region].owner])
    {
      hide Apart, DecisionSession.Valid, MemberOk;
    }

    lemma Counted()
      requires Valid()
      ensures |sessions| == |live| == |holders|
    {
    }

    /**
      Safety over whole runs: after any interleaving every session that has not
      thrown has told the truth about its root, and none has thrown unless one
      was restarted.
     */
    method Run(steps: seq<SessionStep>)
      requires Valid() && Healthy()
      modifies this, repr
      ensures Valid() && |live| == |sessions| && fresh(repr - old(repr))
      ensures forall i :: 0 <= i < |sessions| && live[i] ==> MemberTruthful(sessions[i])
      ensures (forall j :: 0 <= j < |steps| ==> !steps[j].Restarting?) ==> Healthy()
    {
      hide Healthy, Valid;
      for j := 0 to |steps|
        invariant Valid() && fresh(repr - old(repr))
        invariant (forall l :: 0 <= l < j ==> !steps[l].Restarting?) ==> Healthy()
      {
        Take(steps[j]);
      }
      AllTruthful();
    }

    lemma AllTruthful()
      requires Valid()
      ensures |live| == |sessions| && forall i :: 0 <= i < |sessions| && live[i] ==> MemberTruthful(sessions[i])
    {
      hide DecisionSession.Valid, HoldersOk, Truthfully;
      forall i | 0 <= i < |sessions| && live[i] ensures MemberTruthful(sessions[i]) {
        ValidIsTruthful(sessions[i]);
      }
    }

    /**
      Something is left to do for the root of session i at the session itself: it
      has thrown, was cancelled or is solved, or it has a feasible region that it
      works on, queues, or offers to an owner.
     */
    ghost predicate Pursued(i: nat)
      reads this, repr
    {
      |sessions| == |live| == |holders| && i < |sessions| && (forall s :: s in sessions ==> Footprint(s) <= repr) &&
      (live[i] ==> Pursues(sessions[i], holders[i]))
    }

    /**
      No work is lost: as long as the root of a session is feasible, it or one of
      the sessions below it has something left to do, has a witness, or was given up.
     */
    lemma {:induction false} NothingLost(i: nat)
      requires Valid() && i < |sessions| && Feasible(g, k, sessions[i].root)
      ensures exists j :: i <= j < |sessions| && Pursued(j)
      decreases |sessions| - i
    {
      hide DecisionSession.Valid, Feasible, HoldersOk, IsWitness, Pursues;
      if !live[i] {
        assert Pursued(i);
        return;
      }
      Member(i);
      ValidIsTruthful(sessions[i]);
      if Pursues(sessions[i], holders[i]) {
        assert Pursued(i);
      } else {
        var r := OwnedElsewhere(g, k, sessions[i], holders[i], sessions, i);
        NothingLost(holders[i][r].owner);
      }
    }
  }
}
