/**
  Concrete sessions at the edges of what a session promises: which closed ones
  give a standalone snapshot, and a restored one that runs into an exception.
 */
module SessionCases {
  import opened Options
  import opened Graphs
  import opened Feasibility
  import opened TwinSymmetry
  import opened NodeStates
  import opened Candidates
  import opened DecisionCaches
  import opened ThresholdSearch
  import opened SessionFrames
  import opened DecisionSessions
  import opened ResidualRollbacks

  const EDGE: Graph := Adjacency([{1}, {0}])

  /** An edge beside a complete graph on four vertices. */
  const EDGE_AND_FOUR: Graph := Adjacency([{1}, {0}, {3, 4, 5}, {2, 4, 5}, {2, 3, 5}, {2, 3, 4}])

  /** No twins, no cache, no bounds in use, no lookahead, no probe; residual degrees kept as asked. */
  function Plain(residualDegreeBound: bool): SearchOptions {
    SearchOptions(false, false, false, residualDegreeBound, false, Scanned, false, false, 0, 0, 0, 0, 0)
  }

  method EmptyCache(g: Graph) returns (cache: ProofCache)
    ensures fresh(cache) && cache.Valid() && Truthful(g, cache.Entries())
  {
    cache := new DynamicDecisionCache<set<Vertex>>(S => |S|, 0, 0, 1, 1);
  }

  lemma EdgeIsCut()
    ensures !Feasible(EDGE, 0, {})
  {
    assert Degree(EDGE, 0) == |{1}| == 1;
    assert 0 in Vertices(EDGE) - {};
    if Feasible(EDGE, 0, {}) {
      DegreeBound(EDGE, 0, {}, 0);
      assert false;
    }
  }

  lemma RefutedTop(s: DecisionSession)
    requires s.node.path == [] && s.stack != [] && !Feasible(s.node.g, s.k, {})
    ensures TopFails(s.node.g, s.k, s.node.path, s.stack, s.Owed())
    ensures At(s.node.path, 0) == {}
  {
    hide Feasible;
    assert Elems([]) == {};
  }

  /** Closed by its own search, a session has no region left and gives a standalone snapshot. */
  method SnapshotAfterSearch() returns (s: DecisionSession, saved: Option<SessionSnapshot>)
    ensures fresh(s) && s.Valid() && s.status == Infeasible && s.unfinished == 0 && saved.Some?
  {
    hide *;
    var cache := EmptyCache(EDGE);
    var options := Plain(false);
    PlainFacts(false);
    s := new DecisionSession(EDGE, 0, options, cache);
    EdgeIsCut();
    RefutedTop(s);
    s.FinishFailedFrame(true);
    saved := s.Snapshot(false);
  }

  lemma PlainFacts(residualDegreeBound: bool)
    ensures var o := Plain(residualDegreeBound);
            && !o.useTwins && !o.useCache && o.localDepth == 0 && o.enumerator == Scanned
            && o.residualDegreeBound == residualDegreeBound && !o.PrunesByDegree()
  {
  }

  /** Closed by a certificate, it still counts one region and refuses, though nothing is owned elsewhere. */
  method SnapshotAfterCertificate() returns (s: DecisionSession, saved: Option<SessionSnapshot>)
    ensures fresh(s) && s.Valid() && s.status == Infeasible && s.external == [] && s.unfinished == 1 && saved == None
  {
    hide *;
    var cache := EmptyCache(EDGE);
    var options := Plain(false);
    PlainFacts(false);
    s := new DecisionSession(EDGE, 0, options, cache);
    EdgeIsCut();
    RefutedTop(s);
    var ok := s.MarkCertifiedInfeasible();
    saved := s.Snapshot(false);
  }

  // ----- a restored session that throws -----

  lemma Sides(v: Vertex)
    requires v < 6
    ensures Size(EDGE_AND_FOUR) == 6 && v in Vertices(EDGE_AND_FOUR)
    ensures Neighbours(EDGE_AND_FOUR, v) == if v < 2 then {1 - v} else {2, 3, 4, 5} - {v}
  {
    hide Below;
  }

  lemma SideDegree(v: Vertex)
    requires v < 6
    ensures Degree(EDGE_AND_FOUR, v) == if v < 2 then 1 else 3
  {
    hide Neighbours, Vertices;
    Sides(v);
    if v < 2 {
      assert |{1 - v}| == 1;
    } else {
      assert |{2, 3, 4, 5}| == 4 && {2, 3, 4, 5} == ({2, 3, 4, 5} - {v}) + {v};
    }
  }

  lemma FirstCut(v: Vertex)
    requires v < 6
    ensures Cut(EDGE_AND_FOUR, {v}) == if v < 2 then 1 else 3
  {
    hide Neighbours, Vertices, Cut, Degree;
    SideDegree(v);
    EmptyCut(EDGE_AND_FOUR);
    CutRecurrence(EDGE_AND_FOUR, {}, v);
    assert {} + {v} == {v} && Neighbours(EDGE_AND_FOUR, v) * {} == {};
  }

  /** The largest degree is three, so at threshold one residual degrees are kept. */
  lemma ResidualsKept()
    ensures KeepsResiduals(EDGE_AND_FOUR, 1, Plain(true))
  {
    hide Neighbours, Vertices, Degree;
    Sides(2);
    SideDegree(2);
    assert Degree(EDGE_AND_FOUR, 2) <= MaximumDegree(EDGE_AND_FOUR, 6);
  }

  lemma EndsAreLegal(twins: TwinTable, v: Vertex)
    requires |twins| == 6 && forall v :: 0 <= v < 6 ==> twins[v] == []
    ensures Legal(EDGE_AND_FOUR, 1, twins, {}, v) <==> v < 2
  {
    hide Neighbours, Cut, Vertices;
    Inside(v);
    assert {} + {v} == {v};
    if v < 6 {
      FirstCut(v);
    }
  }

  lemma Inside(v: Vertex)
    ensures v in Vertices(EDGE_AND_FOUR) <==> v < 6
  {
  }

  lemma BothEnds(cs: seq<Candidate>, a: Candidate, b: Candidate)
    requires DistinctVertices(cs) && (forall c :: c in cs ==> c.vertex < 2)
    requires a in cs && b in cs && a.vertex == 0 && b.vertex == 1
    ensures |cs| == 2 && cs[0].vertex < 2 && cs[1].vertex == 1 - cs[0].vertex
  {
    assert forall i :: 0 <= i < |cs| ==> cs[i].vertex < 2;
    if |cs| > 2 {
      TwoAgree(cs[0].vertex, cs[1].vertex, cs[2].vertex);
      assert false;
    }
  }

  lemma TwoAgree(x: Vertex, y: Vertex, z: Vertex)
    requires x < 2 && y < 2 && z < 2
    ensures x == y || y == z || x == z
  {
  }

  /** At threshold one exactly the two ends of the edge may come first. */
  lemma EndsListed(twins: TwinTable, cs: seq<Candidate>)
    requires ListsLegal(EDGE_AND_FOUR, 1, twins, {}, cs)
    requires |twins| == 6 && forall v :: 0 <= v < 6 ==> twins[v] == []
    ensures |cs| == 2 && cs[0].vertex < 2 && cs[1].vertex == 1 - cs[0].vertex
  {
    hide Cut, DistinctVertices, Legal, Neighbours, Vertices;
    Sides(0);
    Sides(1);
    EndsAreLegal(twins, 0);
    EndsAreLegal(twins, 1);
    forall c | c in cs ensures c.vertex < 2 {
      EndsAreLegal(twins, c.vertex);
    }
    BothEnds(cs, Candidate(0, Cut(EDGE_AND_FOUR, {} + {0})), Candidate(1, Cut(EDGE_AND_FOUR, {} + {1})));
  }

  /** Behind either end the complete graph is still too crowded. */
  lemma EndFails(v: Vertex)
    requires v < 2
    ensures !Feasible(EDGE_AND_FOUR, 1, {v})
  {
    hide Feasible, Neighbours, Vertices;
    Sides(2);
    SideDegree(2);
    assert Neighbours(EDGE_AND_FOUR, 2) - {v} == Neighbours(EDGE_AND_FOUR, 2);
    ResidualDegreeProves(EDGE_AND_FOUR, 1, {v}, 2);
  }

  lemma OnePath(g: Graph, v: Vertex)
    requires v in Vertices(g)
    ensures IsPath(g, [v]) && [v][0] == v && [v][..0] == [] && Elems([]) == {}
  {
  }

  /** An end of the edge cannot be taken back after a rebuild. */
  lemma CannotUnwind(v: Vertex)
    requires v < 2
    ensures IsPath(EDGE_AND_FOUR, [v]) && !Unwindable(EDGE_AND_FOUR, [v], 0)
    ensures v < |Missing(EDGE_AND_FOUR, [v])| && Missing(EDGE_AND_FOUR, [v])[v] == 1
  {
    hide Elems, IsPath, Missing, Neighbours, Vertices;
    Sides(v);
    OnePath(EDGE_AND_FOUR, v);
    MissingAt(EDGE_AND_FOUR, [v], 0);
    assert 1 - v in Neighbours(EDGE_AND_FOUR, v) && {1 - v} - {} == {1 - v};
  }

  /** The top frame of the fresh session, once opened, lists the two ends. */
  lemma TopListed(s: DecisionSession, before: seq<Frame>)
    requires s.node.g == EDGE_AND_FOUR && s.k == 1 && s.OpensTop(before, {})
    requires |s.twins| == 6 && forall v :: 0 <= v < 6 ==> s.twins[v] == []
    requires |before| == 1
    ensures |s.stack| == 1 && var f := s.stack[0];
            && f.entered && f.next == 0 && |f.candidates| == 2
            && f.candidates[0].vertex < 2 && f.candidates[1].vertex == 1 - f.candidates[0].vertex
  {
    hide ListsLegal;
    EndsListed(s.twins, s.stack[0].candidates);
  }

  lemma EmptyPrefix(s: DecisionSession)
    requires s.Valid() && s.node.path == []
    ensures s.node.prefix == {}
  {
    hide Feasible, IsWitness, DynamicDecisionCache.Valid;
    assert Elems([]) == {};
  }

  /** A root frame that has tried its first candidate, and the frame of that candidate. */
  ghost predicate Descended(frames: seq<FrameSnapshot>, v: Vertex) {
    && |frames| == 2 && frames[0].entered && frames[0].next == 1 && |frames[0].candidates| == 2
    && frames[0].candidates[0].vertex == v && frames[0].candidates[1].vertex == 1 - v
  }

  lemma TwoFrames(s: DecisionSession, saved: SessionSnapshot, external: nat, v: Vertex)
    requires v < 2 && |s.stack| == 2 && s.node.path == [v] && saved == s.Saved(external) && s.status == Unresolved
    requires var f := s.stack[0];
             f.entered && f.next == 1 && |f.candidates| == 2 && f.candidates[0].vertex == v &&
             f.candidates[1].vertex == 1 - v
    ensures Descended(saved.frames, v) && saved.path == [v] && RootDepth(saved) == 0 && saved.status == Unresolved
    ensures saved.threshold == s.k
  {
  }

  /**
    A session that keeps residual degrees, descended once, gives a snapshot of two
    frames whose path cannot be unwound.
   */
  method StrandedSnapshot() returns (saved: SessionSnapshot, v: Vertex)
    ensures v < 2 && Resumable(EDGE_AND_FOUR, 1, saved, {}, []) && saved.threshold == 1 && saved.status == Unresolved
    ensures Descended(saved.frames, v) && saved.path == [v] && RootDepth(saved) == 0
    ensures KeepsResiduals(EDGE_AND_FOUR, 1, Plain(true)) && !Unwindable(EDGE_AND_FOUR, saved.path, RootDepth(saved))
  {
    hide *;
    var cache := EmptyCache(EDGE_AND_FOUR);
    var options := Plain(true);
    PlainFacts(true);
    ResidualsKept();
    var s := new DecisionSession(EDGE_AND_FOUR, 1, options, cache);
    EmptyPrefix(s);
    Sides(0);
    ghost var before := s.stack;
    var entry := s.EnterFrame();
    EmptyPrefix(s);
    TopListed(s, before);
    var c := s.stack[0].candidates[0];
    var ok := s.Descend(c);
    var r := s.Snapshot(false);
    saved, v := r.value, c.vertex;
    TwoFrames(s, saved, saved.externalRegions, v);
    CannotUnwind(v);
  }

  lemma Reloaded(s: DecisionSession, saved: SessionSnapshot, v: Vertex)
    requires Descended(saved.frames, v) && saved.status == Unresolved
    requires s.stack == LoadFrames(saved.frames, !saved.partitioned) && s.localComplete == (saved.frames == [])
    ensures !s.localComplete && |s.stack| == 2 && s.stack[0].entered && s.stack[0].next == 1
    ensures s.stack[0].candidates == saved.frames[0].candidates && |s.stack[0].candidates| == 2
    ensures s.stack[0].candidates[1].vertex == 1 - v
  {
  }

  lemma NodeOf(s: DecisionSession)
    requires s.Valid()
    ensures s.node.Valid()
  {
    hide NodeState.Valid, DynamicDecisionCache.Valid, Feasible, IsWitness;
  }

  lemma FailsBehind(s: DecisionSession, v: Vertex)
    requires v < 2 && s.node.g == EDGE_AND_FOUR && s.k == 1 && s.node.path == [v] && s.stack != []
    ensures TopFails(s.node.g, s.k, s.node.path, s.stack, s.Owed())
  {
    hide Feasible;
    EndFails(v);
    assert Elems([v]) == {v};
  }

  /** Taken off after the rebuild, v reads zero. */
  lemma ReadsZero(v: Vertex, residual: seq<nat>)
    requires v < 2 && ResidualDegrees(EDGE_AND_FOUR, [], Missing(EDGE_AND_FOUR, [v]), residual)
    ensures v < |residual| && residual[v] == 0
  {
    hide Missing, Neighbours, ResidualDegrees, Elems, IsPath;
    Sides(v);
    OnePath(EDGE_AND_FOUR, v);
    CannotUnwind(v);
    UnplacedEntry(EDGE_AND_FOUR, [], Missing(EDGE_AND_FOUR, [v]), residual, v);
    assert {1 - v} - {} == {1 - v} && |{1 - v}| == 1;
  }

  /** Its neighbour cannot be placed any more. */
  lemma Stuck(node: NodeState, v: Vertex)
    requires v < 2 && node.g == EDGE_AND_FOUR && node.Valid() && node.path == [] && node.useBins
    requires node.deficit == Missing(EDGE_AND_FOUR, [v])
    ensures !node.Lowerable(1 - v)
  {
    hide BinSync, DeltaSync, IndexSync, Missing, Neighbours, ResidualDegrees, Vertices;
    Sides(v);
    Sides(1 - v);
    ReadsZero(v, node.residual);
    assert v in Neighbours(EDGE_AND_FOUR, 1 - v);
  }

  /**
    Restored from that snapshot, the session takes the failed vertex off and then
    throws when it goes on to the other candidate.
   */
  method ResumedRunThrows() returns (s: DecisionSession, c: Candidate, ok: bool)
    ensures fresh(s) && s.node.g == EDGE_AND_FOUR && c.vertex < 2 && !ok
  {
    hide *;
    var saved, v := StrandedSnapshot();
    var cache := EmptyCache(EDGE_AND_FOUR);
    var options := Plain(true);
    PlainFacts(true);
    s := new DecisionSession.Restore(EDGE_AND_FOUR, saved, options, cache, {}, []);
    Reloaded(s, saved, v);
    assert !s.Healthy();
    FailsBehind(s, v);
    s.FinishFailedFrame(true);
    NodeOf(s);
    Stuck(s.node, v);
    c := s.stack[0].candidates[1];
    ok := s.Descend(c);
  }
}
