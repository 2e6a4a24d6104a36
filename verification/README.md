# BoundedCuts: a verified model of the exact cutwidth solver

BoundedCuts decides whether the vertices of a graph can be placed in a line so that no gap between
neighbours in the line is crossed by more than `k` edges. Its `INFEASIBLE` answers and its lower
bounds are claims that nothing exists, so every shortcut the solver takes has to be a proof. This
project models the code those claims rest on and proves them.

Everything stands on one small theory. A prefix is a vertex set, `Cut(g, S)` is the number of edges
leaving it, and `Feasible(g, k, S)` says that `S` is within the threshold and the remaining vertices
can be placed one by one so that every prefix stays within it. Feasibility depends on the set alone,
never on the order in which it was reached.

The main results:

* **Search** (`ThresholdSearch`, `WordSearch`, `ParallelSearch`). The recursive search with failure
  cache, twin skipping, depth-two lookahead, best-next and residual-degree pruning, horizon memo and
  local continuation probe is exact: a failure means that no completion exists, a success is an
  ordering of width at most `k`, and without a limit it always answers; every failure it finds is published
  in the cache unless that has no room, and it expands no more nodes than the tree its shortcuts leave. Twin skipping is compatible
  with a cache keyed by sets because every feasible set has a feasible child the twin rule lets
  through (`TwinSymmetry.CanonicalChild`). The parallel frontier covers every feasible ordering, and
  every interleaving of its workers combines to a true answer.
* **Resumable session** (`SessionFrames`, `DecisionSessions`, `SessionRuns`, `ResidualRollbacks`,
  `SessionCases`). The same search as a machine with an
  explicit stack that can stop anywhere, detach siblings, hand them to other owners and rejoin. Every
  operation keeps one invariant, so it holds after every interleaving: an unresolved session with a
  feasible root has a feasible obligation left in the active region, the queue or an external region,
  and an infeasible one has none. Failures are published only where no sibling is missing. `SessionRuns`
  states this over whole runs of a tree of sessions, whose owners work on the regions they were handed, split
  them further, are suspended and restored, and report back; no feasible region is ever lost in it. Every turn
  is taken off what is left to do, so undisturbed quanta end a session and decide the problem.
* **Certificates** (`Determinants`, `Bareiss`, `StrictShifts`, `CutForms`, `BisectionCertificates`,
  `WeightedCertificates`). Fraction-free elimination never meets an inexact division on a symmetric matrix
  and decides positive definiteness in both directions, every such matrix has a least strict shift and the
  search finds it, and an accepted certificate bounds the cut of every vertex set of its cardinality.
* **Lagrangian bound** (`FlowNetworks`, `DinicFlow`, `LagrangianBounds`). Dinic's algorithm ends with a
  maximum flow after fewer phases than nodes, each of which raises the level of the sink. A grid point
  yields exactly the least Lagrangian over all residual sets, rounded up, or is skipped exactly where a
  number does not fit, and the best of them is below every cut at the reported cardinality.
* **Fast structures** (`CandidateIndexes`, `Histograms`, `NodeStates`, `ReversibleNodeStates`,
  `LocalProbes`, `DecisionCaches`, `SegmentedCaches`, `FiniteHorizons`, `SubsetDp`,
  `IncrementalLayouts`). Each agrees with the simple thing it replaces: a recomputation, a map, a set,
  an unmemoised recursion, a minimum over all orderings.
* **Executor and checkpoint** (`RoundRobins`, `GlobalExecutors`, `Texts`, `Checkpoints`). Permits,
  epochs and leases stay balanced over every run and no epoch starves; the checkpoint parser accepts
  exactly what the printer writes for valid checkpoints.

Objects that the solver updates in place are classes here, with methods proved against functions of
their old and new state. A prune is stated as a fact about the problem (no completion exists), and
where a prune is decided by a formula also as an equivalence with what the formula is meant to test.
A limited run may stop at any safe point; that is modelled as a free choice allowed only when a limit
was given.

## Where the code does not meet the expected claim

* The weighted verifier does not test that the linear numerator is even although the slack halves it
  (exact_solver/clarabel_sdp_adapter.cpp:778). `WeightedCertificates.SoundIffEven` shows that acceptance
  implies the bound exactly for even numerators and gives an accepted false certificate for each odd one;
  recovery always produces an even one.
* After a full turn without a victim, `recycle_page` returns with a clock hand that has not been reduced
  (exact_solver/decision_cache.cpp:314), and such a cache cannot be restored from its snapshot
  (exact_solver/decision_cache.cpp:119). `SegmentedCaches.SegmentedCache.RecyclePage` states that the hand is
  restorable afterwards if and only if some filled page of the largest capacity was unreferenced before the call
  (`HasColdPage`), or no page held keys and the hand was restorable. `SegmentedCaches.StrandedHand` reaches a
  stranded hand with two insertions.
* When a batch of epochs is refused at a request after the first (exact_solver/global_dfs_executor.cpp:103-109),
  the epochs already opened wait for permits that nobody queues. `GlobalExecutors.GlobalExecutor.GrantEpochs`
  states that the executor stays balanced if and only if no request of the batch would be refused and no two name
  the same session (`Grantable`), or the first would be refused. `GlobalExecutors.HalfOpenedBatch` is such a batch.
* A drain that names an epoch twice raises a logic error after closing it (exact_solver/global_dfs_executor.cpp:178-187),
  and of two drains that wait for one epoch the second goes on from an erased place in the table
  (exact_solver/global_dfs_executor.cpp:149-163). `GlobalExecutors.DrainCompletes` states when a drain finishes,
  `GlobalExecutors.GlobalExecutor.Run` that neither happens when the drains of a run name each epoch once in all, and
  `GlobalExecutors.RepeatedDrainRaises` and `GlobalExecutors.OvertakenDrain` are an input each.
* A rebuild of the residual degrees leaves those of placed vertices at zero
  (exact_solver/decision_session.cpp:528-545). A session that restores a snapshot taken in the middle of a search
  undoes placements made before the rebuild, and then holds residual degrees that are too small: each is short by
  exactly the neighbours of the vertex that were not placed before it (`ResidualRollbacks.ShortByDeficit`). Nothing
  goes wrong if none are kept, because the bound is not configured or half the largest degree, rounded up, is within
  the threshold (exact_solver/partial_bounds.cpp:254-264), or if every vertex of the local path had all its neighbours
  placed before it; `DecisionSessions.DecisionSession.Restore` states that the session is healthy if and only if one
  of these holds, and `ResidualRollbacks.RightIffUnwindable` that otherwise some residual degree is wrong at the
  region root. A healthy session never throws. In any other, `DecisionSessions.DecisionSession.Descend` throws
  exactly when an unplaced neighbour already reads zero, and an order that places the missing neighbours of a short
  vertex first must come to that (`ResidualRollbacks.RightOrUnderflows`). Prunes stay proofs all the same
  (`ResidualRollbacks.RolledStillProves`). `SessionCases.StrandedSnapshot` and `SessionCases.ResumedRunThrows` reach
  the exception on an edge beside a complete graph of four vertices at threshold one, with the partial bounds out of
  use and the residual degree configured.
* A standalone snapshot of a solved or cancelled session is always refused, because its region count is never
  lowered (exact_solver/decision_session.cpp:325-340), and so is one of a session closed by a certified bound,
  which keeps its own region counted (exact_solver/decision_session.cpp:843-856). Sessions closed by search or by
  rejoining have no region left and are granted one. `DecisionSessions.DecisionSession.Snapshot` states it, and
  `SessionCases.SnapshotAfterSearch` and `SessionCases.SnapshotAfterCertificate` are an input each.
* A report of an external failure that matches no external region is counted down silently while another region
  keeps the count above one (exact_solver/decision_session.cpp:831-841), which leaves the session with fewer regions
  counted than it holds. `DecisionSessions.DecisionSession.ResolveExternalFailure` states that the session stays
  consistent if and only if it was closed already or an external region was open.

## Running the proofs

`dafny verify dfyconfig.toml` checks the whole project with Dafny 4.11.

## Model

| member | source | states |
|---|---|---|
| Graphs.CutRecurrence | exact_solver/incremental_layout.cpp:86-88 | placing a vertex changes the cut by its degree minus twice its placed neighbours, for every vertex set; every incremental cut in the repository rests on this |
| Graphs.EmptyCut | exact_solver/graph.cpp:234-259 | the empty prefix cuts nothing |
| Graphs.FullCut | exact_solver/graph.cpp:234-259 | the full vertex set cuts nothing |
| Graphs.MaximumDegreeAttained | exact_solver/lagrangian_bound.cpp:142-147 | the largest degree is the degree of some vertex, unless it is zero |
| GraphBuilders.GraphBuilder.constructor | exact_solver/graph.cpp:37-52 | a new graph has the asked number of vertices, no adjacency and no edge |
| GraphBuilders.GraphBuilder.AddEdge | exact_solver/graph.cpp:54-67 | refuses exactly an unknown endpoint; afterwards two vertices are adjacent iff they were or the new edge joins them, in both directions, loops and repetitions changing nothing; the edge count stays half the degree sum |
| GraphBuilders.BuildGraph | exact_solver/graph.cpp:69-83 | answers iff every endpoint is known; then vertices are adjacent iff some listed edge joins them, and twice the edge count is the sum of the degrees |
| Orderings.CutOf | exact_solver/graph.cpp:234-259 | the sum over the prefix of its outgoing neighbours is the number of edges leaving the prefix |
| Orderings.ValidateOrdering | exact_solver/graph.cpp:261-272 | accepts exactly the permutations of the vertices |
| Orderings.OrderingCutwidth | exact_solver/graph.cpp:274-283 | rejects exactly the non-permutations, otherwise gives the width |
| Orderings.WidthIsLargest | exact_solver/graph.cpp:274-283 | the width is at most k iff every prefix cut is at most k |
| Orderings.IsWithin | exact_solver/decision_session.cpp:858-864 | accepts exactly the permutations of width at most the threshold |
| Orderings.CollectPrefix | exact_solver/decision.cpp:1212-1244 | accepts exactly the duplicate-free paths of known vertices and returns their set |
| Feasibility.CompletionIsTail | exact_solver/decision.cpp:681-693 | a list completes the set of a path within k iff path followed by list is an ordering whose later cuts stay within k: completability depends on the set alone |
| Feasibility.FeasibleFromScratch | exact_solver/oracle.cpp:12-34 | the empty prefix is feasible iff some ordering of the whole graph has width at most k |
| Feasibility.FeasibleChild | exact_solver/decision.cpp:1068-1153 | a feasible prefix that is not full has a feasible child |
| Feasibility.FeasibleParent | exact_solver/decision.cpp:1068-1153 | a prefix within the threshold with a feasible child is feasible |
| Feasibility.FeasibleMonotone | exact_solver/decision_cache.cpp:844-859 | feasible at a threshold means feasible at every larger one, which is why a failure proof serves all smaller thresholds |
| Feasibility.DegreeBound | exact_solver/decision.cpp:361-369 | in a feasible prefix every unplaced vertex has degree at most twice the threshold |
| TwinSymmetry.TwinTests | exact_solver/decision.cpp:500-516 | the word-wise open and closed comparisons together hold iff the two vertices have the same neighbours apart from each other |
| TwinSymmetry.BuildTwins | exact_solver/decision.cpp:520-531 | the table lists for each vertex exactly its earlier twins, once each, and nothing when disabled |
| TwinSymmetry.EarlierTwins | exact_solver/decision.cpp:520-531 | lists exactly the earlier twins of one vertex, once each |
| TwinSymmetry.BlockedByTwin | exact_solver/decision.cpp:814-818 | a vertex is held back exactly as long as a smaller twin of it is unplaced, where twins are in use |
| TwinSymmetry.TwinCuts | exact_solver/decision.cpp:814-818 | placing either of two unplaced twins gives the same cut |
| TwinSymmetry.TwinExchange | exact_solver/decision.cpp:814-818 | a completion after one of two unplaced twins yields a completion after the other, by swapping them |
| TwinSymmetry.CanonicalChild | exact_solver/decision.cpp:814-818 | every feasible, incomplete prefix has a feasible child that the twin rule does not block, for every set reached: twin skipping and a set-keyed failure cache cannot together lose all orderings |
| Sorting.Sort | exact_solver/decision.cpp:1058-1063 | returns the same multiset in non-decreasing precedence |
| Candidates.ListedChild | exact_solver/decision.cpp:1043-1068 | if a feasible prefix is not full, the complete list of legal candidates holds one whose child is feasible |
| Candidates.LegalIff | exact_solver/decision.cpp:725-750 | legal means unplaced, next cut within the threshold, and no smaller unplaced twin where twins are in use |
| Candidates.LegalTest | exact_solver/decision.cpp:725-750 | the delta arithmetic on the kept count of placed neighbours gives the true next cut and decides legality |
| Candidates.Scan | exact_solver/decision.cpp:725-750 | lists every legal unplaced vertex once with its true cut and nothing else |
| Candidates.GatherAt | exact_solver/decision.cpp:751-774 | the index emits exactly the unplaced vertices with delta up to the bound, once each, with their deltas |
| Candidates.FilterEmitted | exact_solver/decision.cpp:751-774 | filtering the emitted vertices gives the complete legal list, and its own range check never fires |
| Candidates.Enumerate | exact_solver/decision.cpp:775-802 | scanned, indexed or cross-checked, the result is the complete legal list and the cross-check never throws |
| Candidates.SortedListsAgree | exact_solver/decision.cpp:775-802 | two complete legal lists sorted by the same rule are the same sequence, so the enumerators cannot differ |
| Candidates.OrderIsUnique | exact_solver/decision.cpp:1058-1063 | a list of distinct candidates has only one sorted arrangement |
| Candidates.SortCandidates | exact_solver/decision.cpp:1058-1063 | the candidate order is respected and no candidate is gained, lost or repeated |
| Candidates.SortedInOrder | exact_solver/decision.cpp:1058-1063 | the sorted candidates are tried by cut, largest or smallest first as configured, and by vertex number where cuts agree |
| Candidates.HasLegalSecond | exact_solver/decision.cpp:858-872 | answers yes only with a legal second vertex, no only without one, and is interrupted only in a limited run |
| Candidates.LegalAfterTest | exact_solver/decision.cpp:853-872 | the lookahead's arithmetic over the pre-placement counts decides legality after the placement, twin rule included |
| Candidates.NoLegalFails | exact_solver/decision.cpp:858-872 | a prefix that is not full and has no legal continuation has no completion |
| Candidates.Agree | exact_solver/decision.cpp:775-802 | comparing the sorted scanned and indexed lists always finds them equal |
| CandidateIndexes.InsertKeeps | exact_solver/delta_bucket_candidate_index.hpp:51-59 | pushing onto a bucket keeps every slot seated and filed and adds exactly that entry |
| CandidateIndexes.RemoveKeeps | exact_solver/delta_bucket_candidate_index.hpp:40-49 | swapping with the last slot of the bucket keeps every other vertex seated and filed and removes exactly that entry |
| CandidateIndexes.DeltaBucketCandidateIndex.constructor | exact_solver/delta_bucket_candidate_index.hpp:18-30 | holds exactly the unplaced vertices, each under its delta |
| CandidateIndexes.DeltaBucketCandidateIndex.Remove | exact_solver/delta_bucket_candidate_index.hpp:40-49 | fails iff the vertex is absent; otherwise removes it alone |
| CandidateIndexes.DeltaBucketCandidateIndex.Insert | exact_solver/delta_bucket_candidate_index.hpp:51-59 | fails iff present or out of range; otherwise adds it alone under its delta |
| CandidateIndexes.DeltaBucketCandidateIndex.Move | exact_solver/delta_bucket_candidate_index.hpp:61-64 | refiles a held vertex under the new delta and touches no other |
| CandidateIndexes.DeltaBucketCandidateIndex.Gather | exact_solver/delta_bucket_candidate_index.hpp:66-79 | emits each held vertex of delta at most the bound exactly once, for bounds outside the range as well |
| CandidateIndexes.DeltaBucketCandidateIndex.Validate | exact_solver/delta_bucket_candidate_index.hpp:81-104 | from any correctly sized arrays, accepts iff they are consistent and equal to the recomputed index |
| CandidateIndexes.DeltaBucketCandidateIndex.MarkMembers | exact_solver/delta_bucket_candidate_index.hpp:81-104 | accepts iff every bucket entry is recorded at its place, marking exactly the vertices met |
| Histograms.DeltaHistogram.Add | exact_solver/decision.hpp:105-112 | adds one to the kept multiset; values out of range are ignored |
| Histograms.DeltaHistogram.Remove | exact_solver/decision.hpp:114-125 | removes one from the kept multiset, the maintained minimum following |
| Histograms.DeltaHistogram.MinDelta | exact_solver/decision.hpp:127-132 | the least held value, or none exactly when nothing is held |
| Histograms.ResidualHistogram.RemoveBin | exact_solver/decision_session.cpp:547-556 | fails iff the bin is empty; otherwise removes one value, the maximum following |
| Histograms.ResidualHistogram.AddBin | exact_solver/decision_session.cpp:558-563 | fails iff out of range; otherwise adds one value, the maximum following |
| Histograms.MaximumIsLargest | exact_solver/decision_session.cpp:547-563 | the maintained maximum bounds every held value and, if positive, is held |
| Histograms.DeltaHistogram.constructor | exact_solver/decision.hpp:99-103 | starts empty for deltas up to the maximum degree either way |
| NodeStates.PlacementMovesCounts | exact_solver/decision.cpp:1084-1110 | stepping the counts of the unplaced neighbours is correct forwards and backwards: one count table is right before iff the other is right after |
| NodeStates.PlacementMovesResiduals | exact_solver/decision_session.cpp:436-478 | the same equivalence for residual degrees, whatever the last rebuild left out of them, so it holds for undoing past a rebuild too |
| NodeStates.BeforeUnique | exact_solver/decision.cpp:1084-1149 | the path determines the whole count table, so undo restores it exactly |
| NodeStates.NodeState.constructor | exact_solver/decision.cpp:610-680 | counts, prefix set, index, delta histogram and residual bins all equal their values recomputed from the path, the residual degrees of placed vertices reading zero |
| NodeStates.NodeState.Apply | exact_solver/decision_session.cpp:436-478 | fails exactly when an unplaced neighbour has a residual degree of zero; otherwise all derived state again equals its recomputation, what the residual degrees miss staying the same |
| NodeStates.NodeState.Undo | exact_solver/decision_session.cpp:480-515 | removes exactly the last vertex, on either side of the last rebuild, and all derived state again equals its recomputation, what the residual degrees miss staying the same |
| NodeStates.NodeState.Load | exact_solver/decision_session.cpp:722-745 | rebuilds all derived state from an arbitrary new path; the residual degrees of its vertices then miss what they had open when they were placed |
| ResidualRollbacks.UndoPastRebuild | exact_solver/decision_session.cpp:480-545 | undoing a placement that a rebuild had already counted leaves the residual degrees right iff that vertex has no unplaced neighbour |
| ResidualRollbacks.RightIffNoneMissing | exact_solver/decision_session.cpp:480-545 | at any depth the residual degrees of the unplaced vertices are right iff none of them misses anything |
| ResidualRollbacks.NoneMissingIffUnwindable | exact_solver/decision_session.cpp:528-545 | a rebuild misses nothing from a depth on iff each vertex of the path from there on had all its neighbours placed before it |
| ResidualRollbacks.ShortByDeficit | exact_solver/decision_session.cpp:436-545 | after undoing past a rebuild the residual degree of each undone vertex is short by exactly the number of its neighbours that were not placed before it |
| ResidualRollbacks.RightIffUnwindable | exact_solver/decision_session.cpp:436-545 | after undoing back to the root every residual degree is right iff each undone vertex had all its neighbours placed before it |
| ResidualRollbacks.RolledStillProves | exact_solver/decision_session.cpp:436-545 | whatever a rebuild left out, no unplaced vertex has a residual degree above its true one, so a residual-degree prune is still a proof |
| ResidualRollbacks.ShortEntryUnderflows | exact_solver/decision_session.cpp:436-478 | a residual degree that is too small cannot survive placing all of that vertex's unplaced neighbours: some decrement meets zero |
| ResidualRollbacks.RightOrUnderflows | exact_solver/decision_session.cpp:436-545 | where the undone vertices do not meet the condition there is an unplaced vertex such that every later order which places all its neighbours first makes a decrement meet zero |
| NodeStates.CountPlaced | exact_solver/decision.cpp:632-644 | replaying the path gives the counts of a stepwise placement |
| NodeStates.CountResiduals | exact_solver/decision_session.cpp:528-545 | after a rebuild the residual degrees are right for the unplaced vertices and zero for the placed ones |
| NodeStates.NodeState.BumpNeighbours | exact_solver/decision.cpp:1091-1113 | every unplaced neighbour is stepped once, up or down, and index, histogram and bins follow; fails exactly when a residual degree of zero would be lowered |
| NodeStates.NodeState.RebuildDerived | exact_solver/decision_session.cpp:517-545 | index, histogram and bins are rebuilt to match counts and prefix |
| ReversibleNodeStates.StateUnique | exact_solver/decision.cpp:109-184 | base and pushed vertices determine counts, residuals, histogram and gain buckets |
| ReversibleNodeStates.PlacementSplitsAll | exact_solver/decision.cpp:139-173 | the two count tables are right before a push iff their stepped forms are right after it |
| ReversibleNodeStates.ReversibleNodeState.constructor | exact_solver/decision.cpp:111-126 | starts with every table equal to its recomputation from the given prefix |
| ReversibleNodeStates.ReversibleNodeState.Push | exact_solver/decision.cpp:139-155 | appends the vertex with every table again equal to its recomputation |
| ReversibleNodeStates.ReversibleNodeState.Pop | exact_solver/decision.cpp:156-173 | takes off exactly the last push with every table again equal to its recomputation |
| ReversibleNodeStates.ReversibleNodeState.BucketOf | exact_solver/decision.cpp:174-183 | a gain bucket holds exactly the unplaced vertices of that gain |
| ReversibleNodeStates.ReversibleNodeState.MaximumResidualDegree | exact_solver/decision.cpp:134-138 | the largest residual degree, and attained when positive |
| ReversibleNodeStates.ReversibleNodeState.CountUp | exact_solver/decision.cpp:143-153 | steps every unplaced neighbour once, buckets and histogram following |
| ReversibleNodeStates.ReversibleNodeState.CountDown | exact_solver/decision.cpp:159-169 | steps every unplaced neighbour back once, buckets and histogram following |
| LocalProbes.OverlayDelta | exact_solver/local_continuation_bound.hpp:79-128 | an overlay can lower a base delta by at most twice its length |
| LocalProbes.GatherIsSuperset | exact_solver/local_continuation_bound.hpp:79-128 | gathering at slack plus twice the overlay length emits every legal child of prefix plus overlay |
| LocalProbes.FeasibleIsExtendable | exact_solver/local_continuation_bound.hpp:130-149 | a feasible prefix can be continued legally for every number of steps |
| LocalProbes.LocalContinuationProbe.Enumerate | exact_solver/local_continuation_bound.hpp:79-128 | lists the legal children of prefix plus overlay completely, and its cross-check never throws |
| LocalProbes.LocalContinuationProbe.Search | exact_solver/local_continuation_bound.hpp:130-149 | nothing and exists are exact answers; inconclusive only when the state cap is reached; the overlay is restored and the cap never exceeded; it counts no more states than that many steps can reach |
| LocalProbes.LocalContinuationProbe.Children | exact_solver/local_continuation_bound.hpp:140-149 | the same for the loop over children |
| LocalProbes.LocalContinuationProbe.Run | exact_solver/local_continuation_bound.hpp:39-47 | a conclusive result says yes iff a legal continuation of the horizon exists, and it is conclusive wherever the limit is beyond what that many steps can reach |
| LocalProbes.ProbePruneIsProof | exact_solver/decision.cpp:819-852 | a prefix that cannot be continued for the horizon has no completion |
| LocalProbes.LocalContinuationProbe.LocalNeighbours | exact_solver/local_continuation_bound.hpp:60-65 | the count of overlay neighbours is exact |
| LocalProbes.LocalContinuationProbe.Filter | exact_solver/local_continuation_bound.hpp:79-94 | filtering the gathered superset gives the complete legal list for prefix plus overlay |
| LocalProbes.LocalContinuationProbe.ScanLocal | exact_solver/local_continuation_bound.hpp:96-107 | the scan gives the complete legal list for prefix plus overlay |
| DecisionCaches.ProbeStep | exact_solver/decision_cache.cpp:831-842 | one probe step keeps all passed slots foreign and comes nearer to a free slot, so probing ends |
| DecisionCaches.FillUnbroken | exact_solver/decision_cache.cpp:904-949 | filling the first free slot of its own probe path breaks no other key's path |
| DecisionCaches.DynamicDecisionCache.constructor | exact_solver/decision_cache.cpp:799-830 | starts empty |
| DecisionCaches.DynamicDecisionCache.Find | exact_solver/decision_cache.cpp:831-842 | ends at the slot of the key iff it is retained, else at a free slot |
| DecisionCaches.DynamicDecisionCache.ProvesFailed | exact_solver/decision_cache.cpp:844-859 | hits iff the key is retained with at least the asked threshold, and changes no entry |
| DecisionCaches.DynamicDecisionCache.Transfer | exact_solver/decision_cache.cpp:874-892 | reinserting into a table of another capacity keeps every key with its threshold |
| DecisionCaches.DynamicDecisionCache.Rehash | exact_solver/decision_cache.cpp:874-892 | the map of entries is unchanged; the table gets the asked capacity iff its insertion fits the memory limit, and otherwise stays as it is |
| DecisionCaches.DynamicDecisionCache.EnsureInsertCapacity | exact_solver/decision_cache.cpp:894-902 | succeeds iff the table has room or the next capacity fits the memory limit, then below the load limit; the entries stay |
| DecisionCaches.DynamicDecisionCache.RecordFailed | exact_solver/decision_cache.cpp:904-949 | a retained key is always raised to the larger threshold; a new one is kept iff there was room or the grown table fits the memory limit, and after declining one the cache still has no room; no other entry changes |
| DecisionCaches.DynamicDecisionCache.UnlimitedHasRoom | exact_solver/decision_cache.cpp:861-902 | a cache without entry and memory limit always has room |
| DecisionCaches.DynamicDecisionCache.KeptWhileItFits | exact_solver/decision_cache.cpp:861-902 | a new key is kept as long as the entry limit allows one more and sixteen slots and three for each entry, with the keys, fit in the memory limit |
| DecisionCaches.DynamicDecisionCache.KeptWithinLimits | exact_solver/decision_cache.cpp:861-902 | the limits are kept to: a new key is kept only if one more entry is allowed and that many slots and keys fit |
| DecisionCaches.DynamicDecisionCache.Strengthen | exact_solver/decision_cache.cpp:904-949 | raises the bound of a retained key to the larger threshold and touches no other entry |
| DecisionCaches.DynamicDecisionCache.Append | exact_solver/decision_cache.cpp:904-949 | adds exactly the new key with its threshold at the free slot its probing found |
| ThresholdSearch.RetainedMeansFailed | exact_solver/decision.cpp:878-889 | in a truthful cache an entry proves failure at its threshold and below |
| ThresholdSearch.SolvableIffFeasible | exact_solver/decision.cpp:681-693 | some ordering extends a path within the threshold iff its vertex set is feasible |
| ThresholdSearch.LeastDecides | exact_solver/decision.cpp:1018-1042 | the least delta decides exactly whether any unplaced vertex fits next |
| ThresholdSearch.BestNextProves | exact_solver/decision.cpp:1018-1042 | if even the least delta exceeds the slack the prefix has no completion |
| ThresholdSearch.LargestDecides | exact_solver/decision.cpp:361-369 | the largest residual degree decides exactly whether any unplaced vertex is too crowded |
| ThresholdSearch.ResidualDegreeProves | exact_solver/decision.cpp:361-369 | a residual degree whose half, rounded up, exceeds the threshold rules out every completion |
| ThresholdSearch.ChildrenDone | exact_solver/decision.cpp:1068-1156 | if every listed legal child fails, the prefix fails |
| ThresholdSearch.ListedCount | exact_solver/decision.cpp:1043-1057 | no more children are listed than vertices are unplaced |
| ThresholdSearch.ListedSize | exact_solver/decision.cpp:1043-1047 | as many children are listed as vertices may legally follow |
| ThresholdSearch.OneTreeLess | exact_solver/decision.cpp:1068-1156 | the size of the pruned tree does not depend on the order in which the children are searched |
| ThresholdSearch.TreeWithin | exact_solver/decision.cpp:1068-1156 | the pruned tree is never larger than the one that tries every order of the unplaced vertices |
| ThresholdSearch.SearchDynamic.LookaheadRefuses | exact_solver/decision.cpp:1070-1084 | refuses exactly the children that nothing can legally follow, where lookahead is on and within its gate; only a watched run is interrupted |
| ThresholdSearch.RecordFailure | exact_solver/decision.cpp:809-813 | publishing a true failure keeps the cache truthful, raises a known prefix, adds a new one iff the cache has room and touches no other entry; afterwards the failure is proven by the cache, or the cache has no room |
| ThresholdSearch.KeptWithoutLimits | exact_solver/decision_cache.cpp:861-949 | in a cache without limits every published failure is proven |
| ThresholdSearch.ProvenFailed | exact_solver/decision.cpp:878-889 | hits iff the cache proves it, and a hit is a true failure |
| ThresholdSearch.LocalContinuationPrunes | exact_solver/decision.cpp:819-852 | prunes only prefixes that cannot be continued for the depth, which have no completion; without a state limit it prunes iff slack and branching are within their gates and there is no such continuation |
| ThresholdSearch.SearchDynamic.constructor | exact_solver/decision.cpp:610-680 | starts at the given path with all derived state synchronised, with the twin table that the options ask for |
| ThresholdSearch.SearchDynamic.Prune | exact_solver/decision.cpp:878-1042 | prunes iff the cache proves failure, some vertex is too crowded or nothing fits, each only where enabled, and every prune is a true failure, published |
| ThresholdSearch.SearchDynamic.Dfs | exact_solver/decision.cpp:873-1156 | failed means no completion, and the failure is published unless the cache has no room; found gives an ordering extending the path whose later prefixes are all within k; timed out only once the node limit is spent or where a deadline or stop flag is watched; at most the nodes of the pruned tree are expanded, exactly those by a failed search without cache and probe, and at most one below a prefix that the cache or a probe without state limit refutes; path and derived state are restored, the cache stays truthful and forgets nothing |
| ThresholdSearch.SearchDynamic.Children | exact_solver/decision.cpp:1068-1156 | the same for the loop over children in their order, of which exactly those are searched that the lookahead does not refuse |
| ThresholdSearch.SearchDynamic.Descend | exact_solver/decision.cpp:1084-1149 | placing, searching and taking off a child restores the node and answers for the child |
| ThresholdSearch.Decide | exact_solver/decision.cpp:681-693 | without a deadline, stop flag or node limit, or with a limit beyond the full tree, it decides: a witness of width at most k, or a proof that no ordering has it, which is then published unless the cache has no room |
| ThresholdSearch.RunSubtree | exact_solver/decision.cpp:1212-1244 | rejects exactly invalid prefixes and wrong cuts; a refutation means no completion; a witness extends the prefix with all later prefixes within k, and is an ordering of width at most k from the prefix on iff the prefix itself is |
| ThresholdSearch.MaximumResidualDegree | exact_solver/decision.cpp:361-369 | the largest residual degree, attained when positive |
| ThresholdSearch.SearchDynamic.Record | exact_solver/decision.cpp:809-813 | publishes the failure of the current prefix: the cache proves it afterwards unless it has no room, and forgets nothing; without a cache nothing changes |
| ThresholdSearch.SearchDynamic.DegreePrunes | exact_solver/decision.cpp:929-950 | prunes iff some unplaced vertex is too crowded, which is a true failure, published |
| ThresholdSearch.SearchDynamic.BestNextPrunes | exact_solver/decision.cpp:1018-1042 | prunes iff no unplaced vertex fits next, twins or not, which is a true failure, published |
| ThresholdSearch.SearchDynamic.Expired | exact_solver/decision.cpp:803-808 | expires always at the node limit, and otherwise only where a deadline or stop flag is watched |
| ThresholdSearch.SearchBelow | exact_solver/decision.cpp:681-693 | from any valid path, within the threshold or not: a refutation, published unless the cache has no room; a witness extending it; or undecided only where a deadline or stop flag is watched or the node limit is within the full tree |
| ThresholdSearch.ContinuesIsSolves | exact_solver/decision.cpp:681-693 | an ordering whose later prefixes are within k solves the path iff the path itself is within k |
| SessionFrames.OutstandingHandOver | exact_solver/decision_session.cpp:815-829 | moving the front pending region to an external owner changes nothing about what is outstanding |
| SessionFrames.OutstandingClose | exact_solver/decision_session.cpp:831-841 | closing a region that truly failed loses nothing |
| SessionFrames.PushChild | exact_solver/decision_session.cpp:1057-1079 | consuming a candidate by opening its frame keeps every frame covered |
| SessionFrames.PopFrame | exact_solver/decision_session.cpp:762-786 | popping a failed frame keeps every frame below covered |
| SessionFrames.ExhaustedFails | exact_solver/decision_session.cpp:1057-1080 | a frame without candidates left fails, or has lost a sibling and something outstanding is owed |
| SessionFrames.Donate | exact_solver/decision_session.cpp:788-813 | detaching a sibling and clearing the flags of that frame and all its ancestors keeps the whole stack covered, deeper frames staying complete |
| SessionFrames.DonatedRegion | exact_solver/decision_session.cpp:788-813 | the donated continuation is a legal path with its true cut |
| SessionFrames.EffortSteps | exact_solver/decision_session.cpp:866-1090 | entering a frame, popping it, passing over a candidate and descending to one each take a turn off what the stack has left to do, counted over full subtrees |
| SessionFrames.DonatedEffort | exact_solver/decision_session.cpp:788-813 | a donated candidate takes off the stack exactly the turns that it adds to the queue |
| DecisionSessions.DecisionSession.constructor | exact_solver/decision_session.cpp:178-221 | starts unresolved and healthy with the whole problem as its one region, the turns of a full tree left, and the twin table that the options ask for |
| DecisionSessions.DecisionSession.CompleteRegion | exact_solver/decision_session.cpp:747-760 | loads the next pending region, or waits for external ones, or declares infeasible, exactly by what is left, with one obligation less |
| DecisionSessions.DecisionSession.LoadPending | exact_solver/decision_session.cpp:722-745 | replaces stack and path by a fresh root frame of the queued region, all derived state rebuilt; the session is healthy from then on |
| DecisionSessions.DecisionSession.FinishFailedFrame | exact_solver/decision_session.cpp:762-786 | pops the frame and its vertex, or completes the region, with less left to do; asked to publish a frame that lost no sibling it leaves the failure proven by the cache unless that has no room, and otherwise publishes nothing |
| DecisionSessions.DecisionSession.PublishFailure | exact_solver/decision_session.cpp:679-689 | a complete failed frame may be cached: its prefix has no completion although siblings were detached elsewhere; the cache proves it afterwards unless it has no room |
| DecisionSessions.DecisionSession.PopChild | exact_solver/decision_session.cpp:480-515 | takes exactly the last vertex and frame off and keeps the session invariant and health |
| DecisionSessions.DecisionSession.EnterFrame | exact_solver/decision_session.cpp:942-1055 | solves with the current path iff it is full; otherwise opens the frame with its legal candidates in order, or closes it, only for a cached failure, a crowded vertex or a probe, publishing it unless it lost a sibling; a cached failure is never opened, nor a prefix that an unlimited probe rules out, nor in a healthy session a crowded one while the bound is in use; at most one node is counted and a turn taken off |
| DecisionSessions.DecisionSession.Expand | exact_solver/decision_session.cpp:998-1055 | an entered frame lists its legal children, or is closed as a true failure, only by the residual degree or a probe, and published; in a healthy session always by the residual degree where it applies |
| DecisionSessions.DecisionSession.BoundRefutes | exact_solver/decision_session.cpp:1002-1012 | refutes only where the bound is in use and some vertex is crowded, and in a healthy session whenever that is so |
| DecisionSessions.DecisionSession.RefuteTop | exact_solver/decision_session.cpp:1005-1015 | a kept largest residual degree above twice the threshold makes the top frame a true failure |
| DecisionSessions.DecisionSession.DegreeDecides | exact_solver/partial_bounds.cpp:238-264 | in a healthy session some vertex is crowded iff residual degrees are kept and the largest is above twice the threshold: where the largest degree rules the bound out, nothing is lost by keeping none |
| DecisionSessions.DecisionSession.ProbePrunes | exact_solver/decision_session.cpp:1049-1053 | a probe that rules out every continuation makes the top frame a true failure; without a state limit it prunes iff slack and branching are within their gates and there is no continuation |
| DecisionSessions.DecisionSession.OpenTop | exact_solver/decision_session.cpp:1040-1055 | the top frame is entered with the complete list of its legal candidates in the configured order, all flags and other frames kept |
| DecisionSessions.DecisionSession.ListChildren | exact_solver/decision_session.cpp:577-641 | the complete legal list, by cut as configured and then by vertex, whichever enumerator is configured |
| DecisionSessions.DecisionSession.Advance | exact_solver/decision_session.cpp:1057-1081 | passes over candidates and then descends to one, or finishes the exhausted frame and publishes it unless it lost a sibling; expands no node and takes a turn off; it throws only in a session that is not healthy |
| DecisionSessions.DecisionSession.TryNext | exact_solver/decision_session.cpp:1057-1079 | takes exactly the next candidate, passing it over or descending to it |
| DecisionSessions.DecisionSession.LookaheadRejects | exact_solver/decision_session.cpp:565-575 | rejects iff lookahead is on, within its gate, and no second vertex is legal; a rejected child has no completion |
| DecisionSessions.DecisionSession.Descend | exact_solver/decision_session.cpp:1061-1079 | throws exactly when an unplaced neighbour of the candidate has a residual degree of zero, which no healthy session has; otherwise the candidate is consumed, its vertex placed and a fresh frame with its cut on top |
| DecisionSessions.DecisionSession.SafePoint | exact_solver/decision_session.cpp:928-941 | a raised cancellation cancels, a raised yield stops the quantum with the session unresolved, and so may a deadline where there is one; nothing else stops it, and only a controller raises the flags |
| DecisionSessions.DecisionSession.Work | exact_solver/decision_session.cpp:942-1081 | one turn expands at most one node, takes a turn off what is left to do, and ends below the frame it began with or at a frame still to be entered |
| DecisionSessions.DecisionSession.Service | exact_solver/decision_session.cpp:866-1090 | a healthy session never throws; without an exception it keeps the session invariant, forgets no proof, expands at most the budget and exactly the budget when the quantum completes, takes at least one turn off for each node, never touches external regions, leaves a terminal session as it is and honours a cancellation; it reports a deadline only where there is one, a yield or cancellation only if the flag is raised, which only a controller does; so undisturbed it completes the quantum, ends, or waits for external regions |
| DecisionSessions.DecisionSession.DonateUnexploredSibling | exact_solver/decision_session.cpp:788-813 | donates iff some frame is open; the deepest open frame's next candidate moves to the back of the queue and every flag up to that frame is cleared; what is left to do stays the same |
| DecisionSessions.DecisionSession.Detach | exact_solver/decision_session.cpp:788-813 | one detached region more, the candidate appended to the queue as a path with its cut |
| DecisionSessions.DecisionSession.ExtractPendingContinuation | exact_solver/decision_session.cpp:815-829 | hands out the front pending region, iff there is one, as a snapshot from which a session resumes, and remembers it as external; its turns leave the session |
| DecisionSessions.DecisionSession.ResolveExternalFailure | exact_solver/decision_session.cpp:831-841 | accepted iff the session is unresolved and an external region is open or the count exceeds one; closes that region, infeasible exactly when it was the last obligation; the session stays consistent iff it was closed already or an external region was open, since an unmatched report is counted down all the same |
| DecisionSessions.DecisionSession.MarkCertifiedInfeasible | exact_solver/decision_session.cpp:843-856 | accepts iff the local region is all that is left, and then a certified bound makes the session infeasible with its region still counted |
| DecisionSessions.DecisionSession.PublishExternalWitness | exact_solver/decision_session.cpp:858-864 | an unresolved session is solved exactly by an ordering of width at most k; later calls change nothing |
| DecisionSessions.DecisionSession.Cancel | exact_solver/decision_session.cpp:1175-1179 | raises the flag and keeps the invariant |
| DecisionSessions.DecisionSession.RequestYield | exact_solver/decision_session.cpp:1174 | raises the flag and keeps the invariant |
| DecisionSessions.DecisionSession.Snapshot | exact_solver/decision_session.cpp:325-367 | given iff external regions are allowed or none is counted: an open session without external regions, or an infeasible one closed by search or rejoin; refused standalone for every solved or cancelled session and for one closed by certificate; what it saves can be resumed |
| SessionCases.SnapshotAfterSearch | exact_solver/decision_session.cpp:325-340 | a session closed by its own search has no region counted and is granted a standalone snapshot |
| SessionCases.SnapshotAfterCertificate | exact_solver/decision_session.cpp:843-856 | a session closed by a certified bound keeps one region counted and is refused a standalone snapshot, with no external region open |
| DecisionSessions.DecisionSession.Restore | exact_solver/decision_session.cpp:223-307 | every resumable snapshot gives a session with the invariant whose own snapshot is the same again; it is healthy iff no residual degrees are kept, because they are not configured or half the largest degree, rounded up, is within the threshold, or each vertex of the local path had all its neighbours placed before it |
| SessionCases.StrandedSnapshot | exact_solver/decision_session.cpp:223-307 | a session on an edge beside a complete graph of four vertices, threshold one, with residual degrees kept but the bounds not in use, gives a resumable snapshot of two frames that does not meet the condition |
| SessionCases.ReadsZero | exact_solver/decision_session.cpp:480-545 | taken off after the rebuild, the end of the edge has residual degree zero although its neighbour is unplaced |
| SessionCases.ResumedRunThrows | exact_solver/decision_session.cpp:436-515 | restored from it, the session takes the failed vertex off and throws when it goes on to its other candidate |
| DecisionSessions.ReloadedStack | exact_solver/decision_session.cpp:223-307 | saving and loading frames keeps every frame covered, provided no sibling was lost when the flags are reset to complete |
| DecisionSessions.ChildIsResumable | exact_solver/decision_session.cpp:815-829 | an extracted continuation is resumable with its own region as root |
| DecisionSessions.OpenSessionCoversRoot | exact_solver/decision_session.cpp:747-841 | in every reachable unresolved state the region count is pending plus external plus active, and if the root is feasible then some pending, external or active region is |
| DecisionSessions.InfeasibleIsProof | exact_solver/decision_session.cpp:747-841 | after any interleaving of operations, infeasible means no ordering within the threshold extends the root path |
| SessionRuns.ValidIsTruthful | exact_solver/decision_session.cpp:747-864 | in every state the invariant allows: infeasible means that the root has no completion, solved carries a witness, unresolved keeps a feasible obligation whenever the root is feasible |
| SessionRuns.Certify | exact_solver/decision_session.cpp:843-856 | a Lagrangian bound above the threshold on the region root is a certificate the session may be closed with, and the invariant holds either way; it is closed by one exactly when nothing is queued or owned elsewhere |
| SessionRuns.Settle | exact_solver/decision_session.cpp:866-1090 | undisturbed quanta of any size end a healthy session: it has a witness, or has proved its root infeasible, or has nothing left but external regions; there are no more of them than it had turns left |
| SessionRuns.DecideBySession | exact_solver/decision_session.cpp:866-1090 | a fresh session left to itself ends after at most as many quanta as a full tree has turns, solved iff some ordering has width at most k, and then with one |
| SessionRuns.Change | exact_solver/decision_session.cpp:747-864 | a step of one session that opens or closes no external region does what it says, a service takes turns off, a donation queues one region, a witness solves, flags are raised, and keeps the invariant unless it throws, which a healthy session does not; a closed session stays as it is |
| SessionRuns.Restart | exact_solver/decision_session.cpp:223-367 | a session suspended and resumed with any options keeps root, regions, status and path, and is healthy unless residual degrees are kept and its path cannot be unwound to the region root |
| SessionRuns.Controller.Own | exact_solver/decision_session.cpp:815-829 | a new session takes over the snapshot that waits for a region, keeping the invariant of the whole tree |
| SessionRuns.Controller.Report | exact_solver/decision_session.cpp:831-864 | the owner of a region reports: its failure closes the region, its witness solves the parent, and both are true |
| SessionRuns.Controller.Take | exact_solver/decision_session.cpp:178-864 | every step on every session of the tree does what it says and keeps the invariant of the tree, and all sessions healthy unless it restarts one |
| SessionRuns.Controller.Run | exact_solver/decision_session.cpp:178-864 | after every sequence of steps, owners being sessions that work, donate, hand on and are suspended like any other, each session that has not thrown is truthful about its root: infeasible means no completion, solved carries a witness, unresolved keeps a feasible obligation whenever its root is feasible; and none has thrown unless one was restarted |
| SessionRuns.Controller.NothingLost | exact_solver/decision_session.cpp:747-864 | while the root of a session is feasible, it or a session below it in the tree still works on, queues or offers a feasible region, has a witness, or was given up |
| DecisionSessions.DecisionSession.Complete | exact_solver/decision_session.cpp:944-957 | a full path is a valid witness and solves the session; the source's own check of it never fails |
| DecisionSessions.DecisionSession.CancelNow | exact_solver/decision_session.cpp:928-933 | cancelling leaves nothing but the status changed |
| ParallelSearch.SameKeySamePair | exact_solver/decision.cpp:1578-1618 | two frontier keys are equal iff they name the same unordered pair |
| ParallelSearch.FindRoots | exact_solver/decision.cpp:1565-1577 | the roots are exactly the legal first vertices |
| ParallelSearch.CollectTasks | exact_solver/decision.cpp:1578-1618 | every legal second vertex of every root is covered by a task with its pair and true cut, each pair once |
| ParallelSearch.FrontierCovers | exact_solver/decision.cpp:1565-1619 | if any ordering is within the threshold, the pair of some task is a feasible prefix, although twins are filtered and pairs deduplicated |
| ParallelSearch.BuildFrontier | exact_solver/decision.cpp:1565-1626 | answers small and refuted cases correctly and otherwise gives a covering frontier of valid tasks, by cut as configured, then by first and second vertex |
| ParallelSearch.FrontierRun.constructor | exact_solver/decision.cpp:1628-1660 | starts min(threads, tasks) workers, nothing started |
| ParallelSearch.FrontierRun.Step | exact_solver/decision.cpp:1659-1709 | any worker may move at any time and goes exactly where its state, the stop flag and the shared counter send it; the invariant holds, no other worker moves, a published witness stays, and one access is taken off those that can still be made |
| ParallelSearch.FrontierRun.Claim | exact_solver/decision.cpp:1659-1709 | the shared counter hands every task to one worker only |
| ParallelSearch.FrontierRun.Start | exact_solver/decision.cpp:1659-1709 | a claimed task is started once, by its worker alone, or a limited run times out |
| ParallelSearch.FrontierRun.Search | exact_solver/decision.cpp:1659-1709 | the subtree is searched while other workers move; a refutation is true of its pair, and it is left undecided only in a limited run or when stop was raised; a refutation is published unless the cache has no room |
| ParallelSearch.FrontierRun.Report | exact_solver/decision.cpp:1659-1709 | a decided task is counted once as completed, a refuted one as refuted |
| ParallelSearch.FrontierRun.Publish | exact_solver/decision.cpp:1659-1709 | only the first witness is kept |
| ParallelSearch.AllRefuted | exact_solver/decision.cpp:1736-1744 | when all workers left without stop or timeout, started, completed and refuted tasks are all tasks, so nothing is feasible |
| ParallelSearch.FrontierRun.Run | exact_solver/decision.cpp:1659-1709 | every schedule of worker steps keeps the invariant |
| ParallelSearch.FrontierRun.Finish | exact_solver/decision.cpp:1659-1709 | a run in which some worker always moves ends with all of them gone, after no more accesses than there were |
| ParallelSearch.FrontierRun.Combine | exact_solver/decision.cpp:1736-1744 | infeasible means every task was started and completed once and no ordering exists; feasible carries a valid witness; unresolved only in a limited run |
| ParallelSearch.DecideParallel | exact_solver/decision.cpp:1565-1760 | the whole parallel decision ends, with a witness or a proof that there is none, and undecided only in a limited run |
| ParallelSearch.CollectRow | exact_solver/decision.cpp:1592-1614 | after a row every legal second vertex of this root has its pair among the keys |
| ParallelSearch.FrontierRun.CheckStop | exact_solver/decision.cpp:1659-1709 | a worker leaves iff stop was raised, else goes on to claim |
| ParallelSearch.FrontierRun.TimeOut | exact_solver/decision.cpp:1659-1709 | only a limited run times out, and the flag stays |
| ParallelSearch.FrontierRun.RaiseStop | exact_solver/decision.cpp:1659-1709 | stop is raised and the worker leaves or loops |
| WordSearch.WordTwinTest | exact_solver/decision.cpp:239-250 | the two mask comparisons together hold iff the vertices are twins |
| WordSearch.BuildWordTwins | exact_solver/decision.cpp:239-250 | the table lists exactly the earlier twins when enabled |
| WordSearch.CoveredDone | exact_solver/decision.cpp:449-477 | a list that omits only illegal or refuted children still proves failure when all its members fail |
| WordSearch.SelectionSort | exact_solver/decision.cpp:435-448 | the in-place selection leaves a sorted rearrangement of the same candidates |
| WordSearch.GainIsRise | exact_solver/decision.cpp:404-420 | the kept gain is the rise of the cut |
| WordSearch.EnumerateBuckets | exact_solver/decision.cpp:404-420 | walking the gain buckets yields the complete legal list already sorted, without comparing candidates |
| WordSearch.HasLegalNext | exact_solver/decision.cpp:298-314 | yes only with a legal next vertex, no only without one |
| WordSearch.Search64.Record | exact_solver/decision.cpp:290-292 | publishes a true failure: the cache proves it afterwards unless it has no room, and stays truthful |
| WordSearch.Search64.RecordThrough | exact_solver/decision.cpp:293-297 | publishes a failure through a larger threshold, falling back to the decided one: the cache proves the larger one afterwards unless it has no room |
| WordSearch.Search64.MemoRefutes | exact_solver/decision.cpp:327-337 | refutes only by an exact horizon above the threshold, publishing the failure up to just below it; in an unlimited run the value is the exact horizon and it refutes iff that exceeds the threshold |
| WordSearch.Search64.Prune | exact_solver/decision.cpp:315-369 | every prune is a true failure, published; in an unlimited run it prunes iff cache, horizon within its gate, or residual degree prove it where enabled, with kept or recomputed node state |
| WordSearch.Search64.DegreeRefutes | exact_solver/decision.cpp:361-369 | refutes iff some unplaced vertex is too crowded, which is a true failure and is published, with kept or recomputed node state |
| WordSearch.Search64.ScanLegal | exact_solver/decision.cpp:422-426 | the complete legal list |
| WordSearch.Search64.ScanRated | exact_solver/decision.cpp:382-403 | omits only illegal children and children the horizon memo refuted; each child is rated by its exact horizon unless a limited run was interrupted |
| WordSearch.SortRated | exact_solver/decision.cpp:428-434 | sorted by rating, the same rated children |
| WordSearch.Search64.ListChildren | exact_solver/decision.cpp:378-449 | omits only failing children; in cut order all enumerations give the one complete list, by cut and then by vertex; in memo order the children come by their ratings |
| WordSearch.Search64.LookaheadRefuses | exact_solver/decision.cpp:455-464 | refuses iff lookahead applies and no next vertex is legal; a refused child has no completion |
| WordSearch.Search64.Dfs | exact_solver/decision.cpp:315-477 | failed means no completion, and the failure is published unless the cache has no room; found an ordering of width at most k extending the path; timed out only in a limited run; at most the nodes of the pruned tree are expanded, exactly those by a failed search in cut order without cache and memo, and at most one below a prefix that the cache, or in an unlimited run the memo, refutes; path and pushed state are restored, cache and memo stay truthful and nothing is forgotten |
| WordSearch.Search64.TryChildren | exact_solver/decision.cpp:449-477 | the same for the loop over children, of which exactly those are searched that the lookahead does not refuse |
| WordSearch.Search64.Descend | exact_solver/decision.cpp:465-473 | pushing, searching and popping restores the state and answers for the child |
| WordSearch.DecideWord | exact_solver/decision.cpp:262-283 | without a limit it decides, with a witness or a proof that there is none |
| WordSearch.WordRoots | exact_solver/decision.cpp:1411-1427 | each legal first vertex once, in order |
| WordSearch.RootsCover | exact_solver/decision.cpp:1402-1430 | if every root fails, no ordering is within the threshold |
| WordSearch.VisitBucket | exact_solver/decision.cpp:406-412 | one bucket's legal vertices are appended in the overall order |
| WordSearch.BestFrom | exact_solver/decision.cpp:439-446 | no later candidate precedes the chosen one |
| WordSearch.Search64.constructor | exact_solver/decision.cpp:222-261 | starts at the given path with node state built and the twin table that the options ask for |
| WordSearch.Search64.CacheHit | exact_solver/decision.cpp:319-322 | hits iff the cache proves it, and a hit is a true failure |
| WordSearch.Search64.PlacedBefore | exact_solver/decision.cpp:384 | kept or recounted, the count of placed neighbours is exact |
| WordSearch.Search64.RateChild | exact_solver/decision.cpp:389-399 | a child refuted by its horizon has no completion, which is published up to just below the horizon; in an unlimited run the rating is the exact horizon |
| WordSearch.SearchFrom | exact_solver/decision.cpp:262-283 | from any path within the threshold, a refutation, witness or timeout as for the whole search |
| WordSearch.HasEarlierTwin | exact_solver/decision.cpp:1413-1424 | blocked iff some earlier vertex is a twin |
| WordSearch.Search64.Expired | exact_solver/decision.cpp:286-289 | only a limited run expires |
| QuadraticForms.FormStep | exact_solver/clarabel_sdp_adapter.cpp:263-281 | a symmetric form splits into its first square, the mixed term and the form on the later rows |
| Determinants.DetLinear | exact_solver/clarabel_sdp_adapter.cpp:263-281 | the determinant is linear in every row |
| Determinants.SwapNegates | exact_solver/clarabel_sdp_adapter.cpp:263-281 | exchanging neighbouring rows negates it |
| Determinants.Condensation | exact_solver/clarabel_sdp_adapter.cpp:263-281 | eliminating the first column with the first row multiplies the determinant by the power of the pivot that goes with the size |
| Bareiss.StepKeepsDivisible | exact_solver/clarabel_sdp_adapter.cpp:263-281 | one elimination step makes every minor of the rows left divisible by the power of its pivot one below the size of the minor |
| Bareiss.DivisibleIsExact | exact_solver/clarabel_sdp_adapter.cpp:268-276 | so every division of the next step is exact |
| Bareiss.PivotIdentity | exact_solver/clarabel_sdp_adapter.cpp:263-281 | pivot times the form equals the square of the pivot row plus previous pivot times the eliminated form |
| Bareiss.PivotForward | exact_solver/clarabel_sdp_adapter.cpp:263-281 | with a positive pivot, definiteness of the eliminated rows gives definiteness |
| Bareiss.PivotBackward | exact_solver/clarabel_sdp_adapter.cpp:263-281 | and conversely, by lifting every vector of the eliminated rows |
| Bareiss.EliminateBelow | exact_solver/clarabel_sdp_adapter.cpp:266-278 | one in-place sweep succeeds iff every division is exact and then leaves the eliminated matrix |
| Bareiss.StrictlyPositiveDefinite | exact_solver/clarabel_sdp_adapter.cpp:256-281 | refuses exactly ill-shaped input, and otherwise returns the verdict of the elimination sequence |
| Bareiss.TestDecidesDefiniteness | exact_solver/clarabel_sdp_adapter.cpp:256-281 | for every symmetric matrix and shift a verdict is returned, and it is yes iff the shifted form is positive on every nonzero integer vector |
| Bareiss.LoadShifted | exact_solver/clarabel_sdp_adapter.cpp:259-263 | copies iff the rows are all as long as the matrix is high, the shift added to the diagonal alone |
| StrictShifts.ShiftMonotone | exact_solver/clarabel_sdp_adapter.cpp:283-309 | a larger shift keeps definiteness |
| StrictShifts.DominantShift | exact_solver/clarabel_sdp_adapter.cpp:283-309 | positive row margins imply definiteness, which makes the upper end of the search definite |
| StrictShifts.MinimumStrictShift | exact_solver/clarabel_sdp_adapter.cpp:283-309 | a returned shift is the least nonnegative one with a definite form; for symmetric input none is returned iff the matrix is empty |
| StrictShifts.RowMargin | exact_solver/clarabel_sdp_adapter.cpp:287-290 | the diagonal less the absolute off-diagonal row sum |
| CutForms.CutIsSum | exact_solver/clarabel_sdp_adapter.cpp:205-250 | the vertex-wise sum of outgoing edges is the cut |
| CutForms.ComplementCut | exact_solver/clarabel_sdp_adapter.cpp:205-250 | a set and its complement have the same cut |
| CutForms.SignTotal | exact_solver/clarabel_sdp_adapter.cpp:205-250 | the signs of a set sum to twice its size minus the graph's |
| CutForms.BaseForm | exact_solver/clarabel_sdp_adapter.cpp:205-250 | on the sign vector of any set the slack form is the scaled cut minus the dual objective |
| BisectionCertificates.NonnegativeCeiling | exact_solver/clarabel_sdp_adapter.cpp:195-201 | the least nonnegative integer not below the quotient, or none iff it needs more than 32 bits |
| BisectionCertificates.PowersOfTwo | exact_solver/clarabel_sdp_adapter.cpp:323 | the denominators are powers of two |
| BisectionCertificates.TriangleInequality | exact_solver/clarabel_sdp_adapter.cpp:224-248 | every triangle term is at least minus one on sign vectors |
| BisectionCertificates.TrianglesLower | exact_solver/clarabel_sdp_adapter.cpp:224-248 | the triangle multipliers raise the form by at most their sum on every sign vector |
| BisectionCertificates.ProvedLower | exact_solver/clarabel_sdp_adapter.cpp:405-422 | either proof kind bounds the form below by minus the diagonal repairs |
| BisectionCertificates.BuildSlack | exact_solver/clarabel_sdp_adapter.cpp:205-250 | the filled matrix is the specified slack, triangles included |
| BisectionCertificates.VerifyBisection | exact_solver/clarabel_sdp_adapter.cpp:383-434 | accepts exactly the certificates meeting every listed condition |
| BisectionCertificates.CertificateSound | exact_solver/clarabel_sdp_adapter.cpp:383-434 | every vertex set of the certified cardinality has a cut of at least the certified bound |
| BisectionCertificates.ChooseRepairs | exact_solver/clarabel_sdp_adapter.cpp:354-366 | the repairs are nonnegative and prove the slack under the kind chosen; for a symmetric slack they are always the least strict shift |
| BisectionCertificates.RecoverBisection | exact_solver/clarabel_sdp_adapter.cpp:312-381 | yields a certificate iff the input is usable and the bound representable; for usable input every multiplier is kept in its place, those of triangles doubled, the slack is repaired by the least strict shift, and the objective is what they sum up to; every certificate it yields is accepted by verify |
| BisectionCertificates.TrivialBisection | exact_solver/clarabel_sdp_adapter.cpp:312-381 | multipliers that are all zero yield a valid certificate of bound zero for every graph of two or more vertices, proper cardinality and precision from 2 to 50 bits |
| BisectionCertificates.BuildBase | exact_solver/clarabel_sdp_adapter.cpp:205-223 | the filled matrix is the specified slack before triangles |
| BisectionCertificates.CheckRows | exact_solver/clarabel_sdp_adapter.cpp:405-413 | accepts iff every row is diagonally dominant with its repair |
| BisectionCertificates.CheckShift | exact_solver/clarabel_sdp_adapter.cpp:414-419 | accepts iff all repairs are equal and the test finds that shift definite |
| BisectionCertificates.ComputeObjective | exact_solver/clarabel_sdp_adapter.cpp:423-430 | the accumulated objective is the cardinality term plus all duals less all repairs and triangle multipliers |
| BisectionCertificates.QuantiseAll | exact_solver/clarabel_sdp_adapter.cpp:312-334 | succeeds iff every entry could be quantised, keeping each |
| WeightedCertificates.BuildWeightedSlack | exact_solver/clarabel_sdp_adapter.cpp:767-792 | the filled bordered matrix is the specified slack |
| WeightedCertificates.WeightedForm | exact_solver/clarabel_sdp_adapter.cpp:767-792 | on the bordered sign vector the form is the scaled cut plus outside weight minus the dual terms, with the linear numerator halved as the code halves it |
| WeightedCertificates.VerifyWeighted | exact_solver/clarabel_sdp_adapter.cpp:857-898 | accepts exactly the certificates meeting every listed condition |
| WeightedCertificates.WeightedCertificateSound | exact_solver/clarabel_sdp_adapter.cpp:857-898 | with an even linear numerator every set of that cardinality has cut plus outside boundary weight of at least the bound |
| WeightedCertificates.SoundIffEven | exact_solver/clarabel_sdp_adapter.cpp:857-898 | acceptance implies the bound for all graphs and certificates with a given linear numerator iff that numerator is even; each odd one has an accepted false certificate |
| WeightedCertificates.RecoverWeighted | exact_solver/clarabel_sdp_adapter.cpp:795-855 | yields a certificate iff usable and representable; for usable input every multiplier is kept, the linear one doubled, the slack is repaired by the least strict shift, and the objective is what they sum up to; every certificate it yields is accepted, and its bound holds |
| WeightedCertificates.TrivialWeighted | exact_solver/clarabel_sdp_adapter.cpp:795-855 | multipliers that are all zero yield a valid certificate of bound zero for all boundary weights |
| WeightedCertificates.SumBoundary | exact_solver/clarabel_sdp_adapter.cpp:774-775 | the total boundary weight |
| WeightedCertificates.ComputeWeightedObjective | exact_solver/clarabel_sdp_adapter.cpp:889-894 | the accumulated objective is the specified one |
| FlowNetworks.ValueCrosses | exact_solver/lagrangian_bound.cpp:30-39 | a conserved flow carries its whole value across every vertex set separating source and sink |
| FlowNetworks.FlowWithinCut | exact_solver/lagrangian_bound.cpp:30-39 | weak duality: no conserved flow exceeds any cut |
| FlowNetworks.PushKeepsRepresentation | exact_solver/lagrangian_bound.cpp:70-71 | pushing along an entry and pulling along its reverse keeps flow antisymmetric and within capacity |
| FlowNetworks.PushMovesFlow | exact_solver/lagrangian_bound.cpp:70-71 | a push changes the net outflow of its two ends and of no other node |
| DinicFlow.AddKeepsRepresentation | exact_solver/lagrangian_bound.cpp:24-28 | adding the pair of entries keeps forward and reverse indices matched |
| DinicFlow.Dinic.AddEdge | exact_solver/lagrangian_bound.cpp:24-28 | adds exactly one empty arc, or nothing for a capacity that is not positive |
| DinicFlow.LayersReach | exact_solver/lagrangian_bound.cpp:42-59 | a layered search leaves the source with a path over strictly rising levels to every node that can still reach the sink |
| DinicFlow.LayersSaturate | exact_solver/lagrangian_bound.cpp:42-59 | the nodes a search reached form a saturated cut |
| DinicFlow.Dinic.Bfs | exact_solver/lagrangian_bound.cpp:42-59 | levels are a layering of the residual graph, no residual entry leading up more than one, and the answer says whether the sink has one |
| DinicFlow.Dinic.Dfs | exact_solver/lagrangian_bound.cpp:61-75 | moves exactly the returned amount from node to sink within capacity, frees only entries that lead down, and keeps the advanced pointers truthful; zero means that no path over rising levels is left |
| DinicFlow.ReachShrinks | exact_solver/lagrangian_bound.cpp:61-75 | what cannot reach the sink over rising levels cannot after further pushes |
| DinicFlow.Dinic.Phase | exact_solver/lagrangian_bound.cpp:32-37 | a phase sends some flow within the source cut and ends with a blocking flow: no path of the level graph is left |
| DinicFlow.LevelsNeverFall | exact_solver/lagrangian_bound.cpp:30-39 | it gives no reached node a lower one |
| DinicFlow.BlockingRaisesSink | exact_solver/lagrangian_bound.cpp:30-39 | after a blocking flow the next search gives the sink a higher level |
| DinicFlow.Dinic.MaxFlow | exact_solver/lagrangian_bound.cpp:30-39 | ends, after fewer phases than nodes, with a conserved flow whose value is the capacity of the cut reached by the last search and at most every cut: a maximum flow |
| DinicFlow.Dinic.constructor | exact_solver/lagrangian_bound.cpp:21-22 | a network without arcs |
| DinicFlow.Dinic.Expand | exact_solver/lagrangian_bound.cpp:49-57 | expanding the queue head keeps the layering and marks every residual successor of it |
| DinicFlow.Dinic.Through | exact_solver/lagrangian_bound.cpp:65-72 | pushes through one admissible entry, or proves it dead |
| DinicFlow.Dinic.Augment | exact_solver/lagrangian_bound.cpp:70-71 | raises the entry and lowers its reverse by the same amount, moving that much net flow between its ends only and freeing only an entry that leads down |
| LagrangianBounds.CeilDivIsLeast | exact_solver/lagrangian_bound.cpp:129-137 | the truncating-division ceiling is the least integer whose product is not below the numerator, for negative numerators too |
| LagrangianBounds.ResidualVertices | exact_solver/lagrangian_bound.cpp:178-190 | lists the unplaced vertices once each in increasing order |
| LagrangianBounds.PlacedNeighbours | exact_solver/lagrangian_bound.cpp:253-264 | counts for each of them its placed neighbours |
| LagrangianBounds.CutSplits | exact_solver/lagrangian_bound.cpp:162-175 | the cut of prefix plus T is the residual cut of T plus the prefix edges to what stays outside |
| LagrangianBounds.Reduction | exact_solver/lagrangian_bound.cpp:298-375 | for every T the scaled constant plus negative weights plus the network cut of T is the scaled cut plus multiplier times the size defect |
| LagrangianBounds.AddResidualArcs | exact_solver/lagrangian_bound.cpp:325-333 | the arcs between residual nodes cut exactly the scaled residual cut |
| LagrangianBounds.AddTerminalArcs | exact_solver/lagrangian_bound.cpp:335-380 | with the terminal arcs every node set cuts exactly the residual cut plus the weights on its wrong side; an overflow is reported iff a weight or the folded constant leaves 64 bits or a terminal sum reaches a quarter of that range |
| LagrangianBounds.PointBounds | exact_solver/lagrangian_bound.cpp:382-399 | the value of a point bounds the cut with every residual set of its cardinality from below |
| LagrangianBounds.CutIsLeast | exact_solver/lagrangian_bound.cpp:382-390 | constant and minimum cut together are the least Lagrangian of all residual sets: below each of them and attained by the set read off the cut |
| LagrangianBounds.PointValueIsUnique | exact_solver/lagrangian_bound.cpp:290-399 | a grid point has one value: the least Lagrangian rounded up, or none where a number does not fit |
| LagrangianBounds.EvaluatePoint | exact_solver/lagrangian_bound.cpp:290-399 | yields the least Lagrangian over all residual sets rounded up, or nothing iff one of the listed intermediate numbers or the result does not fit |
| LagrangianBounds.OrdinaryFits | exact_solver/lagrangian_bound.cpp:286-377 | every intermediate number of a point fits for at most 32768 residual vertices and placed degrees, denominators up to 2 to the 20 and numerators up to 2 to the 40 |
| LagrangianBounds.OrdinaryValue | exact_solver/lagrangian_bound.cpp:286-404 | such a point has a value in a graph of at most 32768 vertices |
| LagrangianBounds.NothingBeyondFits | exact_solver/lagrangian_bound.cpp:286-317 | no point fits whose denominator reaches a quarter of the 64-bit range or whose multiplier times the cardinality leaves it |
| LagrangianBounds.Cardinalities | exact_solver/lagrangian_bound.cpp:211-228 | exactly the proper residual cardinalities in increasing order, or the selected ones among them in the order given |
| LagrangianBounds.GridMembers | exact_solver/lagrangian_bound.cpp:211-228 | a cardinality is scanned iff it is proper and, where some are selected, among them |
| LagrangianBounds.Numerators | exact_solver/lagrangian_bound.cpp:231-250 | the given numerators, or every one from minus to plus the limit; none iff the limit overflows or is too large |
| LagrangianBounds.DefaultNumerators | exact_solver/lagrangian_bound.cpp:231-248 | by default every numerator from minus to plus denominator times largest degree is scanned, in order, and more than 200001 of them are refused |
| LagrangianBounds.Evaluate | exact_solver/lagrangian_bound.cpp:162-415 | the certified bound is the best value over the scanned grid, at most the cut of prefix plus T for every residual T of the best cardinality; ineligible exactly for the listed inputs and then zero; in a graph of at most 32768 vertices with a denominator up to 2 to the 20 and given or default numerators up to 2 to the 40 no point is skipped |
| LagrangianBounds.CompletionPasses | exact_solver/lagrangian_bound.cpp:175-177 | every completion passes a set of each residual cardinality within the threshold |
| LagrangianBounds.CertifiedBoundPrunes | exact_solver/lagrangian_bound.cpp:162-415 | a certified bound above the threshold rules out every completion of the prefix |
| LagrangianBounds.SolvePoint | exact_solver/lagrangian_bound.cpp:322-399 | from the scaled constant on, the least Lagrangian over all residual sets rounded up, or nothing iff the arcs or the result do not fit |
| LagrangianBounds.RoundBound | exact_solver/lagrangian_bound.cpp:391-399 | the least natural number whose multiple reaches the total; nothing iff the total leaves 64 bits or that number 32 |
| LagrangianBounds.Scan | exact_solver/lagrangian_bound.cpp:286-412 | the points are evaluated row by row up to the first value above the threshold; the telemetry counts them, keeps the first of the best values with its point, and reports an overflow iff a point was skipped |
| SegmentedCaches.FilledOk | exact_solver/decision_cache.cpp:402-429 | inserting at a free slot keeps the segment: table, fingerprints, Bloom bits, depth sum and maximum |
| SegmentedCaches.FilterIsComplete | exact_solver/decision_cache.cpp:180-199 | a key the Bloom filter denies is not in the segment |
| SegmentedCaches.Find | exact_solver/decision_cache.cpp:161-178 | probing by fingerprint ends at the key iff it is stored, else at a free slot of its path |
| SegmentedCaches.StoreClear | exact_solver/decision_cache.cpp:270-280 | clearing a segment removes exactly its keys from the retained set |
| SegmentedCaches.StoreSwap | exact_solver/decision_cache.cpp:323-324 | swapping segments keeps the retained set and its partition |
| SegmentedCaches.DistinctPages | exact_solver/decision_cache.cpp:297-301 | one revolution of the hand visits no page twice |
| SegmentedCaches.SegmentedCache.constructor | exact_solver/decision_cache.cpp:131-142 | starts with nothing retained |
| SegmentedCaches.SegmentedCache.AddSegment | exact_solver/decision_cache.cpp:229-250 | appends one empty segment of at least the initial capacity or changes nothing; the retained set stays |
| SegmentedCaches.SegmentedCache.EnsureCapacity | exact_solver/decision_cache.cpp:252-268 | succeeds iff the last segment has room or one more fits, and then the last segment is below its load limit, so probing ends; otherwise nothing changes |
| SegmentedCaches.SegmentedCache.UnlimitedHasRoom | exact_solver/decision_cache.cpp:201-262 | a cache without entry and memory limit always has room |
| SegmentedCaches.SegmentedCache.NextIsBinary | exact_solver/decision_cache.cpp:229-262 | the next segment has sixteen slots, or twice the last one, or under generational replacement at most the page capacity; always a power of two |
| SegmentedCaches.SegmentedCache.KeptWhileItFits | exact_solver/decision_cache.cpp:201-262 | a new key is kept as long as the entry limit allows one more and the next segment, by its number of slots, fits in the memory left |
| SegmentedCaches.SegmentedCache.UsedBytesBound | exact_solver/decision_cache.cpp:201-227 | the memory in use is at most so many bytes for each slot and segment |
| SegmentedCaches.SevenTenths | exact_solver/decision_cache.cpp:619-624 | a table is below its load limit iff at most seven tenths of its slots are taken |
| SegmentedCaches.SegmentedCache.ProvesFailed | exact_solver/decision_cache.cpp:330-356 | hits iff the key was recorded and not evicted since: no false negative from filter, fingerprint or probing, no false positive; under generational replacement the page of the key is then marked referenced, and nothing else moves |
| SegmentedCaches.SegmentedCache.ChooseVictim | exact_solver/decision_cache.cpp:289-314 | finds a victim iff some filled page of the largest capacity is unreferenced; the victim is the one of least mean depth among the first sampled such pages from the hand; the hand has moved past exactly the pages looked at, those of the largest capacity losing their mark and no others; without a victim it has made a full turn |
| SegmentedCaches.SegmentedCache.VictimOfFour | exact_solver/decision_cache.cpp:289-314 | of the first four cold pages under the hand, or all if there are fewer, the victim has the least mean depth, and is the first of that depth |
| SegmentedCaches.SegmentedCache.RecyclePage | exact_solver/decision_cache.cpp:282-328 | recycles iff some filled page of the largest capacity is unreferenced, evicting exactly the chosen page; a sweep that finds none leaves one for the next; the clock hand is restorable afterwards iff such a page existed, or no page held keys and the hand was restorable before |
| SegmentedCaches.FullTurn | exact_solver/decision_cache.cpp:289-314 | when a full turn of the hand meets no victim, no page of the largest capacity was unreferenced |
| SegmentedCaches.HotPage | exact_solver/decision_cache.cpp:358-429 | one insertion under the generational clock fills the only page allowed, referenced |
| SegmentedCaches.StrandedHand | exact_solver/decision_cache.cpp:282-328 | a cache reached by one insertion, whose only page is referenced, is not restorable after the next insertion |
| SegmentedCaches.SegmentedCache.Evict | exact_solver/decision_cache.cpp:316-324 | the retained set loses exactly the page's keys and the emptied page comes last |
| SegmentedCaches.SegmentedCache.RecordFailed | exact_solver/decision_cache.cpp:358-429 | a retained key only has its page marked; a new one is kept iff the policy and the pages accept it, evicting one page exactly when there was no room; freezing never evicts; inserts stay entries plus evictions |
| SegmentedCaches.SegmentedCache.InsertLast | exact_solver/decision_cache.cpp:402-429 | adds exactly the new key, stored once across all segments |
| SegmentedCaches.SegmentedCache.Locate | exact_solver/decision_cache.cpp:342-354 | finds a segment holding the key iff it is retained |
| SegmentedCaches.SegmentedCache.LargestPage | exact_solver/decision_cache.cpp:284-287 | the largest capacity among filled pages, attained when positive |
| FiniteHorizons.HorizonUnique | exact_solver/node_memo.cpp:102-134 | a prefix and depth have only one horizon value |
| FiniteHorizons.FeasibleIsBounded | exact_solver/node_memo.cpp:102-134 | a feasible prefix is bounded by the threshold at every depth |
| FiniteHorizons.FullHorizonIsExact | exact_solver/node_memo.cpp:102-134 | at a depth reaching the end, bounded and feasible are the same |
| FiniteHorizons.LongerHorizonDominates | exact_solver/node_memo.cpp:45-48 | the horizon value never falls with depth |
| FiniteHorizons.HorizonRefutes | exact_solver/decision.cpp:327-337 | a threshold below the horizon value is infeasible |
| FiniteHorizons.Recurrence | exact_solver/node_memo.cpp:116-133 | the larger of the cut and the least child value is the horizon value |
| FiniteHorizons.NodeMemoTable.constructor | exact_solver/node_memo.cpp:16-30 | splits the capacity evenly into that many shards, none empty, nothing held |
| FiniteHorizons.NodeMemoTable.Find | exact_solver/node_memo.cpp:36-51 | returns what is held for exactly this prefix and depth, an exact value, and nothing only if no such entry is held |
| FiniteHorizons.NodeMemoTable.Store | exact_solver/node_memo.cpp:53-69 | holds the value unless a deeper one of at least its bound is held for the prefix; evicts only prefixes sharing the slot |
| FiniteHorizons.FiniteHorizonOracle.Evaluate | exact_solver/node_memo.cpp:102-134 | rejects exactly depths above four and bad prefixes; complete results are the exact unmemoised value despite overwriting and collisions, and are held by a memo with any room, for this depth or a larger one; incomplete only when interruptible, and then the cut |
| FiniteHorizons.FiniteHorizonOracle.Compute | exact_solver/node_memo.cpp:116-133 | the same for the recursion |
| FiniteHorizons.ResultIsLowerBound | exact_solver/node_memo.cpp:102-134 | complete or not, the bound is at most the width of every completion |
| SubsetDp.PartialDone | exact_solver/oracle.cpp:46-58 | after all last vertices were tried the entry is the best building width of its set |
| SubsetDp.FillTables | exact_solver/oracle.cpp:41-59 | every mask's entry is the best width of building its set and its parent attains it |
| SubsetDp.Reconstruct | exact_solver/oracle.cpp:61-70 | following parents backwards gives an ordering within the best width |
| SubsetDp.OrderingBuilds | exact_solver/oracle.cpp:23-27 | every ordering builds the full set within its width |
| SubsetDp.Solve | exact_solver/oracle.cpp:36-71 | refuses exactly above the size limit, otherwise returns an ordering of the returned width, which is least over all orderings |
| SubsetDp.FillEntry | exact_solver/oracle.cpp:45-58 | the entry is the best width of building its set and its last vertex attains it |
| IncrementalLayouts.MoveIsLocal | exact_solver/incremental_layout.cpp:9-21 | swap, insertion and reversal permute only the closed interval between the two positions |
| IncrementalLayouts.SwapMoves | exact_solver/incremental_layout.cpp:11 | a swap exchanges two positions and leaves every other one alone |
| IncrementalLayouts.InsertionMoves | exact_solver/incremental_layout.cpp:12-16 | an insertion brings the vertex of the first position to the second, those between moving one place towards the first, and leaves the rest alone |
| IncrementalLayouts.ReversalMoves | exact_solver/incremental_layout.cpp:17-21 | a reversal mirrors the interval between the two positions, in whichever order they are given, and leaves the rest alone |
| IncrementalLayouts.MoveKeepsOrdering | exact_solver/incremental_layout.cpp:9-21 | every move keeps the order a permutation |
| IncrementalLayouts.PrefixCutStep | exact_solver/incremental_layout.cpp:74-90 | the running crossing number is the prefix cut |
| IncrementalLayouts.CountBefore | exact_solver/incremental_layout.cpp:77-87 | the position table counts exactly the earlier neighbours |
| IncrementalLayouts.LargestIsWidth | exact_solver/incremental_layout.cpp:50-54 | the largest kept cut is the width of the order |
| IncrementalLayouts.CountCuts | exact_solver/incremental_layout.cpp:50-54 | the histogram counts every cut value exactly |
| IncrementalLayouts.IncrementalLayoutEvaluator.constructor | exact_solver/incremental_layout.cpp:24-44 | positions, cuts, width and histogram all belong to the given order |
| IncrementalLayouts.IncrementalLayoutEvaluator.Evaluate | exact_solver/incremental_layout.cpp:62-93 | refuses exactly positions out of range; otherwise every prefix cut of the moved order, though only the interval is recomputed |
| IncrementalLayouts.IncrementalLayoutEvaluator.Apply | exact_solver/incremental_layout.cpp:95-101 | moves the order position by position as the move says and leaves positions, cuts, width and histogram equal to full recomputation |
| IncrementalLayouts.RunMoves | exact_solver/incremental_layout.cpp:95-101 | after every sequence of moves all derived state belongs to the moved order |
| IncrementalLayouts.PositionTable | exact_solver/incremental_layout.cpp:71-73 | the table is the inverse of the order |
| IncrementalLayouts.IncrementalLayoutEvaluator.Interval | exact_solver/incremental_layout.cpp:74-91 | inside the interval every entry is the true prefix cut, outside nothing changes |
| Texts.IntegersRoundTrip | exact_solver/checkpoint.cpp:35-44 | a text parses to n iff n is below the limit and the text is its canonical decimal |
| Texts.WrittenListIsRead | exact_solver/checkpoint.cpp:61-96 | a non-empty list written with commas is read back, for every invertible item format |
| Texts.ReadListIsWritten | exact_solver/checkpoint.cpp:61-96 | a text that is read is the writing of what was read |
| Texts.LengthPrefixRoundTrips | exact_solver/checkpoint.cpp:46-59 | a length-prefixed printable value is read back even if it contains separators |
| Checkpoints.Validate | exact_solver/checkpoint.cpp:110-148 | accepts exactly the valid checkpoints |
| Checkpoints.HashLimits | exact_solver/checkpoint.cpp:111-122 | a hash is one to 4096 characters from the exclamation mark to the tilde |
| Checkpoints.ThresholdsAgree | exact_solver/checkpoint.cpp:128-147 | accepts iff thresholds strictly rise and each agrees with the known bounds |
| Checkpoints.InfeasibleBelowFeasible | exact_solver/checkpoint.cpp:128-147 | in a valid checkpoint every infeasible threshold lies below every feasible one |
| Checkpoints.Serialize | exact_solver/checkpoint.cpp:150-176 | refuses exactly invalid checkpoints, otherwise writes the encoding |
| Checkpoints.OrderingRoundTrips | exact_solver/checkpoint.cpp:61-72 | a text reads as an ordering iff it is that ordering's text |
| Checkpoints.ThresholdsRoundTrip | exact_solver/checkpoint.cpp:74-96 | a text reads as a threshold list iff it is that list's text |
| Checkpoints.ParseOrdering | exact_solver/checkpoint.cpp:61-72 | the consuming loop computes the reading |
| Checkpoints.ParseThresholds | exact_solver/checkpoint.cpp:74-96 | the consuming loop computes the reading |
| Checkpoints.LinesAreRead | exact_solver/checkpoint.cpp:178-217 | from any field on, the written lines fill in exactly the remaining fields |
| Checkpoints.EncodingIsInjective | exact_solver/checkpoint.cpp:150-217 | distinct valid checkpoints have distinct encodings |
| Checkpoints.SmallText | exact_solver/checkpoint.cpp:150-178 | the text of one small checkpoint, letter by letter |
| Checkpoints.ParseCheckpoint | exact_solver/checkpoint.cpp:178-217 | accepts exactly the encodings of valid checkpoints and returns the one encoded: parsing undoes serialising, and nothing else is accepted |
| Checkpoints.IsPrintableText | exact_solver/checkpoint.cpp:118-121 | accepts exactly printable text |
| Checkpoints.WriteOrdering | exact_solver/checkpoint.cpp:163-166 | writes the ordering's text |
| Checkpoints.WriteThresholds | exact_solver/checkpoint.cpp:168-173 | writes the threshold list's text |
| RoundRobins.RoundRobinIsUnique | exact_solver/global_dfs_executor.cpp:194-226 | equal permit counts have only one round-robin arrangement |
| RoundRobins.NoStarvation | exact_solver/global_dfs_executor.cpp:194-226 | while an epoch still waits, no other epoch is served more than once more than it |
| RoundRobins.Rebuild | exact_solver/global_dfs_executor.cpp:194-226 | the new queue holds exactly the old permits and the added ones, in rounds |
| RoundRobins.CountPermits | exact_solver/global_dfs_executor.cpp:199-203 | the counts are the multiplicities of the queue |
| RoundRobins.WaitingIds | exact_solver/global_dfs_executor.cpp:205-211 | exactly the waiting epochs in increasing order |
| RoundRobins.DealNext | exact_solver/global_dfs_executor.cpp:215-224 | dealing or skipping one epoch keeps the rounds level |
| GlobalExecutors.LeaseMoves | exact_solver/global_dfs_executor.cpp:343-387 | moving a lease between epochs keeps permits and leases accounted for, epoch by epoch |
| GlobalExecutors.QuietMeansIdle | exact_solver/global_dfs_executor.cpp:228-235 | no lease is held iff no epoch is active |
| GlobalExecutors.ChooseTarget | exact_solver/global_dfs_executor.cpp:345-373 | the other epoch with runnable work of least threshold, then least id, or none iff there is none |
| GlobalExecutors.TargetIsLeast | exact_solver/global_dfs_executor.cpp:345-373 | the chosen epoch is another one whose bound session is runnable, and no other such epoch has a smaller threshold, or the same and a smaller id |
| GlobalExecutors.GlobalExecutor.constructor | exact_solver/global_dfs_executor.cpp:8-13 | starts empty, running and balanced |
| GlobalExecutors.GlobalExecutor.Register | exact_solver/global_dfs_executor.cpp:19-29 | refuses iff the identity belongs to another session; registers once |
| GlobalExecutors.GlobalExecutor.Bind | exact_solver/global_dfs_executor.cpp:55-71 | an old binding is returned unchanged, a new one gets the next generation of its threshold, refused exactly in the listed conflicts |
| GlobalExecutors.GlobalExecutor.OpenBatch | exact_solver/global_dfs_executor.cpp:92-134 | granted iff no request of the batch would be refused and no two name the same session; then one epoch for each with consecutive ids; otherwise stops half way, balanced iff the first request was already refused |
| GlobalExecutors.GlobalExecutor.GrantEpochs | exact_solver/global_dfs_executor.cpp:92-147 | granted iff no request would be refused and no two name the same session, and then exactly the requested epochs are open with a fair queue; the executor is balanced afterwards iff the batch was granted or its first request was already refused |
| GlobalExecutors.HalfOpenedBatch | exact_solver/global_dfs_executor.cpp:92-134 | a batch of a good request and one without permits is refused and leaves a balanced executor unbalanced |
| GlobalExecutors.GlobalExecutor.GrantEpoch | exact_solver/global_dfs_executor.cpp:79-90 | refused exactly when the request is; otherwise one new epoch with its permits, always balanced |
| GlobalExecutors.GlobalExecutor.Enqueue | exact_solver/global_dfs_executor.cpp:194-226 | adds exactly the permits, keeps the queue round-robin and one task scheduled for each queued permit |
| GlobalExecutors.GlobalExecutor.StartLease | exact_solver/global_dfs_executor.cpp:256-289 | starts a lease on the front permit, none iff stopping, paused or empty; permits granted are queued, held or returned |
| GlobalExecutors.GlobalExecutor.Steal | exact_solver/global_dfs_executor.cpp:343-387 | moves the lease to another epoch whose session is runnable, of a threshold no larger than that of any other such epoch, or changes nothing iff there is none; the number of leases stays |
| GlobalExecutors.GlobalExecutor.ReturnLease | exact_solver/global_dfs_executor.cpp:449-463 | returns exactly that lease and counts it |
| GlobalExecutors.GlobalExecutor.BeginDrain | exact_solver/global_dfs_executor.cpp:165-177 | marks all named epochs or, if one is unknown, none |
| GlobalExecutors.GlobalExecutor.FinishDrain | exact_solver/global_dfs_executor.cpp:178-187 | closes the epoch iff no permit and no lease of it is left |
| GlobalExecutors.DrainCompletes | exact_solver/global_dfs_executor.cpp:178-187 | one locked section finishes a drain iff its epochs are distinct, known and free of permits and leases |
| GlobalExecutors.DrainKeepsOn | exact_solver/global_dfs_executor.cpp:178-187 | a drain of distinct known epochs finishes or goes on waiting for distinct known ones, and never meets a missing one |
| GlobalExecutors.DoomedDrain | exact_solver/global_dfs_executor.cpp:178-187 | a drain that names an epoch twice, or a missing one, never finishes |
| GlobalExecutors.RepeatedDrainRaises | exact_solver/global_dfs_executor.cpp:178-187 | an epoch named twice is closed at its first turn and raises the exception at its second |
| GlobalExecutors.GlobalExecutor.StartDrain | exact_solver/global_dfs_executor.cpp:165-187 | refused iff an epoch is unknown; otherwise marks all and has its first section; drains stay apart if it names no epoch twice and none that another still has to close |
| GlobalExecutors.GlobalExecutor.WakeDrain | exact_solver/global_dfs_executor.cpp:149-187 | goes on from an erased place iff the epoch it waited for is gone, and otherwise closes what is drained; this never happens while drains are apart |
| GlobalExecutors.OvertakenDrain | exact_solver/global_dfs_executor.cpp:149-163 | two drains of one epoch: the first that is woken finishes and leaves the other with an erased place |
| GlobalExecutors.GlobalExecutor.DrainHasNextStep | exact_solver/global_dfs_executor.cpp:178-187 | a running drain is never stuck: a pending permit is queued with a task scheduled, an active lease is held |
| GlobalExecutors.GlobalExecutor.IsQuiet | exact_solver/global_dfs_executor.cpp:228-235 | quiet iff no epoch is active |
| GlobalExecutors.GlobalExecutor.Resume | exact_solver/global_dfs_executor.cpp:237-243 | schedules one task for each queued permit |
| GlobalExecutors.GlobalExecutor.Retire | exact_solver/global_dfs_executor.cpp:31-53 | refused iff an open epoch names the session; otherwise removes exactly its binding and registration |
| GlobalExecutors.GlobalExecutor.Run | exact_solver/global_dfs_executor.cpp:15-463 | every interleaving of operations keeps permits, epochs, leases and drains in order or reports that it no longer does; with single requests, and drains that name each epoch once in all, they always are and no drain ends by an exception |
| GlobalExecutors.GlobalExecutor.Open | exact_solver/global_dfs_executor.cpp:102-126 | refuses exactly the listed cases, otherwise opens one epoch under the next id |
| GlobalExecutors.GlobalExecutor.Claim | exact_solver/global_dfs_executor.cpp:261-289 | takes the front permit and turns it into an active lease of its epoch |
| GlobalExecutors.GlobalExecutor.Pause | exact_solver/global_dfs_executor.cpp:228-232 | pauses admission and keeps the balance |
| GlobalExecutors.GlobalExecutor.Stop | exact_solver/global_dfs_executor.cpp:15-17 | stops and keeps the balance |
| GlobalExecutors.GlobalExecutor.Take | exact_solver/global_dfs_executor.cpp:15-463 | every operation does what it says, or nothing where its thread could not take it, and keeps the executor balanced and its drains anchored, except exactly a batch whose first request is acceptable and which is refused at a later one, and waking a drain whose epoch another has closed; drains stay apart as long as new ones name only epochs of their own, each once |

## Left out

- Fixed-width integers: numbers are unbounded, except where the source itself checks a width (the Lagrangian evaluator's 64-bit checks, the 32-bit ceiling of a certificate, the checkpoint's number fields); a 32-bit maximum used as "nothing yet" is an option value here.
- Clocks, deadlines and yield polling: a free choice to stop, allowed only where a deadline, a stop flag or a controller is given; node limits and the stop flag of the parallel workers are modelled.
- Allocation failure, statistics other than the caches' entry accounting, memory governor, cache shards and their locks: not modelled; a table that does not fit the memory limit is refused by its size alone, and hashes are arbitrary functions of the key.
- Floating-point iterates, quantisation and the solver calls that produce certificates: quantised multipliers arrive as integers, or as nothing where they do not fit; what a certificate holds after unusable input is described only as far as its sizes.
- Partial bounds other than the residual degree, the residual dynamic program and the semidefinite oracle inside the search: switched off.
- Canonical ownership of region roots, session events and telemetry: off.
- FixedThresholdWord64Cache and Word64DecisionCache: the same algorithms as the two caches modelled over generic keys.
- Parallel workers of the word-sized search: only the root selection and that it covers every ordering; the choice of the lexicographically least witness is not modelled.
- Mask words: masks are vertex sets; labels, text reading of edge lists, command line, JSON, Python bindings, optimizer and parallel session driver are not modelled.
- WeightedCertificates.WeightedCertificateSound: asks for an even linear numerator because acceptance alone does not imply the bound, as SoundIffEven shows.
- NodeStates.NodeState.constructor: counts of vertices that were already on the initial path are specified by the vertices before them, which is what later removals restore.
- DecisionSessions.DecisionSession.Restore: rejection of malformed snapshots is not modelled.
- DecisionSessions.DecisionSession.ResolveExternalFailure: requires that a reported region truly failed, as its owner promises; SessionRuns.Controller.Report shows owners that keep the promise.
- DecisionSessions.DecisionSession.Descend: what is left of a session after the exception is not described.
- DecisionSessions.DecisionSession.MarkCertifiedInfeasible: requires that the bound is true of the active region.
- ParallelSearch.FrontierRun.Search: a whole subtree search is one step of its worker, which may end early once stop was raised; worker caches are one shared cache.
- ThresholdSearch.Decide: a local continuation depth requires an indexed enumerator; with the scanning one the source raises a logic error (exact_solver/decision.cpp:831-832).
- SegmentedCaches.SegmentedCache.ChooseVictim: the mean depths are compared exactly instead of in floating point.
- LagrangianBounds.EvaluatePoint: the residual adjacency lists built first are folded into the arc loop, and the flow itself is computed over unbounded integers below the checked capacity sums.
- SessionRuns.Controller.Run: each session of the tree has its own cache; a session that threw is given up and its region stays open.
- GlobalExecutors.GlobalExecutor.Run: worker identifiers, deadlines, session callbacks and sessions without identity are not modelled; each locked section is one step. A drain that goes on from an erased place ends the modelled run.
- Checkpoints.ParseCheckpoint: only the CWCP1 text; the binary second version, legacy layouts, SHA-256 and file handling are not modelled, and text is a sequence of characters.
- SubsetDp.Solve: the brute-force oracle appears as its meaning, the least width over all orderings.
