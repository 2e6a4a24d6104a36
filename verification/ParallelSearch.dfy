/**
  The parallel decision: a two-vertex frontier that covers every feasible
  ordering, and workers that claim its tasks through shared atomics.  Each shared
  access is one step, and a schedule may interleave the workers' steps freely.
 */
module ParallelSearch {
  import opened Options
  import opened Graphs
  import opened Feasibility
  import opened TwinSymmetry
  import opened Candidates
  import opened Sorting
  import opened DecisionCaches
  import opened ThresholdSearch

  // ----- the frontier -----

  datatype FrontierTask = FrontierTask(first: Vertex, second: Vertex, cut: nat)

  ghost function Pair(t: FrontierTask): set<Vertex> {
    {t.first, t.second}
  }

  /** The unordered pair, low vertex first. */
  function Key(a: Vertex, b: Vertex): (Vertex, Vertex) {
    if a < b then (a, b) else (b, a)
  }

  lemma SameKeySamePair(a: Vertex, b: Vertex, c: Vertex, d: Vertex)
    ensures Key(a, b) == Key(c, d) <==> {a, b} == {c, d}
  {
    if {a, b} == {c, d} {
      assert a in {c, d} && b in {c, d} && c in {a, b} && d in {a, b};
    }
  }

  ghost predicate TaskOk(g: Graph, k: nat, t: FrontierTask) {
    && t.first in Vertices(g) && t.second in Vertices(g) && t.first != t.second
    && Cut(g, {t.first}) <= k && t.cut == Cut(g, Pair(t)) && t.cut <= k
  }

  /** Valid tasks, one for each unordered pair. */
  ghost predicate TasksOk(g: Graph, k: nat, tasks: seq<FrontierTask>) {
    && (forall t :: t in tasks ==> TaskOk(g, k, t))
    && (forall i, j :: 0 <= i < j < |tasks| ==> Pair(tasks[i]) != Pair(tasks[j]))
  }

  ghost function Keys(tasks: seq<FrontierTask>): set<(Vertex, Vertex)> {
    set t | t in tasks :: Key(t.first, t.second)
  }

  /** Every vertex below n that may legally follow `first` has its pair among the keys. */
  ghost predicate RowDone(g: Graph, k: nat, twins: TwinTable, first: Vertex, n: nat, keys: set<(Vertex, Vertex)>) {
    forall s :: s in Below(n) && Legal(g, k, twins, {first}, s) ==> Key(first, s) in keys
  }

  lemma RowStep(g: Graph, k: nat, twins: TwinTable, first: Vertex, s: Vertex, keys: set<(Vertex, Vertex)>)
    requires RowDone(g, k, twins, first, s, keys)
    requires Legal(g, k, twins, {first}, s) ==> Key(first, s) in keys
    ensures RowDone(g, k, twins, first, s + 1, keys)
  {
    hide Legal;
  }

  lemma RowGrows(g: Graph, k: nat, twins: TwinTable, first: Vertex, n: nat, keys: set<(Vertex, Vertex)>,
                 more: set<(Vertex, Vertex)>)
    requires RowDone(g, k, twins, first, n, keys) && keys <= more
    ensures RowDone(g, k, twins, first, n, more)
  {
    hide Legal;
  }

  lemma AddTask(g: Graph, k: nat, tasks: seq<FrontierTask>, t: FrontierTask)
    requires TasksOk(g, k, tasks) && TaskOk(g, k, t) && Key(t.first, t.second) !in Keys(tasks)
    ensures TasksOk(g, k, tasks + [t]) && Keys(tasks + [t]) == Keys(tasks) + {Key(t.first, t.second)}
  {
    hide TaskOk;
    var after := tasks + [t];
    forall i, j | 0 <= i < j < |after| ensures Pair(after[i]) != Pair(after[j]) {
      if j == |tasks| {
        assert tasks[i] in tasks;
        SameKeySamePair(tasks[i].first, tasks[i].second, t.first, t.second);
      }
    }
  }

  /** A root is a vertex that may be placed first. */
  lemma RootTest(g: Graph, k: nat, twins: TwinTable, v: Vertex)
    requires ValidTwins(g, twins) && v < Size(g)
    ensures Legal(g, k, twins, {}, v) <==> Degree(g, v) <= k && twins[v] == []
    ensures Cut(g, {v}) == Degree(g, v)
  {
    var none: set<Vertex> := {};
    EmptyCut(g);
    CutRecurrence(g, none, v);
    assert none + {v} == {v} && Neighbours(g, v) * none == {};
    RootBlocked(twins, v);
    assert v in Vertices(g) - none;
    hide TwinBlocked, Cut;
  }

  lemma RootBlocked(twins: TwinTable, v: Vertex)
    requires v < |twins|
    ensures TwinBlocked(twins, {}, v) <==> twins[v] != []
  {
    var none: set<Vertex> := {};
    if twins[v] != [] {
      assert twins[v][0] !in none;
    }
  }

  /** The test made for a second vertex decides legality after the first. */
  lemma SecondTest(g: Graph, k: nat, twins: TwinTable, first: Vertex, second: Vertex)
    requires first in Vertices(g) && second in Vertices(g) && first != second
    ensures var next := NextCut(g, Degree(g, first), second, if Adjacent(g, first, second) then 1 else 0);
            && (Legal(g, k, twins, {first}, second) <==> !TwinBlockedAfter(twins, {}, first, second) && next <= k)
            && next == Cut(g, {first, second})
  {
    EmptyCut(g);
    CutRecurrence(g, {}, first);
    assert {} + {first} == {first} && {first} + {second} == {first, second};
    assert Neighbours(g, first) * {} == {} && Neighbours(g, second) * {} == {};
    LegalAfterTest(g, k, twins, {}, first, Degree(g, first), second, 0);
    CutRecurrence(g, {first}, second);
    SetStep2(g, first, second);
  }

  lemma SetStep2(g: Graph, first: Vertex, second: Vertex)
    ensures |Neighbours(g, second) * {first}| == if Adjacent(g, first, second) then 1 else 0
  {
    if first in Neighbours(g, second) {
      NeighbourFacts(g, second, first);
      assert Neighbours(g, second) * {first} == {first};
    } else {
      if second in Neighbours(g, first) { NeighbourFacts(g, first, second); }
      assert Neighbours(g, second) * {first} == {};
    }
  }

  method FindRoots(g: Graph, k: nat, twins: TwinTable) returns (roots: seq<Vertex>)
    requires ValidTwins(g, twins)
    ensures forall v :: v in roots <==> Legal(g, k, twins, {}, v)
  {
    roots := [];
    for v := 0 to Size(g)
      invariant forall u :: u in roots <==> u in Below(v) && Legal(g, k, twins, {}, u)
    {
      hide Legal;
      RootTest(g, k, twins, v);
      if Degree(g, v) > k {
        continue;
      }
      if twins[v] == [] {
        roots := roots + [v];
      }
    }
  }

  /** Tasks for the legal two-vertex prefixes, one per unordered pair, in the order found. */
  method CollectTasks(g: Graph, k: nat, twins: TwinTable, roots: seq<Vertex>) returns (tasks: seq<FrontierTask>)
    requires ValidTwins(g, twins) && forall v :: v in roots <==> Legal(g, k, twins, {}, v)
    ensures TasksOk(g, k, tasks)
    ensures RowsDone(g, k, twins, roots, |roots|, Keys(tasks))
  {
    tasks := [];
    var seen: set<(Vertex, Vertex)> := {};
    for i := 0 to |roots|
      invariant TasksOk(g, k, tasks) && seen == Keys(tasks)
      invariant RowsDone(g, k, twins, roots, i, seen)
    {
      hide *;
      var first := roots[i];
      RootFacts(g, k, twins, first);
      ghost var before := seen;
      tasks, seen := CollectRow(g, k, twins, first, tasks, seen);
      RowsGrow(g, k, twins, roots, i, before, seen);
    }
  }

  ghost predicate RowsDone(g: Graph, k: nat, twins: TwinTable, roots: seq<Vertex>, i: nat, keys: set<(Vertex, Vertex)>)
    requires i <= |roots|
  {
    forall j :: 0 <= j < i ==> RowDone(g, k, twins, roots[j], Size(g), keys)
  }

  lemma RowsGrow(g: Graph, k: nat, twins: TwinTable, roots: seq<Vertex>, i: nat, keys: set<(Vertex, Vertex)>,
                 more: set<(Vertex, Vertex)>)
    requires i < |roots| && RowsDone(g, k, twins, roots, i, keys) && keys <= more
    requires RowDone(g, k, twins, roots[i], Size(g), more)
    ensures RowsDone(g, k, twins, roots, i + 1, more)
  {
    hide RowDone;
    forall j | 0 <= j < i ensures RowDone(g, k, twins, roots[j], Size(g), more) {
      RowGrows(g, k, twins, roots[j], Size(g), keys, more);
    }
  }

  lemma RootFacts(g: Graph, k: nat, twins: TwinTable, v: Vertex)
    requires Legal(g, k, twins, {}, v)
    ensures v in Vertices(g) && Cut(g, {v}) <= k
  {
    assert {} + {v} == {v};
  }

  method CollectRow(g: Graph, k: nat, twins: TwinTable, first: Vertex, tasks0: seq<FrontierTask>,
                    seen0: set<(Vertex, Vertex)>)
    returns (tasks: seq<FrontierTask>, seen: set<(Vertex, Vertex)>)
    requires TasksOk(g, k, tasks0) && seen0 == Keys(tasks0) && first in Vertices(g) && Cut(g, {first}) <= k
    ensures TasksOk(g, k, tasks) && seen == Keys(tasks) && seen0 <= seen
    ensures RowDone(g, k, twins, first, Size(g), seen)
  {
    tasks, seen := tasks0, seen0;
    for second := 0 to Size(g)
      invariant TasksOk(g, k, tasks) && seen == Keys(tasks) && seen0 <= seen
      invariant RowDone(g, k, twins, first, second, seen)
    {
      hide *;
      ghost var before := seen;
      SelfIsIllegal(g, k, twins, first);
      if second != first {
        InGraph(g, second);
        SecondTest(g, k, twins, first, second);
        if !TwinBlockedAfter(twins, {}, first, second) {
          var next := NextCut(g, Degree(g, first), second, if Adjacent(g, first, second) then 1 else 0);
          if next <= k && Key(first, second) !in seen {
            var task := FrontierTask(first, second, next);
            TaskIsOk(g, k, task);
            AddTask(g, k, tasks, task);
            tasks := tasks + [task];
            seen := seen + {Key(first, second)};
          }
        }
      }
      RowGrows(g, k, twins, first, second, before, seen);
      RowStep(g, k, twins, first, second, seen);
    }
  }

  lemma InGraph(g: Graph, v: Vertex)
    requires v < Size(g)
    ensures v in Vertices(g)
  {
  }

  lemma SelfIsIllegal(g: Graph, k: nat, twins: TwinTable, v: Vertex)
    ensures !Legal(g, k, twins, {v}, v)
  {
  }

  lemma TaskIsOk(g: Graph, k: nat, t: FrontierTask)
    requires t.first in Vertices(g) && t.second in Vertices(g) && t.first != t.second
    requires Cut(g, {t.first}) <= k && t.cut == Cut(g, {t.first, t.second}) && t.cut <= k
    ensures TaskOk(g, k, t)
  {
  }

  /** Some task stands for a feasible pair whenever the graph is feasible. */
  ghost predicate Covers(g: Graph, k: nat, tasks: seq<FrontierTask>) {
    Feasible(g, k, {}) ==> exists t :: t in tasks && Feasible(g, k, Pair(t))
  }

  lemma FrontierCovers(g: Graph, k: nat, twins: TwinTable, roots: seq<Vertex>, tasks: seq<FrontierTask>)
    requires ValidTwins(g, twins) && Size(g) >= 2
    requires forall v :: v in roots <==> Legal(g, k, twins, {}, v)
    requires RowsDone(g, k, twins, roots, |roots|, Keys(tasks))
    ensures Covers(g, k, tasks)
  {
    if Feasible(g, k, {}) {
      NotAll(g);
      var a := LegalChild(g, k, twins, {});
      assert a in roots && {} + {a} == {a};
      var b := LegalChild(g, k, twins, {a});
      assert {a} + {b} == {a, b};
      var j :| 0 <= j < |roots| && roots[j] == a;
      KeyFound(g, k, twins, a, b, tasks);
      var t :| t in tasks && Key(t.first, t.second) == Key(a, b);
      SameKeySamePair(t.first, t.second, a, b);
    }
  }

  lemma NotAll(g: Graph)
    requires Size(g) >= 2
    ensures Vertices(g) != {} && forall a :: Vertices(g) != {a}
  {
    assert 0 in Vertices(g) && 1 in Vertices(g);
  }

  lemma KeyFound(g: Graph, k: nat, twins: TwinTable, a: Vertex, b: Vertex, tasks: seq<FrontierTask>)
    requires RowDone(g, k, twins, a, Size(g), Keys(tasks)) && Legal(g, k, twins, {a}, b)
    ensures exists t :: t in tasks && Key(t.first, t.second) == Key(a, b)
  {
    hide TwinBlocked, Cut;
  }

  // ----- building the frontier -----

  predicate TaskPrecedes(failFirst: bool, a: FrontierTask, b: FrontierTask) {
    if a.cut != b.cut then (if failFirst then a.cut > b.cut else a.cut < b.cut)
    else if a.first != b.first then a.first < b.first
    else a.second < b.second
  }

  function TaskOrder(failFirst: bool): (FrontierTask, FrontierTask) -> bool {
    (a, b) => TaskPrecedes(failFirst, a, b)
  }

  lemma TaskOrderIsOrder(failFirst: bool)
    ensures WeakOrder(TaskOrder(failFirst))
  {
  }

  lemma RearrangedTasks(g: Graph, k: nat, tasks: seq<FrontierTask>, r: seq<FrontierTask>)
    requires TasksOk(g, k, tasks) && Covers(g, k, tasks) && multiset(r) == multiset(tasks)
    ensures TasksOk(g, k, r) && Covers(g, k, r) && |r| == |tasks|
  {
    hide TaskOk, Feasible;
    SameElements(r, tasks);
    var pairOf := (t: FrontierTask) => Pair(t);
    assert DistinctBy(pairOf, tasks);
    RearrangedDistinct(pairOf, tasks, r);
    assert forall i, j :: 0 <= i < j < |r| ==> pairOf(r[i]) != pairOf(r[j]);
    if Feasible(g, k, {}) {
      var t :| t in tasks && Feasible(g, k, Pair(t));
      assert t in r;
    }
  }

  /** By cut, largest or smallest first, then by the first and the second vertex. */
  ghost predicate TasksInOrder(failFirst: bool, tasks: seq<FrontierTask>) {
    forall i, j :: 0 <= i < j < |tasks| ==>
      var a, b := tasks[i], tasks[j];
      && (if failFirst then a.cut >= b.cut else a.cut <= b.cut)
      && (a.cut == b.cut ==> a.first < b.first || (a.first == b.first && a.second <= b.second))
  }

  lemma SortedTasks(failFirst: bool, tasks: seq<FrontierTask>)
    requires Sorted(TaskOrder(failFirst), tasks)
    ensures TasksInOrder(failFirst, tasks)
  {
    forall i, j | 0 <= i < j < |tasks| ensures !TaskPrecedes(failFirst, tasks[j], tasks[i]) {
      assert !TaskOrder(failFirst)(tasks[j], tasks[i]);
    }
  }

  datatype Frontier = Answered(decision: Decision) | Tasks(tasks: seq<FrontierTask>)

  /** Answers the trivial cases, or lists tasks that cover every feasible ordering. */
  method BuildFrontier(g: Graph, k: nat, useTwins: bool, failFirst: bool) returns (f: Frontier)
    ensures f.Answered? ==> !f.decision.Undecided?
    ensures f == Answered(Refuted) ==> !exists o :: IsWitness(g, k, o)
    ensures f.Answered? && f.decision.Witness? ==> IsWitness(g, k, f.decision.ordering)
    ensures f.Tasks? ==> Size(g) >= 2 && f.tasks != [] && TasksOk(g, k, f.tasks) && Covers(g, k, f.tasks)
    ensures f.Tasks? ==> TasksInOrder(failFirst, f.tasks)
  {
    hide Cut, Distinct, Feasible, IsWitness, Keys, Legal, Pair, RowsDone, Sorted, TaskOrder, TasksInOrder, TasksOk, TwinTableOf, Twins,
      ValidTwins, Vertices, WeakOrder;
    FeasibleFromScratch(g, k);
    SmallWitness(g, k);
    if Size(g) == 0 {
      return Answered(Witness([]));
    }
    var twins := BuildTwins(g, useTwins);
    var roots := FindRoots(g, k, twins);
    if roots == [] {
      NoRoots(g, k, twins, roots);
      return Answered(Refuted);
    }
    if Size(g) == 1 {
      RootFacts(g, k, twins, roots[0]);
      return Answered(Witness([roots[0]]));
    }
    var tasks := CollectTasks(g, k, twins, roots);
    FrontierCovers(g, k, twins, roots, tasks);
    if tasks == [] {
      return Answered(Refuted);
    }
    TaskOrderIsOrder(failFirst);
    var sorted := Sort(TaskOrder(failFirst), tasks);
    RearrangedTasks(g, k, tasks, sorted);
    SortedTasks(failFirst, sorted);
    return Tasks(sorted);
  }

  lemma NoRoots(g: Graph, k: nat, twins: TwinTable, roots: seq<Vertex>)
    requires ValidTwins(g, twins) && Size(g) > 0 && roots == []
    requires forall v :: v in roots <==> Legal(g, k, twins, {}, v)
    ensures !Feasible(g, k, {})
  {
    assert 0 in Vertices(g);
    assert NoneLegalIn(g, k, twins, {}, Vertices(g));
    NoLegalFails(g, k, twins, {});
  }

  lemma SmallWitness(g: Graph, k: nat)
    ensures Size(g) == 0 ==> IsWitness(g, k, [])
    ensures Size(g) == 1 ==> forall v :: v in Vertices(g) ==> IsWitness(g, k, [v])
  {
    EmptyCut(g);
    FullCut(g);
    assert Elems([]) == {};
    if Size(g) == 1 {
      forall v | v in Vertices(g) ensures IsWitness(g, k, [v]) {
        assert v == 0 && Vertices(g) == {0};
        assert [v][..0] == [] && [v][..1] == [v] && Elems([v]) == Vertices(g);
      }
    }
  }

  /** An ordering that solves below a task's pair is a witness. */
  lemma TaskWitness(g: Graph, k: nat, t: FrontierTask, o: seq<Vertex>)
    requires TaskOk(g, k, t) && Solves(g, k, [t.first, t.second], o)
    ensures IsWitness(g, k, o) && o != []
  {
    EmptyCut(g);
    forall i | 0 <= i <= |o| ensures Cut(g, Elems(o[..i])) <= k {
      if i == 0 {
        assert Elems(o[..0]) == {};
      } else if i == 1 {
        assert o[..1] == [t.first] && Elems([t.first]) == {t.first};
      }
    }
  }

  lemma TaskPath(g: Graph, k: nat, t: FrontierTask)
    requires TaskOk(g, k, t)
    ensures IsPath(g, [t.first, t.second]) && Elems([t.first, t.second]) == Pair(t)
    ensures t.cut == Cut(g, Elems([t.first, t.second])) && t.cut <= k
  {
    assert Elems([t.first, t.second]) == Pair(t);
  }

  // ----- the workers -----

  /** Where a worker stands between two accesses to the shared state. */
  datatype Worker =
    | Looping
    | Claiming
    | Claimed(task: nat)
    | Searching(task: nat)
    | Reporting(task: nat, result: Decision)
    | Publishing(task: nat, ordering: seq<Vertex>)
    | TimingOut(task: nat)
    | Stopping(leave: bool)
    | Exited

  /** w will still decide task t. */
  predicate Holds(w: Worker, t: nat) {
    match w
    case Claimed(u) => u == t
    case Searching(u) => u == t
    case Reporting(u, _) => u == t
    case Publishing(u, _) => u == t
    case TimingOut(u) => u == t
    case _ => false
  }

  /** How far the run has come: the next task to claim, and the tasks started, completed and refuted. */
  datatype Progress = Progress(next: nat, ended: bool, stopped: bool, started: set<nat>, completed: set<nat>,
                               refuted: set<nat>)

  ghost predicate WorkerOk(g: Graph, k: nat, limited: bool, tasks: seq<FrontierTask>, p: Progress, w: Worker) {
    match w
    case Looping => true
    case Claiming => true
    case Claimed(t) => t < p.next && t < |tasks| && t !in p.started
    case Searching(t) => t < p.next && t < |tasks| && t in p.started && t !in p.completed
    case Reporting(t, d) =>
      && t < p.next && t < |tasks| && t in p.started && t !in p.completed
      && (d == Refuted ==> !Feasible(g, k, Pair(tasks[t])))
      && (d.Witness? ==> IsWitness(g, k, d.ordering) && d.ordering != [])
      && (d.Undecided? ==> limited || p.stopped)
    case Publishing(t, o) => t < p.next && t < |tasks| && IsWitness(g, k, o) && o != []
    case TimingOut(t) => t < p.next && t < |tasks| && limited
    case Stopping(_) => p.ended
    case Exited => p.ended || p.next >= |tasks|
  }

  /** Task t was refuted, is in a worker's hands, or the run has ended without a refutation. */
  ghost predicate Accounted(workers: seq<Worker>, p: Progress, t: nat) {
    t in p.refuted || p.ended || exists i :: 0 <= i < |workers| && Holds(workers[i], t)
  }

  ghost predicate CrewOk(g: Graph, k: nat, limited: bool, tasks: seq<FrontierTask>, workers: seq<Worker>, p: Progress) {
    && (forall i :: 0 <= i < |workers| ==> WorkerOk(g, k, limited, tasks, p, workers[i]))
    && (forall i, j :: 0 <= i < |workers| && 0 <= j < |workers| && i != j ==> Apart(workers[i], workers[j]))
    && (forall t :: 0 <= t < p.next && t < |tasks| ==> Accounted(workers, p, t))
    && (forall t :: t in p.started ==> t < p.next && t < |tasks|)
    && p.completed <= p.started && p.refuted <= p.completed && (p.stopped ==> p.ended)
    && (forall t :: t in p.refuted ==> t < |tasks| && !Feasible(g, k, Pair(tasks[t])))
  }

  /** No task is in the hands of both. */
  predicate Apart(a: Worker, b: Worker) {
    (a.Claimed? || a.Searching? || a.Reporting? || a.Publishing? || a.TimingOut?) ==> !Holds(b, a.task)
  }

  ghost predicate HandsFree(w: Worker) {
    w.Looping? || w.Claiming? || w.Stopping? || w.Exited?
  }

  /** A step of a worker whose hands are and stay free; it may raise the stop of a run that has ended. */
  lemma FreeStep(g: Graph, k: nat, limited: bool, tasks: seq<FrontierTask>, workers: seq<Worker>, p: Progress,
                 i: nat, w: Worker, stop: bool)
    requires CrewOk(g, k, limited, tasks, workers, p) && i < |workers|
    requires HandsFree(workers[i]) && HandsFree(w) && WorkerOk(g, k, limited, tasks, p, w)
    requires (p.stopped ==> stop) && (stop ==> p.ended)
    ensures CrewOk(g, k, limited, tasks, workers[i := w], p.(stopped := stop))
  {
    hide Feasible, IsWitness, Pair;
    var after, q := workers[i := w], p.(stopped := stop);
    forall j | 0 <= j < |after| ensures WorkerOk(g, k, limited, tasks, q, after[j]) {
      assert j != i ==> WorkerOk(g, k, limited, tasks, p, workers[j]);
    }
    forall t | 0 <= t < q.next && t < |tasks| ensures Accounted(after, q, t) {
      assert Accounted(workers, p, t);
      if t !in p.refuted && !p.ended {
        var j :| 0 <= j < |workers| && Holds(workers[j], t);
        assert Holds(after[j], t);
      }
    }
  }

  /** Claiming the next task. */
  lemma ClaimStep(g: Graph, k: nat, limited: bool, tasks: seq<FrontierTask>, workers: seq<Worker>, p: Progress, i: nat)
    requires CrewOk(g, k, limited, tasks, workers, p) && i < |workers| && workers[i].Claiming?
    ensures CrewOk(g, k, limited, tasks, workers[i := if p.next < |tasks| then Claimed(p.next) else Exited],
                   p.(next := p.next + 1))
  {
    hide Feasible, IsWitness, Pair;
    var w, q := if p.next < |tasks| then Claimed(p.next) else Exited, p.(next := p.next + 1);
    var after := workers[i := w];
    forall j | 0 <= j < |after| ensures WorkerOk(g, k, limited, tasks, q, after[j]) {
      assert j != i ==> WorkerOk(g, k, limited, tasks, p, workers[j]);
    }
    forall a, b | 0 <= a < |after| && 0 <= b < |after| && a != b ensures Apart(after[a], after[b]) {
      assert WorkerOk(g, k, limited, tasks, p, workers[a]) && WorkerOk(g, k, limited, tasks, p, workers[b]);
      assert Apart(workers[a], workers[b]);
    }
    hide WorkerOk, Apart;
    forall t | 0 <= t < q.next && t < |tasks| ensures Accounted(after, q, t) {
      if t == p.next {
        assert Holds(after[i], t);
      } else {
        assert Accounted(workers, p, t);
        if t !in p.refuted && !p.ended {
          var j :| 0 <= j < |workers| && Holds(workers[j], t);
          assert Holds(after[j], t);
        }
      }
    }
  }

  /** What one task's progress may change. */
  ghost predicate MovesTask(p: Progress, q: Progress, t: nat) {
    && p.next == q.next && p.stopped == q.stopped && (p.ended ==> q.ended)
    && (q.started == p.started || q.started == p.started + {t})
    && (q.completed == p.completed || q.completed == p.completed + {t})
    && (q.refuted == p.refuted || q.refuted == p.refuted + {t})
    && q.completed <= q.started && q.refuted <= q.completed
  }

  /** A step of the worker that holds task t: it keeps the task, or the task is refuted or the run has ended. */
  lemma HolderStep(g: Graph, k: nat, limited: bool, tasks: seq<FrontierTask>, workers: seq<Worker>, p: Progress,
                   i: nat, w: Worker, q: Progress, t: nat)
    requires CrewOk(g, k, limited, tasks, workers, p) && i < |workers| && Holds(workers[i], t) && t < |tasks|
    requires MovesTask(p, q, t) && WorkerOk(g, k, limited, tasks, q, w)
    requires Holds(w, t) || (HandsFree(w) && (t in q.refuted || q.ended))
    requires t in q.refuted && t !in p.refuted ==> !Feasible(g, k, Pair(tasks[t]))
    ensures CrewOk(g, k, limited, tasks, workers[i := w], q)
  {
    hide Feasible, IsWitness, Pair;
    var after := workers[i := w];
    assert WorkerOk(g, k, limited, tasks, p, workers[i]);
    forall j | 0 <= j < |after| ensures WorkerOk(g, k, limited, tasks, q, after[j]) {
      if j != i {
        assert WorkerOk(g, k, limited, tasks, p, workers[j]) && Apart(workers[i], workers[j]);
      }
    }
    forall a, b | 0 <= a < |after| && 0 <= b < |after| && a != b ensures Apart(after[a], after[b]) {
      assert Apart(workers[a], workers[b]);
    }
    hide WorkerOk, Apart;
    forall u | 0 <= u < q.next && u < |tasks| ensures Accounted(after, q, u) {
      if u != t {
        assert Accounted(workers, p, u);
        if u !in p.refuted && !p.ended {
          var j :| 0 <= j < |workers| && Holds(workers[j], u);
          assert Holds(after[j], u);
        }
      } else if Holds(w, t) {
        assert Holds(after[i], t);
      }
    }
  }

  function AfterReport(d: Decision, stop: bool, t: nat): Worker {
    match d
    case Witness(o) => Publishing(t, o)
    case Refuted => Looping
    case Undecided => if stop then Looping else TimingOut(t)
  }

  ghost function ReportProgress(p: Progress, d: Decision, t: nat): Progress {
    match d
    case Witness(_) => p.(completed := p.completed + {t})
    case Refuted => p.(completed := p.completed + {t}, refuted := p.refuted + {t})
    case Undecided => p
  }

  /** A refuted task is settled, a witness stays in hand until published, a timeout until recorded. */
  lemma ReportStep(g: Graph, k: nat, limited: bool, tasks: seq<FrontierTask>, workers: seq<Worker>, p: Progress,
                   i: nat, t: nat, d: Decision, stop: bool)
    requires CrewOk(g, k, limited, tasks, workers, p) && i < |workers| && workers[i] == Reporting(t, d)
    requires stop == p.stopped
    ensures t !in p.completed
    ensures CrewOk(g, k, limited, tasks, workers[i := AfterReport(d, stop, t)], ReportProgress(p, d, t))
  {
    hide Feasible, IsWitness, Pair;
    assert WorkerOk(g, k, limited, tasks, p, workers[i]);
    assert p.completed <= p.started && p.refuted <= p.completed;
    hide CrewOk;
    HolderStep(g, k, limited, tasks, workers, p, i, AfterReport(d, stop, t), ReportProgress(p, d, t), t);
  }

  /** Once all workers have left without a witness or a timeout, every task was started, completed and refuted. */
  lemma AllRefuted(g: Graph, k: nat, limited: bool, tasks: seq<FrontierTask>, workers: seq<Worker>, p: Progress)
    requires CrewOk(g, k, limited, tasks, workers, p) && workers != [] && !p.ended
    requires forall i :: 0 <= i < |workers| ==> workers[i].Exited?
    requires TasksOk(g, k, tasks) && Covers(g, k, tasks)
    ensures p.started == p.completed == p.refuted == Below(|tasks|)
    ensures !Feasible(g, k, {})
  {
    hide Feasible, IsWitness, Pair, TasksOk;
    assert WorkerOk(g, k, limited, tasks, p, workers[0]);
    forall t | 0 <= t < |tasks| ensures t in p.refuted {
      assert Accounted(workers, p, t);
    }
    forall t | t in tasks ensures !Feasible(g, k, Pair(t)) {
      var i :| 0 <= i < |tasks| && tasks[i] == t;
      assert i in p.refuted;
    }
  }

  // ----- how long a run can last -----

  /** How many accesses a worker can make before it claims again. */
  ghost function Rank(w: Worker): nat {
    match w
    case Claimed(_) => 7
    case Searching(_) => 6
    case Reporting(_, _) => 5
    case Publishing(_, _) => 4
    case TimingOut(_) => 4
    case Stopping(_) => 3
    case Looping => 2
    case Claiming => 1
    case Exited => 0
  }

  ghost function Ranks(workers: seq<Worker>): nat {
    if workers == [] then 0 else Ranks(workers[..|workers| - 1]) + Rank(workers[|workers| - 1])
  }

  lemma {:induction false} RankChanged(workers: seq<Worker>, i: nat, w: Worker)
    requires i < |workers|
    ensures Ranks(workers[i := w]) + Rank(workers[i]) == Ranks(workers) + Rank(w)
  {
    var last := |workers| - 1;
    if i == last {
      assert workers[i := w][..last] == workers[..last];
    } else {
      assert workers[i := w][..last] == workers[..last][i := w];
      RankChanged(workers[..last], i, w);
    }
  }

  lemma {:induction false} RanksOfFresh(n: nat)
    ensures Ranks(seq(n, _ => Looping)) == 2 * n
  {
    if n > 0 {
      assert seq(n, _ => Looping)[..n - 1] == seq(n - 1, _ => Looping);
      RanksOfFresh(n - 1);
    }
  }

  class FrontierRun {
    const g: Graph
    const k: nat
    const options: SearchOptions
    const limited: bool
    const cache: ProofCache
    const tasks: seq<FrontierTask>
    var workers: seq<Worker>
    var next: nat
    var stop: bool
    var timedOut: bool
    var found: seq<Vertex>
    var tasksStarted: nat
    var tasksCompleted: nat
    ghost var started: set<nat>
    ghost var completed: set<nat>
    ghost var refuted: set<nat>

    ghost predicate Sound() {
      && TasksOk(g, k, tasks) && tasks != [] && Covers(g, k, tasks)
      && (options.localDepth > 0 ==> options.enumerator != Scanned)
    }

    /** The run has ended without a refutation once a timeout or a witness is recorded. */
    ghost function Now(): Progress
      reads this`next, this`stop, this`timedOut, this`found, this`started, this`completed, this`refuted
    {
      Progress(next, timedOut || found != [], stop, started, completed, refuted)
    }

    /** The accesses that can still be made: seven for every task nobody has claimed, and those under way. */
    ghost function Accesses(): nat
      reads this`workers, this`next
    {
      Ranks(workers) + 7 * (if next < |tasks| then |tasks| - next else 0)
    }

    lemma AccessesAfter(workers': seq<Worker>, next': nat, i: nat, w: Worker)
      requires i < |workers'| && workers == workers'[i := w]
      requires if workers'[i] == Claiming then next == next' + 1 && (w == Exited || (w.Claimed? && next' < |tasks|))
               else next == next' && Rank(w) < Rank(workers'[i])
      ensures Accesses() < Ranks(workers') + 7 * (if next' < |tasks| then |tasks| - next' else 0)
    {
      RankChanged(workers', i, w);
    }

    ghost predicate Valid()
      reads this, cache
    {
      && Sound() && cache.Valid() && Truthful(g, cache.Entries())
      && workers != [] && CrewOk(g, k, limited, tasks, workers, Now())
      && (stop ==> timedOut || found != [])
      && (found != [] ==> IsWitness(g, k, found)) && (timedOut ==> limited)
      && tasksStarted == |started| && tasksCompleted == |completed|
    }

    constructor (g: Graph, k: nat, options: SearchOptions, limited: bool, cache: ProofCache,
                 tasks: seq<FrontierTask>, threads: nat)
      requires TasksOk(g, k, tasks) && tasks != [] && Covers(g, k, tasks) && threads > 0
      requires options.localDepth > 0 ==> options.enumerator != Scanned
      requires cache.Valid() && Truthful(g, cache.Entries())
      ensures Valid() && this.g == g && this.k == k && this.limited == limited && this.cache == cache
      ensures this.tasks == tasks && |workers| == if threads < |tasks| then threads else |tasks|
      ensures this.options == options && !stop && !timedOut && found == [] && next == 0
      ensures workers == seq(|workers|, _ => Looping) && Accesses() <= 9 * |tasks|
    {
      this.g, this.k, this.options, this.limited, this.cache, this.tasks := g, k, options, limited, cache, tasks;
      workers := seq(if threads < |tasks| then threads else |tasks|, _ => Looping);
      next, stop, timedOut, found, tasksStarted, tasksCompleted := 0, false, false, [], 0, 0;
      started, completed, refuted := {}, {}, {};
      new;
      RanksOfFresh(|workers|);
      hide TasksOk, Covers, Truthful;
    }

    /** One access of worker i to the shared state; a whole subtree search counts as one, made when it ends. */
    method Step(i: nat)
      requires Valid() && i < |workers|
      modifies this, cache
      ensures Valid() && |workers| == |old(workers)|
      ensures forall j :: 0 <= j < |workers| && j != i ==> workers[j] == old(workers)[j]
      ensures Follows(old(workers)[i], workers[i], old(stop), old(next))
      ensures old(workers)[i] != Exited ==> Accesses() < old(Accesses())
      ensures workers == old(workers)[i := workers[i]]
      ensures old(workers)[i].Publishing? ==> found == if old(found) == [] then old(workers)[i].ordering else old(found)
      ensures !old(workers)[i].Publishing? ==> found == old(found)
      ensures old(workers)[i].Stopping? ==> stop
      ensures !old(workers)[i].Stopping? ==> stop == old(stop)
    {
      hide Follows, Rank, Ranks, Sound, Valid;
      ghost var before, claimed, flag := workers, next, stop;
      Access(i);
      FollowsRank(before[i], workers[i], flag, claimed);
      if before[i] != Exited {
        AccessesAfter(before, claimed, i, workers[i]);
      }
    }

    method Access(i: nat)
      requires Valid() && i < |workers|
      modifies this, cache
      ensures Valid() && |workers| == |old(workers)| && workers == old(workers)[i := workers[i]]
      ensures Follows(old(workers)[i], workers[i], old(stop), old(next))
      ensures next == old(next) + if old(workers)[i] == Claiming then 1 else 0
      ensures old(workers)[i].Publishing? ==> found == if old(found) == [] then old(workers)[i].ordering else old(found)
      ensures !old(workers)[i].Publishing? ==> found == old(found)
      ensures old(workers)[i].Stopping? ==> stop
      ensures !old(workers)[i].Stopping? ==> stop == old(stop)
    {
      hide AfterReport, CrewOk, DynamicDecisionCache.Entries, DynamicDecisionCache.Valid, Feasible, IsWitness, Kept, Now,
        Pair, SearchDynamic.Valid, Sound, Truthful, Valid, WorkerOk;
      WorkerFacts(i);
      match workers[i] {
        case Looping => CheckStop(i);
        case Claiming => Claim(i);
        case Claimed(t) => Start(i, t);
        case Searching(t) => Search(i, t);
        case Reporting(t, d) => Report(i, t, d);
        case Publishing(t, o) => Publish(i, t, o);
        case TimingOut(t) => TimeOut(i, t, false);
        case Stopping(leave) => RaiseStop(i, leave);
        case Exited =>
      }
    }

    /** Where a worker goes from where it stands, given the stop flag and the next task it sees. */
    ghost predicate Follows(w: Worker, after: Worker, stop: bool, next: nat) {
      match w
      case Looping => after == if stop then Exited else Claiming
      case Claiming => after == if next < |tasks| then Claimed(next) else Exited
      case Claimed(t) => after == Searching(t) || (limited && after == Stopping(true))
      case Searching(t) => after.Reporting? && after.task == t && (after.result.Undecided? ==> limited || stop)
      case Reporting(t, d) => after == AfterReport(d, stop, t)
      case Publishing(_, _) => after == Stopping(false)
      case TimingOut(_) => after == Stopping(false)
      case Stopping(leave) => after == if leave then Exited else Looping
      case Exited => after == Exited
    }

    /** Every access but a claim lowers the rank of its worker. */
    lemma FollowsRank(w: Worker, after: Worker, stop: bool, next: nat)
      requires Follows(w, after, stop, next)
      ensures w != Claiming && w != Exited ==> Rank(after) < Rank(w)
      ensures w == Claiming ==> after == Exited || (after.Claimed? && next < |tasks|)
    {
    }

    lemma WorkerFacts(i: nat)
      requires Valid() && i < |workers|
      ensures WorkerOk(g, k, limited, tasks, Now(), workers[i]) && CrewOk(g, k, limited, tasks, workers, Now())
      ensures Sound() && cache.Valid() && Truthful(g, cache.Entries())
      ensures (stop ==> timedOut || found != []) && (found != [] ==> IsWitness(g, k, found)) && (timedOut ==> limited)
      ensures tasksStarted == |started| && tasksCompleted == |completed|
      ensures workers[i].TimingOut? ==> limited && workers[i].task < |tasks|
    {
      hide Covers, TasksOk, IsWitness;
    }

    lemma CrewChanged()
      requires Sound() && cache.Valid() && Truthful(g, cache.Entries())
      requires workers != [] && CrewOk(g, k, limited, tasks, workers, Now())
      requires (stop ==> timedOut || found != []) && (found != [] ==> IsWitness(g, k, found)) && (timedOut ==> limited)
      requires tasksStarted == |started| && tasksCompleted == |completed|
      ensures Valid()
    {
      hide CrewOk, Sound, Truthful, IsWitness, DynamicDecisionCache.Valid, DynamicDecisionCache.Entries;
    }

    method CheckStop(i: nat)
      requires Valid() && i < |workers| && workers[i] == Looping
      modifies this`workers
      ensures Valid() && |workers| == |old(workers)|
      ensures workers == old(workers)[i := if stop then Exited else Claiming]
    {
      hide CrewOk, DynamicDecisionCache.Entries, DynamicDecisionCache.Valid, Feasible, IsWitness, Pair,
        SearchDynamic.Valid, Sound, Truthful;
      WorkerFacts(i);
      FreeStep(g, k, limited, tasks, workers, Now(), i, if stop then Exited else Claiming, stop);
      workers := workers[i := if stop then Exited else Claiming];
    }

    method Claim(i: nat)
      requires Valid() && i < |workers| && workers[i] == Claiming
      modifies this`workers, this`next
      ensures Valid() && |workers| == |old(workers)|
      ensures next == old(next) + 1
      ensures workers == old(workers)[i := if old(next) < |tasks| then Claimed(old(next)) else Exited]
    {
      hide CrewOk, DynamicDecisionCache.Entries, DynamicDecisionCache.Valid, IsWitness, SearchDynamic.Valid, Sound,
        Truthful, WorkerOk;
      WorkerFacts(i);
      ClaimStep(g, k, limited, tasks, workers, Now(), i);
      var task := next;
      next := next + 1;
      workers := workers[i := if task < |tasks| then Claimed(task) else Exited];
    }

    /** Past the deadline the run is timed out; otherwise the task counts as started. */
    method Start(i: nat, t: nat)
      requires Valid() && i < |workers| && workers[i] == Claimed(t)
      modifies this`workers, this`timedOut, this`tasksStarted, this`started
      ensures Valid() && |workers| == |old(workers)|
      ensures || (limited && timedOut && started == old(started) && workers == old(workers)[i := Stopping(true)])
              || (timedOut == old(timedOut) && t !in old(started) && started == old(started) + {t}
                  && workers == old(workers)[i := Searching(t)])
      ensures !limited ==> workers == old(workers)[i := Searching(t)]
    {
      hide Accounted, Apart, Covers, Cut, DynamicDecisionCache.Entries, DynamicDecisionCache.Valid, Elems,
        Feasible, IsPath, IsWitness, Pair, SearchDynamic.Valid, Solves, TaskOk, TasksOk, Truthful;
      WorkerFacts(i);
      if limited {
        if * {
          TimeOut(i, t, true);
          return;
        }
      }
      assert completed <= started && refuted <= completed;
      tasksStarted := tasksStarted + 1;
      ghost var before := Now();
      started := started + {t};
      HolderStep(g, k, limited, tasks, workers, before, i, Searching(t), Now(), t);
      workers := workers[i := Searching(t)];
    }

    /** The subtree search, interrupted at will once a limit or the raised stop allows it. */
    method Search(i: nat, t: nat)
      requires Valid() && i < |workers| && workers[i] == Searching(t)
      modifies this`workers, cache
      ensures Valid() && |workers| == |old(workers)|
      ensures workers[i].Reporting? && workers == old(workers)[i := Reporting(t, workers[i].result)]
      ensures workers[i].result.Undecided? ==> limited || stop
      ensures workers[i].result == Refuted && options.useCache ==> t < |tasks| && Kept(cache, Pair(tasks[t]), k)
    {
      hide Accounted, Apart, Covers, Cut, DynamicDecisionCache.Entries, DynamicDecisionCache.Valid, Elems,
        Feasible, IsPath, IsWitness, Pair, SearchDynamic.Valid, Solves, TaskOk, TasksOk, Truthful;
      WorkerFacts(i);
      InTasks(i, t);
      assert completed <= started && refuted <= completed;
      TaskPath(g, k, tasks[t]);
      var d := SearchBelow(g, k, options, cache, [tasks[t].first, tasks[t].second], tasks[t].cut, limited || stop,
                           None);
      if d.Witness? {
        TaskWitness(g, k, tasks[t], d.ordering);
      }
      HolderStep(g, k, limited, tasks, workers, Now(), i, Reporting(t, d), Now(), t);
      workers := workers[i := Reporting(t, d)];
    }

    lemma InTasks(i: nat, t: nat)
      requires Sound() && t < |tasks|
      ensures TaskOk(g, k, tasks[t])
    {
    }

    /** Records the result of a search; only a refutation leaves the worker free to go on. */
    method Report(i: nat, t: nat, d: Decision)
      requires Valid() && i < |workers| && workers[i] == Reporting(t, d)
      modifies this`workers, this`tasksCompleted, this`completed, this`refuted
      ensures Valid() && |workers| == |old(workers)|
      ensures workers == old(workers)[i := AfterReport(d, stop, t)]
      ensures completed == if d.Undecided? then old(completed) else old(completed) + {t}
      ensures refuted == if d == Refuted then old(refuted) + {t} else old(refuted)
    {
      hide AfterReport, CrewOk, DynamicDecisionCache.Entries, DynamicDecisionCache.Valid, IsWitness,
        SearchDynamic.Valid, Sound, Truthful, Valid, WorkerOk;
      WorkerFacts(i);
      ghost var before := Now();
      ReportStep(g, k, limited, tasks, workers, before, i, t, d, stop);
      if !d.Undecided? {
        tasksCompleted := tasksCompleted + 1;
        completed := completed + {t};
      }
      if d == Refuted {
        refuted := refuted + {t};
      }
      assert Now() == ReportProgress(before, d, t);
      hide ReportProgress;
      workers := workers[i := AfterReport(d, stop, t)];
      CrewChanged();
    }

    /** The first witness is kept. */
    method Publish(i: nat, t: nat, o: seq<Vertex>)
      requires Valid() && i < |workers| && workers[i] == Publishing(t, o)
      modifies this`workers, this`found
      ensures Valid() && |workers| == |old(workers)|
      ensures workers == old(workers)[i := Stopping(false)] && found == if old(found) == [] then o else old(found)
    {
      hide Accounted, Apart, DynamicDecisionCache.Entries, DynamicDecisionCache.Valid, Feasible, IsWitness, Pair,
        SearchDynamic.Valid, Sound, Truthful;
      WorkerFacts(i);
      ghost var before := Now();
      if found == [] {
        found := o;
      }
      assert completed <= started && refuted <= completed;
      HolderStep(g, k, limited, tasks, workers, before, i, Stopping(false), Now(), t);
      workers := workers[i := Stopping(false)];
    }

    method TimeOut(i: nat, t: nat, leave: bool)
      requires Valid() && i < |workers| && limited && Holds(workers[i], t) && t < |tasks|
      modifies this`workers, this`timedOut
      ensures Valid() && |workers| == |old(workers)|
      ensures timedOut && workers == old(workers)[i := Stopping(leave)]
    {
      hide Accounted, Apart, DynamicDecisionCache.Entries, DynamicDecisionCache.Valid, Feasible, IsWitness, Pair,
        SearchDynamic.Valid, Sound, Truthful;
      WorkerFacts(i);
      ghost var before := Now();
      timedOut := true;
      assert completed <= started && refuted <= completed;
      HolderStep(g, k, limited, tasks, workers, before, i, Stopping(leave), Now(), t);
      workers := workers[i := Stopping(leave)];
    }

    method RaiseStop(i: nat, leave: bool)
      requires Valid() && i < |workers| && workers[i] == Stopping(leave)
      modifies this`workers, this`stop
      ensures Valid() && |workers| == |old(workers)|
      ensures stop && workers == old(workers)[i := if leave then Exited else Looping]
    {
      hide CrewOk, DynamicDecisionCache.Entries, DynamicDecisionCache.Valid, Feasible, IsWitness, Pair,
        SearchDynamic.Valid, Sound, Truthful;
      WorkerFacts(i);
      FreeStep(g, k, limited, tasks, workers, Now(), i, if leave then Exited else Looping, true);
      stop := true;
      workers := workers[i := if leave then Exited else Looping];
    }

    /** Any interleaving of the workers' steps. */
    method Run(schedule: seq<nat>)
      requires Valid() && forall j :: 0 <= j < |schedule| ==> schedule[j] < |workers|
      modifies this, cache
      ensures Valid() && |workers| == |old(workers)|
    {
      for j := 0 to |schedule|
        invariant Valid() && |workers| == |old(workers)|
      {
        hide *;
        Step(schedule[j]);
      }
    }

    /** The first worker that has not left yet; the number of workers if all have. */
    method Busy() returns (i: nat)
      ensures i <= |workers| && (i < |workers| ==> workers[i] != Exited)
      ensures i == |workers| ==> forall j :: 0 <= j < |workers| ==> workers[j] == Exited
    {
      for j := 0 to |workers|
        invariant forall l :: 0 <= l < j ==> workers[l] == Exited
      {
        if workers[j] != Exited {
          return j;
        }
      }
      return |workers|;
    }

    /** A run in which somebody always moves ends, after at most nine accesses for each task. */
    method Finish() returns (ghost accesses: nat)
      requires Valid()
      modifies this, cache
      ensures Valid() && |workers| == |old(workers)| && forall i :: 0 <= i < |workers| ==> workers[i] == Exited
      ensures accesses <= old(Accesses())
    {
      hide Accesses, Follows, Valid;
      accesses := 0;
      var mover: nat := Busy();
      while mover < |workers|
        invariant Valid() && |workers| == |old(workers)| && mover <= |workers|
        invariant mover < |workers| ==> workers[mover] != Exited
        invariant mover == |workers| ==> forall i :: 0 <= i < |workers| ==> workers[i] == Exited
        invariant accesses + Accesses() <= old(Accesses())
        decreases Accesses()
      {
        Step(mover);
        accesses := accesses + 1;
        mover := Busy();
      }
    }

    /** The verdict once every worker has left. */
    method Combine() returns (d: Decision)
      requires Valid() && forall i :: 0 <= i < |workers| ==> workers[i] == Exited
      ensures d == Refuted ==>
                (!exists o :: IsWitness(g, k, o)) && tasksStarted == |tasks| && tasksCompleted == |tasks|
      ensures d.Witness? ==> IsWitness(g, k, d.ordering)
      ensures d == Undecided ==> limited
      ensures if found != [] then d == Witness(found) else d == if timedOut then Undecided else Refuted
    {
      hide Below, Covers, CrewOk, DynamicDecisionCache.Entries, DynamicDecisionCache.Valid, Feasible, IsWitness,
        SearchDynamic.Valid, TasksOk, Truthful, WorkerOk;
      assert workers != [];
      WorkerFacts(0);
      if found != [] {
        return Witness(found);
      }
      if timedOut {
        return Undecided;
      }
      AllRefuted(g, k, limited, tasks, workers, Now());
      FeasibleFromScratch(g, k);
      return Refuted;
    }
  }

  /** The whole parallel decision: without a deadline it finds a witness, or proves that there is none. */
  method DecideParallel(g: Graph, k: nat, options: SearchOptions, limited: bool, cache: ProofCache, threads: nat)
    returns (d: Decision)
    requires options.localDepth > 0 ==> options.enumerator != Scanned
    requires cache.Valid() && Truthful(g, cache.Entries()) && threads > 0
    modifies cache
    ensures d == Refuted ==> !exists o :: IsWitness(g, k, o)
    ensures d.Witness? ==> IsWitness(g, k, d.ordering)
    ensures d == Undecided ==> limited
  {
    hide *;
    var frontier := BuildFrontier(g, k, options.useTwins, options.failFirst);
    if frontier.Answered? {
      return frontier.decision;
    }
    var run := new FrontierRun(g, k, options, limited, cache, frontier.tasks, threads);
    var _ := run.Finish();
    d := run.Combine();
  }
}
