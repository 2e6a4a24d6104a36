/**
  The controller's worker pool as lock-protected steps: epochs are granted permits,
  tasks turn permits into leases, idle leases move to other epochs, drained epochs close.
 */
module GlobalExecutors {
  import opened Options
  import opened RoundRobins

  /** A registered arm; its identity survives reconstruction of the object behind the handle. */
  datatype Session = Session(handle: nat, identity: nat)

  datatype Binding = Binding(session: Session, threshold: nat, generation: nat)

  datatype Epoch = Epoch(key: nat, pending: nat, active: nat, draining: bool)

  datatype Request = Request(session: Session, threshold: nat, permits: nat)

  /**
    A drain in progress: waiting for the first of its epochs, whose place in the
    table it has looked up; finished; ended by an exception because a later one was
    gone; or left with a place that another drain has erased.
   */
  datatype Drain = Waiting(todo: seq<nat>) | Finished | Raised | Dangling

  // ---- Draining ----

  function Drained(e: Epoch): bool {
    e.pending == 0 && e.active == 0
  }

  /** What one locked section of a drain does: closes epochs as long as they are drained. */
  function DrainOn(epochs: map<nat, Epoch>, todo: seq<nat>): (r: (map<nat, Epoch>, Drain))
    ensures r.1.Waiting? ==> r.1.todo != [] && forall id :: id in r.1.todo ==> id in todo
    decreases |todo|
  {
    if todo == [] then (epochs, Finished)
    else if todo[0] !in epochs then (epochs, Raised)
    else if !Drained(epochs[todo[0]]) then (epochs, Waiting(todo))
    else DrainOn(epochs - {todo[0]}, todo[1..])
  }

  ghost function Listed(ids: seq<nat>): set<nat> {
    set id | id in ids
  }

  ghost predicate Distinct(ids: seq<nat>) {
    forall i, j :: 0 <= i < j < |ids| ==> ids[i] != ids[j]
  }

  /** A drain runs to its end in one section exactly when its epochs are distinct, known and drained. */
  lemma {:induction false} DrainCompletes(epochs: map<nat, Epoch>, todo: seq<nat>)
    ensures DrainOn(epochs, todo).1 == Finished <==>
              Distinct(todo) && forall id :: id in todo ==> id in epochs && Drained(epochs[id])
    decreases |todo|
  {
    if todo != [] {
      assert todo == [todo[0]] + todo[1..];
      if todo[0] in epochs && Drained(epochs[todo[0]]) {
        DrainCompletes(epochs - {todo[0]}, todo[1..]);
        DistinctTail(todo);
      }
    }
  }

  lemma DistinctTail(ids: seq<nat>)
    requires ids != []
    ensures Distinct(ids) <==> ids[0] !in ids[1..] && Distinct(ids[1..])
  {
    if !Distinct(ids) {
      var i, j :| 0 <= i < j < |ids| && ids[i] == ids[j];
      if i == 0 {
        assert ids[1..][j - 1] == ids[0];
      } else {
        assert ids[1..][i - 1] == ids[1..][j - 1];
      }
    }
  }

  /** A drain of distinct known epochs is never surprised: it closes some of them and waits for the others. */
  lemma {:induction false} DrainKeepsOn(epochs: map<nat, Epoch>, todo: seq<nat>)
    requires Distinct(todo) && forall id :: id in todo ==> id in epochs
    ensures var (after, d) := DrainOn(epochs, todo);
            && (d == Finished || (d.Waiting? && Distinct(d.todo)))
            && (forall id :: id in epochs && id !in todo ==> id in after)
            && (d.Waiting? ==> forall id :: id in d.todo ==> id in after)
    decreases |todo|
  {
    if todo != [] {
      assert todo == [todo[0]] + todo[1..];
      if Drained(epochs[todo[0]]) {
        DistinctTail(todo);
        DrainKeepsOn(epochs - {todo[0]}, todo[1..]);
      }
    }
  }

  /** A drain that names an epoch twice, or one that is gone, never finishes. */
  lemma {:induction false} DoomedDrain(epochs: map<nat, Epoch>, todo: seq<nat>)
    requires !(Distinct(todo) && forall id :: id in todo ==> id in epochs)
    ensures var (after, d) := DrainOn(epochs, todo);
            && d != Finished
            && (d.Waiting? ==> !(Distinct(d.todo) && forall id :: id in d.todo ==> id in after))
    decreases |todo|
  {
    if todo != [] && todo[0] in epochs && Drained(epochs[todo[0]]) {
      assert todo == [todo[0]] + todo[1..];
      DistinctTail(todo);
      DoomedDrain(epochs - {todo[0]}, todo[1..]);
    }
  }

  ghost predicate AllApart(drains: seq<Drain>, known: set<nat>) {
    && (forall d :: 0 <= d < |drains| ==> drains[d] == Finished || (drains[d].Waiting? && drains[d].todo != []))
    && (forall d :: 0 <= d < |drains| && drains[d].Waiting? ==>
          Distinct(drains[d].todo) && forall id :: id in drains[d].todo ==> id in known)
    && (forall d, e, id :: 0 <= d < e < |drains| && drains[d].Waiting? && drains[e].Waiting? && id in drains[d].todo ==>
          id !in drains[e].todo)
  }

  ghost function NamedBy(drains: seq<Drain>): set<nat> {
    set d, id | 0 <= d < |drains| && drains[d].Waiting? && id in drains[d].todo :: id
  }

  lemma OneMoreDrain(drains: seq<Drain>, marked: map<nat, Epoch>, ids: seq<nat>)
    requires AllApart(drains, marked.Keys) && Distinct(ids) && NamedBy(drains) !! Listed(ids)
    requires forall id :: id in ids ==> id in marked
    ensures var (after, d) := DrainOn(marked, ids); AllApart(drains + [d], after.Keys)
  {
    hide Distinct, DrainOn;
    DrainKeepsOn(marked, ids);
    forall d, id | 0 <= d < |drains| && drains[d].Waiting? && id in drains[d].todo ensures id !in ids {
      assert id in NamedBy(drains);
    }
  }

  // ---- The books ----

  /** Every epoch's counts are the queued permits and the held leases that name it. */
  ghost predicate Accounted(epochs: map<nat, Epoch>, queued: multiset<nat>, held: multiset<nat>) {
    && (forall id :: id in epochs ==> epochs[id].pending == queued[id] && epochs[id].active == held[id])
    && (forall id :: id in queued || id in held ==> id in epochs)
  }

  ghost predicate Bound(epochs: map<nat, Epoch>, bindings: map<nat, Binding>) {
    forall id :: id in epochs ==> epochs[id].key in bindings
  }

  /** A session has at most one epoch that is still open. */
  ghost predicate Exclusive(epochs: map<nat, Epoch>) {
    forall a, b :: a in epochs && b in epochs && a != b && epochs[a].key == epochs[b].key ==>
      epochs[a].draining || epochs[b].draining
  }

  ghost predicate Issued(epochs: map<nat, Epoch>, next: nat) {
    forall id :: id in epochs ==> 0 < id < next
  }

  /** A generation names one binding of its threshold. */
  ghost predicate Distinguished(bindings: map<nat, Binding>, generations: map<nat, nat>) {
    && (forall k :: k in bindings ==>
          bindings[k].session.identity == k && 0 < bindings[k].generation <= At(generations, bindings[k].threshold))
    && (forall k, l :: k in bindings && l in bindings && k != l && bindings[k].threshold == bindings[l].threshold ==>
          bindings[k].generation != bindings[l].generation)
  }

  ghost predicate OnePerIdentity(sessions: seq<Session>) {
    forall s, t :: s in sessions && t in sessions && s.identity == t.identity ==> s == t
  }

  /** Only counts differ. */
  ghost predicate Recounted(before: map<nat, Epoch>, after: map<nat, Epoch>) {
    && after.Keys == before.Keys
    && forall id :: id in before ==> after[id].key == before[id].key && after[id].draining == before[id].draining
  }

  function Claimed(epochs: map<nat, Epoch>, id: nat): map<nat, Epoch>
    requires id in epochs && epochs[id].pending > 0
  {
    epochs[id := epochs[id].(pending := epochs[id].pending - 1, active := epochs[id].active + 1)]
  }

  function Released(epochs: map<nat, Epoch>, id: nat): map<nat, Epoch>
    requires id in epochs && epochs[id].active > 0
  {
    epochs[id := epochs[id].(active := epochs[id].active - 1)]
  }

  function Helped(epochs: map<nat, Epoch>, id: nat): map<nat, Epoch>
    requires id in epochs
  {
    epochs[id := epochs[id].(active := epochs[id].active + 1)]
  }

  lemma LeaseStarts(epochs: map<nat, Epoch>, permits: seq<nat>, held: multiset<nat>)
    requires permits != [] && Accounted(epochs, multiset(permits), held)
    ensures permits[0] in epochs && epochs[permits[0]].pending > 0
    ensures Accounted(Claimed(epochs, permits[0]), multiset(permits[1..]), held + multiset{permits[0]})
    ensures Recounted(epochs, Claimed(epochs, permits[0]))
    ensures |held + multiset{permits[0]}| == |held| + 1
  {
    assert permits == [permits[0]] + permits[1..];
    assert permits[0] in multiset(permits);
  }

  lemma LeaseMoves(epochs: map<nat, Epoch>, queued: multiset<nat>, held: multiset<nat>, from: nat, to: nat)
    requires Accounted(epochs, queued, held) && from in held && to in epochs && from != to
    ensures from in epochs && epochs[from].active > 0 && to in Released(epochs, from)
    ensures Accounted(Helped(Released(epochs, from), to), queued, held - multiset{from} + multiset{to})
    ensures Recounted(epochs, Helped(Released(epochs, from), to))
    ensures |held - multiset{from} + multiset{to}| == |held|
  {
  }

  lemma LeaseEnds(epochs: map<nat, Epoch>, queued: multiset<nat>, held: multiset<nat>, id: nat)
    requires Accounted(epochs, queued, held) && id in held
    ensures id in epochs && epochs[id].active > 0
    ensures Accounted(Released(epochs, id), queued, held - multiset{id})
    ensures Recounted(epochs, Released(epochs, id))
    ensures |held - multiset{id}| == |held| - 1
  {
  }

  lemma EpochOpens(epochs: map<nat, Epoch>, queued: multiset<nat>, held: multiset<nat>, id: nat, key: nat, permits: nat)
    requires Accounted(epochs, queued, held) && id !in epochs
    ensures queued[id] == 0
    ensures Accounted(epochs[id := Epoch(key, permits, 0, false)], queued[id := permits], held)
  {
  }

  lemma EpochCloses(epochs: map<nat, Epoch>, queued: multiset<nat>, held: multiset<nat>, id: nat)
    requires Accounted(epochs, queued, held) && id in epochs
    requires epochs[id].pending == 0 && epochs[id].active == 0
    ensures id !in queued && id !in held && Accounted(epochs - {id}, queued, held)
  {
  }

  /** With no lease held, no epoch is active: quiescence waits for exactly that. */
  lemma QuietMeansIdle(epochs: map<nat, Epoch>, queued: multiset<nat>, held: multiset<nat>)
    requires Accounted(epochs, queued, held)
    ensures |held| == 0 <==> forall id :: id in epochs ==> epochs[id].active == 0
  {
    if |held| != 0 {
      var id :| id in held;
      assert epochs[id].active > 0;
    }
  }

  lemma AdmittedCount(permits: seq<nat>, id: nat, added: nat)
    ensures |Admitted(permits, id, added)| == |permits| + added
  {
    assert Admitted(permits, id, added) == multiset(permits) + multiset{}[id := added];
  }

  // ---- Choosing an epoch to help ----

  /** An epoch other than current whose session is bound and has runnable work. */
  predicate Helpable(epochs: map<nat, Epoch>, bindings: map<nat, Binding>, runnable: set<nat>, current: nat, id: nat) {
    && id in epochs && id != current
    && epochs[id].key in bindings && bindings[epochs[id].key].session.handle in runnable
  }

  /** Smaller threshold first, then the older epoch. */
  predicate Before(epochs: map<nat, Epoch>, bindings: map<nat, Binding>, a: nat, b: nat)
    requires a in epochs && epochs[a].key in bindings && b in epochs && epochs[b].key in bindings
  {
    var s, t := bindings[epochs[a].key].threshold, bindings[epochs[b].key].threshold;
    if s != t then s < t else a < b
  }

  ghost predicate IsTarget(epochs: map<nat, Epoch>, bindings: map<nat, Binding>, runnable: set<nat>,
                           current: nat, target: Option<nat>) {
    match target
    case None => forall id :: !Helpable(epochs, bindings, runnable, current, id)
    case Some(t) =>
      && Helpable(epochs, bindings, runnable, current, t)
      && forall id :: Helpable(epochs, bindings, runnable, current, id) && id != t ==> Before(epochs, bindings, t, id)
  }

  /** Spelled out: the target is another open epoch of a bound session with work, and none such has a smaller threshold. */
  lemma TargetIsLeast(epochs: map<nat, Epoch>, bindings: map<nat, Binding>, runnable: set<nat>, current: nat, target: Option<nat>)
    requires IsTarget(epochs, bindings, runnable, current, target)
    ensures target.Some? ==>
              var t := target.value;
              && t in epochs && t != current && epochs[t].key in bindings
              && bindings[epochs[t].key].session.handle in runnable
              && forall id :: id in epochs && id != current && id != t && epochs[id].key in bindings
                              && bindings[epochs[id].key].session.handle in runnable ==>
                   var a, b := bindings[epochs[t].key].threshold, bindings[epochs[id].key].threshold;
                   a < b || (a == b && t < id)
    ensures target == None ==>
              forall id :: id in epochs && id != current && epochs[id].key in bindings ==>
                bindings[epochs[id].key].session.handle !in runnable
  {
    if target.Some? {
      forall id | id in epochs && id != current && id != target.value && epochs[id].key in bindings
                  && bindings[epochs[id].key].session.handle in runnable
        ensures Before(epochs, bindings, target.value, id)
      {
        assert Helpable(epochs, bindings, runnable, current, id);
      }
    } else {
      forall id | id in epochs && id != current && epochs[id].key in bindings
        ensures bindings[epochs[id].key].session.handle !in runnable
      {
        assert !Helpable(epochs, bindings, runnable, current, id);
      }
    }
  }

  method ChooseTarget(epochs: map<nat, Epoch>, bindings: map<nat, Binding>, runnable: set<nat>, current: nat)
    returns (target: Option<nat>)
    ensures IsTarget(epochs, bindings, runnable, current, target)
  {
    target := None;
    var ids := epochs.Keys;
    while ids != {}
      invariant ids <= epochs.Keys
      invariant target.Some? ==> target.value !in ids && Helpable(epochs, bindings, runnable, current, target.value)
      invariant forall id :: Helpable(epochs, bindings, runnable, current, id) && id !in ids ==>
        target.Some? && (id != target.value ==> Before(epochs, bindings, target.value, id))
      decreases |ids|
    {
      var id :| id in ids;
      ids := ids - {id};
      if Helpable(epochs, bindings, runnable, current, id) {
        if target.None? || Before(epochs, bindings, id, target.value) {
          target := Some(id);
        }
      }
    }
  }

  class GlobalExecutor {
    var sessions: seq<Session>
    var bindings: map<nat, Binding>
    var generations: map<nat, nat>
    var epochs: map<nat, Epoch>
    var permits: seq<nat>
    var nextEpoch: nat
    var activeLeases: nat
    var paused: bool
    var stopping: bool
    /** Tasks submitted to the pool and not yet begun. */
    var scheduled: nat
    /** The epoch each running task currently serves. */
    var held: multiset<nat>
    /** The drains begun so far. */
    var drains: seq<Drain>
    ghost var granted: nat
    ghost var returned: nat

    ghost predicate BooksBalance()
      reads this`epochs, this`permits, this`held, this`activeLeases, this`granted, this`returned
    {
      && Accounted(epochs, multiset(permits), held)
      && activeLeases == |held|
      && granted == |permits| + |held| + returned
    }

    ghost predicate Identified()
      reads this`epochs, this`bindings, this`generations, this`nextEpoch, this`sessions
    {
      && OnePerIdentity(sessions)
      && Bound(epochs, bindings) && Exclusive(epochs) && Issued(epochs, nextEpoch)
      && Distinguished(bindings, generations) && nextEpoch > 0
    }

    /** While tasks may start leases, every queued permit has a submitted task. */
    ghost predicate Staffed()
      reads this`paused, this`stopping, this`scheduled, this`permits
    {
      !paused && !stopping ==> |permits| <= scheduled
    }

    /** No drain goes on from a place in the table that was erased. */
    ghost predicate Anchored()
      reads this`drains
    {
      forall d :: 0 <= d < |drains| ==> drains[d] != Dangling
    }

    ghost predicate Valid()
      reads this
    {
      BooksBalance() && Identified() && Staffed() && Anchored()
    }

    /** No drain was ended by an exception, and no epoch is named twice by those in progress. */
    ghost predicate DrainsApart()
      reads this`drains, this`epochs
    {
      AllApart(drains, epochs.Keys)
    }

    constructor ()
      ensures Valid() && !paused && epochs == map[] && permits == [] && sessions == [] && granted == 0
      ensures bindings == map[] && drains == [] && !stopping
    {
      sessions, bindings, generations, epochs, permits, drains := [], map[], map[], map[], [], [];
      nextEpoch, activeLeases, paused, stopping, scheduled := 1, 0, false, false, 0;
      held, granted, returned := multiset{}, 0, 0;
    }

    /** Two registered sessions never share an identity; registering one twice changes nothing. */
    method Register(session: Session) returns (ok: bool)
      requires Valid()
      modifies this`sessions
      ensures Valid()
      ensures ok <==> forall s :: s in old(sessions) && s.identity == session.identity ==> s == session
      ensures sessions == if ok && session !in old(sessions) then old(sessions) + [session] else old(sessions)
    {
      hide Accounted, Bound, Exclusive, Issued, Distinguished, Staffed, BooksBalance;
      for i := 0 to |sessions|
        invariant sessions == old(sessions)
        invariant forall j :: 0 <= j < i ==> sessions[j] != session && sessions[j].identity != session.identity
      {
        if sessions[i] == session {
          return true;
        }
        if sessions[i].identity == session.identity {
          return false;
        }
      }
      sessions := sessions + [session];
      return true;
    }

    // ---- Granting ----

    /** A request that is refused before it opens an epoch. */
    ghost predicate Refused(request: Request)
      reads this`epochs, this`bindings, this`sessions
    {
      || request.permits == 0
      || Unbindable(request.session, request.threshold)
      || exists id :: id in epochs && epochs[id].key == request.session.identity && !epochs[id].draining
    }

    ghost predicate Unbindable(session: Session, threshold: nat)
      reads this`bindings, this`sessions
    {
      if session.identity in bindings then bindings[session.identity].threshold != threshold
      else session !in sessions
    }

    /** What can be checked before a batch: no request is refused, and none repeats an identity. */
    ghost predicate Grantable(requests: seq<Request>)
      reads this`epochs, this`bindings, this`sessions
    {
      && (forall i :: 0 <= i < |requests| ==> !Refused(requests[i]))
      && OneEach(requests)
    }

    /** The batch opens an epoch and is then refused. */
    ghost predicate HalfOpened(requests: seq<Request>)
      reads this`epochs, this`bindings, this`sessions
    {
      requests != [] && !Refused(requests[0]) && !Grantable(requests)
    }

    /** The epoch that the drain waits for is gone. */
    ghost predicate Overtaken(d: nat)
      reads this`drains, this`epochs
    {
      d < |drains| && drains[d].Waiting? && drains[d].todo != [] && drains[d].todo[0] !in epochs
    }

    /** What can be checked before a drain: it names no epoch twice, and none that a drain in progress names. */
    ghost predicate Unnamed(ids: seq<nat>)
      reads this`drains
    {
      Distinct(ids) && Named() !! Listed(ids)
    }

    /** The epochs that drains in progress still have to close. */
    ghost function Named(): set<nat>
      reads this`drains
    {
      NamedBy(drains)
    }

    /** Binds once per identity: a bound session keeps its generation, a new one starts the threshold's next. */
    method Bind(session: Session, threshold: nat) returns (generation: Option<nat>)
      requires Identified()
      modifies this`bindings, this`generations
      ensures Identified()
      ensures forall k :: k in old(bindings) ==> k in bindings
      ensures generation.None? <==> old(Unbindable(session, threshold))
      ensures generation.None? || session.identity in old(bindings) ==>
        bindings == old(bindings) && generations == old(generations)
      ensures generation.Some? ==>
        && session.identity in bindings && bindings[session.identity].threshold == threshold
        && bindings[session.identity].generation == generation.value
      ensures generation.Some? && session.identity !in old(bindings) ==>
        && generation.value == old(At(generations, threshold)) + 1
        && generations == old(generations)[threshold := generation.value]
        && bindings == old(bindings)[session.identity := Binding(session, threshold, generation.value)]
    {
      if session.identity in bindings {
        var existing := bindings[session.identity];
        if existing.threshold != threshold {
          return None;
        }
        return Some(existing.generation);
      }
      if session !in sessions {
        return None;
      }
      var n := At(generations, threshold) + 1;
      BindingAdded(bindings, generations, session, threshold);
      hide Distinguished;
      generations := generations[threshold := n];
      bindings := bindings[session.identity := Binding(session, threshold, n)];
      return Some(n);
    }

    /** Opens one epoch of a batch; its permits are still to be queued. */
    method Open(request: Request) returns (id: Option<nat>)
      requires Identified()
      modifies this`bindings, this`generations, this`epochs, this`nextEpoch
      ensures Identified()
      ensures id.None? <==> old(Refused(request))
      ensures id.None? ==> epochs == old(epochs) && nextEpoch == old(nextEpoch)
      ensures id.Some? ==>
        && request.permits > 0 && id.value == old(nextEpoch) && nextEpoch == id.value + 1 && id.value !in old(epochs)
        && epochs == old(epochs)[id.value := Epoch(request.session.identity, request.permits, 0, false)]
        && request.session.identity in bindings
        && bindings[request.session.identity].threshold == request.threshold
      ensures forall r: Request :: r.session.identity != request.session.identity ==> (Refused(r) <==> old(Refused(r)))
      ensures id.Some? ==> forall r: Request :: r.session.identity == request.session.identity ==> Refused(r)
    {
      hide Bound, Exclusive, Issued, Distinguished;
      if request.permits == 0 {
        return None;
      }
      var generation := Bind(request.session, request.threshold);
      if generation.None? {
        return None;
      }
      var key := request.session.identity;
      var open := HasOpenEpoch(key);
      if open {
        return None;
      }
      id := Some(nextEpoch);
      EpochIdentified(epochs, bindings, nextEpoch, key, request.permits);
      assert nextEpoch !in epochs;
      nextEpoch := nextEpoch + 1;
      epochs := epochs[id.value := Epoch(key, request.permits, 0, false)];
      assert epochs[id.value].key == key && !epochs[id.value].draining;
      forall r: Request | r.session.identity != key ensures Refused(r) <==> old(Refused(r)) {
        OtherEpochs(old(epochs), epochs, id.value, r.session.identity);
      }
    }

    method HasOpenEpoch(key: nat) returns (open: bool)
      ensures open <==> exists id :: id in epochs && epochs[id].key == key && !epochs[id].draining
    {
      var ids := epochs.Keys;
      while ids != {}
        invariant ids <= epochs.Keys
        invariant forall id :: id in epochs && id !in ids ==> epochs[id].key != key || epochs[id].draining
        decreases |ids|
      {
        var id :| id in ids;
        if epochs[id].key == key && !epochs[id].draining {
          return true;
        }
        ids := ids - {id};
      }
      return false;
    }

    /** Submits one pool task for each of n permits. */
    method SubmitTasks(n: nat)
      modifies this`scheduled
      ensures scheduled == old(scheduled) + n
    {
      for j := 0 to n
        invariant scheduled == old(scheduled) + j
      {
        scheduled := scheduled + 1;
      }
    }

    /** Queues the permits of an opened epoch, in rounds with all that wait, and submits their tasks. */
    method Enqueue(id: nat, count: nat)
      requires Staffed() && granted == |permits| + |held| + returned
      modifies this`permits, this`scheduled, this`granted
      ensures multiset(permits) == Admitted(old(permits), id, count) && RoundRobin(permits)
      ensures Staffed() && granted == |permits| + |held| + returned
    {
      hide RoundRobin, Admitted;
      AdmittedCount(permits, id, count);
      permits := Rebuild(permits, id, count);
      assert |permits| == |multiset(permits)|;
      granted := granted + count;
      if !paused {
        SubmitTasks(count);
      }
    }

    /** Opens the epochs of a batch in order, stopping at the first refused request. */
    method OpenBatch(requests: seq<Request>) returns (ids: Option<seq<nat>>, ghost queued: multiset<nat>)
      requires BooksBalance() && Identified()
      modifies this`bindings, this`generations, this`epochs, this`nextEpoch
      ensures Identified()
      ensures ids.Some? <==> old(Grantable(requests))
      ensures ids.None? ==> requests != [] && (BooksBalance() <==> old(Refused(requests[0])))
      ensures old(epochs).Keys <= epochs.Keys
      ensures ids.None? && old(Refused(requests[0])) ==> epochs == old(epochs)
      ensures ids.None? ==> (nextEpoch == old(nextEpoch) <==> old(Refused(requests[0])))
      ensures ids.Some? ==>
        && Accounted(epochs, queued, held) && QueuedUpTo(permits, queued, old(nextEpoch))
        && Opened(old(epochs), epochs, requests, old(nextEpoch)) && nextEpoch == old(nextEpoch) + |requests|
        && |ids.value| == |requests| && forall j :: 0 <= j < |requests| ==> ids.value[j] == old(nextEpoch) + j
    {
      hide Accounted, Bound, Exclusive, Issued, Distinguished, Refused, Opened, QueuedUpTo, Fresh, OneEach;
      ghost var first := nextEpoch;
      var issued: seq<nat> := [];
      queued := multiset(permits);
      NothingOpened(epochs, held, permits, first);
      assert requests[..0] == [];
      NoneNamed();
      for i := 0 to |requests|
        invariant Identified() && Accounted(epochs, queued, held)
        invariant nextEpoch == first + i && |issued| == i && forall j :: 0 <= j < i ==> issued[j] == first + j
        invariant Opened(old(epochs), epochs, requests[..i], first) && old(epochs).Keys <= epochs.Keys
        invariant QueuedUpTo(permits, queued, first)
        invariant i == 0 ==> epochs == old(epochs)
        invariant i > 0 ==> requests[0].permits > 0
        invariant OneEach(requests[..i]) && forall m :: 0 <= m < i ==> !old(Refused(requests[m]))
        invariant forall r: Request :: Fresh(requests[..i], r) ==> (Refused(r) <==> old(Refused(r)))
        invariant forall r: Request :: !Fresh(requests[..i], r) ==> Refused(r)
      {
        FreshNext(requests, i);
        assert requests[..i + 1] == requests[..i] + [requests[i]];
        ghost var before := epochs;
        var id := Open(requests[i]);
        if id.None? {
          if i > 0 {
            PermitsMissing(old(epochs), epochs, requests[..i], held, permits, queued, first);
          }
          return None, queued;
        }
        EpochOpens(before, queued, held, id.value, requests[i].session.identity, requests[i].permits);
        OneOpened(old(epochs), before, requests[..i], first, requests[i]);
        MoreQueued(permits, queued, first, id.value, requests[i].permits);
        queued := queued[id.value := requests[i].permits];
        issued := issued + [id.value];
      }
      assert requests[..|requests|] == requests;
      return Some(issued), queued;
    }

    /**
      Opens every epoch of the batch and then queues their permits in rounds. A request that
      is refused after another was opened leaves that epoch waiting for permits nobody queued.
     */
    method GrantEpochs(requests: seq<Request>) returns (ids: Option<seq<nat>>)
      requires Valid()
      modifies this`bindings, this`generations, this`epochs, this`nextEpoch, this`permits, this`scheduled, this`granted
      ensures ids.Some? <==> old(Grantable(requests))
      ensures Valid() <==> old(Grantable(requests)) || (requests != [] && old(Refused(requests[0])))
      ensures old(epochs).Keys <= epochs.Keys
      ensures ids.None? && old(Refused(requests[0])) ==> epochs == old(epochs)
      ensures ids.None? ==> (nextEpoch == old(nextEpoch) <==> old(Refused(requests[0])))
      ensures ids.Some? ==> Opened(old(epochs), epochs, requests, old(nextEpoch)) && nextEpoch == old(nextEpoch) + |requests|
      ensures ids.Some? ==> |ids.value| == |requests| && forall j :: 0 <= j < |requests| ==> ids.value[j] == old(nextEpoch) + j
      ensures ids.Some? && requests != [] ==> RoundRobin(permits)
    {
      hide Accounted, Bound, Exclusive, Issued, Distinguished, RoundRobin, Admitted, Refused, Opened, Staffed, QueuedUpTo;
      ghost var first := nextEpoch;
      ghost var queued: multiset<nat>;
      ids, queued := OpenBatch(requests);
      if ids.None? {
        return;
      }
      for i := 0 to |requests|
        modifies this`permits, this`scheduled, this`granted
        invariant Accounted(epochs, queued, held) && Staffed()
        invariant QueuedUpTo(permits, queued, first + i)
        invariant granted == |permits| + |held| + returned
        invariant i > 0 ==> RoundRobin(permits)
      {
        OpenedPending(old(epochs), epochs, requests, queued, held, first, i);
        ghost var waiting := permits;
        Enqueue(ids.value[i], requests[i].permits);
        PermitsQueued(waiting, permits, queued, first + i, requests[i].permits);
      }
      AllQueued(epochs, permits, queued, held, nextEpoch);
    }

    /** A single grant is all or nothing. */
    method GrantEpoch(session: Session, threshold: nat, count: nat) returns (id: Option<nat>)
      requires Valid()
      modifies this`bindings, this`generations, this`epochs, this`nextEpoch, this`permits, this`scheduled, this`granted
      ensures Valid()
      ensures id.None? <==> old(Refused(Request(session, threshold, count)))
      ensures id.Some? ==>
        && id.value == old(nextEpoch) && id.value in epochs
        && epochs[id.value] == Epoch(session.identity, count, 0, false) && RoundRobin(permits)
    {
      hide Valid, Refused, RoundRobin;
      var requests := [Request(session, threshold, count)];
      assert requests[0] == Request(session, threshold, count);
      assert OneEach(requests);
      assert Grantable(requests) <==> !Refused(requests[0]);
      var ids := GrantEpochs(requests);
      if ids.None? {
        return None;
      }
      assert epochs[ids.value[0] + 0] == Epoch(requests[0].session.identity, requests[0].permits, 0, false);
      return Some(ids.value[0]);
    }

    // ---- Leases ----

    /** A pool task begins: it turns the first permit into a lease, or does nothing while paused. */
    method StartLease() returns (lease: Option<(nat, Session)>)
      requires Valid() && scheduled > 0
      modifies this`scheduled, this`permits, this`epochs, this`held, this`activeLeases
      ensures Valid() && scheduled == old(scheduled) - 1
      ensures lease.None? <==> old(stopping || paused || permits == [])
      ensures lease.None? ==> permits == old(permits) && epochs == old(epochs) && held == old(held)
      ensures lease.Some? ==>
        && old(permits) == [lease.value.0] + permits
        && held == old(held) + multiset{lease.value.0}
        && lease.value.0 in epochs && epochs[lease.value.0].key == lease.value.1.identity
        && Recounted(old(epochs), epochs)
    {
      hide BooksBalance, Identified, Recounted;
      scheduled := scheduled - 1;
      if stopping || paused || permits == [] {
        return None;
      }
      var id := permits[0];
      var session := Claim();
      return Some((id, session));
    }

    /** The lookups of the permit's epoch and of its binding always succeed. */
    method Claim() returns (session: Session)
      requires BooksBalance() && Identified() && permits != []
      modifies this`permits, this`epochs, this`held, this`activeLeases
      ensures BooksBalance() && Identified()
      ensures permits == old(permits)[1..]
      ensures held == old(held) + multiset{old(permits)[0]}
      ensures old(permits)[0] in epochs && epochs[old(permits)[0]].key == session.identity
      ensures Recounted(old(epochs), epochs)
    {
      hide Accounted, Bound, Exclusive, Issued, Distinguished, OnePerIdentity, Recounted, Claimed;
      var id := permits[0];
      LeaseStarts(epochs, permits, held);
      RecountedStaysIdentified(epochs, Claimed(epochs, id), bindings, nextEpoch);
      OwnBinding(epochs, bindings, generations, id);
      session := bindings[epochs[id].key].session;
      SameKey(epochs, Claimed(epochs, id), id);
      permits := permits[1..];
      epochs := Claimed(epochs, id);
      activeLeases := activeLeases + 1;
      held := held + multiset{id};
    }

    /**
      An idle lease moves to the epoch that most needs help. The donor still has the lease
      it gives away, so the source's check for a lost lease never fires.
     */
    method Steal(current: nat, runnable: set<nat>) returns (target: Option<nat>)
      requires Valid() && current in held
      modifies this`epochs, this`held
      ensures Valid() && |held| == |old(held)|
      ensures IsTarget(old(epochs), bindings, runnable, current, target)
      ensures target.Some? ==>
                && target.value in old(epochs) && target.value != current && old(epochs)[target.value].key in bindings
                && forall id :: id in old(epochs) && id != current && old(epochs)[id].key in bindings
                                && bindings[old(epochs)[id].key].session.handle in runnable ==>
                     bindings[old(epochs)[target.value].key].threshold <= bindings[old(epochs)[id].key].threshold
      ensures target.None? ==> unchanged(this)
      ensures target.Some? ==>
        held == old(held) - multiset{current} + multiset{target.value} && Recounted(old(epochs), epochs)
    {
      hide Accounted, Bound, Exclusive, Issued, Distinguished, OnePerIdentity, Staffed, IsTarget, Recounted,
        Released, Helped;
      target := ChooseTarget(epochs, bindings, runnable, current);
      TargetIsLeast(epochs, bindings, runnable, current, target);
      if target.None? {
        return;
      }
      var to := target.value;
      TargetIsOther(epochs, bindings, runnable, current, to);
      LeaseMoves(epochs, multiset(permits), held, current, to);
      RecountedStaysIdentified(epochs, Helped(Released(epochs, current), to), bindings, nextEpoch);
      epochs := Helped(Released(epochs, current), to);
      held := held - multiset{current} + multiset{to};
    }

    /** A task ends: its lease is returned to the epoch it last served. */
    method ReturnLease(current: nat)
      requires Valid() && current in held
      modifies this`epochs, this`held, this`activeLeases, this`returned
      ensures Valid() && held == old(held) - multiset{current} && returned == old(returned) + 1
      ensures Recounted(old(epochs), epochs)
    {
      hide Accounted, Anchored, Bound, Exclusive, Issued, Distinguished, OnePerIdentity, Staffed, Recounted, Released,
        DrainsApart, Named;
      ghost var queued := multiset(permits);
      LeaseEnds(epochs, queued, held, current);
      RecountedStaysIdentified(epochs, Released(epochs, current), bindings, nextEpoch);
      epochs := Released(epochs, current);
      activeLeases := activeLeases - 1;
      held := held - multiset{current};
      returned := returned + 1;
    }

    // ---- Draining ----

    /** Marks the epochs as draining; an unknown one refuses the whole request. */
    method BeginDrain(ids: seq<nat>) returns (ok: bool)
      requires Valid()
      modifies this`epochs
      ensures Valid()
      ensures ok <==> forall id :: id in ids ==> id in old(epochs)
      ensures !ok ==> epochs == old(epochs)
      ensures ok ==> Marked(old(epochs), epochs, ids)
    {
      hide Valid, Marked;
      var known := AreKnown(ids);
      if !known {
        return false;
      }
      NothingMarked(epochs);
      assert ids[..0] == [];
      for i := 0 to |ids|
        invariant Valid() && Marked(old(epochs), epochs, ids[..i])
      {
        assert ids[..i + 1] == ids[..i] + [ids[i]];
        OneMarked(old(epochs), epochs, ids[..i], ids[i]);
        MarkDraining(ids[i]);
      }
      assert ids[..|ids|] == ids;
      return true;
    }

    method AreKnown(ids: seq<nat>) returns (known: bool)
      ensures known <==> forall id :: id in ids ==> id in epochs
    {
      for i := 0 to |ids|
        invariant forall j :: 0 <= j < i ==> ids[j] in epochs
      {
        if ids[i] !in epochs {
          return false;
        }
      }
      return true;
    }

    method MarkDraining(id: nat)
      requires Valid() && id in epochs
      modifies this`epochs
      ensures Valid() && epochs == old(epochs)[id := old(epochs)[id].(draining := true)]
    {
      hide Accounted, Bound, Exclusive, Issued, Distinguished, OnePerIdentity, Staffed;
      DrainingMarked(epochs, multiset(permits), held, id);
      DrainingStaysIdentified(epochs, bindings, nextEpoch, id, epochs[id].(draining := true));
      epochs := epochs[id := epochs[id].(draining := true)];
    }

    /** Once its permits and leases are gone the epoch closes, and no permit or lease names it again. */
    method FinishDrain(id: nat) returns (session: Option<Session>)
      requires Valid() && id in epochs
      modifies this`epochs
      ensures Valid()
      ensures session.Some? <==> id !in multiset(permits) && id !in held
      ensures epochs == if session.Some? then old(epochs) - {id} else old(epochs)
      ensures session.Some? ==> session.value.identity == old(epochs)[id].key
    {
      hide Accounted, Anchored, Bound, Exclusive, Issued, Distinguished, OnePerIdentity, Staffed, DrainsApart, Named;
      PermitsAndLeases(epochs, multiset(permits), held, id);
      if epochs[id].pending != 0 || epochs[id].active != 0 {
        return None;
      }
      OwnBinding(epochs, bindings, generations, id);
      session := Some(bindings[epochs[id].key].session);
      EpochCloses(epochs, multiset(permits), held, id);
      EpochRemoved(epochs, bindings, nextEpoch, id);
      epochs := epochs - {id};
    }

    /** Marks the epochs of a drain and closes those that are drained already. */
    method StartDrain(ids: seq<nat>) returns (ok: bool)
      requires Valid()
      modifies this`epochs, this`drains
      ensures Valid()
      ensures ok <==> forall id :: id in ids ==> id in old(epochs)
      ensures !ok ==> epochs == old(epochs) && drains == old(drains)
      ensures ok ==> exists marked :: Marked(old(epochs), marked, ids) && (epochs, drains) == Going(old(drains), marked, ids)
      ensures Named() <= old(Named()) + Listed(ids)
      ensures old(DrainsApart()) && old(Unnamed(ids)) ==> DrainsApart()
    {
      hide BooksBalance, Distinct, DrainOn, Identified, Staffed;
      ok := BeginDrain(ids);
      if !ok {
        return;
      }
      ghost var marked := epochs;
      if old(DrainsApart()) && Unnamed(ids) {
        OneMoreDrain(drains, marked, ids);
      }
      var d := CloseDrained(ids);
      drains := drains + [d];
      assert (epochs, drains) == Going(old(drains), marked, ids);
    }

    /**
      A waiting drain is woken.  If another drain has closed the epoch it waits
      for, it goes on from an erased place.
     */
    method WakeDrain(d: nat)
      requires Valid() && d < |drains| && drains[d].Waiting? && drains[d].todo != []
      modifies this`epochs, this`drains
      ensures |drains| == |old(drains)| && drains == old(drains)[d := drains[d]]
      ensures Valid() <==> !old(Overtaken(d))
      ensures if Valid() then (epochs, drains[d]) == DrainOn(old(epochs), old(drains)[d].todo)
              else epochs == old(epochs) && drains[d] == Dangling
      ensures Named() <= old(Named()) && (old(DrainsApart()) ==> DrainsApart())
    {
      hide BooksBalance, Distinct, DrainOn, Identified, Staffed;
      var todo := drains[d].todo;
      if DrainsApart() {
        DrainKeepsOn(epochs, todo);
      }
      if todo[0] !in epochs {
        drains := drains[d := Dangling];
        return;
      }
      var next := CloseDrained(todo);
      drains := drains[d := next];
    }

    /** Closes the epochs in order as long as they are drained. */
    method CloseDrained(ids: seq<nat>) returns (d: Drain)
      requires Valid()
      modifies this`epochs
      ensures Valid() && (epochs, d) == DrainOn(old(epochs), ids) && d != Dangling
    {
      hide Valid;
      var todo := ids;
      while todo != []
        invariant Valid() && DrainOn(epochs, todo) == DrainOn(old(epochs), ids)
        decreases |todo|
      {
        if todo[0] !in epochs {
          return Raised;
        }
        IsDrained(todo[0]);
        var session := FinishDrain(todo[0]);
        if session.None? {
          return Waiting(todo);
        }
        todo := todo[1..];
      }
      return Finished;
    }

    lemma IsDrained(id: nat)
      requires Valid() && id in epochs
      ensures Drained(epochs[id]) <==> id !in multiset(permits) && id !in held
    {
      PermitsAndLeases(epochs, multiset(permits), held, id);
    }

    /**
      A drain never waits in vain: an epoch with permits has a submitted task to start one,
      and an epoch with leases has a running task that will return one.
     */
    lemma DrainHasNextStep(id: nat)
      requires Valid() && id in epochs && !paused && !stopping
      ensures epochs[id].pending > 0 ==> id in permits && scheduled > 0
      ensures epochs[id].active > 0 ==> id in held
    {
      if epochs[id].pending > 0 {
        assert id in multiset(permits);
      }
    }

    // ---- Pausing and retirement ----

    method Pause()
      requires Valid()
      modifies this`paused
      ensures Valid() && paused
    {
      hide BooksBalance, Identified;
      paused := true;
    }

    /** Quiescence holds exactly when no epoch is active. */
    method IsQuiet() returns (quiet: bool)
      requires Valid()
      ensures quiet <==> forall id :: id in epochs ==> epochs[id].active == 0
    {
      QuietMeansIdle(epochs, multiset(permits), held);
      return activeLeases == 0;
    }

    method Resume()
      requires Valid()
      modifies this`paused, this`scheduled
      ensures Valid() && !paused && scheduled == old(scheduled) + |permits|
    {
      hide BooksBalance, Identified;
      paused := false;
      SubmitTasks(|permits|);
    }

    method Stop()
      requires Valid()
      modifies this`stopping
      ensures Valid() && stopping
    {
      hide BooksBalance, Identified;
      stopping := true;
    }

    method HasEpoch(key: nat) returns (named: bool)
      ensures named <==> exists id :: id in epochs && epochs[id].key == key
    {
      var ids := epochs.Keys;
      while ids != {}
        invariant ids <= epochs.Keys
        invariant forall id :: id in epochs && id !in ids ==> epochs[id].key != key
        decreases |ids|
      {
        var id :| id in ids;
        if epochs[id].key == key {
          return true;
        }
        ids := ids - {id};
      }
      return false;
    }

    /** Forgets a session's binding, unless one of its epochs is still to be drained. */
    method Retire(session: Session) returns (ok: bool)
      requires Valid()
      modifies this`bindings, this`sessions
      ensures Valid()
      ensures ok <==> forall id :: id in epochs ==> epochs[id].key != session.identity
      ensures bindings == if ok then old(bindings) - {session.identity} else old(bindings)
      ensures ok ==> session !in sessions && forall s :: s in sessions <==> s in old(sessions) && s != session
      ensures !ok ==> sessions == old(sessions)
    {
      hide Accounted, Bound, Distinguished, Exclusive, Issued, Staffed, BooksBalance, OnePerIdentity;
      var named := HasEpoch(session.identity);
      if named {
        return false;
      }
      BindingRemoved(epochs, bindings, generations, session.identity);
      ErasedKeepsIdentities(sessions, session);
      bindings := bindings - {session.identity};
      sessions := Erased(sessions, session);
      return true;
    }

    /** What a step does to the executor when its thread can take it, and that it does nothing otherwise. */
    twostate predicate Performed(step: Step)
      reads this
    {
      match step
      case Registering(session) =>
        sessions == if session !in old(sessions) && (forall s :: s in old(sessions) ==> s.identity != session.identity)
                    then old(sessions) + [session] else old(sessions)
      case Granting(requests) =>
        if old(Grantable(requests)) then Opened(old(epochs), epochs, requests, old(nextEpoch))
        else requests != [] && (old(Refused(requests[0])) ==> epochs == old(epochs))
      case Starting =>
        if old(scheduled == 0 || stopping || paused || permits == []) then permits == old(permits) && held == old(held)
        else permits == old(permits)[1..] && held == old(held) + multiset{old(permits)[0]}
      case Stealing(current, runnable) =>
        if current in old(held) then
          exists target ::
            && IsTarget(old(epochs), old(bindings), runnable, current, target)
            && held == if target.Some? then old(held) - multiset{current} + multiset{target.value} else old(held)
        else held == old(held)
      case Returning(current) => held == if current in old(held) then old(held) - multiset{current} else old(held)
      case Draining(ids) =>
        if forall id :: id in ids ==> id in old(epochs) then
          exists marked :: Marked(old(epochs), marked, ids) && (epochs, drains) == Going(old(drains), marked, ids)
        else epochs == old(epochs) && drains == old(drains)
      case Waking(d) =>
        if d < |old(drains)| && old(drains)[d].Waiting? && old(drains)[d].todo != [] then
          && |drains| == |old(drains)|
          && if old(drains)[d].todo[0] in old(epochs) then (epochs, drains[d]) == DrainOn(old(epochs), old(drains)[d].todo)
             else drains[d] == Dangling
        else drains == old(drains)
      case Pausing => paused
      case Resuming => !paused && scheduled == old(scheduled) + |permits|
      case Retiring(session) =>
        bindings == if forall id :: id in old(epochs) ==> old(epochs)[id].key != session.identity
                    then old(bindings) - {session.identity} else old(bindings)
      case Stopping => stopping
    }

    /**
      One locked section, by whichever thread gets the lock next. A step whose thread would
      wait, or that no thread could take, leaves the executor as it is.
     */
    method Take(step: Step) returns (intact: bool)
      requires Valid()
      modifies this
      ensures (intact <==> Valid()) && Performed(step)
      ensures intact <==>
                !(step.Granting? && old(HalfOpened(step.requests))) && !(step.Waking? && old(Overtaken(step.drain)))
      ensures intact && old(DrainsApart()) && (step.Draining? ==> old(Unnamed(step.ids))) ==> DrainsApart()
      ensures intact ==> Named() <= old(Named()) + if step.Draining? then Listed(step.ids) else {}
    {
      hide Valid, Refused, Marked, IsTarget, Opened, RoundRobin, Distinct, DrainOn, Going, Named, Listed, Unnamed;
      match step {
        case Granting(requests) =>
          var next := nextEpoch;
          var ids := GrantEpochs(requests);
          if ids.None? && nextEpoch != next {
            return false;
          }
        case Draining(ids) =>
          var _ := StartDrain(ids);
        case Waking(d) =>
          if d < |drains| && drains[d].Waiting? && drains[d].todo != [] {
            var known := drains[d].todo[0] in epochs;
            WakeDrain(d);
            if !known {
              return false;
            }
          }
        case Starting => TakeLease(step);
        case Stealing(_, _) => TakeLease(step);
        case Returning(_) => TakeLease(step);
        case _ => TakeOther(step);
      }
      return true;
    }

    /** A task starts, moves or returns a lease, if it is there. */
    method TakeLease(step: Step)
      requires Valid() && (step.Starting? || step.Stealing? || step.Returning?)
      modifies this
      ensures Valid() && Performed(step) && drains == old(drains) && epochs.Keys == old(epochs).Keys
    {
      hide Valid, Refused, Marked, IsTarget, Opened, RoundRobin, Distinct, DrainOn, Going, Listed, Unnamed, Grantable;
      match step {
        case Starting =>
          if scheduled > 0 {
            var _ := StartLease();
          }
        case Stealing(current, runnable) =>
          if current in held {
            var target := Steal(current, runnable);
            assert IsTarget(old(epochs), old(bindings), runnable, current, target);
          }
        case Returning(current) =>
          if current in held {
            ReturnLease(current);
          }
      }
    }

    /** Registration, retirement, and the flags. */
    method TakeOther(step: Step)
      requires Valid()
      requires step.Registering? || step.Pausing? || step.Resuming? || step.Retiring? || step.Stopping?
      modifies this
      ensures Valid() && Performed(step) && drains == old(drains) && epochs == old(epochs)
    {
      hide Valid, Refused, Marked, IsTarget, Opened, RoundRobin, Distinct, DrainOn, Going, Listed, Unnamed, Grantable;
      match step {
        case Registering(session) =>
          var _ := Register(session);
        case Pausing => Pause();
        case Resuming => Resume();
        case Retiring(session) =>
          var ok := Retire(session);
          assert epochs == old(epochs);
        case Stopping => Stop();
      }
    }

    /**
      Any interleaving keeps the books, as long as no batch is refused half way and
      no drain is overtaken; with single requests, and drains that name each epoch
      once in all, neither happens and no drain is ended by an exception.
     */
    method Run(steps: seq<Step>) returns (intact: bool)
      requires Valid()
      modifies this
      ensures intact <==> Valid()
      ensures SingleGrants(steps) && old(DrainsApart()) && NamedOnce(steps, old(Named())) ==> intact && DrainsApart()
    {
      hide Valid, Refused, DrainsApart, Named, Unnamed, Overtaken;
      ghost var orderly := SingleGrants(steps) && DrainsApart() && NamedOnce(steps, Named());
      ghost var named := Named();
      StepsStart(steps);
      for i := 0 to |steps|
        invariant Valid()
        invariant orderly ==> DrainsApart() && Named() <= named + NamedUpTo(steps, i)
      {
        if orderly {
          NextIsOrderly(steps, i, named);
        }
        var ok := Take(steps[i]);
        if !ok {
          return false;
        }
      }
      return true;
    }

    lemma NextIsOrderly(steps: seq<Step>, i: nat, named: set<nat>)
      requires SingleGrants(steps) && DrainsApart() && NamedOnce(steps, named) && i < |steps|
      requires Named() <= named + NamedUpTo(steps, i)
      ensures NamedUpTo(steps, i + 1) == NamedUpTo(steps, i) + if steps[i].Draining? then Listed(steps[i].ids) else {}
      ensures steps[i].Draining? ==> Unnamed(steps[i].ids)
      ensures steps[i].Waking? ==> !Overtaken(steps[i].drain)
      ensures steps[i].Granting? ==> !HalfOpened(steps[i].requests)
    {
      hide Named, Refused, Distinct;
    }
  }

  ghost predicate SingleGrants(steps: seq<Step>) {
    forall j :: 0 <= j < |steps| && steps[j].Granting? ==> |steps[j].requests| <= 1
  }

  /** The drains of the run name every epoch at most once, and none of the given ones. */
  ghost predicate NamedOnce(steps: seq<Step>, named: set<nat>) {
    && (forall j :: 0 <= j < |steps| && steps[j].Draining? ==> Distinct(steps[j].ids) && named !! Listed(steps[j].ids))
    && (forall j :: 0 <= j < |steps| && steps[j].Draining? ==> NamedUpTo(steps, j) !! Listed(steps[j].ids))
  }

  ghost function NamedUpTo(steps: seq<Step>, i: nat): set<nat>
    requires i <= |steps|
  {
    if i == 0 then {}
    else NamedUpTo(steps, i - 1) + if steps[i - 1].Draining? then Listed(steps[i - 1].ids) else {}
  }

  lemma StepsStart(steps: seq<Step>)
    ensures NamedUpTo(steps, 0) == {}
  {
  }

  /** The table and the drains after one more drain has had its first section. */
  ghost function Going(drains: seq<Drain>, marked: map<nat, Epoch>, ids: seq<nat>): (map<nat, Epoch>, seq<Drain>) {
    var (after, d) := DrainOn(marked, ids);
    (after, drains + [d])
  }

  /** No identity is named twice. */
  ghost predicate OneEach(requests: seq<Request>) {
    forall i, j :: 0 <= i < j < |requests| ==> requests[i].session.identity != requests[j].session.identity
  }

  /** The request names an identity that the batch does not. */
  ghost predicate Fresh(requests: seq<Request>, r: Request) {
    forall i :: 0 <= i < |requests| ==> requests[i].session.identity != r.session.identity
  }

  lemma NoneNamed()
    ensures OneEach([]) && forall r: Request :: Fresh([], r)
  {
  }

  lemma FreshAppend(batch: seq<Request>, x: Request, r: Request)
    ensures Fresh(batch + [x], r) <==> Fresh(batch, r) && r.session.identity != x.session.identity
  {
    if Fresh(batch + [x], r) {
      forall i | 0 <= i < |batch| ensures batch[i].session.identity != r.session.identity {
        assert (batch + [x])[i] == batch[i];
      }
      assert (batch + [x])[|batch|] == x;
    }
  }

  lemma FreshNext(requests: seq<Request>, i: nat)
    requires i < |requests|
    ensures forall r: Request :: Fresh(requests[..i + 1], r) <==>
              Fresh(requests[..i], r) && r.session.identity != requests[i].session.identity
    ensures OneEach(requests[..i]) && Fresh(requests[..i], requests[i]) ==> OneEach(requests[..i + 1])
    ensures !Fresh(requests[..i], requests[i]) ==> !OneEach(requests)
  {
    assert requests[..i + 1] == requests[..i] + [requests[i]];
    forall r: Request ensures Fresh(requests[..i + 1], r) <==>
              Fresh(requests[..i], r) && r.session.identity != requests[i].session.identity {
      FreshAppend(requests[..i], requests[i], r);
    }
    if !Fresh(requests[..i], requests[i]) {
      var m :| 0 <= m < i && requests[..i][m].session.identity == requests[i].session.identity;
      assert requests[m].session.identity == requests[i].session.identity;
    }
  }

  lemma OtherEpochs(before: map<nat, Epoch>, after: map<nat, Epoch>, id: nat, key: nat)
    requires id !in before && id in after && after == before[id := after[id]] && after[id].key != key
    ensures (exists e :: e in after && after[e].key == key && !after[e].draining) <==>
            (exists e :: e in before && before[e].key == key && !before[e].draining)
  {
    if e :| e in before && before[e].key == key && !before[e].draining {
      assert e in after && after[e].key == key;
    }
  }

  /** One good request and one without permits: the first epoch is left waiting for permits nobody queued. */
  method HalfOpenedBatch() returns (executor: GlobalExecutor, ids: Option<seq<nat>>)
    ensures fresh(executor) && ids == None && !executor.Valid()
  {
    hide GlobalExecutor.Valid;
    executor := new GlobalExecutor();
    var session := Session(0, 0);
    var _ := executor.Register(session);
    var requests := [Request(session, 1, 1), Request(session, 1, 0)];
    assert executor.Refused(requests[1]) && !executor.Refused(requests[0]);
    ids := executor.GrantEpochs(requests);
  }

  /** An epoch named twice in one drain is gone when its second turn comes. */
  lemma RepeatedDrainRaises(epochs: map<nat, Epoch>, id: nat)
    requires id in epochs && Drained(epochs[id])
    ensures DrainOn(epochs, [id, id]) == (epochs - {id}, Raised)
  {
    assert [id, id][1..] == [id];
  }

  lemma OneToDrain(executor: GlobalExecutor, id: nat)
    requires executor.Valid() && executor.epochs.Keys == {id} && executor.epochs[id].pending == 1
    requires executor.epochs[id].active == 0
    ensures executor.held == multiset{}
    ensures executor.permits == [id] && (!executor.paused && !executor.stopping ==> executor.scheduled > 0)
  {
    var waiting := multiset(executor.permits);
    assert waiting == multiset{id};
    assert |executor.permits| == |waiting| == 1;
    assert executor.permits[0] in waiting;
  }

  lemma NothingLeft(executor: GlobalExecutor, id: nat)
    requires executor.Valid() && id in executor.epochs && executor.permits == [] && executor.held == multiset{}
    ensures Drained(executor.epochs[id])
  {
  }

  lemma WaitsFor(epochs: map<nat, Epoch>, id: nat)
    requires id in epochs && !Drained(epochs[id])
    ensures DrainOn(epochs, [id]) == (epochs, Waiting([id]))
  {
  }

  lemma ClosesAtLast(epochs: map<nat, Epoch>, id: nat)
    requires id in epochs && Drained(epochs[id])
    ensures DrainOn(epochs, [id]) == (epochs - {id}, Finished)
  {
    assert [id][1..] == [];
  }

  /** An executor with one epoch of one permit. */
  method OneEpoch() returns (executor: GlobalExecutor, id: nat)
    ensures fresh(executor) && executor.Valid() && executor.drains == [] && !executor.paused && !executor.stopping
    ensures executor.epochs.Keys == {id} && executor.epochs[id].pending == 1 && executor.epochs[id].active == 0
  {
    hide GlobalExecutor.Valid;
    executor := new GlobalExecutor();
    var session := Session(0, 0);
    var _ := executor.Register(session);
    var requests := [Request(session, 1, 1)];
    assert !executor.Refused(requests[0]) && OneEach(requests);
    var ids := executor.GrantEpochs(requests);
    id := ids.value[0];
    assert executor.epochs[id + 0] == Epoch(0, 1, 0, false);
  }

  /** A drain of the one epoch while its permit is queued waits. */
  method WaitForOne(executor: GlobalExecutor, id: nat)
    requires executor.Valid()
    requires executor.epochs.Keys == {id} && executor.epochs[id].pending == 1 && executor.epochs[id].active == 0
    modifies executor`epochs, executor`drains
    ensures executor.Valid() && executor.drains == old(executor.drains) + [Waiting([id])]
    ensures executor.epochs.Keys == {id} && executor.epochs[id].pending == 1 && executor.epochs[id].active == 0
  {
    hide GlobalExecutor.Valid, DrainOn;
    ghost var before, drains := executor.epochs, executor.drains;
    var _ := executor.StartDrain([id]);
    ghost var marked :| Marked(before, marked, [id]) && (executor.epochs, executor.drains) == Going(drains, marked, [id]);
    WaitsFor(marked, id);
  }

  /** Two drains wait for one epoch: the first that is woken erases the place the other goes on from. */
  method OvertakenDrain() returns (executor: GlobalExecutor)
    ensures fresh(executor) && |executor.drains| == 2 && executor.drains[0] == Finished
    ensures executor.drains[1] == Dangling && !executor.Valid()
  {
    hide *;
    var id;
    executor, id := OneEpoch();
    WaitForOne(executor, id);
    WaitForOne(executor, id);
    FinishOne(executor, id);
    WakeBoth(executor, id);
  }

  /** Its permit is turned into a lease and the lease returned. */
  method FinishOne(executor: GlobalExecutor, id: nat)
    requires executor.Valid() && !executor.paused && !executor.stopping
    requires executor.epochs.Keys == {id} && executor.epochs[id].pending == 1 && executor.epochs[id].active == 0
    modifies executor
    ensures executor.Valid() && executor.drains == old(executor.drains)
    ensures executor.epochs.Keys == {id} && Drained(executor.epochs[id])
  {
    hide GlobalExecutor.Valid;
    OneToDrain(executor, id);
    var lease := executor.StartLease();
    executor.ReturnLease(id);
    NothingLeft(executor, id);
  }

  method WakeBoth(executor: GlobalExecutor, id: nat)
    requires executor.Valid() && executor.drains == [Waiting([id]), Waiting([id])]
    requires executor.epochs.Keys == {id} && Drained(executor.epochs[id])
    modifies executor
    ensures executor.drains == [Finished, Dangling] && !executor.Valid()
  {
    hide GlobalExecutor.Valid, DrainOn;
    ClosesAtLast(executor.epochs, id);
    executor.WakeDrain(0);
    executor.WakeDrain(1);
  }

  datatype Step =
    | Registering(session: Session)
    | Granting(requests: seq<Request>)
    | Starting
    | Stealing(current: nat, runnable: set<nat>)
    | Returning(lease: nat)
    | Draining(ids: seq<nat>)
    | Waking(drain: nat)
    | Pausing
    | Resuming
    | Retiring(retired: Session)
    | Stopping

  function Erased(sessions: seq<Session>, gone: Session): (r: seq<Session>)
    ensures forall s :: s in r <==> s in sessions && s != gone
  {
    if sessions == [] then []
    else if sessions[0] == gone then Erased(sessions[1..], gone)
    else [sessions[0]] + Erased(sessions[1..], gone)
  }

  lemma ErasedKeepsIdentities(sessions: seq<Session>, gone: Session)
    requires OnePerIdentity(sessions)
    ensures OnePerIdentity(Erased(sessions, gone))
  {
  }

  lemma RecountedStaysIdentified(epochs: map<nat, Epoch>, after: map<nat, Epoch>, bindings: map<nat, Binding>, next: nat)
    requires Bound(epochs, bindings) && Exclusive(epochs) && Issued(epochs, next) && Recounted(epochs, after)
    ensures Bound(after, bindings) && Exclusive(after) && Issued(after, next)
  {
  }

  lemma DrainingStaysIdentified(epochs: map<nat, Epoch>, bindings: map<nat, Binding>, next: nat, id: nat, e: Epoch)
    requires Bound(epochs, bindings) && Exclusive(epochs) && Issued(epochs, next)
    requires id in epochs && e == epochs[id].(draining := true)
    ensures var after := epochs[id := e];
            Bound(after, bindings) && Exclusive(after) && Issued(after, next)
  {
  }

  lemma SameKey(before: map<nat, Epoch>, after: map<nat, Epoch>, id: nat)
    requires Recounted(before, after) && id in before
    ensures id in after && after[id].key == before[id].key
  {
  }

  /** Exactly the listed epochs become draining. */
  ghost predicate Marked(before: map<nat, Epoch>, after: map<nat, Epoch>, ids: seq<nat>) {
    && after.Keys == before.Keys
    && forall id :: id in before ==>
         after[id] == if id in ids then before[id].(draining := true) else before[id]
  }

  lemma NothingMarked(epochs: map<nat, Epoch>)
    ensures Marked(epochs, epochs, [])
  {
  }

  lemma OneMarked(before: map<nat, Epoch>, epochs: map<nat, Epoch>, ids: seq<nat>, id: nat)
    requires Marked(before, epochs, ids) && id in before
    ensures id in epochs && Marked(before, epochs[id := epochs[id].(draining := true)], ids + [id])
  {
  }

  lemma DrainingMarked(epochs: map<nat, Epoch>, queued: multiset<nat>, held: multiset<nat>, id: nat)
    requires Accounted(epochs, queued, held) && id in epochs
    ensures Accounted(epochs[id := epochs[id].(draining := true)], queued, held)
  {
  }

  lemma EpochRemoved(epochs: map<nat, Epoch>, bindings: map<nat, Binding>, next: nat, id: nat)
    requires Bound(epochs, bindings) && Exclusive(epochs) && Issued(epochs, next)
    ensures Bound(epochs - {id}, bindings) && Exclusive(epochs - {id}) && Issued(epochs - {id}, next)
  {
  }

  lemma OwnBinding(epochs: map<nat, Epoch>, bindings: map<nat, Binding>, generations: map<nat, nat>, id: nat)
    requires Bound(epochs, bindings) && Distinguished(bindings, generations) && id in epochs
    ensures epochs[id].key in bindings && bindings[epochs[id].key].session.identity == epochs[id].key
  {
  }

  lemma TargetIsOther(epochs: map<nat, Epoch>, bindings: map<nat, Binding>, runnable: set<nat>, current: nat, to: nat)
    requires IsTarget(epochs, bindings, runnable, current, Some(to))
    ensures to in epochs && to != current
  {
  }

  lemma PermitsAndLeases(epochs: map<nat, Epoch>, queued: multiset<nat>, held: multiset<nat>, id: nat)
    requires Accounted(epochs, queued, held) && id in epochs
    ensures epochs[id].pending == 0 <==> id !in queued
    ensures epochs[id].active == 0 <==> id !in held
  {
  }

  lemma BindingRemoved(epochs: map<nat, Epoch>, bindings: map<nat, Binding>, generations: map<nat, nat>, key: nat)
    requires Bound(epochs, bindings) && Distinguished(bindings, generations)
    requires forall id :: id in epochs ==> epochs[id].key != key
    ensures Bound(epochs, bindings - {key}) && Distinguished(bindings - {key}, generations)
  {
  }

  ghost predicate QueuedUpTo(permits: seq<nat>, queued: multiset<nat>, limit: nat) {
    forall id: nat :: multiset(permits)[id] == if id < limit then queued[id] else 0
  }

  /** The batch's epochs are added under consecutive identifiers and nothing else changes. */
  ghost predicate Opened(before: map<nat, Epoch>, after: map<nat, Epoch>, requests: seq<Request>, first: nat) {
    && (forall id :: id in after <==> id in before || first <= id < first + |requests|)
    && (forall j :: 0 <= j < |requests| ==>
          after[first + j] == Epoch(requests[j].session.identity, requests[j].permits, 0, false))
    && (forall id :: id in before && id < first ==> after[id] == before[id])
  }

  lemma EpochIdentified(epochs: map<nat, Epoch>, bindings: map<nat, Binding>, next: nat, key: nat, permits: nat)
    requires Bound(epochs, bindings) && Exclusive(epochs) && Issued(epochs, next) && next > 0 && key in bindings
    requires !exists id :: id in epochs && epochs[id].key == key && !epochs[id].draining
    ensures var after := epochs[next := Epoch(key, permits, 0, false)];
            next !in epochs && Bound(after, bindings) && Exclusive(after) && Issued(after, next + 1)
  {
  }

  lemma NothingOpened(epochs: map<nat, Epoch>, held: multiset<nat>, permits: seq<nat>, first: nat)
    requires Accounted(epochs, multiset(permits), held) && Issued(epochs, first)
    ensures Opened(epochs, epochs, [], first) && QueuedUpTo(permits, multiset(permits), first)
  {
  }

  lemma OneOpened(before: map<nat, Epoch>, epochs: map<nat, Epoch>, requests: seq<Request>, first: nat, request: Request)
    requires Opened(before, epochs, requests, first) && first + |requests| !in epochs
    ensures var e := Epoch(request.session.identity, request.permits, 0, false);
            Opened(before, epochs[first + |requests| := e], requests + [request], first)
  {
    var e := Epoch(request.session.identity, request.permits, 0, false);
    var after, more := epochs[first + |requests| := e], requests + [request];
    forall j | 0 <= j < |more|
      ensures after[first + j] == Epoch(more[j].session.identity, more[j].permits, 0, false)
    {
      if j < |requests| {
        assert epochs[first + j] == Epoch(requests[j].session.identity, requests[j].permits, 0, false);
      }
    }
  }

  lemma MoreQueued(permits: seq<nat>, queued: multiset<nat>, first: nat, id: nat, count: nat)
    requires QueuedUpTo(permits, queued, first) && first <= id
    ensures QueuedUpTo(permits, queued[id := count], first)
  {
  }

  lemma OpenedPending(before: map<nat, Epoch>, epochs: map<nat, Epoch>, requests: seq<Request>,
                      queued: multiset<nat>, held: multiset<nat>, first: nat, j: nat)
    requires Opened(before, epochs, requests, first) && Accounted(epochs, queued, held) && j < |requests|
    ensures queued[first + j] == requests[j].permits
  {
    assert first + j in epochs;
  }

  lemma PermitsQueued(permits: seq<nat>, next: seq<nat>, queued: multiset<nat>, id: nat, count: nat)
    requires QueuedUpTo(permits, queued, id) && queued[id] == count
    requires multiset(next) == Admitted(permits, id, count)
    ensures QueuedUpTo(next, queued, id + 1)
  {
    assert multiset(permits)[id] == 0;
  }

  lemma AllQueued(epochs: map<nat, Epoch>, permits: seq<nat>, queued: multiset<nat>, held: multiset<nat>, next: nat)
    requires Accounted(epochs, queued, held) && Issued(epochs, next) && QueuedUpTo(permits, queued, next)
    ensures Accounted(epochs, multiset(permits), held)
  {
    forall id: nat ensures multiset(permits)[id] == queued[id] {
      if id in queued {
        assert id in epochs;
      }
    }
    assert multiset(permits) == queued;
  }

  lemma PermitsMissing(before: map<nat, Epoch>, epochs: map<nat, Epoch>, requests: seq<Request>,
                       held: multiset<nat>, permits: seq<nat>, queued: multiset<nat>, first: nat)
    requires Opened(before, epochs, requests, first) && QueuedUpTo(permits, queued, first)
    requires requests != [] && requests[0].permits > 0
    ensures !Accounted(epochs, multiset(permits), held)
  {
    assert epochs[first + 0].pending > 0 && multiset(permits)[first] == 0;
  }

  lemma BindingAdded(bindings: map<nat, Binding>, generations: map<nat, nat>, session: Session, threshold: nat)
    requires Distinguished(bindings, generations) && session.identity !in bindings
    ensures var n := At(generations, threshold) + 1;
            Distinguished(bindings[session.identity := Binding(session, threshold, n)], generations[threshold := n])
  {
  }
}
