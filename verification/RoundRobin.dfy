/**
  The permit queue: every admission rebuilds it so that the waiting epochs are served
  in rounds, oldest epoch first within a round.
 */
module RoundRobins {
  import opened Sorting

  function Least(a: nat, b: nat): nat {
    if a <= b then a else b
  }

  /** How many permits of an epoch are served before position i. */
  function Served(queue: seq<nat>, i: nat, id: nat): nat
    requires i <= |queue|
  {
    multiset(queue[..i])[id]
  }

  /**
    When a permit is served, every epoch with permits left has been served as often as
    the permit's own epoch, and once more if it is older.
   */
  ghost predicate InRounds(queue: seq<nat>, total: multiset<nat>) {
    forall i, id :: 0 <= i < |queue| ==> Served(queue, i, id) == Due(queue, total, i, id)
  }

  ghost function Due(queue: seq<nat>, total: multiset<nat>, i: nat, id: nat): nat
    requires i < |queue|
  {
    Least(total[id], Served(queue, i, queue[i]) + if id < queue[i] then 1 else 0)
  }

  ghost predicate RoundRobin(queue: seq<nat>) {
    InRounds(queue, multiset(queue))
  }

  /** The queue determines itself: there is one round-robin order of the same permits. */
  lemma {:induction false} RoundRobinIsUnique(a: seq<nat>, b: seq<nat>, n: nat)
    requires RoundRobin(a) && RoundRobin(b) && multiset(a) == multiset(b)
    requires n <= |a|
    ensures n <= |b| && a[..n] == b[..n]
  {
    SameElements(a, b);
    if n > 0 {
      RoundRobinIsUnique(a, b, n - 1);
      var x, y := a[n - 1], b[n - 1];
      var i := n - 1;
      assert Served(a, i, y) == Due(a, multiset(a), i, y) && Served(b, i, x) == Due(b, multiset(b), i, x);
      StillWaiting(a, i);
      StillWaiting(b, i);
      assert x == y;
      assert a[..n] == a[..i] + [x] && b[..n] == b[..i] + [y];
    }
  }

  lemma StillWaiting(queue: seq<nat>, i: nat)
    requires i < |queue|
    ensures Served(queue, i, queue[i]) < multiset(queue)[queue[i]]
  {
    assert queue == queue[..i] + [queue[i]] + queue[i + 1..];
  }

  /** No epoch gets more than one permit ahead of another that still waits. */
  lemma {:induction false} NoStarvation(queue: seq<nat>, i: nat, waiting: nat, other: nat)
    requires RoundRobin(queue) && i <= |queue|
    requires Served(queue, i, waiting) < multiset(queue)[waiting]
    ensures Served(queue, i, other) <= Served(queue, i, waiting) + 1
  {
    if i > 0 {
      assert queue[..i] == queue[..i - 1] + [queue[i - 1]];
      if queue[i - 1] == other {
        assert Served(queue, i - 1, waiting) == Due(queue, multiset(queue), i - 1, waiting);
      } else {
        NoStarvation(queue, i - 1, waiting, other);
      }
    }
  }

  // ---- Rebuilding the queue ----

  function At(counts: map<nat, nat>, id: nat): nat {
    if id in counts then counts[id] else 0
  }

  ghost function Admitted(permits: seq<nat>, id: nat, added: nat): multiset<nat> {
    multiset(permits)[id := multiset(permits)[id] + added]
  }

  function Increased(counts: map<nat, nat>, id: nat, amount: nat): (r: map<nat, nat>)
    ensures forall y: nat :: At(r, y) == At(counts, y) + if y == id then amount else 0
  {
    counts[id := At(counts, id) + amount]
  }

  method CountPermits(permits: seq<nat>) returns (counts: map<nat, nat>)
    ensures forall id: nat :: At(counts, id) == multiset(permits)[id]
  {
    counts := map[];
    for i := 0 to |permits|
      invariant forall id: nat :: At(counts, id) == multiset(permits[..i])[id]
    {
      assert permits[..i + 1] == permits[..i] + [permits[i]];
      counts := Increased(counts, permits[i], 1);
    }
    assert permits[..|permits|] == permits;
  }

  /** The epochs with permits, oldest first. */
  method WaitingIds(counts: map<nat, nat>) returns (ids: seq<nat>)
    ensures forall i, j :: 0 <= i < j < |ids| ==> ids[i] < ids[j]
    ensures forall id: nat :: id in ids <==> At(counts, id) > 0
  {
    var keys, found: seq<nat> := counts.Keys, [];
    while keys != {}
      invariant keys <= counts.Keys
      invariant forall id: nat :: id in found <==> id !in keys && At(counts, id) > 0
      invariant forall i, j :: 0 <= i < j < |found| ==> found[i] != found[j]
      decreases |keys|
    {
      var id :| id in keys;
      keys := keys - {id};
      if counts[id] > 0 {
        found := found + [id];
      }
    }
    ids := Sort((a: nat, b: nat) => a < b, found);
    StrictlySorted(found, ids);
  }

  lemma StrictlySorted(found: seq<nat>, ids: seq<nat>)
    requires forall i, j :: 0 <= i < j < |found| ==> found[i] != found[j]
    requires multiset(ids) == multiset(found) && Sorted((a: nat, b: nat) => a < b, ids)
    ensures forall i, j :: 0 <= i < j < |ids| ==> ids[i] < ids[j]
    ensures forall id :: id in ids <==> id in found
  {
    SameElements(ids, found);
    RearrangedDistinct((a: nat) => a, found, ids);
    forall i, j | 0 <= i < j < |ids| ensures ids[i] < ids[j] {
      assert ((a: nat) => a)(ids[i]) != ((a: nat) => a)(ids[j]);
    }
  }

  /** Every epoch was served min(total, rounds) times, those in ids[..k] once more if they could be. */
  ghost predicate Dealt(queue: seq<nat>, total: multiset<nat>, ids: seq<nat>, rounds: nat, k: nat)
    requires k <= |ids|
  {
    forall id: nat :: multiset(queue)[id] == Least(total[id], rounds + if id in ids[..k] then 1 else 0)
  }

  lemma DealNext(queue: seq<nat>, total: multiset<nat>, ids: seq<nat>, rounds: nat, k: nat)
    requires k < |ids| && Dealt(queue, total, ids, rounds, k) && InRounds(queue, total)
    requires forall i, j :: 0 <= i < j < |ids| ==> ids[i] < ids[j]
    requires forall id: nat :: id in ids <==> total[id] > 0
    ensures multiset(queue)[ids[k]] < total[ids[k]] ==>
              && Dealt(queue + [ids[k]], total, ids, rounds, k + 1)
              && InRounds(queue + [ids[k]], total)
              && rounds < total[ids[k]]
    ensures multiset(queue)[ids[k]] >= total[ids[k]] ==> Dealt(queue, total, ids, rounds, k + 1)
  {
    var id, next := ids[k], queue + [ids[k]];
    assert ids[..k + 1] == ids[..k] + [id];
    assert id !in ids[..k];
    assert next[..|queue|] == queue;
    if multiset(queue)[id] < total[id] {
      forall i, y: nat | 0 <= i < |next| ensures Served(next, i, y) == Due(next, total, i, y) {
        if i < |queue| {
          assert next[..i] == queue[..i];
          assert Served(queue, i, y) == Due(queue, total, i, y);
        } else {
          EarlierIds(ids, k, y);
        }
      }
    }
  }

  lemma EarlierIds(ids: seq<nat>, k: nat, y: nat)
    requires k < |ids| && forall i, j :: 0 <= i < j < |ids| ==> ids[i] < ids[j]
    ensures y in ids ==> (y in ids[..k] <==> y < ids[k])
  {
    if y in ids && y < ids[k] {
      var i :| 0 <= i < |ids| && ids[i] == y;
      assert i < k;
      assert ids[..k][i] == y;
    }
  }

  lemma RoundDealt(queue: seq<nat>, total: multiset<nat>, ids: seq<nat>, rounds: nat)
    requires Dealt(queue, total, ids, rounds, |ids|)
    requires forall id: nat :: id in ids <==> total[id] > 0
    ensures Dealt(queue, total, ids, rounds + 1, 0)
  {
    assert ids[..|ids|] == ids;
  }

  lemma MultiplicityBounded(total: multiset<nat>, id: nat)
    ensures total[id] <= |total|
  {
    var rest := total[id := 0];
    assert total == rest + multiset{}[id := total[id]];
  }

  /** What the counts hold is what the queue still lacks. */
  ghost predicate Remaining(counts: map<nat, nat>, queue: seq<nat>, total: multiset<nat>) {
    forall id: nat :: At(counts, id) + multiset(queue)[id] == total[id]
  }

  lemma NothingDealt(counts: map<nat, nat>, total: multiset<nat>, ids: seq<nat>)
    requires forall id: nat :: At(counts, id) == total[id]
    ensures Remaining(counts, [], total) && InRounds([], total) && Dealt([], total, ids, 0, 0)
  {
  }

  lemma OneDealt(counts: map<nat, nat>, queue: seq<nat>, total: multiset<nat>, id: nat)
    requires Remaining(counts, queue, total)
    ensures At(counts, id) > 0 <==> multiset(queue)[id] < total[id]
    ensures At(counts, id) > 0 ==> Remaining(counts[id := counts[id] - 1], queue + [id], total)
  {
    if At(counts, id) > 0 {
      var less := counts[id := counts[id] - 1];
      forall y: nat ensures At(less, y) + multiset(queue + [id])[y] == total[y] {
        assert At(counts, y) + multiset(queue)[y] == total[y];
      }
    }
  }

  lemma AllDealt(counts: map<nat, nat>, queue: seq<nat>, total: multiset<nat>, ids: seq<nat>)
    requires Remaining(counts, queue, total) && InRounds(queue, total)
    requires forall id: nat :: id in ids <==> total[id] > 0
    requires forall j :: 0 <= j < |ids| ==> At(counts, ids[j]) == 0
    ensures multiset(queue) == total && RoundRobin(queue)
  {
    forall id: nat ensures multiset(queue)[id] == total[id] {
      assert At(counts, id) + multiset(queue)[id] == total[id];
    }
  }

  method Rebuild(permits: seq<nat>, epochId: nat, added: nat) returns (queue: seq<nat>)
    ensures multiset(queue) == Admitted(permits, epochId, added)
    ensures RoundRobin(queue)
  {
    hide Remaining, InRounds, Dealt, RoundRobin;
    ghost var total := Admitted(permits, epochId, added);
    var counts := CountPermits(permits);
    counts := Increased(counts, epochId, added);
    var ids := WaitingIds(counts);
    NothingDealt(counts, total, ids);
    hide Admitted;
    queue := [];
    ghost var rounds := 0;
    var progress := true;
    while progress
      invariant Remaining(counts, queue, total)
      invariant InRounds(queue, total) && Dealt(queue, total, ids, rounds, 0)
      invariant progress ==> rounds <= |total|
      invariant !progress ==> multiset(queue) == total && RoundRobin(queue)
      decreases progress, |total| - rounds
    {
      progress := false;
      for k := 0 to |ids|
        invariant Remaining(counts, queue, total)
        invariant InRounds(queue, total) && Dealt(queue, total, ids, rounds, k)
        invariant progress ==> rounds < |total|
        invariant !progress ==> forall j :: 0 <= j < k ==> At(counts, ids[j]) == 0
      {
        var id := ids[k];
        DealNext(queue, total, ids, rounds, k);
        OneDealt(counts, queue, total, id);
        if At(counts, id) > 0 {
          MultiplicityBounded(total, id);
          queue := queue + [id];
          counts := counts[id := counts[id] - 1];
          progress := true;
        }
      }
      RoundDealt(queue, total, ids, rounds);
      if !progress {
        AllDealt(counts, queue, total, ids);
      }
      rounds := rounds + 1;
    }
  }
}
