/**
  The explicit stack of a resumable session as a value: what each frame still
  owes, and how every stack operation replaces an obligation by others that
  cover it.
 */
module SessionFrames {
  import opened Options
  import opened Graphs
  import opened Feasibility
  import opened TwinSymmetry
  import opened Candidates

  datatype Frame = Frame(cut: nat, incoming: Option<Vertex>, entered: bool, canonicalComplete: bool,
                         candidates: seq<Candidate>, next: nat)

  /** A detached region: everything below a path. */
  datatype Continuation = Continuation(path: seq<Vertex>, cut: nat)

  /** Some detached region, queued here or owned elsewhere, is feasible. */
  ghost predicate Outstanding(g: Graph, k: nat, pending: seq<Continuation>, external: seq<set<Vertex>>) {
    || (exists p :: p in pending && Feasible(g, k, Elems(p.path)))
    || (exists S :: S in external && Feasible(g, k, S))
  }

  lemma OutstandingQueue(g: Graph, k: nat, pending: seq<Continuation>, external: seq<set<Vertex>>, p: Continuation)
    ensures Outstanding(g, k, pending + [p], external) <==>
              Outstanding(g, k, pending, external) || Feasible(g, k, Elems(p.path))
  {
    hide Feasible;
    if Feasible(g, k, Elems(p.path)) {
      assert p in pending + [p];
    }
    if Outstanding(g, k, pending, external) && exists q :: q in pending && Feasible(g, k, Elems(q.path)) {
      var q :| q in pending && Feasible(g, k, Elems(q.path));
      assert q in pending + [p];
    }
  }

  lemma OutstandingFront(g: Graph, k: nat, pending: seq<Continuation>, external: seq<set<Vertex>>)
    requires pending != []
    ensures Outstanding(g, k, pending, external) <==>
              Outstanding(g, k, pending[1..], external) || Feasible(g, k, Elems(pending[0].path))
  {
    hide Feasible;
    assert pending == [pending[0]] + pending[1..];
    if exists q :: q in pending[1..] && Feasible(g, k, Elems(q.path)) {
      var q :| q in pending[1..] && Feasible(g, k, Elems(q.path));
      assert q in pending;
    }
  }

  /** Handing the first queued region to an external owner owes the same. */
  lemma OutstandingHandOver(g: Graph, k: nat, pending: seq<Continuation>, external: seq<set<Vertex>>)
    requires pending != []
    ensures Outstanding(g, k, pending[1..], external + [Elems(pending[0].path)]) <==>
              Outstanding(g, k, pending, external)
  {
    hide Feasible;
    OutstandingFront(g, k, pending, external);
    var S := Elems(pending[0].path);
    assert S in external + [S];
    if exists T :: T in external && Feasible(g, k, T) {
      var T :| T in external && Feasible(g, k, T);
      assert T in external + [S];
    }
  }

  /** Closing an external region that has failed owes the same. */
  lemma OutstandingClose(g: Graph, k: nat, pending: seq<Continuation>, external: seq<set<Vertex>>, i: nat)
    requires i < |external| && !Feasible(g, k, external[i])
    ensures Outstanding(g, k, pending, external[..i] + external[i + 1..]) <==> Outstanding(g, k, pending, external)
  {
    hide Feasible;
    var rest := external[..i] + external[i + 1..];
    assert external == external[..i] + [external[i]] + external[i + 1..];
    if exists T :: T in external && Feasible(g, k, T) {
      var T :| T in external && Feasible(g, k, T);
      assert T in rest;
    }
    if exists T :: T in rest && Feasible(g, k, T) {
      var T :| T in rest && Feasible(g, k, T);
      assert T in external;
    }
  }

  lemma NothingOutstanding(g: Graph, k: nat)
    ensures !Outstanding(g, k, [], [])
  {
  }

  // ----- one frame -----

  /** The vertices placed at the given depth of the path. */
  ghost function At(path: seq<Vertex>, depth: nat): set<Vertex>
    requires depth <= |path|
  {
    Elems(path[..depth])
  }

  ghost predicate FrameOk(g: Graph, k: nat, S: set<Vertex>, f: Frame) {
    && f.cut == Cut(g, S) && f.cut <= k && f.next <= |f.candidates|
    && (forall c :: c in f.candidates ==> c.vertex in Vertices(g) - S && c.cut == Cut(g, S + {c.vertex}) && c.cut <= k)
    && (!f.entered ==> f.candidates == [])
  }

  /** Some unconsumed candidate is feasible. */
  ghost predicate Remaining(g: Graph, k: nat, S: set<Vertex>, f: Frame) {
    exists j :: f.next <= j < |f.candidates| && Feasible(g, k, S + {f.candidates[j].vertex})
  }

  /** If a frame already entered is feasible, something that covers it is still owed. */
  ghost predicate Covered(g: Graph, k: nat, S: set<Vertex>, f: Frame, child: bool, owed: bool) {
    f.entered && Feasible(g, k, S) ==> Remaining(g, k, S, f) || child || (!f.canonicalComplete && owed)
  }

  lemma RemainingStep(g: Graph, k: nat, S: set<Vertex>, f: Frame)
    requires f.next < |f.candidates|
    ensures Remaining(g, k, S, f) <==>
              Remaining(g, k, S, f.(next := f.next + 1)) || Feasible(g, k, S + {f.candidates[f.next].vertex})
  {
    hide Feasible;
  }

  lemma CandidateFacts(g: Graph, k: nat, S: set<Vertex>, f: Frame, j: nat)
    requires FrameOk(g, k, S, f) && j < |f.candidates|
    ensures var c := f.candidates[j]; c.vertex in Vertices(g) - S && c.cut == Cut(g, S + {c.vertex}) && c.cut <= k
  {
    hide Cut;
    assert f.candidates[j] in f.candidates;
  }

  // ----- the stack -----

  /** Frame i stands at depth r + i of the path. */
  ghost predicate Level(g: Graph, k: nat, path: seq<Vertex>, r: nat, stack: seq<Frame>, owed: bool, i: nat)
    requires i < |stack| && |path| == r + |stack| - 1
  {
    && FrameOk(g, k, At(path, r + i), stack[i])
    && stack[i].incoming == (if i == 0 then None else Some(path[r + i - 1]))
    && (i + 1 < |stack| ==> stack[i].entered && (stack[i].canonicalComplete ==> stack[i + 1].canonicalComplete))
    && Covered(g, k, At(path, r + i), stack[i], i + 1 < |stack| && Feasible(g, k, At(path, r + i + 1)), owed)
  }

  ghost predicate StackOk(g: Graph, k: nat, path: seq<Vertex>, r: nat, stack: seq<Frame>, owed: bool) {
    && |path| == r + |stack| - 1
    && forall i :: 0 <= i < |stack| ==> Level(g, k, path, r, stack, owed, i)
  }

  ghost predicate TopFails(g: Graph, k: nat, path: seq<Vertex>, stack: seq<Frame>, owed: bool)
    requires stack != []
  {
    Feasible(g, k, Elems(path)) ==> !stack[|stack| - 1].canonicalComplete && owed
  }

  lemma TopSet(path: seq<Vertex>, r: nat, stack: seq<Frame>)
    requires stack != [] && |path| == r + |stack| - 1
    ensures At(path, r + |stack| - 1) == Elems(path)
  {
    assert path[..|path|] == path;
  }

  lemma TopFacts(g: Graph, k: nat, path: seq<Vertex>, r: nat, stack: seq<Frame>, owed: bool)
    requires StackOk(g, k, path, r, stack, owed) && stack != []
    ensures var f := stack[|stack| - 1];
            && FrameOk(g, k, Elems(path), f) && f.cut == Cut(g, Elems(path)) && f.cut <= k && f.next <= |f.candidates|
            && f.incoming == (if |stack| == 1 then None else Some(path[|path| - 1]))
            && Covered(g, k, Elems(path), f, false, owed)
  {
    TopSet(path, r, stack);
    assert Level(g, k, path, r, stack, owed, |stack| - 1);
  }

  /** Replacing the top frame leaves the frames below as they are. */
  lemma ReplaceTop(g: Graph, k: nat, path: seq<Vertex>, r: nat, stack: seq<Frame>, owed: bool, f: Frame)
    requires StackOk(g, k, path, r, stack, owed) && stack != []
    requires FrameOk(g, k, Elems(path), f) && f.incoming == stack[|stack| - 1].incoming
    requires f.canonicalComplete == stack[|stack| - 1].canonicalComplete
    requires Covered(g, k, Elems(path), f, false, owed)
    ensures StackOk(g, k, path, r, stack[|stack| - 1 := f], owed)
  {
    hide Feasible, FrameOk, Covered, At;
    var top := |stack| - 1;
    TopSet(path, r, stack);
    var after := stack[top := f];
    forall i | 0 <= i < |after| ensures Level(g, k, path, r, after, owed, i) {
      assert Level(g, k, path, r, stack, owed, i);
    }
  }

  /** Entering a frame: its feasible children are exactly among the listed ones. */
  lemma EnterTop(g: Graph, k: nat, twins: TwinTable, path: seq<Vertex>, r: nat, stack: seq<Frame>, owed: bool,
                 cs: seq<Candidate>)
    requires StackOk(g, k, path, r, stack, owed) && stack != [] && Elems(path) != Vertices(g)
    requires ValidTwins(g, twins) && ListsLegal(g, k, twins, Elems(path), cs)
    ensures StackOk(g, k, path, r,
                    stack[|stack| - 1 := stack[|stack| - 1].(entered := true, candidates := cs, next := 0)], owed)
  {
    hide Feasible, Legal, TwinBlocked, Cut, StackOk;
    TopFacts(g, k, path, r, stack, owed);
    var S, f := Elems(path), stack[|stack| - 1].(entered := true, candidates := cs, next := 0);
    forall c | c in cs ensures c.vertex in Vertices(g) - S && c.cut == Cut(g, S + {c.vertex}) && c.cut <= k {
      var i :| 0 <= i < |cs| && cs[i] == c;
      ListedFacts(g, k, twins, S, cs, i);
    }
    if Feasible(g, k, S) {
      var c := ListedChild(g, k, twins, S, cs);
      var j :| 0 <= j < |cs| && cs[j] == c;
      assert Remaining(g, k, S, f);
    }
    ReplaceTop(g, k, path, r, stack, owed, f);
  }

  /** Marking a frame entered that is known to fail. */
  lemma EnterFailed(g: Graph, k: nat, path: seq<Vertex>, r: nat, stack: seq<Frame>, owed: bool)
    requires StackOk(g, k, path, r, stack, owed) && stack != [] && !Feasible(g, k, Elems(path))
    ensures StackOk(g, k, path, r, stack[|stack| - 1 := stack[|stack| - 1].(entered := true)], owed)
  {
    hide Feasible, StackOk;
    TopFacts(g, k, path, r, stack, owed);
    ReplaceTop(g, k, path, r, stack, owed, stack[|stack| - 1].(entered := true));
  }

  /** Consuming a candidate that fails. */
  lemma SkipCandidate(g: Graph, k: nat, path: seq<Vertex>, r: nat, stack: seq<Frame>, owed: bool)
    requires StackOk(g, k, path, r, stack, owed) && stack != []
    requires var f := stack[|stack| - 1];
             f.next < |f.candidates| && !Feasible(g, k, Elems(path) + {f.candidates[f.next].vertex})
    ensures var f := stack[|stack| - 1];
            StackOk(g, k, path, r, stack[|stack| - 1 := f.(next := f.next + 1)], owed)
  {
    hide Feasible, StackOk, Remaining;
    TopFacts(g, k, path, r, stack, owed);
    var f := stack[|stack| - 1];
    RemainingStep(g, k, Elems(path), f);
    ReplaceTop(g, k, path, r, stack, owed, f.(next := f.next + 1));
  }

  /** Consuming a candidate by descending to it: the child frame now covers it. */
  lemma PushChild(g: Graph, k: nat, path: seq<Vertex>, r: nat, stack: seq<Frame>, owed: bool)
    requires StackOk(g, k, path, r, stack, owed) && stack != []
    requires var f := stack[|stack| - 1]; f.entered && f.next < |f.candidates|
    ensures var f := stack[|stack| - 1];
            var c := f.candidates[f.next];
            StackOk(g, k, path + [c.vertex], r,
                    stack[|stack| - 1 := f.(next := f.next + 1)] + [Frame(c.cut, Some(c.vertex), false, true, [], 0)], owed)
  {
    hide Feasible, Remaining, Cut, At;
    TopFacts(g, k, path, r, stack, owed);
    TopSet(path, r, stack);
    var top, f := |stack| - 1, stack[|stack| - 1];
    var c := f.candidates[f.next];
    var S := Elems(path);
    CandidateFacts(g, k, S, f, f.next);
    RemainingStep(g, k, S, f);
    var path', after := path + [c.vertex], stack[top := f.(next := f.next + 1)] + [Frame(c.cut, Some(c.vertex), false, true, [], 0)];
    ChildSets(path, c.vertex);
    forall i | 0 <= i < |after| ensures Level(g, k, path', r, after, owed, i) {
      if i < top {
        LowerLevel(g, k, path, r, stack, owed, c.vertex, f.(next := f.next + 1), after[top + 1], i);
      }
    }
  }

  /** The levels below the top frame do not notice what happens above it. */
  lemma LowerLevel(g: Graph, k: nat, path: seq<Vertex>, r: nat, stack: seq<Frame>, owed: bool, v: Vertex, f: Frame, h: Frame,
                   i: nat)
    requires StackOk(g, k, path, r, stack, owed) && i + 1 < |stack|
    requires f == stack[|stack| - 1].(next := f.next)
    ensures Level(g, k, path + [v], r, stack[|stack| - 1 := f] + [h], owed, i)
  {
    hide At, Covered, Feasible, FrameOk;
    ChildSets(path, v);
    assert Level(g, k, path, r, stack, owed, i);
  }

  lemma ChildSets(path: seq<Vertex>, v: Vertex)
    ensures At(path + [v], |path| + 1) == Elems(path) + {v}
    ensures forall d :: 0 <= d <= |path| ==> At(path + [v], d) == At(path, d)
    ensures At(path, |path|) == Elems(path)
  {
    assert (path + [v])[..|path| + 1] == path + [v] && path[..|path|] == path;
    forall d | 0 <= d <= |path| ensures At(path + [v], d) == At(path, d) {
      assert (path + [v])[..d] == path[..d];
    }
  }

  /** Popping a failed child: what it owes, its parent owes through the same regions. */
  lemma PopFrame(g: Graph, k: nat, path: seq<Vertex>, r: nat, stack: seq<Frame>, owed: bool)
    requires StackOk(g, k, path, r, stack, owed) && |stack| > 1 && TopFails(g, k, path, stack, owed)
    ensures path != [] && StackOk(g, k, path[..|path| - 1], r, stack[..|stack| - 1], owed)
  {
    hide Feasible, FrameOk, Remaining;
    var top, path' := |stack| - 1, path[..|path| - 1];
    TopSet(path, r, stack);
    var after := stack[..top];
    forall i | 0 <= i < |after| ensures Level(g, k, path', r, after, owed, i) {
      assert Level(g, k, path, r, stack, owed, i);
      assert path'[..r + i] == path[..r + i];
      if i + 1 < |after| {
        assert path'[..r + i + 1] == path[..r + i + 1];
      }
    }
  }

  /** An exhausted top frame owes nothing but lost regions. */
  lemma ExhaustedFails(g: Graph, k: nat, path: seq<Vertex>, r: nat, stack: seq<Frame>, owed: bool)
    requires StackOk(g, k, path, r, stack, owed) && stack != []
    requires stack[|stack| - 1].entered && stack[|stack| - 1].next >= |stack[|stack| - 1].candidates|
    ensures TopFails(g, k, path, stack, owed)
  {
    hide Feasible, StackOk;
    TopFacts(g, k, path, r, stack, owed);
  }

  // ----- donation -----

  function ClearFlags(stack: seq<Frame>, depth: nat): (r: seq<Frame>)
    requires depth < |stack|
    ensures |r| == |stack|
  {
    seq(|stack|, i requires 0 <= i < |stack| => if i <= depth then stack[i].(canonicalComplete := false) else stack[i])
  }

  /** The donor's stack after giving away the next candidate at `depth`. */
  function DonatedStack(stack: seq<Frame>, depth: nat): (r: seq<Frame>)
    requires depth < |stack|
    ensures |r| == |stack|
  {
    ClearFlags(stack[depth := stack[depth].(next := stack[depth].next + 1)], depth)
  }

  /** A donated sibling leaves the stack, is owed as a region, and no ancestor of it claims completeness. */
  lemma Donate(g: Graph, k: nat, path: seq<Vertex>, r: nat, stack: seq<Frame>, owed: bool, depth: nat, owed': bool)
    requires StackOk(g, k, path, r, stack, owed) && depth < |stack|
    requires stack[depth].entered && stack[depth].next < |stack[depth].candidates|
    requires owed' <==>
             owed || Feasible(g, k, At(path, r + depth) + {stack[depth].candidates[stack[depth].next].vertex})
    ensures StackOk(g, k, path, r, DonatedStack(stack, depth), owed')
  {
    hide Feasible, Remaining, Cut, At;
    var after := DonatedStack(stack, depth);
    forall i | 0 <= i < |after| ensures Level(g, k, path, r, after, owed', i) {
      assert Level(g, k, path, r, stack, owed, i);
      if i == depth {
        RemainingStep(g, k, At(path, r + depth), stack[depth]);
      }
      RemainingFlags(g, k, At(path, r + i), stack[i]);
      if i + 1 < |stack| {
        assert after[i + 1].canonicalComplete ==> stack[i + 1].canonicalComplete;
      }
    }
  }

  lemma RemainingFlags(g: Graph, k: nat, S: set<Vertex>, f: Frame)
    ensures Remaining(g, k, S, f.(canonicalComplete := false)) <==> Remaining(g, k, S, f)
    ensures Remaining(g, k, S, f.(next := f.next + 1, canonicalComplete := false)) <==>
              Remaining(g, k, S, f.(next := f.next + 1))
  {
    hide Feasible;
  }

  /** The donated path and its cut. */
  lemma DonatedRegion(g: Graph, k: nat, path: seq<Vertex>, r: nat, stack: seq<Frame>, owed: bool, depth: nat)
    requires StackOk(g, k, path, r, stack, owed) && depth < |stack| && stack[depth].next < |stack[depth].candidates|
    requires IsPath(g, path) && CutsWithin(g, k, path, 0)
    ensures r + depth <= |path|
    ensures var c := stack[depth].candidates[stack[depth].next];
            var p := path[..r + depth] + [c.vertex];
            && IsPath(g, p) && CutsWithin(g, k, p, 0) && c.cut == Cut(g, Elems(p))
            && Elems(p) == At(path, r + depth) + {c.vertex}
  {
    hide Cut, Feasible, Covered;
    assert Level(g, k, path, r, stack, owed, depth);
    var c, P := stack[depth].candidates[stack[depth].next], path[..r + depth];
    CandidateFacts(g, k, Elems(P), stack[depth], stack[depth].next);
    PathPrefix(g, k, path, r + depth);
    ExtendWithin(g, k, P, c.vertex);
  }

  lemma PathPrefix(g: Graph, k: nat, path: seq<Vertex>, d: nat)
    requires d <= |path| && IsPath(g, path) && CutsWithin(g, k, path, 0)
    ensures IsPath(g, path[..d]) && CutsWithin(g, k, path[..d], 0)
  {
    forall i | 0 <= i <= d ensures Cut(g, Elems(path[..d][..i])) <= k {
      assert path[..d][..i] == path[..i];
    }
  }

  lemma ExtendWithin(g: Graph, k: nat, path: seq<Vertex>, v: Vertex)
    requires IsPath(g, path) && CutsWithin(g, k, path, 0)
    requires v in Vertices(g) - Elems(path) && Cut(g, Elems(path) + {v}) <= k
    ensures IsPath(g, path + [v]) && CutsWithin(g, k, path + [v], 0) && Elems(path + [v]) == Elems(path) + {v}
  {
    ExtendPath(g, path, v);
    forall i | 0 <= i <= |path + [v]| ensures Cut(g, Elems((path + [v])[..i])) <= k {
      if i <= |path| {
        assert (path + [v])[..i] == path[..i];
      } else {
        assert (path + [v])[..i] == path + [v];
      }
    }
  }

  // ----- how much work is left -----

  /** The most turns a subtree with this many unplaced vertices can take. */
  ghost function Turns(height: nat): nat {
    if height == 0 then 2 else 2 + height * (Turns(height - 1) + 1)
  }

  /** How many of n vertices are unplaced at the given depth. */
  ghost function Height(n: nat, depth: nat): nat {
    if depth <= n then n - depth else 0
  }

  /** The turns a child of a frame can take, and the one that gives rise to it. */
  ghost function ChildTurns(height: nat): nat {
    if height == 0 then 0 else Turns(height - 1) + 1
  }

  /** The turns a frame can still take by itself and below its open candidates. */
  ghost function FrameEffort(f: Frame, height: nat): nat {
    if !f.entered then Turns(height)
    else if f.next < |f.candidates| then 1 + (|f.candidates| - f.next) * ChildTurns(height) else 1
  }

  ghost function StackEffort(n: nat, r: nat, stack: seq<Frame>): nat {
    if stack == [] then 0
    else
      var top := |stack| - 1;
      StackEffort(n, r, stack[..top]) + FrameEffort(stack[top], Height(n, r + top))
  }

  /** The turns of the queued regions, and one each to load them. */
  ghost function QueueEffort(n: nat, pending: seq<Continuation>): nat {
    if pending == [] then 0 else Turns(Height(n, |pending[0].path|)) + 1 + QueueEffort(n, pending[1..])
  }

  lemma ChildEffort(height: nat, open: nat)
    requires open > 0 && height > 0
    ensures 1 + open * ChildTurns(height) == 1 + (open - 1) * ChildTurns(height) + Turns(height - 1) + 1
    ensures 1 + (open - 1) * ChildTurns(height) < 1 + open * ChildTurns(height)
  {
  }

  lemma EnterEffort(height: nat, listed: nat)
    requires listed <= height
    ensures 1 + listed * ChildTurns(height) < Turns(height)
  {
    MoreTimes(listed, height, ChildTurns(height));
  }

  lemma MoreTimes(x: nat, y: nat, q: nat)
    requires x <= y
    ensures x * q <= y * q
  {
  }

  /** Entering, popping, consuming and descending each take a turn off. */
  lemma EffortSteps(n: nat, r: nat, stack: seq<Frame>, f: Frame, child: Frame)
    requires stack != []
    ensures StackEffort(n, r, stack[..|stack| - 1]) < StackEffort(n, r, stack)
    ensures var top := stack[|stack| - 1];
            !top.entered && f.entered && f.next == 0 && |f.candidates| <= Height(n, r + |stack| - 1) ==>
              StackEffort(n, r, stack[|stack| - 1 := f]) < StackEffort(n, r, stack)
    ensures var top := stack[|stack| - 1];
            top.entered && top.next < |top.candidates| && f == top.(next := top.next + 1) && !child.entered
            && r + |stack| - 1 < n ==>
              && StackEffort(n, r, stack[|stack| - 1 := f]) < StackEffort(n, r, stack)
              && StackEffort(n, r, stack[|stack| - 1 := f] + [child]) < StackEffort(n, r, stack)
  {
    hide Turns, ChildTurns;
    var last := |stack| - 1;
    var top, height := stack[last], Height(n, r + last);
    assert stack[last := f][..last] == stack[..last];
    assert (stack[last := f] + [child])[..last + 1] == stack[last := f];
    EffortIsPositive(top, height);
    if !top.entered && f.entered && f.next == 0 && |f.candidates| <= height {
      EnterEffort(height, |f.candidates|);
    }
    if top.entered && top.next < |top.candidates| && r + last < n {
      ChildEffort(height, |top.candidates| - top.next);
    }
  }

  lemma EffortIsPositive(f: Frame, height: nat)
    ensures FrameEffort(f, height) > 0
  {
    hide ChildTurns;
  }

  lemma {:induction false} QueueBackEffort(n: nat, pending: seq<Continuation>, p: Continuation)
    ensures QueueEffort(n, pending + [p]) == QueueEffort(n, pending) + Turns(Height(n, |p.path|)) + 1
  {
    hide Turns;
    if pending != [] {
      assert (pending + [p])[1..] == pending[1..] + [p];
      QueueBackEffort(n, pending[1..], p);
    }
  }

  /** Donating a candidate takes off the stack what it adds to the queue. */
  lemma {:induction false} DonatedEffort(n: nat, r: nat, stack: seq<Frame>, depth: nat)
    requires depth < |stack| && stack[depth].entered && stack[depth].next < |stack[depth].candidates| && r + depth < n
    ensures StackEffort(n, r, DonatedStack(stack, depth)) + Turns(Height(n, r + depth + 1)) + 1 == StackEffort(n, r, stack)
  {
    hide Turns, ChildTurns, FrameEffort;
    var top, after := |stack| - 1, DonatedStack(stack, depth);
    if depth == top {
      FlagEffort(n, r, stack[..top], after[..top]);
      DonorEffort(stack[top], Height(n, r + top));
      assert after[top] == stack[top].(next := stack[top].next + 1, canonicalComplete := false);
    } else {
      assert after[..top] == DonatedStack(stack[..top], depth) && after[top] == stack[top];
      DonatedEffort(n, r, stack[..top], depth);
    }
  }

  lemma DonorEffort(f: Frame, height: nat)
    requires f.entered && f.next < |f.candidates| && height > 0
    ensures FrameEffort(f.(next := f.next + 1, canonicalComplete := false), height) + Turns(height - 1) + 1 ==
              FrameEffort(f, height)
  {
    hide Turns;
    ChildEffort(height, |f.candidates| - f.next);
  }

  lemma {:induction false} FlagEffort(n: nat, r: nat, stack: seq<Frame>, after: seq<Frame>)
    requires |after| == |stack|
    requires forall i :: 0 <= i < |stack| ==> after[i] == stack[i].(canonicalComplete := false)
    ensures StackEffort(n, r, after) == StackEffort(n, r, stack)
  {
    hide Turns, ChildTurns;
    if stack != [] {
      FlagEffort(n, r, stack[..|stack| - 1], after[..|stack| - 1]);
    }
  }
}
