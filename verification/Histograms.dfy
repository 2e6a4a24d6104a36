/**
  Two histograms kept in step with the search: cut deltas with a maintained
  minimum, and residual degrees with a maintained maximum.
 */
module Histograms {
  import opened Options

  class DeltaHistogram {
    ghost var held: multiset<int>
    var counts: seq<nat>
    const offset: nat
    var minIdx: nat

    predicate InRange(d: int) {
      -(offset as int) <= d <= offset
    }

    /** Slot i counts the delta i - offset; minIdx is the first nonempty slot, or the number of slots. */
    ghost predicate Valid()
      reads this
    {
      && |counts| == 2 * offset + 1
      && (forall i :: 0 <= i < |counts| ==> counts[i] == held[i - offset])
      && (forall d :: d in held ==> InRange(d))
      && minIdx <= |counts|
      && (forall i :: 0 <= i < minIdx ==> counts[i] == 0)
      && (minIdx < |counts| ==> counts[minIdx] > 0)
    }

    constructor (maxDegree: nat)
      ensures Valid() && offset == maxDegree && held == multiset{}
    {
      offset := maxDegree;
      new;
      Clear();
    }

    method Clear()
      modifies this
      ensures Valid() && held == multiset{}
    {
      counts := seq(2 * offset + 1, _ => 0);
      minIdx := |counts|;
      held := multiset{};
    }

    /** Deltas outside the degree range are ignored. */
    method Add(d: int)
      requires Valid()
      modifies this
      ensures Valid() && held == if InRange(d) then old(held) + multiset{d} else old(held)
    {
      var idx := d + offset;
      if idx < 0 || idx >= |counts| {
        return;
      }
      if idx < minIdx {
        minIdx := idx;
      }
      counts := counts[idx := counts[idx] + 1];
      held := held + multiset{d};
    }

    method Remove(d: int)
      requires Valid()
      modifies this
      ensures Valid() && held == old(held) - multiset{d}
    {
      var idx := d + offset;
      if idx < 0 || idx >= |counts| || counts[idx] == 0 {
        assert d !in held;
        assert held == held - multiset{d};
        return;
      }
      counts := counts[idx := counts[idx] - 1];
      held := held - multiset{d};
      if counts[idx] == 0 && idx == minIdx {
        ghost var reduced := counts;
        while minIdx < |counts| && counts[minIdx] == 0
          invariant counts == reduced && held == old(held) - multiset{d} && minIdx <= |counts|
          invariant forall i :: 0 <= i < minIdx ==> counts[i] == 0
          decreases |counts| - minIdx
        {
          minIdx := minIdx + 1;
        }
      }
    }

    /** Moves one held delta to another value. */
    method Replace(from: int, to: int)
      requires Valid() && InRange(to)
      modifies this
      ensures Valid() && held == old(held) - multiset{from} + multiset{to}
    {
      Remove(from);
      Add(to);
    }

    /** The least delta held; None stands for the numeric limit of an empty histogram. */
    method MinDelta() returns (r: Option<int>)
      requires Valid()
      ensures r.Some? ==> r.value in held && forall d :: d in held ==> r.value <= d
      ensures r.None? ==> held == multiset{}
    {
      if minIdx >= |counts| {
        assert forall d :: d in held ==> counts[d + offset] == held[d];
        return None;
      }
      assert forall d :: d in held ==> counts[d + offset] == held[d];
      return Some(minIdx - offset);
    }
  }

  class ResidualHistogram {
    ghost var held: multiset<int>
    var counts: seq<nat>
    var maximum: nat

    /** maximum is the last nonempty bin, or zero. */
    ghost predicate Valid()
      reads this
    {
      && |counts| > 0 && maximum < |counts|
      && (forall i :: 0 <= i < |counts| ==> counts[i] == held[i])
      && (forall d :: d in held ==> 0 <= d < |counts|)
      && (forall i :: maximum < i < |counts| ==> counts[i] == 0)
      && (maximum > 0 ==> counts[maximum] > 0)
    }

    constructor (bins: nat)
      requires bins > 0
      ensures Valid() && |counts| == bins && held == multiset{}
    {
      new;
      Clear(bins);
    }

    method Clear(bins: nat)
      requires bins > 0
      modifies this
      ensures Valid() && |counts| == bins && held == multiset{}
    {
      counts := seq(bins, _ => 0);
      maximum := 0;
      held := multiset{};
    }

    /** False stands for the underflow exception. */
    method RemoveBin(d: nat) returns (ok: bool)
      requires Valid()
      modifies this
      ensures Valid() && |counts| == |old(counts)|
      ensures ok <==> d in old(held)
      ensures held == old(held) - multiset{d}
    {
      if d >= |counts| || counts[d] == 0 {
        assert held == held - multiset{d};
        return false;
      }
      counts := counts[d := counts[d] - 1];
      held := held - multiset{d};
      ghost var reduced := counts;
      while maximum != 0 && counts[maximum] == 0
        invariant counts == reduced && held == old(held) - multiset{d} && maximum < |counts|
        invariant forall i :: maximum < i < |counts| ==> counts[i] == 0
        decreases maximum
      {
        maximum := maximum - 1;
      }
      return true;
    }

    /** False stands for the overflow exception. */
    method AddBin(d: nat) returns (ok: bool)
      requires Valid()
      modifies this
      ensures Valid() && |counts| == |old(counts)|
      ensures ok <==> d < |counts|
      ensures held == if ok then old(held) + multiset{d} else old(held)
    {
      if d >= |counts| {
        return false;
      }
      counts := counts[d := counts[d] + 1];
      held := held + multiset{d};
      if d > maximum {
        maximum := d;
      }
      return true;
    }
  }

  /** The maintained maximum bounds every degree held and is attained when positive. */
  lemma MaximumIsLargest(h: ResidualHistogram)
    requires h.Valid()
    ensures forall d :: d in h.held ==> d <= h.maximum
    ensures h.maximum > 0 ==> h.maximum in h.held
  {
    forall d | d in h.held ensures d <= h.maximum {
      assert h.counts[d] == h.held[d];
    }
  }
}
