/**
  The fixed-threshold proof cache: probing tables that are never rehashed but
  grown by adding segments, each behind a Bloom filter, and recycled page by page
  when the cache is full.  It refines the set of keys recorded and not evicted.
 */
module SegmentedCaches {
  import opened Options
  import opened DecisionCaches

  datatype Segment<K> = Segment(control: seq<nat>, dense: seq<nat>, keys: seq<K>, bloom: seq<bool>,
                                depthSum: nat, maximumDepth: nat, referenced: bool)

  datatype Replacement = Freeze | GenerationalClock

  const COLD_SAMPLE: nat := 4
  const TOP_BYTE: nat := 0x100_0000_0000_0000

  /** The top byte of the hash, made odd so that it is never the free mark. */
  function Fingerprint(hash: nat): (f: nat)
    ensures f > 0
  {
    var top := hash / TOP_BYTE % 256;
    if top % 2 == 0 then top + 1 else top
  }

  /** The two filter bits of a hash. */
  predicate MaybeContains(bloom: seq<bool>, first: nat, second: nat) {
    bloom != [] && bloom[first % |bloom|] && bloom[second % |bloom|]
  }

  function WithBits(bloom: seq<bool>, first: nat, second: nat): (r: seq<bool>)
    requires bloom != []
    ensures |r| == |bloom| && MaybeContains(r, first, second)
    ensures forall i :: 0 <= i < |bloom| && bloom[i] ==> r[i]
  {
    bloom[first % |bloom| := true][second % |bloom| := true]
  }

  /** The segment as a probing table. */
  ghost function View<K>(s: Segment<K>, hash: K -> nat): (r: seq<Slot>)
    requires |s.control| == |s.dense|
    ensures |r| == |s.control|
  {
    seq(|s.control|, p requires 0 <= p < |s.control| =>
      if s.control[p] == 0 then Empty
      else Taken(if s.dense[p] < |s.keys| then hash(s.keys[s.dense[p]]) else 0, s.dense[p], 0))
  }

  function DepthSum<K>(keys: seq<K>, depth: K -> nat): nat {
    if keys == [] then 0 else DepthSum(keys[..|keys| - 1], depth) + depth(keys[|keys| - 1])
  }

  /** The table part of a segment. */
  ghost predicate TableOk<K(!new)>(s: Segment<K>, hash: K -> nat, place: map<K, nat>) {
    && |s.control| == |s.dense| && |s.control| >= INITIAL_CAPACITY
    && Placed(View(s, hash), s.keys, hash, place) && Unbroken(View(s, hash))
    && CountTaken(View(s, hash)) == |s.keys| == |place| && BelowLoadLimit(|s.keys|, |s.control|)
    && Marked(s, hash)
  }

  /** Every occupied slot points at a key and carries its fingerprint. */
  ghost predicate Marked<K(!new)>(s: Segment<K>, hash: K -> nat)
    requires |s.control| == |s.dense|
  {
    forall p :: 0 <= p < |s.control| && s.control[p] != 0 ==>
      s.dense[p] < |s.keys| && s.control[p] == Fingerprint(hash(s.keys[s.dense[p]]))
  }

  /** The filter has the bits of every key, and the depths are those of the keys. */
  ghost predicate ExtrasOk<K(!new)>(s: Segment<K>, hash: K -> nat, mix: nat -> nat, depth: K -> nat, place: map<K, nat>) {
    && s.bloom != [] && (forall k :: k in place ==> MaybeContains(s.bloom, hash(k), mix(hash(k))))
    && s.depthSum == DepthSum(s.keys, depth)
    && (forall i :: 0 <= i < |s.keys| ==> depth(s.keys[i]) <= s.maximumDepth)
  }

  ghost predicate SegmentOk<K(!new)>(s: Segment<K>, hash: K -> nat, mix: nat -> nat, depth: K -> nat, place: map<K, nat>) {
    TableOk(s, hash, place) && ExtrasOk(s, hash, mix, depth, place)
  }

  function FreshSegment<K>(capacity: nat): Segment<K> {
    Segment(seq(capacity, _ => 0), seq(capacity, _ => 0), [], seq((capacity * 8 + 63) / 64 * 64, _ => false), 0, 0, true)
  }

  lemma FreshSegmentOk<K(!new)>(capacity: nat, hash: K -> nat, mix: nat -> nat, depth: K -> nat)
    requires capacity >= INITIAL_CAPACITY
    ensures SegmentOk<K>(FreshSegment<K>(capacity), hash, mix, depth, map[])
  {
    var s := FreshSegment<K>(capacity);
    CountEmpty(View(s, hash));
    assert |s.bloom| >= 64;
  }

  /** Clearing keeps the capacity and forgets everything else. */
  function Cleared<K>(s: Segment<K>): Segment<K> {
    Segment(seq(|s.control|, _ => 0), seq(|s.dense|, _ => 0), [], seq(|s.bloom|, _ => false), 0, 0, true)
  }

  lemma ClearedOk<K(!new)>(s: Segment<K>, hash: K -> nat, mix: nat -> nat, depth: K -> nat, place: map<K, nat>)
    requires SegmentOk(s, hash, mix, depth, place)
    ensures SegmentOk(Cleared(s), hash, mix, depth, map[])
  {
    CountEmpty(View(Cleared(s), hash));
  }

  /** The segment after filling a free slot with a new key. */
  function Filled<K>(s: Segment<K>, slot: nat, key: K, hash: nat, second: nat, depth: nat): Segment<K>
    requires slot < |s.control| && slot < |s.dense| && s.bloom != []
  {
    Segment(s.control[slot := Fingerprint(hash)], s.dense[slot := |s.keys|], s.keys + [key],
            WithBits(s.bloom, hash, second), s.depthSum + depth,
            if depth > s.maximumDepth then depth else s.maximumDepth, true)
  }

  lemma FilledTableOk<K(!new)>(s: Segment<K>, hash: K -> nat, place: map<K, nat>, slot: nat, key: K, f: Segment<K>)
    requires TableOk(s, hash, place) && slot < |s.control| && s.control[slot] == 0 && key !in place
    requires Passed(View(s, hash), s.keys, Home(hash(key), |s.control|), slot, key)
    requires BelowLoadLimit(|s.keys| + 1, |s.control|)
    requires f.control == s.control[slot := Fingerprint(hash(key))] && f.dense == s.dense[slot := |s.keys|]
    requires f.keys == s.keys + [key]
    ensures TableOk(f, hash, place[key := slot])
  {
    var v, t := View(s, hash), Taken(hash(key), |s.keys|, 0);
    ViewFilled(s, hash, slot, key, f);
    hide Placed, Unbroken, Passed, CountTaken, View, Marked, Fingerprint;
    MoreKeys(v, s.keys, hash, place, Home(hash(key), |v|), slot, key);
    ViewFree(s, hash, slot);
    FillSlot(v, s.keys + [key], hash, place, slot, key, t);
  }

  lemma ViewFree<K(!new)>(s: Segment<K>, hash: K -> nat, slot: nat)
    requires |s.control| == |s.dense| && slot < |s.control| && s.control[slot] == 0
    ensures View(s, hash)[slot] == Empty
  {
  }

  lemma ViewFilled<K(!new)>(s: Segment<K>, hash: K -> nat, slot: nat, key: K, f: Segment<K>)
    requires |s.control| == |s.dense| && slot < |s.control| && Marked(s, hash)
    requires f.control == s.control[slot := Fingerprint(hash(key))] && f.dense == s.dense[slot := |s.keys|]
    requires f.keys == s.keys + [key]
    ensures View(f, hash) == View(s, hash)[slot := Taken(hash(key), |s.keys|, 0)] && Marked(f, hash)
  {
    hide Fingerprint;
  }

  lemma FilledOk<K(!new)>(s: Segment<K>, hash: K -> nat, mix: nat -> nat, depth: K -> nat, place: map<K, nat>,
                          slot: nat, key: K)
    requires SegmentOk(s, hash, mix, depth, place) && slot < |s.control| && s.control[slot] == 0 && key !in place
    requires |s.control| == |s.dense| && s.bloom != []
    requires Passed(View(s, hash), s.keys, Home(hash(key), |s.control|), slot, key)
    requires BelowLoadLimit(|s.keys| + 1, |s.control|)
    ensures SegmentOk(Filled(s, slot, key, hash(key), mix(hash(key)), depth(key)), hash, mix, depth, place[key := slot])
  {
    var f := Filled(s, slot, key, hash(key), mix(hash(key)), depth(key));
    hide TableOk, Passed, View, ExtrasOk, WithBits, Fingerprint;
    FilledTableOk(s, hash, place, slot, key, f);
    FilledExtrasOk(s, hash, mix, depth, place, slot, key, f);
  }

  lemma FilledExtrasOk<K(!new)>(s: Segment<K>, hash: K -> nat, mix: nat -> nat, depth: K -> nat, place: map<K, nat>,
                                slot: nat, key: K, f: Segment<K>)
    requires ExtrasOk(s, hash, mix, depth, place) && s.bloom != []
    requires f.bloom == WithBits(s.bloom, hash(key), mix(hash(key))) && f.keys == s.keys + [key]
    requires f.depthSum == s.depthSum + depth(key)
    requires f.maximumDepth == if depth(key) > s.maximumDepth then depth(key) else s.maximumDepth
    ensures ExtrasOk(f, hash, mix, depth, place[key := slot])
  {
    assert f.keys[..|f.keys| - 1] == s.keys;
    hide WithBits;
    forall k | k in place[key := slot] ensures MaybeContains(f.bloom, hash(k), mix(hash(k))) {
      assert k != key ==> MaybeContains(s.bloom, hash(k), mix(hash(k)));
    }
  }

  /** The slot of the key in one segment, or the free slot where its probe chain ends. */
  method Find<K(!new, ==)>(s: Segment<K>, hash: K -> nat, ghost place: map<K, nat>, key: K) returns (index: nat)
    requires TableOk(s, hash, place)
    ensures index < |s.control| && (s.control[index] != 0 <==> key in place)
    ensures s.control[index] == 0 ==> Passed(View(s, hash), s.keys, Home(hash(key), |s.control|), index, key)
  {
    ghost var v := View(s, hash);
    CountBounded(v);
    ghost var free :| 0 <= free < |v| && v[free] == Empty;
    var home := Home(hash(key), |s.control|);
    index := home;
    hide Placed, Unbroken, Passed, CountTaken, Home, Nearer, Fingerprint;
    ProbeStart(v, s.keys, home, key);
    while s.control[index] != 0 && !(s.control[index] == Fingerprint(hash(key)) && s.keys[s.dense[index]] == key)
      invariant index < |s.control| && Passed(v, s.keys, home, index, key) && !Nearer(v, home, free, index)
      decreases |v| - Dist(home, index, |v|)
    {
      TakenSlot(v, s.keys, hash, place, index);
      ProbeStep(v, s.keys, home, index, free, key);
      index := if index + 1 == |s.control| then 0 else index + 1;
    }
    if s.control[index] == 0 {
      FreeMeansAbsent(v, s.keys, hash, place, index, key);
    } else {
      TakenSlot(v, s.keys, hash, place, index);
    }
  }

  // ----- the store: all segments together -----

  /** Disjoint sets that make up `all`. */
  ghost predicate Partition<K(!new)>(parts: seq<set<K>>, all: set<K>) {
    && (forall i, j :: 0 <= i < |parts| && 0 <= j < |parts| && i != j ==> parts[i] !! parts[j])
    && (forall i :: 0 <= i < |parts| ==> parts[i] <= all)
    && (forall k :: k in all ==> exists i :: 0 <= i < |parts| && k in parts[i])
  }

  lemma PartitionReplace<K(!new)>(parts: seq<set<K>>, all: set<K>, i: nat, part: set<K>)
    requires Partition(parts, all) && i < |parts| && part * all <= parts[i]
    ensures Partition(parts[i := part], (all - parts[i]) + part)
  {
    var after, rest := parts[i := part], (all - parts[i]) + part;
    forall k | k in rest ensures exists j :: 0 <= j < |after| && k in after[j] {
      if k in part {
        assert k in after[i];
      } else {
        var j :| 0 <= j < |parts| && k in parts[j];
        assert k in after[j];
      }
    }
    forall j | 0 <= j < |parts| && j != i ensures parts[j] <= rest && parts[j] !! part {
      assert parts[j] !! parts[i];
    }
  }

  lemma PartitionAppend<K(!new)>(parts: seq<set<K>>, all: set<K>)
    requires Partition(parts, all)
    ensures Partition(parts + [{}], all)
  {
    var after := parts + [{}];
    forall k | k in all ensures exists j :: 0 <= j < |after| && k in after[j] {
      var j :| 0 <= j < |parts| && k in parts[j];
      assert k in after[j];
    }
  }

  lemma PartitionSwap<K(!new)>(parts: seq<set<K>>, all: set<K>, i: nat, j: nat)
    requires Partition(parts, all) && i < |parts| && j < |parts|
    ensures Partition(Swapped(parts, i, j), all)
  {
    var after := Swapped(parts, i, j);
    forall k | k in all ensures exists x :: 0 <= x < |after| && k in after[x] {
      var x :| 0 <= x < |parts| && k in parts[x];
      assert k in after[if x == i then j else if x == j then i else x];
    }
    forall x, y | 0 <= x < |after| && 0 <= y < |after| && x != y ensures after[x] !! after[y] {
      var a, b := if x == i then j else if x == j then i else x, if y == i then j else if y == j then i else y;
      assert parts[a] !! parts[b];
    }
  }

  function Swapped<T>(s: seq<T>, i: nat, j: nat): (r: seq<T>)
    requires i < |s| && j < |s|
    ensures |r| == |s|
  {
    s[i := s[j]][j := s[i]]
  }

  ghost function Domains<K>(places: seq<map<K, nat>>): (r: seq<set<K>>)
    ensures |r| == |places| && forall i :: 0 <= i < |r| ==> r[i] == places[i].Keys
  {
    seq(|places|, i requires 0 <= i < |places| => places[i].Keys)
  }

  ghost predicate SegmentsOk<K(!new)>(segments: seq<Segment<K>>, places: seq<map<K, nat>>, hash: K -> nat, mix: nat -> nat,
                                      depth: K -> nat) {
    |places| == |segments| && forall i :: 0 <= i < |segments| ==> SegmentOk(segments[i], hash, mix, depth, places[i])
  }

  /** The segments are sound, no key is in two of them, and together they hold exactly `retained`. */
  ghost predicate StoreOk<K(!new)>(segments: seq<Segment<K>>, places: seq<map<K, nat>>, hash: K -> nat, mix: nat -> nat,
                                   depth: K -> nat, retained: set<K>) {
    SegmentsOk(segments, places, hash, mix, depth) && Partition(Domains(places), retained)
  }

  lemma StoreSegment<K(!new)>(segments: seq<Segment<K>>, places: seq<map<K, nat>>, hash: K -> nat, mix: nat -> nat,
                              depth: K -> nat, retained: set<K>, i: nat)
    requires StoreOk(segments, places, hash, mix, depth, retained) && i < |segments|
    ensures i < |places| && SegmentOk(segments[i], hash, mix, depth, places[i]) && places[i].Keys <= retained
  {
    hide SegmentOk;
    assert Domains(places)[i] == places[i].Keys;
  }

  lemma SegmentFacts<K(!new)>(s: Segment<K>, hash: K -> nat, mix: nat -> nat, depth: K -> nat, place: map<K, nat>)
    requires SegmentOk(s, hash, mix, depth, place)
    ensures TableOk(s, hash, place) && s.bloom != [] && |s.control| == |s.dense| && |s.control| >= INITIAL_CAPACITY
    ensures |s.keys| == |place.Keys| && BelowLoadLimit(|s.keys|, |s.control|) && s.depthSum == DepthSum(s.keys, depth)
  {
    hide Placed, Unbroken, View, Marked, CountTaken, DepthSum;
    KeysOfMap(place);
  }

  lemma KeysOfMap<K, V>(m: map<K, V>)
    ensures |m| == |m.Keys|
  {
  }

  /** A key whose filter bits are missing from a segment is not in it: no false negatives. */
  lemma FilterIsComplete<K(!new)>(s: Segment<K>, hash: K -> nat, mix: nat -> nat, depth: K -> nat, place: map<K, nat>, key: K)
    requires SegmentOk(s, hash, mix, depth, place) && !MaybeContains(s.bloom, hash(key), mix(hash(key)))
    ensures key !in place
  {
    hide TableOk;
  }

  lemma StoreAppend<K(!new)>(segments: seq<Segment<K>>, places: seq<map<K, nat>>, hash: K -> nat, mix: nat -> nat,
                             depth: K -> nat, retained: set<K>, s: Segment<K>)
    requires StoreOk(segments, places, hash, mix, depth, retained) && SegmentOk(s, hash, mix, depth, map[])
    ensures StoreOk(segments + [s], places + [map[]], hash, mix, depth, retained)
  {
    hide SegmentOk, Partition;
    var none: map<K, nat> := map[];
    PartitionAppend(Domains(places), retained);
    assert none.Keys == {};
    assert Domains(places + [none]) == Domains(places) + [none.Keys];
  }

  /** Marking a page referenced or not. */
  function Flagged<K>(s: Segment<K>, referenced: bool): Segment<K> {
    s.(referenced := referenced)
  }

  lemma StoreFlag<K(!new)>(segments: seq<Segment<K>>, places: seq<map<K, nat>>, hash: K -> nat, mix: nat -> nat,
                           depth: K -> nat, retained: set<K>, i: nat, referenced: bool)
    requires StoreOk(segments, places, hash, mix, depth, retained) && i < |segments|
    ensures StoreOk(segments[i := Flagged(segments[i], referenced)], places, hash, mix, depth, retained)
  {
    hide SegmentOk, Partition, Flagged, Domains;
    FlagKeepsSegment(segments[i], hash, mix, depth, places[i], referenced);
  }

  lemma FlagKeepsSegment<K(!new)>(s: Segment<K>, hash: K -> nat, mix: nat -> nat, depth: K -> nat, place: map<K, nat>,
                                  referenced: bool)
    requires SegmentOk(s, hash, mix, depth, place)
    ensures SegmentOk(Flagged(s, referenced), hash, mix, depth, place)
  {
    assert View(Flagged(s, referenced), hash) == View(s, hash);
    hide Placed, Unbroken, CountTaken;
  }

  function Added<K>(place: map<K, nat>, key: K, slot: nat): map<K, nat> {
    place[key := slot]
  }

  /** A new key goes into the last segment. */
  lemma StoreInsert<K(!new)>(segments: seq<Segment<K>>, places: seq<map<K, nat>>, hash: K -> nat, mix: nat -> nat,
                             depth: K -> nat, retained: set<K>, key: K, f: Segment<K>, slot: nat)
    requires StoreOk(segments, places, hash, mix, depth, retained) && segments != [] && key !in retained
    requires |places| == |segments|
    requires SegmentOk(f, hash, mix, depth, Added(places[|segments| - 1], key, slot))
    ensures var last := |segments| - 1;
            StoreOk(segments[last := f], places[last := Added(places[last], key, slot)], hash, mix, depth, retained + {key})
  {
    hide SegmentOk, Partition;
    var last := |segments| - 1;
    var part := places[last].Keys + {key};
    assert Domains(places)[last] == places[last].Keys;
    StoreSegment(segments, places, hash, mix, depth, retained, last);
    assert part * retained <= places[last].Keys;
    PartitionReplace(Domains(places), retained, last, part);
    assert (retained - places[last].Keys) + part == retained + {key};
    assert Added(places[last], key, slot).Keys == part;
    assert Domains(places[last := Added(places[last], key, slot)]) == Domains(places)[last := part];
  }

  /** Clearing page i forgets exactly its keys. */
  lemma StoreClear<K(!new)>(segments: seq<Segment<K>>, places: seq<map<K, nat>>, hash: K -> nat, mix: nat -> nat,
                            depth: K -> nat, retained: set<K>, i: nat)
    requires StoreOk(segments, places, hash, mix, depth, retained) && i < |segments|
    ensures |places| == |segments|
    ensures StoreOk(segments[i := Cleared(segments[i])], places[i := map[]], hash, mix, depth, retained - places[i].Keys)
  {
    hide SegmentOk, Partition, Cleared;
    ClearedOk(segments[i], hash, mix, depth, places[i]);
    var none: map<K, nat> := map[];
    assert Domains(places)[i] == places[i].Keys;
    PartitionReplace(Domains(places), retained, i, {});
    assert (retained - places[i].Keys) + {} == retained - places[i].Keys;
    assert none.Keys == {};
    assert Domains(places[i := none]) == Domains(places)[i := none.Keys];
  }

  lemma StoreSwap<K(!new)>(segments: seq<Segment<K>>, places: seq<map<K, nat>>, hash: K -> nat, mix: nat -> nat,
                           depth: K -> nat, retained: set<K>, i: nat, j: nat)
    requires StoreOk(segments, places, hash, mix, depth, retained) && i < |segments| && j < |segments|
    ensures |places| == |segments|
    ensures StoreOk(Swapped(segments, i, j), Swapped(places, i, j), hash, mix, depth, retained)
  {
    hide SegmentOk, Partition;
    PartitionSwap(Domains(places), retained, i, j);
    assert Domains(Swapped(places, i, j)) == Swapped(Domains(places), i, j);
  }

  /** Clearing page i and moving it to the end. */
  lemma SwappedLast<T>(s: seq<T>, i: nat)
    requires i < |s|
    ensures |Swapped(s, i, |s| - 1)| == |s| && Swapped(s, i, |s| - 1)[|s| - 1] == s[i]
  {
  }

  lemma EmptyHasRoom<K>(s: Segment<K>)
    requires s.keys == [] && |s.control| >= INITIAL_CAPACITY
    ensures BelowLoadLimit(|s.keys| + 1, |s.control|)
  {
  }

  lemma StoreEvict<K(!new)>(segments: seq<Segment<K>>, places: seq<map<K, nat>>, hash: K -> nat, mix: nat -> nat,
                            depth: K -> nat, retained: set<K>, i: nat)
    requires StoreOk(segments, places, hash, mix, depth, retained) && i < |segments|
    ensures |places| == |segments| && places[i].Keys <= retained
    ensures |retained - places[i].Keys| == |retained| - |segments[i].keys|
    ensures Cleared(segments[i]).keys == [] && |Cleared(segments[i]).control| >= INITIAL_CAPACITY
    ensures StoreOk(Swapped(segments[i := Cleared(segments[i])], i, |segments| - 1),
                    Swapped(places[i := map[]], i, |segments| - 1), hash, mix, depth, retained - places[i].Keys)
  {
    hide *;
    StoreSegment(segments, places, hash, mix, depth, retained, i);
    SegmentFacts(segments[i], hash, mix, depth, places[i]);
    ClearedFacts(segments[i]);
    StoreClear(segments, places, hash, mix, depth, retained, i);
    StoreSwap(segments[i := Cleared(segments[i])], places[i := map[]], hash, mix, depth, retained - places[i].Keys,
              i, |segments| - 1);
  }

  lemma ClearedFacts<K>(s: Segment<K>)
    ensures Cleared(s).keys == [] && |Cleared(s).control| == |s.control|
  {
  }

  lemma LastSegment<K(!new)>(segments: seq<Segment<K>>, places: seq<map<K, nat>>, hash: K -> nat, mix: nat -> nat,
                             depth: K -> nat, retained: set<K>)
    requires StoreOk(segments, places, hash, mix, depth, retained) && segments != []
    ensures |places| == |segments|
    ensures var s, place := segments[|segments| - 1], places[|segments| - 1];
            && SegmentOk(s, hash, mix, depth, place) && TableOk(s, hash, place)
            && s.bloom != [] && |s.control| == |s.dense| && place.Keys <= retained
  {
    StoreSegment(segments, places, hash, mix, depth, retained, |segments| - 1);
    SegmentFacts(segments[|segments| - 1], hash, mix, depth, places[|segments| - 1]);
    hide SegmentOk, TableOk, Partition;
  }

  // ----- the cache -----

  /** Exactly one bit set. */
  predicate SingleBit(n: nat) {
    n == 1 || (n > 1 && n % 2 == 0 && SingleBit(n / 2))
  }

  /** Every capacity is a power of two. */
  ghost predicate BinaryPages<K>(pages: seq<Segment<K>>) {
    forall i :: 0 <= i < |pages| ==> SingleBit(|pages[i].control|)
  }

  lemma BinaryUpdate<K>(pages: seq<Segment<K>>, i: nat, page: Segment<K>)
    requires BinaryPages(pages) && i < |pages| && |page.control| == |pages[i].control|
    ensures BinaryPages(pages[i := page])
  {
  }

  lemma BinaryAppend<K>(pages: seq<Segment<K>>, capacity: nat)
    requires BinaryPages(pages) && SingleBit(capacity)
    ensures BinaryPages(pages + [FreshSegment<K>(capacity)])
  {
  }

  lemma BinaryEvict<K>(pages: seq<Segment<K>>, i: nat)
    requires BinaryPages(pages) && i < |pages|
    ensures BinaryPages(Swapped(pages[i := Cleared(pages[i])], i, |pages| - 1))
  {
    hide SingleBit;
  }

  lemma Doubled(n: nat)
    requires SingleBit(n)
    ensures SingleBit(2 * n)
  {
    assert 2 * n / 2 == n;
  }

  /** At most seven tenths of the slots are taken. */
  lemma SevenTenths(entries: nat, capacity: nat)
    ensures BelowLoadLimit(entries, capacity) <==> 10 * entries <= 7 * capacity
  {
  }

  /** One page is colder than another when its average depth is smaller. */
  predicate Shallower<K>(a: Segment<K>, b: Segment<K>) {
    a.depthSum * |b.keys| < b.depthSum * |a.keys|
  }

  /** The same pages up to their reference marks. */
  ghost predicate SamePages<K>(a: seq<Segment<K>>, b: seq<Segment<K>>) {
    |a| == |b| && forall i :: 0 <= i < |a| ==> a[i].(referenced := true) == b[i].(referenced := true)
  }

  /** The page under a hand that started at `hand` and has moved v places. */
  function PageAt(hand: nat, v: nat, pages: nat): (i: nat)
    requires pages > 0
    ensures i < pages
  {
    (hand + v) % pages
  }

  lemma PageUnderHand(hand: nat, v: nat, pages: nat)
    requires pages > 0
    ensures PageAt(hand, v, pages) == (hand + v) % pages
  {
  }

  /** Only pages passed by the hand have lost their mark. */
  ghost predicate OnlyVisitedMarked<K>(before: seq<Segment<K>>, now: seq<Segment<K>>, hand: nat, visit: nat) {
    |before| == |now| &&
    forall i :: 0 <= i < |now| && now[i].referenced != before[i].referenced ==>
      exists v :: 0 <= v < visit && PageAt(hand, v, |now|) == i
  }

  /** Within one turn the hand meets every page for the first time. */
  lemma NotYetVisited<K>(before: seq<Segment<K>>, now: seq<Segment<K>>, hand: nat, visit: nat)
    requires OnlyVisitedMarked(before, now, hand, visit) && visit < |now|
    ensures var i := PageAt(hand, visit, |now|); now[i].referenced == before[i].referenced
    ensures OnlyVisitedMarked(before, now, hand, visit + 1)
  {
    forall v | 0 <= v < visit ensures PageAt(hand, v, |now|) != PageAt(hand, visit, |now|) {
      DistinctPages(hand, v, visit, |now|);
    }
    hide PageAt;
    forall i | 0 <= i < |now| && now[i].referenced != before[i].referenced
      ensures exists v :: 0 <= v < visit + 1 && PageAt(hand, v, |now|) == i
    {
      var v :| 0 <= v < visit && PageAt(hand, v, |now|) == i;
      assert PageAt(hand, v, |now|) == i;
    }
  }

  lemma DistinctPages(hand: nat, v: nat, w: nat, pages: nat)
    requires v < w < pages
    ensures PageAt(hand, v, pages) != PageAt(hand, w, pages)
  {
    var x, y := hand + v, hand + w;
    Division(x, pages);
    Division(y, pages);
    NoMultipleBetween(y / pages - x / pages, pages);
    Difference(y / pages, x / pages, pages);
  }

  lemma Division(x: nat, n: nat)
    requires n > 0
    ensures x == x / n * n + x % n
  {
  }

  lemma Difference(a: int, b: int, n: int)
    ensures (a - b) * n == a * n - b * n
  {
  }

  lemma NoMultipleBetween(c: int, n: nat)
    ensures c * n <= 0 || c * n >= n
  {
    if c > 0 {
      Difference(c, 1, n);
      NonNegative(c - 1, n);
    } else {
      Difference(0, c, n);
      NonNegative(0 - c, n);
    }
  }

  lemma NonNegative(x: nat, y: nat)
    ensures x * y >= 0
  {
  }

  /** Every largest page that the hand has passed has lost its mark, and the other pages are as they were. */
  ghost predicate Demoted<K>(before: seq<Segment<K>>, now: seq<Segment<K>>, largest: nat, hand: nat, visits: nat) {
    && OnlyVisitedMarked(before, now, hand, visits)
    && (forall v :: 0 <= v < visits && now != [] ==>
          var p := now[PageAt(hand, v, |now|)]; p.keys != [] && |p.control| == largest ==> !p.referenced)
  }

  lemma DemotedNext<K>(before: seq<Segment<K>>, now: seq<Segment<K>>, largest: nat, hand: nat, visit: nat)
    requires Demoted(before, now, largest, hand, visit) && visit < |now|
    requires OnlyVisitedMarked(before, now, hand, visit + 1)
    ensures var i := PageAt(hand, visit, |now|);
            var p := now[i];
            && (p.keys != [] && |p.control| == largest && p.referenced ==>
                  OnlyVisitedMarked(before, now[i := Flagged(p, false)], hand, visit + 1) ==>
                    Demoted(before, now[i := Flagged(p, false)], largest, hand, visit + 1))
            && (!(p.keys != [] && |p.control| == largest && p.referenced) ==> Demoted(before, now, largest, hand, visit + 1))
  {
    hide PageAt, OnlyVisitedMarked;
  }

  lemma SameAsBefore<K>(pages: seq<Segment<K>>)
    ensures SamePages(pages, pages)
  {
  }

  /** A full turn without a victim leaves one for the next. */
  lemma AllDemoted<K>(before: seq<Segment<K>>, now: seq<Segment<K>>, largest: nat, hand: nat)
    requires Demoted(before, now, largest, hand, |now|) && SamePages(now, before)
    requires IsLargest(before, largest) && largest > 0
    ensures HasColdPage(now)
  {
    hide PageAt, OnlyVisitedMarked;
    var i :| 0 <= i < |before| && before[i].keys != [] && |before[i].control| == largest;
    forall j | 0 <= j < |now| ensures now[j].keys == before[j].keys && now[j].control == before[j].control {
      assert now[j].(referenced := true) == before[j].(referenced := true);
    }
    EveryPageMet(hand, i, |now|);
    assert ColdPage(now, i);
  }

  lemma SameStart<K>(pages: seq<Segment<K>>, hand: nat)
    ensures OnlyVisitedMarked(pages, pages, hand, 0) && forall largest :: Demoted(pages, pages, largest, hand, 0)
  {
  }

  lemma DemotedIsMarked<K>(before: seq<Segment<K>>, now: seq<Segment<K>>, largest: nat, hand: nat, visit: nat)
    requires Demoted(before, now, largest, hand, visit)
    ensures OnlyVisitedMarked(before, now, hand, visit)
  {
  }

  lemma MarkVisited<K>(before: seq<Segment<K>>, now: seq<Segment<K>>, hand: nat, visit: nat, mark: bool)
    requires OnlyVisitedMarked(before, now, hand, visit + 1) && visit < |now|
    ensures var i := PageAt(hand, visit, |now|);
            OnlyVisitedMarked(before, now[i := Flagged(now[i], mark)], hand, visit + 1)
  {
    hide PageAt;
  }

  // ----- the sweep of the clock -----

  /** Among the pages that hold keys it is one of the largest, and nothing referred to it lately. */
  predicate ColdPage<K>(pages: seq<Segment<K>>, i: nat) {
    && i < |pages| && pages[i].keys != [] && !pages[i].referenced
    && forall j :: 0 <= j < |pages| && pages[j].keys != [] ==> |pages[j].control| <= |pages[i].control|
  }

  ghost predicate HasColdPage<K>(pages: seq<Segment<K>>) {
    exists i :: 0 <= i < |pages| && ColdPage(pages, i)
  }

  ghost predicate HoldsKeys<K>(pages: seq<Segment<K>>) {
    exists i :: 0 <= i < |pages| && pages[i].keys != []
  }

  /** How many cold pages a hand meets in its first visits. */
  ghost function ColdPassed<K>(pages: seq<Segment<K>>, hand: nat, visits: nat): nat
    requires pages != []
  {
    if visits == 0 then 0
    else ColdPassed(pages, hand, visits - 1) + if ColdPage(pages, PageAt(hand, visits - 1, |pages|)) then 1 else 0
  }

  /** The largest capacity among the pages that hold keys; zero if none does. */
  ghost predicate IsLargest<K>(pages: seq<Segment<K>>, largest: nat) {
    && (forall i :: 0 <= i < |pages| && pages[i].keys != [] ==> |pages[i].control| <= largest)
    && (largest > 0 ==> exists i :: 0 <= i < |pages| && pages[i].keys != [] && |pages[i].control| == largest)
  }

  /** The keys of the page that a sweep chose. */
  ghost predicate Evicts<K(!new)>(pages: seq<Segment<K>>, hand: nat, places: seq<map<K, nat>>, evicted: set<K>) {
    exists i, visits :: 0 <= i < |pages| && i < |places| && ColdPage(pages, i)
                        && Sweep(pages, hand, visits, Some(i)) && evicted == places[i].Keys
  }

  lemma StartSweep<K>(pages: seq<Segment<K>>, hand: nat)
    requires pages != []
    ensures IsShallowest(pages, hand, 0, None) && ColdPassed(pages, hand, 0) == 0
  {
  }

  /** The test made under the hand is the test for a cold page at the start of the sweep. */
  lemma ColdCount<K>(before: seq<Segment<K>>, now: seq<Segment<K>>, largest: nat, hand: nat, visit: nat)
    requires before != [] && SamePages(now, before) && IsLargest(before, largest) && largest > 0
    requires now[PageAt(hand, visit, |now|)].referenced == before[PageAt(hand, visit, |now|)].referenced
    ensures var p := now[PageAt(hand, visit, |now|)];
            var cold := p.keys != [] && |p.control| == largest && !p.referenced;
            && (Met(before, hand, visit) <==> cold)
            && ColdPassed(before, hand, visit + 1) == ColdPassed(before, hand, visit) + if cold then 1 else 0
  {
    hide PageAt;
    var i := PageAt(hand, visit, |now|);
    assert now[i].(referenced := true) == before[i].(referenced := true);
    assert now[i].keys == before[i].keys && now[i].control == before[i].control;
  }

  lemma SameDepths<K>(a: Segment<K>, b: Segment<K>, c: Segment<K>, d: Segment<K>)
    requires a.(referenced := true) == b.(referenced := true) && c.(referenced := true) == d.(referenced := true)
    ensures Shallower(a, c) <==> Shallower(b, d)
  {
    assert a.keys == b.keys && c.keys == d.keys && a.depthSum == b.depthSum && c.depthSum == d.depthSum;
  }

  lemma SweepEnds<K>(pages: seq<Segment<K>>, hand: nat, visits: nat, best: Option<nat>)
    requires pages != [] && visits <= |pages| && IsShallowest(pages, hand, visits, best)
    requires visits == |pages| || ColdPassed(pages, hand, visits) >= COLD_SAMPLE
    requires visits > 0 ==> ColdPassed(pages, hand, visits - 1) < COLD_SAMPLE
    ensures Sweep(pages, hand, visits, best) && (best.Some? <==> HasColdPage(pages))
    ensures best.Some? ==> ColdPage(pages, best.value)
    ensures best == None ==> visits == |pages|
  {
    hide PageAt, ColdPage, IsShallowest;
    if best == None {
      NothingPassed(pages, hand, visits);
      FullTurn(pages, hand);
    } else {
      SomePageMet(pages, hand, visits, best);
    }
  }

  /** A page met at visit v, cold when the sweep began. */
  ghost predicate Met<K>(pages: seq<Segment<K>>, hand: nat, v: nat)
    requires pages != []
  {
    ColdPage(pages, PageAt(hand, v, |pages|))
  }

  /** The shallowest cold page met so far, the first of them when several are equally shallow. */
  ghost predicate IsShallowest<K>(pages: seq<Segment<K>>, hand: nat, visits: nat, best: Option<nat>)
    requires pages != []
  {
    match best
    case None => forall v :: 0 <= v < visits ==> !Met(pages, hand, v)
    case Some(b) => exists w :: 0 <= w < visits && IsFirst(pages, hand, visits, w) && b == PageAt(hand, w, |pages|)
  }

  ghost predicate IsFirst<K>(pages: seq<Segment<K>>, hand: nat, visits: nat, w: nat)
    requires pages != []
  {
    Met(pages, hand, w) &&
    forall v :: 0 <= v < visits && Met(pages, hand, v) ==>
      var b, p := pages[PageAt(hand, w, |pages|)], pages[PageAt(hand, v, |pages|)];
      if v < w then Shallower(b, p) else !Shallower(p, b)
  }

  /** The outcome of one sweep: it stops after a full turn, or at the last page of its sample. */
  ghost predicate Sweep<K>(pages: seq<Segment<K>>, hand: nat, visits: nat, best: Option<nat>) {
    && pages != [] && visits <= |pages| && IsShallowest(pages, hand, visits, best)
    && (visits == |pages| || ColdPassed(pages, hand, visits) == COLD_SAMPLE)
    && (visits > 0 ==> ColdPassed(pages, hand, visits - 1) < COLD_SAMPLE)
  }

  lemma ShallowerThrough<K>(a: Segment<K>, b: Segment<K>, c: Segment<K>)
    requires a.keys != [] && b.keys != [] && c.keys != []
    requires Shallower(a, b) && !Shallower(c, b)
    ensures Shallower(a, c)
  {
    Ratios(a.depthSum, |a.keys|, b.depthSum, |b.keys|, c.depthSum, |c.keys|);
  }

  lemma Ratios(a: nat, x: nat, b: nat, y: nat, c: nat, z: nat)
    requires x > 0 && y > 0 && z > 0 && a * y < b * x && b * z <= c * y
    ensures a * z < c * x
  {
    if a * z >= c * x {
      Scale(c * x, a * z, y);
      Scale(b * z, c * y, x);
      ScaleStrictly(a * y, b * x, z);
      assert false;
    }
  }

  lemma Scale(a: int, b: int, m: nat)
    requires a <= b
    ensures a * m <= b * m
  {
  }

  lemma ScaleStrictly(a: int, b: int, m: nat)
    requires a < b && m > 0
    ensures a * m < b * m
  {
  }

  /** Meeting one more page. */
  lemma MeetCold<K>(pages: seq<Segment<K>>, hand: nat, visit: nat, best: Option<nat>)
    requires pages != [] && IsShallowest(pages, hand, visit, best) && Met(pages, hand, visit)
    requires best.Some? ==> best.value < |pages|
    ensures var i := PageAt(hand, visit, |pages|);
            IsShallowest(pages, hand, visit + 1,
                         if best == None || Shallower(pages[i], pages[best.value]) then Some(i) else best)
  {
    hide PageAt, Shallower;
    var i := PageAt(hand, visit, |pages|);
    if best == None {
      assert !Shallower(pages[i], pages[i]) by { NotShallowerThanItself(pages[i]); }
      assert IsFirst(pages, hand, visit + 1, visit);
    } else {
      var w :| 0 <= w < visit && IsFirst(pages, hand, visit, w) && best.value == PageAt(hand, w, |pages|);
      if Shallower(pages[i], pages[best.value]) {
        forall v | 0 <= v < visit && Met(pages, hand, v) ensures Shallower(pages[i], pages[PageAt(hand, v, |pages|)]) {
          BeatsEarlier(pages[i], pages[best.value], pages[PageAt(hand, v, |pages|)], v < w);
        }
        assert !Shallower(pages[i], pages[i]) by { NotShallowerThanItself(pages[i]); }
        assert IsFirst(pages, hand, visit + 1, visit);
      } else {
        assert IsFirst(pages, hand, visit + 1, w);
      }
    }
  }

  lemma NotShallowerThanItself<K>(a: Segment<K>)
    ensures !Shallower(a, a)
  {
  }

  lemma BeatsEarlier<K>(a: Segment<K>, b: Segment<K>, c: Segment<K>, before: bool)
    requires a.keys != [] && b.keys != [] && c.keys != [] && Shallower(a, b)
    requires if before then Shallower(b, c) else !Shallower(c, b)
    ensures Shallower(a, c)
  {
    ShallowerThrough(a, b, c);
  }

  lemma MeetOther<K>(pages: seq<Segment<K>>, hand: nat, visit: nat, best: Option<nat>)
    requires pages != [] && IsShallowest(pages, hand, visit, best) && !Met(pages, hand, visit)
    ensures IsShallowest(pages, hand, visit + 1, best)
  {
    hide PageAt, Shallower, Met;
    if best.Some? {
      var w :| 0 <= w < visit && IsFirst(pages, hand, visit, w) && best.value == PageAt(hand, w, |pages|);
      assert IsFirst(pages, hand, visit + 1, w);
    }
  }

  /** A full turn meets every page. */
  lemma EveryPageMet(hand: nat, i: nat, pages: nat)
    requires i < pages
    ensures exists v :: 0 <= v < pages && PageAt(hand, v, pages) == i
  {
    var r := hand % pages;
    var v := if i >= r then i - r else i + pages - r;
    Division(hand, pages);
    var q := hand / pages;
    if i >= r {
      assert hand + v == q * pages + i;
      RemainderOf(hand + v, q, i, pages);
    } else {
      assert hand + v == q * pages + pages + i;
      Distributed(q, pages);
      RemainderOf(hand + v, q + 1, i, pages);
    }
    assert PageAt(hand, v, pages) == i;
  }

  lemma Distributed(q: nat, n: nat)
    ensures (q + 1) * n == q * n + n
  {
  }

  lemma RemainderOf(x: nat, q: nat, r: nat, n: nat)
    requires r < n && x == q * n + r
    ensures x % n == r
  {
    Division(x, n);
    Difference(x / n, q, n);
    NoMultipleBetween(x / n - q, n);
    NoMultipleBetween(q - x / n, n);
    Difference(q, x / n, n);
  }

  /** A full turn without a cold page has none to find. */
  lemma FullTurn<K>(pages: seq<Segment<K>>, hand: nat)
    requires pages != [] && IsShallowest(pages, hand, |pages|, None)
    ensures !HasColdPage(pages)
  {
    hide PageAt, ColdPage;
    forall i | 0 <= i < |pages| ensures !ColdPage(pages, i) {
      EveryPageMet(hand, i, |pages|);
      var v :| 0 <= v < |pages| && PageAt(hand, v, |pages|) == i;
      assert !Met(pages, hand, v);
    }
  }

  lemma SomePageMet<K>(pages: seq<Segment<K>>, hand: nat, visits: nat, best: Option<nat>)
    requires pages != [] && IsShallowest(pages, hand, visits, best) && best.Some?
    ensures ColdPage(pages, best.value) && HasColdPage(pages)
  {
    hide PageAt, ColdPage;
  }

  /** With nothing chosen no cold page was passed. */
  lemma NothingPassed<K>(pages: seq<Segment<K>>, hand: nat, visits: nat)
    requires pages != [] && IsShallowest(pages, hand, visits, None)
    ensures ColdPassed(pages, hand, visits) == 0
  {
    hide PageAt, ColdPage;
    if visits > 0 {
      assert !Met(pages, hand, visits - 1);
      NothingPassed(pages, hand, visits - 1);
    }
  }

  class SegmentedCache<K(!new, ==)> {
    const hash: K -> nat
    const mix: nat -> nat
    const depth: K -> nat
    const replacement: Replacement
    const pageCapacity: nat
    const maxEntries: nat
    const maxMemory: nat
    const keyWords: nat
    var segments: seq<Segment<K>>
    var size: nat
    var clockHand: nat
    var saturated: bool
    var inserts: nat
    var rejected: nat
    var entriesEvicted: nat
    var pagesRecycled: nat
    var secondChances: nat
    var hits: nat
    var queries: nat
    ghost var places: seq<map<K, nat>>
    ghost var retained: set<K>

    ghost predicate Store()
      reads this`segments, this`places, this`retained
    {
      StoreOk(segments, places, hash, mix, depth, retained)
    }

    /** Everything inserted is still retained or was evicted. */
    ghost predicate Valid()
      reads this`segments, this`places, this`retained, this`size, this`inserts, this`entriesEvicted
    {
      && Store() && size == |retained| && inserts == size + entriesEvicted
      && BinaryPages(segments) && PageCapacityIsBinary()
    }

    ghost predicate PageCapacityIsBinary() {
      replacement.GenerationalClock? ==> pageCapacity >= INITIAL_CAPACITY && SingleBit(pageCapacity)
    }

    constructor (hash: K -> nat, mix: nat -> nat, depth: K -> nat, replacement: Replacement, pageCapacity: nat,
                 maxEntries: nat, maxMemory: nat, keyWords: nat)
      requires replacement.GenerationalClock? ==> pageCapacity >= INITIAL_CAPACITY && SingleBit(pageCapacity)
      ensures Valid() && retained == {} && inserts == 0 && this.hash == hash && this.replacement == replacement
      ensures this.maxEntries == maxEntries && this.maxMemory == maxMemory
      ensures size == clockHand == 0 && !saturated
      ensures segments == if Fits([], INITIAL_CAPACITY) then [FreshSegment(INITIAL_CAPACITY)] else []
    {
      this.hash, this.mix, this.depth, this.replacement := hash, mix, depth, replacement;
      this.pageCapacity, this.maxEntries, this.maxMemory, this.keyWords := pageCapacity, maxEntries, maxMemory, keyWords;
      segments, size, clockHand, saturated, places, retained := [], 0, 0, false, [], {};
      inserts, rejected, entriesEvicted, pagesRecycled, secondChances, hits, queries := 0, 0, 0, 0, 0, 0, 0;
      new;
      var added := AddSegment(INITIAL_CAPACITY);
    }

    /** Without limits every key is kept. */
    lemma UnlimitedHasRoom()
      requires Valid() && maxEntries == 0 && maxMemory == 0
      ensures HasRoom()
    {
      hide StoreOk;
      NextIsBinary();
    }

    /** The next segment doubles the last one, or has the page capacity; either way a power of two, at least sixteen. */
    lemma NextIsBinary()
      requires Valid()
      ensures SingleBit(if NextCapacity() < 16 then 16 else NextCapacity())
      ensures segments == [] ==> NextCapacity() == 16
      ensures segments != [] ==>
                var doubled := 2 * |segments[|segments| - 1].control|;
                NextCapacity() == if replacement.GenerationalClock? && pageCapacity < doubled then pageCapacity else doubled
    {
      hide StoreOk;
      assert SingleBit(1) && SingleBit(2) && SingleBit(4) && SingleBit(8) && SingleBit(16);
      if segments != [] {
        Doubled(|segments[|segments| - 1].control|);
      }
    }

    /** A segment of so many slots takes at most so many bytes, its filter and the room for its keys included. */
    lemma SegmentBytesBound(capacity: nat)
      ensures SegmentBytes(capacity) <= 6 * capacity + 8 + 8 * keyWords * (7 * capacity / 10)
    {
      assert RetainedCapacity(capacity) <= 7 * capacity / 10;
      MoreBytes(RetainedCapacity(capacity), 7 * capacity / 10, 8 * keyWords);
    }

    ghost function Slots(pages: seq<Segment<K>>): nat {
      if pages == [] then 0 else Slots(pages[..|pages| - 1]) + |pages[|pages| - 1].control|
    }

    /** All segments together take at most so many bytes. */
    lemma {:induction false} UsedBytesBound(pages: seq<Segment<K>>)
      ensures UsedBytes(pages) <= 6 * Slots(pages) + 8 * |pages| + 8 * keyWords * Slots(pages)
    {
      hide SegmentBytes;
      if pages != [] {
        var last := |pages[|pages| - 1].control|;
        UsedBytesBound(pages[..|pages| - 1]);
        SegmentBytesBound(last);
        MoreBytes(7 * last / 10, last, 8 * keyWords);
        Distributes(8 * keyWords, Slots(pages[..|pages| - 1]), last);
      }
    }

    lemma Distributes(q: nat, a: nat, b: nat)
      ensures q * (a + b) == q * a + q * b
    {
    }

    lemma MoreBytes(x: nat, y: nat, q: nat)
      requires x <= y
      ensures q * x <= q * y
    {
    }

    /** A new key is kept as long as the entry limit allows one more and the next segment fits in the memory left. */
    lemma KeptWhileItFits()
      requires Valid() && (maxEntries == 0 || size < maxEntries)
      requires var next := if NextCapacity() < 16 then 16 else NextCapacity();
               maxMemory == 0 ||
               UsedBytes(segments) + 6 * next + 8 + 8 * keyWords * (7 * next / 10) <= maxMemory
      ensures HasRoom()
    {
      hide StoreOk, SegmentBytes, UsedBytes, SingleBit;
      NextIsBinary();
      SegmentBytesBound(if NextCapacity() < 16 then 16 else NextCapacity());
    }

    /** Keys a segment of the given capacity has room for. */
    function RetainedCapacity(capacity: nat): nat {
      capacity / 10 * 7 + capacity % 10 * 7 / 10
    }

    function SegmentBytes(capacity: nat): nat {
      capacity + 4 * capacity + 8 * keyWords * RetainedCapacity(capacity) + 8 * ((capacity * 8 + 63) / 64)
    }

    function UsedBytes(pages: seq<Segment<K>>): nat {
      if pages == [] then 0 else UsedBytes(pages[..|pages| - 1]) + SegmentBytes(|pages[|pages| - 1].control|)
    }

    /** A segment is added only with a single-bit capacity and within the memory limit. */
    predicate Fits(pages: seq<Segment<K>>, capacity: nat) {
      SingleBit(capacity) && (maxMemory == 0 || UsedBytes(pages) + SegmentBytes(capacity) <= maxMemory)
    }

    predicate LastHasRoom()
      reads this`segments
    {
      segments != [] &&
      BelowLoadLimit(|segments[|segments| - 1].keys| + 1, |segments[|segments| - 1].control|)
    }

    /** The capacity of the segment that would be added next. */
    function NextCapacity(): nat
      reads this`segments
    {
      if segments == [] then INITIAL_CAPACITY
      else
        var doubled := |segments[|segments| - 1].control| * 2;
        if replacement.Freeze? || doubled < pageCapacity then doubled else pageCapacity
    }

    /** Whether a new key is kept without evicting anything. */
    predicate HasRoom()
      reads this`segments, this`size
    {
      && (maxEntries == 0 || size < maxEntries)
      && (LastHasRoom() ||
          Fits(segments, if NextCapacity() < INITIAL_CAPACITY then INITIAL_CAPACITY else NextCapacity()))
    }

    /** Whether a new key is kept, be it in place of a cold page. */
    ghost predicate Accepts()
      reads this`segments, this`size, this`saturated
    {
      && !(saturated && replacement.Freeze?)
      && (HasRoom() || (replacement.GenerationalClock? && HasColdPage(segments)))
    }

    method AddSegment(requested: nat) returns (ok: bool)
      requires Store()
      modifies this`segments, this`places
      ensures Store() && retained == old(retained)
      ensures var capacity := if requested < INITIAL_CAPACITY then INITIAL_CAPACITY else requested;
              && (ok <==> Fits(old(segments), capacity))
              && (ok ==> segments == old(segments) + [FreshSegment(capacity)])
      ensures !ok ==> segments == old(segments) && places == old(places)
      ensures BinaryPages(old(segments)) ==> BinaryPages(segments)
    {
      hide BinaryPages, StoreOk, SegmentOk, SingleBit, UsedBytes, SegmentBytes;
      var capacity := if requested < INITIAL_CAPACITY then INITIAL_CAPACITY else requested;
      if !Fits(segments, capacity) {
        return false;
      }
      FreshSegmentOk<K>(capacity, hash, mix, depth);
      StoreAppend(segments, places, hash, mix, depth, retained, FreshSegment<K>(capacity));
      if BinaryPages(segments) {
        BinaryAppend(segments, capacity);
      }
      segments := segments + [FreshSegment(capacity)];
      places := places + [map[]];
      return true;
    }

    /** Room for one more key in the last segment, growing if need be. */
    method EnsureCapacity() returns (ok: bool)
      requires Valid()
      modifies this`segments, this`places
      ensures Valid() && (ok <==> old(HasRoom())) && (ok ==> LastHasRoom())
      ensures ok && old(LastHasRoom()) ==> segments == old(segments)
      ensures ok && !old(LastHasRoom()) ==>
                |segments| == |old(segments)| + 1 && segments[..|old(segments)|] == old(segments)
      ensures !ok ==> segments == old(segments) && places == old(places)
    {
      hide BinaryPages, StoreOk, Fits;
      if maxEntries != 0 && size >= maxEntries {
        return false;
      }
      if segments == [] {
        ok := AddSegment(INITIAL_CAPACITY);
        return;
      }
      var active := segments[|segments| - 1];
      if !BelowLoadLimit(|active.keys| + 1, |active.control|) {
        var doubled := |active.control| * 2;
        ok := AddSegment(if replacement.Freeze? || doubled < pageCapacity then doubled else pageCapacity);
        return;
      }
      return true;
    }

    /** Hits exactly the retained keys. */
    method ProvesFailed(key: K) returns (proved: bool)
      requires Valid()
      modifies this`segments, this`queries, this`hits
      ensures Valid() && SamePages(segments, old(segments))
      ensures proved <==> key in retained
      ensures if proved then Answered(old(segments), key) else segments == old(segments)
    {
      hide BinaryPages, StoreOk;
      queries := queries + 1;
      var at := Locate(key);
      if at == |segments| {
        return false;
      }
      hits := hits + 1;
      Touch(at);
      assert TouchedAt(old(segments), segments, at);
      return true;
    }

    /** The segment that holds the key, from the newest to the oldest; the number of segments if none does. */
    method Locate(key: K) returns (at: nat)
      requires Valid()
      ensures at <= |segments| && (at < |segments| <==> key in retained)
      ensures at < |segments| ==> at < |places| && key in places[at]
    {
      for i := |segments| downto 0
        invariant forall j :: i <= j < |segments| ==> j < |places| && key !in places[j]
      {
        hide SegmentOk, Partition;
        var s := segments[i];
        StoreSegment(segments, places, hash, mix, depth, retained, i);
        SegmentFacts(s, hash, mix, depth, places[i]);
        if !MaybeContains(s.bloom, hash(key), mix(hash(key))) {
          FilterIsComplete(s, hash, mix, depth, places[i], key);
          continue;
        }
        var slot := Find(s, hash, places[i], key);
        if s.control[slot] != 0 {
          return i;
        }
      }
      assert forall i :: 0 <= i < |places| ==> Domains(places)[i] == places[i].Keys;
      return |segments|;
    }

    /** Under generational replacement page i is marked referenced; nothing else changes. */
    ghost predicate TouchedAt(before: seq<Segment<K>>, after: seq<Segment<K>>, i: nat) {
      i < |before| && after == if replacement.GenerationalClock? then before[i := before[i].(referenced := true)] else before
    }

    /** The page that holds the key was touched. */
    ghost predicate Answered(before: seq<Segment<K>>, key: K)
      reads this`segments, this`places
    {
      exists i :: 0 <= i < |places| && key in places[i] && TouchedAt(before, segments, i)
    }

    /** A page that answered is marked referenced. */
    method Touch(i: nat)
      requires Valid() && i < |segments|
      modifies this`segments
      ensures Valid() && SamePages(segments, old(segments)) && TouchedAt(old(segments), segments, i)
    {
      hide BinaryPages, StoreOk;
      if replacement.GenerationalClock? && !segments[i].referenced {
        BinaryUpdate(segments, i, Flagged(segments[i], true));
        StoreFlag(segments, places, hash, mix, depth, retained, i, true);
        segments := segments[i := Flagged(segments[i], true)];
      }
    }

    /** A snapshot is accepted on restore only if its hand points at a page. */
    predicate HandIsRestorable()
      reads this`segments, this`clockHand
    {
      segments == [] || clockHand < |segments|
    }

    /** The largest capacity among the pages that hold keys; zero if none does. */
    method LargestPage() returns (largest: nat)
      ensures IsLargest(segments, largest)
    {
      largest := 0;
      for i := 0 to |segments|
        invariant forall j :: 0 <= j < i && segments[j].keys != [] ==> |segments[j].control| <= largest
        invariant largest > 0 ==>
                    exists j :: 0 <= j < |segments| && segments[j].keys != [] && |segments[j].control| == largest
      {
        if segments[i].keys != [] && |segments[i].control| > largest {
          largest := |segments[i].control|;
        }
      }
    }

    /**
      One sweep of the clock over the largest pages: referenced ones lose their
      mark, and of the first few cold ones the shallowest is chosen.  A sweep
      without a victim leaves the hand a full turn further, beyond the last page.
     */
    method ChooseVictim(largest: nat) returns (best: Option<nat>, ghost visits: nat)
      requires Valid() && largest > 0 && IsLargest(segments, largest)
      modifies this`segments, this`clockHand, this`secondChances
      ensures Valid() && SamePages(segments, old(segments))
      ensures |segments| == |old(segments)|
      ensures clockHand == old(clockHand) + visits && Sweep(old(segments), old(clockHand), visits, best)
      ensures Demoted(old(segments), segments, largest, old(clockHand), visits)
      ensures best.Some? <==> HasColdPage(old(segments))
      ensures best.Some? ==> best.value < |segments| && ColdPage(old(segments), best.value)
      ensures best == None ==> visits == |segments|
    {
      hide BinaryPages, Demoted, StoreOk, OnlyVisitedMarked, PageAt, Shallower, IsShallowest, ColdPassed;
      ghost var before, hand := segments, clockHand;
      best := None;
      SameStart(segments, clockHand);
      StartSweep(before, hand);
      var coldSeen, visit := 0, 0;
      while visit < |segments| && coldSeen < COLD_SAMPLE
        invariant Valid() && SamePages(segments, before) && visit <= |segments|
        invariant clockHand == hand + visit && coldSeen == ColdPassed(before, hand, visit)
        invariant Demoted(before, segments, largest, hand, visit)
        invariant IsShallowest(before, hand, visit, best) && (best.Some? ==> best.value < |segments|)
        invariant visit > 0 ==> ColdPassed(before, hand, visit - 1) < COLD_SAMPLE
        decreases |segments| - visit
      {
        var index := clockHand % |segments|;
        assert index == PageAt(hand, visit, |segments|) by { PageUnderHand(hand, visit, |segments|); }
        DemotedIsMarked(before, segments, largest, hand, visit);
        NotYetVisited(before, segments, hand, visit);
        DemotedNext(before, segments, largest, hand, visit);
        ColdCount(before, segments, largest, hand, visit);
        clockHand := clockHand + 1;
        visit := visit + 1;
        var page := segments[index];
        if page.keys == [] || |page.control| != largest {
          MeetOther(before, hand, visit - 1, best);
          continue;
        }
        if page.referenced {
          MeetOther(before, hand, visit - 1, best);
          BinaryUpdate(segments, index, Flagged(page, false));
          StoreFlag(segments, places, hash, mix, depth, retained, index, false);
          MarkVisited(before, segments, hand, visit - 1, false);
          segments := segments[index := Flagged(page, false)];
          secondChances := secondChances + 1;
          continue;
        }
        coldSeen := coldSeen + 1;
        MeetCold(before, hand, visit - 1, best);
        if best.Some? {
          SameDepths(page, before[index], segments[best.value], before[best.value]);
        }
        if best == None || Shallower(page, segments[best.value]) {
          best := Some(index);
        }
      }
      visits := visit;
      SweepEnds(before, hand, visit, best);
    }

    /**
      The page that is evicted: of the first four cold pages under the hand, or of
      all if there are fewer, none has a smaller mean depth, and no earlier one the same.
     */
    lemma VictimOfFour(pages: seq<Segment<K>>, hand: nat, visits: nat, victim: nat)
      requires Sweep(pages, hand, visits, Some(victim))
      ensures visits <= |pages| && (visits == |pages| || ColdPassed(pages, hand, visits) == 4)
      ensures visits > 0 ==> ColdPassed(pages, hand, visits - 1) < 4
      ensures exists w :: 0 <= w < visits && victim == PageAt(hand, w, |pages|) &&
                forall v :: 0 <= v < visits && ColdPage(pages, PageAt(hand, v, |pages|)) ==>
                  var p := pages[PageAt(hand, v, |pages|)];
                  && pages[victim].depthSum * |p.keys| <= p.depthSum * |pages[victim].keys|
                  && (v < w ==> pages[victim].depthSum * |p.keys| < p.depthSum * |pages[victim].keys|)
    {
      hide PageAt, ColdPage;
      var w :| 0 <= w < visits && IsFirst(pages, hand, visits, w) && victim == PageAt(hand, w, |pages|);
      forall v | 0 <= v < visits && ColdPage(pages, PageAt(hand, v, |pages|))
        ensures var p := pages[PageAt(hand, v, |pages|)];
                && pages[victim].depthSum * |p.keys| <= p.depthSum * |pages[victim].keys|
                && (v < w ==> pages[victim].depthSum * |p.keys| < p.depthSum * |pages[victim].keys|)
      {
        assert Met(pages, hand, v);
      }
    }

    /**
      Evicts one page when the cache is full: the victim's keys are forgotten, and
      the empty page becomes the last one.  Without a victim nothing is forgotten.
     */
    method RecyclePage() returns (ok: bool, ghost evicted: set<K>)
      requires Valid()
      modifies this`segments, this`places, this`retained, this`size, this`clockHand
      modifies this`secondChances, this`entriesEvicted, this`pagesRecycled
      ensures Valid() && retained == old(retained) - evicted && evicted <= old(retained)
      ensures ok <==> HasColdPage(old(segments))
      ensures ok ==> LastHasRoom() && segments[|segments| - 1].keys == []
      ensures ok ==> Evicts(old(segments), old(clockHand), old(places), evicted)
      ensures !ok ==> evicted == {} && SamePages(segments, old(segments))
      ensures !ok && HoldsKeys(old(segments)) ==> HasColdPage(segments)
      ensures HandIsRestorable() <==>
                HasColdPage(old(segments)) || (!HoldsKeys(old(segments)) && old(HandIsRestorable()))
      ensures pagesRecycled == old(pagesRecycled) + if ok then 1 else 0
    {
      hide Demoted, Valid, Store, SamePages, BelowLoadLimit, Partition, SegmentsOk, SegmentOk, Sweep, ColdPage, IsLargest;
      var largest := LargestPage();
      LargestFacts(largest);
      SameAsBefore(segments);
      if largest == 0 {
        return false, {};
      }
      ghost var before, hand := segments, clockHand;
      var best, visits := ChooseVictim(largest);
      if best == None {
        AllDemoted(before, segments, largest, hand);
        return false, {};
      }
      ok := true;
      evicted := Evict(best.value);
      assert Evicts(before, hand, old(places), evicted);
      pagesRecycled := pagesRecycled + 1;
      clockHand := clockHand % |segments|;
    }

    /** What is zero exactly when no page holds a key. */
    lemma LargestFacts(largest: nat)
      requires Valid() && IsLargest(segments, largest)
      ensures largest > 0 <==> HoldsKeys(segments)
      ensures largest == 0 ==> !HasColdPage(segments)
    {
      hide StoreOk, SegmentOk, TableOk;
      forall i | 0 <= i < |segments| && segments[i].keys != [] ensures largest > 0 {
        StoreSegment(segments, places, hash, mix, depth, retained, i);
        SegmentFacts(segments[i], hash, mix, depth, places[i]);
      }
    }

    method Evict(i: nat) returns (ghost evicted: set<K>)
      requires Valid() && i < |segments|
      modifies this`segments, this`places, this`retained, this`size, this`entriesEvicted
      ensures Valid() && |segments| == |old(segments)| && i < |old(places)| && evicted == old(places)[i].Keys
      ensures retained == old(retained) - evicted && evicted <= old(retained)
      ensures BelowLoadLimit(|segments[|segments| - 1].keys| + 1, |segments[|segments| - 1].control|)
      ensures segments[|segments| - 1].keys == []
    {
      hide BelowLoadLimit, BinaryPages, Cleared, SegmentOk, StoreOk, Swapped;
      BinaryEvict(segments, i);
      StoreEvict(segments, places, hash, mix, depth, retained, i);
      evicted := places[i].Keys;
      var last := |segments| - 1;
      entriesEvicted := entriesEvicted + |segments[i].keys|;
      size := size - |segments[i].keys|;
      segments, places := segments[i := Cleared(segments[i])], places[i := map[]];
      SwappedLast(segments, i);
      EmptyHasRoom(segments[i]);
      segments, places := Swapped(segments, i, last), Swapped(places, i, last);
      retained := retained - evicted;
    }

    /**
      Retains the key unless the cache is full; under generational replacement a
      full cache first evicts a cold page.  A retained key is never stored twice.
     */
    method RecordFailed(key: K) returns (recorded: bool, ghost evicted: set<K>)
      requires Valid()
      modifies this
      ensures Valid()
      ensures key in old(retained) ==> recorded && evicted == {} && retained == old(retained)
      ensures key in old(retained) ==> Answered(old(segments), key)
      ensures key !in old(retained) ==>
                retained == old(retained) - evicted + (if recorded then {key} else {}) && evicted <= old(retained)
      ensures key !in old(retained) ==> (recorded <==> old(Accepts()))
      ensures replacement.Freeze? || !recorded || old(HasRoom()) ==> evicted == {}
      ensures key !in old(retained) && recorded && !old(HasRoom()) ==>
                Evicts(old(segments), old(clockHand), old(places), evicted)
      ensures key !in old(retained) && recorded ==>
                segments != [] && segments[|segments| - 1].keys != [] && segments[|segments| - 1].referenced
      ensures key !in old(retained) && old(HasRoom()) && old(LastHasRoom()) ==> |segments| == |old(segments)|
      ensures key in old(retained) || replacement.Freeze? || old(HasRoom()) ==> clockHand == old(clockHand)
      ensures key !in old(retained) && replacement.GenerationalClock? && !old(HasRoom()) ==>
                (HandIsRestorable() <==>
                   HasColdPage(old(segments)) || (!HoldsKeys(old(segments)) && old(HandIsRestorable())))
      ensures inserts == old(inserts) + if recorded && key !in old(retained) then 1 else 0
    {
      hide Valid, HasRoom, LastHasRoom, HasColdPage, HoldsKeys, Evicts, SamePages;
      evicted := {};
      var at := Locate(key);
      if at < |segments| {
        Touch(at);
        assert TouchedAt(old(segments), segments, at);
        return true, {};
      }
      if saturated && replacement.Freeze? {
        rejected := rejected + 1;
        return false, {};
      }
      var room := EnsureCapacity();
      if !room {
        saturated := true;
        if replacement.GenerationalClock? {
          room, evicted := RecyclePage();
        }
        if !room {
          rejected := rejected + 1;
          return false, {};
        }
      }
      InsertLast(key);
      return true, evicted;
    }

    method InsertLast(key: K)
      requires Valid() && LastHasRoom() && key !in retained
      modifies this`segments, this`places, this`retained, this`size, this`inserts
      ensures Valid() && retained == old(retained) + {key} && inserts == old(inserts) + 1
      ensures |segments| == |old(segments)| && segments != []
      ensures segments[|segments| - 1].keys == old(segments)[|segments| - 1].keys + [key]
      ensures segments[|segments| - 1].referenced
    {
      hide BinaryPages, StoreOk, SegmentOk, TableOk, Passed, View, Home, BelowLoadLimit, WithBits, Fingerprint;
      var last := |segments| - 1;
      LastSegment(segments, places, hash, mix, depth, retained);
      var slot := Find(segments[last], hash, places[last], key);
      FilledOk(segments[last], hash, mix, depth, places[last], slot, key);
      var filled := Filled(segments[last], slot, key, hash(key), mix(hash(key)), depth(key));
      StoreInsert(segments, places, hash, mix, depth, retained, key, filled, slot);
      BinaryUpdate(segments, last, filled);
      segments := segments[last := filled];
      places := places[last := Added(places[last], key, slot)];
      retained := retained + {key};
      size := size + 1;
      inserts := inserts + 1;
    }
  }

  /**
    A generational cache limited to one entry: its only page is hot when the
    second key comes, so the key is declined and the hand is left beyond the page.
   */
  method StrandedHand() returns (cache: SegmentedCache<nat>)
    ensures fresh(cache) && cache.Valid() && cache.retained == {0}
    ensures cache.segments != [] && !cache.HandIsRestorable()
  {
    hide Evicts, SegmentedCache.Valid, SegmentedCache.LastHasRoom, SegmentedCache.Fits;
    cache := HotPage();
    assert !HasColdPage(cache.segments) && HoldsKeys(cache.segments);
    assert !cache.HasRoom();
    var recorded, _ := cache.RecordFailed(1);
    assert !recorded;
  }

  /** One key in one page, which counts as referenced from its insertion on. */
  method HotPage() returns (cache: SegmentedCache<nat>)
    ensures fresh(cache) && cache.Valid() && cache.retained == {0} && cache.size == 1
    ensures cache.maxEntries == 1 && cache.replacement.GenerationalClock? && cache.HandIsRestorable()
    ensures |cache.segments| == 1 && cache.segments[0].keys != [] && cache.segments[0].referenced
  {
    hide Evicts, HasColdPage, HoldsKeys, StoreOk;
    cache := new SegmentedCache<nat>(key => key, hash => hash, key => 0, GenerationalClock, INITIAL_CAPACITY, 1, 0, 1);
    OneEntryFits();
    assert cache.LastHasRoom() && cache.HasRoom();
    assert cache.HandIsRestorable();
    hide SegmentedCache.LastHasRoom, SegmentedCache.Fits, SegmentedCache.HasRoom, FreshSegment;
    var recorded, _ := cache.RecordFailed(0);
    assert cache.retained == {0};
  }

  lemma OneEntryFits()
    ensures SingleBit(INITIAL_CAPACITY) && BelowLoadLimit(1, INITIAL_CAPACITY)
  {
    assert SingleBit(1) && SingleBit(2) && SingleBit(4) && SingleBit(8);
  }
}
