/**
  The cross-threshold proof cache: an open-addressing table that refines a map
  from a set of placed vertices to the largest threshold at which it is known to
  have no completion.  Hashes only choose where to look; every hit compares keys.
 */
module DecisionCaches {
  import opened Options

  const INITIAL_CAPACITY: nat := 16

  datatype Slot = Empty | Taken(hash: nat, at: nat, maxFailed: nat)

  /** The home slot: the low bits of the hash, as the capacity is a power of two. */
  function Home(hash: nat, capacity: nat): (h: nat)
    requires capacity > 0
    ensures h < capacity
  {
    hash % capacity
  }

  /** Probing distance from a to b, going up and around. */
  function Dist(a: nat, b: nat, capacity: nat): int {
    if b >= a then b - a else b + capacity - a
  }

  function BelowLoadLimit(entries: nat, capacity: nat): bool {
    entries <= capacity * 7 / 10
  }

  /** A table beyond the first was doubled because the one before it was full. */
  predicate GrownFor(capacity: nat, entries: nat) {
    capacity <= INITIAL_CAPACITY || capacity / 2 * 7 / 10 <= entries
  }

  function CountTaken(slots: seq<Slot>): nat {
    if slots == [] then 0
    else CountTaken(slots[..|slots| - 1]) + if slots[|slots| - 1].Taken? then 1 else 0
  }

  lemma {:induction false} CountBounded(slots: seq<Slot>)
    ensures CountTaken(slots) <= |slots|
    ensures CountTaken(slots) < |slots| ==> exists i :: 0 <= i < |slots| && slots[i] == Empty
  {
    if slots != [] {
      var rest := slots[..|slots| - 1];
      CountBounded(rest);
      if CountTaken(rest) < |rest| {
        var i :| 0 <= i < |rest| && rest[i] == Empty;
        assert slots[i] == Empty;
      } else if CountTaken(slots) < |slots| {
        assert slots[|slots| - 1] == Empty;
      }
    }
  }

  lemma {:induction false} CountUpdate(slots: seq<Slot>, i: nat, slot: Slot)
    requires i < |slots| && slot.Taken?
    ensures CountTaken(slots[i := slot]) == CountTaken(slots) + if slots[i].Taken? then 0 else 1
  {
    var n := |slots| - 1;
    if i == n {
      assert slots[i := slot][..n] == slots[..n];
    } else {
      assert slots[i := slot][..n] == slots[..n][i := slot];
      CountUpdate(slots[..n], i, slot);
    }
  }

  lemma {:induction false} CountEmpty(slots: seq<Slot>)
    requires forall i :: 0 <= i < |slots| ==> slots[i] == Empty
    ensures CountTaken(slots) == 0
  {
    if slots != [] {
      CountEmpty(slots[..|slots| - 1]);
    }
  }

  // ----- the table as a value -----

  /** Where each retained key sits; every taken slot is the place of its own key. */
  ghost predicate Placed<K>(slots: seq<Slot>, keys: seq<K>, hash: K -> nat, place: map<K, nat>) {
    && (forall k :: k in place ==>
          place[k] < |slots| && slots[place[k]].Taken? && slots[place[k]].at < |keys| && keys[slots[place[k]].at] == k)
    && (forall p :: 0 <= p < |slots| && slots[p].Taken? ==>
          && slots[p].at < |keys| && slots[p].hash == hash(keys[slots[p].at])
          && keys[slots[p].at] in place && place[keys[slots[p].at]] == p)
  }

  /** No free slot lies between the home of a key and its place. */
  ghost predicate Unbroken(slots: seq<Slot>) {
    forall p, q :: 0 <= p < |slots| && 0 <= q < |slots| && slots[p].Taken? && Nearer(slots, Home(slots[p].hash, |slots|), q, p)
      ==> slots[q].Taken?
  }

  predicate Nearer(slots: seq<Slot>, home: nat, q: nat, p: nat) {
    Dist(home, q, |slots|) < Dist(home, p, |slots|)
  }

  ghost function EntriesOf<K>(slots: seq<Slot>, place: map<K, nat>): map<K, nat>
    requires forall k :: k in place ==> place[k] < |slots| && slots[place[k]].Taken?
  {
    map k | k in place :: slots[place[k]].maxFailed
  }

  /** All slots from `home` up to `index` are taken by other keys. */
  ghost predicate Passed<K>(slots: seq<Slot>, keys: seq<K>, home: nat, index: nat, key: K) {
    forall q :: 0 <= q < |slots| && Nearer(slots, home, q, index) ==>
      slots[q].Taken? && slots[q].at < |keys| && keys[slots[q].at] != key
  }

  lemma TakenSlot<K>(slots: seq<Slot>, keys: seq<K>, hash: K -> nat, place: map<K, nat>, index: nat)
    requires Placed(slots, keys, hash, place) && index < |slots| && slots[index].Taken?
    ensures slots[index].at < |keys| && slots[index].hash == hash(keys[slots[index].at])
    ensures keys[slots[index].at] in place && place[keys[slots[index].at]] == index
  {
  }

  lemma PlaceOf<K>(slots: seq<Slot>, keys: seq<K>, hash: K -> nat, place: map<K, nat>, key: K)
    requires Placed(slots, keys, hash, place) && key in place
    ensures place[key] < |slots| && slots[place[key]].Taken? && slots[place[key]].at < |keys|
    ensures keys[slots[place[key]].at] == key && slots[place[key]].hash == hash(key)
  {
  }

  lemma ProbeStart<K>(slots: seq<Slot>, keys: seq<K>, home: nat, key: K)
    requires home < |slots|
    ensures Passed(slots, keys, home, home, key)
  {
  }

  lemma ProbeStep<K>(slots: seq<Slot>, keys: seq<K>, home: nat, index: nat, free: nat, key: K)
    requires home < |slots| && index < |slots| && free < |slots| && slots[free] == Empty
    requires Passed(slots, keys, home, index, key) && !Nearer(slots, home, free, index)
    requires slots[index].Taken? && slots[index].at < |keys| && keys[slots[index].at] != key
    ensures var next := if index + 1 == |slots| then 0 else index + 1;
            && Passed(slots, keys, home, next, key) && !Nearer(slots, home, free, next)
            && Dist(home, next, |slots|) == Dist(home, index, |slots|) + 1
  {
    assert free != index;
    var next := if index + 1 == |slots| then 0 else index + 1;
    forall q | 0 <= q < |slots| && Nearer(slots, home, q, next)
      ensures slots[q].Taken? && slots[q].at < |keys| && keys[slots[q].at] != key
    {
      assert q == index || Nearer(slots, home, q, index);
    }
  }

  /** A free slot reached by probing proves that the key is absent. */
  lemma FreeMeansAbsent<K>(slots: seq<Slot>, keys: seq<K>, hash: K -> nat, place: map<K, nat>, index: nat, key: K)
    requires Placed(slots, keys, hash, place) && Unbroken(slots)
    requires index < |slots| && slots[index] == Empty
    requires Passed(slots, keys, Home(hash(key), |slots|), index, key)
    ensures key !in place
  {
    var home := Home(hash(key), |slots|);
    forall p | 0 <= p < |slots| && slots[p].Taken? && slots[p].at < |keys| && slots[p].hash == hash(key)
      ensures keys[slots[p].at] != key
    {
      assert !Nearer(slots, home, index, p);
      assert Nearer(slots, home, p, index);
    }
    if key in place {
      PlaceOf(slots, keys, hash, place, key);
    }
  }

  lemma FillUnbroken<K>(slots: seq<Slot>, keys: seq<K>, index: nat, key: K, slot: Slot)
    requires Unbroken(slots) && index < |slots| && slots[index] == Empty && slot.Taken?
    requires Passed(slots, keys, Home(slot.hash, |slots|), index, key)
    ensures Unbroken(slots[index := slot])
  {
    var after := slots[index := slot];
    forall p, q | 0 <= p < |after| && 0 <= q < |after| && after[p].Taken? && Nearer(after, Home(after[p].hash, |after|), q, p)
      ensures after[q].Taken?
    {
      var home := Home(after[p].hash, |after|);
      assert Nearer(slots, home, q, p);
      if p != index {
        assert slots[p].Taken?;
      }
    }
  }

  lemma FillPlaced<K>(slots: seq<Slot>, keys: seq<K>, hash: K -> nat, place: map<K, nat>, index: nat, key: K, slot: Slot)
    requires Placed(slots, keys, hash, place)
    requires index < |slots| && slots[index] == Empty && key !in place
    requires slot.Taken? && slot.at < |keys| && keys[slot.at] == key && slot.hash == hash(key)
    ensures Placed(slots[index := slot], keys, hash, place[key := index])
    ensures EntriesOf(slots[index := slot], place[key := index]) == EntriesOf(slots, place)[key := slot.maxFailed]
  {
  }

  /** Filling the free slot found by probing keeps the table consistent. */
  lemma FillSlot<K>(slots: seq<Slot>, keys: seq<K>, hash: K -> nat, place: map<K, nat>, index: nat, key: K, slot: Slot)
    requires Placed(slots, keys, hash, place) && Unbroken(slots)
    requires index < |slots| && slots[index] == Empty && key !in place
    requires slot.Taken? && slot.at < |keys| && keys[slot.at] == key && slot.hash == hash(key)
    requires Passed(slots, keys, Home(hash(key), |slots|), index, key)
    ensures Placed(slots[index := slot], keys, hash, place[key := index]) && Unbroken(slots[index := slot])
    ensures EntriesOf(slots[index := slot], place[key := index]) == EntriesOf(slots, place)[key := slot.maxFailed]
    ensures CountTaken(slots[index := slot]) == CountTaken(slots) + 1
  {
    hide Placed, Unbroken, Passed, CountTaken;
    CountUpdate(slots, index, slot);
    FillUnbroken(slots, keys, index, key, slot);
    FillPlaced(slots, keys, hash, place, index, key, slot);
  }

  /** Raising the bound of a retained key changes that entry only. */
  lemma RaiseBound<K>(slots: seq<Slot>, keys: seq<K>, hash: K -> nat, place: map<K, nat>, key: K, bound: nat)
    requires Placed(slots, keys, hash, place) && Unbroken(slots) && key in place
    ensures place[key] < |slots| && slots[place[key]].Taken?
    ensures var after := slots[place[key] := slots[place[key]].(maxFailed := bound)];
            && Placed(after, keys, hash, place) && Unbroken(after) && CountTaken(after) == CountTaken(slots)
            && EntriesOf(after, place) == EntriesOf(slots, place)[key := bound]
  {
    var p := place[key];
    RaisedPlaced(slots, keys, hash, place, key, bound);
    hide Placed, EntriesOf;
    CountUpdate(slots, p, slots[p].(maxFailed := bound));
    RaisedUnbroken(slots, p, bound);
  }

  lemma RaisedPlaced<K>(slots: seq<Slot>, keys: seq<K>, hash: K -> nat, place: map<K, nat>, key: K, bound: nat)
    requires Placed(slots, keys, hash, place) && key in place
    ensures place[key] < |slots| && slots[place[key]].Taken?
    ensures var after := slots[place[key] := slots[place[key]].(maxFailed := bound)];
            Placed(after, keys, hash, place) && EntriesOf(after, place) == EntriesOf(slots, place)[key := bound]
  {
  }

  lemma RaisedUnbroken(slots: seq<Slot>, p: nat, bound: nat)
    requires Unbroken(slots) && p < |slots| && slots[p].Taken?
    ensures Unbroken(slots[p := slots[p].(maxFailed := bound)])
  {
    var after := slots[p := slots[p].(maxFailed := bound)];
    forall a, q | 0 <= a < |after| && 0 <= q < |after| && after[a].Taken?
                  && Nearer(after, Home(after[a].hash, |after|), q, a)
      ensures after[q].Taken?
    {
      assert slots[a].hash == after[a].hash && Nearer(slots, Home(slots[a].hash, |slots|), q, a);
    }
  }

  /** Appending a key to the arena leaves the table as it is. */
  lemma MoreKeys<K>(slots: seq<Slot>, keys: seq<K>, hash: K -> nat, place: map<K, nat>, home: nat, index: nat, key: K)
    requires Placed(slots, keys, hash, place) && Passed(slots, keys, home, index, key)
    ensures Placed(slots, keys + [key], hash, place) && Passed(slots, keys + [key], home, index, key)
  {
  }

  /** The first i slots hold no more keys than all of them, and one more slot adds at most one. */
  lemma {:induction false} CountPrefix(s: seq<Slot>, i: nat)
    requires i <= |s|
    ensures CountTaken(s[..i]) <= CountTaken(s)
    ensures i < |s| ==> CountTaken(s[..i + 1]) == CountTaken(s[..i]) + if s[i].Taken? then 1 else 0
    decreases |s| - i
  {
    assert s[..|s|] == s;
    if i < |s| {
      assert s[..i + 1][..i] == s[..i];
      CountPrefix(s, i + 1);
    }
  }

  class DynamicDecisionCache<K(==)> {
    const hash: K -> nat
    const maxEntries: nat
    const maxMemory: nat
    const slotBytes: nat
    const keyBytes: nat
    var slots: seq<Slot>
    var keys: seq<K>
    var size: nat
    var inserts: nat
    var strengthenings: nat
    var rejected: nat
    var queries: nat
    var hits: nat
    var saturated: bool
    ghost var place: map<K, nat>

    ghost predicate Valid()
      reads this
    {
      && Placed(slots, keys, hash, place) && Unbroken(slots)
      && size == CountTaken(slots) == |place|
      && |keys| == size && (slots == [] || (|slots| >= INITIAL_CAPACITY && BelowLoadLimit(size, |slots|)))
      && GrownFor(|slots|, size)
    }

    /** The retained proofs: a set of vertices and the largest threshold at which it failed. */
    ghost function Entries(): map<K, nat>
      requires Valid()
      reads this
    {
      EntriesOf(slots, place)
    }

    constructor (hash: K -> nat, maxEntries: nat, maxMemory: nat, slotBytes: nat, keyBytes: nat)
      ensures Valid() && Entries() == map[] && this.hash == hash
      ensures this.maxEntries == maxEntries && this.maxMemory == maxMemory
      ensures this.slotBytes == slotBytes && this.keyBytes == keyBytes
    {
      this.hash, this.maxEntries, this.maxMemory := hash, maxEntries, maxMemory;
      this.slotBytes, this.keyBytes := slotBytes, keyBytes;
      slots, keys, size, place := [], [], 0, map[];
      inserts, strengthenings, rejected, queries, hits, saturated := 0, 0, 0, 0, 0, false;
      new;
      var ok := Rehash(INITIAL_CAPACITY);
    }

    /** The slot of the key, or the free slot where its probe chain ends. */
    method Find(key: K) returns (index: nat)
      requires Valid() && slots != []
      ensures index < |slots|
      ensures slots[index].Taken? <==> key in place
      ensures key in place ==> place[key] == index
      ensures slots[index] == Empty ==> Passed(slots, keys, Home(hash(key), |slots|), index, key)
    {
      index := FindIn(slots, keys, place, key);
    }

    method FindIn(table: seq<Slot>, words: seq<K>, ghost where': map<K, nat>, key: K) returns (index: nat)
      requires Placed(table, words, hash, where') && Unbroken(table) && CountTaken(table) < |table|
      ensures index < |table|
      ensures table[index].Taken? <==> key in where'
      ensures key in where' ==> where'[key] == index
      ensures table[index] == Empty ==> Passed(table, words, Home(hash(key), |table|), index, key)
    {
      CountBounded(table);
      ghost var free :| 0 <= free < |table| && table[free] == Empty;
      var home := Home(hash(key), |table|);
      index := home;
      hide Placed, Unbroken, Passed, CountTaken, Home, Nearer;
      ProbeStart(table, words, home, key);
      if table[index].Taken? { TakenSlot(table, words, hash, where', index); }
      while table[index].Taken? && (table[index].hash != hash(key) || words[table[index].at] != key)
        invariant index < |table|
        invariant Passed(table, words, home, index, key)
        invariant !Nearer(table, home, free, index)
        invariant table[index].Taken? ==> table[index].at < |words|
        decreases |table| - Dist(home, index, |table|)
      {
        TakenSlot(table, words, hash, where', index);
        ProbeStep(table, words, home, index, free, key);
        index := if index + 1 == |table| then 0 else index + 1;
        if table[index].Taken? { TakenSlot(table, words, hash, where', index); }
      }
      if table[index] == Empty {
        FreeMeansAbsent(table, words, hash, where', index, key);
      } else {
        TakenSlot(table, words, hash, where', index);
      }
    }

    method ProvesFailed(key: K, threshold: nat) returns (proved: bool)
      requires Valid()
      modifies this`queries, this`hits
      ensures Valid() && Entries() == old(Entries())
      ensures proved <==> key in Entries() && threshold <= Entries()[key]
    {
      queries := queries + 1;
      if slots == [] {
        return false;
      }
      var index := Find(key);
      proved := slots[index].Taken? && threshold <= slots[index].maxFailed;
      if proved {
        hits := hits + 1;
      }
    }

    function InsertionFitsMemory(capacity: nat): bool
      reads this
    {
      maxMemory == 0 || capacity * slotBytes + keyBytes + |keys| * keyBytes <= maxMemory
    }

    /** The capacity of the table that takes the next new key. */
    function NextCapacity(): nat
      reads this
    {
      if slots == [] then INITIAL_CAPACITY
      else if BelowLoadLimit(size + 1, |slots|) then |slots| else |slots| * 2
    }

    /** Whether a new key is kept: neither the entry limit nor the memory limit stands against it. */
    predicate HasRoom()
      reads this
    {
      (maxEntries == 0 || size < maxEntries) && InsertionFitsMemory(NextCapacity())
    }

    /** Without limits every key is kept. */
    lemma UnlimitedHasRoom()
      requires maxEntries == 0 && maxMemory == 0
      ensures HasRoom()
    {
    }

    /** The table never needs more than three slots for each entry and the initial ones. */
    lemma CapacityBound(capacity: nat, entries: nat)
      requires GrownFor(capacity, entries)
      ensures capacity <= 16 + 3 * entries
    {
    }

    /** A new key is kept as long as the entry limit allows one more and that many slots fit. */
    lemma KeptWhileItFits()
      requires Valid() && (maxEntries == 0 || |Entries()| < maxEntries)
      requires maxMemory == 0 ||
               (16 + 3 * |Entries()|) * slotBytes + (|Entries()| + 1) * keyBytes <= maxMemory
      ensures HasRoom()
    {
      hide Placed, Unbroken, CountTaken;
      EntryCount();
      var capacity := NextCapacity();
      CapacityBound(capacity, size);
      MoreBytes(capacity, 16 + 3 * size, slotBytes);
      assert (size + 1) * keyBytes == keyBytes + |keys| * keyBytes;
    }

    /** The limits are kept to: one more key is kept only if it fits. */
    lemma KeptWithinLimits()
      requires Valid() && HasRoom()
      ensures maxEntries == 0 || |Entries()| + 1 <= maxEntries
      ensures maxMemory == 0 || (|Entries()| + 1) * (slotBytes + keyBytes) <= maxMemory
    {
      hide Placed, Unbroken, CountTaken;
      EntryCount();
      var capacity := NextCapacity();
      assert capacity >= size + 1;
      MoreBytes(size + 1, capacity, slotBytes);
      assert (size + 1) * (slotBytes + keyBytes) == (size + 1) * slotBytes + keyBytes + |keys| * keyBytes;
    }

    lemma EntryCount()
      requires Valid()
      ensures |Entries()| == size == |keys| && (slots == [] ==> size == 0)
    {
      assert Entries().Keys == place.Keys;
      assert |Entries()| == |Entries().Keys| && |place| == |place.Keys|;
    }

    lemma MoreBytes(x: nat, y: nat, q: nat)
      requires x <= y
      ensures x * q <= y * q
    {
    }

    /** Copies every taken slot into an empty table of the given capacity. */
    method Transfer(capacity: nat) returns (table: seq<Slot>, ghost moved: map<K, nat>)
      requires Placed(slots, keys, hash, place) && CountTaken(slots) < capacity
      ensures |table| == capacity && Placed(table, keys, hash, moved) && Unbroken(table)
      ensures CountTaken(table) == CountTaken(slots) && moved.Keys == place.Keys
      ensures EntriesOf(table, moved) == EntriesOf(slots, place)
    {
      hide CountTaken, Home, Nearer, Passed, Unbroken;
      NothingTransferred(capacity);
      table := seq(capacity, _ => Empty);
      moved := map[];
      for i := 0 to |slots|
        invariant |table| == capacity
        invariant Placed(table, keys, hash, moved) && Unbroken(table)
        invariant CountTaken(table) == CountTaken(slots[..i])
        invariant forall k :: k in moved <==> k in place && place[k] < i
        invariant forall k :: k in moved ==> EntriesOf(table, moved)[k] == EntriesOf(slots, place)[k]
      {
        CountPrefix(slots, i);
        CountPrefix(slots, i + 1);
        if slots[i].Taken? {
          TakenSlot(slots, keys, hash, place, i);
          var key := keys[slots[i].at];
          var target := FindIn(table, keys, moved, key);
          FillSlot(table, keys, hash, moved, target, key, slots[i]);
          table := table[target := slots[i]];
          moved := moved[key := target];
          SamePlace(i, key);
        } else {
          NobodyAt(i);
        }
      }
      assert slots[..|slots|] == slots;
    }

    lemma NothingTransferred(capacity: nat)
      ensures var table := seq(capacity, _ => Empty);
              Placed(table, keys, hash, map[]) && Unbroken(table) && CountTaken(table) == 0 == CountTaken(slots[..0])
    {
      CountEmpty(seq(capacity, _ => Empty));
    }

    lemma SamePlace(i: nat, key: K)
      requires Placed(slots, keys, hash, place) && i < |slots| && slots[i].Taken?
      requires slots[i].at < |keys| && keys[slots[i].at] == key
      ensures EntriesOf(slots, place)[key] == slots[i].maxFailed
      ensures forall k :: k in place && place[k] == i ==> k == key
    {
    }

    lemma NobodyAt(i: nat)
      requires Placed(slots, keys, hash, place) && i < |slots| && slots[i] == Empty
      ensures forall k :: k in place ==> place[k] != i
    {
    }

    /** Moves every retained key into a table of the given capacity; on failure nothing changes. */
    method Rehash(requested: nat) returns (ok: bool)
      requires Valid() && BelowLoadLimit(size, requested) && GrownFor(requested, size)
      modifies this`slots, this`place
      ensures Valid() && Entries() == old(Entries())
      ensures ok <==> old(InsertionFitsMemory(if requested < INITIAL_CAPACITY then INITIAL_CAPACITY else requested))
      ensures ok ==> |slots| == (if requested < INITIAL_CAPACITY then INITIAL_CAPACITY else requested) && slots != []
      ensures !ok ==> slots == old(slots) && place == old(place)
    {
      hide Placed, Unbroken, EntriesOf, CountTaken, InsertionFitsMemory;
      var capacity := if requested < INITIAL_CAPACITY then INITIAL_CAPACITY else requested;
      if !InsertionFitsMemory(capacity) {
        return false;
      }
      var table, moved := Transfer(capacity);
      assert |place| == |place.Keys| && |moved| == |moved.Keys|;
      slots := table;
      place := moved;
      return true;
    }

    method EnsureInsertCapacity() returns (ok: bool)
      requires Valid()
      modifies this`slots, this`place
      ensures Valid() && Entries() == old(Entries())
      ensures ok <==> old(HasRoom())
      ensures ok ==> slots != [] && BelowLoadLimit(size + 1, |slots|) && |slots| == old(NextCapacity())
      ensures |slots| == |old(slots)| ==> slots == old(slots) && place == old(place)
      ensures !ok ==> slots == old(slots) && place == old(place) && !HasRoom()
    {
      assert slots == [] ==> size == 0;
      hide Placed, Unbroken, EntriesOf, CountTaken, InsertionFitsMemory;
      if maxEntries != 0 && size >= maxEntries {
        return false;
      }
      if slots == [] {
        var grown := Rehash(INITIAL_CAPACITY);
        if !grown {
          return false;
        }
      }
      if !BelowLoadLimit(size + 1, |slots|) {
        var grown := Rehash(|slots| * 2);
        if !grown {
          return false;
        }
      }
      return InsertionFitsMemory(|slots|);
    }

    /**
      Retains the proof that `key` fails at `threshold` if there is room; a key
      already present is always strengthened, also after saturation.
     */
    method RecordFailed(key: K, threshold: nat) returns (retained: bool)
      requires Valid()
      modifies this
      ensures Valid()
      ensures key in old(Entries()) ==>
                retained && Entries() == old(Entries())[key := if threshold > old(Entries())[key] then threshold
                                                               else old(Entries())[key]]
      ensures key !in old(Entries()) ==>
                Entries() == if retained then old(Entries())[key := threshold] else old(Entries())
      ensures key !in old(Entries()) ==> (retained <==> old(HasRoom()))
      ensures !retained ==> !HasRoom()
    {
      hide Placed, Unbroken, EntriesOf, CountTaken, Passed, Home, HasRoom, NextCapacity;
      EntriesHavePlaces(key);
      var index := 0;
      var oldCapacity := |slots|;
      if slots != [] {
        index := Find(key);
        if slots[index].Taken? {
          Strengthen(key, index, threshold);
          return true;
        }
      }
      var room := EnsureInsertCapacity();
      if !room {
        Reject();
        return false;
      }
      if oldCapacity != |slots| {
        EntriesHavePlaces(key);
        index := Find(key);
      }
      Append(key, index, threshold);
      return true;
    }

    /** Counts a key that was not kept. */
    method Reject()
      requires Valid()
      modifies this`rejected, this`saturated
      ensures Valid() && Entries() == old(Entries()) && HasRoom() == old(HasRoom())
      ensures saturated && rejected == old(rejected) + 1
    {
      rejected := rejected + 1;
      saturated := true;
    }

    /** Raises the bound of a retained key, unless it is as large already. */
    method Strengthen(key: K, index: nat, threshold: nat)
      requires Valid() && key in place && index == place[key] < |slots| && slots[index].Taken?
      modifies this`slots, this`strengthenings
      ensures Valid() && key in old(Entries())
      ensures Entries() == old(Entries())[key := if threshold > old(Entries())[key] then threshold
                                                 else old(Entries())[key]]
    {
      hide Placed, Unbroken, EntriesOf, CountTaken, Home;
      EntriesHavePlaces(key);
      RaiseBound(slots, keys, hash, place, key, slots[index].maxFailed);
      assert slots[index := slots[index].(maxFailed := slots[index].maxFailed)] == slots;
      if threshold > slots[index].maxFailed {
        RaiseBound(slots, keys, hash, place, key, threshold);
        slots := slots[index := slots[index].(maxFailed := threshold)];
        strengthenings := strengthenings + 1;
      }
    }

    /** Adds a new key at the free slot where its probing ended. */
    method Append(key: K, index: nat, threshold: nat)
      requires Valid() && key !in place && slots != [] && BelowLoadLimit(size + 1, |slots|)
      requires index < |slots| && slots[index] == Empty && Passed(slots, keys, Home(hash(key), |slots|), index, key)
      modifies this`keys, this`slots, this`place, this`size, this`inserts
      ensures Valid() && Entries() == old(Entries())[key := threshold]
    {
      hide Placed, Unbroken, EntriesOf, CountTaken, Passed, Home;
      EntriesHavePlaces(key);
      var slot := Taken(hash(key), |keys|, threshold);
      MoreKeys(slots, keys, hash, place, Home(hash(key), |slots|), index, key);
      keys := keys + [key];
      FillSlot(slots, keys, hash, place, index, key, slot);
      slots := slots[index := slot];
      place := place[key := index];
      size := size + 1;
      inserts := inserts + 1;
    }

    lemma EntriesHavePlaces(key: K)
      requires Valid()
      ensures key in Entries() <==> key in place
      ensures key in place ==> place[key] < |slots| && slots[place[key]].Taken? && Entries()[key] == slots[place[key]].maxFailed
      ensures slots == [] ==> key !in place
    {
    }
  }
}
