/** The hash map of src/core/hash_map.c: linear probing with tombstones over an array that
    doubles at 3/4 load and halves at 1/4 load. */
module HashMaps {
  import opened Prelude
  import opened SlotTable

  const MINIMUM_CAPACITY: nat := 16

  /** `NullCopy` stands for a copy of the value through a tombstone's null value pointer. */
  datatype PutResult = Stored | NullCopy

  datatype PutProbe = AtKey(index: nat) | AtFree(index: nat) | AtSecondTombstone

  /** 16, 32, 64, ... */
  predicate IsCapacity(capacity: nat)
    decreases capacity
  {
    capacity == MINIMUM_CAPACITY || (capacity > MINIMUM_CAPACITY && capacity % 2 == 0 && IsCapacity(capacity / 2))
  }

  /** What holds of capacity and count between any two calls. */
  predicate LoadBounds(capacity: nat, count: nat) {
    && IsCapacity(capacity) && capacity >= MINIMUM_CAPACITY
    && 4 * count <= 3 * capacity
    && (capacity > MINIMUM_CAPACITY ==> capacity < 4 * count)
  }

  lemma CapacityMultiple(capacity: nat)
    requires IsCapacity(capacity)
    ensures capacity % MINIMUM_CAPACITY == 0 && capacity >= MINIMUM_CAPACITY
  {
    if capacity > MINIMUM_CAPACITY {
      CapacityMultiple(capacity / 2);
    }
  }

  class HashMap<K(==), V> {
    const hash: K -> nat
    var entries: array<Slot<K, V>>
    var capacity: nat
    var count: nat
    /** The number of slots all resizes have scanned so far. */
    ghost var work: nat

    ghost predicate Valid()
      reads this, entries
    {
      && capacity == entries.Length
      && WellFormed(entries[..], hash)
      && count == |LiveSlots(entries[..])|
      && LoadBounds(capacity, count)
    }

    /** The finite map this table refines. */
    ghost function Contents(): map<K, V>
      reads this, entries
      requires Valid()
    {
      Abs(entries[..])
    }

    constructor (hash: K -> nat)
      ensures Valid() && fresh(entries)
      ensures Contents() == map[] && count == 0 && capacity == MINIMUM_CAPACITY
      ensures forall i :: 0 <= i < capacity ==> entries[i].Empty?
      ensures this.hash == hash && work == 0
    {
      this.hash := hash;
      capacity := MINIMUM_CAPACITY;
      count := 0;
      entries := new Slot<K, V>[MINIMUM_CAPACITY](_ => Empty);
      work := 0;
      new;
      EmptyTable(entries[..], hash);
    }

    /** The ghost results say when a tombstone is left: see `LastMark`. */
    method Resize(newCapacity: nat, junk: K) returns (ghost last: int, ghost prior: Table<K, V>, ghost mark: nat)
      requires entries.Length == capacity && WellFormed(entries[..], hash)
      requires count == |LiveSlots(entries[..])| < newCapacity
      modifies this`entries, this`capacity, this`work
      ensures fresh(entries) && entries.Length == capacity == newCapacity
      ensures WellFormed(entries[..], hash)
      ensures Abs(entries[..]) == old(Abs(entries[..]))
      ensures count == |LiveSlots(entries[..])|
      ensures AtMostOneTombstone(entries[..])
      ensures LastMark(entries[..], hash, old(entries[..]), old(capacity), junk, last, prior, mark)
      ensures work == old(work) + old(capacity)
    {
      ghost var s := entries[..];
      var newEntries := new Slot<K, V>[newCapacity](_ => Empty);
      NothingCopied(newEntries[..], hash, s, junk);
      last, prior, mark := CopyEntries(newEntries, junk);
      ghost var t := newEntries[..];
      AllCopied(t, hash, s, junk);
      entries := newEntries;
      capacity := newCapacity;
      assert entries[..] == t;
    }

    /** The same, for callers that do not ask which tombstone is left. */
    method ResizeTo(newCapacity: nat, junk: K)
      requires entries.Length == capacity && WellFormed(entries[..], hash)
      requires count == |LiveSlots(entries[..])| < newCapacity
      modifies this`entries, this`capacity, this`work
      ensures fresh(entries) && entries.Length == capacity == newCapacity
      ensures WellFormed(entries[..], hash)
      ensures Abs(entries[..]) == old(Abs(entries[..]))
      ensures count == |LiveSlots(entries[..])|
      ensures AtMostOneTombstone(entries[..])
      ensures work == old(work) + old(capacity)
    {
      var _, _, _ := Resize(newCapacity, junk);
    }

    /** The copy loop of a resize. */
    method CopyEntries(newEntries: array<Slot<K, V>>, junk: K)
      returns (ghost last: int, ghost prior: Table<K, V>, ghost mark: nat)
      requires entries.Length == capacity && newEntries != entries
      requires Copied(newEntries[..], hash, entries[..], 0, junk) && NoTombstone(newEntries[..])
      modifies this`work, newEntries
      ensures Copied(newEntries[..], hash, entries[..], capacity, junk)
      ensures LastMark(newEntries[..], hash, entries[..], capacity, junk, last, prior, mark)
      ensures work == old(work) + capacity
    {
      ghost var s := entries[..];
      last, prior, mark := -1, newEntries[..], 0;
      for i := 0 to capacity
        invariant s == entries[..] && work == old(work) + i
        invariant Copied(newEntries[..], hash, s, i, junk)
        invariant LastMark(newEntries[..], hash, s, i, junk, last, prior, mark)
      {
        ghost var t := newEntries[..];
        CopyEntry(newEntries, entries[i], s, i, junk);
        last, prior, mark := NextMark(t, newEntries[..], hash, s, i, junk, last, prior, mark);
        work := work + 1;
      }
    }

    /** One turn of the copy loop of a resize, for slot `i` of the old table `s`. */
    method CopyEntry(newEntries: array<Slot<K, V>>, entry: Slot<K, V>, ghost s: Table<K, V>, ghost i: nat, junk: K)
      requires i < |s| && entry == s[i] && Copied(newEntries[..], hash, s, i, junk)
      modifies newEntries
      ensures Copied(newEntries[..], hash, s, i + 1, junk)
      ensures CopiesTo(old(newEntries[..]), newEntries[..], hash, entry, junk)
    {
      if entry.Empty? {
        SkipSlot(newEntries[..], hash, s, i, junk);
      } else {
        var key := if entry.Live? then entry.key else junk;
        ghost var t := newEntries[..];
        RoomLeft(t, hash, s, i, junk);
        var index := ProbeForCopy(newEntries, hash(key) % newEntries.Length);
        CopySlot(t, hash, s, i, junk, index);
        CopiedAt(t, hash, entry, junk, index);
        newEntries[index] := entry;
        assert newEntries[..] == t[index := s[i]];
      }
    }

    /** The inner loop of a resize: the first slot from `start` that is not live. */
    method ProbeForCopy(slots: array<Slot<K, V>>, start: nat) returns (index: nat)
      requires start < slots.Length
      requires exists j :: 0 <= j < slots.Length && !slots[..][j].Live?
      ensures FirstFree(slots[..], start, index)
    {
      index := start;
      while slots[index].Live?
        invariant index < slots.Length && LivePath(slots[..], start, index)
        decreases Ahead(start, index, slots.Length)
      {
        LiveStep(slots[..], start, index);
        index := (index + 1) % slots.Length;
      }
    }

    /** The first part of put: double the table at three quarters of its load. */
    method GrowIfLoaded(key: K, junk: K)
      requires Valid()
      modifies this`entries, this`capacity, this`work
      ensures Valid() && 4 * count < 3 * capacity
      ensures Contents() == old(Contents())
      ensures if old(4 * count < 3 * capacity) then
                unchanged(this)
              else
                && fresh(entries) && capacity == 2 * old(capacity) && work == old(work + capacity)
                && !MeetsSecondTombstone(entries[..], hash, key)
    {
      if 4 * count >= 3 * capacity {
        GrowBounds(capacity, count);
        ResizeTo(capacity * 2, junk);
        NoSecondIfOne(entries[..], hash, key);
      }
    }

    /** `junk` is the key that compare_func and hash_func read out of the tombstone placeholder. */
    method Put(key: K, value: V, junk: K) returns (r: PutResult)
      requires Valid()
      modifies this, entries
      ensures Valid() && (entries == old(entries) || fresh(entries))
      ensures r == NullCopy <==>
              old(4 * count < 3 * capacity && key == junk && MeetsSecondTombstone(entries[..], hash, key))
      ensures Contents() == if r == Stored then old(Contents())[key := value] else old(Contents())
      ensures old(4 * count < 3 * capacity) && r == Stored ==> Stores(old(entries[..]), entries[..], hash, key, value)
      ensures r == NullCopy ==> entries[..] == old(entries[..])
      ensures capacity == if old(4 * count < 3 * capacity) then old(capacity) else 2 * old(capacity)
      ensures work == old(work) + if old(4 * count < 3 * capacity) then 0 else old(capacity)
    {
      GrowIfLoaded(key, junk);
      var probe, _ := ProbeForPut(key, junk);
      if probe.AtSecondTombstone? {
        return NullCopy;
      }
      StoreAt(probe.index, key, value);
      r := Stored;
    }

    /** Writes the entry at the slot the probe ended on. */
    method StoreAt(i: nat, key: K, value: V)
      requires Valid() && 4 * count < 3 * capacity
      requires i < capacity && PutSlot(entries[..], hash, key, i)
      modifies this`count, entries
      ensures Valid()
      ensures entries[..] == old(entries[..])[i := Live(key, value)]
      ensures Contents() == old(Contents())[key := value]
      ensures Stores(old(entries[..]), entries[..], hash, key, value)
    {
      ghost var s := entries[..];
      if !entries[i].Live? {
        StoreNew(s, hash, key, value, i);
        AddOneBounds(capacity, count);
        count := count + 1;
      } else {
        StoreOver(s, hash, key, value, i);
      }
      entries[i] := Live(key, value);
      assert entries[..] == s[i := Live(key, value)];
    }

    /** The probe loop of put, up to the slot it goes on to write; `probes` counts the slots it looks at. */
    method ProbeForPut(key: K, junk: K) returns (r: PutProbe, ghost probes: nat)
      requires Valid() && count < capacity
      ensures r.AtSecondTombstone? <==> key == junk && MeetsSecondTombstone(entries[..], hash, key)
      ensures r.AtKey? ==> Holds(entries[..], r.index, key)
      ensures r.AtFree? ==> NewKeySlot(entries[..], hash, key, r.index)
      ensures probes <= capacity
    {
      ghost var s := entries[..];
      var startIndex := hash(key) % capacity;
      var index: nat := startIndex;
      var firstTombstone: int := -1;
      probes := 1;
      while !entries[index].Empty?
        invariant index < capacity && probes + Ahead(startIndex, index, capacity) == capacity + 1
        invariant Probing(s, hash, key, junk, index, firstTombstone)
        decreases Ahead(startIndex, index, capacity)
      {
        ghost var first := firstTombstone;
        if entries[index].Tombstone? && firstTombstone == -1 {
          firstTombstone := index;
        } else if entries[index].Tombstone? && key == junk {
          SecondTombstoneMet(s, hash, key, junk, index, firstTombstone);
          return AtSecondTombstone, probes;
        } else if entries[index].Live? && entries[index].key == key {
          NoSecond(s, hash, key, junk, index, firstTombstone);
          return AtKey(index), probes;
        }
        PutStep(s, hash, key, junk, index, first, firstTombstone);
        index := (index + 1) % capacity;
        if index == startIndex {
          // A full circle: the slot to write is the first tombstone, which must exist.
          return AtFree(firstTombstone), probes;
        }
        probes := probes + 1;
      }
      EmptyReached(s, hash, key, junk, index, firstTombstone);
      r := AtFree(if firstTombstone != -1 then firstTombstone else index);
    }

    /** The probe loop that get and remove have in common: the slot that holds the key, if any. */
    method Lookup(key: K) returns (r: Option<nat>, ghost probes: nat)
      requires Valid()
      ensures r.Some? ==> Holds(entries[..], r.value, key)
      ensures r.Some? <==> key in Contents()
      ensures probes <= capacity
    {
      ghost var s := entries[..];
      var startIndex := hash(key) % capacity;
      var index: nat := startIndex;
      probes := 1;
      while !entries[index].Empty?
        invariant index < capacity && probes + Ahead(startIndex, index, capacity) == capacity + 1
        invariant Passed(s, hash, key, index)
        decreases Ahead(startIndex, index, capacity)
      {
        if !entries[index].Tombstone? && entries[index].key == key {
          return Some(index), probes;
        }
        ProbeStep(s, hash, key, index);
        index := (index + 1) % capacity;
        if index == startIndex {
          return None, probes;
        }
        probes := probes + 1;
      }
      AbsentAtEmpty(s, hash, key, index);
      r := None;
    }

    method Get(key: K) returns (r: Option<V>)
      requires Valid()
      ensures r == if key in Contents() then Some(Contents()[key]) else None
    {
      var slot, _ := Lookup(key);
      match slot {
        case None => r := None;
        case Some(i) => r := Some(entries[i].value);
      }
    }

    method Remove(key: K, junk: K) returns (removed: bool)
      requires Valid()
      modifies this, entries
      ensures Valid() && (entries == old(entries) || fresh(entries))
      ensures removed <==> key in old(Contents())
      ensures Contents() == Without(old(Contents()), key) && count == old(count) - (if removed then 1 else 0)
      ensures if !removed then
                unchanged(this) && entries[..] == old(entries[..])
              else if Shrinks(old(capacity), count) then
                capacity == old(capacity) / 2 && work == old(work + capacity)
              else
                capacity == old(capacity) && work == old(work) && Buries(old(entries[..]), entries[..], key)
    {
      var slot, _ := Lookup(key);
      removed := slot.Some?;
      if !removed {
        return;
      }
      RemoveAt(slot.value, key, junk);
    }

    /** What remove does with the slot it has found. */
    method RemoveAt(i: nat, key: K, junk: K)
      requires Valid() && Holds(entries[..], i, key)
      modifies this, entries
      ensures Valid() && (entries == old(entries) || fresh(entries))
      ensures Contents() == Without(old(Contents()), key) && count == old(count) - 1
      ensures if Shrinks(old(capacity), count) then
                capacity == old(capacity) / 2 && work == old(work + capacity)
              else
                capacity == old(capacity) && work == old(work) && Buries(old(entries[..]), entries[..], key)
    {
      RemoveBounds(capacity, count);
      BuryAt(i, key);
      ShrinkIfSparse(junk);
    }

    /** The last part of remove: halve the table once it is three quarters free. */
    method ShrinkIfSparse(junk: K)
      requires entries.Length == capacity && WellFormed(entries[..], hash)
      requires count == |LiveSlots(entries[..])|
      requires AfterRemoval(capacity, count)
      modifies this`entries, this`capacity, this`work
      ensures Valid()
      ensures Contents() == Abs(old(entries[..]))
      ensures if Shrinks(old(capacity), count) then
                fresh(entries) && capacity == old(capacity) / 2 && work == old(work + capacity)
              else
                unchanged(this)
    {
      if capacity > MINIMUM_CAPACITY && count > 0 && 4 * count <= capacity {
        var newCapacity := capacity / 2;
        if newCapacity < MINIMUM_CAPACITY {
          newCapacity := MINIMUM_CAPACITY;
        }
        ResizeTo(newCapacity, junk);
      }
    }

    /** Replaces a live entry by a tombstone. */
    method BuryAt(i: nat, key: K)
      requires Valid()
      requires Holds(entries[..], i, key)
      modifies this`count, entries
      ensures Buries(old(entries[..]), entries[..], key)
      ensures WellFormed(entries[..], hash) && count == |LiveSlots(entries[..])| == old(count) - 1
      ensures Abs(entries[..]) == Without(old(Contents()), key)
    {
      ghost var s := entries[..];
      Bury(s, hash, i);
      entries[i] := Tombstone;
      count := count - 1;
      assert entries[..] == s[i := Tombstone];
    }
  }

  ghost predicate Buries<K, V>(s: Table<K, V>, t: Table<K, V>, key: K) {
    exists i: nat :: Holds(s, i, key) && t == s[i := Tombstone]
  }

  /** When remove halves the table, without the guards that never matter. */
  predicate Shrinks(capacity: nat, count: nat) {
    capacity > MINIMUM_CAPACITY && 4 * count <= capacity
  }

  /** Where put writes: the slot of the key if it has one, otherwise the first slot on the
      probe path that is not live, so that tombstones are reused. */
  ghost predicate PutSlot<K, V>(s: Table<K, V>, hash: K -> nat, key: K, i: nat) {
    Holds(s, i, key) || NewKeySlot(s, hash, key, i)
  }

  ghost predicate NewKeySlot<K, V>(s: Table<K, V>, hash: K -> nat, key: K, i: nat) {
    |s| > 0 && (forall j :: !Holds(s, j, key)) && FirstFree(s, Home(hash, key, |s|), i)
  }

  ghost predicate Stores<K, V>(s: Table<K, V>, t: Table<K, V>, hash: K -> nat, key: K, value: V) {
    exists i: nat :: PutSlot(s, hash, key, i) && i < |s| && t == s[i := Live(key, value)]
  }

  /** The state of put's probe loop: `first` is the first tombstone passed, or -1. */
  ghost predicate Probing<K, V>(s: Table<K, V>, hash: K -> nat, key: K, junk: K, index: nat, first: int)
    requires |s| > 0
  {
    && Passed(s, hash, key, index)
    && FirstSeen(s, Home(hash, key, |s|), index, first)
    && (key == junk ==>
          forall j :: 0 <= j < |s| && Before(Home(hash, key, |s|), j, index) && s[j].Tombstone? ==> j == first)
  }

  ghost predicate FirstSeen<K, V>(s: Table<K, V>, start: nat, index: nat, first: int) {
    if first == -1 then
      LivePath(s, start, index)
    else
      0 <= first && FirstFree(s, start, first) && s[first].Tombstone? && Before(start, first, index)
  }

  lemma EmptyTable<K, V>(s: Table<K, V>, hash: K -> nat)
    requires forall i :: 0 <= i < |s| ==> s[i].Empty?
    ensures WellFormed(s, hash) && Abs(s) == map[] && LiveSlots(s) == {}
  {
    assert LiveSlots(s) == {};
    AbsIs(s, map[]);
  }

  ghost predicate AtMostOneTombstone<K, V>(s: Table<K, V>) {
    forall i, j :: 0 <= i < |s| && 0 <= j < |s| && s[i].Tombstone? && s[j].Tombstone? ==> i == j
  }

  /** Every tombstone sits at the first slot from `start` that is not live. */
  ghost predicate TombstonesFirstFree<K, V>(s: Table<K, V>, start: nat) {
    forall i :: 0 <= i < |s| && s[i].Tombstone? ==> LivePath(s, start, i)
  }

  lemma TombstoneUnique<K, V>(s: Table<K, V>, start: nat)
    requires start < |s| && TombstonesFirstFree(s, start)
    ensures AtMostOneTombstone(s)
  {
    forall i, j | 0 <= i < |s| && 0 <= j < |s| && s[i].Tombstone? && s[j].Tombstone?
      ensures i == j
    {
      FirstFreeUnique(s, start, i, j);
    }
  }

  /** The slots a probe from `start` still has ahead of it. */
  function Ahead(start: nat, index: nat, capacity: nat): nat
    requires start < capacity && index < capacity
  {
    if start <= index then capacity - index + start else start - index
  }

  lemma LiveStep<K, V>(s: Table<K, V>, start: nat, index: nat)
    requires start < |s| && index < |s|
    requires LivePath(s, start, index) && s[index].Live?
    requires exists j :: 0 <= j < |s| && !s[j].Live?
    ensures LivePath(s, start, Next(index, |s|))
    ensures Ahead(start, Next(index, |s|), |s|) == Ahead(start, index, |s|) - 1
  {
    var j :| 0 <= j < |s| && !s[j].Live?;
    assert !Before(start, j, index);
  }

  /** `t` is the table a resize has built from the first `i` slots of `s`. */
  ghost predicate Copied<K, V>(t: Table<K, V>, hash: K -> nat, s: Table<K, V>, i: nat, junk: K) {
    && i <= |s| && |LiveSlots(s)| < |t|
    && DistinctKeys(s)
    && WellFormed(t, hash)
    && SameEntries(t, s[..i])
    && TombstonesFirstFree(t, Home(hash, junk, |t|))
  }

  /** `u` is `t` with `entry` copied to slot `i`, the first from its home that is not live. */
  ghost predicate CopiesAt<K, V>(t: Table<K, V>, u: Table<K, V>, hash: K -> nat, entry: Slot<K, V>, junk: K, i: nat) {
    && |t| > 0 && FirstFree(t, Home(hash, if entry.Live? then entry.key else junk, |t|), i)
    && u == t[i := entry]
  }

  /** An entry that is not empty is copied, tombstones too. */
  ghost predicate CopiesTo<K, V>(t: Table<K, V>, u: Table<K, V>, hash: K -> nat, entry: Slot<K, V>, junk: K) {
    if entry.Empty? then u == t else exists i: nat :: CopiesAt(t, u, hash, entry, junk, i)
  }

  lemma CopiedAt<K, V>(t: Table<K, V>, hash: K -> nat, entry: Slot<K, V>, junk: K, i: nat)
    requires |t| > 0 && !entry.Empty?
    requires FirstFree(t, Home(hash, if entry.Live? then entry.key else junk, |t|), i)
    ensures CopiesTo(t, t[i := entry], hash, entry, junk)
  {
    assert CopiesAt(t, t[i := entry], hash, entry, junk, i);
  }

  ghost predicate NoTombstone<K, V>(s: Table<K, V>) {
    forall j :: 0 <= j < |s| ==> !s[j].Tombstone?
  }

  /** Of the first `i` slots of `s`, slot `last` held the last tombstone. It was copied to slot `mark`
      of the new table, which was `prior` at the time, and is there still unless a live entry has filled
      that slot since. */
  ghost predicate LastMark<K, V>(t: Table<K, V>, hash: K -> nat, s: Table<K, V>, i: nat, junk: K,
                                 last: int, prior: Table<K, V>, mark: nat) {
    && -1 <= last < i <= |s| && (last >= 0 ==> s[last].Tombstone?)
    && (forall j :: last < j < i ==> !s[j].Tombstone?)
    && if last == -1 then
         NoTombstone(t)
       else
         && Copied(prior, hash, s, last, junk) && 0 < |prior| == |t|
         && FirstFree(prior, Home(hash, junk, |t|), mark)
         && (forall j :: 0 <= j < |t| && prior[j].Live? ==> t[j] == prior[j])
         && if t[mark].Live? then NoTombstone(t) else t[mark].Tombstone?
  }

  lemma NextMark<K, V>(t: Table<K, V>, u: Table<K, V>, hash: K -> nat, s: Table<K, V>, i: nat, junk: K,
                       last: int, prior: Table<K, V>, mark: nat)
    returns (last': int, prior': Table<K, V>, mark': nat)
    requires i < |s| && Copied(t, hash, s, i, junk) && LastMark(t, hash, s, i, junk, last, prior, mark)
    requires CopiesTo(t, u, hash, s[i], junk)
    ensures LastMark(u, hash, s, i + 1, junk, last', prior', mark')
  {
    last', prior', mark' := last, prior, mark;
    if !s[i].Empty? {
      var index: nat :| CopiesAt(t, u, hash, s[i], junk, index);
      if s[i].Tombstone? {
        last', prior', mark' := i, t, index;
        MarkAnew(t, u, hash, s, i, junk, index);
      } else {
        MarkOrFilled(t, u, hash, s, i, junk, last, prior, mark, index);
      }
    }
  }

  lemma MarkAnew<K, V>(t: Table<K, V>, u: Table<K, V>, hash: K -> nat, s: Table<K, V>, i: nat, junk: K, index: nat)
    requires i < |s| && s[i].Tombstone? && Copied(t, hash, s, i, junk)
    requires CopiesAt(t, u, hash, s[i], junk, index)
    ensures LastMark(u, hash, s, i + 1, junk, i, t, index)
  {
  }

  /** A live entry fills the slot of the tombstone or another one. */
  lemma MarkOrFilled<K, V>(t: Table<K, V>, u: Table<K, V>, hash: K -> nat, s: Table<K, V>, i: nat, junk: K,
                           last: int, prior: Table<K, V>, mark: nat, index: nat)
    requires i < |s| && s[i].Live? && |t| > 0 && TombstonesFirstFree(t, Home(hash, junk, |t|))
    requires LastMark(t, hash, s, i, junk, last, prior, mark) && CopiesAt(t, u, hash, s[i], junk, index)
    ensures LastMark(u, hash, s, i + 1, junk, last, prior, mark)
  {
    TombstoneUnique(t, Home(hash, junk, |t|));
  }

  /** `p` and `t` stand for the same map and have the same number of live slots. */
  ghost predicate SameEntries<K, V>(t: Table<K, V>, p: Table<K, V>)
    requires DistinctKeys(t)
  {
    StandsFor(p, Abs(t)) && |LiveSlots(t)| == |LiveSlots(p)|
  }

  lemma NothingCopied<K, V>(t: Table<K, V>, hash: K -> nat, s: Table<K, V>, junk: K)
    requires forall j :: 0 <= j < |t| ==> t[j].Empty?
    requires DistinctKeys(s) && |LiveSlots(s)| < |t|
    ensures Copied(t, hash, s, 0, junk)
  {
    EmptyTable(t, hash);
    EmptyTable(s[..0], hash);
  }

  lemma RoomLeft<K, V>(t: Table<K, V>, hash: K -> nat, s: Table<K, V>, i: nat, junk: K)
    requires Copied(t, hash, s, i, junk)
    ensures exists j :: 0 <= j < |t| && !t[j].Live?
  {
    SubsetSize(LiveSlots(s[..i]), LiveSlots(s));
    NotAllLive(t);
  }

  lemma LongerPrefixSize<K, V>(p: Table<K, V>, slot: Slot<K, V>)
    ensures |LiveSlots(p + [slot])| == |LiveSlots(p)| + if slot.Live? then 1 else 0
  {
    assert LiveSlots(p + [slot]) == LiveSlots(p) + if slot.Live? then {|p|} else {};
  }

  /** A prefix one slot longer stands for a map with at most one entry more. */
  lemma LongerPrefix<K, V>(p: Table<K, V>, m: map<K, V>, slot: Slot<K, V>)
    requires StandsFor(p, m)
    requires slot.Live? ==> slot.key !in m
    ensures StandsFor(p + [slot], if slot.Live? then m[slot.key := slot.value] else m)
  {
    var q, n := p + [slot], if slot.Live? then m[slot.key := slot.value] else m;
    forall k | k in n.Keys
      ensures exists j :: Holds(q, j, k)
    {
      if slot.Live? && k == slot.key {
        assert Holds(q, |p|, k);
      } else {
        var j :| Holds(p, j, k);
        assert Holds(q, j, k);
      }
    }
  }

  lemma SkipSlot<K, V>(t: Table<K, V>, hash: K -> nat, s: Table<K, V>, i: nat, junk: K)
    requires Copied(t, hash, s, i, junk)
    requires i < |s| && !s[i].Live?
    ensures Copied(t, hash, s, i + 1, junk)
  {
    assert s[..i + 1] == s[..i] + [s[i]];
    LongerPrefix(s[..i], Abs(t), s[i]);
    LongerPrefixSize(s[..i], s[i]);
  }

  lemma AllCopied<K, V>(t: Table<K, V>, hash: K -> nat, s: Table<K, V>, junk: K)
    requires Copied(t, hash, s, |s|, junk)
    ensures Abs(t) == Abs(s) && |LiveSlots(t)| == |LiveSlots(s)|
    ensures AtMostOneTombstone(t)
  {
    assert s[..|s|] == s;
    AbsIs(s, Abs(t));
    TombstoneUnique(t, Home(hash, junk, |t|));
  }

  /** One step of a resize: the next old slot, live or tombstone, copied to the first slot
      from its home in the new table that is not live. */
  lemma CopySlot<K, V>(t: Table<K, V>, hash: K -> nat, s: Table<K, V>, i: nat, junk: K, index: nat)
    requires Copied(t, hash, s, i, junk)
    requires i < |s| && !s[i].Empty?
    requires FirstFree(t, Home(hash, if s[i].Live? then s[i].key else junk, |t|), index)
    ensures Copied(t[index := s[i]], hash, s, i + 1, junk)
  {
    StillFirstFree(t, Home(hash, junk, |t|), index, s[i]);
    if s[i].Live? {
      CopyLive(t, hash, s, i, junk, index);
    } else {
      LayTombstone(t, hash, index);
      SkipSlot(t, hash, s, i, junk);
    }
  }

  lemma CopyLive<K, V>(t: Table<K, V>, hash: K -> nat, s: Table<K, V>, i: nat, junk: K, index: nat)
    requires Copied(t, hash, s, i, junk)
    requires i < |s| && s[i].Live?
    requires FirstFree(t, Home(hash, s[i].key, |t|), index)
    ensures var u := t[index := s[i]];
      WellFormed(u, hash) && SameEntries(u, s[..i + 1])
  {
    forall j | 0 <= j < i
      ensures !Holds(s[..i], j, s[i].key)
    {
      assert s[..i][j] == s[j];
    }
    Fill(t, hash, index, s[i].key, s[i].value);
    assert s[..i + 1] == s[..i] + [s[i]];
    LongerPrefix(s[..i], Abs(t), s[i]);
    LongerPrefixSize(s[..i], s[i]);
  }

  lemma StillFirstFree<K, V>(t: Table<K, V>, start: nat, index: nat, slot: Slot<K, V>)
    requires TombstonesFirstFree(t, start)
    requires index < |t| && !t[index].Live?
    requires slot.Tombstone? ==> LivePath(t, start, index)
    ensures TombstonesFirstFree(t[index := slot], start)
  {
    var u := t[index := slot];
    forall j | 0 <= j < |u| && u[j].Tombstone?
      ensures LivePath(u, start, j)
    {
      assert LivePath(t, start, j);
    }
  }

  lemma GrowBounds(capacity: nat, count: nat)
    requires LoadBounds(capacity, count) && 4 * count >= 3 * capacity
    ensures LoadBounds(2 * capacity, count) && count < 2 * capacity
    ensures 4 * count < 3 * (2 * capacity)
  {
    CapacityMultiple(capacity);
  }

  lemma NoSecondIfOne<K, V>(s: Table<K, V>, hash: K -> nat, key: K)
    requires AtMostOneTombstone(s)
    ensures !MeetsSecondTombstone(s, hash, key)
  {
  }

  lemma SecondTombstoneMet<K, V>(s: Table<K, V>, hash: K -> nat, key: K, junk: K, index: nat, first: int)
    requires index < |s| && Probing(s, hash, key, junk, index, first)
    requires s[index].Tombstone? && first != -1
    ensures MeetsSecondTombstone(s, hash, key)
  {
  }

  lemma NoSecond<K, V>(s: Table<K, V>, hash: K -> nat, key: K, junk: K, index: nat, first: int)
    requires index < |s| && Probing(s, hash, key, junk, index, first)
    requires Holds(s, index, key) || s[index].Empty?
    ensures key == junk ==> !MeetsSecondTombstone(s, hash, key)
  {
    if key == junk {
      var start := Home(hash, key, |s|);
      forall i, j | 0 <= i < |s| && 0 <= j < |s| && s[i].Tombstone? && s[j].Tombstone? && Before(start, i, j)
        ensures !Passed(s, hash, key, j)
      {
        if Before(start, j, index) {
          assert Before(start, i, index);
        } else {
          assert Before(start, index, j);
        }
      }
    }
  }

  /** The probe loop moves on: over the first tombstone, a later one, or another key. */
  lemma PutStep<K, V>(s: Table<K, V>, hash: K -> nat, key: K, junk: K, index: nat, first: int, first': int)
    requires index < |s| && Probing(s, hash, key, junk, index, first)
    requires !s[index].Empty? && !Holds(s, index, key)
    requires first' == if s[index].Tombstone? && first == -1 then index else first
    requires s[index].Tombstone? && first != -1 ==> key != junk
    requires |LiveSlots(s)| < |s|
    ensures var start, next := Home(hash, key, |s|), Next(index, |s|);
      if next == start then
        first' >= 0 && NewKeySlot(s, hash, key, first') && (key == junk ==> !MeetsSecondTombstone(s, hash, key))
      else
        Probing(s, hash, key, junk, next, first') && Ahead(start, next, |s|) == Ahead(start, index, |s|) - 1
  {
    var start, next := Home(hash, key, |s|), Next(index, |s|);
    ProbeStep(s, hash, key, index);
    assert forall j :: 0 <= j < |s| ==>
                         (Before(start, j, index) || j == index) == (next == start || Before(start, j, next));
    if next == start {
      NotAllLive(s);
    }
  }

  lemma EmptyReached<K, V>(s: Table<K, V>, hash: K -> nat, key: K, junk: K, index: nat, first: int)
    requires WellFormed(s, hash)
    requires index < |s| && s[index].Empty?
    requires Probing(s, hash, key, junk, index, first)
    ensures NewKeySlot(s, hash, key, if first == -1 then index else first)
    ensures key == junk ==> !MeetsSecondTombstone(s, hash, key)
  {
    AbsentAtEmpty(s, hash, key, index);
    NoSecond(s, hash, key, junk, index, first);
  }

  lemma StoreNew<K, V>(s: Table<K, V>, hash: K -> nat, key: K, value: V, i: nat)
    requires WellFormed(s, hash)
    requires NewKeySlot(s, hash, key, i)
    ensures var t := s[i := Live(key, value)];
      && Stores(s, t, hash, key, value)
      && WellFormed(t, hash)
      && Abs(t) == Abs(s)[key := value]
      && |LiveSlots(t)| == |LiveSlots(s)| + 1
  {
    Fill(s, hash, i, key, value);
    assert PutSlot(s, hash, key, i);
  }

  lemma StoreOver<K, V>(s: Table<K, V>, hash: K -> nat, key: K, value: V, i: nat)
    requires WellFormed(s, hash)
    requires Holds(s, i, key)
    ensures var t := s[i := Live(key, value)];
      && Stores(s, t, hash, key, value)
      && WellFormed(t, hash)
      && Abs(t) == Abs(s)[key := value]
      && |LiveSlots(t)| == |LiveSlots(s)|
  {
    Overwrite(s, hash, i, value);
    assert PutSlot(s, hash, key, i);
  }

  lemma AddOneBounds(capacity: nat, count: nat)
    requires LoadBounds(capacity, count) && 4 * count < 3 * capacity
    ensures LoadBounds(capacity, count + 1)
  {
    CapacityMultiple(capacity);
  }

  predicate AfterRemoval(capacity: nat, count: nat) {
    if Shrinks(capacity, count) then
      && count > 0 && capacity / 2 >= MINIMUM_CAPACITY
      && LoadBounds(capacity / 2, count) && count < capacity / 2
    else
      LoadBounds(capacity, count)
  }

  /** After a removal the count > 0 guard holds and the minimum-capacity clamp does nothing
      whenever the table shrinks. */
  lemma RemoveBounds(capacity: nat, count: nat)
    requires LoadBounds(capacity, count) && count > 0
    ensures AfterRemoval(capacity, count - 1)
  {
    CapacityMultiple(capacity);
  }
}
