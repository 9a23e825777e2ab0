/** The slot array of src/core/hash_map.c as a value: what the probe loops rely on,
    and what each single-slot write does to the map the slots stand for. */
module SlotTable {
  import opened Prelude

  datatype Slot<K, V> = Empty | Tombstone | Live(key: K, value: V)

  type Table<K, V> = seq<Slot<K, V>>

  /** One probe step. */
  function Next(i: nat, capacity: nat): (r: nat)
    requires i < capacity
    ensures r < capacity
    ensures r == if i + 1 == capacity then 0 else i + 1
  {
    (i + 1) % capacity
  }

  function Home<K>(hash: K -> nat, key: K, capacity: nat): (r: nat)
    requires capacity > 0
    ensures r < capacity
  {
    hash(key) % capacity
  }

  /** A probe that began at `start` and now stands at `index` has passed slot `j`. */
  predicate Before(start: nat, j: nat, index: nat) {
    if start <= index then start <= j < index else start <= j || j < index
  }

  /** Every slot passed by a probe from `start` to `index` is occupied. */
  ghost predicate OccupiedPath<K, V>(s: Table<K, V>, start: nat, index: nat) {
    forall j :: 0 <= j < |s| && Before(start, j, index) ==> !s[j].Empty?
  }

  /** No slot on the way from a live key's home to its slot is empty. */
  ghost predicate ProbeChains<K, V>(s: Table<K, V>, hash: K -> nat) {
    forall i :: 0 <= i < |s| && s[i].Live? ==> OccupiedPath(s, Home(hash, s[i].key, |s|), i)
  }

  ghost predicate DistinctKeys<K, V>(s: Table<K, V>) {
    forall i, j :: 0 <= i < |s| && 0 <= j < |s| && s[i].Live? && s[j].Live? && s[i].key == s[j].key ==> i == j
  }

  ghost function LiveSlots<K, V>(s: Table<K, V>): (r: set<nat>)
    ensures r <= Below(|s|)
  {
    set i: nat | i < |s| && s[i].Live?
  }

  /** Slot `i` is live and holds `key`. */
  ghost predicate Holds<K, V>(s: Table<K, V>, i: int, key: K) {
    0 <= i < |s| && s[i].Live? && s[i].key == key
  }

  /** `m` has exactly the entries of the live slots. */
  ghost predicate StandsFor<K, V>(s: Table<K, V>, m: map<K, V>) {
    && (forall i :: 0 <= i < |s| && s[i].Live? ==> s[i].key in m && m[s[i].key] == s[i].value)
    && (forall k :: k in m ==> exists i :: Holds(s, i, k))
  }

  lemma {:induction false} SomeMapFits<K, V>(s: Table<K, V>)
    requires DistinctKeys(s)
    ensures exists m :: StandsFor(s, m)
  {
    var m := map i | 0 <= i < |s| && s[i].Live? :: s[i].key := s[i].value;
    forall k | k in m
      ensures exists i :: Holds(s, i, k)
    {
      var i :| 0 <= i < |s| && s[i].Live? && s[i].key == k;
      assert Holds(s, i, k);
    }
    assert StandsFor(s, m);
  }

  /** The finite map the table stands for. */
  ghost function Abs<K, V>(s: Table<K, V>): (m: map<K, V>)
    requires DistinctKeys(s)
    ensures StandsFor(s, m)
  {
    SomeMapFits(s);
    var m: map<K, V> :| StandsFor(s, m);
    m
  }

  lemma AbsIs<K, V>(s: Table<K, V>, m: map<K, V>)
    requires DistinctKeys(s) && StandsFor(s, m)
    ensures Abs(s) == m
  {
    var a := Abs(s);
    forall k | k in a
      ensures k in m && m[k] == a[k]
    {
      var i :| Holds(s, i, k);
    }
    forall k | k in m
      ensures k in a
    {
      var i :| Holds(s, i, k);
    }
  }

  /** Everything but the load bounds. */
  ghost predicate WellFormed<K, V>(s: Table<K, V>, hash: K -> nat) {
    && ProbeChains(s, hash)
    && DistinctKeys(s)
    && |LiveSlots(s)| == |Abs(s)|
  }

  /** A probe for `key` from its home has passed only occupied slots of other keys. */
  ghost predicate Passed<K, V>(s: Table<K, V>, hash: K -> nat, key: K, index: nat)
    requires |s| > 0
  {
    forall j :: 0 <= j < |s| && Before(Home(hash, key, |s|), j, index) ==> !s[j].Empty? && !Holds(s, j, key)
  }

  /** The table has neither an empty slot nor the key: a probe for it goes all the way round. */
  ghost predicate Circled<K, V>(s: Table<K, V>, key: K) {
    forall j :: 0 <= j < |s| ==> !s[j].Empty? && !Holds(s, j, key)
  }

  /** One more probe step over an occupied slot of another key. */
  lemma ProbeStep<K, V>(s: Table<K, V>, hash: K -> nat, key: K, index: nat)
    requires index < |s|
    requires Passed(s, hash, key, index)
    requires !s[index].Empty? && !Holds(s, index, key)
    ensures var start, next := Home(hash, key, |s|), Next(index, |s|);
      if next == start then Circled(s, key) else Passed(s, hash, key, next)
  {
    var start, next := Home(hash, key, |s|), Next(index, |s|);
    assert forall j :: 0 <= j < |s| ==>
                         (Before(start, j, index) || j == index) == (next == start || Before(start, j, next));
  }

  /** A probe that ends on an empty slot has seen enough, thanks to the probe chains. */
  lemma AbsentAtEmpty<K, V>(s: Table<K, V>, hash: K -> nat, key: K, index: nat)
    requires ProbeChains(s, hash) && DistinctKeys(s)
    requires index < |s| && s[index].Empty?
    requires Passed(s, hash, key, index)
    ensures key !in Abs(s)
  {
    forall i | 0 <= i < |s|
      ensures !Holds(s, i, key)
    {
      if s[i].Live? {
        assert OccupiedPath(s, Home(hash, s[i].key, |s|), i);
      }
    }
  }

  /** The slot put uses for a new key: the first one on the probe path that is not live. */
  ghost predicate FirstFree<K, V>(s: Table<K, V>, start: nat, index: nat) {
    && index < |s|
    && !s[index].Live?
    && LivePath(s, start, index)
  }

  ghost predicate LivePath<K, V>(s: Table<K, V>, start: nat, index: nat) {
    forall j :: 0 <= j < |s| && Before(start, j, index) ==> s[j].Live?
  }

  /** A second tombstone lies on the probe path of `key`, before its slot and before any empty slot. */
  ghost predicate MeetsSecondTombstone<K, V>(s: Table<K, V>, hash: K -> nat, key: K) {
    |s| > 0 &&
    exists i, j ::
      && 0 <= i < |s| && 0 <= j < |s|
      && s[i].Tombstone? && s[j].Tombstone?
      && Before(Home(hash, key, |s|), i, j)
      && Passed(s, hash, key, j)
  }

  /** Two slots that are both first free from the same start are the same slot. */
  lemma FirstFreeUnique<K, V>(s: Table<K, V>, start: nat, i: nat, j: nat)
    requires start < |s|
    requires FirstFree(s, start, i) && FirstFree(s, start, j)
    ensures i == j
  {
    assert Before(start, i, j) || Before(start, j, i) || i == j;
  }

  /** Some slot is not live while the live entries do not fill the table. */
  lemma NotAllLive<K, V>(s: Table<K, V>)
    requires |LiveSlots(s)| < |s|
    ensures exists j :: 0 <= j < |s| && !s[j].Live?
  {
    if forall j :: 0 <= j < |s| ==> s[j].Live? {
      assert LiveSlots(s) == Below(|s|);
      BelowSize(|s|);
    }
  }

  /** A write that leaves the slot occupied keeps every probe chain. */
  lemma ChainsAfterWrite<K, V>(s: Table<K, V>, hash: K -> nat, i: nat, slot: Slot<K, V>)
    requires ProbeChains(s, hash) && i < |s|
    requires !slot.Empty?
    requires slot.Live? ==> OccupiedPath(s, Home(hash, slot.key, |s|), i)
    ensures ProbeChains(s[i := slot], hash)
  {
    var t := s[i := slot];
    forall a | 0 <= a < |t| && t[a].Live?
      ensures OccupiedPath(t, Home(hash, t[a].key, |t|), a)
    {
      assert OccupiedPath(s, Home(hash, t[a].key, |s|), a);
    }
  }

  /** A write of a key that no other slot holds: the map gains or updates that key. */
  lemma AbsAfterWrite<K, V>(s: Table<K, V>, i: nat, key: K, value: V)
    requires DistinctKeys(s) && i < |s|
    requires if s[i].Live? then s[i].key == key else key !in Abs(s)
    ensures var t := s[i := Live(key, value)];
      DistinctKeys(t) && Abs(t) == Abs(s)[key := value]
  {
    var t := s[i := Live(key, value)];
    var m := Abs(s)[key := value];
    forall k | k in m
      ensures exists j :: Holds(t, j, k)
    {
      if k == key {
        assert Holds(t, i, k);
      } else {
        var j :| Holds(s, j, k);
        assert Holds(t, j, k);
      }
    }
    AbsIs(t, m);
  }

  /** The map without `key`. */
  function Without<K, V>(m: map<K, V>, key: K): (r: map<K, V>)
    ensures r.Keys == m.Keys - {key}
    ensures forall k :: k in r ==> r[k] == m[k]
    ensures |r| == if key in m then |m| - 1 else |m|
  {
    var r := map k | k in m && k != key :: m[k];
    assert r.Keys == m.Keys - {key};
    r
  }

  /** A tombstone written over any slot: the map loses the key the slot held, if any. */
  lemma AbsAfterTombstone<K, V>(s: Table<K, V>, i: nat)
    requires DistinctKeys(s) && i < |s|
    ensures var t := s[i := Tombstone];
      DistinctKeys(t) && Abs(t) == if s[i].Live? then Without(Abs(s), s[i].key) else Abs(s)
  {
    var t := s[i := Tombstone];
    var m := if s[i].Live? then Without(Abs(s), s[i].key) else Abs(s);
    forall k | k in m
      ensures exists j :: Holds(t, j, k)
    {
      var j :| Holds(s, j, k);
      assert Holds(t, j, k);
    }
    AbsIs(t, m);
  }

  /** Writing a new key into a slot that is not live, reached over occupied slots. */
  lemma Fill<K, V>(s: Table<K, V>, hash: K -> nat, i: nat, key: K, value: V)
    requires WellFormed(s, hash)
    requires i < |s| && !s[i].Live?
    requires key !in Abs(s)
    requires OccupiedPath(s, Home(hash, key, |s|), i)
    ensures var t := s[i := Live(key, value)];
      && WellFormed(t, hash)
      && Abs(t) == Abs(s)[key := value]
      && |LiveSlots(t)| == |LiveSlots(s)| + 1
  {
    var t := s[i := Live(key, value)];
    ChainsAfterWrite(s, hash, i, Live(key, value));
    AbsAfterWrite(s, i, key, value);
    assert LiveSlots(t) == LiveSlots(s) + {i};
  }

  /** Updating the value of a live entry in place. */
  lemma Overwrite<K, V>(s: Table<K, V>, hash: K -> nat, i: nat, value: V)
    requires WellFormed(s, hash)
    requires i < |s| && s[i].Live?
    ensures var t := s[i := Live(s[i].key, value)];
      && WellFormed(t, hash)
      && Abs(t) == Abs(s)[s[i].key := value]
      && |LiveSlots(t)| == |LiveSlots(s)|
  {
    var t := s[i := Live(s[i].key, value)];
    ChainsAfterWrite(s, hash, i, t[i]);
    AbsAfterWrite(s, i, s[i].key, value);
    assert LiveSlots(t) == LiveSlots(s);
  }

  /** Turning a live entry into a tombstone. */
  lemma Bury<K, V>(s: Table<K, V>, hash: K -> nat, i: nat)
    requires WellFormed(s, hash)
    requires i < |s| && s[i].Live?
    ensures var t := s[i := Tombstone];
      && WellFormed(t, hash)
      && Abs(t) == Without(Abs(s), s[i].key)
      && |LiveSlots(t)| == |LiveSlots(s)| - 1
  {
    var t := s[i := Tombstone];
    ChainsAfterWrite(s, hash, i, Tombstone);
    AbsAfterTombstone(s, i);
    assert LiveSlots(t) == LiveSlots(s) - {i};
  }

  /** Copying a tombstone into a slot that is not live. */
  lemma LayTombstone<K, V>(s: Table<K, V>, hash: K -> nat, i: nat)
    requires WellFormed(s, hash)
    requires i < |s| && !s[i].Live?
    ensures var t := s[i := Tombstone];
      && WellFormed(t, hash)
      && Abs(t) == Abs(s)
      && LiveSlots(t) == LiveSlots(s)
  {
    ChainsAfterWrite(s, hash, i, Tombstone);
    AbsAfterTombstone(s, i);
    assert LiveSlots(s[i := Tombstone]) == LiveSlots(s);
  }
}
