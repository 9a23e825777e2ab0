/** Whole runs of the hash map of src/core/hash_map.c: what the calls return, and what all
    the resizes together cost. */
module HashMapRuns {
  import opened Prelude
  import opened HashInts
  import opened HashMaps
  import opened SlotTable

  /** One call; `junk` is the key the tombstone placeholder reads as during it. */
  datatype Op<K, V> =
    | Put(key: K, value: V, junk: K)
    | Get(key: K)
    | Remove(key: K, junk: K)

  datatype Answer<V> =
    | PutReturned(result: PutResult)
    | GetReturned(value: Option<V>)
    | RemoveReturned(removed: bool)

  /** The last value put for `key` since its last removal. */
  function LastWrite<K(==), V>(ops: seq<Op<K, V>>, key: K): Option<V> {
    if ops == [] then
      None
    else
      match ops[|ops| - 1]
      case Put(k, v, _) => if k == key then Some(v) else LastWrite(ops[..|ops| - 1], key)
      case Remove(k, _) => if k == key then None else LastWrite(ops[..|ops| - 1], key)
      case Get(_) => LastWrite(ops[..|ops| - 1], key)
  }

  /** What `op` should return after the calls in `past`. */
  function Expected<K(==), V>(past: seq<Op<K, V>>, op: Op<K, V>): Answer<V> {
    match op
    case Put(_, _, _) => PutReturned(Stored)
    case Get(k) => GetReturned(LastWrite(past, k))
    case Remove(k, _) => RemoveReturned(LastWrite(past, k).Some?)
  }

  function Mutations<K, V>(ops: seq<Op<K, V>>): nat {
    if ops == [] then 0 else (if ops[0].Get? then 0 else 1) + Mutations(ops[1..])
  }

  ghost predicate Agrees<K(!new), V>(m: map<K, V>, ops: seq<Op<K, V>>) {
    forall k: K :: (if k in m then Some(m[k]) else None) == LastWrite(ops, k)
  }

  /** What the calls so far have put aside for the next resize. */
  function Potential(capacity: nat, count: nat): nat {
    Max(4 * count - 2 * capacity, 0) + (if capacity > MINIMUM_CAPACITY then Max(3 * capacity - 8 * count, 0) else 0)
  }

  function Max(a: int, b: int): int {
    if a < b then b else a
  }

  /** A put, growing or not, costs at most 8 slots once the potential is counted in. */
  lemma PutCost(capacity: nat, count: nat, newCount: nat)
    requires LoadBounds(capacity, count) && count <= newCount <= count + 1
    ensures if 4 * count < 3 * capacity then
              Potential(capacity, newCount) <= Potential(capacity, count) + 8
            else
              capacity + Potential(2 * capacity, newCount) <= Potential(capacity, count) + 8
  {
    CapacityMultiple(capacity);
  }

  /** So does a removal, shrinking or not. */
  lemma RemoveCost(capacity: nat, count: nat)
    requires LoadBounds(capacity, count + 1)
    ensures if Shrinks(capacity, count) then
              capacity + Potential(capacity / 2, count) <= Potential(capacity, count + 1) + 8
            else
              Potential(capacity, count) <= Potential(capacity, count + 1) + 8
  {
    CapacityMultiple(capacity);
  }

  /** The map after one more put, get or remove still agrees with the calls made. */
  lemma AgreesStep<K(!new), V>(m: map<K, V>, past: seq<Op<K, V>>, op: Op<K, V>)
    requires Agrees(m, past)
    ensures Agrees(match op
                   case Put(k, v, _) => m[k := v]
                   case Get(_) => m
                   case Remove(k, _) => Without(m, k), past + [op])
  {
    assert (past + [op])[..|past|] == past;
    forall k: K
      ensures LastWrite(past + [op], k) == match op
                                           case Put(k', v, _) => if k' == k then Some(v) else LastWrite(past, k)
                                           case Remove(k', _) => if k' == k then None else LastWrite(past, k)
                                           case Get(_) => LastWrite(past, k)
    {
    }
  }

  /** The slots scanned by resizes so far, plus what is put aside. */
  ghost function Spent<K, V>(m: HashMap<K, V>): nat
    reads m
  {
    m.work + Potential(m.capacity, m.count)
  }

  method StepPut<K(==, !new), V>(m: HashMap<K, V>, ghost past: seq<Op<K, V>>, op: Op<K, V>) returns (r: PutResult)
    requires m.Valid() && Agrees(m.Contents(), past) && op.Put?
    modifies m, m.entries
    ensures m.Valid() && (m.entries == old(m.entries) || fresh(m.entries))
    ensures if r == NullCopy then op.key == op.junk else Agrees(m.Contents(), past + [op])
    ensures Spent(m) <= old(Spent(m)) + 8
  {
    ghost var capacity, count := m.capacity, m.count;
    AgreesStep(m.Contents(), past, op);
    r := m.Put(op.key, op.value, op.junk);
    PutCost(capacity, count, m.count);
  }

  method StepRemove<K(==, !new), V>(m: HashMap<K, V>, ghost past: seq<Op<K, V>>, op: Op<K, V>) returns (removed: bool)
    requires m.Valid() && Agrees(m.Contents(), past) && op.Remove?
    modifies m, m.entries
    ensures m.Valid() && (m.entries == old(m.entries) || fresh(m.entries))
    ensures removed == LastWrite(past, op.key).Some? && Agrees(m.Contents(), past + [op])
    ensures Spent(m) <= old(Spent(m)) + 8
  {
    ghost var capacity := m.capacity;
    AgreesStep(m.Contents(), past, op);
    removed := m.Remove(op.key, op.junk);
    if removed {
      RemoveCost(capacity, m.count);
    }
  }

  /** One call on a map that agrees with the calls made so far. */
  method Step<K(==, !new), V>(m: HashMap<K, V>, ghost past: seq<Op<K, V>>, op: Op<K, V>) returns (a: Answer<V>)
    requires m.Valid() && Agrees(m.Contents(), past)
    modifies m, m.entries
    ensures m.Valid() && (m.entries == old(m.entries) || fresh(m.entries))
    ensures if a == PutReturned(NullCopy) then
              op.Put? && op.key == op.junk
            else
              Agrees(m.Contents(), past + [op]) && a == Expected(past, op)
    ensures Spent(m) <= old(Spent(m)) + if op.Get? then 0 else 8
  {
    match op {
      case Put(_, _, _) =>
        var r := StepPut(m, past, op);
        a := PutReturned(r);
      case Get(k) =>
        AgreesStep(m.Contents(), past, op);
        var v := m.Get(k);
        a := GetReturned(v);
      case Remove(_, _) =>
        var removed := StepRemove(m, past, op);
        a := RemoveReturned(removed);
    }
  }

  /** The answers to `ops`, after the calls in `past`, are the expected ones, except that a
      run may end in a `NullCopy`. */
  ghost predicate Correct<K, V>(answers: seq<Answer<V>>, past: seq<Op<K, V>>, ops: seq<Op<K, V>>)
    decreases |ops|
  {
    if ops == [] then
      answers == []
    else
      && answers != []
      && if answers[0] == PutReturned(NullCopy) then
           |answers| == 1 && ops[0].Put? && ops[0].key == ops[0].junk
         else
           answers[0] == Expected(past, ops[0]) && Correct(answers[1..], past + [ops[0]], ops[1..])
  }

  /** The same, call by call: each answer depends only on the calls before it. */
  lemma {:induction false} CorrectAt<K, V>(answers: seq<Answer<V>>, past: seq<Op<K, V>>, ops: seq<Op<K, V>>, i: nat)
    requires Correct(answers, past, ops) && i < |answers|
    ensures |answers| <= |ops|
    ensures answers[i] == Expected(past + ops[..i], ops[i])
            || (i == |answers| - 1 && answers[i] == PutReturned(NullCopy) && ops[i].Put? && ops[i].key == ops[i].junk)
    ensures |answers| < |ops| ==> answers[|answers| - 1] == PutReturned(NullCopy)
    decreases |ops|
  {
    assert past + ops[..0] == past;
    if answers[0] != PutReturned(NullCopy) && |answers| > 1 {
      var rest := answers[1..];
      CorrectAt(rest, past + [ops[0]], ops[1..], if i == 0 then 0 else i - 1);
      if i > 0 {
        assert past + [ops[0]] + ops[1..][..i - 1] == past + ops[..i];
      }
    }
  }

  /** The calls of a run, one after the other. */
  method RunFrom<K(==, !new), V>(m: HashMap<K, V>, ghost past: seq<Op<K, V>>, ops: seq<Op<K, V>>)
    returns (answers: seq<Answer<V>>)
    requires m.Valid() && Agrees(m.Contents(), past)
    modifies m, m.entries
    ensures m.Valid()
    ensures Correct(answers, past, ops)
    ensures Spent(m) <= old(Spent(m)) + 8 * Mutations(ops)
    decreases |ops|
  {
    if ops == [] {
      return [];
    }
    var first := Step(m, past, ops[0]);
    if first == PutReturned(NullCopy) {
      return [first];
    }
    var rest := RunFrom(m, past + [ops[0]], ops[1..]);
    answers := [first] + rest;
  }

  /** Any run of calls on a new map. It ends early only when a put meets a second tombstone
      while the placeholder reads as that put's own key. */
  method Run<K(==, !new), V>(hash: K -> nat, ops: seq<Op<K, V>>)
    returns (answers: seq<Answer<V>>, capacity: nat, count: nat, ghost work: nat)
    ensures Correct(answers, [], ops)
    ensures (forall i :: 0 <= i < |ops| && ops[i].Put? ==> ops[i].key != ops[i].junk) ==> |answers| == |ops|
    ensures work <= 8 * Mutations(ops)
    ensures LoadBounds(capacity, count)
  {
    var m := new HashMap<K, V>(hash);
    answers := RunFrom(m, [], ops);
    capacity, count, work := m.capacity, m.count, m.work;
    NoEarlyEnd(answers, [], ops);
  }

  lemma {:induction false} NoEarlyEnd<K, V>(answers: seq<Answer<V>>, past: seq<Op<K, V>>, ops: seq<Op<K, V>>)
    requires Correct(answers, past, ops)
    ensures |answers| == |ops| || exists i :: 0 <= i < |ops| && ops[i].Put? && ops[i].key == ops[i].junk
    decreases |ops|
  {
    if ops != [] && answers[0] != PutReturned(NullCopy) {
      NoEarlyEnd(answers[1..], past + [ops[0]], ops[1..]);
      if i :| 0 <= i < |ops[1..]| && ops[1..][i].Put? && ops[1..][i].key == ops[1..][i].junk {
        assert ops[i + 1] == ops[1..][i];
      }
    }
  }

  lemma StoresAt<K, V>(s: Table<K, V>, t: Table<K, V>, hash: K -> nat, key: K, value: V, i: nat)
    requires Stores(s, t, hash, key, value) && NewKeySlot(s, hash, key, i)
    ensures t == s[i := Live(key, value)]
  {
    var j: nat :| PutSlot(s, hash, key, j) && j < |s| && t == s[j := Live(key, value)];
    FirstFreeUnique(s, Home(hash, key, |s|), i, j);
  }

  /** Keys 0, 16 and 32 have the same home in a table of 16. */
  lemma SharedHome()
    ensures Home(HashInt, 0, 16) == Home(HashInt, 16, 16) == Home(HashInt, 32, 16) == 0
  {
  }

  lemma FirstStored(s: Table<Int32, int>, t: Table<Int32, int>, value: int)
    requires |s| == 16 && forall i :: 0 <= i < 16 ==> s[i].Empty?
    requires Stores(s, t, HashInt, 16, value)
    ensures t == s[0 := Live(16, value)]
  {
    SharedHome();
    StoresAt(s, t, HashInt, 16, value, 0);
  }

  lemma SecondStored(s: Table<Int32, int>, t: Table<Int32, int>, value: int)
    requires |s| == 16 && Holds(s, 0, 16) && forall i :: 0 < i < 16 ==> s[i].Empty?
    requires Stores(s, t, HashInt, 32, value)
    ensures Holds(t, 0, 16) && Holds(t, 1, 32)
  {
    SharedHome();
    StoresAt(s, t, HashInt, 32, value, 1);
  }

  method FirstPut(value: int) returns (m: HashMap<Int32, int>)
    ensures fresh(m) && fresh(m.entries) && m.Valid()
    ensures m.capacity == 16 && m.count == 1 && m.hash == HashInt
    ensures Holds(m.entries[..], 0, 16) && forall i :: 0 < i < 16 ==> m.entries[i].Empty?
  {
    m := new HashMap<Int32, int>(HashInt);
    ghost var s := m.entries[..];
    var _ := m.Put(16, value, 0);
    FirstStored(s, m.entries[..], value);
    assert forall i :: 0 < i < 16 ==> m.entries[..][i].Empty?;
  }

  method SecondPut(value: int) returns (m: HashMap<Int32, int>)
    ensures fresh(m) && fresh(m.entries) && m.Valid()
    ensures m.capacity == 16 && m.count == 2 && m.hash == HashInt
    ensures Holds(m.entries[..], 0, 16) && Holds(m.entries[..], 1, 32)
  {
    m := FirstPut(value);
    ghost var s := m.entries[..];
    var _ := m.Put(32, value, 0);
    SecondStored(s, m.entries[..], value);
  }

  lemma TwoBuried(s: Table<Int32, int>, t: Table<Int32, int>, u: Table<Int32, int>)
    requires |s| == 16 && DistinctKeys(s) && Holds(s, 0, 16) && Holds(s, 1, 32)
    requires Buries(s, t, 16) && Buries(t, u, 32)
    ensures MeetsSecondTombstone(u, HashInt, 0)
  {
    SharedHome();
    assert u[0].Tombstone? && u[1].Tombstone?;
    assert Before(Home(HashInt, 0, 16), 0, 1);
  }

  /** Two puts and two removals leave two tombstones on the path of key 0. */
  method TwoTombstones(value: int) returns (m: HashMap<Int32, int>)
    ensures fresh(m) && fresh(m.entries) && m.Valid()
    ensures m.capacity == 16 && m.count == 0 && m.hash == HashInt
    ensures MeetsSecondTombstone(m.entries[..], HashInt, 0)
  {
    m := SecondPut(value);
    ghost var s := m.entries[..];
    var _ := m.Remove(16, 0);
    ghost var t := m.entries[..];
    var _ := m.Remove(32, 0);
    TwoBuried(s, t, m.entries[..]);
  }

  /** The early end is real for a map of integer keys: a put of the key the placeholder reads as. */
  method NullCopyHappens(value: int) returns (r: PutResult)
    ensures r == NullCopy
  {
    var m := TwoTombstones(value);
    r := m.Put(0, value, 0);
  }
}
