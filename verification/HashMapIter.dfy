/** The iterator of src/core/hash_map.c. */
module HashMapIters {
  import opened Prelude
  import opened HashMaps
  import opened SlotTable

  /** The live entries from slot `i` on, in slot order. */
  ghost function Remaining<K, V>(s: Table<K, V>, i: nat): (r: seq<(K, V)>)
    decreases |s| - i
  {
    if i >= |s| then
      []
    else if s[i].Live? then
      [(s[i].key, s[i].value)] + Remaining(s, i + 1)
    else
      Remaining(s, i + 1)
  }

  class HashMapIter<K(==), V> {
    const hashMap: HashMap<K, V>
    var index: nat

    constructor (hashMap: HashMap<K, V>)
      ensures this.hashMap == hashMap && index == 0
    {
      this.hashMap := hashMap;
      index := 0;
    }

    /** `None` is the -1 of a finished iterator. */
    method Next() returns (r: Option<(K, V)>)
      requires hashMap.Valid()
      modifies this`index
      ensures var before, after := Remaining(hashMap.entries[..], old(index)), Remaining(hashMap.entries[..], index);
        if before == [] then r == None && after == [] else r == Some(before[0]) && after == before[1..]
      ensures old(index) <= index
    {
      ghost var s := hashMap.entries[..];
      while index < hashMap.capacity
        invariant old(index) <= index
        invariant Remaining(s, index) == Remaining(s, old(index))
        decreases hashMap.capacity - index
      {
        var i := index;
        index := index + 1;
        if hashMap.entries[i].Live? {
          return Some((hashMap.entries[i].key, hashMap.entries[i].value));
        }
      }
      return None;
    }
  }

  /** `pairs` lists the entries of `m`, each exactly once. */
  ghost predicate Lists<K, V>(pairs: seq<(K, V)>, m: map<K, V>) {
    && |pairs| == |m|
    && (forall i, j :: 0 <= i < j < |pairs| ==> pairs[i].0 != pairs[j].0)
    && (forall i :: 0 <= i < |pairs| ==> pairs[i].0 in m && m[pairs[i].0] == pairs[i].1)
    && (forall k :: k in m ==> exists i :: 0 <= i < |pairs| && pairs[i].0 == k)
  }

  /** Entry `pair` is that of a live slot from `i` on. */
  ghost predicate From<K, V>(s: Table<K, V>, i: nat, j: nat, pair: (K, V)) {
    i <= j < |s| && s[j].Live? && pair == (s[j].key, s[j].value)
  }

  lemma {:induction false} RemainingSound<K, V>(s: Table<K, V>, i: nat, a: nat) returns (j: nat)
    requires a < |Remaining(s, i)|
    ensures From(s, i, j, Remaining(s, i)[a])
    decreases |s| - i
  {
    if s[i].Live? && a == 0 {
      j := i;
    } else {
      j := RemainingSound(s, i + 1, if s[i].Live? then a - 1 else a);
    }
  }

  lemma {:induction false} RemainingComplete<K, V>(s: Table<K, V>, i: nat, j: nat) returns (a: nat)
    requires i <= j < |s| && s[j].Live?
    ensures a < |Remaining(s, i)| && Remaining(s, i)[a] == (s[j].key, s[j].value)
    decreases |s| - i
  {
    if i == j {
      a := 0;
    } else {
      a := RemainingComplete(s, i + 1, j);
      a := if s[i].Live? then a + 1 else a;
    }
  }

  lemma {:induction false} RemainingDistinct<K, V>(s: Table<K, V>, i: nat, a: nat, b: nat)
    requires DistinctKeys(s)
    requires a < b < |Remaining(s, i)|
    ensures Remaining(s, i)[a].0 != Remaining(s, i)[b].0
    decreases |s| - i
  {
    if s[i].Live? {
      if a == 0 {
        var j := RemainingSound(s, i + 1, b - 1);
      } else {
        RemainingDistinct(s, i + 1, a - 1, b - 1);
      }
    } else {
      RemainingDistinct(s, i + 1, a, b);
    }
  }

  /** The live slots from `i` on. */
  ghost function LiveFrom<K, V>(s: Table<K, V>, i: nat): set<nat> {
    set j | j in LiveSlots(s) && i <= j
  }

  lemma {:induction false} RemainingSize<K, V>(s: Table<K, V>, i: nat)
    ensures |Remaining(s, i)| == |LiveFrom(s, i)|
    decreases |s| - i
  {
    if i < |s| {
      RemainingSize(s, i + 1);
      assert LiveFrom(s, i) == LiveFrom(s, i + 1) + if s[i].Live? then {i} else {};
    }
  }

  /** What a fresh iterator hands out over an unmodified map, one head at a time, is exactly
      the map's entries, each once. */
  lemma FreshIteratorLists<K, V>(s: Table<K, V>, hash: K -> nat)
    requires WellFormed(s, hash)
    ensures Lists(Remaining(s, 0), Abs(s))
  {
    var r := Remaining(s, 0);
    RemainingSize(s, 0);
    assert LiveFrom(s, 0) == LiveSlots(s);
    forall a | 0 <= a < |r|
      ensures r[a].0 in Abs(s) && Abs(s)[r[a].0] == r[a].1
    {
      var j := RemainingSound(s, 0, a);
    }
    forall a, b | 0 <= a < b < |r|
      ensures r[a].0 != r[b].0
    {
      RemainingDistinct(s, 0, a, b);
    }
    forall k | k in Abs(s)
      ensures exists a :: 0 <= a < |r| && r[a].0 == k
    {
      var j :| Holds(s, j, k);
      var a := RemainingComplete(s, 0, j);
    }
  }

  /** The pairs that next still hands out. */
  ghost function Left<K, V>(iter: HashMapIter<K, V>): seq<(K, V)>
    reads iter, iter.hashMap, iter.hashMap.entries
  {
    Remaining(iter.hashMap.entries[..], iter.index)
  }

  lemma HandOut<T>(pairs: seq<T>, rest: seq<T>)
    requires rest != []
    ensures pairs + [rest[0]] + rest[1..] == pairs + rest
  {
  }

  /** Calls next until it returns -1. */
  method DrainRest<K(==), V>(iter: HashMapIter<K, V>) returns (pairs: seq<(K, V)>)
    requires iter.hashMap.Valid()
    modifies iter`index
    ensures pairs == old(Left(iter)) && Left(iter) == []
  {
    pairs := [];
    ghost var rest := Left(iter);
    var next := iter.Next();
    while next.Some?
      invariant if next == None then rest == [] == Left(iter)
                else rest != [] && next.value == rest[0] && Left(iter) == rest[1..]
      invariant pairs + rest == old(Left(iter))
      decreases |rest|
    {
      HandOut(pairs, rest);
      pairs := pairs + [next.value];
      rest := rest[1..];
      next := iter.Next();
    }
  }

  /** A finished iterator stays finished. */
  method CallAgain<K(==), V>(iter: HashMapIter<K, V>, calls: nat) returns (results: seq<Option<(K, V)>>)
    requires iter.hashMap.Valid() && Left(iter) == []
    modifies iter`index
    ensures |results| == calls && forall i :: 0 <= i < calls ==> results[i] == None
  {
    results := [];
    while |results| < calls
      invariant Left(iter) == []
      invariant |results| <= calls && forall i :: 0 <= i < |results| ==> results[i] == None
    {
      var next := iter.Next();
      results := results + [next];
    }
  }

  /** Draining a fresh iterator over an unmodified map gives every live entry exactly once, as many
      as the map has; every call of next after that returns -1. */
  method Drain<K(==), V>(m: HashMap<K, V>, moreCalls: nat)
    returns (pairs: seq<(K, V)>, later: seq<Option<(K, V)>>)
    requires m.Valid()
    ensures Lists(pairs, m.Contents()) && |pairs| == m.count
    ensures |later| == moreCalls && forall i :: 0 <= i < moreCalls ==> later[i] == None
  {
    FreshIteratorLists(m.entries[..], m.hash);
    var iter := new HashMapIter<K, V>(m);
    pairs := DrainRest(iter);
    later := CallAgain(iter, moreCalls);
  }
}
