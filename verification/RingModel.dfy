/** The ring buffer of src/core/ring_buffer.c as a value, and the history it remembers. */
module RingModel {
  import opened Prelude
  import opened Remainders

  datatype Ring<T> = Ring(capacity: nat, count: nat, head: nat, slots: seq<T>)

  predicate RingValid<T>(r: Ring<T>) {
    0 < r.capacity == |r.slots| && r.head < r.capacity && r.count <= r.capacity
  }

  function Advance<T>(r: Ring<T>): (s: Ring<T>)
    requires RingValid(r)
    ensures RingValid(s)
  {
    Ring(r.capacity,
         if r.count < r.capacity then r.count + 1 else r.count,
         if r.count > 0 then (r.head + 1) % r.capacity else r.head,
         r.slots)
  }

  /** The slot that is `offset` items back from the newest one. */
  function Peek<T>(r: Ring<T>, offset: nat): (i: Option<nat>)
    requires RingValid(r)
    ensures i.Some? ==> i.value < r.capacity
  {
    if offset >= r.count then None else Some((r.head + r.capacity - offset) % r.capacity)
  }

  /** What the caller of advance then writes through the pointer it got. */
  function Write<T>(r: Ring<T>, item: T): (s: Ring<T>)
    requires RingValid(r)
    ensures RingValid(s)
  {
    r.(slots := r.slots[r.head := item])
  }

  /** The ring remembers the last min(|history|, capacity) items of `history`, newest at the head. */
  ghost predicate Remembers<T>(r: Ring<T>, history: seq<T>) {
    && RingValid(r)
    && r.count == (if |history| < r.capacity then |history| else r.capacity)
    && r.head == (if history == [] then 0 else SlotOf(|history| - 1, r.capacity))
    && forall n :: |history| - r.count <= n < |history| ==> r.slots[SlotOf(n, r.capacity)] == history[n]
  }

  /** Advancing and then writing appends to the history; what was in the slot is forgotten. */
  lemma PushRemembers<T>(r: Ring<T>, history: seq<T>, item: T)
    requires Remembers(r, history)
    ensures Remembers(Write(Advance(r), item), history + [item])
  {
    var s, later := Write(Advance(r), item), history + [item];
    if history == [] {
      RemainderUnique(0, r.capacity, 0, 0);
    } else {
      AddRemainder(|history| - 1, 1, r.capacity);
    }
    assert s.head == SlotOf(|history|, r.capacity);
    forall n | |later| - s.count <= n < |later|
      ensures s.slots[SlotOf(n, s.capacity)] == later[n]
    {
      if n < |history| && SlotOf(n, r.capacity) == s.head {
        WindowInjective(|history|, n, r.capacity);
      }
    }
  }

  /** Rewriting the newest item replaces the end of the history. */
  lemma RewriteRemembers<T>(r: Ring<T>, history: seq<T>, item: T)
    requires Remembers(r, history) && history != []
    ensures Remembers(Write(r, item), history[|history| - 1 := item])
  {
    var s, later := Write(r, item), history[|history| - 1 := item];
    forall n | |later| - s.count <= n < |later|
      ensures s.slots[SlotOf(n, s.capacity)] == later[n]
    {
      if n < |history| - 1 && SlotOf(n, r.capacity) == s.head {
        WindowInjective(|history| - 1, n, r.capacity);
      }
    }
  }

  /** peek(k) finds the k-th most recent item exactly when it is still remembered. */
  lemma PeekRemembers<T>(r: Ring<T>, history: seq<T>, k: nat)
    requires Remembers(r, history)
    ensures Peek(r, k).Some? <==> k < |history| && k < r.capacity
    ensures Peek(r, k).Some? ==> r.slots[Peek(r, k).value] == history[|history| - 1 - k]
  {
    if k < r.count {
      AddRemainder(|history| - 1, r.capacity - k, r.capacity);
      var n := |history| - 1 - k;
      MultipleIsZero(n + r.capacity - n, r.capacity, 1);
      SameRemainder(n + r.capacity, n, r.capacity);
      assert Peek(r, k).value == SlotOf(n, r.capacity);
    }
  }

  /** Different offsets that can be peeked are different slots. */
  lemma PeekDistinct<T>(r: Ring<T>, j: nat, k: nat)
    requires RingValid(r) && j != k && Peek(r, j).Some? && Peek(r, k).Some?
    ensures Peek(r, j) != Peek(r, k)
  {
    if Peek(r, j) == Peek(r, k) {
      WindowInjective(r.head + r.capacity - j, r.head + r.capacity - k, r.capacity);
    }
  }

  lemma NothingRemembered<T>(r: Ring<T>)
    requires RingValid(r) && r.count == 0 && r.head == 0
    ensures Remembers(r, [])
  {
  }
}
