/** The ring buffer of src/core/ring_buffer.c: `capacity` items of `itemSize` bytes in one block. */
module RingBuffers {
  import opened Prelude
  import opened RingModel

  /** Item `i` of a block of items. */
  function Chunk(block: seq<Byte>, size: nat, i: nat): (r: seq<Byte>)
    requires (i + 1) * size <= |block|
    ensures |r| == size
  {
    assert i * size + size == (i + 1) * size;
    block[i * size..i * size + size]
  }

  lemma ChunkFits(i: nat, n: nat, size: nat)
    requires i < n
    ensures (i + 1) * size <= n * size && i * size + size == (i + 1) * size
  {
  }

  /** Distinct items occupy disjoint byte ranges of the block. */
  lemma ChunksDisjoint(i: nat, j: nat, n: nat, size: nat)
    requires i < j < n
    ensures i * size + size <= j * size && j * size + size <= n * size
  {
    ChunkFits(i, j, size);
    ChunkFits(j, n, size);
  }

  /** Different offsets that can be peeked name disjoint byte ranges inside the block. */
  lemma PeekedRangesDisjoint<T>(r: Ring<T>, j: nat, k: nat, size: nat)
    requires RingValid(r) && j != k && Peek(r, j).Some? && Peek(r, k).Some?
    ensures var a, b := Peek(r, j).value * size, Peek(r, k).value * size;
      && (a + size <= b || b + size <= a)
      && a + size <= r.capacity * size && b + size <= r.capacity * size
  {
    PeekDistinct(r, j, k);
    var x, y := Peek(r, j).value, Peek(r, k).value;
    if x < y {
      ChunksDisjoint(x, y, r.capacity, size);
    } else {
      ChunksDisjoint(y, x, r.capacity, size);
    }
    ChunkFits(x, r.capacity, size);
    ChunkFits(y, r.capacity, size);
  }

  function Chunks(block: seq<Byte>, size: nat, n: nat): (r: seq<seq<Byte>>)
    requires |block| == n * size
    ensures |r| == n
  {
    seq(n, i requires 0 <= i < n => ChunkFits(i, n, size); Chunk(block, size, i))
  }

  lemma SlotUnchanged<T>(r: Ring<T>, i: nat, item: T)
    requires i < |r.slots| && r.slots[i] == item
    ensures r.slots[i := item] == r.slots
  {
  }

  lemma ChunkAt(block: seq<Byte>, size: nat, n: nat, i: nat, at: nat)
    requires |block| == n * size && i < n && at == i * size
    ensures at + size <= |block| && Chunks(block, size, n)[i] == block[at..at + size]
  {
    ChunkFits(i, n, size);
  }

  /** The block with `item` copied to offset `at`. */
  function Patched(block: seq<Byte>, at: nat, item: seq<Byte>): (r: seq<Byte>)
    requires at + |item| <= |block|
    ensures |r| == |block|
  {
    block[..at] + item + block[at + |item|..]
  }

  lemma BytesBefore(block: seq<Byte>, at: nat, item: seq<Byte>, from: nat, to: nat)
    requires from <= to <= at && at + |item| <= |block|
    ensures Patched(block, at, item)[from..to] == block[from..to]
  {
  }

  lemma BytesThere(block: seq<Byte>, at: nat, item: seq<Byte>)
    requires at + |item| <= |block|
    ensures Patched(block, at, item)[at..at + |item|] == item
  {
  }

  lemma BytesAfter(block: seq<Byte>, at: nat, item: seq<Byte>, from: nat, to: nat)
    requires at + |item| <= from <= to <= |block|
    ensures Patched(block, at, item)[from..to] == block[from..to]
  {
  }

  lemma ChunkAfterStore(block: seq<Byte>, size: nat, n: nat, i: nat, at: nat, item: seq<Byte>, j: nat)
    requires |block| == n * size && i < n && j < n && |item| == size
    requires at == i * size && at + size <= |block|
    ensures Chunks(Patched(block, at, item), size, n)[j] == if j == i then item else Chunks(block, size, n)[j]
  {
    var from := SamePlace(block, Patched(block, at, item), size, n, i, at, j);
    PatchedPart(block, at, item, from, size, j == i);
  }

  /** Where item `j` is in either of two blocks, and that this is apart from any other item. */
  lemma SamePlace(a: seq<Byte>, b: seq<Byte>, size: nat, n: nat, i: nat, at: nat, j: nat) returns (from: nat)
    requires |a| == |b| == n * size && i < n && j < n && at == i * size
    ensures from + size <= |a|
    ensures Chunks(a, size, n)[j] == a[from..from + size] && Chunks(b, size, n)[j] == b[from..from + size]
    ensures if j == i then from == at else from + size <= at || at + size <= from
  {
    from := j * size;
    ChunkAt(a, size, n, j, from);
    ChunkAt(b, size, n, j, from);
    Apart(i, j, size);
  }

  lemma Apart(i: nat, j: nat, size: nat)
    ensures j < i ==> j * size + size <= i * size
    ensures i < j ==> i * size + size <= j * size
  {
    if j < i {
      ChunkFits(j, i, size);
    } else if i < j {
      ChunkFits(i, j, size);
    }
  }

  /** A part of the block that is what was overwritten, or apart from it. */
  lemma PatchedPart(block: seq<Byte>, at: nat, item: seq<Byte>, from: nat, size: nat, same: bool)
    requires at + |item| <= |block| && from + size <= |block| && size == |item|
    requires if same then from == at else from + size <= at || at + size <= from
    ensures Patched(block, at, item)[from..from + size] == if same then item else block[from..from + size]
  {
    if same {
      BytesThere(block, at, item);
    } else if from + size <= at {
      BytesBefore(block, at, item, from, from + size);
    } else {
      BytesAfter(block, at, item, from, from + size);
    }
  }

  /** Overwriting the bytes of one item changes that item and no other. */
  lemma ChunksAfterStore(block: seq<Byte>, size: nat, n: nat, i: nat, at: nat, item: seq<Byte>)
    requires |block| == n * size && i < n && |item| == size
    requires at == i * size && at + size <= |block|
    ensures Chunks(Patched(block, at, item), size, n) == Chunks(block, size, n)[i := item]
  {
    forall j | 0 <= j < n
      ensures Chunks(Patched(block, at, item), size, n)[j] == Chunks(block, size, n)[i := item][j]
    {
      ChunkAfterStore(block, size, n, i, at, item, j);
    }
  }

  class RingBuffer {
    const capacity: nat
    const itemSize: nat
    const buffer: array<Byte>
    var count: nat
    var head: nat
    /** The final contents of every slot handed out so far, in order. */
    ghost var history: seq<seq<Byte>>

    ghost function View(): Ring<seq<Byte>>
      reads this, buffer
      requires buffer.Length == capacity * itemSize
    {
      Ring(capacity, count, head, Chunks(buffer[..], itemSize, capacity))
    }

    ghost predicate Valid()
      reads this, buffer
    {
      buffer.Length == capacity * itemSize && Remembers(View(), history)
    }

    constructor (capacity: nat, itemSize: nat)
      requires capacity > 0
      ensures Valid() && fresh(buffer) && history == []
      ensures this.capacity == capacity && this.itemSize == itemSize
    {
      this.capacity := capacity;
      this.itemSize := itemSize;
      buffer := new Byte[capacity * itemSize](_ => 0);
      count := 0;
      head := 0;
      history := [];
    }

    /** Hands out the byte offset of the next slot, whose old contents are still in it. */
    method Advance() returns (offset: nat)
      requires Valid()
      modifies this`count, this`head, this`history
      ensures Valid()
      ensures offset + itemSize <= buffer.Length && offset == head * itemSize
      ensures history == old(history) + [buffer[offset..offset + itemSize]]
    {
      MoveHead();
      offset := SlotOffset(head);
      history := history + [buffer[offset..offset + itemSize]];
    }

    /** The index arithmetic of advance. */
    method MoveHead()
      requires Valid()
      modifies this`count, this`head
      ensures buffer.Length == capacity * itemSize && View() == RingModel.Advance(old(View()))
      ensures Remembers(View(), history + [View().slots[head]])
    {
      ghost var before := View();
      if count > 0 {
        head := (head + 1) % capacity;
      }
      if count < capacity {
        count := count + 1;
      }
      ghost var stale := View().slots[head];
      PushRemembers(before, history, stale);
      SlotUnchanged(View(), head, stale);
      assert RingModel.Write(View(), stale) == View();
    }

    method SlotOffset(i: nat) returns (offset: nat)
      requires i < capacity && buffer.Length == capacity * itemSize
      ensures offset + itemSize <= buffer.Length && offset == i * itemSize
      ensures View().slots[i] == buffer[offset..offset + itemSize]
    {
      ghost var block := buffer[..];
      offset := i * itemSize;
      ChunkAt(block, itemSize, capacity, i, offset);
      assert buffer[offset..offset + itemSize] == block[offset..offset + itemSize];
    }

    /** The write that the caller of `Advance` makes into the newest slot. */
    method Store(item: seq<Byte>)
      requires Valid() && history != [] && |item| == itemSize
      modifies buffer, this`history
      ensures Valid() && history == old(history)[|old(history)| - 1 := item]
    {
      ghost var before, block := View(), buffer[..];
      var at := SlotOffset(head);
      CopyAt(at, item);
      ChunksAfterStore(block, itemSize, capacity, head, at, item);
      RewriteRemembers(before, history, item);
      history := history[|history| - 1 := item];
    }

    method CopyAt(at: nat, item: seq<Byte>)
      requires at + |item| <= buffer.Length
      modifies buffer
      ensures buffer[..] == Patched(old(buffer[..]), at, item)
    {
      forall k | 0 <= k < |item| {
        buffer[at + k] := item[k];
      }
    }

    /** The byte offset of the item that is `offset` items back, if it is still there. */
    method Peek(offset: nat) returns (r: Option<nat>)
      requires Valid()
      ensures r.Some? <==> offset < |history| && offset < capacity
      ensures r.Some? ==> r.value + itemSize <= buffer.Length
                          && buffer[r.value..r.value + itemSize] == history[|history| - 1 - offset]
    {
      PeekRemembers(View(), history, offset);
      if offset >= count {
        return None;
      }
      var idx := (head + capacity - offset) % capacity;
      var at := SlotOffset(idx);
      return Some(at);
    }
  }
}
