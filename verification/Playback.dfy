/** The playback of src/sound.c: a decoder that refills a byte ring and an audio callback that
    drains it, with 32-bit wrapping indices and an eventfd between them. Every byte copied and
    every shared variable read or written is a step of its own. */
module Playback {
  import opened Prelude
  import opened Remainders

  const BUFFER_SIZE: nat := 0x2_0000
  const INDEX_MODULUS: nat := 0x1_0000_0000
  /** The size of local_buffer in bytes. */
  const LOCAL_BYTES: nat := 8192

  /** on_playback_process: the bucket being filled, then the signal owed, then the bucket shipped. */
  datatype Consumer =
    | Resting
    | Copying(index: nat, toCopy: nat, bucket: seq<Byte>)
    | OwesSignal(bucket: seq<Byte>)
    | Shipping(bucket: seq<Byte>)

  /** refill_ringbuffer. `seen` is how many bytes the audio side had taken when the indices were read. */
  datatype Refill =
    | NoRefill
    | Started
    | Loaded(index: nat, room: nat, seen: nat)
    | Writing(index: nat, data: seq<Byte>, copied: nat, seen: nat)
    | Checking(seen: nat)
    | ReadLoaded(readIndex: nat, seen: nat, seenAgain: nat)

  datatype State = State(
    /** Everything the decoder will ever return, the bytes of one frame, and whether the decoder may
        return less than it is asked for before the end, as it could for a damaged file. */
    file: seq<Byte>,
    stride: nat,
    shortReads: bool,
    /** Shared between the two sides. */
    buffer: seq<Byte>,
    readIndex: nat,
    writeIndex: nat,
    eventfd: nat,
    consumer: Consumer,
    /** The refill under way, and whether the loop thread has read the eventfd and waits for its turn. */
    refill: Refill,
    waiting: bool,
    position: nat,
    eof: bool,
    running: bool,
    finished: nat,
    /** All bytes taken out of the ring, all bytes shipped, and how many were ever put in. */
    taken: seq<Byte>,
    shipped: seq<Byte>,
    written: nat)

  datatype Step =
    | Dequeue(required: nat) | CopyByte | UpdateRead | Signal | Ship
    | ReadEvent | BeginRefill | LoadIndices | Decode(frames: nat) | NoRoom | WriteByte | UpdateWrite | LoadRead
    | CheckEnd

  /** The distance between two indices as spa_ringbuffer computes it: a wrapped difference read as int32. */
  function SignedDelta(write: nat, read: nat): int {
    var d := (write - read) % INDEX_MODULUS;
    if d >= INDEX_MODULUS / 2 then d - INDEX_MODULUS else d
  }

  function Min(a: int, b: int): int {
    if a < b then a else b
  }

  /** How many frames a refill asks the decoder for. */
  function FramesToRead(room: nat, stride: nat): nat
    requires stride > 0
  {
    Min(room / stride, LOCAL_BYTES / stride)
  }

  // ----- the steps

  function ConsumerNext(s: State, step: Step): Option<State>
    requires |s.buffer| == BUFFER_SIZE
  {
    match (s.consumer, step)
    case (Resting, Dequeue(required)) =>
      var toCopy := Min(SignedDelta(s.writeIndex, s.readIndex) % INDEX_MODULUS, required);
      if toCopy > 0 then Some(s.(consumer := Copying(s.readIndex, toCopy, []))) else Some(s)
    case (Copying(index, toCopy, bucket), CopyByte) =>
      if |bucket| >= toCopy then None else
      Some(s.(consumer := Copying(index, toCopy, bucket + [s.buffer[(index % BUFFER_SIZE + |bucket|) % BUFFER_SIZE]])))
    case (Copying(index, toCopy, bucket), UpdateRead) =>
      if |bucket| < toCopy then None else
      Some(s.(consumer := OwesSignal(bucket), readIndex := (index + toCopy) % INDEX_MODULUS, taken := s.taken + bucket))
    case (OwesSignal(bucket), Signal) =>
      Some(s.(consumer := Shipping(bucket), eventfd := s.eventfd + 1))
    case (Shipping(bucket), Ship) =>
      Some(s.(consumer := Resting, shipped := s.shipped + bucket))
    case _ => None
  }

  function RefillNext(s: State, step: Step): Option<State>
    requires |s.buffer| == BUFFER_SIZE && s.stride > 0
  {
    match (s.refill, step)
    case (_, ReadEvent) =>
      if s.eventfd == 0 || s.waiting then None else Some(s.(eventfd := 0, waiting := true))
    case (NoRefill, BeginRefill) =>
      if !s.waiting then None else Some(s.(waiting := false, refill := Started))
    case (Started, LoadIndices) =>
      var room := (BUFFER_SIZE - SignedDelta(s.writeIndex, s.readIndex)) % INDEX_MODULUS;
      Some(s.(refill := Loaded(s.writeIndex, room, |s.taken|)))
    case (Loaded(index, room, seen), NoRoom) =>
      if FramesToRead(room, s.stride) > 0 then None else Some(s.(refill := Checking(seen)))
    case (Loaded(index, room, seen), Decode(frames)) =>
      // The decoder returns what it is asked for, less only at the end, and nothing only when all is read.
      var asked, bytes := FramesToRead(room, s.stride), frames * s.stride;
      if frames > asked || asked == 0 || s.position + bytes > |s.file| then None
      else if !s.shortReads && frames < asked && s.position + bytes < |s.file| then None
      else if frames == 0 then
        if s.position < |s.file| then None else Some(s.(eof := true, refill := Checking(seen)))
      else
        var data := s.file[s.position..s.position + bytes];
        Some(s.(position := s.position + bytes, refill := Writing(index, data, 0, seen)))
    case (Writing(index, data, copied, seen), WriteByte) =>
      if copied >= |data| then None else
      Some(s.(buffer := s.buffer[(index % BUFFER_SIZE + copied) % BUFFER_SIZE := data[copied]],
              refill := Writing(index, data, copied + 1, seen)))
    case (Writing(index, data, copied, seen), UpdateWrite) =>
      if copied < |data| then None else
      Some(s.(writeIndex := (index + |data|) % INDEX_MODULUS, written := s.written + |data|, refill := Checking(seen)))
    case (Checking(seen), LoadRead) =>
      Some(s.(refill := ReadLoaded(s.readIndex, seen, |s.taken|)))
    case (ReadLoaded(readIndex, _, _), CheckEnd) =>
      if s.eof && readIndex >= s.writeIndex then
        Some(s.(refill := NoRefill, running := false, finished := s.finished + 1))
      else
        Some(s.(refill := NoRefill))
    case _ => None
  }

  predicate ConsumerStep(step: Step) {
    step.Dequeue? || step.CopyByte? || step.UpdateRead? || step.Signal? || step.Ship?
  }

  function Next(s: State, step: Step): Option<State>
    requires |s.buffer| == BUFFER_SIZE && s.stride > 0
  {
    if ConsumerStep(step) then ConsumerNext(s, step) else RefillNext(s, step)
  }

  /** ctm_sound_play_async has connected the stream and makes the first refill itself. A frame is
      a 16-bit sample per channel, and the decoder returns whole frames. */
  ghost predicate Init(s: State) {
    && |s.buffer| == BUFFER_SIZE && 0 < s.stride <= LOCAL_BYTES && s.stride % 2 == 0 && |s.file| % s.stride == 0
    && s.readIndex == s.writeIndex == s.eventfd == s.position == s.finished == s.written == 0
    && s.consumer == Resting && s.refill == Started && !s.waiting && !s.eof && s.running
    && s.taken == s.shipped == []
  }

  // ----- first in, first out

  /** The slots of bytes `from` up to `to` hold those bytes of the file. */
  ghost predicate RangeHolds(buffer: seq<Byte>, file: seq<Byte>, from: nat, to: nat)
    requires |buffer| == BUFFER_SIZE && to <= |file|
  {
    forall j :: from <= j < to ==> buffer[SlotOf(j, BUFFER_SIZE)] == file[j]
  }

  /** The indices are the true counts, wrapped, and the ring holds the bytes between them. */
  ghost predicate RingHolds(s: State) {
    && |s.buffer| == BUFFER_SIZE && 0 < s.stride <= LOCAL_BYTES
    && |s.taken| <= s.written <= s.position <= |s.file| && s.written - |s.taken| <= BUFFER_SIZE
    && s.readIndex == |s.taken| % INDEX_MODULUS && s.writeIndex == s.written % INDEX_MODULUS
    && s.taken == s.file[..|s.taken|]
    && RangeHolds(s.buffer, s.file, |s.taken|, s.written)
  }

  /** The bucket in the hands of the audio side. */
  function InHand(c: Consumer): seq<Byte> {
    if c.OwesSignal? || c.Shipping? then c.bucket else []
  }

  ghost predicate ConsumerOk(s: State)
    requires RingHolds(s)
  {
    && s.shipped + InHand(s.consumer) == s.taken
    && match s.consumer
       case Copying(index, toCopy, bucket) =>
         && index == s.readIndex && 0 < toCopy && |s.taken| + toCopy <= s.written && |bucket| <= toCopy
         && |s.taken| + |bucket| <= |s.file| && bucket == s.file[|s.taken|..|s.taken| + |bucket|]
       case _ => true
  }

  ghost predicate RefillOk(s: State)
    requires RingHolds(s)
  {
    && (s.eof ==> s.position == |s.file|)
    && (!s.refill.Writing? ==> s.position == s.written)
    && match s.refill
       case Loaded(index, room, seen) =>
         && index == s.writeIndex && seen <= |s.taken|
         && s.written - seen <= BUFFER_SIZE && room == BUFFER_SIZE - (s.written - seen)
       case Writing(index, data, copied, seen) =>
         && index == s.writeIndex && seen <= |s.taken| && data != []
         && s.position == s.written + |data| && data == s.file[s.written..s.position]
         && s.position - seen <= BUFFER_SIZE && copied <= |data|
         && RangeHolds(s.buffer, s.file, |s.taken|, s.written + copied)
       case _ => true
  }

  ghost predicate Fifo(s: State) {
    RingHolds(s) && ConsumerOk(s) && RefillOk(s)
  }

  lemma DeltaIsOccupancy(written: nat, taken: nat)
    requires taken <= written && written - taken <= BUFFER_SIZE
    ensures SignedDelta(written % INDEX_MODULUS, taken % INDEX_MODULUS) == written - taken
  {
    if taken < written {
      DeltaRemainder(taken, written, INDEX_MODULUS);
    }
  }

  /** The wrapped index still names the right slot, because the ring size divides the modulus. */
  lemma WrappedSlot(n: nat, k: nat)
    ensures ((n % INDEX_MODULUS) % BUFFER_SIZE + k) % BUFFER_SIZE == SlotOf(n + k, BUFFER_SIZE)
  {
    NestedRemainder(n, INDEX_MODULUS, BUFFER_SIZE);
    AddRemainder(n, k, BUFFER_SIZE);
  }

  lemma SlotsDiffer(i: nat, j: nat)
    requires i < j < i + BUFFER_SIZE
    ensures SlotOf(i, BUFFER_SIZE) != SlotOf(j, BUFFER_SIZE)
  {
    if SlotOf(i, BUFFER_SIZE) == SlotOf(j, BUFFER_SIZE) {
      WindowInjective(i, j, BUFFER_SIZE);
    }
  }

  /** A refill asks for as many frames as fit both the ring and the local buffer, and no more. */
  lemma FramesExact(n: nat, room: nat, stride: nat)
    requires stride > 0
    ensures n <= FramesToRead(room, stride) <==> n * stride <= room && n * stride <= 8192
  {
    QuotientAtMost(n, room, stride);
    QuotientAtMost(n, LOCAL_BYTES, stride);
  }

  lemma InitFifo(s: State)
    requires Init(s)
    ensures Fifo(s)
  {
    assert s.file[..0] == [];
  }

  lemma DequeueKeeps(s: State, required: nat)
    requires Fifo(s) && ConsumerNext(s, Dequeue(required)).Some?
    ensures Fifo(ConsumerNext(s, Dequeue(required)).value)
  {
    DeltaIsOccupancy(s.written, |s.taken|);
    assert s.file[|s.taken|..|s.taken|] == [];
  }

  /** The byte copied next is the next one of the file. */
  lemma BucketGrows(buffer: seq<Byte>, file: seq<Byte>, taken: nat, written: nat, n: nat)
    requires |buffer| == BUFFER_SIZE && taken + n < written <= |file|
    requires RangeHolds(buffer, file, taken, written)
    ensures var byte := buffer[((taken % INDEX_MODULUS) % BUFFER_SIZE + n) % BUFFER_SIZE];
      file[taken..taken + n] + [byte] == file[taken..taken + n + 1]
  {
    WrappedSlot(taken, n);
    assert buffer[SlotOf(taken + n, BUFFER_SIZE)] == file[taken + n];
  }

  lemma CopyByteKeeps(s: State)
    requires Fifo(s) && ConsumerNext(s, CopyByte).Some?
    ensures Fifo(ConsumerNext(s, CopyByte).value)
  {
    BucketGrows(s.buffer, s.file, |s.taken|, s.written, |s.consumer.bucket|);
  }

  lemma UpdateReadKeeps(s: State)
    requires Fifo(s) && ConsumerNext(s, UpdateRead).Some?
    ensures Fifo(ConsumerNext(s, UpdateRead).value)
  {
    var r, n := |s.taken|, s.consumer.toCopy;
    AddRemainder(r, n, INDEX_MODULUS);
    assert s.file[..r] + s.file[r..r + n] == s.file[..r + n];
    assert s.shipped + [] == s.shipped;
  }

  lemma LoadIndicesKeeps(s: State)
    requires Fifo(s) && RefillNext(s, LoadIndices).Some?
    ensures Fifo(RefillNext(s, LoadIndices).value)
  {
    DeltaIsOccupancy(s.written, |s.taken|);
  }

  lemma DecodeKeeps(s: State, frames: nat)
    requires Fifo(s) && RefillNext(s, Decode(frames)).Some?
    ensures Fifo(RefillNext(s, Decode(frames)).value)
  {
    FramesExact(frames, s.refill.room, s.stride);
    if frames > 0 {
      assert frames * s.stride > 0;
    }
  }

  /** Writing the next byte overwrites none of the bytes before it that are still unread. */
  lemma RangeGrows(buffer: seq<Byte>, file: seq<Byte>, from: nat, to: nat)
    requires |buffer| == BUFFER_SIZE && from <= to < |file| && to - from < BUFFER_SIZE
    requires RangeHolds(buffer, file, from, to)
    ensures RangeHolds(buffer[SlotOf(to, BUFFER_SIZE) := file[to]], file, from, to + 1)
  {
    forall j | from <= j < to
      ensures SlotOf(j, BUFFER_SIZE) != SlotOf(to, BUFFER_SIZE)
    {
      SlotsDiffer(j, to);
    }
  }

  lemma WriteByteKeeps(s: State)
    requires Fifo(s) && RefillNext(s, WriteByte).Some?
    ensures Fifo(RefillNext(s, WriteByte).value)
  {
    var w, copied := s.written, s.refill.copied;
    WrappedSlot(w, copied);
    assert s.refill.data[copied] == s.file[w + copied];
    RangeGrows(s.buffer, s.file, |s.taken|, w + copied);
    var t := RefillNext(s, WriteByte).value;
    assert RangeHolds(t.buffer, t.file, |t.taken|, w + copied + 1);
    assert RingHolds(t);
  }

  lemma UpdateWriteKeeps(s: State)
    requires Fifo(s) && RefillNext(s, UpdateWrite).Some?
    ensures Fifo(RefillNext(s, UpdateWrite).value)
  {
    var data := s.refill.data;
    AddRemainder(s.written, |data|, INDEX_MODULUS);
  }

  lemma ShipKeeps(s: State)
    requires Fifo(s) && ConsumerNext(s, Ship).Some?
    ensures Fifo(ConsumerNext(s, Ship).value)
  {
    assert s.shipped + s.consumer.bucket + [] == s.taken;
  }

  lemma SignalKeeps(s: State)
    requires Fifo(s) && ConsumerNext(s, Signal).Some?
    ensures Fifo(ConsumerNext(s, Signal).value)
  {
  }

  lemma ReadEventKeeps(s: State)
    requires Fifo(s) && RefillNext(s, ReadEvent).Some?
    ensures Fifo(RefillNext(s, ReadEvent).value)
  {
  }

  lemma BeginRefillKeeps(s: State)
    requires Fifo(s) && RefillNext(s, BeginRefill).Some?
    ensures Fifo(RefillNext(s, BeginRefill).value)
  {
  }

  lemma NoRoomKeeps(s: State)
    requires Fifo(s) && RefillNext(s, NoRoom).Some?
    ensures Fifo(RefillNext(s, NoRoom).value)
  {
  }

  lemma LoadReadKeeps(s: State)
    requires Fifo(s) && RefillNext(s, LoadRead).Some?
    ensures Fifo(RefillNext(s, LoadRead).value)
  {
  }

  lemma CheckEndKeeps(s: State)
    requires Fifo(s) && RefillNext(s, CheckEnd).Some?
    ensures Fifo(RefillNext(s, CheckEnd).value)
  {
    RefillOver(s, s.(refill := NoRefill));
    RefillOver(s, s.(refill := NoRefill, running := false, finished := s.finished + 1));
  }

  /** What the end of a refill leaves. */
  lemma RefillOver(s: State, t: State)
    requires Fifo(s) && !s.refill.Writing?
    requires t == s.(refill := NoRefill, running := t.running, finished := t.finished)
    ensures Fifo(t)
  {
  }

  lemma StepFifo(s: State, step: Step)
    requires Fifo(s) && Next(s, step).Some?
    ensures Fifo(Next(s, step).value)
  {
    match step
    case Dequeue(required) => DequeueKeeps(s, required);
    case CopyByte => CopyByteKeeps(s);
    case UpdateRead => UpdateReadKeeps(s);
    case Signal => SignalKeeps(s);
    case Ship => ShipKeeps(s);
    case LoadIndices => LoadIndicesKeeps(s);
    case Decode(frames) => DecodeKeeps(s, frames);
    case WriteByte => WriteByteKeeps(s);
    case UpdateWrite => UpdateWriteKeeps(s);
    case ReadEvent => ReadEventKeeps(s);
    case BeginRefill => BeginRefillKeeps(s);
    case NoRoom => NoRoomKeeps(s);
    case LoadRead => LoadReadKeeps(s);
    case CheckEnd => CheckEndKeeps(s);
  }

  // ----- no lost wake-up

  /** Another refill is certain: a signal is pending, or owed, or read by the waiting loop thread. */
  predicate Pending(s: State) {
    s.eventfd > 0 || s.waiting || s.consumer.OwesSignal?
  }

  /** Nothing has been taken since the refill looked, or else a signal is on its way. */
  predicate UpToDate(s: State, seen: nat) {
    seen <= |s.taken| && (seen == |s.taken| || Pending(s))
  }

  /** With `size` bytes written and at most `most` of them unread, the comparison of the raw 32-bit
      indices means what it should. */
  predicate EndComparable(size: nat, most: nat) {
    size < INDEX_MODULUS || size % INDEX_MODULUS >= most
  }

  /** The end of the file is seen by a refill that has room for a frame, so less than a full ring is left. */
  predicate RoomAtEnd(s: State, taken: nat) {
    s.eof ==> |s.file| - taken + s.stride <= BUFFER_SIZE
  }

  ghost predicate Wakes(s: State) {
    && (s.running <==> s.finished == 0)
    && RoomAtEnd(s, |s.taken|)
    && match s.refill
       case NoRefill => s.running ==> |s.taken| < s.written || Pending(s)
       case Started => true
       case Loaded(_, _, seen) => UpToDate(s, seen)
       case Writing(_, _, _, seen) => UpToDate(s, seen)
       case Checking(seen) => UpToDate(s, seen) && (s.eof || seen < s.written)
       case ReadLoaded(readIndex, seen, seenAgain) =>
         && UpToDate(s, seen) && (s.eof || seen < s.written)
         && UpToDate(s, seenAgain) && readIndex == seenAgain % INDEX_MODULUS && RoomAtEnd(s, seenAgain)
  }

  /** The end test on wrapped indices is right for every number of unread bytes up to `most` exactly
      when the number of bytes written is below 2^32 or leaves a remainder of at least `most`. */
  lemma EndTestExact(written: nat, most: nat)
    requires most <= BUFFER_SIZE
    ensures EndComparable(written, most) <==>
            forall taken: nat :: taken <= written <= taken + most ==> EndTestRight(written, taken)
  {
    if EndComparable(written, most) {
      forall taken: nat | taken <= written <= taken + most
        ensures EndTestRight(written, taken)
      {
      }
    } else {
      var taken := written - written % INDEX_MODULUS - 1;
      assert taken % INDEX_MODULUS == INDEX_MODULUS - 1;
      assert !EndTestRight(written, taken);
    }
  }

  predicate EndTestRight(written: nat, taken: nat) {
    taken % INDEX_MODULUS >= written % INDEX_MODULUS <==> taken == written
  }

  lemma InitWakes(s: State)
    requires Init(s)
    ensures Wakes(s)
  {
  }

  lemma DequeueWakes(s: State, required: nat)
    requires Fifo(s) && Wakes(s) && ConsumerNext(s, Dequeue(required)).Some?
    ensures Wakes(ConsumerNext(s, Dequeue(required)).value)
  {
  }

  lemma CopyByteWakes(s: State)
    requires Fifo(s) && Wakes(s) && ConsumerNext(s, CopyByte).Some?
    ensures Wakes(ConsumerNext(s, CopyByte).value)
  {
  }

  lemma UpdateReadWakes(s: State)
    requires Fifo(s) && Wakes(s) && ConsumerNext(s, UpdateRead).Some?
    ensures Wakes(ConsumerNext(s, UpdateRead).value)
  {
  }

  lemma SignalWakes(s: State)
    requires Fifo(s) && Wakes(s) && ConsumerNext(s, Signal).Some?
    ensures Wakes(ConsumerNext(s, Signal).value)
  {
  }

  lemma ShipWakes(s: State)
    requires Fifo(s) && Wakes(s) && ConsumerNext(s, Ship).Some?
    ensures Wakes(ConsumerNext(s, Ship).value)
  {
  }

  lemma ReadEventWakes(s: State)
    requires Fifo(s) && Wakes(s) && RefillNext(s, ReadEvent).Some?
    ensures Wakes(RefillNext(s, ReadEvent).value)
  {
  }

  lemma BeginRefillWakes(s: State)
    requires Fifo(s) && Wakes(s) && RefillNext(s, BeginRefill).Some?
    ensures Wakes(RefillNext(s, BeginRefill).value)
  {
  }

  lemma LoadIndicesWakes(s: State)
    requires Fifo(s) && Wakes(s) && RefillNext(s, LoadIndices).Some?
    ensures Wakes(RefillNext(s, LoadIndices).value)
  {
  }

  lemma NoRoomWakes(s: State)
    requires Fifo(s) && Wakes(s) && RefillNext(s, NoRoom).Some?
    ensures Wakes(RefillNext(s, NoRoom).value)
  {
    RoomForAFrame(s.refill.room, s.stride);
  }

  lemma DecodeWakes(s: State, frames: nat)
    requires Fifo(s) && Wakes(s) && RefillNext(s, Decode(frames)).Some?
    ensures Wakes(RefillNext(s, Decode(frames)).value)
  {
    RoomForAFrame(s.refill.room, s.stride);
  }

  lemma WriteByteWakes(s: State)
    requires Fifo(s) && Wakes(s) && RefillNext(s, WriteByte).Some?
    ensures Wakes(RefillNext(s, WriteByte).value)
  {
  }

  lemma UpdateWriteWakes(s: State)
    requires Fifo(s) && Wakes(s) && RefillNext(s, UpdateWrite).Some?
    ensures Wakes(RefillNext(s, UpdateWrite).value)
  {
  }

  lemma LoadReadWakes(s: State)
    requires Fifo(s) && Wakes(s) && RefillNext(s, LoadRead).Some?
    ensures Wakes(RefillNext(s, LoadRead).value)
  {
  }

  lemma CheckEndWakes(s: State)
    requires Fifo(s) && Wakes(s) && RefillNext(s, CheckEnd).Some?
    ensures Wakes(RefillNext(s, CheckEnd).value)
  {
  }

  lemma StepWakes(s: State, step: Step)
    requires Fifo(s) && Wakes(s) && Next(s, step).Some?
    ensures Wakes(Next(s, step).value)
  {
    match step
    case Dequeue(required) => DequeueWakes(s, required);
    case CopyByte => CopyByteWakes(s);
    case UpdateRead => UpdateReadWakes(s);
    case Signal => SignalWakes(s);
    case Ship => ShipWakes(s);
    case ReadEvent => ReadEventWakes(s);
    case BeginRefill => BeginRefillWakes(s);
    case LoadIndices => LoadIndicesWakes(s);
    case NoRoom => NoRoomWakes(s);
    case Decode(frames) => DecodeWakes(s, frames);
    case WriteByte => WriteByteWakes(s);
    case UpdateWrite => UpdateWriteWakes(s);
    case LoadRead => LoadReadWakes(s);
    case CheckEnd => CheckEndWakes(s);
  }

  lemma QuotientPositive(x: nat, d: nat)
    requires d > 0
    ensures x / d > 0 <==> x >= d
  {
    assert x == d * (x / d) + x % d;
    if x / d > 0 {
      assert d * (x / d) >= d;
    }
  }

  /** A refill that asks for nothing has found more than BUFFER_SIZE less a frame in the ring. */
  lemma RoomForAFrame(room: nat, stride: nat)
    requires 0 < stride <= LOCAL_BYTES
    ensures FramesToRead(room, stride) == 0 <==> room < stride
  {
    QuotientPositive(room, stride);
    QuotientPositive(LOCAL_BYTES, stride);
  }

  /** Why frames must fit local_buffer: with a larger stride no refill ever asks for a frame. */
  lemma FramesFitLocalBuffer(stride: nat)
    requires 0 < stride <= BUFFER_SIZE
    ensures FramesToRead(BUFFER_SIZE, stride) > 0 <==> stride <= LOCAL_BYTES
    ensures stride > LOCAL_BYTES ==> forall room: nat :: FramesToRead(room, stride) == 0
  {
    QuotientPositive(BUFFER_SIZE, stride);
    QuotientPositive(LOCAL_BYTES, stride);
    forall room: nat
      ensures stride > LOCAL_BYTES ==> FramesToRead(room, stride) == 0
    {
      QuotientPositive(room, stride);
    }
  }

  // ----- what holds of whole runs

  /** Whole frames are left to decode. */
  predicate WholeFrames(s: State) {
    s.stride > 0 && (|s.file| - s.position) % s.stride == 0
  }

  lemma LessOneMultiple(x: int, n: int, d: nat)
    requires d > 0 && x % d == 0
    ensures (x - n * d) % d == 0
  {
    assert x == d * (x / d);
    assert x - n * d == d * (x / d - n);
    MultipleIsZero(x - n * d, d, x / d - n);
  }

  lemma StepWhole(s: State, step: Step)
    requires |s.buffer| == BUFFER_SIZE && WholeFrames(s) && Next(s, step).Some?
    ensures WholeFrames(Next(s, step).value)
  {
    StepKeepsFile(s, step);
    if step.Decode? {
      DecodeMovesOn(s, step.frames);
      LessOneMultiple(|s.file| - s.position, step.frames, s.stride);
    }
  }

  lemma DecodeMovesOn(s: State, frames: nat)
    requires |s.buffer| == BUFFER_SIZE && s.stride > 0 && RefillNext(s, Decode(frames)).Some?
    ensures RefillNext(s, Decode(frames)).value.position == s.position + frames * s.stride
  {
  }

  ghost predicate Invariant(s: State) {
    Fifo(s) && Wakes(s) && WholeFrames(s)
  }

  lemma InitInvariant(s: State)
    requires Init(s)
    ensures Invariant(s)
  {
    InitFifo(s);
    InitWakes(s);
  }

  /** Where a run of steps leads; `None` if one of them is not possible. */
  function Run(s: State, steps: seq<Step>): Option<State>
    decreases |steps|
  {
    if steps == [] then Some(s)
    else if |s.buffer| != BUFFER_SIZE || s.stride == 0 then None
    else
      match Next(s, steps[0])
      case None => None
      case Some(t) => Run(t, steps[1..])
  }

  /** No step changes what a state is about, and only decoding moves on in the file. */
  predicate SameFile(s: State, t: State) {
    t.file == s.file && t.stride == s.stride && t.shortReads == s.shortReads
  }

  lemma ConsumerKeepsFile(s: State, step: Step)
    requires |s.buffer| == BUFFER_SIZE && ConsumerNext(s, step).Some?
    ensures SameFile(s, ConsumerNext(s, step).value) && ConsumerNext(s, step).value.position == s.position
  {
  }

  lemma RefillKeepsFile(s: State, step: Step)
    requires |s.buffer| == BUFFER_SIZE && s.stride > 0 && RefillNext(s, step).Some?
    ensures SameFile(s, RefillNext(s, step).value)
    ensures step.Decode? || RefillNext(s, step).value.position == s.position
  {
  }

  lemma StepKeepsFile(s: State, step: Step)
    requires |s.buffer| == BUFFER_SIZE && s.stride > 0 && Next(s, step).Some?
    ensures SameFile(s, Next(s, step).value)
    ensures step.Decode? || Next(s, step).value.position == s.position
  {
    if ConsumerStep(step) {
      ConsumerKeepsFile(s, step);
    } else {
      RefillKeepsFile(s, step);
    }
  }

  lemma RunOnce(s: State, t: State, steps: seq<Step>)
    requires |s.buffer| == BUFFER_SIZE && s.stride > 0 && steps != [] && Next(s, steps[0]) == Some(t)
    ensures Run(s, steps) == Run(t, steps[1..])
  {
  }

  lemma {:induction false} RunFifo(s: State, steps: seq<Step>)
    requires Fifo(s) && Run(s, steps).Some?
    ensures Fifo(Run(s, steps).value) && Run(s, steps).value.file == s.file
    decreases |steps|
  {
    if steps != [] {
      var t := Next(s, steps[0]).value;
      RunOnce(s, t, steps);
      StepFifo(s, steps[0]);
      StepKeepsFile(s, steps[0]);
      RunFifo(t, steps[1..]);
    }
  }

  /** Playback is first in, first out and exact, for streams of any length: what was shipped, what
      is in hand and what the ring holds are, in this order, the bytes decoded into it so far, and
      the ring is never over-full. */
  lemma PlaybackExact(init: State, steps: seq<Step>)
    requires Init(init) && Run(init, steps).Some?
    ensures var s := Run(init, steps).value;
      && Fifo(s) && s.written - |s.taken| <= BUFFER_SIZE
      && SignedDelta(s.writeIndex, s.readIndex) == s.written - |s.taken|
      && s.shipped + InHand(s.consumer) + Unread(s) == s.file[..s.written]
  {
    InitFifo(init);
    RunFifo(init, steps);
    var s := Run(init, steps).value;
    UnreadIs(s);
    assert s.file[..s.written] == s.file[..|s.taken|] + s.file[|s.taken|..s.written];
  }

  lemma UnreadIs(s: State)
    requires RingHolds(s)
    ensures SignedDelta(s.writeIndex, s.readIndex) == s.written - |s.taken|
    ensures Unread(s) == s.file[|s.taken|..s.written]
  {
    DeltaIsOccupancy(s.written, |s.taken|);
    forall i | 0 <= i < s.written - |s.taken|
      ensures Unread(s)[i] == s.file[|s.taken| + i]
    {
      WrappedSlot(|s.taken|, i);
    }
  }

  /** The unread bytes, found from the indices alone. */
  function Unread(s: State): seq<Byte>
    requires |s.buffer| == BUFFER_SIZE && SignedDelta(s.writeIndex, s.readIndex) >= 0
  {
    seq(SignedDelta(s.writeIndex, s.readIndex),
        i requires i >= 0 => s.buffer[(s.readIndex % BUFFER_SIZE + i) % BUFFER_SIZE])
  }

  lemma StepInvariant(s: State, step: Step)
    requires Invariant(s) && Next(s, step).Some?
    ensures Invariant(Next(s, step).value)
  {
    StepFifo(s, step);
    StepWakes(s, step);
    StepWhole(s, step);
  }

  lemma {:induction false} RunInvariant(s: State, steps: seq<Step>)
    requires Invariant(s) && Run(s, steps).Some?
    ensures Invariant(Run(s, steps).value)
    ensures Run(s, steps).value.file == s.file && Run(s, steps).value.stride == s.stride
    decreases |steps|
  {
    if steps != [] {
      var t := Next(s, steps[0]).value;
      RunOnce(s, t, steps);
      StepInvariant(s, steps[0]);
      StepKeepsFile(s, steps[0]);
      RunInvariant(t, steps[1..]);
    }
  }

  /** No lost wake-up, for streams of any length: while playback has not finished, the ring holds
      data, a signal is pending or owed, or a refill is under way. */
  lemma NoLostWakeUp(init: State, steps: seq<Step>)
    requires Init(init) && Run(init, steps).Some?
    ensures var s := Run(init, steps).value;
      s.finished == 0 ==> |s.taken| < s.written || Pending(s) || s.refill != NoRefill
  {
    InitInvariant(init);
    RunInvariant(init, steps);
  }

  // ----- the end of playback

  /** The next step of the refill fires the finish callback. */
  predicate Finishes(s: State) {
    && |s.buffer| == BUFFER_SIZE && s.stride > 0
    && Next(s, CheckEnd).Some? && Next(s, CheckEnd).value.finished > s.finished
  }

  /** If this run leads to the finish callback, every byte of the file has left the ring: it has been
      shipped, or is in the bucket that the audio side has filled and is about to ship. */
  predicate FinishRight(init: State, steps: seq<Step>) {
    var end := Run(init, steps);
    end.Some? && Finishes(end.value) ==>
      end.value.taken == init.file && end.value.shipped + InHand(end.value.consumer) == init.file
  }

  lemma FinishMeansPlayed(init: State, steps: seq<Step>)
    requires Init(init) && EndComparable(|init.file|, BUFFER_SIZE - init.stride)
    ensures FinishRight(init, steps)
  {
    if Run(init, steps).Some? && Finishes(Run(init, steps).value) {
      InitInvariant(init);
      RunInvariant(init, steps);
      var s := Run(init, steps).value;
      EndTestExact(s.written, BUFFER_SIZE - s.stride);
      assert EndTestRight(s.written, s.refill.seenAgain);
      assert s.file[..|s.file|] == s.file;
    }
  }

  /** `s` is reached from `init`, by some interleaving. */
  ghost predicate Reached(init: State, s: State) {
    Invariant(s) && exists steps :: Run(init, steps) == Some(s)
  }

  lemma {:induction false} RunOneMore(init: State, steps: seq<Step>, s: State, step: Step)
    requires Run(init, steps) == Some(s) && |s.buffer| == BUFFER_SIZE && s.stride > 0
    ensures Run(init, steps + [step]) == Next(s, step)
    decreases |steps|
  {
    var more := steps + [step];
    if steps == [] {
      assert more[0] == step && more[1..] == [];
    } else {
      assert more[0] == steps[0] && more[1..] == steps[1..] + [step];
      RunOneMore(Next(init, steps[0]).value, steps[1..], s, step);
    }
  }

  lemma Go(init: State, s: State, step: Step) returns (t: State)
    requires Reached(init, s) && Next(s, step).Some?
    ensures Next(s, step) == Some(t) && Reached(init, t)
  {
    t := Next(s, step).value;
    StepInvariant(s, step);
    var steps :| Run(init, steps) == Some(s);
    RunOneMore(init, steps, s, step);
    assert Run(init, steps + [step]) == Some(t);
  }

  lemma {:induction false} WriteAll(init: State, s: State) returns (t: State)
    requires Reached(init, s) && s.refill.Writing?
    ensures Reached(init, t) && t == s.(buffer := t.buffer, refill := s.refill.(copied := |s.refill.data|))
    decreases if s.refill.Writing? then |s.refill.data| - s.refill.copied else 0
  {
    t := s;
    if s.refill.copied < |s.refill.data| {
      t := Go(init, s, WriteByte);
      t := WriteAll(init, t);
    }
  }

  lemma {:induction false} CopyAll(init: State, s: State) returns (t: State)
    requires Reached(init, s) && s.consumer.Copying?
    ensures Reached(init, t) && t == s.(consumer := t.consumer)
    ensures t.consumer.Copying? && t.consumer.toCopy == s.consumer.toCopy == |t.consumer.bucket|
    decreases if s.consumer.Copying? then s.consumer.toCopy - |s.consumer.bucket| else 0
  {
    t := s;
    if |s.consumer.bucket| < s.consumer.toCopy {
      t := Go(init, s, CopyByte);
      t := CopyAll(init, t);
    }
  }

  /** How many frames the decoder returns when it reads as much as it can. */
  function FullRead(s: State, room: nat): nat
    requires s.stride > 0 && s.position <= |s.file|
  {
    Min(FramesToRead(room, s.stride), (|s.file| - s.position) / s.stride)
  }

  /** A full read fits the ring, and stops short only at the end of the file. */
  lemma FullReadFits(s: State, room: nat)
    requires WholeFrames(s) && s.position <= |s.file|
    ensures var n := FullRead(s, room);
      && n * s.stride <= room && s.position + n * s.stride <= |s.file|
      && (n < FramesToRead(room, s.stride) ==> s.position + n * s.stride == |s.file|)
      && (FramesToRead(room, s.stride) > 0 && s.position < |s.file| ==> n * s.stride >= s.stride)
  {
    FullReadNumbers(FramesToRead(room, s.stride), |s.file| - s.position, s.stride);
    FramesExact(FullRead(s, room), room, s.stride);
  }

  lemma FullReadNumbers(asked: nat, rest: nat, d: nat)
    requires d > 0 && rest % d == 0
    ensures var n := Min(asked, rest / d);
      && n * d <= rest
      && (n < asked ==> n * d == rest)
      && (asked > 0 && rest > 0 ==> n * d >= d)
  {
    var n := Min(asked, rest / d);
    ExactQuotient(rest, d);
    ScaleUp(n, rest / d, d);
    if n > 0 {
      ScaleUp(1, n, d);
    }
  }

  /** Decoding a full read is always possible. */
  lemma DecodeFully(s: State) returns (t: State)
    requires Invariant(s) && s.refill.Loaded? && FramesToRead(s.refill.room, s.stride) > 0
    ensures Next(s, Decode(FullRead(s, s.refill.room))) == Some(t)
    ensures s.position < |s.file| ==>
              && t.refill.Writing? && |t.refill.data| >= s.stride
              && t == s.(position := s.position + |t.refill.data|, refill := t.refill)
    ensures s.position == |s.file| ==> t == s.(eof := true, refill := Checking(s.refill.seen))
  {
    FullReadFits(s, s.refill.room);
    t := Next(s, Decode(FullRead(s, s.refill.room))).value;
  }

  // ----- how much a callback and a refill move

  /** The callback that began in `s0` and took `n` bytes is under way, or over. */
  ghost predicate UnderWay(s0: State, n: nat, s: State) {
    && s.file == s0.file && |s0.taken| + n <= |s0.file|
    && var bytes := s0.file[|s0.taken|..|s0.taken| + n];
       match s.consumer
       case Copying(_, toCopy, _) => toCopy == n && s.taken == s0.taken && s.shipped == s0.shipped
       case OwesSignal(bucket) => bucket == bytes && s.taken == s0.taken + bytes && s.shipped == s0.shipped
       case Shipping(bucket) => bucket == bytes && s.taken == s0.taken + bytes && s.shipped == s0.shipped
       case Resting => s.taken == s0.taken + bytes && s.shipped == s0.shipped + bytes
  }

  lemma RefillKeepsConsumer(s: State, step: Step)
    requires |s.buffer| == BUFFER_SIZE && s.stride > 0 && RefillNext(s, step).Some?
    ensures var t := RefillNext(s, step).value;
      t.consumer == s.consumer && t.taken == s.taken && t.shipped == s.shipped && t.file == s.file
  {
  }

  lemma ConsumerUnderWay(s0: State, n: nat, s: State, step: Step)
    requires Fifo(s) && UnderWay(s0, n, s) && !step.Dequeue? && ConsumerNext(s, step).Some?
    ensures UnderWay(s0, n, ConsumerNext(s, step).value)
  {
  }

  lemma {:induction false} RunUnderWay(s0: State, n: nat, s: State, steps: seq<Step>)
    requires Fifo(s) && UnderWay(s0, n, s) && Run(s, steps).Some?
    requires forall i :: 0 <= i < |steps| ==> !steps[i].Dequeue?
    ensures UnderWay(s0, n, Run(s, steps).value)
    decreases |steps|
  {
    if steps != [] {
      var step := steps[0];
      StepFifo(s, step);
      if ConsumerStep(step) {
        ConsumerUnderWay(s0, n, s, step);
      } else {
        RefillKeepsConsumer(s, step);
      }
      RunUnderWay(s0, n, Next(s, step).value, steps[1..]);
    }
  }

  /** A whole audio callback, however refills come in between: if it asks for `required` bytes, those
      shipped are the next bytes of the file, as many as it asks for or else all that are unread. */
  lemma WholeCallback(s: State, required: nat, steps: seq<Step>)
    requires Fifo(s) && s.consumer == Resting && Run(s, [Dequeue(required)] + steps).Some?
    requires forall i :: 0 <= i < |steps| ==> !steps[i].Dequeue?
    requires Run(s, [Dequeue(required)] + steps).value.consumer == Resting
    ensures var t, unread := Run(s, [Dequeue(required)] + steps).value, s.written - |s.taken|;
      var n := if required < unread then required else unread;
      && |s.taken| + n <= |s.file|
      && t.shipped == s.shipped + s.file[|s.taken|..|s.taken| + n]
      && t.taken == s.taken + s.file[|s.taken|..|s.taken| + n]
  {
    var run := [Dequeue(required)] + steps;
    assert run[1..] == steps;
    var t := CallbackBegins(s, required);
    RunOnce(s, t, run);
    CallbackEnds(s, Min(required, s.written - |s.taken|), t, steps);
  }

  lemma CallbackEnds(s0: State, n: nat, s: State, steps: seq<Step>)
    requires Fifo(s) && UnderWay(s0, n, s) && Run(s, steps).Some? && Run(s, steps).value.consumer == Resting
    requires forall i :: 0 <= i < |steps| ==> !steps[i].Dequeue?
    ensures var t := Run(s, steps).value;
      && |s0.taken| + n <= |s0.file|
      && t.shipped == s0.shipped + s0.file[|s0.taken|..|s0.taken| + n]
      && t.taken == s0.taken + s0.file[|s0.taken|..|s0.taken| + n]
  {
    RunUnderWay(s0, n, s, steps);
  }

  lemma CallbackBegins(s: State, required: nat) returns (t: State)
    requires Fifo(s) && s.consumer == Resting
    ensures Next(s, Dequeue(required)) == Some(t) && Fifo(t)
    ensures UnderWay(s, Min(required, s.written - |s.taken|), t)
  {
    DequeueExact(s, required);
    t := Next(s, Dequeue(required)).value;
    StepFifo(s, Dequeue(required));
    assert s.file[|s.taken|..|s.taken|] == [];
  }

  /** The bytes a refill is writing fit the local buffer; and unless the decoder may return less, another
      frame would not have fitted the local buffer or the ring, or the file has no more. */
  predicate FullRefill(s: State) {
    match s.refill
    case Writing(_, data, _, seen) =>
      && |data| <= 8192
      && (s.shortReads || s.position == |s.file|
          || |data| + s.stride > 8192 || |data| + s.stride > 131072 - (s.written - seen))
    case _ => true
  }

  lemma DecodeIsFull(s: State, frames: nat)
    requires Fifo(s) && RefillNext(s, Decode(frames)).Some?
    ensures FullRefill(RefillNext(s, Decode(frames)).value)
  {
    FramesExact(frames, s.refill.room, s.stride);
    FramesExact(frames + 1, s.refill.room, s.stride);
    assert (frames + 1) * s.stride == frames * s.stride + s.stride;
  }

  lemma ConsumerKeepsRefill(s: State, step: Step)
    requires |s.buffer| == BUFFER_SIZE && ConsumerNext(s, step).Some?
    ensures var t := ConsumerNext(s, step).value;
      t.refill == s.refill && t.written == s.written
  {
  }

  lemma RefillStaysFull(s: State, step: Step)
    requires Fifo(s) && FullRefill(s) && !step.Decode? && RefillNext(s, step).Some?
    ensures FullRefill(RefillNext(s, step).value)
  {
    RefillKeepsFile(s, step);
  }

  lemma StepFull(s: State, step: Step)
    requires Fifo(s) && FullRefill(s) && Next(s, step).Some?
    ensures FullRefill(Next(s, step).value)
  {
    if ConsumerStep(step) {
      ConsumerKeepsFile(s, step);
      ConsumerKeepsRefill(s, step);
    } else if step.Decode? {
      DecodeIsFull(s, step.frames);
    } else {
      RefillStaysFull(s, step);
    }
  }

  lemma {:induction false} RunFull(s: State, steps: seq<Step>)
    requires Fifo(s) && FullRefill(s) && Run(s, steps).Some?
    ensures FullRefill(Run(s, steps).value)
    decreases |steps|
  {
    if steps != [] {
      StepFifo(s, steps[0]);
      StepFull(s, steps[0]);
      RunFull(Next(s, steps[0]).value, steps[1..]);
    }
  }

  /** Refills never overrun the local buffer, and write as much as they can. */
  lemma RefillsAreFull(init: State, steps: seq<Step>)
    requires Init(init) && Run(init, steps).Some?
    ensures FullRefill(Run(init, steps).value)
  {
    InitFifo(init);
    RunFull(init, steps);
  }

  /** How often the audio side has signalled since the loop thread last read the eventfd. */
  function SignalsSince(steps: seq<Step>): nat {
    if steps == [] then 0 else
    var earlier := steps[..|steps| - 1];
    match steps[|steps| - 1]
    case Signal => SignalsSince(earlier) + 1
    case ReadEvent => 0
    case _ => SignalsSince(earlier)
  }

  /** The loop thread has read the eventfd and not yet begun the refill for it. */
  predicate HasRead(steps: seq<Step>) {
    steps != [] &&
    var last := steps[|steps| - 1];
    last == ReadEvent || (last != BeginRefill && HasRead(steps[..|steps| - 1]))
  }

  lemma {:induction false} RunLast(s: State, steps: seq<Step>)
    requires steps != [] && Run(s, steps).Some?
    ensures var before := Run(s, steps[..|steps| - 1]);
      && before.Some? && |before.value.buffer| == BUFFER_SIZE && before.value.stride > 0
      && Next(before.value, steps[|steps| - 1]) == Run(s, steps)
    decreases |steps|
  {
    var earlier := steps[..|steps| - 1];
    if |steps| > 1 {
      RunLast(Next(s, steps[0]).value, steps[1..]);
      assert steps[1..][..|steps| - 2] == earlier[1..];
    } else {
      assert steps[1..] == [];
    }
  }

  lemma EventStep(s: State, step: Step)
    requires |s.buffer| == BUFFER_SIZE && s.stride > 0 && Next(s, step).Some?
    ensures var t := Next(s, step).value;
      && t.eventfd == (if step == Signal then s.eventfd + 1 else if step == ReadEvent then 0 else s.eventfd)
      && t.waiting == (step == ReadEvent || (step != BeginRefill && s.waiting))
  {
    if ConsumerStep(step) {
      ConsumerEventStep(s, step);
    } else {
      RefillEventStep(s, step);
    }
  }

  lemma ConsumerEventStep(s: State, step: Step)
    requires |s.buffer| == BUFFER_SIZE && ConsumerNext(s, step).Some?
    ensures var t := ConsumerNext(s, step).value;
      t.eventfd == (if step == Signal then s.eventfd + 1 else s.eventfd) && t.waiting == s.waiting
  {
  }

  lemma RefillEventStep(s: State, step: Step)
    requires |s.buffer| == BUFFER_SIZE && s.stride > 0 && RefillNext(s, step).Some?
    ensures var t := RefillNext(s, step).value;
      && t.eventfd == (if step == ReadEvent then 0 else s.eventfd)
      && t.waiting == (step == ReadEvent || (step != BeginRefill && s.waiting))
  {
  }

  /** Signals are counted until they are read, and one read takes them all. */
  lemma {:induction false} SignalsFollow(init: State, steps: seq<Step>)
    requires Init(init) && Run(init, steps).Some?
    ensures Run(init, steps).value.eventfd == SignalsSince(steps)
    ensures Run(init, steps).value.waiting == HasRead(steps)
    decreases |steps|
  {
    if steps != [] {
      RunLast(init, steps);
      SignalsFollow(init, steps[..|steps| - 1]);
      EventStep(Run(init, steps[..|steps| - 1]).value, steps[|steps| - 1]);
    }
  }

  // ----- playback comes to an end

  /** An audio callback that takes nothing, because the ring is empty or its own buffer has no room. */
  predicate Idle(s: State, step: Step) {
    step.Dequeue? && s.consumer == Resting && (step.required == 0 || |s.taken| == s.written)
  }

  /** An audio callback takes as much as the ring holds and its own buffer has room for. */
  lemma DequeueExact(s: State, required: nat)
    requires RingHolds(s) && s.consumer == Resting
    ensures var next := Next(s, Dequeue(required));
      && next.Some?
      && if Idle(s, Dequeue(required)) then
           next.value == s
         else
           var c, unread := next.value.consumer, s.written - |s.taken|;
           && next.value == s.(consumer := c)
           && c.Copying? && c.index == s.readIndex && c.bucket == []
           && 0 < c.toCopy <= required && c.toCopy <= unread && (c.toCopy == required || c.toCopy == unread)
  {
    DeltaIsOccupancy(s.written, |s.taken|);
  }

  function ConsumerRank(c: Consumer): int {
    match c
    case Resting => 0
    case Copying(_, _, bucket) => -1 - |bucket|
    case OwesSignal(_) => 11
    case Shipping(_) => 1
  }

  function RefillRank(r: Refill): int {
    match r
    case NoRefill => 0
    case Started => 6
    case Loaded(_, _, _) => 5
    case Writing(_, data, copied, _) => 4 + |data| - copied
    case Checking(_) => 2
    case ReadLoaded(_, _, _) => 1
  }

  /** A bound on the steps to come: each byte left in the file or the ring, and each signal, pays
      for the steps it can cause. */
  function Rank(s: State): int {
    16 * (|s.file| - |s.taken|) + (|s.file| - s.position) + ConsumerRank(s.consumer)
    + 9 * s.eventfd + (if s.waiting then 8 else 0) + RefillRank(s.refill)
  }

  lemma RankIsNat(s: State)
    requires Fifo(s)
    ensures Rank(s) >= 0
  {
  }

  /** Every step lowers the rank, but for an audio callback that takes nothing. */
  lemma ConsumerRankFalls(s: State, step: Step)
    requires Fifo(s) && ConsumerStep(step) && Next(s, step).Some?
    ensures Idle(s, step) || Rank(Next(s, step).value) < Rank(s)
  {
    if step.Dequeue? {
      DequeueExact(s, step.required);
    }
  }

  lemma RefillRankFalls(s: State, step: Step)
    requires Fifo(s) && !ConsumerStep(step) && Next(s, step).Some?
    ensures Rank(Next(s, step).value) < Rank(s)
  {
    match step
    case Decode(frames) => DecodeRankFalls(s, frames);
    case ReadEvent => ReadEventRankFalls(s);
    case _ => OtherRankFalls(s, step);
  }

  lemma DecodeRankFalls(s: State, frames: nat)
    requires Fifo(s) && RefillNext(s, Decode(frames)).Some?
    ensures Rank(RefillNext(s, Decode(frames)).value) < Rank(s)
  {
    DecodeMovesOn(s, frames);
    var t := RefillNext(s, Decode(frames)).value;
    assert RefillRank(t.refill) + |t.file| - t.position < RefillRank(s.refill) + |s.file| - s.position;
  }

  lemma ReadEventRankFalls(s: State)
    requires |s.buffer| == BUFFER_SIZE && s.stride > 0 && RefillNext(s, ReadEvent).Some?
    ensures Rank(RefillNext(s, ReadEvent).value) < Rank(s)
  {
  }

  lemma OtherRankFalls(s: State, step: Step)
    requires Fifo(s) && !step.Decode? && !step.ReadEvent? && RefillNext(s, step).Some?
    ensures Rank(RefillNext(s, step).value) < Rank(s)
  {
  }

  /** The steps of a run that are not idle. */
  function Effective(s: State, steps: seq<Step>): nat
    requires Run(s, steps).Some?
    decreases |steps|
  {
    if steps == [] then 0
    else (if Idle(s, steps[0]) then 0 else 1) + Effective(Next(s, steps[0]).value, steps[1..])
  }

  lemma {:induction false} RankPays(s: State, steps: seq<Step>)
    requires Fifo(s) && Run(s, steps).Some?
    ensures Effective(s, steps) <= Rank(s)
    decreases |steps|
  {
    if steps == [] {
      RankIsNat(s);
    } else {
      var t := Next(s, steps[0]).value;
      StepFifo(s, steps[0]);
      RankPays(t, steps[1..]);
      if ConsumerStep(steps[0]) {
        ConsumerRankFalls(s, steps[0]);
      } else {
        RefillRankFalls(s, steps[0]);
      }
    }
  }

  /** Every interleaving comes to rest: apart from audio callbacks that take nothing, a run
      has at most 17 steps a byte and 6 more, the refills after the finish callback included. */
  lemma RunsAreShort(init: State, steps: seq<Step>)
    requires Init(init) && Run(init, steps).Some?
    ensures Effective(init, steps) <= 17 * |init.file| + 6
  {
    InitFifo(init);
    RankPays(init, steps);
  }

  lemma RefillMoves(s: State) returns (step: Step)
    requires Invariant(s) && s.refill != NoRefill
    ensures !ConsumerStep(step) && Next(s, step).Some?
  {
    match s.refill
    case Started => step := LoadIndices;
    case Loaded(_, room, _) =>
      if FramesToRead(room, s.stride) > 0 {
        var t := DecodeFully(s);
        step := Decode(FullRead(s, room));
      } else {
        step := NoRoom;
      }
    case Writing(_, data, copied, _) => step := if copied < |data| then WriteByte else UpdateWrite;
    case Checking(_) => step := LoadRead;
    case ReadLoaded(_, _, _) => step := CheckEnd;
  }

  lemma ConsumerMoves(s: State, required: nat) returns (step: Step)
    requires Fifo(s) && required > 0 && (s.consumer != Resting || |s.taken| < s.written)
    ensures ConsumerStep(step) && Next(s, step).Some? && !Idle(s, step)
    ensures step.Dequeue? ==> step.required == required
  {
    match s.consumer
    case Resting =>
      DequeueExact(s, required);
      step := Dequeue(required);
    case Copying(_, toCopy, bucket) => step := if |bucket| < toCopy then CopyByte else UpdateRead;
    case OwesSignal(_) => step := Signal;
    case Shipping(_) => step := Ship;
  }

  /** Until playback has finished something can always be done, other than take nothing, whatever size
      of bucket the audio side brings. */
  lemma AlwaysMoves(s: State, required: nat) returns (step: Step)
    requires Invariant(s) && s.finished == 0 && required > 0
    ensures Next(s, step).Some? && !Idle(s, step)
    ensures step.Dequeue? ==> step.required == required
  {
    if s.refill != NoRefill {
      step := RefillMoves(s);
    } else if s.waiting {
      step := BeginRefill;
    } else if s.eventfd > 0 {
      step := ReadEvent;
    } else {
      step := ConsumerMoves(s, required);
    }
  }

  /** So a run that cannot go on but by audio callbacks that take nothing has finished. */
  lemma AtRestMeansFinished(init: State, steps: seq<Step>, required: nat)
    requires Init(init) && Run(init, steps).Some? && required > 0
    requires var s := Run(init, steps).value;
      && |s.buffer| == BUFFER_SIZE && s.stride > 0
      && forall step :: Next(s, step).Some? && (step.Dequeue? ==> step.required == required) ==> Idle(s, step)
    ensures Run(init, steps).value.finished > 0
  {
    InitInvariant(init);
    RunInvariant(init, steps);
    var s := Run(init, steps).value;
    if s.finished == 0 {
      var step := AlwaysMoves(s, required);
    }
  }

  /** From every reachable state in which playback has not finished, it can, with buckets of any one size. */
  lemma {:induction false} CanFinish(s: State, required: nat) returns (steps: seq<Step>)
    requires Invariant(s) && s.finished == 0 && required > 0
    ensures Run(s, steps).Some? && Finishes(Run(s, steps).value)
    ensures forall i :: 0 <= i < |steps| && steps[i].Dequeue? ==> steps[i].required == required
    decreases Rank(s)
  {
    RankIsNat(s);
    if Finishes(s) {
      steps := [];
    } else {
      var step := AlwaysMoves(s, required);
      var t := Next(s, step).value;
      StepInvariant(s, step);
      if ConsumerStep(step) {
        ConsumerRankFalls(s, step);
      } else {
        RefillRankFalls(s, step);
      }
      NotFinished(s, step);
      var rest := CanFinish(t, required);
      steps := [step] + rest;
      assert steps[1..] == rest;
      RunOnce(s, t, steps);
    }
  }

  lemma NotFinished(s: State, step: Step)
    requires |s.buffer| == BUFFER_SIZE && s.stride > 0 && s.finished == 0
    requires !Finishes(s) && Next(s, step).Some?
    ensures Next(s, step).value.finished == 0
  {
    if ConsumerStep(step) {
      ConsumerNeverFinishes(s, step);
    }
  }

  lemma ConsumerNeverFinishes(s: State, step: Step)
    requires |s.buffer| == BUFFER_SIZE && ConsumerNext(s, step).Some?
    ensures ConsumerNext(s, step).value.finished == s.finished
  {
  }

  // ----- when the finish callback can come too soon

  /** A refill is about to look at the indices and nothing else is under way. */
  ghost predicate Ready(init: State, s: State) {
    && Reached(init, s) && s.file == init.file && s.stride == init.stride >= 2
    && s.refill == Started && s.consumer == Resting && s.eventfd == 0 && !s.waiting && !s.eof
  }

  /** The first half of a refill with room for a frame: decode and copy what there is. */
  lemma FillRing(init: State, s: State) returns (t: State)
    requires Ready(init, s)
    requires s.written < |s.file| && s.written - |s.taken| + s.stride <= BUFFER_SIZE
    ensures Reached(init, t)
    ensures t == s.(buffer := t.buffer, refill := t.refill, position := t.position)
    ensures t.refill.Writing? && t.refill.copied == |t.refill.data| >= s.stride
  {
    var u := LookAtIndices(init, s);
    var v := DecodeFully(u);
    v := Go(init, u, Decode(FullRead(u, u.refill.room)));
    t := WriteAll(init, v);
  }

  lemma LookAtIndices(init: State, s: State) returns (t: State)
    requires Ready(init, s) && s.written - |s.taken| + s.stride <= BUFFER_SIZE
    ensures Reached(init, t) && t == s.(refill := t.refill)
    ensures t.refill.Loaded? && FramesToRead(t.refill.room, s.stride) > 0
  {
    DeltaIsOccupancy(s.written, |s.taken|);
    t := Go(init, s, LoadIndices);
    RoomForAFrame(t.refill.room, s.stride);
  }

  /** The second half: hand it over, and find that the end of the file has not been seen. */
  lemma RefillOnce(init: State, s: State) returns (t: State)
    requires Ready(init, s)
    requires s.written < |s.file| && s.written - |s.taken| + s.stride <= BUFFER_SIZE
    ensures Reached(init, t) && t.written >= s.written + s.stride
    ensures t == s.(buffer := t.buffer, writeIndex := t.writeIndex, refill := NoRefill,
                    position := t.position, written := t.written)
  {
    t := FillRing(init, s);
    t := Go(init, t, UpdateWrite);
    t := Go(init, t, LoadRead);
    t := Go(init, t, CheckEnd);
  }

  lemma BeginCopy(init: State, s: State, n: nat) returns (t: State)
    requires Reached(init, s) && s.consumer == Resting
    requires 0 < n <= s.written - |s.taken|
    ensures Reached(init, t) && t == s.(consumer := Copying(s.readIndex, n, []))
  {
    DequeueExact(s, n);
    t := Go(init, s, Dequeue(n));
  }

  /** The audio side takes `n` bytes out of the ring. */
  lemma TakeOut(init: State, s: State, n: nat) returns (t: State)
    requires Reached(init, s) && s.consumer == Resting
    requires 0 < n <= s.written - |s.taken|
    ensures Reached(init, t) && t == s.(readIndex := t.readIndex, taken := t.taken, consumer := t.consumer)
    ensures t.consumer.OwesSignal? && |t.taken| == |s.taken| + n
  {
    t := BeginCopy(init, s, n);
    t := CopyAll(init, t);
    t := Go(init, t, UpdateRead);
  }

  /** It ships them, and its signal starts the next refill. */
  lemma TakeBytes(init: State, s: State, n: nat) returns (t: State)
    requires Reached(init, s) && s.file == init.file && s.stride == init.stride >= 2
    requires s.refill == NoRefill && s.consumer == Resting && s.eventfd == 0 && !s.waiting && !s.eof
    requires 0 < n <= s.written - |s.taken|
    ensures Ready(init, t) && t.written == s.written && |t.taken| == |s.taken| + n
  {
    t := TakeOut(init, s, n);
    t := Go(init, t, Signal);
    t := Go(init, t, Ship);
    t := Go(init, t, ReadEvent);
    t := Go(init, t, BeginRefill);
  }

  /** The ring holds all but a frame of what it can, or half of everything decoded so far. */
  predicate Filling(s: State) {
    var left, most := s.written - |s.taken|, BUFFER_SIZE - s.stride;
    left <= most && (left == most || 2 * left >= s.written)
  }

  /** A schedule for any file: refills that read all they can, while the audio side takes a byte at
      a time until the ring is a frame short of full, and just enough to keep it so from then on. */
  lemma {:induction false} FillUp(init: State, s: State) returns (t: State)
    requires Ready(init, s) && Filling(s)
    ensures Ready(init, t) && Filling(t) && t.written == |init.file|
    decreases |s.file| - s.written
  {
    t := s;
    if s.written < |s.file| {
      t := RefillOnce(init, s);
      var left, most := t.written - |t.taken|, BUFFER_SIZE - t.stride;
      t := TakeBytes(init, t, if left <= most then 1 else left - most);
      t := FillUp(init, t);
    }
  }

  /** A refill with room for exactly one frame sees the end of the file. */
  lemma SeeEnd(init: State, s: State) returns (t: State)
    requires Ready(init, s) && s.written == |s.file| && s.written - |s.taken| + s.stride == BUFFER_SIZE
    ensures Reached(init, t)
    ensures t == s.(eof := true, refill := t.refill)
    ensures t.refill.ReadLoaded? && t.refill.readIndex == |s.taken| % INDEX_MODULUS
  {
    var u := LookAtIndices(init, s);
    var v := DecodeFully(u);
    v := Go(init, u, Decode(FullRead(u, u.refill.room)));
    t := Go(init, v, LoadRead);
  }

  /** Otherwise playback can end early: the ring is a frame short of full when the refill sees the
      end of the file, and the read index has yet to wrap. */
  lemma EndsEarly(init: State) returns (steps: seq<Step>)
    requires Init(init) && !EndComparable(|init.file|, BUFFER_SIZE - init.stride)
    ensures !FinishRight(init, steps)
  {
    InitInvariant(init);
    assert Run(init, []) == Some(init);
    var s := FillUp(init, init);
    s := SeeEnd(init, s);
    WrappedTestFinishes(s);
    steps :| Run(init, steps) == Some(s);
  }

  lemma WrappedTestFinishes(s: State)
    requires Fifo(s) && s.eof && s.refill.ReadLoaded? && s.refill.readIndex == s.readIndex
    requires s.written == |s.file| && s.written - |s.taken| + s.stride == BUFFER_SIZE
    requires !EndComparable(s.written, s.written - |s.taken|)
    ensures Finishes(s) && s.taken != s.file
  {
    YetToWrap(s.written, |s.taken|);
    assert |s.taken| < |s.file|;
  }

  lemma YetToWrap(written: nat, taken: nat)
    requires taken <= written <= taken + BUFFER_SIZE && !EndComparable(written, written - taken)
    ensures taken % INDEX_MODULUS >= written % INDEX_MODULUS
  {
  }

  /** Exactly for which files the finish callback means that everything has been played, in every
      interleaving: those below 2^32 bytes, and those whose size modulo 2^32 is at least the ring
      size less a frame. */
  lemma FinishExact(init: State)
    requires Init(init)
    ensures (|init.file| < 4294967296 || |init.file| % 4294967296 + init.stride >= 131072) <==>
            forall steps :: FinishRight(init, steps)
  {
    if EndComparable(|init.file|, BUFFER_SIZE - init.stride) {
      forall steps
        ensures FinishRight(init, steps)
      {
        FinishMeansPlayed(init, steps);
      }
    } else {
      var steps := EndsEarly(init);
    }
  }
}
