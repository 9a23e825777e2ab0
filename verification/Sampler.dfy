/** The sampler of src/metrics/sampler.c as interleaved steps of its worker threads, the threads
    that start and stop it, and the threads that read it. Everything between two lock operations
    that touches shared state is a step of its own. */
module Samplers {
  import opened Prelude
  import opened RingModel

  const CTM_SAMPLER_CAPACITY: nat := 100

  datatype Tid = Worker(w: nat) | Controller(c: nat) | Reader(r: nat)

  /** What sampler_get_value returns: EAGAIN, or process_fn of two samples. */
  datatype Answer<T> = Again | Applied(current: T, previous: T)

  /** A call of sampler_get_value: outside, waiting for the lock, holding it, holding it with both
      pointers taken, and back with the answer. */
  datatype Call<T> =
    | NotCalling
    | WantLock(window: nat)
    | HasLock(window: nat)
    | Peeked(window: nat, current: Option<nat>, previous: Option<nat>)
    | Answered(answer: Answer<T>)

  /** The worker loop. `item` is what it has just captured, and `seen` the number of captures
      made when the callback became due. */
  datatype WorkerPc<T> =
    | AtTop
    | Locked
    | Advanced
    | Captured(item: T, notify: bool)
    | Due(item: T, seen: nat)
    | InCallback(item: T, seen: nat, call: Call<T>)
    | Sleeping
    | Exited

  datatype ControllerPc = Idle | StartWants | StartHolds | StopWants | StopHolds | Joining

  datatype State<T> = State(
    ring: Ring<T>,
    running: bool,
    lock: Option<Tid>,
    workers: seq<WorkerPc<T>>,
    controllers: seq<ControllerPc>,
    readers: seq<Call<T>>,
    /** The final contents of every slot handed out so far. */
    history: seq<T>,
    /** Threads created and not yet joined; sampler->thread is the last one created. */
    unjoined: set<nat>)

  datatype WorkerStep<T> =
    | Acquire
    | Check
    | Capture(item: T, ok: bool)
    | Release
    | Skip
    | EnterCallback
    | LeaveCallback
    | Wake

  datatype CallStep = Begin(window: nat) | Take | PeekBoth | Finish | Return

  datatype ControlStep = BeginStart | BeginStop | TakeLock | StartBody(created: bool) | StopBody | Join

  datatype Action<T> =
    | WorkerDoes(w: nat, step: WorkerStep<T>)
    | CallbackDoes(w: nat, call: CallStep)
    | ReaderDoes(r: nat, call: CallStep)
    | ControllerDoes(c: nat, control: ControlStep)

  // ----- the steps

  /** One step of a worker's loop; `None` when the step is not possible. */
  function WorkerNext<T>(s: State<T>, w: nat, step: WorkerStep<T>): Option<State<T>>
    requires RingValid(s.ring)
  {
    if w >= |s.workers| then None else
    match (s.workers[w], step)
    case (AtTop, Acquire) =>
      if s.lock.Some? then None else Some(s.(lock := Some(Worker(w)), workers := s.workers[w := Locked]))
    case (Locked, Check) =>
      if s.running then
        var ring := Advance(s.ring);
        Some(s.(ring := ring, history := s.history + [ring.slots[ring.head]], workers := s.workers[w := Advanced]))
      else
        Some(s.(lock := None, workers := s.workers[w := Exited]))
    case (Advanced, Capture(item, ok)) =>
      if s.history == [] then None else
      Some(s.(ring := Write(s.ring, item), history := s.history[|s.history| - 1 := item],
              workers := s.workers[w := Captured(item, ok)]))
    case (Captured(item, notify), Release) =>
      Some(s.(lock := None, workers := s.workers[w := if notify then Due(item, |s.history|) else Sleeping]))
    case (Due(_, _), Skip) =>
      Some(s.(workers := s.workers[w := Sleeping]))
    case (Due(item, seen), EnterCallback) =>
      Some(s.(workers := s.workers[w := InCallback(item, seen, NotCalling)]))
    case (InCallback(_, _, NotCalling), LeaveCallback) =>
      Some(s.(workers := s.workers[w := Sleeping]))
    case (Sleeping, Wake) =>
      Some(s.(workers := s.workers[w := AtTop]))
    case _ => None
  }

  /** One step inside sampler_get_value, for the thread `me`: the new lock and the new call state. */
  function CallNext<T>(s: State<T>, me: Tid, call: Call<T>, step: CallStep): Option<(Option<Tid>, Call<T>)>
    requires RingValid(s.ring)
  {
    match (call, step)
    case (NotCalling, Begin(window)) => if window == 0 then None else Some((s.lock, WantLock(window)))
    case (WantLock(window), Take) => if s.lock.Some? then None else Some((Some(me), HasLock(window)))
    case (HasLock(window), PeekBoth) => Some((s.lock, Peeked(window, Peek(s.ring, 0), Peek(s.ring, window))))
    case (Peeked(_, current, previous), Finish) =>
      if current.None? || previous.None? then
        Some((None, Answered(Again)))
      else if current.value < |s.ring.slots| && previous.value < |s.ring.slots| then
        Some((None, Answered(Applied(s.ring.slots[current.value], s.ring.slots[previous.value]))))
      else
        None
    case (Answered(_), Return) => Some((s.lock, NotCalling))
    case _ => None
  }

  function CallbackNext<T>(s: State<T>, w: nat, step: CallStep): Option<State<T>>
    requires RingValid(s.ring)
  {
    if w >= |s.workers| || !s.workers[w].InCallback? then None else
    match CallNext(s, Worker(w), s.workers[w].call, step)
    case None => None
    case Some((lock, call)) => Some(s.(lock := lock, workers := s.workers[w := s.workers[w].(call := call)]))
  }

  function ReaderNext<T>(s: State<T>, r: nat, step: CallStep): Option<State<T>>
    requires RingValid(s.ring)
  {
    if r >= |s.readers| then None else
    match CallNext(s, Reader(r), s.readers[r], step)
    case None => None
    case Some((lock, call)) => Some(s.(lock := lock, readers := s.readers[r := call]))
  }

  predicate AllIdle<T>(s: State<T>) {
    forall c :: 0 <= c < |s.controllers| ==> s.controllers[c].Idle?
  }

  /** One step of a start or stop call. With `serial`, no call begins while another is under way. */
  function ControllerNext<T>(serial: bool, s: State<T>, c: nat, step: ControlStep): Option<State<T>> {
    if c >= |s.controllers| then None else
    match (s.controllers[c], step)
    case (Idle, BeginStart) =>
      if serial && !AllIdle(s) then None else Some(s.(controllers := s.controllers[c := StartWants]))
    case (Idle, BeginStop) =>
      if serial && !AllIdle(s) then None else Some(s.(controllers := s.controllers[c := StopWants]))
    case (StartWants, TakeLock) =>
      if s.lock.Some? then None
      else Some(s.(lock := Some(Controller(c)), controllers := s.controllers[c := StartHolds]))
    case (StopWants, TakeLock) =>
      if s.lock.Some? then None
      else Some(s.(lock := Some(Controller(c)), controllers := s.controllers[c := StopHolds]))
    case (StartHolds, StartBody(created)) =>
      if s.running || !created then
        Some(s.(lock := None, controllers := s.controllers[c := Idle]))
      else
        Some(s.(lock := None, running := true, workers := s.workers + [AtTop], unjoined := s.unjoined + {|s.workers|},
                controllers := s.controllers[c := Idle]))
    case (StopHolds, StopBody) =>
      Some(s.(lock := None, running := false, controllers := s.controllers[c := if s.running then Joining else Idle]))
    case (Joining, Join) =>
      if s.workers == [] || !s.workers[|s.workers| - 1].Exited? then None
      else Some(s.(unjoined := s.unjoined - {|s.workers| - 1}, controllers := s.controllers[c := Idle]))
    case _ => None
  }

  function Next<T>(serial: bool, s: State<T>, a: Action<T>): Option<State<T>>
    requires RingValid(s.ring)
  {
    match a
    case WorkerDoes(w, step) => WorkerNext(s, w, step)
    case CallbackDoes(w, call) => CallbackNext(s, w, call)
    case ReaderDoes(r, call) => ReaderNext(s, r, call)
    case ControllerDoes(c, control) => ControllerNext(serial, s, c, control)
  }

  ghost predicate Init<T>(s: State<T>) {
    && RingValid(s.ring) && s.ring.capacity == CTM_SAMPLER_CAPACITY && s.ring.count == 0 && s.ring.head == 0
    && s.history == [] && !s.running && s.lock.None? && s.workers == [] && s.unjoined == {}
    && AllIdle(s)
    && forall r :: 0 <= r < |s.readers| ==> s.readers[r].NotCalling?
  }

  // ----- mutual exclusion and what a reader sees

  predicate CallHolds<T>(call: Call<T>) {
    call.HasLock? || call.Peeked?
  }

  predicate WorkerHolds<T>(pc: WorkerPc<T>) {
    pc.Locked? || pc.Advanced? || pc.Captured? || (pc.InCallback? && CallHolds(pc.call))
  }

  predicate ControllerHolds(pc: ControllerPc) {
    pc.StartHolds? || pc.StopHolds?
  }

  /** The thread stands at a point where it owns the mutex. */
  predicate Holds<T>(s: State<T>, tid: Tid) {
    match tid
    case Worker(w) => w < |s.workers| && WorkerHolds(s.workers[w])
    case Controller(c) => c < |s.controllers| && ControllerHolds(s.controllers[c])
    case Reader(r) => r < |s.readers| && CallHolds(s.readers[r])
  }

  /** Mutual exclusion: the owner of the mutex, and no one else, stands where it is held. */
  ghost predicate Mutex<T>(s: State<T>) {
    forall tid :: Holds(s, tid) <==> s.lock == Some(tid)
  }

  /** The call of sampler_get_value a thread is in, if any. */
  function CallOf<T>(s: State<T>, tid: Tid): Call<T> {
    match tid
    case Worker(w) => if w < |s.workers| && s.workers[w].InCallback? then s.workers[w].call else NotCalling
    case Controller(_) => NotCalling
    case Reader(r) => if r < |s.readers| then s.readers[r] else NotCalling
  }

  /** The pointers a call has taken are still the ones it would take now. */
  ghost predicate Fresh<T>(ring: Ring<T>, call: Call<T>)
    requires RingValid(ring)
  {
    call.Peeked? ==> call.current == Peek(ring, 0) && call.previous == Peek(ring, call.window)
  }

  /** The ring remembers the history, and no call holds a stale pointer. */
  ghost predicate Samples<T>(s: State<T>) {
    && Remembers(s.ring, s.history) && s.ring.capacity == CTM_SAMPLER_CAPACITY
    && (forall tid :: Fresh(s.ring, CallOf(s, tid)))
    && (forall w :: 0 <= w < |s.workers| && (s.workers[w].Advanced? || s.workers[w].Captured?) ==> s.history != [])
  }

  /** Holds in every reachable state, however start and stop calls overlap. */
  ghost predicate Safe<T>(s: State<T>) {
    Mutex(s) && Samples(s)
  }

  lemma InitSafe<T>(s: State<T>)
    requires Init(s)
    ensures Safe(s)
  {
    NothingRemembered(s.ring);
  }

  lemma WorkerKeepsMutex<T>(s: State<T>, w: nat, step: WorkerStep<T>)
    requires RingValid(s.ring) && Mutex(s) && WorkerNext(s, w, step).Some?
    ensures Mutex(WorkerNext(s, w, step).value)
  {
    var t := WorkerNext(s, w, step).value;
    assert Holds(s, Worker(w)) <==> s.lock == Some(Worker(w));
    assert forall tid :: tid != Worker(w) ==> Holds(t, tid) == Holds(s, tid);
  }

  lemma CallKeepsMutex<T>(s: State<T>, me: Tid, call: Call<T>, step: CallStep)
    requires RingValid(s.ring) && CallNext(s, me, call, step).Some?
    requires CallHolds(call) <==> s.lock == Some(me)
    ensures var (lock, call') := CallNext(s, me, call, step).value;
      && (CallHolds(call') <==> lock == Some(me))
      && (lock == s.lock || (s.lock == None && lock == Some(me)) || (s.lock == Some(me) && lock == None))
  {
  }

  lemma CallbackKeepsMutex<T>(s: State<T>, w: nat, step: CallStep)
    requires RingValid(s.ring) && Mutex(s) && CallbackNext(s, w, step).Some?
    ensures Mutex(CallbackNext(s, w, step).value)
  {
    var t := CallbackNext(s, w, step).value;
    assert Holds(s, Worker(w)) <==> s.lock == Some(Worker(w));
    CallKeepsMutex(s, Worker(w), s.workers[w].call, step);
    assert forall tid :: tid != Worker(w) ==> Holds(t, tid) == Holds(s, tid);
  }

  lemma ReaderKeepsMutex<T>(s: State<T>, r: nat, step: CallStep)
    requires RingValid(s.ring) && Mutex(s) && ReaderNext(s, r, step).Some?
    ensures Mutex(ReaderNext(s, r, step).value)
  {
    var t := ReaderNext(s, r, step).value;
    assert Holds(s, Reader(r)) <==> s.lock == Some(Reader(r));
    CallKeepsMutex(s, Reader(r), s.readers[r], step);
    assert forall tid :: tid != Reader(r) ==> Holds(t, tid) == Holds(s, tid);
  }

  lemma ControllerKeepsMutex<T>(serial: bool, s: State<T>, c: nat, step: ControlStep)
    requires Mutex(s) && ControllerNext(serial, s, c, step).Some?
    ensures Mutex(ControllerNext(serial, s, c, step).value)
  {
    var t := ControllerNext(serial, s, c, step).value;
    assert Holds(s, Controller(c)) <==> s.lock == Some(Controller(c));
    assert forall tid :: tid != Controller(c) ==> Holds(t, tid) == Holds(s, tid);
  }

  /** A worker that moves the ring owns the mutex, so no call has pointers into it. */
  lemma WorkerKeepsSamples<T>(s: State<T>, w: nat, step: WorkerStep<T>)
    requires Safe(s) && WorkerNext(s, w, step).Some?
    ensures Samples(WorkerNext(s, w, step).value)
  {
    var t := WorkerNext(s, w, step).value;
    assert Holds(s, Worker(w)) <==> s.lock == Some(Worker(w));
    if s.workers[w].Locked? && s.running {
      var ring := Advance(s.ring);
      assert Write(ring, ring.slots[ring.head]) == ring;
      PushRemembers(s.ring, s.history, ring.slots[ring.head]);
    } else if s.workers[w].Advanced? {
      RewriteRemembers(s.ring, s.history, step.item);
    }
    forall tid
      ensures Fresh(t.ring, CallOf(t, tid))
    {
      assert Holds(s, tid) <==> s.lock == Some(tid);
      assert Fresh(s.ring, CallOf(s, tid));
    }
  }

  lemma OthersKeepSamples<T>(serial: bool, s: State<T>, a: Action<T>)
    requires Safe(s) && Next(serial, s, a).Some? && !a.WorkerDoes?
    ensures Samples(Next(serial, s, a).value)
  {
    var t := Next(serial, s, a).value;
    forall tid
      ensures Fresh(t.ring, CallOf(t, tid))
    {
      assert Fresh(s.ring, CallOf(s, tid));
    }
  }

  lemma StepSafe<T>(serial: bool, s: State<T>, a: Action<T>)
    requires Safe(s) && Next(serial, s, a).Some?
    ensures Safe(Next(serial, s, a).value)
  {
    match a
    case WorkerDoes(w, step) =>
      WorkerKeepsMutex(s, w, step);
      WorkerKeepsSamples(s, w, step);
    case CallbackDoes(w, call) =>
      CallbackKeepsMutex(s, w, call);
      OthersKeepSamples(serial, s, a);
    case ReaderDoes(r, call) =>
      ReaderKeepsMutex(s, r, call);
      OthersKeepSamples(serial, s, a);
    case ControllerDoes(c, control) =>
      ControllerKeepsMutex(serial, s, c, control);
      OthersKeepSamples(serial, s, a);
  }

  /** The answer that one consistent history gives. */
  function ExpectedAnswer<T>(history: seq<T>, window: nat): Answer<T> {
    if window < |history| && window < CTM_SAMPLER_CAPACITY then
      Applied(history[|history| - 1], history[|history| - 1 - window])
    else
      Again
  }

  /** Whatever happened since the pointers were taken, sampler_get_value applies its function to
      the newest sample and the one exactly `window` captures earlier, and returns EAGAIN exactly
      when there is no such pair. */
  lemma GetValueSeesHistory<T>(s: State<T>, me: Tid)
    requires Safe(s) && CallOf(s, me).Peeked?
    ensures var call := CallOf(s, me);
      CallNext(s, me, call, Finish) == Some((None, Answered(ExpectedAnswer(s.history, call.window))))
  {
    var call := CallOf(s, me);
    assert Fresh(s.ring, call);
    PeekRemembers(s.ring, s.history, 0);
    PeekRemembers(s.ring, s.history, call.window);
  }

  // ----- one start or stop call at a time

  predicate Alive<T>(s: State<T>, w: nat) {
    w < |s.workers| && !s.workers[w].Exited?
  }

  predicate Newest<T>(s: State<T>, w: nat) {
    w + 1 == |s.workers|
  }

  predicate Joins<T>(s: State<T>, c: nat) {
    c < |s.controllers| && s.controllers[c].Joining?
  }

  /** At most one start or stop call is under way. */
  ghost predicate OneCall<T>(s: State<T>) {
    forall c, d :: 0 <= c < |s.controllers| && 0 <= d < |s.controllers| && c != d ==>
                     s.controllers[c].Idle? || s.controllers[d].Idle?
  }

  /** There is a single thread at most that has not been joined, and it is the only live worker; it
      is there exactly if is_running is 1 or a stop waits for it. */
  ghost predicate Single<T>(s: State<T>) {
    && (forall w: nat :: w in s.unjoined ==> Newest(s, w))
    && (forall w: nat :: Alive(s, w) ==> w in s.unjoined)
    && (s.running ==> exists w: nat :: Alive(s, w))
    && (s.unjoined != {} ==> s.running || exists c: nat :: Joins(s, c))
    && (forall c: nat :: Joins(s, c) ==> !s.running && s.unjoined != {})
    && (forall c: nat, d: nat :: Joins(s, c) && Joins(s, d) ==> c == d)
  }

  /** Holds in every reachable state if start and stop calls do not overlap. */
  ghost predicate Serial<T>(s: State<T>) {
    OneCall(s) && Single(s)
  }

  /** A start that creates a worker while a stop waits for the old one. */
  ghost predicate Revives<T>(s: State<T>, a: Action<T>) {
    && a.ControllerDoes? && a.c < |s.controllers| && s.controllers[a.c].StartHolds?
    && a.control == StartBody(true) && !s.running
    && exists d: nat :: Joins(s, d)
  }

  /** The newest sample is the one a callback was called for. */
  ghost predicate CallbackCurrent<T>(s: State<T>) {
    forall w :: 0 <= w < |s.workers| ==>
                  match s.workers[w]
                  case Captured(item, _) => s.history != [] && s.history[|s.history| - 1] == item
                  case Due(item, seen) => 0 < seen == |s.history| && s.history[seen - 1] == item
                  case InCallback(item, seen, _) => 0 < seen == |s.history| && s.history[seen - 1] == item
                  case _ => true
  }

  lemma InitSerial<T>(s: State<T>)
    requires Init(s)
    ensures Serial(s) && CallbackCurrent(s)
  {
  }

  lemma WorkerKeepsSingle<T>(s: State<T>, w: nat, step: WorkerStep<T>)
    requires RingValid(s.ring) && Single(s) && WorkerNext(s, w, step).Some?
    ensures Single(WorkerNext(s, w, step).value)
  {
    var t := WorkerNext(s, w, step).value;
    assert forall v: nat :: v != w ==> Alive(t, v) == Alive(s, v);
    assert Alive(s, w);
    assert s.running ==> Alive(t, w);
    assert forall c: nat :: Joins(t, c) == Joins(s, c);
  }

  lemma CallbackKeepsSingle<T>(s: State<T>, w: nat, step: CallStep)
    requires RingValid(s.ring) && Single(s) && CallbackNext(s, w, step).Some?
    ensures Single(CallbackNext(s, w, step).value)
  {
    var t := CallbackNext(s, w, step).value;
    assert forall v: nat :: Alive(t, v) == Alive(s, v);
    assert forall c: nat :: Joins(t, c) == Joins(s, c);
  }

  lemma ReaderKeepsSingle<T>(s: State<T>, r: nat, step: CallStep)
    requires RingValid(s.ring) && Single(s) && ReaderNext(s, r, step).Some?
    ensures Single(ReaderNext(s, r, step).value)
  {
    var t := ReaderNext(s, r, step).value;
    assert forall v: nat :: Alive(t, v) == Alive(s, v);
    assert forall c: nat :: Joins(t, c) == Joins(s, c);
  }

  lemma StartKeepsSingle<T>(serial: bool, s: State<T>, c: nat)
    requires Single(s) && c < |s.controllers| && s.controllers[c].StartHolds? && !s.running
    requires forall d: nat :: !Joins(s, d)
    ensures Single(ControllerNext(serial, s, c, StartBody(true)).value)
  {
    var t := ControllerNext(serial, s, c, StartBody(true)).value;
    assert s.unjoined == {};
    assert forall v: nat :: !Alive(s, v);
    assert Alive(t, |s.workers|);
    assert forall d: nat :: Joins(t, d) == Joins(s, d);
    forall v: nat | Alive(t, v)
      ensures v == |s.workers|
    {
      assert !Alive(s, v);
    }
  }

  lemma StopKeepsSingle<T>(serial: bool, s: State<T>, c: nat)
    requires Single(s) && c < |s.controllers| && s.controllers[c].StopHolds?
    ensures Single(ControllerNext(serial, s, c, StopBody).value)
  {
    var t := ControllerNext(serial, s, c, StopBody).value;
    assert forall v: nat :: Alive(t, v) == Alive(s, v);
    assert forall d: nat :: d != c ==> Joins(t, d) == Joins(s, d);
    assert Joins(t, c) == s.running;
  }

  lemma JoinKeepsSingle<T>(serial: bool, s: State<T>, c: nat)
    requires Single(s) && ControllerNext(serial, s, c, Join).Some?
    ensures Single(ControllerNext(serial, s, c, Join).value)
  {
    var t := ControllerNext(serial, s, c, Join).value;
    assert Joins(s, c);
    assert t.unjoined == {};
    assert forall v: nat :: Alive(t, v) == Alive(s, v);
    forall v: nat
      ensures !Alive(t, v)
    {
      assert Alive(s, v) ==> Newest(s, v);
    }
    assert forall d: nat :: d != c ==> Joins(t, d) == Joins(s, d);
  }

  lemma ControllerKeepsSingle<T>(serial: bool, s: State<T>, c: nat, step: ControlStep)
    requires Single(s) && ControllerNext(serial, s, c, step).Some? && !Revives<T>(s, ControllerDoes(c, step))
    ensures Single(ControllerNext(serial, s, c, step).value)
  {
    if step == StartBody(true) && !s.running {
      StartKeepsSingle(serial, s, c);
    } else if step == StopBody {
      StopKeepsSingle(serial, s, c);
    } else if step == Join {
      JoinKeepsSingle(serial, s, c);
    } else {
      var t := ControllerNext(serial, s, c, step).value;
      assert forall v: nat :: Alive(t, v) == Alive(s, v);
      assert forall d: nat :: Joins(t, d) == Joins(s, d);
    }
  }

  /** Without such a start every step keeps a single worker, however the calls overlap. */
  lemma StepSingle<T>(serial: bool, s: State<T>, a: Action<T>)
    requires RingValid(s.ring) && Single(s) && Next(serial, s, a).Some? && !Revives(s, a)
    ensures Single(Next(serial, s, a).value)
  {
    match a
    case WorkerDoes(w, step) => WorkerKeepsSingle(s, w, step);
    case CallbackDoes(w, call) => CallbackKeepsSingle(s, w, call);
    case ReaderDoes(r, call) => ReaderKeepsSingle(s, r, call);
    case ControllerDoes(c, control) => ControllerKeepsSingle(serial, s, c, control);
  }

  /** With one there are two threads that have not been joined. */
  lemma RevivalDoubles<T>(serial: bool, s: State<T>, a: Action<T>)
    requires RingValid(s.ring) && Single(s) && Next(serial, s, a).Some? && Revives(s, a)
    ensures |Next(serial, s, a).value.unjoined| == 2
  {
    var d: nat :| Joins(s, d);
    var w: nat :| w in s.unjoined;
    assert s.unjoined == {|s.workers| - 1};
    assert Next(serial, s, a).value.unjoined == {|s.workers| - 1, |s.workers|};
  }

  lemma StepOneCall<T>(s: State<T>, a: Action<T>)
    requires RingValid(s.ring) && OneCall(s) && Next(true, s, a).Some?
    ensures OneCall(Next(true, s, a).value) && !Revives(s, a)
  {
  }

  /** Only the worker that captures moves the history, and no other worker is alive. */
  lemma WorkerKeepsCurrent<T>(s: State<T>, w: nat, step: WorkerStep<T>)
    requires Safe(s) && Single(s) && CallbackCurrent(s) && WorkerNext(s, w, step).Some?
    ensures CallbackCurrent(WorkerNext(s, w, step).value)
  {
    var t := WorkerNext(s, w, step).value;
    assert Alive(s, w);
    forall v | 0 <= v < |t.workers| && v != w
      ensures t.workers[v].Exited?
    {
      assert !Alive(s, v);
    }
  }

  /** Invariant of every run in which start and stop calls do not overlap. */
  ghost predicate SerialSafe<T>(s: State<T>) {
    Safe(s) && Serial(s) && CallbackCurrent(s)
  }

  lemma StepSerial<T>(s: State<T>, a: Action<T>)
    requires SerialSafe(s) && Next(true, s, a).Some?
    ensures SerialSafe(Next(true, s, a).value)
  {
    StepSafe(true, s, a);
    OthersKeepCurrent(s, a);
    StepOneCall(s, a);
    StepSingle(true, s, a);
    if a.WorkerDoes? {
      WorkerKeepsCurrent(s, a.w, a.step);
    }
  }

  lemma OthersKeepCurrent<T>(s: State<T>, a: Action<T>)
    requires RingValid(s.ring) && CallbackCurrent(s) && Next(true, s, a).Some?
    ensures !a.WorkerDoes? ==> CallbackCurrent(Next(true, s, a).value)
  {
  }

  // ----- what holds of whole runs

  /** Where a run of steps leads; `None` if one of them is not possible. */
  function Run<T>(serial: bool, s: State<T>, actions: seq<Action<T>>): Option<State<T>>
    decreases |actions|
  {
    if actions == [] then Some(s)
    else if !RingValid(s.ring) then None
    else
      match Next(serial, s, actions[0])
      case None => None
      case Some(t) => Run(serial, t, actions[1..])
  }

  lemma {:induction false} RunAppend<T>(serial: bool, s: State<T>, first: seq<Action<T>>, second: seq<Action<T>>)
    ensures Run(serial, s, first + second) ==
            match Run(serial, s, first)
            case None => None
            case Some(t) => Run(serial, t, second)
    decreases |first|
  {
    if first == [] {
      assert first + second == second;
    } else if RingValid(s.ring) && Next(serial, s, first[0]).Some? {
      assert (first + second)[1..] == first[1..] + second;
      RunAppend(serial, Next(serial, s, first[0]).value, first[1..], second);
    }
  }

  /** Mutual exclusion and a consistent history in every interleaving. */
  lemma {:induction false} RunSafe<T>(serial: bool, s: State<T>, actions: seq<Action<T>>)
    requires Safe(s) && Run(serial, s, actions).Some?
    ensures Safe(Run(serial, s, actions).value)
    decreases |actions|
  {
    if actions != [] {
      StepSafe(serial, s, actions[0]);
      RunSafe(serial, Next(serial, s, actions[0]).value, actions[1..]);
    }
  }

  lemma {:induction false} RunSerial<T>(s: State<T>, actions: seq<Action<T>>)
    requires SerialSafe(s) && Run(true, s, actions).Some?
    ensures SerialSafe(Run(true, s, actions).value)
    decreases |actions|
  {
    if actions != [] {
      StepSerial(s, actions[0]);
      RunSerial(Next(true, s, actions[0]).value, actions[1..]);
    }
  }

  /** What a single worker means. */
  ghost predicate OneWorkerAtMost<T>(s: State<T>) {
    && (forall v, w :: Alive(s, v) && Alive(s, w) ==> v == w)
    && |s.unjoined| <= 1
    && (s.running ==> s.workers != [] && Alive(s, |s.workers| - 1) && s.unjoined == {|s.workers| - 1})
  }

  lemma SingleIsOne<T>(s: State<T>)
    requires Single(s)
    ensures OneWorkerAtMost(s)
  {
    if s.unjoined != {} {
      var w :| w in s.unjoined;
      assert s.unjoined == {w};
    }
  }

  /** With start and stop calls one at a time there is never more than one live worker, and
      is_running means exactly one, which is the only thread not yet joined. */
  lemma OneWorker<T>(init: State<T>, actions: seq<Action<T>>)
    requires Init(init) && Run(true, init, actions).Some?
    ensures OneWorkerAtMost(Run(true, init, actions).value)
  {
    InitSafe(init);
    InitSerial(init);
    RunSerial(init, actions);
    SingleIsOne(Run(true, init, actions).value);
  }

  /** The states of a run, from the first on. */
  function StateAt<T>(init: State<T>, actions: seq<Action<T>>, n: nat): Option<State<T>>
    requires n <= |actions|
  {
    Run(false, init, actions[..n])
  }

  lemma NextState<T>(init: State<T>, actions: seq<Action<T>>, n: nat)
    requires n < |actions| && Run(false, init, actions).Some?
    ensures var s := StateAt(init, actions, n);
      s.Some? && RingValid(s.value.ring) && Next(false, s.value, actions[n]) == StateAt(init, actions, n + 1) != None
  {
    RunAppend(false, init, actions[..n], actions[n..]);
    assert actions[..n] + actions[n..] == actions;
    RunAppend(false, init, actions[..n], [actions[n]]);
    assert actions[..n] + [actions[n]] == actions[..n + 1];
    RunAppend(false, init, actions[..n + 1], actions[n + 1..]);
    assert actions[..n + 1] + actions[n + 1..] == actions;
    assert [actions[n]][1..] == [];
  }

  /** Step `n` of the run is a start that creates a worker while a stop waits in its join. */
  ghost predicate RevivesAt<T>(init: State<T>, actions: seq<Action<T>>, n: nat)
    requires n < |actions|
  {
    var s := StateAt(init, actions, n);
    s.Some? && Revives(s.value, actions[n])
  }

  lemma {:induction false} SingleUpTo<T>(init: State<T>, actions: seq<Action<T>>, n: nat)
    requires Init(init) && Run(false, init, actions).Some? && n <= |actions|
    requires forall m: nat :: m < n ==> !RevivesAt(init, actions, m)
    ensures StateAt(init, actions, n).Some? && Single(StateAt(init, actions, n).value)
  {
    if n == 0 {
      assert actions[..0] == [];
      InitSerial(init);
    } else {
      SingleUpTo(init, actions, n - 1);
      NextState(init, actions, n - 1);
      assert !RevivesAt(init, actions, n - 1);
      StepSingle(false, StateAt(init, actions, n - 1).value, actions[n - 1]);
    }
  }

  /** Exactly when the calls may overlap: at no time is there more than one thread to join if and
      only if no start creates a worker while a stop waits in its join. */
  lemma OverlapExact<T>(init: State<T>, actions: seq<Action<T>>)
    requires Init(init) && Run(false, init, actions).Some?
    ensures (forall n: nat :: n < |actions| ==> !RevivesAt(init, actions, n)) <==>
            (forall n: nat :: n <= |actions| ==> UnjoinedAt(init, actions, n) <= 1)
  {
    if n: nat :| n < |actions| && RevivesAt(init, actions, n) {
      var m := FirstRevival(init, actions, n);
      SingleUpTo(init, actions, m);
      NextState(init, actions, m);
      RevivalDoubles(false, StateAt(init, actions, m).value, actions[m]);
      assert UnjoinedAt(init, actions, m + 1) == 2;
    } else {
      forall n: nat | n <= |actions|
        ensures UnjoinedAt(init, actions, n) <= 1
      {
        SingleUpTo(init, actions, n);
        SingleIsOne(StateAt(init, actions, n).value);
      }
    }
  }

  ghost function UnjoinedAt<T>(init: State<T>, actions: seq<Action<T>>, n: nat): nat
    requires n <= |actions|
  {
    var s := StateAt(init, actions, n);
    if s.Some? then |s.value.unjoined| else 0
  }

  lemma {:induction false} FirstRevival<T>(init: State<T>, actions: seq<Action<T>>, n: nat) returns (m: nat)
    requires n < |actions| && RevivesAt(init, actions, n)
    ensures m < |actions| && RevivesAt(init, actions, m)
    ensures forall k: nat :: k < m ==> !RevivesAt(init, actions, k)
  {
    m := n;
    if k: nat :| k < n && RevivesAt(init, actions, k) {
      m := FirstRevival(init, actions, k);
    }
  }

  /** And then, however the calls overlap, there is one worker at most, the one is_running stands for. */
  lemma OneWorkerDespiteOverlap<T>(init: State<T>, actions: seq<Action<T>>)
    requires Init(init) && Run(false, init, actions).Some?
    requires forall n: nat :: n < |actions| ==> !RevivesAt(init, actions, n)
    ensures OneWorkerAtMost(Run(false, init, actions).value)
  {
    SingleUpTo(init, actions, |actions|);
    assert actions[..|actions|] == actions;
    SingleIsOne(Run(false, init, actions).value);
  }

  /** Stopped: no start or stop call is under way and is_running is 0. */
  ghost predicate Stopped<T>(s: State<T>) {
    SerialSafe(s) && AllIdle(s) && !s.running
  }

  /** The step that creates a worker. */
  predicate Starts<T>(a: Action<T>) {
    a.ControllerDoes? && a.control.StartBody?
  }

  /** When a stop call returns, everything is stopped: the worker has been joined. */
  lemma StopReturnsStopped<T>(s: State<T>, c: nat, step: ControlStep)
    requires SerialSafe(s) && StopReturns(s, c, step)
    ensures Stopped(ControllerNext(true, s, c, step).value)
  {
    StepSerial(s, ControllerDoes(c, step));
    assert s.controllers[c].Joining? ==> Joins(s, c);
  }

  lemma StoppedIsQuiet<T>(s: State<T>)
    requires Stopped(s)
    ensures s.unjoined == {} && Quiet(s)
  {
    assert forall c: nat :: !Joins(s, c);
  }

  /** Every state between a stop and the next start: all workers are gone and nothing is captured. */
  ghost predicate Quiet<T>(s: State<T>) {
    SerialSafe(s) && !s.running && forall w: nat :: !Alive(s, w)
  }

  lemma QuietStep<T>(s: State<T>, a: Action<T>)
    requires Quiet(s) && Next(true, s, a).Some? && !Starts(a)
    ensures Quiet(Next(true, s, a).value) && Next(true, s, a).value.history == s.history
    ensures !a.WorkerDoes? && !a.CallbackDoes?
  {
    StepSerial(s, a);
    var w: nat := if a.WorkerDoes? || a.CallbackDoes? then a.w else 0;
    assert !Alive(s, w);
    assert forall w: nat :: Alive(Next(true, s, a).value, w) == Alive(s, w);
  }

  /** Once stop has returned there is no capture and no callback until the next start. */
  lemma {:induction false} QuietUntilStart<T>(s: State<T>, actions: seq<Action<T>>)
    requires Quiet(s) && Run(true, s, actions).Some?
    requires forall i :: 0 <= i < |actions| ==> !Starts(actions[i])
    ensures Run(true, s, actions).value.history == s.history && !Run(true, s, actions).value.running
    ensures forall i :: 0 <= i < |actions| ==> !actions[i].WorkerDoes? && !actions[i].CallbackDoes?
    decreases |actions|
  {
    if actions != [] {
      QuietStep(s, actions[0]);
      QuietUntilStart(Next(true, s, actions[0]).value, actions[1..]);
      assert forall i :: 0 < i < |actions| ==> actions[i] == actions[1..][i - 1];
    }
  }

  /** The step with which a stop call returns. */
  predicate StopReturns<T>(s: State<T>, c: nat, step: ControlStep) {
    && c < |s.controllers| && (s.controllers[c].Joining? || s.controllers[c].StopHolds?)
    && ControllerNext(true, s, c, step).Some? && ControllerNext(true, s, c, step).value.controllers[c].Idle?
  }

  lemma StopLeavesQuiet<T>(init: State<T>, before: seq<Action<T>>, c: nat, step: ControlStep)
    requires Init(init) && Run(true, init, before).Some? && StopReturns(Run(true, init, before).value, c, step)
    ensures var s := Run(true, init, before).value;
      var t := ControllerNext(true, s, c, step).value;
      RingValid(s.ring) && Quiet(t) && t.history == s.history
  {
    InitSafe(init);
    InitSerial(init);
    RunSerial(init, before);
    var s := Run(true, init, before).value;
    StopReturnsStopped(s, c, step);
    StoppedIsQuiet(ControllerNext(true, s, c, step).value);
  }

  lemma RunFirst<T>(serial: bool, s: State<T>, t: State<T>, a: Action<T>, rest: seq<Action<T>>)
    requires RingValid(s.ring) && Next(serial, s, a) == Some(t)
    ensures Run(serial, s, [a] + rest) == Run(serial, t, rest)
  {
    assert ([a] + rest)[1..] == rest;
  }

  /** Of any run with start and stop calls one at a time: from the return of a stop on, no worker and
      no callback takes a step and nothing is captured, until the next start. */
  lemma NothingAfterStop<T>(init: State<T>, before: seq<Action<T>>, c: nat, step: ControlStep, after: seq<Action<T>>)
    requires Init(init) && Run(true, init, before + ([ControllerDoes(c, step)] + after)).Some?
    requires Run(true, init, before).Some? && StopReturns(Run(true, init, before).value, c, step)
    requires forall i :: 0 <= i < |after| ==> !Starts(after[i])
    ensures var end := Run(true, init, before + ([ControllerDoes(c, step)] + after)).value;
      end.history == Run(true, init, before).value.history && !end.running
    ensures forall i :: 0 <= i < |after| ==> !after[i].WorkerDoes? && !after[i].CallbackDoes?
  {
    var stop: Action<T> := ControllerDoes(c, step);
    var s := Run(true, init, before).value;
    var t := ControllerNext(true, s, c, step).value;
    StopLeavesQuiet(init, before, c, step);
    RunAppend(true, init, before, [stop] + after);
    RunFirst(true, s, t, stop, after);
    QuietUntilStart(t, after);
  }

  /** How many steps of its own a worker outside a call is from its end, once is_running is 0. */
  function Rank<T>(pc: WorkerPc<T>): nat {
    match pc
    case Advanced => 7
    case Captured(_, _) => 6
    case Due(_, _) => 5
    case InCallback(_, _, _) => 4
    case Sleeping => 3
    case AtTop => 2
    case Locked => 1
    case Exited => 0
  }

  /** The join of a stop does not wait for ever: with is_running 0 every step of a worker's loop
      brings it nearer to its end, and one is possible unless it waits for the lock or is in a call. */
  lemma StoppingWorkerEnds<T>(s: State<T>, w: nat)
    requires Safe(s) && !s.running && Alive(s, w)
    ensures forall step :: WorkerNext(s, w, step).Some? ==>
                             Rank(WorkerNext(s, w, step).value.workers[w]) < Rank(s.workers[w])
    ensures var pc := s.workers[w];
      || (exists step :: WorkerNext(s, w, step).Some?)
      || (pc.AtTop? && s.lock.Some?)
      || (pc.InCallback? && !pc.call.NotCalling?)
  {
    var pc := s.workers[w];
    var step := match pc
      case Advanced => Capture(s.ring.slots[0], true)
      case Captured(_, _) => Release
      case Due(_, _) => Skip
      case InCallback(_, _, _) => LeaveCallback
      case Sleeping => Wake
      case AtTop => Acquire
      case _ => Check;
    if !(pc.AtTop? && s.lock.Some?) && !(pc.InCallback? && !pc.call.NotCalling?) {
      assert WorkerNext(s, w, step).Some?;
    }
  }

  /** A callback that calls sampler_get_value never waits for itself, and if it gets an answer
      the newest sample in it is the capture that the callback was called for. */
  lemma CallbackSeesItsCapture<T>(init: State<T>, actions: seq<Action<T>>, w: nat)
    requires Init(init) && Run(true, init, actions).Some?
    requires var s := Run(true, init, actions).value; w < |s.workers| && s.workers[w].InCallback?
    ensures var s := Run(true, init, actions).value;
      var pc := s.workers[w];
      && SerialSafe(s)
      && (pc.call.WantLock? ==> s.lock != Some(Worker(w)))
      && (pc.call.Peeked? ==>
            var answer := ExpectedAnswer(s.history, pc.call.window);
            && CallbackNext(s, w, Finish) ==
               Some(s.(lock := None, workers := s.workers[w := pc.(call := Answered(answer))]))
            && (answer.Applied? ==> answer.current == pc.item))
  {
    InitSafe(init);
    InitSerial(init);
    RunSerial(init, actions);
    var s := Run(true, init, actions).value;
    assert Holds(s, Worker(w)) <==> s.lock == Some(Worker(w));
    assert CallOf(s, Worker(w)) == s.workers[w].call;
    if s.workers[w].call.Peeked? {
      GetValueSeesHistory(s, Worker(w));
    }
  }

  /** A start call of thread `c`, alone with the lock, and a stop call up to its join. */
  function StartCall<T>(c: nat): seq<Action<T>> {
    [ControllerDoes(c, BeginStart), ControllerDoes(c, TakeLock), ControllerDoes(c, StartBody(true))]
  }

  function StopCallUpToJoin<T>(c: nat): seq<Action<T>> {
    [ControllerDoes(c, BeginStop), ControllerDoes(c, TakeLock), ControllerDoes(c, StopBody)]
  }

  lemma ThreeSteps<T>(s: State<T>, t: State<T>, u: State<T>, v: State<T>, actions: seq<Action<T>>)
    requires |actions| == 3 && RingValid(s.ring) && RingValid(t.ring) && RingValid(u.ring)
    requires Next(false, s, actions[0]) == Some(t)
    requires Next(false, t, actions[1]) == Some(u)
    requires Next(false, u, actions[2]) == Some(v)
    ensures Run(false, s, actions) == Some(v)
  {
    assert Run(false, v, actions[1..][1..][1..]) == Some(v);
    assert Run(false, u, actions[1..][1..]) == Some(v);
    assert Run(false, t, actions[1..]) == Some(v);
  }

  lemma StartCallRuns<T>(s: State<T>, c: nat)
    requires RingValid(s.ring) && s.lock.None? && !s.running && c < |s.controllers| && s.controllers[c].Idle?
    ensures Run(false, s, StartCall(c)) ==
            Some(s.(running := true, workers := s.workers + [AtTop], unjoined := s.unjoined + {|s.workers|}))
  {
    var t := s.(controllers := s.controllers[c := StartWants]);
    var u := s.(lock := Some(Controller(c)), controllers := s.controllers[c := StartHolds]);
    var v := s.(running := true, workers := s.workers + [AtTop], unjoined := s.unjoined + {|s.workers|});
    assert t.controllers[c := StartHolds] == u.controllers && u.controllers[c := Idle] == s.controllers;
    ThreeSteps(s, t, u, v, StartCall(c));
  }

  lemma StopCallRuns<T>(s: State<T>, c: nat)
    requires RingValid(s.ring) && s.lock.None? && s.running && c < |s.controllers| && s.controllers[c].Idle?
    ensures Run(false, s, StopCallUpToJoin(c)) == Some(s.(running := false, controllers := s.controllers[c := Joining]))
  {
    var t := s.(controllers := s.controllers[c := StopWants]);
    var u := s.(lock := Some(Controller(c)), controllers := s.controllers[c := StopHolds]);
    var v := s.(running := false, controllers := s.controllers[c := Joining]);
    assert t.controllers[c := StopHolds] == u.controllers && u.controllers[c := Joining] == v.controllers;
    ThreeSteps(s, t, u, v, StopCallUpToJoin(c));
  }

  /** Why start and stop must not overlap: a start during the join of a stop revives the old
      worker, and two workers are alive. */
  lemma OverlapGivesTwoWorkers<T>(init: State<T>)
    requires Init(init) && |init.controllers| >= 2
    ensures var end := Run(false, init, StartCall(0) + (StopCallUpToJoin(0) + StartCall(1)));
      end.Some? && end.value.running && Alive(end.value, 0) && Alive(end.value, 1)
  {
    StartCallRuns(init, 0);
    var a := Run(false, init, StartCall(0)).value;
    StopCallRuns(a, 0);
    var b := Run(false, a, StopCallUpToJoin(0)).value;
    StartCallRuns(b, 1);
    RunAppend(false, a, StopCallUpToJoin(0), StartCall(1));
    RunAppend(false, init, StartCall(0), StopCallUpToJoin(0) + StartCall(1));
  }
}
