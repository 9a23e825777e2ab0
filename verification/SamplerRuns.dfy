/** What the runs of the sampler do, said of the steps taken: the history is the captures made, every
    call of sampler_get_value answers for the window it was called with, and every thread is where its
    own steps have brought it. */
module SamplerRuns {
  import opened Prelude
  import opened RingModel
  import opened Samplers

  /** The items captured, in order. */
  function Captures<T>(actions: seq<Action<T>>): seq<T> {
    if actions == [] then [] else
    var earlier, last := actions[..|actions| - 1], actions[|actions| - 1];
    Captures(earlier) + if last.WorkerDoes? && last.step.Capture? then [last.step.item] else []
  }

  /** The step of sampler_get_value that thread `tid` takes in this action, if any. */
  function CallStepOf<T>(a: Action<T>, tid: Tid): Option<CallStep> {
    match a
    case CallbackDoes(w, call) => if tid == Worker(w) then Some(call) else None
    case ReaderDoes(r, call) => if tid == Reader(r) then Some(call) else None
    case _ => None
  }

  /** The last step of sampler_get_value that thread `tid` has taken. */
  function LastCall<T>(actions: seq<Action<T>>, tid: Tid): Option<CallStep> {
    if actions == [] then None else
    var step := CallStepOf(actions[|actions| - 1], tid);
    if step.Some? then step else LastCall(actions[..|actions| - 1], tid)
  }

  /** The window that thread `tid` last called sampler_get_value with. */
  function WindowOf<T>(actions: seq<Action<T>>, tid: Tid): nat {
    if actions == [] then 0 else
    match CallStepOf(actions[|actions| - 1], tid)
    case Some(Begin(window)) => window
    case _ => WindowOf(actions[..|actions| - 1], tid)
  }

  /** The captures made before thread `tid` last got an answer. */
  function CapturesThen<T>(actions: seq<Action<T>>, tid: Tid): seq<T> {
    if actions == [] then [] else
    var earlier := actions[..|actions| - 1];
    if CallStepOf(actions[|actions| - 1], tid) == Some(Finish) then Captures(earlier) else CapturesThen(earlier, tid)
  }

  /** What sampler_get_value has to answer after these captures. */
  function AnswerFor<T>(captures: seq<T>, window: nat): Answer<T> {
    if |captures| < window + 1 || window >= 100 then Again
    else Applied(captures[|captures| - 1], captures[|captures| - 1 - window])
  }

  ghost predicate Capturing<T>(s: State<T>) {
    exists w: nat :: InCapture(s, w)
  }

  predicate InCapture<T>(s: State<T>, w: nat) {
    w < |s.workers| && s.workers[w].Advanced?
  }

  /** The history is the captures made, and one stale item more while a worker is capturing. */
  ghost predicate HistoryFollows<T>(s: State<T>, actions: seq<Action<T>>) {
    var captures := Captures(actions);
    if Capturing(s) then
      |s.history| == |captures| + 1 && s.history[..|captures|] == captures
    else
      s.history == captures
  }

  /** A call is where the thread's steps have brought it, for the window it was begun with; its answer
      is that of the captures made by the time it got it, until it returns. */
  ghost predicate CallFollows<T>(s: State<T>, actions: seq<Action<T>>, tid: Tid) {
    var call, window := CallOf(s, tid), WindowOf(actions, tid);
    match LastCall(actions, tid)
    case None => call == NotCalling
    case Some(Begin(_)) => call == WantLock(window)
    case Some(Take) => call == HasLock(window)
    case Some(PeekBoth) => call.Peeked? && call.window == window
    case Some(Finish) => call == Answered(AnswerFor(CapturesThen(actions, tid), window))
    case Some(Return) => call == NotCalling
  }

  // ----- the last step of a run

  lemma RunLast<T>(serial: bool, init: State<T>, actions: seq<Action<T>>)
    requires actions != [] && Run(serial, init, actions).Some?
    ensures var s := Run(serial, init, actions[..|actions| - 1]);
      && s.Some? && RingValid(s.value.ring)
      && Next(serial, s.value, actions[|actions| - 1]) == Run(serial, init, actions)
  {
    var earlier, last := actions[..|actions| - 1], actions[|actions| - 1];
    assert earlier + [last] == actions;
    RunAppend(serial, init, earlier, [last]);
    assert [last][1..] == [];
  }

  lemma ReachedSafe<T>(serial: bool, init: State<T>, actions: seq<Action<T>>)
    requires Init(init) && Run(serial, init, actions).Some?
    ensures Safe(Run(serial, init, actions).value)
  {
    InitSafe(init);
    RunSafe(serial, init, actions);
  }

  // ----- captures

  /** A worker that captures owns the mutex, so no other thread captures or reads. */
  lemma CapturerAlone<T>(s: State<T>, w: nat)
    requires Mutex(s) && InCapture(s, w)
    ensures forall v: nat :: InCapture(s, v) ==> v == w
    ensures forall tid :: !CallOf(s, tid).Peeked?
  {
    assert Holds(s, Worker(w));
    forall v: nat | InCapture(s, v)
      ensures v == w
    {
      assert Holds(s, Worker(v));
    }
    forall tid
      ensures !CallOf(s, tid).Peeked?
    {
      if CallOf(s, tid).Peeked? {
        assert Holds(s, tid);
      }
    }
  }

  lemma CaptureStep<T>(s: State<T>, t: State<T>, earlier: seq<Action<T>>, w: nat, item: T, ok: bool)
    requires Safe(s) && HistoryFollows(s, earlier)
    requires WorkerNext(s, w, Capture(item, ok)) == Some(t)
    ensures t.history == Captures(earlier) + [item] && !Capturing(t)
  {
    assert InCapture(s, w);
    CapturerAlone(s, w);
    forall v: nat
      ensures !InCapture(t, v)
    {
      assert InCapture(s, v) ==> v == w;
    }
  }

  lemma CheckStep<T>(s: State<T>, t: State<T>, earlier: seq<Action<T>>, w: nat)
    requires Safe(s) && HistoryFollows(s, earlier) && WorkerNext(s, w, Check) == Some(t)
    ensures HistoryFollows(t, earlier)
  {
    assert Holds(s, Worker(w));
    forall v: nat
      ensures !InCapture(s, v)
    {
      if InCapture(s, v) {
        assert Holds(s, Worker(v));
      }
    }
    forall v: nat | v != w
      ensures !InCapture(t, v)
    {
      assert !InCapture(s, v);
    }
    if s.running {
      assert InCapture(t, w);
    }
  }

  lemma OtherStep<T>(serial: bool, s: State<T>, a: Action<T>)
    requires RingValid(s.ring) && Next(serial, s, a).Some?
    requires a.WorkerDoes? ==> !a.step.Capture? && !a.step.Check?
    ensures var t := Next(serial, s, a).value;
      t.history == s.history && (Capturing(t) <==> Capturing(s))
  {
    var t := Next(serial, s, a).value;
    assert forall v: nat :: InCapture(t, v) <==> InCapture(s, v);
  }

  /** In every interleaving, serial or not: the samples are the captures made, every one of them, in order. */
  lemma {:induction false} HistoryIsCaptures<T>(serial: bool, init: State<T>, actions: seq<Action<T>>)
    requires Init(init) && Run(serial, init, actions).Some?
    ensures HistoryFollows(Run(serial, init, actions).value, actions)
    decreases |actions|
  {
    if actions == [] {
      assert !Capturing(init);
    } else {
      var earlier, a := actions[..|actions| - 1], actions[|actions| - 1];
      RunLast(serial, init, actions);
      var s, t := Run(serial, init, earlier).value, Run(serial, init, actions).value;
      HistoryIsCaptures(serial, init, earlier);
      ReachedSafe(serial, init, earlier);
      if a.WorkerDoes? && a.step.Capture? {
        CaptureStep(s, t, earlier, a.w, a.step.item, a.step.ok);
      } else if a.WorkerDoes? && a.step.Check? {
        CheckStep(s, t, earlier, a.w);
      } else {
        OtherStep(serial, s, a);
      }
    }
  }

  // ----- answers

  lemma OthersKeepCall<T>(serial: bool, s: State<T>, a: Action<T>, tid: Tid)
    requires RingValid(s.ring) && Next(serial, s, a).Some? && CallStepOf(a, tid) == None
    ensures CallOf(Next(serial, s, a).value, tid) == CallOf(s, tid)
  {
  }

  lemma OwnCallStep<T>(serial: bool, s: State<T>, a: Action<T>, tid: Tid)
    requires RingValid(s.ring) && Next(serial, s, a).Some? && CallStepOf(a, tid).Some?
    ensures var t := Next(serial, s, a).value;
      CallNext(s, tid, CallOf(s, tid), CallStepOf(a, tid).value) == Some((t.lock, CallOf(t, tid)))
  {
  }

  /** An answer is that of the captures made so far. */
  lemma AnswerStep<T>(s: State<T>, earlier: seq<Action<T>>, tid: Tid)
    requires Safe(s) && HistoryFollows(s, earlier) && CallOf(s, tid).Peeked?
    ensures var window := CallOf(s, tid).window;
      CallNext(s, tid, CallOf(s, tid), Finish) == Some((None, Answered(AnswerFor(Captures(earlier), window))))
  {
    if w: nat :| InCapture(s, w) {
      CapturerAlone(s, w);
    }
    GetValueSeesHistory(s, tid);
  }

  /** One step inside a call. */
  lemma CallStepFollows<T>(s: State<T>, earlier: seq<Action<T>>, tid: Tid, step: CallStep)
    requires Safe(s) && HistoryFollows(s, earlier) && CallFollows(s, earlier, tid)
    requires CallNext(s, tid, CallOf(s, tid), step).Some?
    ensures var call, window := CallNext(s, tid, CallOf(s, tid), step).value.1, WindowOf(earlier, tid);
      match step
      case Begin(w) => call == WantLock(w)
      case Take => call == HasLock(window)
      case PeekBoth => call.Peeked? && call.window == window
      case Finish => call == Answered(AnswerFor(Captures(earlier), window))
      case Return => call == NotCalling
  {
    if step == Finish {
      AnswerStep(s, earlier, tid);
    }
  }

  /** In every interleaving, serial or not, and for every thread, callbacks included: sampler_get_value
      answers for the window it was called with, out of the captures made by then: EAGAIN exactly if they
      are fewer than window + 1 or the window is 100 or more, and otherwise process_fn of the newest and
      the one exactly `window` captures earlier. */
  lemma {:induction false} AnswersFollow<T>(serial: bool, init: State<T>, actions: seq<Action<T>>, tid: Tid)
    requires Init(init) && Run(serial, init, actions).Some?
    ensures CallFollows(Run(serial, init, actions).value, actions, tid)
    decreases |actions|
  {
    if actions != [] {
      var earlier, a := actions[..|actions| - 1], actions[|actions| - 1];
      RunLast(serial, init, actions);
      var s := Run(serial, init, earlier).value;
      AnswersFollow(serial, init, earlier, tid);
      HistoryIsCaptures(serial, init, earlier);
      ReachedSafe(serial, init, earlier);
      if CallStepOf(a, tid) == None {
        OthersKeepCall(serial, s, a, tid);
      } else {
        OwnCallStep(serial, s, a, tid);
        CallStepFollows(s, earlier, tid, CallStepOf(a, tid).value);
      }
    }
  }

  // ----- is_running

  /** The last start that found a thread to run or made one came after the last stop. */
  predicate Started<T>(actions: seq<Action<T>>) {
    actions != [] &&
    var last := actions[|actions| - 1];
    if last.ControllerDoes? && last.control == StopBody then
      false
    else
      (last.ControllerDoes? && last.control == StartBody(true)) || Started(actions[..|actions| - 1])
  }

  /** is_running says whether the last start came after the last stop. */
  lemma {:induction false} RunningFollows<T>(serial: bool, init: State<T>, actions: seq<Action<T>>)
    requires Init(init) && Run(serial, init, actions).Some?
    ensures Run(serial, init, actions).value.running <==> Started(actions)
    decreases |actions|
  {
    if actions != [] {
      RunLast(serial, init, actions);
      RunningFollows(serial, init, actions[..|actions| - 1]);
    }
  }

  // ----- workers and callbacks

  /** The last step of its loop that worker `w` has taken, and its last capture. */
  function LastWork<T>(actions: seq<Action<T>>, w: nat): Option<WorkerStep<T>> {
    if actions == [] then None else
    var last := actions[|actions| - 1];
    if last.WorkerDoes? && last.w == w then Some(last.step) else LastWork(actions[..|actions| - 1], w)
  }

  function LastCapture<T>(actions: seq<Action<T>>, w: nat): Option<WorkerStep<T>> {
    if actions == [] then None else
    var last := actions[|actions| - 1];
    if last.WorkerDoes? && last.w == w && last.step.Capture? then Some(last.step)
    else LastCapture(actions[..|actions| - 1], w)
  }

  /** The sampler was running when worker `w` last looked. */
  predicate SawRunning<T>(actions: seq<Action<T>>, w: nat) {
    actions != [] &&
    var last, earlier := actions[|actions| - 1], actions[..|actions| - 1];
    if last == WorkerDoes(w, Check) then Started(earlier) else SawRunning(earlier, w)
  }

  /** A worker is where its steps have brought it. It ends exactly if it has seen the sampler stopped.
      After it has let go of the lock a callback is due, for the item captured, exactly if that capture
      succeeded, and it sleeps exactly if it failed. */
  ghost predicate WorkerFollows<T>(s: State<T>, actions: seq<Action<T>>, w: nat)
    requires w < |s.workers|
  {
    var pc, capture := s.workers[w], LastCapture(actions, w);
    match LastWork(actions, w)
    case None => pc == AtTop
    case Some(Acquire) => pc == Locked
    case Some(Check) => pc == if SawRunning(actions, w) then Advanced else Exited
    case Some(Capture(item, ok)) => pc == Captured(item, ok) && capture == LastWork(actions, w)
    case Some(Release) =>
      capture.Some? && capture.value.Capture?
      && if capture.value.ok then pc.Due? && pc.item == capture.value.item else pc == Sleeping
    case Some(EnterCallback) =>
      pc.InCallback? && capture == Some(Capture(pc.item, true))
    case Some(Skip) => pc == Sleeping
    case Some(LeaveCallback) => pc == Sleeping
    case Some(Wake) => pc == AtTop
  }

  lemma OthersKeepWorker<T>(serial: bool, s: State<T>, a: Action<T>, w: nat)
    requires RingValid(s.ring) && Next(serial, s, a).Some? && w < |s.workers|
    requires !(a.WorkerDoes? && a.w == w)
    ensures var t := Next(serial, s, a).value;
      && w < |t.workers|
      && (t.workers[w] == s.workers[w]
          || (s.workers[w].InCallback? && t.workers[w].InCallback? && t.workers[w].item == s.workers[w].item))
  {
  }

  lemma OwnWorkerStep<T>(s: State<T>, t: State<T>, earlier: seq<Action<T>>, w: nat, step: WorkerStep<T>)
    requires RingValid(s.ring) && WorkerNext(s, w, step) == Some(t) && WorkerFollows(s, earlier, w)
    requires s.running <==> Started(earlier)
    ensures WorkerFollows(t, earlier + [WorkerDoes(w, step)], w)
  {
    var actions := earlier + [WorkerDoes(w, step)];
    assert actions[..|actions| - 1] == earlier;
  }

  lemma {:induction false} NoWorkerYet<T>(serial: bool, init: State<T>, actions: seq<Action<T>>, w: nat)
    requires Init(init) && Run(serial, init, actions).Some?
    ensures w >= |Run(serial, init, actions).value.workers| ==> LastWork(actions, w) == None
    decreases |actions|
  {
    if actions != [] {
      RunLast(serial, init, actions);
      NoWorkerYet(serial, init, actions[..|actions| - 1], w);
    }
  }

  /** In every interleaving a callback is entered only for a capture that succeeded, and none is due
      after one that failed. */
  lemma {:induction false} CallbacksFollow<T>(serial: bool, init: State<T>, actions: seq<Action<T>>, w: nat)
    requires Init(init) && Run(serial, init, actions).Some?
    requires w < |Run(serial, init, actions).value.workers|
    ensures WorkerFollows(Run(serial, init, actions).value, actions, w)
    decreases |actions|
  {
    if actions != [] {
      var earlier, a := actions[..|actions| - 1], actions[|actions| - 1];
      assert earlier + [a] == actions;
      RunLast(serial, init, actions);
      var s, t := Run(serial, init, earlier).value, Run(serial, init, actions).value;
      if w >= |s.workers| {
        NoWorkerYet(serial, init, earlier, w);
      } else {
        CallbacksFollow(serial, init, earlier, w);
        if a.WorkerDoes? && a.w == w {
          RunningFollows(serial, init, earlier);
          OwnWorkerStep(s, t, earlier, w, a.step);
        } else {
          OthersKeepWorker(serial, s, a, w);
        }
      }
    }
  }

  /** The answer a callback gets is about the newest sample, which is the capture it was called for. */
  lemma CallbackFinish<T>(s: State<T>, t: State<T>, w: nat)
    requires SerialSafe(s) && Next(true, s, CallbackDoes(w, Finish)) == Some(t)
    requires w < |t.workers| && t.workers[w].InCallback?
    requires var call := t.workers[w].call; call.Answered? && call.answer.Applied?
    ensures t.workers[w].call.answer.current == t.workers[w].item
  {
    assert CallOf(s, Worker(w)) == s.workers[w].call;
    GetValueSeesHistory(s, Worker(w));
  }

  lemma AnswerKept<T>(s: State<T>, t: State<T>, a: Action<T>, w: nat)
    requires RingValid(s.ring) && Next(true, s, a) == Some(t) && a != CallbackDoes(w, Finish)
    requires w < |t.workers| && t.workers[w].InCallback? && t.workers[w].call.Answered?
    ensures w < |s.workers| && s.workers[w] == t.workers[w]
  {
  }

  lemma {:induction false} CallbackAnswer<T>(init: State<T>, actions: seq<Action<T>>, w: nat)
    requires Init(init) && Run(true, init, actions).Some?
    requires var s := Run(true, init, actions).value; w < |s.workers| && s.workers[w].InCallback?
    ensures var pc := Run(true, init, actions).value.workers[w];
      pc.call.Answered? && pc.call.answer.Applied? ==> pc.call.answer.current == pc.item
    decreases |actions|
  {
    if actions != [] {
      var earlier := actions[..|actions| - 1];
      RunLast(true, init, actions);
      var s, t := Run(true, init, earlier).value, Run(true, init, actions).value;
      InitSafe(init);
      InitSerial(init);
      RunSerial(init, earlier);
      var call := t.workers[w].call;
      if call.Answered? && call.answer.Applied? {
        if actions[|actions| - 1] == CallbackDoes(w, Finish) {
          CallbackFinish(s, t, w);
        } else {
          AnswerKept(s, t, actions[|actions| - 1], w);
          CallbackAnswer(init, earlier, w);
        }
      }
    }
  }

  /** With start and stop calls one at a time: a callback that reads gets the capture it was called for as
      the newest, whatever window it asks for, if it gets a value at all. */
  lemma CallbackReadsItsCapture<T>(init: State<T>, actions: seq<Action<T>>, w: nat)
    requires Init(init) && Run(true, init, actions).Some? && LastCall(actions, Worker(w)) == Some(Finish)
    ensures var capture, me := LastCapture(actions, w), Worker(w);
      var answer := AnswerFor(CapturesThen(actions, me), WindowOf(actions, me));
      && CallOf(Run(true, init, actions).value, Worker(w)) == Answered(answer)
      && capture.Some? && capture.value.Capture? && capture.value.ok
      && (answer.Applied? ==> answer.current == capture.value.item)
  {
    AnswersFollow(true, init, actions, Worker(w));
    CallbackItem(true, init, actions, w);
    CallbackAnswer(init, actions, w);
  }

  /** The item a callback is called for is the last one its worker has captured. */
  lemma CallbackItem<T>(serial: bool, init: State<T>, actions: seq<Action<T>>, w: nat)
    requires Init(init) && Run(serial, init, actions).Some?
    requires var s := Run(serial, init, actions).value; w < |s.workers| && s.workers[w].InCallback?
    ensures LastCapture(actions, w) == Some(Capture(Run(serial, init, actions).value.workers[w].item, true))
  {
    CallbacksFollow(serial, init, actions, w);
  }

  // ----- start and stop

  /** The last step of start or stop that thread `c` has taken, and whether its last call was a start. */
  function LastControl<T>(actions: seq<Action<T>>, c: nat): Option<ControlStep> {
    if actions == [] then None else
    var last := actions[|actions| - 1];
    if last.ControllerDoes? && last.c == c then Some(last.control) else LastControl(actions[..|actions| - 1], c)
  }

  predicate CalledStart<T>(actions: seq<Action<T>>, c: nat) {
    actions != [] &&
    var last := actions[|actions| - 1];
    if last.ControllerDoes? && last.c == c && (last.control.BeginStart? || last.control.BeginStop?) then
      last.control.BeginStart?
    else
      CalledStart(actions[..|actions| - 1], c)
  }

  /** The sampler had been started when thread `c` last stopped it. */
  predicate StoppedIt<T>(actions: seq<Action<T>>, c: nat) {
    actions != [] &&
    var last, earlier := actions[|actions| - 1], actions[..|actions| - 1];
    if last == ControllerDoes(c, StopBody) then Started(earlier) else StoppedIt(earlier, c)
  }

  ghost predicate ControllerFollows<T>(s: State<T>, actions: seq<Action<T>>, c: nat)
    requires c < |s.controllers|
  {
    var pc := s.controllers[c];
    match LastControl(actions, c)
    case None => pc == Idle
    case Some(BeginStart) => pc == StartWants && CalledStart(actions, c)
    case Some(BeginStop) => pc == StopWants && !CalledStart(actions, c)
    case Some(TakeLock) => pc == if CalledStart(actions, c) then StartHolds else StopHolds
    case Some(StartBody(_)) => pc == Idle
    case Some(StopBody) => pc == if StoppedIt(actions, c) then Joining else Idle
    case Some(Join) => pc == Idle
  }

  lemma OwnControlStep<T>(serial: bool, s: State<T>, t: State<T>, earlier: seq<Action<T>>, c: nat, step: ControlStep)
    requires ControllerNext(serial, s, c, step) == Some(t) && ControllerFollows(s, earlier, c)
    requires s.running <==> Started(earlier)
    ensures c < |t.controllers| && ControllerFollows(t, earlier + [ControllerDoes(c, step)], c)
  {
    var last: Action<T> := ControllerDoes(c, step);
    var actions := earlier + [last];
    assert actions[..|actions| - 1] == earlier;
  }

  lemma OthersKeepController<T>(serial: bool, s: State<T>, a: Action<T>, c: nat)
    requires RingValid(s.ring) && Next(serial, s, a).Some?
    requires !(a.ControllerDoes? && a.c == c)
    ensures |Next(serial, s, a).value.controllers| == |s.controllers|
    ensures c < |s.controllers| ==> Next(serial, s, a).value.controllers[c] == s.controllers[c]
  {
  }

  /** A thread that calls start or stop is where its own steps have brought it; a stop waits in its join
      exactly if it has stopped a sampler that had been started. */
  lemma {:induction false} ControlsFollow<T>(serial: bool, init: State<T>, actions: seq<Action<T>>, c: nat)
    requires Init(init) && Run(serial, init, actions).Some? && c < |init.controllers|
    ensures var s := Run(serial, init, actions).value;
      c < |s.controllers| && ControllerFollows(s, actions, c)
    decreases |actions|
  {
    if actions != [] {
      var earlier, a := actions[..|actions| - 1], actions[|actions| - 1];
      assert earlier + [a] == actions;
      RunLast(serial, init, actions);
      var s, t := Run(serial, init, earlier).value, Run(serial, init, actions).value;
      ControlsFollow(serial, init, earlier, c);
      if a.ControllerDoes? && a.c == c {
        RunningFollows(serial, init, earlier);
        OwnControlStep(serial, s, t, earlier, c, a.control);
      } else {
        OthersKeepController(serial, s, a, c);
      }
    }
  }

  // ----- what can be done

  /** A call can be begun with any window but 0, and goes on unless it waits for the lock. */
  lemma CallMoves<T>(s: State<T>, tid: Tid)
    requires Safe(s)
    ensures var call := CallOf(s, tid);
      match call
      case NotCalling => forall window :: CallNext(s, tid, call, Begin(window)).Some? <==> window > 0
      case WantLock(_) => CallNext(s, tid, call, Take).Some? <==> s.lock.None?
      case HasLock(_) => CallNext(s, tid, call, PeekBoth).Some?
      case Peeked(_, _, _) => CallNext(s, tid, call, Finish).Some?
      case Answered(_) => CallNext(s, tid, call, Return).Some?
  {
    if CallOf(s, tid).Peeked? {
      GetValueSeesHistory(s, tid);
    }
  }

  /** Threads take the steps of their calls. */
  lemma CallsAreTaken<T>(serial: bool, s: State<T>, tid: Tid, step: CallStep)
    requires RingValid(s.ring) && CallNext(s, tid, CallOf(s, tid), step).Some?
    ensures match tid
      case Worker(w) => w < |s.workers| && s.workers[w].InCallback? ==> Next(serial, s, CallbackDoes(w, step)).Some?
      case Reader(r) => r < |s.readers| ==> Next(serial, s, ReaderDoes(r, step)).Some?
      case Controller(_) => true
  {
  }

  /** A live worker goes on unless it waits for the lock or for its callback; what it captures, and
      whether that succeeds, is up to the capture function. */
  lemma WorkerMoves<T>(s: State<T>, w: nat)
    requires Safe(s) && Alive(s, w)
    ensures match s.workers[w]
      case AtTop => WorkerNext(s, w, Acquire).Some? <==> s.lock.None?
      case Locked => WorkerNext(s, w, Check).Some?
      case Advanced => forall item, ok :: WorkerNext(s, w, Capture(item, ok)).Some?
      case Captured(_, _) => WorkerNext(s, w, Release).Some?
      case Due(_, _) => WorkerNext(s, w, EnterCallback).Some?
      case InCallback(_, _, call) => WorkerNext(s, w, LeaveCallback).Some? <==> call == NotCalling
      case Sleeping => WorkerNext(s, w, Wake).Some?
      case Exited => false
  {
  }

  /** A start or stop call can be made by any thread that makes none, and goes on unless it waits for the
      lock or, in its join, for the worker. */
  lemma ControllerMoves<T>(s: State<T>, c: nat)
    requires c < |s.controllers|
    ensures match s.controllers[c]
      case Idle =>
        && ControllerNext(false, s, c, BeginStart).Some? && ControllerNext(false, s, c, BeginStop).Some?
        && (AllIdle(s) ==>
              ControllerNext(true, s, c, BeginStart).Some? && ControllerNext(true, s, c, BeginStop).Some?)
      case StartHolds => forall serial, created :: ControllerNext(serial, s, c, StartBody(created)).Some?
      case StopHolds => forall serial :: ControllerNext(serial, s, c, StopBody).Some?
      case Joining =>
        forall serial :: ControllerNext(serial, s, c, Join).Some? <==>
                         s.workers != [] && !Alive(s, |s.workers| - 1)
      case _ => forall serial :: ControllerNext(serial, s, c, TakeLock).Some? <==> s.lock.None?
  {
  }
}
