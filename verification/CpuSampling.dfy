/** The usage of src/metrics/cpu.c over a window of the sampler of src/metrics/sampler.c. */
module CpuSampling {
  import opened Prelude
  import opened Cpus
  import opened Samplers
  import opened SamplerRuns

  /** The captures from `window` before the newest one on. */
  function Recent(captures: seq<Cpu>, window: nat): seq<Cpu>
    requires window < |captures|
  {
    captures[|captures| - 1 - window..]
  }

  /** Snapshots that increase, without overflow, and with usage from `lo` to `hi` from one to the next. */
  ghost predicate WithinBounds(recent: seq<Cpu>, lo: int, hi: int) {
    && |recent| > 1 && Increasing(recent)
    && Total(recent[|recent| - 1]) - Total(recent[0]) < ULONG_MODULUS
    && NoOverflow(recent[0], recent[|recent| - 1])
    && forall k :: 0 < k < |recent| ==> lo <= Usage(recent[k - 1], recent[k]) <= hi
  }

  lemma UsageOfRecent(recent: seq<Cpu>, lo: int, hi: int)
    requires WithinBounds(recent, lo, hi)
    ensures var first, last := recent[0], recent[|recent| - 1];
      && Later(first, last)
      && CpuTotalUsage(last, first, 0).0 == CpuSuccess
      && lo <= CpuTotalUsage(last, first, 0).1 <= hi
  {
    WindowUsage(recent, 0, |recent| - 1, lo, hi);
    UsageOfDeltas(recent[0], recent[|recent| - 1], 0);
  }

  /** What a thread reads as CPU usage over `window` captures lies within the bounds of the
      usages from capture to capture, in every interleaving. */
  lemma SampledUsage(serial: bool, init: State<Cpu>, actions: seq<Action<Cpu>>, tid: Tid, lo: int, hi: int)
    requires Init(init) && Run(serial, init, actions).Some? && LastCall(actions, tid) == Some(Finish)
    requires 0 < WindowOf(actions, tid) < |CapturesThen(actions, tid)| && WindowOf(actions, tid) < 100
    requires WithinBounds(Recent(CapturesThen(actions, tid), WindowOf(actions, tid)), lo, hi)
    ensures var call := CallOf(Run(serial, init, actions).value, tid);
      && call.Answered? && call.answer.Applied?
      && var (current, previous) := (call.answer.current, call.answer.previous);
         && Later(previous, current)
         && CpuTotalUsage(current, previous, 0).0 == CpuSuccess
         && lo <= CpuTotalUsage(current, previous, 0).1 <= hi
  {
    AnswersFollow(serial, init, actions, tid);
    UsageOfRecent(Recent(CapturesThen(actions, tid), WindowOf(actions, tid)), lo, hi);
  }
}
