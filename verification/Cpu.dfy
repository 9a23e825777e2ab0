/** The usage arithmetic of src/metrics/cpu.c, with 64-bit unsigned long. */
module Cpus {
  import opened Remainders

  const ULONG_MODULUS: nat := 0x1_0000_0000_0000_0000
  const SCALE: nat := 100000

  type Ulong = x: nat | x < ULONG_MODULUS

  datatype Cpu = Cpu(user: Ulong, nice: Ulong, system: Ulong, idle: Ulong, iowait: Ulong, irq: Ulong, softirq: Ulong,
                     steal: Ulong, guest: Ulong, guestNice: Ulong)

  datatype CpuResult = CpuSuccess | CpuErrInternal

  function Wrap(x: int): (r: Ulong) {
    x % ULONG_MODULUS
  }

  function GetTotalTime(cpu: Cpu): Ulong {
    Wrap(cpu.user + cpu.nice + cpu.system + cpu.idle + cpu.iowait + cpu.irq + cpu.softirq)
  }

  /** The result and what the output parameter holds afterwards. */
  function CpuTotalUsage(curr: Cpu, prev: Cpu, out: Ulong): (CpuResult, Ulong) {
    UsageFromTotals(GetTotalTime(curr), GetTotalTime(prev), Wrap(curr.idle - prev.idle), out)
  }

  function UsageFromTotals(currentTotal: Ulong, previousTotal: Ulong, idleDelta: Ulong, out: Ulong)
    : (CpuResult, Ulong)
  {
    if previousTotal == 0 && currentTotal == 0 then
      (CpuErrInternal, out)
    else
      var totalDelta := Wrap(currentTotal - previousTotal);
      if totalDelta == 0 then
        (CpuSuccess, out)
      else
        (CpuSuccess, UsageOf(idleDelta, totalDelta))
  }

  function UsageOf(idleDelta: Ulong, totalDelta: Ulong): Ulong
    requires totalDelta != 0
  {
    var averageIdleTime := Wrap(idleDelta * SCALE) / totalDelta;
    Wrap(SCALE - averageIdleTime)
  }

  // ----- what the numbers mean

  /** The time all counters together have counted, unwrapped. */
  function Total(c: Cpu): nat {
    c.user + c.nice + c.system + c.idle + c.iowait + c.irq + c.softirq
  }

  /** `b` is a later snapshot than `a`: no counter has gone back, and some time has passed. */
  predicate Later(a: Cpu, b: Cpu) {
    && a.user <= b.user && a.nice <= b.nice && a.system <= b.system && a.idle <= b.idle
    && a.iowait <= b.iowait && a.irq <= b.irq && a.softirq <= b.softirq
    && 0 < Total(b) - Total(a) < ULONG_MODULUS
  }

  function Idle(a: Cpu, b: Cpu): Ulong
    requires Later(a, b)
  {
    b.idle - a.idle
  }

  function Span(a: Cpu, b: Cpu): (n: Ulong)
    requires Later(a, b)
    ensures 0 < n && Idle(a, b) <= n
  {
    Total(b) - Total(a)
  }

  /** The time spent on anything but idling. */
  function Busy(a: Cpu, b: Cpu): nat
    requires Later(a, b)
  {
    (b.user - a.user) + (b.nice - a.nice) + (b.system - a.system) + (b.iowait - a.iowait)
    + (b.irq - a.irq) + (b.softirq - a.softirq)
  }

  lemma BusyOrIdle(a: Cpu, b: Cpu)
    requires Later(a, b)
    ensures Span(a, b) == Busy(a, b) + Idle(a, b)
  {
  }

  /** What cpu_total_usage writes for a later snapshot: see UsageOfDeltas. */
  function Usage(a: Cpu, b: Cpu): Ulong
    requires Later(a, b)
  {
    UsageOf(Idle(a, b), Span(a, b))
  }

  /** The idle time of the interval survives the multiplication by the scale. */
  predicate NoOverflow(a: Cpu, b: Cpu) {
    (b.idle - a.idle) * SCALE < ULONG_MODULUS
  }

  /** `u` is the share part / whole in units of 1 / SCALE, rounded up. */
  predicate RoundedUpShare(u: int, part: nat, whole: nat) {
    (u - 1) * whole < part * SCALE <= u * whole
  }

  /** `q` is numerator / denominator, rounded down. */
  predicate Floor(q: int, numerator: nat, denominator: nat) {
    q * denominator <= numerator < (q + 1) * denominator
  }

  lemma FloorIs(n: nat, d: nat)
    requires d > 0
    ensures Floor(n / d, n, d)
  {
  }

  lemma FloorBelow(a: int, b: int, d: nat)
    requires a * d < b * d
    ensures a < b
  {
    if a >= b {
      ScaleUp(b, a, d);
    }
  }

  lemma WrapSmall(x: nat)
    requires x < ULONG_MODULUS
    ensures Wrap(x) == x
  {
  }

  lemma TotalDelta(a: Cpu, b: Cpu)
    requires Later(a, b)
    ensures Wrap(GetTotalTime(b) - GetTotalTime(a)) == Span(a, b)
    ensures GetTotalTime(a) != GetTotalTime(b)
  {
    assert GetTotalTime(a) == Wrap(Total(a)) && GetTotalTime(b) == Wrap(Total(b));
    DeltaRemainder(Total(a), Total(b), ULONG_MODULUS);
  }

  /** For later snapshots the wrapped differences are the true ones. */
  lemma UsageOfDeltas(a: Cpu, b: Cpu, out: Ulong)
    requires Later(a, b)
    ensures CpuTotalUsage(b, a, out) == (CpuSuccess, Usage(a, b))
  {
    TotalDelta(a, b);
    IdleDelta(a, b);
    UsageOfTotals(GetTotalTime(b), GetTotalTime(a), Idle(a, b), Span(a, b), out);
  }

  lemma IdleDelta(a: Cpu, b: Cpu)
    requires Later(a, b)
    ensures Wrap(b.idle - a.idle) == Idle(a, b)
  {
    WrapSmall(b.idle - a.idle);
  }

  lemma UsageOfTotals(currentTotal: Ulong, previousTotal: Ulong, idle: Ulong, span: Ulong, out: Ulong)
    requires currentTotal != previousTotal && Wrap(currentTotal - previousTotal) == span != 0
    ensures UsageFromTotals(currentTotal, previousTotal, idle, out) == (CpuSuccess, UsageOf(idle, span))
  {
  }

  lemma ShareOfFloor(q: nat, idle: nat, total: nat)
    requires 0 < total && idle <= total && Floor(q, idle * SCALE, total)
    ensures q <= SCALE && RoundedUpShare(SCALE - q, total - idle, total)
  {
    assert idle * SCALE <= total * SCALE;
    FloorBelow(q, SCALE + 1, total);
    assert (SCALE - q) * total == SCALE * total - q * total;
    assert (SCALE - q - 1) * total == SCALE * total - (q + 1) * total;
    assert (total - idle) * SCALE == SCALE * total - idle * SCALE;
  }

  /** Without overflow the usage is the scale less the idle share, rounded down. */
  lemma UsageIsFloor(idle: Ulong, total: Ulong)
    requires 0 < total && idle <= total && idle * SCALE < ULONG_MODULUS
    ensures UsageOf(idle, total) <= SCALE && Floor(SCALE - UsageOf(idle, total), idle * SCALE, total)
  {
    var q := idle * SCALE / total;
    WrapSmall(idle * SCALE);
    FloorIs(idle * SCALE, total);
    ShareOfFloor(q, idle, total);
    WrapSmall(SCALE - q);
  }

  /** Usage is the busy share of the interval, rounded up, and lies in 0..100000. */
  lemma UsageIsBusyShare(a: Cpu, b: Cpu)
    requires Later(a, b) && NoOverflow(a, b)
    ensures Usage(a, b) <= SCALE && RoundedUpShare(Usage(a, b), Busy(a, b), Busy(a, b) + Idle(a, b))
  {
    BusyOrIdle(a, b);
    ShareNumbers(Idle(a, b), Span(a, b));
  }

  lemma ShareNumbers(idle: Ulong, span: Ulong)
    requires 0 < span && idle <= span && idle * SCALE < ULONG_MODULUS
    ensures UsageOf(idle, span) <= SCALE && RoundedUpShare(UsageOf(idle, span), span - idle, span)
  {
    UsageIsFloor(idle, span);
    ShareOfFloor(SCALE - UsageOf(idle, span), idle, span);
  }

  lemma ShareUnique(u: int, v: int, part: nat, whole: nat)
    requires RoundedUpShare(u, part, whole) && RoundedUpShare(v, part, whole)
    ensures u == v
  {
    FloorBelow(u - 1, v, whole);
    FloorBelow(v - 1, u, whole);
  }

  /** Dropping a multiple of the modulus from the numerator changes the quotient. */
  lemma WrappedQuotient(n: nat, d: nat)
    requires 0 < d < ULONG_MODULUS <= n
    ensures Wrap(n) / d < n / d
  {
    assert n == ULONG_MODULUS * (n / ULONG_MODULUS) + Wrap(n);
    assert n / ULONG_MODULUS >= 1;
    var q := Wrap(n) / d;
    FloorIs(Wrap(n), d);
    FloorIs(n, d);
    assert (q + 1) * d == q * d + d;
    FloorBelow(q + 1, n / d + 1, d);
  }

  lemma CorrectIffNumbers(idle: Ulong, span: Ulong)
    requires 0 < span && idle <= span
    ensures RoundedUpShare(UsageOf(idle, span), span - idle, span) <==> idle * SCALE < ULONG_MODULUS
  {
    if idle * SCALE < ULONG_MODULUS {
      ShareNumbers(idle, span);
    } else {
      OverflowWrong(idle, span);
    }
  }

  lemma OverflowWrong(idle: Ulong, span: Ulong)
    requires 0 < span && idle <= span && idle * SCALE >= ULONG_MODULUS
    ensures !RoundedUpShare(UsageOf(idle, span), span - idle, span)
  {
    var q := idle * SCALE / span;
    FloorIs(idle * SCALE, span);
    ShareOfFloor(q, idle, span);
    OverflowDiffers(idle, span);
    if RoundedUpShare(UsageOf(idle, span), span - idle, span) {
      ShareUnique(UsageOf(idle, span), SCALE - q, span - idle, span);
    }
  }

  lemma UsageFromQuotient(idle: Ulong, span: Ulong, q: nat)
    requires 0 < span && Wrap(idle * SCALE) / span == q <= SCALE
    ensures UsageOf(idle, span) == SCALE - q
  {
    WrapSmall(SCALE - q);
  }

  lemma OverflowDiffers(idle: Ulong, span: Ulong)
    requires 0 < span && idle <= span && idle * SCALE >= ULONG_MODULUS
    ensures UsageOf(idle, span) > SCALE - idle * SCALE / span
  {
    var n := idle * SCALE;
    QuotientIsNat(n, span);
    QuotientIsNat(Wrap(n), span);
    WrappedQuotient(n, span);
    FloorIs(n, span);
    ShareOfFloor(n / span, idle, span);
    UsageFromQuotient(idle, span, Wrap(n) / span);
  }

  lemma QuotientIsNat(n: nat, d: nat)
    requires d > 0
    ensures n / d >= 0
  {
  }

  /** Exactly when the multiplication by the scale does not overflow is the result that share. */
  lemma UsageCorrectIff(a: Cpu, b: Cpu)
    requires Later(a, b)
    ensures RoundedUpShare(Usage(a, b), Busy(a, b), Busy(a, b) + Idle(a, b)) <==> NoOverflow(a, b)
  {
    BusyOrIdle(a, b);
    CorrectIffNumbers(Idle(a, b), Span(a, b));
  }

  /** An interval spent idle that overflows by less than its own length is reported as fully busy. */
  lemma IdleMisreported(a: Cpu, b: Cpu)
    requires Later(a, b) && Idle(a, b) == Span(a, b)
    requires ULONG_MODULUS <= Idle(a, b) * SCALE < ULONG_MODULUS + Span(a, b)
    ensures Usage(a, b) == SCALE
  {
    var n := Idle(a, b);
    RemainderUnique(n * SCALE, ULONG_MODULUS, 1, n * SCALE - ULONG_MODULUS);
    SmallQuotient(Wrap(n * SCALE), n);
    UsageFromQuotient(n, n, 0);
  }

  lemma SmallQuotient(x: nat, d: nat)
    requires x < d
    ensures x / d == 0
  {
  }

  lemma IdleFor(n: Ulong) returns (a: Cpu, b: Cpu)
    requires n > 0
    ensures Later(a, b) && Idle(a, b) == Span(a, b) == n
  {
    a := Cpu(0, 0, 0, 0, 0, 0, 0, 0, 0, 0);
    b := a.(idle := n);
  }

  /** The overflow is real. */
  lemma OverflowMisreports() returns (a: Cpu, b: Cpu)
    ensures Later(a, b) && Idle(a, b) == Span(a, b) && Usage(a, b) == SCALE
  {
    a, b := IdleFor(184467440737096);
    IdleMisreported(a, b);
  }

  /** No counter of either snapshot has counted anything, or they have together wrapped round to 0. */
  predicate NothingCounted(c: Cpu) {
    (c.user + c.nice + c.system + c.idle + c.iowait + c.irq + c.softirq) % 18446744073709551616 == 0
  }

  /** When the call fails, and when it leaves the output parameter as it was: two snapshots that have
      counted the same, modulo 2^64. */
  lemma NoInterval(a: Cpu, b: Cpu, out: Ulong)
    ensures CpuTotalUsage(b, a, out).0 == CpuErrInternal <==> NothingCounted(a) && NothingCounted(b)
    ensures (Total(b) - Total(a)) % ULONG_MODULUS == 0 ==> CpuTotalUsage(b, a, out).1 == out
  {
    var x, y := GetTotalTime(a), GetTotalTime(b);
    assert x == Total(a) % ULONG_MODULUS && y == Total(b) % ULONG_MODULUS;
    SameRemainder(Total(b), Total(a), ULONG_MODULUS);
    NoTimePassed(y, x, Wrap(b.idle - a.idle), out);
  }

  lemma NoTimePassed(currentTotal: Ulong, previousTotal: Ulong, idle: Ulong, out: Ulong)
    ensures UsageFromTotals(currentTotal, previousTotal, idle, out).0 == CpuErrInternal <==>
            currentTotal == 0 && previousTotal == 0
    ensures currentTotal == previousTotal ==> UsageFromTotals(currentTotal, previousTotal, idle, out).1 == out
  {
  }

  // ----- windows

  lemma LowerMediant(x: int, m: nat, y: int, n: nat, lo: int)
    requires lo * m <= x && lo * n <= y
    ensures lo * (m + n) <= x + y
  {
  }

  lemma UpperMediant(x: int, m: nat, y: int, n: nat, hi: int)
    requires x < hi * m && y < hi * n
    ensures x + y < hi * (m + n)
  {
  }

  lemma MediantBounds(x: nat, m: nat, y: nat, n: nat, lo: int, hi: int, p: int, q: int, r: int)
    requires Floor(p, x, m) && Floor(q, y, n) && Floor(r, x + y, m + n)
    requires lo <= p <= hi && lo <= q <= hi
    ensures lo <= r <= hi
  {
    ScaleUp(lo, p, m);
    ScaleUp(lo, q, n);
    LowerMediant(x, m, y, n, lo);
    FloorBelow(lo, r + 1, m + n);
    ScaleUp(p + 1, hi + 1, m);
    ScaleUp(q + 1, hi + 1, n);
    UpperMediant(x, m, y, n, hi + 1);
    FloorBelow(r, hi + 1, m + n);
  }

  lemma BetweenNumbers(i: Ulong, m: Ulong, j: Ulong, n: Ulong, lo: int, hi: int)
    requires 0 < m && i <= m && 0 < n && j <= n && m + n < ULONG_MODULUS && (i + j) * SCALE < ULONG_MODULUS
    requires lo <= UsageOf(i, m) <= hi && lo <= UsageOf(j, n) <= hi
    ensures lo <= UsageOf(i + j, m + n) <= hi
  {
    UsageIsFloor(i, m);
    UsageIsFloor(j, n);
    UsageIsFloor(i + j, m + n);
    MediantBounds(i * SCALE, m, j * SCALE, n, SCALE - hi, SCALE - lo,
                  SCALE - UsageOf(i, m), SCALE - UsageOf(j, n), SCALE - UsageOf(i + j, m + n));
  }

  /** Over two adjoining intervals usage lies between the usages of the two, despite the rounding. */
  lemma UsageBetween(a: Cpu, b: Cpu, c: Cpu, lo: int, hi: int)
    requires Later(a, b) && Later(b, c) && Later(a, c) && NoOverflow(a, c)
    requires lo <= Usage(a, b) <= hi && lo <= Usage(b, c) <= hi
    ensures lo <= Usage(a, c) <= hi
  {
    IntervalsAdd(a, b, c);
    BetweenNumbers(Idle(a, b), Span(a, b), Idle(b, c), Span(b, c), lo, hi);
  }

  lemma IntervalsAdd(a: Cpu, b: Cpu, c: Cpu)
    requires Later(a, b) && Later(b, c) && Later(a, c)
    ensures Idle(a, c) == Idle(a, b) + Idle(b, c) && Span(a, c) == Span(a, b) + Span(b, c)
  {
  }

  /** Every snapshot of the history is later than the one before. */
  ghost predicate Increasing(history: seq<Cpu>) {
    forall i :: 0 < i < |history| ==> Later(history[i - 1], history[i])
  }

  lemma {:induction false} LaterOverWindow(history: seq<Cpu>, i: nat, j: nat)
    requires Increasing(history) && i < j < |history|
    requires Total(history[|history| - 1]) - Total(history[0]) < ULONG_MODULUS
    ensures Later(history[i], history[j])
    ensures history[0].idle <= history[i].idle && history[j].idle <= history[|history| - 1].idle
  {
    Ordered(history, 0, i);
    Ordered(history, i, j - 1);
    Ordered(history, j, |history| - 1);
  }

  lemma {:induction false} Ordered(history: seq<Cpu>, i: nat, j: nat)
    requires Increasing(history) && i <= j < |history|
    ensures var a, b := history[i], history[j];
      && a.user <= b.user && a.nice <= b.nice && a.system <= b.system && a.idle <= b.idle
      && a.iowait <= b.iowait && a.irq <= b.irq && a.softirq <= b.softirq
    decreases j - i
  {
    if i < j {
      Ordered(history, i, j - 1);
    }
  }

  /** Over any window of a history, usage stays within the bounds of the single-step usages. */
  lemma {:induction false} WindowUsage(history: seq<Cpu>, i: nat, j: nat, lo: int, hi: int)
    requires Increasing(history) && i < j < |history|
    requires Total(history[|history| - 1]) - Total(history[0]) < ULONG_MODULUS
    requires NoOverflow(history[0], history[|history| - 1])
    requires forall k :: i < k <= j ==> lo <= Usage(history[k - 1], history[k]) <= hi
    ensures Later(history[i], history[j]) && lo <= Usage(history[i], history[j]) <= hi
    decreases j - i
  {
    LaterOverWindow(history, i, j);
    if i + 1 < j {
      WindowUsage(history, i, j - 1, lo, hi);
      UsageBetween(history[i], history[j - 1], history[j], lo, hi);
    }
  }
}
