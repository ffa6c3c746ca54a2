/** The emulator's main loop (main/src/emulator.cpp). */
module Emulator {
  import opened Words
  import opened Decode
  import opened Cpu
  import opened Traps
  import opened Transparency
  import opened LoopDetector
  import Clock
  import Fetch

  datatype CaptureMode = NoCapture | ExceptionOnly | All

  /** `Limit`: the bound on the number of cycles was reached; `Crashed`: the source throws. */
  datatype StopReason = Limit | TrapCaptured | LoopDetected | Crashed

  /** As written, the mode named `Exception_only` captures interrupts. */
  predicate Captures(mode: CaptureMode, report: Report) {
    Trapped(report)
    && match mode
       case NoCapture => false
       case ExceptionOnly => report.result.trap.value.IsInterrupt() && report.result.trap.value != EnvCallFromM
       case All => true
  }

  /** Nothing in the result of a cycle stops the loop. */
  predicate GoesOn(mode: CaptureMode, stopAtLoop: bool, report: Report) {
    !report.Threw? && !Captures(mode, report) && !(stopAtLoop && Fires(report))
  }

  /** What the mode is documented to catch: exceptions other than `ecall`. */
  predicate IsException(report: Report) {
    Trapped(report) && !report.result.trap.value.IsInterrupt() && report.result.trap.value != EnvCallFromM
  }

  /** The mode does what is documented exactly on cycles without a trap and on `ecall`. */
  lemma {:induction false} ExceptionOnlyIsInverted(report: Report)
    ensures Captures(ExceptionOnly, report) == IsException(report)
       <==> !Trapped(report) || report.result.trap.value == EnvCallFromM
  {
  }

  /** None of the first `n` cycles stops the loop. */
  predicate AllGoOn(m: Machine, mode: CaptureMode, stopAtLoop: bool, n: nat) {
    forall i: nat :: i < n ==> GoesOn(mode, stopAtLoop, CachedCycle(CachedRun(m, i)).1)
  }

  /** The reason why a cycle stops the loop, in the order in which the source tests. */
  function WhyStopped(mode: CaptureMode, stopAtLoop: bool, report: Report): StopReason
    requires !GoesOn(mode, stopAtLoop, report)
  {
    if report.Threw? then Crashed
    else if Captures(mode, report) then TrapCaptured
    else LoopDetected
  }

  /** A run of `n` cycles stopped for `reason`: its last cycle is the first that stops the loop. */
  predicate Ends(m: Machine, mode: CaptureMode, stopAtLoop: bool, reason: StopReason, n: nat) {
    if reason == Limit then AllGoOn(m, mode, stopAtLoop, n)
    else
      && n > 0 && AllGoOn(m, mode, stopAtLoop, n - 1)
      && var report := CachedCycle(CachedRun(m, n - 1)).1;
      && !GoesOn(mode, stopAtLoop, report) && reason == WhyStopped(mode, stopAtLoop, report)
  }

  /** The modes: `NoCapture` never ends a run with a trap, `All` ends it at the first one, and `ExceptionOnly` at
      the first interrupt. */
  lemma {:induction false} CaptureModes(m: Machine, mode: CaptureMode, stopAtLoop: bool, reason: StopReason, n: nat)
    requires Ends(m, mode, stopAtLoop, reason, n)
    ensures mode == NoCapture ==> reason != TrapCaptured
    ensures mode == All ==>
              && (reason == TrapCaptured <==> n > 0 && reason != Limit && Trapped(CachedCycle(CachedRun(m, n - 1)).1))
              && forall i: nat :: i < (if reason == TrapCaptured then n - 1 else n) ==>
                   !Trapped(CachedCycle(CachedRun(m, i)).1)
    ensures mode == ExceptionOnly ==>
              forall i: nat :: i < (if reason == TrapCaptured then n - 1 else n) ==>
                var r := CachedCycle(CachedRun(m, i)).1; Trapped(r) ==> !r.result.trap.value.IsInterrupt()
  {
    hide CachedCycle, CachedRun, Fires;
    forall i: nat | i < (if reason == TrapCaptured then n - 1 else n)
      ensures !Captures(mode, CachedCycle(CachedRun(m, i)).1)
    {
      if reason == Limit || i < n - 1 {
        assert GoesOn(mode, stopAtLoop, CachedCycle(CachedRun(m, i)).1);
      }
    }
    EcallIsException();
  }

  lemma {:induction false} EcallIsException()
    ensures !EnvCallFromM.IsInterrupt()
  {
  }

  lemma {:induction false} RunStarts(m: Machine, mode: CaptureMode, stopAtLoop: bool)
    ensures CachedRun(m, 0) == m && AllGoOn(m, mode, stopAtLoop, 0)
  {
  }

  lemma {:induction false} OneMoreCycle(m: Machine, mode: CaptureMode, stopAtLoop: bool, n: nat)
    requires AllGoOn(m, mode, stopAtLoop, n)
    ensures var (after, report) := CachedCycle(CachedRun(m, n));
            && CachedRun(m, n + 1) == after
            && if GoesOn(mode, stopAtLoop, report) then AllGoOn(m, mode, stopAtLoop, n + 1)
               else Ends(m, mode, stopAtLoop, WhyStopped(mode, stopAtLoop, report), n + 1)
  {
    hide CachedCycle, Captures, Fires;
  }

  lemma {:induction false} RunsOut(m: Machine, mode: CaptureMode, stopAtLoop: bool, n: nat)
    requires AllGoOn(m, mode, stopAtLoop, n)
    ensures Ends(m, mode, stopAtLoop, Limit, n)
  {
  }

  class Emulator {
    const cpu: CpuModule
    const trapCapture: CaptureMode
    const stopAtInfiniteLoop: bool
    var instExecuted: DWord

    ghost predicate Valid()
      reads this, cpu, cpu.instFetch, cpu.memory, cpu.memory.rom, cpu.memory.ram, cpu.Repr()
    {
      cpu.Valid() && this !in cpu.Repr()
    }

    constructor (cpu: CpuModule, mode: CaptureMode, stop: bool)
      requires cpu.Valid()
      ensures Valid() && this.cpu == cpu && trapCapture == mode && stopAtInfiniteLoop == stop
      ensures cpu.Whole() == old(cpu.Whole())
    {
      this.cpu, trapCapture, stopAtInfiniteLoop, instExecuted := cpu, mode, stop, 0;
    }

    method TickClock()
      requires Valid()
      modifies cpu.memory.clock`timer, cpu.csr`mip
      ensures Valid() && cpu.Now() == TickDevices(old(cpu.Now()))
      ensures cpu.instFetch.Contents() == old(cpu.instFetch.Contents())
    {
      hide Clock.TickClock, Clock.TickedMip;
      cpu.memory.clock.Tick(cpu.csr);
    }

    method TickOneCycle() returns (report: Report)
      requires Valid()
      modifies this`instExecuted, cpu.Repr()
      ensures Valid() && fresh(cpu.Repr() - old(cpu.Repr()))
      ensures (cpu.Whole(), report) == CachedCycle(old(cpu.Whole()))
      ensures instExecuted == if report.Threw? then old(instExecuted) else (old(instExecuted) + 1) % TWO_64
    {
      hide StepWith, Fetch.CachedFetch, TickDevices;
      report := cpu.Step();
      if report.Threw? {
        return;
      }
      TickClock();
      instExecuted := (instExecuted + 1) % TWO_64;
    }

    /** The source loops until something stops it; `limit` bounds the number of cycles. */
    method Run(limit: nat) returns (reason: StopReason, cycles: nat)
      requires Valid()
      modifies this`instExecuted, cpu.Repr()
      ensures Valid() && cycles <= limit && (reason == Limit ==> cycles == limit)
      ensures cpu.Whole() == CachedRun(old(cpu.Whole()), cycles)
      ensures Ends(old(cpu.Whole()), trapCapture, stopAtInfiniteLoop, reason, cycles)
      ensures instExecuted == (old(instExecuted) + if reason == Crashed then cycles - 1 else cycles) % TWO_64
    {
      hide CachedCycle, Captures, Fires, CachedRun, AllGoOn, Ends, CpuModule.Valid, CpuModule.Whole;
      ghost var start := cpu.Whole();
      cycles := 0;
      RunStarts(start, trapCapture, stopAtInfiniteLoop);
      while cycles < limit
        invariant Valid() && cycles <= limit && fresh(cpu.Repr() - old(cpu.Repr()))
        invariant cpu.Whole() == CachedRun(start, cycles)
        invariant instExecuted == (old(instExecuted) + cycles) % TWO_64
        invariant AllGoOn(start, trapCapture, stopAtInfiniteLoop, cycles)
      {
        var report := TickOneCycle();
        OneMoreCycle(start, trapCapture, stopAtInfiniteLoop, cycles);
        cycles := cycles + 1;
        if report.Threw? {
          return Crashed, cycles;
        }
        if Captures(trapCapture, report) {
          return TrapCaptured, cycles;
        }
        if stopAtInfiniteLoop && Fires(report) {
          return LoopDetected, cycles;
        }
      }
      assert Ends(start, trapCapture, stopAtInfiniteLoop, Limit, cycles) by {
        RunsOut(start, trapCapture, stopAtInfiniteLoop, cycles);
      }
      return Limit, cycles;
    }
  }
}
