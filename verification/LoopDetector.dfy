/** The infinite-loop detector of `Emulator::run` (main/src/emulator.cpp): is the loop really infinite? */
module LoopDetector {
  import opened Words
  import opened Decode
  import opened Csr
  import opened Bus
  import opened Cpu
  import opened Traps
  import opened Fetch
  import opened Transparency
  import Alu
  import Clock
  import LoadStore

  /** The detector's test on the result of a cycle. */
  predicate Fires(report: Report) {
    report.Report? && report.result.trap.None?
    && report.result.pc == report.result.aluResult && report.result.branchResult
  }

  /** The timer interrupt cannot be taken, whatever mip becomes. */
  predicate TimerBlocked(f: CsrFile) {
    !MieBit(f.mstatus) || !TimerBit(f.mie)
  }

  /** A `jalr` whose destination is its own base register. */
  predicate OverwritesBase(i: Word) {
    i % 4 == 3 && (i / 4) % 32 == 0x19 && Rd(i) == Rs1(i) && Rd(i) != 0
  }

  /** ... and that does not jump to itself again once the base holds pc + 4. */
  predicate MovesOn(i: Word) {
    OverwritesBase(i) && ImmI(i) != 0xffff_fffc
  }

  /* ---- Decoding the same instruction again ---- */

  /** What a decoded branch or jump looks like. */
  lemma {:induction false} BranchShape(x: Registers, i: Word, pc: Word)
    requires Decode.Decode(x, i, pc).Ok? && Decode.Decode(x, i, pc).value.branchOp != Alu.NoBranch
    ensures var d := Decode.Decode(x, i, pc).value;
            && d.aluOp == Alu.Add && d.memOp == NoMem && d.csr == NO_CSR && !d.mret && !d.ecall
            && d.writeback == (if d.rd == 0 && d.writeback == NoSource then NoSource else PcPlus4)
            && d.rd == (if d.writeback == NoSource then 0 else Rd(i))
  {
    hide ImmI, ImmS, ImmB, ImmJ, ImmU, BaseOp, MulOp;
  }

  /** Executing a branch or jump again after it has written its destination register. */
  lemma {:induction false} DecodeAgain(x: Registers, i: Word, pc: Word, v: Word)
    requires Decode.Decode(x, i, pc).Ok? && Decode.Decode(x, i, pc).value.branchOp != Alu.NoBranch
    ensures var d := Decode.Decode(x, i, pc).value;
            Decode.Decode(SetRegister(x, d.rd, v), i, pc)
              == Ok(if OverwritesBase(i) then d.(num1 := v) else d)
    ensures OverwritesBase(i) ==> Decode.Decode(x, i, pc).value.rd == Rd(i)
                                  && Decode.Decode(x, i, pc).value.num2 == ImmI(i)
                                  && Decode.Decode(x, i, pc).value.writeback == PcPlus4
  {
    hide ImmI, ImmS, ImmB, ImmJ, ImmU, BaseOp, MulOp;
  }

  /* ---- One cycle of a branch or jump ---- */

  /** What every cycle without an interrupt does besides its instruction: counters, clock and mip advance. */
  function Ticks(c: Core): Core {
    TickDevices(c.(csr := Ticked(c.csr)))
  }

  /** A taken branch or jump that is not interrupted only writes its register and moves the pc. */
  lemma {:induction false} TakenCycle(c: Core, f: Outcome)
    requires f.Fetched? && Decode.Decode(c.regs, f.word, c.pc).Ok?
    requires var d := Decode.Decode(c.regs, f.word, c.pc).value;
             d.branchOp != Alu.NoBranch && Alu.Taken(d.branchOp, d.branch1, d.branch2)
    requires !InterruptPending(c.csr)
    ensures var d := Decode.Decode(c.regs, f.word, c.pc).value;
            var (after, report) := Cycle(c, f);
            && report.Report? && report.result.trap.None?
            && after == Ticks(c).(pc := Wrap(d.num1 + d.num2), regs := SetRegister(c.regs, d.rd, Wrap(c.pc + 4)))
  {
    hide Decode.Decode, Alu.Taken, InterruptPending, MieBit, Clock.TickClock, Clock.TickedMip;
    BranchShape(c.regs, f.word, c.pc);
    var d := Decode.Decode(c.regs, f.word, c.pc).value;
    NoMemNoTrap(c.bus, d.memFunct, Alu.Compute(d.aluOp, d.num1, d.num2), d.storeValue);
    hide LoadStore.Perform;
  }

  /** What a firing cycle tells about the instruction. */
  lemma {:induction false} FiredOnBranch(c: Core, f: Outcome)
    requires Fires(Cycle(c, f).1)
    ensures f.Fetched? && Decode.Decode(c.regs, f.word, c.pc).Ok? && !InterruptPending(c.csr)
    ensures var d := Decode.Decode(c.regs, f.word, c.pc).value;
            && d.branchOp != Alu.NoBranch && Alu.Taken(d.branchOp, d.branch1, d.branch2)
            && Wrap(d.num1 + d.num2) == c.pc
  {
    hide Decode.Decode, LoadStore.Perform, AccessCsr, Retire, InterruptPending, WritebackValue;
    if f.Fetched? && Decode.Decode(c.regs, f.word, c.pc).Ok? && !InterruptPending(c.csr) {
      var d := Decode.Decode(c.regs, f.word, c.pc).value;
      if d.branchOp != Alu.NoBranch {
        BranchShape(c.regs, f.word, c.pc);
      }
    }
  }

  /* ---- The loop ---- */

  /** The machine is about to execute, from the cache, a taken branch or jump to itself whose register is
      already written. */
  predicate Turning(m: Machine, i: Word) {
    && m.core.pc % 4 == 0
    && Hit(m.cache[SlotOf(m.core.pc)], m.core.pc)
    && m.cache[SlotOf(m.core.pc)].data[WordInPage(m.core.pc)] == i
    && Decode.Decode(m.core.regs, i, m.core.pc).Ok?
    && var d := Decode.Decode(m.core.regs, i, m.core.pc).value;
    && d.branchOp != Alu.NoBranch && Alu.Taken(d.branchOp, d.branch1, d.branch2)
    && Wrap(d.num1 + d.num2) == m.core.pc
    && SetRegister(m.core.regs, d.rd, Wrap(m.core.pc + 4)) == m.core.regs
  }

  predicate Looping(m: Machine, i: Word) {
    Turning(m, i) && TimerBlocked(m.core.csr)
  }

  /** `n` cycles in which nothing but counters, clock and mip advance. */
  function Idle(c: Core, n: nat): Core {
    if n == 0 then c else Ticks(Idle(c, n - 1))
  }

  function Later(r: Clock.Reg64, n: nat): Clock.Reg64 {
    Clock.ToReg((r.Value() + n) % TWO_64)
  }

  lemma {:induction false} LaterOnce(r: Clock.Reg64, n: nat)
    ensures Clock.ToReg((Later(r, n).Value() + 1) % TWO_64) == Later(r, n + 1)
    ensures Later(r, 0) == r
  {
    CountLater(r.Value(), n);
    RegIsValue((r.Value() + n) % TWO_64);
    ModUnique(r.Value(), TWO_64, 0, r.Value());
    ModUnique(r.Value(), TWO_32, r.high, r.low);
  }

  lemma {:induction false} RegIsValue(v: DWord)
    ensures Clock.ToReg(v).Value() == v
  {
  }

  lemma {:induction false} CountLater(v: DWord, n: nat)
    ensures ((v + n) % TWO_64 + 1) % TWO_64 == (v + n + 1) % TWO_64
  {
    ModShift((v + n) % TWO_64 + 1, (v + n) / TWO_64, TWO_64);
  }

  /** The machine `n` cycles later: timer and both counters are that much later, mip is as given, and
      everything else is as it was. */
  function After(c: Core, n: nat, mip: Word): Core {
    c.(bus := c.bus.(clock := c.bus.clock.(timer := Later(c.bus.clock.timer, n))),
       csr := c.csr.(mcycle := (c.csr.mcycle + n) % TWO_64, minstret := (c.csr.minstret + n) % TWO_64, mip := mip))
  }

  lemma {:induction false} AfterOneMore(c: Core, n: nat, mip: Word)
    ensures var d := Ticks(After(c, n, mip));
            d == After(c, n + 1, d.csr.mip) && d.csr.mip in {mip, RaiseTimer(mip)}
  {
    hide Later, RaiseTimer;
    LaterOnce(c.bus.clock.timer, n);
    CountLater(c.csr.mcycle, n);
    CountLater(c.csr.minstret, n);
  }

  lemma {:induction false} IdleIs(c: Core, n: nat)
    ensures var mip := Idle(c, n).csr.mip;
            Idle(c, n) == After(c, n, mip) && mip in {c.csr.mip, RaiseTimer(c.csr.mip)}
  {
    hide Ticks, RaiseTimer;
    if n == 0 {
      LaterOnce(c.bus.clock.timer, 0);
    } else {
      hide After;
      IdleIs(c, n - 1);
      AfterOneMore(c, n - 1, Idle(c, n - 1).csr.mip);
      RaiseTwice(c.csr.mip);
    }
  }

  lemma {:induction false} RaiseTwice(mip: Word)
    ensures RaiseTimer(RaiseTimer(mip)) == RaiseTimer(mip) && TimerBit(RaiseTimer(mip))
  {
  }

  lemma {:induction false} FetchFromCache(m: Machine, i: Word)
    requires Turning(m, i)
    ensures CachedFetch(m.cache, m.core.bus, m.core.pc) == (m.cache, Fetched(i))
  {
    hide Decode.Decode, Alu.Taken, SetRegister, TimerBlocked;
  }

  lemma {:induction false} TicksElsewhere(c: Core)
    ensures var d := Ticks(c);
            && d.pc == c.pc && d.regs == c.regs && d.csr.mstatus == c.csr.mstatus && d.csr.mie == c.csr.mie
            && d.csr.mepc == c.csr.mepc
  {
  }

  /** Once around the loop, if no interrupt is taken. */
  lemma {:induction false} LoopStep(m: Machine, i: Word)
    requires Turning(m, i) && !InterruptPending(m.core.csr)
    ensures var (after, report) := CachedCycle(m);
            && after == Machine(Ticks(m.core), m.cache) && Turning(after, i)
            && report.Report? && report.result.trap.None?
  {
    hide Decode.Decode, Alu.Taken, SetRegister, Cycle, CachedFetch, Hit, InterruptPending, Ticks;
    FetchFromCache(m, i);
    TakenCycle(m.core, Fetched(i));
    TicksElsewhere(m.core);
  }

  lemma {:induction false} LoopForever(m: Machine, i: Word, n: nat)
    requires Looping(m, i)
    ensures CachedRun(m, n) == Machine(Idle(m.core, n), m.cache) && Looping(CachedRun(m, n), i)
    ensures !Trapped(CachedCycle(CachedRun(m, n)).1) && !CachedCycle(CachedRun(m, n)).1.Threw?
  {
    hide CachedCycle, Turning, Ticks;
    if n != 0 {
      LoopForever(m, i, n - 1);
      Unpending(CachedRun(m, n - 1).core.csr);
      LoopStep(CachedRun(m, n - 1), i);
      TicksElsewhere(CachedRun(m, n - 1).core);
    }
    Unpending(CachedRun(m, n).core.csr);
    LoopStep(CachedRun(m, n), i);
  }

  /** Entering the loop: the cycle on which the detector fires. */
  lemma {:induction false} FiringCycle(m: Machine)
    requires Fires(CachedCycle(m).1)
    ensures CachedFetch(m.cache, m.core.bus, m.core.pc).1.Fetched? && !InterruptPending(m.core.csr)
    ensures var i := CachedFetch(m.cache, m.core.bus, m.core.pc).1.word;
            var after := CachedCycle(m).0;
            && m.core.pc % 4 == 0 && Hit(after.cache[SlotOf(m.core.pc)], m.core.pc)
            && after.cache[SlotOf(m.core.pc)].data[WordInPage(m.core.pc)] == i
            && Decode.Decode(m.core.regs, i, m.core.pc).Ok?
            && var d := Decode.Decode(m.core.regs, i, m.core.pc).value;
            && d.branchOp != Alu.NoBranch && Alu.Taken(d.branchOp, d.branch1, d.branch2)
            && Wrap(d.num1 + d.num2) == m.core.pc
            && after.core == Ticks(m.core).(regs := SetRegister(m.core.regs, d.rd, Wrap(m.core.pc + 4)))
  {
    hide Decode.Decode, Alu.Taken, SetRegister, Cycle, Fires, InterruptPending, ReadBusPage, Ticks;
    var (cache, f) := CachedFetch(m.cache, m.core.bus, m.core.pc);
    FiredOnBranch(m.core, f);
    TakenCycle(m.core, f);
    TicksElsewhere(m.core);
  }

  lemma {:induction false} SetTwice(x: Registers, rd: RegNum, v: Word)
    ensures SetRegister(SetRegister(x, rd, v), rd, v) == SetRegister(x, rd, v)
  {
  }

  /** With the timer interrupt blocked, the detector is right exactly if the instruction is not a `jalr`
      that replaces its own base register by something else: then, after any number of further cycles, the
      pc is the same; otherwise the very next cycle leaves it. */
  lemma {:induction false} DetectorSoundIff(m: Machine)
    requires Fires(CachedCycle(m).1) && TimerBlocked(m.core.csr)
    ensures CachedFetch(m.cache, m.core.bus, m.core.pc).1.Fetched?
    ensures var i := CachedFetch(m.cache, m.core.bus, m.core.pc).1.word;
            var first := CachedCycle(m).0;
            (forall n: nat :: CachedRun(first, n).core.pc == m.core.pc) <==> !MovesOn(i)
  {
    hide CachedCycle, Decode.Decode, ImmI, SetRegister, Alu.Taken, Hit, Ticks, Turning, Idle;
    FiringCycle(m);
    var i := CachedFetch(m.cache, m.core.bus, m.core.pc).1.word;
    var first := CachedCycle(m).0;
    TicksElsewhere(m.core);
    if MovesOn(i) {
      LeavesLoop(m);
      assert CachedRun(first, 1).core.pc == CachedCycle(CachedRun(first, 0)).0.core.pc;
      assert CachedRun(first, 0) == first;
    } else {
      EntersLoop(m);
      forall n: nat
        ensures CachedRun(first, n).core.pc == m.core.pc
      {
        LoopForever(first, i, n);
        IdleIs(first.core, n);
      }
    }
  }

  /** In a real loop the whole machine is known after any number of further cycles: timer and counters are
      that much later, mip may have gained the timer bit, and all else is as it was; and nothing traps. */
  lemma {:induction false} LoopChangesNothing(m: Machine, n: nat)
    requires Fires(CachedCycle(m).1) && TimerBlocked(m.core.csr)
    requires var f := CachedFetch(m.cache, m.core.bus, m.core.pc).1; f.Fetched? ==> !MovesOn(f.word)
    ensures var first := CachedCycle(m).0;
            var now := CachedRun(first, n);
            && now == Machine(After(first.core, n, now.core.csr.mip), first.cache)
            && now.core.csr.mip in {first.core.csr.mip, RaiseTimer(first.core.csr.mip)}
            && !Trapped(CachedCycle(now).1)
  {
    hide CachedCycle, Turning, After, Idle, RaiseTimer, Ticks;
    FiringCycle(m);
    EntersLoop(m);
    TicksElsewhere(m.core);
    var first := CachedCycle(m).0;
    LoopForever(first, CachedFetch(m.cache, m.core.bus, m.core.pc).1.word, n);
    IdleIs(first.core, n);
  }

  lemma {:induction false} EntersLoop(m: Machine)
    requires Fires(CachedCycle(m).1)
    requires var f := CachedFetch(m.cache, m.core.bus, m.core.pc).1; f.Fetched? ==> !MovesOn(f.word)
    ensures CachedFetch(m.cache, m.core.bus, m.core.pc).1.Fetched?
    ensures Turning(CachedCycle(m).0, CachedFetch(m.cache, m.core.bus, m.core.pc).1.word)
  {
    hide CachedCycle, Decode.Decode, SetRegister, Alu.Taken, Hit, Fires, ImmI, CachedFetch, Ticks;
    FiringCycle(m);
    TicksElsewhere(m.core);
    var i := CachedFetch(m.cache, m.core.bus, m.core.pc).1.word;
    var d := Decode.Decode(m.core.regs, i, m.core.pc).value;
    var v := Wrap(m.core.pc + 4);
    DecodeAgain(m.core.regs, i, m.core.pc, v);
    SetTwice(m.core.regs, d.rd, v);
    if OverwritesBase(i) {
      BackByFour(m.core.pc, ImmI(i));
    }
  }

  lemma {:induction false} BackByFour(pc: Word, imm: Word)
    ensures Wrap(Wrap(pc + 4) + imm) == pc <==> imm == 0xffff_fffc
  {
    var next := Wrap(pc + 4);
    assert next == pc + 4 || next == pc + 4 - TWO_32;
    assert Wrap(next + imm) == next + imm || Wrap(next + imm) == next + imm - TWO_32;
  }

  /** The second time around, a `jalr` that moves on takes a pending interrupt or goes elsewhere. */
  lemma {:induction false} MovesOnNext(m: Machine)
    requires Fires(CachedCycle(m).1)
    requires var f := CachedFetch(m.cache, m.core.bus, m.core.pc).1; f.Fetched? && MovesOn(f.word)
    ensures var first := CachedCycle(m).0;
            var (second, report) := CachedCycle(first);
            if InterruptPending(first.core.csr) then TimerTaken(report) else second.core.pc != m.core.pc
  {
    hide Decode.Decode, SetRegister, Alu.Taken, Hit, Fires, ImmI, Cycle, Ticks, InterruptPending, TimerTaken;
    FiringCycle(m);
    TicksElsewhere(m.core);
    var i := CachedFetch(m.cache, m.core.bus, m.core.pc).1.word;
    var first := CachedCycle(m).0;
    var v := Wrap(m.core.pc + 4);
    DecodeAgain(m.core.regs, i, m.core.pc, v);
    assert CachedFetch(first.cache, first.core.bus, first.core.pc).1 == Fetched(i);
    hide CachedFetch;
    if InterruptPending(first.core.csr) {
      BranchShape(first.core.regs, i, first.core.pc);
      BranchInterrupted(first.core, i);
    } else {
      TakenCycle(first.core, Fetched(i));
      BackByFour(m.core.pc, ImmI(i));
    }
  }

  lemma {:induction false} BranchInterrupted(c: Core, i: Word)
    requires Decode.Decode(c.regs, i, c.pc).Ok? && !Decode.Decode(c.regs, i, c.pc).value.ecall
    requires InterruptPending(c.csr)
    ensures TimerTaken(Cycle(c, Fetched(i)).1)
  {
    hide Decode.Decode, InterruptPending, StepWith;
    InterruptTakenIff(c, i);
  }

  lemma {:induction false} LeavesLoop(m: Machine)
    requires Fires(CachedCycle(m).1) && TimerBlocked(m.core.csr)
    requires var f := CachedFetch(m.cache, m.core.bus, m.core.pc).1; f.Fetched? && MovesOn(f.word)
    ensures CachedCycle(CachedCycle(m).0).0.core.pc != m.core.pc
  {
    hide CachedCycle, CachedFetch, MovesOn, Fires, Ticks, InterruptPending, MieBit, TimerBit;
    FiringCycle(m);
    TicksElsewhere(m.core);
    Unpending(CachedCycle(m).0.core.csr);
    MovesOnNext(m);
  }

  /* ---- A loop that waits for the timer ---- */

  predicate TimerTaken(report: Report) {
    report.Report? && report.result.trap == Some(MachineTimerInterrupt)
  }

  /** Once the timer has passed the compare value, mip shows it. */
  predicate Signalled(c: Core) {
    c.bus.clock.timer.Value() > c.bus.clock.comp.Value() ==> TimerBit(c.csr.mip)
  }

  lemma {:induction false} TicksSignal(c: Core)
    ensures Signalled(Ticks(c))
    ensures Ticks(c).bus.clock.comp == c.bus.clock.comp
    ensures c.bus.clock.comp.Value() == TWO_64 - 1 ==> Ticks(c).csr.mip == c.csr.mip
  {
    RaiseTwice(c.csr.mip);
    hide RaiseTimer, TimerBit;
  }

  lemma {:induction false} PendingInLoop(m: Machine, i: Word)
    requires Turning(m, i) && InterruptPending(m.core.csr)
    ensures TimerTaken(CachedCycle(m).1)
  {
    hide Decode.Decode, Alu.Taken, SetRegister, CachedFetch, Hit, InterruptPending, StepWith;
    FetchFromCache(m, i);
    BranchShape(m.core.regs, i, m.core.pc);
    InterruptTakenIff(m.core, i);
  }

  ghost predicate TakenBefore(m: Machine, n: nat) {
    exists k: nat :: k < n && TimerTaken(CachedCycle(CachedRun(m, k)).1)
  }

  lemma {:induction false} TakenSooner(m: Machine, n: nat)
    requires TakenBefore(m, n) || TimerTaken(CachedCycle(CachedRun(m, n)).1)
    ensures TakenBefore(m, n + 1)
  {
    hide CachedCycle, CachedRun, TimerTaken;
  }

  /** The state of the loop while it waits. */
  predicate Waiting(m: Machine, i: Word) {
    Turning(m, i) && Signalled(m.core) && !TimerBlocked(m.core.csr)
  }

  lemma {:induction false} WaitStep(m: Machine, i: Word)
    requires Waiting(m, i) && !InterruptPending(m.core.csr)
    ensures CachedCycle(m).0 == Machine(Ticks(m.core), m.cache) && Waiting(CachedCycle(m).0, i)
  {
    hide CachedCycle, Turning, Ticks, Signalled, InterruptPending, MieBit, TimerBit;
    LoopStep(m, i);
    TicksElsewhere(m.core);
    TicksSignal(m.core);
  }

  /** Until the interrupt is taken the loop goes on. */
  lemma {:induction false} LoopUntilTaken(m: Machine, i: Word, n: nat)
    requires Waiting(m, i)
    ensures TakenBefore(m, n)
         || (CachedRun(m, n) == Machine(Idle(m.core, n), m.cache) && Waiting(CachedRun(m, n), i))
  {
    hide CachedCycle, Ticks, InterruptPending, TimerTaken, Turning, TakenBefore, Signalled, TimerBlocked;
    if n != 0 {
      var before := CachedRun(m, n - 1);
      LoopUntilTaken(m, i, n - 1);
      if TakenBefore(m, n - 1) {
        TakenSooner(m, n - 1);
      } else if InterruptPending(before.core.csr) {
        PendingInLoop(before, i);
        TakenSooner(m, n - 1);
      } else {
        WaitStep(before, i);
      }
    }
  }

  lemma {:induction false} NeverSignalled(m: Machine, i: Word, n: nat)
    requires Turning(m, i) && m.core.bus.clock.comp.Value() == TWO_64 - 1 && !TimerBit(m.core.csr.mip)
    ensures !Trapped(CachedCycle(CachedRun(m, n)).1)
    ensures Turning(CachedRun(m, n), i) && !TimerBit(CachedRun(m, n).core.csr.mip)
    ensures CachedRun(m, n).core.bus.clock.comp == m.core.bus.clock.comp && CachedRun(m, n).core.pc == m.core.pc
  {
    hide CachedCycle, Turning, Ticks, MieBit, TimerBit;
    if n != 0 {
      NeverSignalled(m, i, n - 1);
      LoopStep(CachedRun(m, n - 1), i);
      TicksSignal(CachedRun(m, n - 1).core);
      TicksElsewhere(CachedRun(m, n - 1).core);
    }
    LoopStep(CachedRun(m, n), i);
  }

  /** With the timer interrupt enabled a firing on such an instruction is a false alarm exactly if the compare
      register is below its maximum: the interrupt is then taken after finitely many cycles. */
  lemma {:induction false} WaitEndsIff(m: Machine)
    requires Fires(CachedCycle(m).1) && !TimerBlocked(m.core.csr)
    requires var f := CachedFetch(m.cache, m.core.bus, m.core.pc).1; f.Fetched? ==> !MovesOn(f.word)
    ensures (exists n: nat :: TimerTaken(CachedCycle(CachedRun(CachedCycle(m).0, n)).1))
       <==> m.core.bus.clock.comp.Value() < TWO_64 - 1
  {
    hide CachedCycle, Turning, Ticks, Signalled, TimerTaken, MieBit, TimerBit, Fires, CachedFetch, MovesOn;
    FiringCycle(m);
    EntersLoop(m);
    var i := CachedFetch(m.cache, m.core.bus, m.core.pc).1.word;
    var first := CachedCycle(m).0;
    TicksElsewhere(m.core);
    TicksSignal(m.core);
    SameSignal(first.core, Ticks(m.core));
    if m.core.bus.clock.comp.Value() < TWO_64 - 1 {
      WaitEnds(first, i);
    } else {
      forall n: nat
        ensures !TimerTaken(CachedCycle(CachedRun(first, n)).1)
      {
        NeverSignalled(first, i, n);
        NotTaken(CachedCycle(CachedRun(first, n)).1);
      }
    }
  }

  lemma {:induction false} NotTaken(report: Report)
    requires !Trapped(report)
    ensures !TimerTaken(report)
  {
  }

  lemma {:induction false} SameSignal(c: Core, d: Core)
    requires c.bus == d.bus && c.csr == d.csr
    ensures Signalled(c) <==> Signalled(d)
  {
  }

  lemma {:induction false} WaitEnds(m: Machine, i: Word)
    requires Waiting(m, i) && m.core.bus.clock.comp.Value() < TWO_64 - 1
    ensures exists n: nat :: TimerTaken(CachedCycle(CachedRun(m, n)).1)
  {
    hide CachedCycle, Turning, TimerTaken, MieBit, TimerBit, Ticks, Idle;
    var t := m.core.bus.clock.timer;
    var n := TWO_64 - 1 - t.Value();
    LoopUntilTaken(m, i, n);
    if !TakenBefore(m, n) {
      IdleIs(m.core, n);
      assert Later(t, n).Value() == TWO_64 - 1;
      PendingInLoop(CachedRun(m, n), i);
    }
  }

  /** The machine stays at `pc` in every further cycle, and none of them traps. */
  ghost predicate StaysForever(m: Machine, pc: Word) {
    forall n: nat :: CachedRun(m, n).core.pc == pc && !Trapped(CachedCycle(CachedRun(m, n)).1)
  }

  /** The detector on its whole domain: a firing is right exactly if the instruction is not a `jalr` that moves
      on, and the timer interrupt is blocked or its compare register is at the maximum. */
  lemma {:induction false} DetectorExact(m: Machine)
    requires Fires(CachedCycle(m).1)
    ensures CachedFetch(m.cache, m.core.bus, m.core.pc).1.Fetched?
    ensures StaysForever(CachedCycle(m).0, m.core.pc)
       <==> !MovesOn(CachedFetch(m.cache, m.core.bus, m.core.pc).1.word)
            && (TimerBlocked(m.core.csr) || m.core.bus.clock.comp.Value() == TWO_64 - 1)
  {
    hide CachedCycle, CachedFetch, MovesOn, Fires, TimerBlocked, StaysForever, InterruptPending, TimerTaken;
    FiringCycle(m);
    var i := CachedFetch(m.cache, m.core.bus, m.core.pc).1.word;
    if MovesOn(i) {
      MovesOnNext(m);
      EndsAtOnce(CachedCycle(m).0, m.core.pc);
    } else if TimerBlocked(m.core.csr) {
      StaysBlocked(m);
    } else if m.core.bus.clock.comp.Value() == TWO_64 - 1 {
      StaysUnsignalled(m);
    } else {
      WaitEndsIff(m);
      TimerEnds(CachedCycle(m).0, m.core.pc);
    }
  }

  lemma {:induction false} EndsAtOnce(m: Machine, pc: Word)
    requires TimerTaken(CachedCycle(m).1) || CachedCycle(m).0.core.pc != pc
    ensures !StaysForever(m, pc)
  {
    hide CachedCycle;
    assert CachedRun(m, 0) == m;
    assert CachedRun(m, 1) == CachedCycle(CachedRun(m, 0)).0;
  }

  lemma {:induction false} TimerEnds(m: Machine, pc: Word)
    requires exists n: nat :: TimerTaken(CachedCycle(CachedRun(m, n)).1)
    ensures !StaysForever(m, pc)
  {
    hide CachedCycle, CachedRun;
  }

  lemma {:induction false} StaysBlocked(m: Machine)
    requires Fires(CachedCycle(m).1) && TimerBlocked(m.core.csr)
    requires var f := CachedFetch(m.cache, m.core.bus, m.core.pc).1; f.Fetched? ==> !MovesOn(f.word)
    ensures StaysForever(CachedCycle(m).0, m.core.pc)
  {
    hide CachedCycle, CachedRun, Fires, Ticks, Trapped, CachedFetch, MovesOn, TimerBlocked;
    FiringCycle(m);
    TicksElsewhere(m.core);
    var first := CachedCycle(m).0;
    forall n: nat
      ensures CachedRun(first, n).core.pc == m.core.pc && !Trapped(CachedCycle(CachedRun(first, n)).1)
    {
      LoopChangesNothing(m, n);
    }
  }

  lemma {:induction false} StaysUnsignalled(m: Machine)
    requires Fires(CachedCycle(m).1) && !TimerBlocked(m.core.csr)
    requires var f := CachedFetch(m.cache, m.core.bus, m.core.pc).1; f.Fetched? ==> !MovesOn(f.word)
    requires m.core.bus.clock.comp.Value() == TWO_64 - 1
    ensures StaysForever(CachedCycle(m).0, m.core.pc)
  {
    hide CachedCycle, CachedRun, Fires, Ticks, Trapped, CachedFetch, MovesOn, Turning, MieBit, TimerBit;
    FiringCycle(m);
    EntersLoop(m);
    TicksElsewhere(m.core);
    TicksSignal(m.core);
    var first := CachedCycle(m).0;
    var i := CachedFetch(m.cache, m.core.bus, m.core.pc).1.word;
    forall n: nat
      ensures CachedRun(first, n).core.pc == m.core.pc && !Trapped(CachedCycle(CachedRun(first, n)).1)
    {
      NeverSignalled(first, i, n);
    }
  }

  /* ---- One instruction of each kind ---- */

  const JUMP_TO_SELF: Word := 0x0000_006f  // jal x0, 0
  const JUMP_ONCE: Word := 0x0000_80e7     // jalr x1, 0(x1)

  /** `jal x0, 0` makes the detector fire wherever it stands, rightly. */
  lemma {:induction false} SelfJumpFires(c: Core)
    requires !InterruptPending(c.csr)
    ensures Fires(Cycle(c, Fetched(JUMP_TO_SELF)).1) && !MovesOn(JUMP_TO_SELF)
  {
    hide InterruptPending, Fires, Cycle, Decode.Decode;
    DecodesSelfJump(c);
    TakenFires(c, Fetched(JUMP_TO_SELF));
  }

  lemma {:induction false} DecodesSelfJump(c: Core)
    ensures Decode.Decode(c.regs, JUMP_TO_SELF, c.pc) == Ok(DecodeJump(JUMP_TO_SELF, c.pc, 0))
  {
    assert ImmJ(JUMP_TO_SELF) == 0;
  }

  /** `jalr x1, 0(x1)` makes it fire when x1 holds the pc; but the jump replaces x1, and the same
      instruction, executed again, goes to pc + 4. */
  lemma {:induction false} JumpOnceFires(c: Core)
    requires TimerBlocked(c.csr) && c.regs[1] == c.pc
    ensures var (first, report) := Cycle(c, Fetched(JUMP_ONCE));
            && Fires(report) && MovesOn(JUMP_ONCE) && first.pc == c.pc
            && Cycle(first, Fetched(JUMP_ONCE)).0.pc == Wrap(c.pc + 4)
  {
    hide InterruptPending, MieBit, TimerBit, Fires, Cycle, MovesOn, Decode.Decode, Ticks;
    TicksElsewhere(c);
    DecodesJumpOnce(c);
    Unpending(c.csr);
    TakenFires(c, Fetched(JUMP_ONCE));
    TakenCycle(c, Fetched(JUMP_ONCE));
    var first := Cycle(c, Fetched(JUMP_ONCE)).0;
    assert first.regs[1] == Wrap(c.pc + 4);
    DecodesJumpOnce(first);
    Unpending(first.csr);
    TakenCycle(first, Fetched(JUMP_ONCE));
    TicksElsewhere(first);
  }

  lemma {:induction false} Unpending(f: CsrFile)
    requires TimerBlocked(f)
    ensures !InterruptPending(f)
  {
    hide MieBit, TimerBit;
  }

  lemma {:induction false} DecodesJumpOnce(c: Core)
    ensures Decode.Decode(c.regs, JUMP_ONCE, c.pc) == Ok(DecodeJump(JUMP_ONCE, c.regs[1], 0))
    ensures Rd(JUMP_ONCE) == 1 && MovesOn(JUMP_ONCE)
  {
    assert ImmI(JUMP_ONCE) == 0 && Rs1(JUMP_ONCE) == 1;
  }

  lemma {:induction false} TakenFires(c: Core, f: Outcome)
    requires f.Fetched? && Decode.Decode(c.regs, f.word, c.pc).Ok? && !InterruptPending(c.csr)
    requires var d := Decode.Decode(c.regs, f.word, c.pc).value;
             d.branchOp != Alu.NoBranch && Alu.Taken(d.branchOp, d.branch1, d.branch2)
             && Wrap(d.num1 + d.num2) == c.pc
    ensures Fires(Cycle(c, f).1)
  {
    hide Decode.Decode, Alu.Taken, InterruptPending;
    BranchShape(c.regs, f.word, c.pc);
    var d := Decode.Decode(c.regs, f.word, c.pc).value;
    NoMemNoTrap(c.bus, d.memFunct, Alu.Compute(d.aluOp, d.num1, d.num2), d.storeValue);
    hide LoadStore.Perform;
  }
}
