/** Traps are precise, and a handler's `mret` resumes what was interrupted. */
module Traps {
  import opened Words
  import opened Decode
  import opened Csr
  import opened BlockMemory
  import opened Bus
  import opened Cpu
  import Clock
  import Fetch
  import LoadStore
  import Alu

  /* ---- The status bits ---- */

  lemma {:induction false} MieSet(m: Word, b: bool)
    ensures MieBit(SetMie(m, b)) == b && MpieBit(SetMie(m, b)) == MpieBit(m)
    ensures MppField(SetMie(m, b)) == MppField(m)
  {
    var e := m / 8;
    var h, x, l := e / 2, e % 2, m % 8;
    assert m == 8 * e + l && e == 2 * h + x;
    MieFields(h, x, l);
    MieFields(h, if b then 1 else 0, l);
  }

  lemma {:induction false} MieFields(h: nat, x: nat, l: nat)
    requires x < 2 && l < 8 && 16 * h + 8 * x + l < TWO_32
    ensures var n := 16 * h + 8 * x + l;
            MieBit(n) == (x == 1) && MpieBit(n) == ((h / 8) % 2 == 1) && MppField(n) == (h / 128) % 4
  {
    var n := 16 * h + 8 * x + l;
    ModUnique(n, 8, 2 * h + x, l);
    ModShift(x, h, 2);
    ModUnique(n, 0x80, h / 8, 16 * (h % 8) + 8 * x + l);
    ModUnique(n, 0x800, h / 128, 16 * (h % 128) + 8 * x + l);
  }

  lemma {:induction false} MpieSet(m: Word, b: bool)
    ensures MpieBit(SetMpie(m, b)) == b && MieBit(SetMpie(m, b)) == MieBit(m)
    ensures MppField(SetMpie(m, b)) == MppField(m)
  {
    var e := m / 0x80;
    var h, x, l := e / 2, e % 2, m % 0x80;
    assert m == 0x80 * e + l && e == 2 * h + x;
    assert SetMpie(m, b) == 0x100 * h + 0x80 * (if b then 1 else 0) + l;
    hide MieBit, MpieBit, MppField, SetMpie;
    MpieFields(h, x, l);
    MpieFields(h, if b then 1 else 0, l);
  }

  lemma {:induction false} MpieFields(h: nat, x: nat, l: nat)
    requires x < 2 && l < 0x80 && 0x100 * h + 0x80 * x + l < TWO_32
    ensures var n := 0x100 * h + 0x80 * x + l;
            MpieBit(n) == (x == 1) && MieBit(n) == ((l / 8) % 2 == 1) && MppField(n) == (h / 8) % 4
  {
    var n := 0x100 * h + 0x80 * x + l;
    ModUnique(n, 0x80, 2 * h + x, l);
    ModShift(x, h, 2);
    ModUnique(n, 8, 32 * h + 16 * x + l / 8, l % 8);
    ModShift(l / 8, 16 * h + 8 * x, 2);
    ModUnique(n, 0x800, h / 8, 0x100 * (h % 8) + 0x80 * x + l);
  }

  lemma {:induction false} MppSet(m: Word, mode: nat)
    requires mode < 4
    ensures MppField(SetMpp(m, mode)) == mode
    ensures MieBit(SetMpp(m, mode)) == MieBit(m) && MpieBit(SetMpp(m, mode)) == MpieBit(m)
  {
    var e := m / 0x800;
    var h, l := e / 4, m % 0x800;
    assert m == 0x800 * e + l && e == 4 * h + MppField(m);
    MppFields(h, MppField(m), l);
    MppFields(h, mode, l);
  }

  lemma {:induction false} MppFields(h: nat, mode: nat, l: nat)
    requires mode < 4 && l < 0x800 && 0x2000 * h + 0x800 * mode + l < TWO_32
    ensures var n := 0x2000 * h + 0x800 * mode + l;
            && MppField(n) == mode
            && MieBit(n) == ((l / 8) % 2 == 1) && MpieBit(n) == ((l / 0x80) % 2 == 1)
  {
    var n := 0x2000 * h + 0x800 * mode + l;
    ModUnique(n, 0x800, 4 * h + mode, l);
    ModShift(mode, h, 4);
    LowBit(4 * h + mode, l, 8, 0x80);
    LowBit(4 * h + mode, l, 0x80, 8);
  }

  /** A multiple of 0x800 = 2 * w * v does not reach the bit of weight `w`. */
  lemma {:induction false} LowBit(k: nat, l: nat, w: nat, v: nat)
    requires (w == 8 && v == 0x80) || (w == 0x80 && v == 8)
    ensures ((0x800 * k + l) / w) % 2 == (l / w) % 2
  {
    if w == 8 {
      ModUnique(0x800 * k + l, 8, 0x100 * k + l / 8, l % 8);
      ModShift(l / 8, 0x80 * k, 2);
    } else {
      ModUnique(0x800 * k + l, 0x80, 0x10 * k + l / 0x80, l % 0x80);
      ModShift(l / 0x80, 8 * k, 2);
    }
  }

  lemma {:induction false} TrapStatusBits(m: Word)
    ensures var n := TrapStatus(m);
            !MieBit(n) && MpieBit(n) == MieBit(m) && MppField(n) == 3
  {
    hide MieBit, MpieBit, MppField, SetMie, SetMpie, SetMpp;
    var a := SetMpie(m, MieBit(m));
    MpieSet(m, MieBit(m));
    MieSet(a, false);
    MppSet(SetMie(a, false), 3);
  }

  lemma {:induction false} MretBits(f: CsrFile)
    ensures var n := AfterMret(f).mstatus;
            MieBit(n) == MpieBit(f.mstatus) && !MpieBit(n) && MppField(n) == MppField(f.mstatus)
  {
    hide MieBit, MpieBit, MppField, SetMie, SetMpie;
    MieSet(f.mstatus, MpieBit(f.mstatus));
    MpieSet(SetMie(f.mstatus, MpieBit(f.mstatus)), false);
  }

  lemma {:induction false} VectorAligned(mtvec: Word, t: Trap)
    ensures TrapVector(mtvec, t) % 4 == 0
  {
    var q := mtvec / 4;
    assert mtvec - mtvec % 4 == 4 * q;
    ModUnique(4 * q, 4, q, 0);
    var v := Wrap(4 * q + 28);
    ModUnique(v, 4, if 4 * q + 28 < TWO_32 then q + 7 else q + 7 - 0x4000_0000, 0);
  }

  /* ---- Precise traps ---- */

  predicate Trapped(r: Report) {
    r.Report? && r.result.trap.Some?
  }

  /** A decoded instruction that traps while it executes has changed nothing. */
  lemma {:induction false} OperateTrap(c: Core, r0: CpuResult)
    requires r0.trap.None? && Exclusive(r0.d) && Trapped(Operate(c, r0).1)
    ensures Operate(c, r0).0 == c
  {
    hide Alu.Compute, Alu.Taken, LoadStore.Perform, Retire, Get, Put, MaskedWrite;
    var d, a := r0.d, Alu.Compute(r0.d.aluOp, r0.d.num1, r0.d.num2);
    if AccessCsr(c.csr, d.csr).1.Ok? {
      LoadStore.TrapChangesNothing(c.bus, d.memOp, d.memFunct, a, d.storeValue);
      NoMemNoTrap(c.bus, d.memFunct, a, d.storeValue);
    }
  }

  lemma {:induction false} NoMemNoTrap(b: BusState, f: MemFunct, address: Word, value: Word)
    ensures LoadStore.Perform(b, NoMem, f, address, value) == (b, LoadStore.Value(0))
  {
  }

  lemma {:induction false} ExecuteTrap(c: Core, f: Fetch.Outcome)
    requires Trapped(Executed(c, f).1)
    ensures Executed(c, f).0 == c
  {
    hide Operate, Decode.Decode;
    if f.Fetched? && Decode.Decode(c.regs, f.word, c.pc).Ok? {
      DecodedExclusive(c.regs, f.word, c.pc);
      var d := Decode.Decode(c.regs, f.word, c.pc).value;
      if !d.ecall && !InterruptPending(c.csr) {
        OperateTrap(c, Blank(c.pc).(inst := f.word, d := d));
      }
    }
  }

  /** Whatever was fetched and in whatever state: a step that reports a trap changes no register and no
      device, records the old pc in mepc, moves mie to mpie and clears it, and goes to an aligned vector.
      Apart from the trap registers, only the two counters advance. */
  lemma {:induction false} PreciseTraps(c: Core, f: Fetch.Outcome)
    ensures var (after, report) := StepWith(c, f);
            Trapped(report) ==>
              var t := report.result.trap.value;
              && after.regs == c.regs && after.bus == c.bus
              && after.csr.mepc == c.pc && after.csr.mcause == t.Code()
              && !MieBit(after.csr.mstatus) && MpieBit(after.csr.mstatus) == MieBit(c.csr.mstatus)
              && MppField(after.csr.mstatus) == 3
              && after.pc == TrapVector(c.csr.mtvec, t) && after.pc % 4 == 0
              && after.csr == Ticked(c.csr).(mstatus := after.csr.mstatus, mepc := c.pc,
                                             mcause := t.Code(), mtval := after.csr.mtval)
  {
    hide Executed, TrapStatus, TrapVector, TrapValue;
    if Trapped(StepWith(c, f).1) {
      ExecuteTrap(c, f);
      TrapStatusBits(c.csr.mstatus);
      VectorAligned(c.csr.mtvec, StepWith(c, f).1.result.trap.value);
    }
  }

  /** Cause numbers of section 3.1.15 of the RISC-V Privileged Architecture (20211203). */
  function Cause(t: Trap): Word {
    match t
    case InstAddressMisaligned => 0
    case InstAccessFault => 1
    case IllegalInstruction => 2
    case LoadAddressMisaligned => 4
    case LoadAccessFault => 5
    case StoreAddressMisaligned => 6
    case StoreAccessFault => 7
    case EnvCallFromM => 11
    case MachineTimerInterrupt => 0x8000_0007
  }

  /** Where a trap lands: at the base in mtvec (0x305), or for the timer in vectored mode at entry 7 of the
      table; mepc (0x341) and mcause (0x342) say whence and why. */
  lemma {:induction false} TrapLanding(c: Core, f: Fetch.Outcome)
    ensures var (after, report) := StepWith(c, f);
            Trapped(report) ==>
              var t, mtvec := report.result.trap.value, c.csr.mtvec;
              && Get(c.csr, 0x305) == Some(mtvec)
              && after.pc == (if t == MachineTimerInterrupt && mtvec % 4 == 1 then (mtvec / 4 * 4 + 28) % 0x1_0000_0000
                              else mtvec / 4 * 4)
              && Get(after.csr, 0x341) == Some(c.pc) && Get(after.csr, 0x342) == Some(Cause(t))
              && Get(after.csr, 0x343) == Some(after.csr.mtval)
              && Get(after.csr, 0x305) == Some(mtvec)
  {
    hide Executed, TrapStatus, TrapVector, TrapValue, StepWith, MieBit, MpieBit, MppField;
    PreciseTraps(c, f);
    if Trapped(StepWith(c, f).1) {
      TargetIs(c.csr.mtvec, StepWith(c, f).1.result.trap.value);
    }
  }

  lemma {:induction false} TargetIs(mtvec: Word, t: Trap)
    ensures t.Code() == Cause(t)
    ensures TrapVector(mtvec, t) == if t == MachineTimerInterrupt && mtvec % 4 == 1
                                    then (mtvec / 4 * 4 + 28) % 0x1_0000_0000 else mtvec / 4 * 4
  {
    assert mtvec == 4 * (mtvec / 4) + mtvec % 4;
  }

  /* ---- CSRs by address ---- */

  /** After reset misa and mstatus hold their fixed values, the other registers that exist are 0, and no other
      address exists. */
  lemma {:induction false} ResetByAddress(a: CsrAddress)
    ensures Get(RESET, a)
         == if a == 0x301 then Some(0x4000_1100)
            else if a == 0x300 then Some(0x1800)
            else if a in {0x304, 0x305, 0x310, 0x340, 0x341, 0x342, 0x343, 0x344, 0xB00, 0xB02, 0xB80, 0xB82,
                          0xF11, 0xF12, 0xF13, 0xF14, 0xF15} then Some(0)
            else None
  {
  }

  /** A write to one register is not seen at any other address. */
  lemma {:induction false} PutElsewhere(f: CsrFile, a: CsrAddress, w: Word, other: CsrAddress)
    requires Legal(f) && Get(f, a).Some? && other != a
    ensures Get(Put(f, a, w), other) == Get(f, other)
  {
    hide Legalised;
    LegalisedTwice(f.mstatus);
  }

  /** The interrupt condition by address: bit 3 of mstatus (0x300) and bit 7 of mip (0x344) and mie (0x304). */
  lemma {:induction false} PendingByAddress(f: CsrFile)
    ensures Get(f, 0x300).Some? && Get(f, 0x304).Some? && Get(f, 0x344).Some?
    ensures InterruptPending(f)
       <==> Get(f, 0x300).value / 8 % 2 == 1 && Get(f, 0x344).value / 0x80 % 2 == 1
            && Get(f, 0x304).value / 0x80 % 2 == 1
  {
  }

  /** The counters at 0xB00 and 0xB80, and 0xB02 and 0xB82, are two halves of a number that every step
      advances. */
  lemma {:induction false} CountersByAddress(f: CsrFile)
    ensures var g := Ticked(f);
            && Get(g, 0xB80).value * 0x1_0000_0000 + Get(g, 0xB00).value
                 == (Get(f, 0xB80).value * 0x1_0000_0000 + Get(f, 0xB00).value + 1) % 0x1_0000_0000_0000_0000
            && Get(g, 0xB82).value * 0x1_0000_0000 + Get(g, 0xB02).value
                 == (Get(f, 0xB82).value * 0x1_0000_0000 + Get(f, 0xB02).value + 1) % 0x1_0000_0000_0000_0000
  {
    Halves(f.mcycle);
    Halves(f.minstret);
    Halves(Ticked(f).mcycle);
    Halves(Ticked(f).minstret);
    hide LowHalf, HighHalf;
  }

  lemma {:induction false} Halves(d: DWord)
    ensures HighHalf(d) * 0x1_0000_0000 + LowHalf(d) == d
  {
  }

  /* ---- What mtval says ---- */

  lemma {:induction false} AccessesAdd(x: Registers, i: Word, pc: Word)
    requires Decode.Decode(x, i, pc).Ok? && Decode.Decode(x, i, pc).value.memOp != NoMem
    ensures Decode.Decode(x, i, pc).value.aluOp == Alu.Add
  {
    hide ImmI, ImmS, ImmB, ImmJ, ImmU, BaseOp, MulOp, BranchOpOf;
  }

  /** The bus never calls a word-aligned address unaligned. */
  lemma {:induction false} AlignedWrite(b: BusState, base: Word, data: Word, mask: Mask)
    requires base % 4 == 0
    ensures WriteBus(b, base, data, mask).1 != Some(UnalignedAccess)
  {
    hide Merged;
  }

  predicate IsMemoryTrap(t: Trap) {
    t in {LoadAddressMisaligned, LoadAccessFault, StoreAddressMisaligned, StoreAccessFault}
  }

  lemma {:induction false} AccessTrapKind(b: BusState, op: MemOp, f: MemFunct, address: Word, value: Word)
    requires LoadStore.Perform(b, op, f, address, value).1.Traps?
    ensures var t := LoadStore.Perform(b, op, f, address, value).1.trap;
            && op != NoMem && IsMemoryTrap(t)
            && (op == Load <==> t in {LoadAddressMisaligned, LoadAccessFault})
            && (t in {LoadAddressMisaligned, StoreAddressMisaligned} <==> !LoadStore.IsAligned(address, f))
  {
    hide LoadStore.LoadValue, LoadStore.ShiftUp, LoadStore.IsAligned, ReadBus, WriteBus;
    if op == Store && LoadStore.StoreMask(f, address % 4).Some? {
      ModUnique(address - address % 4, 4, address / 4, 0);
      AlignedWrite(b, address - address % 4, LoadStore.ShiftUp(value, address % 4),
                   LoadStore.StoreMask(f, address % 4).value);
    }
  }

  lemma {:induction false} OperateMemoryTrap(c: Core, r0: CpuResult)
    requires Trapped(Operate(c, r0).1) && r0.trap.None?
    ensures var r := Operate(c, r0).1.result;
            && r.inst == r0.inst && r.d == r0.d
            && r.aluResult == Alu.Compute(r0.d.aluOp, r0.d.num1, r0.d.num2)
            && (IsMemoryTrap(r.trap.value) || r.trap.value == IllegalInstruction)
            && (IsMemoryTrap(r.trap.value) ==>
                  && r0.d.memOp != NoMem
                  && (r0.d.memOp == Load <==> r.trap.value in {LoadAddressMisaligned, LoadAccessFault})
                  && (r.trap.value in {LoadAddressMisaligned, StoreAddressMisaligned}
                      <==> !LoadStore.IsAligned(r.aluResult, r0.d.memFunct)))
  {
    hide Alu.Compute, Alu.Taken, LoadStore.Perform, Retire, AccessCsr, LoadStore.IsAligned;
    var d, a := r0.d, Alu.Compute(r0.d.aluOp, r0.d.num1, r0.d.num2);
    if AccessCsr(c.csr, d.csr).1.Ok? {
      AccessTrapKind(c.bus, d.memOp, d.memFunct, a, d.storeValue);
    }
  }

  /** mtval names the cause of a trap on a fetched instruction: the instruction word if it is illegal, 0 for
      `ecall` and the timer, and for a load or store trap the effective address, which is misaligned exactly
      if the trap says so. */
  lemma {:induction false} TrapValueMeaning(c: Core, inst: Word)
    ensures var (after, report) := StepWith(c, Fetch.Fetched(inst));
            Trapped(report) ==>
            var t, decoded := report.result.trap.value, Decode.Decode(c.regs, inst, c.pc);
            && (t == IllegalInstruction ==> after.csr.mtval == inst)
            && (t == EnvCallFromM || t == MachineTimerInterrupt ==> after.csr.mtval == 0)
            && t != InstAddressMisaligned && t != InstAccessFault
            && (IsMemoryTrap(t) ==>
                  && decoded.Ok? && decoded.value.memOp != NoMem
                  && (decoded.value.memOp == Load <==> t in {LoadAddressMisaligned, LoadAccessFault})
                  && after.csr.mtval == Wrap(decoded.value.num1 + decoded.value.num2)
                  && (t in {LoadAddressMisaligned, StoreAddressMisaligned}
                      <==> !LoadStore.IsAligned(after.csr.mtval, decoded.value.memFunct)))
  {
    hide Decode.Decode, Operate, LoadStore.IsAligned, TrapStatus, TrapVector, InterruptPending;
    DecodedExclusive(c.regs, inst, c.pc);
    if Decode.Decode(c.regs, inst, c.pc).Ok? {
      var d := Decode.Decode(c.regs, inst, c.pc).value;
      var r0 := Blank(c.pc).(inst := inst, d := d);
      if !d.ecall && !InterruptPending(c.csr) && Trapped(Operate(c, r0).1) {
        OperateMemoryTrap(c, r0);
        if d.memOp != NoMem {
          AccessesAdd(c.regs, inst, c.pc);
        }
      }
    }
  }

  /* ---- When the source throws ---- */

  lemma {:induction false} OperateNeverThrows(c: Core, r0: CpuResult)
    requires Exclusive(r0.d)
    ensures !Operate(c, r0).1.Threw?
  {
    hide Alu.Compute, Alu.Taken, LoadStore.Perform, Retire, AccessCsr;
    var d := r0.d;
    LoadStore.DecodedNeverThrows(c.bus, d.memOp, d.memFunct, Alu.Compute(d.aluOp, d.num1, d.num2), d.storeValue);
  }

  /** A step throws only if the fetch does: no load or store reaches a `throw`. */
  lemma {:induction false} StepThrowsIff(c: Core, f: Fetch.Outcome)
    ensures StepWith(c, f).1.Threw? <==> f.FetchThrows?
  {
    hide Operate, Decode.Decode;
    if f.Fetched? && Decode.Decode(c.regs, f.word, c.pc).Ok? {
      DecodedExclusive(c.regs, f.word, c.pc);
      var d := Decode.Decode(c.regs, f.word, c.pc).value;
      OperateNeverThrows(c, Blank(c.pc).(inst := f.word, d := d));
    }
  }

  /** The fetch throws exactly on an aligned pc that starts in the 4 KiB page of the UART or of the clock. */
  lemma {:induction false} FetchThrowsIff(b: BusState, pc: Word)
    ensures Fetch.DirectFetch(b, pc).FetchThrows? <==> pc % 4 == 0 && 0x1_0000 <= pc < 0x1_2000
  {
  }

  /* ---- When an interrupt is taken ---- */

  /** The source tests bit 7 of `mip & mie`. */
  lemma {:induction false} PendingIsMaskedTest(f: CsrFile)
    ensures var pending := BitAnd(f.mip, f.mie);
            InterruptPending(f) <==> MieBit(f.mstatus) && pending != 0 && TimerBit(pending)
  {
    hide Bitwise, Bit;
    BitwiseBit(32, And, f.mip, f.mie, 7);
    assert Pow2(7) == TIMER_BIT;
    BitMeaning(f.mip, 7);
    BitMeaning(f.mie, 7);
    BitMeaning(BitAnd(f.mip, f.mie), 7);
  }

  /** With an instruction fetched, the timer interrupt is taken exactly when it is pending and the
      instruction decodes and is not `ecall`. */
  lemma {:induction false} InterruptTakenIff(c: Core, inst: Word)
    ensures var report := StepWith(c, Fetch.Fetched(inst)).1;
            report.Report? && report.result.trap == Some(MachineTimerInterrupt)
            <==> Decode.Decode(c.regs, inst, c.pc).Ok?
                 && !Decode.Decode(c.regs, inst, c.pc).value.ecall && InterruptPending(c.csr)
  {
    hide Operate, Decode.Decode, InterruptPending, TrapHandled;
    DecodedExclusive(c.regs, inst, c.pc);
    if Decode.Decode(c.regs, inst, c.pc).Ok? {
      OperateTrapKind(c, Blank(c.pc).(inst := inst, d := Decode.Decode(c.regs, inst, c.pc).value));
    }
  }

  /* ---- One emulator cycle ---- */

  /** The clock ticks after the CPU step. */
  function TickDevices(c: Core): Core {
    var clock := Clock.TickClock(c.bus.clock);
    c.(bus := c.bus.(clock := clock), csr := c.csr.(mip := Clock.TickedMip(clock, c.csr.mip)))
  }

  function Cycle(c: Core, f: Fetch.Outcome): (Core, Report) {
    var (after, report) := StepWith(c, f);
    if report.Threw? then (after, report) else (TickDevices(after), report)
  }

  function CycleAll(c: Core, fs: seq<Fetch.Outcome>): Core {
    if fs == [] then c else Cycle(CycleAll(c, fs[..|fs| - 1]), fs[|fs| - 1]).0
  }

  /* ---- Trap handlers ---- */

  /** One handler instruction: it decodes, raises no synchronous exception, is not `mret`, and does not
      write mstatus or mepc. It may read them and write everything else. */
  predicate HandlerStep(c: Core, f: Fetch.Outcome) {
    && f.Fetched? && Decode.Decode(c.regs, f.word, c.pc).Ok?
    && var d := Decode.Decode(c.regs, f.word, c.pc).value;
    && !d.mret
    && (d.csr.mode == NoWrite || (!IsStatus(d.csr.address) && d.csr.address != 0x341))
    && var report := Cycle(c, f).1;
    && report.Report? && (report.result.trap.Some? ==> report.result.trap.value.IsInterrupt())
  }

  predicate HandlerRun(c: Core, fs: seq<Fetch.Outcome>) {
    forall i :: 0 <= i < |fs| ==> HandlerStep(CycleAll(c, fs[..i]), fs[i])
  }

  predicate InHandler(c: Core, epc: Word, status: Word) {
    Legal(c.csr) && c.csr.mepc == epc && c.csr.mstatus == status
  }

  lemma {:induction false} RetireKeeps(c: Core, r: CpuResult)
    requires !r.d.mret
    ensures Retire(c, r).csr == c.csr
  {
  }

  lemma {:induction false} OperateKeeps(c: Core, r0: CpuResult)
    requires Legal(c.csr) && !r0.d.mret && r0.trap.None?
    requires r0.d.csr.mode == NoWrite || (!IsStatus(r0.d.csr.address) && r0.d.csr.address != 0x341)
    ensures var after := Operate(c, r0).0;
            Legal(after.csr) && after.csr.mstatus == c.csr.mstatus && after.csr.mepc == c.csr.mepc
  {
    hide Alu.Compute, Alu.Taken, LoadStore.Perform, Retire, AccessCsr, Legalised;
    AccessLegal(c.csr, r0.d.csr);
    AccessElsewhere(c.csr, r0.d.csr);
    var (after, report) := Operate(c, r0);
    if report.Report? && report.result.trap.None? {
      var d, a := r0.d, Alu.Compute(r0.d.aluOp, r0.d.num1, r0.d.num2);
      var bus := LoadStore.Perform(c.bus, d.memOp, d.memFunct, a, d.storeValue).0;
      var mid := c.(csr := AccessCsr(c.csr, d.csr).0, bus := bus);
      RetireKeeps(mid, report.result);
    }
  }

  lemma {:induction false} TickKeeps(c: Core)
    ensures Legal(c.csr) <==> Legal(Ticked(c.csr))
    ensures Legal(c.csr) <==> Legal(TickDevices(c).csr)
    ensures TickDevices(c).csr.mstatus == c.csr.mstatus && TickDevices(c).csr.mepc == c.csr.mepc
  {
    hide Legalised;
  }

  /** With mie clear, a handler instruction is not interrupted and leaves mstatus and mepc alone. */
  lemma {:induction false} HandlerStepKeeps(c: Core, f: Fetch.Outcome, epc: Word, status: Word)
    requires InHandler(c, epc, status) && !MieBit(status) && HandlerStep(c, f)
    ensures !Trapped(Cycle(c, f).1) && InHandler(Cycle(c, f).0, epc, status)
  {
    hide Operate, Decode.Decode, Legal, TrapVector, TrapValue, TrapStatus, TickDevices, MieBit;
    var d := Decode.Decode(c.regs, f.word, c.pc).value;
    var r0 := Blank(c.pc).(inst := f.word, d := d);
    if !d.ecall {
      assert Executed(c, f) == Operate(c, r0);
      OperateTrapKind(c, r0);
      OperateKeeps(c, r0);
      var stepped := StepWith(c, f).0;
      TickKeeps(Operate(c, r0).0);
      TickKeeps(stepped);
    }
  }

  lemma {:induction false} OperateTrapKind(c: Core, r0: CpuResult)
    requires r0.trap.None?
    ensures Trapped(Operate(c, r0).1) ==> !Operate(c, r0).1.result.trap.value.IsInterrupt()
  {
    hide Alu.Compute, Alu.Taken, Retire, AccessCsr, LoadStore.LoadValue, LoadStore.StoreMask, ReadBus, WriteBus;
  }

  lemma {:induction false} HandlerPrefix(c: Core, fs: seq<Fetch.Outcome>)
    requires fs != [] && HandlerRun(c, fs)
    ensures HandlerRun(c, fs[..|fs| - 1]) && HandlerStep(CycleAll(c, fs[..|fs| - 1]), fs[|fs| - 1])
  {
    hide HandlerStep, CycleAll;
    var front := fs[..|fs| - 1];
    forall i | 0 <= i < |front|
      ensures HandlerStep(CycleAll(c, front[..i]), front[i])
    {
      assert front[..i] == fs[..i];
    }
  }

  lemma {:induction false} HandlerRunKeeps(c: Core, fs: seq<Fetch.Outcome>, epc: Word, status: Word)
    requires InHandler(c, epc, status) && !MieBit(status) && HandlerRun(c, fs)
    ensures InHandler(CycleAll(c, fs), epc, status)
  {
    hide Cycle, HandlerStep, HandlerRun, Legal, MieBit;
    if fs != [] {
      HandlerPrefix(c, fs);
      HandlerRunKeeps(c, fs[..|fs| - 1], epc, status);
      HandlerStepKeeps(CycleAll(c, fs[..|fs| - 1]), fs[|fs| - 1], epc, status);
    }
  }

  lemma {:induction false} HandlerNeverInterrupted(c: Core, fs: seq<Fetch.Outcome>, epc: Word, status: Word, i: nat)
    requires InHandler(c, epc, status) && !MieBit(status) && HandlerRun(c, fs) && i < |fs|
    ensures !Trapped(Cycle(CycleAll(c, fs[..i]), fs[i]).1)
  {
    hide Cycle, HandlerStep, Legal, MieBit, CycleAll;
    assert HandlerRun(c, fs[..i]) by {
      forall j | 0 <= j < i
        ensures HandlerStep(CycleAll(c, fs[..i][..j]), fs[..i][j])
      {
        assert fs[..i][..j] == fs[..j];
      }
    }
    HandlerRunKeeps(c, fs[..i], epc, status);
    HandlerStepKeeps(CycleAll(c, fs[..i]), fs[i], epc, status);
  }

  predicate FetchesMret(c: Core, f: Fetch.Outcome) {
    f.Fetched? && Decode.Decode(c.regs, f.word, c.pc).Ok? && Decode.Decode(c.regs, f.word, c.pc).value.mret
  }

  lemma {:induction false} MretStep(c: Core, f: Fetch.Outcome)
    requires FetchesMret(c, f) && !MieBit(c.csr.mstatus)
    ensures var (after, report) := Cycle(c, f);
            && !Trapped(report) && after.pc == c.csr.mepc && after.regs == c.regs
            && after.csr.mstatus == AfterMret(c.csr).mstatus
  {
    hide Decode.Decode, MieBit, AfterMret, Alu.Compute, Alu.Taken, TickDevices;
    DecodedExclusive(c.regs, f.word, c.pc);
    var d := Decode.Decode(c.regs, f.word, c.pc).value;
    var r0 := Blank(c.pc).(inst := f.word, d := d);
    if d.ecall {
      EcallIsNotMret(c.regs, f.word, c.pc);
    }
    NoMemNoTrap(c.bus, d.memFunct, Alu.Compute(d.aluOp, d.num1, d.num2), d.storeValue);
    hide LoadStore.Perform;
    assert Operate(c, r0).1.Report?;
    TickKeeps(StepWith(c, f).0);
    TickElsewhere(StepWith(c, f).0);
  }

  lemma {:induction false} EcallIsNotMret(x: Registers, i: Word, pc: Word)
    requires Decode.Decode(x, i, pc).Ok? && Decode.Decode(x, i, pc).value.mret
    ensures !Decode.Decode(x, i, pc).value.ecall
  {
    hide ImmI, ImmS, ImmB, ImmJ, ImmU, BaseOp, MulOp, BranchOpOf;
  }

  lemma {:induction false} TickElsewhere(c: Core)
    ensures TickDevices(c).pc == c.pc && TickDevices(c).regs == c.regs
  {
  }

  /** A trap, any handler run, and the handler's `mret`: no interrupt is taken on the way, and execution is
      back at the interrupted pc with interrupts enabled as before. */
  lemma {:induction false} TrapAndReturn(c: Core, f: Fetch.Outcome, fs: seq<Fetch.Outcome>, last: Fetch.Outcome)
    requires Legal(c.csr) && Trapped(Cycle(c, f).1)
    requires HandlerRun(Cycle(c, f).0, fs)
    requires FetchesMret(CycleAll(Cycle(c, f).0, fs), last)
    ensures var entered := Cycle(c, f).0;
            var (resumed, report) := Cycle(CycleAll(entered, fs), last);
            && (forall i :: 0 <= i < |fs| ==> !Trapped(Cycle(CycleAll(entered, fs[..i]), fs[i]).1))
            && !Trapped(report)
            && resumed.pc == c.pc && MieBit(resumed.csr.mstatus) == MieBit(c.csr.mstatus)
  {
    hide StepWith, HandlerStep, FetchesMret, Legalised, TickDevices;
    var stepped, entered := StepWith(c, f).0, Cycle(c, f).0;
    PreciseTraps(c, f);
    TickKeeps(stepped);
    TrapKeepsLegal(c, f);
    var status := entered.csr.mstatus;
    forall i | 0 <= i < |fs|
      ensures !Trapped(Cycle(CycleAll(entered, fs[..i]), fs[i]).1)
    {
      HandlerNeverInterrupted(entered, fs, c.pc, status, i);
    }
    HandlerRunKeeps(entered, fs, c.pc, status);
    var end := CycleAll(entered, fs);
    MretStep(end, last);
    MretBits(end.csr);
  }

  const ECALL: Word := 0x0000_0073
  const MRET: Word := 0x3020_0073

  /** The smallest such handler: on every machine with a legal mstatus `ecall` traps, and a handler that is a
      single `mret` comes back to the `ecall` itself. */
  lemma {:induction false} EcallAndReturn(c: Core)
    requires Legal(c.csr)
    ensures var (entered, report) := Cycle(c, Fetch.Fetched(ECALL));
            && report.Report? && report.result.trap == Some(EnvCallFromM)
            && Cycle(entered, Fetch.Fetched(MRET)).0.pc == c.pc
  {
    var f, last := Fetch.Fetched(ECALL), Fetch.Fetched(MRET);
    var entered := Cycle(c, f).0;
    EcallTraps(c);
    DecodesMret(entered);
    assert CycleAll(entered, []) == entered && HandlerRun(entered, []);
    TrapAndReturn(c, f, [], last);
  }

  lemma {:induction false} EcallTraps(c: Core)
    ensures var report := Cycle(c, Fetch.Fetched(ECALL)).1;
            report.Report? && report.result.trap == Some(EnvCallFromM)
  {
    DecodesEcall(c.regs, c.pc);
    hide Decode.Decode, TrapStatus, TrapVector, TickDevices;
  }

  lemma {:induction false} DecodesEcall(x: Registers, pc: Word)
    ensures Decode.Decode(x, ECALL, pc) == Ok(BLANK.(ecall := true))
  {
    hide ImmI, ImmS, ImmB, ImmJ, ImmU;
  }

  lemma {:induction false} DecodesMret(c: Core)
    ensures FetchesMret(c, Fetch.Fetched(MRET))
  {
    assert Decode.Decode(c.regs, MRET, c.pc) == Ok(BLANK.(mret := true));
  }

  lemma {:induction false} TrapStatusLegal(m: Word)
    requires m == Legalised(m)
    ensures TrapStatus(m) == Legalised(TrapStatus(m))
  {
    hide StatusWord, MieBit, MpieBit, MppField, SetMie, SetMpie, SetMpp;
    var a, b, c := MieBit(m), MpieBit(m), MppField(m);
    StatusWordFields(a, b, c);
    StatusWordFields(a, a, c);
    StatusWordFields(false, a, c);
    StatusWordFields(false, a, 3);
  }

  lemma {:induction false} MretLegal(f: CsrFile)
    requires f.mstatus == Legalised(f.mstatus)
    ensures AfterMret(f).mstatus == Legalised(AfterMret(f).mstatus)
  {
    hide StatusWord, MieBit, MpieBit, MppField, SetMie, SetMpie;
    var a, b, c := MieBit(f.mstatus), MpieBit(f.mstatus), MppField(f.mstatus);
    StatusWordFields(a, b, c);
    StatusWordFields(b, b, c);
    StatusWordFields(b, false, c);
  }

  lemma {:induction false} TrapKeepsLegal(c: Core, f: Fetch.Outcome)
    requires Legal(c.csr) && Trapped(StepWith(c, f).1)
    ensures Legal(StepWith(c, f).0.csr)
  {
    hide Executed, TrapStatus, Legalised, TrapVector, TrapValue;
    ExecuteTrap(c, f);
    TrapStatusLegal(c.csr.mstatus);
  }
}
