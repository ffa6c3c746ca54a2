/** One CPU step (lib/core/cpu.cpp): fetch, decode, execute, write back, and trap entry. */
module Cpu {
  import opened Words
  import opened Decode
  import opened Csr
  import opened BlockMemory
  import opened Bus
  import Alu
  import Fetch
  import LoadStore

  /** Everything architectural: the fetch cache is not part of it. */
  datatype Core = Core(pc: Word, regs: Registers, csr: CsrFile, bus: BusState)

  datatype CpuResult = CpuResult(
    d: Decoded, pc: Word, inst: Word, trap: Option<Trap>,
    aluResult: Word, branchResult: bool, csrResult: Word, loadValue: Word, writebackValue: Word
  )

  datatype Report = Report(result: CpuResult) | Threw

  /** A result before anything is known. The source leaves its fields uninitialised; here they are 0. */
  function Blank(pc: Word): CpuResult {
    CpuResult(BLANK, pc, 0, None, 0, false, 0, 0, 0)
  }

  function SetRegister(x: Registers, rd: RegNum, v: Word): Registers {
    if rd == 0 then x else x[rd := v]
  }

  /** `mip & mie` has bit 7 set and interrupts are enabled. */
  predicate InterruptPending(f: CsrFile) {
    MieBit(f.mstatus) && TimerBit(f.mip) && TimerBit(f.mie)
  }

  function WritebackValue(r: CpuResult): Word {
    match r.d.writeback
    case NoSource => 0
    case PcPlus4 => Wrap(r.pc + 4)
    case AluResult => r.aluResult
    case MemoryValue => r.loadValue
    case CsrValue => r.csrResult
  }

  function AfterMret(f: CsrFile): CsrFile {
    f.(mstatus := SetMpie(SetMie(f.mstatus, MpieBit(f.mstatus)), false))
  }

  /** The end of `execute`: register, pc and mstatus once nothing can trap any more. */
  function Retire(c: Core, r: CpuResult): Core {
    var regs := SetRegister(c.regs, r.d.rd, r.writebackValue);
    if r.d.mret then Core(c.csr.mepc, regs, AfterMret(c.csr), c.bus)
    else if r.branchResult then c.(pc := r.aluResult, regs := regs)
    else c.(pc := Wrap(c.pc + 4), regs := regs)
  }

  /** `execute` from the ALU on. */
  function Operate(c: Core, r0: CpuResult): (Core, Report) {
    var d := r0.d;
    var r := r0.(aluResult := Alu.Compute(d.aluOp, d.num1, d.num2),
                 branchResult := Alu.Taken(d.branchOp, d.branch1, d.branch2));
    var (csr, answer) := AccessCsr(c.csr, d.csr);
    if answer.Err? then (c.(csr := csr), Report(r.(trap := Some(IllegalInstruction))))
    else
      var (bus, access) := LoadStore.Perform(c.bus, d.memOp, d.memFunct, r.aluResult, d.storeValue);
      var after := c.(csr := csr, bus := bus);
      match access
      case Throws => (after, Threw)
      case Traps(t) => (after, Report(r.(csrResult := answer.value, trap := Some(t))))
      case Value(v) =>
        var r1 := r.(csrResult := answer.value, loadValue := v);
        var r2 := r1.(writebackValue := WritebackValue(r1));
        (Retire(after, r2), Report(r2))
  }

  /** `execute`, given what the fetch delivered. */
  function Executed(c: Core, f: Fetch.Outcome): (Core, Report) {
    var r := Blank(c.pc);
    match f
    case FetchThrows => (c, Threw)
    case FetchTraps(t) => (c, Report(r.(trap := Some(t))))
    case Fetched(inst) =>
      match Decode.Decode(c.regs, inst, c.pc)
      case Err(t) => (c, Report(r.(inst := inst, trap := Some(t))))
      case Ok(d) =>
        var r1 := r.(inst := inst, d := d);
        if d.ecall then (c, Report(r1.(trap := Some(EnvCallFromM))))
        else if InterruptPending(c.csr) then (c, Report(r1.(trap := Some(MachineTimerInterrupt))))
        else Operate(c, r1)
  }

  function TrapValue(t: Trap, r: CpuResult): Word {
    match t
    case IllegalInstruction => r.inst
    case EnvCallFromM => 0
    case MachineTimerInterrupt => 0
    case _ => r.aluResult
  }

  function TrapVector(mtvec: Word, t: Trap): Word {
    if t.IsInterrupt() && mtvec % 4 == 1 then Wrap(mtvec - mtvec % 4 + 4 * (t.Code() % 0x8000_0000))
    else mtvec - mtvec % 4
  }

  function EnterTrap(c: Core, t: Trap, value: Word): Core {
    c.(csr := c.csr.(mstatus := TrapStatus(c.csr.mstatus), mepc := c.pc, mcause := t.Code(), mtval := value),
       pc := TrapVector(c.csr.mtvec, t))
  }

  function TrapHandled(c: Core, r: CpuResult): Core {
    if r.trap.None? then c else EnterTrap(c, r.trap.value, TrapValue(r.trap.value, r))
  }

  /** `step`, given what the fetch delivered. */
  function StepWith(c: Core, f: Fetch.Outcome): (Core, Report) {
    var (after, report) := Executed(c, f);
    if report.Threw? then (after, report)
    else
      var handled := TrapHandled(after, report.result);
      (handled.(csr := Ticked(handled.csr)), report)
  }

  datatype Machine = Machine(core: Core, cache: Fetch.Cache)

  /** `step` of the machine with its fetch cache. */
  function CachedStep(m: Machine): (Machine, Report) {
    var (cache, f) := Fetch.CachedFetch(m.cache, m.core.bus, m.core.pc);
    var (core, report) := StepWith(m.core, f);
    (Machine(core, cache), report)
  }

  class CpuModule {
    var pc: Word
    const registers: array<Word>
    const instFetch: Fetch.InstFetch
    const csr: CsrModule
    const memory: PlatformMemory

    ghost function Repr(): set<object>
      reads this, memory, memory.rom, memory.ram
    {
      {this, registers, instFetch, instFetch.cache, csr} + memory.Repr()
    }

    ghost predicate Valid()
      reads this, instFetch, memory, memory.rom, memory.ram, Repr()
    {
      && registers.Length == 32 && instFetch.Valid() && memory.Valid()
      && {this, registers, instFetch, instFetch.cache, csr} !! memory.Repr()
    }

    ghost function Now(): Core
      reads this, instFetch, memory, memory.rom, memory.ram, Repr()
      requires Valid()
    {
      Core(pc, registers[..], csr.File(), memory.State())
    }

    ghost function Whole(): Machine
      reads this, instFetch, memory, memory.rom, memory.ram, Repr()
      requires Valid()
    {
      Machine(Now(), instFetch.Contents())
    }

    constructor (initPc: Word, memory: PlatformMemory)
      requires memory.Valid()
      ensures Valid() && fresh(Repr() - memory.Repr()) && this.memory == memory
      ensures memory.Repr() == old(memory.Repr()) && memory.State() == old(memory.State())
      ensures Now() == Core(initPc, seq(32, _ => 0), RESET, memory.State()) && instFetch.Contents() == Fetch.EMPTY
    {
      hide RESET, Fetch.EMPTY, PlatformMemory.State;
      pc := initPc;
      registers := new Word[32](_ => 0);
      instFetch := new Fetch.InstFetch();
      csr := new CsrModule();
      this.memory := memory;
      new;
      assert registers[..] == seq(32, _ => 0);
    }

    method WriteRegister(rd: RegNum, value: Word)
      requires Valid()
      modifies registers
      ensures Valid() && registers[..] == SetRegister(old(registers[..]), rd, value)
    {
      if rd != 0 {
        registers[rd] := value;
      }
    }

    /** Writeback and the new pc, once nothing can trap any more. */
    method WriteBack(r: CpuResult)
      requires Valid()
      modifies this`pc, registers, csr`mstatus
      ensures Valid() && Now() == Retire(old(Now()), r)
      ensures instFetch.Contents() == old(instFetch.Contents())
    {
      hide SetRegister;
      WriteRegister(r.d.rd, r.writebackValue);
      if r.d.mret {
        pc := csr.mepc;
        var mpie := MpieBit(csr.mstatus);
        csr.mstatus := SetMie(csr.mstatus, mpie);
        csr.mstatus := SetMpie(csr.mstatus, false);
      } else if r.branchResult {
        pc := r.aluResult;
      } else {
        pc := Wrap(pc + 4);
      }
    }

    /** The part of `execute` from the ALU on. */
    method Compute(r0: CpuResult) returns (report: Report)
      requires Valid() && r0.pc == pc
      modifies Repr()
      ensures Valid() && fresh(Repr() - old(Repr()))
      ensures instFetch.Contents() == old(instFetch.Contents())
      ensures (Now(), report) == Operate(old(Now()), r0)
    {
      hide AccessCsr, LoadStore.Perform, Alu.Compute, Alu.Taken, Retire;
      var r := r0;
      var d := r.d;
      r := r.(aluResult := Alu.Compute(d.aluOp, d.num1, d.num2));
      r := r.(branchResult := Alu.Taken(d.branchOp, d.branch1, d.branch2));
      var answer := csr.Access(d.csr);
      if answer.Err? {
        return Report(r.(trap := Some(IllegalInstruction)));
      }
      r := r.(csrResult := answer.value);
      var access := LoadStore.PerformAccess(memory, d.memOp, d.memFunct, r.aluResult, d.storeValue);
      if access.Throws? {
        return Threw;
      }
      if access.Traps? {
        return Report(r.(trap := Some(access.trap)));
      }
      r := r.(loadValue := access.word);
      r := r.(writebackValue := WritebackValue(r));
      WriteBack(r);
      return Report(r);
    }

    method Execute() returns (report: Report)
      requires Valid()
      modifies Repr()
      ensures Valid() && fresh(Repr() - old(Repr()))
      ensures var (cache, f) := Fetch.CachedFetch(old(instFetch.Contents()), old(memory.State()), old(pc));
              instFetch.Contents() == cache && (Now(), report) == Executed(old(Now()), f)
    {
      hide Operate, Fetch.CachedFetch, Decode.Decode;
      var r := Blank(pc);
      var f := instFetch.Fetch(memory, pc);
      match f {
        case FetchThrows => return Threw;
        case FetchTraps(t) => return Report(r.(trap := Some(t)));
        case Fetched(inst) =>
          r := r.(inst := inst);
          var decoded := Decode.Decode(registers[..], inst, pc);
          if decoded.Err? {
            return Report(r.(trap := Some(decoded.error)));
          }
          r := r.(d := decoded.value);
          if r.d.ecall {
            return Report(r.(trap := Some(EnvCallFromM)));
          }
          if MieBit(csr.mstatus) {
            if TimerBit(csr.mip) && TimerBit(csr.mie) {
              return Report(r.(trap := Some(MachineTimerInterrupt)));
            }
          }
          report := Compute(r);
      }
    }

    method HandleTrap(r: CpuResult)
      requires Valid()
      modifies this`pc, csr
      ensures Valid() && Now() == TrapHandled(old(Now()), r)
      ensures instFetch.Contents() == old(instFetch.Contents())
    {
      hide TrapStatus, TrapVector, TrapValue;
      if r.trap.None? {
        return;
      }
      var t := r.trap.value;
      csr.EnterTrap(pc, t.Code(), TrapValue(t, r));
      pc := TrapVector(csr.mtvec, t);
    }

    method Step() returns (report: Report)
      requires Valid()
      modifies Repr()
      ensures Valid() && fresh(Repr() - old(Repr()))
      ensures (Whole(), report) == CachedStep(old(Whole()))
    {
      hide Executed, TrapHandled, Fetch.CachedFetch;
      report := Execute();
      if report.Threw? {
        return;
      }
      HandleTrap(report.result);
      csr.Tick();
    }
  }
}
