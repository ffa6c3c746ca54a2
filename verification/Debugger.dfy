/** The debugger's accesses to registers (lib/gdb-stub/accessor.cpp), and what no run of CPU cycles and
    debugger writes can break. */
module Debugger {
  import opened Words
  import opened Decode
  import opened Csr
  import opened BlockMemory
  import opened Bus
  import opened Cpu
  import opened Traps
  import Alu
  import Clock
  import Fetch
  import LoadStore

  const PC_NUMBER := 32
  const FIRST_CSR := 128

  /** CSR addresses are 12 bits wide: larger register numbers wrap. */
  function CsrNumber(number: Word): CsrAddress
    requires number >= FIRST_CSR
  {
    (number - FIRST_CSR) % 0x1000
  }

  function WriteRegister(c: Core, number: Word, value: Word): (Core, bool) {
    if number < 32 then (c.(regs := SetRegister(c.regs, number, value)), true)
    else if number == PC_NUMBER then (c.(pc := value), true)
    else if number >= FIRST_CSR then
      var (csr, r) := AccessCsr(c.csr, CsrInfo(Overwrite, CsrNumber(number), value, true));
      (c.(csr := csr), r.Ok?)
    else (c, false)
  }

  function ReadRegister(c: Core, number: Word): (Core, Option<Word>) {
    if number < 32 then (c, Some(c.regs[number]))
    else if number == PC_NUMBER then (c, Some(c.pc))
    else if number >= FIRST_CSR then
      var (csr, r) := AccessCsr(c.csr, CsrInfo(NoWrite, CsrNumber(number), 0, true));
      (c.(csr := csr), if r.Ok? then Some(r.value) else None)
    else (c, None)
  }

  method WriteCpuRegister(cpu: CpuModule, number: Word, value: Word) returns (ok: bool)
    requires cpu.Valid()
    modifies cpu`pc, cpu.registers, cpu.csr
    ensures cpu.Valid() && (cpu.Now(), ok) == WriteRegister(old(cpu.Now()), number, value)
    ensures cpu.instFetch.Contents() == old(cpu.instFetch.Contents())
  {
    hide AccessCsr, SetRegister;
    if number < 32 {
      cpu.WriteRegister(number, value);
      return true;
    }
    if number == PC_NUMBER {
      cpu.pc := value;
      return true;
    }
    if number >= FIRST_CSR {
      var r := cpu.csr.Access(CsrInfo(Overwrite, CsrNumber(number), value, true));
      return r.Ok?;
    }
    return false;
  }

  method ReadCpuRegister(cpu: CpuModule, number: Word) returns (value: Option<Word>)
    requires cpu.Valid()
    modifies cpu.csr
    ensures cpu.Valid() && (cpu.Now(), value) == ReadRegister(old(cpu.Now()), number)
    ensures cpu.instFetch.Contents() == old(cpu.instFetch.Contents())
  {
    hide AccessCsr;
    if number < 32 {
      return Some(cpu.registers[number]);
    }
    if number == PC_NUMBER {
      return Some(cpu.pc);
    }
    if number >= FIRST_CSR {
      var r := cpu.csr.Access(CsrInfo(NoWrite, CsrNumber(number), 0, true));
      return if r.Ok? then Some(r.value) else None;
    }
    return None;
  }

  /** A debugger read changes nothing, although every CSR access writes under a mask. */
  lemma {:induction false} ReadChangesNothing(c: Core, number: Word)
    requires Legal(c.csr)
    ensures ReadRegister(c, number).0 == c
    ensures number >= FIRST_CSR ==> ReadRegister(c, number).1 == Get(c.csr, CsrNumber(number))
  {
    hide MaskedWrite, Get, Put, Legal;
    if number >= FIRST_CSR && Get(c.csr, CsrNumber(number)).Some? {
      var a := CsrNumber(number);
      EmptyMask(Get(c.csr, a).value, 0);
      PutBack(c.csr, a);
      StatusAnswer(c.csr, a);
    }
  }

  lemma {:induction false} StatusAnswer(f: CsrFile, a: CsrAddress)
    ensures a == 0x300 ==> Get(f, a) == Some(f.mstatus)
    ensures a == 0x310 ==> Get(f, a) == Some(f.mstatush)
  {
  }

  /** Register numbers: 0 to 31 are the general registers, 32 the pc, and 128 + a the CSR at address a. */
  lemma {:induction false} RegisterNumbers(c: Core, number: Word)
    requires Legal(c.csr)
    ensures ReadRegister(c, number).1
         == if number <= 31 then Some(c.regs[number])
            else if number == 32 then Some(c.pc)
            else if number < 128 then None
            else Get(c.csr, (number - 128) % 4096)
  {
    hide Legal, Get;
    ReadChangesNothing(c, number);
  }

  /** A register write is accepted for general registers, pc and the CSRs that exist and are not read-only. If it
      is not, nothing changes; if it is, no other register does. */
  lemma {:induction false} WriteAccepted(c: Core, number: Word, value: Word)
    requires Legal(c.csr)
    ensures var (after, ok) := WriteRegister(c, number, value);
            var a := (number - 128) % 4096;
            && (ok <==> number <= 32 || (number >= 128 && a < 0xC00 && Get(c.csr, a).Some?))
            && (!ok ==> after == c) && after.bus == c.bus
            && (forall r :: 0 <= r < 32 && r != number ==> after.regs[r] == c.regs[r])
            && (number != 32 ==> after.pc == c.pc) && (number < 128 ==> after.csr == c.csr)
            && (number >= 128 ==> forall other: CsrAddress :: other != a ==> Get(after.csr, other) == Get(c.csr, other))
  {
    hide MaskedWrite, Legal, Legalised, Get, Put;
    if number >= FIRST_CSR {
      var a := CsrNumber(number);
      if Get(c.csr, a).Some? {
        var w := MaskedWrite(Get(c.csr, a).value, 0xffff_ffff, value);
        forall other: CsrAddress | other != a
          ensures Get(Put(c.csr, a, w), other) == Get(c.csr, other)
        {
          PutElsewhere(c.csr, a, w, other);
        }
      }
    }
  }

  /** What the debugger writes it reads back: every general register but x0, the pc, and every writable
      CSR but mstatus and mstatush, which keep only their legal bits. */
  lemma {:induction false} WriteReadBack(c: Core, number: Word, value: Word)
    requires Legal(c.csr) && WriteRegister(c, number, value).1
    ensures var (after, ok) := WriteRegister(c, number, value);
            ReadRegister(after, number).1
              == if number == 0 then Some(c.regs[0])
                 else if number >= FIRST_CSR && CsrNumber(number) == 0x300 then Some(Legalised(value))
                 else if number >= FIRST_CSR && CsrNumber(number) == 0x310 then Some(0)
                 else Some(value)
  {
    hide MaskedWrite, Legal, Legalised;
    if number >= FIRST_CSR {
      var a := CsrNumber(number);
      var after := WriteRegister(c, number, value).0;
      AccessLegal(c.csr, CsrInfo(Overwrite, a, value, true));
      ReadChangesNothing(after, number);
      OverwriteStores(c.csr, a, value);
    }
  }

  /* ---- The machine-wide invariant ---- */

  datatype Action =
    | CpuCycle(fetched: Fetch.Outcome)  // whatever the fetch delivered
    | DebugByte(address: Word, byte: Byte)
    | DebugBlock(address: Word, data: seq<Byte>)
    | DebugReadByte(address: Word)
    | DebugReadBlock(address: Word, length: nat)
    | DebugRegister(number: Word, value: Word)
    | DebugReadRegister(number: Word)
    | Restart

  function Act(c: Core, a: Action): Core {
    match a
    case CpuCycle(f) => Cycle(c, f).0
    case DebugByte(address, byte) => c.(bus := LoadStore.DebugWrite(c.bus, address, byte).0)
    case DebugBlock(address, data) =>
      c.(bus := LoadStore.WriteBytes(c.bus, address, data).0)
    case DebugReadByte(address) => c.(bus := LoadStore.DebugRead(c.bus, address).0)
    case DebugReadBlock(address, length) => c.(bus := LoadStore.ReadBytes(c.bus, address, length).0)
    case DebugRegister(number, value) => WriteRegister(c, number, value).0
    case DebugReadRegister(number) => ReadRegister(c, number).0
    case Restart => c.(bus := c.bus.(ram := Reset(c.bus.ram)))
  }

  function ActAll(c: Core, actions: seq<Action>): Core {
    if actions == [] then c else Act(ActAll(c, actions[..|actions| - 1]), actions[|actions| - 1])
  }

  /** The ROM holds the flash image padded with zeros, x0 is zero, mstatus has only mie, mpie and mpp, and
      the identification CSRs have their reset values. */
  predicate Sound(c: Core, image: seq<Byte>) {
    c.regs[0] == 0 && Legal(c.csr) && c.bus.rom.words == RomImage(image)
  }

  lemma {:induction false} WriteKeepsRom(b: BusState, address: nat, data: Word, mask: Mask)
    ensures WriteBus(b, address, data, mask).0.rom == b.rom
  {
    hide Merged, WriteUart, Clock.WriteClock;
  }

  lemma {:induction false} AccessKeepsRom(b: BusState, op: MemOp, f: MemFunct, address: Word, value: Word)
    ensures LoadStore.Perform(b, op, f, address, value).0.rom == b.rom
  {
    hide WriteBus, LoadStore.StoreMask, LoadStore.LoadValue, LoadStore.ShiftUp, ReadWord;
    var k := address % 4;
    if op == Store && LoadStore.StoreMask(f, k).Some? {
      WriteKeepsRom(b, address - k, LoadStore.ShiftUp(value, k), LoadStore.StoreMask(f, k).value);
    }
  }

  lemma {:induction false} BlockKeepsRom(b: BusState, address: Word, data: seq<Byte>)
    ensures LoadStore.WriteBytes(b, address, data).0.rom == b.rom
    decreases |data|
  {
    hide WriteBus, LoadStore.ShiftUp;
    if data != [] {
      var k := address % 4;
      var write := WriteBus(b, address, LoadStore.ShiftUp(data[0], k), LoadStore.OneByte(k));
      WriteKeepsRom(b, address, LoadStore.ShiftUp(data[0], k), LoadStore.OneByte(k));
      if write.1.None? {
        BlockKeepsRom(write.0, Wrap(address + 1), data[1..]);
      }
    }
  }

  lemma {:induction false} ReadKeepsRom(b: BusState, address: Word)
    ensures ReadBus(b, address).0.rom == b.rom
  {
  }

  lemma {:induction false} ReadsKeepRom(b: BusState, address: Word, length: nat)
    ensures LoadStore.ReadBytes(b, address, length).0.rom == b.rom
    decreases length
  {
    hide ReadBus, ByteOf;
    if length != 0 {
      var k := address % 4;
      var n := if length < 4 - k then length else 4 - k;
      ReadKeepsRom(b, address);
      var read := ReadBus(b, address);
      if read.1.Ok? {
        ReadsKeepRom(read.0, Wrap(address + n), length - n);
      }
    }
  }

  lemma {:induction false} RetireSound(c: Core, r: CpuResult, image: seq<Byte>)
    requires Sound(c, image)
    ensures Sound(Retire(c, r), image)
  {
    hide RomImage, Legalised;
    MretLegal(c.csr);
  }

  lemma {:induction false} OperateSound(c: Core, r0: CpuResult, image: seq<Byte>)
    requires Sound(c, image)
    ensures Sound(Operate(c, r0).0, image)
  {
    hide Alu.Compute, Alu.Taken, LoadStore.Perform, Retire, AccessCsr, RomImage, Legal;
    var d := r0.d;
    var a := Alu.Compute(d.aluOp, d.num1, d.num2);
    var csr := AccessCsr(c.csr, d.csr).0;
    AccessLegal(c.csr, d.csr);
    AccessKeepsRom(c.bus, d.memOp, d.memFunct, a, d.storeValue);
    var mid := c.(csr := csr, bus := LoadStore.Perform(c.bus, d.memOp, d.memFunct, a, d.storeValue).0);
    var (after, report) := Operate(c, r0);
    if after != mid && after != c.(csr := csr) {
      RetireSound(mid, report.result, image);
    }
  }

  lemma {:induction false} StepSound(c: Core, f: Fetch.Outcome, image: seq<Byte>)
    requires Sound(c, image)
    ensures Sound(StepWith(c, f).0, image)
  {
    hide Operate, Decode.Decode, TrapVector, TrapValue, RomImage, Legal, TrapStatus;
    if Trapped(StepWith(c, f).1) {
      PreciseTraps(c, f);
      TrapKeepsLegal(c, f);
    } else {
      if f.Fetched? && Decode.Decode(c.regs, f.word, c.pc).Ok? {
        var d := Decode.Decode(c.regs, f.word, c.pc).value;
        OperateSound(c, Blank(c.pc).(inst := f.word, d := d), image);
      }
      TickKeeps(Executed(c, f).0);
    }
  }

  lemma {:induction false} ActSound(c: Core, a: Action, image: seq<Byte>)
    requires Sound(c, image)
    ensures Sound(Act(c, a), image)
  {
    hide RomImage, Legal, StepWith, WriteBus, ReadBus, LoadStore.ShiftUp, FreshWords, AccessCsr;
    match a
    case CpuCycle(f) =>
      StepSound(c, f, image);
      TickKeeps(StepWith(c, f).0);
    case DebugByte(address, byte) =>
      var k := address % 4;
      WriteKeepsRom(c.bus, address - k, LoadStore.ShiftUp(byte, k), LoadStore.OneByte(k));
    case DebugBlock(address, data) =>
      BlockKeepsRom(c.bus, address, data);
    case DebugReadByte(address) =>
      ReadKeepsRom(c.bus, address - address % 4);
    case DebugReadBlock(address, length) =>
      ReadsKeepRom(c.bus, address, length);
    case DebugRegister(number, value) =>
      if number >= FIRST_CSR {
        AccessLegal(c.csr, CsrInfo(Overwrite, CsrNumber(number), value, true));
      }
    case DebugReadRegister(number) =>
      if number >= FIRST_CSR {
        AccessLegal(c.csr, CsrInfo(NoWrite, CsrNumber(number), 0, true));
      }
    case Restart =>
  }

  /** The invariant survives every run of CPU cycles, debugger writes and restarts. */
  lemma {:induction false} AlwaysSound(c: Core, actions: seq<Action>, image: seq<Byte>)
    requires Sound(c, image)
    ensures Sound(ActAll(c, actions), image)
  {
    hide Act, Sound;
    if actions != [] {
      AlwaysSound(c, actions[..|actions| - 1], image);
      ActSound(ActAll(c, actions[..|actions| - 1]), actions[|actions| - 1], image);
    }
  }

  /** The platform as built satisfies it. */
  lemma {:induction false} PowerOnSound(bus: BusState, image: seq<Byte>)
    requires bus.rom.words == RomImage(image)
    ensures Sound(Core(ROM_START, seq(32, _ => 0), RESET, bus), image)
  {
    hide RomImage;
  }
}
