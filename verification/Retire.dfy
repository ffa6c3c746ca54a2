/** What every kind of instruction leaves behind: registers, pc, memory and CSRs after one CPU step
    (lib/core/cpu.cpp, `execute`), by instruction field and in terms of the ISA's own results. */
module Retire {
  import opened Words
  import opened Decode
  import opened Encoding
  import opened Isa
  import opened BlockMemory
  import opened Bus
  import opened Csr
  import opened Cpu
  import opened Traps
  import Alu
  import Fetch
  import LoadStore

  /** One step on the fetched word `i`. */
  function After(c: Core, i: Word): Core {
    StepWith(c, Fetch.Fetched(i)).0
  }

  predicate Completes(c: Core, i: Word) {
    var report := StepWith(c, Fetch.Fetched(i)).1;
    report.Report? && report.result.trap.None?
  }

  predicate TrapsWith(c: Core, i: Word, t: Trap) {
    var report := StepWith(c, Fetch.Fetched(i)).1;
    report.Report? && report.result.trap == Some(t)
  }

  /** `rd` holds `v`, unless it is x0; no other register has changed. */
  predicate Leaves(c: Core, after: Core, rd: RegNum, v: Word) {
    forall r :: 0 <= r < 32 ==> after.regs[r] == if r == rd && r != 0 then v else c.regs[r]
  }

  /** Of the CSRs only the two counters have advanced. */
  predicate CountersOnly(c: Core, after: Core) {
    after.csr == c.csr.(mcycle := (c.csr.mcycle + 1) % TWO_64, minstret := (c.csr.minstret + 1) % TWO_64)
  }

  /** The instruction completes with this effect on registers and pc and no other. */
  ghost predicate Retires(c: Core, i: Word, rd: RegNum, v: Word, pc: Word) {
    var after := After(c, i);
    Completes(c, i) && Leaves(c, after, rd, v) && after.pc == pc && after.bus == c.bus && CountersOnly(c, after)
  }

  function NextPc(c: Core): Word {
    (c.pc + 4) % 0x1_0000_0000
  }

  /* ---- Instructions that only compute ---- */

  lemma {:induction false} ComputeSteps(c: Core, i: Word, d: Decoded)
    requires Decode.Decode(c.regs, i, c.pc) == Ok(d) && !d.ecall && !d.mret && !InterruptPending(c.csr)
    requires d.memOp == NoMem && d.csr == NO_CSR
    ensures Completes(c, i)
    ensures var result, next := Alu.Compute(d.aluOp, d.num1, d.num2), Wrap(c.pc + 4);
            var v := match d.writeback
                     case PcPlus4 => next
                     case AluResult => result
                     case _ => 0;
            After(c, i) == c.(pc := if Alu.Taken(d.branchOp, d.branch1, d.branch2) then result else next,
                              regs := SetRegister(c.regs, d.rd, v), csr := Ticked(c.csr))
  {
    hide Decode.Decode, Alu.Compute, Alu.Taken, InterruptPending, SetRegister;
  }

  /** From a decoded record to what retires. */
  lemma {:induction false} ComputeRetires(c: Core, i: Word, d: Decoded, v: Word, pc: Word)
    requires Decode.Decode(c.regs, i, c.pc) == Ok(d) && !d.ecall && !d.mret && !InterruptPending(c.csr)
    requires d.memOp == NoMem && d.csr == NO_CSR
    requires match d.writeback
             case PcPlus4 => v == NextPc(c)
             case AluResult => v == Alu.Compute(d.aluOp, d.num1, d.num2)
             case _ => d.rd == 0
    requires pc == if Alu.Taken(d.branchOp, d.branch1, d.branch2) then Alu.Compute(d.aluOp, d.num1, d.num2)
                   else NextPc(c)
    ensures Retires(c, i, d.rd, v, pc)
  {
    hide Decode.Decode, Alu.Compute, Alu.Taken, InterruptPending, Completes, After;
    ComputeSteps(c, i, d);
  }

  /** Register-register instructions, multiplication and division included: `rd` receives the prescribed
      value, or the word is illegal. */
  lemma {:induction false} RegisterRetires(c: Core, f7: Field7, rs2: Field5, rs1: Field5, f3: Field3, rd: Field5)
    requires !InterruptPending(c.csr)
    ensures var i := Assembled(f7, rs2, rs1, f3, rd, 0x33);
            match RegisterResult(f7, f3, c.regs[rs1], c.regs[rs2])
            case None => TrapsWith(c, i, IllegalInstruction)
            case Some(v) => Retires(c, i, rd, v, NextPc(c))
  {
    hide Decode.Decode, Alu.Compute, RegisterResult, InterruptPending, Assembled, Retires;
    var i := Assembled(f7, rs2, rs1, f3, rd, 0x33);
    RegisterDecoded(c.regs, c.pc, f7, rs2, rs1, f3, rd);
    var r := Decode.Decode(c.regs, i, c.pc);
    if r.Ok? {
      ComputeRetires(c, i, r.value, RegisterResult(f7, f3, c.regs[rs1], c.regs[rs2]).value, NextPc(c));
    } else {
      DecodedExclusive(c.regs, i, c.pc);
    }
  }

  lemma {:induction false} ImmediateRetires(c: Core, offset: int, rs1: Field5, f3: Field3, rd: Field5)
    requires !InterruptPending(c.csr) && -0x800 <= offset < 0x800
    ensures Retires(c, IType(offset, rs1, f3, rd, 0x13), rd,
                    ImmediateResult(f3, offset / 0x400 % 2 == 1, c.regs[rs1], offset % 0x1_0000_0000), NextPc(c))
  {
    hide Decode.Decode, Alu.Compute, ImmediateResult, InterruptPending, IType, Retires;
    var i := IType(offset, rs1, f3, rd, 0x13);
    ImmediateDecoded(c.regs, c.pc, offset, rs1, f3, rd);
    var d := Decode.Decode(c.regs, i, c.pc).value;
    ComputeRetires(c, i, d, Alu.Compute(d.aluOp, d.num1, d.num2), NextPc(c));
  }

  lemma {:induction false} AddIs(x: Word, y: Word)
    ensures Alu.Compute(Alu.Add, x, y) == (x + y) % 0x1_0000_0000
  {
  }

  /** `lui` and `auipc`. */
  lemma {:induction false} UpperRetires(c: Core, imm: Field20, rd: Field5)
    requires !InterruptPending(c.csr)
    ensures Retires(c, UType(imm, rd, 0x37), rd, imm * 0x1000, NextPc(c))
    ensures Retires(c, UType(imm, rd, 0x17), rd, (c.pc + imm * 0x1000) % 0x1_0000_0000, NextPc(c))
  {
    hide Decode.Decode, Alu.Compute, InterruptPending, UType, Retires;
    UpperDecoded(c.regs, c.pc, imm, rd);
    AddIs(0, imm * 0x1000);
    AddIs(c.pc, imm * 0x1000);
    var lui, auipc := UType(imm, rd, 0x37), UType(imm, rd, 0x17);
    ComputeRetires(c, lui, Decode.Decode(c.regs, lui, c.pc).value, imm * 0x1000, NextPc(c));
    ComputeRetires(c, auipc, Decode.Decode(c.regs, auipc, c.pc).value,
                   (c.pc + imm * 0x1000) % 0x1_0000_0000, NextPc(c));
  }

  /** `jal` goes to pc + offset and leaves pc + 4 in `rd`. */
  lemma {:induction false} JumpRetires(c: Core, offset: int, rd: Field5)
    requires !InterruptPending(c.csr) && -0x10_0000 <= offset < 0x10_0000 && offset % 2 == 0
    ensures Retires(c, JType(offset, rd, 0x6f), rd, NextPc(c), (c.pc + offset) % 0x1_0000_0000)
  {
    hide Decode.Decode, Alu.Compute, InterruptPending, JType, Retires;
    JumpDecoded(c.regs, c.pc, offset, rd);
    AddIs(c.pc, Wrap(offset));
    Residues(c.pc, offset);
    var i := JType(offset, rd, 0x6f);
    ComputeRetires(c, i, Decode.Decode(c.regs, i, c.pc).value, NextPc(c), (c.pc + offset) % 0x1_0000_0000);
  }

  lemma {:induction false} Residues(x: Word, offset: int)
    ensures (x + Wrap(offset)) % 0x1_0000_0000 == (x + offset) % 0x1_0000_0000
  {
    ModShift(x + Wrap(offset), offset / TWO_32, TWO_32);
  }

  /** `jalr` goes to rs1 + offset, bit 0 included, and leaves pc + 4 in `rd`. */
  lemma {:induction false} JumpRegisterRetires(c: Core, offset: int, rs1: Field5, f3: Field3, rd: Field5)
    requires !InterruptPending(c.csr) && -0x800 <= offset < 0x800
    ensures Retires(c, IType(offset, rs1, f3, rd, 0x67), rd, NextPc(c), (c.regs[rs1] + offset) % 0x1_0000_0000)
  {
    hide Decode.Decode, Alu.Compute, InterruptPending, IType, Retires;
    JumpRegisterDecoded(c.regs, c.pc, offset, rs1, f3, rd);
    AddIs(c.regs[rs1], Wrap(offset));
    Residues(c.regs[rs1], offset);
    var i := IType(offset, rs1, f3, rd, 0x67);
    ComputeRetires(c, i, Decode.Decode(c.regs, i, c.pc).value, NextPc(c), (c.regs[rs1] + offset) % 0x1_0000_0000);
  }

  /** A branch goes to pc + offset exactly if its comparison holds, and writes no register. */
  lemma {:induction false} BranchRetires(c: Core, offset: int, rs2: Field5, rs1: Field5, f3: Field3)
    requires !InterruptPending(c.csr) && -0x1000 <= offset < 0x1000 && offset % 2 == 0
    ensures Retires(c, BType(offset, rs2, rs1, f3, 0x63), 0, 0,
                    if Branches(f3, c.regs[rs1], c.regs[rs2]) then (c.pc + offset) % 0x1_0000_0000 else NextPc(c))
  {
    hide Decode.Decode, Alu.Compute, Alu.Taken, Branches, InterruptPending, BType, Retires;
    BranchDecoded(c.regs, c.pc, offset, rs2, rs1, f3);
    AddIs(c.pc, Wrap(offset));
    Residues(c.pc, offset);
    var i := BType(offset, rs2, rs1, f3, 0x63);
    ComputeRetires(c, i, Decode.Decode(c.regs, i, c.pc).value, 0,
                   if Branches(f3, c.regs[rs1], c.regs[rs2]) then (c.pc + offset) % 0x1_0000_0000 else NextPc(c));
  }

  /* ---- Loads and stores ---- */

  /** `width` bytes from `a` on lie in RAM or in ROM. */
  predicate InMemory(a: int, width: nat) {
    (0x8000_0000 <= a && a + width <= 0x1_0000_0000) || (0x10_0000 <= a && a + width <= 0x12_0000)
  }

  /** Where a word can be read: memory and seven device registers. */
  predicate Readable(base: int) {
    InMemory(base, 4)
    || base in {0x1_0004, 0x1_0008, 0x1_000c, 0x1_1000, 0x1_1004, 0x1_1008, 0x1_100c}
  }

  /** Where a word can be written: RAM and six device registers. */
  predicate Storable(base: int) {
    base >= 0x8000_0000 || base in {0x1_0000, 0x1_0008, 0x1_1000, 0x1_1004, 0x1_1008, 0x1_100c}
  }

  /** The byte of memory at `a`: the lowest byte of a word comes first. */
  function MemByte(b: BusState, a: int): Byte
    requires InMemory(a, 1)
  {
    var w := if a >= 0x8000_0000 then b.ram.words[(a - 0x8000_0000) / 4] else b.rom.words[(a - 0x10_0000) / 4];
    Lane256(w, a % 4)
  }

  function Lane256(w: Word, k: Lane): Byte {
    match k
    case 0 => w % 0x100
    case 1 => w / 0x100 % 0x100
    case 2 => w / 0x1_0000 % 0x100
    case 3 => w / 0x100_0000 % 0x100
  }

  /** Width of a load or store by `funct3`; 0 where it names none. */
  function LoadWidth(f3: Field3): nat {
    if f3 == 0 || f3 == 4 then 1 else if f3 == 1 || f3 == 5 then 2 else if f3 == 2 then 4 else 0
  }

  function StoreWidth(f3: Field3): nat {
    if f3 == 0 then 1 else if f3 == 1 then 2 else if f3 == 2 then 4 else 0
  }

  /** The little-endian number in memory at `a`, sign-extended by `lb` and `lh`. */
  function MemValue(b: BusState, a: int, f3: Field3): Word
    requires LoadWidth(f3) > 0 && InMemory(a, LoadWidth(f3))
  {
    match LoadWidth(f3)
    case 1 =>
      var v := MemByte(b, a);
      if f3 == 0 && v >= 0x80 then v + 0xffff_ff00 else v
    case 2 =>
      var v := MemByte(b, a) + 0x100 * MemByte(b, a + 1);
      if f3 == 1 && v >= 0x8000 then v + 0xffff_0000 else v
    case _ =>
      MemByte(b, a) + 0x100 * MemByte(b, a + 1) + 0x1_0000 * MemByte(b, a + 2) + 0x100_0000 * MemByte(b, a + 3)
  }

  lemma {:induction false} LaneIs(w: Word, k: Lane)
    ensures ByteOf(w, k) == Lane256(w, k)
  {
  }

  /** The memory word that covers `a`. */
  function WordAt(b: BusState, a: int): Word
    requires InMemory(a, 1)
  {
    if a >= 0x8000_0000 then b.ram.words[(a - 0x8000_0000) / 4] else b.rom.words[(a - 0x10_0000) / 4]
  }

  lemma {:induction false} MemoryRead(b: BusState, a: Word)
    requires InMemory(a, 1)
    ensures ReadBus(b, a - a % 4) == (b, Ok(WordAt(b, a)))
    ensures InMemory(a - a % 4, 4)
  {
    var q := a / 4;
    assert a - a % 4 == 4 * q;
  }

  lemma {:induction false} ReadableIff(b: BusState, base: Word)
    requires base % 4 == 0
    ensures ReadBus(b, base).1.Ok? <==> Readable(base)
  {
  }

  lemma {:induction false} WholeWordIn(a: Word)
    ensures InMemory(a - a % 4, 4) <==> InMemory(a, 1)
  {
    var q := a / 4;
    assert a - a % 4 == 4 * q;
  }

  /** Bytes of an aligned access lie in one word. */
  lemma {:induction false} SameWord(b: BusState, a: Word, j: nat)
    requires InMemory(a, 1) && a % 4 + j < 4
    ensures InMemory(a + j, 1) && MemByte(b, a + j) == Lane256(WordAt(b, a), a % 4 + j)
  {
    var q, r := a / 4, a % 4;
    assert a == 4 * q + r;
    ModUnique(a + j, 4, q, r + j);
    if a >= 0x8000_0000 {
      ModUnique(a - 0x8000_0000, 4, q - 0x2000_0000, r);
      ModUnique(a + j - 0x8000_0000, 4, q - 0x2000_0000, r + j);
    } else {
      ModUnique(a - 0x10_0000, 4, q - 0x4_0000, r);
      ModUnique(a + j - 0x10_0000, 4, q - 0x4_0000, r + j);
    }
  }

  lemma {:induction false} AlignedLane(a: Word, width: nat)
    requires width in {1, 2, 4} && a % width == 0
    ensures a % 4 + width <= 4 && (width == 4 ==> a % 4 == 0) && (width == 2 ==> a % 4 % 2 == 0)
  {
    LoadStore.LaneParity(a);
    if width == 1 {
    } else if width == 2 {
    } else {
      assert width == 4;
    }
  }

  lemma {:induction false} LoadedNumber(b: BusState, a: Word, f3: Field3)
    requires LoadWidth(f3) > 0 && a % LoadWidth(f3) == 0 && InMemory(a, 1)
    ensures InMemory(a, LoadWidth(f3))
    ensures LoadStore.LoadValue(WordAt(b, a), LoadFunct(f3), a % 4) == Some(MemValue(b, a, f3))
  {
    hide MemByte, WordAt, ByteOf, Lane256, LoadStore.LoadValue, MemValue;
    AlignedLane(a, LoadWidth(f3));
    if LoadWidth(f3) == 1 {
      LoadedByte(b, a, f3);
    } else if LoadWidth(f3) == 2 {
      LoadedHalf(b, a, f3);
    } else {
      LoadedWord(b, a, f3);
    }
  }

  lemma {:induction false} LoadedByte(b: BusState, a: Word, f3: Field3)
    requires LoadWidth(f3) == 1 && InMemory(a, 1)
    ensures LoadStore.LoadValue(WordAt(b, a), LoadFunct(f3), a % 4) == Some(MemValue(b, a, f3))
  {
    hide MemByte, WordAt, ByteOf, Lane256;
    LoadStore.LoadValueBytes(WordAt(b, a), LoadFunct(f3), a % 4);
    hide LoadStore.LoadValue;
    SameWord(b, a, 0);
    LaneIs(WordAt(b, a), a % 4);
  }

  lemma {:induction false} LoadedHalf(b: BusState, a: Word, f3: Field3)
    requires LoadWidth(f3) == 2 && InMemory(a, 1) && a % 4 % 2 == 0 && a % 4 + 2 <= 4
    ensures InMemory(a, 2)
    ensures LoadStore.LoadValue(WordAt(b, a), LoadFunct(f3), a % 4) == Some(MemValue(b, a, f3))
  {
    hide MemByte, WordAt, ByteOf, Lane256;
    LoadStore.LoadValueBytes(WordAt(b, a), LoadFunct(f3), a % 4);
    hide LoadStore.LoadValue;
    SameWord(b, a, 0);
    SameWord(b, a, 1);
    LaneIs(WordAt(b, a), a % 4);
    LaneIs(WordAt(b, a), a % 4 + 1);
  }

  lemma {:induction false} LoadedWord(b: BusState, a: Word, f3: Field3)
    requires LoadWidth(f3) == 4 && InMemory(a, 1) && a % 4 == 0
    ensures InMemory(a, 4)
    ensures LoadStore.LoadValue(WordAt(b, a), LoadFunct(f3), a % 4) == Some(MemValue(b, a, f3))
  {
    hide MemByte, WordAt, ByteOf, Lane256;
    LoadStore.LoadValueBytes(WordAt(b, a), LoadFunct(f3), a % 4);
    hide LoadStore.LoadValue;
    SameWord(b, a, 0);
    SameWord(b, a, 1);
    SameWord(b, a, 2);
    SameWord(b, a, 3);
    LaneIs(WordAt(b, a), 0);
    LaneIs(WordAt(b, a), 1);
    LaneIs(WordAt(b, a), 2);
    LaneIs(WordAt(b, a), 3);
  }

  lemma {:induction false} AlignmentIs(a: Word, f3: Field3)
    ensures LoadStore.IsAligned(a, LoadFunct(f3)) <==> LoadWidth(f3) > 0 && a % LoadWidth(f3) == 0
    ensures LoadStore.IsAligned(a, StoreFunct(f3)) <==> StoreWidth(f3) > 0 && a % StoreWidth(f3) == 0
  {
  }

  /** What a load does at address `a`. */
  lemma {:induction false} LoadPerforms(b: BusState, a: Word, f3: Field3)
    ensures var (after, access) := LoadStore.Perform(b, Load, LoadFunct(f3), a, 0);
            if LoadWidth(f3) == 0 || a % LoadWidth(f3) != 0 then access == LoadStore.Traps(LoadAddressMisaligned)
            else if !Readable(a - a % 4) then access == LoadStore.Traps(LoadAccessFault)
            else access.Value? && (InMemory(a, 1) ==> InMemory(a, LoadWidth(f3)) && after == b
                                                      && access.word == MemValue(b, a, f3))
  {
    hide ReadBus, LoadStore.LoadValue, LoadStore.IsAligned, MemValue, Readable, InMemory, LoadWidth, LoadFunct;
    AlignmentIs(a, f3);
    if LoadStore.IsAligned(a, LoadFunct(f3)) {
      ModUnique(a - a % 4, 4, a / 4, 0);
      ReadableIff(b, a - a % 4);
      FunctKinds(f3);
      LoadStore.DecodedNeverThrows(b, Load, LoadFunct(f3), a, 0);
      if InMemory(a, 1) {
        MemoryRead(b, a);
        LoadedNumber(b, a, f3);
      }
    }
  }

  lemma {:induction false} FunctKinds(f3: Field3)
    ensures IsLoadFunct(LoadFunct(f3)) || LoadFunct(f3) == NoFunct
    ensures IsStoreFunct(StoreFunct(f3)) || StoreFunct(f3) == NoFunct
    ensures StoreFunct(f3) == NoFunct <==> StoreWidth(f3) == 0
    ensures StoreWidth(f3) > 0 ==> LoadStore.Width(StoreFunct(f3)) == StoreWidth(f3)
  {
  }

  lemma {:induction false} StorableIff(b: BusState, base: Word, data: Word, mask: Mask)
    requires base % 4 == 0 && mask != NO_BYTES
    ensures WriteBus(b, base, data, mask).1.None? <==> Storable(base)
  {
    hide Merged;
  }

  lemma {:induction false} SomeByte(f: MemFunct, k: Lane)
    ensures LoadStore.StoreMask(f, k).Some? ==> LoadStore.StoreMask(f, k).value != NO_BYTES
  {
  }

  /** RAM after a store of `width` bytes of `v` at `a`; nothing else has changed. */
  ghost predicate Stored(b: BusState, after: BusState, a: Word, width: nat, v: Word) {
    && after == b.(ram := after.ram) && after.ram == b.ram.(words := after.ram.words)
    && forall x: Word :: x >= 0x8000_0000 ==>
         MemByte(after, x) == if a <= x < a + width && x - a < 4 then Lane256(v, x - a) else MemByte(b, x)
  }

  lemma {:induction false} RamByteIs(b: BusState, x: LoadStore.RamAddress)
    ensures MemByte(b, x) == LoadStore.RamByte(b, x)
  {
    hide Lane256, ByteOf;
    LaneIs(b.ram.words[(x - 0x8000_0000) / 4], x % 4);
  }

  lemma {:induction false} StoredInRam(b: BusState, a: Word, f3: Field3, v: Word)
    requires StoreWidth(f3) > 0 && a % StoreWidth(f3) == 0 && a >= 0x8000_0000
    ensures Stored(b, LoadStore.Perform(b, Store, StoreFunct(f3), a, v).0, a, StoreWidth(f3), v)
  {
    hide LoadStore.Perform, ByteOf, Lane256, MemByte, LoadStore.RamByte, LoadStore.IsAligned;
    FunctKinds(f3);
    AlignmentIs(a, f3);
    hide StoreFunct, StoreWidth;
    LoadStore.StoreExact(b, StoreFunct(f3), a, v);
    var after := LoadStore.Perform(b, Store, StoreFunct(f3), a, v).0;
    forall x: Word | x >= 0x8000_0000
      ensures MemByte(after, x) == if a <= x < a + StoreWidth(f3) && x - a < 4 then Lane256(v, x - a) else MemByte(b, x)
    {
      RamByteIs(b, x);
      RamByteIs(after, x);
      if a <= x < a + StoreWidth(f3) && x - a < 4 {
        LaneIs(v, x - a);
      }
    }
  }

  /** What a store of `v` does at address `a`. */
  lemma {:induction false} StorePerforms(b: BusState, a: Word, f3: Field3, v: Word)
    ensures var (after, access) := LoadStore.Perform(b, Store, StoreFunct(f3), a, v);
            if StoreWidth(f3) == 0 || a % StoreWidth(f3) != 0 then access == LoadStore.Traps(StoreAddressMisaligned)
            else if !Storable(a - a % 4) then access == LoadStore.Traps(StoreAccessFault)
            else access.Value? && (a >= 0x8000_0000 ==> Stored(b, after, a, StoreWidth(f3), v))
  {
    hide WriteBus, LoadStore.IsAligned, LoadStore.StoreMask, LoadStore.ShiftUp, Storable, Stored;
    AlignmentIs(a, f3);
    FunctKinds(f3);
    hide StoreFunct;
    if LoadStore.IsAligned(a, StoreFunct(f3)) {
      ModUnique(a - a % 4, 4, a / 4, 0);
      LoadStore.DecodedNeverThrows(b, Store, StoreFunct(f3), a, v);
      SomeByte(StoreFunct(f3), a % 4);
      var mask := LoadStore.StoreMask(StoreFunct(f3), a % 4);
      if mask.Some? {
        StorableIff(b, a - a % 4, LoadStore.ShiftUp(v, a % 4), mask.value);
        AlignedWrite(b, a - a % 4, LoadStore.ShiftUp(v, a % 4), mask.value);
      }
      if a >= 0x8000_0000 {
        StoredInRam(b, a, f3, v);
      }
    }
  }

  lemma {:induction false} MemorySteps(c: Core, i: Word, d: Decoded)
    requires Decode.Decode(c.regs, i, c.pc) == Ok(d) && !InterruptPending(c.csr)
    requires d == BLANK.(writeback := d.writeback, rd := d.rd, num1 := d.num1, num2 := d.num2,
                         memOp := d.memOp, memFunct := d.memFunct, storeValue := d.storeValue)
    requires d.memOp == Load ==> d.writeback == MemoryValue
    requires d.memOp == Store ==> d.writeback == NoSource && d.rd == 0
    requires d.memOp != NoMem
    ensures var a := Wrap(d.num1 + d.num2);
            var (bus, access) := LoadStore.Perform(c.bus, d.memOp, d.memFunct, a, d.storeValue);
            match access
            case Throws => true
            case Traps(t) => TrapsWith(c, i, t)
            case Value(v) =>
              && Completes(c, i)
              && After(c, i) == c.(pc := Wrap(c.pc + 4), regs := SetRegister(c.regs, d.rd, v), bus := bus,
                                   csr := Ticked(c.csr))
  {
    hide Decode.Decode, LoadStore.Perform, InterruptPending, Alu.Compute;
    AddIs(d.num1, d.num2);
    NoBranchTaken();
    hide Alu.Taken, TrapStatus, TrapVector, TrapValue;
  }

  lemma {:induction false} NoBranchTaken()
    ensures !Alu.Taken(Alu.NoBranch, 0, 0)
  {
  }

  /** A load: misaligned, a fault, or done. From RAM and ROM `rd` receives the number in memory. */
  lemma {:induction false} LoadRetires(c: Core, offset: int, rs1: Field5, f3: Field3, rd: Field5)
    requires !InterruptPending(c.csr) && -0x800 <= offset < 0x800
    ensures var i, a := IType(offset, rs1, f3, rd, 0x03), (c.regs[rs1] + offset) % 0x1_0000_0000;
            if LoadWidth(f3) == 0 || a % LoadWidth(f3) != 0 then TrapsWith(c, i, LoadAddressMisaligned)
            else if !Readable(a - a % 4) then TrapsWith(c, i, LoadAccessFault)
            else
              && Completes(c, i) && After(c, i).pc == NextPc(c) && CountersOnly(c, After(c, i))
              && Leaves(c, After(c, i), rd, After(c, i).regs[rd])
              && (InMemory(a, 1) ==> InMemory(a, LoadWidth(f3)) && Retires(c, i, rd, MemValue(c.bus, a, f3), NextPc(c)))
  {
    hide Decode.Decode, InterruptPending, IType, LoadStore.Perform, MemValue, InMemory, Readable, LoadWidth;
    hide Completes, TrapsWith, After;
    LoadDecoded(c.regs, c.pc, offset, rs1, f3, rd);
    Residues(c.regs[rs1], offset);
    var i, a := IType(offset, rs1, f3, rd, 0x03), (c.regs[rs1] + offset) % 0x1_0000_0000;
    MemorySteps(c, i, Decode.Decode(c.regs, i, c.pc).value);
    LoadPerforms(c.bus, a, f3);
  }

  /** A store: misaligned, a fault, or done. In RAM exactly the bytes it names change. No register does. */
  lemma {:induction false} StoreRetires(c: Core, offset: int, rs2: Field5, rs1: Field5, f3: Field3)
    requires !InterruptPending(c.csr) && -0x800 <= offset < 0x800
    ensures var i, a := SType(offset, rs2, rs1, f3, 0x23), (c.regs[rs1] + offset) % 0x1_0000_0000;
            if StoreWidth(f3) == 0 || a % StoreWidth(f3) != 0 then TrapsWith(c, i, StoreAddressMisaligned)
            else if !Storable(a - a % 4) then TrapsWith(c, i, StoreAccessFault)
            else
              && Completes(c, i) && After(c, i).pc == NextPc(c) && CountersOnly(c, After(c, i))
              && After(c, i).regs == c.regs
              && (a >= 0x8000_0000 ==> Stored(c.bus, After(c, i).bus, a, StoreWidth(f3), c.regs[rs2]))
  {
    hide Decode.Decode, InterruptPending, SType, LoadStore.Perform, Stored, Storable, StoreWidth;
    hide Completes, TrapsWith, After;
    StoreDecoded(c.regs, c.pc, offset, rs2, rs1, f3);
    Residues(c.regs[rs1], offset);
    var i, a := SType(offset, rs2, rs1, f3, 0x23), (c.regs[rs1] + offset) % 0x1_0000_0000;
    MemorySteps(c, i, Decode.Decode(c.regs, i, c.pc).value);
    StorePerforms(c.bus, a, f3, c.regs[rs2]);
  }

  /* ---- CSR instructions, mret and fence.i ---- */

  /** The CSR instruction reaches its register: all but `csrrw` from x0 to x0. */
  predicate Reaches(rs1: Field5, f3: Field3, rd: Field5) {
    f3 % 4 != 1 || rd != 0 || rs1 != 0
  }

  /** It asks for a write of at least one bit. */
  predicate AsksToWrite(x: Registers, rs1: Field5, f3: Field3) {
    rs1 != 0 && (f3 % 4 == 1 || CsrOperand(x, rs1, f3) != 0)
  }

  /** The access that a CSR instruction makes. */
  function AccessOf(x: Registers, csr: CsrAddress, rs1: Field5, f3: Field3, rd: Field5): CsrInfo {
    CsrInfo(if rs1 == 0 then NoWrite else if f3 % 4 == 1 then Overwrite else if f3 % 4 == 2 then SetBits else ClearBits,
            csr, CsrOperand(x, rs1, f3), f3 % 4 != 1 || rd != 0)
  }

  lemma {:induction false} CsrSteps(c: Core, i: Word, d: Decoded)
    requires Decode.Decode(c.regs, i, c.pc) == Ok(d) && !InterruptPending(c.csr)
    requires d == BLANK.(writeback := CsrValue, rd := d.rd, csr := d.csr)
    ensures var (csr, answer) := AccessCsr(c.csr, d.csr);
            if answer.Err? then TrapsWith(c, i, IllegalInstruction)
            else
              && Completes(c, i)
              && After(c, i) == c.(pc := Wrap(c.pc + 4), regs := SetRegister(c.regs, d.rd, answer.value),
                                   csr := Ticked(csr))
  {
    hide Decode.Decode, AccessCsr, InterruptPending, Alu.Compute, SetRegister;
    NoBranchTaken();
    hide Alu.Taken, TrapStatus, TrapVector, TrapValue;
  }

  /** A CSR instruction is illegal exactly if it asks to write a read-only register or reaches one that does
      not exist. Otherwise `rd` receives the old value (of mstatus and mstatush the new one), and the CSRs are
      those after the access, whose bits `AccessBits` gives. */
  lemma {:induction false} CsrRetires(c: Core, csr: CsrAddress, rs1: Field5, f3: Field3, rd: Field5)
    requires !InterruptPending(c.csr) && f3 % 4 != 0
    ensures var i, was := CsrWord(csr, rs1, f3, rd), Get(c.csr, csr);
            var written := AccessCsr(c.csr, AccessOf(c.regs, csr, rs1, f3, rd)).0;
            if (csr >= 0xC00 && AsksToWrite(c.regs, rs1, f3)) || (Reaches(rs1, f3, rd) && was.None?) then
              TrapsWith(c, i, IllegalInstruction)
            else
              && Completes(c, i) && After(c, i).pc == NextPc(c) && After(c, i).bus == c.bus
              && CountersOnly(c.(csr := written), After(c, i))
              && (Reaches(rs1, f3, rd) ==>
                    Leaves(c, After(c, i), rd,
                           if csr == 0x300 || csr == 0x310 then Get(written, csr).value else was.value))
              && (!Reaches(rs1, f3, rd) ==> Leaves(c, After(c, i), 0, 0) && written == c.csr)
  {
    hide Decode.Decode, InterruptPending, CsrWord, CsrOperand, Completes, TrapsWith, After;
    hide MaskedWrite, Get, Put;
    CsrDecoded(c.regs, c.pc, csr, rs1, f3, rd);
    var i := CsrWord(csr, rs1, f3, rd);
    CsrSteps(c, i, Decode.Decode(c.regs, i, c.pc).value);
    StatusGets(c.csr, csr);
    StatusGets(AccessCsr(c.csr, AccessOf(c.regs, csr, rs1, f3, rd)).0, csr);
  }

  lemma {:induction false} StatusGets(f: CsrFile, csr: CsrAddress)
    ensures csr == 0x300 ==> Get(f, csr) == Some(f.mstatus)
    ensures csr == 0x310 ==> Get(f, csr) == Some(f.mstatush)
  {
  }

  /** `mret`, whatever its unused fields: it goes to mepc, moves mpie to mie and clears it, and changes nothing
      else. */
  lemma {:induction false} MretRetires(c: Core, i: Word)
    requires !InterruptPending(c.csr) && i % 0x80 == 0x73 && Funct3(i) == 0 && i / 0x10_0000 == 0x302
    ensures var after := After(c, i);
            && Completes(c, i) && Leaves(c, after, 0, 0) && after.bus == c.bus
            && Get(c.csr, 0x341) == Some(after.pc)
            && MieBit(after.csr.mstatus) == MpieBit(c.csr.mstatus) && !MpieBit(after.csr.mstatus)
            && CountersOnly(c.(csr := c.csr.(mstatus := after.csr.mstatus)), after)
  {
    hide Decode.Decode, InterruptPending, MieBit, MpieBit, SetMie, SetMpie, Alu.Compute;
    SystemDecoded(c, i);
    MretBits(c.csr);
    NoBranchTaken();
    hide Alu.Taken;
  }

  lemma {:induction false} SystemDecoded(c: Core, i: Word)
    ensures i % 0x80 == 0x73 && Funct3(i) == 0 ==>
              (i / 0x10_0000 == 0x302 ==> Decode.Decode(c.regs, i, c.pc) == Ok(BLANK.(mret := true)))
              && (i / 0x10_0000 == 0 ==> Decode.Decode(c.regs, i, c.pc) == Ok(BLANK.(ecall := true)))
    ensures i % 0x80 == 0x0f && Funct3(i) == 1 ==> Decode.Decode(c.regs, i, c.pc) == Ok(BLANK.(fencei := true))
  {
    OpcodeParts(i);
    hide ImmI, ImmS, ImmB, ImmJ, ImmU;
  }

  /** `ecall`, whatever its unused fields, always traps, pending interrupts or not; `fence.i` does nothing. */
  lemma {:induction false} EcallAndFence(c: Core, i: Word)
    ensures i % 0x80 == 0x73 && Funct3(i) == 0 && i / 0x10_0000 == 0 ==> TrapsWith(c, i, EnvCallFromM)
    ensures i % 0x80 == 0x0f && Funct3(i) == 1 && !InterruptPending(c.csr) ==> Retires(c, i, 0, 0, NextPc(c))
  {
    hide Decode.Decode, Retires, InterruptPending, TrapStatus, TrapVector, Alu.Compute;
    SystemDecoded(c, i);
    NoBranchTaken();
    hide Alu.Taken;
    if i % 0x80 == 0x0f && Funct3(i) == 1 && !InterruptPending(c.csr) {
      ComputeRetires(c, i, BLANK.(fencei := true), 0, NextPc(c));
    }
  }

  /** What a handler reads first: `csrr` of mepc, mcause and mtval right after trap entry delivers the trapped
      pc, the cause number and the trap value. */
  lemma {:induction false} HandlerReads(c: Core, f: Fetch.Outcome, rd: Field5)
    requires Trapped(Cycle(c, f).1)
    ensures var entered := Cycle(c, f).0;
            var t := Cycle(c, f).1.result.trap.value;
            && Completes(entered, CsrWord(0x341, 0, 2, rd)) && Completes(entered, CsrWord(0x342, 0, 2, rd))
            && Completes(entered, CsrWord(0x343, 0, 2, rd))
            && Leaves(entered, After(entered, CsrWord(0x341, 0, 2, rd)), rd, c.pc)
            && Leaves(entered, After(entered, CsrWord(0x342, 0, 2, rd)), rd, Cause(t))
            && Leaves(entered, After(entered, CsrWord(0x343, 0, 2, rd)), rd, entered.csr.mtval)
  {
    hide StepWith, After, Completes, CsrWord, Get, AccessCsr, Leaves, TickDevices, MieBit, MpieBit, MppField;
    TrapLanding(c, f);
    PreciseTraps(c, f);
    var stepped, entered := StepWith(c, f).0, Cycle(c, f).0;
    TickKeeps(stepped);
    TickKeepsTrap(stepped);
    assert !InterruptPending(entered.csr);
    hide InterruptPending;
    CsrRetires(entered, 0x341, 0, 2, rd);
    CsrRetires(entered, 0x342, 0, 2, rd);
    CsrRetires(entered, 0x343, 0, 2, rd);
  }

  lemma {:induction false} TickKeepsTrap(c: Core)
    ensures forall a: CsrAddress :: a in {0x341, 0x342, 0x343} ==> Get(TickDevices(c).csr, a) == Get(c.csr, a)
    ensures TickDevices(c).csr.mtval == c.csr.mtval
  {
  }
}
