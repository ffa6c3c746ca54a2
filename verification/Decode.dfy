/** The instruction decoder (lib/core/decode.cpp, lib/include/core/inst.hpp). */
module Decode {
  import opened Words
  import Alu

  type RegNum = x: int | 0 <= x < 32

  /** The register file: `x0` is register 0. */
  type Registers = r: seq<Word> | |r| == 32 witness seq(32, _ => 0)

  datatype Trap =
    | InstAddressMisaligned | InstAccessFault | IllegalInstruction
    | LoadAddressMisaligned | LoadAccessFault
    | StoreAddressMisaligned | StoreAccessFault
    | EnvCallFromM | MachineTimerInterrupt
  {
    function Code(): Word {
      match this
      case InstAddressMisaligned => 0x0
      case InstAccessFault => 0x1
      case IllegalInstruction => 0x2
      case LoadAddressMisaligned => 0x4
      case LoadAccessFault => 0x5
      case StoreAddressMisaligned => 0x6
      case StoreAccessFault => 0x7
      case EnvCallFromM => 0xb
      case MachineTimerInterrupt => 0x8000_0007
    }

    predicate IsInterrupt() {
      Code() >= 0x8000_0000
    }
  }

  datatype Source = NoSource | PcPlus4 | AluResult | MemoryValue | CsrValue

  datatype MemOp = NoMem | Load | Store

  datatype MemFunct =
    | NoFunct
    | LoadByte | LoadHalf | LoadWord | LoadByteUnsigned | LoadHalfUnsigned
    | StoreByte | StoreHalf | StoreWord

  datatype WriteMode = NoWrite | Overwrite | SetBits | ClearBits

  type CsrAddress = x: int | 0 <= x < 0x1000

  datatype CsrInfo = CsrInfo(mode: WriteMode, address: CsrAddress, value: Word, read: bool)

  datatype Decoded = Decoded(
    writeback: Source, rd: RegNum,
    aluOp: Alu.AluOp, num1: Word, num2: Word,
    branchOp: Alu.BranchOp, branch1: Word, branch2: Word,
    memOp: MemOp, memFunct: MemFunct, storeValue: Word,
    fencei: bool, ecall: bool, mret: bool,
    csr: CsrInfo
  )

  const NO_CSR := CsrInfo(NoWrite, 0, 0, false)

  const BLANK := Decoded(NoSource, 0, Alu.Add, 0, 0, Alu.NoBranch, 0, 0, NoMem, NoFunct, 0,
                         false, false, false, NO_CSR)

  /* ---- Fields ---- */

  function Rd(i: Word): RegNum { (i / 0x80) % 32 }
  function Funct3(i: Word): nat { (i / 0x1000) % 8 }
  function Rs1(i: Word): RegNum { (i / 0x8000) % 32 }
  function Rs2(i: Word): RegNum { (i / 0x10_0000) % 32 }
  function Funct7(i: Word): nat { i / 0x200_0000 }
  function Bit30(i: Word): bool { (i / 0x4000_0000) % 2 == 1 }

  /** Sign extension of an `n`-bit field whose weight 2^n is `weight`. */
  function Extend(x: nat, weight: nat): Word
    requires 0 < weight < TWO_32 && x < weight
  {
    if x < weight / 2 then x else x + TWO_32 - weight
  }

  function ImmI(i: Word): Word { Extend(i / 0x10_0000, 0x1000) }

  function ImmS(i: Word): Word { Extend(Funct7(i) * 32 + Rd(i), 0x1000) }

  function ImmB(i: Word): Word {
    Extend((i / 0x8000_0000) * 0x1000 + ((i / 0x80) % 2) * 0x800 + ((i / 0x200_0000) % 64) * 0x20
           + ((i / 0x100) % 16) * 2, 0x2000)
  }

  function ImmU(i: Word): Word { (i / 0x1000) * 0x1000 }

  function ImmJ(i: Word): Word {
    Extend((i / 0x8000_0000) * 0x10_0000 + ((i / 0x1000) % 256) * 0x1000 + ((i / 0x10_0000) % 2) * 0x800
           + ((i / 0x20_0000) % 1024) * 2, 0x20_0000)
  }

  /* ---- One function per opcode ---- */

  function DecodeUpper(i: Word, base: Word): Decoded {
    BLANK.(writeback := AluResult, rd := Rd(i), num1 := base, num2 := ImmU(i))
  }

  function DecodeJump(i: Word, base: Word, offset: Word): Decoded {
    BLANK.(writeback := PcPlus4, rd := Rd(i), num1 := base, num2 := offset, branchOp := Alu.Eq)
  }

  function LoadFunct(f3: nat): MemFunct {
    match f3
    case 0 => LoadByte
    case 1 => LoadHalf
    case 2 => LoadWord
    case 4 => LoadByteUnsigned
    case 5 => LoadHalfUnsigned
    case _ => NoFunct
  }

  function DecodeLoad(x: Registers, i: Word): Decoded {
    BLANK.(writeback := MemoryValue, rd := Rd(i), num1 := x[Rs1(i)], num2 := ImmI(i),
           memOp := Load, memFunct := LoadFunct(Funct3(i)))
  }

  function StoreFunct(f3: nat): MemFunct {
    match f3
    case 0 => StoreByte
    case 1 => StoreHalf
    case 2 => StoreWord
    case _ => NoFunct
  }

  function DecodeStore(x: Registers, i: Word): Decoded {
    BLANK.(num1 := x[Rs1(i)], num2 := ImmS(i),
           memOp := Store, memFunct := StoreFunct(Funct3(i)), storeValue := x[Rs2(i)])
  }

  function BaseOp(f3: nat, subtract: bool, arithmetic: bool): Alu.AluOp {
    match f3
    case 0 => if subtract then Alu.Sub else Alu.Add
    case 1 => Alu.Sll
    case 2 => Alu.Slt
    case 3 => Alu.Sltu
    case 4 => Alu.XorOp
    case 5 => if arithmetic then Alu.Sra else Alu.Srl
    case 6 => Alu.OrOp
    case _ => Alu.AndOp
  }

  function MulOp(f3: nat): Alu.AluOp {
    match f3
    case 0 => Alu.Mul
    case 1 => Alu.Mulh
    case 2 => Alu.Mulhsu
    case 3 => Alu.Mulhu
    case 4 => Alu.Div
    case 5 => Alu.Divu
    case 6 => Alu.Rem
    case _ => Alu.Remu
  }

  function DecodeRegImm(x: Registers, i: Word): Decoded {
    BLANK.(writeback := AluResult, rd := Rd(i), aluOp := BaseOp(Funct3(i), false, Bit30(i)),
           num1 := x[Rs1(i)], num2 := ImmI(i))
  }

  function RegRegOp(i: Word): Option<Alu.AluOp> {
    var select := Funct7(i) % 8;
    if select == 0 then Some(BaseOp(Funct3(i), Bit30(i), Bit30(i)))
    else if select == 1 then Some(MulOp(Funct3(i)))
    else if select == 7 && Funct3(i) == 5 then Some(Alu.CzeroEqz)
    else if select == 7 && Funct3(i) == 7 then Some(Alu.CzeroNez)
    else None
  }

  function DecodeRegReg(x: Registers, i: Word): Result<Decoded, Trap> {
    match RegRegOp(i)
    case None => Err(IllegalInstruction)
    case Some(op) =>
      Ok(BLANK.(writeback := AluResult, rd := Rd(i), aluOp := op, num1 := x[Rs1(i)], num2 := x[Rs2(i)]))
  }

  function BranchOpOf(f3: nat): Alu.BranchOp {
    match f3
    case 0 => Alu.Eq
    case 1 => Alu.Ne
    case 4 => Alu.Lt
    case 5 => Alu.Ge
    case 6 => Alu.Ltu
    case 7 => Alu.Geu
    case _ => Alu.NoBranch
  }

  function DecodeBranch(x: Registers, i: Word, pc: Word): Decoded {
    BLANK.(num1 := pc, num2 := ImmB(i),
           branchOp := BranchOpOf(Funct3(i)), branch1 := x[Rs1(i)], branch2 := x[Rs2(i)])
  }

  function DecodeMiscMem(i: Word): Result<Decoded, Trap> {
    if Funct3(i) == 1 then Ok(BLANK.(fencei := true)) else Err(IllegalInstruction)
  }

  function DecodeSystem(x: Registers, i: Word): Result<Decoded, Trap> {
    var f3, imm := Funct3(i), i / 0x10_0000;
    if f3 == 0 then
      if imm == 0 then Ok(BLANK.(ecall := true))
      else if imm == 0x302 then Ok(BLANK.(mret := true))
      else Err(IllegalInstruction)
    else if f3 == 4 then Err(IllegalInstruction)
    else
      // the immediate forms sign-extend the five-bit field
      var value := if f3 >= 4 then Extend(Rs1(i), 32) else x[Rs1(i)];
      var kind := f3 % 4;
      var mode :=
        if Rs1(i) == 0 then NoWrite
        else if kind == 1 then Overwrite
        else if kind == 2 then SetBits
        else ClearBits;
      var read := if kind == 1 then Rd(i) != 0 else true;
      Ok(BLANK.(writeback := CsrValue, rd := Rd(i), csr := CsrInfo(mode, imm, value, read)))
  }

  function Decode(x: Registers, i: Word, pc: Word): Result<Decoded, Trap> {
    var opcode := (i / 4) % 32;
    if i % 4 != 3 then Err(IllegalInstruction)
    else if opcode == 0x0d then Ok(DecodeUpper(i, 0))
    else if opcode == 0x05 then Ok(DecodeUpper(i, pc))
    else if opcode == 0x1b then Ok(DecodeJump(i, pc, ImmJ(i)))
    else if opcode == 0x19 then Ok(DecodeJump(i, x[Rs1(i)], ImmI(i)))
    else if opcode == 0x00 then Ok(DecodeLoad(x, i))
    else if opcode == 0x08 then Ok(DecodeStore(x, i))
    else if opcode == 0x04 then Ok(DecodeRegImm(x, i))
    else if opcode == 0x0c then DecodeRegReg(x, i)
    else if opcode == 0x18 then Ok(DecodeBranch(x, i, pc))
    else if opcode == 0x03 then DecodeMiscMem(i)
    else if opcode == 0x1c then DecodeSystem(x, i)
    else Err(IllegalInstruction)
  }

  /* ---- Which side effects can occur together ---- */

  predicate IsLoadFunct(f: MemFunct) {
    f in {LoadByte, LoadHalf, LoadWord, LoadByteUnsigned, LoadHalfUnsigned}
  }

  predicate IsStoreFunct(f: MemFunct) {
    f in {StoreByte, StoreHalf, StoreWord}
  }

  /** What every decoded instruction satisfies: a memory access comes with no CSR access and with a width
      of its own kind, `mret` and `ecall` do nothing else, and branches and jumps touch neither memory nor
      CSRs. */
  predicate Exclusive(d: Decoded) {
    && (d.memOp == Load ==> IsLoadFunct(d.memFunct) || d.memFunct == NoFunct)
    && (d.memOp == Store ==> IsStoreFunct(d.memFunct) || d.memFunct == NoFunct)
    && (d.memOp != NoMem || d.mret || d.ecall || d.branchOp != Alu.NoBranch ==> d.csr == NO_CSR)
    && (d.mret || d.ecall || d.branchOp != Alu.NoBranch ==> d.memOp == NoMem)
    && (d.mret || d.ecall ==> d.branchOp == Alu.NoBranch && d.rd == 0)
  }

  lemma {:induction false} DecodedExclusive(x: Registers, i: Word, pc: Word)
    ensures Decode(x, i, pc).Ok? ==> Exclusive(Decode(x, i, pc).value)
    ensures Decode(x, i, pc).Err? ==> Decode(x, i, pc).error == IllegalInstruction
  {
    hide ImmI, ImmS, ImmB, ImmJ, ImmU, BaseOp, MulOp, BranchOpOf;
  }

  /* ---- Where the decoder differs from the ISA ---- */

  predicate IsCsrImmediate(i: Word) {
    i % 0x80 == 0x73 && Funct3(i) >= 5
  }

  /** A CSR immediate should be the zero-extended field; it is exactly if the field is below 16. */
  lemma {:induction false} CsrImmediateIff(x: Registers, i: Word, pc: Word)
    requires IsCsrImmediate(i)
    ensures var r := Decode(x, i, pc);
            r.Ok? && (r.value.csr.value == Rs1(i) <==> Rs1(i) < 16)
  {
    OpcodeParts(i);
  }

  lemma {:induction false} OpcodeParts(i: Word)
    ensures i % 4 == i % 0x80 % 4 && (i / 4) % 32 == i % 0x80 / 4
  {
  }

  /** `csrrw` from `x0` is decoded as an access that does not write. */
  lemma {:induction false} WriteFromX0(x: Registers, i: Word, pc: Word)
    requires i % 0x80 == 0x73 && Funct3(i) == 1 && Rs1(i) == 0
    ensures Decode(x, i, pc).Ok?
    ensures Decode(x, i, pc).value.csr == CsrInfo(NoWrite, i / 0x10_0000, x[0], Rd(i) != 0)
  {
    OpcodeParts(i);
  }

  /** `jalr` should clear bit 0 of its target; the decoded jump goes to that address exactly if the sum is
      even. */
  lemma {:induction false} JalrTargetIff(x: Registers, i: Word, pc: Word)
    requires i % 0x80 == 0x67
    ensures var r, target := Decode(x, i, pc), Wrap(x[Rs1(i)] + ImmI(i));
            r.Ok? && (Wrap(r.value.num1 + r.value.num2) == target - target % 2 <==> target % 2 == 0)
  {
    OpcodeParts(i);
  }
}
