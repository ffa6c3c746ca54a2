/** What an instruction must do, by sections 2.4, 2.5, 7.1 and 7.2 of the RISC-V Unprivileged ISA (20191213),
    written down by instruction field with arithmetic and bit positions only, and proved of the decoder and
    the arithmetic unit (lib/core/decode.cpp, lib/core/alu.cpp). */
module Isa {
  import opened Words
  import opened Bits
  import opened Decode
  import opened Encoding
  import Alu

  /* ---- Values ---- */

  /** A word as a two's complement number. */
  function IntegerOf(x: Word): int {
    x - (x / 0x8000_0000) * 0x1_0000_0000
  }

  function Magnitude(a: int): nat {
    if a < 0 then -a else a
  }

  /** Division rounding towards zero. */
  function Quotient(a: int, b: int): int
    requires b != 0
  {
    var q := Magnitude(a) / Magnitude(b);
    if (a < 0) == (b < 0) then q else -q
  }

  /** Sections 2.4.1 and 2.4.2: the integer operation of `funct3`; `alternate` is bit 30 of the instruction. */
  function BaseResult(f3: Field3, alternate: bool, x: Word, y: Word): Word {
    match f3
    case 0 => (if alternate then x - y else x + y) % 0x1_0000_0000
    case 1 => (x * Pow2(y % 32)) % 0x1_0000_0000
    case 2 => if IntegerOf(x) < IntegerOf(y) then 1 else 0
    case 3 => if x < y then 1 else 0
    case 4 => Word32(DifferentBits(x, y))
    case 5 => ((if alternate then IntegerOf(x) else x) / Pow2(y % 32)) % 0x1_0000_0000
    case 6 => Word32(EitherBits(x, y))
    case 7 => Word32(BothBits(x, y))
  }

  /** Sections 7.1 and 7.2, except that the signed high products zero-extend their operands. */
  function MultiplyResult(f3: Field3, x: Word, y: Word): Word {
    match f3
    case 0 => (x * y) % 0x1_0000_0000
    case 4 => if y == 0 then 0xffff_ffff else Quotient(IntegerOf(x), IntegerOf(y)) % 0x1_0000_0000
    case 5 => if y == 0 then 0xffff_ffff else (x / y) % 0x1_0000_0000
    case 6 =>
      if y == 0 then x
      else (IntegerOf(x) - Quotient(IntegerOf(x), IntegerOf(y)) * IntegerOf(y)) % 0x1_0000_0000
    case 7 => if y == 0 then x else (x % y) % 0x1_0000_0000
    case _ => (x * y / 0x1_0000_0000) % 0x1_0000_0000
  }

  /** A register-register instruction. Of `funct7` only the low three bits and bit 5 are looked at; with 7 in
      the low bits it is one of the two conditional-zero instructions. */
  function RegisterResult(f7: Field7, f3: Field3, x: Word, y: Word): Option<Word> {
    if f7 % 8 == 0 then Some(BaseResult(f3, f7 / 32 % 2 == 1, x, y))
    else if f7 % 8 == 1 then Some(MultiplyResult(f3, x, y))
    else if f7 % 8 == 7 && f3 == 5 then Some(if y == 0 then 0 else x)
    else if f7 % 8 == 7 && f3 == 7 then Some(if y == 0 then x else 0)
    else None
  }

  /** An instruction with an immediate: there is no subtraction. */
  function ImmediateResult(f3: Field3, alternate: bool, x: Word, y: Word): Word {
    BaseResult(f3, f3 == 5 && alternate, x, y)
  }

  /** Section 2.5.2; `funct3` 2 and 3, which the ISA reserves, never branch. */
  predicate Branches(f3: Field3, x: Word, y: Word) {
    match f3
    case 0 => x == y
    case 1 => x != y
    case 4 => IntegerOf(x) < IntegerOf(y)
    case 5 => IntegerOf(x) >= IntegerOf(y)
    case 6 => x < y
    case 7 => x >= y
    case _ => false
  }

  /* ---- The arithmetic unit computes them ---- */

  lemma {:induction false} SignedIs(x: Word)
    ensures Signed(x) == IntegerOf(x)
  {
  }

  lemma {:induction false} QuotientIs(a: int, b: int)
    requires b != 0
    ensures TruncDiv(a, b) == Quotient(a, b)
  {
    Alu.TruncDivIs(a, b);
    if a == 0 {
      ModUnique(0, Alu.Abs(b), 0, 0);
    }
  }

  lemma {:induction false} BaseComputed(f3: Field3, alternate: bool, x: Word, y: Word)
    ensures Alu.Compute(BaseOp(f3, alternate, alternate), x, y) == BaseResult(f3, alternate, x, y)
  {
    hide Word32, BitAnd, BitOr, BitXor, Pow2;
    GatesBitByBit(x, y);
    SignedIs(x);
    SignedIs(y);
    hide Signed, IntegerOf;
  }

  lemma {:induction false} ImmediateComputed(f3: Field3, alternate: bool, x: Word, y: Word)
    ensures Alu.Compute(BaseOp(f3, false, alternate), x, y) == ImmediateResult(f3, alternate, x, y)
  {
    hide Alu.Compute, BaseResult;
    BaseComputed(f3, f3 == 5 && alternate, x, y);
    assert BaseOp(f3, false, alternate) == BaseOp(f3, f3 == 5 && alternate, f3 == 5 && alternate);
  }

  lemma {:induction false} DivisionComputed(x: Word, y: Word)
    ensures Alu.DivSigned(x, y) == MultiplyResult(4, x, y) && Alu.RemSigned(x, y) == MultiplyResult(6, x, y)
  {
    if y != 0 {
      SignedIs(x);
      SignedIs(y);
      QuotientIs(Signed(x), Signed(y));
      hide TruncDiv;
    }
  }

  lemma {:induction false} MultiplyComputed(f3: Field3, x: Word, y: Word)
    ensures Alu.Compute(MulOp(f3), x, y) == MultiplyResult(f3, x, y)
  {
    hide Alu.DivSigned, Alu.RemSigned, Pow2, BitAnd, BitOr, BitXor, Quotient, IntegerOf;
    DivisionComputed(x, y);
  }

  lemma {:induction false} BranchesComputed(f3: Field3, x: Word, y: Word)
    ensures Alu.Taken(BranchOpOf(f3), x, y) <==> Branches(f3, x, y)
  {
    SignedIs(x);
    SignedIs(y);
    hide Signed, IntegerOf;
  }

  /* ---- The decoder selects them ---- */

  lemma {:induction false} WordFields(f7: Field7, rs2: Field5, rs1: Field5, f3: Field3, rd: Field5, opcode: Field7)
    requires opcode % 4 == 3
    ensures var i := Assembled(f7, rs2, rs1, f3, rd, opcode);
            && Funct7(i) == f7 && Rs2(i) == rs2 && Rs1(i) == rs1 && Funct3(i) == f3 && Rd(i) == rd
            && i % 4 == 3 && (i / 4) % 32 == opcode / 4 && (Bit30(i) <==> f7 / 32 % 2 == 1)
            && i / 0x10_0000 == f7 * 32 + rs2 && i / 0x1000 == f7 * 0x2000 + rs2 * 0x100 + rs1 * 8 + f3
  {
    var i := Assembled(f7, rs2, rs1, f3, rd, opcode);
    FieldsOf(f7, rs2, rs1, f3, rd, opcode);
    OpcodeParts(i);
    DivideTwice(i, 0x200_0000, 32);
  }

  /** For every register-register word and every register file: the operation that is decoded delivers the
      prescribed value into `rd`, and there is none exactly if the word prescribes none. */
  lemma {:induction false} RegisterDecoded(
    x: Registers, pc: Word, f7: Field7, rs2: Field5, rs1: Field5, f3: Field3, rd: Field5)
    ensures var r := Decode.Decode(x, Assembled(f7, rs2, rs1, f3, rd, 0x33), pc);
            var v := RegisterResult(f7, f3, x[rs1], x[rs2]);
            && (r.Ok? <==> v.Some?)
            && (r.Ok? ==> var d := r.value;
                  d == BLANK.(writeback := AluResult, rd := rd, aluOp := d.aluOp, num1 := x[rs1], num2 := x[rs2])
                  && Alu.Compute(d.aluOp, d.num1, d.num2) == v.value)
  {
    hide Alu.Compute, BaseOp, MulOp, BaseResult, MultiplyResult, Assembled, Rd, Rs1, Rs2, Funct3, Funct7, Bit30;
    WordFields(f7, rs2, rs1, f3, rd, 0x33);
    BaseComputed(f3, f7 / 32 % 2 == 1, x[rs1], x[rs2]);
    MultiplyComputed(f3, x[rs1], x[rs2]);
    ZeroComputed(x[rs1], x[rs2]);
  }

  lemma {:induction false} ZeroComputed(x: Word, y: Word)
    ensures Alu.Compute(Alu.CzeroEqz, x, y) == if y == 0 then 0 else x
    ensures Alu.Compute(Alu.CzeroNez, x, y) == if y == 0 then x else 0
  {
  }

  /** An immediate instruction; a shift takes its amount from the low five bits of the offset and its kind from
      bit 10. */
  lemma {:induction false} ImmediateDecoded(x: Registers, pc: Word, offset: int, rs1: Field5, f3: Field3, rd: Field5)
    requires -0x800 <= offset < 0x800
    ensures var r := Decode.Decode(x, IType(offset, rs1, f3, rd, 0x13), pc);
            && r.Ok?
            && var d := r.value;
               && d == BLANK.(writeback := AluResult, rd := rd, aluOp := d.aluOp, num1 := x[rs1], num2 := Wrap(offset))
               && Alu.Compute(d.aluOp, d.num1, d.num2)
                    == ImmediateResult(f3, offset / 0x400 % 2 == 1, x[rs1], Wrap(offset))
  {
    hide Alu.Compute, BaseOp, ImmediateResult, Assembled, Rd, Rs1, Rs2, Funct3, Funct7, Bit30, ImmI, Wrap;
    WordFields(Slice(offset, 32, 128), Slice(offset, 1, 32), rs1, f3, rd, 0x13);
    ITypeImmediate(offset, rs1, f3, rd, 0x13);
    ImmediateComputed(f3, offset / 0x400 % 2 == 1, x[rs1], Wrap(offset));
    BitTen(offset);
  }

  lemma {:induction false} BitTen(offset: int)
    ensures Slice(offset, 32, 128) / 32 % 2 == offset / 0x400 % 2
  {
    SliceJoin(offset, 32, 32, 4);
    SliceJoin(offset, 0x400, 2, 2);
    var low, high := Slice(offset, 32, 32), Slice(offset, 0x400, 4);
    var bit, rest := Slice(offset, 0x400, 2), Slice(offset, 0x800, 2);
    assert bit == offset / 0x400 % 2;
    hide Slice;
    ModUnique(low + 32 * high, 32, high, low);
    ModUnique(bit + 2 * rest, 2, rest, bit);
  }

  /** `lui` and `auipc` words. */
  type Field20 = x: int | 0 <= x < 0x10_0000

  function UType(imm: Field20, rd: Field5, opcode: Field7): Word {
    imm * 0x1000 + rd * 0x80 + opcode
  }

  lemma {:induction false} UpperFields(imm: Field20, rd: Field5, opcode: Field7)
    requires opcode % 4 == 3
    ensures var i := UType(imm, rd, opcode);
            ImmU(i) == imm * 0x1000 && Rd(i) == rd && i % 4 == 3 && (i / 4) % 32 == opcode / 4
  {
    var i := UType(imm, rd, opcode);
    ModUnique(i, 0x1000, imm, rd * 0x80 + opcode);
    ModUnique(i, 0x80, imm * 32 + rd, opcode);
    ModUnique(imm * 32 + rd, 32, imm, rd);
    OpcodeParts(i);
  }

  lemma {:induction false} UpperDecoded(x: Registers, pc: Word, imm: Field20, rd: Field5)
    ensures Decode.Decode(x, UType(imm, rd, 0x37), pc)
         == Ok(BLANK.(writeback := AluResult, rd := rd, num1 := 0, num2 := imm * 0x1000))
    ensures Decode.Decode(x, UType(imm, rd, 0x17), pc)
         == Ok(BLANK.(writeback := AluResult, rd := rd, num1 := pc, num2 := imm * 0x1000))
  {
    hide ImmU, Rd, UType;
    UpperFields(imm, rd, 0x37);
    UpperFields(imm, rd, 0x17);
  }

  lemma {:induction false} JumpDecoded(x: Registers, pc: Word, offset: int, rd: Field5)
    requires -0x10_0000 <= offset < 0x10_0000 && offset % 2 == 0
    ensures Decode.Decode(x, JType(offset, rd, 0x6f), pc)
         == Ok(BLANK.(writeback := PcPlus4, rd := rd, num1 := pc, num2 := Wrap(offset), branchOp := Alu.Eq))
  {
    hide Assembled, Rd, Rs1, Rs2, Funct3, Funct7, ImmJ, Wrap, Slice;
    WordFields(Slice(offset, 0x10_0000, 2) * 64 + Slice(offset, 32, 64),
               Slice(offset, 2, 16) * 2 + Slice(offset, 0x800, 2),
               Slice(offset, 0x8000, 32), Slice(offset, 0x1000, 8), rd, 0x6f);
    JTypeImmediate(offset, rd, 0x6f);
  }

  lemma {:induction false} JumpRegisterDecoded(x: Registers, pc: Word, offset: int, rs1: Field5, f3: Field3, rd: Field5)
    requires -0x800 <= offset < 0x800
    ensures Decode.Decode(x, IType(offset, rs1, f3, rd, 0x67), pc)
         == Ok(BLANK.(writeback := PcPlus4, rd := rd, num1 := x[rs1], num2 := Wrap(offset), branchOp := Alu.Eq))
  {
    hide Assembled, Rd, Rs1, Rs2, Funct3, Funct7, ImmI, Wrap;
    WordFields(Slice(offset, 32, 128), Slice(offset, 1, 32), rs1, f3, rd, 0x67);
    ITypeImmediate(offset, rs1, f3, rd, 0x67);
  }

  lemma {:induction false} BranchDecoded(x: Registers, pc: Word, offset: int, rs2: Field5, rs1: Field5, f3: Field3)
    requires -0x1000 <= offset < 0x1000 && offset % 2 == 0
    ensures var r := Decode.Decode(x, BType(offset, rs2, rs1, f3, 0x63), pc);
            && r.Ok?
            && var d := r.value;
               && d == BLANK.(num1 := pc, num2 := Wrap(offset), branchOp := d.branchOp,
                              branch1 := x[rs1], branch2 := x[rs2])
               && (Alu.Taken(d.branchOp, d.branch1, d.branch2) <==> Branches(f3, x[rs1], x[rs2]))
  {
    hide Assembled, Rd, Rs1, Rs2, Funct3, Funct7, ImmB, Wrap, Slice, BranchOpOf, Alu.Taken, Branches;
    WordFields(Slice(offset, 0x1000, 2) * 64 + Slice(offset, 32, 64), rs2, rs1, f3,
               Slice(offset, 2, 16) * 2 + Slice(offset, 0x800, 2), 0x63);
    BTypeImmediate(offset, rs2, rs1, f3, 0x63);
    BranchesComputed(f3, x[rs1], x[rs2]);
  }

  lemma {:induction false} LoadDecoded(x: Registers, pc: Word, offset: int, rs1: Field5, f3: Field3, rd: Field5)
    requires -0x800 <= offset < 0x800
    ensures Decode.Decode(x, IType(offset, rs1, f3, rd, 0x03), pc)
         == Ok(BLANK.(writeback := MemoryValue, rd := rd, num1 := x[rs1], num2 := Wrap(offset),
                      memOp := Load, memFunct := LoadFunct(f3)))
  {
    hide Assembled, Rd, Rs1, Rs2, Funct3, Funct7, ImmI, Wrap, LoadFunct;
    WordFields(Slice(offset, 32, 128), Slice(offset, 1, 32), rs1, f3, rd, 0x03);
    ITypeImmediate(offset, rs1, f3, rd, 0x03);
  }

  lemma {:induction false} StoreDecoded(x: Registers, pc: Word, offset: int, rs2: Field5, rs1: Field5, f3: Field3)
    requires -0x800 <= offset < 0x800
    ensures Decode.Decode(x, SType(offset, rs2, rs1, f3, 0x23), pc)
         == Ok(BLANK.(num1 := x[rs1], num2 := Wrap(offset),
                      memOp := Store, memFunct := StoreFunct(f3), storeValue := x[rs2]))
  {
    hide Assembled, Rd, Rs1, Rs2, Funct3, Funct7, ImmS, Wrap, StoreFunct;
    WordFields(Slice(offset, 32, 128), rs2, rs1, f3, Slice(offset, 1, 32), 0x23);
    STypeImmediate(offset, rs2, rs1, f3, 0x23);
  }

  /** CSR instructions: `csr` is the register's address, `rs1` a register or, from `funct3` 5 on, an immediate
      that is sign-extended as built. */
  function CsrWord(csr: CsrAddress, rs1: Field5, f3: Field3, rd: Field5): Word {
    Assembled(csr / 32, csr % 32, rs1, f3, rd, 0x73)
  }

  function CsrOperand(x: Registers, rs1: Field5, f3: Field3): Word {
    if f3 < 4 then x[rs1] else if rs1 < 16 then rs1 else 0xffff_ffe0 + rs1
  }

  lemma {:induction false} CsrDecoded(x: Registers, pc: Word, csr: CsrAddress, rs1: Field5, f3: Field3, rd: Field5)
    requires f3 % 4 != 0
    ensures Decode.Decode(x, CsrWord(csr, rs1, f3, rd), pc)
         == Ok(BLANK.(writeback := CsrValue, rd := rd,
                      csr := CsrInfo(if rs1 == 0 then NoWrite
                                     else if f3 % 4 == 1 then Overwrite
                                     else if f3 % 4 == 2 then SetBits else ClearBits,
                                     csr, CsrOperand(x, rs1, f3), f3 % 4 != 1 || rd != 0)))
  {
    hide Assembled, Rd, Rs1, Rs2, Funct3, Funct7;
    WordFields(csr / 32, csr % 32, rs1, f3, rd, 0x73);
  }

  /** The words that decode, by opcode. */
  predicate IsInstruction(i: Word) {
    var opcode, f3, f7 := i % 0x80, i / 0x1000 % 8, i / 0x200_0000;
    || opcode in {0x37, 0x17, 0x6f, 0x67, 0x63, 0x03, 0x23, 0x13}
    || (opcode == 0x33 && (f7 % 8 <= 1 || (f7 % 8 == 7 && (f3 == 5 || f3 == 7))))
    || (opcode == 0x0f && f3 == 1)
    || (opcode == 0x73 && (if f3 == 0 then i / 0x10_0000 in {0, 0x302} else f3 != 4))
  }

  /** Every other word is illegal, and an illegal word is the only thing that does not decode. */
  lemma {:induction false} IllegalIff(x: Registers, i: Word, pc: Word)
    ensures Decode.Decode(x, i, pc).Ok? <==> IsInstruction(i)
  {
    hide ImmI, ImmS, ImmB, ImmJ, ImmU, BaseOp, MulOp, BranchOpOf, LoadFunct, StoreFunct;
    OpcodeIs(i);
  }

  lemma {:induction false} OpcodeIs(i: Word)
    ensures i % 0x80 == i / 4 % 32 * 4 + i % 4
  {
  }
}
