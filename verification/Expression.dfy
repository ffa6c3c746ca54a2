/** The agent-expression machine (lib/gdb-stub/expression.cpp): one instruction, whole runs, and the
    interpreter loop. Bytecodes are those of section F.2 "Bytecode Descriptions" of the GDB Agent
    Expression Mechanism. */
module Expression {
  import opened Words
  import Alu

  datatype BinaryOp =
    | Add | Sub | Mul | DivSigned | DivUnsigned | RemSigned | RemUnsigned
    | Lsh | RshSigned | RshUnsigned | BitAndOp | BitOrOp | BitXorOp | Equal | LessSigned | LessUnsigned

  /** Bytes in an immediate or a memory reference. */
  type Width = n: int | 0 <= n <= 4

  datatype UnaryOp = LogNot | BitNotOp | Ext(n: Byte) | ZeroExt(n: Byte) | Ref8 | Ref16 | Ref32

  /** The instructions by shape; `Other` is every byte that the interpreter does not support. */
  datatype Operation =
    | Binary(binary: BinaryOp)
    | Plain(unary: UnaryOp)       // one byte, one operand
    | Sized(signed: bool)         // ext, zero_ext
    | Dup | Swap | Pop | Pick | Rot
    | IfGoto | Goto
    | Const(width: Width)
    | Reg
    | End
    | Other

  function Decode(b: Byte): Operation {
    if b == 0x02 then Binary(Add)
    else if b == 0x03 then Binary(Sub)
    else if b == 0x04 then Binary(Mul)
    else if b == 0x05 then Binary(DivSigned)
    else if b == 0x06 then Binary(DivUnsigned)
    else if b == 0x07 then Binary(RemSigned)
    else if b == 0x08 then Binary(RemUnsigned)
    else if b == 0x09 then Binary(Lsh)
    else if b == 0x0a then Binary(RshSigned)
    else if b == 0x0b then Binary(RshUnsigned)
    else if b == 0x0e then Plain(LogNot)
    else if b == 0x0f then Binary(BitAndOp)
    else if b == 0x10 then Binary(BitOrOp)
    else if b == 0x11 then Binary(BitXorOp)
    else if b == 0x12 then Plain(BitNotOp)
    else if b == 0x13 then Binary(Equal)
    else if b == 0x14 then Binary(LessSigned)
    else if b == 0x15 then Binary(LessUnsigned)
    else if b == 0x16 then Sized(true)
    else if b == 0x17 then Plain(Ref8)
    else if b == 0x18 then Plain(Ref16)
    else if b == 0x19 then Plain(Ref32)
    else if b == 0x20 then IfGoto
    else if b == 0x21 then Goto
    else if b == 0x22 then Const(1)
    else if b == 0x23 then Const(2)
    else if b == 0x24 then Const(4)
    else if b == 0x26 then Reg
    else if b == 0x27 then End
    else if b == 0x28 then Dup
    else if b == 0x29 then Pop
    else if b == 0x2a then Sized(false)
    else if b == 0x2b then Swap
    else if b == 0x32 then Pick
    else if b == 0x33 then Rot
    else Other
  }

  datatype ExecuteError =
    | UnsupportedBytecode | BytecodeOutOfBound | StackOutOfBound
    | DivisionByZero | MemoryAccessError | RegisterAccessError

  /** `Undefined` stands for the shift widths and divisions that C++ leaves undefined. */
  datatype Outcome =
    | Running(pc: nat, stack: seq<Word>)
    | Done(top: Word, nextToTop: Option<Word>)
    | Failed(error: ExecuteError)
    | Undefined

  /** The accessor callbacks. */
  datatype Access = Access(memory: Word -> Option<Byte>, register: Word -> Option<Word>)

  /** Result of an operation on values. */
  datatype Computed = Value(word: Word) | Stops(outcome: Outcome)

  /** As written: `a` is the element below the top, `b` is the top. */
  function ApplyBinary(op: BinaryOp, a: Word, b: Word): (r: Computed)
    ensures r.Stops? ==> r.outcome == Undefined || r.outcome == Failed(DivisionByZero)
  {
    match op
    case Add => Value(Wrap(a + b))
    case Sub => Value(Wrap(b - a))
    case Mul => Value(Wrap(a * b))
    case DivSigned =>
      if b == 0 then Stops(Failed(DivisionByZero))
      else if a == 0 || (b == 0x8000_0000 && a == 0xffff_ffff) then Stops(Undefined)
      else Value(Wrap(TruncDiv(Signed(b), Signed(a))))
    case DivUnsigned =>
      if b == 0 then Stops(Failed(DivisionByZero))
      else if a == 0 then Stops(Undefined)
      else Value(Wrap(b / a))
    case RemSigned =>
      if b == 0 then Stops(Failed(DivisionByZero))
      else if a == 0 || (b == 0x8000_0000 && a == 0xffff_ffff) then Stops(Undefined)
      else Value(Wrap(TruncRem(Signed(b), Signed(a))))
    case RemUnsigned =>
      if b == 0 then Stops(Failed(DivisionByZero))
      else if a == 0 then Stops(Undefined)
      else Value(Wrap(b % a))
    case Lsh => Value(Alu.ShiftLeft(b, a))
    case RshSigned => Value(Alu.ShiftRightSigned(b, a))
    case RshUnsigned => Value(Alu.ShiftRight(b, a))
    case BitAndOp => Value(BitAnd(a, b))
    case BitOrOp => Value(BitOr(a, b))
    case BitXorOp => Value(BitXor(a, b))
    case Equal => Value(if a == b then 1 else 0)
    case LessSigned => Value(if Signed(b) < Signed(a) then 1 else 0)
    case LessUnsigned => Value(if b < a then 1 else 0)
  }

  /** How many values fit in `n` bytes. */
  function Capacity(n: Width): nat {
    if n == 0 then 1 else if n == 1 then 0x100 else if n == 2 then 0x1_0000
    else if n == 3 then 0x100_0000 else 0x1_0000_0000
  }

  /** Little-endian value of `n` bytes, or the access error if one of them is missing. */
  function ReadBytes(access: Access, address: Word, n: Width): (r: Computed)
    ensures r.Value? ==> r.word < Capacity(n)
    ensures r.Stops? ==> r.outcome == Failed(MemoryAccessError)
    decreases n
  {
    if n == 0 then Value(0)
    else
      match access.memory(address)
      case None => Stops(Failed(MemoryAccessError))
      case Some(low) =>
        var rest := ReadBytes(access, Wrap(address + 1), n - 1);
        if rest.Value? then Value(low + 0x100 * rest.word) else rest
  }

  lemma Pow2AtMost32(n: nat)
    requires n <= 32
    ensures Pow2(n) <= TWO_32
  {
    Pow2Of32();
    Pow2Split(n, 32 - n);
    Alu.FactorBelow(Pow2(32 - n), Pow2(n));
  }

  /** Sign extension by shifting up and back, as the source does it. */
  function ShiftedExtend(a: Word, n: nat): Word
    requires 0 < n <= 32
  {
    Wrap(Signed(Wrap(a * Pow2(32 - n))) / Pow2(32 - n))
  }

  function MaskedExtend(a: Word, n: nat): Word
    requires n < 32
  {
    Pow2AtMost32(n);
    BitAnd(a, Pow2(n) - 1)
  }

  function ApplyUnary(access: Access, op: UnaryOp, a: Word): (r: Computed)
    ensures r.Stops? ==> r.outcome == Undefined || r.outcome == Failed(MemoryAccessError)
  {
    match op
    case LogNot => Value(if a == 0 then 1 else 0)
    case BitNotOp => Value(BitNot(a))
    case Ext(n) => if 0 < n <= 32 then Value(ShiftedExtend(a, n)) else Stops(Undefined)
    case ZeroExt(n) => if n < 32 then Value(MaskedExtend(a, n)) else Stops(Undefined)
    case Ref8 => ReadBytes(access, a, 1)
    case Ref16 => ReadBytes(access, a, 2)
    case Ref32 => ReadBytes(access, a, 4)
  }

  /** Big-endian immediate of `n` bytes; the caller has checked the bounds. */
  function Immediate(code: seq<Byte>, at: nat, n: Width): (r: Word)
    requires at + n <= |code|
    ensures r < Capacity(n)
  {
    if n == 0 then 0 else 0x100 * Immediate(code, at, n - 1) + code[at + n - 1]
  }

  function PushOrStop(c: Computed, pc: nat, stack: seq<Word>): Outcome {
    match c
    case Value(w) => Running(pc, stack + [w])
    case Stops(o) => o
  }

  /** One iteration of the interpreter loop. */
  function Step(access: Access, code: seq<Byte>, pc: nat, stack: seq<Word>): Outcome {
    if pc >= |code| then Failed(BytecodeOutOfBound)
    else
      var n := |stack|;
      match Decode(code[pc])
      case Binary(op) =>
        if n < 2 then Failed(StackOutOfBound)
        else PushOrStop(ApplyBinary(op, stack[n - 2], stack[n - 1]), pc + 1, stack[..n - 2])
      case Plain(op) =>
        if n < 1 then Failed(StackOutOfBound)
        else PushOrStop(ApplyUnary(access, op, stack[n - 1]), pc + 1, stack[..n - 1])
      case Sized(signed) =>
        if pc + 1 >= |code| then Failed(BytecodeOutOfBound)
        else if n < 1 then Failed(StackOutOfBound)
        else
          var op := if signed then Ext(code[pc + 1]) else ZeroExt(code[pc + 1]);
          PushOrStop(ApplyUnary(access, op, stack[n - 1]), pc + 2, stack[..n - 1])
      case Dup =>
        if n < 1 then Failed(StackOutOfBound) else Running(pc + 1, stack + [stack[n - 1]])
      case Swap =>
        if n < 2 then Failed(StackOutOfBound)
        else Running(pc + 1, stack[..n - 2] + [stack[n - 1], stack[n - 2]])
      case Pop =>
        if n < 1 then Failed(StackOutOfBound) else Running(pc + 1, stack[..n - 1])
      case Pick =>
        if pc + 1 >= |code| then Failed(BytecodeOutOfBound)
        else if code[pc + 1] >= n then Failed(StackOutOfBound)
        else Running(pc + 2, stack + [stack[n - 1 - code[pc + 1]]])
      case Rot =>
        if n < 3 then Failed(StackOutOfBound)
        else Running(pc + 1, stack[..n - 3] + [stack[n - 1], stack[n - 3], stack[n - 2]])
      case IfGoto =>
        if n < 1 then Failed(StackOutOfBound)
        else if stack[n - 1] == 0 then Running(pc + 3, stack[..n - 1])
        else if pc + 2 >= |code| then Failed(BytecodeOutOfBound)
        else Running(Immediate(code, pc + 1, 2), stack[..n - 1])
      case Goto =>
        if pc + 2 >= |code| then Failed(BytecodeOutOfBound)
        else Running(Immediate(code, pc + 1, 2), stack)
      case Const(width) =>
        if pc + width >= |code| then Failed(BytecodeOutOfBound)
        else
          Running(pc + 1 + width, stack + [Immediate(code, pc + 1, width)])
      case Reg =>
        if pc + 2 >= |code| then Failed(BytecodeOutOfBound)
        else
          var w := access.register(Immediate(code, pc + 1, 2));
          if w.None? then Failed(RegisterAccessError) else Running(pc + 3, stack + [w.value])
      case End =>
        if n < 1 then Failed(StackOutOfBound)
        else Done(stack[n - 1], if n < 2 then None else Some(stack[n - 2]))
      case Other => Failed(UnsupportedBytecode)
  }

  /** At most `n` iterations from `o`; an outcome other than `Running` is final. */
  function Run(access: Access, code: seq<Byte>, n: nat, o: Outcome): Outcome {
    if n == 0 || !o.Running? then o
    else Run(access, code, n - 1, Step(access, code, o.pc, o.stack))
  }

  lemma {:induction false} RunSplit(access: Access, code: seq<Byte>, m: nat, n: nat, o: Outcome)
    ensures Run(access, code, m + n, o) == Run(access, code, n, Run(access, code, m, o))
  {
    hide Step;
    if m != 0 && o.Running? {
      RunSplit(access, code, m - 1, n, Step(access, code, o.pc, o.stack));
    }
  }
}
