/** Agent expressions: postfix code computes its expression tree, deeper stacks do not matter, and code
    whose jumps go forward halts. */
module ExpressionTheorems {
  import opened Words
  import opened Expression
  import opened StandardOperators

  /* ---- Expression trees ---- */

  type Half = x: int | 0 <= x < 0x1_0000

  datatype Expr =
    | Const8(v8: Byte) | Const16(v16: Half) | Const32(v32: Word)
    | Register(number: Half)
    | UnaryExpr(unary: UnaryOp, arg: Expr)
    | BinaryExpr(binary: BinaryOp, left: Expr, right: Expr)
    | Conditional(test: Expr, yes: Expr, no: Expr)

  /** Value of a tree with the operators of the interpreter; a failing access stops the evaluation, and
      the left operand comes first. */
  function Eval(access: Access, e: Expr): Computed {
    match e
    case Const8(v) => Value(v)
    case Const16(v) => Value(v)
    case Const32(v) => Value(v)
    case Register(number) =>
      var w := access.register(number);
      if w.None? then Stops(Failed(RegisterAccessError)) else Value(w.value)
    case UnaryExpr(op, arg) =>
      var a := Eval(access, arg);
      if a.Stops? then a else ApplyUnary(access, op, a.word)
    case BinaryExpr(op, left, right) =>
      var a := Eval(access, left);
      if a.Stops? then a
      else
        var b := Eval(access, right);
        if b.Stops? then b else ApplyBinary(op, a.word, b.word)
    case Conditional(test, yes, no) =>
      var c := Eval(access, test);
      if c.Stops? then c else if c.word != 0 then Eval(access, yes) else Eval(access, no)
  }

  function BigEndian(n: nat, v: nat): (r: seq<Byte>)
    ensures |r| == n
  {
    if n == 0 then [] else BigEndian(n - 1, v / 0x100) + [v % 0x100]
  }

  function BinaryCode(op: BinaryOp): (b: Byte)
    ensures Decode(b) == Operation.Binary(op)
  {
    match op
    case Add => 0x02
    case Sub => 0x03
    case Mul => 0x04
    case DivSigned => 0x05
    case DivUnsigned => 0x06
    case RemSigned => 0x07
    case RemUnsigned => 0x08
    case Lsh => 0x09
    case RshSigned => 0x0a
    case RshUnsigned => 0x0b
    case BitAndOp => 0x0f
    case BitOrOp => 0x10
    case BitXorOp => 0x11
    case Equal => 0x13
    case LessSigned => 0x14
    case LessUnsigned => 0x15
  }

  function UnaryCode(op: UnaryOp): (code: seq<Byte>)
    ensures 1 <= |code| <= 2
  {
    match op
    case LogNot => [0x0e]
    case BitNotOp => [0x12]
    case Ext(n) => [0x16, n]
    case ZeroExt(n) => [0x2a, n]
    case Ref8 => [0x17]
    case Ref16 => [0x18]
    case Ref32 => [0x19]
  }

  function Length(e: Expr): (n: nat)
    ensures n > 0
  {
    match e
    case Const8(_) => 2
    case Const16(_) => 3
    case Const32(_) => 5
    case Register(_) => 3
    case UnaryExpr(op, arg) => Length(arg) + |UnaryCode(op)|
    case BinaryExpr(_, left, right) => Length(left) + Length(right) + 1
    case Conditional(test, yes, no) => Length(test) + 3 + Length(no) + 3 + Length(yes)
  }

  function JumpCode(opcode: Byte, target: nat): (code: seq<Byte>)
    ensures |code| == 3
  {
    [opcode] + BigEndian(2, target)
  }

  function BinaryBytes(left: seq<Byte>, right: seq<Byte>, opcode: Byte): (code: seq<Byte>)
    ensures |code| == |left| + |right| + 1
  {
    left + right + [opcode]
  }

  function ConditionalBytes(test: seq<Byte>, target: nat, no: seq<Byte>, end: nat, yes: seq<Byte>): (code: seq<Byte>)
    ensures |code| == |test| + 3 + |no| + 3 + |yes|
  {
    test + (JumpCode(0x20, target) + (no + (JumpCode(0x21, end) + yes)))
  }

  /** Bytecode of a tree for position `at`: operands before operators, and a conditional as its test, a jump
      over the other branch, that branch, a jump to the end, and the branch that is jumped to. */
  function Postfix(e: Expr, at: nat): (code: seq<Byte>)
    ensures |code| == Length(e)
  {
    match e
    case Const8(v) => [0x22] + BigEndian(1, v)
    case Const16(v) => [0x23] + BigEndian(2, v)
    case Const32(v) => [0x24] + BigEndian(4, v)
    case Register(number) => [0x26] + BigEndian(2, number)
    case UnaryExpr(op, arg) => Postfix(arg, at) + UnaryCode(op)
    case BinaryExpr(op, left, right) =>
      BinaryBytes(Postfix(left, at), Postfix(right, at + Length(left)), BinaryCode(op))
    case Conditional(test, yes, no) =>
      var other := at + Length(test) + 3;
      var target := other + Length(no) + 3;
      ConditionalBytes(Postfix(test, at), target, Postfix(no, other), at + Length(e), Postfix(yes, target))
  }

  /** Jump targets are 16 bits wide. */
  predicate Reaches(e: Expr, at: nat) {
    match e
    case UnaryExpr(_, arg) => Reaches(arg, at)
    case BinaryExpr(_, left, right) => Reaches(left, at) && Reaches(right, at + Length(left))
    case Conditional(test, yes, no) =>
      && at + Length(e) < 0x1_0000
      && Reaches(test, at) && Reaches(no, at + Length(test) + 3)
      && Reaches(yes, at + Length(test) + 3 + Length(no) + 3)
    case _ => true
  }

  /** Code that fits into 16 bits altogether reaches all its targets. */
  lemma {:induction false} ShortReaches(e: Expr, at: nat)
    requires at + Length(e) < 0x1_0000
    ensures Reaches(e, at)
  {
    match e
    case UnaryExpr(_, arg) =>
      ShortReaches(arg, at);
    case BinaryExpr(_, left, right) =>
      ShortReaches(left, at);
      ShortReaches(right, at + Length(left));
    case Conditional(test, yes, no) =>
      ShortReaches(test, at);
      ShortReaches(no, at + Length(test) + 3);
      ShortReaches(yes, at + Length(test) + 3 + Length(no) + 3);
    case _ =>
  }

  /** How many instructions are executed for a tree that does not stop. */
  function Size(access: Access, e: Expr): (n: nat)
    ensures n > 0
  {
    match e
    case UnaryExpr(_, arg) => Size(access, arg) + 1
    case BinaryExpr(_, left, right) => Size(access, left) + Size(access, right) + 1
    case Conditional(test, yes, no) =>
      var c := Eval(access, test);
      Size(access, test) + 1
      + if c.Value? && c.word != 0 then Size(access, yes) else Size(access, no) + 1
    case _ => 1
  }

  /** `part` stands in `code` at position `at`. */
  predicate Stands(code: seq<Byte>, at: nat, part: seq<Byte>) {
    at + |part| <= |code| && code[at..at + |part|] == part
  }

  lemma {:induction false} StandsSplit(code: seq<Byte>, at: nat, a: seq<Byte>, b: seq<Byte>)
    requires Stands(code, at, a + b)
    ensures Stands(code, at, a) && Stands(code, at + |a|, b)
  {
    var s := code[at..at + |a + b|];
    assert s[..|a|] == a && s[|a|..] == b;
    assert code[at..at + |a|] == s[..|a|];
    assert code[at + |a|..at + |a| + |b|] == s[|a|..];
  }

  lemma {:induction false} StandsAt(code: seq<Byte>, at: nat, part: seq<Byte>, i: nat)
    requires Stands(code, at, part) && i < |part|
    ensures code[at + i] == part[i]
  {
    assert code[at..at + |part|][i] == part[i];
  }

  lemma {:induction false} BinarySplit(code: seq<Byte>, at: nat, left: seq<Byte>, right: seq<Byte>, opcode: Byte)
    requires Stands(code, at, BinaryBytes(left, right, opcode))
    ensures Stands(code, at, left) && Stands(code, at + |left|, right)
    ensures Stands(code, at + |left| + |right|, [opcode])
  {
    hide Stands;
    StandsSplit(code, at, left + right, [opcode]);
    StandsSplit(code, at, left, right);
  }

  lemma {:induction false} ConditionalSplit(
    code: seq<Byte>, at: nat, test: seq<Byte>, target: nat, no: seq<Byte>, end: nat, yes: seq<Byte>)
    requires Stands(code, at, ConditionalBytes(test, target, no, end, yes))
    ensures var other := at + |test| + 3;
            && Stands(code, at, test) && Stands(code, at + |test|, JumpCode(0x20, target))
            && Stands(code, other, no) && Stands(code, other + |no|, JumpCode(0x21, end))
            && Stands(code, other + |no| + 3, yes)
  {
    hide Stands, JumpCode;
    var other := at + |test| + 3;
    var last := JumpCode(0x21, end) + yes;
    StandsSplit(code, at, test, JumpCode(0x20, target) + (no + last));
    StandsSplit(code, at + |test|, JumpCode(0x20, target), no + last);
    StandsSplit(code, other, no, last);
    StandsSplit(code, other + |no|, JumpCode(0x21, end), yes);
  }

  /** The bytecode of a tree stands in `code` at position `at`, part by part. */
  predicate Compiled(code: seq<Byte>, at: nat, e: Expr)
    decreases e
  {
    match e
    case UnaryExpr(op, arg) =>
      Compiled(code, at, arg) && Stands(code, at + Length(arg), UnaryCode(op))
    case BinaryExpr(op, left, right) =>
      && Compiled(code, at, left) && Compiled(code, at + Length(left), right)
      && Stands(code, at + Length(left) + Length(right), [BinaryCode(op)])
    case Conditional(test, yes, no) =>
      var other := at + Length(test) + 3;
      var target := other + Length(no) + 3;
      && Compiled(code, at, test) && Compiled(code, other, no) && Compiled(code, target, yes)
      && Stands(code, other - 3, JumpCode(0x20, target))
      && Stands(code, target - 3, JumpCode(0x21, at + Length(e)))
    case _ => Stands(code, at, Postfix(e, at))
  }

  /* One level of these definitions at a time. */

  lemma {:induction false} CompiledUnary(code: seq<Byte>, at: nat, op: UnaryOp, arg: Expr)
    ensures Compiled(code, at, UnaryExpr(op, arg))
       <==> Compiled(code, at, arg) && Stands(code, at + Length(arg), UnaryCode(op))
    ensures Stands(code, at, Postfix(UnaryExpr(op, arg), at)) ==>
              Stands(code, at, Postfix(arg, at)) && Stands(code, at + Length(arg), UnaryCode(op))
    ensures Reaches(UnaryExpr(op, arg), at) <==> Reaches(arg, at)
    ensures Length(UnaryExpr(op, arg)) == Length(arg) + |UnaryCode(op)|
  {
    hide Stands, UnaryCode, BinaryBytes, ConditionalBytes, BigEndian, JumpCode;
    if Stands(code, at, Postfix(UnaryExpr(op, arg), at)) {
      StandsSplit(code, at, Postfix(arg, at), UnaryCode(op));
    }
  }

  lemma {:induction false} CompiledBinary(code: seq<Byte>, at: nat, op: BinaryOp, left: Expr, right: Expr)
    ensures var e, mid := BinaryExpr(op, left, right), at + Length(left);
            && Length(e) == Length(left) + Length(right) + 1
            && (Reaches(e, at) <==> Reaches(left, at) && Reaches(right, mid))
            && (Compiled(code, at, e) <==>
                  Compiled(code, at, left) && Compiled(code, mid, right)
                  && Stands(code, mid + Length(right), [BinaryCode(op)]))
  {
    hide Stands, BinaryCode, UnaryCode, Postfix, JumpCode;
  }

  lemma {:induction false} PostfixBinary(code: seq<Byte>, at: nat, op: BinaryOp, left: Expr, right: Expr)
    requires Stands(code, at, Postfix(BinaryExpr(op, left, right), at))
    ensures var mid := at + Length(left);
            && Stands(code, at, Postfix(left, at)) && Stands(code, mid, Postfix(right, mid))
            && Stands(code, mid + Length(right), [BinaryCode(op)])
  {
    hide Stands, BinaryBytes, ConditionalBytes, BigEndian, JumpCode, BinaryCode, UnaryCode, Length;
    BinarySplit(code, at, Postfix(left, at), Postfix(right, at + Length(left)), BinaryCode(op));
  }

  lemma {:induction false} CompiledConditional(code: seq<Byte>, at: nat, test: Expr, yes: Expr, no: Expr)
    ensures var e, other := Conditional(test, yes, no), at + Length(test) + 3;
            var target := other + Length(no) + 3;
            && at + Length(e) == target + Length(yes)
            && (Reaches(e, at) <==>
                  target + Length(yes) < 0x1_0000 && Reaches(test, at) && Reaches(no, other) && Reaches(yes, target))
            && (Compiled(code, at, e) <==>
                  && Compiled(code, at, test) && Compiled(code, other, no) && Compiled(code, target, yes)
                  && Stands(code, other - 3, JumpCode(0x20, target))
                  && Stands(code, target - 3, JumpCode(0x21, target + Length(yes))))
  {
    hide Stands, BinaryCode, UnaryCode, Postfix, JumpCode;
  }

  lemma {:induction false} PostfixConditional(code: seq<Byte>, at: nat, test: Expr, yes: Expr, no: Expr)
    requires Stands(code, at, Postfix(Conditional(test, yes, no), at))
    ensures var other := at + Length(test) + 3;
            var target := other + Length(no) + 3;
            && Stands(code, at, Postfix(test, at)) && Stands(code, other, Postfix(no, other))
            && Stands(code, target, Postfix(yes, target))
            && Stands(code, other - 3, JumpCode(0x20, target))
            && Stands(code, target - 3, JumpCode(0x21, target + Length(yes)))
  {
    hide Stands, BinaryBytes, ConditionalBytes, BigEndian, JumpCode, BinaryCode, UnaryCode, Length;
    var other := at + Length(test) + 3;
    var target := other + Length(no) + 3;
    var e := Conditional(test, yes, no);
    ConditionalSplit(code, at, Postfix(test, at), target, Postfix(no, other), at + Length(e), Postfix(yes, target));
    assert at + Length(e) == target + Length(yes) by {
      CompiledConditional(code, at, test, yes, no);
    }
  }

  lemma {:induction false} PostfixCompiled(code: seq<Byte>, at: nat, e: Expr)
    requires Stands(code, at, Postfix(e, at))
    ensures Compiled(code, at, e)
    decreases e
  {
    hide Stands, Postfix, JumpCode, UnaryCode, BinaryCode, Length, Reaches;
    match e
    case UnaryExpr(op, arg) =>
      hide Compiled;
      CompiledUnary(code, at, op, arg);
      PostfixCompiled(code, at, arg);
    case BinaryExpr(op, left, right) =>
      hide Compiled;
      PostfixBinary(code, at, op, left, right);
      PostfixCompiled(code, at, left);
      PostfixCompiled(code, at + Length(left), right);
      CompiledBinary(code, at, op, left, right);
    case Conditional(test, yes, no) =>
      hide Compiled;
      PostfixConditional(code, at, test, yes, no);
      var other := at + Length(test) + 3;
      PostfixCompiled(code, at, test);
      PostfixCompiled(code, other, no);
      PostfixCompiled(code, other + Length(no) + 3, yes);
      CompiledConditional(code, at, test, yes, no);
    case _ =>
  }

  lemma {:induction false} ImmediateOf(code: seq<Byte>, at: nat, n: Width, v: nat)
    requires Stands(code, at, BigEndian(n, v)) && v < Capacity(n)
    ensures Immediate(code, at, n) == v
  {
    if n != 0 {
      StandsSplit(code, at, BigEndian(n - 1, v / 0x100), [v % 0x100]);
      StandsAt(code, at + n - 1, [v % 0x100], 0);
      ImmediateOf(code, at, n - 1, v / 0x100);
    }
  }

  lemma {:induction false} ConstStep(
    access: Access, code: seq<Byte>, pc: nat, stack: seq<Word>, op: Byte, n: Width, v: Word)
    requires Stands(code, pc, [op] + BigEndian(n, v)) && Decode(op) == Const(n) && v < Capacity(n)
    ensures Step(access, code, pc, stack) == Running(pc + 1 + n, stack + [v])
  {
    StandsSplit(code, pc, [op], BigEndian(n, v));
    StandsAt(code, pc, [op], 0);
    ImmediateOf(code, pc + 1, n, v);
  }

  lemma {:induction false} RegisterStep(access: Access, code: seq<Byte>, pc: nat, stack: seq<Word>, number: Half)
    requires Stands(code, pc, [0x26] + BigEndian(2, number))
    ensures Step(access, code, pc, stack) == PushOrStop(Eval(access, Register(number)), pc + 3, stack)
  {
    StandsSplit(code, pc, [0x26], BigEndian(2, number));
    StandsAt(code, pc, [0x26], 0);
    ImmediateOf(code, pc + 1, 2, number);
  }

  lemma {:induction false} UnaryStep(access: Access, code: seq<Byte>, pc: nat, stack: seq<Word>, op: UnaryOp, a: Word)
    requires Stands(code, pc, UnaryCode(op))
    ensures Step(access, code, pc, stack + [a])
         == PushOrStop(ApplyUnary(access, op, a), pc + |UnaryCode(op)|, stack)
  {
    hide ApplyUnary;
    StandsAt(code, pc, UnaryCode(op), 0);
    if op.Ext? || op.ZeroExt? {
      StandsAt(code, pc, UnaryCode(op), 1);
    }
    assert (stack + [a])[..|stack|] == stack;
  }

  lemma {:induction false} BinaryStep(
    access: Access, code: seq<Byte>, pc: nat, stack: seq<Word>, op: BinaryOp, a: Word, b: Word)
    requires Stands(code, pc, [BinaryCode(op)])
    ensures Step(access, code, pc, stack + [a] + [b])
         == PushOrStop(ApplyBinary(op, a, b), pc + 1, stack)
  {
    hide ApplyBinary;
    StandsAt(code, pc, [BinaryCode(op)], 0);
    assert (stack + [a] + [b])[..|stack|] == stack;
  }

  lemma {:induction false} RunOne(access: Access, code: seq<Byte>, pc: nat, stack: seq<Word>)
    ensures Run(access, code, 1, Running(pc, stack)) == Step(access, code, pc, stack)
  {
    hide Step;
  }

  lemma {:induction false} RunStopped(access: Access, code: seq<Byte>, n: nat, o: Outcome)
    requires !o.Running?
    ensures Run(access, code, n, o) == o
  {
    hide Step;
  }

  predicate IsLeaf(e: Expr) {
    e.Const8? || e.Const16? || e.Const32? || e.Register?
  }

  lemma {:induction false} LeafRuns(access: Access, code: seq<Byte>, pc: nat, stack: seq<Word>, e: Expr)
    requires IsLeaf(e) && Stands(code, pc, Postfix(e, pc))
    ensures Run(access, code, Size(access, e), Running(pc, stack))
         == PushOrStop(Eval(access, e), pc + Length(e), stack)
  {
    hide Step, Run, Stands, BigEndian;
    RunOne(access, code, pc, stack);
    match e
    case Const8(v) =>
      assert Decode(0x22) == Const(1);
      ConstStep(access, code, pc, stack, 0x22, 1, v);
    case Const16(v) =>
      assert Decode(0x23) == Const(2);
      ConstStep(access, code, pc, stack, 0x23, 2, v);
    case Const32(v) =>
      assert Decode(0x24) == Const(4);
      ConstStep(access, code, pc, stack, 0x24, 4, v);
    case Register(number) =>
      RegisterStep(access, code, pc, stack, number);
  }

  lemma {:induction false} CompiledRuns(access: Access, code: seq<Byte>, pc: nat, stack: seq<Word>, e: Expr)
    requires Compiled(code, pc, e) && Reaches(e, pc)
    ensures Run(access, code, Size(access, e), Running(pc, stack))
         == PushOrStop(Eval(access, e), pc + Length(e), stack)
    decreases e, 1
  {
    hide Step, Run, Stands, Eval, PushOrStop, Postfix, JumpCode, UnaryCode, BinaryCode, Length, Reaches;
    match e
    case UnaryExpr(op, arg) =>
      hide Compiled;
      CompiledUnary(code, pc, op, arg);
      UnaryRuns(access, code, pc, stack, op, arg);
    case BinaryExpr(op, left, right) =>
      hide Compiled;
      CompiledBinary(code, pc, op, left, right);
      BinaryRuns(access, code, pc, stack, op, left, right);
    case Conditional(test, yes, no) =>
      hide Compiled;
      CompiledConditional(code, pc, test, yes, no);
      ConditionalRuns(access, code, pc, stack, test, yes, no);
    case _ =>
      LeafRuns(access, code, pc, stack, e);
  }

  /** Running the bytecode of a tree, anywhere in a program and on any stack, pushes its value or stops with
      its error. */
  lemma {:induction false} PostfixRuns(access: Access, code: seq<Byte>, pc: nat, stack: seq<Word>, e: Expr)
    requires Stands(code, pc, Postfix(e, pc)) && Reaches(e, pc)
    ensures Run(access, code, Size(access, e), Running(pc, stack))
         == PushOrStop(Eval(access, e), pc + Length(e), stack)
  {
    hide Step, Run, Stands, Eval, PushOrStop, Postfix, Reaches, Compiled, Size;
    PostfixCompiled(code, pc, e);
    CompiledRuns(access, code, pc, stack, e);
  }

  lemma {:induction false} UnaryRuns(
    access: Access, code: seq<Byte>, pc: nat, stack: seq<Word>, op: UnaryOp, arg: Expr)
    requires Compiled(code, pc, arg) && Stands(code, pc + Length(arg), UnaryCode(op)) && Reaches(arg, pc)
    ensures Run(access, code, Size(access, arg) + 1, Running(pc, stack))
         == PushOrStop(Eval(access, UnaryExpr(op, arg)), pc + Length(arg) + |UnaryCode(op)|, stack)
    decreases UnaryExpr(op, arg), 0
  {
    hide Step, Run, Stands, Compiled, UnaryCode, ApplyUnary, ApplyBinary, Reaches;
    CompiledRuns(access, code, pc, stack, arg);
    RunSplit(access, code, Size(access, arg), 1, Running(pc, stack));
    var a := Eval(access, arg);
    var next := pc + Length(arg);
    if a.Value? {
      RunOne(access, code, next, stack + [a.word]);
      UnaryStep(access, code, next, stack, op, a.word);
    } else {
      EvalStops(access, arg);
      RunStopped(access, code, 1, a.outcome);
    }
  }

  lemma {:induction false} BinaryRuns(
    access: Access, code: seq<Byte>, pc: nat, stack: seq<Word>, op: BinaryOp, left: Expr, right: Expr)
    requires Compiled(code, pc, left) && Compiled(code, pc + Length(left), right)
    requires Stands(code, pc + Length(left) + Length(right), [BinaryCode(op)])
    requires Reaches(left, pc) && Reaches(right, pc + Length(left))
    ensures Run(access, code, Size(access, left) + Size(access, right) + 1, Running(pc, stack))
         == PushOrStop(Eval(access, BinaryExpr(op, left, right)), pc + Length(left) + Length(right) + 1, stack)
    decreases BinaryExpr(op, left, right), 0
  {
    hide Step, Run, Stands, Compiled, BinaryCode, ApplyUnary, ApplyBinary, ReadBytes, Reaches, Size, Length;
    CompiledRuns(access, code, pc, stack, left);
    RunSplit(access, code, Size(access, left), Size(access, right) + 1, Running(pc, stack));
    var a := Eval(access, left);
    if a.Value? {
      var mid, pushed := pc + Length(left), stack + [a.word];
      CompiledRuns(access, code, mid, pushed, right);
      RunSplit(access, code, Size(access, right), 1, Running(mid, pushed));
      var b := Eval(access, right);
      if b.Value? {
        RunOne(access, code, mid + Length(right), pushed + [b.word]);
        BinaryStep(access, code, mid + Length(right), stack, op, a.word, b.word);
      } else {
        EvalStops(access, right);
        RunStopped(access, code, 1, b.outcome);
      }
    } else {
      EvalStops(access, left);
      RunStopped(access, code, Size(access, right) + 1, a.outcome);
    }
  }

  /** `if_goto` falls through on 0 and jumps otherwise; `goto` jumps. */
  lemma {:induction false} JumpStep(
    access: Access, code: seq<Byte>, pc: nat, stack: seq<Word>, c: Word, target: nat)
    requires target < 0x1_0000
    ensures Stands(code, pc, JumpCode(0x20, target)) ==>
              Step(access, code, pc, stack + [c]) == Running(if c == 0 then pc + 3 else target, stack)
    ensures Stands(code, pc, JumpCode(0x21, target)) ==>
              Step(access, code, pc, stack) == Running(target, stack)
  {
    assert (stack + [c])[..|stack|] == stack;
    if Stands(code, pc, JumpCode(0x20, target)) {
      StandsSplit(code, pc, [0x20], BigEndian(2, target));
      StandsAt(code, pc, [0x20], 0);
      ImmediateOf(code, pc + 1, 2, target);
    }
    if Stands(code, pc, JumpCode(0x21, target)) {
      StandsSplit(code, pc, [0x21], BigEndian(2, target));
      StandsAt(code, pc, [0x21], 0);
      ImmediateOf(code, pc + 1, 2, target);
    }
  }

  /** The branch that is jumped over, and the jump behind it. */
  lemma {:induction false} BranchRuns(
    access: Access, code: seq<Byte>, pc: nat, stack: seq<Word>, no: Expr, end: nat)
    requires Compiled(code, pc, no) && Reaches(no, pc)
    requires Stands(code, pc + Length(no), JumpCode(0x21, end)) && end < 0x1_0000
    ensures Run(access, code, Size(access, no) + 1, Running(pc, stack)) == PushOrStop(Eval(access, no), end, stack)
    decreases no, 2
  {
    hide Step, Run, Stands, Compiled, JumpCode, Reaches, Eval, Size, Length;
    CompiledRuns(access, code, pc, stack, no);
    RunSplit(access, code, Size(access, no), 1, Running(pc, stack));
    var v := Eval(access, no);
    if v.Value? {
      RunOne(access, code, pc + Length(no), stack + [v.word]);
      JumpStep(access, code, pc + Length(no), stack + [v.word], 0, end);
    } else {
      EvalStops(access, no);
      RunStopped(access, code, 1, v.outcome);
    }
  }

  lemma {:induction false} ConditionalRuns(
    access: Access, code: seq<Byte>, pc: nat, stack: seq<Word>, test: Expr, yes: Expr, no: Expr)
    requires var other := pc + Length(test) + 3;
             var target := other + Length(no) + 3;
             && Compiled(code, pc, test) && Compiled(code, other, no) && Compiled(code, target, yes)
             && Reaches(test, pc) && Reaches(no, other) && Reaches(yes, target)
             && Stands(code, other - 3, JumpCode(0x20, target))
             && Stands(code, target - 3, JumpCode(0x21, target + Length(yes)))
             && target + Length(yes) < 0x1_0000
    ensures var e := Conditional(test, yes, no);
            Run(access, code, Size(access, e), Running(pc, stack))
              == PushOrStop(Eval(access, e), pc + Length(e), stack)
    decreases Conditional(test, yes, no), 0
  {
    hide Step, Run, Stands, JumpCode, ApplyUnary, ApplyBinary, ReadBytes, Compiled, Reaches;
    var jump := pc + Length(test);
    var target := jump + 3 + Length(no) + 3;
    CompiledRuns(access, code, pc, stack, test);
    var c := Eval(access, test);
    var rest := if c.Value? && c.word != 0 then Size(access, yes) else Size(access, no) + 1;
    RunSplit(access, code, Size(access, test), 1 + rest, Running(pc, stack));
    if c.Stops? {
      EvalStops(access, test);
      RunStopped(access, code, 1 + rest, c.outcome);
    } else {
      RunSplit(access, code, 1, rest, Running(jump, stack + [c.word]));
      RunOne(access, code, jump, stack + [c.word]);
      JumpStep(access, code, jump, stack, c.word, target);
      if c.word != 0 {
        CompiledRuns(access, code, target, stack, yes);
      } else {
        BranchRuns(access, code, jump + 3, stack, no, target + Length(yes));
      }
    }
  }

  lemma {:induction false} EvalStops(access: Access, e: Expr)
    ensures var r := Eval(access, e); r.Stops? ==> !r.outcome.Running?
  {
    match e
    case UnaryExpr(op, arg) =>
      EvalStops(access, arg);
    case BinaryExpr(op, left, right) =>
      EvalStops(access, left);
      EvalStops(access, right);
    case Conditional(test, yes, no) =>
      EvalStops(access, test);
      EvalStops(access, yes);
      EvalStops(access, no);
    case _ =>
  }

  /* ---- The operators of section F.2 ---- */

  /** Value of a tree by section F.2. */
  function StandardEval(access: Access, e: Expr): Computed {
    match e
    case Const8(v) => Value(v)
    case Const16(v) => Value(v)
    case Const32(v) => Value(v)
    case Register(number) =>
      if access.register(number).None? then Stops(Failed(RegisterAccessError))
      else Value(access.register(number).value)
    case UnaryExpr(op, arg) =>
      var a := StandardEval(access, arg);
      if a.Stops? then a else StandardUnary(access, op, a.word)
    case BinaryExpr(op, left, right) =>
      var a := StandardEval(access, left);
      if a.Stops? then a
      else
        var b := StandardEval(access, right);
        if b.Stops? then b else StandardBinary(op, a.word, b.word)
    case Conditional(test, yes, no) =>
      var c := StandardEval(access, test);
      if c.Stops? then c else if c.word != 0 then StandardEval(access, yes) else StandardEval(access, no)
  }

  predicate Symmetric(op: BinaryOp) {
    op in {Add, Mul, BitAndOp, BitOrOp, BitXorOp, Equal}
  }

  predicate SymmetricTree(e: Expr) {
    match e
    case UnaryExpr(_, arg) => SymmetricTree(arg)
    case BinaryExpr(op, left, right) => Symmetric(op) && SymmetricTree(left) && SymmetricTree(right)
    case Conditional(test, yes, no) => SymmetricTree(test) && SymmetricTree(yes) && SymmetricTree(no)
    case _ => true
  }

  /** Every operator that is evaluated meets operands for which its order does no harm. */
  predicate HarmlessTree(access: Access, e: Expr) {
    match e
    case UnaryExpr(_, arg) => HarmlessTree(access, arg)
    case BinaryExpr(op, left, right) =>
      && HarmlessTree(access, left) && HarmlessTree(access, right)
      && var a, b := StandardEval(access, left), StandardEval(access, right);
      && (a.Value? && b.Value? ==> Harmless(op, a.word, b.word))
    case Conditional(test, yes, no) =>
      && HarmlessTree(access, test)
      && var c := StandardEval(access, test);
      && (c.Value? ==> HarmlessTree(access, if c.word != 0 then yes else no))
    case _ => true
  }

  lemma {:induction false} SymmetricIsHarmless(access: Access, e: Expr)
    requires SymmetricTree(e)
    ensures HarmlessTree(access, e)
  {
    match e
    case UnaryExpr(_, arg) =>
      SymmetricIsHarmless(access, arg);
    case BinaryExpr(op, left, right) =>
      SymmetricIsHarmless(access, left);
      SymmetricIsHarmless(access, right);
    case Conditional(test, yes, no) =>
      SymmetricIsHarmless(access, test);
      SymmetricIsHarmless(access, yes);
      SymmetricIsHarmless(access, no);
    case _ =>
  }

  lemma {:induction false} HarmlessConforms(access: Access, e: Expr)
    requires HarmlessTree(access, e)
    ensures Eval(access, e) == StandardEval(access, e)
  {
    hide ApplyUnary, ApplyBinary, StandardUnary, StandardBinary, Harmless;
    match e
    case UnaryExpr(op, arg) =>
      HarmlessConforms(access, arg);
      if Eval(access, arg).Value? {
        UnaryConforms(access, op, Eval(access, arg).word);
      }
    case BinaryExpr(op, left, right) =>
      HarmlessConforms(access, left);
      HarmlessConforms(access, right);
      var a, b := Eval(access, left), Eval(access, right);
      if a.Value? && b.Value? {
        ConformsIff(op, a.word, b.word);
      }
    case Conditional(test, yes, no) =>
      HarmlessConforms(access, test);
      var c := Eval(access, test);
      if c.Value? {
        HarmlessConforms(access, if c.word != 0 then yes else no);
      }
    case _ =>
  }

  /** Above two agreeing operands, the tree agrees with the standard exactly if they are harmless. */
  lemma {:induction false} NodeConformsIff(access: Access, op: BinaryOp, left: Expr, right: Expr)
    requires HarmlessTree(access, left) && HarmlessTree(access, right)
    ensures Eval(access, BinaryExpr(op, left, right)) == StandardEval(access, BinaryExpr(op, left, right))
       <==> HarmlessTree(access, BinaryExpr(op, left, right))
  {
    hide ApplyBinary, StandardBinary, Harmless;
    HarmlessConforms(access, left);
    HarmlessConforms(access, right);
    var a, b := Eval(access, left), Eval(access, right);
    if a.Value? && b.Value? {
      ConformsIff(op, a.word, b.word);
    }
  }

  /** For every tree whose operators meet harmless operands, on every machine: its bytecode followed by `end`
      yields the tree's value by section F.2 with no second element, or the error of the first access that
      fails, jumps of conditionals included. By `SymmetricIsHarmless` that covers every tree over `add`, `mul`,
      `bit_and`, `bit_or`, `bit_xor`, `equal` and the one-operand operators, and by `ShortReaches` all code of
      less than 2^16 bytes. */
  lemma {:induction false} PostfixCorrect(access: Access, e: Expr)
    requires HarmlessTree(access, e) && Reaches(e, 0)
    ensures Run(access, Postfix(e, 0) + [0x27], Size(access, e) + 1, Running(0, []))
         == match StandardEval(access, e)
            case Value(v) => Done(v, None)
            case Stops(o) => o
  {
    hide Step, ApplyUnary, ApplyBinary, StandardUnary, StandardBinary, Postfix;
    var code := Postfix(e, 0) + [0x27];
    HarmlessConforms(access, e);
    assert code[0..0 + Length(e)] == Postfix(e, 0);
    PostfixRuns(access, code, 0, [], e);
    RunSplit(access, code, Size(access, e), 1, Running(0, []));
    var v := Eval(access, e);
    if v.Value? {
      assert [] + [v.word] == [v.word];
      RunOne(access, code, Length(e), [v.word]);
      EndStep(access, code, Length(e), v.word);
    } else {
      EvalStops(access, e);
      RunStopped(access, code, 1, v.outcome);
    }
  }

  lemma {:induction false} EndStep(access: Access, code: seq<Byte>, pc: nat, v: Word)
    requires pc < |code| && code[pc] == 0x27
    ensures Step(access, code, pc, [v]) == Done(v, None)
  {
  }

  /* ---- The other instructions, by opcode ---- */

  /** `dup`, `pop`, `swap` and `rot`, as section F.2 describes them. */
  lemma {:induction false} StackEffects(
    access: Access, code: seq<Byte>, pc: nat, s: seq<Word>, a: Word, b: Word, c: Word)
    requires pc < |code|
    ensures code[pc] == 0x28 ==> Step(access, code, pc, s + [a]) == Running(pc + 1, s + [a, a])
    ensures code[pc] == 0x29 ==> Step(access, code, pc, s + [a]) == Running(pc + 1, s)
    ensures code[pc] == 0x2b ==> Step(access, code, pc, s + [a, b]) == Running(pc + 1, s + [b, a])
    ensures code[pc] == 0x33 ==> Step(access, code, pc, s + [a, b, c]) == Running(pc + 1, s + [c, a, b])
  {
    hide ApplyUnary, ApplyBinary;
    assert (s + [a])[..|s|] == s && (s + [a, b])[..|s|] == s && (s + [a, b, c])[..|s|] == s;
    assert (s + [a]) + [a] == s + [a, a];
  }

  /** `pick n` copies the element that lies `n` below the top. */
  lemma {:induction false} PickEffect(
    access: Access, code: seq<Byte>, pc: nat, s: seq<Word>, a: Word, above: seq<Word>)
    requires pc + 1 < |code| && code[pc] == 0x32 && code[pc + 1] == |above|
    ensures Step(access, code, pc, s + [a] + above) == Running(pc + 2, s + [a] + above + [a])
  {
    hide ApplyUnary, ApplyBinary;
    var stack := s + [a] + above;
    assert stack[|stack| - 1 - |above|] == a;
  }

  /** How many elements an instruction takes off the stack or looks at. */
  function Needs(opcode: Byte): nat {
    if 0x02 <= opcode <= 0x0b || 0x0f <= opcode <= 0x11 || 0x13 <= opcode <= 0x15 || opcode == 0x2b then 2
    else if opcode in {0x0e, 0x12, 0x16, 0x17, 0x18, 0x19, 0x20, 0x27, 0x28, 0x29, 0x2a} then 1
    else if opcode == 0x33 then 3
    else 0
  }

  /** How many bytes follow the opcode. */
  function Follow(opcode: Byte): nat {
    if opcode in {0x16, 0x2a, 0x22, 0x32} then 1
    else if opcode in {0x20, 0x21, 0x23, 0x26} then 2
    else if opcode == 0x24 then 4
    else 0
  }

  /** The bytes that are instructions, as far as the interpreter goes. */
  predicate Supported(opcode: Byte) {
    0x02 <= opcode <= 0x0b || 0x0e <= opcode <= 0x19 || 0x20 <= opcode <= 0x24 || 0x26 <= opcode <= 0x2b
    || opcode == 0x32 || opcode == 0x33
  }

  /** The errors of one step: an unsupported byte, missing bytes, an underflow. Missing bytes come first, except
      after `if_goto`, which needs its target only if it jumps. */
  lemma {:induction false} StepErrors(access: Access, code: seq<Byte>, pc: nat, stack: seq<Word>)
    ensures var o := Step(access, code, pc, stack);
            if pc >= |code| then o == Failed(BytecodeOutOfBound)
            else if !Supported(code[pc]) then o == Failed(UnsupportedBytecode)
            else if code[pc] == 0x20 then
              (stack == [] <==> o == Failed(StackOutOfBound))
              && (stack != [] && stack[|stack| - 1] != 0 && pc + 2 >= |code| <==> o == Failed(BytecodeOutOfBound))
            else if pc + Follow(code[pc]) >= |code| then o == Failed(BytecodeOutOfBound)
            else
              && o != Failed(BytecodeOutOfBound) && o != Failed(UnsupportedBytecode)
              && (o == Failed(StackOutOfBound)
                  <==> |stack| < Needs(code[pc]) || (code[pc] == 0x32 && |stack| <= code[pc + 1]))
  {
    hide ApplyUnary, ApplyBinary, Immediate;
  }

  /** `end` delivers the top and what is below it. */
  lemma {:induction false} EndEffect(access: Access, code: seq<Byte>, pc: nat, s: seq<Word>, a: Word, b: Word)
    requires pc < |code| && code[pc] == 0x27
    ensures Step(access, code, pc, [a]) == Done(a, None) && Step(access, code, pc, s + [b, a]) == Done(a, Some(b))
  {
    hide ApplyUnary, ApplyBinary, Immediate, ReadBytes;
  }

  /* ---- Deeper stacks ---- */

  /** The same outcome with `base` under the stack. */
  function Deepen(base: seq<Word>, o: Outcome): Outcome {
    match o
    case Running(pc, stack) => Running(pc, base + stack)
    case Done(top, next) =>
      if next.Some? || base == [] then o else Done(top, Some(base[|base| - 1]))
    case _ => o
  }

  /** Taking `k` elements off a deeper stack. */
  lemma {:induction false} Peel(base: seq<Word>, stack: seq<Word>, k: nat)
    requires k <= |stack|
    ensures (base + stack)[..|base + stack| - k] == base + stack[..|stack| - k]
    ensures forall i :: |stack| - k <= i < |stack| ==> (base + stack)[|base| + i] == stack[i]
  {
  }

  lemma {:induction false} Below(base: seq<Word>, x: seq<Word>, y: seq<Word>)
    ensures (base + x) + y == base + (x + y)
  {
  }

  lemma {:induction false} PushFrame(c: Computed, pc: nat, base: seq<Word>, stack: seq<Word>)
    requires c.Stops? ==> !c.outcome.Running? && !c.outcome.Done?
    ensures PushOrStop(c, pc, base + stack) == Deepen(base, PushOrStop(c, pc, stack))
  {
    if c.Value? {
      Below(base, stack, [c.word]);
    }
  }

  lemma {:induction false} ShuffleFrame(access: Access, code: seq<Byte>, pc: nat, base: seq<Word>, stack: seq<Word>)
    requires pc < |code| && Decode(code[pc]) in {Dup, Swap, Pick, Rot}
    requires Step(access, code, pc, stack) != Failed(StackOutOfBound)
    ensures Step(access, code, pc, base + stack) == Deepen(base, Step(access, code, pc, stack))
  {
    hide ApplyUnary, ApplyBinary, Immediate, PushOrStop, Decode;
    var n := |stack|;
    match Decode(code[pc])
    case Dup =>
      Below(base, stack, [stack[n - 1]]);
    case Swap =>
      Peel(base, stack, 2);
      Below(base, stack[..n - 2], [stack[n - 1], stack[n - 2]]);
    case Rot =>
      Peel(base, stack, 3);
      Below(base, stack[..n - 3], [stack[n - 1], stack[n - 3], stack[n - 2]]);
    case Pick =>
      if pc + 1 < |code| {
        Below(base, stack, [stack[n - 1 - code[pc + 1]]]);
      }
  }

  lemma {:induction false} OperatorFrame(access: Access, code: seq<Byte>, pc: nat, base: seq<Word>, stack: seq<Word>)
    requires pc < |code| && (Decode(code[pc]).Binary? || Decode(code[pc]).Plain? || Decode(code[pc]).Sized?)
    requires Step(access, code, pc, stack) != Failed(StackOutOfBound)
    ensures Step(access, code, pc, base + stack) == Deepen(base, Step(access, code, pc, stack))
  {
    hide ApplyUnary, ApplyBinary, Immediate, PushOrStop, Decode;
    var n := |stack|;
    match Decode(code[pc])
    case Binary(op) =>
      Peel(base, stack, 2);
      PushFrame(ApplyBinary(op, stack[n - 2], stack[n - 1]), pc + 1, base, stack[..n - 2]);
    case Plain(op) =>
      Peel(base, stack, 1);
      PushFrame(ApplyUnary(access, op, stack[n - 1]), pc + 1, base, stack[..n - 1]);
    case Sized(signed) =>
      if pc + 1 < |code| {
        Peel(base, stack, 1);
        var op := if signed then Ext(code[pc + 1]) else ZeroExt(code[pc + 1]);
        PushFrame(ApplyUnary(access, op, stack[n - 1]), pc + 2, base, stack[..n - 1]);
      }
  }

  /** Unless an instruction underflows, more elements below change nothing but the bottom of the stack. */
  lemma {:induction false} StepFrame(access: Access, code: seq<Byte>, pc: nat, base: seq<Word>, stack: seq<Word>)
    requires Step(access, code, pc, stack) != Failed(StackOutOfBound)
    ensures Step(access, code, pc, base + stack) == Deepen(base, Step(access, code, pc, stack))
  {
    hide Step, Decode;
    if pc < |code| {
      match Decode(code[pc])
      case Binary(_) => OperatorFrame(access, code, pc, base, stack);
      case Plain(_) => OperatorFrame(access, code, pc, base, stack);
      case Sized(_) => OperatorFrame(access, code, pc, base, stack);
      case Dup => ShuffleFrame(access, code, pc, base, stack);
      case Swap => ShuffleFrame(access, code, pc, base, stack);
      case Pick => ShuffleFrame(access, code, pc, base, stack);
      case Rot => ShuffleFrame(access, code, pc, base, stack);
      case _ => OtherFrame(access, code, pc, base, stack);
    } else {
      PastTheEnd(access, code, pc, stack);
      PastTheEnd(access, code, pc, base + stack);
    }
  }

  lemma {:induction false} OtherFrame(access: Access, code: seq<Byte>, pc: nat, base: seq<Word>, stack: seq<Word>)
    requires pc < |code| && Decode(code[pc]) !in {Dup, Swap, Pick, Rot}
    requires !(Decode(code[pc]).Binary? || Decode(code[pc]).Plain? || Decode(code[pc]).Sized?)
    requires Step(access, code, pc, stack) != Failed(StackOutOfBound)
    ensures Step(access, code, pc, base + stack) == Deepen(base, Step(access, code, pc, stack))
  {
    hide ApplyUnary, ApplyBinary, Immediate, PushOrStop, Decode;
    match Decode(code[pc])
    case Const(width) =>
      if pc + width < |code| {
        Below(base, stack, [Immediate(code, pc + 1, width)]);
      }
    case Reg =>
      if pc + 2 < |code| {
        var w := access.register(Immediate(code, pc + 1, 2));
        if w.Some? {
          Below(base, stack, [w.value]);
        }
      }
    case Pop =>
      Peel(base, stack, 1);
    case IfGoto =>
      Peel(base, stack, 1);
    case End =>
      Peel(base, stack, 1);
    case _ =>
  }

  /** A run that never underflows goes the same way on every deeper stack: same program counters, same
      pushed values, same top at the end. */
  lemma {:induction false} RunFrame(access: Access, code: seq<Byte>, n: nat, base: seq<Word>, o: Outcome)
    requires Run(access, code, n, o) != Failed(StackOutOfBound)
    requires o.Running?
    ensures Run(access, code, n, Running(o.pc, base + o.stack)) == Deepen(base, Run(access, code, n, o))
  {
    hide Step;
    if n != 0 {
      var next := Step(access, code, o.pc, o.stack);
      if next.Running? {
        StepFrame(access, code, o.pc, base, o.stack);
        RunFrame(access, code, n - 1, base, next);
      } else {
        RunStopped(access, code, n - 1, next);
        StepFrame(access, code, o.pc, base, o.stack);
        RunStopped(access, code, n - 1, Deepen(base, next));
      }
    }
  }

  /* ---- Termination ---- */

  /** Iteration `i` of the run from the start jumps backwards or to itself. */
  predicate JumpsBack(access: Access, code: seq<Byte>, i: nat) {
    var here := Run(access, code, i, Running(0, []));
    var next := Run(access, code, i + 1, Running(0, []));
    here.Running? && next.Running? && next.pc <= here.pc
  }

  /** Only jumps can fail to advance the program counter. */
  lemma {:induction false} OnlyJumpsGoBack(access: Access, code: seq<Byte>, pc: nat, stack: seq<Word>)
    ensures var o := Step(access, code, pc, stack);
            o.Running? && o.pc <= pc ==> pc < |code| && Decode(code[pc]) in {Goto, IfGoto}
  {
    hide ApplyUnary, ApplyBinary;
  }

  lemma {:induction false} ForwardProgress(access: Access, code: seq<Byte>, i: nat)
    requires forall j: nat :: j < i ==> !JumpsBack(access, code, j)
    ensures var o := Run(access, code, i, Running(0, [])); o.Running? ==> o.pc >= i
  {
    hide Step;
    if i != 0 {
      ForwardProgress(access, code, i - 1);
      var before := Run(access, code, i - 1, Running(0, []));
      RunSplit(access, code, i - 1, 1, Running(0, []));
      if !before.Running? {
        RunStopped(access, code, 1, before);
      }
      assert !JumpsBack(access, code, i - 1);
    }
  }

  /** A run that never jumps back executes at most as many instructions as the code has bytes. */
  lemma {:induction false} ForwardRunsHalt(access: Access, code: seq<Byte>)
    requires forall j: nat :: j < |code| ==> !JumpsBack(access, code, j)
    ensures !Run(access, code, |code| + 1, Running(0, [])).Running?
  {
    hide Step;
    ForwardProgress(access, code, |code|);
    RunSplit(access, code, |code|, 1, Running(0, []));
    var o := Run(access, code, |code|, Running(0, []));
    if o.Running? {
      RunOne(access, code, o.pc, o.stack);
      PastTheEnd(access, code, o.pc, o.stack);
    } else {
      RunStopped(access, code, 1, o);
    }
  }

  lemma {:induction false} PastTheEnd(access: Access, code: seq<Byte>, pc: nat, stack: seq<Word>)
    requires pc >= |code|
    ensures Step(access, code, pc, stack) == Failed(BytecodeOutOfBound)
  {
  }

  /** Without that restriction a run need not halt: `goto 0` is still running after any number of steps. */
  lemma {:induction false} GotoSelfRunsForever(access: Access, n: nat)
    ensures Run(access, [0x21, 0, 0], n, Running(0, [])) == Running(0, [])
  {
    if n != 0 {
      var code: seq<Byte> := [0x21, 0, 0];
      assert Immediate(code, 1, 2) == 0 by {
        assert Immediate(code, 1, 1) == 0;
      }
      assert Step(access, code, 0, []) == Running(0, []);
      GotoSelfRunsForever(access, n - 1);
    }
  }
}
