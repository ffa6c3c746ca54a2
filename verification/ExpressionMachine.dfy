/** `expression::execute` as a loop over a program counter and a stack. */
module ExpressionMachine {
  import opened Words
  import opened Expression
  import ExpressionTheorems

  method PopStack(stack: seq<Word>) returns (ok: bool, top: Word, rest: seq<Word>)
    ensures ok <==> stack != []
    ensures ok ==> stack == rest + [top]
  {
    if stack == [] {
      return false, 0, [];
    }
    return true, stack[|stack| - 1], stack[..|stack| - 1];
  }

  /** The body of the loop. */
  method Iterate(access: Access, code: seq<Byte>, at: nat, start: seq<Word>) returns (o: Outcome)
    ensures o == Step(access, code, at, start)
  {
    hide ApplyUnary, ApplyBinary, Immediate;
    var pc, stack := at, start;
    if pc >= |code| {
      return Failed(BytecodeOutOfBound);
    }
    var operation := Decode(code[pc]);
    match operation {
      case Binary(op) =>
        var ok, b, a;
        ok, b, stack := PopStack(stack);
        if !ok { return Failed(StackOutOfBound); }
        ok, a, stack := PopStack(stack);
        if !ok { return Failed(StackOutOfBound); }
        var result := ApplyBinary(op, a, b);
        if result.Stops? { return result.outcome; }
        stack := stack + [result.word];
        pc := pc + 1;
      case Plain(op) =>
        var ok, a;
        ok, a, stack := PopStack(stack);
        if !ok { return Failed(StackOutOfBound); }
        var result := ApplyUnary(access, op, a);
        if result.Stops? { return result.outcome; }
        stack := stack + [result.word];
        pc := pc + 1;
      case Sized(signed) =>
        if pc + 1 >= |code| { return Failed(BytecodeOutOfBound); }
        var ok, a;
        ok, a, stack := PopStack(stack);
        if !ok { return Failed(StackOutOfBound); }
        var result := ApplyUnary(access, if signed then Ext(code[pc + 1]) else ZeroExt(code[pc + 1]), a);
        if result.Stops? { return result.outcome; }
        stack := stack + [result.word];
        pc := pc + 2;
      case Pick =>
        if pc + 1 >= |code| { return Failed(BytecodeOutOfBound); }
        if code[pc + 1] >= |stack| { return Failed(StackOutOfBound); }
        stack := stack + [stack[|stack| - code[pc + 1] - 1]];
        pc := pc + 2;
      case Goto =>
        if pc + 2 >= |code| { return Failed(BytecodeOutOfBound); }
        pc := Immediate(code, pc + 1, 2);
      case Const(width) =>
        if pc + width >= |code| { return Failed(BytecodeOutOfBound); }
        stack := stack + [Immediate(code, pc + 1, width)];
        pc := pc + 1 + width;
      case Reg =>
        if pc + 2 >= |code| { return Failed(BytecodeOutOfBound); }
        var w := access.register(Immediate(code, pc + 1, 2));
        if w.None? { return Failed(RegisterAccessError); }
        stack := stack + [w.value];
        pc := pc + 3;
      case Other =>
        return Failed(UnsupportedBytecode);
      case _ =>
        o := Rearrange(code, pc, stack, operation);
        assert o == Step(access, code, at, start);
        return;
    }
    return Running(pc, stack);
  }

  /** The instructions that only move stack elements, jump on one, or end. */
  method Rearrange(code: seq<Byte>, at: nat, start: seq<Word>, operation: Operation) returns (o: Outcome)
    requires at < |code| && operation == Decode(code[at])
    requires operation in {Dup, Swap, Pop, Rot, IfGoto, End}
    ensures forall access: Access :: o == Step(access, code, at, start)
  {
    hide ApplyUnary, ApplyBinary, Immediate, Decode;
    var pc, stack := at, start;
    var ok, a, b, c;
    ok, a, stack := PopStack(stack);
    if !ok { return Failed(StackOutOfBound); }
    match operation {
      case Dup =>
        stack := stack + [a];
        stack := stack + [a];
      case Pop =>
      case IfGoto =>
        if a == 0 { return Running(pc + 3, stack); }
        if pc + 2 >= |code| { return Failed(BytecodeOutOfBound); }
        return Running(Immediate(code, pc + 1, 2), stack);
      case End =>
        if stack == [] { return Done(a, None); }
        ok, b, stack := PopStack(stack);
        return Done(a, Some(b));
      case Swap =>
        ok, b, stack := PopStack(stack);
        if !ok { return Failed(StackOutOfBound); }
        stack := stack + [a];
        stack := stack + [b];
      case Rot =>
        c := a;
        ok, b, stack := PopStack(stack);
        if !ok { return Failed(StackOutOfBound); }
        ok, a, stack := PopStack(stack);
        if !ok { return Failed(StackOutOfBound); }
        stack := stack + [c];
        stack := stack + [a];
        stack := stack + [b];
    }
    return Running(pc + 1, stack);
  }

  /** The source loops until the expression ends; `limit` bounds the number of iterations, and a run that
      has not ended by then is reported as still `Running`. */
  method Execute(access: Access, code: seq<Byte>, limit: nat) returns (o: Outcome)
    ensures o == Run(access, code, limit, Running(0, []))
  {
    hide Step;
    var pc: nat, stack := 0, [];
    for i := 0 to limit
      invariant Run(access, code, limit, Running(0, [])) == Run(access, code, limit - i, Running(pc, stack))
    {
      o := Iterate(access, code, pc, stack);
      if !o.Running? {
        ExpressionTheorems.RunStopped(access, code, limit - i - 1, o);
        return;
      }
      pc, stack := o.pc, o.stack;
    }
    return Running(pc, stack);
  }
}
