// src/evm.ts: the interpreter loop. STOP and PUSH1..PUSH32 are handled in
// the loop itself; any other byte with a table entry runs its handler after
// a stack-depth check; every other byte is skipped.
module Evm {
  import opened JsBigInt
  import opened Bigint
  import opened BigEndian
  import opened Stacks
  import opened Registry
  import StackOps
  import opened Control

  /** `{ success, stack }`, the stack listed top first. */
  datatype ExecResult = ExecResult(success: bool, stack: seq<Word>)

  /** What a call of evm does: return a result, or throw. It throws when a
      PUSHn runs past the end of the code, because the missing byte reads as
      `undefined` and `BigInt(undefined)` throws. */
  datatype Outcome = Returned(result: ExecResult) | Threw

  /** What one instruction does: end the run, or continue at a later pc with
      a new internal stack. */
  datatype Step = Halt(outcome: Outcome) | Continue(pc: nat, stack: seq<Word>)

  /** One iteration of the loop at pc. An instruction moves pc forward,
      stays inside the code and adds at most one word per byte it occupies;
      a failure carries an empty stack; it throws exactly at a PUSHn whose
      immediate is cut off. */
  function StepAt(code: seq<Byte>, pc: nat, stack: seq<Word>): (r: Step)
    requires pc < |code|
    ensures r.Continue? ==> pc < r.pc <= |code| && |r.stack| <= |stack| + (r.pc - pc)
    ensures r.Halt? && r.outcome.Returned? && !r.outcome.result.success ==> r.outcome.result.stack == []
    ensures r == Halt(Threw) <==> TruncatedPush(code, pc)
  {
    var opcode := code[pc];
    if opcode == 0x00 then Halt(Returned(ExecResult(true, Reversed(stack))))
    else if IsPush(opcode) then
      var n := opcode - 0x5f;
      if pc + 1 + n > |code| then Halt(Threw)
      else
        StackOps.PushedValueBound(code, pc + 1, n);
        Continue(pc + 1 + n, stack + [Value(code[pc + 1..pc + 1 + n])])
    else
      match Handlers(opcode)
      case Some(entry) =>
        if |stack| < entry.minStack then Halt(Returned(ExecResult(false, [])))
        else
          Continue(pc + 1, Apply(entry.fn, stack))
      case None => Continue(pc + 1, stack)
  }

  /** A PUSHn at p whose immediate runs past the end of the code. */
  predicate TruncatedPush(code: seq<Byte>, p: nat)
    requires p < |code|
  {
    IsPush(code[p]) && p + 1 + (code[p] - 0x5f) > |code|
  }

  /** The outcome of running the code from pc with the given internal stack
      (top last); running off the end of the code succeeds like STOP. A run
      throws only when it reaches a PUSHn whose immediate is cut off. */
  function Run(code: seq<Byte>, pc: nat, stack: seq<Word>): (r: Outcome)
    ensures r == Threw ==> exists p :: pc <= p < |code| && TruncatedPush(code, p)
    decreases |code| - pc
  {
    if pc >= |code| then Returned(ExecResult(true, Reversed(stack)))
    else
      match StepAt(code, pc, stack)
      case Halt(outcome) => outcome
      case Continue(next, after) => Run(code, next, after)
  }

  /** evm: runs the code from pc 0 on an empty stack. */
  method Evm(code: seq<Byte>) returns (out: Outcome)
    ensures out == Run(code, 0, [])
  {
    var stack := new Stack();
    var pc := 0;
    while pc < |code|
      invariant Run(code, pc, stack.items) == Run(code, 0, [])
      decreases |code| - pc
    {
      var halted, outcome, next := ExecuteStep(code, pc, stack);
      if halted {
        return outcome;
      }
      pc := next;
    }
    stack.Reverse();
    return Returned(ExecResult(true, stack.items));
  }

  /** One iteration of the loop body: decodes the opcode at pc and either
      finishes the run with `outcome` or leaves the stack updated and returns
      the pc of the next instruction. */
  method ExecuteStep(code: seq<Byte>, pc: nat, stack: Stack) returns (halted: bool, outcome: Outcome, next: nat)
    requires pc < |code|
    modifies stack
    ensures halted ==> StepAt(code, pc, old(stack.items)) == Halt(outcome)
    ensures !halted ==> StepAt(code, pc, old(stack.items)) == Continue(next, stack.items)
  {
    var opcode := code[pc];
    next := pc + 1;
    outcome := Threw;

    if opcode == 0x00 {
      stack.Reverse();
      return true, Returned(ExecResult(true, stack.items)), next;
    }

    if 0x60 <= opcode <= 0x7f {
      var n := opcode - 0x5f;
      if next + n > |code| {
        return true, Threw, next;
      }
      next := StackOps.PushN(stack, code, next, n);
      return false, outcome, next;
    }

    var handler := Handlers(opcode);
    if handler.Some? {
      if |stack.items| < handler.value.minStack {
        return true, Returned(ExecResult(false, [])), next;
      }
      Invoke(handler.value.fn, stack);
    }
    return false, outcome, next;
  }

  // ---------------------------------------------------------------------
  // Properties of a run
  // ---------------------------------------------------------------------

  /** Every failed run returns an empty stack. */
  lemma {:induction false} FailureHasEmptyStack(code: seq<Byte>, pc: nat, stack: seq<Word>)
    requires Run(code, pc, stack).Returned? && !Run(code, pc, stack).result.success
    ensures Run(code, pc, stack).result.stack == []
    decreases |code| - pc
  {
    if pc < |code| {
      var step := StepAt(code, pc, stack);
      if step.Continue? {
        FailureHasEmptyStack(code, step.pc, step.stack);
      }
    }
  }

  /** A run returns at most one word per remaining code byte on top of the
      stack it started with. */
  lemma {:induction false} StackBound(code: seq<Byte>, pc: nat, stack: seq<Word>)
    requires pc <= |code| && Run(code, pc, stack).Returned?
    ensures |Run(code, pc, stack).result.stack| <= |stack| + (|code| - pc)
    decreases |code| - pc
  {
    if pc < |code| {
      var step := StepAt(code, pc, stack);
      if step.Continue? {
        StackBound(code, step.pc, step.stack);
      }
    }
  }

  /** STOP returns success and the stack listed top first. */
  lemma StopReturns(code: seq<Byte>, pc: nat, stack: seq<Word>)
    requires pc < |code| && code[pc] == 0x00
    ensures Run(code, pc, stack) == Returned(ExecResult(true, Reversed(stack)))
  {
  }

  /** Running off the end of the code returns success just like STOP. */
  lemma EndReturns(code: seq<Byte>, pc: nat, stack: seq<Word>)
    requires pc >= |code|
    ensures Run(code, pc, stack) == Returned(ExecResult(true, Reversed(stack)))
  {
  }

  /** PUSHn advances past its n immediate bytes and pushes one word. */
  lemma PushStep(code: seq<Byte>, pc: nat, stack: seq<Word>)
    requires pc < |code| && IsPush(code[pc]) && pc + 1 + (code[pc] - 0x5f) <= |code|
    ensures Value(code[pc + 1..pc + 1 + (code[pc] - 0x5f)]) < TWO_256
    ensures Run(code, pc, stack) ==
            Run(code, pc + 1 + (code[pc] - 0x5f), stack + [Value(code[pc + 1..pc + 1 + (code[pc] - 0x5f)])])
  {
    var n := code[pc] - 0x5f;
    StackOps.PushedValueBound(code, pc + 1, n);
    assert StepAt(code, pc, stack) == Continue(pc + 1 + n, stack + [Value(code[pc + 1..pc + 1 + n])]);
  }

  /** PUSH1 pushes its one immediate byte. */
  lemma Push1Step(code: seq<Byte>, pc: nat, stack: seq<Word>, after: seq<Word>)
    requires pc + 2 <= |code| && code[pc] == 0x60
    requires after == stack + [code[pc + 1]]
    ensures Run(code, pc, stack) == Run(code, pc + 2, after)
  {
    PushStep(code, pc, stack);
    StackOps.Push1Value(code, pc + 1);
  }

  /** A byte with a table entry and enough words on the stack runs its handler. */
  lemma HandlerStep(code: seq<Byte>, pc: nat, stack: seq<Word>)
    requires pc < |code| && code[pc] != 0x00 && !IsPush(code[pc])
    requires Handlers(code[pc]).Some? && |stack| >= Handlers(code[pc]).value.minStack
    ensures |stack| >= Pops(Handlers(code[pc]).value.fn)
    ensures Run(code, pc, stack) == Run(code, pc + 1, Apply(Handlers(code[pc]).value.fn, stack))
  {
  }

  /** A byte that is not STOP, not PUSHn and not in the table is skipped. */
  lemma UnknownSkipped(code: seq<Byte>, pc: nat, stack: seq<Word>)
    requires pc < |code| && code[pc] != 0x00 && !IsPush(code[pc]) && Handlers(code[pc]).None?
    ensures Run(code, pc, stack) == Run(code, pc + 1, stack)
  {
  }

  /** A handler with too few words on the stack ends the run with failure. */
  lemma Underflow(code: seq<Byte>, pc: nat, stack: seq<Word>)
    requires pc < |code| && Handlers(code[pc]).Some? && |stack| < Handlers(code[pc]).value.minStack
    ensures Run(code, pc, stack) == Returned(ExecResult(false, []))
  {
  }

  // ---------------------------------------------------------------------
  // Sample programs
  // ---------------------------------------------------------------------

  /** STOP at pc 0 returns success and an empty stack. */
  lemma StopAtStart(code: seq<Byte>)
    requires |code| > 0 && code[0] == 0x00
    ensures Run(code, 0, []) == Returned(ExecResult(true, []))
  {
  }

  /** PUSH1 x, PUSH1 y, then a two-operand handler, then STOP: the handler
      sees y on top of x and its result is the one word returned. */
  lemma BinaryProgram(code: seq<Byte>, x: Byte, y: Byte, op: Byte)
    requires code == [0x60, x, 0x60, y, op, 0x00]
    requires op != 0x00 && !IsPush(op) && Handlers(op).Some? && Handlers(op).value.minStack == 2
    ensures Run(code, 0, []) == Returned(ExecResult(true, Reversed(Apply(Handlers(op).value.fn, [x, y]))))
  {
    var after := Apply(Handlers(op).value.fn, [x, y]);
    assert Run(code, 0, []) == Run(code, 4, [x, y]) by {
      Push1Step(code, 0, [], [x]);
      Push1Step(code, 2, [x], [x, y]);
    }
    assert Run(code, 4, [x, y]) == Run(code, 5, after) by {
      HandlerStep(code, 4, [x, y]);
    }
    StopReturns(code, 5, after);
  }

  /** PUSH1 1, PUSH1 2, ADD, STOP returns [3]. */
  lemma AddProgram(code: seq<Byte>)
    requires code == [0x60, 0x01, 0x60, 0x02, 0x01, 0x00]
    ensures Run(code, 0, []) == Returned(ExecResult(true, [3]))
  {
    BinaryProgram(code, 1, 2, 0x01);
    assert Apply(Registry.Add, [1, 2]) == [3];
    assert Reversed([3]) == [3];
  }

  /** PUSH1 0, PUSH1 0, DIV, STOP returns [0]: division by zero gives 0. */
  lemma DivByZeroProgram(code: seq<Byte>)
    requires code == [0x60, 0x00, 0x60, 0x00, 0x04, 0x00]
    ensures Run(code, 0, []) == Returned(ExecResult(true, [0]))
  {
    BinaryProgram(code, 0, 0, 0x04);
    assert Apply(Registry.Div, [0, 0]) == [0];
    assert Reversed([0]) == [0];
  }

  /** ADD on an empty stack fails. */
  lemma UnderflowProgram()
    ensures Run([0x01], 0, []) == Returned(ExecResult(false, []))
  {
  }

  /** PUSH2 with a single immediate byte throws. */
  lemma TruncatedPushProgram()
    ensures Run([0x61, 0x01], 0, []) == Threw
  {
  }

  /** NOT (0x19) has no table entry, so PUSH1 5, NOT leaves 5 in place. */
  lemma NotIsSkipped(code: seq<Byte>)
    requires code == [0x60, 0x05, 0x19]
    ensures Run(code, 0, []) == Returned(ExecResult(true, [5]))
  {
    Push1Step(code, 0, [], [5]);
    UnknownSkipped(code, 2, [5]);
    EndReturns(code, 3, [5]);
    assert Reversed([5]) == [5];
  }
}
