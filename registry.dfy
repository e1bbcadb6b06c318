// src/opcodes/index.ts: the table from opcode byte to handler and the least
// stack depth the interpreter checks before calling it. Only the stack,
// arithmetic and comparison handlers are in the table.
module Registry {
  import opened Bigint
  import opened BigEndian
  import opened Stacks
  import StackOps
  import Arithmetic
  import Comparison

  datatype Option<T> = None | Some(value: T)

  /** The handler functions the table refers to. */
  datatype Handler =
    | Pop | Push0
    | Add | Mul | Sub | Div | SDiv | Mod | SMod | AddMod | MulMod | Exp | SignExtend
    | Lt | Gt | Slt | Sgt | Eq | IsZero

  /** An entry of the table: `{ fn, minStack }`. */
  datatype Entry = Entry(fn: Handler, minStack: nat)

  /** The opcodes with an entry: POP, PUSH0, 0x01..0x0b and 0x10..0x15. */
  predicate Registered(op: Byte)
  {
    op == 0x50 || op == 0x5f || 0x01 <= op <= 0x0b || 0x10 <= op <= 0x15
  }

  /** The `handlers` record. It has an entry exactly for the nineteen
      registered opcodes, so STOP, PUSH1..PUSH32, the bitwise, memory, SHA3
      and control opcodes have none; and the minStack of every entry is the
      number of words its handler pops, so the depth check makes every pop of
      the handler find a word. */
  function Handlers(op: Byte): (r: Option<Entry>)
    ensures r.Some? <==> Registered(op)
    ensures r.Some? ==> r.value.minStack == Pops(r.value.fn)
  {
    match op
    case 0x50 => Some(Entry(Pop, 1))
    case 0x5f => Some(Entry(Push0, 0))
    case 0x01 => Some(Entry(Add, 2))
    case 0x02 => Some(Entry(Mul, 2))
    case 0x03 => Some(Entry(Sub, 2))
    case 0x04 => Some(Entry(Div, 2))
    case 0x05 => Some(Entry(SDiv, 2))
    case 0x06 => Some(Entry(Mod, 2))
    case 0x07 => Some(Entry(SMod, 2))
    case 0x08 => Some(Entry(AddMod, 3))
    case 0x09 => Some(Entry(MulMod, 3))
    case 0x0a => Some(Entry(Exp, 2))
    case 0x0b => Some(Entry(SignExtend, 2))
    case 0x10 => Some(Entry(Lt, 2))
    case 0x11 => Some(Entry(Gt, 2))
    case 0x12 => Some(Entry(Slt, 2))
    case 0x13 => Some(Entry(Sgt, 2))
    case 0x14 => Some(Entry(Eq, 2))
    case 0x15 => Some(Entry(IsZero, 1))
    case _ => None
  }

  /** How many words a handler pops. */
  function Pops(h: Handler): nat
  {
    match h
    case Push0 => 0
    case Pop | IsZero => 1
    case AddMod | MulMod => 3
    case _ => 2
  }

  /** How many words a handler pushes. */
  function Pushes(h: Handler): nat
  {
    if h == Pop then 0 else 1
  }

  /** The stack a handler leaves behind. It keeps every word below its
      operands and replaces the operands by its results. */
  function Apply(h: Handler, s: seq<Word>): (r: seq<Word>)
    requires |s| >= Pops(h)
    ensures |r| == |s| - Pops(h) + Pushes(h)
    ensures r[..|s| - Pops(h)] == s[..|s| - Pops(h)]
  {
    match h
    case Pop => s[..|s| - 1]
    case Push0 => s + [0]
    case Add => Binary(s, Arithmetic.Add)
    case Mul => Binary(s, Arithmetic.Mul)
    case Sub => Binary(s, Arithmetic.Sub)
    case Div => Binary(s, Arithmetic.Div)
    case SDiv => Binary(s, Arithmetic.SDiv)
    case Mod => Binary(s, Arithmetic.Mod)
    case SMod => Binary(s, Arithmetic.SMod)
    case AddMod => Ternary(s, Arithmetic.AddMod)
    case MulMod => Ternary(s, Arithmetic.MulMod)
    case Exp => Binary(s, Arithmetic.Exp)
    case SignExtend => Binary(s, Arithmetic.SignExtend)
    case Lt => Binary(s, Comparison.Lt)
    case Gt => Binary(s, Comparison.Gt)
    case Slt => Binary(s, Comparison.Slt)
    case Sgt => Binary(s, Comparison.Sgt)
    case Eq => Binary(s, Comparison.Eq)
    case IsZero => Unary(s, Comparison.IsZero)
  }

  /** `handler.fn(stack)`: runs the handler on the shared stack. */
  method Invoke(h: Handler, st: Stack)
    requires |st.items| >= Pops(h)
    modifies st
    ensures st.items == Apply(h, old(st.items))
  {
    match h
    case Pop => StackOps.Pop(st);
    case Push0 => StackOps.Push0(st);
    case Add => Arithmetic.AddOp(st);
    case Mul => Arithmetic.MulOp(st);
    case Sub => Arithmetic.SubOp(st);
    case Div => Arithmetic.DivOp(st);
    case SDiv => Arithmetic.SDivOp(st);
    case Mod => Arithmetic.ModOp(st);
    case SMod => Arithmetic.SModOp(st);
    case AddMod => Arithmetic.AddModOp(st);
    case MulMod => Arithmetic.MulModOp(st);
    case Exp => Arithmetic.ExpOp(st);
    case SignExtend => Arithmetic.SignExtendOp(st);
    case Lt => Comparison.LtOp(st);
    case Gt => Comparison.GtOp(st);
    case Slt => Comparison.SltOp(st);
    case Sgt => Comparison.SgtOp(st);
    case Eq => Comparison.EqOp(st);
    case IsZero => Comparison.IsZeroOp(st);
  }

  // ---------------------------------------------------------------------
  // Properties of the table
  // ---------------------------------------------------------------------

  /** minStack is 3 for ADDMOD and MULMOD, 1 for POP and ISZERO, 0 for PUSH0
      and 2 for the others. */
  lemma MinStackValues(op: Byte)
    requires Handlers(op).Some?
    ensures Handlers(op).value.minStack ==
      if op == 0x08 || op == 0x09 then 3
      else if op == 0x50 || op == 0x15 then 1
      else if op == 0x5f then 0
      else 2
  {
  }

  /** After a handler runs, the depth is old - minStack + 1, except for POP,
      which leaves old - 1. */
  lemma DepthAfterHandler(op: Byte, s: seq<Word>)
    requires Handlers(op).Some? && |s| >= Handlers(op).value.minStack
    ensures |Apply(Handlers(op).value.fn, s)| ==
      if op == 0x50 then |s| - 1 else |s| - Handlers(op).value.minStack + 1
  {
  }
}
