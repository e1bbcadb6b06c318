// src/opcodes/stack.ts: PUSH0, PUSH1..PUSH32 and POP.
module StackOps {
  import opened JsBigInt
  import opened Bigint
  import opened BigEndian
  import opened Stacks

  /** PUSH0 (0x5f): pushes the word 0. */
  method Push0(st: Stack)
    modifies st
    ensures st.items == old(st.items) + [0]
  {
    st.Push(0);
  }

  /** PUSH1..PUSH32: pushes the big-endian value of the n code bytes at pc and
      returns the pc after them. A byte past the end of the code reads as
      `undefined`, and BigInt(undefined) throws, so the bytes must exist. */
  method PushN(st: Stack, code: seq<Byte>, pc: nat, n: nat) returns (newPc: nat)
    requires pc + n <= |code|
    requires n <= 32
    modifies st
    ensures newPc == pc + n
    ensures st.items == old(st.items) + [Value(code[pc..pc + n])]
  {
    ghost var imm := code[pc..pc + n];
    var value: nat := 0;
    for i := 0 to n
      invariant value == Value(imm[..i])
      invariant st.items == old(st.items)
    {
      AccumulatePrefix(imm, i, value);
      value := BitOr(ShiftLeft(value, 8), code[pc + i]);
    }
    assert imm[..n] == imm;
    PushedValueBound(code, pc, n);
    st.Push(value);
    return pc + n;
  }

  /** POP (0x50): removes the top word. */
  method Pop(st: Stack)
    requires |st.items| >= 1
    modifies st
    ensures st.items == old(st.items)[..|old(st.items)| - 1]
  {
    var _ := st.Pop();
  }

  /** The pushed immediate is below 256^n, so PUSHn never pushes more than n
      bytes' worth, and for n <= 32 it is a word. */
  lemma PushedValueBound(code: seq<Byte>, pc: nat, n: nat)
    requires pc + n <= |code|
    ensures Value(code[pc..pc + n]) < Pow2(8 * n)
    ensures n <= 32 ==> Value(code[pc..pc + n]) < TWO_256
  {
    assert |code[pc..pc + n]| == n;
    if n <= 32 {
      Pow2Words();
      Pow2Monotone(8 * n, 256);
    }
  }

  /** PUSH1 pushes the single immediate byte itself. */
  lemma Push1Value(code: seq<Byte>, pc: nat)
    requires pc + 1 <= |code|
    ensures Value(code[pc..pc + 1]) == code[pc]
  {
    assert code[pc..pc + 1][..0] == [];
  }

  /** The immediate read by PUSHn round-trips through the n-byte encoding. */
  lemma PushedValueEncodes(code: seq<Byte>, pc: nat, n: nat)
    requires pc + n <= |code|
    ensures Encode(Value(code[pc..pc + n]), n) == code[pc..pc + n]
  {
    EncodeOfValue(code[pc..pc + n]);
  }
}
