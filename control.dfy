// src/opcodes/control.ts: PC, GAS, JUMPDEST and the scan for valid jump
// destinations.
module Control {
  import opened JsBigInt
  import opened Bigint
  import opened BigEndian
  import opened Stacks

  /** PC: pushes the program counter it is given. */
  method Pc(st: Stack, currentPc: nat)
    requires currentPc < TWO_256
    modifies st
    ensures st.items == old(st.items) + [currentPc]
  {
    st.Push(currentPc);
  }

  /** GAS: pushes MAX_UINT256 - 1 in place of a gas counter. */
  method Gas(st: Stack)
    modifies st
    ensures st.items == old(st.items) + [TWO_256 - 1]
  {
    st.Push(MAX_UINT256 - 1);
  }

  /** JUMPDEST: a marker that does nothing. It is given the interpreter's
      stack and memory only to state that it leaves both as they were. */
  method JumpDest(st: Stack, memory: array<Byte>)
    ensures st.items == old(st.items)
    ensures memory[..] == old(memory[..])
  {
  }

  // ---------------------------------------------------------------------
  // Jump destinations
  // ---------------------------------------------------------------------

  predicate IsPush(op: Byte)
  {
    0x60 <= op <= 0x7f
  }

  /** Where the instruction at i ends: after its immediate bytes for PUSHn,
      after the opcode byte otherwise. */
  function Next(code: seq<Byte>, i: nat): (j: nat)
    requires i < |code|
    ensures j > i
    ensures IsPush(code[i]) ==> j == i + (code[i] - 0x5f) + 1
    ensures !IsPush(code[i]) ==> j == i + 1
  {
    if IsPush(code[i]) then i + (code[i] - 0x5f) + 1 else i + 1
  }

  /** The offsets at which an instruction starts when decoding begins at i. */
  function Boundaries(code: seq<Byte>, i: nat): (b: set<nat>)
    ensures forall j :: j in b ==> i <= j < |code|
    decreases |code| - i
  {
    if i >= |code| then {} else {i} + Boundaries(code, Next(code, i))
  }

  /** The JUMPDEST bytes among the instruction starts from i on. */
  function DestsFrom(code: seq<Byte>, i: nat): set<nat>
  {
    set j | j in Boundaries(code, i) && j < |code| && code[j] == 0x5b
  }

  /** The valid jump destinations of the code: each instruction start that
      holds JUMPDEST. */
  function JumpDests(code: seq<Byte>): (d: set<nat>)
    ensures forall j :: j in d ==> j < |code| && code[j] == 0x5b
  {
    DestsFrom(code, 0)
  }

  lemma DestsStep(code: seq<Byte>, i: nat)
    requires i < |code|
    ensures DestsFrom(code, i) == (if code[i] == 0x5b then {i} else {}) + DestsFrom(code, Next(code, i))
  {
  }

  /** findValidJumpDests: one scan over the code that records each JUMPDEST
      and steps over PUSH immediates. */
  method FindValidJumpDests(code: seq<Byte>) returns (valid: set<nat>)
    ensures valid == JumpDests(code)
  {
    valid := {};
    var i := 0;
    while i < |code|
      invariant valid + DestsFrom(code, i) == DestsFrom(code, 0)
      invariant forall j :: j in valid ==> j < i
      decreases |code| - i
    {
      var opcode := code[i];
      DestsStep(code, i);
      if opcode == 0x5b {
        valid := valid + {i};
      }
      if 0x60 <= opcode <= 0x7f {
        i := i + (opcode - 0x5f);
      }
      i := i + 1;
    }
  }

  /** The bytes of a PUSH immediate are never instruction starts. */
  lemma {:induction false} PushDataNotBoundary(code: seq<Byte>, i: nat, b: nat, k: nat)
    requires b in Boundaries(code, i) && IsPush(code[b])
    requires b < k < Next(code, b)
    ensures k !in Boundaries(code, i)
    decreases |code| - i
  {
    if i < |code| && b != i {
      PushDataNotBoundary(code, Next(code, i), b, k);
    }
  }

  /** No offset inside a PUSH immediate is a jump destination, even a 0x5b. */
  lemma PushDataNotDest(code: seq<Byte>, b: nat, k: nat)
    requires b in Boundaries(code, 0) && IsPush(code[b])
    requires b < k <= b + (code[b] - 0x5f)
    ensures k !in JumpDests(code)
  {
    PushDataNotBoundary(code, 0, b, k);
  }

  /** Without PUSH opcodes every offset starts an instruction. */
  lemma {:induction false} PushFreeBoundaries(code: seq<Byte>, i: nat)
    requires forall j :: 0 <= j < |code| ==> !IsPush(code[j])
    ensures forall j: nat :: j in Boundaries(code, i) <==> i <= j < |code|
    decreases |code| - i
  {
    if i < |code| {
      PushFreeBoundaries(code, i + 1);
    }
  }

  /** For code without PUSH opcodes the scan finds every 0x5b byte. */
  lemma PushFreeDests(code: seq<Byte>)
    requires forall j :: 0 <= j < |code| ==> !IsPush(code[j])
    ensures forall j: nat :: j in JumpDests(code) <==> j < |code| && code[j] == 0x5b
  {
    PushFreeBoundaries(code, 0);
  }

  /** PUSH1 0x5b JUMPDEST: only the second 0x5b is a destination. */
  lemma DestsExample()
    ensures JumpDests([0x60, 0x5b, 0x5b]) == {2}
  {
    var code: seq<Byte> := [0x60, 0x5b, 0x5b];
    assert Boundaries(code, 3) == {};
    assert Boundaries(code, 2) == {2};
    assert Boundaries(code, 0) == {0, 2};
  }
}
