// src/opcodes/memory.ts: the byte memory (a Uint8Array) and MLOAD, MSTORE,
// MSTORE8 and MSIZE. Memory grows in 32-byte chunks; a handler either writes
// into the array it was given or into a larger zero-filled copy, and returns
// the array the interpreter uses from then on.
module Memory {
  import opened JsBigInt
  import opened Bigint
  import opened BigEndian
  import opened Stacks
  import Bitwise

  // ---------------------------------------------------------------------
  // Specification on byte sequences
  // ---------------------------------------------------------------------

  /** `Math.ceil(n / 32) * 32`: the least multiple of 32 that is at least n. */
  function RoundUp32(n: nat): (r: nat)
    ensures r % 32 == 0
    ensures n <= r < n + 32
  {
    (n + 31) / 32 * 32
  }

  function Zeros(n: nat): (z: seq<Byte>)
    ensures |z| == n && forall i :: 0 <= i < n ==> z[i] == 0
  {
    seq(n, _ => 0)
  }

  /** The memory after expandMemory(s, offset, size): unchanged for size 0,
      otherwise grown with zero bytes to the next 32-byte boundary past
      offset + size when that is longer than s. */
  function Expanded(s: seq<Byte>, offset: nat, size: nat): (r: seq<Byte>)
    ensures size == 0 ==> r == s
    ensures size > 0 ==> |r| == if RoundUp32(offset + size) > |s| then RoundUp32(offset + size) else |s|
    ensures size > 0 ==> offset + size <= |r|
    ensures |r| >= |s| && r[..|s|] == s
    ensures forall i :: |s| <= i < |r| ==> r[i] == 0
    ensures |s| % 32 == 0 ==> |r| % 32 == 0
  {
    if size == 0 then s
    else
      var newSize := RoundUp32(offset + size);
      if newSize > |s| then s + Zeros(newSize - |s|) else s
  }

  /** s with the bytes from offset on replaced by `bytes`. */
  function Write(s: seq<Byte>, offset: nat, bytes: seq<Byte>): (r: seq<Byte>)
    requires offset + |bytes| <= |s|
    ensures |r| == |s|
    ensures forall i :: 0 <= i < |s| ==> r[i] == if offset <= i < offset + |bytes| then bytes[i - offset] else s[i]
  {
    s[..offset] + bytes + s[offset + |bytes|..]
  }

  /** The memory after MSTORE of v at offset. */
  function StoreWord(s: seq<Byte>, offset: nat, v: Word): (r: seq<Byte>)
  {
    Write(Expanded(s, offset, 32), offset, Encode(v, 32))
  }

  /** The memory after MSTORE8 of v at offset. */
  function StoreByte(s: seq<Byte>, offset: nat, v: Word): (r: seq<Byte>)
  {
    var e := Expanded(s, offset, 1);
    e[offset := v % 256]
  }

  /** The word MLOAD reads at offset of a memory that already covers it. */
  function Load(s: seq<Byte>, offset: nat): (v: Word)
    requires offset + 32 <= |s|
  {
    Pow2Words();
    Value(s[offset..offset + 32])
  }

  // ---------------------------------------------------------------------
  // The handlers
  // ---------------------------------------------------------------------

  /** expandMemory: returns `memory` itself when it is long enough (or when
      size is 0), otherwise a fresh zeroed array with `memory` copied in. */
  method ExpandMemory(memory: array<Byte>, offset: nat, size: nat) returns (m: array<Byte>)
    ensures m == memory || fresh(m)
    ensures size == 0 ==> m == memory
    ensures size > 0 && RoundUp32(offset + size) <= memory.Length ==> m == memory
    ensures size > 0 && RoundUp32(offset + size) > memory.Length ==> fresh(m)
    ensures m[..] == Expanded(memory[..], offset, size)
  {
    if size == 0 {
      return memory;
    }
    var needed := offset + size;
    var newSize := RoundUp32(needed);
    if newSize > memory.Length {
      var newMemory := new Byte[newSize](_ => 0);
      forall i | 0 <= i < memory.Length {
        newMemory[i] := memory[i];
      }
      assert newMemory[..] == Expanded(memory[..], offset, size);
      return newMemory;
    }
    return memory;
  }

  /** MSTORE: pops offset and value and writes the 32 big-endian bytes of
      value at offset. */
  method MStore(st: Stack, memory: array<Byte>) returns (m: array<Byte>)
    requires |st.items| >= 2
    modifies st, memory
    ensures m == memory || fresh(m)
    ensures RoundUp32(Peek(old(st.items), 0) + 32) <= memory.Length ==> m == memory
    ensures m != memory ==> memory[..] == old(memory[..])
    ensures st.items == old(st.items)[..|old(st.items)| - 2]
    ensures m[..] == StoreWord(old(memory[..]), Peek(old(st.items), 0), Peek(old(st.items), 1))
  {
    var offset := st.Pop();
    var value := st.Pop();
    m := ExpandMemory(memory, offset, 32);
    ghost var base := m[..];
    ghost var bytes := Encode(value, 32);
    for i := 0 to 32
      invariant st.items == old(st.items)[..|old(st.items)| - 2]
      invariant m != memory ==> memory[..] == old(memory[..])
      invariant forall j :: 0 <= j < m.Length ==> m[j] == if offset <= j < offset + i then bytes[j - offset] else base[j]
    {
      assert (31 - i) * 8 == 248 - i * 8;
      Bitwise.ByteOfWord(i, value);
      m[offset + i] := BitAnd(ShiftRight(value, (31 - i) * 8), 0xff);
    }
    assert m[..] == Write(base, offset, bytes);
  }

  /** MSTORE8: pops offset and value and writes the low byte of value at offset. */
  method MStore8(st: Stack, memory: array<Byte>) returns (m: array<Byte>)
    requires |st.items| >= 2
    modifies st, memory
    ensures m == memory || fresh(m)
    ensures RoundUp32(Peek(old(st.items), 0) + 1) <= memory.Length ==> m == memory
    ensures m != memory ==> memory[..] == old(memory[..])
    ensures st.items == old(st.items)[..|old(st.items)| - 2]
    ensures m[..] == StoreByte(old(memory[..]), Peek(old(st.items), 0), Peek(old(st.items), 1))
  {
    var offset := st.Pop();
    var value := st.Pop();
    m := ExpandMemory(memory, offset, 1);
    LowByte(value);
    m[offset] := BitAnd(value, 0xff);
  }

  lemma LowByte(v: nat)
    ensures BitAnd(v, 0xff) == v % 256
  {
    Pow2Words();
    BitAndLowMask(v, 8);
  }

  /** MLOAD: pops offset and pushes the 32-byte big-endian word at offset,
      after growing the memory to cover it. */
  method MLoad(st: Stack, memory: array<Byte>) returns (m: array<Byte>)
    requires |st.items| >= 1
    modifies st
    ensures m == memory || fresh(m)
    ensures RoundUp32(Peek(old(st.items), 0) + 32) <= memory.Length ==> m == memory
    ensures RoundUp32(Peek(old(st.items), 0) + 32) > memory.Length ==> fresh(m)
    ensures m[..] == Expanded(memory[..], Peek(old(st.items), 0), 32)
    ensures st.items == old(st.items)[..|old(st.items)| - 1] + [Load(m[..], Peek(old(st.items), 0))]
  {
    var offset := st.Pop();
    assert offset == Peek(old(st.items), 0);
    m := ExpandMemory(memory, offset, 32);
    ghost var contents := m[..];
    ghost var word := contents[offset..offset + 32];
    var value: nat := 0;
    for i := 0 to 32
      invariant value == Value(word[..i])
      invariant st.items == old(st.items)[..|old(st.items)| - 1]
      invariant m[..] == contents
    {
      AccumulatePrefix(word, i, value);
      value := BitOr(ShiftLeft(value, 8), m[offset + i]);
    }
    assert word[..32] == word;
    Pow2Words();
    st.Push(value);
  }

  /** MSIZE: pushes the length of the memory in bytes. */
  method MSize(st: Stack, memory: array<Byte>)
    requires memory.Length < TWO_256
    modifies st
    ensures st.items == old(st.items) + [memory.Length]
  {
    st.Push(memory.Length);
  }

  // ---------------------------------------------------------------------
  // Properties
  // ---------------------------------------------------------------------

  /** MLOAD at the offset of an MSTORE reads the stored word back, and needs no
      further growth. */
  lemma LoadAfterStore(s: seq<Byte>, offset: nat, v: Word)
    ensures offset + 32 <= |StoreWord(s, offset, v)|
    ensures Expanded(StoreWord(s, offset, v), offset, 32) == StoreWord(s, offset, v)
    ensures Load(StoreWord(s, offset, v), offset) == v
  {
    var s1 := StoreWord(s, offset, v);
    assert s1[offset..offset + 32] == Encode(v, 32);
    Pow2Words();
    ValueOfEncode(v, 32);
  }

  /** MSTORE changes only the 32 bytes at offset; every other byte of the grown
      memory keeps its value. */
  lemma StoreWordFrame(s: seq<Byte>, offset: nat, v: Word, j: nat)
    requires j < |StoreWord(s, offset, v)|
    requires j < offset || offset + 32 <= j
    ensures StoreWord(s, offset, v)[j] == if j < |s| then s[j] else 0
  {
    var e := Expanded(s, offset, 32);
    if j < |s| {
      assert e[..|s|][j] == s[j];
    }
  }

  /** MSTORE8 sets byte offset to v mod 256 and keeps every other byte. */
  lemma StoreByteFrame(s: seq<Byte>, offset: nat, v: Word, j: nat)
    requires j < |StoreByte(s, offset, v)|
    ensures StoreByte(s, offset, v)[j] == if j == offset then v % 256 else if j < |s| then s[j] else 0
  {
    var e := Expanded(s, offset, 1);
    if j < |s| {
      assert e[..|s|][j] == s[j];
    }
  }

  /** Growing memory that already covers a region leaves it as it is. */
  lemma ExpandedCovered(s: seq<Byte>, offset: nat, size: nat)
    requires |s| % 32 == 0 && offset + size <= |s|
    ensures Expanded(s, offset, size) == s
  {
  }

  /** On empty memory, MSTORE at 64 makes MSIZE 96, whatever word is stored. */
  lemma StoreAt64(v: Word)
    ensures |StoreWord([], 64, v)| == 96
  {
    assert RoundUp32(96) == 96;
  }
}
