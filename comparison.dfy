// src/opcodes/comparison.ts: LT, GT, SLT, SGT, EQ and ISZERO. Each pushes
// the word 1 when its relation holds and 0 otherwise.
module Comparison {
  import opened JsBigInt
  import opened Bigint
  import opened Stacks

  /** The word a comparison pushes for a truth value. */
  function Flag(b: bool): (r: Word)
    ensures r <= 1 && (r == 1 <==> b)
  {
    if b then 1 else 0
  }

  /** LT: a below b, unsigned. */
  function Lt(a: Word, b: Word): (r: Word)
    ensures r <= 1 && (r == 1 <==> a < b)
  {
    Flag(a < b)
  }

  /** GT: a above b, unsigned. */
  function Gt(a: Word, b: Word): (r: Word)
    ensures r <= 1 && (r == 1 <==> a > b)
  {
    Flag(a > b)
  }

  /** SLT: a below b, both read as two's-complement signed words. */
  function Slt(a: Word, b: Word): (r: Word)
    ensures r <= 1 && (r == 1 <==> ToSigned(a) < ToSigned(b))
  {
    Flag(ToSigned(a) < ToSigned(b))
  }

  /** SGT: a above b, both read as signed words. */
  function Sgt(a: Word, b: Word): (r: Word)
    ensures r <= 1 && (r == 1 <==> ToSigned(a) > ToSigned(b))
  {
    Flag(ToSigned(a) > ToSigned(b))
  }

  /** EQ: the two words are equal. */
  function Eq(a: Word, b: Word): (r: Word)
    ensures r <= 1 && (r == 1 <==> a == b)
  {
    Flag(a == b)
  }

  /** ISZERO: the word is 0. */
  function IsZero(a: Word): (r: Word)
    ensures r <= 1 && (r == 1 <==> a == 0)
  {
    Flag(a == 0)
  }

  // ---------------------------------------------------------------------
  // Properties
  // ---------------------------------------------------------------------

  /** For any two words exactly one of LT, EQ and GT holds. */
  lemma Trichotomy(a: Word, b: Word)
    ensures Lt(a, b) + Eq(a, b) + Gt(a, b) == 1
    ensures Slt(a, b) + Eq(a, b) + Sgt(a, b) == 1
  {
    UnsignedOfSigned(a);
    UnsignedOfSigned(b);
  }

  /** GT and SGT are LT and SLT with the operands swapped. */
  lemma Swapped(a: Word, b: Word)
    ensures Gt(a, b) == Lt(b, a)
    ensures Sgt(a, b) == Slt(b, a)
  {
  }

  /** ISZERO is EQ against 0. */
  lemma IsZeroIsEq(a: Word)
    ensures IsZero(a) == Eq(a, 0)
  {
  }

  /** The signed and unsigned orders agree on words with the same top bit and
      are opposite on words with different top bits. */
  lemma SignedOrder(a: Word, b: Word)
    ensures (a < TWO_255) == (b < TWO_255) ==> Slt(a, b) == Lt(a, b)
    ensures a < TWO_255 <= b ==> Slt(a, b) == 0 && Lt(a, b) == 1
    ensures b < TWO_255 <= a ==> Slt(a, b) == 1 && Lt(a, b) == 0
  {
  }

  /** 2^256 - 1 is -1 when signed: below 0 for SLT, above it for LT. */
  lemma MinusOneOrder()
    ensures Slt(TWO_256 - 1, 0) == 1
    ensures Lt(TWO_256 - 1, 0) == 0
  {
  }

  // ---------------------------------------------------------------------
  // The handlers
  // ---------------------------------------------------------------------

  method LtOp(st: Stack)
    requires |st.items| >= 2
    modifies st
    ensures st.items == Binary(old(st.items), Lt)
  {
    var a := st.Pop();
    var b := st.Pop();
    st.Push(Lt(a, b));
  }

  method GtOp(st: Stack)
    requires |st.items| >= 2
    modifies st
    ensures st.items == Binary(old(st.items), Gt)
  {
    var a := st.Pop();
    var b := st.Pop();
    st.Push(Gt(a, b));
  }

  method SltOp(st: Stack)
    requires |st.items| >= 2
    modifies st
    ensures st.items == Binary(old(st.items), Slt)
  {
    var a := st.Pop();
    var b := st.Pop();
    st.Push(Slt(a, b));
  }

  method SgtOp(st: Stack)
    requires |st.items| >= 2
    modifies st
    ensures st.items == Binary(old(st.items), Sgt)
  {
    var a := st.Pop();
    var b := st.Pop();
    st.Push(Sgt(a, b));
  }

  method EqOp(st: Stack)
    requires |st.items| >= 2
    modifies st
    ensures st.items == Binary(old(st.items), Eq)
  {
    var a := st.Pop();
    var b := st.Pop();
    st.Push(Eq(a, b));
  }

  method IsZeroOp(st: Stack)
    requires |st.items| >= 1
    modifies st
    ensures st.items == Unary(old(st.items), IsZero)
  {
    var a := st.Pop();
    st.Push(IsZero(a));
  }
}
