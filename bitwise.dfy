// src/opcodes/bitwise.ts: NOT, AND, OR, XOR, BYTE, SHL, SHR and SAR. As in
// the arithmetic opcodes, each handler pops its operands (the first pop is
// the top) and pushes one word.
module Bitwise {
  import opened JsBigInt
  import opened Bigint
  import opened Stacks
  import BigEndian
  import Arithmetic

  // ---------------------------------------------------------------------
  // The words the handlers push
  // ---------------------------------------------------------------------

  /** NOT: flips all 256 bits, computed as MAX_UINT256 - 1 - a. */
  function Not(a: Word): (r: Word)
    ensures r + a == TWO_256 - 1
  {
    MAX_UINT256 - 1 - a
  }

  /** AND: the bitwise conjunction; it never exceeds either operand. */
  function And(a: Word, b: Word): (r: Word)
    ensures r <= a && r <= b
  {
    WordBits(a, b);
    BitOpsMagnitude(a, b);
    BitAnd(a, b)
  }

  /** OR: the bitwise disjunction; it lies between the larger operand and
      the sum of both. */
  function Or(a: Word, b: Word): (r: Word)
    ensures a <= r && b <= r && r <= a + b
  {
    WordBits(a, b);
    BitOpsMagnitude(a, b);
    BitOr(a, b)
  }

  /** XOR: the bitwise exclusive or; it is 0 exactly for equal operands. */
  function Xor(a: Word, b: Word): (r: Word)
    ensures r == 0 <==> a == b
    ensures r <= a + b
  {
    WordBits(a, b);
    BitOpsMagnitude(a, b);
    BitXor(a, b)
  }

  lemma WordBits(a: Word, b: Word)
    ensures BitAnd(a, b) < TWO_256 && BitOr(a, b) < TWO_256 && BitXor(a, b) < TWO_256
  {
    Pow2Words();
    BitOpsBound(a, b, 256);
  }

  /** BYTE: byte i of x counted from the most significant end, 0 when i >= 32.
      It is exactly byte i of the 32-byte big-endian encoding of x. */
  function Byte(i: Word, x: Word): (r: Word)
    ensures r < 256
    ensures i >= 32 ==> r == 0
    ensures i < 32 ==> r == BigEndian.Encode(x, 32)[i]
  {
    if i >= 32 then 0
    else
      ByteOfWord(i, x);
      BitAnd(ShiftRight(x, 248 - i * 8), 0xff)
  }

  lemma ByteOfWord(i: nat, x: Word)
    requires i < 32
    ensures BitAnd(ShiftRight(x, 248 - i * 8), 0xff) == BigEndian.Encode(x, 32)[i]
    ensures BitAnd(ShiftRight(x, 248 - i * 8), 0xff) < 256
  {
    var q := ShiftRight(x, 248 - i * 8);
    assert BitAnd(q, 0xff) == q % 256 by {
      Pow2Words();
      BitAndLowMask(q, 8);
    }
    assert BigEndian.Encode(x, 32)[i] == q % 256 by {
      BigEndian.EncodeAt(x, 32, i);
      assert 8 * (32 - 1 - i) == 248 - i * 8;
    }
  }

  /** SHL: value shifted left by shift bits, truncated to 256 bits; 0 for a
      shift of 256 or more. */
  function Shl(shift: Word, value: Word): (r: Word)
    ensures shift >= 256 ==> r == 0
  {
    if shift >= 256 then 0
    else
      Arithmetic.WrapMod(ShiftLeft(value, shift));
      JsRem(ShiftLeft(value, shift), MAX_UINT256)
  }

  /** SHR: value shifted right by shift bits, filling with zeros; 0 for a
      shift of 256 or more. */
  function Shr(shift: Word, value: Word): (r: Word)
    ensures shift >= 256 ==> r == 0
    ensures r <= value
  {
    if shift >= 256 then 0 else ShiftRight(value, shift)
  }

  /** SAR: value read as signed, shifted right by shift bits filling with
      copies of the sign bit; all ones or 0 for a shift of 256 or more. */
  function Sar(shift: Word, value: Word): (r: Word)
    ensures shift >= 256 ==> r == if ToSigned(value) < 0 then TWO_256 - 1 else 0
  {
    var signed := ToSigned(value);
    if shift >= 256 then
      if signed < 0 then MAX_UINT256 - 1 else 0
    else
      FloorDivRange(signed, Pow2(shift));
      ToUnsigned(ShiftRight(signed, shift))
  }

  /** Floor division by a positive number keeps a signed word in range. */
  lemma FloorDivRange(y: int, d: Pos)
    requires -TWO_255 <= y < TWO_255
    ensures -TWO_255 <= y / d < TWO_255
  {
    if y >= 0 {
      DivAtMost(y, d);
    } else {
      FloorDivNegative(y, d, y / d, y % d);
    }
  }

  lemma FloorDivNegative(y: int, d: Pos, q: int, m: int)
    requires y < 0 && q == y / d && m == y % d
    ensures y <= q < 0
  {
    assert y == q * d + m && 0 <= m < d;
    ProductSign(q, d);
    ProductAtMost(q + 1, d);
    assert (q + 1) * d == q * d + d;
  }

  lemma ProductAtMost(e: int, d: Pos)
    ensures e <= 0 ==> e * d <= e
  {
    if e < 0 {
      MulAtLeast(d, -e);
      assert d * (-e) == -(e * d);
    }
  }

  // ---------------------------------------------------------------------
  // Properties of the words
  // ---------------------------------------------------------------------

  /** NOT flips every one of the 256 bits. */
  lemma NotBits(a: Word, i: nat)
    requires i < 256
    ensures Bit(Not(a), i) == 1 - Bit(a, i)
  {
    var p := Pow2(i);
    var h := Pow2(255 - i);
    Pow2Words();
    Pow2Add(255 - i, i + 1);
    assert Pow2(i + 1) == 2 * p;
    NotAlgebra(a, p, h, TWO_256);
  }

  lemma NotAlgebra(a: nat, p: Pos, h: Pos, n: int)
    requires n == h * (2 * p) && a < n
    ensures ((n - 1 - a) / p) % 2 == 1 - (a / p) % 2
  {
    var q, m := a / p, a % p;
    assert n - 1 - a == (2 * h - 1 - q) * p + (p - 1 - m) by {
      assert a == q * p + m;
    }
    DivModUnique(n - 1 - a, p, 2 * h - 1 - q, p - 1 - m);
    FlipParity(h, q);
  }

  lemma FlipParity(h: int, q: int)
    ensures (2 * h - 1 - q) % 2 == 1 - q % 2
  {
    var t := q / 2;
    assert q == 2 * t + q % 2;
    DivModUnique(2 * h - 1 - q, 2, h - t - 1, 1 - q % 2);
  }

  /** NOT is an involution. */
  lemma NotNot(a: Word)
    ensures Not(Not(a)) == a
  {
  }

  /** AND, OR and XOR act bit by bit. */
  lemma BitwiseAt(a: Word, b: Word, i: nat)
    ensures Bit(And(a, b), i) == Bit(a, i) * Bit(b, i)
    ensures Bit(Or(a, b), i) == if Bit(a, i) == 1 || Bit(b, i) == 1 then 1 else 0
    ensures Bit(Xor(a, b), i) == if Bit(a, i) != Bit(b, i) then 1 else 0
  {
    BitAndAt(a, b, i);
    BitOrAt(a, b, i);
    BitXorAt(a, b, i);
  }

  /** AND, OR and XOR do not depend on the order of their operands. */
  lemma BitwiseCommute(a: Word, b: Word)
    ensures And(a, b) == And(b, a) && Or(a, b) == Or(b, a) && Xor(a, b) == Xor(b, a)
  {
    BitOpsCommute(a, b);
  }

  /** XOR with the same word twice gives the other operand back. */
  lemma XorInverse(a: Word, b: Word)
    ensures Xor(a, Xor(a, b)) == b
  {
    forall i: nat
      ensures Bit(Xor(a, Xor(a, b)), i) == Bit(b, i)
    {
      BitXorAt(a, Xor(a, b), i);
      BitXorAt(a, b, i);
    }
    BitsEqual(Xor(a, Xor(a, b)), b);
  }

  /** A word and its complement share no bit. */
  lemma AndNot(a: Word)
    ensures And(a, Not(a)) == 0
  {
    forall i: nat
      ensures Bit(And(a, Not(a)), i) == Bit(0, i)
    {
      BitAndAt(a, Not(a), i);
      if i < 256 {
        NotBits(a, i);
      } else {
        Pow2Words();
        BitAbove(a, 256, i);
      }
      assert Bit(0, i) == 0;
    }
    BitsEqual(And(a, Not(a)), 0);
  }

  /** The 32 bytes BYTE reads out of a word put the word back together. */
  lemma BytesOfWord(x: Word)
    ensures BigEndian.Value(seq(32, i requires 0 <= i < 32 => Byte(i, x) as BigEndian.Byte)) == x
  {
    var bytes := seq(32, i requires 0 <= i < 32 => Byte(i, x) as BigEndian.Byte);
    assert bytes == BigEndian.Encode(x, 32);
    Pow2Words();
    BigEndian.ValueOfEncode(x, 32);
  }

  /** Below 256, SHL is multiplication by 2^shift modulo 2^256. */
  lemma ShlIsMul(shift: Word, value: Word)
    requires shift < 256
    ensures Pow2(shift) < TWO_256
    ensures Shl(shift, value) == Arithmetic.Mul(value, Pow2(shift))
  {
    Pow2Words();
    Pow2Monotone(shift, 255);
  }

  /** Below 256, SHR is DIV by 2^shift. */
  lemma ShrIsDiv(shift: Word, value: Word)
    requires shift < 256
    ensures Pow2(shift) < TWO_256
    ensures Shr(shift, value) == Arithmetic.Div(value, Pow2(shift))
  {
    Pow2Words();
    Pow2Monotone(shift, 255);
  }

  /** Shifting left and back right keeps the low 256 - shift bits. */
  lemma ShlShr(shift: Word, value: Word)
    requires shift < 256
    ensures Shr(shift, Shl(shift, value)) == value % Pow2(256 - shift)
  {
    var p, h := Pow2(shift), Pow2(256 - shift);
    var shifted := Shl(shift, value);
    assert shifted == (value * p) % TWO_256 by {
      Arithmetic.WrapMod(value * p);
    }
    assert TWO_256 == h * p by {
      Pow2Words();
      Pow2Add(256 - shift, shift);
    }
    ShlShrAlgebra(value, p, h, TWO_256);
    assert Shr(shift, shifted) == shifted / p;
  }

  lemma ShlShrAlgebra(v: nat, p: Pos, h: Pos, n: Pos)
    requires n == h * p
    ensures (v * p) % n / p == v % h
  {
    var q, m := v / h, v % h;
    assert v * p == q * n + m * p by {
      assert v == q * h + m;
    }
    assert m * p < n;
    DivModUnique(v * p, n, q, m * p);
    DivModUnique(m * p, p, m, 0);
  }

  /** SAR is floor division of the signed value by 2^shift; a shift of 256 or
      more divides by 2^256, leaving -1 or 0. */
  lemma SarFloor(shift: Word, value: Word)
    ensures ToSigned(Sar(shift, value)) == ToSigned(value) / Pow2(if shift >= 256 then 256 else shift)
  {
    var signed := ToSigned(value);
    Pow2Words();
    if shift < 256 {
      FloorDivRange(signed, Pow2(shift));
      SignedOfUnsigned(signed / Pow2(shift));
    } else if signed < 0 {
      DivModUnique(signed, TWO_256, -1, signed + TWO_256);
    } else {
      DivModUnique(signed, TWO_256, 0, signed);
    }
  }

  /** On words whose sign bit is clear, SAR and SHR agree. */
  lemma SarOfNonNegative(shift: Word, value: Word)
    requires value < TWO_255
    ensures Sar(shift, value) == Shr(shift, value)
  {
    if shift < 256 {
      assert ShiftRight(value, shift) >= 0;
    }
  }

  /** SAR of a negative word stays negative, and has the sign bit set. */
  lemma SarNegative(shift: Word, value: Word)
    requires value >= TWO_255
    ensures Sar(shift, value) >= TWO_255
  {
    SarFloor(shift, value);
    var d := Pow2(if shift >= 256 then 256 else shift);
    FloorDivNegative(ToSigned(value), d, ToSigned(value) / d, ToSigned(value) % d);
  }

  // ---------------------------------------------------------------------
  // The handlers
  // ---------------------------------------------------------------------

  method NotOp(st: Stack)
    requires |st.items| >= 1
    modifies st
    ensures st.items == Unary(old(st.items), Not)
  {
    var a := st.Pop();
    st.Push(Not(a));
  }

  method AndOp(st: Stack)
    requires |st.items| >= 2
    modifies st
    ensures st.items == Binary(old(st.items), And)
  {
    var a := st.Pop();
    var b := st.Pop();
    st.Push(And(a, b));
  }

  method OrOp(st: Stack)
    requires |st.items| >= 2
    modifies st
    ensures st.items == Binary(old(st.items), Or)
  {
    var a := st.Pop();
    var b := st.Pop();
    st.Push(Or(a, b));
  }

  method XorOp(st: Stack)
    requires |st.items| >= 2
    modifies st
    ensures st.items == Binary(old(st.items), Xor)
  {
    var a := st.Pop();
    var b := st.Pop();
    st.Push(Xor(a, b));
  }

  method ByteOp(st: Stack)
    requires |st.items| >= 2
    modifies st
    ensures st.items == Binary(old(st.items), Byte)
  {
    var i := st.Pop();
    var x := st.Pop();
    st.Push(Byte(i, x));
  }

  method ShlOp(st: Stack)
    requires |st.items| >= 2
    modifies st
    ensures st.items == Binary(old(st.items), Shl)
  {
    var shift := st.Pop();
    var value := st.Pop();
    st.Push(Shl(shift, value));
  }

  method ShrOp(st: Stack)
    requires |st.items| >= 2
    modifies st
    ensures st.items == Binary(old(st.items), Shr)
  {
    var shift := st.Pop();
    var value := st.Pop();
    st.Push(Shr(shift, value));
  }

  method SarOp(st: Stack)
    requires |st.items| >= 2
    modifies st
    ensures st.items == Binary(old(st.items), Sar)
  {
    var shift := st.Pop();
    var value := st.Pop();
    st.Push(Sar(shift, value));
  }
}
