// src/opcodes/arithmetic.ts: ADD, MUL, SUB, DIV, SDIV, MOD, SMOD, ADDMOD,
// MULMOD, EXP and SIGNEXTEND. Each handler pops its operands (the first pop,
// `a`, is the top), computes one word and pushes it; the word is a function
// below and the handler a method over the shared stack.
module Arithmetic {
  import opened JsBigInt
  import opened Bigint
  import opened Stacks

  // ---------------------------------------------------------------------
  // The words the handlers push
  // ---------------------------------------------------------------------

  /** ADD: the sum, wrapped once past 2^256. */
  function Add(a: Word, b: Word): (r: Word)
    ensures r == if a + b < TWO_256 then a + b else a + b - TWO_256
  {
    JsRem(a + b, MAX_UINT256)
  }

  /** MUL: the product modulo 2^256. */
  function Mul(a: Word, b: Word): (r: Word)
    ensures (r - a * b) % TWO_256 == 0
    ensures a * b < TWO_256 ==> r == a * b
  {
    WrapMod(a * b);
    JsRem(a * b, MAX_UINT256)
  }

  lemma WrapMod(p: nat)
    ensures JsRem(p, MAX_UINT256) == p % TWO_256
    ensures (p % TWO_256 - p) % TWO_256 == 0
    ensures p < TWO_256 ==> p % TWO_256 == p
  {
    ModCongruent(p, TWO_256, 0);
    if p < TWO_256 {
      DivModUnique(p, TWO_256, 0, p);
    }
  }

  /** SUB: the non-negative representative of a - b modulo 2^256. The inner
      BigInt `%` can be negative, hence the `+ MAX_UINT256` and second `%`. */
  function Sub(a: Word, b: Word): (r: Word)
    ensures a >= b ==> r == a - b
    ensures a < b ==> r == a - b + TWO_256
  {
    JsRem(JsRem(a - b, MAX_UINT256) + MAX_UINT256, MAX_UINT256)
  }

  /** DIV: the floor quotient, 0 for a zero divisor. */
  function Div(a: Word, b: Word): (r: Word)
    ensures b == 0 ==> r == 0
    ensures b != 0 ==> r * b <= a < (r + 1) * b
    ensures r <= a
  {
    if b == 0 then 0 else JsDiv(a, b)
  }

  /** MOD: the remainder of DIV, 0 for a zero divisor. */
  function Mod(a: Word, b: Word): (r: Word)
    ensures b == 0 ==> r == 0
    ensures b != 0 ==> r < b && a == Div(a, b) * b + r
    ensures r <= a
  {
    if b == 0 then 0 else JsRem(a, b)
  }

  /** SDIV: the signed quotient truncated toward zero, re-encoded as a word. */
  function SDiv(a0: Word, b0: Word): (r: Word)
    ensures b0 == 0 ==> r == 0
    ensures b0 != 0 ==> (r - JsDiv(ToSigned(a0), ToSigned(b0))) % TWO_256 == 0
  {
    var a, b := ToSigned(a0), ToSigned(b0);
    if b == 0 then 0 else ToUnsigned(JsDiv(a, b))
  }

  /** SMOD: the signed remainder (sign of the dividend), re-encoded as a word. */
  function SMod(a0: Word, b0: Word): (r: Word)
    ensures b0 == 0 ==> r == 0
    ensures b0 != 0 ==> ToSigned(r) == JsRem(ToSigned(a0), ToSigned(b0))
  {
    var a, b := ToSigned(a0), ToSigned(b0);
    if b == 0 then 0 else ToUnsigned(JsRem(a, b))
  }

  /** ADDMOD: (a + b) mod n computed on the exact sum, 0 for n = 0. */
  function AddMod(a: Word, b: Word, n: Word): (r: Word)
    ensures n == 0 ==> r == 0
    ensures n != 0 ==> r < n && r == (a + b) % n
  {
    if n == 0 then 0 else JsRem(a + b, n)
  }

  /** MULMOD: (a * b) mod n computed on the exact product, 0 for n = 0. */
  function MulMod(a: Word, b: Word, n: Word): (r: Word)
    ensures n == 0 ==> r == 0
    ensures n != 0 ==> r < n && r == (a * b) % n
  {
    if n == 0 then 0 else JsRem(a * b, n)
  }

  /** EXP: a to the power b modulo 2^256. */
  function Exp(a: Word, b: Word): (r: Word)
    ensures r == Pow(a, b) % TWO_256
  {
    JsRem(Pow(a, b), MAX_UINT256)
  }

  /** SIGNEXTEND: treats bit 8k+7 of x as a sign bit and copies it into every
      higher bit; k >= 31 leaves x as it is. */
  function SignExtend(k: Word, x: Word): (r: Word)
    ensures k >= 31 ==> r == x
  {
    if k >= 31 then x
    else
      var signBitPos := k * 8 + 7;
      var signBit := BitAnd(ShiftRight(x, signBitPos), 1);
      if signBit == 0 then
        var mask := ShiftLeft(1, signBitPos + 1) - 1;
        LowMaskWord(x, signBitPos + 1);
        BitAnd(x, mask)
      else
        var mask := ShiftLeft(ShiftRight(MAX_UINT256 - 1, signBitPos + 1), signBitPos + 1);
        HighMaskWord(x, signBitPos + 1);
        BitOr(x, mask)
  }

  lemma LowMaskWord(x: Word, j: nat)
    ensures BitAnd(x, ShiftLeft(1, j) - 1) < TWO_256
  {
    BitAndLowMask(x, j);
    ModAtMost(x, Pow2(j));
  }

  lemma ModAtMost(x: nat, m: Pos)
    ensures x % m <= x
  {
    if x < m {
      DivModUnique(x, m, 0, x);
    }
  }

  lemma HighMaskWord(x: Word, j: nat)
    requires 0 < j <= 256
    ensures ShiftLeft(ShiftRight(MAX_UINT256 - 1, j), j) >= 0
    ensures BitOr(x, ShiftLeft(ShiftRight(MAX_UINT256 - 1, j), j)) < TWO_256
  {
    HighMask(j);
    HighMaskOr(x, j);
  }

  /** `((MAX_UINT256 - 1n) >> j) << j` is the word with bits j..255 set. */
  lemma HighMask(j: nat)
    requires 0 < j <= 256
    ensures ShiftLeft(ShiftRight(MAX_UINT256 - 1, j), j) == TWO_256 - Pow2(j)
  {
    Pow2Words();
    Pow2Add(256 - j, j);
    MaskAlgebra(Pow2(j), Pow2(256 - j), TWO_256);
  }

  lemma MaskAlgebra(p: Pos, q: Pos, n: int)
    requires n == q * p
    ensures (n - 1) / p * p == n - p
  {
    assert n - 1 == (q - 1) * p + (p - 1);
    DivModUnique(n - 1, p, q - 1, p - 1);
  }

  lemma HighMaskOr(x: Word, j: nat)
    requires 0 < j <= 256
    ensures Pow2(j) <= TWO_256
    ensures BitOr(x, TWO_256 - Pow2(j)) == TWO_256 - Pow2(j) + x % Pow2(j)
    ensures TWO_256 - Pow2(j) + x % Pow2(j) < TWO_256
  {
    Pow2Words();
    Pow2Monotone(j, 256);
    BitOrHighMask(x, j, 256);
  }

  // ---------------------------------------------------------------------
  // Properties of the words
  // ---------------------------------------------------------------------

  lemma AddCommutes(a: Word, b: Word)
    ensures Add(a, b) == Add(b, a)
  {
  }

  /** SUB undoes ADD and ADD undoes SUB. */
  lemma SubAddInverse(a: Word, b: Word)
    ensures Sub(Add(a, b), b) == a
    ensures Add(Sub(a, b), b) == a
  {
  }

  /** The signed quotient, read back as signed, is the truncated quotient of
      the signed operands except in the one overflowing case -2^255 / -1. */
  lemma SDivSigned(a: Word, b: Word)
    requires b != 0 && !(a == TWO_255 && b == TWO_256 - 1)
    ensures ToSigned(SDiv(a, b)) == JsDiv(ToSigned(a), ToSigned(b))
  {
    var sa, sb := ToSigned(a), ToSigned(b);
    var q0 := Abs(sa) / Abs(sb);
    if q0 == TWO_255 {
      QuotientOfMinimum(sa, sb);
    }
    SignedOfUnsigned(JsDiv(sa, sb));
  }

  /** A quotient of magnitude 2^255 needs dividend -2^255 and divisor of magnitude 1. */
  lemma QuotientOfMinimum(sa: int, sb: int)
    requires -TWO_255 <= sa < TWO_255 && -TWO_255 <= sb < TWO_255 && sb != 0
    requires Abs(sa) / Abs(sb) == TWO_255
    ensures sa == -TWO_255 && Abs(sb) == 1
  {
    DivAtMost(Abs(sa), Abs(sb));
    DivByTwoOrMore(Abs(sa), Abs(sb));
  }

  lemma DivByTwoOrMore(x: nat, d: Pos)
    ensures d >= 2 ==> 2 * (x / d) <= x
  {
    var q := x / d;
    assert x == q * d + x % d;
    if d >= 2 {
      assert q * d == q * (d - 2) + 2 * q;
    }
  }

  /** SDIV(-2^255, -1) wraps to -2^255 itself. */
  lemma SDivOverflow()
    ensures SDiv(TWO_255, TWO_256 - 1) == TWO_255
  {
  }

  /** Signed quotient and remainder recompose the signed dividend. */
  lemma SDivSModRecompose(a: Word, b: Word)
    requires b != 0 && !(a == TWO_255 && b == TWO_256 - 1)
    ensures ToSigned(a) == ToSigned(SDiv(a, b)) * ToSigned(b) + ToSigned(SMod(a, b))
  {
    SDivSigned(a, b);
    JsDivRem(ToSigned(a), ToSigned(b));
  }

  /** The sum is not reduced modulo 2^256 before the modulo n. */
  lemma AddModFullPrecision()
    ensures AddMod(TWO_256 - 1, 2, 3) == 2
    ensures Add(TWO_256 - 1, 2) % 3 == 1
  {
  }

  /** The product is not reduced modulo 2^256 before the modulo n. */
  lemma MulModFullPrecision()
    ensures MulMod(TWO_255, 2, 3) == 1
    ensures Mul(TWO_255, 2) % 3 == 0
  {
  }

  /** EXP satisfies the power recurrence in word arithmetic. */
  lemma ExpStep(a: Word, b: Word)
    requires b + 1 < TWO_256
    ensures Exp(a, 0) == 1
    ensures Exp(a, b + 1) == Mul(a, Exp(a, b))
  {
    var p := Pow(a, b);
    assert Pow(a, b + 1) == a * p;
    DivModUnique(p, TWO_256, p / TWO_256, p % TWO_256);
    assert a * p == (a * (p / TWO_256)) * TWO_256 + a * (p % TWO_256);
    ModMulAdd(a * (p % TWO_256), a * (p / TWO_256), TWO_256);
  }

  /** For k < 31, SIGNEXTEND keeps the low k + 1 bytes and sets every bit
      above them when bit 8k+7 is set, clears them otherwise. */
  lemma SignExtendBits(k: Word, x: Word)
    requires k < 31
    ensures Bit(x, 8 * k + 7) == 0 ==> SignExtend(k, x) == x % Pow2(8 * k + 8)
    ensures Bit(x, 8 * k + 7) == 1 ==> SignExtend(k, x) == TWO_256 - Pow2(8 * k + 8) + x % Pow2(8 * k + 8)
  {
    if Bit(x, 8 * k + 7) == 0 {
      SignExtendCleared(k, x, k * 8 + 7);
    } else {
      SignExtendFilled(k, x, k * 8 + 7);
    }
  }

  lemma SignBit(x: Word, p: nat)
    ensures BitAnd(ShiftRight(x, p), 1) == Bit(x, p)
  {
    assert Pow2(1) - 1 == 1;
    BitAndLowMask(x / Pow2(p), 1);
  }

  lemma SignExtendCleared(k: Word, x: Word, p: nat)
    requires k < 31 && p == k * 8 + 7 && Bit(x, p) == 0
    ensures SignExtend(k, x) == x % Pow2(p + 1)
  {
    SignBit(x, p);
    assert ShiftLeft(1, p + 1) - 1 == Pow2(p + 1) - 1;
    BitAndLowMask(x, p + 1);
  }

  lemma SignExtendFilled(k: Word, x: Word, p: nat)
    requires k < 31 && p == k * 8 + 7 && Bit(x, p) == 1
    ensures SignExtend(k, x) == TWO_256 - Pow2(p + 1) + x % Pow2(p + 1)
  {
    SignBit(x, p);
    HighMask(p + 1);
    HighMaskOr(x, p + 1);
  }

  /** For k < 31, SIGNEXTEND read as signed is the value of the low k + 1
      bytes of x as a (k+1)-byte two's-complement number: it lies in
      [-2^(8k+7), 2^(8k+7)) and is congruent to x modulo 2^(8k+8). */
  lemma SignExtendSigned(k: Word, x: Word)
    requires k < 31
    ensures -(Pow2(8 * k + 7) as int) <= ToSigned(SignExtend(k, x)) < Pow2(8 * k + 7)
    ensures (ToSigned(SignExtend(k, x)) - x) % Pow2(8 * k + 8) == 0
  {
    if Bit(x, 8 * k + 7) == 0 {
      SignExtendSignedCleared(k, x, 8 * k + 7);
    } else {
      SignExtendSignedFilled(k, x, 8 * k + 7);
    }
  }

  lemma SignExtendSignedCleared(k: Word, x: Word, p: nat)
    requires k < 31 && p == k * 8 + 7 && Bit(x, p) == 0
    ensures -(Pow2(p) as int) <= ToSigned(SignExtend(k, x)) < Pow2(p)
    ensures (ToSigned(SignExtend(k, x)) - x) % Pow2(p + 1) == 0
  {
    SignExtendCleared(k, x, p);
    ModTopBit(x, p);
    Pow2Words();
    Pow2Monotone(p, 255);
    assert Pow2(p + 1) == 2 * Pow2(p);
    SignedOfCleared(x, Pow2(p), x % Pow2(p));
  }

  lemma SignExtendSignedFilled(k: Word, x: Word, p: nat)
    requires k < 31 && p == k * 8 + 7 && Bit(x, p) == 1
    ensures -(Pow2(p) as int) <= ToSigned(SignExtend(k, x)) < Pow2(p)
    ensures (ToSigned(SignExtend(k, x)) - x) % Pow2(p + 1) == 0
  {
    SignExtendFilled(k, x, p);
    ModTopBit(x, p);
    Pow2Words();
    Pow2Monotone(p, 255);
    assert Pow2(p + 1) == 2 * Pow2(p);
    SignedOfFilled(x, Pow2(p), x % Pow2(p));
  }

  lemma SignedOfCleared(x: nat, h: Pos, low: nat)
    requires h <= TWO_255 && low < h && x % (2 * h) == low
    ensures -(h as int) <= ToSigned(x % (2 * h)) < h
    ensures (ToSigned(x % (2 * h)) - x) % (2 * h) == 0
  {
    ModCongruent(x, 2 * h, 0);
  }

  lemma SignedOfFilled(x: nat, h: Pos, low: nat)
    requires h <= TWO_255 && low < h && x % (2 * h) == h + low
    ensures -(h as int) <= ToSigned(TWO_256 - 2 * h + x % (2 * h)) < h
    ensures (ToSigned(TWO_256 - 2 * h + x % (2 * h)) - x) % (2 * h) == 0
  {
    ModCongruent(x, 2 * h, -1);
  }

  /** Bit p of x splits its low p + 1 bits. */
  lemma ModTopBit(x: nat, p: nat)
    ensures x % Pow2(p + 1) == Bit(x, p) * Pow2(p) + x % Pow2(p)
  {
    var q := x / Pow2(p);
    assert x == q * Pow2(p) + x % Pow2(p);
    assert q == (q / 2) * 2 + q % 2;
    assert Pow2(p + 1) == 2 * Pow2(p);
    assert x == (q / 2) * Pow2(p + 1) + (q % 2 * Pow2(p) + x % Pow2(p));
    DivModUnique(x, Pow2(p + 1), q / 2, q % 2 * Pow2(p) + x % Pow2(p));
  }

  /** x mod m plus any multiple of m is congruent to x. */
  lemma ModCongruent(x: nat, m: Pos, k: int)
    ensures (x % m + k * m - x) % m == 0
  {
    assert x % m + k * m - x == (k - x / m) * m;
    ModMulAdd(0, k - x / m, m);
  }

  /** SIGNEXTEND of byte 0xFF from byte 0 is the all-ones word. */
  lemma SignExtendAllOnes()
    ensures SignExtend(0, 0xFF) == TWO_256 - 1
  {
    SignExtendBits(0, 0xFF);
    assert Pow2(7) == 128 && Pow2(8) == 256;
    assert Bit(0xFF, 7) == 1;
  }

  // ---------------------------------------------------------------------
  // The handlers
  // ---------------------------------------------------------------------

  method AddOp(st: Stack)
    requires |st.items| >= 2
    modifies st
    ensures st.items == Binary(old(st.items), Add)
  {
    var a := st.Pop();
    var b := st.Pop();
    st.Push(Add(a, b));
  }

  method MulOp(st: Stack)
    requires |st.items| >= 2
    modifies st
    ensures st.items == Binary(old(st.items), Mul)
  {
    var a := st.Pop();
    var b := st.Pop();
    st.Push(Mul(a, b));
  }

  method SubOp(st: Stack)
    requires |st.items| >= 2
    modifies st
    ensures st.items == Binary(old(st.items), Sub)
  {
    var a := st.Pop();
    var b := st.Pop();
    st.Push(Sub(a, b));
  }

  method DivOp(st: Stack)
    requires |st.items| >= 2
    modifies st
    ensures st.items == Binary(old(st.items), Div)
  {
    var a := st.Pop();
    var b := st.Pop();
    st.Push(Div(a, b));
  }

  method SDivOp(st: Stack)
    requires |st.items| >= 2
    modifies st
    ensures st.items == Binary(old(st.items), SDiv)
  {
    var a := st.Pop();
    var b := st.Pop();
    st.Push(SDiv(a, b));
  }

  method ModOp(st: Stack)
    requires |st.items| >= 2
    modifies st
    ensures st.items == Binary(old(st.items), Mod)
  {
    var a := st.Pop();
    var b := st.Pop();
    st.Push(Mod(a, b));
  }

  method SModOp(st: Stack)
    requires |st.items| >= 2
    modifies st
    ensures st.items == Binary(old(st.items), SMod)
  {
    var a := st.Pop();
    var b := st.Pop();
    st.Push(SMod(a, b));
  }

  method AddModOp(st: Stack)
    requires |st.items| >= 3
    modifies st
    ensures st.items == Ternary(old(st.items), AddMod)
  {
    var a := st.Pop();
    var b := st.Pop();
    var n := st.Pop();
    st.Push(AddMod(a, b, n));
  }

  method MulModOp(st: Stack)
    requires |st.items| >= 3
    modifies st
    ensures st.items == Ternary(old(st.items), MulMod)
  {
    var a := st.Pop();
    var b := st.Pop();
    var n := st.Pop();
    st.Push(MulMod(a, b, n));
  }

  method ExpOp(st: Stack)
    requires |st.items| >= 2
    modifies st
    ensures st.items == Binary(old(st.items), Exp)
  {
    var a := st.Pop();
    var b := st.Pop();
    st.Push(Exp(a, b));
  }

  method SignExtendOp(st: Stack)
    requires |st.items| >= 2
    modifies st
    ensures st.items == Binary(old(st.items), SignExtend)
  {
    var k := st.Pop();
    var x := st.Pop();
    st.Push(SignExtend(k, x));
  }
}
