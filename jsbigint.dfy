// The JavaScript BigInt operators the interpreter is written with, stated
// over Dafny's unbounded integers. Dafny's `/` and `%` are Euclidean while
// BigInt's truncate toward zero, and Dafny has no bit operators on `int`,
// so each operator the source uses is defined here once, with the facts
// about it that the opcode modules rely on.
module JsBigInt {

  /** 2^256: the modulus of word arithmetic (the source's MAX_UINT256). */
  const TWO_256: int := 0x1_0000000000000000000000000000000000000000000000000000000000000000
  /** 2^255: the smallest word whose two's-complement reading is negative. */
  const TWO_255: int := 0x8000000000000000000000000000000000000000000000000000000000000000

  type Pos = d: int | d > 0 witness 1

  function Abs(x: int): nat { if x < 0 then -x else x }

  // ---------------------------------------------------------------------
  // Powers of two
  // ---------------------------------------------------------------------

  function Pow2(n: nat): (r: nat)
    ensures r >= 1
  {
    if n == 0 then 1 else 2 * Pow2(n - 1)
  }

  lemma {:induction false} Pow2Add(a: nat, b: nat)
    ensures Pow2(a + b) == Pow2(a) * Pow2(b)
    decreases a
  {
    if a > 0 {
      Pow2Add(a - 1, b);
    }
  }

  lemma {:induction false} Pow2Monotone(a: nat, b: nat)
    requires a <= b
    ensures Pow2(a) <= Pow2(b)
    decreases b
  {
    if a < b {
      Pow2Monotone(a, b - 1);
    }
  }

  lemma Pow2Words()
    ensures Pow2(8) == 256
    ensures Pow2(256) == TWO_256
    ensures Pow2(255) == TWO_255
  {
    assert Pow2(8) == 0x100;
    Pow2Double(8, 0x100);
    Pow2Double(16, 0x1_0000);
    Pow2Double(32, 0x1_0000_0000);
    Pow2Double(64, 0x1_0000_0000_0000_0000);
    Pow2Double(128, 0x1_0000_0000_0000_0000_0000_0000_0000_0000);
  }

  lemma Pow2Succ(n: nat)
    requires n >= 1
    ensures Pow2(n) == 2 * Pow2(n - 1)
  {
  }

  lemma Pow2Double(n: nat, v: nat)
    requires Pow2(n) == v
    ensures Pow2(n + n) == v * v
  {
    Pow2Add(n, n);
  }

  // ---------------------------------------------------------------------
  // Euclidean division facts used below
  // ---------------------------------------------------------------------

  /** Division is determined by any decomposition v == q * d + r with 0 <= r < d. */
  lemma DivModUnique(v: int, d: Pos, q: int, r: int)
    requires v == q * d + r && 0 <= r < d
    ensures v / d == q && v % d == r
  {
    var q', r' := v / d, v % d;
    assert q * d + r == q' * d + r';
    assert (q - q') * d == r' - r;
    if q > q' {
      MulAtLeast(q - q', d);
    } else if q < q' {
      MulAtLeast(q' - q, d);
    }
  }

  lemma MulAtLeast(e: int, d: Pos)
    requires e >= 1
    ensures e * d >= d
  {
    assert e * d == (e - 1) * d + d;
  }

  lemma DivAtMost(x: nat, d: Pos)
    ensures x / d <= x
  {
    var q := x / d;
    assert x == q * d + x % d;
    if q >= 1 {
      MulAtLeast(d, q);
      assert q * d == d * q;
    }
  }

  lemma DivDiv(v: int, a: Pos, b: Pos)
    ensures v / a / b == v / (a * b)
  {
    var q, r := v / a, v % a;
    var q2, r2 := q / b, q % b;
    DivDivRegroup(v, a, b, q, r, q2, r2);
    DivModUnique(v, a * b, q2, a * r2 + r);
  }

  lemma DivDivRegroup(v: int, a: Pos, b: Pos, q: int, r: int, q2: int, r2: int)
    requires v == q * a + r && 0 <= r < a
    requires q == q2 * b + r2 && 0 <= r2 < b
    ensures v == q2 * (a * b) + (a * r2 + r)
    ensures 0 <= a * r2 + r < a * b
  {
    assert q * a == q2 * (a * b) + a * r2;
    assert a * r2 <= a * (b - 1);
  }

  /** The low j + 1 bits of x are its lowest bit and the low j bits of x / 2. */
  lemma ModPow2Step(x: nat, j: nat)
    requires j >= 1
    ensures x % Pow2(j) == 2 * ((x / 2) % Pow2(j - 1)) + x % 2
  {
    var t, u := (x / 2) / Pow2(j - 1), (x / 2) % Pow2(j - 1);
    assert x == t * Pow2(j) + (2 * u + x % 2);
    DivModUnique(x, Pow2(j), t, 2 * u + x % 2);
  }

  lemma ModMulAdd(x: int, k: int, d: Pos)
    ensures (k * d + x) % d == x % d
  {
    DivModUnique(k * d + x, d, k + x / d, x % d);
  }

  // ---------------------------------------------------------------------
  // BigInt `/` and `%`: truncation toward zero
  // ---------------------------------------------------------------------

  /** BigInt `a / b` (b != 0): the quotient truncated toward zero. */
  function JsDiv(a: int, b: int): (q: int)
    requires b != 0
    ensures Abs(q) <= Abs(a)
    ensures a >= 0 && b > 0 ==> q == a / b
  {
    var q0 := Abs(a) / Abs(b);
    DivAtMost(Abs(a), Abs(b));
    if (a < 0) == (b < 0) then q0 else -q0
  }

  /** BigInt `a % b` (b != 0): the remainder takes the sign of the dividend. */
  function JsRem(a: int, b: int): (r: int)
    requires b != 0
    ensures Abs(r) < Abs(b)
    ensures a >= 0 ==> r == a % Abs(b)
    ensures a < 0 ==> r <= 0
  {
    var r0 := Abs(a) % Abs(b);
    if a < 0 then -r0 else r0
  }

  /** Truncating quotient and remainder recompose the dividend. */
  lemma JsDivRem(a: int, b: int)
    requires b != 0
    ensures a == JsDiv(a, b) * b + JsRem(a, b)
  {
    var q0, r0 := Abs(a) / Abs(b), Abs(a) % Abs(b);
    assert Abs(a) == q0 * Abs(b) + r0;
  }

  // ---------------------------------------------------------------------
  // BigInt `<<` and `>>`
  // ---------------------------------------------------------------------

  /** BigInt `x << s`: multiplication by 2^s. */
  function ShiftLeft(x: int, s: nat): (r: int)
    ensures x >= 0 ==> r >= 0
  {
    ProductSign(x, Pow2(s));
    x * Pow2(s)
  }

  lemma ProductSign(e: int, d: Pos)
    ensures e >= 0 ==> e * d >= 0
  {
  }

  /** BigInt `x >> s`: division by 2^s rounded toward minus infinity, which is
      Dafny's `/` for a positive divisor. */
  function ShiftRight(x: int, s: nat): (r: int)
    ensures x >= 0 ==> 0 <= r <= x
  {
    DivBound(x, Pow2(s));
    x / Pow2(s)
  }

  lemma DivBound(x: int, d: Pos)
    ensures x >= 0 ==> 0 <= x / d <= x
  {
    if x >= 0 {
      DivAtMost(x, d);
    }
  }

  /** BigInt `**` on a non-negative exponent. */
  function Pow(a: int, b: nat): (r: int)
    ensures a >= 0 ==> r >= 0
    ensures a >= 1 ==> r >= 1
    ensures a == 0 && b > 0 ==> r == 0
  {
    if b == 0 then 1
    else
      var p := Pow(a, b - 1);
      if a >= 1 then ProductAtLeast(a, p); a * p else a * p
  }

  lemma ProductAtLeast(a: int, p: int)
    requires a >= 1 && p >= 1
    ensures a * p >= p >= 1
  {
  }

  // ---------------------------------------------------------------------
  // BigInt `&`, `|`, `^` on non-negative operands, one bit at a time
  // ---------------------------------------------------------------------

  function BitAnd(a: nat, b: nat): nat
    decreases a + b
  {
    if a == 0 && b == 0 then 0
    else 2 * BitAnd(a / 2, b / 2) + (if a % 2 == 1 && b % 2 == 1 then 1 else 0)
  }

  function BitOr(a: nat, b: nat): nat
    decreases a + b
  {
    if a == 0 && b == 0 then 0
    else 2 * BitOr(a / 2, b / 2) + (if a % 2 == 1 || b % 2 == 1 then 1 else 0)
  }

  function BitXor(a: nat, b: nat): nat
    decreases a + b
  {
    if a == 0 && b == 0 then 0
    else 2 * BitXor(a / 2, b / 2) + (if a % 2 != b % 2 then 1 else 0)
  }

  /** Bit i of x, the reference reading of a non-negative BigInt as bits. */
  function Bit(x: nat, i: nat): nat { (x / Pow2(i)) % 2 }

  lemma BitShift(x: nat, i: nat)
    requires i >= 1
    ensures Bit(x, i) == Bit(x / 2, i - 1)
  {
    DivDiv(x, 2, Pow2(i - 1));
  }

  /** Bit i of 2h + c: c at position 0, bit i - 1 of h above it. */
  lemma BitOfHalves(h: nat, c: nat, i: nat)
    requires c < 2
    ensures Bit(2 * h + c, i) == if i == 0 then c else Bit(h, i - 1)
  {
    if i > 0 {
      DivDiv(2 * h + c, 2, Pow2(i - 1));
      assert (2 * h + c) / 2 == h;
    }
  }

  lemma {:induction false} BitAndAt(a: nat, b: nat, i: nat)
    ensures Bit(BitAnd(a, b), i) == Bit(a, i) * Bit(b, i)
    decreases i
  {
    if a == 0 && b == 0 {
      assert Bit(0, i) == 0;
    } else {
      var h := BitAnd(a / 2, b / 2);
      var c := if a % 2 == 1 && b % 2 == 1 then 1 else 0;
      assert BitAnd(a, b) == 2 * h + c;
      BitOfHalves(h, c, i);
      BitOfHalves(a / 2, a % 2, i);
      BitOfHalves(b / 2, b % 2, i);
      if i > 0 {
        BitAndAt(a / 2, b / 2, i - 1);
      }
    }
  }

  lemma {:induction false} BitOrAt(a: nat, b: nat, i: nat)
    ensures Bit(BitOr(a, b), i) == if Bit(a, i) == 1 || Bit(b, i) == 1 then 1 else 0
    decreases i
  {
    if a == 0 && b == 0 {
      assert Bit(0, i) == 0;
    } else {
      var h := BitOr(a / 2, b / 2);
      var c := if a % 2 == 1 || b % 2 == 1 then 1 else 0;
      assert BitOr(a, b) == 2 * h + c;
      BitOfHalves(h, c, i);
      BitOfHalves(a / 2, a % 2, i);
      BitOfHalves(b / 2, b % 2, i);
      if i > 0 {
        BitOrAt(a / 2, b / 2, i - 1);
      }
    }
  }

  lemma {:induction false} BitXorAt(a: nat, b: nat, i: nat)
    ensures Bit(BitXor(a, b), i) == if Bit(a, i) != Bit(b, i) then 1 else 0
    decreases i
  {
    if a == 0 && b == 0 {
      assert Bit(0, i) == 0;
    } else {
      var h := BitXor(a / 2, b / 2);
      var c := if a % 2 != b % 2 then 1 else 0;
      assert BitXor(a, b) == 2 * h + c;
      BitOfHalves(h, c, i);
      BitOfHalves(a / 2, a % 2, i);
      BitOfHalves(b / 2, b % 2, i);
      if i > 0 {
        BitXorAt(a / 2, b / 2, i - 1);
      }
    }
  }

  /** The three operators keep operands below 2^n below 2^n. */
  lemma {:induction false} BitOpsBound(a: nat, b: nat, n: nat)
    requires a < Pow2(n) && b < Pow2(n)
    ensures BitAnd(a, b) < Pow2(n) && BitOr(a, b) < Pow2(n) && BitXor(a, b) < Pow2(n)
    decreases n
  {
    if n > 0 && !(a == 0 && b == 0) {
      BitOpsBound(a / 2, b / 2, n - 1);
    }
  }

  /** How large the results can be: AND never exceeds either operand, OR is at
      least either operand and at most their sum, and XOR is at most their sum
      and is 0 exactly for equal operands. */
  lemma {:induction false} BitOpsMagnitude(a: nat, b: nat)
    ensures BitAnd(a, b) <= a && BitAnd(a, b) <= b
    ensures a <= BitOr(a, b) && b <= BitOr(a, b) && BitOr(a, b) <= a + b
    ensures BitXor(a, b) <= a + b
    ensures BitXor(a, b) == 0 <==> a == b
    decreases a + b
  {
    if !(a == 0 && b == 0) {
      BitOpsMagnitude(a / 2, b / 2);
      assert a == 2 * (a / 2) + a % 2 && b == 2 * (b / 2) + b % 2;
    }
  }

  lemma {:induction false} BitOpsCommute(a: nat, b: nat)
    ensures BitAnd(a, b) == BitAnd(b, a)
    ensures BitOr(a, b) == BitOr(b, a)
    ensures BitXor(a, b) == BitXor(b, a)
    decreases a + b
  {
    if !(a == 0 && b == 0) {
      BitOpsCommute(a / 2, b / 2);
    }
  }

  lemma {:induction false} BitAndZero(x: nat)
    ensures BitAnd(x, 0) == 0
    decreases x
  {
    if x != 0 {
      BitAndZero(x / 2);
    }
  }

  lemma {:induction false} BitOrZero(x: nat)
    ensures BitOr(x, 0) == x
    decreases x
  {
    if x != 0 {
      BitOrZero(x / 2);
    }
  }

  /** `x & (2^n - 1)` keeps the low n bits of x. */
  lemma {:induction false} BitAndLowMask(x: nat, n: nat)
    ensures BitAnd(x, Pow2(n) - 1) == x % Pow2(n)
    decreases n
  {
    if n == 0 {
      BitAndZero(x);
    } else {
      BitAndLowMaskStep(x, n);
    }
  }

  lemma {:induction false} BitAndLowMaskStep(x: nat, n: nat)
    requires n >= 1
    ensures BitAnd(x, Pow2(n) - 1) == x % Pow2(n)
    decreases n, 0
  {
    var p := Pow2(n - 1);
    var a := BitAnd(x / 2, p - 1);
    assert a == (x / 2) % p by {
      BitAndLowMask(x / 2, n - 1);
    }
    assert x % Pow2(n) == 2 * a + x % 2 by {
      ModPow2Step(x, n);
    }
    Pow2Succ(n);
    BitAndLowMaskCombine(x, Pow2(n), p, a, x % Pow2(n));
  }

  /** One step of BitAndLowMask on abstract powers pn = 2p. */
  lemma BitAndLowMaskCombine(x: nat, pn: nat, p: Pos, a: nat, xm: nat)
    requires pn == 2 * p && a == BitAnd(x / 2, p - 1)
    requires xm == 2 * a + x % 2
    ensures BitAnd(x, pn - 1) == xm
  {
    assert pn - 1 == 2 * (p - 1) + 1;
    BitAndOdd(x, p - 1);
  }

  lemma BitAndOdd(x: nat, m: nat)
    ensures BitAnd(x, 2 * m + 1) == 2 * BitAnd(x / 2, m) + x % 2
  {
    assert (2 * m + 1) / 2 == m && (2 * m + 1) % 2 == 1;
  }

  /** OR-ing bits below 2^n into a multiple of 2^n is addition. */
  lemma {:induction false} BitOrLow(hi: nat, lo: nat, n: nat)
    requires lo < Pow2(n)
    ensures BitOr(hi * Pow2(n), lo) == hi * Pow2(n) + lo
    decreases n
  {
    if n == 0 {
      BitOrZero(hi);
    } else if !(hi == 0 && lo == 0) {
      var v := hi * Pow2(n);
      assert v == 2 * (hi * Pow2(n - 1));
      assert v / 2 == hi * Pow2(n - 1) && v % 2 == 0;
      BitOrLow(hi, lo / 2, n - 1);
    }
  }

  lemma {:induction false} BitOrOnes(x: nat, n: nat)
    requires x < Pow2(n)
    ensures BitOr(x, Pow2(n) - 1) == Pow2(n) - 1
    decreases n
  {
    if n > 0 {
      BitOrOnes(x / 2, n - 1);
    }
  }

  lemma BitOrEven(x: nat, h: nat)
    ensures BitOr(x, 2 * h) == 2 * BitOr(x / 2, h) + x % 2
  {
    assert (2 * h) / 2 == h && (2 * h) % 2 == 0;
  }

  /** OR-ing the bits j..n-1 into x < 2^n sets them and keeps the bits below j. */
  lemma {:induction false} BitOrHighMask(x: nat, j: nat, n: nat)
    requires j <= n && x < Pow2(n) && Pow2(j) <= Pow2(n)
    ensures BitOr(x, Pow2(n) - Pow2(j)) == Pow2(n) - Pow2(j) + x % Pow2(j)
    decreases j, 1
  {
    if j == 0 {
      BitOrOnes(x, n);
    } else if j == n {
      BitOrHighMaskEmpty(x, n);
    } else {
      BitOrHighMaskStep(x, j, n);
    }
  }

  lemma BitOrHighMaskEmpty(x: nat, n: nat)
    requires x < Pow2(n)
    ensures BitOr(x, Pow2(n) - Pow2(n)) == Pow2(n) - Pow2(n) + x % Pow2(n)
  {
    BitOrZero(x);
    DivModUnique(x, Pow2(n), 0, x);
    assert Pow2(n) - Pow2(n) == 0;
  }

  lemma {:induction false} BitOrHighMaskStep(x: nat, j: nat, n: nat)
    requires 0 < j < n && x < Pow2(n)
    ensures Pow2(j) <= Pow2(n)
    ensures BitOr(x, Pow2(n) - Pow2(j)) == Pow2(n) - Pow2(j) + x % Pow2(j)
    decreases j, 0
  {
    var p, p2 := Pow2(n - 1), Pow2(j - 1);
    assert p2 <= p by {
      Pow2Monotone(j - 1, n - 1);
    }
    var o := BitOr(x / 2, p - p2);
    assert o == p - p2 + (x / 2) % p2 by {
      BitOrHighMask(x / 2, j - 1, n - 1);
    }
    assert x % Pow2(j) == 2 * ((x / 2) % p2) + x % 2 by {
      ModPow2Step(x, j);
    }
    Pow2Succ(n);
    Pow2Succ(j);
    BitOrHighMaskCombine(x, Pow2(n), Pow2(j), p, p2, o, (x / 2) % p2, x % Pow2(j));
  }

  /** One step of BitOrHighMask on abstract powers pn = 2p and pj = 2p2. */
  lemma BitOrHighMaskCombine(x: nat, pn: nat, pj: nat, p: nat, p2: nat, o: nat, lo: nat, xm: nat)
    requires pn == 2 * p && pj == 2 * p2 && p2 <= p
    requires o == BitOr(x / 2, p - p2) && o == p - p2 + lo
    requires xm == 2 * lo + x % 2
    ensures BitOr(x, pn - pj) == pn - pj + xm
  {
    BitOrEven(x, p - p2);
    assert pn - pj == 2 * (p - p2);
  }

  /** Two numbers with the same bits are equal. */
  lemma {:induction false} BitsEqual(a: nat, b: nat)
    requires forall i: nat :: Bit(a, i) == Bit(b, i)
    ensures a == b
    decreases a + b
  {
    if a != 0 || b != 0 {
      assert a % 2 == b % 2 by {
        assert Bit(a, 0) == Bit(b, 0);
      }
      forall i: nat
        ensures Bit(a / 2, i) == Bit(b / 2, i)
      {
        BitShift(a, i + 1);
        BitShift(b, i + 1);
        assert Bit(a, i + 1) == Bit(b, i + 1);
      }
      BitsEqual(a / 2, b / 2);
    }
  }

  /** A number below 2^n has no bit at or above position n. */
  lemma BitAbove(x: nat, n: nat, i: nat)
    requires x < Pow2(n) && n <= i
    ensures Bit(x, i) == 0
  {
    Pow2Monotone(n, i);
    DivModUnique(x, Pow2(i), 0, x);
  }
}
