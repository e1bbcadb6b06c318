// Big-endian byte strings, the layout shared by PUSHn immediates, BYTE,
// MSTORE and MLOAD.
module BigEndian {
  import opened JsBigInt

  /** A byte of code or memory (an element of a Uint8Array). */
  type Byte = b: nat | b < 256

  /** The value of a byte string read most-significant byte first. */
  function Value(s: seq<Byte>): (v: nat)
    ensures v < Pow2(8 * |s|)
  {
    if |s| == 0 then 0
    else
      var v := Value(s[..|s| - 1]) * 256 + s[|s| - 1];
      ValueBound(Value(s[..|s| - 1]), s[|s| - 1], |s| - 1);
      v
  }

  lemma ValueBound(hi: nat, b: Byte, n: nat)
    requires hi < Pow2(8 * n)
    ensures hi * 256 + b < Pow2(8 * (n + 1))
  {
    Pow2Words();
    Pow2Add(8 * n, 8);
    assert hi * 256 <= (Pow2(8 * n) - 1) * 256;
  }

  /** One step of the source's accumulation `value = (value << 8n) | BigInt(byte)`. */
  lemma AccumulateByte(s: seq<Byte>, value: nat)
    requires |s| >= 1 && value == Value(s[..|s| - 1])
    ensures BitOr(ShiftLeft(value, 8), s[|s| - 1]) == Value(s)
  {
    Pow2Words();
    BitOrLow(value, s[|s| - 1], 8);
  }

  /** The accumulation step over a prefix: adding byte i to the value of the
      first i bytes gives the value of the first i + 1. */
  lemma AccumulatePrefix(s: seq<Byte>, i: nat, value: nat)
    requires i < |s| && value == Value(s[..i])
    ensures BitOr(ShiftLeft(value, 8), s[i]) == Value(s[..i + 1])
  {
    assert s[..i + 1][..i] == s[..i];
    AccumulateByte(s[..i + 1], value);
  }

  /** The n-byte big-endian encoding of v mod 256^n. */
  function Encode(v: nat, n: nat): (s: seq<Byte>)
    ensures |s| == n
  {
    if n == 0 then [] else Encode(v / 256, n - 1) + [v % 256]
  }

  /** Decoding an encoding gives back every value that fits in n bytes. */
  lemma {:induction false} ValueOfEncode(v: nat, n: nat)
    requires v < Pow2(8 * n)
    ensures Value(Encode(v, n)) == v
    decreases n
  {
    if n > 0 {
      var s := Encode(v, n);
      assert s[..n - 1] == Encode(v / 256, n - 1);
      assert v / 256 < Pow2(8 * (n - 1)) by {
        Pow2Words();
        Pow2Add(8 * (n - 1), 8);
        DivMonotone(v, Pow2(8 * (n - 1)) * 256);
      }
      ValueOfEncode(v / 256, n - 1);
    }
  }

  lemma DivMonotone(v: nat, m: nat)
    requires v < m && m % 256 == 0
    ensures v / 256 < m / 256
  {
  }

  /** Encoding the value of a byte string gives back the string. */
  lemma {:induction false} EncodeOfValue(s: seq<Byte>)
    ensures Encode(Value(s), |s|) == s
    decreases |s|
  {
    if |s| > 0 {
      var n := |s|;
      var hi := Value(s[..n - 1]);
      assert Value(s) / 256 == hi && Value(s) % 256 == s[n - 1] by {
        DivModUnique(Value(s), 256, hi, s[n - 1]);
      }
      EncodeOfValue(s[..n - 1]);
      assert s == s[..n - 1] + [s[n - 1]];
    }
  }

  /** Byte i of the encoding is the byte of weight 256^(n-1-i). */
  lemma {:induction false} EncodeAt(v: nat, n: nat, i: nat)
    requires i < n
    ensures Encode(v, n)[i] == (v / Pow2(8 * (n - 1 - i))) % 256
    decreases n
  {
    if i < n - 1 {
      EncodeAt(v / 256, n - 1, i);
      Pow2Words();
      DivDiv(v, 256, Pow2(8 * (n - 2 - i)));
      Pow2Add(8, 8 * (n - 2 - i));
      assert 8 + 8 * (n - 2 - i) == 8 * (n - 1 - i);
    }
  }
}
