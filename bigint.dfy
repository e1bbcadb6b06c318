// src/utils/bigint.ts: the word modulus and the two's-complement views.
module Bigint {
  import opened JsBigInt

  /** The source's MAX_UINT256. It is the modulus 2^256, one more than the largest word. */
  const MAX_UINT256: int := TWO_256

  /** A stack word: a BigInt in [0, 2^256). */
  type Word = w: nat | w < TWO_256

  /** toSigned: reads a word as a two's-complement signed integer. */
  function ToSigned(x: int): (r: int)
    ensures 0 <= x < TWO_256 ==> -TWO_255 <= r < TWO_255 && (x - r) % TWO_256 == 0
    ensures x < TWO_255 ==> r == x
  {
    if x >= TWO_255 then x - MAX_UINT256 else x
  }

  /** toUnsigned: the word that encodes a signed integer. */
  function ToUnsigned(x: int): (r: int)
    ensures -TWO_256 <= x < TWO_256 ==> 0 <= r < TWO_256 && (r - x) % TWO_256 == 0
    ensures x >= 0 ==> r == x
  {
    if x < 0 then x + MAX_UINT256 else x
  }

  /** Reading a word as signed and encoding it again gives the word back. */
  lemma UnsignedOfSigned(x: Word)
    ensures ToUnsigned(ToSigned(x)) == x
  {
  }

  /** Encoding a signed value in range and reading it back gives the value back. */
  lemma SignedOfUnsigned(y: int)
    requires -TWO_255 <= y < TWO_255
    ensures ToSigned(ToUnsigned(y)) == y
  {
  }

  /** The signed reading is negative exactly for the words with the top bit set. */
  lemma SignedNegative(x: Word)
    ensures ToSigned(x) < 0 <==> x >= TWO_255
  {
  }
}
