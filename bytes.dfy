/** Machine-level integer vocabulary shared by every part of the decoder model:
    bytes, the fixed-width wrap-arounds of C stores, arithmetic shifts and
    big-endian 16-bit values. */
module Bytes {

  /** An `uint8_t`. */
  type byte = x: int | 0 <= x < 256

  datatype Option<T> = None | Some(value: T)

  /** 2 to the power k. */
  function Pow2(k: nat): (r: nat)
    ensures r >= 1
  {
    if k == 0 then 1 else 2 * Pow2(k - 1)
  }

  lemma {:induction false} Pow2Add(a: nat, b: nat)
    ensures Pow2(a + b) == Pow2(a) * Pow2(b)
  {
    if a > 0 {
      Pow2Add(a - 1, b);
    }
  }

  lemma Pow2Split(a: nat, b: nat, c: nat)
    requires a + b == c
    ensures Pow2(c) == Pow2(a) * Pow2(b)
  {
    Pow2Add(a, b);
  }

  lemma {:induction false} Pow2Monotone(a: nat, b: nat)
    requires a <= b
    ensures Pow2(a) <= Pow2(b)
  {
    if a < b {
      Pow2Monotone(a, b - 1);
    }
  }

  lemma Pow2At8()
    ensures Pow2(8) == 256
  {
    assert Pow2(4) == 16;
    Pow2Add(4, 4);
  }

  lemma Pow2At16()
    ensures Pow2(16) == 65536
  {
    Pow2At8();
    Pow2Add(8, 8);
  }

  lemma Pow2At32()
    ensures Pow2(32) == 0x1_0000_0000
  {
    Pow2At16();
    Pow2Add(16, 16);
  }

  /** The byte of memory at index i, or 0 past the end of the modelled memory. */
  function ByteAt(data: seq<byte>, i: int): byte
  {
    if 0 <= i < |data| then data[i] else 0
  }

  /** A C `>>` on a signed int: an arithmetic shift, i.e. division rounded towards
      minus infinity (Dafny's `/` by a positive divisor rounds that way). */
  function Shr(x: int, k: nat): int
  {
    x / Pow2(k)
  }

  /** A value stored into a `short`: two's-complement truncation to 16 bits. */
  function Int16(x: int): (r: int)
    ensures -32768 <= r < 32768
    ensures (r - x) % 65536 == 0
  {
    (x + 32768) % 65536 - 32768
  }

  /** A value stored into an `uint8_t`. */
  function U8(x: int): (r: byte)
    ensures (r - x) % 256 == 0
  {
    x % 256
  }

  /** A value stored into an `uint16_t` / `unsigned short`. */
  function U16(x: int): (r: nat)
    ensures r < 65536 && (r - x) % 65536 == 0
  {
    x % 65536
  }

  /** A value stored into an `uint32_t`. */
  function U32(x: int): (r: nat)
    ensures r < 0x1_0000_0000 && (r - x) % 0x1_0000_0000 == 0
  {
    x % 0x1_0000_0000
  }

  lemma U8Small(x: int)
    requires 0 <= x < 256
    ensures U8(x) == x
  {
  }

  lemma U16Small(x: int)
    requires 0 <= x < 65536
    ensures U16(x) == x
  {
  }

  lemma U32Small(x: int)
    requires 0 <= x < 0x1_0000_0000
    ensures U32(x) == x
  {
  }

  /** The high nibble `(b >> 4) & 0x0F` and the low nibble `b & 0x0F` of a byte. */
  function HighNibble(b: byte): (r: int)
    ensures 0 <= r < 16
  {
    b / 16
  }

  function LowNibble(b: byte): (r: int)
    ensures 0 <= r < 16
  {
    b % 16
  }

  lemma NibblesRecombine(b: byte)
    ensures HighNibble(b) * 16 + LowNibble(b) == b
  {
  }

  /** `(b1 << 8) | b2`: a big-endian 16-bit value. */
  function BigEndian16(b1: byte, b2: byte): (r: nat)
    ensures r < 65536
    ensures r / 256 == b1 && r % 256 == b2
  {
    b1 * 256 + b2
  }
}
