/** The reader object of the CPU decoder (`JpegDecompressor` of src/jpeg-cpu.c:
    `data`, `length`, `ptr`, `bit_buffer`, `bits_left`) and its reading
    operations, each proved against the functions of Stream and Bits. */
module Cursor {
  import opened Bytes
  import opened Markers
  import opened Stream
  import opened Bits
  import opened Arith

  class Decompressor {
    const data: seq<byte>
    /** `length`: the number of bytes that belong to this reader. */
    const length: int
    var pos: int
    var bitBuffer: nat
    var bitsLeft: nat

    /** A reader over `data` at its first byte with an empty bit buffer
        (`decompressor.data = buffer; ptr = data; init_jpeg_decompressor`). */
    constructor (data: seq<byte>)
      ensures this.data == data && length == |data| && pos == 0
      ensures bitBuffer == 0 && bitsLeft == 0
    {
      this.data := data;
      length := |data|;
      pos := 0;
      bitBuffer := 0;
      bitsLeft := 0;
    }

    function Bits(): BitState
      reads this
    {
      BitState(pos, bitBuffer, bitsLeft)
    }

    /** `is_eof`. */
    predicate IsEof()
      reads this
    {
      pos >= length
    }

    /** `read_byte`: no end-of-data check. */
    method ReadByte() returns (b: byte)
      modifies this`pos
      ensures b == ByteAt(data, old(pos)) && pos == old(pos) + 1
    {
      b := ByteAt(data, pos);
      pos := pos + 1;
    }

    /** `read_short`. */
    method ReadShort() returns (r: nat)
      modifies this`pos
      ensures r == ShortAt(data, old(pos)) && pos == old(pos) + 2
    {
      var b1 := ReadByte();
      var b2 := ReadByte();
      r := BigEndian16(b1, b2);
    }

    /** `skip_bytes`. */
    method SkipBytes(n: int)
      modifies this`pos
      ensures pos == SkipTarget(length, old(pos), n)
    {
      pos := pos + n;
      if IsEof() {
        pos := length;
      }
    }

    /** `skip_marker`; the caller clears the validity flag on `JpegInvalid`. */
    method SkipMarker() returns (s: Status)
      modifies this`pos
      ensures (s, pos) == SkipMarkerSpec(data, length, old(pos))
    {
      var len: int := ReadShort();
      len := len - 2;
      if len < 0 {
        return JpegInvalid;
      }
      SkipBytes(len);
      s := JpegValid;
    }

    /** `count_and_skip_non_marker_bytes`. */
    method CountAndSkipNonMarkerBytes() returns (n: int)
      modifies this`pos
      ensures (n, pos) == CountNonMarker(data, length, old(pos))
    {
      var count: nat := 0;
      var b := ReadByte();
      while b != 0xFF
        invariant NonMarkerScan(data, length, pos, count, b) == CountNonMarker(data, length, old(pos))
        decreases length - pos
      {
        if IsEof() {
          return -1;
        }
        count := count + 1;
        b := ReadByte();
      }
      n := count;
    }

    /** `get_marker_and_ignore_ff_bytes`. */
    method GetMarkerAndIgnoreFFBytes() returns (m: int)
      modifies this`pos
      ensures (m, pos) == MarkerAfterFF(data, length, old(pos))
    {
      while true
        invariant MarkerAfterFF(data, length, pos) == MarkerAfterFF(data, length, old(pos))
        decreases length - pos
      {
        if IsEof() {
          return -1;
        }
        var b := ReadByte();
        if b != 0xFF {
          return b;
        }
      }
    }

    /** `skip_to_next_marker`. */
    method SkipToNextMarker() returns (m: int)
      modifies this`pos
      ensures (m, pos) == NextMarker(data, length, old(pos))
    {
      var skipped := CountAndSkipNonMarkerBytes();
      m := GetMarkerAndIgnoreFFBytes();
    }

    /** The byte-loading step of get_num_bits: one byte, with stuffing removed. */
    method ReadDestuffedByte() returns (a: int)
      modifies this`pos
      ensures (a, pos) == Destuff(data, old(pos))
    {
      var t := ReadByte();
      a := t;
      while t == 0xFF
        invariant (if t == 0xFF then AfterStuffingFF(data, pos) else (a, pos)) == Destuff(data, old(pos))
        invariant t == 0xFF ==> pos <= |data|
        decreases |data| - pos
      {
        t := ReadByte();
        if t == 0 {
          a := 0xFF;
        } else if RST_FIRST <= t <= RST_LAST {
          t := ReadByte();
          a := t;
        } else {
          a := t;
        }
      }
    }

    /** The refill loop of `get_num_bits`: load destuffed bytes below the pending
        bits until at least n are available. */
    method Refill(n: nat)
      requires Aligned(Bits()) && n <= 25
      modifies this`pos, this`bitBuffer, this`bitsLeft
      ensures Bits() == Fill(data, old(Bits()), n)
    {
      while bitsLeft < n
        invariant Aligned(Bits())
        invariant Fill(data, Bits(), n) == Fill(data, old(Bits()), n)
        decreases n - bitsLeft
      {
        var before := Bits();
        var a := ReadDestuffedByte();
        DestuffMeaning(data, before.pos);
        var next := Load(before, a, pos);
        bitBuffer := next.buffer;
        bitsLeft := next.bitsLeft;
      }
    }

    /** `get_num_bits(d, n)`; n is at most 25 so that the shift `32 - 8 - bits_left`
        of the refill is never negative. */
    method GetNumBits(n: nat) returns (bits: nat)
      requires Aligned(Bits()) && n <= 25
      modifies this`pos, this`bitBuffer, this`bitsLeft
      ensures (bits, Bits()) == GetBits(data, old(Bits()), n)
    {
      if n == 0 {
        return 0;
      }
      Refill(n);
      DivNonneg(bitBuffer, Pow2(32 - n));
      bits := bitBuffer / Pow2(32 - n);
      bitBuffer := U32(bitBuffer * Pow2(n));
      bitsLeft := bitsLeft - n;
    }

    /** Drop the bits up to the next byte boundary. */
    method AlignBits()
      requires Aligned(Bits())
      modifies this`bitBuffer, this`bitsLeft
      ensures Bits() == AlignToByte(old(Bits()))
    {
      var offset := bitsLeft % 8;
      if offset != 0 {
        TakeAligned(Bits(), offset);
        bitBuffer := U32(bitBuffer * Pow2(offset));
        bitsLeft := bitsLeft - offset;
      }
    }
  }
}
