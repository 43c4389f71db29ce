/** The bit cursor that penji/mcu_block_counter.c and penji/remove_mcu.c keep
    over the entropy-coded data of a scan (`scan_buf`, `valid_buf_bits`,
    `input_data`, `input_data_bit_index`), and what it means: the position
    of the next bit in the stream of bytes `read_1_byte` returns, and the
    bits the scan buffer holds. */
module ScanBits {
  import opened Bytes
  import opened Arith
  import opened PenjiUtil

  /** `scan_buf` (an `unsigned short`), `valid_buf_bits`, `input_data` and
      `input_data_bit_index` (`unsigned char`s), and the file they read. */
  datatype Bits = Bits(fs: FileState, scanBuf: int, valid: int, input: byte, index: int)

  /** `(input_data >> (7 - index)) & 0x01`: bit `index` of a byte, counted
      from the most significant. */
  function Bit(input: byte, index: int): (r: int)
    requires 0 <= index < 8
    ensures r == 0 || r == 1
  {
    (input as int / Pow2(7 - index)) % 2
  }

  /** `add_bit_to_scan_buf` without the asserts of penji/remove_mcu.c: the
      next bit is shifted into `scan_buf`, both counters go up, and after the
      last bit of `input_data` the next byte is loaded. */
  function AddBit(data: seq<byte>, b: Bits): (r: Bits)
    requires 0 <= b.index < 8
    ensures 0 <= r.index < 8 && 0 <= r.valid < 256 && 0 <= r.scanBuf < 65536
    ensures 0 <= b.valid < 255 ==> r.valid == b.valid + 1
    ensures Ahead(data, b, r)
  {
    var sb := U16(b.scanBuf * 2 + Bit(b.input, b.index));
    var v := U8(b.valid + 1);
    if b.index + 1 > 7 then
      var rd := Read1(data, b.fs);
      Bits(rd.1, sb, v, rd.0, 0)
    else Bits(b.fs, sb, v, b.input, b.index + 1)
  }

  /** The trailing loop of `input_data_skip_bits` (the same in both tools):
      2-byte reads while 16 bits or more are left, a 1-byte read for 8 or
      more, and otherwise a byte loaded with the index set to what is left. */
  function SkipLoop(data: seq<byte>, fs: FileState, input: byte, index: int, n: int): (r: (FileState, byte, int))
    requires 0 <= index < 8
    ensures 0 <= r.2 < 8 && r.0.rs.pos >= fs.rs.pos && (fs.exited ==> r.0.exited)
    ensures !r.0.exited && n > 0 ==> fs.rs.pos < r.0.rs.pos <= |data|
    decreases n
  {
    if n <= 0 then (fs, input, index)
    else if n >= 16 then SkipLoop(data, Read2(data, fs).1, input, index, n - 16)
    else if n >= 8 then SkipLoop(data, Read1(data, fs).1, input, index, n - 8)
    else
      var rd := Read1(data, fs);
      (rd.1, rd.0, n)
  }

  /** The cursor r is not behind b in the file: the program has exited,
      or r is further on, or at the same byte with an index at least as
      large; an exit is never undone. */
  predicate NotBehind(data: seq<byte>, b: Bits, r: Bits)
  {
    (b.fs.exited ==> r.fs.exited) && (InFile(data, b.fs) ==> InFile(data, r.fs))
    && (r.fs.exited || r.fs.rs.pos > b.fs.rs.pos || (r.fs.rs.pos == b.fs.rs.pos && r.index >= b.index))
  }

  /** The cursor r is strictly ahead of b, or the program has exited. */
  predicate Ahead(data: seq<byte>, b: Bits, r: Bits)
  {
    (b.fs.exited ==> r.fs.exited) && (InFile(data, b.fs) ==> InFile(data, r.fs))
    && (r.fs.exited || r.fs.rs.pos > b.fs.rs.pos || (r.fs.rs.pos == b.fs.rs.pos && r.index > b.index))
  }

  /** Until the program exits, the position stays within the file. */
  predicate InFile(data: seq<byte>, fs: FileState)
  {
    !fs.exited ==> fs.rs.pos <= |data|
  }

  // ------------------------------------------------------------ the stream view

  /** Byte k of what `read_1_byte` returns from fs0 on. */
  function StreamByte(data: seq<byte>, fs0: FileState, k: nat): byte
  {
    ReadBytes(data, fs0, k + 1).0[k]
  }

  /** Bit p of that stream, the most significant bit of each byte first. */
  function StreamBit(data: seq<byte>, fs0: FileState, p: nat): int
  {
    Bit(StreamByte(data, fs0, p / 8), p % 8)
  }

  /** The cursor has read m bytes from fs0, holds the last of them in
      `input_data` and has used `index` of its bits. */
  predicate At(data: seq<byte>, fs0: FileState, b: Bits, m: nat)
  {
    1 <= m && b.fs == ReadBytes(data, fs0, m).1 && b.input == StreamByte(data, fs0, m - 1) && 0 <= b.index < 8
  }

  /** The position of the next bit, counted from the first bit after fs0. */
  function Position(b: Bits, m: nat): int
  {
    8 * (m - 1) + b.index
  }

  /** The value of the len stream bits from start on, as a binary number. */
  function Code(data: seq<byte>, fs0: FileState, start: nat, len: nat): (r: nat)
    ensures r < Pow2(len)
  {
    if len == 0 then 0 else 2 * Code(data, fs0, start, len - 1) + StreamBit(data, fs0, start + len - 1)
  }

  /** The scan buffer holds the `valid_buf_bits` bits before the cursor. */
  predicate Window(data: seq<byte>, fs0: FileState, b: Bits, m: nat)
  {
    At(data, fs0, b, m) && 0 <= b.valid <= 16 && b.valid <= Position(b, m)
    && b.scanBuf == Code(data, fs0, Position(b, m) - b.valid, b.valid)
  }

  /** The bytes read so far do not change as more are read. */
  lemma StreamByteStable(data: seq<byte>, fs0: FileState, k: nat, m: nat)
    requires k < m
    ensures ReadBytes(data, fs0, m).0[k] == StreamByte(data, fs0, k)
  {
    ReadBytesSplit(data, fs0, k + 1, m - (k + 1));
  }

  /** Reading on from m bytes gives byte m of the stream. */
  lemma ReadNext(data: seq<byte>, fs0: FileState, m: nat)
    ensures Read1(data, ReadBytes(data, fs0, m).1) == (StreamByte(data, fs0, m), ReadBytes(data, fs0, m + 1).1)
  {
    ReadBytesSplit(data, fs0, m, 1);
    ReadBytesOne(data, ReadBytes(data, fs0, m).1);
    StreamByteStable(data, fs0, m, m + 1);
  }

  lemma PositionParts(b: Bits, m: nat)
    requires 1 <= m && 0 <= b.index < 8
    ensures Position(b, m) >= 0 && Position(b, m) / 8 == m - 1 && Position(b, m) % 8 == b.index
  {
    DivModUnique(m - 1, 8, b.index);
  }

  /** `add_bit_to_scan_buf` takes the bit at the cursor, shifts it into
      `scan_buf` and moves the cursor one bit on. */
  lemma AddBitAdvances(data: seq<byte>, fs0: FileState, b: Bits, m: nat)
    requires At(data, fs0, b, m)
    ensures var r := AddBit(data, b); var m' := if b.index == 7 then m + 1 else m;
      r.scanBuf == U16(2 * b.scanBuf + StreamBit(data, fs0, Position(b, m)))
      && r.valid == U8(b.valid + 1)
      && At(data, fs0, r, m') && Position(r, m') == Position(b, m) + 1
  {
    PositionParts(b, m);
    if b.index == 7 {
      ReadNext(data, fs0, m);
    }
  }

  /** With room left, the scan buffer keeps holding exactly the bits before
      the cursor: one more valid bit, the newest the least significant. */
  lemma AddBitWindow(data: seq<byte>, fs0: FileState, b: Bits, m: nat)
    requires Window(data, fs0, b, m) && b.valid < 16
    ensures var m' := if b.index == 7 then m + 1 else m;
      Window(data, fs0, AddBit(data, b), m') && AddBit(data, b).valid == b.valid + 1
  {
    AddBitAdvances(data, fs0, b, m);
    var p := Position(b, m);
    WindowShift(data, fs0, b, m);
    Pow2Monotone(b.valid + 1, 16);
    Pow2At16();
    ShiftIn(b.scanBuf, StreamBit(data, fs0, p), Code(data, fs0, p - b.valid, b.valid + 1), Pow2(b.valid + 1));
    U8Small(b.valid + 1);
    var m' := if b.index == 7 then m + 1 else m;
    WindowOf(data, fs0, AddBit(data, b), m', p - b.valid);
  }

  lemma WindowOf(data: seq<byte>, fs0: FileState, r: Bits, m: nat, start: nat)
    requires At(data, fs0, r, m) && 0 <= r.valid <= 16 && Position(r, m) == start + r.valid
    requires r.scanBuf == Code(data, fs0, start, r.valid)
    ensures Window(data, fs0, r, m)
  {
  }

  /** The code of the window one bit longer is the window's code followed by
      the bit at the cursor. */
  lemma WindowShift(data: seq<byte>, fs0: FileState, b: Bits, m: nat)
    requires Window(data, fs0, b, m)
    ensures Code(data, fs0, Position(b, m) - b.valid, b.valid + 1) == 2 * b.scanBuf + StreamBit(data, fs0, Position(b, m))
  {
    CodeStep(data, fs0, Position(b, m) - b.valid, b.valid, Position(b, m));
  }

  /** Shifting a bit into a 16-bit buffer that has room loses nothing. */
  lemma ShiftIn(x: int, bit: int, c: nat, bound: nat)
    requires c == 2 * x + bit && c < bound <= 65536
    ensures U16(2 * x + bit) == c
  {
    U16Small(c);
  }

  lemma CodeStep(data: seq<byte>, fs0: FileState, start: nat, len: nat, p: nat)
    requires p == start + len
    ensures Code(data, fs0, start, len + 1) == 2 * Code(data, fs0, start, len) + StreamBit(data, fs0, p)
  {
  }

  /** The trailing loop of `input_data_skip_bits` reads q = n / 8 whole
      bytes and, when rest = n % 8 bits are left over, one more byte, which
      it points into. */
  lemma {:induction false} SkipLoopReads(data: seq<byte>, fs0: FileState, m: nat, input: byte, index: int, n: int, q: nat, rest: int)
    requires 0 <= index < 8 && n == 8 * q + rest && 0 <= rest < 8
    ensures var r := SkipLoop(data, ReadBytes(data, fs0, m).1, input, index, n);
      if rest == 0 then r == (ReadBytes(data, fs0, m + q).1, input, index)
      else r == (ReadBytes(data, fs0, m + q + 1).1, StreamByte(data, fs0, m + q), rest)
    decreases n
  {
    var fs := ReadBytes(data, fs0, m).1;
    if n >= 16 {
      ReadAfter(data, fs0, m, 2);
      assert SkipLoop(data, fs, input, index, n) == SkipLoop(data, ReadBytes(data, fs0, m + 2).1, input, index, n - 16);
      SkipLoopReads(data, fs0, m + 2, input, index, n - 16, q - 2, rest);
    } else if n >= 8 {
      ReadAfter(data, fs0, m, 1);
      assert SkipLoop(data, fs, input, index, n) == SkipLoop(data, ReadBytes(data, fs0, m + 1).1, input, index, n - 8);
      SkipLoopReads(data, fs0, m + 1, input, index, n - 8, q - 1, rest);
    } else if n > 0 {
      ReadNext(data, fs0, m);
    }
  }

  /** Reading one or two more bytes after m bytes leaves the file where
      reading m + 1 or m + 2 bytes leaves it. */
  lemma ReadAfter(data: seq<byte>, fs0: FileState, m: nat, k: nat)
    requires k == 1 || k == 2
    ensures k == 1 ==> Read1(data, ReadBytes(data, fs0, m).1).1 == ReadBytes(data, fs0, m + 1).1
    ensures k == 2 ==> Read2(data, ReadBytes(data, fs0, m).1).1 == ReadBytes(data, fs0, m + 2).1
  {
    ReadBytesSplit(data, fs0, m, k);
    if k == 1 {
      ReadBytesOne(data, ReadBytes(data, fs0, m).1);
    }
  }

  /** A skip of n bits as intended: the index moves n bits on, whole bytes
      in between are read and the byte holding the next bit is loaded. */
  function ExactSkip(data: seq<byte>, b: Bits, n: int): (r: Bits)
    requires 0 <= b.index < 8 && 0 <= n
  {
    var q := b.index + n;
    if q < 8 then b.(index := q)
    else
      var rd := ReadBytes(data, b.fs, q / 8);
      b.(fs := rd.1, input := rd.0[q / 8 - 1], index := q % 8)
  }

  /** The intended skip moves the cursor exactly n bits on. */
  lemma ExactSkipAdvances(data: seq<byte>, fs0: FileState, b: Bits, m: nat, n: int)
    requires At(data, fs0, b, m) && 0 <= n
    ensures var q := b.index + n; var m' := m + q / 8;
      At(data, fs0, ExactSkip(data, b, n), m') && Position(ExactSkip(data, b, n), m') == Position(b, m) + n
  {
    var q := b.index + n;
    if q >= 8 {
      ReadBytesSplit(data, fs0, m, q / 8);
      StreamByteStable(data, fs0, m + q / 8 - 1, m + q / 8);
      var rd := ReadBytes(data, b.fs, q / 8);
      assert ReadBytes(data, fs0, m + q / 8).0 == ReadBytes(data, fs0, m).0 + rd.0;
      assert rd.0[q / 8 - 1] == ReadBytes(data, fs0, m + q / 8).0[m + q / 8 - 1];
      DivModParts(q, 8);
    }
  }
}
