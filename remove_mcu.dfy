/** penji/remove_mcu.c: a tool that drops the MCUs of every odd column of a
    single-component baseline scan, halves the samples-per-line field of
    the frame header, and splices the bits of the kept MCUs together.
    Unlike penji/mcu_block_counter.c it checks its cursor with `assert`s;
    a failing assert aborts the program, which the model records as an
    outcome of its own. */
module RemoveMcu {
  import opened Bytes
  import opened Arith
  import opened PenjiUtil
  import opened ScanBits
  import opened McuCounter

  // ------------------------------------------------------------ add_bit_to_scan_buf

  /** `add_bit_to_scan_buf` with its two asserts: none where an assert fails
      and the program aborts. */
  function AddBitChecked(data: seq<byte>, b: Bits): (r: Option<Bits>)
    requires Cursor(b)
    ensures r.Some? <==> b.valid < 16
    ensures r.Some? ==> Cursor(r.value) && r.value.valid == b.valid + 1 && Ahead(data, b, r.value)
  {
    if b.valid < 16 && b.index < 8 then Some(AddBit(data, b)) else None
  }

  /** The asserts of `add_bit_to_scan_buf` fail exactly when the scan
      buffer is full; until then a buffer holding the bits before the
      cursor keeps holding them, one more each time. */
  lemma AddBitCheckedWindow(data: seq<byte>, fs0: FileState, b: Bits, m: nat)
    requires Window(data, fs0, b, m) && Cursor(b)
    ensures var r := AddBitChecked(data, b); var m' := if b.index == 7 then m + 1 else m;
      (r.None? <==> b.valid == 16) && (r.Some? ==> Window(data, fs0, r.value, m'))
  {
    if b.valid < 16 {
      AddBitWindow(data, fs0, b, m);
    }
  }

  // ------------------------------------------------------------ input_data_skip_bits

  /** `input_data_skip_bits` of penji/remove_mcu.c. A skip past the current
      byte clears `input_data` and leaves the bits beyond the byte to the
      trailing loop; a skip to the end of the byte loads the next byte with
      index 0; a shorter skip only moves the index. In every branch `nbits`
      ends at 0 and the index below 8. */
  function SkipRm(data: seq<byte>, b: Bits, n: int): (r: Bits)
    requires 0 <= b.index < 8 && 0 <= n
    ensures r.scanBuf == b.scanBuf && r.valid == b.valid && 0 <= r.index < 8
    ensures NotBehind(data, b, r)
  {
    if n > 8 - b.index then
      var s := SkipLoop(data, b.fs, 0, 0, n - (8 - b.index));
      b.(fs := s.0, input := s.1, index := s.2)
    else if n == 8 - b.index then
      var rd := Read1(data, b.fs);
      b.(fs := rd.1, input := rd.0, index := 0)
    else b.(index := b.index + n)
  }

  /** Where the skip leaves the cursor. It moves exactly n bits on, as
      ExactSkip does, except when the bits past the current byte fill k / 8
      whole bytes: then it reads those bytes only and leaves the cursor on a
      cleared `input_data`, while the exact skip reads one byte more and
      points into it. */
  lemma SkipRmLands(data: seq<byte>, b: Bits, n: int)
    requires 0 <= b.index < 8 && 0 <= n
    ensures var k := n - (8 - b.index);
      ((k <= 0 || k % 8 != 0) ==> SkipRm(data, b, n) == ExactSkip(data, b, n))
      && (k > 0 && k % 8 == 0 ==>
            SkipRm(data, b, n) == b.(fs := ReadBytes(data, b.fs, k / 8).1, input := 0, index := 0)
            && ExactSkip(data, b, n).fs == ReadBytes(data, b.fs, k / 8 + 1).1)
  {
    var k := n - (8 - b.index);
    assert ReadBytes(data, b.fs, 0).1 == b.fs;
    if k > 0 {
      DivModParts(k, 8);
      SkipLoopReads(data, b.fs, 0, 0, 0, k, k / 8, k % 8);
      DivModUnique(k / 8 + 1, 8, k % 8);
      if k % 8 != 0 {
        StreamByteStable(data, b.fs, k / 8, k / 8 + 1);
      }
    } else if k == 0 {
      ReadBytesOne(data, b.fs);
    }
  }

  /** Inputs the skip gets wrong: an AC symbol with 10 extra bits read at
      bit index 6 of the first byte of a file whose next two bytes are any
      byte but 0xFF and then 0xD6. The bits past the current byte are
      exactly one byte, so the skip reads that byte and stops on a cleared
      `input_data`: the next bit the decoder takes is a 0 from the cleared
      byte, where the stream holds the 1 that starts 0xD6. */
  lemma SkipRmStopsShort(data: seq<byte>, b: Bits)
    requires b.fs == Opened() && b.index == 6 && |data| == 2 && data[0] != 0xFF && data[1] == 0xD6
    ensures Bit(SkipRm(data, b, 10).input, SkipRm(data, b, 10).index) == 0
    ensures Bit(ExactSkip(data, b, 10).input, ExactSkip(data, b, 10).index) == 1
  {
    SkipRmLands(data, b, 10);
    assert Pow2(7) == 128;
    var r1 := Read1(data, b.fs);
    assert r1.1 == FileState(ReadState(1, data[0], 0), false);
    var two := ReadBytes(data, b.fs, 2);
    assert two.0 == [r1.0] + ReadBytes(data, r1.1, 1).0;
    assert ReadBytes(data, r1.1, 1).0 == [0xD6] by {
      ReadBytesOne(data, r1.1);
    }
    var e := ExactSkip(data, b, 10);
    assert e.index == 0 && e.input == two.0[1];
  }

  // ------------------------------------------------------------ process_mcu

  /** The result of one symbol loop: the program aborted, the cursor
      after the symbol found, or the cursor where `read_1_byte` exited at
      the end of the file. */
  datatype Symbol = Aborted | Got(cursor: Bits, sym: HuffSymbol) | Exited(cursor: Bits)

  /** The `while (*valid_buf_bits <= 16)` loop of `process_mcu` in
      penji/remove_mcu.c, entered while the program runs: bits are added
      until the buffer matches a code of the table, which clears the buffer;
      adding a 17th bit fails the assert of `add_bit_to_scan_buf`, and a bit
      that needs a byte past the end of the file ends the program. */
  function NextSymbolRm(data: seq<byte>, t: PenjiTable, b: Bits): (r: Symbol)
    requires Chains(t) && Cursor(b) && b.valid <= 16 && !b.fs.exited
    ensures r.Got? ==> Cursor(r.cursor) && r.cursor.valid == 0 && r.cursor.scanBuf == 0 && NotBehind(data, b, r.cursor)
                       && !r.cursor.fs.exited
    ensures r.Exited? ==> Cursor(r.cursor) && r.cursor.fs.exited && NotBehind(data, b, r.cursor)
    decreases 16 - b.valid
  {
    var s := FindEntry(t, b.scanBuf, b.valid);
    if s.Some? then Got(b.(scanBuf := 0, valid := 0), s.value)
    else match AddBitChecked(data, b)
      case None => Aborted
      case Some(b') => if b'.fs.exited then Exited(b') else NextSymbolRm(data, t, b')
  }

  /** The checked loop finds the same symbol, with the cursor in the same
      place, as the unchecked loop of penji/mcu_block_counter.c; it aborts
      only where that loop gives up after 17 bits; and where it stops at
      the end of the file, the unchecked loop, which goes on over the
      exited reads, has exited too. */
  lemma {:induction false} NextSymbolRmAgrees(data: seq<byte>, t: PenjiTable, b: Bits)
    requires Chains(t) && Cursor(b) && b.valid <= 16 && !b.fs.exited
    ensures var r := NextSymbolRm(data, t, b); var d := NextSymbol(data, t, b);
      (r.Aborted? ==> d.sym.None?) && (r.Got? ==> d == Decoding(r.cursor, Some(r.sym)))
      && (r.Exited? ==> d.cursor.fs.exited)
    decreases 16 - b.valid
  {
    var s := FindEntry(t, b.scanBuf, b.valid);
    if s.None? && b.valid < 16 && !AddBit(data, b).fs.exited {
      NextSymbolRmAgrees(data, t, AddBit(data, b));
    }
  }

  /** How a part of `process_mcu` ends: an assert fails, `read_1_byte`
      exits at the end of the file (with the cursor where it stood), or the
      part runs to its end. */
  datatype Part<T> = Abort | Eof(at: Bits) | Done(value: T)

  /** The DC part of `process_mcu`: one symbol, whose value is the number
      of bits skipped (0 skips nothing). A value with a nonzero high nibble
      fails the assert on `value & 0xF0`; a cursor that arrives with more
      than 16 bits fails the assert after the loop; a read past the end of
      the file ends the program first. */
  function DcRm(data: seq<byte>, dc: PenjiTable, b: Bits): (r: Part<Bits>)
    requires Chains(dc) && Cursor(b) && !b.fs.exited
    ensures r.Done? ==> Cursor(r.value) && r.value.valid == 0 && NotBehind(data, b, r.value) && !r.value.fs.exited
    ensures r.Eof? ==> Cursor(r.at) && r.at.fs.exited && NotBehind(data, b, r.at)
    ensures b.valid > 16 ==> r.Abort?
  {
    if b.valid > 16 then Abort
    else match NextSymbolRm(data, dc, b)
      case Aborted => Abort
      case Exited(c) => Eof(c)
      case Got(c, s) =>
        match DcValue(data, c, s.value)
        case None => Abort
        case Some(c') => if c'.fs.exited then Eof(c') else Done(c')
  }

  /** After the DC symbol: no bits for value 0, the assert that the value
      is below 16, and then that many bits skipped. */
  function DcValue(data: seq<byte>, c: Bits, v: int): (r: Option<Bits>)
    requires Cursor(c) && c.valid == 0 && 0 <= v
    ensures r.Some? ==> Cursor(r.value) && r.value.valid == 0 && NotBehind(data, c, r.value)
    ensures r.Some? <==> v < 16
  {
    if v == 0 then Some(c)
    else if v / 16 != 0 then None
    else Some(SkipRm(data, c, v))
  }

  /** The cursor after a block and the coefficient indices recorded in
      `mcu_indices`. */
  datatype Block = Block(cursor: Bits, indices: seq<int>)

  /** One pass of the AC loop of `process_mcu`: it halts where an assert
      fails, ends the block, moves on to the next coefficient index, having
      maybe recorded one, or stops where `read_1_byte` exits. */
  datatype Step = Halt | EndOfBlock(cursor: Bits) | Moved(cursor: Bits, next: int, recorded: Option<int>) | Stopped(cursor: Bits)

  /** The pass at coefficient i. With more than 16 bits in the buffer
      nothing is read. End of block (value 0) ends the block; ZRL (0xF0)
      adds 16 to i, asserts i < 64 and reads no bits; any other value adds
      its run length (high nibble, below 16 so its assert always holds) to
      i, skips its low nibble in bits and records i. The `for` loop then
      adds one more. A read past the end of the file stops the pass. */
  function AcNext(data: seq<byte>, ac: PenjiTable, b: Bits, i: int): (r: Step)
    requires Chains(ac) && Cursor(b) && 1 <= i < 64 && !b.fs.exited
    ensures r.EndOfBlock? ==> Cursor(r.cursor) && NotBehind(data, b, r.cursor) && !r.cursor.fs.exited
    ensures r.Moved? ==> Cursor(r.cursor) && NotBehind(data, b, r.cursor) && i < r.next <= i + 17 && !r.cursor.fs.exited
    ensures r.Moved? && r.recorded.Some? ==> i <= r.recorded.value == r.next - 1
    ensures r.Stopped? ==> Cursor(r.cursor) && NotBehind(data, b, r.cursor) && r.cursor.fs.exited
    ensures b.valid > 16 ==> r == Moved(b, i + 1, None)
  {
    if b.valid > 16 then Moved(b, i + 1, None)
    else match NextSymbolRm(data, ac, b)
      case Aborted => Halt
      case Exited(c) => Stopped(c)
      case Got(c, s) => AcValue(data, c, s.value, i)
  }

  /** The pass at coefficient i once the symbol is decoded, with the cursor
      c after it. */
  function AcValue(data: seq<byte>, c: Bits, v: int, i: int): (r: Step)
    requires Cursor(c) && 0 <= v < 256 && 1 <= i < 64 && !c.fs.exited
    ensures r.EndOfBlock? ==> r.cursor == c
    ensures r.Moved? ==> Cursor(r.cursor) && NotBehind(data, c, r.cursor) && i < r.next <= i + 17 && !r.cursor.fs.exited
    ensures r.Moved? && r.recorded.Some? ==> i <= r.recorded.value == r.next - 1
    ensures r.Stopped? ==> Cursor(r.cursor) && NotBehind(data, c, r.cursor) && r.cursor.fs.exited
    ensures r.Halt? <==> v == 0xF0 && i + 16 >= 64
  {
    if v == 0 then EndOfBlock(c)
    else if v == 0xF0 then (if i + 16 < 64 then Moved(c, i + 17, None) else Halt)
    else
      var at := i + v / 16;
      var c' := SkipRm(data, c, v % 16);
      if c'.fs.exited then Stopped(c') else Moved(c', at + 1, Some(at))
  }

  /** The AC loop of `process_mcu` from coefficient i on, with the indices
      recorded so far. */
  function AcRm(data: seq<byte>, ac: PenjiTable, b: Bits, i: int, indices: seq<int>): (r: Part<Block>)
    requires Chains(ac) && Cursor(b) && 1 <= i && !b.fs.exited
    ensures r.Done? ==> Cursor(r.value.cursor) && NotBehind(data, b, r.value.cursor) && !r.value.cursor.fs.exited
    ensures r.Eof? ==> Cursor(r.at) && NotBehind(data, b, r.at) && r.at.fs.exited
    decreases 64 - i
  {
    if i >= 64 then Done(Block(b, indices))
    else match AcNext(data, ac, b, i)
      case Halt => Abort
      case Stopped(c) => Eof(c)
      case EndOfBlock(c) => Done(Block(c, indices + [i]))
      case Moved(c, next, recorded) =>
        AcRm(data, ac, c, next, if recorded.Some? then indices + [recorded.value] else indices)
  }

  /** The recorded indices strictly increase from 1 on. */
  predicate Increasing(s: seq<int>)
  {
    (forall j :: 0 <= j < |s| ==> s[j] >= 1) && (forall j, l :: 0 <= j < l < |s| ==> s[j] < s[l])
  }

  /** `mcu_indices` (64 entries) never overflows: one index at most is
      recorded per pass of the `for` loop, which makes at most 63; the
      indices recorded strictly increase. */
  lemma {:induction false} AcRmIndices(data: seq<byte>, ac: PenjiTable, b: Bits, i: int, indices: seq<int>)
    requires Chains(ac) && Cursor(b) && 1 <= i && !b.fs.exited
    requires |indices| <= i - 1 && |indices| <= 63 && Increasing(indices)
    requires forall j :: 0 <= j < |indices| ==> indices[j] < i
    ensures var r := AcRm(data, ac, b, i, indices);
      r.Done? ==> |r.value.indices| <= 63 && Increasing(r.value.indices) && indices <= r.value.indices
    decreases 64 - i
  {
    if i < 64 {
      match AcNext(data, ac, b, i)
      case Halt =>
      case Stopped(c) =>
      case EndOfBlock(c) =>
      case Moved(c, next, recorded) =>
        AcRmIndices(data, ac, c, next, if recorded.Some? then indices + [recorded.value] else indices);
    }
  }

  /** `process_mcu` of penji/remove_mcu.c: the DC part, then the AC loop
      from coefficient 1; it aborts where an assert fails and stops where
      `read_1_byte` exits, whichever comes first. */
  function McuRm(data: seq<byte>, dc: PenjiTable, ac: PenjiTable, b: Bits): (r: Part<Block>)
    requires Chains(dc) && Chains(ac) && Cursor(b) && !b.fs.exited
    ensures r.Done? ==> Cursor(r.value.cursor) && NotBehind(data, b, r.value.cursor) && !r.value.cursor.fs.exited
    ensures r.Eof? ==> Cursor(r.at) && NotBehind(data, b, r.at) && r.at.fs.exited
    ensures b.valid > 16 ==> r.Abort?
  {
    match DcRm(data, dc, b)
    case Abort => Abort
    case Eof(c) => Eof(c)
    case Done(c) => AcRm(data, ac, c, 1, [])
  }

  /** A block that does not abort records at most 63 strictly increasing
      coefficient indices, each at least 1. */
  lemma McuRmIndices(data: seq<byte>, dc: PenjiTable, ac: PenjiTable, b: Bits)
    requires Chains(dc) && Chains(ac) && Cursor(b) && !b.fs.exited
    ensures var r := McuRm(data, dc, ac, b);
      r.Done? ==> |r.value.indices| <= 63 && Increasing(r.value.indices)
  {
    var d := DcRm(data, dc, b);
    if d.Done? {
      AcRmIndices(data, ac, d.value, 1, []);
    }
  }

  // ------------------------------------------------------------ process_frame: the header

  /** `modified_samples_per_line`: half the samples per line, rounded up. */
  function ModifiedSamples(samples: int): (r: int)
    requires samples >= 0
    ensures 2 * r == samples || 2 * r == samples + 1
  {
    samples / 2 + (if samples % 2 == 0 then 0 else 1)
  }

  /** `expected_mcu_count = original_num_lines * original_samples_per_line / 64`
      as written: the product is an `int`, and a product past 2^31 - 1
      overflows, which C leaves undefined (none). */
  function ExpectedMcuCountAsWritten(lines: int, samples: int): (r: Option<int>)
    requires 0 <= lines < 65536 && 0 <= samples < 65536
    ensures r.Some? <==> lines * samples < 0x8000_0000
    ensures r.Some? ==> r.value == ExpectedMcuCount(lines, samples)
  {
    var product := lines * samples;
    if product < 0x8000_0000 then Some(product / 64) else None
  }

  /** The count the `long` variable is meant to hold: the number of whole
      64-sample blocks in the image. */
  function ExpectedMcuCount(lines: int, samples: int): (r: int)
    requires 0 <= lines && 0 <= samples
    ensures 0 <= r && 64 * r <= lines * samples < 64 * (r + 1)
  {
    lines * samples / 64
  }

  /** An image of 65535 by 65535 samples, which the 16-bit header fields
      allow, overflows the `int` product. */
  lemma ExpectedMcuCountOverflows()
    ensures ExpectedMcuCountAsWritten(65535, 65535).None?
  {
  }

  /** The two bytes `place_byte_into_buffer(v >> 16)` and
      `place_byte_into_buffer(v & 0x0000FFFF)` store for a 16-bit value v,
      each cut to the `unsigned char` the buffer holds: the high byte is
      always 0, so the field reads back as v only when v is below 256. */
  function FieldBytesAsWritten(v: int): (r: seq<byte>)
    requires 0 <= v < 65536
    ensures |r| == 2 && r[0] == 0
    ensures BigEndian16(r[0], r[1]) == v <==> v < 256
  {
    [U8(v / 65536), U8(v % 65536)]
  }

  /** The big-endian field the header needs: `v >> 8`, then `v & 0xFF`. */
  function FieldBytes(v: int): (r: seq<byte>)
    requires 0 <= v < 65536
    ensures |r| == 2 && BigEndian16(r[0], r[1]) == v
  {
    [v / 256, v % 256]
  }

  /** A 512-sample-wide image: its halved width 256 is written as 00 00. */
  lemma FieldBytesLoseHighByte()
    ensures FieldBytesAsWritten(ModifiedSamples(512)) == [0, 0]
    ensures FieldBytes(ModifiedSamples(512)) == [1, 0]
  {
  }

  // ------------------------------------------------------------ shifts of unsigned chars

  /** A left shift of a byte by k, stored back into an `unsigned char`,
      keeps its low 8 - k bits, moved up by k. */
  lemma ShlByte(x: int, k: nat)
    requires 0 <= x < 256 && k <= 8
    ensures U8(x * Pow2(k)) == (x % Pow2(8 - k)) * Pow2(k) && (x % Pow2(8 - k) + 1) * Pow2(k) <= 256
  {
    Pow2Split(8 - k, k, 8);
    Pow2At8();
    ShlParts(x, Pow2(8 - k), Pow2(k));
  }

  lemma ShlParts(x: int, lo: int, hi: int)
    requires 0 <= x < 256 && lo >= 1 && hi >= 1 && lo * hi == 256
    ensures (x * hi) % 256 == (x % lo) * hi && (x % lo + 1) * hi <= 256
  {
    DivModParts(x, lo);
    DivNonneg(x, lo);
    var q := x / lo;
    var r := x % lo;
    assert x * hi == q * 256 + r * hi by {
      assert x * hi == (q * lo) * hi + r * hi;
      MulAssoc(q, lo, hi);
    }
    MulMonoLe(r + 1, lo, hi);
    DivModUnique(q, 256, r * hi);
  }

  /** A number below lo * hi divided by lo is below hi. */
  lemma DivBelow(y: int, lo: nat, hi: nat)
    requires 0 <= y < lo * hi && lo >= 1
    ensures 0 <= y / lo < hi
  {
    DivModParts(y, lo);
    DivNonneg(y, lo);
    if y / lo >= hi {
      MulMonoLe(hi, y / lo, lo);
      assert false;
    }
  }

  /** Putting h above l, a number of d values: nothing carries. */
  lemma Join(h: int, l: int, d: nat)
    requires d >= 1 && 0 <= l < d && 0 <= h && (h + 1) * d <= 256
    ensures U8(h * d + l) == h * d + l && (h * d + l) / d == h && (h * d + l) % d == l
  {
    DivModUnique(h, d, l);
  }

  // ------------------------------------------------------------ the merge of process_scan

  /** Byte i of the buffer after the merge loop and the shift of the last
      byte (penji/remove_mcu.c, lines 242-290), with every `unsigned char`
      shift and sum computed as C does: promoted to `int` and stored back. */
  function SplicedAt(out: seq<byte>, i: int, append: nat, chop: nat): byte
    requires 0 <= i < |out| && |out| >= 2 && chop + append <= 8
  {
    var k := chop + append;
    if i == |out| - 1 then U8(out[i] * Pow2(k))
    else if i == 0 then
      var cur := U8(U8(out[0] / Pow2(append)) * Pow2(append));
      var next := U8(U8(U8(out[1] * Pow2(chop)) / Pow2(chop)) / Pow2(8 - chop - append));
      U8(cur + next)
    else U8(U8(out[i] * Pow2(k)) + U8(out[i + 1] / Pow2(8 - k)))
  }

  /** The whole buffer after the merge. */
  function Spliced(out: seq<byte>, append: nat, chop: nat): (r: seq<byte>)
    requires |out| >= 2 && chop + append <= 8
    ensures |r| == |out| && forall i :: 0 <= i < |out| ==> r[i] == SplicedAt(out, i, append, chop)
  {
    seq(|out|, i requires 0 <= i < |out| => SplicedAt(out, i, append, chop))
  }

  /** What the merge does to the bits: the first byte keeps its high
      8 - append bits and takes, below them, the append bits of the second
      byte that follow its first chop bits; every later byte but the last
      is the low 8 - k bits of itself followed by the high k bits of the
      byte after it (k = chop + append); the last byte is shifted up by k.
      No sum carries. */
  lemma SplicedBits(out: seq<byte>, i: int, append: nat, chop: nat)
    requires 0 <= i < |out| && |out| >= 2 && chop + append <= 8
    ensures var r := SplicedAt(out, i, append, chop); var k := chop + append;
      (i == 0 ==> r / Pow2(append) == out[0] / Pow2(append)
                  && r % Pow2(append) == (out[1] % Pow2(8 - chop)) / Pow2(8 - chop - append))
      && (0 < i < |out| - 1 ==> r / Pow2(k) == out[i] % Pow2(8 - k) && r % Pow2(k) == out[i + 1] / Pow2(8 - k))
      && (i == |out| - 1 ==> r == (out[i] % Pow2(8 - k)) * Pow2(k))
  {
    var k := chop + append;
    Pow2At8();
    if i == |out| - 1 {
      ShlByte(out[i], k);
    } else if i == 0 {
      Pow2Split(append, 8 - append, 8);
      Pow2Split(8 - chop, chop, 8);
      Pow2Split(8 - chop - append, append, 8 - chop);
      FirstByte(out[0], out[1], Pow2(append), Pow2(8 - append), Pow2(chop), Pow2(8 - chop), Pow2(8 - chop - append));
    } else {
      Pow2Split(8 - k, k, 8);
      MiddleByte(out[i], out[i + 1], Pow2(8 - k), Pow2(k));
    }
  }

  lemma MiddleByte(x: byte, y: byte, lo: int, hi: int)
    requires lo >= 1 && hi >= 1 && lo * hi == 256
    ensures var r := U8(U8(x * hi) + U8(y / lo));
      r / hi == x % lo && r % hi == y / lo
  {
    ShlParts(x, lo, hi);
    DivBelow(y, lo, hi);
    MulMonoLe(1, lo, hi);
    assert U8(x * hi) == (x % lo) * hi;
    assert U8(y / lo) == y / lo;
    Join(x % lo, y / lo, hi);
  }

  lemma FirstByte(x: byte, y: byte, pa: int, pna: int, pc: int, pnc: int, pd: int)
    requires pa >= 1 && pna >= 1 && pc >= 1 && pnc >= 1 && pd >= 1
    requires pa * pna == 256 && pnc * pc == 256 && pd * pa == pnc
    ensures var r := U8(U8(U8(x / pa) * pa) + U8(U8(U8(y * pc) / pc) / pd));
      r / pa == x / pa && r % pa == (y % pnc) / pd
  {
    var q := x / pa;
    var w := y % pnc;
    HighBits(x, pa, pna);
    LowBits(y, pa, pc, pnc, pd);
    Join(q, w / pd, pa);
  }

  /** Clearing the low bits of a byte by a right and a left shift. */
  lemma HighBits(x: byte, pa: int, pna: int)
    requires pa >= 1 && pna >= 1 && pa * pna == 256
    ensures U8(U8(x / pa) * pa) == (x / pa) * pa && (x / pa + 1) * pa <= 256
  {
    DivBelow(x, pa, pna);
    var q := x / pa;
    assert U8(q) == q;
    MulMonoLe(1, pa, pna);
    ShlParts(q, pna, pa);
    DivModUnique(0, pna, q);
    MulMonoLe(q + 1, pna, pa);
  }

  /** Clearing the high bits of a byte by a left and a right shift, then
      keeping the top of what is left. */
  lemma LowBits(y: byte, pa: int, pc: int, pnc: int, pd: int)
    requires pa >= 1 && pc >= 1 && pnc >= 1 && pd >= 1 && pnc * pc == 256 && pd * pa == pnc
    ensures U8(U8(U8(y * pc) / pc) / pd) == (y % pnc) / pd && 0 <= (y % pnc) / pd < pa
  {
    ShlParts(y, pnc, pc);
    var w := y % pnc;
    assert U8(y * pc) == w * pc;
    DivModUnique(w, pc, 0);
    MulMonoLe(1, pc, pnc);
    assert U8(w) == w;
    DivBelow(w, pd, pa);
  }

  /** The outcome of the merge: the buffer and `bit_index_of_previous_mcu_end`
      after it; or a shift by a negative count, which C leaves undefined;
      or a read of `bit_index_of_next_mcu_start` before any odd column set it. */
  datatype Merged = Merged(out: seq<byte>, prevEnd: int) | NegativeShift | NotYetSet

  /** The merge of an even-column MCU (lines 240-307). The first MCU only
      records where it ends. Later ones, with two bytes or more in the
      buffer, read `bit_index_of_next_mcu_start`; with an end not on the
      last bit of a byte they shift the buffer by
      append = 7 - prevEnd and chop = nextStart + 1 bits; the new end is
      index - (chop + append) when the index is that far on, and otherwise
      (append + index - 1) % 8 with the last byte given up. Both asserts
      that the end is below 8 hold. */
  function MergeAfter(out: seq<byte>, counter: int, prevEnd: int, nextStart: Option<int>, index: int): (r: Merged)
    requires |out| >= 1 && 0 <= index < 8 && 0 <= prevEnd < 8
    requires nextStart.Some? ==> 0 <= nextStart.value < 8
    ensures r.Merged? ==> 0 <= r.prevEnd < 8 && 1 <= |r.out| <= |out|
    ensures r.Merged? && |out| < 2 ==> r.out == out
    ensures r.NegativeShift? <==> counter != 0 && |out| >= 2 && prevEnd != 7 && nextStart.Some? && nextStart.value + 8 - prevEnd > 8
    ensures r.NotYetSet? <==> counter != 0 && |out| >= 2 && nextStart.None?
  {
    if counter == 0 then Merged(out, index)
    else if |out| < 2 then Merged(out, prevEnd)
    else if nextStart.None? then NotYetSet
    else if prevEnd + 1 == 8 then Merged(out, prevEnd)
    else
      var append := 8 - prevEnd - 1;
      var chop := nextStart.value + 1;
      if chop + append > 8 then NegativeShift
      else
        var s := Spliced(out, append, chop);
        if index >= chop + append then Merged(s, index - (chop + append))
        else Merged(s[..|s| - 1], (append + index - 1) % 8)
  }

  /** `last_byte >> a << a` plus `0xFF >> (8 - a)`, each stored into an
      `unsigned char`: the high 8 - a bits of the byte kept and its low a
      bits set. */
  lemma PadBits(last: byte, a: nat)
    requires a <= 8
    ensures var r := U8(U8(U8(last / Pow2(a)) * Pow2(a)) + U8(255 / Pow2(8 - a)));
      r / Pow2(a) == last / Pow2(a) && r % Pow2(a) == Pow2(a) - 1
  {
    Pow2At8();
    Pow2Split(a, 8 - a, 8);
    PadParts(last, Pow2(a), Pow2(8 - a));
  }

  lemma PadParts(last: byte, pa: int, pna: int)
    requires pa >= 1 && pna >= 1 && pa * pna == 256
    ensures var r := U8(U8(U8(last / pa) * pa) + U8(255 / pna));
      r / pa == last / pa && r % pa == pa - 1
  {
    DivBelow(last, pa, pna);
    var q := last / pa;
    MulMonoLe(1, pa, pna);
    ShlParts(q, pna, pa);
    DivModUnique(0, pna, q);
    assert (pa - 1) * pna + (pna - 1) == 255;
    DivModUnique(pa - 1, pna, pna - 1);
    MulMonoLe(q + 1, pna, pa);
    Join(q, pa - 1, pa);
    assert U8(q) == q;
    assert U8(q * pa) == q * pa;
    assert U8(255 / pna) == pa - 1;
    assert U8(U8(U8(last / pa) * pa) + U8(255 / pna)) == q * pa + (pa - 1);
  }

  /** The padding of the last two MCUs as written (lines 320-334):
      `bits_to_append = 8 - prevEnd + 1` low bits of the terminating byte
      set to 1. With prevEnd 0 that is 9 bits and the shift of 0xFF by -1
      is undefined (none); otherwise one bit more than the bits after the
      end is overwritten. */
  function PaddedAsWritten(last: byte, prevEnd: int): (r: Option<byte>)
    requires 0 <= prevEnd < 8
    ensures r.None? <==> prevEnd == 0
    ensures r.Some? ==> r.value / Pow2(9 - prevEnd) == last / Pow2(9 - prevEnd) && r.value % Pow2(9 - prevEnd) == Pow2(9 - prevEnd) - 1
  {
    var a := 8 - prevEnd + 1;
    if 8 - a < 0 then None
    else
      PadBits(last, a);
      Some(U8(U8(U8(last / Pow2(a)) * Pow2(a)) + U8(255 / Pow2(8 - a))))
  }

  /** The padding as intended: the bits from the end index on set to 1 and
      the prevEnd bits before it kept, with no undefined shift. */
  function Padded(last: byte, prevEnd: int): (r: byte)
    requires 0 <= prevEnd < 8
    ensures r / Pow2(8 - prevEnd) == last / Pow2(8 - prevEnd) && r % Pow2(8 - prevEnd) == Pow2(8 - prevEnd) - 1
  {
    var a := 8 - prevEnd;
    PadBits(last, a);
    U8(U8(U8(last / Pow2(a)) * Pow2(a)) + U8(255 / Pow2(8 - a)))
  }

  /** A scan whose kept MCU ends on a byte boundary reaches the undefined
      shift, which the intended padding turns into a byte of 1 bits. */
  lemma PaddedAtByteBoundary(last: byte)
    ensures PaddedAsWritten(last, 0).None? && Padded(last, 0) == 255
  {
    Pow2At8();
  }

  // ------------------------------------------------------------ process_scan

  /** The bytes of the file from fs0's position to fs1's: what the reads
      between the two took from the file, stuffing bytes included. */
  function Taken(data: seq<byte>, fs0: FileState, fs1: FileState): seq<byte>
  {
    if fs0.rs.pos <= fs1.rs.pos <= |data| then data[fs0.rs.pos..fs1.rs.pos] else []
  }

  lemma TakenJoin(data: seq<byte>, f0: FileState, f1: FileState, f2: FileState)
    requires f0.rs.pos <= f1.rs.pos <= f2.rs.pos <= |data|
    ensures Taken(data, f0, f1) + Taken(data, f1, f2) == Taken(data, f0, f2)
  {
    assert data[f0.rs.pos..f2.rs.pos] == data[f0.rs.pos..f1.rs.pos] + data[f1.rs.pos..f2.rs.pos];
  }

  /** Reads after the buffer's mark add their bytes at its end. */
  lemma EchoJoin(data: seq<byte>, out: seq<byte>, mark: int, p1: int, p2: int)
    requires 0 <= mark <= p1 <= p2 <= |data|
    ensures out + data[mark..p2] == (out + data[mark..p1]) + data[p1..p2]
  {
    assert data[mark..p2] == data[mark..p1] + data[p1..p2];
  }

  /** What `process_scan` keeps from one MCU to the next: the bit cursor,
      `out_buf[0 .. out_buf_index)`, the bytes `write_buffer_to_file` has
      written so far, `column_index`, `mcu_counter`,
      `bit_index_of_previous_mcu_end` and `bit_index_of_next_mcu_start`
      (none until an odd column sets it). */
  datatype Splice = Splice(cur: Bits, out: seq<byte>, written: seq<byte>, column: int, counter: int,
                           prevEnd: int, nextStart: Option<int>)

  /** Why the MCU loop stopped: it has not (Running); `expected_mcu_count`
      MCUs were processed; the EOI marker was seen; `read_1_byte` exited at
      the end of the file; an assert failed; a shift by a negative count;
      a read of the next-MCU start before it was set. */
  datatype Stop = Running | Finished | EndOfImage | EndOfFile | AssertFailed | Undefined | Uninitialised

  /** The state the loop keeps: the cursor in range and in the file, a
      nonempty buffer, and the recorded bit indices below 8. */
  predicate Live(data: seq<byte>, st: Splice)
  {
    Cursor(st.cur) && !st.cur.fs.exited && st.cur.fs.rs.pos <= |data| && |st.out| >= 1
    && 0 <= st.prevEnd < 8 && 0 <= st.counter && 0 <= st.column
    && (st.nextStart.Some? ==> 0 <= st.nextStart.value < 8)
  }

  /** The end of a pass: one more MCU, the next column, back to 0 after
      column `original_samples_per_line`. */
  function Advance(st: Splice, samples: int): (r: Splice)
    ensures r.counter == st.counter + 1 && r.cur == st.cur && r.out == st.out && r.written == st.written
  {
    st.(counter := st.counter + 1, column := if st.column + 1 > samples then 0 else st.column + 1)
  }

  /** One pass of the MCU loop of `process_scan` (lines 228-340). The MCU
      is decoded with bytes placed into the buffer only in even columns.
      An odd column records where the next MCU starts and leaves the buffer
      and the output alone. An even column merges, then takes the last byte
      out, writes the rest and restarts the buffer with that byte alone;
      within the last two MCUs the byte is padded. */
  function Turn(data: seq<byte>, dc: PenjiTable, ac: PenjiTable, samples: int, expected: int, st: Splice): (r: (Splice, Stop))
    requires Chains(dc) && Chains(ac) && Live(data, st)
    ensures r.1 == Running ==> Live(data, r.0) && r.0 == Advance(r.0.(counter := st.counter, column := st.column), samples)
    ensures r.1 != Running ==> r.0.counter == st.counter && r.0.column == st.column
    ensures r.1 == Running && st.column % 2 != 0 ==> r.0.out == st.out && r.0.written == st.written && r.0.nextStart == Some(r.0.cur.index)
    ensures r.1 == Running && st.column % 2 == 0 ==> |r.0.out| == 1 && st.written <= r.0.written && r.0.nextStart == st.nextStart
    ensures r.1 == Uninitialised ==> st.column % 2 == 0 && st.counter != 0 && st.nextStart.None?
    ensures r.1 != Finished && r.1 != EndOfImage
    ensures r.1 == EndOfFile <==> r.0.cur.fs.exited
  {
    match McuRm(data, dc, ac, st.cur)
    case Abort => (st, AssertFailed)
    case Eof(c) => (st.(cur := c), EndOfFile)
    case Done(blk) =>
      var c := blk.cursor;
      if st.column % 2 != 0 then (Advance(st.(cur := c, nextStart := Some(c.index)), samples), Running)
      else
        match JoinAfter(st.out + Taken(data, st.cur.fs, c.fs), st.written, st.counter, st.prevEnd, st.nextStart, c.index, expected)
        case JoinStop(stop) => (st.(cur := c), stop)
        case Joined(out, written, prevEnd) =>
          (Advance(st.(cur := c, out := out, written := written, prevEnd := prevEnd), samples), Running)
  }

  /** The buffer, the output and the end index after the even-column part
      of a pass, or why it stopped. */
  datatype Joined = Joined(out: seq<byte>, written: seq<byte>, prevEnd: int) | JoinStop(stop: Stop)

  /** The even-column part of a pass (lines 238-334): the merge; then the
      last byte taken out of the buffer, the rest written and the buffer
      restarted with that byte alone; within the last two MCUs that byte
      padded. */
  function JoinAfter(out: seq<byte>, written: seq<byte>, counter: int, prevEnd: int, nextStart: Option<int>,
                     index: int, expected: int): (r: Joined)
    requires |out| >= 1 && 0 <= index < 8 && 0 <= prevEnd < 8
    requires nextStart.Some? ==> 0 <= nextStart.value < 8
    ensures r.Joined? ==> |r.out| == 1 && written <= r.written && |r.written| < |written| + |out| && 0 <= r.prevEnd < 8
    ensures r.JoinStop? ==> r.stop == Undefined || r.stop == Uninitialised
    ensures r == JoinStop(Uninitialised) <==> counter != 0 && |out| >= 2 && nextStart.None?
  {
    match MergeAfter(out, counter, prevEnd, nextStart, index)
    case NegativeShift => JoinStop(Undefined)
    case NotYetSet => JoinStop(Uninitialised)
    case Merged(merged, end) => FlushAfter(merged, written, counter, end, expected)
  }

  /** After the merge: the last byte taken out of the buffer, the rest
      written and the buffer restarted with that byte alone; within the
      last two MCUs that byte padded. */
  function FlushAfter(merged: seq<byte>, written: seq<byte>, counter: int, end: int, expected: int): (r: Joined)
    requires |merged| >= 1 && 0 <= end < 8
    ensures r.Joined? ==> r.written == written + merged[..|merged| - 1] && |r.out| == 1 && r.prevEnd == end
    ensures r.Joined? && !(counter == expected - 1 || counter == expected - 2) ==> r.out == merged[|merged| - 1..]
    ensures r.JoinStop? <==> (counter == expected - 1 || counter == expected - 2) && end == 0
    ensures r.JoinStop? ==> r.stop == Undefined
  {
    var last := merged[|merged| - 1];
    var flushed := written + merged[..|merged| - 1];
    if counter == expected - 1 || counter == expected - 2 then
      match PaddedAsWritten(last, end)
      case None => JoinStop(Undefined)
      case Some(p) => Joined([p], flushed, end)
    else Joined([last], flushed, end)
  }

  /** The MCU loop of `process_scan`: `while (!feof(infile) &&
      last_marker_seen != EOI_MARKER && mcu_counter < expected_mcu_count)`.
      `feof` is never true at the test, as `read_1_byte` exits at the end of
      the file first. */
  function ScanFrom(data: seq<byte>, dc: PenjiTable, ac: PenjiTable, samples: int, expected: int, st: Splice): (r: (Splice, Stop))
    requires Chains(dc) && Chains(ac) && Live(data, st)
    ensures r.1 != Running
    ensures r.1 == EndOfImage ==> r.0.cur.fs.rs.lastMarker == EOI_MARKER
    ensures r.1 == Finished ==> r.0.counter >= expected
    ensures st.counter <= expected ==> r.0.counter <= expected
    ensures r.1 == EndOfFile <==> r.0.cur.fs.exited
    decreases expected - st.counter
  {
    if st.cur.fs.rs.lastMarker == EOI_MARKER then (st, EndOfImage)
    else if st.counter >= expected then (st, Finished)
    else
      var t := Turn(data, dc, ac, samples, expected, st);
      if t.1 == Running then ScanFrom(data, dc, ac, samples, expected, t.0) else t
  }

  /** `column_index` goes 0, 1, ..., `original_samples_per_line`, 0, ...:
      after k MCUs it is k modulo samples + 1. */
  lemma {:induction false} ScanColumns(data: seq<byte>, dc: PenjiTable, ac: PenjiTable, samples: int, expected: int, st: Splice)
    requires Chains(dc) && Chains(ac) && Live(data, st) && samples >= 0
    requires st.column == st.counter % (samples + 1)
    ensures var r := ScanFrom(data, dc, ac, samples, expected, st); r.0.column == r.0.counter % (samples + 1)
    decreases expected - st.counter
  {
    if st.cur.fs.rs.lastMarker != EOI_MARKER && st.counter < expected {
      var t := Turn(data, dc, ac, samples, expected, st);
      if t.1 == Running {
        ColumnStep(st.column, st.counter, samples);
        ScanColumns(data, dc, ac, samples, expected, t.0);
      }
    }
  }

  lemma ColumnStep(column: int, k: int, samples: int)
    requires samples >= 0 && k >= 0 && column == k % (samples + 1)
    ensures (if column + 1 > samples then 0 else column + 1) == (k + 1) % (samples + 1)
  {
    DivModParts(k, samples + 1);
    if column + 1 > samples {
      DivModUnique(k / (samples + 1) + 1, samples + 1, 0);
    } else {
      DivModUnique(k / (samples + 1), samples + 1, column + 1);
    }
  }

  /** The number of MCU columns in a line of `samples` samples: an MCU of
      one component is 8 samples wide, the last one of a line padded. */
  function McuColumns(samples: int): (r: int)
    requires samples >= 1
    ensures r >= 1 && 8 * (r - 1) < samples <= 8 * r
  {
    (samples + 7) / 8
  }

  /** `column_index` counts up to `original_samples_per_line`, a count of
      samples, where a line holds only McuColumns(samples) MCUs: the first
      MCU of the second line, after one line of MCUs, is still in column
      McuColumns(samples), not 0. For a line of at most 8 samples that
      column is odd, so the MCU that starts the second line is dropped. */
  lemma SecondLineStartsLate(samples: int)
    requires samples >= 1
    ensures var m := McuColumns(samples); m % (samples + 1) == m >= 1
    ensures samples <= 8 ==> McuColumns(samples) % (samples + 1) % 2 == 1
  {
    DivModUnique(0, samples + 1, McuColumns(samples));
  }

  /** The column of the next MCU as evidently intended: back to 0 after the
      last MCU column of the line. */
  function IntendedNextColumn(column: int, samples: int): (r: int)
    requires samples >= 1 && 0 <= column
    ensures 0 <= r < McuColumns(samples) && (r == 0 || r == column + 1)
  {
    if column + 1 >= McuColumns(samples) then 0 else column + 1
  }

  /** The intended column after k MCUs, from column 0. */
  function IntendedColumnAfter(k: nat, samples: int): (r: int)
    requires samples >= 1
    ensures 0 <= r < McuColumns(samples)
  {
    if k == 0 then 0 else IntendedNextColumn(IntendedColumnAfter(k - 1, samples), samples)
  }

  /** With the intended wrap, after k MCUs the column is k modulo the MCU
      columns of a line. */
  lemma {:induction false} IntendedColumnsCycle(k: nat, samples: int)
    requires samples >= 1
    ensures IntendedColumnAfter(k, samples) == k % McuColumns(samples)
  {
    if k == 0 {
      DivModUnique(0, McuColumns(samples), 0);
    } else {
      IntendedColumnsCycle(k - 1, samples);
      ColumnStep(IntendedColumnAfter(k - 1, samples), k - 1, McuColumns(samples) - 1);
    }
  }

  /** With the intended wrap, MCU i of every line j is in column i: every
      line starts in column 0 and keeps and drops the same MCU columns. */
  lemma IntendedLinePosition(j: nat, i: int, samples: int)
    requires samples >= 1 && 0 <= i < McuColumns(samples)
    ensures IntendedColumnAfter(j * McuColumns(samples) + i, samples) == i
  {
    IntendedColumnsCycle(j * McuColumns(samples) + i, samples);
    DivModUnique(j, McuColumns(samples), i);
  }

  /** Until `bit_index_of_next_mcu_start` is set, the loop is at its first
      MCU (column 0) or its second (column 1, odd). */
  predicate StartSet(st: Splice)
  {
    (st.counter == 0 && st.column == 0) || (st.counter == 1 && st.column == 1) || st.nextStart.Some?
  }

  /** With at least one sample per line, the merge never reads
      `bit_index_of_next_mcu_start` before an odd column has set it: the
      first MCU only records its end and the second is in column 1. */
  lemma {:induction false} ScanNeverUninitialised(data: seq<byte>, dc: PenjiTable, ac: PenjiTable, samples: int, expected: int, st: Splice)
    requires Chains(dc) && Chains(ac) && Live(data, st) && samples >= 1 && StartSet(st)
    ensures ScanFrom(data, dc, ac, samples, expected, st).1 != Uninitialised
    decreases expected - st.counter
  {
    if st.cur.fs.rs.lastMarker != EOI_MARKER && st.counter < expected {
      var t := Turn(data, dc, ac, samples, expected, st);
      if t.1 == Running {
        ScanNeverUninitialised(data, dc, ac, samples, expected, t.0);
      }
    }
  }

  /** A scan that stops having processed every expected MCU, or at the EOI
      marker, is the only clean end: every other stop is an exit, an
      abort or undefined behaviour. Starting within the count, the loop
      stops at exactly `expected_mcu_count` MCUs at most. */
  lemma {:induction false} ScanCounts(data: seq<byte>, dc: PenjiTable, ac: PenjiTable, samples: int, expected: int, st: Splice)
    requires Chains(dc) && Chains(ac) && Live(data, st) && st.counter <= expected
    ensures var r := ScanFrom(data, dc, ac, samples, expected, st);
      (r.1 == Finished ==> r.0.counter == expected)
      && (r.1 != Finished ==> r.0.counter < expected || r.1 == EndOfImage)
    decreases expected - st.counter
  {
    if st.cur.fs.rs.lastMarker != EOI_MARKER && st.counter < expected {
      var t := Turn(data, dc, ac, samples, expected, st);
      if t.1 == Running {
        ScanCounts(data, dc, ac, samples, expected, t.0);
      }
    }
  }

  /** `process_scan` (lines 182-348): the segment length and the rest of
      the scan header, read and placed; the buffer written out; the first
      byte of entropy-coded data read and its first bit added; then the MCU
      loop from column 0. A header length of 2 or less gives the array
      `scan_header[header_len]` a size that is not positive, which C leaves
      undefined. */
  function ScanRun(data: seq<byte>, dc: PenjiTable, ac: PenjiTable, samples: int, expected: int,
                   fs0: FileState, out: seq<byte>, written: seq<byte>): (r: (Splice, Stop))
    requires Chains(dc) && Chains(ac) && fs0.rs.pos <= |data|
  {
    var e := ScanEntry(data, fs0, out, written);
    if e.1 != Running then e else ScanFrom(data, dc, ac, samples, expected, e.0)
  }

  /** The part of `process_scan` before the MCU loop: the loop state it
      starts from, or why the program stopped before it. */
  function ScanEntry(data: seq<byte>, fs0: FileState, out: seq<byte>, written: seq<byte>): (r: (Splice, Stop))
    requires fs0.rs.pos <= |data|
    ensures r.1 == Running || r.1 == EndOfFile || r.1 == Undefined
    ensures r.1 == Running ==>
      Live(data, r.0) && r.0.column == 0 && r.0.counter == 0 && r.0.nextStart.None? && r.0.cur.valid == 1
  {
    var h := HeaderRead(data, fs0);
    if h.0 != Running then (Splice(Bits(h.1, 0, 0, 0, 0), out, written, 0, 0, 0, None), h.0)
    else EntropyStart(data, h.1, written + out + Taken(data, fs0, h.1))
  }

  /** After the header and the write of the buffer: the first byte of
      entropy-coded data read, placed into the emptied buffer, and its
      first bit added. */
  function EntropyStart(data: seq<byte>, header: FileState, written: seq<byte>): (r: (Splice, Stop))
    ensures r.1 == Running || r.1 == EndOfFile
    ensures r.1 == Running ==>
      Live(data, r.0) && r.0.column == 0 && r.0.counter == 0 && r.0.nextStart.None? && r.0.cur.valid == 1
  {
    var first := Read1(data, header);
    if first.1.exited then (Splice(Bits(first.1, 0, 0, 0, 0), [], written, 0, 0, 0, None), EndOfFile)
    else
      var cur := AddBit(data, Bits(first.1, 0, 0, first.0, 0));
      (Splice(cur, Taken(data, header, first.1), written, 0, 0, 0, None), Running)
  }

  /** The segment length and the rest of the scan header: where the reads
      leave the file, and the end of the file or a header length of 2 or
      less, which gives `scan_header[header_len]` a size that is not
      positive, undefined in C. */
  function HeaderRead(data: seq<byte>, fs0: FileState): (r: (Stop, FileState))
    ensures r.0 == Running || r.0 == EndOfFile || r.0 == Undefined
    ensures r.0 != Running ==> r.1 == Read2(data, fs0).1
    ensures r.0 == EndOfFile <==> Read2(data, fs0).1.exited
  {
    var len := Read2(data, fs0);
    if len.1.exited then (EndOfFile, len.1)
    else if len.0 - 2 <= 0 then (Undefined, len.1)
    else (Running, ReadBytes(data, len.1, len.0 - 2).1)
  }

  // ------------------------------------------------------------ process_frame

  /** The fields `process_frame` reads: the segment length, the sample
      precision and the number of lines (read while bytes are placed), then
      the samples per line and the number of components (read while they
      are not). The result holds the lines, the samples per line, the
      components, the file after the lines and the file at the end. */
  function FrameReads(data: seq<byte>, fs0: FileState): (int, int, byte, FileState, FileState)
  {
    var lines := FrameLines(data, fs0);
    var rest := FrameSamples(data, lines.1);
    (lines.0, rest.0, rest.1, lines.1, rest.2)
  }

  /** The segment length, the sample precision and the number of lines. */
  function FrameLines(data: seq<byte>, fs0: FileState): (r: (int, FileState))
    ensures 0 <= r.0 < 65536 && fs0.rs.pos <= r.1.rs.pos && (fs0.rs.pos <= |data| ==> r.1.rs.pos <= |data|)
  {
    var length := Read2(data, fs0);
    var precision := Read1(data, length.1);
    Read2(data, precision.1)
  }

  /** The samples per line and the number of components. */
  function FrameSamples(data: seq<byte>, fs0: FileState): (r: (int, byte, FileState))
    ensures 0 <= r.0 < 65536
  {
    var samples := Read2(data, fs0);
    var components := Read1(data, samples.1);
    (samples.0, components.0, components.1)
  }

  /** How `process_frame` ends its header: a file that ends within the
      fields ends the program in `read_1_byte`; a frame of more than one
      component returns before the count is computed; otherwise the
      expected MCU count, or an `int` product that overflows. */
  datatype HeaderEnd = NotOneComponent | Overflow | Expected(count: int) | Truncated

  function FrameOutcome(lines: int, samples: int, components: int): (r: HeaderEnd)
    requires 0 <= lines < 65536 && 0 <= samples < 65536
    ensures r == HeaderEnd.NotOneComponent <==> components != 1
    ensures r == Overflow <==> components == 1 && lines * samples >= 0x8000_0000
    ensures r.Expected? ==> 64 * r.count <= lines * samples < 64 * (r.count + 1)
  {
    if components != 1 then HeaderEnd.NotOneComponent
    else match ExpectedMcuCountAsWritten(lines, samples)
      case None => Overflow
      case Some(n) => Expected(n)
  }

  // ------------------------------------------------------------ the program state

  /** The globals and the cursor of penji/remove_mcu.c: the input file
      (its bytes and the state of the reads, as `read_1_byte` keeps it),
      `out_buf[0 .. out_buf_index)`, what `write_buffer_to_file` has written
      to the output file, the flag of `set_place_bytes_into_buffer`, and the
      cursor variables `process_scan` passes to `process_mcu`. Every byte
      `read_1_byte` takes from the file is also placed into the buffer
      while the flag is set. */
  class Remover {
    const data: seq<byte>
    var fs: FileState
    var out: seq<byte>
    var mark: int
    var written: seq<byte>
    var placing: bool
    var scanBuf: int
    var valid: int
    var input: byte
    var index: int

    ghost function State(): Bits
      reads this
    {
      Bits(fs, scanBuf, valid, input, index)
    }

    /** The cursor variables alone. */
    ghost function Regs(): (int, int, byte, int)
      reads this
    {
      (scanBuf, valid, input, index)
    }

    /** `out_buf[0 .. out_buf_index)`: the bytes placed before the file
        was at `mark`, then, while bytes are placed, every byte read since. */
    function OutBuf(): seq<byte>
      reads this
    {
      if placing && 0 <= mark <= fs.rs.pos <= |data| then out + data[mark..fs.rs.pos] else out
    }

    /** The reads are within the file and no earlier than `mark`. */
    ghost predicate InFile()
      reads this
    {
      0 <= mark <= fs.rs.pos <= |data|
    }

    /** The opened file, `setup_output_buffer` and
        `set_place_bytes_into_buffer(TRUE)` of `main`. */
    constructor (data: seq<byte>)
      ensures this.data == data && fs == Opened() && OutBuf() == [] && written == [] && InFile() && placing && Regs() == (0, 0, 0, 0)
    {
      this.data := data;
      fs := Opened();
      out := [];
      mark := 0;
      written := [];
      placing := true;
      scanBuf := 0;
      valid := 0;
      input := 0;
      index := 0;
    }

    /** `read_1_byte`, placing what it takes from the file. */
    method ReadOneByte() returns (c: byte)
      requires InFile()
      modifies this
      ensures InFile() && (c, fs) == Read1(data, old(fs)) && old(fs.rs.pos) <= fs.rs.pos
      ensures out == old(out) && mark == old(mark) && written == old(written) && placing == old(placing) && Regs() == old(Regs())
      ensures OutBuf() == old(OutBuf()) + (if placing then Taken(data, old(fs), fs) else [])
    {
      var r := Read1(data, fs);
      c, fs := r.0, r.1;
      EchoJoin(data, out, mark, old(fs.rs.pos), fs.rs.pos);
    }

    /** `read_2_bytes`. */
    method ReadTwoBytes() returns (v: int)
      requires InFile()
      modifies this
      ensures InFile() && (v, fs) == Read2(data, old(fs)) && old(fs.rs.pos) <= fs.rs.pos
      ensures out == old(out) && mark == old(mark) && written == old(written) && placing == old(placing) && Regs() == old(Regs())
      ensures OutBuf() == old(OutBuf()) + (if placing then Taken(data, old(fs), fs) else [])
    {
      var c1 := ReadOneByte();
      var c2 := ReadOneByte();
      EchoJoin(data, out, mark, old(fs.rs.pos), fs.rs.pos);
      assert ReadBytes(data, old(fs), 2).0 == [c1, c2];
      v := BigEndian16(c1, c2);
    }

    /** `write_buffer_to_file`: the buffer goes to the output file and
        `out_buf_index` back to 0. */
    method WriteBufferToFile()
      requires InFile()
      modifies this
      ensures written == old(written) + old(OutBuf()) && OutBuf() == [] && InFile()
      ensures fs == old(fs) && placing == old(placing) && Regs() == old(Regs())
    {
      written := written + OutBuf();
      out := [];
      mark := fs.rs.pos;
    }

    /** `set_place_bytes_into_buffer`: from now on, reads place their bytes
        into the buffer or not. */
    method SetPlaceBytes(p: bool)
      requires InFile()
      modifies this
      ensures OutBuf() == old(OutBuf()) && placing == p && InFile()
      ensures fs == old(fs) && written == old(written) && Regs() == old(Regs())
    {
      out := OutBuf();
      mark := fs.rs.pos;
      placing := p;
    }

    /** `add_bit_to_scan_buf`: false where one of its asserts fails. */
    method AddBitToScanBuf() returns (ok: bool)
      requires Cursor(State()) && InFile()
      modifies this
      ensures ok == AddBitChecked(data, old(State())).Some?
      ensures ok ==> State() == AddBitChecked(data, old(State())).value
      ensures !ok ==> State() == old(State())
      ensures InFile() && old(fs.rs.pos) <= fs.rs.pos
      ensures out == old(out) && mark == old(mark) && written == old(written) && placing == old(placing)
    {
      if !(valid < 16 && index < 8) {
        return false;
      }
      scanBuf := U16(scanBuf * 2 + Bit(input, index));
      index := index + 1;
      valid := U8(valid + 1);
      if index > 7 {
        input := ReadOneByte();
        index := 0;
      }
      ok := true;
    }

    /** `input_data_skip_bits`; `nbits` is a `short`. */
    method InputDataSkipBits(n: int)
      requires Cursor(State()) && InFile() && 0 <= n < 32768
      modifies this
      ensures State() == SkipRm(data, old(State()), n)
      ensures InFile() && old(fs.rs.pos) <= fs.rs.pos
      ensures out == old(out) && mark == old(mark) && written == old(written) && placing == old(placing)
    {
      var nbits := n;
      if nbits > 8 - index {
        input := 0;
        nbits := nbits - (8 - index);
        index := 0;
      } else if nbits == 8 - index {
        input := ReadOneByte();
        index := 0;
        nbits := 0;
      } else {
        index := index + nbits;
        nbits := 0;
      }
      SkipTail(nbits);
    }

    /** The trailing `while (nbits > 0)` loop of `input_data_skip_bits`. */
    method SkipTail(n: int)
      requires 0 <= index < 8 && InFile()
      modifies this
      ensures (fs, input, index) == SkipLoop(data, old(fs), old(input), old(index), n)
      ensures scanBuf == old(scanBuf) && valid == old(valid)
      ensures InFile() && old(fs.rs.pos) <= fs.rs.pos
      ensures out == old(out) && mark == old(mark) && written == old(written) && placing == old(placing)
    {
      var nbits := n;
      while nbits > 0
        invariant 0 <= index < 8 && scanBuf == old(scanBuf) && valid == old(valid)
        invariant InFile() && old(fs.rs.pos) <= fs.rs.pos
        invariant out == old(out) && mark == old(mark) && written == old(written) && placing == old(placing)
        invariant SkipLoop(data, fs, input, index, nbits) == SkipLoop(data, old(fs), old(input), old(index), n)
        decreases nbits
      {
        nbits := SkipStep(nbits);
      }
    }

    /** One pass of that loop: two bytes read for 16 bits or more, one for
        8 or more, and otherwise a byte loaded with the index set to what
        is left. */
    method SkipStep(nbits: int) returns (rest: int)
      requires 0 <= index < 8 && InFile() && nbits > 0
      modifies this
      ensures 0 <= rest < nbits && 0 <= index < 8
      ensures SkipLoop(data, fs, input, index, rest) == SkipLoop(data, old(fs), old(input), old(index), nbits)
      ensures scanBuf == old(scanBuf) && valid == old(valid)
      ensures InFile() && old(fs.rs.pos) <= fs.rs.pos
      ensures out == old(out) && mark == old(mark) && written == old(written) && placing == old(placing)
    {
      if nbits >= 16 {
        var ignored := ReadTwoBytes();
        rest := nbits - 16;
      } else if nbits >= 8 {
        var ignored := ReadOneByte();
        rest := nbits - 8;
      } else {
        input := ReadOneByte();
        index := nbits;
        rest := 0;
      }
    }

    /** `place_byte_into_buffer`. */
    method PlaceByte(c: byte)
      requires InFile()
      modifies this
      ensures OutBuf() == old(OutBuf()) + [c] && InFile()
      ensures fs == old(fs) && written == old(written) && placing == old(placing) && Regs() == old(Regs())
    {
      out := OutBuf() + [c];
      mark := fs.rs.pos;
    }

    /** The `while (*valid_buf_bits <= 16)` loop of `process_mcu`. Its test
        holds every time: the assert of `add_bit_to_scan_buf` stops the
        program before a 17th bit. The lookup with an empty buffer, which
        reads `frequencies[255]`, is taken to find nothing. A read that
        exits at the end of the file ends the loop with the program. */
    method NextHuffSymbol(t: PenjiTable) returns (r: Symbol)
      requires Chains(t) && Cursor(State()) && InFile() && valid <= 16 && !fs.exited
      modifies this
      ensures r == NextSymbolRm(data, t, old(State())) && (!r.Aborted? ==> State() == r.cursor)
      ensures fs.exited <==> r.Exited?
      ensures InFile() && old(fs.rs.pos) <= fs.rs.pos
      ensures out == old(out) && mark == old(mark) && written == old(written) && placing == old(placing)
    {
      while valid <= 16
        invariant Cursor(State()) && InFile() && old(fs.rs.pos) <= fs.rs.pos && valid <= 16 && !fs.exited
        invariant out == old(out) && mark == old(mark) && written == old(written) && placing == old(placing)
        invariant NextSymbolRm(data, t, State()) == NextSymbolRm(data, t, old(State()))
        decreases 16 - valid
      {
        var e := FindHufftableEntry(t, scanBuf, valid as byte);
        FindEntryAsWrittenAgrees(t, scanBuf, valid);
        if e.Found? {
          scanBuf := 0;
          valid := 0;
          return Got(Bits(fs, scanBuf, valid, input, index), e.sym);
        }
        var ok := AddBitToScanBuf();
        if !ok {
          return Aborted;
        }
        if fs.exited {
          return Exited(Bits(fs, scanBuf, valid, input, index));
        }
      }
      assert false;
    }

    /** `process_mcu` of penji/remove_mcu.c: false where an assert fails
        or the program exits at the end of the file (which `fs` then
        records), and otherwise the indices `mcu_indices` recorded. */
    method ProcessMcu(dc: PenjiTable, ac: PenjiTable) returns (ok: bool, recorded: seq<int>)
      requires Chains(dc) && Chains(ac) && Cursor(State()) && InFile() && !fs.exited
      modifies this
      ensures var m := McuRm(data, dc, ac, old(State()));
        ok == m.Done? && (ok ==> State() == m.value.cursor && recorded == m.value.indices)
        && (m.Eof? ==> State() == m.at) && (fs.exited <==> m.Eof?)
      ensures InFile() && old(fs.rs.pos) <= fs.rs.pos
      ensures out == old(out) && mark == old(mark) && written == old(written) && placing == old(placing)
    {
      ghost var b0 := State();
      ok := DcSymbol(dc);
      if !ok {
        return false, [];
      }
      assert McuRm(data, dc, ac, b0) == AcRm(data, ac, State(), 1, []);
      ok, recorded := AcSymbols(ac);
    }

    /** The DC part of `process_mcu` and the assert after it; false too
        where the program exits at the end of the file. */
    method DcSymbol(dc: PenjiTable) returns (ok: bool)
      requires Chains(dc) && Cursor(State()) && InFile() && !fs.exited
      modifies this
      ensures var d := DcRm(data, dc, old(State()));
        ok == d.Done? && (ok ==> State() == d.value) && (d.Eof? ==> State() == d.at) && (fs.exited <==> d.Eof?)
      ensures InFile() && old(fs.rs.pos) <= fs.rs.pos
      ensures out == old(out) && mark == old(mark) && written == old(written) && placing == old(placing)
    {
      ghost var b0 := State();
      ok := false;
      if valid <= 16 {
        var s := NextHuffSymbol(dc);
        if s.Got? {
          ghost var v := DcValue(data, State(), s.sym.value);
          assert v.Some? ==> DcRm(data, dc, b0) == (if v.value.fs.exited then Eof(v.value) else Done(v.value));
          if s.sym.value != 0 {
            ok := DcBits(s.sym.value);
          } else {
            ok := true;
          }
          if fs.exited {
            ok := false;
          }
        }
      }
    }

    /** The magnitude bits of a nonzero DC value, after the assert that its
        high nibble is clear. */
    method DcBits(v: int) returns (ok: bool)
      requires Cursor(State()) && InFile() && valid == 0 && 0 < v < 256
      modifies this
      ensures var d := DcValue(data, old(State()), v);
        ok == d.Some? && (ok ==> State() == d.value) && (!ok ==> State() == old(State()))
      ensures InFile() && old(fs.rs.pos) <= fs.rs.pos
      ensures out == old(out) && mark == old(mark) && written == old(written) && placing == old(placing)
    {
      if v / 16 != 0 {
        return false;
      }
      InputDataSkipBits(v);
      ok := true;
    }

    /** The AC loop of `process_mcu`, with `mcu_indices` an array of 64
        entries: every write to it is within bounds. False where an assert
        fails or the program exits at the end of the file. */
    method AcSymbols(ac: PenjiTable) returns (ok: bool, recorded: seq<int>)
      requires Chains(ac) && Cursor(State()) && InFile() && !fs.exited
      modifies this
      ensures var m := AcRm(data, ac, old(State()), 1, []);
        ok == m.Done? && (ok ==> State() == m.value.cursor && recorded == m.value.indices)
        && (m.Eof? ==> State() == m.at) && (fs.exited <==> m.Eof?)
      ensures InFile() && old(fs.rs.pos) <= fs.rs.pos
      ensures out == old(out) && mark == old(mark) && written == old(written) && placing == old(placing)
    {
      ghost var b0 := State();
      var indices := new int[64];
      var len := 0;
      var i := 1;
      while i < 64
        invariant 1 <= i && 0 <= len <= i - 1 && len <= 63
        invariant Cursor(State()) && InFile() && old(fs.rs.pos) <= fs.rs.pos && !fs.exited
        invariant out == old(out) && mark == old(mark) && written == old(written) && placing == old(placing)
        invariant AcRm(data, ac, State(), i, indices[..len]) == AcRm(data, ac, b0, 1, [])
        decreases 64 - i
      {
        ghost var b1 := State();
        ghost var before := indices[..len];
        var m := AcStep(ac, i);
        if m.Halt? || m.Stopped? {
          return false, [];
        } else if m.EndOfBlock? {
          indices[len] := i;
          assert indices[..len + 1] == before + [i];
          assert AcRm(data, ac, b1, i, before) == Done(Block(State(), before + [i]));
          return true, indices[..len + 1];
        }
        ghost var after := if m.recorded.Some? then before + [m.recorded.value] else before;
        assert AcRm(data, ac, b1, i, before) == AcRm(data, ac, State(), m.next, after);
        if m.recorded.Some? {
          indices[len] := m.recorded.value;
          assert indices[..len + 1] == after;
          len := len + 1;
        }
        i := m.next;
      }
      return true, indices[..len];
    }

    /** One pass of that loop, from coefficient index i. */
    method AcStep(ac: PenjiTable, i: int) returns (m: Step)
      requires Chains(ac) && Cursor(State()) && InFile() && 1 <= i < 64 && !fs.exited
      modifies this
      ensures m == AcNext(data, ac, old(State()), i) && (!m.Halt? ==> State() == m.cursor)
      ensures fs.exited <==> m.Stopped?
      ensures InFile() && old(fs.rs.pos) <= fs.rs.pos
      ensures out == old(out) && mark == old(mark) && written == old(written) && placing == old(placing)
    {
      ghost var b0 := State();
      if valid > 16 {
        m := Moved(Bits(fs, scanBuf, valid, input, index), i + 1, None);
      } else {
        var s := NextHuffSymbol(ac);
        if s.Aborted? {
          m := Halt;
        } else if s.Exited? {
          m := Stopped(Bits(fs, scanBuf, valid, input, index));
        } else {
          assert AcNext(data, ac, b0, i) == AcValue(data, State(), s.sym.value, i);
          m := AcSymbol(i, s.sym.value);
        }
      }
    }

    /** The rest of the pass, with the symbol's value v: the assert after
        ZRL, and the skip of the magnitude bits. */
    method AcSymbol(i: int, v: int) returns (m: Step)
      requires Cursor(State()) && InFile() && 1 <= i < 64 && 0 <= v < 256 && !fs.exited
      modifies this
      ensures m == AcValue(data, old(State()), v, i) && (!m.Halt? ==> State() == m.cursor)
      ensures fs.exited <==> m.Stopped?
      ensures InFile() && old(fs.rs.pos) <= fs.rs.pos
      ensures out == old(out) && mark == old(mark) && written == old(written) && placing == old(placing)
    {
      if v == 0 {
        m := EndOfBlock(Bits(fs, scanBuf, valid, input, index));
      } else if v == 0xF0 {
        // i += 16; assert(i < 64)
        m := if i + 16 < 64 then Moved(Bits(fs, scanBuf, valid, input, index), i + 17, None) else Halt;
      } else {
        var at := i + v / 16;
        InputDataSkipBits(v % 16);
        if fs.exited {
          m := Stopped(Bits(fs, scanBuf, valid, input, index));
        } else {
          m := Moved(Bits(fs, scanBuf, valid, input, index), at + 1, Some(at));
        }
      }
    }

    /** The loop state of `process_scan` together with the program state. */
    ghost function Snapshot(column: int, counter: int, prevEnd: int, nextStart: Option<int>): Splice
      reads this
    {
      Splice(State(), OutBuf(), written, column, counter, prevEnd, nextStart)
    }

    /** `out_buf_index--`. */
    method DropLastByte()
      requires InFile() && |OutBuf()| >= 1
      modifies this
      ensures OutBuf() == old(OutBuf())[..|old(OutBuf())| - 1] && InFile()
      ensures fs == old(fs) && written == old(written) && placing == old(placing) && Regs() == old(Regs())
    {
      var buf := OutBuf();
      out := buf[..|buf| - 1];
      mark := fs.rs.pos;
    }

    /** The merge loop over `out_buf` and the shift of its last byte
        (lines 253-290): each byte but the last takes the high bits of the
        byte after it, every `unsigned char` shift stored back as C does. */
    method SpliceBuffer(append: int, chop: int)
      requires InFile() && |OutBuf()| >= 2 && 0 <= append && 0 <= chop && chop + append <= 8
      modifies this
      ensures OutBuf() == Spliced(old(OutBuf()), append, chop) && InFile()
      ensures fs == old(fs) && written == old(written) && placing == old(placing) && Regs() == old(Regs())
    {
      var buf := OutBuf();
      var b := buf;
      var k := chop + append;
      var i := 0;
      while i < |b| - 1
        invariant 0 <= i <= |b| - 1 && |b| == |buf|
        invariant forall j :: 0 <= j < i ==> b[j] == SplicedAt(buf, j, append, chop)
        invariant forall j :: i <= j < |b| ==> b[j] == buf[j]
      {
        var cur := b[i];
        var next := b[i + 1];
        if i == 0 {
          cur := U8(cur / Pow2(append));
          cur := U8(cur * Pow2(append));
          next := U8(next * Pow2(chop));
          next := U8(next / Pow2(chop));
          next := U8(next / Pow2(8 - chop - append));
        } else {
          cur := U8(cur * Pow2(k));
          next := U8(next / Pow2(8 - k));
        }
        cur := U8(cur + next);
        b := b[i := cur];
        i := i + 1;
      }
      b := b[|b| - 1 := U8(b[|b| - 1] * Pow2(k))];
      out := b;
      mark := fs.rs.pos;
    }

    /** The merge of an even column (lines 240-307), given the input bit
        index the MCU ended at. */
    method Merge(counter: int, prevEnd: int, nextStart: Option<int>) returns (r: Merged)
      requires InFile() && |OutBuf()| >= 1 && Cursor(State()) && 0 <= prevEnd < 8
      requires nextStart.Some? ==> 0 <= nextStart.value < 8
      modifies this
      ensures r == MergeAfter(old(OutBuf()), counter, prevEnd, nextStart, old(index)) && InFile()
      ensures r.Merged? ==> OutBuf() == r.out
      ensures fs == old(fs) && written == old(written) && placing == old(placing) && Regs() == old(Regs())
    {
      if counter == 0 {
        return Merged(OutBuf(), index);
      }
      if |OutBuf()| < 2 {
        return Merged(OutBuf(), prevEnd);
      }
      if nextStart.None? {
        // bit_index_of_next_mcu_start is read before any odd column set it
        return NotYetSet;
      }
      var shiftBy := prevEnd + 1;
      var append := 8 - prevEnd - 1;
      var chop := nextStart.value + 1;
      if shiftBy == 8 {
        return Merged(OutBuf(), prevEnd);
      }
      if chop + append > 8 {
        // next >> (8 - bits_to_chop_off - bits_to_append) by a negative count
        return NegativeShift;
      }
      SpliceBuffer(append, chop);
      if index >= chop + append {
        r := Merged(OutBuf(), index - (chop + append));
      } else {
        // append + index - 1 is not negative here, so C's % agrees
        var end := (append + index - 1) % 8;
        DropLastByte();
        r := Merged(OutBuf(), end);
      }
    }

    /** The padding of the last byte (lines 320-334); false where the shift
        of 0xFF is by a negative count. */
    method PadLastByte(prevEnd: int) returns (ok: bool)
      requires InFile() && |OutBuf()| >= 1 && 0 <= prevEnd < 8
      modifies this
      ensures var n := |old(OutBuf())|; var p := PaddedAsWritten(old(OutBuf())[n - 1], prevEnd);
        ok == p.Some? && (ok ==> OutBuf() == old(OutBuf())[..n - 1] + [p.value])
      ensures InFile() && fs == old(fs) && written == old(written) && placing == old(placing) && Regs() == old(Regs())
    {
      var buf := OutBuf();
      var append := 8 - prevEnd + 1;
      var last := buf[|buf| - 1];
      if 8 - append < 0 {
        return false;
      }
      last := U8(last / Pow2(append));
      last := U8(last * Pow2(append));
      var padding := U8(255 / Pow2(8 - append));
      last := U8(last + padding);
      out := buf[..|buf| - 1] + [last];
      mark := fs.rs.pos;
      ok := true;
    }

    /** The even-column part of a pass: merge, flush all but the last byte,
        and pad within the last two MCUs. */
    method EvenColumn(counter: int, prevEnd: int, nextStart: Option<int>, expected: int) returns (j: Joined)
      requires InFile() && |OutBuf()| >= 1 && Cursor(State()) && 0 <= prevEnd < 8
      requires nextStart.Some? ==> 0 <= nextStart.value < 8
      modifies this
      ensures j == JoinAfter(old(OutBuf()), old(written), counter, prevEnd, nextStart, old(index), expected)
      ensures j.Joined? ==> OutBuf() == j.out && written == j.written
      ensures InFile() && fs == old(fs) && placing == old(placing) && Regs() == old(Regs())
    {
      ghost var buf0 := OutBuf();
      var m := Merge(counter, prevEnd, nextStart);
      if m.NegativeShift? {
        return JoinStop(Undefined);
      }
      if m.NotYetSet? {
        return JoinStop(Uninitialised);
      }
      assert JoinAfter(buf0, written, counter, prevEnd, nextStart, index, expected)
          == FlushAfter(OutBuf(), written, counter, m.prevEnd, expected);
      j := FlushAndPad(counter, m.prevEnd, expected);
    }

    /** Lines 309-334: flush, then pad within the last two MCUs. */
    method FlushAndPad(counter: int, end: int, expected: int) returns (j: Joined)
      requires InFile() && |OutBuf()| >= 1 && 0 <= end < 8
      modifies this
      ensures j == FlushAfter(old(OutBuf()), old(written), counter, end, expected)
      ensures j.Joined? ==> OutBuf() == j.out && written == j.written
      ensures InFile() && fs == old(fs) && placing == old(placing) && Regs() == old(Regs())
    {
      Flush();
      if counter == expected - 1 || counter == expected - 2 {
        var ok := PadLastByte(end);
        if !ok {
          return JoinStop(Undefined);
        }
      }
      j := Joined(OutBuf(), written, end);
    }

    /** Lines 309-313: the last byte taken out of the buffer, the rest
        written to the file and the buffer restarted with that byte. */
    method Flush()
      requires InFile() && |OutBuf()| >= 1
      modifies this
      ensures var n := |old(OutBuf())|;
        OutBuf() == [old(OutBuf())[n - 1]] && written == old(written) + old(OutBuf())[..n - 1]
      ensures InFile() && fs == old(fs) && placing == old(placing) && Regs() == old(Regs())
    {
      var buf := OutBuf();
      var term := buf[|buf| - 1];
      DropLastByte();
      WriteBufferToFile();
      PlaceByte(term);
    }

    /** One pass of the MCU loop of `process_scan` (lines 228-340), with
        `column_index`, `mcu_counter`, `bit_index_of_previous_mcu_end` and
        `bit_index_of_next_mcu_start` (none while unset). */
    method Pass(dc: PenjiTable, ac: PenjiTable, samples: int, expected: int,
                column: int, counter: int, prevEnd: int, nextStart: Option<int>)
      returns (stop: Stop, column': int, counter': int, prevEnd': int, nextStart': Option<int>)
      requires Chains(dc) && Chains(ac) && InFile() && Live(data, Snapshot(column, counter, prevEnd, nextStart))
      modifies this
      ensures var t := Turn(data, dc, ac, samples, expected, old(Snapshot(column, counter, prevEnd, nextStart)));
        stop == t.1 && (stop == Running ==> Snapshot(column', counter', prevEnd', nextStart') == t.0)
      ensures InFile()
    {
      SetPlaceBytes(column % 2 == 0);
      ghost var before := fs;
      var ok, _ := ProcessMcu(dc, ac);
      column', counter', prevEnd', nextStart' := column, counter, prevEnd, nextStart;
      if fs.exited {
        // read_1_byte has ended the program at the end of the file
        return EndOfFile, column', counter', prevEnd', nextStart';
      }
      if !ok {
        return AssertFailed, column', counter', prevEnd', nextStart';
      }
      EchoJoin(data, out, mark, before.rs.pos, fs.rs.pos);
      if column % 2 != 0 {
        nextStart' := Some(index);
      } else {
        var j := EvenColumn(counter, prevEnd, nextStart, expected);
        if j.JoinStop? {
          return j.stop, column', counter', prevEnd', nextStart';
        }
        prevEnd' := j.prevEnd;
      }
      counter' := counter + 1;
      column' := column + 1;
      if column' > samples {
        column' := 0;
      }
      stop := Running;
    }

    /** The MCU loop of `process_scan`, from column 0 and the first MCU. */
    method McuLoop(dc: PenjiTable, ac: PenjiTable, samples: int, expected: int) returns (stop: Stop)
      requires Chains(dc) && Chains(ac) && InFile() && Live(data, Snapshot(0, 0, 0, None))
      modifies this
      ensures var r := ScanFrom(data, dc, ac, samples, expected, old(Snapshot(0, 0, 0, None)));
        stop == r.1 && (stop == Finished || stop == EndOfImage ==> OutBuf() == r.0.out && written == r.0.written)
    {
      var column, counter, prevEnd, nextStart := 0, 0, 0, None;
      while true
        invariant InFile() && Live(data, Snapshot(column, counter, prevEnd, nextStart))
        invariant ScanFrom(data, dc, ac, samples, expected, Snapshot(column, counter, prevEnd, nextStart))
               == ScanFrom(data, dc, ac, samples, expected, old(Snapshot(0, 0, 0, None)))
        decreases expected - counter
      {
        if fs.rs.lastMarker == EOI_MARKER {
          return EndOfImage;
        }
        if counter >= expected {
          return Finished;
        }
        stop, column, counter, prevEnd, nextStart := Pass(dc, ac, samples, expected, column, counter, prevEnd, nextStart);
        if stop != Running {
          return;
        }
      }
    }

    /** The loop that reads the rest of the scan header, two bytes at a
        time and the last odd one alone. */
    method SkipHeader(h: int)
      requires InFile() && h > 0
      modifies this
      ensures fs == ReadBytes(data, old(fs), h).1 && InFile() && old(fs.rs.pos) <= fs.rs.pos
      ensures out == old(out) && mark == old(mark) && written == old(written) && placing == old(placing) && Regs() == old(Regs())
    {
      var headerLen := h;
      while headerLen != 0
        invariant 0 <= headerLen && InFile() && old(fs.rs.pos) <= fs.rs.pos
        invariant out == old(out) && mark == old(mark) && written == old(written) && placing == old(placing) && Regs() == old(Regs())
        invariant ReadBytes(data, fs, headerLen).1 == ReadBytes(data, old(fs), h).1
        decreases headerLen
      {
        ghost var at := fs;
        if headerLen > 1 {
          var ignored := ReadTwoBytes();
          ReadBytesSplit(data, at, 2, headerLen - 2);
          headerLen := headerLen - 2;
        } else {
          var ignored := ReadOneByte();
          ReadBytesSplit(data, at, 1, headerLen - 1);
          ReadBytesOne(data, at);
          headerLen := headerLen - 1;
        }
      }
    }

    /** `process_scan` (lines 182-348), entered with bytes being placed, as
        `process_frame` leaves it. */
    method ProcessScan(dc: PenjiTable, ac: PenjiTable, samples: int, expected: int) returns (stop: Stop)
      requires Chains(dc) && Chains(ac) && InFile() && placing
      modifies this
      ensures stop == ScanRun(data, dc, ac, samples, expected, old(fs), old(OutBuf()), old(written)).1
    {
      stop := EnterScan();
      if stop == Running {
        stop := McuLoop(dc, ac, samples, expected);
      }
    }

    /** Lines 186-226: the scan header, the buffer written, the first
        byte of entropy-coded data read and its first bit added. */
    method EnterScan() returns (stop: Stop)
      requires InFile() && placing
      modifies this
      ensures var e := ScanEntry(data, old(fs), old(OutBuf()), old(written));
        stop == e.1 && (stop == Running ==> Snapshot(0, 0, 0, None) == e.0)
      ensures InFile()
    {
      stop := ReadScanHeader();
      if stop == Running {
        stop := StartEntropy();
      }
    }

    /** Lines 209-226: the buffer written out, then the first byte read
        (and placed) and its first bit added. */
    method StartEntropy() returns (stop: Stop)
      requires InFile() && placing
      modifies this
      ensures var e := EntropyStart(data, old(fs), old(written) + old(OutBuf()));
        stop == e.1 && (stop == Running ==> Snapshot(0, 0, 0, None) == e.0)
      ensures InFile()
    {
      ghost var header := fs;
      WriteBufferToFile();
      scanBuf, valid := 0, 0;
      input := ReadOneByte();
      index := 0;
      if fs.exited {
        return EndOfFile;
      }
      assert OutBuf() == Taken(data, header, fs);
      var ok := AddBitToScanBuf();
      stop := Running;
    }

    /** Lines 186-198: the segment length, then the rest of the header read
        two bytes at a time and the last odd one alone. */
    method ReadScanHeader() returns (stop: Stop)
      requires InFile() && placing
      modifies this
      ensures (stop, fs) == HeaderRead(data, old(fs)) && InFile() && old(fs.rs.pos) <= fs.rs.pos
      ensures OutBuf() == old(OutBuf()) + Taken(data, old(fs), fs)
      ensures written == old(written) && placing == old(placing) && Regs() == old(Regs())
    {
      ghost var fs0 := fs;
      var len := ReadTwoBytes();
      if fs.exited {
        return EndOfFile;
      }
      var headerLen := len - 2;
      if headerLen <= 0 {
        // unsigned char scan_header[header_len] with a size that is not positive
        return Undefined;
      }
      ghost var afterLen := fs;
      SkipHeader(headerLen);
      EchoJoin(data, out, mark, fs0.rs.pos, fs.rs.pos);
      stop := Running;
    }

    /** The header part of `process_frame` (lines 351-383): the length,
        precision and lines placed and written out; samples per line and
        components read without placing them; then the samples-per-line
        field (halved, when there is one component) and the components
        placed. */
    method ProcessFrameHeader() returns (lines: int, samples: int, components: byte, end: HeaderEnd)
      requires InFile()
      modifies this
      ensures var f := FrameReads(data, old(fs));
        lines == f.0 && samples == f.1 && components == f.2 && fs == f.4
      ensures written == old(written) + old(OutBuf()) + (if old(placing) then Taken(data, old(fs), FrameReads(data, old(fs)).3) else [])
      ensures 0 <= samples < 65536 && 0 <= lines < 65536
      ensures OutBuf() == FieldBytesAsWritten(if components == 1 then ModifiedSamples(samples) else samples) + [components]
      ensures placing && end == (if fs.exited then Truncated else FrameOutcome(lines, samples, components as int))
      ensures InFile() && Regs() == old(Regs())
    {
      lines, samples, components := FrameFields();
      var modified := samples / 2 + (if samples % 2 == 0 then 0 else 1);
      var field := if components != 1 then samples else modified;
      assert field == if components == 1 then ModifiedSamples(samples) else samples;
      PlaceFields(field, components);
      if fs.exited {
        // read_1_byte ended the program within the fields; nothing after
        // it is reached
        return lines, samples, components, Truncated;
      }
      if components != 1 {
        return lines, samples, components, HeaderEnd.NotOneComponent;
      }
      end := ExpectedCount(lines, samples);
    }

    /** Line 385: `expected_mcu_count = original_num_lines *
        original_samples_per_line / 64`, with the product an `int`. */
    method ExpectedCount(lines: int, samples: int) returns (end: HeaderEnd)
      requires 0 <= lines < 65536 && 0 <= samples < 65536
      ensures end == FrameOutcome(lines, samples, 1)
    {
      var product := lines * samples;
      if product >= 0x8000_0000 {
        // an int product past 2^31 - 1, undefined in C
        end := Overflow;
      } else {
        end := Expected(product / 64);
      }
    }

    /** Lines 356-367: the reads of the header fields, with the buffer
        written out and placing stopped after the lines. */
    method FrameFields() returns (lines: int, samples: int, components: byte)
      requires InFile()
      modifies this
      ensures var f := FrameReads(data, old(fs));
        lines == f.0 && samples == f.1 && components == f.2 && fs == f.4
      ensures written == old(written) + old(OutBuf()) + (if old(placing) then Taken(data, old(fs), FrameReads(data, old(fs)).3) else [])
      ensures 0 <= samples < 65536 && 0 <= lines < 65536
      ensures OutBuf() == [] && InFile() && Regs() == old(Regs())
    {
      lines := ReadFrameLines();
      WriteBufferToFile();
      SetPlaceBytes(false);
      samples, components := ReadFrameSamples();
    }

    /** Lines 356-358. */
    method ReadFrameLines() returns (lines: int)
      requires InFile()
      modifies this
      ensures (lines, fs) == FrameLines(data, old(fs)) && InFile()
      ensures OutBuf() == old(OutBuf()) + (if placing then Taken(data, old(fs), fs) else [])
      ensures written == old(written) && placing == old(placing) && Regs() == old(Regs())
    {
      ghost var fs0 := fs;
      var length := ReadTwoBytes();
      var precision := ReadOneByte();
      lines := ReadTwoBytes();
      EchoJoin(data, out, mark, fs0.rs.pos, fs.rs.pos);
    }

    /** Lines 363-367, with placing stopped. */
    method ReadFrameSamples() returns (samples: int, components: byte)
      requires InFile()
      modifies this
      ensures (samples, components, fs) == FrameSamples(data, old(fs)) && InFile()
      ensures out == old(out) && mark == old(mark) && written == old(written) && placing == old(placing) && Regs() == old(Regs())
    {
      samples := ReadTwoBytes();
      components := ReadOneByte();
    }

    /** Lines 371-383: placing resumed and the samples-per-line field and
        the components placed, `place_byte_into_buffer(v >> 16)` and
        `(v & 0x0000FFFF)` each stored as an `unsigned char`. */
    method PlaceFields(field: int, components: byte)
      requires InFile() && 0 <= field < 65536
      modifies this
      ensures OutBuf() == old(OutBuf()) + FieldBytesAsWritten(field) + [components]
      ensures placing && fs == old(fs) && written == old(written) && InFile() && Regs() == old(Regs())
    {
      SetPlaceBytes(true);
      PlaceByte(U8(field / 65536));
      PlaceByte(U8(field % 65536));
      PlaceByte(components);
    }
  }
}
