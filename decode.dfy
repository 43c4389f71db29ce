/** `decompress_scanline` of the CPU decoder (src/jpeg-cpu.c): the MCUs of
    the frame, left to right and top to bottom; for each MCU a restart check,
    the blocks of every colour component (Huffman decoding, then the inverse
    DCT) and the colour conversion of its blocks. The state carried from block
    to block is a `Progress`; the functions below give the state after a
    prefix of each loop, and the methods are proved against them. */
module Decode {
  import opened Bytes
  import opened Arith
  import opened Bits
  import opened ZigZag
  import opened JpegInfo
  import opened Entropy
  import Idct
  import opened Cursor
  import opened Scanline
  import Segments
  import Stream

  /** The `mcus` buffer, the bit reader and `previous_dcs`. */
  datatype Progress = Progress(mem: seq<int>, bits: BitState, dcs: seq<int>)

  /** The tables colour component ci names exist: the CPU `decode_mcu`
      indexes them without a check. */
  predicate TablesExist(info: Info, ci: int)
  {
    WellFormedInfo(info) && 0 <= ci < MAX_COMPONENTS
    && info.components[ci].quantId < MAX_QUANT_TABLES
    && info.components[ci].dcId < MAX_HUFFMAN_TABLES && info.components[ci].acId < MAX_HUFFMAN_TABLES
  }

  /** `m` with the 64 entries at `base` replaced by `t`. */
  function Splice(m: seq<int>, base: int, t: seq<int>): (r: seq<int>)
    requires 0 <= base && base + 64 <= |m| && |t| == 64
    ensures |r| == |m|
  {
    m[..base] + t + m[base + 64..]
  }

  /** `inverse_dct_component` on the 64 entries at `base`. */
  function IdctAt(m: seq<int>, base: int): (r: seq<int>)
    requires 0 <= base && base + 64 <= |m|
    ensures |r| == |m|
  {
    Splice(m, base, Idct.Idct(m[base..base + 64]))
  }

  /** `decode_mcu` of colour ci from bit state `s` with previous DC `prev`. */
  function ComponentBlock(data: seq<byte>, info: Info, ci: int, s: BitState, prev: int): (r: BlockResult)
    requires TablesExist(info, ci) && Aligned(s) && IsBlockOrder(ZIGZAG_ORDER)
    ensures Aligned(r.bits) && |r.values| <= 64
  {
    var c := info.components[ci];
    Coefficients(data, info.dc[c.dcId], info.ac[c.acId], info.quant[c.quantId].table, ZIGZAG_ORDER, s, prev)
  }

  /** The conditions under which the decoder calls `decode_mcu` on the
      block at `base`. */
  predicate BlockReady(info: Info, p: Progress, ci: int, base: int)
  {
    TablesExist(info, ci) && IsBlockOrder(ZIGZAG_ORDER) && Aligned(p.bits) && |p.dcs| == 3
    && 0 <= base && base + 64 <= |p.mem|
  }

  /** `decode_mcu(d, ci, &mcus[base], &previous_dcs[ci])` and, when it
      returns 0, `inverse_dct_component(&mcus[base])`. None is the error
      return of `decompress_scanline`; `BlockReady` holds for every call the
      decoder makes. */
  function BlockStep(data: seq<byte>, info: Info, p: Progress, ci: int, base: int): Option<Progress>
  {
    if !BlockReady(info, p, ci, base) then None
    else
      var b := ComponentBlock(data, info, ci, p.bits, p.dcs[ci]);
      if b.status != 0 then None
      else Some(Progress(IdctAt(Place(p.mem, base, ZIGZAG_ORDER, b.values), base), b.bits, p.dcs[ci := b.dc]))
  }

  /** A block decoder: the state after the block of colour ci at `base`. */
  type BlockDecoder = (Progress, int, int) -> Option<Progress>

  /** `BlockStep` over the image data `data` and the tables of `info`. */
  function Decoder(data: seq<byte>, info: Info): BlockDecoder
  {
    (p: Progress, ci: int, base: int) => BlockStep(data, info, p, ci, base)
  }

  /** The blocks x' < x of block row y of colour ci in the MCU at (row, col),
      each decoded by `dec`. */
  function RowBlocks(dec: BlockDecoder, p: Option<Progress>, w: int, row: int, col: int, ci: int, y: int, x: int): Option<Progress>
    decreases x
  {
    if x <= 0 then p
    else
      var q := RowBlocks(dec, p, w, row, col, ci, y, x - 1);
      if q.None? then None else dec(q.value, ci, BlockOffset(w, row + y, col + x - 1, ci))
  }

  /** The block rows y' < y of colour ci, each `h` blocks wide. */
  function ComponentBlocks(dec: BlockDecoder, p: Option<Progress>, w: int, row: int, col: int, ci: int, h: int, y: int): Option<Progress>
    decreases y
  {
    if y <= 0 then p
    else RowBlocks(dec, ComponentBlocks(dec, p, w, row, col, ci, h, y - 1), w, row, col, ci, y - 1, h)
  }

  /** The colours c' < c of the MCU at (row, col), each with the sampling
      factors of its descriptor in `comps`. */
  function McuBlocks(dec: BlockDecoder, comps: seq<Component>, p: Option<Progress>, w: int, row: int, col: int, c: int): Option<Progress>
    decreases c
  {
    if c <= 0 then p
    else if c > |comps| then None
    else ComponentBlocks(dec, McuBlocks(dec, comps, p, w, row, col, c - 1), w, row, col, c - 1, comps[c - 1].h as int, comps[c - 1].v as int)
  }

  /** The restart test as written: `restart_interval * max_h * max_v` is
      compared against the block position `row * mcu_width_real + col`. */
  predicate RestartDue(ri: int, maxV: int, maxH: int, w: int, row: int, col: int)
  {
    ri * Count(maxV, maxH) != 0 && (row * w + col) % (ri * Count(maxV, maxH)) == 0
  }

  /** A restart: the three previous DC values are cleared and the bit
      buffer drops the bits of a partly read byte. */
  function Restart(p: Progress): Progress
  {
    Progress(p.mem, if Aligned(p.bits) then AlignToByte(p.bits) else p.bits, [0, 0, 0])
  }

  /** One iteration of the column loop: restart check, the blocks of all
      colours, then the colour conversion of the MCU. */
  function McuStep(data: seq<byte>, info: Info, p: Option<Progress>, row: int, col: int): Option<Progress>
  {
    if p.None? then None
    else
      var w := info.mcuWidthReal;
      var q := if RestartDue(info.restartInterval, info.maxV, info.maxH, w, row, col) then Restart(p.value) else p.value;
      var b := McuBlocks(Decoder(data, info), info.components, Some(q), w, row, col, info.numComponents);
      if b.Some? && McuFits(|b.value.mem|, w, row, col, info.maxV, info.maxH)
      then Some(b.value.(mem := McuAfter(b.value.mem, w, row, col, info.maxV, info.maxH, Count(info.maxV, info.maxH))))
      else None
  }

  /** `k * f` for a sampling factor f of 1 or 2. */
  function Times(k: int, f: int): int
  {
    if f == 1 then k else k + k
  }

  /** The first k MCUs of the row whose first block row is `row`; MCU i
      starts at column `i * max_h`. */
  function RowScan(data: seq<byte>, info: Info, p: Option<Progress>, row: int, k: int): Option<Progress>
    decreases k
  {
    if k <= 0 then p
    else McuStep(data, info, RowScan(data, info, p, row, k - 1), row, Times(k - 1, info.maxH))
  }

  /** The first k MCU rows; MCU row i starts at block row `i * max_v`. */
  function Scan(data: seq<byte>, info: Info, p: Option<Progress>, k: int): Option<Progress>
    decreases k
  {
    if k <= 0 then p
    else RowScan(data, info, Scan(data, info, p, k - 1), Times(k - 1, info.maxV), Across(info))
  }

  /** `n / f` for a sampling factor f of 1 or 2. */
  function Quot(n: int, f: int): int
  {
    if f == 1 then n else n / 2
  }

  /** The number of MCUs in a row, `mcu_width_real / max_h`. */
  function Across(info: Info): int
  {
    Quot(info.mcuWidthReal, info.maxH)
  }

  /** The number of MCU rows, `mcu_height_real / max_v`. */
  function Down(info: Info): int
  {
    Quot(info.mcuHeightReal, info.maxV)
  }

  /** The geometry `decompress_scanline` relies on: the loops stop at the
      first multiple of the maximum sampling factor not below `mcu_height`
      (`mcu_width`), which is `mcu_height_real` (`mcu_width_real`). */
  predicate ScanGeometry(info: Info)
  {
    1 <= info.maxV <= 2 && 1 <= info.maxH <= 2
    && 0 <= info.mcuHeight <= info.mcuHeightReal < info.mcuHeight + info.maxV && info.mcuHeightReal % info.maxV == 0
    && 0 <= info.mcuWidth <= info.mcuWidthReal < info.mcuWidth + info.maxH && info.mcuWidthReal % info.maxH == 0
  }

  /** What the decoder needs of the colour components: at most three, their
      tables exist and their sampling factors are at most the maximum ones. */
  predicate ComponentsReady(info: Info)
  {
    WellFormedInfo(info) && 0 <= info.numComponents <= MAX_COMPONENTS
    && 1 <= info.maxV <= 2 && 1 <= info.maxH <= 2
    && forall ci :: 0 <= ci < info.numComponents ==>
         TablesExist(info, ci) && info.components[ci].v as int <= info.maxV && info.components[ci].h as int <= info.maxH
  }

  /** The result of `decompress_scanline` for a buffer whose initial (unset)
      contents are `init` and a bit reader in state `bits`. */
  function Decompressed(data: seq<byte>, info: Info, init: seq<int>, bits: BitState): Option<Progress>
    requires ScanGeometry(info)
  {
    Scan(data, info, Some(Progress(init, bits, [0, 0, 0])), Down(info))
  }

  // ---------------------------------------------------------------- sampling maxima

  /** The frame header 00 0B 08 00 08 00 08 01 | 00 11 00: Lf = 11, P = 8,
      8 x 8 pixels, one component with id 0, factors 1 and 1, table 0. */
  function GreyFrame(): seq<byte>
  {
    [0, 11, 8, 0, 8, 0, 8, 1, 0, 0x11, 0]
  }

  /** The CPU parser accepts GreyFrame from any record that holds no frame
      yet, and leaves the maximum factors as they were. */
  lemma GreyFrameKeepsMaxima(info: Info)
    requires WellFormedInfo(info) && info.numComponents == 0 && info.valid
    ensures var r := Segments.Sof(Cpu, info, GreyFrame(), 0);
      r.status.JpegValid? && r.info.valid && r.info.greyScale
      && r.info.maxV == info.maxV && r.info.maxH == info.maxH && r.info.mcuHeight == 1
      && (info.maxV == 0 ==> !ScanGeometry(r.info))
  {
    var data := GreyFrame();
    var m := Segments.SofMetadata(Cpu, info, data, 2);
    assert Stream.ShortAt(data, 3) == 8 && Stream.ShortAt(data, 5) == 8;
    assert m.status.JpegValid? && m.info.numComponents == 1 && m.pos == 8;
    var c := Segments.SofComponent(Cpu, m.info, data, 8);
    assert HighNibble(0x11) == 1 && LowNibble(0x11) == 1;
    assert c.status.JpegValid? && c.info.maxV == info.maxV && c.info.maxH == info.maxH && c.pos == 11;
    var cs := Segments.SofComponents(Cpu, m.info, data, 8, 0);
    assert cs == Segments.SofComponents(Cpu, c.info, data, 11, 1);
    assert Stream.ShortAt(data, 0) == 11;
  }

  /** A greyscale frame header whose one component has id 0 is accepted by
      the CPU parser, yet the maximum factors keep the 0 of a record that
      had none, as the zero-initialised global (ZeroInfo) has: they are
      only set for id 1. The picture has one block row, and the row loop
      `row += max_v_samp_factor` of `decompress_scanline` never gets past
      row 0. */
  lemma GreyFrameStalls(prev: Info)
    requires WellFormedInfo(prev) && prev.maxV == 0 && prev.maxH == 0
    ensures var r := Segments.Sof(Cpu, InitInfo(prev), GreyFrame(), 0);
      r.status.JpegValid? && r.info.valid && r.info.greyScale
      && r.info.maxV == 0 && r.info.maxH == 0 && r.info.mcuHeight == 1
      && !ScanGeometry(r.info)
  {
    GreyFrameKeepsMaxima(InitInfo(prev));
  }

  /** The corrected maxima: taken over every descriptor of an accepted frame,
      they are 1 or 2, and the geometry computed with them keeps the block
      counts and is the one the row and column loops need. */
  lemma IntendedMaximaFitScan(info: Info, data: seq<byte>, p: int)
    requires WellFormedInfo(info)
    ensures var r := Segments.Sof(Cpu, info, data, p);
      var n := r.info.numComponents;
      var fixed := Segments.McuGeometry(Cpu,
        r.info.(maxH := Segments.IntendedMax(data, p + 8, n, false), maxV := Segments.IntendedMax(data, p + 8, n, true)));
      r.status.JpegValid? ==>
        ScanGeometry(fixed) && fixed.mcuHeight == r.info.mcuHeight && fixed.mcuWidth == r.info.mcuWidth
  {
    var r := Segments.Sof(Cpu, info, data, p);
    Segments.SofAccepted(Cpu, info, data, p);
    if r.status.JpegValid? {
      var n := r.info.numComponents;
      var q := p + 8;
      forall j | 0 <= j < n
        ensures Segments.DescriptorAccepted(Cpu, data, q + 3 * j, r.info.greyScale)
      {
        assert q + 3 * j == p + 8 + 3 * j;
      }
      Segments.IntendedMaxInRange(Cpu, data, q, n, r.info.greyScale, false);
      Segments.IntendedMaxInRange(Cpu, data, q, n, r.info.greyScale, true);
      var g := r.info.(maxH := Segments.IntendedMax(data, q, n, false), maxV := Segments.IntendedMax(data, q, n, true));
      Segments.McuGeometryMeaning(Cpu, g);
    }
  }

  // ---------------------------------------------------------------- methods

  /** A memory that holds `t` at `base` and `m` elsewhere is `Splice(m, base, t)`. */
  lemma SpliceIs(m: seq<int>, m': seq<int>, base: int, t: seq<int>)
    requires 0 <= base && base + 64 <= |m| && |m'| == |m| && |t| == 64
    requires m'[base..base + 64] == t
    requires forall j :: 0 <= j < |m| && !(base <= j < base + 64) ==> m'[j] == m[j]
    ensures m' == Splice(m, base, t)
  {
    var r := Splice(m, base, t);
    forall j | 0 <= j < |m|
      ensures m'[j] == r[j]
    {
      if base <= j < base + 64 {
        assert m'[j] == m'[base..base + 64][j - base];
      }
    }
  }

  /** One block: `decode_mcu`, and the inverse DCT when it succeeds. */
  method DecodeBlock(d: Decompressor, info: Info, buf: array<int>, ci: int, base: int, dcs: seq<int>) returns (ok: bool, dcs': seq<int>)
    requires TablesExist(info, ci) && Aligned(d.Bits()) && |dcs| == 3 && 0 <= base && base + 64 <= buf.Length
    modifies d`pos, d`bitBuffer, d`bitsLeft, buf
    ensures var r := BlockStep(d.data, info, Progress(old(buf[..]), old(d.Bits()), dcs), ci, base);
      ok == r.Some? && (ok ==> buf[..] == r.value.mem && d.Bits() == r.value.bits && dcs' == r.value.dcs)
    ensures ok ==> Aligned(d.Bits()) && |dcs'| == 3
  {
    ZigZagIsBlockOrder();
    var status, dc := CpuDecodeMcu(d, info, ci, buf, base, dcs[ci]);
    if status != 0 {
      return false, dcs;
    }
    ghost var placed := buf[..];
    Idct.InverseDctComponent(buf, base);
    SpliceIs(placed, buf[..], base, Idct.Idct(placed[base..base + 64]));
    return true, dcs[ci := dc];
  }

  /** An error stays an error: once a block fails, every later prefix of
      the MCU's loops is None. */
  lemma {:induction false} RowBlocksNone(dec: BlockDecoder, p: Option<Progress>, w: int, row: int, col: int, ci: int, y: int, x: int, x': int)
    requires 0 <= x <= x' && RowBlocks(dec, p, w, row, col, ci, y, x) == None
    ensures RowBlocks(dec, p, w, row, col, ci, y, x') == None
    decreases x' - x
  {
    if x < x' {
      RowBlocksNone(dec, p, w, row, col, ci, y, x, x' - 1);
    }
  }

  lemma {:induction false} RowFromNone(dec: BlockDecoder, w: int, row: int, col: int, ci: int, y: int, x: int)
    ensures RowBlocks(dec, None, w, row, col, ci, y, x) == None
    decreases x
  {
    if x > 0 {
      RowFromNone(dec, w, row, col, ci, y, x - 1);
    }
  }

  lemma {:induction false} ComponentBlocksNone(dec: BlockDecoder, p: Option<Progress>, w: int, row: int, col: int, ci: int, h: int, y: int, y': int)
    requires 0 <= y <= y' && ComponentBlocks(dec, p, w, row, col, ci, h, y) == None
    ensures ComponentBlocks(dec, p, w, row, col, ci, h, y') == None
    decreases y' - y
  {
    if y < y' {
      ComponentBlocksNone(dec, p, w, row, col, ci, h, y, y' - 1);
      RowFromNone(dec, w, row, col, ci, y' - 1, h);
    }
  }

  lemma {:induction false} ComponentFromNone(dec: BlockDecoder, w: int, row: int, col: int, ci: int, h: int, y: int)
    ensures ComponentBlocks(dec, None, w, row, col, ci, h, y) == None
    decreases y
  {
    if y > 0 {
      ComponentFromNone(dec, w, row, col, ci, h, y - 1);
      RowFromNone(dec, w, row, col, ci, y - 1, h);
    }
  }

  lemma {:induction false} McuBlocksNone(dec: BlockDecoder, comps: seq<Component>, p: Option<Progress>, w: int, row: int, col: int, c: int, c': int)
    requires 0 <= c <= c' && McuBlocks(dec, comps, p, w, row, col, c) == None
    ensures McuBlocks(dec, comps, p, w, row, col, c') == None
    decreases c' - c
  {
    if c < c' {
      McuBlocksNone(dec, comps, p, w, row, col, c, c' - 1);
      if c' <= |comps| {
        ComponentFromNone(dec, w, row, col, c' - 1, comps[c' - 1].h as int, comps[c' - 1].v as int);
      }
    }
  }

  /** The block of colour ci at (y, x) of the MCU at (row, col) lies in a
      buffer holding the MCU. */
  lemma BlockInMcu(n: int, w: int, row: int, col: int, maxV: int, maxH: int, ci: int, y: int, x: int)
    requires McuFits(n, w, row, col, maxV, maxH) && 0 <= ci < 3 && 0 <= y < maxV && 0 <= x < maxH
    ensures 0 <= BlockOffset(w, row + y, col + x, ci) && BlockOffset(w, row + y, col + x, ci) + 64 <= n
  {
    BlockOffsetBound(row + maxV, w, row + y, col + x, ci);
    MulAssoc(row + maxV, w, 192);
  }

  /** The x loop of `decompress_scanline`: the blocks of block row y of
      colour ci in the MCU at (row, col). */
  method DecodeBlockRow(d: Decompressor, info: Info, buf: array<int>, w: int, row: int, col: int, ci: int, y: int, dcs: seq<int>)
    returns (ok: bool, dcs': seq<int>)
    requires ComponentsReady(info) && McuFits(buf.Length, w, row, col, info.maxV, info.maxH)
    requires 0 <= ci < info.numComponents && 0 <= y < info.components[ci].v as int
    requires Aligned(d.Bits()) && |dcs| == 3
    modifies d`pos, d`bitBuffer, d`bitsLeft, buf
    ensures var r := RowBlocks(Decoder(d.data, info), Some(Progress(old(buf[..]), old(d.Bits()), dcs)), w, row, col, ci, y, info.components[ci].h as int);
      ok == r.Some? && (ok ==> buf[..] == r.value.mem && d.Bits() == r.value.bits && dcs' == r.value.dcs)
    ensures ok ==> Aligned(d.Bits()) && |dcs'| == 3
  {
    ghost var dec := Decoder(d.data, info);
    ghost var p0 := Some(Progress(buf[..], d.Bits(), dcs));
    var h := info.components[ci].h as int;
    dcs' := dcs;
    var x := 0;
    while x < h
      invariant 0 <= x <= h && Aligned(d.Bits()) && |dcs'| == 3
      invariant RowBlocks(dec, p0, w, row, col, ci, y, x) == Some(Progress(buf[..], d.Bits(), dcs'))
    {
      BlockInMcu(buf.Length, w, row, col, info.maxV, info.maxH, ci, y, x);
      var ok1;
      ok1, dcs' := DecodeBlock(d, info, buf, ci, BlockOffset(w, row + y, col + x, ci), dcs');
      if !ok1 {
        RowBlocksNone(dec, p0, w, row, col, ci, y, x + 1, h);
        return false, dcs';
      }
      x := x + 1;
    }
    return true, dcs';
  }

  /** The y loop of `decompress_scanline`: the blocks of colour ci in the
      MCU at (row, col). */
  method DecodeComponent(d: Decompressor, info: Info, buf: array<int>, w: int, row: int, col: int, ci: int, dcs: seq<int>)
    returns (ok: bool, dcs': seq<int>)
    requires ComponentsReady(info) && McuFits(buf.Length, w, row, col, info.maxV, info.maxH)
    requires 0 <= ci < info.numComponents
    requires Aligned(d.Bits()) && |dcs| == 3
    modifies d`pos, d`bitBuffer, d`bitsLeft, buf
    ensures var c := info.components[ci];
      var r := ComponentBlocks(Decoder(d.data, info), Some(Progress(old(buf[..]), old(d.Bits()), dcs)), w, row, col, ci, c.h as int, c.v as int);
      ok == r.Some? && (ok ==> buf[..] == r.value.mem && d.Bits() == r.value.bits && dcs' == r.value.dcs)
    ensures ok ==> Aligned(d.Bits()) && |dcs'| == 3
  {
    ghost var dec := Decoder(d.data, info);
    ghost var p0 := Some(Progress(buf[..], d.Bits(), dcs));
    var comp := info.components[ci];
    dcs' := dcs;
    var y := 0;
    while y < comp.v as int
      invariant 0 <= y <= comp.v as int && Aligned(d.Bits()) && |dcs'| == 3
      invariant ComponentBlocks(dec, p0, w, row, col, ci, comp.h as int, y) == Some(Progress(buf[..], d.Bits(), dcs'))
    {
      var ok1;
      ok1, dcs' := DecodeBlockRow(d, info, buf, w, row, col, ci, y, dcs');
      if !ok1 {
        ComponentBlocksNone(dec, p0, w, row, col, ci, comp.h as int, y + 1, comp.v as int);
        return false, dcs';
      }
      y := y + 1;
    }
    return true, dcs';
  }

  lemma McuBlocksNext(dec: BlockDecoder, comps: seq<Component>, p: Option<Progress>, w: int, row: int, col: int, c: int)
    requires 0 <= c < |comps|
    ensures McuBlocks(dec, comps, p, w, row, col, c + 1)
      == ComponentBlocks(dec, McuBlocks(dec, comps, p, w, row, col, c), w, row, col, c, comps[c].h as int, comps[c].v as int)
  {
  }

  /** The colour loop of `decompress_scanline` for the MCU at (row, col):
      every block of every colour, stopping at the first `decode_mcu` error. */
  method DecodeMcuBlocks(d: Decompressor, info: Info, buf: array<int>, w: int, row: int, col: int, dcs: seq<int>)
    returns (ok: bool, dcs': seq<int>)
    requires ComponentsReady(info) && McuFits(buf.Length, w, row, col, info.maxV, info.maxH)
    requires Aligned(d.Bits()) && |dcs| == 3
    modifies d`pos, d`bitBuffer, d`bitsLeft, buf
    ensures var r := McuBlocks(Decoder(d.data, info), info.components, Some(Progress(old(buf[..]), old(d.Bits()), dcs)), w, row, col, info.numComponents);
      ok == r.Some? && (ok ==> buf[..] == r.value.mem && d.Bits() == r.value.bits && dcs' == r.value.dcs)
    ensures ok ==> Aligned(d.Bits()) && |dcs'| == 3
  {
    ghost var dec := Decoder(d.data, info);
    ghost var p0 := Some(Progress(buf[..], d.Bits(), dcs));
    dcs' := dcs;
    var ci := 0;
    while ci < info.numComponents
      invariant 0 <= ci <= info.numComponents && Aligned(d.Bits()) && |dcs'| == 3
      invariant McuBlocks(dec, info.components, p0, w, row, col, ci) == Some(Progress(buf[..], d.Bits(), dcs'))
    {
      McuBlocksNext(dec, info.components, p0, w, row, col, ci);
      var ok1;
      ok1, dcs' := DecodeComponent(d, info, buf, w, row, col, ci, dcs');
      if !ok1 {
        McuBlocksNone(dec, info.components, p0, w, row, col, ci + 1, info.numComponents);
        return false, dcs';
      }
      ci := ci + 1;
    }
    return true, dcs';
  }

  lemma {:induction false} RowScanNone(data: seq<byte>, info: Info, p: Option<Progress>, row: int, k: int, k': int)
    requires 0 <= k <= k' && RowScan(data, info, p, row, k) == None
    ensures RowScan(data, info, p, row, k') == None
    decreases k' - k
  {
    if k < k' {
      RowScanNone(data, info, p, row, k, k' - 1);
    }
  }

  lemma {:induction false} RowScanFromNone(data: seq<byte>, info: Info, row: int, k: int)
    ensures RowScan(data, info, None, row, k) == None
    decreases k
  {
    if k > 0 {
      RowScanFromNone(data, info, row, k - 1);
    }
  }

  lemma {:induction false} ScanNone(data: seq<byte>, info: Info, p: Option<Progress>, k: int, k': int)
    requires 0 <= k <= k' && Scan(data, info, p, k) == None
    ensures Scan(data, info, p, k') == None
    decreases k' - k
  {
    if k < k' {
      ScanNone(data, info, p, k, k' - 1);
      RowScanFromNone(data, info, Times(k' - 1, info.maxV), Across(info));
    }
  }

  /** A loop `for (v = 0; v < n; v += f)` over a range rounded up to
      `nr`, a multiple of f: before the i-th step v + f stays within `nr`,
      and the loop ends with v == nr after `nr / f` steps. */
  lemma LoopStep(n: int, nr: int, f: int, i: int)
    requires 1 <= f <= 2 && 0 <= n <= nr < n + f && nr % f == 0 && 0 <= i <= Quot(nr, f)
    ensures Times(i, f) < n ==> i < Quot(nr, f) && Times(i, f) + f <= nr && Times(i + 1, f) == Times(i, f) + f
    ensures Times(i, f) >= n ==> i == Quot(nr, f)
  {
  }

  /** The product `restart_interval * max_h * max_v` of the source. */
  lemma CountIsProduct(ri: int, maxV: int, maxH: int)
    requires 1 <= maxV <= 2 && 1 <= maxH <= 2
    ensures ri * maxH * maxV == ri * Count(maxV, maxH)
  {
    if maxV == 2 {
      assert ri * maxH * 2 == ri * maxH + ri * maxH;
    }
  }

  /** The MCU at (row, col) lies in the buffer of `mhr x mwr` block positions. */
  lemma McuInBuffer(mhr: int, mwr: int, row: int, col: int, maxV: int, maxH: int)
    requires 1 <= maxV <= 2 && 1 <= maxH <= 2 && 0 <= row && row + maxV <= mhr && 0 <= col && col + maxH <= mwr
    ensures McuFits(mhr * mwr * 192, mwr, row, col, maxV, maxH)
  {
    MulMonoLe(row + maxV, mhr, mwr * 192);
    MulAssoc(row + maxV, mwr, 192);
    MulAssoc(mhr, mwr, 192);
  }

  /** `McuStep` from the restarted state `q` and the state `b` after the
      blocks of the MCU. */
  lemma McuStepIs(data: seq<byte>, info: Info, p: Progress, row: int, col: int, q: Progress, b: Option<Progress>)
    requires q == if RestartDue(info.restartInterval, info.maxV, info.maxH, info.mcuWidthReal, row, col) then Restart(p) else p
    requires b == McuBlocks(Decoder(data, info), info.components, Some(q), info.mcuWidthReal, row, col, info.numComponents)
    ensures b.None? ==> McuStep(data, info, Some(p), row, col) == None
    ensures b.Some? && McuFits(|b.value.mem|, info.mcuWidthReal, row, col, info.maxV, info.maxH) ==>
      McuStep(data, info, Some(p), row, col)
      == Some(b.value.(mem := McuAfter(b.value.mem, info.mcuWidthReal, row, col, info.maxV, info.maxH, Count(info.maxV, info.maxH))))
  {
  }

  /** The restart of the source: when `restart_interval * max_h * max_v`
      divides the block position, the DC predictions are cleared and the
      reader is aligned to a byte. */
  method RestartIfDue(d: Decompressor, info: Info, row: int, col: int, interval: int, dcs: seq<int>) returns (dcs': seq<int>)
    requires 1 <= info.maxV <= 2 && 1 <= info.maxH <= 2 && interval == info.restartInterval * info.maxH * info.maxV
    requires Aligned(d.Bits()) && |dcs| == 3
    modifies d`bitBuffer, d`bitsLeft
    ensures RestartDue(info.restartInterval, info.maxV, info.maxH, info.mcuWidthReal, row, col) ==>
      d.Bits() == AlignToByte(old(d.Bits())) && dcs' == [0, 0, 0]
    ensures !RestartDue(info.restartInterval, info.maxV, info.maxH, info.mcuWidthReal, row, col) ==>
      d.Bits() == old(d.Bits()) && dcs' == dcs
    ensures Aligned(d.Bits()) && |dcs'| == 3
  {
    var at := row * info.mcuWidthReal + col;
    RestartDueIs(info.restartInterval, info.maxV, info.maxH, info.mcuWidthReal, row, col, interval, at);
    dcs' := dcs;
    if interval != 0 && at % interval == 0 {
      dcs' := [0, 0, 0];
      d.AlignBits();
    }
  }

  /** `RestartDue` is the test of the source on the product it computes. */
  lemma RestartDueIs(ri: int, maxV: int, maxH: int, w: int, row: int, col: int, interval: int, at: int)
    requires 1 <= maxV <= 2 && 1 <= maxH <= 2 && interval == ri * maxH * maxV && at == row * w + col
    ensures RestartDue(ri, maxV, maxH, w, row, col) <==> interval != 0 && at % interval == 0
  {
    CountIsProduct(ri, maxV, maxH);
  }

  /** One iteration of the column loop of `decompress_scanline`: the
      restart check, the blocks of the MCU at (row, col) and its colour
      conversion. `interval` is `restart_interval * max_h * max_v`. */
  method DecodeMcu(d: Decompressor, info: Info, buf: array<int>, row: int, col: int, interval: int, dcs: seq<int>)
    returns (ok: bool, dcs': seq<int>)
    requires ComponentsReady(info) && McuFits(buf.Length, info.mcuWidthReal, row, col, info.maxV, info.maxH)
    requires Aligned(d.Bits()) && |dcs| == 3 && interval == info.restartInterval * info.maxH * info.maxV
    modifies d`pos, d`bitBuffer, d`bitsLeft, buf
    ensures var r := McuStep(d.data, info, Some(Progress(old(buf[..]), old(d.Bits()), dcs)), row, col);
      ok == r.Some? && (ok ==> buf[..] == r.value.mem && d.Bits() == r.value.bits && dcs' == r.value.dcs)
    ensures ok ==> Aligned(d.Bits()) && |dcs'| == 3
  {
    ghost var p := Progress(buf[..], d.Bits(), dcs);
    dcs' := RestartIfDue(d, info, row, col, interval, dcs);
    ghost var q := Progress(buf[..], d.Bits(), dcs');
    ghost var b := McuBlocks(Decoder(d.data, info), info.components, Some(q), info.mcuWidthReal, row, col, info.numComponents);
    McuStepIs(d.data, info, p, row, col, q, b);
    ok, dcs' := DecodeMcuBlocks(d, info, buf, info.mcuWidthReal, row, col, dcs');
    if ok {
      ghost var m := buf[..];
      ConvertMcu(buf, info.mcuWidthReal, row, col, info.maxV, info.maxH);
      assert buf[..] == McuAfter(m, info.mcuWidthReal, row, col, info.maxV, info.maxH, Count(info.maxV, info.maxH));
    }
  }

  /** The column loop of `decompress_scanline` for the MCU row whose first
      block row is `row`: every MCU of the row in turn, stopping at the
      first `decode_mcu` error. */
  method DecodeMcuRow(d: Decompressor, info: Info, buf: array<int>, row: int, interval: int, dcs: seq<int>)
    returns (ok: bool, dcs': seq<int>)
    requires ScanGeometry(info) && ComponentsReady(info) && Aligned(d.Bits()) && |dcs| == 3
    requires buf.Length == info.mcuHeightReal * info.mcuWidthReal * 192
    requires 0 <= row && row + info.maxV <= info.mcuHeightReal
    requires interval == info.restartInterval * info.maxH * info.maxV
    modifies d`pos, d`bitBuffer, d`bitsLeft, buf
    ensures var r := RowScan(d.data, info, Some(Progress(old(buf[..]), old(d.Bits()), dcs)), row, Across(info));
      ok == r.Some? && (ok ==> buf[..] == r.value.mem && d.Bits() == r.value.bits && dcs' == r.value.dcs)
    ensures ok ==> Aligned(d.Bits()) && |dcs'| == 3
  {
    ghost var pr := Some(Progress(buf[..], d.Bits(), dcs));
    var w := info.mcuWidthReal;
    dcs' := dcs;
    ghost var k := 0;
    var col := 0;
    while col < info.mcuWidth
      invariant 0 <= k <= Across(info) && col == Times(k, info.maxH)
      invariant Aligned(d.Bits()) && |dcs'| == 3
      invariant RowScan(d.data, info, pr, row, k) == Some(Progress(buf[..], d.Bits(), dcs'))
    {
      LoopStep(info.mcuWidth, w, info.maxH, k);
      McuInBuffer(info.mcuHeightReal, w, row, col, info.maxV, info.maxH);
      ok, dcs' := DecodeMcu(d, info, buf, row, col, interval, dcs');
      if !ok {
        RowScanNone(d.data, info, pr, row, k + 1, Across(info));
        return;
      }
      col := col + info.maxH;
      k := k + 1;
    }
    LoopStep(info.mcuWidth, w, info.maxH, k);
    ok := true;
  }

  /** `decompress_scanline`: a buffer of `mcu_height_real * mcu_width_real`
      block positions whose initial contents are `init` is filled MCU by MCU;
      on a `decode_mcu` error the result is null and `valid` is cleared. */
  method DecompressScanline(d: Decompressor, info: Info, init: seq<int>) returns (mcus: array?<int>, info': Info)
    requires ScanGeometry(info) && ComponentsReady(info) && Aligned(d.Bits())
    requires |init| == info.mcuHeightReal * info.mcuWidthReal * 192
    modifies d`pos, d`bitBuffer, d`bitsLeft
    ensures var r := Decompressed(d.data, info, init, old(d.Bits()));
      (mcus != null <==> r.Some?)
      && (mcus != null ==> fresh(mcus) && mcus[..] == r.value.mem && d.Bits() == r.value.bits)
      && info' == if mcus != null then info else info.(valid := false)
  {
    var buf := new int[|init|](j requires 0 <= j < |init| => init[j]);
    assert buf[..] == init;
    var ok := DecodeScan(d, info, buf);
    if !ok {
      return null, info.(valid := false);
    }
    return buf, info;
  }

  /** The row loop of `decompress_scanline` on the buffer `buf`: every MCU
      row in turn, stopping at the first `decode_mcu` error. */
  method DecodeScan(d: Decompressor, info: Info, buf: array<int>) returns (ok: bool)
    requires ScanGeometry(info) && ComponentsReady(info) && Aligned(d.Bits())
    requires buf.Length == info.mcuHeightReal * info.mcuWidthReal * 192
    modifies d`pos, d`bitBuffer, d`bitsLeft, buf
    ensures var r := Decompressed(d.data, info, old(buf[..]), old(d.Bits()));
      ok == r.Some? && (ok ==> buf[..] == r.value.mem && d.Bits() == r.value.bits)
  {
    var dcs := [0, 0, 0];
    var interval := info.restartInterval * info.maxH * info.maxV;
    ghost var p0 := Some(Progress(buf[..], d.Bits(), dcs));
    ghost var i := 0;
    var row := 0;
    while row < info.mcuHeight
      invariant 0 <= i <= Down(info) && row == Times(i, info.maxV)
      invariant Aligned(d.Bits()) && |dcs| == 3
      invariant Scan(d.data, info, p0, i) == Some(Progress(buf[..], d.Bits(), dcs))
    {
      LoopStep(info.mcuHeight, info.mcuHeightReal, info.maxV, i);
      ok, dcs := DecodeMcuRow(d, info, buf, row, interval, dcs);
      if !ok {
        ScanNone(d.data, info, p0, i + 1, Down(info));
        return;
      }
      row := row + info.maxV;
      i := i + 1;
    }
    LoopStep(info.mcuHeight, info.mcuHeightReal, info.maxV, i);
    ok := true;
  }
}
