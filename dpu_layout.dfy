/** The index arithmetic of the DPU decoder (src/dpu/dpu-jpeg-decode.c),
    seen from one tasklet: where a block of the picture lies in the MRAM
    `MCU_buffer`, where a block of an MCU lies in the tasklet's `MCU_cache`,
    and which MCU rows each tasklet converts in `inverse_dct_convert`. */
module DpuLayout {
  import opened Bytes
  import opened Arith
  import Segments

  /** `mcu_index`: block (r, c) of colour plane p in a picture whose rows are
      w blocks long, the three planes of a block position side by side. */
  function BlockIndex(r: int, c: int, p: int, w: int): int
  {
    (r * w + c) * 3 + p
  }

  /** `mcu_offset = mcu_index << 6`: the first short of the block in
      `MCU_buffer`. */
  function BlockOffset(r: int, c: int, p: int, w: int): int
  {
    BlockIndex(r, c, p, w) * 64
  }

  /** A position (r, c, p) of a block in a picture of h x w block positions
      with three colour planes. */
  predicate InPicture(r: int, c: int, p: int, w: int, h: int)
  {
    0 <= r < h && 0 <= c < w && 0 <= p < 3
  }

  lemma RowMajorUnique(r: int, c: int, r': int, c': int, w: int)
    requires 0 <= c < w && 0 <= c' < w && r * w + c == r' * w + c'
    ensures r == r' && c == c'
  {
    DivModUnique(r, w, c);
    DivModUnique(r', w, c');
  }

  /** Different blocks of the picture have different indices: the layout
      of `MCU_buffer` is one-to-one. */
  lemma BlockIndexUnique(r: int, c: int, p: int, r': int, c': int, p': int, w: int, h: int)
    requires InPicture(r, c, p, w, h) && InPicture(r', c', p', w, h)
    ensures BlockIndex(r, c, p, w) == BlockIndex(r', c', p', w) <==> r == r' && c == c' && p == p'
  {
    if BlockIndex(r, c, p, w) == BlockIndex(r', c', p', w) {
      DivModUnique(r * w + c, 3, p);
      DivModUnique(r' * w + c', 3, p');
      RowMajorUnique(r, c, r', c', w);
    }
  }

  /** Every block of the picture lies inside a buffer of h * w * 192 shorts,
      and the 64 shorts of two different blocks do not overlap. */
  lemma BlocksApart(r: int, c: int, p: int, r': int, c': int, p': int, w: int, h: int)
    requires InPicture(r, c, p, w, h) && InPicture(r', c', p', w, h)
    ensures 0 <= BlockOffset(r, c, p, w) && BlockOffset(r, c, p, w) + 64 <= h * w * 192
    ensures (r, c, p) != (r', c', p') ==>
      BlockOffset(r, c, p, w) + 64 <= BlockOffset(r', c', p', w) || BlockOffset(r', c', p', w) + 64 <= BlockOffset(r, c, p, w)
  {
    BlockIndexUnique(r, c, p, r', c', p', w, h);
    MulMonoLe(r, h - 1, w);
    assert r * w + c < h * w;
    assert BlockIndex(r, c, p, w) < h * w * 3;
    MulMonoLe(BlockIndex(r, c, p, w) + 1, h * w * 3, 64);
    if (r, c, p) != (r', c', p') {
      var i, i' := BlockIndex(r, c, p, w), BlockIndex(r', c', p', w);
      if i < i' {
        MulMonoLe(i + 1, i', 64);
      } else {
        MulMonoLe(i' + 1, i, 64);
      }
    }
  }

  /** `mcu_index` of `decode_bitstream`, which is stored in an `uint16_t`. */
  function DecodeIndex(r: int, c: int, p: int, w: int): int
  {
    U16(BlockIndex(r, c, p, w))
  }

  /** The 16-bit index is the block index as long as the picture has at most
      65536 planes of blocks. */
  lemma DecodeIndexExact(r: int, c: int, p: int, w: int, h: int)
    requires InPicture(r, c, p, w, h) && h * w * 3 <= 65536
    ensures DecodeIndex(r, c, p, w) == BlockIndex(r, c, p, w)
  {
    MulMonoLe(r, h - 1, w);
    assert BlockIndex(r, c, p, w) < h * w * 3;
  }

  /** In a picture 4096 blocks (32768 pixels) wide, the Cb plane of block
      (5, 1365) gets the 16-bit index of the first block. */
  lemma DecodeIndexWraps()
    ensures BlockIndex(5, 1365, 1, 4096) == 65536 && DecodeIndex(5, 1365, 1, 4096) == DecodeIndex(0, 0, 0, 4096)
  {
  }

  /** `cache_index = ((y << 8) + (y << 7)) + ((x << 7) + (x << 6)) + (color_index << 6)`:
      the block at (y, x) of plane p of an MCU, for the non-negative indices
      of the source. */
  function CacheIndex(y: int, x: int, p: int): int
  {
    (y * 256 + y * 128) + (x * 128 + x * 64) + p * 64
  }

  /** A block (y, x) of plane p of an MCU of at most 2 x 2 blocks. */
  predicate InMcu(y: int, x: int, p: int)
  {
    0 <= y < 2 && 0 <= x < 2 && 0 <= p < 3
  }

  /** The cache index is 384y + 192x + 64p: the planes of a block position
      are adjacent and the four positions follow each other, so the blocks of
      an MCU take 4 * 192 shorts without overlapping. */
  lemma CacheIndexLayout(y: int, x: int, p: int, y': int, x': int, p': int)
    requires InMcu(y, x, p) && InMcu(y', x', p')
    ensures CacheIndex(y, x, p) == 384 * y + 192 * x + 64 * p
    ensures 0 <= CacheIndex(y, x, p) && CacheIndex(y, x, p) + 64 <= 4 * 192
    ensures (y, x, p) != (y', x', p') ==>
      CacheIndex(y, x, p) + 64 <= CacheIndex(y', x', p') || CacheIndex(y', x', p') + 64 <= CacheIndex(y, x, p)
  {
  }

  /** `MCU_cache` gives each tasklet a row of MCU_SIZE * 3 = 192 shorts: only
      the block position (0, 0) of an MCU lies inside it. */
  lemma CacheIndexOverflow(y: int, x: int, p: int)
    requires InMcu(y, x, p)
    ensures CacheIndex(y, x, p) + 64 <= 192 <==> y == 0 && x == 0
  {
  }

  /** `row` or `end_row` of `inverse_dct_convert`: a product stored in an
      `uint16_t` and moved up to an even row, so that a tasklet starts at the
      first block row of an MCU when the maximum vertical factor is 2. */
  function EvenRow(x: int): (r: int)
  {
    var row := U16(x);
    if row % 2 == 1 then U16(row + 1) else row
  }

  /** The first MCU row that tasklet t converts. */
  function TaskletStart(rowsPerTasklet: int, t: int): int
  {
    EvenRow(rowsPerTasklet * t)
  }

  /** The end of the rows of tasklet t: the start of the next tasklet, and
      `mcu_count_v` (stored in an `uint16_t`) for the last one. */
  function TaskletStop(rowsPerTasklet: int, t: int, mcuCountV: int): int
  {
    if t == Segments.NR_TASKLETS - 1 then U16(mcuCountV) else EvenRow(rowsPerTasklet * (t + 1))
  }

  predicate InTile(rowsPerTasklet: int, t: int, mcuCountV: int, row: int)
  {
    TaskletStart(rowsPerTasklet, t) <= row < TaskletStop(rowsPerTasklet, t, mcuCountV)
  }

  /** Below 65535 an even rounding of x is the least even number at least x. */
  lemma EvenRowIs(x: int)
    requires 0 <= x < 65535
    ensures EvenRow(x) % 2 == 0 && x <= EvenRow(x) <= x + 1
  {
  }

  lemma {:induction false} StartsMonotone(rpt: int, t: int, t': int)
    requires 0 <= rpt && 0 <= t <= t' <= Segments.NR_TASKLETS && rpt * Segments.NR_TASKLETS < 65535
    ensures TaskletStart(rpt, t) <= TaskletStart(rpt, t')
  {
    MulMonoLe(t, t', rpt);
    MulMonoLe(t', Segments.NR_TASKLETS, rpt);
    EvenRowIs(rpt * t);
    EvenRowIs(rpt * t');
    if rpt * t == rpt * t' {
    } else {
      assert rpt * t + 1 <= rpt * t';
    }
  }

  /** The tasklet that converts `row`: the last one that starts at or
      before it. */
  function Owner(rpt: int, row: int, t: int): (r: int)
    requires 0 <= t
    ensures 0 <= r <= t
    decreases t
  {
    if t == 0 || TaskletStart(rpt, t) <= row then t else Owner(rpt, row, t - 1)
  }

  lemma {:induction false} OwnerStarts(rpt: int, row: int, t: int)
    requires 0 <= t && 0 <= row
    ensures TaskletStart(rpt, Owner(rpt, row, t)) <= row
    ensures forall t' :: Owner(rpt, row, t) < t' <= t ==> TaskletStart(rpt, t') > row
    decreases t
  {
    if t == 0 {
      assert TaskletStart(rpt, 0) == 0;
    } else if TaskletStart(rpt, t) > row {
      OwnerStarts(rpt, row, t - 1);
    }
  }

  /** The rows of `inverse_dct_convert` (with `rows_per_tasklet` below
      65535 / NR_TASKLETS): every tasklet starts on an even row, and every
      MCU row of the picture is converted by exactly one tasklet. */
  lemma TaskletsTile(rpt: int, mcuCountV: int, row: int)
    requires 0 <= rpt && rpt * Segments.NR_TASKLETS < 65535 && 0 <= mcuCountV < 65536
    requires 0 <= row < mcuCountV
    ensures forall t :: 0 <= t < Segments.NR_TASKLETS ==> TaskletStart(rpt, t) % 2 == 0
    ensures var t := Owner(rpt, row, Segments.NR_TASKLETS - 1);
      InTile(rpt, t, mcuCountV, row)
      && forall t' :: 0 <= t' < Segments.NR_TASKLETS && InTile(rpt, t', mcuCountV, row) ==> t' == t
  {
    StartsEven(rpt);
    OwnerOwns(rpt, mcuCountV, row);
  }

  lemma StartsEven(rpt: int)
    requires 0 <= rpt && rpt * Segments.NR_TASKLETS < 65535
    ensures forall t :: 0 <= t < Segments.NR_TASKLETS ==> TaskletStart(rpt, t) % 2 == 0
  {
    var n := Segments.NR_TASKLETS;
    forall t | 0 <= t < n
      ensures TaskletStart(rpt, t) % 2 == 0
    {
      MulMonoLe(t, n, rpt);
      EvenRowIs(rpt * t);
    }
  }

  lemma OwnerOwns(rpt: int, mcuCountV: int, row: int)
    requires 0 <= rpt && rpt * Segments.NR_TASKLETS < 65535 && 0 <= mcuCountV < 65536
    requires 0 <= row < mcuCountV
    ensures var t := Owner(rpt, row, Segments.NR_TASKLETS - 1);
      InTile(rpt, t, mcuCountV, row)
      && forall t' :: 0 <= t' < Segments.NR_TASKLETS && InTile(rpt, t', mcuCountV, row) ==> t' == t
  {
    var n := Segments.NR_TASKLETS;
    var t := Owner(rpt, row, n - 1);
    OwnerStarts(rpt, row, n - 1);
    if t < n - 1 {
      assert TaskletStart(rpt, t + 1) > row;
    }
    forall t' | 0 <= t' < n && InTile(rpt, t', mcuCountV, row)
      ensures t' == t
    {
      if t' < t {
        StartsMonotone(rpt, t' + 1, t);
        assert false;
      } else if t' > t {
        assert false;
      }
    }
  }

}
