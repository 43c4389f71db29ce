/** The block layout of the CPU decoder's `decompress_scanline`: the `mcus`
    buffer holds `mcu_height_real * mcu_width_real` block positions, each with
    three 64-entry planes (Y, Cb, Cr, later R, G, B); an MCU covers
    `maxV x maxH` block positions; its colour is converted block by block,
    from the bottom-right block to its first block. */
module Scanline {
  import opened Arith
  import opened Colour

  /** `(((row * W + col) * 3 + c) << 6)`: plane c of the block position in
      row `row` and column `col` of a buffer `w` positions wide. */
  function BlockOffset(w: int, row: int, col: int, c: int): int
  {
    ((row * w + col) * 3 + c) * 64
  }

  /** Every plane of every block position of an `h x w` grid lies inside the
      `h * w * 3 * 64` entries of the buffer, and so does the whole position. */
  lemma BlockOffsetBound(h: int, w: int, row: int, col: int, c: int)
    requires 0 <= row < h && 0 <= col < w && 0 <= c < 3
    ensures 0 <= BlockOffset(w, row, col, c) && BlockOffset(w, row, col, c) + 64 <= h * w * 192
    ensures BlockOffset(w, row, col, 0) + 192 <= h * w * 192
  {
    MulMonoLe(row, h - 1, w);
    assert row * w + col <= h * w - 1;
    assert 0 <= row * w;
  }

  /** Two different block positions of a row-major grid lie 192 entries or
      more apart. */
  lemma BlocksApart(w: int, r1: int, c1: int, r2: int, c2: int)
    requires 0 <= r1 && 0 <= r2 && 0 <= c1 < w && 0 <= c2 < w && (r1 != r2 || c1 != c2)
    ensures BlockOffset(w, r1, c1, 0) + 192 <= BlockOffset(w, r2, c2, 0) || BlockOffset(w, r2, c2, 0) + 192 <= BlockOffset(w, r1, c1, 0)
  {
    if r1 < r2 {
      MulMonoLe(r1 + 1, r2, w);
    } else if r2 < r1 {
      MulMonoLe(r2 + 1, r1, w);
    }
  }

  /** The rows `decompress_scanline` visits, `row = 0, maxV, 2 maxV, ...`
      below `mcu_height`, plus a block offset `y < maxV`, stay below
      `mcu_height_real` since the latter is even when `maxV` is 2. The same
      holds for the columns. */
  lemma RowInFrame(mh: int, mhr: int, maxV: int, row: int, y: int)
    requires 1 <= maxV <= 2 && mh <= mhr && (maxV == 2 ==> mhr % 2 == 0)
    requires 0 <= row < mh && row % maxV == 0 && 0 <= y < maxV
    ensures row + y < mhr
  {
  }

  /** `maxV * maxH`, the number of blocks of an MCU. */
  function Count(maxV: int, maxH: int): int
  {
    if maxV == 1 then maxH else maxH + maxH
  }

  /** Position i of the conversion order of an MCU: the loops run y from
      maxV - 1 down to 0 and, inside, x from maxH - 1 down to 0. */
  function YOf(i: int, maxV: int, maxH: int): (y: int)
    requires 1 <= maxV <= 2 && 1 <= maxH <= 2 && 0 <= i < Count(maxV, maxH)
    ensures 0 <= y < maxV
  {
    if maxH == 1 then maxV - 1 - i else maxV - 1 - i / 2
  }

  function XOf(i: int, maxV: int, maxH: int): (x: int)
    requires 1 <= maxV <= 2 && 1 <= maxH <= 2 && 0 <= i < Count(maxV, maxH)
    ensures 0 <= x < maxH
  {
    if maxH == 1 then 0 else 1 - i % 2
  }

  /** The order visits each block of the MCU once and the first block last. */
  lemma PositionsDistinct(i: int, i': int, maxV: int, maxH: int)
    requires 1 <= maxV <= 2 && 1 <= maxH <= 2 && 0 <= i < Count(maxV, maxH) && 0 <= i' < Count(maxV, maxH) && i != i'
    ensures YOf(i, maxV, maxH) != YOf(i', maxV, maxH) || XOf(i, maxV, maxH) != XOf(i', maxV, maxH)
  {
  }

  lemma FirstBlockLast(i: int, maxV: int, maxH: int)
    requires 1 <= maxV <= 2 && 1 <= maxH <= 2 && 0 <= i < Count(maxV, maxH)
    ensures (YOf(i, maxV, maxH) == 0 && XOf(i, maxV, maxH) == 0) <==> i == Count(maxV, maxH) - 1
  {
  }

  /** The MCU whose first block is at (row, col) lies inside a memory of n
      entries holding a grid w positions wide. */
  predicate McuFits(n: int, w: int, row: int, col: int, maxV: int, maxH: int)
  {
    1 <= maxV <= 2 && 1 <= maxH <= 2 && 0 <= row && 0 <= col && col + maxH <= w && (row + maxV) * w * 192 <= n
  }

  /** The luma plane of the block at position i of the MCU's order. */
  function BlockAt(w: int, row: int, col: int, maxV: int, maxH: int, i: int): int
    requires 1 <= maxV <= 2 && 1 <= maxH <= 2 && 0 <= i < Count(maxV, maxH)
  {
    BlockOffset(w, row + YOf(i, maxV, maxH), col + XOf(i, maxV, maxH), 0)
  }

  /** Every block of a fitting MCU, together with its first block, is a
      `CpuLayout`; the first block is the one at the last position. */
  lemma McuBlockFits(n: int, w: int, row: int, col: int, maxV: int, maxH: int, i: int)
    requires McuFits(n, w, row, col, maxV, maxH) && 0 <= i < Count(maxV, maxH)
    ensures CpuLayout(n, BlockAt(w, row, col, maxV, maxH, i), BlockAt(w, row, col, maxV, maxH, Count(maxV, maxH) - 1),
                      YOf(i, maxV, maxH), XOf(i, maxV, maxH), maxV, maxH)
  {
    var last := Count(maxV, maxH) - 1;
    BlockOffsetBound(row + maxV, w, row + YOf(i, maxV, maxH), col + XOf(i, maxV, maxH), 0);
    BlockOffsetBound(row + maxV, w, row + YOf(last, maxV, maxH), col + XOf(last, maxV, maxH), 0);
    MulAssoc(row + maxV, w, 192);
  }

  /** `ycbcr_to_rgb_pixel(buffer, cbcr, v, h)` on the block at `pb` with
      first block `pc`: all 64 pixels. */
  function ConvertBlock(m: seq<int>, pb: int, pc: int, v: int, h: int, maxV: int, maxH: int): (r: seq<int>)
    ensures |r| == |m|
  {
    if CpuLayout(|m|, pb, pc, v, h, maxV, maxH) then CpuAfter(m, pb, pc, v, h, maxV, maxH, 64) else m
  }

  /** Memory after the first n conversions of the MCU at (row, col). */
  function McuAfter(m: seq<int>, w: int, row: int, col: int, maxV: int, maxH: int, n: int): (r: seq<int>)
    requires McuFits(|m|, w, row, col, maxV, maxH) && 0 <= n <= Count(maxV, maxH)
    ensures |r| == |m|
    decreases n
  {
    if n == 0 then m
    else
      ConvertBlock(McuAfter(m, w, row, col, maxV, maxH, n - 1), BlockAt(w, row, col, maxV, maxH, n - 1),
                   BlockAt(w, row, col, maxV, maxH, Count(maxV, maxH) - 1), YOf(n - 1, maxV, maxH), XOf(n - 1, maxV, maxH), maxV, maxH)
  }

  /** Cell j is in the block whose luma plane starts at b. */
  predicate InBlock(j: int, b: int)
  {
    b <= j < b + 192
  }

  /** Cell j belongs to one of the first n blocks converted. */
  predicate Processed(j: int, w: int, row: int, col: int, maxV: int, maxH: int, n: int)
    requires 1 <= maxV <= 2 && 1 <= maxH <= 2 && 0 <= n <= Count(maxV, maxH)
    decreases n
  {
    n > 0 && (InBlock(j, BlockAt(w, row, col, maxV, maxH, n - 1)) || Processed(j, w, row, col, maxV, maxH, n - 1))
  }

  /** Block i of the order holds the colour of the samples of `m0`. */
  ghost predicate BlockDone(m0: seq<int>, m: seq<int>, w: int, row: int, col: int, maxV: int, maxH: int, i: int)
    requires 1 <= maxV <= 2 && 1 <= maxH <= 2 && 0 <= i < Count(maxV, maxH)
  {
    PixelsDone(m0, m, BlockAt(w, row, col, maxV, maxH, i), BlockAt(w, row, col, maxV, maxH, Count(maxV, maxH) - 1),
               YOf(i, maxV, maxH), XOf(i, maxV, maxH), maxV, maxH, 64)
  }

  /** The first n blocks hold the colour of the samples of `m0`, every other
      cell is as in `m0`. */
  ghost predicate McuDone(m0: seq<int>, m: seq<int>, w: int, row: int, col: int, maxV: int, maxH: int, n: int)
    requires |m| == |m0| && McuFits(|m|, w, row, col, maxV, maxH) && 0 <= n <= Count(maxV, maxH)
  {
    (forall i :: 0 <= i < n ==> BlockDone(m0, m, w, row, col, maxV, maxH, i)) &&
    (forall j :: 0 <= j < |m| && !Processed(j, w, row, col, maxV, maxH, n) ==> m[j] == m0[j])
  }

  /** Two different blocks of the order do not overlap. */
  lemma BlockAtApart(w: int, row: int, col: int, maxV: int, maxH: int, i: int, t: int)
    requires 1 <= maxV <= 2 && 1 <= maxH <= 2 && 0 <= row && 0 <= col && col + maxH <= w
    requires 0 <= i < Count(maxV, maxH) && 0 <= t < Count(maxV, maxH) && i != t
    ensures BlockAt(w, row, col, maxV, maxH, i) + 192 <= BlockAt(w, row, col, maxV, maxH, t)
         || BlockAt(w, row, col, maxV, maxH, t) + 192 <= BlockAt(w, row, col, maxV, maxH, i)
  {
    PositionsDistinct(i, t, maxV, maxH);
    BlocksApart(w, row + YOf(i, maxV, maxH), col + XOf(i, maxV, maxH), row + YOf(t, maxV, maxH), col + XOf(t, maxV, maxH));
  }

  /** A cell of block t is not in any of the first k <= t blocks. */
  lemma {:induction false} NotProcessed(j: int, w: int, row: int, col: int, maxV: int, maxH: int, t: int, k: int)
    requires 1 <= maxV <= 2 && 1 <= maxH <= 2 && 0 <= row && 0 <= col && col + maxH <= w
    requires 0 <= k <= t < Count(maxV, maxH) && InBlock(j, BlockAt(w, row, col, maxV, maxH, t))
    ensures !Processed(j, w, row, col, maxV, maxH, k)
    decreases k
  {
    if k > 0 {
      BlockAtApart(w, row, col, maxV, maxH, k - 1, t);
      NotProcessed(j, w, row, col, maxV, maxH, t, k - 1);
    }
  }

  /** A converted block stays converted while another block, apart from it,
      is written. */
  lemma PixelsKept(m0: seq<int>, m1: seq<int>, m2: seq<int>, pb: int, pc: int, v: int, h: int, maxV: int, maxH: int, b: int)
    requires |m1| == |m0| && |m2| == |m0| && CpuLayout(|m0|, pb, pc, v, h, maxV, maxH)
    requires PixelsDone(m0, m1, pb, pc, v, h, maxV, maxH, 64)
    requires forall j :: 0 <= j < |m1| && !InBlock(j, b) ==> m2[j] == m1[j]
    requires pb + 192 <= b || b + 192 <= pb
    ensures PixelsDone(m0, m2, pb, pc, v, h, maxV, maxH, 64)
  {
    forall p | 0 <= p < 64
      ensures CpuPixelDone(m0, m2, pb, pc, v, h, maxV, maxH, p)
    {
      assert CpuPixelDone(m0, m1, pb, pc, v, h, maxV, maxH, p);
    }
  }

  /** A block converted from memory `m1` that agrees with `m0` on the block
      and on the first block holds the colour of the samples of `m0`. */
  lemma PixelsFrom(m0: seq<int>, m1: seq<int>, m2: seq<int>, pb: int, pc: int, v: int, h: int, maxV: int, maxH: int)
    requires |m1| == |m0| && |m2| == |m0| && CpuLayout(|m0|, pb, pc, v, h, maxV, maxH)
    requires PixelsDone(m1, m2, pb, pc, v, h, maxV, maxH, 64)
    requires forall j :: 0 <= j < |m1| && (InBlock(j, pb) || InBlock(j, pc)) ==> m1[j] == m0[j]
    ensures PixelsDone(m0, m2, pb, pc, v, h, maxV, maxH, 64)
  {
    forall p | 0 <= p < 64
      ensures CpuPixelDone(m0, m2, pb, pc, v, h, maxV, maxH, p)
    {
      assert CpuPixelDone(m1, m2, pb, pc, v, h, maxV, maxH, p);
    }
  }

  /** Block i of the order and the first block are a layout the colour
      conversion handles: the same block, or two blocks apart. */
  lemma McuBlockApart(w: int, row: int, col: int, maxV: int, maxH: int, i: int)
    requires 1 <= maxV <= 2 && 1 <= maxH <= 2 && 0 <= row && 0 <= col && col + maxH <= w && 0 <= i < Count(maxV, maxH)
    ensures Apart(BlockAt(w, row, col, maxV, maxH, i), BlockAt(w, row, col, maxV, maxH, Count(maxV, maxH) - 1),
                  YOf(i, maxV, maxH), XOf(i, maxV, maxH))
  {
    var last := Count(maxV, maxH) - 1;
    FirstBlockLast(i, maxV, maxH);
    FirstBlockLast(last, maxV, maxH);
    if i != last {
      BlockAtApart(w, row, col, maxV, maxH, i, last);
    }
  }

  /** Block i, converted from memory whose block i and first block still
      hold the original samples, holds the colour of the original samples. */
  lemma StepNewBlock(m0: seq<int>, m1: seq<int>, m2: seq<int>, w: int, row: int, col: int, maxV: int, maxH: int, i: int)
    requires |m1| == |m0| && |m2| == |m0| && McuFits(|m0|, w, row, col, maxV, maxH) && 0 <= i < Count(maxV, maxH)
    requires McuDone(m0, m1, w, row, col, maxV, maxH, i)
    requires PixelsDone(m1, m2, BlockAt(w, row, col, maxV, maxH, i), BlockAt(w, row, col, maxV, maxH, Count(maxV, maxH) - 1),
                        YOf(i, maxV, maxH), XOf(i, maxV, maxH), maxV, maxH, 64)
    ensures BlockDone(m0, m2, w, row, col, maxV, maxH, i)
  {
    var last := Count(maxV, maxH) - 1;
    var pb, pc := BlockAt(w, row, col, maxV, maxH, i), BlockAt(w, row, col, maxV, maxH, last);
    McuBlockFits(|m0|, w, row, col, maxV, maxH, i);
    forall j | 0 <= j < |m1| && (InBlock(j, pb) || InBlock(j, pc))
      ensures m1[j] == m0[j]
    {
      if InBlock(j, pb) {
        NotProcessed(j, w, row, col, maxV, maxH, i, i);
      } else {
        NotProcessed(j, w, row, col, maxV, maxH, last, i);
      }
    }
    PixelsFrom(m0, m1, m2, pb, pc, YOf(i, maxV, maxH), XOf(i, maxV, maxH), maxV, maxH);
  }

  /** Converting block i keeps the blocks converted before it. */
  lemma StepOldBlocks(m0: seq<int>, m1: seq<int>, m2: seq<int>, w: int, row: int, col: int, maxV: int, maxH: int, i: int)
    requires |m1| == |m0| && |m2| == |m0| && McuFits(|m0|, w, row, col, maxV, maxH) && 0 <= i < Count(maxV, maxH)
    requires McuDone(m0, m1, w, row, col, maxV, maxH, i)
    requires Untouched(m1, m2, BlockAt(w, row, col, maxV, maxH, i), 64)
    ensures forall i' :: 0 <= i' < i ==> BlockDone(m0, m2, w, row, col, maxV, maxH, i')
  {
    var pb := BlockAt(w, row, col, maxV, maxH, i);
    assert forall j :: 0 <= j < |m1| && !InBlock(j, pb) ==> !Written(j, pb, 64);
    forall i' | 0 <= i' < i
      ensures BlockDone(m0, m2, w, row, col, maxV, maxH, i')
    {
      assert BlockDone(m0, m1, w, row, col, maxV, maxH, i');
      McuBlockFits(|m0|, w, row, col, maxV, maxH, i');
      BlockAtApart(w, row, col, maxV, maxH, i', i);
      PixelsKept(m0, m1, m2, BlockAt(w, row, col, maxV, maxH, i'), BlockAt(w, row, col, maxV, maxH, Count(maxV, maxH) - 1),
                 YOf(i', maxV, maxH), XOf(i', maxV, maxH), maxV, maxH, pb);
    }
  }

  /** Converting block i changes no cell outside the first i + 1 blocks. */
  lemma StepUnchanged(m0: seq<int>, m1: seq<int>, m2: seq<int>, w: int, row: int, col: int, maxV: int, maxH: int, i: int, n: int)
    requires |m1| == |m0| && |m2| == |m0| && McuFits(|m0|, w, row, col, maxV, maxH) && 0 <= i < Count(maxV, maxH)
    requires McuDone(m0, m1, w, row, col, maxV, maxH, i)
    requires Untouched(m1, m2, BlockAt(w, row, col, maxV, maxH, i), 64)
    requires n == i + 1
    ensures forall j :: 0 <= j < |m2| && !Processed(j, w, row, col, maxV, maxH, n) ==> m2[j] == m0[j]
  {
  }

  /** Block i converted into m2 and the rest of m1 kept: `McuDone` grows by one block. */
  lemma McuStepFrom(m0: seq<int>, m1: seq<int>, m2: seq<int>, w: int, row: int, col: int, maxV: int, maxH: int, i: int, n: int)
    requires |m1| == |m0| && |m2| == |m0| && McuFits(|m0|, w, row, col, maxV, maxH) && 0 <= i < Count(maxV, maxH) && n == i + 1
    requires McuDone(m0, m1, w, row, col, maxV, maxH, i)
    requires PixelsDone(m1, m2, BlockAt(w, row, col, maxV, maxH, i), BlockAt(w, row, col, maxV, maxH, Count(maxV, maxH) - 1),
                        YOf(i, maxV, maxH), XOf(i, maxV, maxH), maxV, maxH, 64)
    requires Untouched(m1, m2, BlockAt(w, row, col, maxV, maxH, i), 64)
    ensures McuDone(m0, m2, w, row, col, maxV, maxH, n)
  {
    StepNewBlock(m0, m1, m2, w, row, col, maxV, maxH, i);
    StepOldBlocks(m0, m1, m2, w, row, col, maxV, maxH, i);
    StepUnchanged(m0, m1, m2, w, row, col, maxV, maxH, i, n);
  }

  /** What `ConvertBlock` does to block i of the order. */
  lemma ConvertBlockDone(m: seq<int>, w: int, row: int, col: int, maxV: int, maxH: int, i: int)
    requires McuFits(|m|, w, row, col, maxV, maxH) && 0 <= i < Count(maxV, maxH)
    ensures CpuDone(m, ConvertBlock(m, BlockAt(w, row, col, maxV, maxH, i), BlockAt(w, row, col, maxV, maxH, Count(maxV, maxH) - 1),
                                    YOf(i, maxV, maxH), XOf(i, maxV, maxH), maxV, maxH),
                    BlockAt(w, row, col, maxV, maxH, i), BlockAt(w, row, col, maxV, maxH, Count(maxV, maxH) - 1),
                    YOf(i, maxV, maxH), XOf(i, maxV, maxH), maxV, maxH, 64)
  {
    McuBlockFits(|m|, w, row, col, maxV, maxH, i);
    McuBlockApart(w, row, col, maxV, maxH, i);
    CpuAfterMeaning(m, BlockAt(w, row, col, maxV, maxH, i), BlockAt(w, row, col, maxV, maxH, Count(maxV, maxH) - 1),
                    YOf(i, maxV, maxH), XOf(i, maxV, maxH), maxV, maxH, 64);
  }

  /** What converting the MCU does: after the n first conversions of the
      order, each of the n blocks holds, pixel by pixel, the colour computed
      from the ORIGINAL luma of that block and the ORIGINAL chroma of the
      first block, and every cell outside those blocks is unchanged. Reading
      the first block's chroma before it is overwritten rests on the first
      block coming last. */
  lemma {:induction false} McuAfterMeaning(m: seq<int>, w: int, row: int, col: int, maxV: int, maxH: int, n: int)
    requires McuFits(|m|, w, row, col, maxV, maxH) && 0 <= n <= Count(maxV, maxH)
    ensures McuDone(m, McuAfter(m, w, row, col, maxV, maxH, n), w, row, col, maxV, maxH, n)
    decreases n
  {
    if n > 0 {
      McuAfterMeaning(m, w, row, col, maxV, maxH, n - 1);
      McuAfterNext(m, w, row, col, maxV, maxH, n);
      McuDoneNext(m, McuAfter(m, w, row, col, maxV, maxH, n - 1), McuAfter(m, w, row, col, maxV, maxH, n), w, row, col, maxV, maxH, n - 1, n);
    }
  }

  /** Converting block i after the first i keeps `McuDone`. */
  lemma McuDoneNext(m0: seq<int>, m1: seq<int>, m2: seq<int>, w: int, row: int, col: int, maxV: int, maxH: int, i: int, n: int)
    requires |m1| == |m0| && McuFits(|m0|, w, row, col, maxV, maxH) && 0 <= i < Count(maxV, maxH) && n == i + 1
    requires McuDone(m0, m1, w, row, col, maxV, maxH, i)
    requires m2 == ConvertBlock(m1, BlockAt(w, row, col, maxV, maxH, i), BlockAt(w, row, col, maxV, maxH, Count(maxV, maxH) - 1),
                                YOf(i, maxV, maxH), XOf(i, maxV, maxH), maxV, maxH)
    ensures |m2| == |m0| && McuDone(m0, m2, w, row, col, maxV, maxH, n)
  {
    ConvertBlockDone(m1, w, row, col, maxV, maxH, i);
    McuStepFrom(m0, m1, m2, w, row, col, maxV, maxH, i, n);
  }

  /** The number of blocks the conversion loops have done when they reach
      (y, x). */
  function Order(y: int, x: int, maxV: int, maxH: int): int
  {
    if maxH == 1 then maxV - 1 - y - x else 2 * (maxV - 1 - y) + (1 - x)
  }

  lemma OrderNextRow(y: int, maxV: int, maxH: int)
    requires 1 <= maxH <= 2
    ensures Order(y, -1, maxV, maxH) == Order(y - 1, maxH - 1, maxV, maxH)
  {
  }

  lemma OrderEnd(maxV: int, maxH: int)
    requires 1 <= maxV <= 2 && 1 <= maxH <= 2
    ensures Order(-1, maxH - 1, maxV, maxH) == Count(maxV, maxH)
  {
  }

  /** The (y, x) the loops reach after n blocks is position n of the order. */
  lemma PositionAt(n: int, y: int, x: int, maxV: int, maxH: int)
    requires 1 <= maxV <= 2 && 1 <= maxH <= 2 && 0 <= y < maxV && 0 <= x < maxH && n == Order(y, x, maxV, maxH)
    ensures 0 <= n < Count(maxV, maxH) && YOf(n, maxV, maxH) == y && XOf(n, maxV, maxH) == x
  {
  }

  lemma BlockAtIs(w: int, row: int, col: int, maxV: int, maxH: int, n: int, y: int, x: int)
    requires 1 <= maxV <= 2 && 1 <= maxH <= 2 && 0 <= n < Count(maxV, maxH)
    requires YOf(n, maxV, maxH) == y && XOf(n, maxV, maxH) == x
    ensures BlockAt(w, row, col, maxV, maxH, n) == BlockOffset(w, row + y, col + x, 0)
  {
  }

  /** One unfolding of `McuAfter`: block n - 1 of the order is the n-th
      one converted. */
  lemma McuAfterNext(m: seq<int>, w: int, row: int, col: int, maxV: int, maxH: int, n: int)
    requires McuFits(|m|, w, row, col, maxV, maxH) && 0 < n <= Count(maxV, maxH)
    ensures McuAfter(m, w, row, col, maxV, maxH, n)
         == ConvertBlock(McuAfter(m, w, row, col, maxV, maxH, n - 1), BlockAt(w, row, col, maxV, maxH, n - 1),
                         BlockAt(w, row, col, maxV, maxH, Count(maxV, maxH) - 1), YOf(n - 1, maxV, maxH), XOf(n - 1, maxV, maxH), maxV, maxH)
  {
  }

  lemma ConvertBlockIs(m: seq<int>, pb: int, pc: int, v: int, h: int, maxV: int, maxH: int)
    requires CpuLayout(|m|, pb, pc, v, h, maxV, maxH)
    ensures ConvertBlock(m, pb, pc, v, h, maxV, maxH) == CpuAfter(m, pb, pc, v, h, maxV, maxH, 64)
  {
  }

  /** The block the colour loops convert at (y, x) is block `Order(y, x)`
      of the order, and it fits with the first block. */
  lemma StepTerms(size: int, w: int, row: int, col: int, maxV: int, maxH: int, n0: int, y: int, x: int, buffer: int, cbcr: int)
    requires McuFits(size, w, row, col, maxV, maxH) && 0 <= y < maxV && 0 <= x < maxH && n0 == Order(y, x, maxV, maxH)
    requires buffer == BlockOffset(w, row + y, col + x, 0) && cbcr == BlockOffset(w, row, col, 0)
    ensures 0 <= n0 < Count(maxV, maxH) && YOf(n0, maxV, maxH) == y && XOf(n0, maxV, maxH) == x
    ensures BlockAt(w, row, col, maxV, maxH, n0) == buffer && BlockAt(w, row, col, maxV, maxH, Count(maxV, maxH) - 1) == cbcr
    ensures CpuLayout(size, buffer, cbcr, y, x, maxV, maxH)
  {
    var last := Count(maxV, maxH) - 1;
    PositionAt(n0, y, x, maxV, maxH);
    BlockAtIs(w, row, col, maxV, maxH, n0, y, x);
    FirstBlockLast(last, maxV, maxH);
    BlockAtIs(w, row, col, maxV, maxH, last, 0, 0);
    McuBlockFits(size, w, row, col, maxV, maxH, n0);
  }

  /** One step of the colour loops at (y, x), with its terms written out. */
  lemma McuAfterStep(m: seq<int>, w: int, row: int, col: int, maxV: int, maxH: int, n0: int, n1: int,
                     y: int, x: int, buffer: int, cbcr: int)
    requires McuFits(|m|, w, row, col, maxV, maxH) && 0 <= y < maxV && 0 <= x < maxH
    requires n0 == Order(y, x, maxV, maxH) && n1 == n0 + 1
    requires buffer == BlockOffset(w, row + y, col + x, 0) && cbcr == BlockOffset(w, row, col, 0)
    ensures 0 <= n0 && n1 <= Count(maxV, maxH) && CpuLayout(|m|, buffer, cbcr, y, x, maxV, maxH)
    ensures McuAfter(m, w, row, col, maxV, maxH, n1)
         == CpuAfter(McuAfter(m, w, row, col, maxV, maxH, n0), buffer, cbcr, y, x, maxV, maxH, 64)
  {
    StepTerms(|m|, w, row, col, maxV, maxH, n0, y, x, buffer, cbcr);
    McuAfterNext(m, w, row, col, maxV, maxH, n1);
    ConvertBlockIs(McuAfter(m, w, row, col, maxV, maxH, n0), buffer, cbcr, y, x, maxV, maxH);
  }

  /** The colour loops of `decompress_scanline` for the MCU whose first
      block is at (row, col) of a grid `w` wide. */
  method ConvertMcu(mcus: array<int>, w: int, row: int, col: int, maxV: int, maxH: int)
    requires McuFits(mcus.Length, w, row, col, maxV, maxH)
    modifies mcus
    ensures mcus[..] == McuAfter(old(mcus[..]), w, row, col, maxV, maxH, Count(maxV, maxH))
  {
    ghost var m0 := mcus[..];
    ghost var n := 0;
    var cbcr := BlockOffset(w, row, col, 0);
    var y := maxV - 1;
    while y >= 0
      invariant -1 <= y < maxV && n == Order(y, maxH - 1, maxV, maxH)
      invariant mcus[..] == McuAfter(m0, w, row, col, maxV, maxH, n)
    {
      var x := maxH - 1;
      while x >= 0
        invariant -1 <= x < maxH && n == Order(y, x, maxV, maxH)
        invariant mcus[..] == McuAfter(m0, w, row, col, maxV, maxH, n)
      {
        var buffer := BlockOffset(w, row + y, col + x, 0);
        ghost var before := mcus[..];
        ghost var n0 := n;
        n := n + 1;
        McuAfterStep(m0, w, row, col, maxV, maxH, n0, n, y, x, buffer, cbcr);
        CpuYcbcrToRgb(mcus, buffer, cbcr, y, x, maxV, maxH);
        assert mcus[..] == CpuAfter(before, buffer, cbcr, y, x, maxV, maxH, 64);
        x := x - 1;
      }
      OrderNextRow(y, maxV, maxH);
      y := y - 1;
    }
    OrderEnd(maxV, maxH);
    assert n == Count(maxV, maxH);
    assert mcus[..] == McuAfter(m0, w, row, col, maxV, maxH, Count(maxV, maxH));
    assert m0 == old(mcus[..]);
  }
}
