/** The integer YCbCr to RGB conversion of both decoders
    (`ycbcr_to_rgb_pixel`): each of the 64 pixels of a block gets
    R = Y + 45 Cr / 32, G = Y - (11 Cb + 23 Cr) / 32 and B = Y + 113 Cb / 64,
    each plus 128, stored into a `short` and clamped to [0, 255]. The three
    results overwrite the Y, Cb and Cr planes of the block in place, pixel
    63 first, while the chroma is read, subsampled, from the planes of the
    first block of the MCU. */
module Colour {
  import opened Bytes

  /** The clamping of a colour value to a byte. */
  function Clamp(x: int): (r: int)
    ensures 0 <= r <= 255
    ensures 0 <= x <= 255 ==> r == x
    ensures x < 0 ==> r == 0
    ensures x > 255 ==> r == 255
  {
    if x < 0 then 0 else if x > 255 then 255 else x
  }

  /** Red from luma `y` and chroma `cr` (a C `>> 5` on an `int` is the
      division by 32 rounded towards minus infinity). */
  function Red(y: int, cr: int): int
  {
    Clamp(Int16(y + 45 * cr / 32 + 128))
  }

  /** Green from luma `y` and chroma `cb` and `cr`. */
  function Green(y: int, cb: int, cr: int): int
  {
    Clamp(Int16(y - (11 * cb + 23 * cr) / 32 + 128))
  }

  /** Blue from luma `y` and chroma `cb`. */
  function Blue(y: int, cb: int): int
  {
    Clamp(Int16(y + 113 * cb / 64 + 128))
  }

  /** For samples of the range the inverse DCT produces for an 8-bit image,
      the `short` cast changes nothing and the integer coefficients stay
      within 2 of the reference conversion of ITU-T T.871 (JFIF): 1.402 Cr,
      0.344136 Cb + 0.714136 Cr and 1.772 Cb. */
  lemma NearReference(y: int, cb: int, cr: int)
    requires -128 <= y <= 127 && -128 <= cb <= 127 && -128 <= cr <= 127
    ensures Int16(y + 45 * cr / 32 + 128) == y + 45 * cr / 32 + 128
    ensures Int16(y - (11 * cb + 23 * cr) / 32 + 128) == y - (11 * cb + 23 * cr) / 32 + 128
    ensures Int16(y + 113 * cb / 64 + 128) == y + 113 * cb / 64 + 128
    ensures -2.0 < (45 * cr / 32) as real - 1.402 * cr as real < 2.0
    ensures -2.0 < ((11 * cb + 23 * cr) / 32) as real - (0.344136 * cb as real + 0.714136 * cr as real) < 2.0
    ensures -2.0 < (113 * cb / 64) as real - 1.772 * cb as real < 2.0
  {
    var r, g, b := 45 * cr / 32, (11 * cb + 23 * cr) / 32, 113 * cb / 64;
    assert 32 * r <= 45 * cr < 32 * r + 32;
    assert 32 * g <= 11 * cb + 23 * cr < 32 * g + 32;
    assert 64 * b <= 113 * cb < 64 * b + 64;
  }

  /** The offset, within a chroma plane of the MCU's first block, of the
      sample for pixel (y, x) of the block at position (v, h) of the MCU:
      row `y / maxV + 4v`, column `x / maxH + 4h`. */
  function ChromaAt(y: int, x: int, v: int, h: int, maxV: int, maxH: int): (q: int)
    requires 0 <= y < 8 && 0 <= x < 8
    requires 1 <= maxV <= 2 && 1 <= maxH <= 2 && 0 <= v < maxV && 0 <= h < maxH
    ensures 0 <= q < 64
  {
    (Subsample(y, maxV) + 4 * v) * 8 + Subsample(x, maxH) + 4 * h
  }

  /** `i / f` for a sampling factor f of 1 or 2. */
  function Subsample(i: int, f: int): int
  {
    if f == 1 then i else i / 2
  }

  /** The first block of an MCU reads its own chroma samples at or before
      the pixel being converted. */
  lemma ChromaAtOrBefore(y: int, x: int, maxV: int, maxH: int)
    requires 0 <= y < 8 && 0 <= x < 8 && 1 <= maxV <= 2 && 1 <= maxH <= 2
    ensures ChromaAt(y, x, 0, 0, maxV, maxH) <= 8 * y + x
  {
    assert Subsample(y, maxV) <= y && Subsample(x, maxH) <= x;
  }

  /** One pixel: the value at `s` is the luma, `cb` and `cr` are where its
      chroma samples are; all three are read, then red, green and blue are
      stored at `s`, `s + 64` and `s + 128`. */
  function PixelStep(m: seq<int>, s: int, cb: int, cr: int): (r: seq<int>)
    requires 0 <= s && s + 128 < |m| && 0 <= cb < |m| && 0 <= cr < |m|
    ensures |r| == |m|
  {
    m[s := Red(m[s], m[cr])][s + 64 := Green(m[s], m[cb], m[cr])][s + 128 := Blue(m[s], m[cb])]
  }

  /** What `PixelStep` stores and what it leaves. */
  lemma PixelStepAt(m: seq<int>, s: int, cb: int, cr: int)
    requires 0 <= s && s + 128 < |m| && 0 <= cb < |m| && 0 <= cr < |m|
    ensures PixelStep(m, s, cb, cr)[s] == Red(m[s], m[cr])
    ensures PixelStep(m, s, cb, cr)[s + 64] == Green(m[s], m[cb], m[cr])
    ensures PixelStep(m, s, cb, cr)[s + 128] == Blue(m[s], m[cb])
    ensures forall j :: 0 <= j < |m| && j != s && j != s + 64 && j != s + 128 ==> PixelStep(m, s, cb, cr)[j] == m[j]
  {
  }

  /** The layout the CPU decoder passes: the block at `pb` of the `mcus`
      buffer, whose first 64 entries are its luma, and the MCU's first
      block at `pc`, whose planes at `pc + 64` and `pc + 128` hold Cb and
      Cr. Both blocks lie inside memory. */
  predicate CpuLayout(n: int, pb: int, pc: int, v: int, h: int, maxV: int, maxH: int)
  {
    0 <= pb && pb + 192 <= n && 0 <= pc && pc + 192 <= n && Factors(v, h, maxV, maxH)
  }

  /** The block at (v, h) of an MCU of `maxV x maxH` blocks, each 1 or 2. */
  predicate Factors(v: int, h: int, maxV: int, maxH: int)
  {
    1 <= maxV <= 2 && 1 <= maxH <= 2 && 0 <= v < maxV && 0 <= h < maxH
  }

  /** The CPU conversion of pixel p. */
  function CpuStep(m: seq<int>, pb: int, pc: int, v: int, h: int, maxV: int, maxH: int, p: int): (r: seq<int>)
    requires CpuLayout(|m|, pb, pc, v, h, maxV, maxH) && 0 <= p < 64
    ensures |r| == |m|
  {
    PixelStep(m, pb + p, pc + 64 + ChromaAt(p / 8, p % 8, v, h, maxV, maxH), pc + 128 + ChromaAt(p / 8, p % 8, v, h, maxV, maxH))
  }

  /** Memory after the first k pixels of the loop, which are pixels 63,
      62, ..., 64 - k. */
  function CpuAfter(m: seq<int>, pb: int, pc: int, v: int, h: int, maxV: int, maxH: int, k: int): (r: seq<int>)
    requires CpuLayout(|m|, pb, pc, v, h, maxV, maxH) && 0 <= k <= 64
    ensures |r| == |m|
    decreases k
  {
    if k == 0 then m else CpuStep(CpuAfter(m, pb, pc, v, h, maxV, maxH, k - 1), pb, pc, v, h, maxV, maxH, 64 - k)
  }

  /** Pixel `8 * y + x` is in row y and column x. */
  lemma PixelIndex(y: int, x: int)
    requires 0 <= y < 8 && 0 <= x < 8
    ensures (8 * y + x) / 8 == y && (8 * y + x) % 8 == x
  {
  }

  /** The conversion of pixel `8 * y + x`, with its addresses written out. */
  lemma CpuStepPixel(m: seq<int>, pb: int, pc: int, v: int, h: int, maxV: int, maxH: int, y: int, x: int,
                     s: int, cb: int, cr: int)
    requires CpuLayout(|m|, pb, pc, v, h, maxV, maxH) && 0 <= y < 8 && 0 <= x < 8
    requires s == pb + (8 * y + x) && cb == pc + 64 + ChromaAt(y, x, v, h, maxV, maxH) && cr == cb + 64
    ensures CpuStep(m, pb, pc, v, h, maxV, maxH, 8 * y + x) == PixelStep(m, s, cb, cr)
  {
    PixelIndex(y, x);
  }

  /** One more step of `CpuAfter` converts pixel 64 - k. */
  lemma CpuAfterNext(m: seq<int>, pb: int, pc: int, v: int, h: int, maxV: int, maxH: int, k: int)
    requires CpuLayout(|m|, pb, pc, v, h, maxV, maxH) && 0 < k <= 64
    ensures CpuAfter(m, pb, pc, v, h, maxV, maxH, k) == CpuStep(CpuAfter(m, pb, pc, v, h, maxV, maxH, k - 1), pb, pc, v, h, maxV, maxH, 64 - k)
  {
  }

  /** The loop's step at pixel (y, x), the k1-th pixel converted. */
  lemma CpuAfterPixel(m: seq<int>, pb: int, pc: int, v: int, h: int, maxV: int, maxH: int, y: int, x: int,
                       k: int, k1: int, s: int, cb: int, cr: int)
    requires CpuLayout(|m|, pb, pc, v, h, maxV, maxH) && 0 <= y < 8 && 0 <= x < 8 && k == 63 - (8 * y + x) && k1 == k + 1
    requires s == pb + (8 * y + x) && cb == pc + 64 + ChromaAt(y, x, v, h, maxV, maxH) && cr == cb + 64
    ensures CpuAfter(m, pb, pc, v, h, maxV, maxH, k1) == PixelStep(CpuAfter(m, pb, pc, v, h, maxV, maxH, k), s, cb, cr)
  {
    CpuAfterNext(m, pb, pc, v, h, maxV, maxH, k1);
    CpuStepPixel(CpuAfter(m, pb, pc, v, h, maxV, maxH, k), pb, pc, v, h, maxV, maxH, y, x, s, cb, cr);
  }

  /** Pixel `s` of `m` holds the colour of the luma at `s` and the chroma
      at `cb` and `cr` of the original memory `m0`. */
  ghost predicate PixelConverted(m0: seq<int>, m: seq<int>, s: int, cb: int, cr: int)
  {
    |m| == |m0| && 0 <= s && s + 128 < |m| && 0 <= cb < |m| && 0 <= cr < |m| &&
    m[s] == Red(m0[s], m0[cr]) && m[s + 64] == Green(m0[s], m0[cb], m0[cr]) && m[s + 128] == Blue(m0[s], m0[cb])
  }

  /** Pixel p of the block at `pb` has been converted from `m0`. */
  ghost predicate CpuPixelDone(m0: seq<int>, m: seq<int>, pb: int, pc: int, v: int, h: int, maxV: int, maxH: int, p: int)
    requires Factors(v, h, maxV, maxH) && 0 <= p < 64
  {
    PixelConverted(m0, m, pb + p, pc + 64 + ChromaAt(p / 8, p % 8, v, h, maxV, maxH), pc + 128 + ChromaAt(p / 8, p % 8, v, h, maxV, maxH))
  }

  /** Cell j is in one of the three planes of the last k pixels of the block at `pb`. */
  predicate Written(j: int, pb: int, k: int)
  {
    (pb + 64 - k <= j < pb + 64) || (pb + 128 - k <= j < pb + 128) || (pb + 192 - k <= j < pb + 192)
  }

  /** The two layouts `decompress_scanline` produces: the block is the
      MCU's first block itself, or lies apart from it. */
  predicate Apart(pb: int, pc: int, v: int, h: int)
  {
    (pb == pc && v == 0 && h == 0) || pb + 192 <= pc || pc + 192 <= pb
  }

  /** The last k pixels carry the colour computed from the original memory `m0`. */
  ghost predicate PixelsDone(m0: seq<int>, m: seq<int>, pb: int, pc: int, v: int, h: int, maxV: int, maxH: int, k: int)
    requires Factors(v, h, maxV, maxH) && 0 <= k <= 64
  {
    forall p :: 64 - k <= p < 64 ==> CpuPixelDone(m0, m, pb, pc, v, h, maxV, maxH, p)
  }

  /** Every cell outside the planes of the last k pixels is as in `m0`. */
  ghost predicate Untouched(m0: seq<int>, m: seq<int>, pb: int, k: int)
    requires |m| == |m0|
  {
    forall j :: 0 <= j < |m| && !Written(j, pb, k) ==> m[j] == m0[j]
  }

  /** Both. */
  ghost predicate CpuDone(m0: seq<int>, m: seq<int>, pb: int, pc: int, v: int, h: int, maxV: int, maxH: int, k: int)
    requires |m| == |m0| && CpuLayout(|m|, pb, pc, v, h, maxV, maxH) && 0 <= k <= 64
  {
    PixelsDone(m0, m, pb, pc, v, h, maxV, maxH, k) && Untouched(m0, m, pb, k)
  }

  /** The chroma samples pixel `64 - k` reads lie outside the cells
      written before it. */
  lemma ChromaNotWritten(pb: int, pc: int, v: int, h: int, maxV: int, maxH: int, k: int, q: int)
    requires 1 <= maxV <= 2 && 1 <= maxH <= 2 && 0 <= v < maxV && 0 <= h < maxH
    requires Apart(pb, pc, v, h) && 1 <= k <= 64 && q == ChromaAt((64 - k) / 8, (64 - k) % 8, v, h, maxV, maxH)
    ensures !Written(pc + 64 + q, pb, k - 1) && !Written(pc + 128 + q, pb, k - 1)
  {
    if pb == pc {
      var p := 64 - k;
      ChromaAtOrBefore(p / 8, p % 8, maxV, maxH);
      assert (p / 8) * 8 + p % 8 == p;
    }
  }

  /** `CpuStep` with its addresses named. */
  lemma CpuStepIs(m: seq<int>, pb: int, pc: int, v: int, h: int, maxV: int, maxH: int, p: int, s: int, cb: int, cr: int)
    requires CpuLayout(|m|, pb, pc, v, h, maxV, maxH) && 0 <= p < 64 && s == pb + p
    requires cb == pc + 64 + ChromaAt(p / 8, p % 8, v, h, maxV, maxH) && cr == cb + 64
    ensures CpuStep(m, pb, pc, v, h, maxV, maxH, p) == PixelStep(m, s, cb, cr)
  {
  }

  /** Converting pixel `64 - k` writes only its own three cells. */
  lemma UntouchedStep(m0: seq<int>, m1: seq<int>, pb: int, k: int, s: int, cb: int, cr: int)
    requires |m1| == |m0| && 1 <= k <= 64 && s == pb + 64 - k
    requires 0 <= s && s + 128 < |m1| && 0 <= cb < |m1| && 0 <= cr < |m1|
    requires Untouched(m0, m1, pb, k - 1)
    ensures Untouched(m0, PixelStep(m1, s, cb, cr), pb, k)
  {
    PixelStepAt(m1, s, cb, cr);
    forall j | 0 <= j < |m1| && !Written(j, pb, k)
      ensures PixelStep(m1, s, cb, cr)[j] == m0[j]
    {
      assert !Written(j, pb, k - 1);
    }
  }

  /** Converting pixel `64 - k` from the original samples extends `PixelsDone`. */
  lemma PixelsStep(m0: seq<int>, m1: seq<int>, pb: int, pc: int, v: int, h: int, maxV: int, maxH: int, k: int,
                   s: int, cb: int, cr: int)
    requires |m1| == |m0| && CpuLayout(|m0|, pb, pc, v, h, maxV, maxH) && 1 <= k <= 64 && s == pb + 64 - k
    requires cb == pc + 64 + ChromaAt((64 - k) / 8, (64 - k) % 8, v, h, maxV, maxH) && cr == cb + 64
    requires m1[s] == m0[s] && m1[cb] == m0[cb] && m1[cr] == m0[cr]
    requires PixelsDone(m0, m1, pb, pc, v, h, maxV, maxH, k - 1)
    ensures PixelsDone(m0, PixelStep(m1, s, cb, cr), pb, pc, v, h, maxV, maxH, k)
  {
    var m2 := PixelStep(m1, s, cb, cr);
    PixelStepAt(m1, s, cb, cr);
    assert CpuPixelDone(m0, m2, pb, pc, v, h, maxV, maxH, 64 - k);
    forall p | 64 - k < p < 64
      ensures CpuPixelDone(m0, m2, pb, pc, v, h, maxV, maxH, p)
    {
      assert CpuPixelDone(m0, m1, pb, pc, v, h, maxV, maxH, p);
    }
  }

  /** One step of the loop keeps `CpuDone`. */
  lemma CpuStepDone(m0: seq<int>, m1: seq<int>, pb: int, pc: int, v: int, h: int, maxV: int, maxH: int, k: int)
    requires |m1| == |m0| && CpuLayout(|m0|, pb, pc, v, h, maxV, maxH) && Apart(pb, pc, v, h) && 1 <= k <= 64
    requires CpuDone(m0, m1, pb, pc, v, h, maxV, maxH, k - 1)
    ensures CpuDone(m0, CpuStep(m1, pb, pc, v, h, maxV, maxH, 64 - k), pb, pc, v, h, maxV, maxH, k)
  {
    var p := 64 - k;
    var q := ChromaAt(p / 8, p % 8, v, h, maxV, maxH);
    var s, cb, cr := pb + p, pc + 64 + q, pc + 128 + q;
    ChromaNotWritten(pb, pc, v, h, maxV, maxH, k, q);
    assert !Written(s, pb, k - 1);
    assert m1[s] == m0[s] && m1[cb] == m0[cb] && m1[cr] == m0[cr];
    UntouchedStep(m0, m1, pb, k, s, cb, cr);
    PixelsStep(m0, m1, pb, pc, v, h, maxV, maxH, k, s, cb, cr);
    CpuStepIs(m1, pb, pc, v, h, maxV, maxH, p, s, cb, cr);
  }

  /** After k steps of the loop, the last k pixels carry the colour computed
      from the ORIGINAL luma and chroma, and every other cell is unchanged:
      no chroma sample is overwritten before it is read. */
  lemma {:induction false} CpuAfterMeaning(m: seq<int>, pb: int, pc: int, v: int, h: int, maxV: int, maxH: int, k: int)
    requires CpuLayout(|m|, pb, pc, v, h, maxV, maxH) && Apart(pb, pc, v, h) && 0 <= k <= 64
    ensures CpuDone(m, CpuAfter(m, pb, pc, v, h, maxV, maxH, k), pb, pc, v, h, maxV, maxH, k)
    decreases k
  {
    if k > 0 {
      CpuAfterMeaning(m, pb, pc, v, h, maxV, maxH, k - 1);
      CpuStepDone(m, CpuAfter(m, pb, pc, v, h, maxV, maxH, k - 1), pb, pc, v, h, maxV, maxH, k);
    }
  }

  /** The body of the loops of `ycbcr_to_rgb_pixel`: the colour of the luma
      at `s` and the chroma at `cb` and `cr`, stored into the three planes
      at `s`. */
  method ConvertPixel(mem: array<int>, s: int, cb: int, cr: int)
    requires 0 <= s && s + 128 < mem.Length && 0 <= cb < mem.Length && 0 <= cr < mem.Length
    modifies mem
    ensures mem[..] == PixelStep(old(mem[..]), s, cb, cr)
  {
    var r := Red(mem[s], mem[cr]);
    var g := Green(mem[s], mem[cb], mem[cr]);
    var b := Blue(mem[s], mem[cb]);
    mem[s] := r;
    mem[s + 64] := g;
    mem[s + 128] := b;
  }

  /** `ycbcr_to_rgb_pixel` of the CPU decoder, on `buffer = &mcus[pb]` and
      `cbcr = &mcus[pc]`; `v` and `h` are the block's position in the MCU. */
  method CpuYcbcrToRgb(mem: array<int>, pb: int, pc: int, v: int, h: int, maxV: int, maxH: int)
    requires CpuLayout(mem.Length, pb, pc, v, h, maxV, maxH)
    modifies mem
    ensures mem[..] == CpuAfter(old(mem[..]), pb, pc, v, h, maxV, maxH, 64)
  {
    ghost var m0 := mem[..];
    ghost var k := 0;
    var y := 7;
    while y >= 0
      invariant -1 <= y <= 7 && k == 56 - 8 * y
      invariant mem[..] == CpuAfter(m0, pb, pc, v, h, maxV, maxH, k)
    {
      ghost var k1 := k + 8;
      CpuRow(mem, pb, pc, v, h, maxV, maxH, y, k, k1, m0);
      k := k1;
      y := y - 1;
    }
    assert k == 64;
  }

  /** The inner loop of the CPU `ycbcr_to_rgb_pixel`: row y of the block,
      pixel 8y + 7 first, after the 8 rows below it. */
  method CpuRow(mem: array<int>, pb: int, pc: int, v: int, h: int, maxV: int, maxH: int, y: int, ghost k0: int, ghost k1: int, ghost m0: seq<int>)
    requires CpuLayout(mem.Length, pb, pc, v, h, maxV, maxH) && 0 <= y < 8 && k0 == 56 - 8 * y && k1 == k0 + 8 && |m0| == mem.Length
    requires mem[..] == CpuAfter(m0, pb, pc, v, h, maxV, maxH, k0)
    modifies mem
    ensures mem[..] == CpuAfter(m0, pb, pc, v, h, maxV, maxH, k1)
  {
    ghost var k := k0;
    var x := 7;
    while x >= 0
      invariant -1 <= x <= 7 && k == 63 - 8 * y - x
      invariant mem[..] == CpuAfter(m0, pb, pc, v, h, maxV, maxH, k)
    {
      var pixel := 8 * y + x;
      var chroma := ChromaAt(y, x, v, h, maxV, maxH) + 64;
      ghost var next := k + 1;
      CpuAfterPixel(m0, pb, pc, v, h, maxV, maxH, y, x, k, next, pb + pixel, pc + chroma, pc + 64 + chroma);
      ConvertPixel(mem, pb + pixel, pc + chroma, pc + 64 + chroma);
      k := next;
      x := x - 1;
    }
    assert k == k1;
  }

  /** The DPU decoder's `uint8_t pixel = cache_index + 8 * y + x`: for the
      block at position (v, h) of the MCU, `cache_index` is 384v + 192h, and
      the truncation to 8 bits leaves `cache_index % 256` plus the pixel. */
  lemma DpuPixelAt(ci: int, v: int, h: int, y: int, x: int, off: int)
    requires 0 <= v < 2 && 0 <= h < 2 && ci == 384 * v + 192 * h && 0 <= y < 8 && 0 <= x < 8 && off == ci % 256
    ensures U8(ci + 8 * y + x) == off + (8 * y + x)
  {
  }

  /** Where the DPU decoder's 8-bit pixel index puts the luma plane of the
      block whose `cache_index` is `ci` (see DpuPixelAt). */
  function DpuLuma(base: int, ci: int): int
  {
    base + ci % 256
  }

  /** `ycbcr_to_rgb_pixel` of the DPU decoder on the tasklet's cache, a row
      of `MCU_cache` that starts at `base` of the flattened array; `ci` is the
      `cache_index` of the block at (v, h). The luma and the results are
      addressed through the 8-bit `pixel`, the chroma relative to `base`. */
  method DpuYcbcrToRgb(cache: array<int>, base: int, ci: int, v: int, h: int, maxV: int, maxH: int)
    requires CpuLayout(cache.Length, DpuLuma(base, ci), base, v, h, maxV, maxH) && ci == 384 * v + 192 * h
    modifies cache
    ensures cache[..] == CpuAfter(old(cache[..]), DpuLuma(base, ci), base, v, h, maxV, maxH, 64)
  {
    DpuRows(cache, base, ci, v, h, maxV, maxH, DpuLuma(base, ci));
  }

  /** The outer loop of the DPU `ycbcr_to_rgb_pixel`, with the luma plane at `pb`. */
  method DpuRows(cache: array<int>, base: int, ci: int, v: int, h: int, maxV: int, maxH: int, ghost pb: int)
    requires pb == DpuLuma(base, ci) && CpuLayout(cache.Length, pb, base, v, h, maxV, maxH) && ci == 384 * v + 192 * h
    modifies cache
    ensures cache[..] == CpuAfter(old(cache[..]), pb, base, v, h, maxV, maxH, 64)
  {
    ghost var m0 := cache[..];
    ghost var k := 0;
    var y := 7;
    while y >= 0
      invariant -1 <= y <= 7 && k == 56 - 8 * y
      invariant cache[..] == CpuAfter(m0, pb, base, v, h, maxV, maxH, k)
    {
      ghost var k1 := k + 8;
      DpuRow(cache, base, ci, v, h, maxV, maxH, y, pb, k, k1, m0);
      k := k1;
      y := y - 1;
    }
    assert k == 64;
  }

  /** The inner loop of the DPU `ycbcr_to_rgb_pixel`: row y of the block,
      whose luma plane is at `pb`. */
  method DpuRow(cache: array<int>, base: int, ci: int, v: int, h: int, maxV: int, maxH: int, y: int,
                ghost pb: int, ghost k0: int, ghost k1: int, ghost m0: seq<int>)
    requires pb == DpuLuma(base, ci) && CpuLayout(cache.Length, pb, base, v, h, maxV, maxH) && ci == 384 * v + 192 * h
    requires 0 <= y < 8 && k0 == 56 - 8 * y && k1 == k0 + 8 && |m0| == cache.Length
    requires cache[..] == CpuAfter(m0, pb, base, v, h, maxV, maxH, k0)
    modifies cache
    ensures cache[..] == CpuAfter(m0, pb, base, v, h, maxV, maxH, k1)
  {
    ghost var off := pb - base;
    ghost var k := k0;
    var x := 7;
    while x >= 0
      invariant -1 <= x <= 7 && k == 63 - 8 * y - x
      invariant cache[..] == CpuAfter(m0, pb, base, v, h, maxV, maxH, k)
    {
      var pixel := U8(ci + 8 * y + x);
      DpuPixelAt(ci, v, h, y, x, off);
      var chroma := ChromaAt(y, x, v, h, maxV, maxH) + 64;
      ghost var next := k + 1;
      CpuAfterPixel(m0, pb, base, v, h, maxV, maxH, y, x, k, next, base + pixel, base + chroma, base + 64 + chroma);
      ConvertPixel(cache, base + pixel, base + chroma, base + 64 + chroma);
      k := next;
      x := x - 1;
    }
    assert k == k1;
  }

  /** As written: for the lower-left block of a 2x2 MCU (`cache_index` 384)
      the 8-bit pixel wraps to 128, so its luma is read from, and its red
      plane written over, the Cr plane of the MCU's first block, from which
      its own chroma comes: the layout is not `Apart`. */
  lemma DpuPixelWraps()
    ensures U8(384 + 0) == 128
    ensures !Apart(0 + 384 % 256, 0, 1, 0)
  {
  }

  /** Corrected: with `pixel` an `int` and a cache row that holds all four
      blocks of an MCU (4 * 192 cells), the block at (v, h) is converted at
      `cache_index` itself, its cells stay inside the row and apart from the
      first block's chroma, so `CpuAfterMeaning` gives every pixel the
      colour of its original samples. */
  lemma DpuIntendedLayout(ci: int, v: int, h: int, maxV: int, maxH: int)
    requires 1 <= maxV <= 2 && 1 <= maxH <= 2 && 0 <= v < maxV && 0 <= h < maxH && ci == 384 * v + 192 * h
    ensures CpuLayout(4 * 192, ci, 0, v, h, maxV, maxH)
    ensures Apart(ci, 0, v, h)
  {
  }
}
