/** The integer inverse DCT of both decoders (`inverse_dct_component`): the
    AAN butterfly with fixed-point constants, run once down each of the 8
    columns and then once along each of the 8 rows of a 64-entry block of
    `short`s, in place. A C `>> k` on a signed `int` is an arithmetic shift,
    written here as Dafny's floor division by 2^k; every result is stored
    back into a `short`, which `Int16` models. */
module Idct {
  import opened Bytes

  /** Four intermediate values of the butterfly. */
  datatype Quad = Quad(a: int, b: int, c: int, d: int)

  /** A product with one of the butterfly's fixed-point constants, shifted
      right: `(x * m) >> k` is `Scale(x, m, d)` with `d` = 2^k, an
      arithmetic shift being the division rounded towards minus infinity.
  */
  function Scale(x: int, m: int, d: int): int
    requires d > 0
  {
    if x == 0 then 0 else x * m / d
  }

  /** A scaled zero is zero. */
  lemma ScaleZero(x: int, m: int, d: int)
    requires d > 0 && x == 0
    ensures Scale(x, m, d) == 0
  {
  }

  /** The four products that start the even half: `g0`, `g1`, `g2` and
      `g3` of the source, from the samples at positions 0, 4, 2 and 6. */
  function EvenScaled(v0: int, v2: int, v4: int, v6: int): Quad
  {
    Quad(Scale(v0, 181, 32), Scale(v4, 181, 32), Scale(v2, 59, 8), Scale(v6, 49, 16))
  }

  /** The rest of the even half, from `g`: with `e3 = g2 + g3`,
      `c0 = g0 + g1`, `c1 = g0 - g1` and `c2 = ((g2 - g3) * 181 >> 7) - e3`,
      the values `b0 = c0 + e3`, `b1 = c1 + c2`, `b2 = c1 - c2` and
      `b3 = c0 - e3`. */
  function EvenCombine(g0: int, g1: int, g2: int, g3: int): Quad
  {
    Quad(g0 + g1 + (g2 + g3),
         g0 - g1 + (Scale(g2 - g3, 181, 128) - (g2 + g3)),
         g0 - g1 - (Scale(g2 - g3, 181, 128) - (g2 + g3)),
         g0 + g1 - (g2 + g3))
  }

  /** The even half of the butterfly, on the samples at positions 0, 2, 4
      and 6: the values `b0`, `b1`, `b2` and `b3` of the source. */
  function EvenPart(v0: int, v2: int, v4: int, v6: int): Quad
  {
    var g := EvenScaled(v0, v2, v4, v6);
    EvenCombine(g.a, g.b, g.c, g.d)
  }

  /** The four products that start the odd half, `g4`, `g5`, `g6` and
      `g7`, from the samples at positions 5, 1, 7 and 3, combined into
      `f4 = g4 - g7`, `f5 = g5 + g6`, `f6 = g5 - g6` and `f7 = g4 + g7`. */
  function OddSums(v1: int, v3: int, v5: int, v7: int): Quad
  {
    Quad(Scale(v5, 71, 16) - Scale(v3, 213, 32), Scale(v1, 251, 32) + Scale(v7, 25, 16),
         Scale(v1, 251, 32) - Scale(v7, 25, 16), Scale(v5, 71, 16) + Scale(v3, 213, 32))
  }

  /** The rest of the odd half, from `f`: with `e7 = f5 + f7`,
      `c4 = (f4 * 277 >> 8) + d8`, `c5 = ((f5 - f7) * 181 >> 7) + e7`,
      `c6 = (f6 * 669 >> 8) - d8`, `d8 = (f4 + f6) * 49 >> 6` and
      `c8 = c5 - c6`, the values `e7`, `b6 = c6 - e7`, `c8` and
      `b4 = c4 - c8`. */
  function OddCombine(f4: int, f5: int, f6: int, f7: int): Quad
  {
    Quad(f5 + f7,
         Scale(f6, 669, 256) - Scale(f4 + f6, 49, 64) - (f5 + f7),
         Scale(f5 - f7, 181, 128) + (f5 + f7) - (Scale(f6, 669, 256) - Scale(f4 + f6, 49, 64)),
         Scale(f4, 277, 256) + Scale(f4 + f6, 49, 64)
           - (Scale(f5 - f7, 181, 128) + (f5 + f7) - (Scale(f6, 669, 256) - Scale(f4 + f6, 49, 64))))
  }

  /** The odd half of the butterfly, on the samples at positions 1, 3, 5
      and 7: the values `e7`, `b6`, `c8` and `b4` of the source. */
  function OddPart(v1: int, v3: int, v5: int, v7: int): Quad
  {
    var f := OddSums(v1, v3, v5, v7);
    OddCombine(f.a, f.b, f.c, f.d)
  }

  /** The butterfly on the 8 samples of one column or row, `v[k]` being the
      sample at position k, giving the 8 values before they are stored:
      output k and output 7 - k are the sum and the difference of an even
      and an odd intermediate value, shifted right by 4. */
  function Butterfly(v: seq<int>): (r: seq<int>)
    requires |v| == 8
    ensures |r| == 8
  {
    Outputs(EvenPart(v[0], v[2], v[4], v[6]), OddPart(v[1], v[3], v[5], v[7]))
  }

  /** The last step of the butterfly, from the even and the odd values. */
  function Outputs(ev: Quad, od: Quad): (r: seq<int>)
    ensures |r| == 8
  {
    [Shr(ev.a + od.a, 4), Shr(ev.b + od.b, 4), Shr(ev.c + od.c, 4), Shr(ev.d + od.d, 4),
     Shr(ev.d - od.d, 4), Shr(ev.c - od.c, 4), Shr(ev.b - od.b, 4), Shr(ev.a - od.a, 4)]
  }

  /** Column i of a row-major 8x8 block. */
  function Column(b: seq<int>, i: int): (r: seq<int>)
    requires |b| == 64 && 0 <= i < 8
    ensures |r| == 8 && forall k :: 0 <= k < 8 ==> r[k] == b[8 * k + i]
  {
    [b[i], b[8 + i], b[16 + i], b[24 + i], b[32 + i], b[40 + i], b[48 + i], b[56 + i]]
  }

  /** Row i of a row-major 8x8 block. */
  function Row(b: seq<int>, i: int): (r: seq<int>)
    requires |b| == 64 && 0 <= i < 8
    ensures |r| == 8 && forall k :: 0 <= k < 8 ==> r[k] == b[8 * i + k]
  {
    [b[8 * i], b[8 * i + 1], b[8 * i + 2], b[8 * i + 3], b[8 * i + 4], b[8 * i + 5], b[8 * i + 6], b[8 * i + 7]]
  }

  /** The first loop: entry (row k, column i) becomes output k of the
      butterfly on column i. */
  function ColumnPass(b: seq<int>): (r: seq<int>)
    requires |b| == 64
    ensures |r| == 64
  {
    seq(64, j requires 0 <= j < 64 => Int16(Butterfly(Column(b, j % 8))[j / 8]))
  }

  /** The second loop: entry (row i, column k) becomes output k of the
      butterfly on row i. */
  function RowPass(b: seq<int>): (r: seq<int>)
    requires |b| == 64
    ensures |r| == 64
  {
    seq(64, j requires 0 <= j < 64 => Int16(Butterfly(Row(b, j / 8))[j % 8]))
  }

  /** What `inverse_dct_component` leaves in a block. */
  function Idct(b: seq<int>): (r: seq<int>)
    requires |b| == 64
    ensures |r| == 64 && forall j :: 0 <= j < 64 ==> -32768 <= r[j] < 32768
  {
    RowPass(ColumnPass(b))
  }

  /** Entry (row r, column k) of a row-major 8x8 block. */
  function Cell(b: seq<int>, r: int, k: int): int
    requires |b| == 64 && 0 <= r < 8 && 0 <= k < 8
  {
    b[8 * r + k]
  }

  /** Distinct (row, column) pairs are distinct entries. */
  lemma CellsDistinct(r: int, k: int, m: int, n: int)
    requires 0 <= r < 8 && 0 <= k < 8 && 0 <= m < 8 && 0 <= n < 8
    ensures 8 * r + k == 8 * m + n <==> r == m && k == n
  {
  }

  /** Entry (row r, column k) of the first pass is output r of the butterfly
      on column k; entry (row r, column k) of the second pass is output k of
      the butterfly on row r. */
  lemma ColumnPassAt(b: seq<int>, r: int, k: int)
    requires |b| == 64 && 0 <= r < 8 && 0 <= k < 8
    ensures Cell(ColumnPass(b), r, k) == Int16(Butterfly(Column(b, k))[r])
  {
    CellIndex(r, k);
  }

  /** See `ColumnPassAt`. */
  lemma RowPassAt(b: seq<int>, r: int, k: int)
    requires |b| == 64 && 0 <= r < 8 && 0 <= k < 8
    ensures Cell(RowPass(b), r, k) == Int16(Butterfly(Row(b, r))[k])
  {
    CellIndex(r, k);
  }

  /** Entry `8 * r + k` is in row r and column k. */
  lemma CellIndex(r: int, k: int)
    requires 0 <= r < 8 && 0 <= k < 8
    ensures (8 * r + k) / 8 == r && (8 * r + k) % 8 == k
  {
  }

  /** The eight stores at the end of the first loop's body, in their order:
      output r goes to row r of column i. */
  method StoreColumn(buf: array<int>, base: int, i: int, out: seq<int>, ghost before: seq<int>)
    requires 0 <= base && base + 64 <= buf.Length && 0 <= i < 8 && |out| == 8 && before == buf[base..base + 64]
    modifies buf
    ensures forall j :: 0 <= j < buf.Length && !(base <= j < base + 64) ==> buf[j] == old(buf[j])
    ensures forall r, k :: 0 <= r < 8 && 0 <= k < 8 ==>
      Cell(buf[base..base + 64], r, k) == if k == i then Int16(out[r]) else Cell(before, r, k)
  {
    for r := 0 to 8
      invariant forall j :: 0 <= j < buf.Length && !(base <= j < base + 64) ==> buf[j] == old(buf[j])
      invariant forall m, k :: 0 <= m < 8 && 0 <= k < 8 ==>
        Cell(buf[base..base + 64], m, k) == if k == i && m < r then Int16(out[m]) else Cell(before, m, k)
    {
      ghost var pre := buf[base..base + 64];
      buf[base + 8 * r + i] := Int16(out[r]);
      ghost var post := buf[base..base + 64];
      forall m, k | 0 <= m < 8 && 0 <= k < 8
        ensures Cell(post, m, k) == if k == i && m <= r then Int16(out[m]) else Cell(before, m, k)
      {
        CellsDistinct(m, k, r, i);
        assert Cell(pre, m, k) == if k == i && m < r then Int16(out[m]) else Cell(before, m, k);
      }
    }
  }

  /** The eight stores at the end of the second loop's body, in their order:
      output k goes to column k of row i. */
  method StoreRow(buf: array<int>, base: int, i: int, out: seq<int>, ghost before: seq<int>)
    requires 0 <= base && base + 64 <= buf.Length && 0 <= i < 8 && |out| == 8 && before == buf[base..base + 64]
    modifies buf
    ensures forall j :: 0 <= j < buf.Length && !(base <= j < base + 64) ==> buf[j] == old(buf[j])
    ensures forall r, k :: 0 <= r < 8 && 0 <= k < 8 ==>
      Cell(buf[base..base + 64], r, k) == if r == i then Int16(out[k]) else Cell(before, r, k)
  {
    for k := 0 to 8
      invariant forall j :: 0 <= j < buf.Length && !(base <= j < base + 64) ==> buf[j] == old(buf[j])
      invariant forall m, n :: 0 <= m < 8 && 0 <= n < 8 ==>
        Cell(buf[base..base + 64], m, n) == if m == i && n < k then Int16(out[n]) else Cell(before, m, n)
    {
      ghost var pre := buf[base..base + 64];
      buf[base + 8 * i + k] := Int16(out[k]);
      ghost var post := buf[base..base + 64];
      forall m, n | 0 <= m < 8 && 0 <= n < 8
        ensures Cell(post, m, n) == if m == i && n <= k then Int16(out[n]) else Cell(before, m, n)
      {
        CellsDistinct(m, n, i, k);
        assert Cell(pre, m, n) == if m == i && n < k then Int16(out[n]) else Cell(before, m, n);
      }
    }
  }

  /** The first loop of `inverse_dct_component`: for each column i, the
      8 samples of the column are read, then the 8 outputs stored back into
      it, so each column is transformed from its original samples. */
  method TransformColumns(buf: array<int>, base: int)
    requires 0 <= base && base + 64 <= buf.Length
    modifies buf
    ensures buf[base..base + 64] == ColumnPass(old(buf[base..base + 64]))
    ensures forall j :: 0 <= j < buf.Length && !(base <= j < base + 64) ==> buf[j] == old(buf[j])
  {
    ghost var b0 := buf[base..base + 64];
    for i := 0 to 8
      invariant forall j :: 0 <= j < buf.Length && !(base <= j < base + 64) ==> buf[j] == old(buf[j])
      invariant forall r, k :: 0 <= r < 8 && 0 <= k < 8 ==>
        Cell(buf[base..base + 64], r, k) == if k < i then Int16(Butterfly(Column(b0, k))[r]) else Cell(b0, r, k)
    {
      var v := [buf[base + i], buf[base + 8 + i], buf[base + 16 + i], buf[base + 24 + i],
                buf[base + 32 + i], buf[base + 40 + i], buf[base + 48 + i], buf[base + 56 + i]];
      forall r | 0 <= r < 8
        ensures v[r] == b0[8 * r + i]
      {
        assert Cell(buf[base..base + 64], r, i) == Cell(b0, r, i);
      }
      assert v == Column(b0, i);
      var out := Butterfly(v);
      StoreColumn(buf, base, i, out, buf[base..base + 64]);
    }
    ColumnPassByCells(b0, buf[base..base + 64]);
  }

  /** The second loop of `inverse_dct_component`: for each row i, the 8
      samples of the row are read, then the 8 outputs stored back into it. */
  method TransformRows(buf: array<int>, base: int)
    requires 0 <= base && base + 64 <= buf.Length
    modifies buf
    ensures buf[base..base + 64] == RowPass(old(buf[base..base + 64]))
    ensures forall j :: 0 <= j < buf.Length && !(base <= j < base + 64) ==> buf[j] == old(buf[j])
  {
    ghost var c := buf[base..base + 64];
    for i := 0 to 8
      invariant forall j :: 0 <= j < buf.Length && !(base <= j < base + 64) ==> buf[j] == old(buf[j])
      invariant forall r, k :: 0 <= r < 8 && 0 <= k < 8 ==>
        Cell(buf[base..base + 64], r, k) == if r < i then Int16(Butterfly(Row(c, r))[k]) else Cell(c, r, k)
    {
      var v := [buf[base + 8 * i], buf[base + 8 * i + 1], buf[base + 8 * i + 2], buf[base + 8 * i + 3],
                buf[base + 8 * i + 4], buf[base + 8 * i + 5], buf[base + 8 * i + 6], buf[base + 8 * i + 7]];
      forall k | 0 <= k < 8
        ensures v[k] == c[8 * i + k]
      {
        assert Cell(buf[base..base + 64], i, k) == Cell(c, i, k);
      }
      assert v == Row(c, i);
      var out := Butterfly(v);
      StoreRow(buf, base, i, out, buf[base..base + 64]);
    }
    RowPassByCells(c, buf[base..base + 64]);
  }

  /** A block whose every entry is the first pass's value at that entry is
      the first pass. */
  lemma ColumnPassByCells(b: seq<int>, after: seq<int>)
    requires |b| == 64 && |after| == 64
    requires forall r, k :: 0 <= r < 8 && 0 <= k < 8 ==> Cell(after, r, k) == Int16(Butterfly(Column(b, k))[r])
    ensures after == ColumnPass(b)
  {
    forall r, k | 0 <= r < 8 && 0 <= k < 8
      ensures Cell(after, r, k) == Cell(ColumnPass(b), r, k)
    {
      ColumnPassAt(b, r, k);
    }
    SameCells(after, ColumnPass(b));
  }

  /** See `ColumnPassByCells`. */
  lemma RowPassByCells(b: seq<int>, after: seq<int>)
    requires |b| == 64 && |after| == 64
    requires forall r, k :: 0 <= r < 8 && 0 <= k < 8 ==> Cell(after, r, k) == Int16(Butterfly(Row(b, r))[k])
    ensures after == RowPass(b)
  {
    forall r, k | 0 <= r < 8 && 0 <= k < 8
      ensures Cell(after, r, k) == Cell(RowPass(b), r, k)
    {
      RowPassAt(b, r, k);
    }
    SameCells(after, RowPass(b));
  }

  /** Two blocks with the same 64 cells are equal. */
  lemma SameCells(x: seq<int>, y: seq<int>)
    requires |x| == 64 && |y| == 64
    requires forall r, k :: 0 <= r < 8 && 0 <= k < 8 ==> Cell(x, r, k) == Cell(y, r, k)
    ensures x == y
  {
    forall j | 0 <= j < 64
      ensures x[j] == y[j]
    {
      var r, k := j / 8, j % 8;
      assert j == 8 * r + k;
      assert Cell(x, r, k) == Cell(y, r, k);
    }
  }

  /** `inverse_dct_component` on the block at `buf[base..base + 64]`: the
      CPU decoder passes a block of the `mcus` buffer, the DPU decoder the
      block at `cache_index` in its tasklet's `MCU_cache`. The block ends up
      as `Idct` of its old contents and nothing outside it changes. */
  method InverseDctComponent(buf: array<int>, base: int)
    requires 0 <= base && base + 64 <= buf.Length
    modifies buf
    ensures buf[base..base + 64] == Idct(old(buf[base..base + 64]))
    ensures forall j :: 0 <= j < buf.Length && !(base <= j < base + 64) ==> buf[j] == old(buf[j])
  {
    TransformColumns(buf, base);
    TransformRows(buf, base);
  }

  /** With zero samples at positions 2, 4 and 6, all four even values
      are the scaled sample at position 0. */
  lemma EvenPartDcOnly(v0: int, v2: int, v4: int, v6: int)
    requires v2 == 0 && v4 == 0 && v6 == 0
    ensures var ev := EvenPart(v0, v2, v4, v6);
      ev.a == Scale(v0, 181, 32) && ev.b == Scale(v0, 181, 32) && ev.c == Scale(v0, 181, 32) && ev.d == Scale(v0, 181, 32)
  {
    var g := EvenScaled(v0, v2, v4, v6);
    EvenScaledDcOnly(v0, v2, v4, v6);
    EvenCombineDcOnly(g.a, g.b, g.c, g.d);
  }

  lemma EvenScaledDcOnly(v0: int, v2: int, v4: int, v6: int)
    requires v2 == 0 && v4 == 0 && v6 == 0
    ensures var g := EvenScaled(v0, v2, v4, v6); g.a == Scale(v0, 181, 32) && g.b == 0 && g.c == 0 && g.d == 0
  {
  }

  /** The second step of the even half when only `g0` is nonzero. */
  lemma EvenCombineDcOnly(g0: int, g1: int, g2: int, g3: int)
    requires g1 == 0 && g2 == 0 && g3 == 0
    ensures var ev := EvenCombine(g0, g1, g2, g3); ev.a == g0 && ev.b == g0 && ev.c == g0 && ev.d == g0
  {
  }

  /** With zero samples at positions 1, 3, 5 and 7, all four odd values
      are zero. */
  lemma OddPartZero(v1: int, v3: int, v5: int, v7: int)
    requires v1 == 0 && v3 == 0 && v5 == 0 && v7 == 0
    ensures var od := OddPart(v1, v3, v5, v7);
      od.a == 0 && od.b == 0 && od.c == 0 && od.d == 0
  {
    var f := OddSums(v1, v3, v5, v7);
    OddSumsZero(v1, v3, v5, v7);
    OddCombineZero(f.a, f.b, f.c, f.d);
  }

  lemma OddSumsZero(v1: int, v3: int, v5: int, v7: int)
    requires v1 == 0 && v3 == 0 && v5 == 0 && v7 == 0
    ensures var f := OddSums(v1, v3, v5, v7); f.a == 0 && f.b == 0 && f.c == 0 && f.d == 0
  {
  }

  /** The second step of the odd half sends zeros to zeros. */
  lemma OddCombineZero(f4: int, f5: int, f6: int, f7: int)
    requires f4 == 0 && f5 == 0 && f6 == 0 && f7 == 0
    ensures var od := OddCombine(f4, f5, f6, f7); od.a == 0 && od.b == 0 && od.c == 0 && od.d == 0
  {
  }

  /** The butterfly sends a line whose only nonzero sample is the first
      one to a constant line (and 8 zeros to 8 zeros). */
  lemma ButterflyDcOnly(v: seq<int>)
    requires |v| == 8 && forall k :: 1 <= k < 8 ==> v[k] == 0
    ensures forall k :: 0 <= k < 8 ==> Butterfly(v)[k] == Shr(Scale(v[0], 181, 32), 4)
  {
    assert v[1] == 0 && v[2] == 0 && v[3] == 0 && v[4] == 0 && v[5] == 0 && v[6] == 0 && v[7] == 0;
    EvenPartDcOnly(v[0], v[2], v[4], v[6]);
    OddPartZero(v[1], v[3], v[5], v[7]);
    OutputsDcOnly(EvenPart(v[0], v[2], v[4], v[6]), OddPart(v[1], v[3], v[5], v[7]), Scale(v[0], 181, 32));
  }

  /** The last step when the four even values are equal and the odd ones
      zero. */
  lemma OutputsDcOnly(ev: Quad, od: Quad, g: int)
    requires ev.a == g && ev.b == g && ev.c == g && ev.d == g
    requires od.a == 0 && od.b == 0 && od.c == 0 && od.d == 0
    ensures forall k :: 0 <= k < 8 ==> Outputs(ev, od)[k] == Shr(g, 4)
  {
  }

  /** The value every entry of a block takes when only its DC entry `v` is
      nonzero: the DC gain of the butterfly applied down column 0 and then
      along every row. */
  function DcLevel(v: int): (r: int)
    ensures -32768 <= r < 32768
  {
    Int16(Shr(Scale(Int16(Shr(Scale(v, 181, 32), 4)), 181, 32), 4))
  }

  /** The first pass over a block that is zero except for its DC entry:
      column 0 becomes constant and every other column stays zero. */
  lemma ColumnPassDcOnly(b: seq<int>)
    requires |b| == 64 && forall j :: 1 <= j < 64 ==> b[j] == 0
    ensures forall r, k :: 0 <= r < 8 && 0 <= k < 8 ==>
      Cell(ColumnPass(b), r, k) == if k == 0 then Int16(Shr(Scale(b[0], 181, 32), 4)) else 0
  {
    ColumnPassCells(b);
    ColumnsDcOnly(b, ColumnPass(b));
  }

  /** Every cell of the first pass, as `ColumnPassAt` gives it. */
  lemma ColumnPassCells(b: seq<int>)
    requires |b| == 64
    ensures forall r, k :: 0 <= r < 8 && 0 <= k < 8 ==> Cell(ColumnPass(b), r, k) == Int16(Butterfly(Column(b, k))[r])
  {
    forall r, k | 0 <= r < 8 && 0 <= k < 8
      ensures Cell(ColumnPass(b), r, k) == Int16(Butterfly(Column(b, k))[r])
    {
      ColumnPassAt(b, r, k);
    }
  }

  /** `ColumnPassDcOnly` for any block `c` holding the first pass's cells. */
  lemma ColumnsDcOnly(b: seq<int>, c: seq<int>)
    requires |b| == 64 && forall j :: 1 <= j < 64 ==> b[j] == 0
    requires |c| == 64
    requires forall r, k :: 0 <= r < 8 && 0 <= k < 8 ==> Cell(c, r, k) == Int16(Butterfly(Column(b, k))[r])
    ensures forall r, k :: 0 <= r < 8 && 0 <= k < 8 ==>
      Cell(c, r, k) == if k == 0 then Int16(Shr(Scale(b[0], 181, 32), 4)) else 0
  {
    ButterfliesDcOnly(b);
  }

  /** Every butterfly of the first pass over a block that is zero except
      for its DC entry. */
  lemma ButterfliesDcOnly(b: seq<int>)
    requires |b| == 64 && forall j :: 1 <= j < 64 ==> b[j] == 0
    ensures forall r, k :: 0 <= r < 8 && 0 <= k < 8 ==>
      Int16(Butterfly(Column(b, k))[r]) == if k == 0 then Int16(Shr(Scale(b[0], 181, 32), 4)) else 0
  {
    forall r, k | 0 <= r < 8 && 0 <= k < 8
      ensures Int16(Butterfly(Column(b, k))[r]) == if k == 0 then Int16(Shr(Scale(b[0], 181, 32), 4)) else 0
    {
      ColumnDcOnly(b, r, k);
    }
  }

  /** One entry of `ColumnPassDcOnly`: output r of the butterfly down
      column k. */
  lemma ColumnDcOnly(b: seq<int>, r: int, k: int)
    requires |b| == 64 && forall j :: 1 <= j < 64 ==> b[j] == 0
    requires 0 <= r < 8 && 0 <= k < 8
    ensures Int16(Butterfly(Column(b, k))[r]) == if k == 0 then Int16(Shr(Scale(b[0], 181, 32), 4)) else 0
  {
    var col := Column(b, k);
    ButterflyDcOnly(col);
    if k != 0 {
      assert col[0] == 0;
      DcGainZero(col[0]);
    } else {
      assert col[0] == b[0];
    }
  }

  /** The DC gain of one pass, stored into a `short`, sends 0 to 0. */
  lemma DcGainZero(x: int)
    requires x == 0
    ensures Int16(Shr(Scale(x, 181, 32), 4)) == 0
  {
    assert Scale(x, 181, 32) == 0;
    assert Shr(0, 4) == 0;
    assert Int16(0) == 0;
  }

  /** A block that is zero except for its DC entry becomes the constant
      block `DcLevel(b[0])`. */
  lemma DcOnlyBlockIsConstant(b: seq<int>)
    requires |b| == 64 && forall j :: 1 <= j < 64 ==> b[j] == 0
    ensures forall j :: 0 <= j < 64 ==> Idct(b)[j] == DcLevel(b[0])
  {
    var c := ColumnPass(b);
    var w := Int16(Shr(Scale(b[0], 181, 32), 4));
    ColumnPassDcOnly(b);
    RowPassDcOnly(c, w);
    ConstantByCells(RowPass(c), DcLevel(b[0]));
  }

  /** A block whose 64 cells all hold `v`. */
  lemma ConstantByCells(x: seq<int>, v: int)
    requires |x| == 64
    requires forall r, k :: 0 <= r < 8 && 0 <= k < 8 ==> Cell(x, r, k) == v
    ensures forall j :: 0 <= j < 64 ==> x[j] == v
  {
    forall j | 0 <= j < 64
      ensures x[j] == v
    {
      var r, k := j / 8, j % 8;
      assert j == 8 * r + k;
      assert Cell(x, r, k) == v;
    }
  }

  /** The second pass over a block whose only nonzero column is column 0,
      holding `w` in every row: every entry becomes the same value. */
  lemma RowPassDcOnly(c: seq<int>, w: int)
    requires |c| == 64
    requires forall r, k :: 0 <= r < 8 && 0 <= k < 8 ==> Cell(c, r, k) == if k == 0 then w else 0
    ensures forall r, k :: 0 <= r < 8 && 0 <= k < 8 ==> Cell(RowPass(c), r, k) == Int16(Shr(Scale(w, 181, 32), 4))
  {
    RowPassCells(c);
    RowsDcOnly(c, RowPass(c), w);
  }

  /** Every cell of the second pass, as `RowPassAt` gives it. */
  lemma RowPassCells(c: seq<int>)
    requires |c| == 64
    ensures forall r, k :: 0 <= r < 8 && 0 <= k < 8 ==> Cell(RowPass(c), r, k) == Int16(Butterfly(Row(c, r))[k])
  {
    forall r, k | 0 <= r < 8 && 0 <= k < 8
      ensures Cell(RowPass(c), r, k) == Int16(Butterfly(Row(c, r))[k])
    {
      RowPassAt(c, r, k);
    }
  }

  /** `RowPassDcOnly` for any block `x` holding the second pass's cells. */
  lemma RowsDcOnly(c: seq<int>, x: seq<int>, w: int)
    requires |c| == 64 && |x| == 64
    requires forall r, k :: 0 <= r < 8 && 0 <= k < 8 ==> Cell(c, r, k) == if k == 0 then w else 0
    requires forall r, k :: 0 <= r < 8 && 0 <= k < 8 ==> Cell(x, r, k) == Int16(Butterfly(Row(c, r))[k])
    ensures forall r, k :: 0 <= r < 8 && 0 <= k < 8 ==> Cell(x, r, k) == Int16(Shr(Scale(w, 181, 32), 4))
  {
    forall r, k | 0 <= r < 8 && 0 <= k < 8
      ensures Cell(x, r, k) == Int16(Shr(Scale(w, 181, 32), 4))
    {
      RowDcOnly(c, r, k, w);
    }
  }

  /** One entry of `RowPassDcOnly`: output k of the butterfly along row r. */
  lemma RowDcOnly(c: seq<int>, r: int, k: int, w: int)
    requires |c| == 64
    requires forall r, k :: 0 <= r < 8 && 0 <= k < 8 ==> Cell(c, r, k) == if k == 0 then w else 0
    requires 0 <= r < 8 && 0 <= k < 8
    ensures Int16(Butterfly(Row(c, r))[k]) == Int16(Shr(Scale(w, 181, 32), 4))
  {
    var row := Row(c, r);
    assert row[0] == Cell(c, r, 0);
    assert forall n :: 1 <= n < 8 ==> row[n] == Cell(c, r, n);
    ButterflyDcOnly(row);
  }

  /** An all-zero block stays all-zero. */
  lemma ZeroBlockStaysZero(b: seq<int>)
    requires |b| == 64 && forall j :: 0 <= j < 64 ==> b[j] == 0
    ensures Idct(b) == b
  {
    DcOnlyBlockIsConstant(b);
    ScaleZero(b[0], 181, 32);
    ScaleZero(Int16(Shr(Scale(b[0], 181, 32), 4)), 181, 32);
  }
}
