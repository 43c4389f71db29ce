/** The zig-zag sequence of ITU-T T.81 section A.3.6 (Figure A.6): the k-th
    coefficient of an entropy-coded block lands at position ZIGZAG_ORDER[k] of the
    row-major 8x8 block. The decoder takes the table from a header that is not
    part of this model; the values are the ones listed in the comment at
    src/jpeg-cpu.c:54-57. */
module ZigZag {

  const ZIGZAG_ORDER: seq<int> :=
    [ 0,  1,  8, 16,  9,  2,  3, 10] + [17, 24, 32, 25, 18, 11,  4,  5] +
    [12, 19, 26, 33, 40, 48, 41, 34] + [27, 20, 13,  6,  7, 14, 21, 28] +
    [35, 42, 49, 56, 57, 50, 43, 36] + [29, 22, 15, 23, 30, 37, 44, 51] +
    [58, 59, 52, 45, 38, 31, 39, 46] + [53, 60, 61, 54, 47, 55, 62, 63]

  /** A reading order of the 64 block positions: each position exactly once. */
  predicate IsBlockOrder(zz: seq<int>)
  {
    |zz| == 64
    && (forall k :: 0 <= k < 64 ==> 0 <= zz[k] < 64)
    && (forall i, j :: 0 <= i < j < 64 ==> zz[i] != zz[j])
  }

  /** Anti-diagonal (row + column) of a row-major block position. */
  function Diag(p: int): int { p / 8 + p % 8 }

  /** Figure A.6 orders positions by anti-diagonal, walking even diagonals
      upwards (row decreasing) and odd diagonals downwards (row increasing). */
  predicate Before(p: int, q: int)
  {
    Diag(p) < Diag(q)
    || (Diag(p) == Diag(q) && (if Diag(p) % 2 == 0 then p / 8 > q / 8 else p / 8 < q / 8))
  }

  lemma BeforeTransitive(p: int, q: int, r: int)
    requires Before(p, q) && Before(q, r)
    ensures Before(p, r)
  {
  }

  lemma BeforeIrreflexive(p: int)
    ensures !Before(p, p)
  {
  }

  /** Entry k of a 64-entry table is a block position and comes after entry k - 1. */
  predicate EntryInOrder(zz: seq<int>, k: int)
    requires |zz| == 64 && 0 <= k < 64
  {
    0 <= zz[k] < 64 && (k == 0 || Before(zz[k - 1], zz[k]))
  }

  lemma ZigZagEntries0()
    ensures forall k :: 0 <= k < 8 ==> EntryInOrder(ZIGZAG_ORDER, k)
  {
  }

  lemma ZigZagEntries1()
    ensures forall k :: 8 <= k < 16 ==> EntryInOrder(ZIGZAG_ORDER, k)
  {
  }

  lemma ZigZagEntries2()
    ensures forall k :: 16 <= k < 24 ==> EntryInOrder(ZIGZAG_ORDER, k)
  {
  }

  lemma ZigZagEntries3()
    ensures forall k :: 24 <= k < 32 ==> EntryInOrder(ZIGZAG_ORDER, k)
  {
  }

  lemma ZigZagEntries4()
    ensures forall k :: 32 <= k < 40 ==> EntryInOrder(ZIGZAG_ORDER, k)
  {
  }

  lemma ZigZagEntries5()
    ensures forall k :: 40 <= k < 48 ==> EntryInOrder(ZIGZAG_ORDER, k)
  {
  }

  lemma ZigZagEntries6()
    ensures forall k :: 48 <= k < 56 ==> EntryInOrder(ZIGZAG_ORDER, k)
  {
  }

  lemma ZigZagEntries7()
    ensures forall k :: 56 <= k < 64 ==> EntryInOrder(ZIGZAG_ORDER, k)
  {
  }

  lemma {:induction false} IncreasingChain(zz: seq<int>, i: nat, j: nat)
    requires |zz| == 64 && i < j < 64
    requires forall k :: 0 < k < 64 ==> Before(zz[k - 1], zz[k])
    ensures Before(zz[i], zz[j])
    decreases j - i
  {
    if j > i + 1 {
      IncreasingChain(zz, i, j - 1);
      BeforeTransitive(zz[i], zz[j - 1], zz[j]);
    }
  }

  lemma {:induction false} EntriesCombine(zz: seq<int>)
    requires |zz| == 64
    requires forall k :: 0 <= k < 8 ==> EntryInOrder(zz, k)
    requires forall k :: 8 <= k < 16 ==> EntryInOrder(zz, k)
    requires forall k :: 16 <= k < 24 ==> EntryInOrder(zz, k)
    requires forall k :: 24 <= k < 32 ==> EntryInOrder(zz, k)
    requires forall k :: 32 <= k < 40 ==> EntryInOrder(zz, k)
    requires forall k :: 40 <= k < 48 ==> EntryInOrder(zz, k)
    requires forall k :: 48 <= k < 56 ==> EntryInOrder(zz, k)
    requires forall k :: 56 <= k < 64 ==> EntryInOrder(zz, k)
    ensures forall k :: 0 < k < 64 ==> Before(zz[k - 1], zz[k])
    ensures forall k :: 0 <= k < 64 ==> 0 <= zz[k] < 64
  {
    forall k | 0 <= k < 64
      ensures 0 <= zz[k] < 64 && (k > 0 ==> Before(zz[k - 1], zz[k]))
    {
      assert EntryInOrder(zz, k);
    }
  }

  /** The table used by the decoder walks the block in the order of Figure A.6. */
  lemma ZigZagFollowsFigureA6()
    ensures |ZIGZAG_ORDER| == 64
    ensures forall k :: 0 < k < 64 ==> Before(ZIGZAG_ORDER[k - 1], ZIGZAG_ORDER[k])
    ensures forall k :: 0 <= k < 64 ==> 0 <= ZIGZAG_ORDER[k] < 64
  {
    ZigZagEntries0(); ZigZagEntries1(); ZigZagEntries2(); ZigZagEntries3();
    ZigZagEntries4(); ZigZagEntries5(); ZigZagEntries6(); ZigZagEntries7();
    EntriesCombine(ZIGZAG_ORDER);
  }

  /** Every block position is read exactly once through the zig-zag table. */
  lemma ZigZagIsBlockOrder()
    ensures IsBlockOrder(ZIGZAG_ORDER)
  {
    ZigZagFollowsFigureA6();
    forall i, j | 0 <= i < j < 64
      ensures ZIGZAG_ORDER[i] != ZIGZAG_ORDER[j]
    {
      IncreasingChain(ZIGZAG_ORDER, i, j);
      BeforeIrreflexive(ZIGZAG_ORDER[i]);
    }
  }

  /** Where each row-major block position sits in the zig-zag sequence. */
  const ZigZagInverse: seq<int> :=
    [ 0,  1,  5,  6, 14, 15, 27, 28] + [ 2,  4,  7, 13, 16, 26, 29, 42] +
    [ 3,  8, 12, 17, 25, 30, 41, 43] + [ 9, 11, 18, 24, 31, 40, 44, 53] +
    [10, 19, 23, 32, 39, 45, 52, 54] + [20, 22, 33, 38, 46, 51, 55, 60] +
    [21, 34, 37, 47, 50, 56, 59, 61] + [35, 36, 48, 49, 57, 58, 62, 63]

  lemma ZigZagInverse0()
    ensures forall q :: 0 <= q < 8 ==> 0 <= ZigZagInverse[q] < 64 && ZIGZAG_ORDER[ZigZagInverse[q]] == q
  {
  }

  lemma ZigZagInverse1()
    ensures forall q :: 8 <= q < 16 ==> 0 <= ZigZagInverse[q] < 64 && ZIGZAG_ORDER[ZigZagInverse[q]] == q
  {
  }

  lemma ZigZagInverse2()
    ensures forall q :: 16 <= q < 24 ==> 0 <= ZigZagInverse[q] < 64 && ZIGZAG_ORDER[ZigZagInverse[q]] == q
  {
  }

  lemma ZigZagInverse3()
    ensures forall q :: 24 <= q < 32 ==> 0 <= ZigZagInverse[q] < 64 && ZIGZAG_ORDER[ZigZagInverse[q]] == q
  {
  }

  lemma ZigZagInverse4()
    ensures forall q :: 32 <= q < 40 ==> 0 <= ZigZagInverse[q] < 64 && ZIGZAG_ORDER[ZigZagInverse[q]] == q
  {
  }

  lemma ZigZagInverse5()
    ensures forall q :: 40 <= q < 48 ==> 0 <= ZigZagInverse[q] < 64 && ZIGZAG_ORDER[ZigZagInverse[q]] == q
  {
  }

  lemma ZigZagInverse6()
    ensures forall q :: 48 <= q < 56 ==> 0 <= ZigZagInverse[q] < 64 && ZIGZAG_ORDER[ZigZagInverse[q]] == q
  {
  }

  lemma ZigZagInverse7()
    ensures forall q :: 56 <= q < 64 ==> 0 <= ZigZagInverse[q] < 64 && ZIGZAG_ORDER[ZigZagInverse[q]] == q
  {
  }

  /** The zig-zag table is onto the 64 block positions: ZigZagInverse undoes it. */
  lemma ZigZagInverseUndoes()
    ensures |ZigZagInverse| == 64
    ensures forall q :: 0 <= q < 64 ==> 0 <= ZigZagInverse[q] < 64 && ZIGZAG_ORDER[ZigZagInverse[q]] == q
  {
    ZigZagInverse0(); ZigZagInverse1(); ZigZagInverse2(); ZigZagInverse3();
    ZigZagInverse4(); ZigZagInverse5(); ZigZagInverse6(); ZigZagInverse7();
  }

  /** `block` holds `values` (given in zig-zag order) at their row-major positions. */
  predicate InZigZagOrder(block: seq<int>, values: seq<int>)
  {
    |block| == 64 && |values| == 64
    && forall k :: 0 <= k < 64 ==> 0 <= ZIGZAG_ORDER[k] < 64 && block[ZIGZAG_ORDER[k]] == values[k]
  }

  /** The row-major block whose zig-zag reading is `values`. */
  function Unzigzag(values: seq<int>): (r: seq<int>)
    requires |values| == 64
    ensures |r| == 64
  {
    ZigZagInverseUndoes();
    seq(64, q requires 0 <= q < 64 => values[ZigZagInverse[q]])
  }
}
