/** Huffman tables as the decoder stores them (`HuffmanTable` of
    include/jpeg-common.h) and the canonical code generation of ITU-T T.81
    Annex C, Figure C.2, as `generate_codes` performs it. */
module Huffman {
  import opened Bytes

  /** `huffval[256]` (HUFFVAL), `valoffset[18]` (an `uint8_t` offset into huffval
      per code length) and `codes[256]` (`uint32_t`). `present` is the `exists` flag. */
  datatype HuffmanTable = HuffmanTable(present: bool, huffval: seq<int>, valoffset: seq<int>, codes: seq<int>)

  predicate WellFormed(t: HuffmanTable)
  {
    |t.huffval| == 256 && |t.valoffset| == 18 && |t.codes| == 256
    && (forall k :: 0 <= k < 256 ==> 0 <= t.huffval[k] < 256)
    && (forall k :: 0 <= k < 18 ==> 0 <= t.valoffset[k] < 256)
    && (forall k :: 0 <= k < 256 ==> 0 <= t.codes[k] < 0x1_0000_0000)
  }

  /** A table slot of zero-initialised static storage. */
  function EmptyTable(): (t: HuffmanTable)
    ensures WellFormed(t) && !t.present
  {
    HuffmanTable(false, seq(256, _ => 0), seq(18, _ => 0), seq(256, _ => 0))
  }

  predicate ValidOffsets(vo: seq<int>)
  {
    |vo| == 18 && forall k :: 0 <= k < 18 ==> 0 <= vo[k] < 256
  }

  predicate ValidCodes(codes: seq<int>)
  {
    |codes| == 256 && forall k :: 0 <= k < 256 ==> 0 <= codes[k] < 0x1_0000_0000
  }

  /** The inner loop of generate_codes over one code length: codes[j] := code++
      for j from `j` up to `end`. Returns the updated codes and the running code. */
  function Group(codes: seq<int>, j: nat, end: nat, code: nat): (r: (seq<int>, nat))
    requires ValidCodes(codes) && end <= 256 && code < 0x1_0000_0000
    ensures ValidCodes(r.0) && r.1 < 0x1_0000_0000
    decreases end - j
  {
    if j >= end then (codes, code) else Group(codes[j := code], j + 1, end, U32(code + 1))
  }

  /** The outer loop of generate_codes from code length i + 1 on, with running code `code`. */
  function CodesFrom(vo: seq<int>, codes: seq<int>, i: nat, code: nat): (r: seq<int>)
    requires ValidOffsets(vo) && ValidCodes(codes) && i <= 16 && code < 0x1_0000_0000
    ensures ValidCodes(r)
    decreases 16 - i
  {
    if i == 16 then codes
    else
      var g := Group(codes, vo[i], vo[i + 1], code);
      CodesFrom(vo, g.0, i + 1, U32(g.1 * 2))
  }

  /** The table after `generate_codes`. */
  function GenerateCodes(t: HuffmanTable): (r: HuffmanTable)
    requires WellFormed(t)
    ensures WellFormed(r)
  {
    t.(codes := CodesFrom(t.valoffset, t.codes, 0, 0))
  }

  /** valoffset never decreases: true whenever the running total of the code
      counts did not wrap in its `uint8_t` slots. */
  predicate Monotone(vo: seq<int>)
    requires |vo| == 18
  {
    forall i :: 0 <= i < 16 ==> vo[i] <= vo[i + 1]
  }

  /** Figure C.2: the first code of length i + 1 is twice the code that follows
      the last code of length i. */
  function FirstCode(vo: seq<int>, i: nat): int
    requires |vo| == 18 && i <= 16
  {
    if i == 0 then 0 else 2 * (FirstCode(vo, i - 1) + vo[i] - vo[i - 1])
  }

  /** p*x + (y - x) <= p*y for p >= 1 and x <= y. */
  lemma ScaleStep(p: int, x: int, y: int)
    requires p >= 1 && 0 <= x <= y
    ensures p * x + (y - x) <= p * y
  {
    assert p * y == p * x + p * (y - x);
    assert p * (y - x) >= y - x;
  }

  lemma {:induction false} FirstCodeBound(vo: seq<int>, i: nat)
    requires ValidOffsets(vo) && Monotone(vo) && i <= 16
    ensures 0 <= FirstCode(vo, i) <= Pow2(i) * vo[i]
  {
    if i > 0 {
      FirstCodeBound(vo, i - 1);
      var p := Pow2(i - 1);
      ScaleStep(p, vo[i - 1], vo[i]);
      assert FirstCode(vo, i) <= 2 * (p * vo[i]);
      assert Pow2(i) * vo[i] == 2 * (p * vo[i]);
    }
  }

  /** The running code within length group i never needs more than 32 bits. */
  lemma CodeRange(vo: seq<int>, i: nat)
    requires ValidOffsets(vo) && Monotone(vo) && i < 16
    ensures 0 <= FirstCode(vo, i) + (vo[i + 1] - vo[i]) <= Pow2(i) * vo[i + 1]
    ensures Pow2(i) * vo[i + 1] < 0x8000_0000
  {
    FirstCodeBound(vo, i);
    var p := Pow2(i);
    ScaleStep(p, vo[i], vo[i + 1]);
    Pow2Monotone(i, 16);
    Pow2At16();
    assert p * vo[i + 1] <= 65536 * 255;
  }

  lemma {:induction false} GroupEffect(codes: seq<int>, j: nat, end: nat, code: nat)
    requires ValidCodes(codes) && j <= end <= 256 && code + (end - j) < 0x1_0000_0000
    ensures Group(codes, j, end, code).1 == code + (end - j)
    ensures forall k :: j <= k < end ==> Group(codes, j, end, code).0[k] == code + (k - j)
    ensures forall k :: 0 <= k < 256 && !(j <= k < end) ==> Group(codes, j, end, code).0[k] == codes[k]
    decreases end - j
  {
    if j < end {
      GroupEffect(codes[j := code], j + 1, end, code + 1);
    }
  }

  lemma {:induction false} MonotoneSpan(vo: seq<int>, a: nat, b: nat)
    requires |vo| == 18 && Monotone(vo) && a <= b <= 16
    ensures vo[a] <= vo[b]
    decreases b - a
  {
    if a < b {
      MonotoneSpan(vo, a + 1, b);
    }
  }

  lemma {:induction false} CodesFromEffect(vo: seq<int>, codes: seq<int>, i: nat)
    requires ValidOffsets(vo) && Monotone(vo) && ValidCodes(codes) && i <= 16
    requires 0 <= FirstCode(vo, i) < 0x1_0000_0000
    ensures forall g, k :: i <= g < 16 && vo[g] <= k < vo[g + 1] ==>
              CodesFrom(vo, codes, i, FirstCode(vo, i))[k] == FirstCode(vo, g) + (k - vo[g])
    ensures forall k :: 0 <= k < 256 && (k < vo[i] || k >= vo[16]) ==>
              CodesFrom(vo, codes, i, FirstCode(vo, i))[k] == codes[k]
    decreases 16 - i
  {
    if i < 16 {
      var c := FirstCode(vo, i);
      CodeRange(vo, i);
      GroupEffect(codes, vo[i], vo[i + 1], c);
      var gr := Group(codes, vo[i], vo[i + 1], c);
      var next := FirstCode(vo, i + 1);
      assert next == 2 * gr.1;
      assert U32(gr.1 * 2) == next;
      var r := CodesFrom(vo, gr.0, i + 1, next);
      assert CodesFrom(vo, codes, i, c) == r;
      CodesFromEffect(vo, gr.0, i + 1);
      MonotoneSpan(vo, i + 1, 16);
      forall g, k | i <= g < 16 && vo[g] <= k < vo[g + 1]
        ensures r[k] == FirstCode(vo, g) + (k - vo[g])
      {
        if g == i {
          assert r[k] == gr.0[k];
        }
      }
      forall k | 0 <= k < 256 && (k < vo[i] || k >= vo[16])
        ensures r[k] == codes[k]
      {
        assert r[k] == gr.0[k];
      }
    }
  }

  /** Canonical Huffman codes (T.81 Figure C.2): when the code counts did not wrap
      their `uint8_t` offsets, generate_codes gives the codes of one length
      consecutive values starting at FirstCode, and each length's first code is
      double the value after the previous length's last code. */
  lemma GeneratedCodesAreCanonical(t: HuffmanTable)
    requires WellFormed(t) && Monotone(t.valoffset)
    ensures forall g, k :: 0 <= g < 16 && t.valoffset[g] <= k < t.valoffset[g + 1] ==>
              GenerateCodes(t).codes[k] == FirstCode(t.valoffset, g) + (k - t.valoffset[g])
    ensures forall k :: t.valoffset[16] <= k < 256 ==> GenerateCodes(t).codes[k] == t.codes[k]
  {
    CodesFromEffect(t.valoffset, t.codes, 0);
  }

  /** generate_codes, writing `codes` in place with the nested loops of the source. */
  method GenerateCodesInPlace(vo: seq<int>, codes: array<int>)
    requires ValidOffsets(vo) && ValidCodes(codes[..])
    modifies codes
    ensures codes[..] == CodesFrom(vo, old(codes[..]), 0, 0)
  {
    var code: nat := 0;
    var i := 0;
    while i < 16
      invariant 0 <= i <= 16 && code < 0x1_0000_0000 && ValidCodes(codes[..])
      invariant CodesFrom(vo, codes[..], i, code) == CodesFrom(vo, old(codes[..]), 0, 0)
    {
      var j := vo[i];
      ghost var start := codes[..];
      ghost var code0 := code;
      while j < vo[i + 1]
        invariant vo[i] <= j
        invariant code < 0x1_0000_0000 && ValidCodes(codes[..])
        invariant Group(codes[..], j, vo[i + 1], code) == Group(start, vo[i], vo[i + 1], code0)
        decreases vo[i + 1] - j
      {
        codes[j] := code;
        code := U32(code + 1);
        j := j + 1;
      }
      code := U32(code * 2);
      i := i + 1;
    }
  }

  /** `generate_codes` on one table, whose `codes` array is filled in place. */
  method GenerateTableCodes(t: HuffmanTable) returns (r: HuffmanTable)
    requires WellFormed(t)
    ensures r == GenerateCodes(t)
  {
    var codes := new int[256](k requires 0 <= k < 256 => t.codes[k]);
    assert codes[..] == t.codes;
    GenerateCodesInPlace(t.valoffset, codes);
    r := t.(codes := codes[..]);
  }
}
