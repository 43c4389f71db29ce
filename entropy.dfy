/** Entropy decoding of one 8x8 block: `huff_decode`, the EXTEND step and
    `decode_mcu` of src/jpeg-cpu.c:520-614 and src/dpu/dpu-jpeg-decode.c:250-372
    (ITU-T T.81 section F.2.2). The bits come from the cursor of Cursor. */
module Entropy {
  import opened Bytes
  import opened Arith
  import opened Bits
  import opened Huffman
  import opened ZigZag
  import opened JpegInfo
  import opened Cursor

  // ---------------------------------------------------------------- huff_decode

  /** `get_num_bits(d, 1)`: the next bit of the scan. */
  function NextBit(data: seq<byte>, s: BitState): (r: (nat, BitState))
    requires Aligned(s)
    ensures r.0 < 2 && Aligned(r.1)
  {
    var r := GetBits(data, s, 1);
    if r.0 < 2 then r else (0, r.1)
  }

  /** The inner loop of `huff_decode` for code length i + 1: the first index j'
      from j on, below `valoffset[i + 1]`, whose code equals `code`. */
  function FindCode(t: HuffmanTable, i: nat, code: int, j: int): (r: Option<int>)
    requires WellFormed(t) && i < 16 && 0 <= j
    ensures r.Some? ==> j <= r.value < t.valoffset[i + 1] && t.codes[r.value] == code
    ensures r.Some? ==> forall k :: j <= k < r.value ==> t.codes[k] != code
    ensures r.None? ==> forall k :: j <= k < t.valoffset[i + 1] ==> t.codes[k] != code
    decreases t.valoffset[i + 1] - j
  {
    if j >= t.valoffset[i + 1] then None
    else if t.codes[j] == code then Some(j)
    else FindCode(t, i, code, j + 1)
  }

  /** `huff_decode` from code length i + 1 on, with the i bits read so far in
      `code`: one bit is appended per length and the symbols of that length are
      searched; after 16 lengths the result is 0xFF (`(uint8_t) -1`). */
  function HuffDecodeFrom(data: seq<byte>, t: HuffmanTable, s: BitState, i: nat, code: nat): (r: (int, BitState))
    requires WellFormed(t) && Aligned(s) && i <= 16 && code < 0x1_0000_0000
    ensures 0 <= r.0 < 256 && Aligned(r.1)
    decreases 16 - i
  {
    if i == 16 then (0xFF, s)
    else
      var b := NextBit(data, s); var bit := b.0; var s1 := b.1;
      var c := U32(code * 2 + bit);
      var found := FindCode(t, i, c, t.valoffset[i]);
      if found.Some? then (t.huffval[found.value], s1)
      else HuffDecodeFrom(data, t, s1, i + 1, c)
  }

  /** T.81 Figure F.16 (DECODE) on the tables of Annex C: MINCODE, MAXCODE and
      VALPTR of code length i + 1, with MAXCODE = -1 for a length without codes. */
  function MinCode(vo: seq<int>, i: nat): int
    requires |vo| == 18 && i < 16
  {
    FirstCode(vo, i)
  }

  function MaxCode(vo: seq<int>, i: nat): int
    requires |vo| == 18 && i < 16
  {
    if vo[i + 1] == vo[i] then -1 else FirstCode(vo, i) + (vo[i + 1] - vo[i]) - 1
  }

  /** DECODE: read bits while the code is above MAXCODE of its length; then the
      symbol is HUFFVAL[VALPTR + CODE - MINCODE]. No symbol (`None`) after 16 bits. */
  function Decode(data: seq<byte>, t: HuffmanTable, s: BitState, i: nat, code: nat): (r: (Option<int>, BitState))
    requires WellFormed(t) && Monotone(t.valoffset) && Aligned(s) && i < 16
    requires code >= FirstCode(t.valoffset, i) / 2
    decreases 16 - i
  {
    var b := NextBit(data, s); var bit := b.0; var s1 := b.1;
    var c := code * 2 + bit;
    var vo := t.valoffset;
    if c <= MaxCode(vo, i) then
      DecodeIndex(vo, i, code, bit);
      (Some(t.huffval[vo[i] + c - MinCode(vo, i)]), s1)
    else if i == 15 then (None, s1)
    else
      DecodeNext(vo, i, code, bit);
      Decode(data, t, s1, i + 1, c)
  }

  lemma DecodeIndex(vo: seq<int>, i: nat, code: int, bit: int)
    requires ValidOffsets(vo) && Monotone(vo) && i < 16 && 0 <= bit < 2
    requires code >= FirstCode(vo, i) / 2 && code * 2 + bit <= MaxCode(vo, i)
    ensures vo[i] <= vo[i] + (code * 2 + bit) - MinCode(vo, i) < vo[i + 1]
  {
    FirstCodeEven(vo, i);
    FirstCodeBound(vo, i);
  }

  lemma FirstCodeEven(vo: seq<int>, i: nat)
    requires |vo| == 18 && i <= 16
    ensures FirstCode(vo, i) == 2 * (FirstCode(vo, i) / 2)
  {
  }

  lemma DecodeNext(vo: seq<int>, i: nat, code: int, bit: int)
    requires ValidOffsets(vo) && Monotone(vo) && i < 15 && 0 <= bit < 2
    requires code >= FirstCode(vo, i) / 2 && code * 2 + bit > MaxCode(vo, i)
    ensures code * 2 + bit >= FirstCode(vo, i + 1) / 2
  {
    FirstCodeEven(vo, i);
    FirstCodeEven(vo, i + 1);
  }

  /** On the canonical codes that `generate_codes` fills in, the linear search of
      `huff_decode` at one length finds exactly the code DECODE computes: a code
      inside [MINCODE, MAXCODE] is found at VALPTR + CODE - MINCODE, any other is
      not found. */
  lemma {:induction false} FindCodeCanonical(t: HuffmanTable, i: nat, code: int, j: int)
    requires WellFormed(t) && Monotone(t.valoffset) && i < 16
    requires forall k :: t.valoffset[i] <= k < t.valoffset[i + 1] ==>
               t.codes[k] == FirstCode(t.valoffset, i) + (k - t.valoffset[i])
    requires t.valoffset[i] <= j
    ensures var vo := t.valoffset;
      FindCode(t, i, code, j) ==
        if j - vo[i] <= code - FirstCode(vo, i) < vo[i + 1] - vo[i]
        then Some(vo[i] + code - FirstCode(vo, i)) else None
    decreases t.valoffset[i + 1] - j
  {
    if j < t.valoffset[i + 1] {
      FindCodeCanonical(t, i, code, j + 1);
    }
  }

  /** The codes of the lengths from g + 1 to 16 are those of Figure C.2:
      consecutive from FirstCode within each length. */
  predicate CanonicalFrom(t: HuffmanTable, g: nat)
    requires WellFormed(t)
    decreases 16 - g
  {
    g >= 16 ||
    ((forall k :: t.valoffset[g] <= k < t.valoffset[g + 1] ==>
        t.codes[k] == FirstCode(t.valoffset, g) + (k - t.valoffset[g]))
     && CanonicalFrom(t, g + 1))
  }

  lemma {:induction false} CanonicalEverywhere(t: HuffmanTable, g: nat)
    requires WellFormed(t)
    requires forall g, k :: 0 <= g < 16 && t.valoffset[g] <= k < t.valoffset[g + 1] ==>
               t.codes[k] == FirstCode(t.valoffset, g) + (k - t.valoffset[g])
    ensures CanonicalFrom(t, g)
    decreases 16 - g
  {
    if g < 16 {
      CanonicalEverywhere(t, g + 1);
    }
  }

  /** `huff_decode` on the tables `generate_codes` produced for counts that did
      not overflow agrees with T.81 DECODE: the same symbol after the same bits,
      and 0xFF exactly when DECODE finds no code of 16 bits or fewer. */
  lemma {:induction false} HuffDecodeIsDecode(data: seq<byte>, t: HuffmanTable, s: BitState, i: nat, code: nat)
    requires WellFormed(t) && Monotone(t.valoffset) && Aligned(s) && i < 16
    requires CanonicalFrom(t, i)
    requires code < Pow2(i) && code < 0x1_0000_0000 && code >= FirstCode(t.valoffset, i) / 2
    ensures AgreeAt(data, t, s, i, code)
    decreases 16 - i
  {
    var vo := t.valoffset;
    var b := NextBit(data, s);
    var c := code * 2 + b.0;
    CodeStep(vo, i, code, b.0);
    if c <= MaxCode(vo, i) || i == 15 {
      LastLength(data, t, s, i, code);
    } else {
      NextLength(data, t, s, i, code);
      DecodeNext(vo, i, code, b.0);
      HuffDecodeIsDecode(data, t, b.1, i + 1, c);
    }
  }

  /** `huff_decode` and DECODE agree from code length i + 1 on. */
  predicate AgreeAt(data: seq<byte>, t: HuffmanTable, s: BitState, i: nat, code: nat)
    requires WellFormed(t) && Monotone(t.valoffset) && Aligned(s) && i < 16
    requires code < 0x1_0000_0000 && code >= FirstCode(t.valoffset, i) / 2
  {
    var h := HuffDecodeFrom(data, t, s, i, code);
    var r := Decode(data, t, s, i, code);
    h.1 == r.1 && h.0 == (if r.0.Some? then r.0.value else 0xFF)
  }

  /** A code found at length i + 1, or no code after the 16th length. */
  lemma LastLength(data: seq<byte>, t: HuffmanTable, s: BitState, i: nat, code: nat)
    requires WellFormed(t) && Monotone(t.valoffset) && Aligned(s) && i < 16
    requires CanonicalFrom(t, i)
    requires code < 0x1_0000_0000 && code >= FirstCode(t.valoffset, i) / 2
    requires code * 2 + NextBit(data, s).0 < 0x1_0000_0000
    requires var c := code * 2 + NextBit(data, s).0;
      c >= MinCode(t.valoffset, i) && (c <= MaxCode(t.valoffset, i) || i == 15)
    ensures AgreeAt(data, t, s, i, code)
  {
    var b := NextBit(data, s);
    var c := code * 2 + b.0;
    if c <= MaxCode(t.valoffset, i) {
      DecodeIndex(t.valoffset, i, code, b.0);
      FoundAtLength(data, t, s, i, code);
    } else {
      NoCodeAtLength(data, t, s, i, code);
    }
  }

  /** A code inside [MINCODE, MAXCODE] of length i + 1: both return its symbol. */
  lemma FoundAtLength(data: seq<byte>, t: HuffmanTable, s: BitState, i: nat, code: nat)
    requires WellFormed(t) && Monotone(t.valoffset) && Aligned(s) && i < 16
    requires CanonicalFrom(t, i)
    requires code < 0x1_0000_0000 && code >= FirstCode(t.valoffset, i) / 2
    requires code * 2 + NextBit(data, s).0 < 0x1_0000_0000
    requires var c := code * 2 + NextBit(data, s).0;
      c >= MinCode(t.valoffset, i) && c <= MaxCode(t.valoffset, i)
      && t.valoffset[i] <= t.valoffset[i] + c - MinCode(t.valoffset, i) < t.valoffset[i + 1]
    ensures var b := NextBit(data, s);
      var j := t.valoffset[i] + code * 2 + b.0 - MinCode(t.valoffset, i);
      HuffDecodeFrom(data, t, s, i, code) == (t.huffval[j], b.1)
      && Decode(data, t, s, i, code) == (Some(t.huffval[j]), b.1)
  {
    var b := NextBit(data, s);
    var c := code * 2 + b.0;
    U32Small(c);
    LengthSearch(t, i, c);
    HuffDecodeStep(data, t, s, i, code);
  }

  /** No code of length i + 1: both go on to the next length with the same bits. */
  lemma NextLength(data: seq<byte>, t: HuffmanTable, s: BitState, i: nat, code: nat)
    requires WellFormed(t) && Monotone(t.valoffset) && Aligned(s) && i < 15
    requires CanonicalFrom(t, i)
    requires code < 0x1_0000_0000 && code >= FirstCode(t.valoffset, i) / 2
    requires code * 2 + NextBit(data, s).0 < 0x1_0000_0000
    requires var c := code * 2 + NextBit(data, s).0;
      c >= MinCode(t.valoffset, i) && c > MaxCode(t.valoffset, i)
    ensures var b := NextBit(data, s);
      var c := code * 2 + b.0;
      c >= FirstCode(t.valoffset, i + 1) / 2
      && HuffDecodeFrom(data, t, s, i, code) == HuffDecodeFrom(data, t, b.1, i + 1, c)
      && Decode(data, t, s, i, code) == Decode(data, t, b.1, i + 1, c)
  {
    var b := NextBit(data, s);
    DecodeNext(t.valoffset, i, code, b.0);
    NoCodeAtLength(data, t, s, i, code);
    DecodeGoesOn(data, t, s, i, code);
  }

  lemma DecodeGoesOn(data: seq<byte>, t: HuffmanTable, s: BitState, i: nat, code: nat)
    requires WellFormed(t) && Monotone(t.valoffset) && Aligned(s) && i < 15
    requires code >= FirstCode(t.valoffset, i) / 2
    requires code * 2 + NextBit(data, s).0 > MaxCode(t.valoffset, i)
    ensures var b := NextBit(data, s);
      var c := code * 2 + b.0;
      c >= FirstCode(t.valoffset, i + 1) / 2
      && Decode(data, t, s, i, code) == Decode(data, t, b.1, i + 1, c)
  {
    DecodeNext(t.valoffset, i, code, NextBit(data, s).0);
  }

  lemma NoCodeAtLength(data: seq<byte>, t: HuffmanTable, s: BitState, i: nat, code: nat)
    requires WellFormed(t) && Monotone(t.valoffset) && Aligned(s) && i < 16
    requires CanonicalFrom(t, i)
    requires code < 0x1_0000_0000
    requires code * 2 + NextBit(data, s).0 < 0x1_0000_0000
    requires var c := code * 2 + NextBit(data, s).0;
      c >= MinCode(t.valoffset, i) && c > MaxCode(t.valoffset, i)
    ensures var b := NextBit(data, s);
      HuffDecodeFrom(data, t, s, i, code) == HuffDecodeFrom(data, t, b.1, i + 1, code * 2 + b.0)
  {
    var b := NextBit(data, s);
    var c := code * 2 + b.0;
    U32Small(c);
    LengthSearch(t, i, c);
    HuffDecodeStep(data, t, s, i, code);
  }

  /** One code length of `huff_decode`. */
  lemma HuffDecodeStep(data: seq<byte>, t: HuffmanTable, s: BitState, i: nat, code: nat)
    requires WellFormed(t) && Aligned(s) && i < 16 && code < 0x1_0000_0000
    ensures var b := NextBit(data, s);
      var c := U32(code * 2 + b.0);
      var found := FindCode(t, i, c, t.valoffset[i]);
      HuffDecodeFrom(data, t, s, i, code) ==
        if found.Some? then (t.huffval[found.value], b.1) else HuffDecodeFrom(data, t, b.1, i + 1, c)
  {
  }

  /** Appending a bit to a code of i bits not below MINCODE / 2. */
  lemma CodeStep(vo: seq<int>, i: nat, code: int, bit: int)
    requires |vo| == 18 && i < 16 && 0 <= code < Pow2(i) && 0 <= bit < 2
    requires code >= FirstCode(vo, i) / 2
    ensures code * 2 + bit < Pow2(i + 1) && code * 2 + bit < 0x1_0000_0000
    ensures code * 2 + bit >= MinCode(vo, i)
  {
    Pow2Split(1, i, i + 1);
    Pow2Monotone(i + 1, 16);
    Pow2At16();
    FirstCodeEven(vo, i);
  }

  /** The search at one length on canonical codes is DECODE's test against
      MAXCODE: a code from MINCODE to MAXCODE is found at VALPTR + CODE - MINCODE. */
  lemma LengthSearch(t: HuffmanTable, i: nat, c: int)
    requires WellFormed(t) && Monotone(t.valoffset) && i < 16
    requires forall k :: t.valoffset[i] <= k < t.valoffset[i + 1] ==>
               t.codes[k] == FirstCode(t.valoffset, i) + (k - t.valoffset[i])
    requires c >= MinCode(t.valoffset, i)
    ensures var vo := t.valoffset;
      FindCode(t, i, c, vo[i]) == if c <= MaxCode(vo, i) then Some(vo[i] + c - MinCode(vo, i)) else None
  {
    FirstCodeBound(t.valoffset, i);
    FindCodeCanonical(t, i, c, t.valoffset[i]);
  }

  /** The same, started from the first bit of a code. */
  lemma HuffDecodeAgreesWithDecode(data: seq<byte>, t: HuffmanTable, s: BitState)
    requires WellFormed(t) && Monotone(t.valoffset) && Aligned(s)
    requires t == GenerateCodes(t)
    ensures var h := HuffDecodeFrom(data, t, s, 0, 0);
      var r := Decode(data, t, s, 0, 0);
      h.1 == r.1 && h.0 == (if r.0.Some? then r.0.value else 0xFF)
  {
    GeneratedCodesAreCanonical(t);
    CanonicalEverywhere(t, 0);
    HuffDecodeIsDecode(data, t, s, 0, 0);
  }

  /** The inner loop of `huff_decode`: the symbols of code length i + 1 are
      compared with `code` in order. */
  method SearchLength(t: HuffmanTable, i: nat, code: int) returns (r: Option<int>)
    requires WellFormed(t) && i < 16
    ensures r == FindCode(t, i, code, t.valoffset[i])
  {
    var j := t.valoffset[i];
    while j < t.valoffset[i + 1]
      invariant t.valoffset[i] <= j
      invariant FindCode(t, i, code, j) == FindCode(t, i, code, t.valoffset[i])
      decreases t.valoffset[i + 1] - j
    {
      if code == t.codes[j] {
        return Some(j);
      }
      j := j + 1;
    }
    r := None;
  }

  /** One code length of `huff_decode` after `get_num_bits(d, 1)` moved the
      reader from `s` to `s1` and returned `bit`. */
  lemma HuffDecodeBit(data: seq<byte>, t: HuffmanTable, s: BitState, i: nat, code: nat, bit: nat, s1: BitState)
    requires WellFormed(t) && Aligned(s) && i < 16 && code < 0x1_0000_0000 && (bit, s1) == GetBits(data, s, 1)
    ensures var f := FindCode(t, i, U32(code * 2 + bit), t.valoffset[i]);
      HuffDecodeFrom(data, t, s, i, code)
      == if f.Some? then (t.huffval[f.value], s1) else HuffDecodeFrom(data, t, s1, i + 1, U32(code * 2 + bit))
  {
    OneBit(data, s);
    HuffDecodeStep(data, t, s, i, code);
  }

  /** `get_num_bits(d, 1)` returns 0 or 1. */
  lemma OneBit(data: seq<byte>, s: BitState)
    requires Aligned(s)
    ensures GetBits(data, s, 1).0 < 2
  {
    GetNumBitsMeaning(data, s, 1);
  }

  /** `huff_decode`, reading one bit per code length through `get_num_bits`. */
  method HuffDecode(d: Decompressor, t: HuffmanTable) returns (sym: int)
    requires WellFormed(t) && Aligned(d.Bits())
    modifies d`pos, d`bitBuffer, d`bitsLeft
    ensures (sym, d.Bits()) == HuffDecodeFrom(d.data, t, old(d.Bits()), 0, 0)
  {
    var code: nat := 0;
    var i := 0;
    while i < 16
      invariant 0 <= i <= 16 && code < 0x1_0000_0000 && Aligned(d.Bits())
      invariant HuffDecodeFrom(d.data, t, d.Bits(), i, code) == HuffDecodeFrom(d.data, t, old(d.Bits()), 0, 0)
      decreases 16 - i
    {
      ghost var s0 := d.Bits();
      var bit := d.GetNumBits(1);
      HuffDecodeBit(d.data, t, s0, i, code, bit, d.Bits());
      code := U32(code * 2 + bit);
      var found := SearchLength(t, i, code);
      if found.Some? {
        return t.huffval[found.value];
      }
      i := i + 1;
    }
    sym := 0xFF;
  }

  // -------------------------------------------------------------------- EXTEND

  /** EXTEND (T.81 Figure F.12) as `decode_mcu` writes it: t bits below
      2^(t-1) stand for a negative coefficient. */
  function Extend(v: int, t: nat): int
  {
    if t != 0 && v < Pow2(t - 1) then v - (Pow2(t) - 1) else v
  }

  /** A coefficient of size category t (T.81 Table F.1): its magnitude lies in
      [2^(t-1), 2^t). */
  predicate InCategory(x: int, t: nat)
  {
    t >= 1 && ((Pow2(t - 1) <= x < Pow2(t)) || (-(Pow2(t) as int) < x <= -(Pow2(t - 1) as int)))
  }

  /** The encoder's side (T.81 section F.1.2.1): the t low bits appended for a
      coefficient, the coefficient minus one when it is negative. */
  function AmplitudeBits(x: int, t: nat): int
  {
    if x < 0 then x + Pow2(t) - 1 else x
  }

  /** EXTEND undoes the encoder: any t bits decode to a coefficient of category
      t whose appended bits they are. */
  lemma ExtendIsDecoding(v: int, t: nat)
    requires t >= 1 && 0 <= v < Pow2(t)
    ensures InCategory(Extend(v, t), t) && AmplitudeBits(Extend(v, t), t) == v
  {
    assert Pow2(t) == 2 * Pow2(t - 1);
  }

  /** ...and every coefficient of category t comes back from its bits. */
  lemma AmplitudeRoundTrip(x: int, t: nat)
    requires InCategory(x, t)
    ensures 0 <= AmplitudeBits(x, t) < Pow2(t) && Extend(AmplitudeBits(x, t), t) == x
  {
    assert Pow2(t) == 2 * Pow2(t - 1);
  }

  // ---------------------------------------------------------------- decode_mcu

  /** The zig-zag table as `decode_mcu` needs it: a reading order of the block
      whose first entry is the DC position. */
  predicate CoefficientOrder(zz: seq<int>)
  {
    IsBlockOrder(zz) && zz[0] == 0
  }

  lemma ZigZagIsCoefficientOrder()
    ensures CoefficientOrder(ZIGZAG_ORDER)
  {
    ZigZagIsBlockOrder();
  }

  function Zeros(n: nat): (r: seq<int>)
    ensures |r| == n && forall k :: 0 <= k < n ==> r[k] == 0
  {
    seq(n, _ => 0)
  }

  /** The AC loop of `decode_mcu` once the first |vals| zig-zag positions are
      written (`vals` holds their values in zig-zag order): EOB (0x00) zero-fills
      the rest, ZRL (0xF0) writes 16 zeros, another symbol writes its run of
      zeros and then, for a nonzero size, the dequantised coefficient. A missing
      code, a run reaching position 64 and a size above 10 give -1 (the zeros of
      the run are written before the size is checked). Returns the status, the
      values written and the bit state. */
  function AcCoefficients(data: seq<byte>, ac: HuffmanTable, q: seq<int>, zz: seq<int>, s: BitState, vals: seq<int>): (r: (int, seq<int>, BitState))
    requires WellFormed(ac) && |q| == 64 && IsBlockOrder(zz) && Aligned(s) && 1 <= |vals| <= 64
    ensures Aligned(r.2) && vals <= r.1 && |r.1| <= 64
    ensures r.0 == 0 || r.0 == -1
    ensures r.0 == 0 ==> |r.1| == 64
    ensures forall k :: |vals| <= k < |r.1| ==> -32768 <= r.1[k] < 32768
    decreases 64 - |vals|
  {
    if |vals| >= 64 then (0, vals, s)
    else
      var r := AcStep(data, ac, q, zz, s, vals);
      if r.0 == 1 then AcCoefficients(data, ac, q, zz, r.2, r.1) else r
  }

  /** One pass of the AC loop at zig-zag position |vals|; status 1 means that
      the loop goes on, with at least one more position written. */
  function AcStep(data: seq<byte>, ac: HuffmanTable, q: seq<int>, zz: seq<int>, s: BitState, vals: seq<int>): (r: (int, seq<int>, BitState))
    requires WellFormed(ac) && |q| == 64 && IsBlockOrder(zz) && Aligned(s) && 1 <= |vals| < 64
    ensures Aligned(r.2) && vals <= r.1 && |r.1| <= 64
    ensures -1 <= r.0 <= 1
    ensures r.0 == 0 ==> |r.1| == 64
    ensures r.0 == 1 ==> |r.1| > |vals|
    ensures forall k :: |vals| <= k < |r.1| ==> -32768 <= r.1[k] < 32768
  {
    var h := HuffDecodeFrom(data, ac, s, 0, 0);
    AcSymbol(data, q, zz, h.1, vals, h.0)
  }

  /** The pass once the symbol is decoded: 0xFF (no code) is an error, EOB
      (0x00) zero-fills the rest, ZRL (0xF0) writes 16 zeros, another symbol
      writes its run of zeros (high nibble) and, for a nonzero size (low nibble),
      the coefficient. A run reaching position 64 and a size above 10 are
      errors; the zeros of the run are written before the size is checked. */
  function AcSymbol(data: seq<byte>, q: seq<int>, zz: seq<int>, s: BitState, vals: seq<int>, sym: int): (r: (int, seq<int>, BitState))
    requires |q| == 64 && IsBlockOrder(zz) && Aligned(s) && 1 <= |vals| < 64 && 0 <= sym < 256
    ensures Aligned(r.2) && vals <= r.1 && |r.1| <= 64
    ensures -1 <= r.0 <= 1
    ensures r.0 == 0 ==> |r.1| == 64
    ensures r.0 == 1 ==> |r.1| > |vals|
    ensures forall k :: |vals| <= k < |r.1| ==> -32768 <= r.1[k] < 32768
  {
    var i := |vals|;
    if sym == 0xFF then (-1, vals, s)
    else if sym == 0 then (0, vals + Zeros(64 - i), s)
    else
      var zeros := if sym == 0xF0 then 16 else HighNibble(sym);
      var size := LowNibble(sym);
      if i + zeros >= 64 then (-1, vals, s)
      else
        var vals1 := vals + Zeros(zeros);
        if size > 10 then (-1, vals1, s)
        else if size == 0 then
          NibblesRecombine(sym);
          (1, vals1, s)
        else
          var g := AcValue(data, s, size, q[zz[i + zeros]]);
          (1, vals1 + [g.0], g.1)
  }

  /** A coefficient of `size` bits, EXTENDed and dequantised by `qv` into a `short`. */
  function AcValue(data: seq<byte>, s: BitState, size: nat, qv: int): (r: (int, BitState))
    requires Aligned(s) && size <= 10
    ensures Aligned(r.1) && -32768 <= r.0 < 32768
  {
    var g := GetBits(data, s, size);
    (Int16(Extend(g.0, size) * qv), g.1)
  }

  /** The result of `decode_mcu`: its return value, the new `*previous_dc`, the
      values written (in zig-zag order; the first is the DC value) and the bit
      reader after it. */
  datatype BlockResult = BlockResult(status: int, dc: int, values: seq<int>, bits: BitState)

  /** The DC part of `decode_mcu`: whether a DC size of at most 11 was
      decoded, the new predictor (the `short` sum of the EXTENDed difference and
      the old predictor) and the bit state. */
  function DcValue(data: seq<byte>, dcT: HuffmanTable, s: BitState, prevDc: int): (r: (bool, int, BitState))
    requires WellFormed(dcT) && Aligned(s)
    ensures Aligned(r.2) && (r.0 ==> -32768 <= r.1 < 32768)
    ensures !r.0 ==> r.1 == prevDc
  {
    var h := HuffDecodeFrom(data, dcT, s, 0, 0);
    if h.0 == 0xFF || h.0 > 11 then (false, prevDc, h.1)
    else
      var g := DcDifference(data, h.1, h.0, prevDc);
      (true, g.0, g.1)
  }

  function DcDifference(data: seq<byte>, s: BitState, t: nat, prevDc: int): (r: (int, BitState))
    requires Aligned(s) && t <= 11
    ensures Aligned(r.1) && -32768 <= r.0 < 32768
  {
    var g := GetBits(data, s, t);
    (Int16(Extend(g.0, t) + prevDc), g.1)
  }

  /** `decode_mcu` with the tables of the component chosen: the DC difference is
      EXTENDed and added to the predictor, the sum (a `short`) becomes the new
      predictor and is dequantised by `table[0]`; then the AC loop. A missing DC
      code and a DC size above 11 give -1 with the predictor unchanged. */
  function Coefficients(data: seq<byte>, dcT: HuffmanTable, acT: HuffmanTable, q: seq<int>, zz: seq<int>, s: BitState, prevDc: int): (r: BlockResult)
    requires WellFormed(dcT) && WellFormed(acT) && |q| == 64 && IsBlockOrder(zz) && Aligned(s)
    ensures Aligned(r.bits) && |r.values| <= 64
    ensures r.status == 0 || r.status == -1
    ensures r.status == 0 ==> |r.values| == 64 && r.values[0] == Int16(r.dc * q[0])
    ensures r.status != 0 ==> r.values == [] || r.values[0] == Int16(r.dc * q[0])
    ensures forall k :: 0 <= k < |r.values| ==> -32768 <= r.values[k] < 32768
  {
    var dc := DcValue(data, dcT, s, prevDc);
    if !dc.0 then BlockResult(-1, prevDc, [], dc.2)
    else
      var ac := AcCoefficients(data, acT, q, zz, dc.2, [Int16(dc.1 * q[0])]);
      BlockResult(ac.0, dc.1, ac.1, ac.2)
  }

  /** The block storage after writing vals[k] at base + zz[k], in order. */
  function Place(b: seq<int>, base: int, zz: seq<int>, vals: seq<int>): (r: seq<int>)
    requires IsBlockOrder(zz) && 0 <= base && base + 64 <= |b| && |vals| <= 64
    ensures |r| == |b|
    decreases |vals|
  {
    if |vals| == 0 then b
    else Place(b, base, zz, vals[..|vals| - 1])[base + zz[|vals| - 1] := vals[|vals| - 1]]
  }

  lemma PlaceAppend(b: seq<int>, base: int, zz: seq<int>, vals: seq<int>, x: int)
    requires IsBlockOrder(zz) && 0 <= base && base + 64 <= |b| && |vals| < 64
    ensures Place(b, base, zz, vals + [x]) == Place(b, base, zz, vals)[base + zz[|vals|] := x]
  {
    assert (vals + [x])[..|vals|] == vals;
  }

  /** Each value lands at its zig-zag position, and nothing outside the
      positions of the values written changes. */
  lemma {:induction false} PlaceEffect(b: seq<int>, base: int, zz: seq<int>, vals: seq<int>)
    requires IsBlockOrder(zz) && 0 <= base && base + 64 <= |b| && |vals| <= 64
    ensures forall k :: 0 <= k < |vals| ==> Place(b, base, zz, vals)[base + zz[k]] == vals[k]
    ensures forall p :: 0 <= p < |b| && (forall k :: 0 <= k < |vals| ==> p != base + zz[k]) ==>
              Place(b, base, zz, vals)[p] == b[p]
    decreases |vals|
  {
    if |vals| > 0 {
      var n := |vals| - 1;
      var init := vals[..n];
      PlaceEffect(b, base, zz, init);
      forall k | 0 <= k < |vals|
        ensures Place(b, base, zz, vals)[base + zz[k]] == vals[k]
      {
        if k < n {
          assert zz[k] != zz[n];
          assert init[k] == vals[k];
        }
      }
    }
  }

  /** With all 64 values placed through an order zz whose inverse is inv, block
      position q holds vals[inv[q]], and nothing outside the block changes. */
  lemma PlacedBlock(b: seq<int>, base: int, zz: seq<int>, inv: seq<int>, vals: seq<int>)
    requires IsBlockOrder(zz) && |inv| == 64 && forall q :: 0 <= q < 64 ==> 0 <= inv[q] < 64 && zz[inv[q]] == q
    requires 0 <= base && base + 64 <= |b| && |vals| == 64
    ensures forall q :: 0 <= q < 64 ==> Place(b, base, zz, vals)[base + q] == vals[inv[q]]
    ensures forall p :: 0 <= p < |b| && !(base <= p < base + 64) ==> Place(b, base, zz, vals)[p] == b[p]
  {
    PlaceEffect(b, base, zz, vals);
    var r := Place(b, base, zz, vals);
    forall q | 0 <= q < 64
      ensures r[base + q] == vals[inv[q]]
    {
      assert r[base + zz[inv[q]]] == vals[inv[q]];
    }
  }

  /** A block decoded without error holds, at every position of the 8x8 block,
      exactly the coefficient the zig-zag sequence puts there: every position is
      written, each by one value. */
  lemma DecodedBlockIsUnzigzag(b: seq<int>, base: int, vals: seq<int>)
    requires 0 <= base && base + 64 <= |b| && |vals| == 64
    ensures (ZigZagIsBlockOrder(); Place(b, base, ZIGZAG_ORDER, vals)[base..base + 64] == Unzigzag(vals))
    ensures (ZigZagIsBlockOrder(); forall p :: 0 <= p < |b| && !(base <= p < base + 64) ==> Place(b, base, ZIGZAG_ORDER, vals)[p] == b[p])
  {
    ZigZagIsBlockOrder();
    ZigZagInverseUndoes();
    PlacedBlock(b, base, ZIGZAG_ORDER, ZigZagInverse, vals);
  }

  /** `buffer[ZIGZAG_ORDER[i++]] = 0`, n times from position |vals|. */
  method WriteZeros(buf: array<int>, base: int, zz: seq<int>, i: int, n: int, ghost b0: seq<int>, ghost vals: seq<int>)
    returns (i2: int, ghost vals2: seq<int>)
    requires IsBlockOrder(zz) && 0 <= base && base + 64 <= buf.Length && |b0| == buf.Length
    requires i == |vals| && 0 <= n && i + n <= 64 && buf[..] == Place(b0, base, zz, vals)
    modifies buf
    ensures i2 == i + n && vals2 == vals + Zeros(n) && buf[..] == Place(b0, base, zz, vals2)
  {
    vals2 := vals;
    i2 := i;
    var j := 0;
    while j < n
      invariant 0 <= j <= n && i2 == i + j && vals2 == vals + Zeros(j)
      invariant buf[..] == Place(b0, base, zz, vals2)
      decreases n - j
    {
      PlaceAppend(b0, base, zz, vals2, 0);
      buf[base + zz[i2]] := 0;
      vals2 := vals2 + [0];
      i2 := i2 + 1;
      j := j + 1;
    }
  }

  /** One pass of the AC loop of `decode_mcu`, writing at position i = |vals|. */
  method DecodeAcStep(d: Decompressor, acT: HuffmanTable, q: seq<int>, zz: seq<int>, buf: array<int>, base: int,
                      i: int, ghost b0: seq<int>, ghost vals: seq<int>) returns (status: int, i2: int, ghost vals2: seq<int>)
    requires WellFormed(acT) && |q| == 64 && IsBlockOrder(zz) && Aligned(d.Bits())
    requires 0 <= base && base + 64 <= buf.Length && |b0| == buf.Length
    requires 1 <= i < 64 && |vals| == i && buf[..] == Place(b0, base, zz, vals)
    modifies d`pos, d`bitBuffer, d`bitsLeft, buf
    ensures var r := AcStep(d.data, acT, q, zz, old(d.Bits()), vals);
      status == r.0 && vals2 == r.1 && i2 == |vals2| && d.Bits() == r.2
      && buf[..] == Place(b0, base, zz, vals2)
  {
    var sym := HuffDecode(d, acT);
    status, i2, vals2 := ApplyAcSymbol(d, q, zz, buf, base, i, b0, vals, sym);
  }

  method ApplyAcSymbol(d: Decompressor, q: seq<int>, zz: seq<int>, buf: array<int>, base: int,
                       i: int, ghost b0: seq<int>, ghost vals: seq<int>, sym: int) returns (status: int, i2: int, ghost vals2: seq<int>)
    requires |q| == 64 && IsBlockOrder(zz) && Aligned(d.Bits()) && 0 <= sym < 256
    requires 0 <= base && base + 64 <= buf.Length && |b0| == buf.Length
    requires 1 <= i < 64 && |vals| == i && buf[..] == Place(b0, base, zz, vals)
    modifies d`pos, d`bitBuffer, d`bitsLeft, buf
    ensures var r := AcSymbol(d.data, q, zz, old(d.Bits()), vals, sym);
      status == r.0 && vals2 == r.1 && i2 == |vals2| && d.Bits() == r.2
      && buf[..] == Place(b0, base, zz, vals2)
  {
    vals2 := vals;
    i2 := i;
    if sym == 0xFF {
      status := -1;
      return;
    }
    if sym == 0 {
      i2, vals2 := WriteZeros(buf, base, zz, i, 64 - i, b0, vals);
      status := 0;
      return;
    }
    var zeros := HighNibble(sym);
    var size := LowNibble(sym);
    if sym == 0xF0 {
      zeros := 16;
    }
    if i + zeros >= 64 {
      status := -1;
      return;
    }
    i2, vals2 := WriteZeros(buf, base, zz, i, zeros, b0, vals);
    if size > 10 {
      status := -1;
      return;
    }
    if size != 0 {
      var coeff := ReceiveAc(d, size, q[zz[i2]]);
      PlaceAppend(b0, base, zz, vals2, coeff);
      buf[base + zz[i2]] := coeff;
      vals2 := vals2 + [coeff];
      i2 := i2 + 1;
    } else {
      NibblesRecombine(sym);
    }
    status := 1;
  }

  /** `get_num_bits`, EXTEND and the dequantising store of one AC coefficient. */
  method ReceiveAc(d: Decompressor, size: nat, qv: int) returns (coeff: int)
    requires Aligned(d.Bits()) && size <= 10
    modifies d`pos, d`bitBuffer, d`bitsLeft
    ensures (coeff, d.Bits()) == AcValue(d.data, old(d.Bits()), size, qv)
  {
    var v := d.GetNumBits(size);
    coeff := Int16(Extend(v, size) * qv);
  }

  /** The AC loop of `decode_mcu`, from position 1. */
  method DecodeAc(d: Decompressor, acT: HuffmanTable, q: seq<int>, zz: seq<int>, buf: array<int>, base: int,
                  ghost b0: seq<int>, ghost vals0: seq<int>) returns (status: int, ghost vals: seq<int>)
    requires WellFormed(acT) && |q| == 64 && IsBlockOrder(zz) && Aligned(d.Bits())
    requires 0 <= base && base + 64 <= buf.Length && |b0| == buf.Length
    requires |vals0| == 1 && buf[..] == Place(b0, base, zz, vals0)
    modifies d`pos, d`bitBuffer, d`bitsLeft, buf
    ensures var r := AcCoefficients(d.data, acT, q, zz, old(d.Bits()), vals0);
      status == r.0 && vals == r.1 && d.Bits() == r.2 && buf[..] == Place(b0, base, zz, vals)
  {
    vals := vals0;
    var i := 1;
    while i < 64
      invariant 1 <= i <= 64 && |vals| == i && Aligned(d.Bits())
      invariant buf[..] == Place(b0, base, zz, vals)
      invariant AcCoefficients(d.data, acT, q, zz, d.Bits(), vals) == AcCoefficients(d.data, acT, q, zz, old(d.Bits()), vals0)
      decreases 64 - i
    {
      var st;
      st, i, vals := DecodeAcStep(d, acT, q, zz, buf, base, i, b0, vals);
      if st != 1 {
        status := st;
        return;
      }
    }
    status := 0;
  }

  /** The DC part of `decode_mcu`. */
  method DecodeDc(d: Decompressor, dcT: HuffmanTable, prevDc: int) returns (ok: bool, dc: int)
    requires WellFormed(dcT) && Aligned(d.Bits())
    modifies d`pos, d`bitBuffer, d`bitsLeft
    ensures (ok, dc, d.Bits()) == DcValue(d.data, dcT, old(d.Bits()), prevDc)
  {
    var sym := HuffDecode(d, dcT);
    if sym == 0xFF || sym > 11 {
      return false, prevDc;
    }
    dc := ReceiveDc(d, sym, prevDc);
    ok := true;
  }

  method ReceiveDc(d: Decompressor, t: nat, prevDc: int) returns (dc: int)
    requires Aligned(d.Bits()) && t <= 11
    modifies d`pos, d`bitBuffer, d`bitsLeft
    ensures (dc, d.Bits()) == DcDifference(d.data, old(d.Bits()), t, prevDc)
  {
    var v := d.GetNumBits(t);
    dc := Int16(Extend(v, t) + prevDc);
  }

  /** The shared body of both `decode_mcu`s once the tables are chosen,
      writing the block at `buf[base..base + 64]`. */
  method DecodeCoefficients(d: Decompressor, dcT: HuffmanTable, acT: HuffmanTable, q: seq<int>, zz: seq<int>,
                            buf: array<int>, base: int, prevDc: int) returns (status: int, dc: int)
    requires WellFormed(dcT) && WellFormed(acT) && |q| == 64 && CoefficientOrder(zz) && Aligned(d.Bits())
    requires 0 <= base && base + 64 <= buf.Length
    modifies d`pos, d`bitBuffer, d`bitsLeft, buf
    ensures var r := Coefficients(d.data, dcT, acT, q, zz, old(d.Bits()), prevDc);
      status == r.status && dc == r.dc && d.Bits() == r.bits
      && buf[..] == Place(old(buf[..]), base, zz, r.values)
  {
    ghost var b0 := buf[..];
    var ok;
    ok, dc := DecodeDc(d, dcT, prevDc);
    if !ok {
      return -1, dc;
    }
    buf[base] := Int16(dc * q[0]);
    PlaceAppend(b0, base, zz, [], buf[base]);
    ghost var vals;
    status, vals := DecodeAc(d, acT, q, zz, buf, base, b0, [buf[base]]);
  }

  /** `decode_mcu` of the CPU decoder, which indexes the tables without checking
      the ids: they must name existing tables. */
  method CpuDecodeMcu(d: Decompressor, info: Info, ci: int, buf: array<int>, base: int, prevDc: int) returns (status: int, dc: int)
    requires WellFormedInfo(info) && 0 <= ci < MAX_COMPONENTS && Aligned(d.Bits())
    requires info.components[ci].quantId < MAX_QUANT_TABLES
    requires info.components[ci].dcId < MAX_HUFFMAN_TABLES && info.components[ci].acId < MAX_HUFFMAN_TABLES
    requires 0 <= base && base + 64 <= buf.Length
    modifies d`pos, d`bitBuffer, d`bitsLeft, buf
    ensures var c := info.components[ci];
      (ZigZagIsBlockOrder();
       var r := Coefficients(d.data, info.dc[c.dcId], info.ac[c.acId], info.quant[c.quantId].table, ZIGZAG_ORDER, old(d.Bits()), prevDc);
       status == r.status && dc == r.dc && d.Bits() == r.bits
       && buf[..] == Place(old(buf[..]), base, ZIGZAG_ORDER, r.values))
  {
    var c := info.components[ci];
    ZigZagIsCoefficientOrder();
    status, dc := DecodeCoefficients(d, info.dc[c.dcId], info.ac[c.acId], info.quant[c.quantId].table, ZIGZAG_ORDER, buf, base, prevDc);
  }

  /** `decode_mcu` of the DPU decoder: -2 for a quantisation table id of 4 or
      more and -3 for a DC or AC table id of 2 or more, before any bit is read. */
  function DpuBlock(info: Info, ci: int, data: seq<byte>, s: BitState, prevDc: int): (r: BlockResult)
    requires WellFormedInfo(info) && 0 <= ci < MAX_COMPONENTS && Aligned(s)
    ensures Aligned(r.bits)
  {
    var c := info.components[ci];
    if c.quantId >= MAX_QUANT_TABLES then BlockResult(-2, prevDc, [], s)
    else if c.dcId >= MAX_HUFFMAN_TABLES || c.acId >= MAX_HUFFMAN_TABLES then BlockResult(-3, prevDc, [], s)
    else
      ZigZagIsBlockOrder();
      Coefficients(data, info.dc[c.dcId], info.ac[c.acId], info.quant[c.quantId].table, ZIGZAG_ORDER, s, prevDc)
  }

  /** `decode_mcu` of the DPU decoder, writing the tasklet's `MCU_cache` row. */
  method DpuDecodeMcu(d: Decompressor, info: Info, ci: int, cache: array<int>, prevDc: int) returns (status: int, dc: int)
    requires WellFormedInfo(info) && 0 <= ci < MAX_COMPONENTS && Aligned(d.Bits()) && 64 <= cache.Length
    modifies d`pos, d`bitBuffer, d`bitsLeft, cache
    ensures var r := DpuBlock(info, ci, d.data, old(d.Bits()), prevDc);
      (ZigZagIsBlockOrder(); status == r.status && dc == r.dc && d.Bits() == r.bits
      && cache[..] == Place(old(cache[..]), 0, ZIGZAG_ORDER, r.values))
  {
    var index := info.components[ci].quantId;
    if index >= MAX_QUANT_TABLES {
      return -2, prevDc;
    }
    var q := info.quant[index].table;
    index := info.components[ci].dcId;
    if index >= MAX_HUFFMAN_TABLES {
      return -3, prevDc;
    }
    var dcT := info.dc[index];
    index := info.components[ci].acId;
    if index >= MAX_HUFFMAN_TABLES {
      return -3, prevDc;
    }
    var acT := info.ac[index];
    ZigZagIsCoefficientOrder();
    status, dc := DecodeCoefficients(d, dcT, acT, q, ZIGZAG_ORDER, cache, 0, prevDc);
  }

  /** The DPU's table checks: an id out of range is reported before anything
      is read or written, and a block decoded without error covers the 64
      positions; the CPU decoder and the DPU decoder agree on components whose
      ids are in range. */
  lemma DpuBlockMeaning(info: Info, ci: int, data: seq<byte>, s: BitState, prevDc: int)
    requires WellFormedInfo(info) && 0 <= ci < MAX_COMPONENTS && Aligned(s)
    ensures var c := info.components[ci];
      var r := DpuBlock(info, ci, data, s, prevDc);
      (r.status == -2 <==> c.quantId >= MAX_QUANT_TABLES)
      && (r.status == -3 <==> c.quantId < MAX_QUANT_TABLES && (c.dcId >= MAX_HUFFMAN_TABLES || c.acId >= MAX_HUFFMAN_TABLES))
      && (r.status == -2 || r.status == -3 ==> r.bits == s && r.values == [] && r.dc == prevDc)
      && (r.status == 0 ==> |r.values| == 64)
  {
  }
}
