/** What each marker-segment parser of the decoder does, as functions of the
    picture description before the segment, the file bytes and the position
    of the segment's length field (ITU-T T.81 section B.2). The parser class
    in module Parser is proved to follow them. */
module Segments {
  import opened Bytes
  import opened Markers
  import opened Stream
  import opened ZigZag
  import opened Huffman
  import opened JpegInfo

  /** The status a parser reports, the picture description after it and the
      position of the cursor after it. */
  datatype Outcome = Outcome(status: Status, info: Info, pos: int)

  // ---------------------------------------------------------------- DQT

  /** Value i of a quantisation table whose values start at p: one byte
      (Pq = 0) or a big-endian 16-bit value (any other Pq). */
  function QuantValue(data: seq<byte>, p: int, precision: int, i: int): (r: int)
    ensures 0 <= r < 65536
  {
    if precision == 0 then ByteAt(data, p + i) else ShortAt(data, p + 2 * i)
  }

  function QuantValues(data: seq<byte>, p: int, precision: int): (r: seq<int>)
    ensures |r| == 64 && forall i :: 0 <= i < 64 ==> r[i] == QuantValue(data, p, precision, i)
  {
    seq(64, i => QuantValue(data, p, precision, i))
  }

  /** The stores `table[zz[i]] = values[i]` for i from `i` to 63, with zz a
      reading order of the block. */
  function ScatterFrom(zz: seq<int>, table: seq<int>, values: seq<int>, i: nat): (r: seq<int>)
    requires IsBlockOrder(zz) && |table| == 64 && |values| == 64 && i <= 64
    ensures |r| == 64
    decreases 64 - i
  {
    if i == 64 then table
    else ScatterFrom(zz, table[zz[i] := values[i]], values, i + 1)
  }

  /** The table after reading one DQT table: values in zig-zag order, stored
      at their row-major positions. */
  function Scatter(table: seq<int>, values: seq<int>): (r: seq<int>)
    requires |table| == 64 && |values| == 64
    ensures |r| == 64
  {
    ZigZagIsBlockOrder();
    ScatterFrom(ZIGZAG_ORDER, table, values, 0)
  }

  lemma {:induction false} ScatterFromEffect(zz: seq<int>, table: seq<int>, values: seq<int>, i: nat)
    requires IsBlockOrder(zz) && |table| == 64 && |values| == 64 && i <= 64
    ensures forall k :: i <= k < 64 ==> ScatterFrom(zz, table, values, i)[zz[k]] == values[k]
    ensures forall q :: 0 <= q < 64 && (forall k :: i <= k < 64 ==> zz[k] != q) ==>
              ScatterFrom(zz, table, values, i)[q] == table[q]
    decreases 64 - i
  {
    if i < 64 {
      var t := table[zz[i] := values[i]];
      ScatterFromEffect(zz, t, values, i + 1);
    }
  }

  lemma ScatterByInverse(zz: seq<int>, inv: seq<int>, table: seq<int>, values: seq<int>)
    requires IsBlockOrder(zz) && |table| == 64 && |values| == 64
    requires |inv| == 64 && forall q :: 0 <= q < 64 ==> 0 <= inv[q] < 64 && zz[inv[q]] == q
    ensures forall k :: 0 <= k < 64 ==> ScatterFrom(zz, table, values, 0)[zz[k]] == values[k]
    ensures ScatterFrom(zz, table, values, 0) == seq(64, q requires 0 <= q < 64 => values[inv[q]])
  {
    ScatterFromEffect(zz, table, values, 0);
    var r := ScatterFrom(zz, table, values, 0);
    forall q | 0 <= q < 64
      ensures r[q] == values[inv[q]]
    {
      assert r[zz[inv[q]]] == values[inv[q]];
    }
  }

  /** Value i of a DQT table lands at block position ZIGZAG_ORDER[i] (T.81
      section A.3.6), so the stored table is the values in row-major order
      and nothing of the previous contents survives. */
  lemma ScatterPlacesInZigZagOrder(table: seq<int>, values: seq<int>)
    requires |table| == 64 && |values| == 64
    ensures InZigZagOrder(Scatter(table, values), values)
    ensures Scatter(table, values) == Unzigzag(values)
  {
    ZigZagIsBlockOrder();
    ZigZagInverseUndoes();
    ScatterByInverse(ZIGZAG_ORDER, ZigZagInverse, table, values);
  }

  /** `read_and_form_DQT` at p (the Pq/Tq byte): the status, the description
      after it and the number of bytes it consumed. */
  function DqtTable(variant: Variant, info: Info, data: seq<byte>, p: int): (r: (Outcome, int))
    requires WellFormedInfo(info)
  {
    var pqTq := ByteAt(data, p);
    var id := LowNibble(pqTq);
    if id > 3 then (Outcome(JpegInvalid, Fail(variant, info), p + 1), 1)
    else
      var precision := HighNibble(pqTq);
      var n := if precision == 0 then 64 else 128;
      var table := Scatter(info.quant[id].table, QuantValues(data, p + 1, precision));
      (Outcome(JpegValid, info.(quant := info.quant[id := QuantTable(true, table)]), p + 1 + n), 1 + n)
  }

  /** The loop of `process_DQT` with `length` bytes of the segment left. */
  function DqtTables(variant: Variant, info: Info, data: seq<byte>, p: int, length: int): (r: Outcome)
    requires WellFormedInfo(info)
    ensures WellFormedInfo(r.info)
    decreases if length > 0 then length else 0
  {
    if length <= 0 then
      if length != 0 then Outcome(JpegInvalid, Fail(variant, info), p) else Outcome(JpegValid, info, p)
    else
      var (t, n) := DqtTable(variant, info, data, p);
      if t.status == JpegInvalid then t
      else
        DqtTableKeeps(variant, info, data, p);
        DqtTables(variant, t.info, data, t.pos, length - n)
  }

  /** `process_DQT` with the cursor at the Lq field. */
  function Dqt(variant: Variant, info: Info, data: seq<byte>, p: int): (r: Outcome)
    requires WellFormedInfo(info)
    ensures WellFormedInfo(r.info)
  {
    DqtTables(variant, info, data, p + 2, ShortAt(data, p) - 2)
  }

  lemma DqtTableKeeps(variant: Variant, info: Info, data: seq<byte>, p: int)
    requires WellFormedInfo(info)
    ensures var (t, n) := DqtTable(variant, info, data, p);
      WellFormedInfo(t.info) && t.pos == p + n && OnlyQuantChanged(info, t.info)
      && (t.status == JpegValid ==> n == 65 || n == 129)
      && (t.status == JpegValid ==> t.info.valid == info.valid)
      && (t.status == JpegInvalid ==> t.info.valid == (info.valid && variant != Cpu))
  {
    var pqTq := ByteAt(data, p);
    var id := LowNibble(pqTq);
    if id <= 3 {
      var precision := HighNibble(pqTq);
      var vals := QuantValues(data, p + 1, precision);
      var table := Scatter(info.quant[id].table, vals);
      ScatterPlacesInZigZagOrder(info.quant[id].table, vals);
      ZigZagInverseUndoes();
      assert QuantWellFormed(QuantTable(true, table));
    }
  }

  /** The picture description outside the quantisation tables and the
      validity flag is left alone. */
  predicate OnlyQuantChanged(before: Info, after: Info)
  {
    after == before.(quant := after.quant, valid := after.valid)
  }

  lemma OnlyQuantChangedTwice(a: Info, b: Info, c: Info)
    requires OnlyQuantChanged(a, b) && OnlyQuantChanged(b, c)
    ensures OnlyQuantChanged(a, c)
  {
  }

  lemma {:induction false} DqtTablesEffect(variant: Variant, info: Info, data: seq<byte>, p: int, length: int)
    requires WellFormedInfo(info)
    ensures var r := DqtTables(variant, info, data, p, length);
      WellFormedInfo(r.info) && OnlyQuantChanged(info, r.info)
      && (r.status == JpegValid ==> r.pos == p + length && r.info.valid == info.valid)
      && (r.status == JpegInvalid ==> r.info.valid == (info.valid && variant != Cpu))
      && r.pos >= p
    decreases if length > 0 then length else 0
  {
    if length > 0 {
      DqtTableKeeps(variant, info, data, p);
      var tn := DqtTable(variant, info, data, p);
      var t := tn.0;
      if t.status == JpegValid {
        DqtTablesEffect(variant, t.info, data, t.pos, length - tn.1);
        OnlyQuantChangedTwice(info, t.info, DqtTables(variant, t.info, data, t.pos, length - tn.1).info);
      }
    }
  }

  /** DQT (T.81 section B.2.4.1): a segment the parser accepts is consumed
      exactly (Lq bytes from the length field on), only the quantisation tables
      change, and a rejected segment clears the validity flag in the CPU parser
      and leaves it to the caller in the DPU parsers. */
  lemma DqtAccounting(variant: Variant, info: Info, data: seq<byte>, p: int)
    requires WellFormedInfo(info)
    ensures var r := Dqt(variant, info, data, p);
      WellFormedInfo(r.info) && OnlyQuantChanged(info, r.info)
      && (r.status == JpegValid ==> r.pos == p + ShortAt(data, p) && r.info.valid == info.valid)
      && (r.status == JpegInvalid ==> r.info.valid == (info.valid && variant != Cpu))
      && r.pos > p
  {
    DqtTablesEffect(variant, info, data, p + 2, ShortAt(data, p) - 2);
  }

  /** One DQT table: Tq above 3 is rejected right after the Pq/Tq byte;
      otherwise table Tq is marked present and holds the 64 values (bytes for
      Pq = 0, 16-bit values otherwise) at their zig-zag positions, and the
      table took 65 or 129 bytes. */
  lemma DqtTableMeaning(variant: Variant, info: Info, data: seq<byte>, p: int)
    requires WellFormedInfo(info)
    ensures var (t, n) := DqtTable(variant, info, data, p);
      var id := LowNibble(ByteAt(data, p));
      var precision := HighNibble(ByteAt(data, p));
      (t.status == JpegInvalid <==> id > 3)
      && (id > 3 ==> t.pos == p + 1 && t.info == Fail(variant, info))
      && (id <= 3 ==>
            n == (if precision == 0 then 65 else 129)
            && t.info.quant[id].present
            && InZigZagOrder(t.info.quant[id].table, QuantValues(data, p + 1, precision))
            && (forall j :: 0 <= j < 4 && j != id ==> t.info.quant[j] == info.quant[j]))
  {
    var id := LowNibble(ByteAt(data, p));
    if id <= 3 {
      var precision := HighNibble(ByteAt(data, p));
      ScatterPlacesInZigZagOrder(info.quant[id].table, QuantValues(data, p + 1, precision));
    }
  }

  // ---------------------------------------------------------------- DRI

  /** `process_DRI` with the cursor at the Lr field. */
  function Dri(variant: Variant, info: Info, data: seq<byte>, p: int): Outcome
  {
    if ShortAt(data, p) != 4 then Outcome(JpegInvalid, Fail(variant, info), p + 2)
    else Outcome(JpegValid, info.(restartInterval := ShortAt(data, p + 2)), p + 4)
  }

  /** DRI (T.81 section B.2.4.4): accepted exactly when Lr is 4; then the
      restart interval is the next 16-bit value and 4 bytes are consumed;
      otherwise nothing but the CPU validity flag changes. */
  lemma DriMeaning(variant: Variant, info: Info, data: seq<byte>, p: int)
    ensures var r := Dri(variant, info, data, p);
      (r.status == JpegValid <==> ShortAt(data, p) == 4)
      && (r.status == JpegValid ==>
            r.pos == p + 4 && r.info == info.(restartInterval := BigEndian16(ByteAt(data, p + 2), ByteAt(data, p + 3))))
      && (r.status == JpegInvalid ==>
            r.info.restartInterval == info.restartInterval && r.info == Fail(variant, info))
  {
  }

  // ---------------------------------------------------------------- SOI

  /** `check_start_of_image`: the two bytes at p are read only when p is
      before the end; missing bytes count as 0. */
  function StartOfImage(data: seq<byte>, length: int, p: int): (Status, int)
  {
    var c1 := if p < length then ByteAt(data, p) else 0;
    var c2 := if p < length then ByteAt(data, p + 1) else 0;
    var q := if p < length then p + 2 else p;
    if c1 != 0xFF || c2 != SOI then (JpegInvalid, q) else (JpegValid, q)
  }

  /** The file starts with a JPEG exactly when its first two bytes are the SOI
      marker FF D8 (T.81 section B.2.1). */
  lemma StartOfImageMeaning(data: seq<byte>)
    ensures StartOfImage(data, |data|, 0).0 == JpegValid <==>
              |data| >= 2 && data[0] == 0xFF && data[1] == SOI
  {
  }

  // ---------------------------------------------------------------- components

  /** The `color_components` slot a component id selects and the greyscale
      flag after the selection, or None for a rejected id. The DPU marker
      parser accepts ids 1 to 3 only; the other two parsers treat id 0, or
      any id once the greyscale flag is set, as a greyscale component stored
      at slot `id`, with no upper bound. */
  function RouteComponent(variant: Variant, greyScale: bool, cid: byte): Option<(int, bool)>
  {
    if variant == DpuMarker then (if cid == 0 || cid > 3 then None else Some((cid - 1, greyScale)))
    else if cid == 0 || greyScale then Some((cid, true))
    else if cid <= 3 then Some((cid - 1, greyScale))
    else None
  }

  /** A rejected component id: the CPU parser and the split DPU parser clear
      the validity flag, the DPU marker parser only reports it. */
  function FailId(variant: Variant, info: Info): Info
  {
    if variant == DpuMarker then info else info.(valid := false)
  }

  /** The component record at a slot; slots past the array read as empty. */
  function ComponentAt(info: Info, slot: int): Component
    requires WellFormedInfo(info)
  {
    if 0 <= slot < MAX_COMPONENTS then info.components[slot] else EmptyComponent
  }

  /** Store a component record; a slot past the array is an overflow. */
  function PutComponent(info: Info, slot: int, c: Component): (r: Info)
    requires WellFormedInfo(info)
    ensures WellFormedInfo(r)
    ensures r == info.(components := r.components, overflow := r.overflow)
    ensures 0 <= slot < MAX_COMPONENTS ==> r.components[slot] == c && !(r.overflow && !info.overflow)
  {
    if 0 <= slot < MAX_COMPONENTS then info.(components := info.components[slot := c]) else info.(overflow := true)
  }

  // ---------------------------------------------------------------- SOF

  /** `read_SOF_metadata` at the P byte: height and width are stored before they
      are checked, and so is the component count. */
  function SofMetadata(variant: Variant, info: Info, data: seq<byte>, p: int): (r: Outcome)
    ensures r.info == info.(height := r.info.height, width := r.info.width, numComponents := r.info.numComponents, valid := r.info.valid)
    ensures r.status == JpegValid ==> r.info.valid == info.valid && 1 <= r.info.numComponents <= 3 && r.pos == p + 6
    ensures r.status == JpegInvalid && variant == Cpu ==> !r.info.valid
    ensures r.pos >= p
  {
    if ByteAt(data, p) != 8 then Outcome(JpegInvalid, Fail(variant, info), p + 1)
    else
      var info1 := info.(height := ShortAt(data, p + 1), width := ShortAt(data, p + 3));
      if info1.height == 0 || info1.width == 0 then Outcome(JpegInvalid, Fail(variant, info1), p + 5)
      else
        var info2 := info1.(numComponents := ByteAt(data, p + 5));
        if info2.numComponents == 0 || info2.numComponents > 3 then Outcome(JpegInvalid, Fail(variant, info2), p + 6)
        else Outcome(JpegValid, info2, p + 6)
  }

  /** The sampling factors a frame component may have: 1 or 2 for component 1
      (luminance), exactly 1 for every other component. */
  predicate FactorsAllowed(cid: int, h: int, v: int)
  {
    if cid == 1 then (h == 1 || h == 2) && (v == 1 || v == 2) else h == 1 && v == 1
  }

  /** A component descriptor changes the component records, the greyscale
      flag, the maximum factors, the overflow record and validity, nothing else. */
  predicate OnlyComponentsChanged(before: Info, after: Info)
  {
    after == before.(components := after.components, greyScale := after.greyScale, maxH := after.maxH,
                     maxV := after.maxV, overflow := after.overflow, valid := after.valid)
  }

  /** A frame component descriptor (Ci, Hi/Vi, Tqi at q) that the parser accepts. */
  predicate DescriptorAccepted(variant: Variant, data: seq<byte>, q: int, greyScale: bool)
  {
    var cid := ByteAt(data, q);
    (if variant == DpuMarker then 1 <= cid <= 3 else cid <= 3 || greyScale)
    && FactorsAllowed(cid, HighNibble(ByteAt(data, q + 1)), LowNibble(ByteAt(data, q + 1)))
  }

  /** `n` accepted descriptors of 3 bytes each from q on. */
  predicate DescriptorsAccepted(variant: Variant, data: seq<byte>, q: int, n: nat, greyScale: bool)
    decreases n
  {
    n == 0 || (DescriptorAccepted(variant, data, q, greyScale) && DescriptorsAccepted(variant, data, q + 3, n - 1, greyScale))
  }

  /** One more accepted descriptor in front, read with a greyscale flag set
      no earlier. */
  lemma DescriptorsConsLater(variant: Variant, data: seq<byte>, q: int, n: nat, g1: bool, g2: bool)
    requires n > 0 && DescriptorAccepted(variant, data, q, g1) && (g1 ==> g2) && DescriptorsAccepted(variant, data, q + 3, n - 1, g2)
    ensures DescriptorsAccepted(variant, data, q, n, g2)
  {
  }

  /** `read_SOF_color_component_info` at the Ci byte. The id, the presence
      flag and the factors are stored before the factors are checked; for
      component 1 the factors also become the maximum factors. */
  function SofComponent(variant: Variant, info: Info, data: seq<byte>, p: int): (r: Outcome)
    requires WellFormedInfo(info)
    ensures WellFormedInfo(r.info) && OnlyComponentsChanged(info, r.info) && r.info.numComponents == info.numComponents
    ensures info.greyScale ==> r.info.greyScale
    ensures r.status == JpegValid ==> r.info.valid == info.valid && r.pos == p + 3
    ensures r.status == JpegValid ==> DescriptorAccepted(variant, data, p, r.info.greyScale)
    ensures r.status == JpegInvalid && variant == Cpu ==> !r.info.valid
  {
    var cid := ByteAt(data, p);
    var route := RouteComponent(variant, info.greyScale, cid);
    if route.None? then Outcome(JpegInvalid, FailId(variant, info), p + 1)
    else SofFactors(variant, info.(greyScale := route.value.1), route.value.0, cid, data, p + 1)
  }

  /** The rest of a frame component descriptor once component `cid` has been
      given its slot, at the Hi/Vi byte. */
  function SofFactors(variant: Variant, info: Info, slot: int, cid: byte, data: seq<byte>, p: int): (r: Outcome)
    requires WellFormedInfo(info)
    ensures WellFormedInfo(r.info) && OnlyComponentsChanged(info, r.info) && r.info.greyScale == info.greyScale
    ensures r.info.numComponents == info.numComponents
    ensures r.status == JpegValid ==> r.info.valid == info.valid && r.pos == p + 2
    ensures r.status == JpegInvalid && variant == Cpu ==> !r.info.valid
  {
    var factor := ByteAt(data, p);
    var h := HighNibble(factor);
    var v := LowNibble(factor);
    var c := ComponentAt(info, slot).(present := true, id := cid, h := h, v := v);
    var info1 := PutComponent(info, slot, c);
    if !FactorsAllowed(cid, h, v) then Outcome(JpegInvalid, Fail(variant, info1), p + 1)
    else
      var info2 := if cid == 1 then info1.(maxH := h, maxV := v) else info1;
      Outcome(JpegValid, PutComponent(info2, slot, c.(quantId := ByteAt(data, p + 1))), p + 2)
  }

  /** The component loop of `process_SOFn` from component i on. */
  function SofComponents(variant: Variant, info: Info, data: seq<byte>, p: int, i: nat): (r: Outcome)
    requires WellFormedInfo(info)
    ensures WellFormedInfo(r.info) && OnlyComponentsChanged(info, r.info) && r.info.numComponents == info.numComponents
    ensures info.greyScale ==> r.info.greyScale
    ensures r.status == JpegValid ==> r.info.valid == info.valid
    ensures r.status == JpegValid && i <= info.numComponents ==> r.pos == p + 3 * (info.numComponents - i)
    ensures r.status == JpegValid && i <= info.numComponents ==> DescriptorsAccepted(variant, data, p, info.numComponents - i, r.info.greyScale)
    ensures r.status == JpegInvalid && variant == Cpu ==> !r.info.valid
    ensures r.pos >= p
    decreases if i < info.numComponents then info.numComponents - i else 0
  {
    if i >= info.numComponents then Outcome(JpegValid, info, p)
    else
      var c := SofComponent(variant, info, data, p);
      if c.status == JpegInvalid then c
      else
        var r := SofComponents(variant, c.info, data, c.pos, i + 1);
        if r.status == JpegValid then DescriptorsConsLater(variant, data, p, info.numComponents - i, c.info.greyScale, r.info.greyScale); r
        else r
  }

  /** The number of tasklets of the DPU program (NR_TASKLETS, 16 unless the
      build overrides it). */
  const NR_TASKLETS: int := 16

  /** `initialize_MCU_height_width`: the block counts, rounded up to whole
      8x8 blocks and, with a maximum factor of 2, to an even count; the DPU
      parsers also divide the rows among the tasklets. */
  function McuGeometry(variant: Variant, info: Info): (r: Info)
    ensures r == info.(mcuHeight := r.mcuHeight, mcuWidth := r.mcuWidth, padding := r.padding,
                       mcuHeightReal := r.mcuHeightReal, mcuWidthReal := r.mcuWidthReal,
                       rowsPerTasklet := r.rowsPerTasklet)
  {
    var mh := (info.height + 7) / 8;
    var mw := (info.width + 7) / 8;
    var mhr := if info.maxV == 2 && mh % 2 == 1 then mh + 1 else mh;
    var mwr := if info.maxH == 2 && mw % 2 == 1 then mw + 1 else mw;
    var g := info.(mcuHeight := mh, mcuWidth := mw, padding := info.width % 4,
                   mcuHeightReal := mhr, mcuWidthReal := mwr);
    if variant == Cpu then g else g.(rowsPerTasklet := mhr / NR_TASKLETS)
  }

  /** The part of `process_SOFn` after the frame metadata: the component
      descriptors, the geometry and then the check of the segment length
      `length` against the component count. */
  function SofRest(variant: Variant, info: Info, data: seq<byte>, p: int, length: int): (r: Outcome)
    requires WellFormedInfo(info)
    ensures WellFormedInfo(r.info) && r.pos >= p
    ensures r.status == JpegInvalid && variant == Cpu ==> !r.info.valid
  {
    var c := SofComponents(variant, info, data, p, 0);
    if c.status == JpegInvalid then c
    else
      var g := McuGeometry(variant, c.info);
      if length - 8 - 3 * g.numComponents != 0 then Outcome(JpegInvalid, Fail(variant, g), c.pos)
      else Outcome(JpegValid, g, c.pos)
  }

  /** `process_SOFn` with the cursor at the Lf field. The length is checked
      last, after the components and the geometry have been stored. */
  function Sof(variant: Variant, info: Info, data: seq<byte>, p: int): (r: Outcome)
    requires WellFormedInfo(info)
    ensures WellFormedInfo(r.info) && r.pos >= p
    ensures r.status == JpegInvalid && variant == Cpu ==> !r.info.valid
  {
    if info.numComponents != 0 then Outcome(JpegInvalid, Fail(variant, info), p)
    else
      var m := SofMetadata(variant, info, data, p + 2);
      if m.status == JpegInvalid then m
      else SofRest(variant, m.info, data, m.pos, ShortAt(data, p))
  }

  /** The horizontal (or, with `vertical`, the vertical) sampling factor of
      the descriptor j of a frame whose descriptors start at q. */
  function FactorOf(data: seq<byte>, q: int, j: int, vertical: bool): (r: int)
    ensures 0 <= r < 16
  {
    var f := ByteAt(data, q + 3 * j + 1);
    if vertical then LowNibble(f) else HighNibble(f)
  }

  /** The maximum sampling factors evidently intended: the largest factor of
      the n descriptors from q on, whatever their ids (0 when n is 0). The
      parsers set `max_h_samp_factor` and `max_v_samp_factor` for id 1 only. */
  function IntendedMax(data: seq<byte>, q: int, n: int, vertical: bool): int
    decreases n
  {
    if n <= 0 then 0
    else
      var rest := IntendedMax(data, q + 3, n - 1, vertical);
      var f := FactorOf(data, q, 0, vertical);
      if f > rest then f else rest
  }

  /** Over accepted descriptors the intended maximum is 1 or 2 and no
      descriptor's factor exceeds it. */
  lemma {:induction false} IntendedMaxInRange(variant: Variant, data: seq<byte>, q: int, n: int, g: bool, vertical: bool)
    requires n >= 1 && forall j :: 0 <= j < n ==> DescriptorAccepted(variant, data, q + 3 * j, g)
    ensures 1 <= IntendedMax(data, q, n, vertical) <= 2
    ensures forall j :: 0 <= j < n ==> FactorOf(data, q, j, vertical) <= IntendedMax(data, q, n, vertical)
    decreases n
  {
    assert DescriptorAccepted(variant, data, q + 3 * 0, g);
    assert 1 <= FactorOf(data, q, 0, vertical) <= 2;
    if n > 1 {
      forall j | 0 <= j < n - 1
        ensures DescriptorAccepted(variant, data, (q + 3) + 3 * j, g)
      {
        assert (q + 3) + 3 * j == q + 3 * (j + 1);
      }
      IntendedMaxInRange(variant, data, q + 3, n - 1, g, vertical);
      forall j | 0 <= j < n
        ensures FactorOf(data, q, j, vertical) <= IntendedMax(data, q, n, vertical)
      {
        if j > 0 {
          assert FactorOf(data, q, j, vertical) == FactorOf(data, q + 3, j - 1, vertical);
        }
      }
    }
  }

  /** Rounding up to whole blocks: (x + 7) / 8 is the least n with 8n >= x. */
  lemma BlocksCover(x: int, n: int)
    requires x >= 0 && n == (x + 7) / 8
    ensures 8 * n >= x && (n == 0 || 8 * (n - 1) < x)
  {
  }

  /** The MCU geometry (T.81 section A.2): each plain count is the number of
      8-pixel blocks needed to cover the dimension; the `_real` count adds at
      most one block, is even when the maximum factor is 2 and equals the plain
      count otherwise; the BMP row padding is width mod 4; the DPU parsers give
      each tasklet mcu_height_real / NR_TASKLETS rows. */
  lemma McuGeometryMeaning(variant: Variant, info: Info)
    requires info.height >= 0 && info.width >= 0
    ensures var r := McuGeometry(variant, info);
      8 * r.mcuHeight >= info.height && (r.mcuHeight == 0 || 8 * (r.mcuHeight - 1) < info.height)
      && 8 * r.mcuWidth >= info.width && (r.mcuWidth == 0 || 8 * (r.mcuWidth - 1) < info.width)
      && 0 <= r.mcuHeightReal - r.mcuHeight <= 1 && 0 <= r.mcuWidthReal - r.mcuWidth <= 1
      && (info.maxV == 2 ==> r.mcuHeightReal % 2 == 0) && (info.maxV != 2 ==> r.mcuHeightReal == r.mcuHeight)
      && (info.maxH == 2 ==> r.mcuWidthReal % 2 == 0) && (info.maxH != 2 ==> r.mcuWidthReal == r.mcuWidth)
      && r.padding == info.width % 4
      && (variant != Cpu ==> NR_TASKLETS * r.rowsPerTasklet <= r.mcuHeightReal < NR_TASKLETS * (r.rowsPerTasklet + 1))
      && (variant == Cpu ==> r.rowsPerTasklet == info.rowsPerTasklet)
  {
    BlocksCover(info.height, (info.height + 7) / 8);
    BlocksCover(info.width, (info.width + 7) / 8);
  }

  lemma SofComponentAccepted(variant: Variant, info: Info, data: seq<byte>, p: int)
    requires WellFormedInfo(info)
    ensures var r := SofComponent(variant, info, data, p);
      (r.status == JpegValid ==> r.pos == p + 3 && DescriptorAccepted(variant, data, p, r.info.greyScale))
      && (r.status == JpegValid <==>
            RouteComponent(variant, info.greyScale, ByteAt(data, p)).Some?
            && FactorsAllowed(ByteAt(data, p), HighNibble(ByteAt(data, p + 1)), LowNibble(ByteAt(data, p + 1))))
  {
  }

  /** The recursive form read as a statement about every descriptor. */
  lemma {:induction false} DescriptorsAcceptedEach(variant: Variant, data: seq<byte>, q: int, n: nat, g: bool)
    requires DescriptorsAccepted(variant, data, q, n, g)
    ensures forall j :: 0 <= j < n ==> DescriptorAccepted(variant, data, q + 3 * j, g)
    decreases n
  {
    if n > 0 {
      DescriptorsAcceptedEach(variant, data, q + 3, n - 1, g);
      forall j | 0 <= j < n
        ensures DescriptorAccepted(variant, data, q + 3 * j, g)
      {
        if j > 0 {
          assert q + 3 * j == (q + 3) + 3 * (j - 1);
        }
      }
    }
  }

  /** After the metadata: an accepted rest of the frame header keeps the
      dimensions and the component count, accepted every descriptor, used 3
      bytes per component, matched the length field and set the geometry. */
  lemma SofRestAccepted(variant: Variant, info: Info, data: seq<byte>, p: int, length: int)
    requires WellFormedInfo(info) && 0 <= info.numComponents
    ensures var r := SofRest(variant, info, data, p, length);
      r.status == JpegValid ==>
        r.info.height == info.height && r.info.width == info.width && r.info.numComponents == info.numComponents
        && length == 8 + 3 * info.numComponents && r.pos == p + 3 * info.numComponents
        && (forall j :: 0 <= j < info.numComponents ==> DescriptorAccepted(variant, data, p + 3 * j, r.info.greyScale))
        && r.info.mcuHeight == (r.info.height + 7) / 8 && r.info.mcuWidth == (r.info.width + 7) / 8
        && r.info.valid == info.valid
  {
    var r := SofRest(variant, info, data, p, length);
    if r.status == JpegValid {
      DescriptorsAcceptedEach(variant, data, p, info.numComponents, r.info.greyScale);
    }
  }

  /** SOF0 (T.81 section B.2.2): a second frame header is rejected; an accepted
      one has P = 8, nonzero Y and X, 1 to 3 components whose ids and sampling
      factors are allowed, Lf = 8 + 3 Nf, and its geometry set. */
  lemma SofAccepted(variant: Variant, info: Info, data: seq<byte>, p: int)
    requires WellFormedInfo(info)
    ensures var r := Sof(variant, info, data, p);
      (info.numComponents != 0 ==> r.status == JpegInvalid && r.pos == p && r.info == Fail(variant, info))
      && (r.status == JpegValid ==>
            ByteAt(data, p + 2) == 8
            && r.info.height == ShortAt(data, p + 3) != 0 && r.info.width == ShortAt(data, p + 5) != 0
            && r.info.numComponents == ByteAt(data, p + 7) && 1 <= r.info.numComponents <= 3
            && ShortAt(data, p) == 8 + 3 * r.info.numComponents
            && r.pos == p + ShortAt(data, p)
            && (forall j :: 0 <= j < r.info.numComponents ==> DescriptorAccepted(variant, data, p + 8 + 3 * j, r.info.greyScale))
            && r.info.mcuHeight == (r.info.height + 7) / 8 && r.info.mcuWidth == (r.info.width + 7) / 8
            && r.info.valid == info.valid)
  {
    if info.numComponents == 0 {
      var m := SofMetadata(variant, info, data, p + 2);
      if m.status == JpegValid {
        SofRestAccepted(variant, m.info, data, m.pos, ShortAt(data, p));
      }
    }
  }

  // ---------------------------------------------------------------- DHT

  /** L1 + ... + Lk, the number of codes of length at most k, with the
      counts L1..L16 at p. */
  function CountsTotal(data: seq<byte>, p: int, k: nat): (r: nat)
    requires k <= 16
    ensures r <= 255 * k
  {
    if k == 0 then 0 else CountsTotal(data, p, k - 1) + ByteAt(data, p + k - 1)
  }

  /** valoffset after `read_DHT`: 0, then the running totals stored into
      `uint8_t` slots; slot 17 is not written. */
  function LoadedOffsets(prev: seq<int>, data: seq<byte>, p: int): (r: seq<int>)
    requires ValidOffsets(prev)
    ensures ValidOffsets(r)
  {
    seq(18, k requires 0 <= k < 18 => if k == 0 then 0 else if k <= 16 then U8(CountsTotal(data, p, k)) else prev[17])
  }

  /** huffval after `read_DHT`: the first `total` slots receive the symbols at p
      (the writes past slot 255 are dropped). */
  function LoadedValues(prev: seq<int>, data: seq<byte>, p: int, total: int): (r: seq<int>)
    requires |prev| == 256 && forall k :: 0 <= k < 256 ==> 0 <= prev[k] < 256
    ensures |r| == 256 && forall k :: 0 <= k < 256 ==> 0 <= r[k] < 256
  {
    var r := seq(256, k requires 0 <= k < 256 => if k < total then ByteAt(data, p + k) else prev[k]);
    assert forall k :: 0 <= k < 256 ==> r[k] == (if k < total then ByteAt(data, p + k) else prev[k]);
    r
  }

  /** The table `read_DHT` fills: present, the new offsets and symbols, the
      old codes. */
  function LoadedTable(t: HuffmanTable, data: seq<byte>, p: int): (r: HuffmanTable)
    requires Huffman.WellFormed(t)
    ensures Huffman.WellFormed(r)
  {
    HuffmanTable(true, LoadedValues(t.huffval, data, p + 17, CountsTotal(data, p + 1, 16)),
                 LoadedOffsets(t.valoffset, data, p + 1), t.codes)
  }

  /** One `read_DHT` at the Tc/Th byte: the outcome and the number of bytes it
      subtracts from the remaining length. Th above 3 is rejected; Th of 2 or 3
      writes past the two tables of each class. */
  function DhtTable(variant: Variant, info: Info, data: seq<byte>, p: int): (r: (Outcome, int))
    requires WellFormedInfo(info)
    ensures WellFormedInfo(r.0.info)
  {
    var htInfo := ByteAt(data, p);
    var id := LowNibble(htInfo);
    var isAc := HighNibble(htInfo) != 0;
    if id > 3 then (Outcome(JpegInvalid, Fail(variant, info), p + 1), 1)
    else
      var total := CountsTotal(data, p + 1, 16);
      var stored :=
        if id >= MAX_HUFFMAN_TABLES then info.(overflow := true)
        else if isAc then info.(ac := info.ac[id := LoadedTable(info.ac[id], data, p)])
        else info.(dc := info.dc[id := LoadedTable(info.dc[id], data, p)]);
      var info1 := if total > 256 then stored.(overflow := true) else stored;
      (Outcome(JpegValid, info1, p + 17 + total), 17 + total)
  }

  /** The table loop of `process_DHT` over the remaining length. */
  function DhtTables(variant: Variant, info: Info, data: seq<byte>, p: int, length: int): (r: Outcome)
    requires WellFormedInfo(info)
    ensures WellFormedInfo(r.info)
    decreases if length > 0 then length else 0
  {
    if length <= 0 then
      if length != 0 then Outcome(JpegInvalid, Fail(variant, info), p) else Outcome(JpegValid, info, p)
    else
      var (t, n) := DhtTable(variant, info, data, p);
      if t.status == JpegInvalid then t else DhtTables(variant, t.info, data, t.pos, length - n)
  }

  /** `process_DHT` with the cursor at the Lh field. */
  function Dht(variant: Variant, info: Info, data: seq<byte>, p: int): (r: Outcome)
    requires WellFormedInfo(info)
    ensures WellFormedInfo(r.info)
  {
    DhtTables(variant, info, data, p + 2, ShortAt(data, p) - 2)
  }

  /** DHT changes the Huffman tables, the overflow record and validity only. */
  predicate OnlyTablesChanged(before: Info, after: Info)
  {
    after == before.(dc := after.dc, ac := after.ac, overflow := after.overflow, valid := after.valid)
  }

  lemma DhtTableKeeps(variant: Variant, info: Info, data: seq<byte>, p: int)
    requires WellFormedInfo(info)
    ensures var (t, n) := DhtTable(variant, info, data, p);
      OnlyTablesChanged(info, t.info) && t.pos == p + n && n >= 1
      && (t.status == JpegValid ==> t.info.valid == info.valid)
      && (t.status == JpegInvalid ==> t.info == Fail(variant, info))
  {
  }

  lemma {:induction false} DhtTablesEffect(variant: Variant, info: Info, data: seq<byte>, p: int, length: int)
    requires WellFormedInfo(info)
    ensures var r := DhtTables(variant, info, data, p, length);
      OnlyTablesChanged(info, r.info)
      && (r.status == JpegValid ==> r.pos == p + length && r.info.valid == info.valid)
      && (r.status == JpegInvalid ==> r.info.valid == (info.valid && variant != Cpu))
      && r.pos >= p
    decreases if length > 0 then length else 0
  {
    if length > 0 {
      var (t, n) := DhtTable(variant, info, data, p);
      DhtTableKeeps(variant, info, data, p);
      if t.status == JpegValid {
        DhtTablesEffect(variant, t.info, data, t.pos, length - n);
      }
    }
  }

  /** DHT (T.81 section B.2.4.2): an accepted segment is consumed exactly (Lh
      bytes from the length field on), only the Huffman tables change, and a
      rejected one clears the validity flag in the CPU parser only. */
  lemma DhtAccounting(variant: Variant, info: Info, data: seq<byte>, p: int)
    requires WellFormedInfo(info)
    ensures var r := Dht(variant, info, data, p);
      OnlyTablesChanged(info, r.info)
      && (r.status == JpegValid ==> r.pos == p + ShortAt(data, p) && r.info.valid == info.valid)
      && (r.status == JpegInvalid ==> r.info.valid == (info.valid && variant != Cpu))
      && r.pos > p
  {
    DhtTablesEffect(variant, info, data, p + 2, ShortAt(data, p) - 2);
  }

  /** The table `read_DHT` fills is present, holds the running totals of the
      counts (as `uint8_t`) and the symbols that follow them, and keeps its codes. */
  lemma LoadedTableMeaning(before: HuffmanTable, data: seq<byte>, p: int)
    requires Huffman.WellFormed(before)
    ensures var h := LoadedTable(before, data, p);
      var total := CountsTotal(data, p + 1, 16);
      h.present && h.valoffset[0] == 0 && h.codes == before.codes
      && (forall k :: 1 <= k <= 16 ==> h.valoffset[k] == CountsTotal(data, p + 1, k) % 256)
      && (forall k :: 0 <= k < total && k < 256 ==> h.huffval[k] == ByteAt(data, p + 17 + k))
  {
  }

  /** One `read_DHT`: a table id above 3 is the only error; otherwise the
      segment moves on by 17 bytes plus the code count, the addressed table is
      loaded and the other three are untouched. */
  lemma DhtTableMeaning(variant: Variant, info: Info, data: seq<byte>, p: int)
    requires WellFormedInfo(info)
    ensures var tn := DhtTable(variant, info, data, p);
      var t := tn.0;
      var id := LowNibble(ByteAt(data, p));
      var isAc := HighNibble(ByteAt(data, p)) != 0;
      var total := CountsTotal(data, p + 1, 16);
      (t.status == JpegInvalid <==> id > 3)
      && (id > 3 ==> t.pos == p + 1 && t.info == Fail(variant, info))
      && (id <= 3 ==> tn.1 == 17 + total && t.pos == p + tn.1)
      && (id < 2 ==>
            var h := if isAc then t.info.ac[id] else t.info.dc[id];
            var before := if isAc then info.ac[id] else info.dc[id];
            h == LoadedTable(before, data, p)
            && (forall j :: 0 <= j < 2 && j != id ==> t.info.dc[j] == info.dc[j] && t.info.ac[j] == info.ac[j])
            && (if isAc then t.info.dc == info.dc else t.info.ac == info.ac))
  {
  }

  lemma {:induction false} CountsTotalMonotone(data: seq<byte>, p: int, a: nat, b: nat)
    requires a <= b <= 16
    ensures CountsTotal(data, p, a) <= CountsTotal(data, p, b)
    decreases b - a
  {
    if a < b {
      CountsTotalMonotone(data, p, a, b - 1);
    }
  }

  /** When the code counts of a DHT table add up to less than 256, the loaded
      offsets are the exact running totals, never decrease, and so satisfy
      what the canonical code generation needs. */
  lemma LoadedOffsetsExact(prev: seq<int>, data: seq<byte>, p: int)
    requires ValidOffsets(prev) && CountsTotal(data, p, 16) < 256
    ensures var vo := LoadedOffsets(prev, data, p);
      Monotone(vo) && forall k :: 1 <= k <= 16 ==> vo[k] == CountsTotal(data, p, k)
  {
    var vo := LoadedOffsets(prev, data, p);
    forall k | 1 <= k <= 16
      ensures vo[k] == CountsTotal(data, p, k)
    {
      CountsTotalMonotone(data, p, k, 16);
    }
    forall i | 0 <= i < 16
      ensures vo[i] <= vo[i + 1]
    {
      CountsTotalMonotone(data, p, i, i + 1);
    }
  }

  // ---------------------------------------------------------------- SOS

  /** `read_SOS_color_component_info` at the Csj byte: the component is chosen
      as in the frame header and gets its DC and AC table ids. */
  function SosComponent(variant: Variant, info: Info, data: seq<byte>, p: int): (r: Outcome)
    requires WellFormedInfo(info)
    ensures WellFormedInfo(r.info) && OnlyComponentsChanged(info, r.info)
    ensures r.info.maxH == info.maxH && r.info.maxV == info.maxV
    ensures r.status == JpegValid ==> r.info.valid == info.valid
    ensures r.status == JpegInvalid && variant == Cpu ==> !r.info.valid
    ensures r.info.valid ==> info.valid
    ensures FrameKept(info, r.info) && r.info.dc == info.dc && r.info.ac == info.ac
    ensures r.status == JpegValid ==> r.pos == p + 2
  {
    var cid := ByteAt(data, p);
    var route := RouteComponent(variant, info.greyScale, cid);
    if route.None? then Outcome(JpegInvalid, FailId(variant, info), p + 1)
    else
      var slot := route.value.0;
      var tdta := ByteAt(data, p + 1);
      var c := ComponentAt(info, slot).(dcId := HighNibble(tdta), acId := LowNibble(tdta));
      Outcome(JpegValid, PutComponent(info.(greyScale := route.value.1), slot, c), p + 2)
  }

  /** The component loop of `process_SOS`, components i to ns - 1. */
  function SosComponents(variant: Variant, info: Info, data: seq<byte>, p: int, i: nat, ns: nat): (r: Outcome)
    requires WellFormedInfo(info) && i <= ns
    ensures WellFormedInfo(r.info) && OnlyComponentsChanged(info, r.info)
    ensures r.info.maxH == info.maxH && r.info.maxV == info.maxV
    ensures r.status == JpegValid ==> r.pos == p + 2 * (ns - i) && r.info.valid == info.valid
    ensures r.status == JpegInvalid && variant == Cpu ==> !r.info.valid
    ensures r.info.valid ==> info.valid
    ensures FrameKept(info, r.info) && r.info.dc == info.dc && r.info.ac == info.ac
    ensures r.pos >= p
    decreases ns - i
  {
    if i == ns then Outcome(JpegValid, info, p)
    else
      var c := SosComponent(variant, info, data, p);
      if c.status == JpegInvalid then c else SosComponents(variant, c.info, data, c.pos, i + 1, ns)
  }

  /** `read_SOS_metadata` at the Ss byte: everything is stored before it is
      checked; only the baseline values Ss = 0, Se = 63, Ah = Al = 0 pass. */
  function SosMetadata(variant: Variant, info: Info, data: seq<byte>, p: int): (r: Outcome)
    ensures r.info == info.(ss := r.info.ss, se := r.info.se, ah := r.info.ah, al := r.info.al, valid := r.info.valid)
    ensures r.status == JpegValid ==> r.info.valid == info.valid
    ensures r.status == JpegInvalid && variant == Cpu ==> !r.info.valid
    ensures r.info.valid ==> info.valid
    ensures r.pos == p + 3
    ensures r.status == JpegValid <==> r.info.ss == 0 && r.info.se == 63 && r.info.ah == 0 && r.info.al == 0
  {
    var a := ByteAt(data, p + 2);
    var info1 := info.(ss := ByteAt(data, p), se := ByteAt(data, p + 1), ah := HighNibble(a), al := LowNibble(a));
    if info1.ss != 0 || info1.se != 63 then Outcome(JpegInvalid, Fail(variant, info1), p + 3)
    else if info1.ah != 0 || info1.al != 0 then Outcome(JpegInvalid, Fail(variant, info1), p + 3)
    else Outcome(JpegValid, info1, p + 3)
  }

  /** The frame geometry the scan header leaves alone. */
  predicate FrameKept(before: Info, after: Info)
  {
    after.height == before.height && after.width == before.width
    && after.numComponents == before.numComponents
    && after.mcuHeight == before.mcuHeight && after.mcuWidth == before.mcuWidth
    && after.mcuHeightReal == before.mcuHeightReal && after.mcuWidthReal == before.mcuWidthReal
    && after.maxH == before.maxH && after.maxV == before.maxV && after.padding == before.padding
  }

  /** `build_huffman_tables`: canonical codes for every present table. */
  function BuildTables(info: Info): (r: Info)
    requires WellFormedInfo(info)
    ensures WellFormedInfo(r)
  {
    BuildTablesBelow(info, 2)
  }

  /** `build_huffman_tables` after its first k iterations. */
  function BuildTablesBelow(info: Info, k: int): (r: Info)
    requires WellFormedInfo(info)
    ensures WellFormedInfo(r)
  {
    info.(dc := seq(2, i requires 0 <= i < 2 => if i < k && info.dc[i].present then GenerateCodes(info.dc[i]) else info.dc[i]),
          ac := seq(2, i requires 0 <= i < 2 => if i < k && info.ac[i].present then GenerateCodes(info.ac[i]) else info.ac[i]))
  }

  /** The part of `process_SOS` after the component loop: the scan parameters,
      the check of the segment length `length` against the component count ns,
      and the code generation. On a wrong Ls the CPU parser clears the validity
      flag and still builds the tables; the DPU parsers return before building
      them. */
  function SosFinish(variant: Variant, info: Info, data: seq<byte>, p: int, length: int, ns: int): (r: Outcome)
    requires WellFormedInfo(info)
    ensures WellFormedInfo(r.info) && FrameKept(info, r.info)
    ensures r.status == JpegInvalid && variant == Cpu ==> !r.info.valid
    ensures r.info.valid ==> info.valid
  {
    var m := SosMetadata(variant, info, data, p);
    if m.status == JpegInvalid then m
    else if length - 6 - 2 * ns != 0 then
      Outcome(JpegInvalid, if variant == Cpu then BuildTables(Fail(variant, m.info)) else m.info, m.pos)
    else Outcome(JpegValid, BuildTables(m.info), m.pos)
  }

  /** `process_SOS` with the cursor at the Ls field. */
  function Sos(variant: Variant, info: Info, data: seq<byte>, p: int): (r: Outcome)
    requires WellFormedInfo(info)
    ensures WellFormedInfo(r.info) && FrameKept(info, r.info)
    ensures r.status == JpegInvalid && variant == Cpu ==> !r.info.valid
    ensures r.info.valid ==> info.valid
  {
    var ns := ByteAt(data, p + 2);
    if ns == 0 || ns != info.numComponents then Outcome(JpegInvalid, Fail(variant, info), p + 3)
    else
      var c := SosComponents(variant, info, data, p + 3, 0, ns);
      if c.status == JpegInvalid then c
      else SosFinish(variant, c.info, data, c.pos, ShortAt(data, p), ns)
  }

  /** The tables after `build_huffman_tables`: a present table carries the
      canonical codes of Figure C.2 for its offsets, an absent one is unchanged. */
  predicate TablesBuilt(before: Info, after: Info)
    requires WellFormedInfo(before) && WellFormedInfo(after)
  {
    forall i :: 0 <= i < 2 ==>
      after.dc[i] == (if before.dc[i].present then GenerateCodes(before.dc[i]) else before.dc[i])
      && after.ac[i] == (if before.ac[i].present then GenerateCodes(before.ac[i]) else before.ac[i])
  }

  /** After the component loop: an accepted rest of the scan header has the
      baseline scan parameters, the length 6 + 2 Ns, ends 3 bytes on, and
      generated the codes of every present table; a DPU parser that rejects it
      leaves the tables alone. */
  lemma SosFinishAccepted(variant: Variant, info: Info, data: seq<byte>, p: int, length: int, ns: int)
    requires WellFormedInfo(info)
    ensures var r := SosFinish(variant, info, data, p, length, ns);
      r.pos == p + 3
      && (r.status == JpegValid ==>
            length == 6 + 2 * ns
            && r.info.ss == 0 && r.info.se == 63 && r.info.ah == 0 && r.info.al == 0
            && r.info.valid == info.valid && TablesBuilt(info, r.info))
      && (r.status == JpegInvalid && variant != Cpu ==> r.info.dc == info.dc && r.info.ac == info.ac)
  {
  }

  /** SOS (T.81 section B.2.3): an accepted scan header names as many
      components as the frame (at least one), has Ls = 6 + 2 Ns, the baseline
      Ss, Se, Ah, Al, is consumed exactly, and leaves every present table with
      its canonical codes. A DPU parser that rejects it generates no codes. */
  lemma SosAccepted(variant: Variant, info: Info, data: seq<byte>, p: int)
    requires WellFormedInfo(info)
    ensures var r := Sos(variant, info, data, p);
      r.pos >= p + 3
      && (r.status == JpegValid ==>
            var ns := ByteAt(data, p + 2);
            ns == info.numComponents && ns != 0
            && ShortAt(data, p) == 6 + 2 * ns && r.pos == p + ShortAt(data, p)
            && r.info.ss == 0 && r.info.se == 63 && r.info.ah == 0 && r.info.al == 0
            && r.info.valid == info.valid && r.info.numComponents == info.numComponents
            && TablesBuilt(info, r.info))
      && (r.status == JpegInvalid && variant != Cpu ==> r.info.dc == info.dc && r.info.ac == info.ac)
  {
    var ns := ByteAt(data, p + 2);
    if ns != 0 && ns == info.numComponents {
      var c := SosComponents(variant, info, data, p + 3, 0, ns);
      if c.status == JpegValid {
        SosFinishAccepted(variant, c.info, data, c.pos, ShortAt(data, p), ns);
      }
    }
  }
}
