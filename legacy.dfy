/** The older stand-alone header reader of jpeg-cpu.c (`jpeg_cpu_scale`): it
    checks the SOI marker, looks for the first frame header, then for the first
    scan header, over the byte cursor of module Cursor. Its decompressor
    record holds the fields that the frame and scan headers set. */
module Legacy {
  import opened Bytes
  import opened Markers
  import opened Stream
  import opened Cursor

  /** `MAX_COMPS_IN_SCAN`, the size of `comp_info`, and `MAX_COMP_INFO`, the
      size of `cur_comp_info`. */
  const MAX_COMPS_IN_SCAN: int := 4
  const MAX_COMP_INFO: int := 3
  const DCTSIZE: int := 8

  /** The fields of `jpeg_component_info` that the reader sets. */
  datatype Comp = Comp(id: byte, h: byte, v: byte, quant: byte, dc: byte, ac: byte)

  type CompInfo = c: seq<Comp> | |c| == MAX_COMPS_IN_SCAN
    witness [Comp(0, 0, 0, 0, 0, 0), Comp(0, 0, 0, 0, 0, 0), Comp(0, 0, 0, 0, 0, 0), Comp(0, 0, 0, 0, 0, 0)]

  type CurCompInfo = c: seq<Comp> | |c| == MAX_COMP_INFO
    witness [Comp(0, 0, 0, 0, 0, 0), Comp(0, 0, 0, 0, 0, 0), Comp(0, 0, 0, 0, 0, 0)]

  /** The header fields of `jpeg_decompressor`, with their C widths.
      `overflow` records a store or a load outside `comp_info` or
      `cur_comp_info`, which the C code performs without a bound check. */
  datatype State = State(
    precision: byte, height: nat, width: nat, numComponents: byte, restartInterval: nat,
    maxH: nat, maxV: nat, comp: CompInfo, firstScan: bool, compsInScan: byte,
    ss: byte, se: byte, ah: byte, al: byte, cur: CurCompInfo,
    mcusPerRow: byte, mcuRowsInScan: byte, overflow: bool)

  // ------------------------------------------------------------ reading

  /** Where `skip_bytes` leaves `ptr`: `count` bytes on, unless that passes
      `data + length`, in which case at `data + length`. */
  function LegacySkip(length: int, p: int, n: int): int
  {
    if p + n > length then length else p + n
  }

  /** `skip_bytes` never moves the cursor past the end of the data, and
      leaves it where the cursor of the newer decoder does. */
  lemma LegacySkipBounded(length: int, p: int, n: int)
    requires p <= length && n >= 0
    ensures p <= LegacySkip(length, p, n) <= length
    ensures LegacySkip(length, p, n) == SkipTarget(length, p, n)
  {
  }

  /** `skip_variable`: -1 for a declared length below 2, otherwise the
      remaining `length - 2` bytes are skipped. */
  function SkipVariableSpec(data: seq<byte>, length: int, p: int): (r: (int, int))
  {
    var len := ShortAt(data, p);
    if len < 2 then (-1, p + 2) else (0, LegacySkip(length, p + 2, len - 2))
  }

  /** `skip_variable` moves the cursor as `skip_marker` of the newer reader
      does, and returns -1 exactly when that one reports an invalid length. */
  lemma SkipVariableAgrees(data: seq<byte>, length: int, p: int)
    ensures var r := SkipVariableSpec(data, length, p);
      (r.0 == 0 || r.0 == -1) && r.1 == SkipMarkerSpec(data, length, p).1
      && (r.0 == -1 <==> SkipMarkerSpec(data, length, p).0 == JpegInvalid)
  {
  }

  // ------------------------------------------------------------ frame header

  /** `h_samp_factor = factor << 4` in an `uint8_t`: the low nibble moved up. */
  function HFactor(factor: byte): byte
  {
    U8(factor * 16)
  }

  /** `v_samp_factor = factor & 0xF`. */
  function VFactor(factor: byte): byte
  {
    factor % 16
  }

  /** The horizontal factor as stored is the vertical factor times 16: for a
      luma component with H = 2 and V = 1 (byte 0x21) it is 16, not 2. */
  lemma HFactorIsLowNibble(factor: byte)
    ensures HFactor(factor) == VFactor(factor) * 16
    ensures HFactor(0x21) == 16 && IntendedHFactor(0x21) == 2
  {
  }

  /** The horizontal sampling factor of T.81 section B.2.2: the high nibble. */
  function IntendedHFactor(factor: byte): byte
  {
    factor / 16
  }

  /** The corrected split recovers the byte: H is its high nibble and V its
      low nibble. */
  lemma IntendedFactorsSplit(factor: byte)
    ensures IntendedHFactor(factor) < 16 && factor == 16 * IntendedHFactor(factor) + VFactor(factor)
  {
  }

  /** One component record of a frame header at q: identifier, sampling
      factors, quantisation table; the other fields keep their values. */
  function SofEntry(data: seq<byte>, q: int, c: Comp): Comp
  {
    c.(id := ByteAt(data, q), h := HFactor(ByteAt(data, q + 1)), v := VFactor(ByteAt(data, q + 1)), quant := ByteAt(data, q + 2))
  }

  /** The first k passes of the component loop of `process_SOFn`, over the
      records from p on; a record past the end of `comp_info` is read but
      not stored. */
  function SofComps(data: seq<byte>, p: int, comp: CompInfo, overflow: bool, k: nat): (r: (CompInfo, bool))
  {
    if k == 0 then (comp, overflow)
    else
      var prev := SofComps(data, p, comp, overflow, k - 1);
      if k - 1 < MAX_COMPS_IN_SCAN then (prev.0[k - 1 := SofEntry(data, p + 3 * (k - 1), prev.0[k - 1])], prev.1)
      else (prev.0, true)
  }

  /** After k passes, slot i holds record i when i < k and is unchanged
      otherwise; the overflow flag is set exactly when k exceeds the table. */
  lemma {:induction false} SofCompsMeaning(data: seq<byte>, p: int, comp: CompInfo, overflow: bool, k: nat)
    ensures var r := SofComps(data, p, comp, overflow, k);
      (r.1 <==> overflow || k > MAX_COMPS_IN_SCAN)
      && forall i :: 0 <= i < MAX_COMPS_IN_SCAN ==>
           r.0[i] == if i < k then SofEntry(data, p + 3 * i, comp[i]) else comp[i]
  {
    if k > 0 {
      SofCompsMeaning(data, p, comp, overflow, k - 1);
    }
  }

  /** `process_SOFn` with the cursor at the length field p: precision,
      height, width, component count, then three bytes per component. */
  function SofSpec(data: seq<byte>, p: int, st: State): (r: (State, int))
  {
    var n := ByteAt(data, p + 7);
    var cs := SofComps(data, p + 8, st.comp, st.overflow, n);
    (st.(precision := ByteAt(data, p + 2), height := ShortAt(data, p + 3), width := ShortAt(data, p + 5),
         numComponents := n, comp := cs.0, overflow := cs.1),
     p + 8 + 3 * n)
  }

  /** `process_reset_interval`: the interval is the second 16-bit value
      whatever length the first one declares. */
  function ResetSpec(data: seq<byte>, p: int, st: State): (r: (State, int))
  {
    (st.(restartInterval := ShortAt(data, p + 2)), p + 4)
  }

  // ------------------------------------------------------------ scan header

  /** One component record of a scan header at q: selector, then the DC
      table in the high nibble and the AC table in the low nibble. */
  function SosEntry(data: seq<byte>, q: int, c: Comp): Comp
  {
    c.(id := ByteAt(data, q), dc := ByteAt(data, q + 1) / 16, ac := ByteAt(data, q + 1) % 16)
  }

  /** The first k passes of the component loop of `process_scan`. */
  function ScanComps(data: seq<byte>, p: int, cur: CurCompInfo, overflow: bool, k: nat): (r: (CurCompInfo, bool))
  {
    if k == 0 then (cur, overflow)
    else
      var prev := ScanComps(data, p, cur, overflow, k - 1);
      if k - 1 < MAX_COMP_INFO then (prev.0[k - 1 := SosEntry(data, p + 2 * (k - 1), prev.0[k - 1])], prev.1)
      else (prev.0, true)
  }

  lemma {:induction false} ScanCompsMeaning(data: seq<byte>, p: int, cur: CurCompInfo, overflow: bool, k: nat)
    ensures var r := ScanComps(data, p, cur, overflow, k);
      (r.1 <==> overflow || k > MAX_COMP_INFO)
      && forall i :: 0 <= i < MAX_COMP_INFO ==>
           r.0[i] == if i < k then SosEntry(data, p + 2 * i, cur[i]) else cur[i]
  {
    if k > 0 {
      ScanCompsMeaning(data, p, cur, overflow, k - 1);
    }
  }

  function Max(a: int, b: int): int
  {
    if a > b then a else b
  }

  /** The maximum sampling factors after k passes of the first-scan loop of
      `process_scan`, from 1; slots past `comp_info` count as 0. */
  function MaxFactors(comp: CompInfo, k: nat): (r: (nat, nat))
    ensures r.0 >= 1 && r.1 >= 1
  {
    if k == 0 then (1, 1)
    else
      var m := MaxFactors(comp, k - 1);
      if k - 1 < MAX_COMPS_IN_SCAN then (Max(m.0, comp[k - 1].h), Max(m.1, comp[k - 1].v)) else m
  }

  /** Each maximum is `max(1, factors of the first k components)`: at least
      1 and every factor, and 1 or one of the factors. */
  lemma {:induction false} MaxFactorsMeaning(comp: CompInfo, k: nat)
    ensures var r := MaxFactors(comp, k);
      r.0 >= 1 && r.1 >= 1
      && (forall i :: 0 <= i < k && i < MAX_COMPS_IN_SCAN ==> comp[i].h <= r.0 && comp[i].v <= r.1)
      && (r.0 == 1 || exists i :: 0 <= i < k && i < MAX_COMPS_IN_SCAN && comp[i].h == r.0)
      && (r.1 == 1 || exists i :: 0 <= i < k && i < MAX_COMPS_IN_SCAN && comp[i].v == r.1)
  {
    if k > 0 {
      MaxFactorsMeaning(comp, k - 1);
    }
  }

  /** The first-scan step of `process_scan`. */
  function FirstScanFactors(st: State): State
  {
    var m := MaxFactors(st.comp, st.compsInScan);
    st.(firstScan := false, maxH := m.0, maxV := m.1, overflow := st.overflow || st.compsInScan > MAX_COMPS_IN_SCAN)
  }

  /** `MCUs_per_row = image_width / max_h_samp_factor * DCTSIZE` in an
      `uint8_t`. */
  function McusPerRow(width: nat, maxH: nat): byte
    requires maxH > 0
  {
    U8(width / maxH * DCTSIZE)
  }

  /** A picture 64 pixels wide with factors 1 has 8 MCU columns, but the
      field says 0 (512 truncated to 8 bits). */
  lemma McusPerRowWrong()
    ensures McusPerRow(64, 1) == 0 && IntendedMcusPerRow(64, 1) == 8
  {
    assert IntendedMcusPerRow(64, 1) == 71 / 8;
  }

  /** The number of MCU columns: the width divided by the MCU width
      `max_h_samp_factor * DCTSIZE`, rounded up. */
  function IntendedMcusPerRow(width: nat, maxH: nat): nat
    requires maxH > 0
  {
    (width + maxH * DCTSIZE - 1) / (maxH * DCTSIZE)
  }

  /** The corrected count is the least number of MCU columns that covers the
      width. */
  lemma IntendedMcusPerRowCovers(width: nat, maxH: nat)
    requires maxH > 0
    ensures var k := IntendedMcusPerRow(width, maxH); var w := maxH * DCTSIZE;
      k * w >= width && (k == 0 || (k - 1) * w < width)
  {
    var w := maxH * DCTSIZE;
    var k := IntendedMcusPerRow(width, maxH);
    var t := width + w - 1;
    assert t == k * w + t % w;
    if k > 0 {
      assert (k - 1) * w == k * w - w;
    }
  }

  /** The scan header at p read by `process_scan`: the component records,
      the spectral selection and the successive approximation nibbles. */
  function ScanHeader(data: seq<byte>, p: int, st: State): (State, int)
  {
    var n := ByteAt(data, p + 2);
    var cc := ScanComps(data, p + 3, st.cur, st.overflow, n);
    var q := p + 3 + 2 * n;
    var a := ByteAt(data, q + 2);
    (st.(compsInScan := n, cur := cc.0, overflow := cc.1, ss := ByteAt(data, q), se := ByteAt(data, q + 1),
         ah := a / 16, al := a % 16),
     q + 3)
  }

  /** `process_scan` with the cursor at the length field p, followed by the
      one byte that `decode_ecs` reads. */
  function ScanSpec(data: seq<byte>, p: int, st: State): (r: (State, int))
    requires st.firstScan || (st.maxH > 0 && st.maxV > 0)
  {
    var h := ScanHeader(data, p, st);
    (FinishScan(h.0), h.1 + 1)
  }

  /** The end of `process_scan` once the header is read: the maximum factors
      on the first scan, then the MCU counts of an interleaved scan. */
  function FinishScan(s1: State): State
    requires s1.firstScan || (s1.maxH > 0 && s1.maxV > 0)
  {
    var s2 := if s1.firstScan then FirstScanFactors(s1) else s1;
    if s1.compsInScan > 1 then s2.(mcusPerRow := McusPerRow(s2.width, s2.maxH), mcuRowsInScan := McusPerRow(s2.height, s2.maxV))
    else s2
  }

  /** After a scan header the first-scan flag is clear and both maximum
      factors are at least 1; on the first scan they are the maxima of the
      frame's first components; the successive approximation byte is split
      into its nibbles. */
  lemma ScanSpecMeaning(data: seq<byte>, p: int, st: State)
    requires st.firstScan || (st.maxH > 0 && st.maxV > 0)
    ensures var r := ScanSpec(data, p, st); var n := ByteAt(data, p + 2);
      !r.0.firstScan && r.0.maxH >= 1 && r.0.maxV >= 1 && r.0.compsInScan == n
      && (st.firstScan ==> (r.0.maxH, r.0.maxV) == MaxFactors(st.comp, n))
      && (!st.firstScan ==> (r.0.maxH, r.0.maxV) == (st.maxH, st.maxV))
      && 16 * r.0.ah + r.0.al == ByteAt(data, p + 3 + 2 * n + 2) && r.0.al < 16
      && r.1 == p + 7 + 2 * n
  {
    MaxFactorsMeaning(st.comp, ByteAt(data, p + 2));
  }

  // ------------------------------------------------------------ searches

  /** The markers `find_frame` takes as a frame header: SOF0-3, SOF5-7,
      SOF9-11 and SOF13-15. */
  predicate IsSofMarker(m: int)
  {
    (SOF0 <= m <= SOF3) || (SOF5 <= m <= SOF7) || (SOF9 <= m <= SOF11) || (SOF13 <= m <= SOF15)
  }

  /** The frame markers are the codes 0xC0-0xCF other than DHT, JPG and DAC. */
  lemma SofMarkers(m: int)
    ensures IsSofMarker(m) <==> 0xC0 <= m <= 0xCF && m != DHT && m != JPG && m != DAC
  {
  }

  /** `find_frame` from p: 0 after the first frame header, -1 at EOI or the
      end of the data; DRI is processed and every other marker skipped as a
      variable-length segment. */
  function FrameSearch(data: seq<byte>, length: int, p: int, st: State): (r: (int, State, int))
    decreases length - p
  {
    var nm := NextMarker(data, length, p);
    var m := nm.0;
    var q := nm.1;
    if m == -1 then (-1, st, q)
    else if IsSofMarker(m) then (0, SofSpec(data, q, st).0, SofSpec(data, q, st).1)
    else if m == EOI then (-1, st, q)
    else if m == DRI then FrameSearch(data, length, ResetSpec(data, q, st).1, ResetSpec(data, q, st).0)
    else FrameSearch(data, length, SkipVariableSpec(data, length, q).1, st)
  }

  /** `find_frame` returns 0 or -1, keeps the first-scan flag and the scan
      components, and returns -1 at once at the end of the data. */
  lemma {:induction false} FrameSearchOutcome(data: seq<byte>, length: int, p: int, st: State)
    ensures var r := FrameSearch(data, length, p, st);
      (r.0 == 0 || r.0 == -1) && r.1.firstScan == st.firstScan && r.1.cur == st.cur
      && (p >= length ==> r == (-1, st, NextMarker(data, length, p).1))
    decreases length - p
  {
    var nm := NextMarker(data, length, p);
    var q := nm.1;
    if nm.0 != -1 && !IsSofMarker(nm.0) && nm.0 != EOI {
      if nm.0 == DRI {
        FrameSearchOutcome(data, length, ResetSpec(data, q, st).1, ResetSpec(data, q, st).0);
      } else {
        FrameSearchOutcome(data, length, SkipVariableSpec(data, length, q).1, st);
      }
    }
  }

  /** A frame marker right at the cursor is taken at once. */
  lemma FrameSearchAtSof(data: seq<byte>, length: int, p: int, st: State)
    requires 0 <= p && p + 1 < length && ByteAt(data, p) == 0xFF && IsSofMarker(ByteAt(data, p + 1))
    ensures FrameSearch(data, length, p, st) == (0, SofSpec(data, p + 2, st).0, SofSpec(data, p + 2, st).1)
  {
    assert NonMarkerScan(data, length, p + 1, 0, ByteAt(data, p)) == (0, p + 1);
    assert MarkerAfterFF(data, length, p + 1) == (ByteAt(data, p + 1), p + 2);
  }

  /** A DRI segment at the cursor sets the restart interval and the search
      goes on after it. */
  lemma FrameSearchAtDri(data: seq<byte>, length: int, p: int, st: State)
    requires 0 <= p && p + 1 < length && ByteAt(data, p) == 0xFF && ByteAt(data, p + 1) == DRI
    ensures FrameSearch(data, length, p, st) == FrameSearch(data, length, p + 6, st.(restartInterval := ShortAt(data, p + 4)))
  {
    assert NonMarkerScan(data, length, p + 1, 0, ByteAt(data, p)) == (0, p + 1);
    assert MarkerAfterFF(data, length, p + 1) == (DRI, p + 2);
  }

  /** `find_scan` from p: the scan header is processed at SOS (which always
      returns 0); RST, EOI and the end of the data give -1; every other
      marker is skipped. */
  function ScanSearch(data: seq<byte>, length: int, p: int, st: State): (r: (int, State, int))
    requires st.firstScan || (st.maxH > 0 && st.maxV > 0)
    decreases length - p
  {
    var nm := NextMarker(data, length, p);
    var m := nm.0;
    var q := nm.1;
    if m == -1 || IsRst(m) then (-1, st, q)
    else if m == SOS then (0, ScanSpec(data, q, st).0, ScanSpec(data, q, st).1)
    else if m == EOI then (-1, st, q)
    else ScanSearch(data, length, SkipVariableSpec(data, length, q).1, st)
  }

  /** `find_scan` returns 0 or -1, and 0 exactly when it met SOS; before
      SOS nothing but the cursor changes. */
  lemma {:induction false} ScanSearchOutcome(data: seq<byte>, length: int, p: int, st: State)
    requires st.firstScan || (st.maxH > 0 && st.maxV > 0)
    ensures var r := ScanSearch(data, length, p, st);
      (r.0 == 0 || r.0 == -1) && (r.0 == -1 ==> r.1 == st) && (r.0 == 0 ==> !r.1.firstScan)
      && (p >= length ==> r.0 == -1)
    decreases length - p
  {
    var nm := NextMarker(data, length, p);
    if nm.0 == SOS {
      ScanSpecMeaning(data, nm.1, st);
    } else if nm.0 != -1 && !IsRst(nm.0) && nm.0 != EOI {
      ScanSearchOutcome(data, length, SkipVariableSpec(data, length, nm.1).1, st);
    }
  }

  /** `jpeg_cpu_scale` over a file: the header check reads two bytes of a
      non-empty file, the frame search runs from there, `first_scan` is set
      and the scan search follows. `init` is the uninitialised record. */
  function CpuScale(data: seq<byte>, init: State): State
  {
    var p := if 0 < |data| then 2 else 0;
    var f := FrameSearch(data, |data|, p, init);
    ScanSearch(data, |data|, f.2, f.1.(firstScan := true)).1
  }

  // ------------------------------------------------------------ the decoder

  class Decoder {
    const d: Decompressor
    var s: State

    constructor (d: Decompressor, s: State)
      ensures this.d == d && this.s == s
    {
      this.d := d;
      this.s := s;
    }

    /** `skip_bytes`. */
    method SkipBytes(n: int)
      modifies d`pos
      ensures d.pos == LegacySkip(d.length, old(d.pos), n)
    {
      if d.pos + n > d.length {
        d.pos := d.length;
      } else {
        d.pos := d.pos + n;
      }
    }

    /** `skip_variable`. */
    method SkipVariable() returns (r: int)
      modifies d`pos
      ensures (r, d.pos) == SkipVariableSpec(d.data, d.length, old(d.pos))
    {
      var length := d.ReadShort();
      if length < 2 {
        return -1;
      }
      SkipBytes(length - 2);
      r := 0;
    }

    /** `next_marker`: non-0xFF bytes are discarded, 0xFF fill is swallowed. */
    method NextMarker() returns (m: int)
      modifies d`pos
      ensures (m, d.pos) == Stream.NextMarker(d.data, d.length, old(d.pos))
    {
      ghost var p0 := d.pos;
      var discarded: nat := 0;
      var b := d.ReadByte();
      while b != 0xFF
        invariant NonMarkerScan(d.data, d.length, d.pos, discarded, b) == CountNonMarker(d.data, d.length, p0)
        decreases d.length - d.pos
      {
        if d.IsEof() {
          return -1;
        }
        discarded := discarded + 1;
        b := d.ReadByte();
      }
      while true
        invariant MarkerAfterFF(d.data, d.length, d.pos) == Stream.NextMarker(d.data, d.length, p0)
        decreases d.length - d.pos
      {
        if d.IsEof() {
          return -1;
        }
        m := d.ReadByte();
        if m != 0xFF {
          return;
        }
      }
    }

    /** `read_jpeg_header`: always 0; `isJpeg` is whether the file starts
      with SOI, which only decides a message. */
    method ReadJpegHeader() returns (r: int, isJpeg: bool)
      modifies d`pos
      ensures r == 0
      ensures isJpeg <==> old(d.pos) < d.length && ByteAt(d.data, old(d.pos)) == 0xFF && ByteAt(d.data, old(d.pos) + 1) == SOI
      ensures d.pos == if old(d.pos) < d.length then old(d.pos) + 2 else old(d.pos)
    {
      var c1: byte, c2: byte := 0, 0;
      if !d.IsEof() {
        c1 := d.ReadByte();
        c2 := d.ReadByte();
      }
      isJpeg := c1 == 0xFF && c2 == SOI;
      r := 0;
    }

    /** `process_SOFn`. */
    method ProcessSofn(marker: int)
      modifies d`pos, this`s
      ensures (s, d.pos) == SofSpec(d.data, old(d.pos), old(s))
    {
      ghost var p0 := d.pos;
      var length := d.ReadShort();
      var precision := d.ReadByte();
      var height := d.ReadShort();
      var width := d.ReadShort();
      var n := d.ReadByte();
      s := s.(precision := precision, height := height, width := width, numComponents := n);
      ReadSofComponents(n, d.pos);
    }

    /** The component loop of `process_SOFn`. */
    method ReadSofComponents(n: byte, p: int)
      requires d.pos == p
      modifies d`pos, this`s
      ensures d.pos == p + 3 * n
      ensures var cs := SofComps(d.data, p, old(s).comp, old(s).overflow, n);
        s == old(s).(comp := cs.0, overflow := cs.1)
    {
      ghost var s0 := s;
      var i := 0;
      while i < n
        invariant 0 <= i <= n && d.pos == p + 3 * i
        invariant s == s0.(comp := SofComps(d.data, p, s0.comp, s0.overflow, i).0, overflow := SofComps(d.data, p, s0.comp, s0.overflow, i).1)
      {
        var id := d.ReadByte();
        var factor := d.ReadByte();
        var quant := d.ReadByte();
        if i < MAX_COMPS_IN_SCAN {
          s := s.(comp := s.comp[i := s.comp[i].(id := id, h := HFactor(factor), v := VFactor(factor), quant := quant)]);
        } else {
          s := s.(overflow := true);
        }
        i := i + 1;
      }
    }

    /** `process_reset_interval`: always 0; `warned` is whether the length
      field is not 4, which only decides a message. */
    method ProcessResetInterval() returns (r: int, warned: bool)
      modifies d`pos, this`s
      ensures r == 0 && (warned <==> ShortAt(d.data, old(d.pos)) != 4)
      ensures (s, d.pos) == ResetSpec(d.data, old(d.pos), old(s))
    {
      var length := d.ReadShort();
      warned := length != 4;
      var ri := d.ReadShort();
      s := s.(restartInterval := ri);
      r := 0;
    }

    /** `process_scan`, which always returns 0. */
    method ProcessScan() returns (r: int)
      requires s.firstScan || (s.maxH > 0 && s.maxV > 0)
      modifies d`pos, this`s
      ensures r == 0 && (s, d.pos) == ScanSpec(d.data, old(d.pos), old(s))
    {
      ReadScanHeader();
      FinishScanHeader();
      var ecs := d.ReadByte();
      r := 0;
    }

    /** The reads of `process_scan` up to the successive approximation byte. */
    method ReadScanHeader()
      modifies d`pos, this`s
      ensures (s, d.pos) == ScanHeader(d.data, old(d.pos), old(s))
    {
      var length := d.ReadShort();
      var n := d.ReadByte();
      s := s.(compsInScan := n);
      ReadScanComponents(n, d.pos);
      var ss := d.ReadByte();
      var se := d.ReadByte();
      var a := d.ReadByte();
      s := s.(ss := ss, se := se, ah := a / 16, al := a % 16);
    }

    /** The first-scan block and the MCU counts of `process_scan`. */
    method FinishScanHeader()
      requires s.firstScan || (s.maxH > 0 && s.maxV > 0)
      modifies this`s
      ensures s == FinishScan(old(s))
    {
      if s.firstScan {
        FindMaxFactors();
      }
      if s.compsInScan > 1 {
        s := s.(mcusPerRow := U8(s.width / s.maxH * DCTSIZE), mcuRowsInScan := U8(s.height / s.maxV * DCTSIZE));
      }
    }

    /** The component loop of `process_scan`. */
    method ReadScanComponents(n: byte, p: int)
      requires d.pos == p
      modifies d`pos, this`s
      ensures d.pos == p + 2 * n
      ensures var cc := ScanComps(d.data, p, old(s).cur, old(s).overflow, n);
        s == old(s).(cur := cc.0, overflow := cc.1)
    {
      ghost var s0 := s;
      var i := 0;
      while i < n
        invariant 0 <= i <= n && d.pos == p + 2 * i
        invariant s == s0.(cur := ScanComps(d.data, p, s0.cur, s0.overflow, i).0, overflow := ScanComps(d.data, p, s0.cur, s0.overflow, i).1)
      {
        var id := d.ReadByte();
        var tdta := d.ReadByte();
        if i < MAX_COMP_INFO {
          s := s.(cur := s.cur[i := s.cur[i].(id := id, dc := tdta / 16, ac := tdta % 16)]);
        } else {
          s := s.(overflow := true);
        }
        i := i + 1;
      }
    }

    /** The first-scan block of `process_scan`. */
    method FindMaxFactors()
      modifies this`s
      ensures s == FirstScanFactors(old(s))
    {
      ghost var s0 := s;
      s := s.(firstScan := false, maxH := 1, maxV := 1);
      var i := 0;
      while i < s.compsInScan
        invariant 0 <= i <= s.compsInScan && s.compsInScan == s0.compsInScan && s.comp == s0.comp
        invariant s == s0.(firstScan := false, maxH := MaxFactors(s0.comp, i).0, maxV := MaxFactors(s0.comp, i).1,
                           overflow := s0.overflow || i > MAX_COMPS_IN_SCAN)
      {
        if i < MAX_COMPS_IN_SCAN {
          s := s.(maxH := Max(s.maxH, s.comp[i].h), maxV := Max(s.maxV, s.comp[i].v));
        } else {
          s := s.(overflow := true);
        }
        i := i + 1;
      }
    }

    /** `find_frame`. */
    method FindFrame() returns (r: int)
      modifies d`pos, this`s
      ensures (r, s, d.pos) == FrameSearch(d.data, d.length, old(d.pos), old(s))
    {
      var found := false;
      while !found
        invariant !found ==> FrameSearch(d.data, d.length, d.pos, s) == FrameSearch(d.data, d.length, old(d.pos), old(s))
        invariant found ==> (0, s, d.pos) == FrameSearch(d.data, d.length, old(d.pos), old(s))
        decreases d.length - d.pos
      {
        ghost var p := d.pos;
        ghost var st := s;
        var marker := NextMarker();
        if marker == -1 {
          return -1;
        } else if IsSofMarker(marker) {
          ProcessSofn(marker);
          found := true;
        } else if marker == EOI {
          return -1;
        } else if marker == DRI {
          var _, _ := ProcessResetInterval();
        } else {
          var _ := SkipVariable();
        }
      }
      r := 0;
    }

    /** `find_scan`. */
    method FindScan() returns (r: int)
      requires s.firstScan || (s.maxH > 0 && s.maxV > 0)
      modifies d`pos, this`s
      ensures (r, s, d.pos) == ScanSearch(d.data, d.length, old(d.pos), old(s))
    {
      while true
        invariant s == old(s)
        invariant ScanSearch(d.data, d.length, d.pos, s) == ScanSearch(d.data, d.length, old(d.pos), old(s))
        decreases d.length - d.pos
      {
        var marker := NextMarker();
        if marker == -1 || IsRst(marker) {
          return -1;
        } else if marker == SOS {
          r := ProcessScan();
          return;
        } else if marker == EOI {
          return -1;
        } else {
          var _ := SkipVariable();
        }
      }
    }
  }

  /** `jpeg_cpu_scale`: the record it leaves behind. */
  method JpegCpuScale(data: seq<byte>, init: State) returns (st: State)
    ensures st == CpuScale(data, init)
  {
    var d := new Decompressor(data);
    var dec := new Decoder(d, init);
    var _, _ := dec.ReadJpegHeader();
    var _ := dec.FindFrame();
    dec.s := dec.s.(firstScan := true);
    var _ := dec.FindScan();
    st := dec.s;
  }
}
