/** The marker-segment parsers as the decoder runs them: a parser object
    holding the picture description (the global `jpegInfo`) and reading
    through a byte cursor. One class serves the three copies of the parser
    (src/jpeg-cpu.c, src/dpu/dpu-jpeg-marker.c and the files under
    src/dpu/markers); each method is proved to do what the function of the
    same segment in module Segments says, so the properties proved there hold
    of every run. */
module Parser {
  import opened Bytes
  import opened Markers
  import opened Stream
  import opened ZigZag
  import opened Huffman
  import opened JpegInfo
  import opened Segments
  import opened Headers
  import opened Cursor

  class JpegParser {
    const variant: Variant
    const d: Decompressor
    var info: Info

    constructor (variant: Variant, d: Decompressor, info: Info)
      ensures this.variant == variant && this.d == d && this.info == info
    {
      this.variant := variant;
      this.d := d;
      this.info := info;
    }

    // ------------------------------------------------------------ DQT

    /** `form_low_precision_DQT` (Pq = 0) and `form_high_precision_DQT`:
        64 values read in the order `zz` and value i stored at `zz[i]`; the
        decoder passes ZIGZAG_ORDER. */
    method FormDqt(zz: seq<int>, precision: int, table0: seq<int>) returns (table: seq<int>)
      requires IsBlockOrder(zz) && |table0| == 64
      modifies d`pos
      ensures table == ScatterFrom(zz, table0, QuantValues(d.data, old(d.pos), precision), 0)
      ensures d.pos == old(d.pos) + (if precision == 0 then 64 else 128)
    {
      ghost var values := QuantValues(d.data, d.pos, precision);
      ghost var p0 := d.pos;
      table := table0;
      var i := 0;
      while i < 64
        invariant 0 <= i <= 64 && |table| == 64
        invariant d.pos == p0 + (if precision == 0 then i else 2 * i)
        invariant ScatterFrom(zz, table, values, i) == ScatterFrom(zz, table0, values, 0)
        modifies d`pos
      {
        var q: int;
        if precision == 0 {
          q := d.ReadByte();
        } else {
          q := d.ReadShort();
        }
        table := table[zz[i] := q];
        i := i + 1;
      }
    }

    /** `read_and_form_DQT`, with `length` the bytes left in the segment. */
    method ReadAndFormDqt(length: int) returns (s: Status, rest: int)
      requires WellFormedInfo(info)
      modifies this, d`pos
      ensures var (t, n) := DqtTable(variant, old(info), d.data, old(d.pos));
        s == t.status && info == t.info && d.pos == t.pos && rest == length - n
    {
      var qtInfo := d.ReadByte();
      rest := length - 1;
      var id := LowNibble(qtInfo);
      if id > 3 {
        info := Fail(variant, info);
        return JpegInvalid, rest;
      }
      var precision := HighNibble(qtInfo);
      ZigZagIsBlockOrder();
      var table := FormDqt(ZIGZAG_ORDER, precision, info.quant[id].table);
      info := info.(quant := info.quant[id := QuantTable(true, table)]);
      rest := rest - (if precision == 0 then 64 else 128);
      s := JpegValid;
    }

    /** `process_DQT` with the cursor at Lq. */
    method ProcessDqt() returns (s: Status)
      requires WellFormedInfo(info)
      modifies this, d`pos
      ensures WellFormedInfo(info)
      ensures Outcome(s, info, d.pos) == Dqt(variant, old(info), d.data, old(d.pos))
    {
      var length: int := d.ReadShort();
      length := length - 2;
      while length > 0
        invariant WellFormedInfo(info)
        invariant DqtTables(variant, info, d.data, d.pos, length) == Dqt(variant, old(info), d.data, old(d.pos))
        decreases if length > 0 then length else 0
      {
        DqtTableKeeps(variant, info, d.data, d.pos);
        s, length := ReadAndFormDqt(length);
        if s == JpegInvalid {
          return;
        }
      }
      if length != 0 {
        info := Fail(variant, info);
        return JpegInvalid;
      }
      s := JpegValid;
    }

    // ------------------------------------------------------------ DRI

    /** `process_DRI` with the cursor at Lr. */
    method ProcessDri() returns (s: Status)
      modifies this, d`pos
      ensures Outcome(s, info, d.pos) == Dri(variant, old(info), d.data, old(d.pos))
    {
      var length := d.ReadShort();
      if length != 4 {
        info := Fail(variant, info);
        return JpegInvalid;
      }
      var interval := d.ReadShort();
      info := info.(restartInterval := interval);
      s := JpegValid;
    }

    // ------------------------------------------------------------ SOF

    /** `read_SOF_metadata`. */
    method ReadSofMetadata() returns (s: Status)
      modifies this, d`pos
      ensures Outcome(s, info, d.pos) == SofMetadata(variant, old(info), d.data, old(d.pos))
    {
      var precision := d.ReadByte();
      if precision != 8 {
        info := Fail(variant, info);
        return JpegInvalid;
      }
      var height := d.ReadShort();
      var width := d.ReadShort();
      info := info.(height := height, width := width);
      if height == 0 || width == 0 {
        info := Fail(variant, info);
        return JpegInvalid;
      }
      var count := d.ReadByte();
      info := info.(numComponents := count);
      if count == 0 || count > 3 {
        info := Fail(variant, info);
        return JpegInvalid;
      }
      s := JpegValid;
    }

    /** The component selection that opens `read_SOF_color_component_info`
        and `read_SOS_color_component_info`: the slot of component `cid`, or
        `ok` false for a rejected id. */
    method SelectComponent(cid: byte) returns (slot: int, ok: bool)
      modifies this
      ensures var route := RouteComponent(variant, old(info).greyScale, cid);
        ok == route.Some?
        && (ok ==> slot == route.value.0 && info == old(info).(greyScale := route.value.1))
        && (!ok ==> info == FailId(variant, old(info)))
    {
      ok := true;
      if variant == DpuMarker {
        if cid == 0 || cid > 3 {
          return 0, false;
        }
        slot := cid - 1;
      } else if cid == 0 || info.greyScale {
        info := info.(greyScale := true);
        slot := cid;
      } else if cid <= 3 {
        slot := cid - 1;
      } else {
        info := info.(valid := false);
        return 0, false;
      }
    }

    /** `read_SOF_color_component_info`: the slot is chosen by id (strictly 1
        to 3 in the DPU marker parser, with the greyscale branch elsewhere). */
    method ReadSofComponent() returns (s: Status)
      requires WellFormedInfo(info)
      modifies this, d`pos
      ensures WellFormedInfo(info)
      ensures Outcome(s, info, d.pos) == SofComponent(variant, old(info), d.data, old(d.pos))
    {
      var cid := d.ReadByte();
      var slot, ok := SelectComponent(cid);
      if !ok {
        return JpegInvalid;
      }
      s := ReadSofFactors(slot, cid);
    }

    /** The factor and table bytes of `read_SOF_color_component_info`. */
    method ReadSofFactors(slot: int, cid: byte) returns (s: Status)
      requires WellFormedInfo(info)
      modifies this, d`pos
      ensures WellFormedInfo(info)
      ensures Outcome(s, info, d.pos) == SofFactors(variant, old(info), slot, cid, d.data, old(d.pos))
    {
      var factor := d.ReadByte();
      var c := ComponentAt(info, slot).(present := true, id := cid, h := HighNibble(factor), v := LowNibble(factor));
      info := PutComponent(info, slot, c);
      if cid == 1 {
        if (c.h != 1 && c.h != 2) || (c.v != 1 && c.v != 2) {
          info := Fail(variant, info);
          return JpegInvalid;
        }
        info := info.(maxH := c.h, maxV := c.v);
      } else if c.h != 1 || c.v != 1 {
        info := Fail(variant, info);
        return JpegInvalid;
      }
      var tq := d.ReadByte();
      info := PutComponent(info, slot, c.(quantId := tq));
      s := JpegValid;
    }

    /** `initialize_MCU_height_width`. */
    method InitializeMcuHeightWidth()
      modifies this
      ensures info == McuGeometry(variant, old(info))
    {
      var mh := (info.height + 7) / 8;
      var mw := (info.width + 7) / 8;
      info := info.(mcuHeight := mh, mcuWidth := mw, padding := info.width % 4,
                    mcuHeightReal := mh, mcuWidthReal := mw);
      if info.maxV == 2 && info.mcuHeightReal % 2 == 1 {
        info := info.(mcuHeightReal := info.mcuHeightReal + 1);
      }
      if info.maxH == 2 && info.mcuWidthReal % 2 == 1 {
        info := info.(mcuWidthReal := info.mcuWidthReal + 1);
      }
      if variant != Cpu {
        info := info.(rowsPerTasklet := info.mcuHeightReal / NR_TASKLETS);
      }
    }

    /** The component loop of `process_SOFn`. */
    method ReadSofComponents() returns (s: Status)
      requires WellFormedInfo(info) && 0 <= info.numComponents
      modifies this, d`pos
      ensures WellFormedInfo(info)
      ensures Outcome(s, info, d.pos) == SofComponents(variant, old(info), d.data, old(d.pos), 0)
    {
      var i := 0;
      while i < info.numComponents
        invariant WellFormedInfo(info) && 0 <= i <= info.numComponents
        invariant info.numComponents == old(info).numComponents
        invariant SofComponents(variant, info, d.data, d.pos, i) == SofComponents(variant, old(info), d.data, old(d.pos), 0)
        decreases info.numComponents - i
      {
        s := ReadSofComponent();
        if s == JpegInvalid {
          return;
        }
        i := i + 1;
      }
      s := JpegValid;
    }

    /** The component loop, the geometry and the length check of `process_SOFn`. */
    method FinishSof(length: int) returns (s: Status)
      requires WellFormedInfo(info) && 0 <= info.numComponents
      modifies this, d`pos
      ensures WellFormedInfo(info)
      ensures Outcome(s, info, d.pos) == SofRest(variant, old(info), d.data, old(d.pos), length)
    {
      s := ReadSofComponents();
      if s == JpegInvalid {
        return;
      }
      InitializeMcuHeightWidth();
      if length - 8 - 3 * info.numComponents != 0 {
        info := Fail(variant, info);
        return JpegInvalid;
      }
      s := JpegValid;
    }

    /** `process_SOFn` with the cursor at Lf. */
    method ProcessSof() returns (s: Status)
      requires WellFormedInfo(info)
      modifies this, d`pos
      ensures WellFormedInfo(info)
      ensures Outcome(s, info, d.pos) == Sof(variant, old(info), d.data, old(d.pos))
    {
      if info.numComponents != 0 {
        info := Fail(variant, info);
        return JpegInvalid;
      }
      var length := d.ReadShort();
      s := ReadSofMetadata();
      if s == JpegInvalid {
        return;
      }
      s := FinishSof(length);
    }

    // ------------------------------------------------------------ DHT

    /** `read_DHT`, with `length` the bytes left in the segment. Th of 2 or 3
        selects a table past the two of its class; those stores are recorded
        as an overflow and not applied. */
    method ReadDht(length: int) returns (s: Status, rest: int)
      requires WellFormedInfo(info)
      modifies this, d`pos
      ensures var (t, n) := DhtTable(variant, old(info), d.data, old(d.pos));
        s == t.status && info == t.info && d.pos == t.pos && rest == length - n
    {
      ghost var p0 := d.pos;
      var htInfo := d.ReadByte();
      rest := length - 1;
      var id := LowNibble(htInfo);
      var isAc := HighNibble(htInfo) != 0;
      if id > 3 {
        info := Fail(variant, info);
        return JpegInvalid, rest;
      }
      var t := if id >= MAX_HUFFMAN_TABLES then EmptyTable() else if isAc then info.ac[id] else info.dc[id];
      var valoffset, total := ReadCounts(t.valoffset);
      rest := rest - 16;
      var huffval, overflow := ReadSymbols(t.huffval, total);
      rest := rest - total;
      var loaded := HuffmanTable(true, huffval, valoffset, t.codes);
      if id >= MAX_HUFFMAN_TABLES {
        info := info.(overflow := true);
      } else if isAc {
        info := info.(ac := info.ac[id := loaded]);
      } else {
        info := info.(dc := info.dc[id := loaded]);
      }
      if overflow {
        info := info.(overflow := true);
      }
      s := JpegValid;
    }

    /** The Li loop of `read_DHT`: `valoffset[i]` receives the running total
        of the first i counts. */
    method ReadCounts(valoffset0: seq<int>) returns (valoffset: seq<int>, total: int)
      requires ValidOffsets(valoffset0)
      modifies d`pos
      ensures valoffset == LoadedOffsets(valoffset0, d.data, old(d.pos))
      ensures total == CountsTotal(d.data, old(d.pos), 16) && d.pos == old(d.pos) + 16
    {
      ghost var p0 := d.pos;
      valoffset := valoffset0[0 := 0];
      total := 0;
      var i := 1;
      while i <= 16
        invariant 1 <= i <= 17 && d.pos == p0 + i - 1
        invariant total == CountsTotal(d.data, p0, i - 1)
        invariant |valoffset| == 18 && valoffset[0] == 0
        invariant forall k :: 1 <= k < i ==> valoffset[k] == U8(CountsTotal(d.data, p0, k))
        invariant forall k :: i <= k < 18 ==> valoffset[k] == valoffset0[k]
        modifies d`pos
      {
        var count := d.ReadByte();
        total := total + count;
        valoffset := valoffset[i := U8(total)];
        i := i + 1;
      }
    }

    /** The Vij loop of `read_DHT`: `total` symbols, of which those past slot
        255 of `huffval` are an overflow. */
    method ReadSymbols(huffval0: seq<int>, total: int) returns (huffval: seq<int>, overflow: bool)
      requires |huffval0| == 256 && forall k :: 0 <= k < 256 ==> 0 <= huffval0[k] < 256
      requires total >= 0
      modifies d`pos
      ensures huffval == LoadedValues(huffval0, d.data, old(d.pos), total)
      ensures overflow == (total > 256) && d.pos == old(d.pos) + total
    {
      ghost var p0 := d.pos;
      huffval := huffval0;
      overflow := false;
      var j := 0;
      while j < total
        invariant 0 <= j <= total && d.pos == p0 + j && |huffval| == 256
        invariant forall k :: 0 <= k < 256 ==> huffval[k] == if k < j then ByteAt(d.data, p0 + k) else huffval0[k]
        invariant overflow == (j > 256)
        modifies d`pos
      {
        var v := d.ReadByte();
        if j < 256 {
          huffval := huffval[j := v];
        } else {
          overflow := true;
        }
        j := j + 1;
      }
    }

    /** `process_DHT` with the cursor at Lh. */
    method ProcessDht() returns (s: Status)
      requires WellFormedInfo(info)
      modifies this, d`pos
      ensures WellFormedInfo(info)
      ensures Outcome(s, info, d.pos) == Dht(variant, old(info), d.data, old(d.pos))
    {
      var length: int := d.ReadShort();
      length := length - 2;
      while length > 0
        invariant WellFormedInfo(info)
        invariant DhtTables(variant, info, d.data, d.pos, length) == Dht(variant, old(info), d.data, old(d.pos))
        decreases if length > 0 then length else 0
      {
        DhtTableKeeps(variant, info, d.data, d.pos);
        s, length := ReadDht(length);
        if s == JpegInvalid {
          return;
        }
      }
      if length != 0 {
        info := Fail(variant, info);
        return JpegInvalid;
      }
      s := JpegValid;
    }

    // ------------------------------------------------------------ SOS

    /** `read_SOS_color_component_info`. */
    method ReadSosComponent() returns (s: Status)
      requires WellFormedInfo(info)
      modifies this, d`pos
      ensures WellFormedInfo(info)
      ensures Outcome(s, info, d.pos) == SosComponent(variant, old(info), d.data, old(d.pos))
    {
      var cid := d.ReadByte();
      var slot, ok := SelectComponent(cid);
      if !ok {
        return JpegInvalid;
      }
      var tdta := d.ReadByte();
      info := PutComponent(info, slot, ComponentAt(info, slot).(dcId := HighNibble(tdta), acId := LowNibble(tdta)));
      s := JpegValid;
    }

    /** `read_SOS_metadata`. */
    method ReadSosMetadata() returns (s: Status)
      modifies this, d`pos
      ensures Outcome(s, info, d.pos) == SosMetadata(variant, old(info), d.data, old(d.pos))
    {
      var ss := d.ReadByte();
      var se := d.ReadByte();
      var a := d.ReadByte();
      info := info.(ss := ss, se := se, ah := HighNibble(a), al := LowNibble(a));
      if info.ss != 0 || info.se != 63 {
        info := Fail(variant, info);
        return JpegInvalid;
      }
      if info.ah != 0 || info.al != 0 {
        info := Fail(variant, info);
        return JpegInvalid;
      }
      s := JpegValid;
    }

    /** One table of `build_huffman_tables`: codes are generated only for a
        present table. */
    static method BuildTable(t: HuffmanTable) returns (r: HuffmanTable)
      requires Huffman.WellFormed(t)
      ensures r == if t.present then GenerateCodes(t) else t
    {
      r := t;
      if t.present {
        r := GenerateTableCodes(t);
      }
    }

    /** `build_huffman_tables`. */
    method BuildHuffmanTables()
      requires WellFormedInfo(info)
      modifies this
      ensures info == BuildTables(old(info))
    {
      var i := 0;
      while i < MAX_HUFFMAN_TABLES
        invariant 0 <= i <= MAX_HUFFMAN_TABLES
        invariant info == BuildTablesBelow(old(info), i)
      {
        var dc := BuildTable(info.dc[i]);
        var ac := BuildTable(info.ac[i]);
        info := info.(dc := info.dc[i := dc], ac := info.ac[i := ac]);
        i := i + 1;
        assert info.dc == BuildTablesBelow(old(info), i).dc;
        assert info.ac == BuildTablesBelow(old(info), i).ac;
      }
    }

    /** The component loop of `process_SOS`. */
    method ReadSosComponents(ns: int) returns (s: Status)
      requires WellFormedInfo(info) && 0 <= ns
      modifies this, d`pos
      ensures WellFormedInfo(info)
      ensures Outcome(s, info, d.pos) == SosComponents(variant, old(info), d.data, old(d.pos), 0, ns)
    {
      var i := 0;
      while i < ns
        invariant WellFormedInfo(info) && 0 <= i <= ns
        invariant SosComponents(variant, info, d.data, d.pos, i, ns) == SosComponents(variant, old(info), d.data, old(d.pos), 0, ns)
      {
        s := ReadSosComponent();
        if s == JpegInvalid {
          return;
        }
        i := i + 1;
      }
      s := JpegValid;
    }

    /** The scan parameters, the length check and the code generation of
        `process_SOS`. */
    method FinishSos(length: int, ns: int) returns (s: Status)
      requires WellFormedInfo(info)
      modifies this, d`pos
      ensures WellFormedInfo(info)
      ensures Outcome(s, info, d.pos) == SosFinish(variant, old(info), d.data, old(d.pos), length, ns)
    {
      s := ReadSosMetadata();
      if s == JpegInvalid {
        return;
      }
      if length - 6 - 2 * ns != 0 {
        info := Fail(variant, info);
        if variant == Cpu {
          BuildHuffmanTables();
        }
        return JpegInvalid;
      }
      BuildHuffmanTables();
      s := JpegValid;
    }

    /** `process_SOS` with the cursor at Ls. */
    method ProcessSos() returns (s: Status)
      requires WellFormedInfo(info)
      modifies this, d`pos
      ensures WellFormedInfo(info)
      ensures Outcome(s, info, d.pos) == Sos(variant, old(info), d.data, old(d.pos))
    {
      var length: int := d.ReadShort();
      var ns: int := d.ReadByte();
      if ns == 0 || ns != info.numComponents {
        info := Fail(variant, info);
        return JpegInvalid;
      }
      s := ReadSosComponents(ns);
      if s == JpegInvalid {
        return;
      }
      s := FinishSos(length, ns);
    }

    // ------------------------------------------------------------ dispatch

    /** `check_start_of_image`; the CPU parser clears the validity flag itself. */
    method CheckStartOfImage() returns (s: Status)
      modifies this, d`pos
      ensures (s, d.pos) == StartOfImage(d.data, d.length, old(d.pos))
      ensures info == if variant == Cpu && s == JpegInvalid then old(info).(valid := false) else old(info)
    {
      var c1: byte := 0;
      var c2: byte := 0;
      if !d.IsEof() {
        c1 := d.ReadByte();
        c2 := d.ReadByte();
      }
      if c1 != 0xFF || c2 != SOI {
        if variant == Cpu {
          info := info.(valid := false);
        }
        return JpegInvalid;
      }
      s := JpegValid;
    }

    /** `read_next_marker` of the CPU parser and of the DPU marker parser (the
        split DPU parser has no dispatcher of its own). */
    method ReadNextMarker() returns (more: bool)
      requires variant != DpuSplit && WellFormedInfo(info)
      modifies this, d`pos
      ensures WellFormedInfo(info)
      ensures Step(more, info, d.pos) == Headers.ReadNextMarker(variant == Cpu, old(info), d.data, d.length, old(d.pos))
    {
      var m := d.SkipToNextMarker();
      var result := JpegValid;
      if m == -1 {
        info := info.(valid := false);
      } else if IsSkipped(m) {
        result := d.SkipMarker();
        if result == JpegInvalid && variant == Cpu {
          info := info.(valid := false);
        }
      } else if m == DQT {
        result := ProcessDqt();
      } else if m == DRI {
        result := ProcessDri();
      } else if m == SOF0 {
        result := ProcessSof();
      } else if m == DHT {
        result := ProcessDht();
      } else if m == SOS {
        result := ProcessSos();
        return false;
      } else {
        info := info.(valid := false);
      }
      if variant != Cpu && result == JpegInvalid {
        info := info.(valid := false);
      }
      more := true;
    }

    /** `jpeg_cpu_scale` up to the scan data: `init_jpeg_info`, the SOI check
        and the marker loop, run while the picture is valid and no scan header
        has ended it. */
    method ParseHeaders()
      requires variant == Cpu && WellFormedInfo(info) && d.pos == 0 && d.length == |d.data|
      modifies this, d`pos
      ensures WellFormedInfo(info)
      ensures (info, d.pos) == CpuParse(old(info), d.data)
    {
      info := InitInfo(info);
      var soi := CheckStartOfImage();
      var result := true;
      while info.valid && result
        invariant WellFormedInfo(info) && HeaderInvariant(info)
        invariant (if info.valid && result then CpuHeaders(info, d.data, d.pos) else (info, d.pos)) == CpuParse(old(info), d.data)
        decreases (if info.valid && result then 1 else 0) + (if d.pos < |d.data| then |d.data| - d.pos else 0)
      {
        StepKeepsInvariant(true, info, d.data, d.pos);
        result := ReadNextMarker();
      }
    }
  }
}
