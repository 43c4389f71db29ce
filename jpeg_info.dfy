/** The decoder's picture description (`JpegInfo` of include/jpeg-common.h),
    which the marker parsers fill in, and its initial states. */
module JpegInfo {
  import opened Bytes
  import opened Huffman

  /** `QuantizationTable`: the `exists` flag and 64 `uint32_t` entries. */
  datatype QuantTable = QuantTable(present: bool, table: seq<int>)

  /** `ColorComponentInfo`: all fields are `uint8_t`. */
  datatype Component = Component(present: bool, id: byte, h: byte, v: byte, quantId: byte, dcId: byte, acId: byte)

  /** The fields of `JpegInfo` the parsers and the decoder use. `greyScale` is
      the flag of the split DPU parser and the CPU parser. `overflow` records
      that a store went past the end of one of the fixed-size arrays (a
      component slot of 3 or more, a Huffman table id of 2 or 3, or a huffval
      index of 256 or more); such stores are not applied to the model. */
  datatype Info = Info(
    valid: bool,
    quant: seq<QuantTable>,
    restartInterval: int,
    height: int,
    width: int,
    numComponents: int,
    components: seq<Component>,
    dc: seq<HuffmanTable>,
    ac: seq<HuffmanTable>,
    ss: int, se: int, ah: int, al: int,
    mcuHeight: int, mcuWidth: int, padding: int,
    mcuHeightReal: int, mcuWidthReal: int,
    maxH: int, maxV: int,
    rowsPerTasklet: int,
    greyScale: bool,
    overflow: bool)

  /** The array sizes of `JpegInfo`: 4 quantisation tables, 3 components and
      2 DC plus 2 AC Huffman tables (MAX_QUANT_TABLES, MAX_HUFFMAN_TABLES). */
  const MAX_QUANT_TABLES: int := 4
  const MAX_HUFFMAN_TABLES: int := 2
  const MAX_COMPONENTS: int := 3

  predicate QuantWellFormed(q: QuantTable)
  {
    |q.table| == 64 && forall k :: 0 <= k < 64 ==> 0 <= q.table[k] < 65536
  }

  predicate WellFormedInfo(info: Info)
  {
    |info.quant| == MAX_QUANT_TABLES && (forall i :: 0 <= i < MAX_QUANT_TABLES ==> QuantWellFormed(info.quant[i]))
    && |info.components| == MAX_COMPONENTS
    && |info.dc| == MAX_HUFFMAN_TABLES && (forall i :: 0 <= i < MAX_HUFFMAN_TABLES ==> Huffman.WellFormed(info.dc[i]))
    && |info.ac| == MAX_HUFFMAN_TABLES && (forall i :: 0 <= i < MAX_HUFFMAN_TABLES ==> Huffman.WellFormed(info.ac[i]))
  }

  function EmptyQuant(): (q: QuantTable)
    ensures QuantWellFormed(q) && !q.present
  {
    QuantTable(false, seq(64, _ => 0))
  }

  const EmptyComponent: Component := Component(false, 0, 0, 0, 0, 0, 0)

  /** The zero-initialised global `jpegInfo` before any image. */
  function ZeroInfo(): (info: Info)
    ensures WellFormedInfo(info) && !info.valid && !info.greyScale && !info.overflow
    ensures info.maxH == 0 && info.maxV == 0
  {
    Info(false, seq(4, _ => EmptyQuant()), 0, 0, 0, 0, seq(3, _ => EmptyComponent),
         seq(2, _ => EmptyTable()), seq(2, _ => EmptyTable()),
         0, 0, 0, 0, 0, 0, 0, 0, 0, 0, 0, 0, false, false)
  }

  /** `init_jpeg_info`: sets `valid`, clears every `exists` flag and the
      scalar header fields, and leaves table contents, `greyScale`, the
      sampling maxima and the `_real` MCU counts as they were. */
  function InitInfo(prev: Info): (info: Info)
    requires WellFormedInfo(prev)
    ensures WellFormedInfo(info) && info.valid && info.numComponents == 0
    ensures forall i :: 0 <= i < 4 ==> !info.quant[i].present && info.quant[i].table == prev.quant[i].table
    ensures forall i :: 0 <= i < 3 ==> !info.components[i].present
    ensures forall i :: 0 <= i < 2 ==> !info.dc[i].present && !info.ac[i].present
    ensures info.greyScale == prev.greyScale && info.maxH == prev.maxH && info.maxV == prev.maxV
  {
    prev.(valid := true,
          quant := seq(4, i requires 0 <= i < 4 => prev.quant[i].(present := false)),
          components := seq(3, i requires 0 <= i < 3 => prev.components[i].(present := false)),
          dc := seq(2, i requires 0 <= i < 2 => prev.dc[i].(present := false)),
          ac := seq(2, i requires 0 <= i < 2 => prev.ac[i].(present := false)),
          restartInterval := 0, height := 0, width := 0, numComponents := 0,
          ss := 0, se := 0, ah := 0, al := 0,
          mcuWidth := 0, mcuHeight := 0, padding := 0)
  }

  /** Which copy of the marker parser: src/jpeg-cpu.c (clears `valid` on every
      error), src/dpu/dpu-jpeg-marker.c (returns a status, strict component
      ids) or the files under src/dpu/markers (return a status, greyscale routing). */
  datatype Variant = Cpu | DpuMarker | DpuSplit

  /** What a parser does to the validity flag on an error it reports. */
  function Fail(variant: Variant, info: Info): Info
  {
    if variant == Cpu then info.(valid := false) else info
  }
}
