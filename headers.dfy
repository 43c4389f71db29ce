/** The marker dispatcher `read_next_marker` of the CPU decoder
    (src/jpeg-cpu.c) and of the DPU decoder (src/dpu/dpu-jpeg-marker.c), and
    the header phase of `jpeg_cpu_scale`: SOI, then markers until the scan
    header. */
module Headers {
  import opened Bytes
  import opened Markers
  import opened Stream
  import opened JpegInfo
  import opened Segments

  /** After one marker: whether the header loop goes on (`read_next_marker`
      returned 1), the picture description and the cursor. */
  datatype Step = Step(more: bool, info: Info, pos: int)

  /** The markers whose segments are skipped by their length field. */
  predicate IsSkipped(m: int)
  {
    IsApp(m) || m == COM || IsExt(m) || m == DNL || m == DHP || m == EXP
  }

  /** The markers with a segment parser of their own. */
  predicate IsHandled(m: int)
  {
    IsSkipped(m) || m == DQT || m == DRI || m == SOF0 || m == DHT || m == SOS
  }

  /** A segment parser's result as the dispatcher leaves it: the DPU
      dispatcher clears the validity flag on an error status, the CPU parsers
      have cleared it themselves. */
  function Settle(cpu: bool, r: Outcome): Step
  {
    Step(true, if !cpu && r.status == JpegInvalid then r.info.(valid := false) else r.info, r.pos)
  }

  /** `read_next_marker` of the CPU parser (`cpu`) or of the DPU marker parser,
      over the first `length` bytes, with the cursor at p. */
  function ReadNextMarker(cpu: bool, info: Info, data: seq<byte>, length: int, p: int): (r: Step)
    requires WellFormedInfo(info)
    ensures WellFormedInfo(r.info)
  {
    var variant := if cpu then Cpu else DpuMarker;
    var (m, q) := NextMarker(data, length, p);
    if m == -1 then Step(true, info.(valid := false), q)
    else if IsSkipped(m) then
      var (st, q2) := SkipMarkerSpec(data, length, q);
      Step(true, if st == JpegInvalid then info.(valid := false) else info, q2)
    else if m == DQT then Settle(cpu, Dqt(variant, info, data, q))
    else if m == DRI then Settle(cpu, Dri(variant, info, data, q))
    else if m == SOF0 then Settle(cpu, Sof(variant, info, data, q))
    else if m == DHT then Settle(cpu, Dht(variant, info, data, q))
    else if m == SOS then
      var r := Sos(variant, info, data, q);
      Step(false, r.info, r.pos)
    else Step(true, info.(valid := false), q)
  }

  /** `read_next_marker` returns 0 exactly for the scan header. The end of the
      data, a marker without a parser (SOF2 among them) and an error of any
      parser other than the scan header's clear the validity flag; the DPU
      dispatcher ignores the status of the scan header. */
  lemma ReadNextMarkerMeaning(cpu: bool, info: Info, data: seq<byte>, length: int, p: int)
    requires WellFormedInfo(info)
    ensures var r := ReadNextMarker(cpu, info, data, length, p);
      var m := NextMarker(data, length, p).0;
      var q := NextMarker(data, length, p).1;
      var variant := if cpu then Cpu else DpuMarker;
      (!r.more <==> m == SOS)
      && (!IsHandled(m) ==> !r.info.valid && r.pos == q)
      && (m == DQT && Dqt(variant, info, data, q).status == JpegInvalid ==> !r.info.valid)
      && (m == DRI && Dri(variant, info, data, q).status == JpegInvalid ==> !r.info.valid)
      && (m == SOF0 && Sof(variant, info, data, q).status == JpegInvalid ==> !r.info.valid)
      && (m == DHT && Dht(variant, info, data, q).status == JpegInvalid ==> !r.info.valid)
      && (IsSkipped(m) && SkipMarkerSpec(data, length, q).0 == JpegInvalid ==> !r.info.valid)
      && (m == SOS && cpu && Sos(Cpu, info, data, q).status == JpegInvalid ==> !r.info.valid)
      && (m == SOS && !cpu ==> r.info.valid == Sos(DpuMarker, info, data, q).info.valid)
  {
    var variant := if cpu then Cpu else DpuMarker;
    var q := NextMarker(data, length, p).1;
    DqtAccounting(variant, info, data, q);
    DhtAccounting(variant, info, data, q);
  }

  /** The DPU dispatcher keeps the picture valid after a scan header with the
      wrong component count: it reports the end of the headers with the
      validity flag untouched. */
  lemma DpuScanErrorIgnored()
    ensures var info := InitInfo(ZeroInfo());
      var data: seq<byte> := [0xFF, 0xDA, 0, 8, 1, 1, 0, 0, 63, 0];
      var r := ReadNextMarker(false, info, data, |data|, 0);
      Sos(DpuMarker, info, data, 2).status == JpegInvalid && !r.more && r.info.valid
  {
    var info := InitInfo(ZeroInfo());
    var data: seq<byte> := [0xFF, 0xDA, 0, 8, 1, 1, 0, 0, 63, 0];
    assert CountNonMarker(data, |data|, 0) == (0, 1);
    assert MarkerAfterFF(data, |data|, 1) == (SOS, 2);
    assert ByteAt(data, 4) == 1 && info.numComponents == 0;
  }

  /** A frame header the parser accepted: 1 to 3 components, nonzero
      dimensions and the block counts that cover them. */
  predicate FrameAccepted(info: Info)
  {
    1 <= info.numComponents <= 3 && info.height != 0 && info.width != 0
    && info.mcuHeight == (info.height + 7) / 8 && info.mcuWidth == (info.width + 7) / 8
  }

  /** A scan header with the baseline parameters. */
  predicate ScanAccepted(info: Info)
  {
    info.ss == 0 && info.se == 63 && info.ah == 0 && info.al == 0
  }

  /** What holds of the picture description throughout the header loop:
      while it is valid, a nonzero component count comes from an accepted
      frame header. */
  predicate HeaderInvariant(info: Info)
  {
    info.valid && info.numComponents != 0 ==> FrameAccepted(info)
  }

  lemma NextMarkerAdvances(data: seq<byte>, length: int, p: int)
    ensures var (m, q) := NextMarker(data, length, p);
      q > p && (m >= 0 ==> q <= length)
  {
    CountNonMarkerMeaning(data, length, p);
    var q := CountNonMarker(data, length, p).1;
    MarkerAfterFFMeaning(data, length, q);
    NonMarkerScanMeaning(data, length, p + 1, 0, ByteAt(data, p));
  }

  /** A segment parser that leaves the frame alone keeps the invariant. */
  lemma SettleKeeps(cpu: bool, info: Info, r: Outcome)
    requires HeaderInvariant(info)
    requires r.info.numComponents == info.numComponents && r.info.height == info.height
    requires r.info.width == info.width && r.info.mcuHeight == info.mcuHeight && r.info.mcuWidth == info.mcuWidth
    requires r.info.valid ==> info.valid
    ensures HeaderInvariant(Settle(cpu, r).info)
  {
  }

  lemma SegmentStep(cpu: bool, m: int, info: Info, data: seq<byte>, q: int)
    requires WellFormedInfo(info) && HeaderInvariant(info)
    requires m == DQT || m == DRI || m == SOF0 || m == DHT
    ensures var variant := if cpu then Cpu else DpuMarker;
      var r := if m == DQT then Dqt(variant, info, data, q)
               else if m == DRI then Dri(variant, info, data, q)
               else if m == SOF0 then Sof(variant, info, data, q)
               else Dht(variant, info, data, q);
      HeaderInvariant(Settle(cpu, r).info) && r.pos >= q
  {
    var variant := if cpu then Cpu else DpuMarker;
    if m == DQT {
      DqtAccounting(variant, info, data, q);
      SettleKeeps(cpu, info, Dqt(variant, info, data, q));
    } else if m == DHT {
      DhtAccounting(variant, info, data, q);
      SettleKeeps(cpu, info, Dht(variant, info, data, q));
    } else if m == SOF0 {
      SofAccepted(variant, info, data, q);
    }
  }

  lemma ScanStep(cpu: bool, info: Info, data: seq<byte>, q: int)
    requires WellFormedInfo(info) && HeaderInvariant(info)
    ensures var r := Sos(if cpu then Cpu else DpuMarker, info, data, q);
      HeaderInvariant(r.info) && r.pos > q
      && (cpu && info.valid && r.info.valid ==> FrameAccepted(r.info) && ScanAccepted(r.info))
  {
    SosAccepted(if cpu then Cpu else DpuMarker, info, data, q);
  }

  /** One dispatcher step keeps the header invariant and moves the cursor
      forward; a step that leaves the picture valid started inside the data;
      for the CPU parser, a valid end of the loop is an accepted scan header of
      an accepted frame. */
  lemma StepKeepsInvariant(cpu: bool, info: Info, data: seq<byte>, p: int)
    requires WellFormedInfo(info) && HeaderInvariant(info)
    ensures var r := ReadNextMarker(cpu, info, data, |data|, p);
      HeaderInvariant(r.info) && r.pos > p
      && (r.info.valid ==> p < |data|)
      && (cpu && info.valid && r.info.valid && !r.more ==> FrameAccepted(r.info) && ScanAccepted(r.info))
  {
    var (m, q) := NextMarker(data, |data|, p);
    NextMarkerAdvances(data, |data|, p);
    if m == DQT || m == DRI || m == SOF0 || m == DHT {
      SegmentStep(cpu, m, info, data, q);
    } else if m == SOS {
      ScanStep(cpu, info, data, q);
    }
  }

  /** The header loop of `jpeg_cpu_scale`: markers are read while the picture
      is valid and the scan header has not been met. */
  function CpuHeaders(info: Info, data: seq<byte>, p: int): (r: (Info, int))
    requires WellFormedInfo(info) && HeaderInvariant(info)
    ensures WellFormedInfo(r.0)
    decreases if p < |data| then |data| - p else 0
  {
    if !info.valid then (info, p)
    else
      var s := ReadNextMarker(true, info, data, |data|, p);
      StepKeepsInvariant(true, info, data, p);
      if !s.more || !s.info.valid then (s.info, s.pos) else CpuHeaders(s.info, data, s.pos)
  }

  /** `jpeg_cpu_scale` up to the scan data: `init_jpeg_info`, the SOI check and
      the header loop. */
  function CpuParse(prev: Info, data: seq<byte>): (r: (Info, int))
    requires WellFormedInfo(prev)
    ensures WellFormedInfo(r.0)
  {
    var info0 := InitInfo(prev);
    var (st, q) := StartOfImage(data, |data|, 0);
    CpuHeaders(if st == JpegInvalid then info0.(valid := false) else info0, data, q)
  }

  lemma {:induction false} CpuHeadersAccepted(info: Info, data: seq<byte>, p: int)
    requires WellFormedInfo(info) && HeaderInvariant(info)
    ensures var r := CpuHeaders(info, data, p);
      r.0.valid ==> FrameAccepted(r.0) && ScanAccepted(r.0) && r.1 > p
    decreases if p < |data| then |data| - p else 0
  {
    if info.valid {
      var s := ReadNextMarker(true, info, data, |data|, p);
      StepKeepsInvariant(true, info, data, p);
      if s.more && s.info.valid {
        CpuHeadersAccepted(s.info, data, s.pos);
      }
    }
  }

  /** A file the CPU decoder accepts for decoding starts with SOI and has an
      accepted frame header (T.81 section B.2.2) followed by a baseline scan
      header (section B.2.3); the scan data start after the scan header. */
  lemma CpuParseAccepted(prev: Info, data: seq<byte>)
    requires WellFormedInfo(prev)
    ensures var r := CpuParse(prev, data);
      r.0.valid ==>
        |data| >= 2 && data[0] == 0xFF && data[1] == SOI
        && FrameAccepted(r.0) && ScanAccepted(r.0) && 2 < r.1
  {
    var info0 := InitInfo(prev);
    var (st, q) := StartOfImage(data, |data|, 0);
    CpuHeadersAccepted(if st == JpegInvalid then info0.(valid := false) else info0, data, q);
  }
}
