/** What the byte cursor over the compressed file reads: 16-bit lengths, the
    marker-skipping scans, and the removal of the byte stuffing of ITU-T T.81
    section F.1.2.3 together with the RST skipping of the NEXTBIT procedure of
    section F.2.2.5. Positions past the data read as 0. */
module Stream {
  import opened Bytes
  import opened Markers

  /** The 16-bit big-endian value at p, as `read_short` forms it. */
  function ShortAt(data: seq<byte>, p: int): (r: nat)
    ensures r < 65536
  {
    BigEndian16(ByteAt(data, p), ByteAt(data, p + 1))
  }

  /** Where `skip_bytes` leaves the cursor: n bytes on, but never past `length`. */
  function SkipTarget(length: int, p: int, n: int): int
  {
    if p + n >= length then length else p + n
  }

  /** `skip_marker`: read the segment length, reject one below 2, skip the rest. */
  function SkipMarkerSpec(data: seq<byte>, length: int, p: int): (r: (Status, int))
  {
    var len := ShortAt(data, p) - 2;
    if len < 0 then (JpegInvalid, p + 2) else (JpegValid, SkipTarget(length, p + 2, len))
  }

  /** The loop of `count_and_skip_non_marker_bytes`, with `b` the byte last read
      (the one before p) and c the bytes counted so far. */
  function NonMarkerScan(data: seq<byte>, length: int, p: int, c: nat, b: byte): (r: (int, int))
    ensures r.1 >= p
    decreases length - p
  {
    if b == 0xFF then (c, p)
    else if p >= length then (-1, p)
    else NonMarkerScan(data, length, p + 1, c + 1, ByteAt(data, p))
  }

  /** `count_and_skip_non_marker_bytes`: the number of bytes before the next 0xFF
      (and the cursor just past that 0xFF), or -1 at the end of the data. */
  function CountNonMarker(data: seq<byte>, length: int, p: int): (r: (int, int))
    ensures r.1 > p
  {
    NonMarkerScan(data, length, p + 1, 0, ByteAt(data, p))
  }

  /** `get_marker_and_ignore_ff_bytes`: the first byte that is not 0xFF, or -1
      when the data ends first. */
  function MarkerAfterFF(data: seq<byte>, length: int, p: int): (r: (int, int))
    ensures r.1 >= p && (r.0 == -1 || (0 <= r.0 < 256 && p < r.1 <= length))
    decreases length - p
  {
    if p >= length then (-1, p)
    else if ByteAt(data, p) == 0xFF then MarkerAfterFF(data, length, p + 1)
    else (ByteAt(data, p), p + 1)
  }

  /** `skip_to_next_marker`: the marker code and the position after it. */
  function NextMarker(data: seq<byte>, length: int, p: int): (r: (int, int))
    ensures r.1 > p && (r.0 == -1 || (0 <= r.0 < 256 && r.1 <= length))
  {
    MarkerAfterFF(data, length, CountNonMarker(data, length, p).1)
  }

  lemma {:induction false} NonMarkerScanMeaning(data: seq<byte>, length: int, p: int, c: nat, b: byte)
    ensures var r := NonMarkerScan(data, length, p, c, b);
      (r.0 >= 0 ==> r.0 >= c && r.1 == p + (r.0 - c) && (r.0 == c <==> b == 0xFF))
      && (r.0 > c ==> ByteAt(data, r.1 - 1) == 0xFF && forall k :: p <= k < r.1 - 1 ==> ByteAt(data, k) != 0xFF)
      && (r.0 < 0 ==> r.0 == -1 && b != 0xFF && r.1 >= length && r.1 >= p
                      && forall k :: p <= k < r.1 ==> ByteAt(data, k) != 0xFF)
    decreases length - p
  {
    if b != 0xFF && p < length {
      NonMarkerScanMeaning(data, length, p + 1, c + 1, ByteAt(data, p));
    }
  }

  /** The count is the number of non-0xFF bytes that precede the first 0xFF, and
      the cursor ends just after it; -1 means the scan met the end of the data. */
  lemma CountNonMarkerMeaning(data: seq<byte>, length: int, p: int)
    ensures var r := CountNonMarker(data, length, p);
      (r.0 >= 0 ==> r.1 == p + r.0 + 1 && ByteAt(data, p + r.0) == 0xFF
                    && forall k :: p <= k < p + r.0 ==> ByteAt(data, k) != 0xFF)
      && (r.0 < 0 ==> r.0 == -1 && r.1 >= length && forall k :: p <= k < r.1 ==> ByteAt(data, k) != 0xFF)
  {
    NonMarkerScanMeaning(data, length, p + 1, 0, ByteAt(data, p));
  }

  lemma {:induction false} MarkerAfterFFMeaning(data: seq<byte>, length: int, p: int)
    ensures var r := MarkerAfterFF(data, length, p);
      (r.0 >= 0 ==> r.0 != 0xFF && r.1 > p && r.1 - 1 < length && r.0 == ByteAt(data, r.1 - 1)
                    && forall k :: p <= k < r.1 - 1 ==> ByteAt(data, k) == 0xFF)
      && (r.0 < 0 ==> r.0 == -1 && r.1 >= length && r.1 >= p)
    decreases length - p
  {
    if p < length && ByteAt(data, p) == 0xFF {
      MarkerAfterFFMeaning(data, length, p + 1);
    }
  }

  /** `skip_to_next_marker` returns the first non-0xFF byte that follows a run of
      0xFF bytes, or -1 when the data ends before one. */
  lemma NextMarkerMeaning(data: seq<byte>, length: int, p: int)
    ensures var r := NextMarker(data, length, p);
      (r.0 >= 0 ==> r.0 < 256 && r.0 != 0xFF && r.1 - 1 < length && r.0 == ByteAt(data, r.1 - 1)
                    && ByteAt(data, r.1 - 2) == 0xFF)
      && (r.0 < 0 ==> r.0 == -1 && r.1 >= length)
  {
    CountNonMarkerMeaning(data, length, p);
    var q := CountNonMarker(data, length, p).1;
    MarkerAfterFFMeaning(data, length, q);
  }

  /** One byte of entropy-coded data after a 0xFF was read at p - 1 (the inner loop of
      `get_num_bits`): 0x00 means a stuffed 0xFF; an RST marker is dropped together
      with the 0xFF and the byte after it is taken; further 0xFF bytes are fill. */
  function AfterStuffingFF(data: seq<byte>, p: int): (r: (int, int))
    decreases |data| - p
  {
    var t := ByteAt(data, p);
    if t == 0 then (0xFF, p + 1)
    else if IsRst(t) then
      (if ByteAt(data, p + 1) == 0xFF then AfterStuffingFF(data, p + 2) else (ByteAt(data, p + 1), p + 2))
    else if t == 0xFF then AfterStuffingFF(data, p + 1)
    else (t, p + 1)
  }

  /** The next data byte of the entropy-coded segment and the position after it. */
  function Destuff(data: seq<byte>, p: int): (r: (int, int))
  {
    if ByteAt(data, p) != 0xFF then (ByteAt(data, p), p + 1) else AfterStuffingFF(data, p + 1)
  }

  lemma {:induction false} AfterStuffingFFRange(data: seq<byte>, p: int)
    ensures 0 <= AfterStuffingFF(data, p).0 < 256 && AfterStuffingFF(data, p).1 > p
    decreases |data| - p
  {
    var t := ByteAt(data, p);
    if t != 0 && IsRst(t) && ByteAt(data, p + 1) == 0xFF {
      AfterStuffingFFRange(data, p + 2);
    } else if t != 0 && !IsRst(t) && t == 0xFF {
      AfterStuffingFFRange(data, p + 1);
    }
  }

  /** Section F.1.2.3 and F.2.2.5: a plain byte is itself, 0xFF 0x00 is a 0xFF data
      byte, and RSTm markers are skipped; the result is always one byte and the
      cursor moves forward. */
  lemma DestuffMeaning(data: seq<byte>, p: int)
    ensures 0 <= Destuff(data, p).0 < 256 && Destuff(data, p).1 > p
    ensures ByteAt(data, p) != 0xFF ==> Destuff(data, p) == (ByteAt(data, p), p + 1)
    ensures ByteAt(data, p) == 0xFF && ByteAt(data, p + 1) == 0 ==> Destuff(data, p) == (0xFF, p + 2)
    ensures ByteAt(data, p) == 0xFF && IsRst(ByteAt(data, p + 1)) && ByteAt(data, p + 2) != 0xFF ==>
              Destuff(data, p) == (ByteAt(data, p + 2), p + 3)
  {
    AfterStuffingFFRange(data, p + 1);
  }
}
