/** The BMP writer of src/bmp.c: the output file name, the two headers of a
    24-bit uncompressed Windows bitmap, the pixel rows taken from the decoded
    MCU buffer, and the bytes that `write_bmp_to_file` puts in the file. The
    headers are written as their packed little-endian structures. */
module Bmp {
  import opened Bytes
  import opened Arith

  type u16 = x: int | 0 <= x < 65536
  type u32 = x: int | 0 <= x < 0x1_0000_0000

  /** `sizeof(BmpHeader)` and `sizeof(WindowsInfoheader)` of the packed structures. */
  const BMP_HEADER_SIZE: int := 14
  const INFO_HEADER_SIZE: int := 40
  const BI_RGB: int := 0

  // ---------------------------------------------------------------- file name

  /** The index of the last '.' of s, as `strrchr` finds it. */
  function LastDot(s: string): (r: Option<nat>)
    ensures r.Some? ==> r.value < |s| && s[r.value] == '.'
  {
    if |s| == 0 then None
    else if s[|s| - 1] == '.' then Some(|s| - 1)
    else LastDot(s[..|s| - 1])
  }

  lemma {:induction false} LastDotMeaning(s: string)
    ensures LastDot(s).None? <==> forall i :: 0 <= i < |s| ==> s[i] != '.'
    ensures LastDot(s).Some? ==> forall i :: LastDot(s).value < i < |s| ==> s[i] != '.'
  {
    if |s| > 0 && s[|s| - 1] != '.' {
      LastDotMeaning(s[..|s| - 1]);
      assert forall i :: 0 <= i < |s| - 1 ==> s[..|s| - 1][i] == s[i];
    }
  }

  /** `form_bmp_filename`: the extension from the last '.' on is replaced by
      "-dpu.bmp", which is appended when the name has no '.'. */
  function BmpFilename(name: string): string
  {
    var stem := match LastDot(name) case None => name case Some(k) => name[..k];
    stem + "-dpu.bmp"
  }

  /** The name is the longest prefix of `name` that leaves no '.' behind it
      other than a first one, followed by "-dpu.bmp"; it fits the
      `strlen(filename) + 9` bytes allocated for it, with its terminator. */
  lemma BmpFilenameMeaning(name: string)
    ensures var r := BmpFilename(name); var k := |r| - 8;
      0 <= k <= |name| && r[..k] == name[..k] && r[k..] == "-dpu.bmp"
      && (k == |name| <==> forall i :: 0 <= i < |name| ==> name[i] != '.')
      && (k < |name| ==> name[k] == '.' && forall i :: k < i < |name| ==> name[i] != '.')
      && |r| + 1 <= |name| + 9
  {
    LastDotMeaning(name);
  }

  // ---------------------------------------------------------------- headers

  datatype BmpHeader = BmpHeader(magic0: byte, magic1: byte, size: u32, reserved1: u16, reserved2: u16, data: u32)

  datatype InfoHeader = InfoHeader(
    size: u32, width: u32, height: u32, planes: u16, bitsPerPixel: u16, compression: u32,
    length: u32, hres: u32, vres: u32, palette: u32, important: u32)

  /** `initialize_window_info_header`: `length` is the product
      width * height * 3, truncated to 32 bits. The `int32_t` width and height
      are kept as their 32-bit patterns. */
  function WindowInfoHeader(width: u32, height: u32): (r: InfoHeader)
    ensures r.length == U32(width * height * 3) && r.width == width && r.height == height
    ensures r.size == INFO_HEADER_SIZE && r.planes == 1 && r.bitsPerPixel == 24 && r.compression == BI_RGB
  {
    InfoHeader(INFO_HEADER_SIZE, width, height, 1, 24, BI_RGB, U32(width * height * (24 / 8)), 1, 1, 0, 0)
  }

  /** `initialize_bmp_header`, with the two reserved fields, which the source
      never sets, as parameters. */
  function FileHeader(win: InfoHeader, reserved1: u16, reserved2: u16): (r: BmpHeader)
    ensures r.data == BMP_HEADER_SIZE + INFO_HEADER_SIZE && r.size == U32(r.data + win.length)
  {
    var data := BMP_HEADER_SIZE + INFO_HEADER_SIZE;
    BmpHeader('B' as int, 'M' as int, U32(data + win.length), reserved1, reserved2, data)
  }

  function LE16(x: u16): (r: seq<byte>)
    ensures |r| == 2
  {
    [x % 256, x / 256]
  }

  function LE32(x: u32): (r: seq<byte>)
    ensures |r| == 4
  {
    [x % 256, x / 256 % 256, x / 65536 % 256, x / 16777216]
  }

  function ReadLE16(s: seq<byte>, i: int): (r: u16)
    requires 0 <= i && i + 2 <= |s|
  {
    s[i] as int + 256 * (s[i + 1] as int)
  }

  function ReadLE32(s: seq<byte>, i: int): (r: u32)
    requires 0 <= i && i + 4 <= |s|
  {
    s[i] as int + 256 * (s[i + 1] as int) + 65536 * (s[i + 2] as int) + 16777216 * (s[i + 3] as int)
  }

  lemma LE16RoundTrip(x: u16)
    ensures ReadLE16(LE16(x), 0) == x
  {
  }

  lemma LE32RoundTrip(x: u32)
    ensures ReadLE32(LE32(x), 0) == x
  {
    var q1 := x / 256;
    var q2 := q1 / 256;
    var q3 := q2 / 256;
    assert x == q1 * 256 + x % 256;
    assert q1 == q2 * 256 + q1 % 256;
    assert q2 == q3 * 256 + q2 % 256;
    assert q2 == x / 65536;
    assert q3 == x / 16777216;
  }

  /** The 14 bytes of the packed `BmpHeader`. */
  function HeaderBytes(h: BmpHeader): (r: seq<byte>)
    ensures |r| == BMP_HEADER_SIZE
  {
    [h.magic0, h.magic1] + LE32(h.size) + LE16(h.reserved1) + LE16(h.reserved2) + LE32(h.data)
  }

  /** The 40 bytes of the packed `WindowsInfoheader`. */
  function InfoBytes(w: InfoHeader): (r: seq<byte>)
    ensures |r| == INFO_HEADER_SIZE
  {
    LE32(w.size) + LE32(w.width) + LE32(w.height) + LE16(w.planes) + LE16(w.bitsPerPixel)
    + LE32(w.compression) + LE32(w.length) + LE32(w.hres) + LE32(w.vres) + LE32(w.palette) + LE32(w.important)
  }

  /** The header as a reader recovers it from the first 14 bytes of a file. */
  function ParseHeader(s: seq<byte>): BmpHeader
    requires |s| >= BMP_HEADER_SIZE
  {
    BmpHeader(s[0], s[1], ReadLE32(s, 2), ReadLE16(s, 6), ReadLE16(s, 8), ReadLE32(s, 10))
  }

  lemma LE16At(s: seq<byte>, i: int, x: u16)
    requires 0 <= i && i + 2 <= |s| && s[i..i + 2] == LE16(x)
    ensures ReadLE16(s, i) == x
  {
    LE16RoundTrip(x);
    assert s[i] == LE16(x)[0] && s[i + 1] == LE16(x)[1];
  }

  lemma LE32At(s: seq<byte>, i: int, x: u32)
    requires 0 <= i && i + 4 <= |s| && s[i..i + 4] == LE32(x)
    ensures ReadLE32(s, i) == x
  {
    LE32RoundTrip(x);
    assert s[i] == LE32(x)[0] && s[i + 1] == LE32(x)[1] && s[i + 2] == LE32(x)[2] && s[i + 3] == LE32(x)[3];
  }

  /** Reading the header back gives the header that was written. */
  lemma HeaderRoundTrip(h: BmpHeader, rest: seq<byte>)
    ensures ParseHeader(HeaderBytes(h) + rest) == h
  {
    var s := HeaderBytes(h) + rest;
    assert s[2..6] == LE32(h.size);
    assert s[6..8] == LE16(h.reserved1);
    assert s[8..10] == LE16(h.reserved2);
    assert s[10..14] == LE32(h.data);
    LE32At(s, 2, h.size);
    LE16At(s, 6, h.reserved1);
    LE16At(s, 8, h.reserved2);
    LE32At(s, 10, h.data);
  }

  // ---------------------------------------------------------------- body

  /** The bytes of a row of the body: three per pixel and `padding` zeros. */
  function Stride(width: int, padding: int): int
  {
    3 * width + padding
  }

  /** The position in `MCU_buffer` of plane p of pixel (x, y): the MCU at
      (y / 8, x / 8) of a buffer `mcuWidth` MCUs wide, three planes of 64
      samples each. */
  function SampleIndex(mcuWidth: int, y: int, x: int, p: int): int
  {
    ((y / 8 * mcuWidth + x / 8) * 3 + p) * 64 + (y % 8 * 8 + x % 8)
  }

  /** The MCU buffer covers every pixel of a width x height picture. */
  predicate Covers(n: int, mcuWidth: int, width: int, height: int)
  {
    0 <= width <= 8 * mcuWidth && 0 <= height && (height + 7) / 8 * mcuWidth * 192 <= n
  }

  lemma SampleInBuffer(n: int, mcuWidth: int, width: int, height: int, y: int, x: int, p: int)
    requires Covers(n, mcuWidth, width, height) && 0 <= y < height && 0 <= x < width && 0 <= p < 3
    ensures 0 <= SampleIndex(mcuWidth, y, x, p) < n
  {
    var r, c := y / 8, x / 8;
    assert r < (height + 7) / 8 && c < mcuWidth;
    MulMonoLe(r, (height + 7) / 8 - 1, mcuWidth);
    var i := r * mcuWidth + c;
    assert i < (height + 7) / 8 * mcuWidth;
    MulMonoLe(i * 3 + p + 1, (height + 7) / 8 * mcuWidth * 3, 64);
  }

  /** The 8-bit store of plane p of pixel (x, y), 0 for a sample outside
      the buffer. */
  function Sample(mcus: seq<int>, mcuWidth: int, y: int, x: int, p: int): byte
  {
    var i := SampleIndex(mcuWidth, y, x, p);
    if 0 <= i < |mcus| then U8(mcus[i]) else 0
  }

  /** The picture held in the MCU buffer: plane p of pixel (x, y). */
  function Picture(mcus: seq<int>, mcuWidth: int): (int, int, int) -> byte
  {
    (y, x, p) => Sample(mcus, mcuWidth, y, x, p)
  }

  /** The first n pixels of row y of `image`, each blue, green, red:
      planes 2, 1 and 0. */
  function RowPixels(image: (int, int, int) -> byte, y: int, n: int): (r: seq<byte>)
    ensures |r| == if n <= 0 then 0 else 3 * n
  {
    if n <= 0 then [] else RowPixels(image, y, n - 1) + [image(y, n - 1, 2), image(y, n - 1, 1), image(y, n - 1, 0)]
  }

  /** Row y as it is written: its pixels, then `padding` zeros. */
  function RowBytes(image: (int, int, int) -> byte, width: nat, padding: nat, y: int): (r: seq<byte>)
    ensures |r| == Stride(width, padding)
  {
    RowPixels(image, y, width) + seq<byte>(padding, _ => 0)
  }

  /** The first k rows written: rows height - 1 down to height - k. */
  function RowsWritten(image: (int, int, int) -> byte, width: nat, padding: nat, height: int, k: nat): (r: seq<byte>)
    ensures |r| == k * Stride(width, padding)
  {
    if k == 0 then []
    else RowsWritten(image, width, padding, height, k - 1) + RowBytes(image, width, padding, height - k)
  }

  /** The body `initialize_bmp_body` builds. */
  function Body(mcus: seq<int>, mcuWidth: int, width: nat, padding: nat, height: nat): (r: seq<byte>)
    ensures |r| == height * Stride(width, padding)
  {
    RowsWritten(Picture(mcus, mcuWidth), width, padding, height, height)
  }

  lemma {:induction false} RowPixelsPrefix(image: (int, int, int) -> byte, y: int, n: int, m: int)
    requires 0 <= n <= m
    ensures RowPixels(image, y, m)[..3 * n] == RowPixels(image, y, n)
    decreases m
  {
    if n < m {
      RowPixelsPrefix(image, y, n, m - 1);
      assert RowPixels(image, y, m)[..3 * (m - 1)] == RowPixels(image, y, m - 1);
    }
  }

  lemma {:induction false} RowsWrittenPrefix(image: (int, int, int) -> byte, width: nat, padding: nat, height: int, k: nat, m: nat)
    requires k <= m
    ensures RowsWritten(image, width, padding, height, m)[..k * Stride(width, padding)]
      == RowsWritten(image, width, padding, height, k)
    decreases m
  {
    if k < m {
      RowsWrittenPrefix(image, width, padding, height, k, m - 1);
      var s := Stride(width, padding);
      MulMonoLe(k, m - 1, s);
      assert RowsWritten(image, width, padding, height, m)[..(m - 1) * s] == RowsWritten(image, width, padding, height, m - 1);
    }
  }

  /** Pixel x of row y, channel c (blue, green, red), is plane 2 - c of
      that pixel of the image. */
  lemma RowPixelAt(image: (int, int, int) -> byte, y: int, n: int, x: int, c: int)
    requires 0 <= x < n && 0 <= c < 3
    ensures RowPixels(image, y, n)[3 * x + c] == image(y, x, 2 - c)
  {
    RowPixelsPrefix(image, y, x + 1, n);
    assert RowPixels(image, y, n)[..3 * (x + 1)] == RowPixels(image, y, x + 1);
  }

  /** The k-th row written of the body is row height - 1 - k. */
  lemma RowWrittenAt(image: (int, int, int) -> byte, width: nat, padding: nat, height: nat, k: nat, off: int)
    requires k < height && 0 <= off < Stride(width, padding)
    ensures var s := Stride(width, padding);
      (k * s + off < height * s
      && RowsWritten(image, width, padding, height, height)[k * s + off] == RowBytes(image, width, padding, height - 1 - k)[off])
  {
    var s := Stride(width, padding);
    MulSucc(k, s);
    RowsWrittenPrefix(image, width, padding, height, k + 1, height);
    MulMonoLe(k + 1, height, s);
    assert RowsWritten(image, width, padding, height, height)[..(k + 1) * s] == RowsWritten(image, width, padding, height, k + 1);
  }

  /** Byte j of the body, by position alone: the row at j / stride is
      picture row height - 1 - j / stride; within a row pixel x takes three
      bytes, blue, green and red, and the padding bytes are zero. */
  function BodyByte(image: (int, int, int) -> byte, width: int, height: int, padding: int, j: int): byte
  {
    var s := Stride(width, padding);
    if s <= 0 then 0
    else
      var row := j / s;
      var col := j % s;
      if col >= 3 * width then 0
      else image(height - 1 - row, col / 3, 2 - col % 3)
  }

  /** The rows written, one after the other, have at every position the
      byte that the position alone determines. */
  lemma RowsWrittenByPosition(image: (int, int, int) -> byte, width: nat, padding: nat, height: nat, j: int)
    requires 0 <= j < height * Stride(width, padding)
    ensures RowsWritten(image, width, padding, height, height)[j] == BodyByte(image, width, height, padding, j)
  {
    var s := Stride(width, padding);
    if s == 0 {
      assert false;
    }
    DivModParts(j, s);
    var k, off := j / s, j % s;
    if k >= height {
      MulMonoLe(height, k, s);
      assert false;
    }
    RowWrittenAt(image, width, padding, height, k, off);
    if off < 3 * width {
      DivModParts(off, 3);
      RowPixelAt(image, height - 1 - k, width, off / 3, off % 3);
    }
  }

  /** Every byte of the body is the byte of the picture that its position
      names: blue, green, red of the pixel, rows bottom-up, zero padding. */
  lemma BodyIsByPosition(mcus: seq<int>, mcuWidth: int, width: nat, padding: nat, height: nat, j: int)
    requires 0 <= j < height * Stride(width, padding)
    ensures Body(mcus, mcuWidth, width, padding, height)[j] == BodyByte(Picture(mcus, mcuWidth), width, height, padding, j)
  {
    RowsWrittenByPosition(Picture(mcus, mcuWidth), width, padding, height, j);
  }

  /** `initialize_bmp_body`: a buffer of `height * (3 * width + padding)`
      bytes, filled row by row from the bottom row of the picture up. */
  method InitializeBmpBody(mcus: seq<int>, mcuWidth: int, width: nat, height: nat, padding: nat) returns (data: array<byte>)
    requires Covers(|mcus|, mcuWidth, width, height)
    ensures data[..] == Body(mcus, mcuWidth, width, padding, height)
  {
    data := new byte[height * Stride(width, padding)];
    PictureShown(mcus, mcuWidth, width, height);
    FillRows(mcus, mcuWidth, width, height, padding, data, Picture(mcus, mcuWidth));
  }

  /** The outer loop of `initialize_bmp_body`. */
  method FillRows(mcus: seq<int>, mcuWidth: int, width: nat, height: nat, padding: nat, data: array<byte>, ghost image: (int, int, int) -> byte)
    requires data.Length == height * Stride(width, padding)
    requires forall y :: 0 <= y < height ==> RowShown(mcus, mcuWidth, width, image, y)
    modifies data
    ensures data[..] == RowsWritten(image, width, padding, height, height)
  {
    var s := Stride(width, padding);
    var ptr := 0;
    var y := height - 1;
    ghost var k: nat := 0;
    while y >= 0
      invariant -1 <= y < height && k + y == height - 1 && ptr == k * s && ptr <= data.Length
      invariant data[..ptr] == RowsWritten(image, width, padding, height, k)
    {
      MulMonoLe(k + 1, height, s);
      MulSucc(k, s);
      FillRow(mcus, mcuWidth, width, padding, data, image, y, ptr);
      ptr := ptr + s;
      y := y - 1;
      k := k + 1;
    }
    assert k == height && ptr == data.Length;
    assert data[..] == data[..ptr];
  }

  /** One pass of the outer loop of `initialize_bmp_body`: picture row y,
      then its padding, at `ptr`. */
  method FillRow(mcus: seq<int>, mcuWidth: int, width: nat, padding: nat, data: array<byte>,
                 ghost image: (int, int, int) -> byte, y: int, ptr: nat)
    requires RowShown(mcus, mcuWidth, width, image, y) && ptr + Stride(width, padding) <= data.Length
    modifies data
    ensures data[..ptr + Stride(width, padding)] == old(data[..ptr]) + RowBytes(image, width, padding, y)
  {
    var p := FillPixels(mcus, mcuWidth, width, data, image, y, ptr);
    FillPadding(data, p, padding);
  }

  /** Row y of `image` is what the MCU buffer holds for it: every sample of
      the row lies in the buffer and its low 8 bits are the image's. */
  ghost predicate RowShown(mcus: seq<int>, mcuWidth: int, width: nat, image: (int, int, int) -> byte, y: int)
  {
    forall x, p {:trigger SampleIndex(mcuWidth, y, x, p)} :: 0 <= x < width && 0 <= p < 3 ==>
      0 <= SampleIndex(mcuWidth, y, x, p) < |mcus| && U8(mcus[SampleIndex(mcuWidth, y, x, p)]) == image(y, x, p)
  }

  /** A buffer that covers the picture shows every row of it. */
  lemma PictureShown(mcus: seq<int>, mcuWidth: int, width: nat, height: nat)
    requires Covers(|mcus|, mcuWidth, width, height)
    ensures forall y :: 0 <= y < height ==> RowShown(mcus, mcuWidth, width, Picture(mcus, mcuWidth), y)
  {
    forall y, x, p | 0 <= y < height && 0 <= x < width && 0 <= p < 3
      ensures 0 <= SampleIndex(mcuWidth, y, x, p) < |mcus|
    {
      SampleInBuffer(|mcus|, mcuWidth, width, height, y, x, p);
    }
  }

  /** The inner loop of `initialize_bmp_body`: the pixels of picture row y
      from `ptr` on, blue, green, red. */
  method FillPixels(mcus: seq<int>, mcuWidth: int, width: nat, data: array<byte>,
                    ghost image: (int, int, int) -> byte, y: int, ptr: nat) returns (p: nat)
    requires RowShown(mcus, mcuWidth, width, image, y) && ptr + 3 * width <= data.Length
    modifies data
    ensures p == ptr + 3 * width
    ensures data[..p] == old(data[..ptr]) + RowPixels(image, y, width)
  {
    p := ptr;
    var x := 0;
    while x < width
      invariant 0 <= x <= width && p == ptr + 3 * x
      invariant data[..p] == old(data[..ptr]) + RowPixels(image, y, x)
    {
      StorePixel(mcus, mcuWidth, width, data, image, y, x, p);
      p := p + 3;
      x := x + 1;
    }
  }

  /** The body of the inner loop of `initialize_bmp_body`: the three bytes
      of pixel (x, y) at p. */
  method StorePixel(mcus: seq<int>, mcuWidth: int, width: nat, data: array<byte>,
                    ghost image: (int, int, int) -> byte, y: int, x: int, p: nat)
    requires RowShown(mcus, mcuWidth, width, image, y) && 0 <= x < width && p + 3 <= data.Length
    modifies data
    ensures data[..p + 3] == old(data[..p]) + [image(y, x, 2), image(y, x, 1), image(y, x, 0)]
  {
    data[p] := U8(mcus[SampleIndex(mcuWidth, y, x, 2)]);
    data[p + 1] := U8(mcus[SampleIndex(mcuWidth, y, x, 1)]);
    data[p + 2] := U8(mcus[SampleIndex(mcuWidth, y, x, 0)]);
  }

  /** The padding loop of `initialize_bmp_body`: `padding` zeros at p0. */
  method FillPadding(data: array<byte>, p0: nat, padding: nat)
    requires p0 + padding <= data.Length
    modifies data
    ensures data[..p0 + padding] == old(data[..p0]) + seq<byte>(padding, _ => 0)
  {
    var p := p0;
    var i := 0;
    while i < padding
      invariant 0 <= i <= padding && p == p0 + i
      invariant data[..p] == old(data[..p0]) + seq<byte>(i, _ => 0)
    {
      data[p] := 0;
      assert data[..p + 1] == data[..p] + [0];
      assert seq<byte>(i + 1, _ => 0) == seq<byte>(i, _ => 0) + [0];
      p := p + 1;
      i := i + 1;
    }
  }

  /** `padding = image_width % 4` (src/jpeg-cpu.c) is exactly what makes each
      row of the body a multiple of four bytes long, as the format asks. */
  lemma PaddingAligns(width: nat)
    ensures Stride(width, width % 4) % 4 == 0
    ensures forall q :: 0 <= q < width % 4 ==> Stride(width, q) % 4 != 0
  {
    DivModParts(width, 4);
    var w := width / 4;
    var m := width % 4;
    assert Stride(width, m) == 4 * (3 * w + m);
    forall q | 0 <= q < m
      ensures Stride(width, q) % 4 != 0
    {
      assert Stride(width, q) == 4 * (3 * w + m - 1) + (4 - m + q);
      DivModUnique(3 * w + m - 1, 4, 4 - m + q);
    }
  }

  // ---------------------------------------------------------------- file

  /** The bytes `write_bmp_to_file` writes: both headers and the first
      `length` bytes of the body (no more than the body holds). */
  function WrittenFile(h: BmpHeader, w: InfoHeader, body: seq<byte>): seq<byte>
  {
    HeaderBytes(h) + InfoBytes(w) + body[..if w.length <= |body| then w.length else |body|]
  }

  /** `write_bmp` for a picture of width x height with the given row padding. */
  function BmpFile(width: u32, height: u32, body: seq<byte>, reserved1: u16, reserved2: u16): seq<byte>
  {
    var w := WindowInfoHeader(width, height);
    WrittenFile(FileHeader(w, reserved1, reserved2), w, body)
  }

  /** As written: a picture one pixel wide and one high has a body of one
      pixel and one padding byte, but the header counts three bytes of pixel
      data, so the file ends before the padding of the last row and its size
      field is one short of a whole file. */
  lemma BmpFileTruncated(body: seq<byte>, reserved1: u16, reserved2: u16)
    requires |body| == 1 * Stride(1, 1 % 4)
    ensures |BmpFile(1, 1, body, reserved1, reserved2)| == BMP_HEADER_SIZE + INFO_HEADER_SIZE + |body| - 1
    ensures FileHeader(WindowInfoHeader(1, 1), reserved1, reserved2).size == BMP_HEADER_SIZE + INFO_HEADER_SIZE + |body| - 1
  {
  }

  /** Corrected: the pixel data length counts the padded rows. */
  function IntendedInfoHeader(width: u32, height: u32): InfoHeader
  {
    WindowInfoHeader(width, height).(length := U32(height * Stride(width, width % 4)))
  }

  function IntendedBmpFile(width: u32, height: u32, body: seq<byte>, reserved1: u16, reserved2: u16): seq<byte>
  {
    var w := IntendedInfoHeader(width, height);
    WrittenFile(FileHeader(w, reserved1, reserved2), w, body)
  }

  /** A body whose length the info header states is written whole, after
      the 54 bytes of the two headers. */
  lemma WrittenWhole(h: BmpHeader, w: InfoHeader, body: seq<byte>)
    requires w.length == |body|
    ensures WrittenFile(h, w, body) == HeaderBytes(h) + (InfoBytes(w) + body)
    ensures WrittenFile(h, w, body)[BMP_HEADER_SIZE + INFO_HEADER_SIZE..] == body
  {
    assert body[..w.length] == body;
    var f := WrittenFile(h, w, body);
    assert f == HeaderBytes(h) + InfoBytes(w) + body;
    assert f[BMP_HEADER_SIZE + INFO_HEADER_SIZE..] == body;
  }

  /** With the corrected length, a body of `height` padded rows is written
      whole, the header's size is the length of the file, and its data
      offset is where the body starts (for files below 4 GiB). */
  lemma IntendedBmpFileComplete(width: u32, height: u32, body: seq<byte>, reserved1: u16, reserved2: u16)
    requires |body| == height * Stride(width, width % 4) && BMP_HEADER_SIZE + INFO_HEADER_SIZE + |body| < 0x1_0000_0000
    ensures var f := IntendedBmpFile(width, height, body, reserved1, reserved2);
      var h := FileHeader(IntendedInfoHeader(width, height), reserved1, reserved2);
      |f| == h.size && f[h.data..] == body && ParseHeader(f) == h
  {
    var w := IntendedInfoHeader(width, height);
    var h := FileHeader(w, reserved1, reserved2);
    U32Small(|body|);
    U32Small(BMP_HEADER_SIZE + INFO_HEADER_SIZE + |body|);
    WrittenHeaders(h, w, body);
  }

  /** A file whose headers state the body's length and the size of the
      whole reads back as those headers, with the body after them. */
  lemma WrittenHeaders(h: BmpHeader, w: InfoHeader, body: seq<byte>)
    requires w.length == |body| && h.data == BMP_HEADER_SIZE + INFO_HEADER_SIZE && h.size == h.data + |body|
    ensures var f := WrittenFile(h, w, body); |f| == h.size && f[h.data..] == body && ParseHeader(f) == h
  {
    WrittenWhole(h, w, body);
    HeaderRoundTrip(h, InfoBytes(w) + body);
  }
}
