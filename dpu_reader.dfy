/** The reader of the DPU decoder (src/dpu/dpu-jpeg-reader.c). The file
    lies in MRAM and each tasklet reads it through its own 1024-byte cache:
    `file_index` is the MRAM address the cache was loaded from and
    `cache_index` the next byte within it, so the position of the reader in
    the file is `file_index + cache_index`. Each operation is proved to move
    that position exactly as the byte cursor of the CPU decoder moves its
    `ptr`, and, while the cache mirrors MRAM, to read the bytes of the file. */
module DpuReader {
  import opened Bytes
  import opened Markers
  import opened Stream

  const PREFETCH_SIZE: int := 1024

  /** The size of the MRAM `file_buffer`, 16 MiB. */
  const FILE_BUFFER_SIZE: int := 0x100_0000

  /** The 1024 bytes that `mram_read(&file_buffer[f], cache, PREFETCH_SIZE)` copies. */
  function Window(mram: seq<byte>, f: int): (r: seq<byte>)
    ensures |r| == PREFETCH_SIZE
  {
    seq<byte>(PREFETCH_SIZE, j => ByteAt(mram, f + j))
  }

  /** `d->length` of a tasklet: the end of its share of the entropy-coded
      data, cut at the end of the file. */
  function TaskletEnd(start: int, size: int, tasklet: int, fileLength: int): (r: int)
    ensures r <= fileLength && r <= start + size * (tasklet + 1)
    ensures r == fileLength || r == start + size * (tasklet + 1)
  {
    var e := start + size * (tasklet + 1);
    if e > fileLength then fileLength else e
  }

  class PrefetchReader {
    /** The contents of `file_buffer`. */
    const mram: seq<byte>
    /** `file_buffer_cache[d->tasklet_id]`. */
    const cache: array<byte>
    var fileIndex: int
    var cacheIndex: int
    var length: int
    var bitBuffer: nat
    var bitsLeft: nat
    /** Set when the reader was moved without loading the cache, so that the
        cache no longer holds the bytes at `fileIndex`. */
    ghost var stale: bool

    /** The position of the reader in the file. */
    function Pos(): int
      reads this
    {
      fileIndex + cacheIndex
    }

    /** While the reader is not stale, a cache index below 1024 addresses the
        bytes of MRAM at `fileIndex`; a stale reader is at or past its end. */
    ghost predicate Valid()
      reads this, cache
    {
      cache.Length == PREFETCH_SIZE && 0 <= cacheIndex < 2 * PREFETCH_SIZE && 0 <= Pos() && 0 <= length
      && (cacheIndex < PREFETCH_SIZE && !stale ==> cache[..] == Window(mram, fileIndex))
      && (stale ==> Pos() >= length)
    }

    /** A reader over the MRAM contents `mram` whose cache is empty. */
    constructor (mram: seq<byte>)
      ensures Valid() && this.mram == mram && !stale
      ensures Pos() == 0 && cacheIndex == PREFETCH_SIZE && length == |mram|
    {
      this.mram := mram;
      cache := new byte[PREFETCH_SIZE](_ => 0);
      fileIndex := -PREFETCH_SIZE;
      cacheIndex := PREFETCH_SIZE;
      length := |mram|;
      bitBuffer := 0;
      bitsLeft := 0;
      stale := false;
    }

    /** `init_file_reader_index`: the reader is at the start of the file and
        the cache is empty, so the first read loads MRAM from address 0. */
    method InitFileReaderIndex()
      requires Valid()
      modifies this
      ensures Valid() && Pos() == 0 && cacheIndex == PREFETCH_SIZE && fileIndex + PREFETCH_SIZE == 0
      ensures length == old(length) && bitBuffer == old(bitBuffer) && bitsLeft == old(bitsLeft) && !stale
    {
      fileIndex := -PREFETCH_SIZE;
      cacheIndex := PREFETCH_SIZE;
      stale := false;
    }

    /** `init_jpeg_decompressor`: tasklet `tasklet` starts at its share of the
        entropy-coded data, with the cache empty and the next load moved down
        to an 8-byte-aligned address; its end is the start of the next share
        or the end of the file. */
    method InitJpegDecompressor(start: int, size: int, tasklet: int, fileLength: nat)
      requires Valid() && 0 <= start && 0 <= size && 0 <= tasklet
      requires start + size * (tasklet + 1) <= FILE_BUFFER_SIZE
      modifies this
      ensures Valid() && !stale && Pos() == start + size * tasklet
      ensures cacheIndex >= PREFETCH_SIZE && (fileIndex + PREFETCH_SIZE) % 8 == 0
      ensures length == TaskletEnd(start, size, tasklet, fileLength)
      ensures bitBuffer == 0 && bitsLeft == 0
    {
      var fi := start + size * tasklet;
      var offset := fi % 8;
      fileIndex := fi - offset - PREFETCH_SIZE;
      cacheIndex := offset + PREFETCH_SIZE;
      length := start + size * (tasklet + 1);
      if length > fileLength {
        length := fileLength;
      }
      bitBuffer := 0;
      bitsLeft := 0;
      stale := false;
    }

    /** `is_eof`. */
    predicate IsEof()
      reads this
    {
      Pos() >= length
    }

    /** `mram_read(&file_buffer[d->file_index], cache, PREFETCH_SIZE)`. */
    method LoadCache()
      requires cache.Length == PREFETCH_SIZE
      modifies cache, this`stale
      ensures cache[..] == Window(mram, fileIndex) && !stale
    {
      forall j | 0 <= j < PREFETCH_SIZE {
        cache[j] := ByteAt(mram, fileIndex + j);
      }
      stale := false;
    }

    /** `read_byte`: the cache is reloaded 1024 bytes further on once it is
        used up; a reader that is not stale reads the byte of the file at
        its position, and so does any reader before its end. */
    method ReadByte() returns (b: byte)
      requires Valid()
      modifies this`fileIndex, this`cacheIndex, this`stale, cache
      ensures Valid() && Pos() == old(Pos()) + 1
      ensures !old(stale) ==> b == ByteAt(mram, old(Pos())) && !stale
      ensures old(Pos()) < length ==> b == ByteAt(mram, old(Pos()))
      ensures fileIndex == old(fileIndex) || fileIndex == old(fileIndex) + PREFETCH_SIZE
    {
      if cacheIndex >= PREFETCH_SIZE {
        fileIndex := fileIndex + PREFETCH_SIZE;
        LoadCache();
        cacheIndex := cacheIndex - PREFETCH_SIZE;
      }
      b := cache[cacheIndex];
      cacheIndex := cacheIndex + 1;
    }

    /** `read_short`. */
    method ReadShort() returns (r: nat)
      requires Valid()
      modifies this`fileIndex, this`cacheIndex, this`stale, cache
      ensures Valid() && Pos() == old(Pos()) + 2
      ensures !old(stale) ==> r == ShortAt(mram, old(Pos())) && !stale
    {
      var b1 := ReadByte();
      var b2 := ReadByte();
      r := BigEndian16(b1, b2);
    }

    /** `skip_bytes` (only called with a length that is not negative): the
        whole blocks are stepped over and the cache is loaded at the block
        the position falls in; at or past the end the reader is put at the
        end, as `Stream.SkipTarget` says. */
    method SkipBytes(n: int)
      requires Valid() && n >= 0
      modifies this`fileIndex, this`cacheIndex, this`stale, cache
      ensures Valid() && Pos() == SkipTarget(length, old(Pos()), n)
    {
      var offset := cacheIndex + n;
      if offset >= PREFETCH_SIZE {
        while offset >= PREFETCH_SIZE
          invariant fileIndex + offset == old(Pos()) + n && offset >= 0
          decreases offset
        {
          offset := offset - PREFETCH_SIZE;
          fileIndex := fileIndex + PREFETCH_SIZE;
        }
        LoadCache();
      }
      cacheIndex := offset;
      if IsEof() {
        fileIndex := length;
        cacheIndex := 0;
        stale := true;
      }
    }

    /** `skip_marker`. */
    method SkipMarker() returns (s: Status)
      requires Valid()
      modifies this`fileIndex, this`cacheIndex, this`stale, cache
      ensures Valid()
      ensures !old(stale) ==> (s, Pos()) == SkipMarkerSpec(mram, length, old(Pos()))
    {
      var len: int := ReadShort();
      len := len - 2;
      if len < 0 {
        return JpegInvalid;
      }
      SkipBytes(len);
      s := JpegValid;
    }

    /** `count_and_skip_non_marker_bytes`. */
    method CountAndSkipNonMarkerBytes() returns (n: int)
      requires Valid()
      modifies this`fileIndex, this`cacheIndex, this`stale, cache
      ensures Valid() && (!old(stale) ==> !stale)
      ensures !old(stale) ==> (n, Pos()) == CountNonMarker(mram, length, old(Pos()))
    {
      ghost var fresh0 := !stale;
      var count: nat := 0;
      var b := ReadByte();
      while b != 0xFF
        invariant Valid() && (fresh0 ==> !stale)
        invariant fresh0 ==> NonMarkerScan(mram, length, Pos(), count, b) == CountNonMarker(mram, length, old(Pos()))
        decreases length - Pos()
      {
        if IsEof() {
          return -1;
        }
        count := count + 1;
        b := ReadByte();
      }
      n := count;
    }

    /** `get_marker_and_ignore_ff_bytes`. */
    method GetMarkerAndIgnoreFFBytes() returns (m: int)
      requires Valid()
      modifies this`fileIndex, this`cacheIndex, this`stale, cache
      ensures Valid() && (!old(stale) ==> !stale)
      ensures !old(stale) ==> (m, Pos()) == MarkerAfterFF(mram, length, old(Pos()))
    {
      ghost var fresh0 := !stale;
      while true
        invariant Valid() && (fresh0 ==> !stale)
        invariant fresh0 ==> MarkerAfterFF(mram, length, Pos()) == MarkerAfterFF(mram, length, old(Pos()))
        decreases length - Pos()
      {
        if IsEof() {
          return -1;
        }
        var b := ReadByte();
        if b != 0xFF {
          return b;
        }
      }
    }

    /** `skip_to_next_marker`: the marker code after the next run of 0xFF
        bytes, or -1 at the end of the tasklet's data. */
    method SkipToNextMarker() returns (m: int)
      requires Valid()
      modifies this`fileIndex, this`cacheIndex, this`stale, cache
      ensures Valid()
      ensures !old(stale) ==> (m, Pos()) == NextMarker(mram, length, old(Pos()))
    {
      var skipped := CountAndSkipNonMarkerBytes();
      m := GetMarkerAndIgnoreFFBytes();
    }
  }
}
