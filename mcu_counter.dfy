/** penji/mcu_block_counter.c: the Huffman table lookup that matches the
    scan buffer against the chain of codes of one length, the bit cursor
    operations, the decoding of one MCU (a DC symbol, then AC symbols until
    end of block), and the loop that counts MCUs until the program stops. */
module McuCounter {
  import opened Bytes
  import opened Arith
  import opened PenjiUtil
  import opened ScanBits

  // ------------------------------------------------------------ find_hufftable_entry

  /** What `find_hufftable_entry` yields: a symbol, NULL, or a read of
      `frequencies[len_index]` past the 16 counts. */
  datatype Lookup = OutOfTable | NotFound | Found(sym: HuffSymbol)

  /** The shape `parse_huffman_table` gives a table: 16 counts and 16 chains,
      the chain of length i + 1 holding `frequencies[i]` symbols. */
  predicate Chains(t: PenjiTable)
  {
    |t.frequencies| == 16 && |t.symbols| == 16
    && forall i :: 0 <= i < 16 ==> |t.symbols[i]| == t.frequencies[i] as int
  }

  /** The walk along a chain: the first symbol whose bitstring is s. */
  function FirstMatch(chain: seq<HuffSymbol>, s: int): Option<HuffSymbol>
  {
    if |chain| == 0 then None
    else if chain[0].bitstring == s then Some(chain[0])
    else FirstMatch(chain[1..], s)
  }

  /** The walk finds a symbol exactly when one has the bitstring, and then
      the first one. */
  lemma {:induction false} FirstMatchMeaning(chain: seq<HuffSymbol>, s: int)
    ensures var r := FirstMatch(chain, s);
      (r.None? <==> forall k :: 0 <= k < |chain| ==> chain[k].bitstring != s)
      && (r.Some? ==> exists k :: (0 <= k < |chain| && chain[k] == r.value && chain[k].bitstring == s
           && forall j :: 0 <= j < k ==> chain[j].bitstring != s))
  {
    if |chain| > 0 && chain[0].bitstring != s {
      FirstMatchMeaning(chain[1..], s);
      assert forall k :: 1 <= k < |chain| ==> chain[k] == chain[1..][k - 1];
      var r := FirstMatch(chain, s);
      if r.Some? {
        var k :| 0 <= k < |chain[1..]| && chain[1..][k] == r.value && chain[1..][k].bitstring == s
           && forall j :: 0 <= j < k ==> chain[1..][j].bitstring != s;
        assert chain[k + 1] == r.value;
        assert forall j :: 0 <= j < k + 1 ==> chain[j].bitstring != s by {
          forall j | 0 <= j < k + 1 ensures chain[j].bitstring != s {
            if j > 0 { assert chain[j] == chain[1..][j - 1]; }
          }
        }
      }
    }
  }

  /** `find_hufftable_entry` as written: `len_index` is an `unsigned char`,
      so for `valid_buf_bits == 0` it is 255, the test `len_index < 0`
      never holds, and `frequencies[255]` is read. */
  function FindEntryAsWritten(t: PenjiTable, scanBuf: int, valid: int): (r: Lookup)
    requires Chains(t) && 0 <= valid < 256
    ensures r.OutOfTable? <==> !(1 <= valid <= 16)
  {
    var len := U8(valid - 1);
    if len >= 16 then OutOfTable
    else if t.frequencies[len] == 0 then NotFound
    else
      var m := FirstMatch(t.symbols[len], scanBuf);
      if m.Some? then Found(m.value) else NotFound
  }

  /** The lookup as intended: only the lengths 1 to 16 are looked up. */
  function FindEntry(t: PenjiTable, scanBuf: int, valid: int): Option<HuffSymbol>
    requires Chains(t)
  {
    if 1 <= valid <= 16 then FirstMatch(t.symbols[valid - 1], scanBuf) else None
  }

  /** The lookup finds a symbol of length `valid` with the bitstring held
      in the buffer, and misses only when the chain has none. */
  lemma FindEntryMeaning(t: PenjiTable, scanBuf: int, valid: int)
    requires Chains(t)
    ensures var r := FindEntry(t, scanBuf, valid);
      (r.Some? ==> 1 <= valid <= 16 && r.value in t.symbols[valid - 1] && r.value.bitstring == scanBuf)
      && (r.None? && 1 <= valid <= 16 ==> forall x :: x in t.symbols[valid - 1] ==> x.bitstring != scanBuf)
  {
    if 1 <= valid <= 16 {
      FirstMatchMeaning(t.symbols[valid - 1], scanBuf);
    }
  }

  /** For the lengths 1 to 16 the lookup as written is the intended one;
      for 0, the value the counter holds right after every match, it reads
      outside the counts. */
  lemma FindEntryAsWrittenAgrees(t: PenjiTable, scanBuf: int, valid: int)
    requires Chains(t) && 0 <= valid < 256
    ensures var r := FindEntryAsWritten(t, scanBuf, valid);
      if 1 <= valid <= 16 then r == (if FindEntry(t, scanBuf, valid).Some? then Found(FindEntry(t, scanBuf, valid).value) else NotFound)
      else r == OutOfTable
  {
    if 1 <= valid <= 16 {
      U8Small(valid - 1);
      if t.frequencies[valid - 1] == 0 {
        assert |t.symbols[valid - 1]| == 0;
      }
    }
  }

  /** With the chain that `parse_huffman_table` builds for length i + 1 (the
      codes 2 * Used(i), 2 * Used(i) + 1, ...), the lookup finds a symbol
      exactly for those codes, and it is the one at that place in the
      chain. */
  lemma FindEntryCanonical(t: PenjiTable, scanBuf: int, valid: int)
    requires Chains(t) && 1 <= valid <= 16 && Complete(t.symbols[valid - 1], t.frequencies, valid - 1)
    ensures var first := 2 * Used(t.frequencies, valid - 1); var r := FindEntry(t, scanBuf, valid);
      (r.Some? <==> first <= scanBuf < first + t.frequencies[valid - 1] as int)
      && (r.Some? ==> r.value == t.symbols[valid - 1][scanBuf - first] && r.value.length == valid)
  {
    var chain := t.symbols[valid - 1];
    var first := 2 * Used(t.frequencies, valid - 1);
    var r := FindEntry(t, scanBuf, valid);
    FirstMatchMeaning(chain, scanBuf);
    if first <= scanBuf < first + |chain| {
      assert chain[scanBuf - first].bitstring == scanBuf;
    }
    if r.Some? {
      var k :| 0 <= k < |chain| && chain[k] == r.value && chain[k].bitstring == scanBuf;
      assert k == scanBuf - first;
    }
  }

  /** `find_hufftable_entry`, walking `available_codes` nodes of the chain. */
  method FindHufftableEntry(t: PenjiTable, scanBuf: int, valid: byte) returns (r: Lookup)
    requires Chains(t)
    ensures r == FindEntryAsWritten(t, scanBuf, valid as int)
  {
    var lenIndex := U8(valid as int - 1);
    if lenIndex >= 16 {
      return OutOfTable;
    }
    var availableCodes := t.frequencies[lenIndex];
    if availableCodes == 0 {
      return NotFound;
    }
    var chain := t.symbols[lenIndex];
    var i := 0;
    while i < availableCodes as int
      invariant 0 <= i <= availableCodes as int == |chain|
      invariant forall j :: 0 <= j < i ==> chain[j].bitstring != scanBuf
    {
      if chain[i].bitstring == scanBuf {
        FirstMatchMeaning(chain, scanBuf);
        ghost var m := FirstMatch(chain, scanBuf);
        ghost var k :| 0 <= k < |chain| && chain[k] == m.value && chain[k].bitstring == scanBuf
          && forall j :: 0 <= j < k ==> chain[j].bitstring != scanBuf;
        assert k == i;
        return Found(chain[i]);
      }
      i := i + 1;
    }
    FirstMatchMeaning(chain, scanBuf);
    return NotFound;
  }

  // ------------------------------------------------------------ input_data_skip_bits

  /** `input_data_skip_bits` as written. When the skip runs past the
      current byte, `7 - index` bits are counted for it where `8 - index`
      are left, and `input_data` is cleared; otherwise the index moves on
      but `nbits` is not cleared, so the loop skips the rest of the byte
      and `nbits` more. */
  function SkipBits(data: seq<byte>, b: Bits, n: int): (r: Bits)
    requires 0 <= b.index < 8 && 0 <= n
    ensures r.scanBuf == b.scanBuf && r.valid == b.valid && 0 <= r.index < 8
    ensures n > 0 ==> Ahead(data, b, r)
  {
    if n > 7 - b.index then
      var s := SkipLoop(data, b.fs, 0, 0, n - (7 - b.index));
      b.(fs := s.0, input := s.1, index := s.2)
    else
      var s := SkipLoop(data, b.fs, b.input, b.index + n, n);
      b.(fs := s.0, input := s.1, index := s.2)
  }

  /** Where a skip of n bits leaves the cursor: a short skip lands n bits
      into the next byte, 8 - index + n bits on; a long one lands n + 1
      bits on, unless the bits past the current byte fill whole bytes, in
      which case the cursor is left on a cleared byte. */
  lemma SkipBitsLands(data: seq<byte>, fs0: FileState, b: Bits, m: nat, n: int)
    requires At(data, fs0, b, m) && 1 <= n
    ensures var r := SkipBits(data, b, n); var k := n - (7 - b.index);
      (n <= 7 - b.index ==> At(data, fs0, r, m + 1) && Position(r, m + 1) == Position(b, m) + (8 - b.index) + n)
      && (n > 7 - b.index && k % 8 != 0 ==> At(data, fs0, r, m + k / 8 + 1) && Position(r, m + k / 8 + 1) == Position(b, m) + n + 1)
      && (n > 7 - b.index && k % 8 == 0 ==> r.input == 0 && r.index == 0 && r.fs == ReadBytes(data, fs0, m + k / 8).1)
  {
    var k := n - (7 - b.index);
    if n <= 7 - b.index {
      SkipLoopReads(data, fs0, m, b.input, b.index + n, n, 0, n);
    } else {
      DivModParts(k, 8);
      SkipLoopReads(data, fs0, m, 0, 0, k, k / 8, k % 8);
    }
  }

  // ------------------------------------------------------------ process_mcu

  /** The ranges of the `unsigned char` and `unsigned short` cursor fields. */
  predicate Cursor(b: Bits)
  {
    0 <= b.index < 8 && 0 <= b.valid < 256 && 0 <= b.scanBuf < 65536
  }

  /** The cursor after the symbol loop, and the symbol it matched. */
  datatype Decoding = Decoding(cursor: Bits, sym: Option<HuffSymbol>)

  /** The `while (*valid_buf_bits <= 16)` loop of `process_mcu`: bits are
      added until the buffer matches a code of the table, which clears the
      buffer. With 17 bits and no match the loop gives up. */
  function NextSymbol(data: seq<byte>, t: PenjiTable, b: Bits): (r: Decoding)
    requires Chains(t) && Cursor(b)
    ensures Cursor(r.cursor) && NotBehind(data, b, r.cursor)
    ensures r.sym.Some? ==> r.cursor.valid == 0 && r.cursor.scanBuf == 0
    ensures r.sym.None? ==> r.cursor.valid > 16
    ensures b.valid > 16 ==> r == Decoding(b, None)
    ensures b.valid <= 16 && (r.sym.None? || b.valid == 0) ==> Ahead(data, b, r.cursor)
    decreases 17 - b.valid
  {
    if b.valid > 16 then Decoding(b, None)
    else
      var s := FindEntry(t, b.scanBuf, b.valid);
      if s.Some? then Decoding(b.(scanBuf := 0, valid := 0), s)
      else NextSymbol(data, t, AddBit(data, b))
  }

  /** The DC part of `process_mcu`: one symbol, whose value is the number
      of bits skipped (0 skips nothing). */
  function DcPart(data: seq<byte>, dc: PenjiTable, b: Bits): (r: Bits)
    requires Chains(dc) && Cursor(b)
    ensures Cursor(r) && NotBehind(data, b, r)
    ensures b.valid > 16 ==> r == b
    ensures b.valid <= 16 ==> r.valid == 0 || (r.valid > 16 && Ahead(data, b, r))
  {
    var ns := NextSymbol(data, dc, b);
    if ns.sym.Some? && ns.sym.value.value != 0 then SkipBits(data, ns.cursor, ns.sym.value.value as int) else ns.cursor
  }

  /** The AC loop of `process_mcu` from `i` on: up to coefficient 63 a
      symbol is read and its whole value skipped in bits; the value 0 (end
      of block) ends the loop. */
  function AcPart(data: seq<byte>, ac: PenjiTable, b: Bits, i: int): (r: Bits)
    requires Chains(ac) && Cursor(b) && 1 <= i <= 64
    ensures Cursor(r) && NotBehind(data, b, r)
    ensures b.valid > 16 ==> r == b
    ensures b.valid == 0 && i < 64 ==> Ahead(data, b, r)
    decreases 64 - i
  {
    if i == 64 then b
    else
      var ns := NextSymbol(data, ac, b);
      if ns.sym.Some? && ns.sym.value.value == 0 then ns.cursor
      else AcPart(data, ac, if ns.sym.Some? then SkipBits(data, ns.cursor, ns.sym.value.value as int) else ns.cursor, i + 1)
  }

  /** `process_mcu`. A cursor with room left in its buffer moves on (or
      the program exits); one whose buffer overran without a match is left
      as it is, so every later call does nothing. */
  function McuAfter(data: seq<byte>, dc: PenjiTable, ac: PenjiTable, b: Bits): (r: Bits)
    requires Chains(dc) && Chains(ac) && Cursor(b)
    ensures Cursor(r)
    ensures b.valid > 16 ==> r == b
    ensures b.valid <= 16 ==> Ahead(data, b, r)
  {
    AcPart(data, ac, DcPart(data, dc, b), 1)
  }

  // ------------------------------------------------------------ the symbols in the stream

  /** A code length and the symbol found at it. */
  datatype Hit = Hit(len: nat, sym: Option<HuffSymbol>)

  /** The shortest length from len on at which the bits of the stream from
      start on are a code of the table, and the symbol; 17 and none when no
      length up to 16 matches. */
  function Match(data: seq<byte>, fs0: FileState, t: PenjiTable, start: nat, len: nat): (r: Hit)
    requires Chains(t) && len <= 17
    ensures len <= r.len <= 17 && (r.sym.Some? <==> r.len <= 16)
    ensures r.sym.Some? ==> r.sym == FindEntry(t, Code(data, fs0, start, r.len), r.len)
    decreases 17 - len
  {
    if len > 16 then Hit(17, None)
    else
      var s := FindEntry(t, Code(data, fs0, start, len), len);
      if s.Some? then Hit(len, s) else Match(data, fs0, t, start, len + 1)
  }

  /** Byte and index arithmetic of one more bit. */
  lemma StepIndex(m: int, index: int, k: int)
    requires 0 <= index < 8 && k >= 1
    ensures (if index == 7 then m + 1 else m) + ((if index == 7 then 0 else index + 1) + k - 1) / 8 == m + (index + k) / 8
  {
    if index == 7 {
      DivModParts(k - 1, 8);
      DivModUnique((k - 1) / 8 + 1, 8, (k - 1) % 8);
    }
  }

  /** The byte the cursor is in k bits after bit `index` of byte m. */
  function After(m: nat, index: int, k: int): nat
    requires 0 <= index < 8 && 0 <= k
  {
    m + (index + k) / 8
  }

  /** The result r of the symbol loop is the match h of the stream bits
      from start on, with the cursor at byte m' just after the code and,
      after a match, the buffer cleared. */
  predicate Decoded(data: seq<byte>, fs0: FileState, r: Decoding, h: Hit, start: int, m': nat)
  {
    r.sym == h.sym && At(data, fs0, r.cursor, m') && Position(r.cursor, m') == start + h.len
    && (r.sym.Some? ==> Window(data, fs0, r.cursor, m'))
  }

  /** The symbol loop decodes the stream: from a buffer holding the bits
      before the cursor (bit `start` of the stream on), it stops at the
      shortest code h that matches, with the cursor just after it at byte
      `after` and the buffer cleared; or, with no match up to 16 bits, 17
      bits after `start`. */
  lemma {:induction false} NextSymbolDecodes(data: seq<byte>, fs0: FileState, t: PenjiTable, b: Bits, m: nat)
      returns (r: Decoding, h: Hit, start: int, after: nat)
    requires Chains(t) && Cursor(b) && Window(data, fs0, b, m)
    ensures r == NextSymbol(data, t, b) && start == Position(b, m) - b.valid && 0 <= start
    ensures h == Match(data, fs0, t, start, b.valid) && after == After(m, b.index, h.len - b.valid)
    ensures Decoded(data, fs0, r, h, start, after)
    decreases 17 - b.valid, 1
  {
    if FindEntry(t, b.scanBuf, b.valid).Some? {
      r, h, start, after := DecodedAtOnce(data, fs0, t, b, m);
    } else if b.valid < 16 {
      r, h, start, after := DecodedLater(data, fs0, t, b, m);
    } else {
      r, h, start, after := DecodedOverrun(data, fs0, t, b, m);
    }
  }

  /** No match yet and room for a bit: decode from the next cursor. */
  lemma {:induction false} DecodedLater(data: seq<byte>, fs0: FileState, t: PenjiTable, b: Bits, m: nat)
      returns (r: Decoding, h: Hit, start: int, after: nat)
    requires Chains(t) && Cursor(b) && Window(data, fs0, b, m) && b.valid < 16 && FindEntry(t, b.scanBuf, b.valid).None?
    ensures r == NextSymbol(data, t, b) && start == Position(b, m) - b.valid && 0 <= start
    ensures h == Match(data, fs0, t, start, b.valid) && after == After(m, b.index, h.len - b.valid)
    ensures Decoded(data, fs0, r, h, start, after)
    decreases 17 - b.valid, 0
  {
    var b1 := AddBit(data, b);
    var m1: nat := if b.index == 7 then m + 1 else m;
    AddBitWindow(data, fs0, b, m);
    r, h, start, after := NextSymbolDecodes(data, fs0, t, b1, m1);
    DecodedStep(data, fs0, t, b, m, m1, r, h, start, after);
  }

  /** One more bit: the outcome, start and end seen from the next cursor are
      those seen from this one. */
  lemma DecodedStep(data: seq<byte>, fs0: FileState, t: PenjiTable, b: Bits, m: nat, m1: nat,
                    r: Decoding, h: Hit, start: int, after: nat)
    requires Chains(t) && Cursor(b) && Window(data, fs0, b, m) && b.valid < 16 && FindEntry(t, b.scanBuf, b.valid).None?
    requires m1 == (if b.index == 7 then m + 1 else m) && Window(data, fs0, AddBit(data, b), m1)
    requires r == NextSymbol(data, t, AddBit(data, b)) && start == Position(AddBit(data, b), m1) - AddBit(data, b).valid && 0 <= start
    requires h == Match(data, fs0, t, start, AddBit(data, b).valid) && after == After(m1, AddBit(data, b).index, h.len - AddBit(data, b).valid)
    ensures r == NextSymbol(data, t, b) && start == Position(b, m) - b.valid
    ensures h == Match(data, fs0, t, start, b.valid) && after == After(m, b.index, h.len - b.valid)
  {
    var b1 := AddBit(data, b);
    AddBitAdvances(data, fs0, b, m);
    U8Small(b.valid + 1);
    assert b1.valid == b.valid + 1;
    MatchStep(data, fs0, t, b, m, start, b1.valid, h);
    StepIndex(m, b.index, h.len - b.valid);
  }

  /** No match with the bits buffered: the match from start is the one with
      one bit more. */
  lemma MatchStep(data: seq<byte>, fs0: FileState, t: PenjiTable, b: Bits, m: nat, start: int, len1: nat, h: Hit)
    requires Chains(t) && Cursor(b) && Window(data, fs0, b, m) && b.valid < 16 && FindEntry(t, b.scanBuf, b.valid).None?
    requires start == Position(b, m) - b.valid && len1 == b.valid + 1 && h == Match(data, fs0, t, start, len1)
    ensures h == Match(data, fs0, t, start, b.valid)
  {
  }

  /** A match with the bits already in the buffer. */
  lemma DecodedAtOnce(data: seq<byte>, fs0: FileState, t: PenjiTable, b: Bits, m: nat)
      returns (r: Decoding, h: Hit, start: int, after: nat)
    requires Chains(t) && Cursor(b) && Window(data, fs0, b, m) && FindEntry(t, b.scanBuf, b.valid).Some?
    ensures r == NextSymbol(data, t, b) && start == Position(b, m) - b.valid && 0 <= start
    ensures h == Match(data, fs0, t, start, b.valid) && after == After(m, b.index, h.len - b.valid)
    ensures Decoded(data, fs0, r, h, start, after)
  {
    start := Position(b, m) - b.valid;
    h := Hit(b.valid, FindEntry(t, b.scanBuf, b.valid));
    assert h == Match(data, fs0, t, start, b.valid);
    r := Decoding(b.(scanBuf := 0, valid := 0), FindEntry(t, b.scanBuf, b.valid));
    after := m;
    assert After(m, b.index, 0) == m;
  }

  /** Sixteen bits and no match: one more bit overruns the buffer. */
  lemma DecodedOverrun(data: seq<byte>, fs0: FileState, t: PenjiTable, b: Bits, m: nat)
      returns (r: Decoding, h: Hit, start: int, after: nat)
    requires Chains(t) && Cursor(b) && Window(data, fs0, b, m) && b.valid == 16 && FindEntry(t, b.scanBuf, b.valid).None?
    ensures r == NextSymbol(data, t, b) && start == Position(b, m) - b.valid && 0 <= start
    ensures h == Match(data, fs0, t, start, b.valid) && after == After(m, b.index, h.len - b.valid)
    ensures Decoded(data, fs0, r, h, start, after)
  {
    start := Position(b, m) - b.valid;
    AddBitAdvances(data, fs0, b, m);
    U8Small(17);
    after := if b.index == 7 then m + 1 else m;
    h := Hit(17, None);
    assert h == Match(data, fs0, t, start, 16);
    r := Decoding(AddBit(data, b), None);
    assert r == NextSymbol(data, t, b);
    StepIndex(m, b.index, 1);
    assert After(m, b.index, 1) == after;
  }

  // ------------------------------------------------------------ process_scan

  /** How the scan loop of the counter ends. `while (!feof(file))` never
      stops it: `read_1_byte` exits the program at the end of the file
      first, with the MCUs processed so far; or a buffer overruns without a
      match and the loop spins for ever, counting but reading nothing; or
      the header length is below 2 and the header array gets a negative
      size. */
  datatype ScanEnd = PrematureEof(count: nat) | Spins(count: nat) | BadHeader

  /** The counting loop of `process_scan`, from `count` MCUs on. */
  function CountMcus(data: seq<byte>, dc: PenjiTable, ac: PenjiTable, b: Bits, count: nat): (r: ScanEnd)
    requires Chains(dc) && Chains(ac) && Cursor(b) && !b.fs.exited && InFile(data, b.fs)
    ensures !r.BadHeader? && r.count >= count
    decreases |data| - b.fs.rs.pos, 8 - b.index
  {
    if b.valid > 16 then Spins(count)
    else
      var r := McuAfter(data, dc, ac, b);
      if r.fs.exited then PrematureEof(count) else CountMcus(data, dc, ac, r, count + 1)
  }

  /** `process_mcu` applied k times. */
  function McuIterate(data: seq<byte>, dc: PenjiTable, ac: PenjiTable, b: Bits, k: nat): (r: Bits)
    requires Chains(dc) && Chains(ac) && Cursor(b)
    ensures Cursor(r)
  {
    if k == 0 then b else McuAfter(data, dc, ac, McuIterate(data, dc, ac, b, k - 1))
  }

  /** The count the loop ends with is the number of `process_mcu` calls
      that returned, and `last` is the cursor after them: with
      `PrematureEof(n)` call n + 1 runs into the end of the file; with
      `Spins(n)` the buffer then holds more than 16 bits that match no
      code, so every further call changes nothing. */
  lemma {:induction false} CountMcusCounts(data: seq<byte>, dc: PenjiTable, ac: PenjiTable, b0: Bits, c: nat, b: Bits)
      returns (last: Bits)
    requires Chains(dc) && Chains(ac) && Cursor(b0)
    requires b == McuIterate(data, dc, ac, b0, c) && !b.fs.exited && InFile(data, b.fs)
    requires Returned(data, dc, ac, b0, c)
    ensures var r := CountMcus(data, dc, ac, b, c);
      last == McuIterate(data, dc, ac, b0, r.count) && Cursor(last) && Returned(data, dc, ac, b0, r.count)
      && (r.PrematureEof? ==> last.valid <= 16 && McuAfter(data, dc, ac, last).fs.exited)
      && (r.Spins? ==> last.valid > 16)
    decreases |data| - b.fs.rs.pos, 8 - b.index
  {
    last := b;
    if b.valid <= 16 {
      var r := CountStep(data, dc, ac, b0, c, b);
      if !r.fs.exited {
        ReturnedStep(data, dc, ac, b0, c);
        last := CountMcusCounts(data, dc, ac, b0, c + 1, r);
        assert CountMcus(data, dc, ac, b, c) == CountMcus(data, dc, ac, r, c + 1);
      } else {
        assert CountMcus(data, dc, ac, b, c) == PrematureEof(c);
      }
    } else {
      assert CountMcus(data, dc, ac, b, c) == Spins(c);
    }
  }

  /** One turn of the counting loop. */
  lemma CountStep(data: seq<byte>, dc: PenjiTable, ac: PenjiTable, b0: Bits, c: nat, b: Bits) returns (r: Bits)
    requires Chains(dc) && Chains(ac) && Cursor(b0) && Cursor(b)
    requires b == McuIterate(data, dc, ac, b0, c) && !b.fs.exited && InFile(data, b.fs) && b.valid <= 16
    ensures r == McuIterate(data, dc, ac, b0, c + 1) && r == McuAfter(data, dc, ac, b)
    ensures r.fs.exited <==> ExitedAt(data, dc, ac, b0, c + 1)
    ensures !r.fs.exited ==> InFile(data, r.fs) && CountMcus(data, dc, ac, b, c) == CountMcus(data, dc, ac, r, c + 1)
    ensures r.fs.exited ==> CountMcus(data, dc, ac, b, c) == PrematureEof(c)
    ensures !r.fs.exited ==> (Cursor(r) && r.fs.rs.pos <= |data|
      && (r.fs.rs.pos > b.fs.rs.pos || (r.fs.rs.pos == b.fs.rs.pos && r.index > b.index)))
  {
    r := McuAfter(data, dc, ac, b);
  }

  /** Calls 1 to n of `process_mcu` returned without exiting. */
  predicate Returned(data: seq<byte>, dc: PenjiTable, ac: PenjiTable, b0: Bits, n: nat)
    requires Chains(dc) && Chains(ac) && Cursor(b0)
  {
    forall k :: 1 <= k <= n ==> !ExitedAt(data, dc, ac, b0, k)
  }

  /** Call k of `process_mcu` ran into the end of the file. */
  predicate ExitedAt(data: seq<byte>, dc: PenjiTable, ac: PenjiTable, b0: Bits, k: nat)
    requires Chains(dc) && Chains(ac) && Cursor(b0)
  {
    McuIterate(data, dc, ac, b0, k).fs.exited
  }

  lemma ReturnedStep(data: seq<byte>, dc: PenjiTable, ac: PenjiTable, b0: Bits, n: nat)
    requires Chains(dc) && Chains(ac) && Cursor(b0)
    requires Returned(data, dc, ac, b0, n) && !ExitedAt(data, dc, ac, b0, n + 1)
    ensures Returned(data, dc, ac, b0, n + 1)
  {
  }

  /** The header of `process_scan`: a length `Ls` is read with
      `read_2_bytes` and the `Ls - 2` bytes after it with `fread`, which
      leaves `last_byte_read` alone; a short read exits, and a length below
      2 gives the header array a negative size. */
  function ScanHeader(data: seq<byte>, fs: FileState): (r: Option<FileState>)
    ensures r.Some? && !r.value.exited ==> InFile(data, r.value) && r.value.rs.pos >= fs.rs.pos
  {
    var len := Read2(data, fs);
    var headerLen := len.0 - 2;
    var at := len.1;
    if at.exited then Some(at)
    else if headerLen < 0 then None
    else if at.rs.pos + headerLen > |data| then Some(at.(exited := true))
    else Some(at.(rs := at.rs.(pos := at.rs.pos + headerLen)))
  }

  /** The cursor `process_scan` starts the count with: an empty buffer,
      the first byte of the entropy-coded data loaded and one bit added. */
  function FirstBit(data: seq<byte>, fs: FileState): (r: Bits)
    ensures Cursor(r)
  {
    var rd := Read1(data, fs);
    AddBit(data, Bits(rd.1, 0, 0, rd.0, 0))
  }

  /** `process_scan` of the counter, from the length of the SOS segment on. */
  function ScanCount(data: seq<byte>, dc: PenjiTable, ac: PenjiTable, fs: FileState): (r: ScanEnd)
    requires Chains(dc) && Chains(ac)
  {
    var h := ScanHeader(data, fs);
    if h.None? then BadHeader
    else if h.value.exited then PrematureEof(0)
    else
      var b := FirstBit(data, h.value);
      if b.fs.exited then PrematureEof(0) else CountMcus(data, dc, ac, b, 0)
  }

  /** The MCUs counted are those `process_mcu` finished, from the first
      bit of the entropy-coded data on; a bad header length is the only
      way to `BadHeader`. */
  lemma ScanCountCounts(data: seq<byte>, dc: PenjiTable, ac: PenjiTable, fs: FileState) returns (last: Bits)
    requires Chains(dc) && Chains(ac)
    ensures var h := ScanHeader(data, fs); var r := ScanCount(data, dc, ac, fs);
      (r.BadHeader? <==> h.None?)
      && (h.Some? && !h.value.exited && !FirstBit(data, h.value).fs.exited ==>
        var b0 := FirstBit(data, h.value);
        last == McuIterate(data, dc, ac, b0, r.count) && Returned(data, dc, ac, b0, r.count)
        && (r.PrematureEof? ==> last.valid <= 16 && McuAfter(data, dc, ac, last).fs.exited)
        && (r.Spins? ==> last.valid > 16))
  {
    var h := ScanHeader(data, fs);
    last := Bits(fs, 0, 0, 0, 0);
    if h.Some? && !h.value.exited {
      var b0 := FirstBit(data, h.value);
      if !b0.fs.exited {
        AddBitAdvancesInFile(data, h.value);
        last := CountMcusCounts(data, dc, ac, b0, 0, b0);
      }
    }
  }

  lemma AddBitAdvancesInFile(data: seq<byte>, fs: FileState)
    requires InFile(data, fs)
    ensures InFile(data, FirstBit(data, fs).fs)
  {
  }

  // ------------------------------------------------------------ process_frame

  /** How `process_frame` of the counter ends: a frame with a component
      count other than 1 is left before any table is parsed; otherwise the
      program exits at the end of the file, a Huffman table fills the code
      tree (`parse_huffman_table` dereferences NULL), or the scan is
      counted. */
  datatype FrameEnd = NotOneComponent(count: int) | FrameEof | TreeFull | Counted(scan: ScanEnd)

  /** The frame header fields `process_frame` reads: `Lf`, `P`, `Y`, `X`
      and `Nf`, eight bytes. */
  function FrameHeader(data: seq<byte>, fs: FileState): (r: (byte, FileState))
  {
    var lf := Read2(data, fs);
    var p := Read1(data, lf.1);
    var y := Read2(data, p.1);
    var x := Read2(data, y.1);
    Read1(data, x.1)
  }

  /** The frame header reads are eight calls of `read_1_byte`, the
      component count the last byte. */
  lemma FrameHeaderBytes(data: seq<byte>, fs: FileState)
    ensures var rd := ReadBytes(data, fs, 8); FrameHeader(data, fs) == (rd.0[7], rd.1)
  {
    var lf := Read2(data, fs);
    ReadBytesSplit(data, fs, 2, 6);
    var p := Read1(data, lf.1);
    ReadBytesOne(data, lf.1);
    ReadBytesSplit(data, lf.1, 1, 5);
    var y := Read2(data, p.1);
    ReadBytesSplit(data, p.1, 2, 3);
    var x := Read2(data, y.1);
    ReadBytesSplit(data, y.1, 2, 1);
    ReadBytesOne(data, x.1);
  }

  /** `process_frame` of the counter, from the SOF marker on; `marker` is
      the global holding the last marker found. The frame ends at the end
      of the file exactly where `read_1_byte` has exited: the exit is tested
      before the crash flag of each table, so a file that ends within a
      Huffman table never reports a full tree. */
  function FrameCount(data: seq<byte>, fs: FileState, marker: int): (r: (FrameEnd, int, FileState))
    ensures r.0 == FrameEof <==> r.2.exited
  {
    var hdr := FrameHeader(data, fs);
    if hdr.1.exited then (FrameEof, marker, hdr.1)
    else if hdr.0 != 1 then (NotOneComponent(hdr.0 as int), marker, hdr.1)
    else
      var dht1 := SeekMarker(data, hdr.1, marker, DHT_MARKER);
      var dc := ParseTable(data, dht1.1);
      if dht1.1.exited then (FrameEof, dht1.0, dht1.1)
      else if dc.1.exited then (FrameEof, dht1.0, dc.1)
      else if dc.2 then (TreeFull, dht1.0, dc.1)
      else
        var nm := NextMarkerRead(data, dc.1);
        var dht2 := SeekMarker(data, nm.1, nm.0, DHT_MARKER);
        var ac := ParseTable(data, dht2.1);
        if dht2.1.exited then (FrameEof, dht2.0, dht2.1)
        else if ac.1.exited then (FrameEof, dht2.0, ac.1)
        else if ac.2 then (TreeFull, dht2.0, ac.1)
        else
          var nm2 := NextMarkerRead(data, ac.1);
          var sos := SeekMarker(data, nm2.1, nm2.0, SOS_MARKER);
          if sos.1.exited then (FrameEof, sos.0, sos.1)
          else if Chains(dc.0) && Chains(ac.0) then (Counted(ScanCount(data, dc.0, ac.0, sos.1)), sos.0, sos.1)
          else (TreeFull, sos.0, sos.1)
  }

  /** A table `parse_huffman_table` completes without a crash or an exit
      has the shape the lookup expects, so the last branch of `FrameCount`
      is never taken. */
  lemma ParsedChains(data: seq<byte>, fs: FileState)
    ensures !ParseTable(data, fs).2 && !ParseTable(data, fs).1.exited ==> Chains(ParseTable(data, fs).0)
  {
    ParseTableMeaning(data, fs);
    var t := ParseTable(data, fs).0;
    if !ParseTable(data, fs).2 && !ParseTable(data, fs).1.exited {
      forall i | 0 <= i < 16 ensures |t.symbols[i]| == t.frequencies[i] as int {
        assert Complete(t.symbols[i], t.frequencies, i);
      }
    }
  }

  /** A frame whose component count is not 1 ends after its eight header
      bytes: no table is parsed and no marker searched for. */
  lemma FrameCountOtherComponents(data: seq<byte>, fs: FileState, marker: int)
    requires var rd := ReadBytes(data, fs, 8); !rd.1.exited && rd.0[7] != 1
    ensures FrameCount(data, fs, marker) == (NotOneComponent(ReadBytes(data, fs, 8).0[7] as int), marker, ReadBytes(data, fs, 8).1)
  {
    FrameHeaderBytes(data, fs);
  }

  // ------------------------------------------------------------ the program

  /** The bit cursor of `process_scan`: the locals `scan_buf`,
      `valid_buf_bits`, `input_data` and `input_data_bit_index` that the
      helpers update through pointers, over the input file. */
  class ScanCursor {
    const file: JpegFile
    var scanBuf: int
    var valid: int
    var input: byte
    var index: int

    ghost function State(): Bits
      reads this, file
    {
      Bits(file.fs, scanBuf, valid, input, index)
    }

    constructor (file: JpegFile, input: byte)
      ensures this.file == file && State() == Bits(file.fs, 0, 0, input, 0)
    {
      this.file := file;
      scanBuf := 0;
      valid := 0;
      this.input := input;
      index := 0;
    }

    /** `add_bit_to_scan_buf`. */
    method AddBitToScanBuf()
      requires Cursor(State())
      modifies this, file
      ensures State() == AddBit(file.data, old(State())) && file.bytesRead == old(file.bytesRead)
    {
      scanBuf := U16(scanBuf * 2 + Bit(input, index));
      index := index + 1;
      valid := U8(valid + 1);
      if index > 7 {
        input := file.ReadOneByte();
        index := 0;
      }
    }

    /** `input_data_skip_bits`; `nbits` is an `unsigned short`. */
    method InputDataSkipBits(n: int)
      requires Cursor(State()) && 0 <= n < 65536
      modifies this, file
      ensures State() == SkipBits(file.data, old(State()), n) && file.bytesRead == old(file.bytesRead)
    {
      var nbits := n;
      if nbits > 7 - index {
        input := 0;
        nbits := nbits - (7 - index);
        index := 0;
      } else {
        index := index + nbits;
      }
      while nbits > 0
        invariant 0 <= index < 8 && scanBuf == old(scanBuf) && valid == old(valid)
        invariant file.bytesRead == old(file.bytesRead)
        invariant SkipLoop(file.data, file.fs, input, index, nbits) == (SkipBits(file.data, old(State()), n).fs, SkipBits(file.data, old(State()), n).input, SkipBits(file.data, old(State()), n).index)
        decreases nbits
      {
        if nbits >= 16 {
          var ignored := file.ReadTwoBytes();
          nbits := nbits - 16;
        } else if nbits >= 8 {
          var ignored := file.ReadOneByte();
          nbits := nbits - 8;
        } else {
          input := file.ReadOneByte();
          index := nbits;
          nbits := 0;
        }
      }
    }

    /** The `while (*valid_buf_bits <= 16)` loop that `process_mcu` runs for
        every symbol: bits are added until `find_hufftable_entry` finds the
        buffer in the table; the match clears the buffer. The lookup with
        an empty buffer, which reads `frequencies[255]`, is taken to find
        nothing. */
    method NextHuffSymbol(t: PenjiTable) returns (sym: Option<HuffSymbol>)
      requires Chains(t) && Cursor(State())
      modifies this, file
      ensures Decoding(State(), sym) == NextSymbol(file.data, t, old(State()))
      ensures Cursor(State()) && file.bytesRead == old(file.bytesRead)
    {
      while valid <= 16
        invariant Cursor(State()) && file.bytesRead == old(file.bytesRead)
        invariant NextSymbol(file.data, t, State()) == NextSymbol(file.data, t, old(State()))
        decreases 17 - valid
      {
        var e := FindHufftableEntry(t, scanBuf, valid as byte);
        FindEntryAsWrittenAgrees(t, scanBuf, valid);
        if e.Found? {
          scanBuf := 0;
          valid := 0;
          return Some(e.sym);
        }
        AddBitToScanBuf();
      }
      return None;
    }

    /** `process_mcu`: the DC symbol and its bits, then AC symbols and
        their bits until end of block or coefficient 63. */
    method ProcessMcu(dc: PenjiTable, ac: PenjiTable)
      requires Chains(dc) && Chains(ac) && Cursor(State())
      modifies this, file
      ensures State() == McuAfter(file.data, dc, ac, old(State())) && file.bytesRead == old(file.bytesRead)
    {
      var s := NextHuffSymbol(dc);
      if s.Some? && s.value.value != 0 {
        InputDataSkipBits(s.value.value as int);
      }
      ghost var afterDc := State();
      var i := 1;
      while i < 64
        invariant 1 <= i <= 64 && Cursor(State()) && file.bytesRead == old(file.bytesRead)
        invariant AcPart(file.data, ac, State(), i) == AcPart(file.data, ac, afterDc, 1)
      {
        ghost var before := State();
        s := NextHuffSymbol(ac);
        if s.Some? && s.value.value == 0 {
          assert State() == AcPart(file.data, ac, before, i);
          break;
        }
        if s.Some? {
          InputDataSkipBits(s.value.value as int);
        }
        i := i + 1;
      }
    }
  }

  /** `process_scan` of the counter, from the length of the SOS segment
      on. The loop `while (!feof(file))` ends only when `read_1_byte` exits
      the program; a cursor whose buffer overran is reported as `Spins`
      where the source loops for ever. */
  method ProcessScan(file: JpegFile, dc: PenjiTable, ac: PenjiTable) returns (end: ScanEnd)
    requires Chains(dc) && Chains(ac)
    modifies file
    ensures end == ScanCount(file.data, dc, ac, old(file.fs))
  {
    var len := file.ReadTwoBytes();
    var headerLen := len - 2;
    if file.fs.exited {
      return PrematureEof(0);
    }
    if headerLen < 0 {
      return BadHeader;
    }
    if file.fs.rs.pos + headerLen > |file.data| {
      file.fs := file.fs.(exited := true);
      return PrematureEof(0);
    }
    file.fs := file.fs.(rs := file.fs.rs.(pos := file.fs.rs.pos + headerLen));
    file.bytesRead := file.bytesRead + headerLen;
    ghost var afterHeader := file.fs;
    var input := file.ReadOneByte();
    var cursor := new ScanCursor(file, input);
    cursor.AddBitToScanBuf();
    if file.fs.exited {
      return PrematureEof(0);
    }
    assert cursor.State() == FirstBit(file.data, afterHeader);
    var mcuCounter: nat := 0;
    while true
      invariant Cursor(cursor.State()) && !file.fs.exited && InFile(file.data, file.fs) && cursor.file == file
      invariant CountMcus(file.data, dc, ac, cursor.State(), mcuCounter) == ScanCount(file.data, dc, ac, old(file.fs))
      decreases |file.data| - file.fs.rs.pos, 8 - cursor.index
    {
      if cursor.valid > 16 {
        return Spins(mcuCounter);
      }
      ghost var before := cursor.State();
      cursor.ProcessMcu(dc, ac);
      if file.fs.exited {
        return PrematureEof(mcuCounter);
      }
      assert Ahead(file.data, before, cursor.State());
      mcuCounter := mcuCounter + 1;
    }
  }

  /** `process_frame` of the counter; `marker` is the global holding the
      last marker found. The file position it leaves is that of
      `FrameCount` unless the scan was counted. */
  method ProcessFrame(file: JpegFile, marker0: int) returns (end: FrameEnd, marker: int)
    modifies file
    ensures end == FrameCount(file.data, old(file.fs), marker0).0 && marker == FrameCount(file.data, old(file.fs), marker0).1
    ensures !end.Counted? ==> file.fs == FrameCount(file.data, old(file.fs), marker0).2
  {
    ghost var fs0 := file.fs;
    marker := marker0;
    var length := file.ReadTwoBytes();
    var precision := file.ReadOneByte();
    var lines := file.ReadTwoBytes();
    var samplesPerLine := file.ReadTwoBytes();
    var numImageComponents := file.ReadOneByte();
    assert (numImageComponents, file.fs) == FrameHeader(file.data, fs0);
    if file.fs.exited {
      return FrameEof, marker;
    }
    if numImageComponents != 1 {
      return NotOneComponent(numImageComponents as int), marker;
    }
    marker := file.FindMarker(marker, DHT_MARKER);
    if file.fs.exited {
      return FrameEof, marker;
    }
    ghost var atDc := file.fs;
    var dcTable, dcCrashed := file.ParseHuffmanTable();
    if file.fs.exited {
      return FrameEof, marker;
    }
    if dcCrashed {
      return TreeFull, marker;
    }
    marker := file.NextMarker();
    marker := file.FindMarker(marker, DHT_MARKER);
    if file.fs.exited {
      return FrameEof, marker;
    }
    ghost var atAc := file.fs;
    var acTable, acCrashed := file.ParseHuffmanTable();
    if file.fs.exited {
      return FrameEof, marker;
    }
    if acCrashed {
      return TreeFull, marker;
    }
    marker := file.NextMarker();
    marker := file.FindMarker(marker, SOS_MARKER);
    if file.fs.exited {
      return FrameEof, marker;
    }
    ParsedChains(file.data, atDc);
    ParsedChains(file.data, atAc);
    var scan := ProcessScan(file, dcTable, acTable);
    return Counted(scan), marker;
  }
}
