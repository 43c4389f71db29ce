/** The shared reader and Huffman table builder of the penji tools
    (penji/util.h): `read_1_byte` over a file with the globals
    `last_byte_read` and `last_marker_seen`, `read_2_bytes`, `next_marker`,
    and `parse_huffman_table`, which assigns codes by walking a binary tree
    that grows one layer per code length. The file is a byte sequence with a
    position; the exit on a premature end of file is a flag after which
    further reads change nothing. */
module PenjiUtil {
  import opened Bytes
  import Huffman

  const SOI_MARKER: int := 0xFFD8
  const SOF_MARKER: int := 0xFFC0
  const SOS_MARKER: int := 0xFFDA
  const EOI_MARKER: int := 0xFFD9
  const DHT_MARKER: int := 0xFFC4
  const HUFF_CODE_EOB: int := 0x00

  // ------------------------------------------------------------ reading

  /** The file position and the globals `last_byte_read` and `last_marker_seen`. */
  datatype ReadState = ReadState(pos: nat, lastByte: int, lastMarker: int)

  /** The reader, and whether the program has exited with "Premature EOF". */
  datatype FileState = FileState(rs: ReadState, exited: bool)

  /** The state at program start: position 0 and both globals zero. */
  function Opened(): FileState
  {
    FileState(ReadState(0, 0, 0), false)
  }

  /** `read_1_byte`: a 0x00 after 0xFF is dropped and the byte after it
      returned; any other byte after 0xFF is recorded as the marker
      `0xFF00 + c`; the end of the file exits. */
  function Read1(data: seq<byte>, fs: FileState): (r: (byte, FileState))
    ensures fs.exited ==> r == (0, fs)
    ensures r.1.rs.pos >= fs.rs.pos && (fs.exited ==> r.1.exited)
    ensures !r.1.exited ==> r.1.rs.pos > fs.rs.pos && r.1.rs.lastByte == r.0 && r.1.rs.pos <= |data|
    ensures r.1.exited ==> r.1.rs == fs.rs
  {
    var p := fs.rs.pos;
    if fs.exited then (0, fs)
    else if p >= |data| then (0, fs.(exited := true))
    else
      var c := data[p];
      if c == 0 && fs.rs.lastByte == 0xFF then
        if p + 1 >= |data| then (0, fs.(exited := true))
        else (data[p + 1], FileState(ReadState(p + 2, data[p + 1], fs.rs.lastMarker), false))
      else if fs.rs.lastByte == 0xFF && c != 0 then (c, FileState(ReadState(p + 1, c, 0xFF00 + c as int), false))
      else (c, FileState(ReadState(p + 1, c, fs.rs.lastMarker), false))
  }

  /** n calls of `read_1_byte`: the bytes returned and the state after them. */
  function ReadBytes(data: seq<byte>, fs: FileState, n: nat): (r: (seq<byte>, FileState))
    ensures |r.0| == n && (fs.exited ==> r.1 == fs)
    decreases n
  {
    if n == 0 then ([], fs)
    else
      var first := Read1(data, fs);
      var rest := ReadBytes(data, first.1, n - 1);
      ([first.0] + rest.0, rest.1)
  }

  /** Reading a + b bytes is reading a bytes and then b more. */
  lemma {:induction false} ReadBytesSplit(data: seq<byte>, fs: FileState, a: nat, b: nat)
    ensures var x := ReadBytes(data, fs, a); var y := ReadBytes(data, x.1, b);
      ReadBytes(data, fs, a + b) == (x.0 + y.0, y.1)
    decreases a
  {
    if a > 0 {
      var first := Read1(data, fs);
      ReadBytesSplit(data, first.1, a - 1, b);
      var x' := ReadBytes(data, first.1, a - 1);
      var y := ReadBytes(data, x'.1, b);
      assert ReadBytes(data, fs, a + b) == ([first.0] + ReadBytes(data, first.1, a - 1 + b).0, ReadBytes(data, first.1, a - 1 + b).1);
      assert ReadBytes(data, fs, a) == ([first.0] + x'.0, x'.1);
      assert [first.0] + (x'.0 + y.0) == ([first.0] + x'.0) + y.0;
    } else {
      var y := ReadBytes(data, fs, b);
      assert [] + y.0 == y.0;
    }
  }

  /** The byte stuffing of ITU-T T.81 section F.1.2.3 as an encoder applies
      it: every 0xFF data byte is followed by a 0x00. */
  function Stuff(bs: seq<byte>): (r: seq<byte>)
    ensures |r| >= |bs|
  {
    if bs == [] then []
    else StuffByte(bs[0]) + Stuff(bs[1..])
  }

  /** The stuffed form of one data byte. */
  function StuffByte(b: byte): seq<byte>
  {
    if b == 0xFF then [0xFF as byte, 0x00 as byte] else [b]
  }

  /** Where the stuffed data starts for a reader at fs: at its position, or
      one byte on when the last byte read was 0xFF (the 0x00 after it). */
  function StuffStart(fs: FileState): nat
  {
    if fs.rs.lastByte == 0xFF then fs.rs.pos + 1 else fs.rs.pos
  }

  /** The reader is about to read the stuffed form of bs: either the last
      byte was not 0xFF, or it was and the 0x00 that followed it is next. */
  predicate AtStuffed(data: seq<byte>, fs: FileState, bs: seq<byte>)
  {
    var q := StuffStart(fs);
    !fs.exited && q + |Stuff(bs)| <= |data| && data[q..q + |Stuff(bs)|] == Stuff(bs)
    && (fs.rs.lastByte == 0xFF ==> data[fs.rs.pos] == 0)
  }

  lemma StuffHead(bs: seq<byte>)
    requires bs != []
    ensures Stuff(bs) == StuffByte(bs[0]) + Stuff(bs[1..])
  {
  }

  lemma SliceParts(data: seq<byte>, q: nat, h: seq<byte>, t: seq<byte>)
    requires q + |h| + |t| <= |data| && data[q..q + |h| + |t|] == h + t
    ensures data[q + |h|..q + |h| + |t|] == t
    ensures forall i :: 0 <= i < |h| ==> data[q + i] == h[i]
  {
    var w := data[q..q + |h| + |t|];
    forall i | 0 <= i < |t|
      ensures data[q + |h| + i] == t[i]
    {
      assert w[|h| + i] == (h + t)[|h| + i];
    }
    forall i | 0 <= i < |h|
      ensures data[q + i] == h[i]
    {
      assert w[i] == (h + t)[i];
    }
  }

  /** The stuffed form of bs at q: its first byte, the 0x00 after a 0xFF,
      and the stuffed rest. */
  lemma StuffedParts(data: seq<byte>, q: nat, bs: seq<byte>)
    requires bs != [] && q + |Stuff(bs)| <= |data| && data[q..q + |Stuff(bs)|] == Stuff(bs)
    ensures var k := |StuffByte(bs[0])|; var t := Stuff(bs[1..]);
      data[q] == bs[0] && (bs[0] == 0xFF ==> data[q + 1] == 0)
      && q + k + |t| <= |data| && data[q + k..q + k + |t|] == t
  {
    StuffedFirst(data, q, bs);
    StuffedRest(data, q, bs);
  }

  lemma StuffedFirst(data: seq<byte>, q: nat, bs: seq<byte>)
    requires bs != [] && q + |Stuff(bs)| <= |data| && data[q..q + |Stuff(bs)|] == Stuff(bs)
    ensures data[q] == bs[0] && (bs[0] == 0xFF ==> data[q + 1] == 0)
  {
    var h := StuffByte(bs[0]);
    StuffHead(bs);
    assert Stuff(bs)[0] == h[0];
    assert data[q] == Stuff(bs)[0];
    if bs[0] == 0xFF {
      assert Stuff(bs)[1] == h[1];
      assert data[q + 1] == Stuff(bs)[1];
    }
  }

  lemma StuffedRest(data: seq<byte>, q: nat, bs: seq<byte>)
    requires bs != [] && q + |Stuff(bs)| <= |data| && data[q..q + |Stuff(bs)|] == Stuff(bs)
    ensures var k := |StuffByte(bs[0])|; var t := Stuff(bs[1..]);
      q + k + |t| <= |data| && data[q + k..q + k + |t|] == t
  {
    var h := StuffByte(bs[0]);
    var t := Stuff(bs[1..]);
    StuffHead(bs);
    SliceParts(data, q, h, t);
  }

  /** One read over stuffed data gives the first data byte and leaves the
      reader before the stuffed rest. */
  lemma ReadStuffedStep(data: seq<byte>, fs: FileState, bs: seq<byte>)
    requires AtStuffed(data, fs, bs) && bs != []
    ensures Read1(data, fs).0 == bs[0] && AtStuffed(data, Read1(data, fs).1, bs[1..])
    ensures StuffStart(Read1(data, fs).1) == StuffStart(fs) + |StuffByte(bs[0])|
  {
    var p := fs.rs.pos;
    var q := StuffStart(fs);
    StuffedParts(data, q, bs);
    var next := FileState(ReadState(q + 1, bs[0], fs.rs.lastMarker), false);
    if fs.rs.lastByte == 0xFF {
      assert q == p + 1 && data[p] == 0 && data[p + 1] == bs[0];
      assert Read1(data, fs) == (bs[0], next);
    } else {
      assert q == p && data[p] == bs[0];
      assert Read1(data, fs) == (bs[0], next);
    }
    assert StuffStart(next) == q + |StuffByte(bs[0])|;
  }

  /** `read_1_byte` undoes byte stuffing: reading |bs| bytes from the stuffed
      form of bs returns bs, with no premature exit. */
  lemma {:induction false} ReadUnstuffs(data: seq<byte>, fs: FileState, bs: seq<byte>)
    requires AtStuffed(data, fs, bs)
    ensures ReadBytes(data, fs, |bs|).0 == bs && !ReadBytes(data, fs, |bs|).1.exited
    decreases |bs|
  {
    if bs != [] {
      ReadStuffedStep(data, fs, bs);
      ReadUnstuffs(data, Read1(data, fs).1, bs[1..]);
    }
  }

  /** `read_2_bytes`: `(c1 << 8) + c2`. */
  function Read2(data: seq<byte>, fs: FileState): (r: (int, FileState))
    ensures 0 <= r.0 < 65536 && (fs.exited ==> r.1 == fs)
    ensures r.1.rs.pos >= fs.rs.pos && (!r.1.exited ==> fs.rs.pos < r.1.rs.pos <= |data|)
  {
    var b := ReadBytes(data, fs, 2);
    (BigEndian16(b.0[0], b.0[1]), b.1)
  }

  // ------------------------------------------------------------ bytes_read

  /** What `*bytes_read++` does to the caller's count: it advances the local
      pointer, so the count is left as it was. */
  function CountAsWritten(count: int, fs: FileState, fs': FileState): int
  {
    count
  }

  /** The increments of `*bytes_read` one `read_1_byte` evidently intends:
      one per `getc` that returned a byte, so two when a stuffed 0x00 is
      dropped, and none when the program exits. */
  function IntendedIncrement(data: seq<byte>, fs: FileState): nat
  {
    var p := fs.rs.pos;
    if fs.exited || p >= |data| then 0
    else if data[p] == 0 && fs.rs.lastByte == 0xFF then (if p + 1 >= |data| then 0 else 2)
    else 1
  }

  /** The intended count after n calls of `read_1_byte` from count. */
  function IntendedCount(data: seq<byte>, fs: FileState, n: nat, count: int): int
    decreases n
  {
    if n == 0 then count
    else IntendedCount(data, Read1(data, fs).1, n - 1, count + IntendedIncrement(data, fs))
  }

  /** Reading 0xFF 0x00 0x12 returns 0xFF and 0x12 from three file bytes, but
      the count stays at 0 where the intended count is 3. */
  lemma CountStaysAsWritten()
    ensures var data := [0xFF as byte, 0x00 as byte, 0x12 as byte];
      var r := ReadBytes(data, Opened(), 2);
      r.0 == [0xFF, 0x12] && r.1.rs.pos == 3
      && CountAsWritten(0, Opened(), r.1) == 0 && IntendedCount(data, Opened(), 2, 0) == 3
  {
    var data := [0xFF as byte, 0x00 as byte, 0x12 as byte];
    var r1 := Read1(data, Opened());
    assert r1 == (0xFF, FileState(ReadState(1, 0xFF, 0), false));
    var r2 := Read1(data, r1.1);
    assert r2 == (0x12, FileState(ReadState(3, 0x12, 0), false));
    assert IntendedCount(data, r2.1, 0, 3) == 3;
  }

  /** The intended count tracks the file: after any number of reads it has
      grown by exactly the number of file bytes `read_1_byte` consumed,
      stuffed 0x00 bytes included. */
  lemma {:induction false} IntendedCountIsConsumed(data: seq<byte>, fs: FileState, n: nat, count: int)
    ensures IntendedCount(data, fs, n, count) == count + (ReadBytes(data, fs, n).1.rs.pos - fs.rs.pos)
    decreases n
  {
    if n > 0 {
      var next := Read1(data, fs).1;
      assert IntendedIncrement(data, fs) == next.rs.pos - fs.rs.pos;
      IntendedCountIsConsumed(data, next, n - 1, count + IntendedIncrement(data, fs));
    }
  }

  /** Reading |bs| bytes over stuffed data moves the stuffed start on by the
      stuffed length of bs. */
  lemma {:induction false} ReadStuffedEnd(data: seq<byte>, fs: FileState, bs: seq<byte>)
    requires AtStuffed(data, fs, bs)
    ensures StuffStart(ReadBytes(data, fs, |bs|).1) == StuffStart(fs) + |Stuff(bs)|
    decreases |bs|
  {
    if bs != [] {
      ReadStuffedStep(data, fs, bs);
      StuffHead(bs);
      ReadStuffedEnd(data, Read1(data, fs).1, bs[1..]);
    }
  }

  /** The corrected count over stuffed data: reading the |bs| data bytes of
      Stuff(bs) raises the count by the |Stuff(bs)| file bytes they occupy,
      adjusted by the 0x00 owed at the start (the last byte read was 0xFF)
      and the 0x00 still owed at the end (the last data byte is 0xFF). */
  lemma IntendedCountUnstuffs(data: seq<byte>, fs: FileState, bs: seq<byte>, count: int)
    requires AtStuffed(data, fs, bs)
    ensures var after := ReadBytes(data, fs, |bs|);
      after.0 == bs && !after.1.exited
      && IntendedCount(data, fs, |bs|, count)
         == count + |Stuff(bs)| + (StuffStart(fs) - fs.rs.pos) - (StuffStart(after.1) - after.1.rs.pos)
  {
    ReadUnstuffs(data, fs, bs);
    ReadStuffedEnd(data, fs, bs);
    IntendedCountIsConsumed(data, fs, |bs|, count);
  }

  // ------------------------------------------------------------ next_marker

  /** The first loop of `next_marker`: bytes are read until one is 0xFF. */
  function SeekFF(data: seq<byte>, fs: FileState, c: byte): (r: FileState)
    ensures r.rs.pos >= fs.rs.pos && (fs.exited ==> r == fs)
    ensures !r.exited ==> r.rs.lastByte == 0xFF || (r == fs && c == 0xFF)
    decreases |data| - fs.rs.pos, !fs.exited
  {
    if c == 0xFF || fs.exited then fs
    else
      var r := Read1(data, fs);
      SeekFF(data, r.1, r.0)
  }

  /** The do-while loop of `next_marker`: bytes are read while they are 0xFF. */
  function SkipFill(data: seq<byte>, fs: FileState): (r: (byte, FileState))
    ensures r.1.rs.pos >= fs.rs.pos && (fs.exited ==> r.1.exited)
    ensures !r.1.exited ==> r.0 != 0xFF && r.1.rs.lastByte == r.0 && fs.rs.pos < r.1.rs.pos <= |data|
    decreases |data| - fs.rs.pos, !fs.exited
  {
    var r := Read1(data, fs);
    if r.0 == 0xFF && !r.1.exited then SkipFill(data, r.1) else r
  }

  /** `next_marker`: `(0xFF << 8) + c2`. Unless the file ends first, the
      code is 0xFF00 to 0xFFFE, its low byte is the last byte read, and at
      least two bytes are consumed. */
  function NextMarkerRead(data: seq<byte>, fs: FileState): (r: (int, FileState))
    ensures fs.exited ==> r.1 == fs
    ensures r.1.rs.pos >= fs.rs.pos && (!r.1.exited ==> r.1.rs.pos <= |data|)
    ensures !r.1.exited ==> 0xFF00 <= r.0 < 0xFFFF && r.1.rs.lastByte == r.0 - 0xFF00 && r.1.rs.pos >= fs.rs.pos + 2
  {
    var first := Read1(data, fs);
    var seek := SeekFF(data, first.1, first.0);
    var c2 := SkipFill(data, seek);
    (0xFF00 + c2.0, c2.1)
  }

  /** The marker loops `while (marker != target) next_marker(...)`; the end
      of the file exits the program. */
  function SeekMarker(data: seq<byte>, fs: FileState, marker: int, target: int): (r: (int, FileState))
    ensures !r.1.exited ==> r.0 == target
    ensures fs.exited ==> r == (marker, fs)
    ensures r.1.rs.pos >= fs.rs.pos
    decreases |data| - fs.rs.pos + 2, !fs.exited
  {
    if marker == target || fs.exited then (marker, fs)
    else
      var nm := NextMarkerRead(data, fs);
      SeekMarker(data, nm.1, nm.0, target)
  }

  // ------------------------------------------------------------ the code tree

  /** A `dht_tree_node`: `num_bits`, `bitstring`, `is_assigned`; a leaf has
      both children NULL. */
  datatype Tree =
    | Leaf(bits: byte, code: int, used: bool)
    | Branch(bits: byte, code: int, used: bool, left: Tree, right: Tree)

  /** `tree_node_add_layer`: every leaf gets the children `bitstring << 1`
      and `(bitstring << 1) + 1`, stored in an `unsigned short`, with one
      more bit. */
  function AddLayer(t: Tree): Tree
  {
    match t
    case Leaf(b, c, a) => Branch(b, c, a, Leaf(U8(b + 1), U16(c * 2), false), Leaf(U8(b + 1), U16(c * 2 + 1), false))
    case Branch(b, c, a, l, r) => Branch(b, c, a, AddLayer(l), AddLayer(r))
  }

  /** The leaves from left to right. */
  function Leaves(t: Tree): seq<Tree>
  {
    match t
    case Leaf(_, _, _) => [t]
    case Branch(_, _, _, l, r) => Leaves(l) + Leaves(r)
  }

  /** Each leaf replaced by the two children `tree_node_add_layer` gives it. */
  function Split(ls: seq<Tree>): seq<Tree>
  {
    if ls == [] then []
    else [Leaf(U8(ls[0].bits + 1), U16(ls[0].code * 2), false), Leaf(U8(ls[0].bits + 1), U16(ls[0].code * 2 + 1), false)] + Split(ls[1..])
  }

  lemma {:induction false} SplitAppend(a: seq<Tree>, b: seq<Tree>)
    ensures Split(a + b) == Split(a) + Split(b)
    decreases |a|
  {
    if a != [] {
      assert (a + b)[1..] == a[1..] + b;
      SplitAppend(a[1..], b);
    } else {
      assert a + b == b;
    }
  }

  /** After `tree_node_add_layer` the leaves are, in order, the two new
      children of each old leaf, and the inner nodes keep their fields. */
  lemma {:induction false} AddLayerLeaves(t: Tree)
    ensures Leaves(AddLayer(t)) == Split(Leaves(t))
    ensures AddLayer(t).bits == t.bits && AddLayer(t).code == t.code && AddLayer(t).used == t.used
  {
    match t
    case Leaf(_, _, _) =>
    case Branch(_, _, _, l, r) =>
      AddLayerLeaves(l);
      AddLayerLeaves(r);
      SplitAppend(Leaves(l), Leaves(r));
  }

  /** `get_available_left_most_node`: NULL at an assigned node, the node
      itself at a leaf, otherwise the left subtree's answer or else the
      right one's. */
  function LeftMost(t: Tree): Option<Tree>
  {
    if t.used then None
    else match t
      case Leaf(_, _, _) => Some(t)
      case Branch(_, _, _, l, r) => if LeftMost(l).Some? then LeftMost(l) else LeftMost(r)
  }

  /** `available_node->is_assigned = TRUE` on the node that LeftMost finds. */
  function Assign(t: Tree): Tree
  {
    if t.used then t
    else match t
      case Leaf(b, c, _) => Leaf(b, c, true)
      case Branch(b, c, a, l, r) => if LeftMost(l).Some? then Branch(b, c, a, Assign(l), r) else Branch(b, c, a, l, Assign(r))
  }

  /** A tree whose leaves all lie at depth d and carry the codes lo up to
      lo + size - 1 from left to right, where a leaf is free (neither it nor
      a node above it is assigned, `blocked` saying whether one above the
      subtree is) exactly when its code is at least next. */
  predicate Layered(t: Tree, d: int, next: int, blocked: bool, lo: int, size: int)
  {
    match t
    case Leaf(b, c, a) => size == 1 && b == d && c == lo && ((!blocked && !a) <==> lo >= next)
    case Branch(_, _, a, l, r) =>
      size >= 2 && size % 2 == 0
      && Layered(l, d, next, blocked || a, lo, size / 2) && Layered(r, d, next, blocked || a, lo + size / 2, size / 2)
  }

  /** A new layer doubles the codes and the first free code, one level down. */
  lemma {:induction false} LayeredAddLayer(t: Tree, d: int, n: int, bl: bool, lo: int, size: int)
    requires Layered(t, d, n, bl, lo, size) && 0 <= lo && lo + size <= 32768 && 0 <= d < 16
    ensures Layered(AddLayer(t), d + 1, 2 * n, bl, 2 * lo, 2 * size)
  {
    match t
    case Leaf(_, _, _) =>
    case Branch(_, _, a, l, r) =>
      LayeredAddLayer(l, d, n, bl || a, lo, size / 2);
      LayeredAddLayer(r, d, n, bl || a, lo + size / 2, size / 2);
  }

  /** next moved into the range lo .. lo + size. */
  function Clamp(n: int, lo: int, size: int): int
  {
    if n <= lo then lo else if n >= lo + size then lo + size else n
  }

  /** Only where next falls relative to the subtree's codes matters. */
  lemma {:induction false} LayeredClamp(t: Tree, d: int, n: int, n': int, bl: bool, lo: int, size: int)
    requires Layered(t, d, n, bl, lo, size) && Clamp(n, lo, size) == Clamp(n', lo, size)
    ensures Layered(t, d, n', bl, lo, size)
  {
    match t
    case Leaf(_, _, _) =>
    case Branch(_, _, a, l, r) =>
      LayeredClamp(l, d, n, n', bl || a, lo, size / 2);
      LayeredClamp(r, d, n, n', bl || a, lo + size / 2, size / 2);
  }

  /** Below an assigned node no leaf is free. */
  lemma {:induction false} LayeredBlocked(t: Tree, d: int, n: int, lo: int, size: int)
    requires Layered(t, d, n, true, lo, size)
    ensures n >= lo + size
  {
    match t
    case Leaf(_, _, _) =>
    case Branch(_, _, _, l, r) =>
      LayeredBlocked(r, d, n, lo + size / 2, size / 2);
  }

  function Max(a: int, b: int): int
  {
    if a > b then a else b
  }

  /** `get_available_left_most_node` finds the free leaf with the least
      code, and returns NULL exactly when no leaf is free. */
  lemma {:induction false} LeftMostFinds(t: Tree, d: int, n: int, lo: int, size: int)
    requires Layered(t, d, n, false, lo, size)
    ensures LeftMost(t).Some? <==> n < lo + size
    ensures LeftMost(t).Some? ==>
      LeftMost(t).value.Leaf? && LeftMost(t).value.bits == d && LeftMost(t).value.code == Max(n, lo) && !LeftMost(t).value.used
  {
    match t
    case Leaf(_, _, _) =>
    case Branch(_, _, a, l, r) =>
      if a {
        LayeredBlocked(r, d, n, lo + size / 2, size / 2);
      } else {
        LeftMostFinds(l, d, n, lo, size / 2);
        LeftMostFinds(r, d, n, lo + size / 2, size / 2);
      }
  }

  /** Assigning the node found uses up exactly the first free code. */
  lemma {:induction false} AssignStep(t: Tree, d: int, n: int, lo: int, size: int)
    requires Layered(t, d, n, false, lo, size) && lo <= n < lo + size
    ensures Layered(Assign(t), d, n + 1, false, lo, size)
  {
    match t
    case Leaf(_, _, _) =>
    case Branch(_, _, a, l, r) =>
      if a {
        LayeredBlocked(r, d, n, lo + size / 2, size / 2);
      } else {
        LeftMostFinds(l, d, n, lo, size / 2);
        if n < lo + size / 2 {
          AssignStep(l, d, n, lo, size / 2);
          LayeredClamp(r, d, n, n + 1, false, lo + size / 2, size / 2);
        } else {
          LayeredClamp(l, d, n, n + 1, false, lo, size / 2);
          AssignStep(r, d, n, lo + size / 2, size / 2);
        }
      }
  }

  // ------------------------------------------------------------ parse_huffman_table

  /** A `huffman_symbol` without its `next` pointer. */
  datatype HuffSymbol = HuffSymbol(value: byte, length: int, bitstring: int)

  /** A `huffman_table`: the chain that starts at `symbols[i]` is the sequence
      `symbols[i]` (empty when no code has length i + 1). */
  datatype PenjiTable = PenjiTable(tableClass: byte, destinationId: byte, frequencies: seq<byte>, symbols: seq<seq<HuffSymbol>>)

  /** The state of the symbol loops: the tree, the file, the chains so far,
      and whether a NULL node has been dereferenced. */
  datatype Build = Build(tree: Tree, fs: FileState, symbols: seq<seq<HuffSymbol>>, crashed: bool)

  /** One turn of the inner loop of `parse_huffman_table`: mark the node
      found, read the symbol's value and append the symbol to the chain of
      length i + 1. */
  function Take(data: seq<byte>, i: nat, b: Build): (r: Build)
    requires i < 16 && |b.symbols| == 16 && LeftMost(b.tree).Some?
    ensures |r.symbols| == 16
  {
    var rd := Read1(data, b.fs);
    Build(Assign(b.tree), rd.1, b.symbols[i := b.symbols[i] + [HuffSymbol(rd.0, i + 1, LeftMost(b.tree).value.code)]], b.crashed)
  }

  /** The inner loop from `count == k`: a read that exits at the end of
      the file has ended the program, and otherwise a NULL node crashes. */
  function SymbolsOfLength(data: seq<byte>, freq: seq<byte>, i: nat, k: nat, b: Build): (r: Build)
    requires |freq| == 16 && i < 16 && k <= freq[i] as nat && |b.symbols| == 16
    ensures |r.symbols| == 16
    decreases freq[i] as nat - k
  {
    if k == freq[i] as nat || b.fs.exited then b
    else if LeftMost(b.tree).None? then b.(crashed := true)
    else SymbolsOfLength(data, freq, i, k + 1, Take(data, i, b))
  }

  /** The outer loop from `index == i`: one more layer, then the symbols of
      that length; a crash or an exit ends the program. */
  function Layers(data: seq<byte>, freq: seq<byte>, i: nat, b: Build): (r: Build)
    requires |freq| == 16 && i <= 16 && |b.symbols| == 16
    ensures |r.symbols| == 16
    decreases 16 - i
  {
    if i == 16 || b.crashed || b.fs.exited then b
    else Layers(data, freq, i + 1, SymbolsOfLength(data, freq, i, 0, b.(tree := AddLayer(b.tree))))
  }

  /** `parse_huffman_table`: the table, the file afterwards, and whether it
      dereferenced a NULL node. The segment length is read and ignored. */
  function ParseTable(data: seq<byte>, fs: FileState): (r: (PenjiTable, FileState, bool))
  {
    var len := Read2(data, fs);
    var tc := Read1(data, len.1);
    var fr := ReadBytes(data, tc.1, 16);
    var b := Layers(data, fr.0, 0, Build(Leaf(0, 0, false), fr.1, seq(16, _ => []), false));
    (PenjiTable(tc.0 / 16, tc.0 % 16, fr.0, b.symbols), b.fs, b.crashed)
  }

  /** The code that follows the last code of length i, the codes of each
      length taken in order from the smallest: the first code of length
      i + 1 is twice this one. */
  function Used(freq: seq<byte>, i: nat): nat
    requires |freq| == 16 && i <= 16
  {
    if i == 0 then 0 else 2 * Used(freq, i - 1) + freq[i - 1] as int
  }

  /** The number of codes of length at most i. */
  function Off(freq: seq<byte>, i: nat): nat
    requires |freq| == 16 && i <= 16
  {
    if i == 0 then 0 else Off(freq, i - 1) + freq[i - 1] as nat
  }

  /** The counts of the lengths above i leave room in the tree: at most
      2^g codes end at depth g. */
  predicate FitsFrom(freq: seq<byte>, i: nat)
    requires |freq| == 16 && i <= 16
  {
    forall g :: i < g <= 16 ==> Used(freq, g) <= Pow2(g)
  }

  predicate Fits(freq: seq<byte>)
    requires |freq| == 16
  {
    FitsFrom(freq, 0)
  }

  /** Symbols of length i + 1 with the consecutive codes first, first + 1, ... */
  predicate CodesFrom(syms: seq<HuffSymbol>, i: nat, first: int)
  {
    forall j :: 0 <= j < |syms| ==> syms[j].length == i + 1 && syms[j].bitstring == first + j
  }

  /** The chain of length i + 1 is complete and canonical. */
  predicate Complete(syms: seq<HuffSymbol>, freq: seq<byte>, i: nat)
    requires |freq| == 16 && i < 16
  {
    |syms| == freq[i] as int && CodesFrom(syms, i, 2 * Used(freq, i))
  }

  function Values(syms: seq<HuffSymbol>): seq<byte>
  {
    if syms == [] then [] else Values(syms[..|syms| - 1]) + [syms[|syms| - 1].value]
  }

  /** The values of the chains of the lengths 1 .. n, in order. */
  function AllValues(syms: seq<seq<HuffSymbol>>, n: nat): seq<byte>
    requires n <= |syms|
  {
    if n == 0 then [] else AllValues(syms, n - 1) + Values(syms[n - 1])
  }

  lemma ValuesAppend(syms: seq<HuffSymbol>, x: HuffSymbol)
    ensures Values(syms + [x]) == Values(syms) + [x.value]
  {
    assert (syms + [x])[..|syms|] == syms;
  }

  lemma {:induction false} AllValuesSame(a: seq<seq<HuffSymbol>>, b: seq<seq<HuffSymbol>>, n: nat)
    requires n <= |a| && n <= |b| && forall g :: 0 <= g < n ==> a[g] == b[g]
    ensures AllValues(a, n) == AllValues(b, n)
  {
    if n > 0 {
      AllValuesSame(a, b, n - 1);
    }
  }

  lemma ReadBytesOne(data: seq<byte>, fs: FileState)
    ensures ReadBytes(data, fs, 1) == ([Read1(data, fs).0], Read1(data, fs).1)
  {
    var first := Read1(data, fs);
    assert ReadBytes(data, first.1, 0) == ([], first.1);
    assert [first.0] + [] == [first.0];
  }

  /** One length's symbols: with the tree's free leaves at depth i + 1 being
      the codes from first + k on, the loop crashes exactly when the counts
      run past the size of the layer and no read has exited at the end of
      the file first. Unless it crashes or exits, it leaves the codes up to
      first + freq[i] used and gives the chain the codes first, first + 1, ...
      The other chains do not change. */
  lemma {:induction false} SymbolsOfLengthShape(data: seq<byte>, freq: seq<byte>, i: nat, k: nat, b: Build, first: int, size: int)
    requires |freq| == 16 && i < 16 && k <= freq[i] as nat && |b.symbols| == 16 && !b.crashed
    requires Layered(b.tree, i + 1, first + k, false, 0, size) && 0 <= first && first + k <= size
    requires |b.symbols[i]| == k && CodesFrom(b.symbols[i], i, first)
    ensures var r := SymbolsOfLength(data, freq, i, k, b);
      (r.crashed <==> first + freq[i] as int > size && !r.fs.exited)
      && (forall g :: 0 <= g < 16 && g != i ==> r.symbols[g] == b.symbols[g])
      && (!r.crashed && !r.fs.exited ==>
            Layered(r.tree, i + 1, first + freq[i] as int, false, 0, size)
            && |r.symbols[i]| == freq[i] as int && CodesFrom(r.symbols[i], i, first))
    decreases freq[i] as nat - k
  {
    if k < freq[i] as nat && !b.fs.exited {
      LeftMostFinds(b.tree, i + 1, first + k, 0, size);
      if first + k < size {
        AssignStep(b.tree, i + 1, first + k, 0, size);
        SymbolsOfLengthShape(data, freq, i, k + 1, Take(data, i, b), first, size);
      }
    }
  }

  /** Without a crash the file is where the reads of the loop leave it,
      and, unless a read exited, the chain gets, in order, the values of the
      bytes the loop reads. */
  lemma {:induction false} SymbolsOfLengthValues(data: seq<byte>, freq: seq<byte>, i: nat, k: nat, b: Build)
    requires |freq| == 16 && i < 16 && k <= freq[i] as nat && |b.symbols| == 16 && !b.crashed
    ensures var r := SymbolsOfLength(data, freq, i, k, b);
      (forall g :: 0 <= g < 16 && g != i ==> r.symbols[g] == b.symbols[g])
      && (!r.crashed ==> r.fs == ReadBytes(data, b.fs, freq[i] as nat - k).1)
      && (!r.crashed && !r.fs.exited ==>
            Values(r.symbols[i]) == Values(b.symbols[i]) + ReadBytes(data, b.fs, freq[i] as nat - k).0)
    decreases freq[i] as nat - k
  {
    if k == freq[i] as nat {
      assert Values(b.symbols[i]) + [] == Values(b.symbols[i]);
    } else if !b.fs.exited && LeftMost(b.tree).Some? {
      var rd := Read1(data, b.fs);
      var b' := Take(data, i, b);
      SymbolsOfLengthValues(data, freq, i, k + 1, b');
      ValuesAppend(b.symbols[i], HuffSymbol(rd.0, i + 1, LeftMost(b.tree).value.code));
      var m := freq[i] as nat - k;
      var rest := ReadBytes(data, rd.1, m - 1);
      assert ReadBytes(data, b.fs, m) == ([rd.0] + rest.0, rest.1);
      assert Values(b.symbols[i]) + [rd.0] + rest.0 == Values(b.symbols[i]) + ([rd.0] + rest.0);
    }
  }

  /** One turn of the outer loop: a new layer, then the symbols of length
      i + 1, which crash exactly when their count overfills the layer and
      no read has exited first. */
  lemma LayerStep(data: seq<byte>, freq: seq<byte>, i: nat, b: Build)
    requires |freq| == 16 && i < 16 && |b.symbols| == 16 && !b.crashed
    requires Layered(b.tree, i, Used(freq, i), false, 0, Pow2(i)) && Used(freq, i) <= Pow2(i)
    requires forall g :: 0 <= g < i ==> Complete(b.symbols[g], freq, g)
    requires forall g :: i <= g < 16 ==> b.symbols[g] == []
    ensures var r := SymbolsOfLength(data, freq, i, 0, b.(tree := AddLayer(b.tree)));
      (r.crashed <==> Used(freq, i + 1) > Pow2(i + 1) && !r.fs.exited)
      && (!r.crashed && !r.fs.exited ==>
            Layered(r.tree, i + 1, Used(freq, i + 1), false, 0, Pow2(i + 1))
            && (forall g :: 0 <= g < i + 1 ==> Complete(r.symbols[g], freq, g))
            && (forall g :: i + 1 <= g < 16 ==> r.symbols[g] == []))
  {
    Pow2At16();
    Pow2Monotone(i, 15);
    assert Pow2(i + 1) == 2 * Pow2(i);
    LayeredAddLayer(b.tree, i, Used(freq, i), false, 0, Pow2(i));
    SymbolsOfLengthShape(data, freq, i, 0, b.(tree := AddLayer(b.tree)), 2 * Used(freq, i), Pow2(i + 1));
  }

  /** The outer loop from `index == i`, with the tree holding the codes of
      the lengths up to i: it crashes exactly when some later length has more
      codes than room and no read has exited first, and when it neither
      crashes nor exits every chain is complete and canonical. */
  lemma {:induction false} LayersShape(data: seq<byte>, freq: seq<byte>, i: nat, b: Build)
    requires |freq| == 16 && i <= 16 && |b.symbols| == 16 && !b.crashed
    requires Layered(b.tree, i, Used(freq, i), false, 0, Pow2(i)) && Used(freq, i) <= Pow2(i)
    requires forall g :: 0 <= g < i ==> Complete(b.symbols[g], freq, g)
    requires forall g :: i <= g < 16 ==> b.symbols[g] == []
    ensures var r := Layers(data, freq, i, b);
      (r.crashed <==> !FitsFrom(freq, i) && !r.fs.exited)
      && (!r.crashed && !r.fs.exited ==> forall g :: 0 <= g < 16 ==> Complete(r.symbols[g], freq, g))
    decreases 16 - i
  {
    if i < 16 && !b.fs.exited {
      LayerStep(data, freq, i, b);
      var r1 := SymbolsOfLength(data, freq, i, 0, b.(tree := AddLayer(b.tree)));
      if !r1.crashed && !r1.fs.exited {
        LayersShape(data, freq, i + 1, r1);
      }
    }
  }

  /** Without a crash the file is where reading one byte per count leaves
      it (exited, when the file ends first), and unless a read exited the
      chains hold, in order, the values of the bytes read. */
  lemma {:induction false} LayersValues(data: seq<byte>, freq: seq<byte>, i: nat, b: Build, fs0: FileState)
    requires |freq| == 16 && i <= 16 && |b.symbols| == 16 && !b.crashed
    requires forall g :: i <= g < 16 ==> b.symbols[g] == []
    requires b.fs == ReadBytes(data, fs0, Off(freq, i)).1
    requires !b.fs.exited ==> AllValues(b.symbols, i) == ReadBytes(data, fs0, Off(freq, i)).0
    ensures var r := Layers(data, freq, i, b);
      (!r.crashed ==> r.fs == ReadBytes(data, fs0, Off(freq, 16)).1)
      && (!r.crashed && !r.fs.exited ==> AllValues(r.symbols, 16) == ReadBytes(data, fs0, Off(freq, 16)).0)
    decreases 16 - i
  {
    if i < 16 && b.fs.exited {
      OffAtMost(freq, i);
      ReadBytesSplit(data, fs0, Off(freq, i), Off(freq, 16) - Off(freq, i));
    } else if i < 16 {
      var b1 := b.(tree := AddLayer(b.tree));
      SymbolsOfLengthValues(data, freq, i, 0, b1);
      var r1 := SymbolsOfLength(data, freq, i, 0, b1);
      if !r1.crashed {
        ReadBytesSplit(data, fs0, Off(freq, i), freq[i] as nat);
        if !r1.fs.exited {
          AllValuesSame(r1.symbols, b.symbols, i);
          assert AllValues(r1.symbols, i + 1) == AllValues(r1.symbols, i) + Values(r1.symbols[i]);
          assert Values(b.symbols[i]) == [];
          assert [] + ReadBytes(data, b.fs, freq[i] as nat).0 == ReadBytes(data, b.fs, freq[i] as nat).0;
        }
        LayersValues(data, freq, i + 1, r1, fs0);
      }
    }
  }

  /** The counts of the lengths up to i are among those up to 16. */
  lemma {:induction false} OffAtMost(freq: seq<byte>, i: nat)
    requires |freq| == 16 && i <= 16
    ensures Off(freq, i) <= Off(freq, 16)
    decreases 16 - i
  {
    if i < 16 {
      OffAtMost(freq, i + 1);
    }
  }

  /** `parse_huffman_table` reads the 2-byte length, the class and
      destination byte and the 16 counts, then one symbol per count in order
      of length, each with the next canonical code of its length and the
      value of the next byte of the file. It dereferences NULL exactly when
      the counts overfill the tree and the file has not ended first (where
      `read_1_byte` exits); without that crash the file is where reading
      one byte per count leaves it. */
  lemma ParseTableMeaning(data: seq<byte>, fs: FileState)
    ensures var r := ParseTable(data, fs); var hdr := ReadBytes(data, fs, 19); var freq := r.0.frequencies;
      var body := ReadBytes(data, hdr.1, Off(freq, 16));
      |freq| == 16 && freq == hdr.0[3..] && r.0.tableClass == hdr.0[2] / 16 && r.0.destinationId == hdr.0[2] % 16
      && |r.0.symbols| == 16
      && (r.2 <==> !Fits(freq) && !r.1.exited)
      && (!r.2 ==> r.1 == body.1)
      && (!r.2 && !r.1.exited ==>
            (forall i :: 0 <= i < 16 ==> Complete(r.0.symbols[i], freq, i))
            && AllValues(r.0.symbols, 16) == body.0)
  {
    var len := Read2(data, fs);
    var two := ReadBytes(data, fs, 2);
    var tc := Read1(data, len.1);
    var fr := ReadBytes(data, tc.1, 16);
    ReadBytesOne(data, len.1);
    ReadBytesSplit(data, fs, 2, 1);
    ReadBytesSplit(data, fs, 3, 16);
    var three := ReadBytes(data, fs, 3);
    assert three.0 == two.0 + [tc.0] && three.1 == tc.1;
    var hdr := ReadBytes(data, fs, 19);
    assert hdr.0 == three.0 + fr.0;
    assert hdr.0[2] == tc.0;
    assert hdr.0[3..] == fr.0;
    var b0 := Build(Leaf(0, 0, false), fr.1, seq(16, _ => []), false);
    LayersShape(data, fr.0, 0, b0);
    assert ReadBytes(data, fr.1, 0) == ([], fr.1);
    LayersValues(data, fr.0, 0, b0, fr.1);
  }

  /** The counts as `valoffset` of the decoder's tables: the running totals. */
  function Offsets(freq: seq<byte>): (vo: seq<int>)
    requires |freq| == 16
    ensures |vo| == 18
  {
    seq(18, j => if 0 <= j <= 16 then Off(freq, j) else Off(freq, 16))
  }

  lemma {:induction false} UsedIsFirstCode(freq: seq<byte>, i: nat)
    requires |freq| == 16 && i <= 16
    ensures Huffman.FirstCode(Offsets(freq), i) == 2 * Used(freq, i)
  {
    if i > 0 {
      UsedIsFirstCode(freq, i - 1);
      assert Offsets(freq)[i] - Offsets(freq)[i - 1] == freq[i - 1] as int;
    }
  }

  lemma CodeAt(freq: seq<byte>, codes: seq<int>, i: nat, j: nat)
    requires |freq| == 16 && i < 16 && |codes| == 256 && Offsets(freq)[i + 1] < 256 && j < freq[i] as nat
    requires var vo := Offsets(freq); var k := Off(freq, i) + j;
      vo[i] <= k < vo[i + 1] ==> codes[k] == Huffman.FirstCode(vo, i) + (k - vo[i])
    ensures Off(freq, i) + j < 256 && codes[Off(freq, i) + j] == 2 * Used(freq, i) + j
  {
    UsedIsFirstCode(freq, i);
    assert Offsets(freq)[i] == Off(freq, i) && Offsets(freq)[i + 1] == Off(freq, i) + freq[i] as int;
  }

  lemma {:induction false} OffsetsMonotone(freq: seq<byte>)
    requires |freq| == 16
    ensures Huffman.Monotone(Offsets(freq))
  {
    forall i | 0 <= i < 16
      ensures Offsets(freq)[i] <= Offsets(freq)[i + 1]
    {
      assert Off(freq, i + 1) == Off(freq, i) + freq[i] as nat;
    }
  }

  /** The slot of the decoder's tables that holds the j-th symbol of length
      i + 1. */
  function Slot(freq: seq<byte>, i: nat, j: nat): nat
    requires |freq| == 16 && i <= 16
  {
    Off(freq, i) + j
  }

  /** The tree of `parse_huffman_table` and `generate_codes` of the JPEG
      decoder agree: given the same counts as `valoffset`, the j-th symbol of
      length i + 1 (slot Slot(i, j) of the decoder's table) gets the code
      2 * Used(i) + j, the code a complete chain gives it. */
  lemma GeneratedCodesMatchTree(freq: seq<byte>, t: Huffman.HuffmanTable)
    requires |freq| == 16 && Huffman.WellFormed(t) && t.valoffset == Offsets(freq)
    ensures var codes := Huffman.GenerateCodes(t).codes;
      forall i, j :: 0 <= i < 16 && 0 <= j < freq[i] as int ==> Slot(freq, i, j) < 256 && codes[Slot(freq, i, j)] == 2 * Used(freq, i) + j
  {
    OffsetsMonotone(freq);
    var codes := Huffman.GenerateCodes(t).codes;
    Huffman.GeneratedCodesAreCanonical(t);
    forall i, j | 0 <= i < 16 && 0 <= j < freq[i] as int
      ensures Slot(freq, i, j) < 256 && codes[Slot(freq, i, j)] == 2 * Used(freq, i) + j
    {
      CodeAt(freq, codes, i, j);
    }
  }

  // ------------------------------------------------------------ the file

  /** The input file with the reader globals and the caller's `bytes_read`. */
  class JpegFile {
    const data: seq<byte>
    var fs: FileState
    var bytesRead: int

    constructor (data: seq<byte>)
      ensures this.data == data && fs == Opened() && bytesRead == 0
    {
      this.data := data;
      fs := Opened();
      bytesRead := 0;
    }

    /** `read_1_byte`. */
    method ReadOneByte() returns (c: byte)
      modifies this
      ensures (c, fs) == Read1(data, old(fs))
      ensures bytesRead == CountAsWritten(old(bytesRead), old(fs), fs)
    {
      if fs.exited {
        return 0;
      }
      var p := fs.rs.pos;
      if p >= |data| {
        fs := fs.(exited := true);
        return 0;
      }
      c := data[p];
      p := p + 1;
      var marker := fs.rs.lastMarker;
      if c == 0 && fs.rs.lastByte == 0xFF {
        if p >= |data| {
          fs := fs.(exited := true);
          return 0;
        }
        c := data[p];
        p := p + 1;
      } else if fs.rs.lastByte == 0xFF && c != 0 {
        marker := 0xFF00 + c;
      }
      fs := FileState(ReadState(p, c, marker), false);
    }

    /** `read_1_byte` with `(*bytes_read)++` in place of `*bytes_read++`:
        the count goes up once for each byte taken from the file, so it
        grows by the bytes consumed (PenjiUtil.IntendedCountIsConsumed). */
    method ReadOneByteCounted() returns (c: byte)
      modifies this
      ensures (c, fs) == Read1(data, old(fs))
      ensures bytesRead == IntendedCount(data, old(fs), 1, old(bytesRead))
      ensures !fs.exited ==> bytesRead == old(bytesRead) + (fs.rs.pos - old(fs).rs.pos)
    {
      if fs.exited {
        return 0;
      }
      var p := fs.rs.pos;
      if p >= |data| {
        fs := fs.(exited := true);
        return 0;
      }
      c := data[p];
      p := p + 1;
      var marker := fs.rs.lastMarker;
      if c == 0 && fs.rs.lastByte == 0xFF {
        if p >= |data| {
          fs := fs.(exited := true);
          return 0;
        }
        c := data[p];
        p := p + 1;
        bytesRead := bytesRead + 1;
      } else if fs.rs.lastByte == 0xFF && c != 0 {
        marker := 0xFF00 + c;
      }
      bytesRead := bytesRead + 1;
      fs := FileState(ReadState(p, c, marker), false);
    }

    /** `read_2_bytes`. */
    method ReadTwoBytes() returns (r: int)
      modifies this
      ensures (r, fs) == Read2(data, old(fs)) && bytesRead == old(bytesRead)
    {
      ghost var fs0 := fs;
      var c1 := ReadOneByte();
      var c2 := ReadOneByte();
      assert ReadBytes(data, fs0, 2).0 == [c1, c2];
      r := BigEndian16(c1, c2);
    }

    /** `next_marker`. */
    method NextMarker() returns (marker: int)
      modifies this
      ensures (marker, fs) == NextMarkerRead(data, old(fs)) && bytesRead == old(bytesRead)
    {
      ghost var fs0 := fs;
      var c1 := ReadOneByte();
      ghost var afterFirst := fs;
      while c1 != 0xFF && !fs.exited
        invariant bytesRead == old(bytesRead)
        invariant SeekFF(data, fs, c1) == SeekFF(data, afterFirst, Read1(data, fs0).0)
        decreases |data| - fs.rs.pos, !fs.exited
      {
        c1 := ReadOneByte();
      }
      ghost var seek := fs;
      var c2 := ReadOneByte();
      while c2 == 0xFF && !fs.exited
        invariant bytesRead == old(bytesRead)
        invariant SkipFill(data, seek) == if c2 == 0xFF && !fs.exited then SkipFill(data, fs) else (c2, fs)
        decreases |data| - fs.rs.pos, !fs.exited
      {
        c2 := ReadOneByte();
      }
      marker := 0xFF00 + c2 as int;
    }

    /** `while (marker != target) next_marker(file, &bytes_read, &marker);` */
    method FindMarker(marker0: int, target: int) returns (marker: int)
      modifies this
      ensures (marker, fs) == SeekMarker(data, old(fs), marker0, target) && bytesRead == old(bytesRead)
    {
      marker := marker0;
      while marker != target && !fs.exited
        invariant bytesRead == old(bytesRead)
        invariant SeekMarker(data, fs, marker, target) == SeekMarker(data, old(fs), marker0, target)
        decreases |data| - fs.rs.pos + 2, !fs.exited
      {
        marker := NextMarker();
      }
    }

    /** The 16 counts of `parse_huffman_table`, read one by one. */
    method ReadFrequencies() returns (freq: seq<byte>)
      modifies this
      ensures (freq, fs) == ReadBytes(data, old(fs), 16) && bytesRead == old(bytesRead)
    {
      ghost var fs0 := fs;
      freq := [];
      var index := 0;
      while index < 16
        invariant 0 <= index <= 16 && bytesRead == old(bytesRead)
        invariant (freq, fs) == ReadBytes(data, fs0, index)
      {
        ghost var before := fs;
        var c := ReadOneByte();
        ReadBytesSplit(data, fs0, index, 1);
        ReadBytesOne(data, before);
        freq := freq + [c];
        index := index + 1;
      }
    }

    /** The inner loop of `parse_huffman_table` for the codes of length
        i + 1. */
    method ReadSymbolGroup(freq: seq<byte>, i: nat, b0: Build) returns (b: Build)
      requires |freq| == 16 && i < 16 && |b0.symbols| == 16 && b0.fs == fs
      modifies this
      ensures b == SymbolsOfLength(data, freq, i, 0, b0) && fs == b.fs && bytesRead == old(bytesRead)
    {
      b := b0;
      var count := 0;
      while count < freq[i] as int
        invariant 0 <= count <= freq[i] as int && |b.symbols| == 16 && b.fs == fs && bytesRead == old(bytesRead)
        invariant SymbolsOfLength(data, freq, i, count, b) == SymbolsOfLength(data, freq, i, 0, b0)
      {
        if fs.exited {
          // read_1_byte has ended the program at the end of the file
          return;
        }
        var node := LeftMost(b.tree);
        if node.None? {
          return b.(crashed := true);
        }
        ghost var next := Take(data, i, b);
        var value := ReadOneByte();
        b := Build(Assign(b.tree), fs, b.symbols[i := b.symbols[i] + [HuffSymbol(value, i + 1, node.value.code)]], b.crashed);
        assert b == next;
        count := count + 1;
      }
    }

    /** The outer loop of `parse_huffman_table`. */
    method ReadLayers(freq: seq<byte>, b0: Build) returns (b: Build)
      requires |freq| == 16 && |b0.symbols| == 16 && b0.fs == fs
      modifies this
      ensures b == Layers(data, freq, 0, b0) && fs == b.fs && bytesRead == old(bytesRead)
    {
      b := b0;
      var index := 0;
      while index < 16 && !b.crashed && !b.fs.exited
        invariant 0 <= index <= 16 && |b.symbols| == 16 && b.fs == fs && bytesRead == old(bytesRead)
        invariant Layers(data, freq, index, b) == Layers(data, freq, 0, b0)
      {
        ghost var before := b;
        b := ReadSymbolGroup(freq, index, b.(tree := AddLayer(b.tree)));
        assert Layers(data, freq, index, before) == Layers(data, freq, index + 1, b);
        index := index + 1;
      }
    }

    /** `parse_huffman_table`, with `crashed` where the source dereferences
        the NULL that `get_available_left_most_node` returns on a full tree. */
    method ParseHuffmanTable() returns (table: PenjiTable, crashed: bool)
      modifies this
      ensures (table, fs, crashed) == ParseTable(data, old(fs)) && bytesRead == old(bytesRead)
    {
      var tableLength := ReadTwoBytes();
      var tcTh := ReadOneByte();
      var freq := ReadFrequencies();
      var b := ReadLayers(freq, Build(Leaf(0, 0, false), fs, seq(16, _ => []), false));
      table := PenjiTable(tcTh / 16, tcTh % 16, freq, b.symbols);
      crashed := b.crashed;
    }
  }
}
