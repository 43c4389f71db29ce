/** The bit buffer of `get_num_bits` (src/jpeg-cpu.c:481-518,
    src/dpu/dpu-jpeg-decode.c:374-411): `bit_buffer` is an `uint32_t` holding the
    pending bits MSB-aligned, `bits_left` counts them, and destuffed bytes are
    appended below them until enough bits are available. */
module Bits {
  import opened Bytes
  import opened Arith
  import opened Stream

  /** The cursor position, `bit_buffer` and `bits_left`. */
  datatype BitState = BitState(pos: int, buffer: nat, bitsLeft: nat)

  /** bit_buffer keeps zeros below its `bits_left` valid bits. Under this invariant
      the `|=` of get_num_bits adds the new byte into zero bits, which the model
      writes as an addition. */
  predicate Aligned(s: BitState)
  {
    s.bitsLeft <= 32 && s.buffer < Pow2(32) && s.buffer % Pow2(32 - s.bitsLeft) == 0
  }

  /** The pending bits as a number of `bitsLeft` bits. */
  function Pending(s: BitState): nat
    requires s.bitsLeft <= 32
  {
    DivNonneg(s.buffer, Pow2(32 - s.bitsLeft));
    s.buffer / Pow2(32 - s.bitsLeft)
  }

  lemma AlignedForm(s: BitState)
    requires Aligned(s)
    ensures s.buffer == Pending(s) * Pow2(32 - s.bitsLeft)
    ensures Pending(s) < Pow2(s.bitsLeft)
  {
    var d := Pow2(32 - s.bitsLeft);
    var m := s.buffer / d;
    DivModParts(s.buffer, d);
    Pow2Add(s.bitsLeft, 32 - s.bitsLeft);
    if m >= Pow2(s.bitsLeft) {
      MulMonoLe(Pow2(s.bitsLeft), m, d);
      assert false;
    }
  }

  /** The arithmetic of appending a byte a below m pending bits, with pp = 2^(24 - bl),
      h = 2^bl and the buffer b = m * 2^(32 - bl). */
  lemma AppendByteArith(b: int, m: int, a: int, pp: int, h: int)
    requires pp > 0 && 0 <= m < h && 0 <= a < 256 && b == m * (256 * pp)
    ensures (b + a * pp) / pp == m * 256 + a && (b + a * pp) % pp == 0
    ensures b + a * pp < (h * 256) * pp
  {
    assert b + a * pp == (m * 256 + a) * pp;
    DivModUnique(m * 256 + a, pp, 0);
    MulMonoLt(m * 256 + a, h * 256, pp);
  }

  /** The powers of two met when a byte goes below bl pending bits. */
  lemma ByteBelowPowers(bl: nat)
    requires bl <= 24
    ensures Pow2(32 - bl) == 256 * Pow2(24 - bl) && Pow2(32) == (Pow2(bl) * 256) * Pow2(24 - bl)
  {
    Pow2Split(8, 24 - bl, 32 - bl);
    Pow2At8();
    Pow2Split(bl, 8, bl + 8);
    Pow2Split(bl + 8, 24 - bl, 32);
  }

  /** Splitting acc = r * lo + rest scaled by d: r is the quotient by lo * d. */
  lemma SplitHighArith(acc: int, lo: int, d: int, r: int, rest: int)
    requires lo > 0 && d > 0 && acc == r * lo + rest && 0 <= rest < lo
    ensures (acc * d) / (lo * d) == r && rest * d < lo * d
  {
    assert acc * d == r * (lo * d) + rest * d by {
      assert acc * d == (r * lo) * d + rest * d;
    }
    MulMonoLt(rest, lo, d);
    DivModUnique(r, lo * d, rest * d);
  }

  /** The quotient of acc < p * lo by lo is below p. */
  lemma QuotientBound(acc: int, lo: int, p: int, r: int, rest: int)
    requires lo > 0 && p >= 0 && acc == r * lo + rest && 0 <= rest < lo && acc < p * lo
    ensures r < p
  {
    if r >= p {
      MulMonoLe(p, r, lo);
      assert false;
    }
  }

  /** Shifting acc * 2^(32 - bl) left by n (e = 2^(32 - bl + n)) and keeping 32 bits
      (w = 2^32 = lo * e) leaves rest * e: the taken bits r fall off the top. */
  lemma ShiftOutArith(acc: int, lo: int, e: int, w: int, r: int, rest: int)
    requires lo > 0 && e > 0 && acc == r * lo + rest && 0 <= rest < lo && w == lo * e
    ensures (acc * e) % w == rest * e && rest * e < w
  {
    assert acc * e == r * w + rest * e by {
      assert acc * e == (r * lo) * e + rest * e;
      assert (r * lo) * e == r * (lo * e);
    }
    MulMonoLt(rest, lo, e);
    DivModUnique(r, w, rest * e);
  }

  /** The arithmetic of taking n of bl pending bits acc from the buffer b = acc * d,
      with d = 2^(32 - bl), lo = 2^(bl - n), p = 2^n, dd = 2^(32 - n),
      e = 2^(32 - bl + n) and w = 2^32. */
  lemma TakeArith(b: int, acc: int, d: int, lo: int, p: int, dd: int, e: int, w: int)
    requires 0 <= acc < p * lo && lo > 0 && d > 0 && p > 0 && b == acc * d
    requires dd == lo * d && e == d * p && w == lo * e
    ensures b / dd < p && (b * p) % w < w && ((b * p) % w) % e == 0
    ensures (b / dd) * lo + ((b * p) % w) / e == acc
  {
    DivModParts(acc, lo);
    var r := acc / lo;
    var rest := acc % lo;
    SplitHighArith(acc, lo, d, r, rest);
    QuotientBound(acc, lo, p, r, rest);
    MulAssoc(acc, d, p);
    ShiftOutArith(acc, lo, e, w, r, rest);
    DivModUnique(rest, e, 0);
  }

  /** Taking the first n pending bits: they form a number below 2^n and the rest
      stays aligned, with the remaining bits after them. */
  lemma TakeAligned(s: BitState, n: nat)
    requires Aligned(s) && 0 < n <= s.bitsLeft
    ensures var t := BitState(s.pos, U32(s.buffer * Pow2(n)), s.bitsLeft - n);
      Aligned(t) && s.buffer / Pow2(32 - n) < Pow2(n)
      && (s.buffer / Pow2(32 - n)) * Pow2(s.bitsLeft - n) + Pending(t) == Pending(s)
  {
    var bl := s.bitsLeft;
    AlignedForm(s);
    Pow2Split(bl - n, 32 - bl, 32 - n);
    Pow2Split(n, bl - n, bl);
    Pow2Split(32 - bl, n, 32 - (bl - n));
    Pow2Split(bl - n, 32 - (bl - n), 32);
    Pow2At32();
    TakeArith(s.buffer, Pending(s), Pow2(32 - bl), Pow2(bl - n), Pow2(n), Pow2(32 - n),
              Pow2(32 - (bl - n)), Pow2(32));
  }

  /** One step of the refill: byte a is appended below the pending bits
      (`bit_buffer |= byte << (32 - 8 - bits_left)`), keeping the buffer aligned
      and putting the byte's eight bits after the pending ones; q is the cursor
      after the byte. */
  function Load(s: BitState, a: int, q: int): (r: BitState)
    requires Aligned(s) && s.bitsLeft <= 24 && 0 <= a < 256
    ensures Aligned(r) && r.bitsLeft == s.bitsLeft + 8 && r.pos == q
    ensures Pending(r) == Pending(s) * 256 + a
  {
    AlignedForm(s);
    ByteBelowPowers(s.bitsLeft);
    AppendByteArith(s.buffer, Pending(s), a, Pow2(24 - s.bitsLeft), Pow2(s.bitsLeft));
    MulMonoLe(0, a, Pow2(24 - s.bitsLeft));
    BitState(q, s.buffer + a * Pow2(24 - s.bitsLeft), s.bitsLeft + 8)
  }

  /** The refill loop of get_num_bits: append destuffed bytes below the pending bits
      until at least n bits are available. */
  function Fill(data: seq<byte>, s: BitState, n: nat): (r: BitState)
    requires Aligned(s) && n <= 25
    ensures Aligned(r) && n <= r.bitsLeft
    decreases n - s.bitsLeft
  {
    if s.bitsLeft >= n then s
    else
      var b := Destuff(data, s.pos);
      DestuffMeaning(data, s.pos);
      Fill(data, Load(s, b.0, b.1), n)
  }

  /** The tail of get_num_bits: `bit_buffer >> (32 - n)`, then `bit_buffer <<= n`. */
  function Take(s: BitState, n: nat): (r: (nat, BitState))
    requires Aligned(s) && 0 < n <= s.bitsLeft
    ensures Aligned(r.1) && r.1.pos == s.pos && r.1.bitsLeft == s.bitsLeft - n
  {
    TakeAligned(s, n);
    DivNonneg(s.buffer, Pow2(32 - n));
    (s.buffer / Pow2(32 - n), BitState(s.pos, U32(s.buffer * Pow2(n)), s.bitsLeft - n))
  }

  /** The n bits taken are the leading ones of the pending bits: below 2^n, and
      followed by the bits that stay pending. */
  lemma TakeMeaning(s: BitState, n: nat)
    requires Aligned(s) && 0 < n <= s.bitsLeft
    ensures var r := Take(s, n);
      r.0 < Pow2(n) && r.0 * Pow2(r.1.bitsLeft) + Pending(r.1) == Pending(s)
  {
    TakeAligned(s, n);
  }

  /** `get_num_bits(d, n)`: 0 for n = 0, otherwise the next n bits. */
  function GetBits(data: seq<byte>, s: BitState, n: nat): (r: (nat, BitState))
    requires Aligned(s) && n <= 25
    ensures Aligned(r.1)
  {
    if n == 0 then (0, s) else Take(Fill(data, s, n), n)
  }

  /** The value of a sequence of bytes read as one big-endian number. */
  function BytesValue(bs: seq<int>): int
  {
    if |bs| == 0 then 0 else BytesValue(bs[..|bs| - 1]) * 256 + bs[|bs| - 1]
  }

  /** The first k destuffed bytes from p, and the position after them. */
  function DestuffedBytes(data: seq<byte>, p: int, k: nat): (r: (seq<int>, int))
    ensures |r.0| == k
    decreases k
  {
    if k == 0 then ([], p)
    else
      var b := Destuff(data, p);
      var rest := DestuffedBytes(data, b.1, k - 1);
      ([b.0] + rest.0, rest.1)
  }

  lemma {:induction false} BytesValuePrepend(a: int, bs: seq<int>)
    ensures BytesValue([a] + bs) == a * Pow2(8 * |bs|) + BytesValue(bs)
    decreases |bs|
  {
    if |bs| == 0 {
      assert [a] + bs == [a];
      assert BytesValue([a]) == BytesValue([]) * 256 + a;
    } else {
      var init := bs[..|bs| - 1];
      var last := bs[|bs| - 1];
      assert ([a] + bs)[..|bs|] == [a] + init;
      BytesValuePrepend(a, init);
      var p := Pow2(8 * |init|);
      Pow2Add(8 * |init|, 8);
      Pow2At8();
      assert Pow2(8 * |bs|) == p * 256;
      assert BytesValue([a] + bs) == (a * p + BytesValue(init)) * 256 + last;
      assert BytesValue(bs) == BytesValue(init) * 256 + last;
      assert (a * p) * 256 == a * (p * 256);
    }
  }

  lemma PrependArith(pr: int, pt: int, m: int, a: int, k: int, k8: int, v: int, vb: int)
    requires pr == pt * k + v && pt == m * 256 + a && k8 == 256 * k && vb == a * k + v
    ensures pr == m * k8 + vb
  {
    MulAssoc(m, 256, k);
  }

  /** Bytes the refill loads to bring bitsLeft up to n. */
  function BytesNeeded(bitsLeft: nat, n: nat): nat
  {
    if bitsLeft >= n then 0 else (n - bitsLeft + 7) / 8
  }

  /** The refill loads BytesNeeded destuffed bytes: bits_left grows by eight for
      each, and the cursor ends after them. */
  lemma {:induction false} FillLoads(data: seq<byte>, s: BitState, n: nat)
    requires Aligned(s) && n <= 25
    ensures var k := BytesNeeded(s.bitsLeft, n);
      Fill(data, s, n).bitsLeft == s.bitsLeft + 8 * k && Fill(data, s, n).pos == DestuffedBytes(data, s.pos, k).1
    decreases n - s.bitsLeft
  {
    if s.bitsLeft < n {
      var b := Destuff(data, s.pos);
      DestuffMeaning(data, s.pos);
      var t := Load(s, b.0, b.1);
      FillLoads(data, t, n);
      var k := BytesNeeded(s.bitsLeft, n);
      assert BytesNeeded(t.bitsLeft, n) == k - 1;
    }
  }

  /** The pending bits after the refill are the old ones followed by the bits of the
      loaded bytes. */
  lemma {:induction false} FillValue(data: seq<byte>, s: BitState, n: nat)
    requires Aligned(s) && n <= 25
    ensures var k := BytesNeeded(s.bitsLeft, n);
      Pending(Fill(data, s, n)) == Pending(s) * Pow2(8 * k) + BytesValue(DestuffedBytes(data, s.pos, k).0)
    decreases n - s.bitsLeft
  {
    if s.bitsLeft < n {
      var a := Destuff(data, s.pos).0;
      DestuffMeaning(data, s.pos);
      var t := Load(s, a, Destuff(data, s.pos).1);
      FillValue(data, t, n);
      var k := BytesNeeded(s.bitsLeft, n);
      assert BytesNeeded(t.bitsLeft, n) == k - 1;
      var rest := DestuffedBytes(data, t.pos, k - 1);
      assert DestuffedBytes(data, s.pos, k).0 == [a] + rest.0;
      BytesValuePrepend(a, rest.0);
      var K := Pow2(8 * (k - 1));
      Pow2Split(8, 8 * (k - 1), 8 * k);
      Pow2At8();
      PrependArith(Pending(Fill(data, s, n)), Pending(t), Pending(s), a, K, Pow2(8 * k),
                   BytesValue(rest.0), BytesValue([a] + rest.0));
    }
  }

  /** get_num_bits returns the next n bits of the destuffed bit stream: the pending
      bits followed by the destuffed bytes it loads, read MSB first. The result is
      below 2^n, bits_left ends n lower than after its refill, and the bits not returned
      stay pending. */
  lemma GetNumBitsMeaning(data: seq<byte>, s: BitState, n: nat)
    requires Aligned(s) && 0 < n <= 25
    ensures var k := BytesNeeded(s.bitsLeft, n);
      var ds := DestuffedBytes(data, s.pos, k);
      var r := GetBits(data, s, n);
      r.0 < Pow2(n) && r.1.pos == ds.1 && r.1.bitsLeft == s.bitsLeft + 8 * k - n
      && r.0 * Pow2(r.1.bitsLeft) + Pending(r.1) == Pending(s) * Pow2(8 * k) + BytesValue(ds.0)
  {
    FillLoads(data, s, n);
    FillValue(data, s, n);
    var f := Fill(data, s, n);
    TakeMeaning(f, n);
    assert GetBits(data, s, n) == Take(f, n);
  }

  lemma DropToByte(bl: nat)
    ensures bl % 8 <= bl && (bl - bl % 8) % 8 == 0
  {
    assert bl - bl % 8 == (bl / 8) * 8;
  }

  /** Dropping `bits_left % 8` bits to reach a byte boundary. */
  function AlignToByte(s: BitState): (r: BitState)
    requires Aligned(s)
    ensures Aligned(r) && r.bitsLeft % 8 == 0 && r.bitsLeft <= s.bitsLeft && r.pos == s.pos
  {
    var offset := s.bitsLeft % 8;
    DropToByte(s.bitsLeft);
    if offset == 0 then s else Take(s, offset).1
  }
}
