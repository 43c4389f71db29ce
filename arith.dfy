/** Small facts of integer multiplication and division, stated on plain integers
    so that the proofs about shifts and buffer offsets can use them step by step. */
module Arith {

  lemma MulGe(k: int, d: int)
    requires k >= 1 && d > 0
    ensures k * d >= d
  {
  }

  lemma MulLe(k: int, d: int)
    requires k <= -1 && d > 0
    ensures k * d <= -d
  {
  }

  /** The only multiple of d strictly between -d and d is 0. */
  lemma ZeroMul(k: int, d: int, e: int)
    requires k * d == e && -d < e < d && d > 0
    ensures k == 0
  {
    if k >= 1 {
      MulGe(k, d);
      assert false;
    } else if k <= -1 {
      MulLe(k, d);
      assert false;
    }
  }

  lemma DivModParts(x: int, d: int)
    requires d > 0
    ensures x == (x / d) * d + x % d && 0 <= x % d < d
  {
  }

  lemma DivNonneg(x: int, d: int)
    requires x >= 0 && d > 0
    ensures x / d >= 0
  {
    DivModParts(x, d);
    if x / d <= -1 {
      MulLe(x / d, d);
      assert false;
    }
  }

  /** Quotient and remainder are unique. */
  lemma DivModUnique(q: int, d: int, r: int)
    requires d > 0 && 0 <= r < d
    ensures (q * d + r) / d == q && (q * d + r) % d == r
  {
    var x := q * d + r;
    DivModParts(x, d);
    assert (x / d - q) * d == r - x % d;
    ZeroMul(x / d - q, d, r - x % d);
  }

  lemma MulAssoc(a: int, b: int, c: int)
    ensures (a * b) * c == a * (b * c)
  {
  }

  lemma MulSucc(k: int, s: int)
    ensures (k + 1) * s == k * s + s
  {
  }

  lemma MulMonoLt(a: int, b: int, c: int)
    requires a < b && c > 0
    ensures a * c < b * c
  {
  }

  lemma MulMonoLe(a: int, b: int, c: int)
    requires a <= b && c >= 0
    ensures a * c <= b * c
  {
  }
}
