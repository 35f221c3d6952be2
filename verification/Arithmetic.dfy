/** Bytes, wrap-around, and the few non-linear facts that the other modules share. */
module Arithmetic {
  type byte = x: int | 0 <= x < 256

  /** Conversion to uint32. */
  function U32(v: int): nat {
    v % 0x1_0000_0000
  }

  lemma MulMonotone(a: int, b: int, m: nat)
    requires a <= b
    ensures a * m <= b * m == m * b
  {
  }

  lemma OneMore(n: nat, m: nat)
    ensures (n + 1) * m == n * m + m
  {
  }

  lemma Distribute(x: nat, y: nat, m: nat)
    ensures (x + y) * m == x * m + y * m
  {
  }

  lemma DivModUnique(v: nat, q: nat, r: nat, m: nat)
    requires m >= 1 && v == r + m * q && r < m
    ensures v / m == q && v % m == r
  {
    var d := v / m - q;
    assert v == m * (v / m) + v % m;
    assert m * d == r - v % m;
    assert d >= 1 ==> m * d >= m;
    assert d <= -1 ==> m * (-d) >= m;
  }

  lemma QuotientTimes(n: nat, d: nat)
    requires d > 0
    ensures n / d * d <= n < n / d * d + d
  {
    assert n == d * (n / d) + n % d;
  }

  /** Comparing a quotient without dividing. */
  lemma QuotientBelow(n: nat, d: nat, q: nat)
    requires d > 0
    ensures n / d < q <==> n < q * d
  {
    var r := n / d;
    assert n == d * r + n % d;
    OneMore(r, d);
    if r < q {
      MulMonotone(r + 1, q, d);
    } else {
      MulMonotone(q, r, d);
    }
  }

  lemma DivBound(n: nat, d: nat, q: nat)
    requires d > 0 && n <= d * q
    ensures 0 <= n / d <= q
  {
    OneMore(q, d);
    QuotientBelow(n, d, q + 1);
  }

  // ---- Positions in a row-major image -------------------------------------------------

  function Index(w: nat, x: nat, y: nat): nat {
    y * w + x
  }

  lemma IndexBound(w: nat, h: nat, x: nat, y: nat)
    requires x < w && y < h
    ensures Index(w, x, y) < w * h
  {
    OneMore(y, w);
    MulMonotone(y + 1, h, w);
  }

  lemma IndexInjective(w: nat, x: nat, y: nat, x': nat, y': nat)
    requires x < w && x' < w && Index(w, x, y) == Index(w, x', y')
    ensures x == x' && y == y'
  {
    DivModUnique(y * w + x, y, x, w);
    DivModUnique(y' * w + x', y', x', w);
  }

  lemma IndexOnto(w: nat, h: nat, k: nat)
    requires k < w * h
    ensures k % w < w && k / w < h && Index(w, k % w, k / w) == k
  {
    MulMonotone(h, h, w);
    QuotientBelow(k, w, h);
  }
}
