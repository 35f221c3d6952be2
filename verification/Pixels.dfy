/** ARGB words and the C arithmetic of the integer image filters. */
module Pixels {
  import opened Arithmetic
  import opened Bits

  type Argb = v: int | 0 <= v < 0x1_0000_0000

  function Alpha(v: Argb): (a: nat)
    ensures a <= 255
  {
    v / 0x100_0000
  }

  /** Red, green and blue are components 0, 1 and 2. */
  function Colour(v: Argb, k: nat): (c: nat)
    ensures c <= 255
  {
    if k == 0 then v / 0x1_0000 % 256 else if k == 1 then v / 0x100 % 256 else v % 256
  }

  /** Components and alpha determine the word. */
  lemma WordSplit(v: Argb)
    ensures v == Alpha(v) * 0x100_0000 + Colour(v, 0) * 0x1_0000 + Colour(v, 1) * 0x100 + Colour(v, 2)
  {
    var r, g := v / 0x1_0000, v / 0x100;
    assert v == 256 * g + v % 256;
    assert g == 256 * (g / 256) + g % 256 && g / 256 == r;
    assert r == 256 * (r / 256) + r % 256 && r / 256 == v / 0x100_0000;
  }

  lemma WordJoin(a: nat, r: nat, g: nat, b: nat)
    requires a <= 255 && r <= 255 && g <= 255 && b <= 255
    ensures var v := a * 0x100_0000 + r * 0x1_0000 + g * 0x100 + b;
            v < 0x1_0000_0000 && Alpha(v) == a && Colour(v, 0) == r && Colour(v, 1) == g && Colour(v, 2) == b
  {
    var v := a * 0x100_0000 + r * 0x1_0000 + g * 0x100 + b;
    DivModUnique(v, a * 0x1_0000 + r * 0x100 + g, b, 0x100);
    DivModUnique(v, a * 0x100 + r, g * 0x100 + b, 0x1_0000);
    DivModUnique(v, a, r * 0x1_0000 + g * 0x100 + b, 0x100_0000);
    DivModUnique(a * 0x1_0000 + r * 0x100 + g, a * 0x100 + r, g, 0x100);
    DivModUnique(a * 0x100 + r, a, r, 0x100);
  }

  /** Bitwise or. */
  function Or(x: nat, y: nat): nat {
    if x == 0 && y == 0 then 0
    else (if x % 2 == 1 || y % 2 == 1 then 1 else 0) + 2 * Or(x / 2, y / 2)
  }

  lemma {:induction false} OrZero(x: nat)
    ensures Or(x, 0) == x
  {
    if x > 0 {
      OrZero(x / 2);
    }
  }

  /** Bits that do not overlap add. */
  lemma {:induction false} OrShifted(x: nat, k: nat, y: nat)
    requires y < Pow2(k)
    ensures Or(x * Pow2(k), y) == x * Pow2(k) + y
  {
    if k == 0 {
      OrZero(x);
    } else {
      var h := x * Pow2(k - 1);
      assert x * Pow2(k) == 2 * h;
      OrShifted(x, k - 1, y / 2);
      assert 2 * h / 2 == h && 2 * h % 2 == 0;
    }
  }

  lemma OrAt(x: nat, y: nat, k: nat, m: nat)
    requires k in {8, 16, 24} && m == Pow2(k)
    requires y < m
    ensures Or(x * m, y) == x * m + y
  {
    OrShifted(x, k, y);
  }

  /** `(a << 24) | (r << 16) | (g << 8) | b` in uint32. */
  function Pack(a: nat, r: nat, g: nat, b: nat): nat {
    Or(a * 0x100_0000 % 0x1_0000_0000, Or(r * 0x1_0000 % 0x1_0000_0000, Or(g * 0x100 % 0x1_0000_0000, b)))
  }

  lemma Powers()
    ensures Pow2(8) == 0x100 && Pow2(16) == 0x1_0000 && Pow2(24) == 0x100_0000
  {
    assert Pow2(4) == 16;
    Pow2Add(4, 4);
    Pow2Add(8, 8);
    Pow2Add(16, 8);
  }

  /** Fields that fit in a byte never carry into each other. */
  lemma PackExact(a: nat, r: nat, g: nat, b: nat)
    requires a <= 255 && r <= 255 && g <= 255 && b <= 255
    ensures Pack(a, r, g, b) == a * 0x100_0000 + r * 0x1_0000 + g * 0x100 + b
    ensures var v := Pack(a, r, g, b);
            v < 0x1_0000_0000 && Alpha(v) == a && Colour(v, 0) == r && Colour(v, 1) == g && Colour(v, 2) == b
  {
    hide Or, Pow2;
    Powers();
    OrAt(g, b, 8, 0x100);
    OrAt(r, g * 0x100 + b, 16, 0x1_0000);
    OrAt(a, r * 0x1_0000 + g * 0x100 + b, 24, 0x100_0000);
    WordJoin(a, r, g, b);
  }

  /** C division, which truncates toward zero. */
  function TruncDiv(n: int, d: nat): int
    requires d > 0
  {
    if n >= 0 then n / d else -(-n / d)
  }

  function Clamp(v: int, lo: int, hi: int): (r: int)
    ensures lo <= hi ==> lo <= r <= hi
  {
    if v < lo then lo else if v > hi then hi else v
  }

  // ---- Weighted sums --------------------------------------------------------------------

  function SumAlpha(s: seq<Argb>): nat {
    if s == [] then 0 else SumAlpha(s[..|s| - 1]) + Alpha(s[|s| - 1])
  }

  /** Sum of a colour component weighted by alpha. */
  function SumColour(s: seq<Argb>, k: nat): nat {
    if s == [] then 0 else SumColour(s[..|s| - 1], k) + Colour(s[|s| - 1], k) * Alpha(s[|s| - 1])
  }

  lemma {:induction false} SumsBounded(s: seq<Argb>, k: nat)
    ensures SumAlpha(s) <= 255 * |s| && SumColour(s, k) <= 65025 * |s|
  {
    if s != [] {
      var v := s[|s| - 1];
      SumsBounded(s[..|s| - 1], k);
      Premultiplied(v, k);
    }
  }

  lemma Premultiplied(v: Argb, k: nat)
    ensures 0 <= Colour(v, k) * Alpha(v) <= 65025
  {
    hide Alpha, Colour;
    var c, a := Colour(v, k), Alpha(v);
    assert c * a <= 255 * a;
  }

  lemma {:induction false} SumsOfUniform(s: seq<Argb>, v: Argb, k: nat)
    requires forall i | 0 <= i < |s| :: s[i] == v
    ensures SumAlpha(s) == |s| * Alpha(v)
    ensures SumColour(s, k) == |s| * (Colour(v, k) * Alpha(v))
  {
    hide Alpha, Colour;
    if s != [] {
      var p, m := s[..|s| - 1], Colour(v, k) * Alpha(v);
      SumsOfUniform(p, v, k);
      OneMore(|p|, Alpha(v));
      OneMore(|p|, m);
    }
  }

  /** The sums over the first n words. */
  ghost predicate Summed(s: seq<Argb>, n: nat, a: nat, r: nat, g: nat, b: nat) {
    && n <= |s| && a == SumAlpha(s[..n])
    && r == SumColour(s[..n], 0) && g == SumColour(s[..n], 1) && b == SumColour(s[..n], 2)
  }

  lemma SummedNone(s: seq<Argb>)
    ensures Summed(s, 0, 0, 0, 0, 0)
  {
  }

  lemma SummedNext(s: seq<Argb>, n: nat, a: nat, r: nat, g: nat, b: nat)
    requires n < |s| && Summed(s, n, a, r, g, b)
    ensures var v := s[n];
            Summed(s, n + 1, a + Alpha(v), r + Colour(v, 0) * Alpha(v),
                   g + Colour(v, 1) * Alpha(v), b + Colour(v, 2) * Alpha(v))
  {
    hide Alpha, Colour;
    assert s[..n + 1][..n] == s[..n];
  }

  lemma SummedAll(s: seq<Argb>, a: nat, r: nat, g: nat, b: nat)
    requires Summed(s, |s|, a, r, g, b)
    ensures a == SumAlpha(s) && r == SumColour(s, 0) && g == SumColour(s, 1) && b == SumColour(s, 2)
  {
    assert s[..|s|] == s;
  }
}
