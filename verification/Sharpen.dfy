/** The in-place 3x3 unsharp mask `media_sharpen_rgba`. */
module Sharpen {
  import opened Arithmetic
  import opened Pixels

  // ---- The mask, out of place ------------------------------------------------------------

  /** The word at (x, y), with the edges of the image replicated outwards. */
  function Edge(img: seq<Argb>, w: nat, h: nat, x: int, y: int): Argb
    requires w >= 1 && h >= 1 && w * h <= |img|
  {
    var cx, cy := Clamp(x, 0, w - 1), Clamp(y, 0, h - 1);
    IndexBound(w, h, cx, cy);
    img[Index(w, cx, cy)]
  }

  function EdgeRow(img: seq<Argb>, w: nat, h: nat, x: int, y: int): (s: seq<Argb>)
    requires w >= 1 && h >= 1 && w * h <= |img|
    ensures |s| == 3
  {
    [Edge(img, w, h, x - 1, y), Edge(img, w, h, x, y), Edge(img, w, h, x + 1, y)]
  }

  /** The 3x3 neighbourhood, row by row. */
  function Around(img: seq<Argb>, w: nat, h: nat, x: int, y: int): (s: seq<Argb>)
    requires w >= 1 && h >= 1 && w * h <= |img|
    ensures |s| == 9
  {
    EdgeRow(img, w, h, x, y - 1) + EdgeRow(img, w, h, x, y) + EdgeRow(img, w, h, x, y + 1)
  }

  /** p + k * (p - blur), with k in hundredths. */
  function Boost(p: nat, blur: nat, amount: int): int {
    p + TruncDiv((p - blur) * amount, 100)
  }

  function SharpAlpha(v: Argb, s: seq<Argb>, amount: int): (a: nat)
    ensures a <= 255
  {
    Clamp(Boost(Alpha(v), SumAlpha(s) / 9, amount), 0, 255)
  }

  /** Sharpened in premultiplied form, limited by the new alpha, divided again. */
  function SharpColour(v: Argb, s: seq<Argb>, amount: int, k: nat): nat
    requires SharpAlpha(v, s, amount) > 0
  {
    var sa := SharpAlpha(v, s, amount);
    Clamp(Boost(Colour(v, k) * Alpha(v), SumColour(s, k) / 9, amount), 0, sa * 255) / sa
  }

  function Sharp(v: Argb, s: seq<Argb>, amount: int): nat {
    if SharpAlpha(v, s, amount) == 0 then 0
    else
      Pack(SharpAlpha(v, s, amount),
           SharpColour(v, s, amount, 0), SharpColour(v, s, amount, 1), SharpColour(v, s, amount, 2))
  }

  /** Every channel stays in 0..255, so the bytes of the word are exactly the channels:
      none carries into its neighbour. */
  lemma SharpChannels(v: Argb, s: seq<Argb>, amount: int)
    ensures Sharp(v, s, amount) < 0x1_0000_0000
    ensures Alpha(Sharp(v, s, amount)) == SharpAlpha(v, s, amount)
    ensures SharpAlpha(v, s, amount) > 0 ==>
              forall k | 0 <= k < 3 ::
                SharpColour(v, s, amount, k) <= 255 && Colour(Sharp(v, s, amount), k) == SharpColour(v, s, amount, k)
  {
    hide Pack, SumAlpha, SumColour, Boost, Alpha, Colour;
    var sa := SharpAlpha(v, s, amount);
    if sa == 0 {
      ZeroAlpha();
    } else {
      forall k | 0 <= k < 3
        ensures SharpColour(v, s, amount, k) <= 255
      {
        DivBound(Clamp(Boost(Colour(v, k) * Alpha(v), SumColour(s, k) / 9, amount), 0, sa * 255), sa, 255);
      }
      PackExact(sa, SharpColour(v, s, amount, 0), SharpColour(v, s, amount, 1), SharpColour(v, s, amount, 2));
    }
  }

  lemma ZeroAlpha()
    ensures Alpha(0) == 0
  {
  }

  /** A pixel in a uniform neighbourhood is kept, unless it is invisible: then its
      colour is dropped. */
  lemma UniformKept(s: seq<Argb>, v: Argb, amount: int)
    requires |s| == 9 && forall i | 0 <= i < 9 :: s[i] == v
    ensures Sharp(v, s, amount) == v <==> Alpha(v) > 0 || v == 0
    ensures Alpha(v) == 0 ==> Sharp(v, s, amount) == 0
  {
    hide SumAlpha, SumColour, Pack, Alpha, Colour, SharpAlpha, SharpColour;
    UniformAlpha(s, v, amount);
    if Alpha(v) > 0 {
      UniformColour(s, v, amount, 0);
      UniformColour(s, v, amount, 1);
      UniformColour(s, v, amount, 2);
      PackExact(Alpha(v), Colour(v, 0), Colour(v, 1), Colour(v, 2));
      WordSplit(v);
    }
  }

  lemma NoBoost(p: nat, amount: int)
    ensures Boost(p, 9 * p / 9, amount) == p
  {
    assert 9 * p / 9 == p;
    assert (p - p) * amount == 0;
  }

  lemma UniformAlpha(s: seq<Argb>, v: Argb, amount: int)
    requires |s| == 9 && forall i | 0 <= i < 9 :: s[i] == v
    ensures SharpAlpha(v, s, amount) == Alpha(v)
  {
    hide SumAlpha, SumColour, Boost, Alpha, Colour;
    SumsOfUniform(s, v, 0);
    NoBoost(Alpha(v), amount);
  }

  lemma UniformColour(s: seq<Argb>, v: Argb, amount: int, k: nat)
    requires |s| == 9 && forall i | 0 <= i < 9 :: s[i] == v
    requires Alpha(v) > 0
    ensures SharpAlpha(v, s, amount) == Alpha(v) && SharpColour(v, s, amount, k) == Colour(v, k)
  {
    hide SumAlpha, SumColour, Boost, Alpha, Colour, SharpAlpha;
    var a, c := Alpha(v), Colour(v, k);
    UniformAlpha(s, v, amount);
    SumsOfUniform(s, v, k);
    NoBoost(c * a, amount);
    assert c * a <= 255 * a;
    DivModUnique(c * a, c, 0, a);
  }

  // ---- Signed arithmetic ----------------------------------------------------------------

  predicate Int32(v: int) {
    -0x8000_0000 <= v < 0x8000_0000
  }

  /** Sharpening p against a blur stays in the range of a 32-bit int. */
  predicate BoostFits(p: nat, blur: nat, amount: int) {
    Int32((p - blur) * amount) && Int32(Boost(p, blur, amount))
  }

  /** No signed intermediate for the middle pixel of s overflows. */
  ghost predicate SharpFits(s: seq<Argb>, amount: int)
    requires |s| == 9
  {
    && BoostFits(Alpha(s[4]), SumAlpha(s) / 9, amount)
    && forall k | 0 <= k < 3 :: BoostFits(Colour(s[4], k) * Alpha(s[4]), SumColour(s, k) / 9, amount)
  }

  /** A sum contains each of its terms, and the others add at most their maximum. */
  lemma {:induction false} SumsAround(s: seq<Argb>, m: nat, k: nat)
    requires m < |s|
    ensures Alpha(s[m]) <= SumAlpha(s) <= Alpha(s[m]) + 255 * (|s| - 1)
    ensures Colour(s[m], k) * Alpha(s[m]) <= SumColour(s, k) <= Colour(s[m], k) * Alpha(s[m]) + 65025 * (|s| - 1)
  {
    hide Alpha, Colour;
    var n := |s| - 1;
    Premultiplied(s[n], k);
    if m < n {
      SumsAround(s[..n], m, k);
    } else {
      SumsBounded(s[..n], k);
    }
  }

  lemma BoostInRange(p: nat, sum: nat, amount: int)
    requires p <= 65025 && p <= sum <= p + 520200 && 0 < amount <= 37153
    ensures BoostFits(p, sum / 9, amount)
  {
    var d := p - sum / 9;
    assert -57800 <= d <= 57800;
    MulMonotone(d, 57800, amount);
    MulMonotone(-57800, d, amount);
  }

  lemma SmallAmountFits(s: seq<Argb>, amount: int)
    requires |s| == 9 && 0 < amount <= 37153
    ensures SharpFits(s, amount)
  {
    hide SumAlpha, SumColour, Alpha, Colour, BoostFits;
    SumsAround(s, 4, 0);
    BoostInRange(Alpha(s[4]), SumAlpha(s), amount);
    forall k | 0 <= k < 3
      ensures BoostFits(Colour(s[4], k) * Alpha(s[4]), SumColour(s, k) / 9, amount)
    {
      SumsAround(s, 4, k);
      Premultiplied(s[4], k);
      BoostInRange(Colour(s[4], k) * Alpha(s[4]), SumColour(s, k), amount);
    }
  }

  /** A white pixel among transparent ones. */
  function Dot(): (s: seq<Argb>)
    ensures |s| == 9
  {
    seq(9, i => if i == 4 then 0xFFFF_FFFF else 0)
  }

  lemma {:induction false} DotSum(n: nat)
    requires n <= 9
    ensures SumColour(Dot()[..n], 0) == if n > 4 then 65025 else 0
  {
    if n > 0 {
      DotSum(n - 1);
      assert Dot()[..n][..n - 1] == Dot()[..n - 1];
    }
  }

  lemma DotOverflows(amount: int)
    requires amount > 37153
    ensures !SharpFits(Dot(), amount)
  {
    DotSum(9);
    assert Dot()[..9] == Dot();
    DotParts();
    hide SumColour, SumAlpha, Dot, Alpha, Colour;
    MulMonotone(37154, amount, 57800);
    assert !BoostFits(65025, 65025 / 9, amount);
  }

  lemma DotParts()
    ensures Alpha(Dot()[4]) == 255 && Colour(Dot()[4], 0) == 255
  {
  }

  /** No neighbourhood makes the signed arithmetic overflow if and only if the amount is
      at most 37153 percent. */
  lemma SharpFitsExactly(amount: int)
    requires amount > 0
    ensures (forall s: seq<Argb> | |s| == 9 :: SharpFits(s, amount)) <==> amount <= 37153
  {
    hide SharpFits, Dot;
    if amount <= 37153 {
      forall s: seq<Argb> | |s| == 9
        ensures SharpFits(s, amount)
      {
        SmallAmountFits(s, amount);
      }
    } else {
      DotOverflows(amount);
      var s := Dot();
      assert |s| == 9 && !SharpFits(s, amount);
    }
  }

  /** The unsigned sums never wrap. */
  lemma SumsFitUint(s: seq<Argb>, k: nat)
    requires |s| == 9
    ensures SumAlpha(s) <= 2295 && SumColour(s, k) <= 585225
  {
    hide SumAlpha, SumColour;
    SumsBounded(s, k);
  }

  // ---- The mask, without its formula --------------------------------------------------------

  /** The place on an axis of n that i falls on when the ends are repeated outwards. */
  function Nearby(n: nat, i: int): (r: nat)
    requires n >= 1
    ensures r < n
  {
    if i < 0 then 0 else if i >= n then n - 1 else i
  }

  function PixelNear(img: seq<Argb>, w: nat, h: nat, x: int, y: int): Argb
    requires w >= 1 && h >= 1 && w * h <= |img|
  {
    IndexBound(w, h, Nearby(w, x), Nearby(h, y));
    img[Nearby(h, y) * w + Nearby(w, x)]
  }

  /** Sums over the pixel and its eight neighbours. */
  function NineAlpha(img: seq<Argb>, w: nat, h: nat, x: int, y: int): nat
    requires w >= 1 && h >= 1 && w * h <= |img|
  {
    ThreeAlpha(img, w, h, x, y - 1) + ThreeAlpha(img, w, h, x, y) + ThreeAlpha(img, w, h, x, y + 1)
  }

  function ThreeAlpha(img: seq<Argb>, w: nat, h: nat, x: int, y: int): nat
    requires w >= 1 && h >= 1 && w * h <= |img|
  {
    Alpha(PixelNear(img, w, h, x - 1, y)) + Alpha(PixelNear(img, w, h, x, y)) + Alpha(PixelNear(img, w, h, x + 1, y))
  }

  function NineColour(img: seq<Argb>, w: nat, h: nat, x: int, y: int, k: nat): nat
    requires w >= 1 && h >= 1 && w * h <= |img|
  {
    ThreeColour(img, w, h, x, y - 1, k) + ThreeColour(img, w, h, x, y, k) + ThreeColour(img, w, h, x, y + 1, k)
  }

  function ThreeColour(img: seq<Argb>, w: nat, h: nat, x: int, y: int, k: nat): nat
    requires w >= 1 && h >= 1 && w * h <= |img|
  {
    Weighted(PixelNear(img, w, h, x - 1, y), k) + Weighted(PixelNear(img, w, h, x, y), k) +
    Weighted(PixelNear(img, w, h, x + 1, y), k)
  }

  function Weighted(v: Argb, k: nat): nat {
    Colour(v, k) * Alpha(v)
  }

  /** b is a moved away from mean by `amount` hundredths of the difference, to within one
      rounding and as far as lo and hi allow; never towards the mean. */
  predicate MovedAway(a: int, b: int, sum: int, amount: int, lo: int, hi: int) {
    && (9 * a >= sum && a <= hi ==> b >= a) && (9 * a <= sum && a >= lo ==> b <= a)
    && (b > lo ==> 100 * (b - a) < (a - sum / 9) * amount + 100)
    && (b < hi ==> 100 * (b - a) > (a - sum / 9) * amount - 100)
    && lo <= b <= hi
  }

  lemma BoostMovesAway(p: nat, sum: nat, amount: int, hi: nat)
    requires amount > 0
    ensures MovedAway(p, Clamp(Boost(p, sum / 9, amount), 0, hi), sum, amount, 0, hi)
  {
    var d := p - sum / 9;
    var n := d * amount;
    var t := TruncDiv(n, 100);
    TruncNear(n);
    if d >= 0 {
      MulMonotone(0, d, amount);
    }
    if d <= 0 {
      MulMonotone(d, 0, amount);
    }
  }

  lemma TruncNear(n: int)
    ensures -100 < 100 * TruncDiv(n, 100) - n < 100
    ensures n >= 0 ==> TruncDiv(n, 100) >= 0
    ensures n <= 0 ==> TruncDiv(n, 100) <= 0
  {
  }

  /** What sharpening makes of a pixel v whose neighbourhood has these sums: alpha moves
      away from the mean; so does each premultiplied colour, which is then divided by the
      new alpha. */
  ghost predicate Sharpened(v: Argb, v': Argb, sumA: nat, sumC: seq<nat>, amount: int)
    requires |sumC| == 3
  {
    && MovedAway(Alpha(v), Alpha(v'), sumA, amount, 0, 255)
    && (Alpha(v') == 0 ==> v' == 0)
    && (Alpha(v') > 0 ==> forall k | 0 <= k < 3 :: ColourSharpened(v, v', k, sumC[k], amount))
  }

  ghost predicate ColourSharpened(v: Argb, v': Argb, k: nat, sum: nat, amount: int) {
    exists p ::
      && MovedAway(Weighted(v, k), p, sum, amount, 0, 255 * Alpha(v'))
      && Weighted(v', k) <= p < Weighted(v', k) + Alpha(v')
  }

  lemma SharpIsSharpened(v: Argb, s: seq<Argb>, amount: int)
    requires amount > 0
    ensures Sharp(v, s, amount) < 0x1_0000_0000
    ensures Sharpened(v, Sharp(v, s, amount), SumAlpha(s), [SumColour(s, 0), SumColour(s, 1), SumColour(s, 2)], amount)
  {
    hide SumAlpha, SumColour, Boost, MovedAway, Alpha, Colour, Pack, SharpColour, Clamp, ColourSharpened;
    SharpChannels(v, s, amount);
    BoostMovesAway(Alpha(v), SumAlpha(s), amount, 255);
    if SharpAlpha(v, s, amount) > 0 {
      SharpIsColour(v, s, amount, 0);
      SharpIsColour(v, s, amount, 1);
      SharpIsColour(v, s, amount, 2);
    }
  }

  lemma SharpIsColour(v: Argb, s: seq<Argb>, amount: int, k: nat)
    requires amount > 0 && SharpAlpha(v, s, amount) > 0 && k < 3
    ensures Sharp(v, s, amount) < 0x1_0000_0000
    ensures ColourSharpened(v, Sharp(v, s, amount), k, SumColour(s, k), amount)
  {
    hide SumAlpha, SumColour, Boost, MovedAway, Alpha, Colour, Pack, Clamp, Sharp, SharpAlpha;
    SharpChannels(v, s, amount);
    var sa := SharpAlpha(v, s, amount);
    var p := Clamp(Boost(Weighted(v, k), SumColour(s, k) / 9, amount), 0, 255 * sa);
    BoostMovesAway(Weighted(v, k), SumColour(s, k), amount, 255 * sa);
    QuotientTimes(p, sa);
  }

  lemma OneTerm(s: seq<Argb>, v: Argb, k: nat)
    ensures SumAlpha(s + [v]) == SumAlpha(s) + Alpha(v)
    ensures SumColour(s + [v], k) == SumColour(s, k) + Weighted(v, k)
  {
    hide Alpha, Colour;
    assert (s + [v])[..|s|] == s;
  }

  lemma ThreeTerms(s: seq<Argb>, row: seq<Argb>, k: nat)
    requires |row| == 3
    ensures SumAlpha(s + row) == SumAlpha(s) + Alpha(row[0]) + Alpha(row[1]) + Alpha(row[2])
    ensures SumColour(s + row, k) == SumColour(s, k) + Weighted(row[0], k) + Weighted(row[1], k) + Weighted(row[2], k)
  {
    hide *;
    OneTerm(s, row[0], k);
    OneTerm(s + [row[0]], row[1], k);
    OneTerm(s + [row[0]] + [row[1]], row[2], k);
    assert s + row == s + [row[0]] + [row[1]] + [row[2]];
  }

  lemma RowIsThree(img: seq<Argb>, w: nat, h: nat, x: int, y: int, s: seq<Argb>, k: nat)
    requires w >= 1 && h >= 1 && w * h <= |img|
    ensures SumAlpha(s + EdgeRow(img, w, h, x, y)) == SumAlpha(s) + ThreeAlpha(img, w, h, x, y)
    ensures SumColour(s + EdgeRow(img, w, h, x, y), k) == SumColour(s, k) + ThreeColour(img, w, h, x, y, k)
  {
    hide SumAlpha, SumColour, Alpha, Weighted, Edge, PixelNear;
    EdgeIsNear(img, w, h, x - 1, y);
    EdgeIsNear(img, w, h, x, y);
    EdgeIsNear(img, w, h, x + 1, y);
    ThreeTerms(s, EdgeRow(img, w, h, x, y), k);
  }

  lemma AroundIsNine(img: seq<Argb>, w: nat, h: nat, x: nat, y: nat, k: nat)
    requires x < w && y < h && w * h <= |img|
    ensures SumAlpha(Around(img, w, h, x, y)) == NineAlpha(img, w, h, x, y)
    ensures SumColour(Around(img, w, h, x, y), k) == NineColour(img, w, h, x, y, k)
  {
    hide SumAlpha, SumColour, EdgeRow, ThreeAlpha, ThreeColour;
    var up, mid := EdgeRow(img, w, h, x, y - 1), EdgeRow(img, w, h, x, y);
    RowIsThree(img, w, h, x, y - 1, [], k);
    RowIsThree(img, w, h, x, y, up, k);
    RowIsThree(img, w, h, x, y + 1, up + mid, k);
    assert [] + up == up;
    NoTerms(k);
  }

  lemma NoTerms(k: nat)
    ensures SumAlpha([]) == 0 && SumColour([], k) == 0
  {
  }

  lemma EdgeIsNear(img: seq<Argb>, w: nat, h: nat, x: int, y: int)
    requires w >= 1 && h >= 1 && w * h <= |img|
    ensures Edge(img, w, h, x, y) == PixelNear(img, w, h, x, y)
  {
    assert Clamp(x, 0, w - 1) == Nearby(w, x) && Clamp(y, 0, h - 1) == Nearby(h, y);
  }

  // ---- In place, through a ring of three rows ----------------------------------------------

  /** Slot i of the ring holds row y of the image. */
  ghost predicate Holds(buf: seq<Argb>, w: nat, i: nat, img: seq<Argb>, y: nat) {
    forall x | 0 <= x < w ::
      && Index(w, x, i) < |buf| && Index(w, x, y) < |img| && buf[Index(w, x, i)] == img[Index(w, x, y)]
  }

  /** `ring[slot][x] = px[y * w + x]` for a whole row. */
  method LoadRow(px: array<Argb>, w: nat, h: nat, y: nat, buf: array<Argb>, slot: nat, ghost img: seq<Argb>)
    requires px != buf && y < h && slot < 3 && w * h <= px.Length && w * 3 <= buf.Length && |img| == px.Length
    requires forall x | 0 <= x < w :: Index(w, x, y) < px.Length && px[Index(w, x, y)] == img[Index(w, x, y)]
    modifies buf
    ensures Holds(buf[..], w, slot, img, y)
    ensures forall i, r | 0 <= i < 3 && i != slot && 0 <= r && old(Holds(buf[..], w, i, img, r)) ::
              Holds(buf[..], w, i, img, r)
  {
    hide Index;
    var x := 0;
    while x < w
      invariant 0 <= x <= w
      invariant forall k | 0 <= k < x :: Index(w, k, slot) < buf.Length && buf[Index(w, k, slot)] == img[Index(w, k, y)]
      invariant forall k, i | 0 <= k < w && 0 <= i < 3 && i != slot && Index(w, k, i) < buf.Length ::
                  buf[Index(w, k, i)] == old(buf[Index(w, k, i)])
    {
      IndexBound(w, h, x, y);
      IndexBound(w, 3, x, slot);
      ghost var was := buf[..];
      buf[Index(w, x, slot)] := px[Index(w, x, y)];
      forall k, i | 0 <= k < w && 0 <= i < 3 && (i != slot || k != x) && Index(w, k, i) < buf.Length
        ensures buf[Index(w, k, i)] == was[Index(w, k, i)]
      {
        if Index(w, k, i) == Index(w, x, slot) {
          IndexInjective(w, k, i, x, slot);
        }
      }
      x := x + 1;
    }
  }

  /** The sharpened value of pixel (x, y) of the original image. */
  function Target(img: seq<Argb>, w: nat, h: nat, amount: int, x: nat, y: nat): nat
    requires x < w && y < h && w * h <= |img|
  {
    IndexBound(w, h, x, y);
    Sharp(img[Index(w, x, y)], Around(img, w, h, x, y), amount)
  }

  /** Pixels before (x, y) are sharpened, the others are still original. */
  ghost predicate Progress(px: seq<Argb>, img: seq<Argb>, w: nat, h: nat, amount: int, x: nat, y: nat) {
    && |px| == |img| && w * h <= |img|
    && (forall k | w * h <= k < |px| :: px[k] == img[k])
    && forall u, v | 0 <= u < w && 0 <= v < h :: Stands(px, img, w, h, amount, x, y, u, v)
  }

  ghost predicate Stands(px: seq<Argb>, img: seq<Argb>, w: nat, h: nat, amount: int, x: nat, y: nat, u: nat, v: nat)
    requires |px| == |img| && w * h <= |img| && u < w && v < h
  {
    IndexBound(w, h, u, v);
    px[Index(w, u, v)] == if v < y || (v == y && u < x) then Target(img, w, h, amount, u, v) else img[Index(w, u, v)]
  }

  lemma ProgressStep(px: seq<Argb>, img: seq<Argb>, w: nat, h: nat, amount: int, x: nat, y: nat, v: Argb)
    requires x < w && y < h && Progress(px, img, w, h, amount, x, y)
    requires v == Target(img, w, h, amount, x, y)
    ensures Index(w, x, y) < |px| && Progress(px[Index(w, x, y) := v], img, w, h, amount, x + 1, y)
  {
    hide Index, Target;
    IndexBound(w, h, x, y);
    var next, x' := px[Index(w, x, y) := v], x + 1;
    forall u, v' | 0 <= u < w && 0 <= v' < h
      ensures Stands(next, img, w, h, amount, x', y, u, v')
    {
      assert Stands(px, img, w, h, amount, x, y, u, v');
      IndexBound(w, h, u, v');
      if Index(w, u, v') == Index(w, x, y) {
        IndexInjective(w, u, v', x, y);
      }
    }
  }

  lemma ProgressRow(px: seq<Argb>, img: seq<Argb>, w: nat, h: nat, amount: int, y: nat)
    requires Progress(px, img, w, h, amount, w, y)
    ensures Progress(px, img, w, h, amount, 0, y + 1)
  {
    hide Index, Target;
    var y' := y + 1;
    forall u, v | 0 <= u < w && 0 <= v < h
      ensures Stands(px, img, w, h, amount, 0, y', u, v)
    {
      assert Stands(px, img, w, h, amount, w, y, u, v);
    }
  }

  /** Rows that are not yet sharpened can still be read from the image. */
  lemma StillOriginal(px: seq<Argb>, img: seq<Argb>, w: nat, h: nat, amount: int, y: nat, r: nat, x: nat)
    requires Progress(px, img, w, h, amount, 0, y) && y <= r < h && x < w
    ensures Index(w, x, r) < |px| && px[Index(w, x, r)] == img[Index(w, x, r)]
  {
    hide Index, Target;
    IndexBound(w, h, x, r);
    assert Stands(px, img, w, h, amount, 0, y, x, r);
  }

  /** The column that tap j of pixel x reads. */
  function Tap(w: nat, x: nat, j: nat): nat
    requires x < w
  {
    if j == 0 then (if x > 0 then x - 1 else 0) else if j == 1 then x else if x < w - 1 then x + 1 else w - 1
  }

  function Pick(i0: nat, i1: nat, i2: nat, k: nat): nat {
    if k == 0 then i0 else if k == 1 then i1 else i2
  }

  /** The nine taps read the neighbourhood s. */
  ghost predicate Taps(buf: seq<Argb>, w: nat, x: nat, i0: nat, i1: nat, i2: nat, s: seq<Argb>)
    requires x < w
  {
    |s| == 9 && forall k, j | 0 <= k < 3 && 0 <= j < 3 :: RingTap(buf, w, x, i0, i1, i2, s, k, j)
  }

  ghost predicate RingTap(buf: seq<Argb>, w: nat, x: nat, i0: nat, i1: nat, i2: nat, s: seq<Argb>, k: nat, j: nat)
    requires x < w && |s| == 9 && k < 3 && j < 3
  {
    TapIs(buf, w, x, Pick(i0, i1, i2, k), j, s[3 * k + j])
  }

  ghost predicate TapIs(buf: seq<Argb>, w: nat, x: nat, i: nat, j: nat, v: Argb)
    requires x < w
  {
    Index(w, Tap(w, x, j), i) < |buf| && buf[Index(w, Tap(w, x, j), i)] == v
  }

  /** The three ring slots hold original rows y - 1, y and y + 1. */
  ghost predicate RingHolds(buf: seq<Argb>, img: seq<Argb>, w: nat, h: nat, y: nat, i0: nat, i1: nat, i2: nat)
    requires h >= 1
  {
    && Holds(buf, w, i0, img, Clamp(y - 1, 0, h - 1))
    && Holds(buf, w, i1, img, Clamp(y, 0, h - 1))
    && Holds(buf, w, i2, img, Clamp(y + 1, 0, h - 1))
  }

  lemma RowTaps(buf: seq<Argb>, img: seq<Argb>, w: nat, h: nat, x: nat, y: int, i: nat, j: nat)
    requires x < w && h >= 1 && w * h <= |img| && j < 3
    requires Holds(buf, w, i, img, Clamp(y, 0, h - 1))
    ensures TapIs(buf, w, x, i, j, EdgeRow(img, w, h, x, y)[j])
  {
    hide Index;
    var t := Tap(w, x, j);
    assert t == Clamp(x + j - 1, 0, w - 1);
    assert buf[Index(w, t, i)] == img[Index(w, t, Clamp(y, 0, h - 1))];
  }

  lemma RingTaps(buf: seq<Argb>, img: seq<Argb>, w: nat, h: nat, x: nat, y: nat, i0: nat, i1: nat, i2: nat)
    requires x < w && y < h && w * h <= |img| && RingHolds(buf, img, w, h, y, i0, i1, i2)
    ensures Taps(buf, w, x, i0, i1, i2, Around(img, w, h, x, y))
  {
    hide Index, TapIs, Tap, EdgeRow, Holds;
    var s := Around(img, w, h, x, y);
    forall k, j | 0 <= k < 3 && 0 <= j < 3
      ensures RingTap(buf, w, x, i0, i1, i2, s, k, j)
    {
      RowTaps(buf, img, w, h, x, y + k - 1, Pick(i0, i1, i2, k), j);
      assert s[3 * k + j] == EdgeRow(img, w, h, x, y + k - 1)[j];
    }
  }

  /** The accumulation over the nine taps. */
  method Accumulate(buf: array<Argb>, w: nat, x: nat, i0: nat, i1: nat, i2: nat, ghost s: seq<Argb>)
    returns (a: nat, r: nat, g: nat, b: nat)
    requires x < w && Taps(buf[..], w, x, i0, i1, i2, s)
    ensures a == SumAlpha(s) && r == SumColour(s, 0) && g == SumColour(s, 1) && b == SumColour(s, 2)
  {
    hide Index, Tap, Alpha, Colour, Summed;
    a, r, g, b := 0, 0, 0, 0;
    SummedNone(s);
    var k := 0;
    while k < 3
      invariant 0 <= k <= 3
      invariant Summed(s, 3 * k, a, r, g, b)
    {
      var j := 0;
      while j < 3
        invariant 0 <= j <= 3
        invariant Summed(s, 3 * k + j, a, r, g, b)
      {
        assert RingTap(buf[..], w, x, i0, i1, i2, s, k, j);
        var v := buf[Index(w, Tap(w, x, j), Pick(i0, i1, i2, k))];
        SummedNext(s, 3 * k + j, a, r, g, b);
        a := a + Alpha(v);
        r := r + Colour(v, 0) * Alpha(v);
        g := g + Colour(v, 1) * Alpha(v);
        b := b + Colour(v, 2) * Alpha(v);
        j := j + 1;
      }
      k := k + 1;
    }
    SummedAll(s, a, r, g, b);
  }

  /** Sharpen one pixel, reading only the ring. */
  method SharpenPixel(buf: array<Argb>, w: nat, x: nat, i0: nat, i1: nat, i2: nat, amount: int, ghost s: seq<Argb>)
    returns (v: Argb)
    requires x < w && Taps(buf[..], w, x, i0, i1, i2, s)
    ensures v == Sharp(s[4], s, amount)
  {
    hide Index, Alpha, Colour, SumAlpha, SumColour, Pack;
    var accA, accR, accG, accB := Accumulate(buf, w, x, i0, i1, i2, s);
    assert RingTap(buf[..], w, x, i0, i1, i2, s, 1, 1);
    var m := buf[Index(w, x, i1)];
    var a := Alpha(m);
    SharpChannels(m, s, amount);
    var sa := a + TruncDiv((a - accA / 9) * amount, 100);
    if sa < 0 { sa := 0; }
    if sa > 255 { sa := 255; }
    if sa == 0 {
      return 0;
    }
    var pr, pg, pb := Colour(m, 0) * a, Colour(m, 1) * a, Colour(m, 2) * a;
    var sr := pr + TruncDiv((pr - accR / 9) * amount, 100);
    var sg := pg + TruncDiv((pg - accG / 9) * amount, 100);
    var sb := pb + TruncDiv((pb - accB / 9) * amount, 100);
    var hi := sa * 255;
    if sr < 0 { sr := 0; } else if sr > hi { sr := hi; }
    if sg < 0 { sg := 0; } else if sg > hi { sg := hi; }
    if sb < 0 { sb := 0; } else if sb > hi { sb := hi; }
    v := Pack(sa, sr / sa, sg / sa, sb / sa);
  }

  method SharpenRow(px: array<Argb>, w: nat, h: nat, buf: array<Argb>, y: nat, i0: nat, i1: nat, i2: nat, amount: int,
                    ghost img: seq<Argb>)
    requires px != buf && y < h && Progress(px[..], img, w, h, amount, 0, y)
    requires RingHolds(buf[..], img, w, h, y, i0, i1, i2)
    modifies px
    ensures Progress(px[..], img, w, h, amount, 0, y + 1)
  {
    hide Progress, RingHolds, Taps, Around, Sharp, Index;
    ProgressSize(px[..], img, w, h, amount, 0, y);
    var x := 0;
    while x < w
      invariant 0 <= x <= w
      invariant Progress(px[..], img, w, h, amount, x, y)
    {
      ghost var s := Around(img, w, h, x, y);
      RingTaps(buf[..], img, w, h, x, y, i0, i1, i2);
      var v := SharpenPixel(buf, w, x, i0, i1, i2, amount, s);
      Middle(img, w, h, x, y);
      ProgressStep(px[..], img, w, h, amount, x, y, v);
      ghost var was := px[..];
      px[Index(w, x, y)] := v;
      assert px[..] == was[Index(w, x, y) := v];
      x := x + 1;
    }
    ProgressRow(px[..], img, w, h, amount, y);
  }

  lemma ProgressSize(px: seq<Argb>, img: seq<Argb>, w: nat, h: nat, amount: int, x: nat, y: nat)
    requires Progress(px, img, w, h, amount, x, y)
    ensures |px| == |img| && w * h <= |img|
  {
  }

  lemma Middle(img: seq<Argb>, w: nat, h: nat, x: nat, y: nat)
    requires x < w && y < h && w * h <= |img|
    ensures Index(w, x, y) < |img| && Around(img, w, h, x, y)[4] == img[Index(w, x, y)]
  {
    hide Index;
    IndexBound(w, h, x, y);
  }

  /** Load row r, still original, into a ring slot. */
  method Refill(px: array<Argb>, w: nat, h: nat, buf: array<Argb>, y: nat, r: nat, slot: nat, amount: int,
                ghost img: seq<Argb>)
    requires px != buf && y <= r < h && slot < 3 && w * 3 <= buf.Length
    requires Progress(px[..], img, w, h, amount, 0, y)
    modifies buf
    ensures Holds(buf[..], w, slot, img, r)
    ensures forall i, q | 0 <= i < 3 && i != slot && 0 <= q && old(Holds(buf[..], w, i, img, q)) ::
              Holds(buf[..], w, i, img, q)
  {
    hide Index, Target, Holds, Stands;
    ProgressSize(px[..], img, w, h, amount, 0, y);
    forall x | 0 <= x < w
      ensures Index(w, x, r) < px.Length && px[Index(w, x, r)] == img[Index(w, x, r)]
    {
      StillOriginal(px[..], img, w, h, amount, y, r, x);
    }
    LoadRow(px, w, h, r, buf, slot, img);
  }

  lemma NothingDone(img: seq<Argb>, w: nat, h: nat, amount: int)
    requires w * h <= |img|
    ensures Progress(img, img, w, h, amount, 0, 0)
  {
    hide Target;
  }

  /** The pixel at (x, y) is sharpened against the nine original pixels around it. */
  ghost predicate SharpenedAt(px: seq<Argb>, img: seq<Argb>, w: nat, h: nat, amount: int, x: nat, y: nat)
    requires |px| == |img| && w * h <= |img| && x < w && y < h
  {
    IndexBound(w, h, x, y);
    var sums := [NineColour(img, w, h, x, y, 0), NineColour(img, w, h, x, y, 1), NineColour(img, w, h, x, y, 2)];
    Sharpened(img[y * w + x], px[y * w + x], NineAlpha(img, w, h, x, y), sums, amount)
  }

  lemma TargetIsSharpened(img: seq<Argb>, w: nat, h: nat, amount: int, x: nat, y: nat, sums: seq<nat>)
    requires x < w && y < h && w * h <= |img| && amount > 0
    requires sums == [NineColour(img, w, h, x, y, 0), NineColour(img, w, h, x, y, 1), NineColour(img, w, h, x, y, 2)]
    ensures Target(img, w, h, amount, x, y) < 0x1_0000_0000 && Index(w, x, y) < |img|
    ensures Sharpened(img[Index(w, x, y)], Target(img, w, h, amount, x, y), NineAlpha(img, w, h, x, y), sums, amount)
  {
    hide Sharp, Sharpened, Around, NineAlpha, NineColour, SumAlpha, SumColour, Index;
    IndexBound(w, h, x, y);
    AroundIsNine(img, w, h, x, y, 0);
    AroundIsNine(img, w, h, x, y, 1);
    AroundIsNine(img, w, h, x, y, 2);
    SharpIsSharpened(img[Index(w, x, y)], Around(img, w, h, x, y), amount);
  }

  lemma FinishedIsSharpened(px: seq<Argb>, img: seq<Argb>, w: nat, h: nat, amount: int, x: nat, y: nat)
    requires Progress(px, img, w, h, amount, 0, h) && x < w && y < h && amount > 0
    ensures SharpenedAt(px, img, w, h, amount, x, y)
  {
    hide Target, Sharpened, NineAlpha, NineColour;
    var sums := [NineColour(img, w, h, x, y, 0), NineColour(img, w, h, x, y, 1), NineColour(img, w, h, x, y, 2)];
    TargetIsSharpened(img, w, h, amount, x, y, sums);
    assert Stands(px, img, w, h, amount, 0, h, x, y);
  }

  /** The filter works in place although every pixel depends on neighbours that are
      overwritten before it: the result is the mask of the original image. */
  method SharpenInPlace(px: array<Argb>, w: int, h: int, buf: array<Argb>, bufN: int, amount: int)
    requires px != buf && bufN <= buf.Length && (w > 0 && h > 0 ==> w * h <= px.Length)
    modifies px, buf
    ensures w <= 0 || h <= 0 || amount <= 0 || bufN < 3 * w ==> px[..] == old(px[..]) && buf[..] == old(buf[..])
    ensures w > 0 && h > 0 && amount > 0 && bufN >= 3 * w ==> Progress(px[..], old(px[..]), w, h, amount, 0, h)
    ensures w > 0 && h > 0 && amount > 0 && bufN >= 3 * w ==>
              forall x, y | 0 <= x < w && 0 <= y < h :: SharpenedAt(px[..], old(px[..]), w, h, amount, x, y)
  {
    hide Progress, Holds, SharpenedAt;
    if w <= 0 || h <= 0 || amount <= 0 || bufN < 3 * w {
      return;
    }
    ghost var img := px[..];
    NothingDone(img, w, h, amount);
    Refill(px, w, h, buf, 0, 0, 0, amount, img);
    Refill(px, w, h, buf, 0, 0, 1, amount, img);
    Refill(px, w, h, buf, 0, if h > 1 then 1 else 0, 2, amount, img);
    var i0, i1, i2 := 0, 1, 2;
    var y := 0;
    while y < h
      invariant 0 <= y <= h
      invariant {i0, i1, i2} == {0, 1, 2} && i0 != i1 && i1 != i2 && i0 != i2
      invariant Progress(px[..], img, w, h, amount, 0, y)
      invariant y < h ==> RingHolds(buf[..], img, w, h, y, i0, i1, i2)
    {
      SharpenRow(px, w, h, buf, y, i0, i1, i2, amount, img);
      i0, i1, i2 := i1, i2, i0;
      if y + 1 < h {
        Refill(px, w, h, buf, y + 1, if y + 2 > h - 1 then h - 1 else y + 2, i2, amount, img);
      }
      y := y + 1;
    }
    forall x, y | 0 <= x < w && 0 <= y < h
      ensures SharpenedAt(px[..], img, w, h, amount, x, y)
    {
      FinishedIsSharpened(px[..], img, w, h, amount, x, y);
    }
  }

  /** A white opaque pixel stays one, whatever surrounds it. */
  lemma WhiteStays(v': Argb, sumA: nat, sumC: seq<nat>, amount: int)
    requires |sumC| == 3 && sumA <= 2295 && forall k | 0 <= k < 3 :: sumC[k] <= 585225
    requires Sharpened(0xFFFF_FFFF, v', sumA, sumC, amount)
    ensures v' == 0xFFFF_FFFF
  {
    var white: Argb := 0xFFFF_FFFF;
    assert Alpha(white) == 255 && Alpha(v') == 255;
    forall k | 0 <= k < 3
      ensures Colour(v', k) == 255
    {
      assert ColourSharpened(white, v', k, sumC[k], amount);
    }
    WordSplit(v');
  }

  /** One white pixel in a transparent image stays white. */
  method SharpenDot() returns (middle: Argb)
    ensures middle == 0xFFFF_FFFF
  {
    hide Progress, Alpha, Colour, Sharpened;
    var px := new Argb[9](i => if i == 4 then 0xFFFF_FFFF else 0);
    var buf := new Argb[9](_ => 0);
    ghost var img := px[..];
    SharpenInPlace(px, 3, 3, buf, 9, 100);
    assert SharpenedAt(px[..], img, 3, 3, 100, 1, 1);
    AroundIsNine(img, 3, 3, 1, 1, 0);
    AroundIsNine(img, 3, 3, 1, 1, 1);
    AroundIsNine(img, 3, 3, 1, 1, 2);
    SumsFitUint(Around(img, 3, 3, 1, 1), 0);
    SumsFitUint(Around(img, 3, 3, 1, 1), 1);
    SumsFitUint(Around(img, 3, 3, 1, 1), 2);
    middle := px[4];
    WhiteStays(middle, NineAlpha(img, 3, 3, 1, 1),
               [NineColour(img, 3, 3, 1, 1, 0), NineColour(img, 3, 3, 1, 1, 1), NineColour(img, 3, 3, 1, 1, 2)], 100);
  }
}
