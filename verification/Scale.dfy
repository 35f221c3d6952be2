/** Integer scaling of ARGB images: `media_scale_rgba` and `media_fit_box`. */
module Scale {
  import opened Arithmetic
  import opened Pixels

  // ---- Where the boxes lie -------------------------------------------------------------

  /** `x * sw / dw`: the first source column of destination column x. */
  function Start(x: nat, sw: nat, dw: nat): nat
    requires dw > 0
  {
    x * sw / dw
  }

  /** One past its last source column: a box is never empty. */
  function End(x: nat, sw: nat, dw: nat): nat
    requires dw > 0
  {
    if Start(x + 1, sw, dw) <= Start(x, sw, dw) then Start(x, sw, dw) + 1 else Start(x + 1, sw, dw)
  }

  /** Boxes stay inside the source, whether that axis shrinks or grows. */
  lemma BoxInside(x: nat, sw: nat, dw: nat)
    requires x < dw && sw > 0
    ensures Start(x, sw, dw) < End(x, sw, dw) <= sw
  {
    QuotientBelow(x * sw, dw, sw);
    QuotientBelow((x + 1) * sw, dw, sw + 1);
    MulMonotone(x + 1, dw, sw);
    assert x * sw < sw * dw;
  }

  /** The box that takes in source column sx when the axis does not grow. */
  function BoxOf(sx: nat, sw: nat, dw: nat): nat
    requires dw > 0 && sw > 0
  {
    ((sx + 1) * dw - 1) / sw
  }

  lemma StartsBefore(sx: nat, x: nat, sw: nat, dw: nat)
    requires sw > 0 && dw > 0
    ensures Start(x, sw, dw) <= sx <==> x <= BoxOf(sx, sw, dw)
  {
    var m := (sx + 1) * dw;
    QuotientBelow(x * sw, dw, sx + 1);
    if x > 0 {
      QuotientBelow(m - 1, sw, x);
    }
  }

  /** When an axis shrinks the boxes partition it: every source column lies in
      exactly one box. */
  lemma BoxesPartition(sx: nat, x: nat, sw: nat, dw: nat)
    requires 1 <= dw <= sw && sx < sw
    ensures BoxOf(sx, sw, dw) < dw
    ensures Start(x, sw, dw) <= sx < End(x, sw, dw) <==> x == BoxOf(sx, sw, dw)
  {
    hide Start, BoxOf;
    BoxBelow(sx, sw, dw);
    StartsBefore(sx, x, sw, dw);
    StartsBefore(sx, x + 1, sw, dw);
    StartsGrow(x, sw, dw);
  }

  lemma BoxBelow(sx: nat, sw: nat, dw: nat)
    requires 1 <= dw && sx < sw
    ensures BoxOf(sx, sw, dw) < dw
  {
    MulMonotone(sx + 1, sw, dw);
    QuotientBelow((sx + 1) * dw - 1, sw, dw);
  }

  lemma StartsGrow(x: nat, sw: nat, dw: nat)
    requires 1 <= dw <= sw
    ensures Start(x, sw, dw) < Start(x + 1, sw, dw)
  {
    var q := Start(x + 1, sw, dw);
    QuotientBelow((x + 1) * sw, dw, q + 1);
    assert (x + 1) * sw == x * sw + sw;
    QuotientBelow(x * sw, dw, q + 1);
    assert (q + 1) * dw == q * dw + dw;
    if q > 0 {
      QuotientBelow(x * sw, dw, q);
    }
  }

  /** When an axis grows, the nearest column visits every source column, in order. */
  lemma NearestOnto(sx: nat, sw: nat, dw: nat)
    requires 1 <= sw <= dw && sx < sw
    ensures BoxOf(sx, sw, dw) < dw && Start(BoxOf(sx, sw, dw), sw, dw) == sx
  {
    hide Start, BoxOf;
    var x := BoxOf(sx, sw, dw);
    BoxBelow(sx, sw, dw);
    StartsBefore(sx, x, sw, dw);
    if sx > 0 {
      StartsBefore(sx - 1, x, sw, dw);
      LaterBox(sx, sw, dw);
    }
  }

  lemma LaterBox(sx: nat, sw: nat, dw: nat)
    requires 1 <= sw <= dw && 0 < sx < sw
    ensures BoxOf(sx - 1, sw, dw) < BoxOf(sx, sw, dw)
  {
    var q, n := BoxOf(sx - 1, sw, dw), sx * dw - 1;
    assert n == sw * q + n % sw;
    assert (sx + 1) * dw - 1 == n + dw;
    QuotientBelow(n + dw, sw, q + 1);
    assert (q + 1) * sw == sw * q + sw;
  }

  // ---- The value of a box ----------------------------------------------------------------

  /** Alpha is the mean over n pixels, colours are means weighted by alpha. */
  function Average(n: nat, a: nat, r: nat, g: nat, b: nat): nat
    requires n > 0
  {
    if a == 0 then 0 else Pack(a / n, r / a, g / a, b / a)
  }

  /** The mean of the pixels s in exact arithmetic. */
  function Mean(s: seq<Argb>): nat
    requires s != []
  {
    Average(|s|, SumAlpha(s), SumColour(s, 0), SumColour(s, 1), SumColour(s, 2))
  }

  /** What the code computes: its sums are uint32. */
  function BoxValue(s: seq<Argb>): nat
    requires s != []
  {
    Average(|s|, U32(SumAlpha(s)), U32(SumColour(s, 0)), U32(SumColour(s, 1)), U32(SumColour(s, 2)))
  }

  lemma {:induction false} SumBetween(s: seq<Argb>, k: nat, lo: nat, hi: nat)
    requires forall i | 0 <= i < |s| :: Alpha(s[i]) > 0 ==> lo <= Colour(s[i], k) <= hi
    ensures SumAlpha(s) * lo <= SumColour(s, k) <= SumAlpha(s) * hi
  {
    hide Alpha, Colour;
    if s != [] {
      var p, v := s[..|s| - 1], s[|s| - 1];
      SumBetween(p, k, lo, hi);
      var a, c := Alpha(v), Colour(v, k);
      if a > 0 {
        MulMonotone(lo, c, a);
        MulMonotone(c, hi, a);
      }
      Distribute(SumAlpha(p), a, lo);
      Distribute(SumAlpha(p), a, hi);
    }
  }

  lemma {:induction false} AlphaBetween(s: seq<Argb>, lo: nat, hi: nat)
    requires forall i | 0 <= i < |s| :: lo <= Alpha(s[i]) <= hi
    ensures |s| * lo <= SumAlpha(s) <= |s| * hi
  {
    hide Alpha;
    if s != [] {
      AlphaBetween(s[..|s| - 1], lo, hi);
      OneMore(|s| - 1, lo);
      OneMore(|s| - 1, hi);
    }
  }

  lemma QuotientBetween(n: nat, d: nat, lo: nat, hi: nat)
    requires d > 0 && d * lo <= n <= d * hi
    ensures lo <= n / d <= hi
  {
    DivBound(n, d, hi);
    MulMonotone(lo, lo, d);
    if lo > 0 {
      QuotientBelow(n, d, lo);
    }
  }

  lemma ColoursSmall(s: seq<Argb>, k: nat)
    requires SumAlpha(s) > 0
    ensures SumColour(s, k) / SumAlpha(s) <= 255
  {
    hide SumAlpha, SumColour, Alpha, Colour;
    SumBetween(s, k, 0, 255);
    QuotientBetween(SumColour(s, k), SumAlpha(s), 0, 255);
  }

  lemma AlphaSmall(s: seq<Argb>)
    requires s != []
    ensures SumAlpha(s) / |s| <= 255
  {
    hide SumAlpha, Alpha;
    AlphaBetween(s, 0, 255);
    QuotientBetween(SumAlpha(s), |s|, 0, 255);
  }

  /** The mean as a word: its bytes are the channel means, without carries. */
  lemma MeanChannels(s: seq<Argb>)
    requires s != []
    ensures Mean(s) < 0x1_0000_0000 && Alpha(Mean(s)) == SumAlpha(s) / |s|
    ensures SumAlpha(s) > 0 ==> forall k | 0 <= k < 3 :: Colour(Mean(s), k) == SumColour(s, k) / SumAlpha(s)
  {
    hide SumAlpha, SumColour, Pack, Alpha, Colour;
    if SumAlpha(s) > 0 {
      AlphaSmall(s);
      ColoursSmall(s, 0);
      ColoursSmall(s, 1);
      ColoursSmall(s, 2);
      var a := SumAlpha(s);
      PackExact(a / |s|, SumColour(s, 0) / a, SumColour(s, 1) / a, SumColour(s, 2) / a);
    } else {
      ClearWord();
    }
  }

  lemma ClearWord()
    ensures Alpha(0) == 0
  {
  }

  /** A mean lies between the extremes: alpha over all pixels, each colour over the
      visible ones only, so transparent pixels do not bleed into it. */
  lemma MeanBetween(s: seq<Argb>, k: nat, lo: nat, hi: nat)
    requires s != [] && k < 3
    ensures Mean(s) < 0x1_0000_0000
    ensures (forall i | 0 <= i < |s| :: lo <= Alpha(s[i]) <= hi) ==> lo <= Alpha(Mean(s)) <= hi
    ensures SumAlpha(s) > 0 && (forall i | 0 <= i < |s| :: Alpha(s[i]) > 0 ==> lo <= Colour(s[i], k) <= hi) ==>
              lo <= Colour(Mean(s), k) <= hi
  {
    hide SumAlpha, SumColour, Mean, Alpha, Colour;
    MeanChannels(s);
    if forall i | 0 <= i < |s| :: lo <= Alpha(s[i]) <= hi {
      AlphaBetween(s, lo, hi);
      QuotientBetween(SumAlpha(s), |s|, lo, hi);
    }
    if SumAlpha(s) > 0 && (forall i | 0 <= i < |s| :: Alpha(s[i]) > 0 ==> lo <= Colour(s[i], k) <= hi) {
      SumBetween(s, k, lo, hi);
      QuotientBetween(SumColour(s, k), SumAlpha(s), lo, hi);
    }
  }

  function White(n: nat): (s: seq<Argb>)
    ensures |s| == n
  {
    seq(n, _ => 0xFFFF_FFFF)
  }

  lemma WhiteSums(n: nat, k: nat)
    ensures SumAlpha(White(n)) == n * 255 && SumColour(White(n), k) == n * 65025
  {
    hide SumAlpha, SumColour;
    WhiteWord(k);
    SumsOfUniform(White(n), 0xFFFF_FFFF, k);
  }

  lemma WhiteWord(k: nat)
    ensures Alpha(0xFFFF_FFFF) == 255 && Colour(0xFFFF_FFFF, k) == 255
  {
  }

  lemma WhiteMean(n: nat)
    requires n > 0
    ensures Mean(White(n)) < 0x1_0000_0000 && Alpha(Mean(White(n))) == 255 && Colour(Mean(White(n)), 0) == 255
  {
    hide SumAlpha, SumColour, Mean, Alpha, Colour;
    MeanChannels(White(n));
    WhiteSums(n, 0);
    DivModUnique(n * 255, 255, 0, n);
    DivModUnique(n * 65025, 255, 0, n * 255);
  }

  lemma WrapBelow(k: nat, b: nat)
    ensures U32(0x1_0000_0000 * k + b) <= b
  {
    var q, r := b / 0x1_0000_0000, b % 0x1_0000_0000;
    DivModUnique(0x1_0000_0000 * k + b, k + q, r, 0x1_0000_0000);
  }

  /** With a the wrapped alpha sum of n opaque white pixels and r the wrapped colour
      sums, the quotients still fit in bytes but are not both 255. */
  lemma WhiteWraps(n: nat)
    requires n > 66051 && U32(n * 255) > 0
    ensures U32(n * 255) / n <= 255 && U32(n * 65025) / U32(n * 255) <= 255
    ensures !(U32(n * 255) / n == 255 && U32(n * 65025) / U32(n * 255) == 255)
  {
    var a, r := U32(n * 255), U32(n * 65025);
    var q := n * 255 / 0x1_0000_0000;
    assert n * 255 == 0x1_0000_0000 * q + a;
    WrapBelow(255 * q, 255 * a);
    hide U32;
    QuotientBelow(a, n, 256);
    QuotientBelow(r, a, 256);
    QuotientBelow(a, n, 255);
    QuotientBelow(r, a, 255);
  }

  /** A white box of more than 66051 pixels does not come out white. */
  lemma WhiteFails(n: nat)
    requires n > 66051
    ensures BoxValue(White(n)) != Mean(White(n))
  {
    hide SumAlpha, SumColour, Pack, White, U32, Alpha, Colour, Mean;
    WhiteMean(n);
    WhiteSums(n, 0);
    WhiteSums(n, 1);
    WhiteSums(n, 2);
    var a, r := U32(n * 255), U32(n * 65025);
    if a > 0 {
      WhiteWraps(n);
      PackExact(a / n, r / a, r / a, r / a);
    } else {
      ClearWord();
    }
  }

  lemma SumsFit(s: seq<Argb>, k: nat)
    requires |s| <= 66051
    ensures U32(SumAlpha(s)) == SumAlpha(s) && U32(SumColour(s, k)) == SumColour(s, k)
  {
    hide SumAlpha, SumColour;
    SumsBounded(s, k);
  }

  lemma SmallBoxExact(s: seq<Argb>)
    requires 0 < |s| <= 66051
    ensures BoxValue(s) == Mean(s)
  {
    hide SumAlpha, SumColour, Average, U32;
    SumsFit(s, 0);
    SumsFit(s, 1);
    SumsFit(s, 2);
  }

  /** The uint32 sums give the exact mean for every content of a box of n pixels if
      and only if n is at most 66051. */
  lemma BoxExactness(n: nat)
    requires 0 < n < 0x1_0000_0000
    ensures (forall s: seq<Argb> | |s| == n :: BoxValue(s) == Mean(s)) <==> n <= 66051
  {
    hide BoxValue, Mean, White;
    if n <= 66051 {
      forall s: seq<Argb> | |s| == n
        ensures BoxValue(s) == Mean(s)
      {
        SmallBoxExact(s);
      }
    } else {
      WhiteFails(n);
      var s := White(n);
      assert |s| == n && BoxValue(s) != Mean(s);
    }
  }

  // ---- The loops ---------------------------------------------------------------------------

  /** Source pixels of columns x0..x1 of rows y0..y1, row by row. */
  function Box(src: seq<Argb>, sw: nat, x0: nat, x1: nat, y0: nat, y1: nat): (s: seq<Argb>)
    requires x0 <= x1 <= sw && y0 <= y1 && sw * y1 <= |src|
    ensures |s| == (x1 - x0) * (y1 - y0)
    decreases y1
  {
    if y0 == y1 then [] else
      MulMonotone(y1 - 1, y1, sw);
      OneMore(y1 - 1, sw);
      OneMore(y1 - 1 - y0, x1 - x0);
      Box(src, sw, x0, x1, y0, y1 - 1) + src[Index(sw, x0, y1 - 1)..Index(sw, x1, y1 - 1)]
  }

  /** The boxes of the destination pixels (x, y) and (x', y') of a shrinking image
      share no source pixel, and between them the boxes take in every one. */
  lemma PixelsPartition(sx: nat, sy: nat, sw: nat, sh: nat, dw: nat, dh: nat, x: nat, y: nat)
    requires 1 <= dw <= sw && 1 <= dh <= sh && sx < sw && sy < sh
    ensures BoxOf(sx, sw, dw) < dw && BoxOf(sy, sh, dh) < dh
    ensures Start(x, sw, dw) <= sx < End(x, sw, dw) && Start(y, sh, dh) <= sy < End(y, sh, dh) <==>
            x == BoxOf(sx, sw, dw) && y == BoxOf(sy, sh, dh)
    ensures Takes(sx, x, sw, dw) && Takes(sy, y, sh, dh) <==> x == BoxOf(sx, sw, dw) && y == BoxOf(sy, sh, dh)
  {
    hide Start, End, BoxOf, Takes;
    BoxesPartition(sx, x, sw, dw);
    BoxesPartition(sy, y, sh, dh);
    TakesIsBox(sx, x, sw, dw);
    TakesIsBox(sy, y, sh, dh);
  }

  /** The wrapped sums over the first n pixels. */
  ghost predicate WrappedSums(s: seq<Argb>, n: nat, a: nat, r: nat, g: nat, b: nat) {
    && n <= |s| && a == U32(SumAlpha(s[..n]))
    && r == U32(SumColour(s[..n], 0)) && g == U32(SumColour(s[..n], 1)) && b == U32(SumColour(s[..n], 2))
  }

  lemma WrappedNone(s: seq<Argb>)
    ensures WrappedSums(s, 0, 0, 0, 0, 0)
  {
  }

  lemma WrapAdd(x: nat, y: nat)
    ensures U32(U32(x) + y) == U32(x + y)
  {
    var q, n := x / 0x1_0000_0000, U32(x) + y;
    assert x == 0x1_0000_0000 * q + U32(x);
    DivModUnique(x + y, q + n / 0x1_0000_0000, n % 0x1_0000_0000, 0x1_0000_0000);
  }

  lemma WrappedNext(s: seq<Argb>, n: nat, a: nat, r: nat, g: nat, b: nat)
    requires n < |s| && WrappedSums(s, n, a, r, g, b)
    ensures var v := s[n];
            WrappedSums(s, n + 1, U32(a + Alpha(v)), U32(r + Colour(v, 0) * Alpha(v)),
                        U32(g + Colour(v, 1) * Alpha(v)), U32(b + Colour(v, 2) * Alpha(v)))
  {
    hide Alpha, Colour, U32;
    assert s[..n + 1][..n] == s[..n];
    var t, v := s[..n], s[n];
    WrapAdd(SumAlpha(t), Alpha(v));
    WrapAdd(SumColour(t, 0), Colour(v, 0) * Alpha(v));
    WrapAdd(SumColour(t, 1), Colour(v, 1) * Alpha(v));
    WrapAdd(SumColour(t, 2), Colour(v, 2) * Alpha(v));
  }

  lemma WrappedAll(s: seq<Argb>, a: nat, r: nat, g: nat, b: nat)
    requires s != [] && WrappedSums(s, |s|, a, r, g, b)
    ensures Average(|s|, a, r, g, b) == BoxValue(s)
  {
    hide SumAlpha, SumColour, U32, Average;
    assert s[..|s|] == s;
  }

  /** Where source pixel (sx, sy) stands among the pixels of its box. */
  lemma {:induction false} BoxAt(src: seq<Argb>, sw: nat, x0: nat, x1: nat, y0: nat, y1: nat, sx: nat, sy: nat)
    requires x0 <= sx < x1 <= sw && y0 <= sy < y1 && sw * y1 <= |src|
    ensures Index(x1 - x0, sx - x0, sy - y0) < |Box(src, sw, x0, x1, y0, y1)| && Index(sw, sx, sy) < |src|
    ensures Box(src, sw, x0, x1, y0, y1)[Index(x1 - x0, sx - x0, sy - y0)] == src[Index(sw, sx, sy)]
    decreases y1
  {
    hide Index;
    var w, top := x1 - x0, Box(src, sw, x0, x1, y0, y1 - 1);
    BoxGrows(src, sw, x0, x1, y0, y1);
    IndexBound(sw, y1, sx, sy);
    if sy < y1 - 1 {
      BoxAt(src, sw, x0, x1, y0, y1 - 1, sx, sy);
    } else {
      IndexColumn(w, sx - x0, sy - y0);
      IndexColumn(sw, x0, sy);
      IndexColumn(sw, x1, sy);
      IndexColumn(sw, sx, sy);
    }
  }

  lemma IndexColumn(w: nat, x: nat, y: nat)
    ensures Index(w, x, y) == w * y + x
  {
  }

  lemma BoxGrows(src: seq<Argb>, sw: nat, x0: nat, x1: nat, y0: nat, y1: nat)
    requires x0 <= x1 <= sw && y0 < y1 && sw * y1 <= |src|
    ensures sw * (y1 - 1) <= |src| && Index(sw, x0, y1 - 1) <= Index(sw, x1, y1 - 1) <= |src|
    ensures Box(src, sw, x0, x1, y0, y1) ==
            Box(src, sw, x0, x1, y0, y1 - 1) + src[Index(sw, x0, y1 - 1)..Index(sw, x1, y1 - 1)]
  {
    MulMonotone(y1 - 1, y1, sw);
    OneMore(y1 - 1, sw);
  }

  /** The summing loops over one box. */
  method AverageBox(src: array<Argb>, sw: nat, x0: nat, x1: nat, y0: nat, y1: nat) returns (v: nat)
    requires x0 < x1 <= sw && y0 < y1 && sw * y1 <= src.Length
    ensures (x1 - x0) * (y1 - y0) > 0 && v == BoxValue(Box(src[..], sw, x0, x1, y0, y1))
  {
    hide WrappedSums, U32, Alpha, Colour, Index, Box, BoxValue;
    ghost var s := Box(src[..], sw, x0, x1, y0, y1);
    var a, r, g, b := 0, 0, 0, 0;
    WrappedNone(s);
    var w := x1 - x0;
    Positive(w, y1 - y0);
    RowStarts(w, y1 - y0);
    var sy := y0;
    while sy < y1
      invariant y0 <= sy <= y1
      invariant WrappedSums(s, Index(w, 0, sy - y0), a, r, g, b)
    {
      a, r, g, b := AddRow(src, sw, x0, x1, y0, y1, sy, a, r, g, b, s);
      sy := sy + 1;
    }
    WrappedAll(s, a, r, g, b);
    v := Average((x1 - x0) * (y1 - y0), a, r, g, b);
  }

  lemma RowStarts(w: nat, n: nat)
    ensures Index(w, 0, 0) == 0 && Index(w, 0, n) == w * n
  {
  }

  lemma NextIndex(w: nat, c: nat, r: nat)
    ensures Index(w, c + 1, r) == Index(w, c, r) + 1 && Index(w, 0, r + 1) == Index(w, w, r)
  {
    OneMore(r, w);
  }

  lemma Positive(a: nat, b: nat)
    requires a > 0 && b > 0
    ensures a * b > 0
  {
  }

  method AddRow(src: array<Argb>, sw: nat, x0: nat, x1: nat, y0: nat, y1: nat, sy: nat,
                a: nat, r: nat, g: nat, b: nat, ghost s: seq<Argb>)
    returns (a': nat, r': nat, g': nat, b': nat)
    requires x0 < x1 <= sw && y0 <= sy < y1 && sw * y1 <= src.Length && s == Box(src[..], sw, x0, x1, y0, y1)
    requires WrappedSums(s, Index(x1 - x0, 0, sy - y0), a, r, g, b)
    ensures WrappedSums(s, Index(x1 - x0, 0, sy - y0 + 1), a', r', g', b')
  {
    hide WrappedSums, U32, Alpha, Colour, Box, Index;
    a', r', g', b' := a, r, g, b;
    var sx := x0;
    while sx < x1
      invariant x0 <= sx <= x1
      invariant WrappedSums(s, Index(x1 - x0, sx - x0, sy - y0), a', r', g', b')
    {
      BoxAt(src[..], sw, x0, x1, y0, y1, sx, sy);
      var v := src[Index(sw, sx, sy)];
      WrappedNext(s, Index(x1 - x0, sx - x0, sy - y0), a', r', g', b');
      a' := U32(a' + Alpha(v));
      r' := U32(r' + Colour(v, 0) * Alpha(v));
      g' := U32(g' + Colour(v, 1) * Alpha(v));
      b' := U32(b' + Colour(v, 2) * Alpha(v));
      NextIndex(x1 - x0, sx - x0, sy - y0);
      sx := sx + 1;
    }
    NextIndex(x1 - x0, 0, sy - y0);
  }

  /** The value the source gives destination pixel (x, y). */
  function Scaled(src: seq<Argb>, sw: nat, sh: nat, dw: nat, dh: nat, x: nat, y: nat): nat
    requires x < dw && y < dh && sw > 0 && sh > 0 && sw * sh <= |src|
  {
    BoxInside(x, sw, dw);
    BoxInside(y, sh, dh);
    var x0, x1, y0, y1 := Start(x, sw, dw), End(x, sw, dw), Start(y, sh, dh), End(y, sh, dh);
    IndexBound(sw, sh, x0, y0);
    if dw >= sw && dh >= sh then src[Index(sw, x0, y0)]
    else
      MulMonotone(y1, sh, sw);
      Positive(x1 - x0, y1 - y0);
      BoxValue(Box(src, sw, x0, x1, y0, y1))
  }

  /** Pixels before (x, y) are written. */
  ghost predicate Filled(dst: seq<nat>, src: seq<Argb>, sw: nat, sh: nat, dw: nat, dh: nat, x: nat, y: nat) {
    && sw > 0 && sh > 0 && sw * sh <= |src| && dw * dh <= |dst|
    && forall u, v | 0 <= u < dw && 0 <= v < dh && (v < y || (v == y && u < x)) ::
         PixelIs(dst, src, sw, sh, dw, dh, u, v)
  }

  ghost predicate PixelIs(dst: seq<nat>, src: seq<Argb>, sw: nat, sh: nat, dw: nat, dh: nat, u: nat, v: nat)
    requires u < dw && v < dh && sw > 0 && sh > 0 && sw * sh <= |src|
  {
    Index(dw, u, v) < |dst| && dst[Index(dw, u, v)] == Scaled(src, sw, sh, dw, dh, u, v)
  }

  lemma FilledStep(dst: seq<nat>, src: seq<Argb>, sw: nat, sh: nat, dw: nat, dh: nat, x: nat, y: nat, p: nat)
    requires x < dw && y < dh && Filled(dst, src, sw, sh, dw, dh, x, y) && p == Scaled(src, sw, sh, dw, dh, x, y)
    ensures Index(dw, x, y) < |dst| && Filled(dst[Index(dw, x, y) := p], src, sw, sh, dw, dh, x + 1, y)
  {
    hide Scaled, Index;
    IndexBound(dw, dh, x, y);
    var next := dst[Index(dw, x, y) := p];
    forall u, v | 0 <= u < dw && 0 <= v < dh && (v < y || (v == y && u < x + 1))
      ensures PixelIs(next, src, sw, sh, dw, dh, u, v)
    {
      IndexBound(dw, dh, u, v);
      if Index(dw, u, v) == Index(dw, x, y) {
        IndexInjective(dw, u, v, x, y);
      } else {
        assert PixelIs(dst, src, sw, sh, dw, dh, u, v);
      }
    }
  }

  lemma FilledRow(dst: seq<nat>, src: seq<Argb>, sw: nat, sh: nat, dw: nat, dh: nat, y: nat)
    requires Filled(dst, src, sw, sh, dw, dh, dw, y)
    ensures Filled(dst, src, sw, sh, dw, dh, 0, y + 1)
  {
    hide PixelIs;
  }

  /** One destination pixel, by either path. */
  method ScalePixel(src: array<Argb>, sw: nat, sh: nat, dw: nat, dh: nat, x: nat, y: nat) returns (p: nat)
    requires x < dw && y < dh && sw > 0 && sh > 0 && sw * sh <= src.Length
    ensures p == Scaled(src[..], sw, sh, dw, dh, x, y)
  {
    hide BoxValue, Box, Index;
    BoxInside(x, sw, dw);
    BoxInside(y, sh, dh);
    var x0, y0 := x * sw / dw, y * sh / dh;
    if dw >= sw && dh >= sh {
      IndexBound(sw, sh, x0, y0);
      p := src[Index(sw, x0, y0)];
    } else {
      var x1, y1 := (x + 1) * sw / dw, (y + 1) * sh / dh;
      if y1 <= y0 { y1 := y0 + 1; }
      if x1 <= x0 { x1 := x0 + 1; }
      MulMonotone(y1, sh, sw);
      p := AverageBox(src, sw, x0, x1, y0, y1);
    }
  }

  // ---- The result, without its formula ----------------------------------------------------

  /** Which source column a destination column takes in: when the axis shrinks, those whose
      right edge lies within it; otherwise the one that its left edge lies in. */
  predicate Takes(sx: nat, x: nat, sw: nat, dw: nat) {
    if dw < sw then x * sw < (sx + 1) * dw <= (x + 1) * sw
    else sx * dw <= x * sw < (sx + 1) * dw
  }

  lemma TakesIsBox(sx: nat, x: nat, sw: nat, dw: nat)
    requires 0 < sw && 0 < dw
    ensures Takes(sx, x, sw, dw) <==> Start(x, sw, dw) <= sx < End(x, sw, dw)
  {
    var next := (x + 1) * sw;
    QuotientBelow(x * sw, dw, sx + 1);
    if dw < sw {
      StartsGrow(x, sw, dw);
      QuotientBelow(next, dw, sx + 1);
    } else {
      if sx > 0 {
        QuotientBelow(x * sw, dw, sx);
      }
      StartsSlowly(x, sw, dw);
    }
  }

  lemma StartsSlowly(x: nat, sw: nat, dw: nat)
    requires 0 < sw <= dw
    ensures End(x, sw, dw) == Start(x, sw, dw) + 1
  {
    var q := Start(x, sw, dw);
    QuotientBelow(x * sw, dw, q + 1);
    OneMore(x, sw);
    OneMore(q + 1, dw);
    QuotientBelow((x + 1) * sw, dw, q + 2);
  }

  /** The pixels that (x, y) takes in, of the first n of the source. */
  ghost function Taken(src: seq<Argb>, sw: nat, sh: nat, dw: nat, dh: nat, x: nat, y: nat, n: nat): seq<Argb>
    requires sw > 0 && n <= |src|
  {
    if n == 0 then []
    else
      Taken(src, sw, sh, dw, dh, x, y, n - 1) +
      (if Takes((n - 1) % sw, x, sw, dw) && Takes((n - 1) / sw, y, sh, dh) then [src[n - 1]] else [])
  }

  /** The part of a box in the rows before r and in the first c columns of row r. */
  ghost function BoxBefore(src: seq<Argb>, sw: nat, x0: nat, x1: nat, y0: nat, y1: nat, r: nat, c: nat): seq<Argb>
    requires x0 <= x1 <= sw && y0 <= y1 && sw * y1 <= |src|
  {
    var rows := Clamp(r, y0, y1);
    MulMonotone(rows, y1, sw);
    if y0 <= r < y1 then
      RowInside(sw, x0, x1, r, y1);
      var c' := Clamp(c, x0, x1);
      Box(src, sw, x0, x1, y0, rows) + src[Index(sw, x0, r)..Index(sw, c', r)]
    else Box(src, sw, x0, x1, y0, rows)
  }

  lemma RowInside(sw: nat, x0: nat, x1: nat, r: nat, y1: nat)
    requires x0 <= x1 <= sw && r < y1
    ensures forall c | x0 <= c <= x1 :: Index(sw, x0, r) <= Index(sw, c, r) <= sw * y1
  {
    OneMore(r, sw);
    MulMonotone(r + 1, y1, sw);
  }

  lemma BoxNextColumn(src: seq<Argb>, sw: nat, x0: nat, x1: nat, y0: nat, y1: nat, r: nat, c: nat)
    requires x0 <= x1 <= sw && y0 <= y1 && sw * y1 <= |src| && Index(sw, c, r) < |src|
    ensures BoxBefore(src, sw, x0, x1, y0, y1, r, c + 1) ==
            BoxBefore(src, sw, x0, x1, y0, y1, r, c) +
            (if x0 <= c < x1 && y0 <= r < y1 then [src[Index(sw, c, r)]] else [])
  {
    hide Box;
    if y0 <= r < y1 {
      RowInside(sw, x0, x1, r, y1);
    }
  }

  lemma BoxNextRow(src: seq<Argb>, sw: nat, x0: nat, x1: nat, y0: nat, y1: nat, r: nat)
    requires x0 <= x1 <= sw && y0 <= y1 && sw * y1 <= |src|
    ensures BoxBefore(src, sw, x0, x1, y0, y1, r + 1, 0) == BoxBefore(src, sw, x0, x1, y0, y1, r, sw)
  {
    hide Index;
    if y0 <= r < y1 {
      MulMonotone(r + 1, y1, sw);
      BoxGrows(src, sw, x0, x1, y0, r + 1);
      RowInside(sw, x0, x1, r, y1);
    }
    if y0 <= r + 1 < y1 {
      RowInside(sw, x0, x1, r + 1, y1);
    }
  }

  lemma TakenNext(src: seq<Argb>, sw: nat, sh: nat, dw: nat, dh: nat, x: nat, y: nat, r: nat, c: nat)
    requires x < dw && y < dh && c < sw && sh > 0 && Index(sw, c, r) < |src|
    ensures Taken(src, sw, sh, dw, dh, x, y, Index(sw, c, r) + 1) ==
            Taken(src, sw, sh, dw, dh, x, y, Index(sw, c, r)) +
            (if Start(x, sw, dw) <= c < End(x, sw, dw) && Start(y, sh, dh) <= r < End(y, sh, dh)
             then [src[Index(sw, c, r)]] else [])
  {
    hide Takes, Start, End;
    var n := Index(sw, c, r);
    assert n == c + sw * r;
    DivModUnique(n, r, c, sw);
    TakesIsBox(c, x, sw, dw);
    TakesIsBox(r, y, sh, dh);
  }

  lemma {:induction false} TakenSoFar(src: seq<Argb>, sw: nat, sh: nat, dw: nat, dh: nat, x: nat, y: nat,
                                      x0: nat, x1: nat, y0: nat, y1: nat, r: nat, c: nat)
    requires x < dw && y < dh && sw > 0 && sh > 0 && sw * sh <= |src|
    requires x0 == Start(x, sw, dw) && x1 == End(x, sw, dw) && y0 == Start(y, sh, dh) && y1 == End(y, sh, dh)
    requires x0 <= x1 <= sw && y0 <= y1 <= sh && sw * y1 <= |src|
    requires c <= sw && Index(sw, c, r) <= sw * sh
    ensures Taken(src, sw, sh, dw, dh, x, y, Index(sw, c, r)) == BoxBefore(src, sw, x0, x1, y0, y1, r, c)
    decreases r, c
  {
    hide Takes, Start, End, BoxBefore, Index;
    if c > 0 {
      NextIndex(sw, c - 1, r);
      TakenSoFar(src, sw, sh, dw, dh, x, y, x0, x1, y0, y1, r, c - 1);
      TakenNext(src, sw, sh, dw, dh, x, y, r, c - 1);
      BoxNextColumn(src, sw, x0, x1, y0, y1, r, c - 1);
    } else if r > 0 {
      NextIndex(sw, 0, r - 1);
      TakenSoFar(src, sw, sh, dw, dh, x, y, x0, x1, y0, y1, r - 1, sw);
      BoxNextRow(src, sw, x0, x1, y0, y1, r - 1);
    } else {
      RowStarts(sw, 0);
      BoxStarts(src, sw, x0, x1, y0, y1);
    }
  }

  lemma BoxStarts(src: seq<Argb>, sw: nat, x0: nat, x1: nat, y0: nat, y1: nat)
    requires x0 <= x1 <= sw && y0 <= y1 && sw * y1 <= |src|
    ensures BoxBefore(src, sw, x0, x1, y0, y1, 0, 0) == []
  {
  }

  /** The box of (x, y) is what it takes in of the whole source. */
  lemma TakenIsBox(src: seq<Argb>, sw: nat, sh: nat, dw: nat, dh: nat, x: nat, y: nat)
    requires x < dw && y < dh && sw > 0 && sh > 0 && sw * sh <= |src|
    ensures var x0, x1, y0, y1 := Start(x, sw, dw), End(x, sw, dw), Start(y, sh, dh), End(y, sh, dh);
            && x0 < x1 <= sw && y0 < y1 <= sh && sw * y1 <= |src|
            && Taken(src, sw, sh, dw, dh, x, y, sw * sh) == Box(src, sw, x0, x1, y0, y1)
  {
    hide Start, End, Taken, Index;
    BoxInside(x, sw, dw);
    BoxInside(y, sh, dh);
    var x0, x1, y0, y1 := Start(x, sw, dw), End(x, sw, dw), Start(y, sh, dh), End(y, sh, dh);
    MulMonotone(y1, sh, sw);
    RowStarts(sw, sh);
    TakenSoFar(src, sw, sh, dw, dh, x, y, x0, x1, y0, y1, sh, 0);
  }

  /** p is the mean of the pixels s: alpha over all of them, colours weighted by alpha,
      each rounded down; nothing visible gives 0. */
  ghost predicate IsMean(p: nat, s: seq<Argb>) {
    var n, a := |s|, SumAlpha(s);
    && n > 0 && p < 0x1_0000_0000
    && Alpha(p) * n <= a < Alpha(p) * n + n
    && (a == 0 ==> p == 0)
    && (a > 0 ==> forall k | 0 <= k < 3 :: Colour(p, k) * a <= SumColour(s, k) < Colour(p, k) * a + a)
  }

  lemma MeanIsMean(s: seq<Argb>)
    requires s != []
    ensures IsMean(Mean(s), s)
  {
    hide SumAlpha, SumColour, Mean, Alpha, Colour;
    MeanChannels(s);
    QuotientTimes(SumAlpha(s), |s|);
    if SumAlpha(s) == 0 {
      MeanOfClear(s);
    } else {
      forall k | 0 <= k < 3
        ensures var c, a := SumColour(s, k) / SumAlpha(s), SumAlpha(s);
                c * a <= SumColour(s, k) < c * a + a
      {
        QuotientTimes(SumColour(s, k), SumAlpha(s));
      }
    }
  }

  /** Destination pixel (x, y): when neither axis shrinks, the one pixel it takes in;
      otherwise the mean of those it takes in, unless they are too many for the sums. */
  ghost predicate ScaledAt(dst: seq<nat>, src: seq<Argb>, sw: nat, sh: nat, dw: nat, dh: nat, x: nat, y: nat)
    requires sw > 0 && sw * sh <= |src|
  {
    var s := Taken(src, sw, sh, dw, dh, x, y, sw * sh);
    && y * dw + x < |dst|
    && (dw >= sw && dh >= sh ==> s == [dst[y * dw + x]])
    && (dw < sw || dh < sh ==> |s| > 0 && (|s| <= 66051 ==> IsMean(dst[y * dw + x], s)))
  }

  lemma FilledIsScaled(dst: seq<nat>, src: seq<Argb>, sw: nat, sh: nat, dw: nat, dh: nat, x: nat, y: nat)
    requires Filled(dst, src, sw, sh, dw, dh, 0, dh) && x < dw && y < dh
    ensures ScaledAt(dst, src, sw, sh, dw, dh, x, y)
  {
    hide Start, End, Taken, BoxValue, Mean, IsMean;
    assert PixelIs(dst, src, sw, sh, dw, dh, x, y);
    TakenIsBox(src, sw, sh, dw, dh, x, y);
    var s := Taken(src, sw, sh, dw, dh, x, y, sw * sh);
    if dw >= sw && dh >= sh {
      StartsSlowly(x, sw, dw);
      StartsSlowly(y, sh, dh);
    } else {
      Positive(End(x, sw, dw) - Start(x, sw, dw), End(y, sh, dh) - Start(y, sh, dh));
      if |s| <= 66051 {
        SmallBoxExact(s);
        MeanIsMean(s);
      }
    }
  }

  /** `media_scale_rgba`: every destination pixel gets its nearest pixel or its box,
      reads stay inside the source, and degenerate sizes change nothing. */
  method ScaleRgba(src: array<Argb>, sw: int, sh: int, dst: array<nat>, dw: int, dh: int)
    requires sw > 0 && sh > 0 && dw > 0 && dh > 0 ==> sw * sh <= src.Length && dw * dh <= dst.Length
    modifies dst
    ensures sw <= 0 || sh <= 0 || dw <= 0 || dh <= 0 ==> dst[..] == old(dst[..])
    ensures sw > 0 && sh > 0 && dw > 0 && dh > 0 ==> Filled(dst[..], src[..], sw, sh, dw, dh, 0, dh)
    ensures sw > 0 && sh > 0 && dw > 0 && dh > 0 ==>
              forall x, y | 0 <= x < dw && 0 <= y < dh :: ScaledAt(dst[..], src[..], sw, sh, dw, dh, x, y)
  {
    hide Filled, Scaled, Index, ScaledAt;
    if sw <= 0 || sh <= 0 || dw <= 0 || dh <= 0 {
      return;
    }
    FilledNone(dst[..], src[..], sw, sh, dw, dh);
    var y := 0;
    while y < dh
      invariant 0 <= y <= dh
      invariant Filled(dst[..], src[..], sw, sh, dw, dh, 0, y)
    {
      var x := 0;
      while x < dw
        invariant 0 <= x <= dw
        invariant Filled(dst[..], src[..], sw, sh, dw, dh, x, y)
      {
        var p := ScalePixel(src, sw, sh, dw, dh, x, y);
        FilledStep(dst[..], src[..], sw, sh, dw, dh, x, y, p);
        ghost var was := dst[..];
        dst[Index(dw, x, y)] := p;
        assert dst[..] == was[Index(dw, x, y) := p];
        x := x + 1;
      }
      FilledRow(dst[..], src[..], sw, sh, dw, dh, y);
      y := y + 1;
    }
    forall x, y | 0 <= x < dw && 0 <= y < dh
      ensures ScaledAt(dst[..], src[..], sw, sh, dw, dh, x, y)
    {
      FilledIsScaled(dst[..], src[..], sw, sh, dw, dh, x, y);
    }
  }

  /** Opaque black and invisible white shrink to half-transparent black. */
  method ShrinkPair() returns (p: nat)
    ensures p == 0x7F00_0000
  {
    hide Filled;
    var src := new Argb[] [0xFF00_0000, 0x00FF_FFFF];
    var dst := new nat[1](_ => 0);
    ScaleRgba(src, 2, 1, dst, 1, 1);
    p := dst[0];
    assert ScaledAt(dst[..], src[..], 2, 1, 1, 1, 0, 0);
    PairTaken(src[..]);
    PairMean(p, src[..]);
  }

  lemma PairTaken(src: seq<Argb>)
    requires |src| == 2
    ensures Taken(src, 2, 1, 1, 1, 0, 0, 2) == src
  {
    assert Taken(src, 2, 1, 1, 1, 0, 0, 1) == [src[0]];
  }

  lemma PairMean(p: nat, s: seq<Argb>)
    requires s == [0xFF00_0000, 0x00FF_FFFF] && IsMean(p, s)
    ensures p == 0x7F00_0000
  {
    var one := s[..1];
    assert one[..0] == [];
    assert SumAlpha(one) == Alpha(s[0]) == 255 && Alpha(s[1]) == 0;
    forall k | 0 <= k < 3
      ensures SumColour(s, k) == 0
    {
      assert SumColour(one, k) == Colour(s[0], k) * 255 == 0;
    }
    WordSplit(p);
  }

  lemma FilledNone(dst: seq<nat>, src: seq<Argb>, sw: nat, sh: nat, dw: nat, dh: nat)
    requires sw > 0 && sh > 0 && sw * sh <= |src| && dw * dh <= |dst|
    ensures Filled(dst, src, sw, sh, dw, dh, 0, 0)
  {
  }

  /** Scaling to the same size copies the image. */
  lemma SameSizeIsCopy(src: seq<Argb>, w: nat, h: nat, x: nat, y: nat)
    requires x < w && y < h && w * h <= |src|
    ensures Index(w, x, y) < |src| && Scaled(src, w, h, w, h, x, y) == src[Index(w, x, y)]
  {
    hide Index;
    IndexBound(w, h, x, y);
    DivModUnique(x * w, x, 0, w);
    DivModUnique(y * h, y, 0, h);
  }

  /** Component k of every visible source pixel of a box lies between lo and hi. */
  ghost predicate BoxBetween(src: seq<Argb>, sw: nat, x0: nat, x1: nat, y0: nat, y1: nat, k: nat, lo: nat, hi: nat) {
    forall u, v | x0 <= u < x1 && y0 <= v < y1 && Index(sw, u, v) < |src| && Alpha(src[Index(sw, u, v)]) > 0 ::
      lo <= Colour(src[Index(sw, u, v)], k) <= hi
  }

  lemma BoxedBetween(src: seq<Argb>, sw: nat, x0: nat, x1: nat, y0: nat, y1: nat, k: nat, lo: nat, hi: nat, i: nat)
    requires x0 < x1 <= sw && y0 <= y1 && sw * y1 <= |src| && BoxBetween(src, sw, x0, x1, y0, y1, k, lo, hi)
    requires i < |Box(src, sw, x0, x1, y0, y1)| && Alpha(Box(src, sw, x0, x1, y0, y1)[i]) > 0
    ensures lo <= Colour(Box(src, sw, x0, x1, y0, y1)[i], k) <= hi
  {
    hide Box, Alpha, Colour, Index;
    var u, v := PlaceInBox(x1 - x0, y1 - y0, i);
    BoxAt(src, sw, x0, x1, y0, y1, x0 + u, y0 + v);
  }

  lemma PlaceInBox(w: nat, h: nat, i: nat) returns (u: nat, v: nat)
    requires i < w * h
    ensures u < w && v < h && Index(w, u, v) == i
  {
    IndexOnto(w, h, i);
    u, v := i % w, i / w;
  }

  /** Every pixel of a downscaled image lies between the extremes of the visible
      pixels of its box, as long as the box has at most 66051 pixels. */
  lemma ScaledBetween(src: seq<Argb>, sw: nat, sh: nat, dw: nat, dh: nat, x: nat, y: nat, k: nat, lo: nat, hi: nat)
    requires x < dw && y < dh && sw > 0 && sh > 0 && sw * sh <= |src| && k < 3 && (dw < sw || dh < sh)
    requires (End(x, sw, dw) - Start(x, sw, dw)) * (End(y, sh, dh) - Start(y, sh, dh)) <= 66051
    requires BoxBetween(src, sw, Start(x, sw, dw), End(x, sw, dw), Start(y, sh, dh), End(y, sh, dh), k, lo, hi)
    ensures var p := Scaled(src, sw, sh, dw, dh, x, y);
            p < 0x1_0000_0000 && (p == 0 || lo <= Colour(p, k) <= hi)
  {
    hide Start, End, Box, BoxValue, Mean, Alpha, Colour, Index, SumAlpha, BoxBetween;
    BoxInside(x, sw, dw);
    BoxInside(y, sh, dh);
    var x0, x1, y0, y1 := Start(x, sw, dw), End(x, sw, dw), Start(y, sh, dh), End(y, sh, dh);
    MulMonotone(y1, sh, sw);
    Positive(x1 - x0, y1 - y0);
    var s := Box(src, sw, x0, x1, y0, y1);
    SmallBoxExact(s);
    forall i | 0 <= i < |s| && Alpha(s[i]) > 0
      ensures lo <= Colour(s[i], k) <= hi
    {
      BoxedBetween(src, sw, x0, x1, y0, y1, k, lo, hi, i);
    }
    MeanBetween(s, k, lo, hi);
    if SumAlpha(s) == 0 {
      MeanOfClear(s);
    }
  }

  lemma MeanOfClear(s: seq<Argb>)
    requires s != [] && SumAlpha(s) == 0
    ensures Mean(s) == 0
  {
  }

  // ---- Fitting into a box ---------------------------------------------------------------

  /** Width w and height h keep the ratio of sw and sh to within one pixel. */
  predicate KeepsRatio(sw: int, sh: int, w: int, h: int) {
    h * sw - (if sw > sh then sw else sh) <= w * sh <= h * sw + (if sw > sh then sw else sh)
  }

  /** `media_fit_box`: the result is at least 1x1, fits the box, never exceeds the
      source, touches the box unless the source already fits, and keeps the aspect ratio. */
  method FitBox(sw: int, sh: int, bw: int, bh: int) returns (ok: bool, w: int, h: int)
    ensures ok <==> sw > 0 && sh > 0 && bw > 0 && bh > 0
    ensures ok ==> 1 <= w <= bw && 1 <= h <= bh && w <= sw && h <= sh
    ensures ok ==> (w == sw && h == sh <==> sw <= bw && sh <= bh)
    ensures ok && !(sw <= bw && sh <= bh) ==> w == bw || h == bh
    ensures ok ==> KeepsRatio(sw, sh, w, h)
  {
    w, h := sw, sh;
    if sw <= 0 || sh <= 0 || bw <= 0 || bh <= 0 {
      return false, w, h;
    }
    ok := true;
    hide KeepsRatio;
    SameRatio(sw, sh);
    if w > bw {
      Shrink(h, bw, w);
      WidthRatio(sw, sh, bw);
      h := h * bw / w;
      w := bw;
    }
    if h > bh {
      Shrink(w, bh, h);
      HeightRatio(sw, sh, w, h, bh);
      w := w * bh / h;
      h := bh;
    }
    if w < 1 { w := 1; }
    if h < 1 { h := 1; }
  }

  lemma Shrink(n: nat, b: nat, d: nat)
    requires n > 0 && 0 < b < d
    ensures 0 <= n * b / d < n
    ensures (n * b / d) * d <= b * n < (n * b / d + 1) * d
  {
    var m, q := n * b, n * b / d;
    QuotientBelow(m, d, q + 1);
    QuotientBelow(m, d, q);
    MulMonotone(b + 1, d, n);
    OneMore(b, n);
    QuotientBelow(m, d, n);
  }

  lemma SameRatio(sw: nat, sh: nat)
    ensures KeepsRatio(sw, sh, sw, sh)
  {
    MulMonotone(sw, sw, sh);
  }

  /** Clipping the width, with a height of at least 1. */
  lemma WidthRatio(sw: nat, sh: nat, bw: nat)
    requires 0 < bw < sw && 0 < sh
    ensures var h := sh * bw / sw;
            KeepsRatio(sw, sh, bw, if h < 1 then 1 else h)
  {
    Shrink(sh, bw, sw);
    OneMore(sh * bw / sw, sw);
  }

  lemma Cancel(a: int, b: int, m: nat)
    requires a * m < b * m
    ensures a < b
  {
    if b <= a {
      MulMonotone(b, a, m);
    }
  }

  /** Clipping the height of a picture of width w and height h, which is the source or
      the source with its width clipped. */
  lemma HeightRatio(sw: nat, sh: nat, w: nat, h: nat, bh: nat)
    requires 0 < w <= sw && 0 < sh && 0 < bh < h
    requires (w == sw && h == sh) || h * sw <= w * sh < (h + 1) * sw
    ensures var w' := w * bh / h;
            KeepsRatio(sw, sh, if w' < 1 then 1 else w', bh)
  {
    var w' := w * bh / h;
    Shrink(w, bh, h);
    MulMonotone(sw, sw, sh);
    OneMore(h, sw);
    LowerRatio(sw, sh, w, h, bh, w');
    UpperRatio(sw, sh, w, h, bh, w');
    OneMore(w', sh);
    OneMore(bh, sw);
  }

  lemma Swap(a: nat, b: nat, c: nat)
    ensures (a * b) * c == (a * c) * b && a * (b * c) == (a * b) * c
  {
  }

  lemma LowerRatio(sw: nat, sh: nat, w: nat, h: nat, bh: nat, w': nat)
    requires 0 < h && 0 < sh && h * sw <= w * sh && bh * w < (w' + 1) * h
    ensures bh * sw < (w' + 1) * sh
  {
    MulMonotone(h * sw, w * sh, bh);
    MulMonotone(bh * w + 1, (w' + 1) * h, sh);
    OneMore(bh * w, sh);
    Swap(bh, h, sw);
    Swap(bh, w, sh);
    Swap(w' + 1, h, sh);
    Cancel(bh * sw, (w' + 1) * sh, h);
  }

  lemma UpperRatio(sw: nat, sh: nat, w: nat, h: nat, bh: nat, w': nat)
    requires 0 < sw && 0 < bh < h && w * sh < (h + 1) * sw && w' * h <= bh * w
    ensures w' * sh <= (bh + 1) * sw
  {
    MulMonotone(w' * h, bh * w, sh);
    Swap(w', h, sh);
    assert (w' * sh) * h <= (bh * w) * sh;
    MulMonotone(w * sh, (h + 1) * sw, bh);
    Swap(bh, w, sh);
    assert (bh * w) * sh <= bh * ((h + 1) * sw);
    UpperStep(sw, h, bh);
    OneMore((bh + 1) * sw, h);
    Cancel(w' * sh, (bh + 1) * sw + 1, h);
  }

  lemma UpperStep(sw: nat, h: nat, bh: nat)
    requires bh < h
    ensures bh * ((h + 1) * sw) <= ((bh + 1) * sw) * h
  {
    Swap(bh, h + 1, sw);
    Swap(bh + 1, sw, h);
    OneMore(h, bh);
    OneMore(bh, h);
    MulMonotone(bh * (h + 1), (bh + 1) * h, sw);
  }
}
