/** Adam7 interlacing (RFC 2083 section 2.6) and its reversal in
    `stbi__create_png_image`. */
module Adam7 {
  import opened Arithmetic
  import opened PngFilter
  import opened PngImage

  // The tables xorig, yorig, xspc and yspc.

  function XOrig(p: nat): nat {
    if p == 1 then 4 else if p == 3 then 2 else if p == 5 then 1 else 0
  }

  function YOrig(p: nat): nat {
    if p == 2 then 4 else if p == 4 then 2 else if p == 6 then 1 else 0
  }

  function XStep(p: nat): (r: nat)
    ensures r >= 1
  {
    if p <= 1 then 8 else if p <= 3 then 4 else if p <= 5 then 2 else 1
  }

  function YStep(p: nat): (r: nat)
    ensures r >= 1
  {
    if p <= 2 then 8 else if p <= 4 then 4 else 2
  }

  /** The pass sizes, computed in uint32 as the source does. */
  function PassWidth(p: nat, w: nat): nat {
    (w - XOrig(p) + XStep(p) - 1) % 0x1_0000_0000 / XStep(p)
  }

  function PassHeight(p: nat, h: nat): nat {
    (h - YOrig(p) + YStep(p) - 1) % 0x1_0000_0000 / YStep(p)
  }

  /** The pass that carries pixel (x, y). */
  function PassOf(x: nat, y: nat): nat {
    if y % 2 == 1 then 6
    else if x % 2 == 1 then 5
    else if y % 4 == 2 then 4
    else if x % 4 == 2 then 3
    else if y % 8 == 4 then 2
    else if x % 8 == 4 then 1
    else 0
  }

  /** Pass p visits pixel (x, y). */
  predicate InPass(p: nat, x: nat, y: nat) {
    p < 7 && x % XStep(p) == XOrig(p) && y % YStep(p) == YOrig(p)
  }

  /** Every pixel belongs to exactly one pass. */
  lemma PassesPartition(x: nat, y: nat, p: nat)
    ensures InPass(p, x, y) <==> p == PassOf(x, y)
  {
    PassIsIn(x, y);
    if p < 7 && p != PassOf(x, y) {
      PassesDisjoint(x, y, p);
    }
  }

  /** The eight by eight pattern of section 2.6, its passes numbered from 1. */
  const PATTERN: seq<seq<nat>> := [
    [1, 6, 4, 6, 2, 6, 4, 6],
    [7, 7, 7, 7, 7, 7, 7, 7],
    [5, 6, 5, 6, 5, 6, 5, 6],
    [7, 7, 7, 7, 7, 7, 7, 7],
    [3, 6, 4, 6, 3, 6, 4, 6],
    [7, 7, 7, 7, 7, 7, 7, 7],
    [5, 6, 5, 6, 5, 6, 5, 6],
    [7, 7, 7, 7, 7, 7, 7, 7]]

  /** The passes repeat that pattern over the whole image. */
  lemma PassesFollowPattern(p: nat, x: nat, y: nat)
    requires p < 7
    ensures InPass(p, x, y) <==> PATTERN[y % 8][x % 8] == p + 1
  {
    PassesPartition(x, y, p);
    Residues(x);
    Residues(y);
  }

  lemma Halves(x: nat)
    ensures x % 4 == x % 2 || x % 4 == x % 2 + 2
  {
    var q, r := x / 4, x % 4;
    assert x == 4 * q + r;
    DivModUnique(x, if r < 2 then 2 * q else 2 * q + 1, if r < 2 then r else r - 2, 2);
  }

  lemma Quarters(x: nat)
    ensures x % 8 == x % 4 || x % 8 == x % 4 + 4
  {
    var q, r := x / 8, x % 8;
    assert x == 8 * q + r;
    DivModUnique(x, if r < 4 then 2 * q else 2 * q + 1, if r < 4 then r else r - 4, 4);
  }

  /** Odd, twice odd, four times odd, or a multiple of eight. */
  lemma Residues(x: nat)
    ensures x % 4 == x % 2 || x % 4 == x % 2 + 2
    ensures x % 8 == x % 4 || x % 8 == x % 4 + 4
    ensures x % 1 == 0 && x % 2 <= 1
  {
    Halves(x);
    Quarters(x);
  }

  lemma PassIsIn(x: nat, y: nat)
    ensures InPass(PassOf(x, y), x, y)
  {
    Residues(x);
    Residues(y);
    var p := PassOf(x, y);
    match p
    case 0 =>
    case 1 =>
    case 2 =>
    case 3 =>
    case 4 =>
    case 5 =>
    case _ =>
  }

  lemma PassesDisjoint(x: nat, y: nat, p: nat)
    requires p < 7 && p != PassOf(x, y)
    ensures !InPass(p, x, y)
  {
    match p
    case 0 =>
    case 1 =>
    case 2 =>
    case 3 =>
    case 4 =>
    case 5 =>
    case 6 =>
  }

  lemma CeilDivision(w: nat, o: nat, s: nat, i: nat)
    requires o < s
    ensures i < (w - o + s - 1) / s <==> i * s + o < w
  {
    var n := w - o + s - 1;
    var q := n / s;
    assert n == s * q + n % s;
    if i < q {
      assert (i + 1) * s <= q * s;
    } else {
      assert q * s <= i * s;
    }
  }

  /** The unsigned size formula never underflows, even where the image is narrower
      than the origin of the pass, and counts exactly the columns inside the image. */
  lemma PassWidthExact(p: nat, w: nat, i: nat)
    requires p < 7 && 1 <= w <= 0xFFFF_FFF8
    ensures i < PassWidth(p, w) <==> i * XStep(p) + XOrig(p) < w
  {
    CeilDivision(w, XOrig(p), XStep(p), i);
  }

  lemma PassHeightExact(p: nat, h: nat, j: nat)
    requires p < 7 && 1 <= h <= 0xFFFF_FFF8
    ensures j < PassHeight(p, h) <==> j * YStep(p) + YOrig(p) < h
  {
    CeilDivision(h, YOrig(p), YStep(p), j);
  }

  /** Position of pixel (x, y) inside its pass. */
  function Column(x: nat, y: nat): nat {
    x / XStep(PassOf(x, y))
  }

  function Line(x: nat, y: nat): nat {
    y / YStep(PassOf(x, y))
  }

  /** Scattering and gathering are inverse: position (i, j) of pass p is written to
      one pixel, which lies in that pass at that position, and back. */
  lemma ScatterExact(p: nat, i: nat, j: nat, x: nat, y: nat)
    requires p < 7
    ensures x == i * XStep(p) + XOrig(p) && y == j * YStep(p) + YOrig(p) <==>
            p == PassOf(x, y) && i == Column(x, y) && j == Line(x, y)
  {
    PassesPartition(x, y, p);
    StepDivision(x, i, XStep(p), XOrig(p));
    StepDivision(y, j, YStep(p), YOrig(p));
  }

  lemma StepDivision(x: nat, i: nat, s: nat, o: nat)
    requires s >= 1 && o < s
    ensures x == i * s + o <==> x / s == i && x % s == o
  {
    if x == i * s + o {
      DivModUnique(x, i, o, s);
    }
    assert x == s * (x / s) + x % s;
  }

  // ---- Pixels of the output -----------------------------------------------------------

  /** Pixel q of an image of n-channel pixels has the channels px. */
  ghost predicate PixelAt(out: seq<nat>, n: nat, q: nat, px: seq<nat>) {
    |px| == n && forall c | 0 <= c < n :: Place(0, n, q, c) < |out| && out[Place(0, n, q, c)] == px[c]
  }

  /** The channels of pixel i of a row. */
  ghost function Pixel(f: Format, row: seq<byte>, i: nat): (px: seq<nat>)
    requires ValidFormat(f) && RowBytes(f, i + 1) <= |row|
    ensures |px| == f.outN
  {
    seq(f.outN, c requires 0 <= c < f.outN => Channel(f, row, i, c))
  }

  lemma PlaceOfRow(n: nat, x: nat, j: nat, i: nat, c: nat)
    ensures Place(j * (n * x), n, i, c) == Place(0, n, j * x + i, c)
  {
    assert j * (n * x) == j * x * n;
    assert (j * x + i) * n == j * x * n + i * n;
  }

  lemma RowPixel(out: seq<nat>, f: Format, rows: seq<seq<byte>>, x: nat, j: nat, i: nat)
    requires RowsAre(out, f, rows, x) && j < |rows| && i < x
    ensures ValidFormat(f) && RowBytes(f, i + 1) <= |rows[j]|
    ensures PixelAt(out, f.outN, j * x + i, Pixel(f, rows[j], i))
  {
    hide Channel, Place, RowBytes;
    var base := j * (f.outN * x);
    assert PixelsAre(out, base, f, rows[j], x);
    assert PixelIs(out, base, f, rows[j], i, 0);
    var px, q := Pixel(f, rows[j], i), j * x + i;
    forall c | 0 <= c < f.outN
      ensures Place(0, f.outN, q, c) < |out| && out[Place(0, f.outN, q, c)] == px[c]
    {
      assert PixelIs(out, base, f, rows[j], i, c);
      PlaceOfRow(f.outN, x, j, i, c);
    }
    assert PixelAt(out, f.outN, q, px);
  }

  lemma PlacesApart(n: nat, q: nat, q': nat, c: nat)
    requires q != q' && c < n
    ensures !(q' * n <= Place(0, n, q, c) < q' * n + n)
  {
    if q < q' {
      assert (q + 1) * n <= q' * n;
    } else {
      assert (q' + 1) * n <= q * n;
    }
  }

  lemma PixelKept(out: seq<nat>, out': seq<nat>, n: nat, q: nat, q': nat, px: seq<nat>)
    requires |out| == |out'| && q' * n + n <= |out| && Wrote(out', out, q' * n, n)
    requires q != q' && PixelAt(out, n, q, px)
    ensures PixelAt(out', n, q, px)
  {
    hide Place;
    forall c | 0 <= c < n
      ensures Place(0, n, q, c) < |out'| && out'[Place(0, n, q, c)] == px[c]
    {
      PlacesApart(n, q, q', c);
    }
  }

  lemma PixelBound(w: nat, h: nat, x: nat, y: nat, n: nat)
    requires x < w && y < h
    ensures y * w + x < w * h
    ensures (y * w + x) * n + n <= n * (w * h)
  {
    IndexBound(w, h, x, y);
    OneMore(y * w + x, n);
    MulMonotone(y * w + x + 1, w * h, n);
  }

  /** The copy of one pixel. */
  method CopyPixel(out: array<nat>, n: nat, q: nat, src: seq<nat>, q': nat, ghost px: seq<nat>)
    requires q * n + n <= out.Length && PixelAt(src, n, q', px)
    modifies out
    ensures PixelAt(out[..], n, q, px)
    ensures Wrote(out[..], old(out[..]), q * n, n)
  {
    var c := 0;
    while c < n
      invariant 0 <= c <= n
      invariant forall k | 0 <= k < c :: out[q * n + k] == px[k]
      invariant Wrote(out[..], old(out[..]), q * n, n)
    {
      assert src[Place(0, n, q', c)] == px[c];
      out[q * n + c] := src[q' * n + c];
      c := c + 1;
    }
  }

  // ---- De-interlacing ------------------------------------------------------------------

  /** Pixel (x, y) shows what its pass has at its position. */
  ghost predicate Shown(out: seq<nat>, f: Format, w: nat, passes: seq<seq<seq<byte>>>, x: nat, y: nat) {
    ShownAs(out, f, Index(w, x, y), passes, PassOf(x, y), Column(x, y), Line(x, y))
  }

  /** Pixel q shows position (i, j) of pass p. */
  ghost predicate ShownAs(out: seq<nat>, f: Format, q: nat, passes: seq<seq<seq<byte>>>, p: nat, i: nat, j: nat) {
    && ValidFormat(f) && p < |passes| && j < |passes[p]| && RowBytes(f, i + 1) <= |passes[p][j]|
    && PixelAt(out, f.outN, q, Pixel(f, passes[p][j], i))
  }

  /** Pixel (x, y) is copied before position (i, j) of pass p. */
  predicate Before(p: nat, j: nat, i: nat, x: nat, y: nat) {
    || PassOf(x, y) < p
    || (PassOf(x, y) == p && (Line(x, y) < j || (Line(x, y) == j && Column(x, y) < i)))
  }

  ghost predicate AllShown(out: seq<nat>, f: Format, w: nat, h: nat, passes: seq<seq<seq<byte>>>,
                           p: nat, j: nat, i: nat) {
    forall x, y | 0 <= x < w && 0 <= y < h && Before(p, j, i, x, y) :: Shown(out, f, w, passes, x, y)
  }

  lemma ShownStep(out: seq<nat>, out': seq<nat>, f: Format, w: nat, h: nat, passes: seq<seq<seq<byte>>>,
                  p: nat, j: nat, i: nat, ox: nat, oy: nat)
    requires p < 7 && p < |passes| && ValidFormat(f) && ox < w && oy < h
    requires ox == i * XStep(p) + XOrig(p) && oy == j * YStep(p) + YOrig(p)
    requires |out| == |out'| && (oy * w + ox) * f.outN + f.outN <= |out|
    requires AllShown(out, f, w, h, passes, p, j, i)
    requires Wrote(out', out, (oy * w + ox) * f.outN, f.outN)
    requires j < |passes[p]| && RowBytes(f, i + 1) <= |passes[p][j]|
    requires PixelAt(out', f.outN, oy * w + ox, Pixel(f, passes[p][j], i))
    ensures AllShown(out', f, w, h, passes, p, j, i + 1)
  {
    hide PixelAt, Pixel, Wrote, PassOf, Column, Line, XStep, YStep, RowBytes;
    forall x, y | 0 <= x < w && 0 <= y < h && Before(p, j, i + 1, x, y)
      ensures Shown(out', f, w, passes, x, y)
    {
      ScatterExact(p, i, j, x, y);
      ScatterExact(p, i, j, ox, oy);
      if x != ox || y != oy {
        assert Shown(out, f, w, passes, x, y);
        if y * w + x == oy * w + ox {
          IndexInjective(w, x, y, ox, oy);
        }
        PixelKept(out, out', f.outN, y * w + x, oy * w + ox, Pixel(f, passes[PassOf(x, y)][Line(x, y)], Column(x, y)));
      }
    }
  }

  /** Column and Line stay inside the pass. */
  lemma InsidePass(w: nat, h: nat, x: nat, y: nat)
    requires x < w <= 0xFFFF_FFF8 && y < h <= 0xFFFF_FFF8
    ensures PassOf(x, y) < 7
    ensures Column(x, y) < PassWidth(PassOf(x, y), w) && Line(x, y) < PassHeight(PassOf(x, y), h)
  {
    hide PassWidth, PassHeight, XStep, YStep, XOrig, YOrig, Column, Line;
    var p := PassOf(x, y);
    ScatterExact(p, Column(x, y), Line(x, y), x, y);
    PassWidthExact(p, w, Column(x, y));
    PassHeightExact(p, h, Line(x, y));
  }

  lemma RowShown(out: seq<nat>, f: Format, w: nat, h: nat, passes: seq<seq<seq<byte>>>, p: nat, j: nat)
    requires w <= 0xFFFF_FFF8 && h <= 0xFFFF_FFF8
    requires AllShown(out, f, w, h, passes, p, j, PassWidth(p, w))
    ensures AllShown(out, f, w, h, passes, p, j + 1, 0)
  {
    hide Shown, PassOf, Line, Column, PassWidth, PassHeight;
    forall x, y | 0 <= x < w && 0 <= y < h && Before(p, j + 1, 0, x, y)
      ensures Shown(out, f, w, passes, x, y)
    {
      InsidePass(w, h, x, y);
    }
  }

  lemma PassShown(out: seq<nat>, f: Format, w: nat, h: nat, passes: seq<seq<seq<byte>>>, p: nat, j: nat)
    requires w <= 0xFFFF_FFF8 && h <= 0xFFFF_FFF8
    requires PassWidth(p, w) == 0 || j >= PassHeight(p, h)
    requires AllShown(out, f, w, h, passes, p, j, 0)
    ensures AllShown(out, f, w, h, passes, p + 1, 0, 0)
  {
    hide Shown, PassOf, Line, Column, PassWidth, PassHeight;
    forall x, y | 0 <= x < w && 0 <= y < h && Before(p + 1, 0, 0, x, y)
      ensures Shown(out, f, w, passes, x, y)
    {
      InsidePass(w, h, x, y);
    }
  }

  lemma PassAdded(out: seq<nat>, f: Format, w: nat, h: nat, passes: seq<seq<seq<byte>>>, rows: seq<seq<byte>>)
    requires AllShown(out, f, w, h, passes, |passes|, 0, 0)
    ensures AllShown(out, f, w, h, passes + [rows], |passes|, 0, 0)
  {
    hide PixelAt, Pixel, PassOf, Line, Column, RowBytes;
    forall x, y | 0 <= x < w && 0 <= y < h && Before(|passes|, 0, 0, x, y)
      ensures Shown(out, f, w, passes + [rows], x, y)
    {
      assert Shown(out, f, w, passes, x, y);
    }
  }

  /** Copy one row of a pass to its places in the image. */
  method ScatterRow(out: array<nat>, src: seq<nat>, f: Format, w: nat, h: nat, p: nat, j: nat,
                    ghost passes: seq<seq<seq<byte>>>)
    requires ValidFormat(f) && p < 7 && |passes| == p + 1 && 1 <= w <= 0xFFFF_FFF8 && 1 <= h <= 0xFFFF_FFF8
    requires out.Length == f.outN * (w * h) && j < PassHeight(p, h) == |passes[p]|
    requires RowsAre(src, f, passes[p], PassWidth(p, w))
    requires AllShown(out[..], f, w, h, passes, p, j, 0)
    modifies out
    ensures AllShown(out[..], f, w, h, passes, p, j + 1, 0)
  {
    hide AllShown, RowsAre, PassWidth, PassHeight, XStep, YStep, XOrig, YOrig, RowBytes, PixelAt, Pixel, Wrote;
    var pw := PassWidth(p, w);
    var i := 0;
    while i < pw
      invariant 0 <= i <= pw
      invariant AllShown(out[..], f, w, h, passes, p, j, i)
    {
      PassWidthExact(p, w, i);
      PassHeightExact(p, h, j);
      var ox, oy := i * XStep(p) + XOrig(p), j * YStep(p) + YOrig(p);
      PixelBound(w, h, ox, oy, f.outN);
      RowPixel(src, f, passes[p], pw, j, i);
      ghost var was := out[..];
      CopyPixel(out, f.outN, oy * w + ox, src, j * pw + i, Pixel(f, passes[p][j], i));
      ShownStep(was, out[..], f, w, h, passes, p, j, i, ox, oy);
      i := i + 1;
    }
    RowShown(out[..], f, w, h, passes, p, j);
  }

  /** Copy one decoded pass to its places in the image. */
  method ScatterPass(out: array<nat>, src: seq<nat>, f: Format, w: nat, h: nat, p: nat,
                     ghost passes: seq<seq<seq<byte>>>)
    requires ValidFormat(f) && p < 7 && |passes| == p + 1 && 1 <= w <= 0xFFFF_FFF8 && 1 <= h <= 0xFFFF_FFF8
    requires out.Length == f.outN * (w * h) && PassHeight(p, h) == |passes[p]|
    requires RowsAre(src, f, passes[p], PassWidth(p, w))
    requires AllShown(out[..], f, w, h, passes, p, 0, 0)
    modifies out
    ensures AllShown(out[..], f, w, h, passes, p + 1, 0, 0)
  {
    hide AllShown, RowsAre, PassWidth, PassHeight;
    var j := 0;
    while j < PassHeight(p, h)
      invariant 0 <= j <= PassHeight(p, h)
      invariant AllShown(out[..], f, w, h, passes, p, j, 0)
    {
      ScatterRow(out, src, f, w, h, p, j, passes);
      j := j + 1;
    }
    PassShown(out[..], f, w, h, passes, p, j);
  }

  // ---- Whole images -------------------------------------------------------------------

  predicate EmptyPass(w: nat, h: nat, p: nat) {
    PassWidth(p, w) == 0 || PassHeight(p, h) == 0
  }

  /** Bytes of pass p in the raw data. */
  function PassBytes(f: Format, w: nat, h: nat, p: nat): nat {
    if EmptyPass(w, h, p) then 0 else RowAt(RowBytes(f, PassWidth(p, w)), PassHeight(p, h))
  }

  /** Where pass p starts in the raw data. */
  function PassAt(f: Format, w: nat, h: nat, p: nat): nat {
    if p == 0 then 0 else PassAt(f, w, h, p - 1) + PassBytes(f, w, h, p - 1)
  }

  ghost predicate PassKnown(raw: seq<byte>, f: Format, w: nat, h: nat, p: nat) {
    EmptyPass(w, h, p) ||
    (&& PassAt(f, w, h, p) <= |raw|
     && FiltersKnown(raw[PassAt(f, w, h, p)..], RowBytes(f, PassWidth(p, w)), PassHeight(p, h)))
  }

  ghost predicate PassDecoded(raw: seq<byte>, f: Format, w: nat, h: nat, p: nat, rows: seq<seq<byte>>) {
    EmptyPass(w, h, p) ||
    (&& PassAt(f, w, h, p) <= |raw| && |rows| == PassHeight(p, h)
     && Decoded(raw[PassAt(f, w, h, p)..], RowBytes(f, PassWidth(p, w)), FilterBytes(f), rows))
  }

  /** The interlaced branch of `stbi__create_png_image`: it succeeds exactly when
      every non-empty pass decodes, and every pixel of the image is then written
      from its own position of its own pass. */
  method Deinterlace(raw: seq<byte>, f: Format, w: nat, h: nat)
    returns (ok: bool, out: array<nat>, ghost passes: seq<seq<seq<byte>>>)
    requires ValidFormat(f) && 1 <= w <= 0xFFFF_FFF8 && 1 <= h <= 0xFFFF_FFF8
    ensures fresh(out) && out.Length == f.outN * (w * h)
    ensures ok <==> forall p | 0 <= p < 7 :: PassKnown(raw, f, w, h, p)
    ensures ok ==>
              && |passes| == 7 && (forall p | 0 <= p < 7 :: PassDecoded(raw, f, w, h, p, passes[p]))
              && forall x, y | 0 <= x < w && 0 <= y < h :: Shown(out[..], f, w, passes, x, y)
  {
    hide AllShown, Shown, PassWidth, PassHeight, FiltersKnown, Decoded, RowsAre, RowBytes, FilterBytes, RowAt;
    out := new nat[f.outN * (w * h)](_ => 0);
    passes := [];
    var pos, p := 0, 0;
    NoneShown(out[..], f, w, h);
    while p < 7
      invariant 0 <= p == |passes| <= 7 && pos == PassAt(f, w, h, p) <= |raw|
      invariant forall k | 0 <= k < p :: PassKnown(raw, f, w, h, k) && PassDecoded(raw, f, w, h, k, passes[k])
      invariant AllShown(out[..], f, w, h, passes, p, 0, 0)
    {
      var pw, ph := PassWidth(p, w), PassHeight(p, h);
      ghost var rows := [];
      if pw != 0 && ph != 0 {
        var good, src;
        good, src, rows := CreateImageRaw(raw[pos..], f, pw, ph);
        if !good {
          assert !PassKnown(raw, f, w, h, p);
          return false, out, passes;
        }
        KnownLength(raw[pos..], RowBytes(f, pw), ph);
        PassAdded(out[..], f, w, h, passes, rows);
        ScatterPass(out, src[..], f, w, h, p, passes + [rows]);
        pos := pos + RowAt(RowBytes(f, pw), ph);
      } else {
        PassAdded(out[..], f, w, h, passes, rows);
        PassShown(out[..], f, w, h, passes + [rows], p, 0);
      }
      passes := passes + [rows];
      p := p + 1;
    }
    AllPassesShown(out[..], f, w, h, passes);
    ok := true;
  }

  lemma NoneShown(out: seq<nat>, f: Format, w: nat, h: nat)
    ensures AllShown(out, f, w, h, [], 0, 0, 0)
  {
  }

  lemma KnownLength(raw: seq<byte>, w: nat, y: nat)
    requires FiltersKnown(raw, w, y)
    ensures RowAt(w, y) <= |raw|
  {
  }

  lemma AllPassesShown(out: seq<nat>, f: Format, w: nat, h: nat, passes: seq<seq<seq<byte>>>)
    requires AllShown(out, f, w, h, passes, 7, 0, 0)
    ensures forall x, y | 0 <= x < w && 0 <= y < h :: Shown(out, f, w, passes, x, y)
  {
    hide Shown;
  }

  /** An image: a value for each channel of each pixel. */
  type Image = (nat, nat, nat) -> nat

  /** Pixel i of a row has the channels of pixel (x, y) of the image. */
  ghost predicate Shows(f: Format, row: seq<byte>, i: nat, img: Image, x: nat, y: nat) {
    && ValidFormat(f) && RowBytes(f, i + 1) <= |row|
    && forall c | 0 <= c < f.outN :: Channel(f, row, i, c) == img(x, y, c)
  }

  /** Pixel i of row j is pixel (i * xs + xo, j * ys + yo) of the image. */
  ghost predicate Sampled(f: Format, rows: seq<seq<byte>>, img: Image,
                          xo: nat, xs: nat, yo: nat, ys: nat, i: nat, j: nat)
    requires j < |rows|
  {
    Shows(f, rows[j], i, img, i * xs + xo, j * ys + yo)
  }

  /** The rows, filtered with any types, stand at the start of the raw data and
      hold every xs-th pixel of every ys-th line of the image from (xo, yo). */
  ghost predicate Carries(raw: seq<byte>, f: Format, pw: nat, ph: nat, rows: seq<seq<byte>>, img: Image,
                          xo: nat, xs: nat, yo: nat, ys: nat) {
    && |rows| == ph && RowAt(RowBytes(f, pw), ph) <= |raw| && Encoded(raw, RowBytes(f, pw), FilterBytes(f), rows)
    && forall i, j | 0 <= i < pw && 0 <= j < ph :: Sampled(f, rows, img, xo, xs, yo, ys, i, j)
  }

  ghost predicate PassCarries(raw: seq<byte>, f: Format, w: nat, h: nat, p: nat, rows: seq<seq<byte>>, img: Image) {
    EmptyPass(w, h, p) ||
    (&& PassAt(f, w, h, p) <= |raw|
     && Carries(raw[PassAt(f, w, h, p)..], f, PassWidth(p, w), PassHeight(p, h), rows, img,
                XOrig(p), XStep(p), YOrig(p), YStep(p)))
  }

  /** The raw data carries the image, plain or in seven passes. */
  ghost predicate ImageEncoded(raw: seq<byte>, f: Format, w: nat, h: nat, interlaced: bool,
                               want: seq<seq<seq<byte>>>, img: Image) {
    |want| == 7 &&
    if interlaced then forall p | 0 <= p < 7 :: PassCarries(raw, f, w, h, p, want[p], img)
    else Carries(raw, f, w, h, want[0], img, 0, 1, 0, 1)
  }

  /** Channel c of pixel (x, y) of the output is that of the image. */
  ghost predicate ChannelShown(out: seq<nat>, n: nat, w: nat, img: Image, x: nat, y: nat, c: nat) {
    Place(0, n, y * w + x, c) < |out| && out[Place(0, n, y * w + x, c)] == img(x, y, c)
  }

  /** The output is the image. */
  ghost predicate ImageShown(out: seq<nat>, n: nat, w: nat, h: nat, img: Image) {
    forall x, y, c | 0 <= x < w && 0 <= y < h && 0 <= c < n :: ChannelShown(out, n, w, img, x, y, c)
  }

  lemma CarriedKnown(raw: seq<byte>, f: Format, pw: nat, ph: nat, rows: seq<seq<byte>>, img: Image,
                     xo: nat, xs: nat, yo: nat, ys: nat)
    requires Carries(raw, f, pw, ph, rows, img, xo, xs, yo, ys)
    ensures FiltersKnown(raw, RowBytes(f, pw), ph)
  {
    hide Shows, IsFiltered, RowBytes;
    var w := RowBytes(f, pw);
    forall j | 0 <= j < ph
      ensures (RowBounds(w, j, ph); raw[RowAt(w, j)] <= 4)
    {
      assert RowEncoded(raw, w, FilterBytes(f), rows, j);
    }
  }

  lemma CarriedRows(raw: seq<byte>, f: Format, pw: nat, ph: nat, rows: seq<seq<byte>>, img: Image,
                    xo: nat, xs: nat, yo: nat, ys: nat, got: seq<seq<byte>>)
    requires Carries(raw, f, pw, ph, rows, img, xo, xs, yo, ys)
    requires |got| == ph && Decoded(raw, RowBytes(f, pw), FilterBytes(f), got)
    ensures got == rows
  {
    hide Shows, Encoded, Decoded, RowBytes, FilterBytes, RowAt;
    EncodedIsDecoded(raw, RowBytes(f, pw), FilterBytes(f), rows);
    DecodedUnique(raw, RowBytes(f, pw), FilterBytes(f), got, rows, ph);
    assert got[..ph] == got && rows[..ph] == rows;
  }

  lemma PixelOfImage(out: seq<nat>, f: Format, q: nat, row: seq<byte>, i: nat, img: Image, x: nat, y: nat, c: nat)
    requires Shows(f, row, i, img, x, y) && PixelAt(out, f.outN, q, Pixel(f, row, i)) && c < f.outN
    ensures Place(0, f.outN, q, c) < |out| && out[Place(0, f.outN, q, c)] == img(x, y, c)
  {
    hide Channel, Place, RowBytes;
  }

  lemma PlainImage(out: seq<nat>, raw: seq<byte>, f: Format, w: nat, h: nat, rows: seq<seq<byte>>, img: Image)
    requires Carries(raw, f, w, h, rows, img, 0, 1, 0, 1) && RowsAre(out, f, rows, w)
    ensures ImageShown(out, f.outN, w, h, img)
  {
    hide Shows, RowsAre, Encoded, Place, RowBytes, PixelAt, Pixel, RowAt;
    forall x, y, c | 0 <= x < w && 0 <= y < h && 0 <= c < f.outN
      ensures ChannelShown(out, f.outN, w, img, x, y, c)
    {
      assert Sampled(f, rows, img, 0, 1, 0, 1, x, y);
      RowPixel(out, f, rows, w, y, x);
      PixelOfImage(out, f, y * w + x, rows[y], x, img, x, y, c);
    }
  }

  lemma PassedPixel(out: seq<nat>, raw: seq<byte>, f: Format, w: nat, h: nat, passes: seq<seq<seq<byte>>>,
                    want: seq<seq<seq<byte>>>, img: Image, x: nat, y: nat, c: nat)
    requires |passes| == 7 && |want| == 7 && x < w <= 0xFFFF_FFF8 && y < h <= 0xFFFF_FFF8 && c < f.outN
    requires forall p | 0 <= p < 7 :: PassCarries(raw, f, w, h, p, want[p], img)
    requires forall p | 0 <= p < 7 :: PassDecoded(raw, f, w, h, p, passes[p])
    requires Shown(out, f, w, passes, x, y)
    ensures ChannelShown(out, f.outN, w, img, x, y, c)
  {
    hide Shows, Decoded, Encoded, PassOf, Column, Line, PassWidth, PassHeight, RowBytes, FilterBytes,
      PixelAt, Pixel, PassAt, Place, RowAt, XStep, YStep, XOrig, YOrig;
    var p, i, j := PassOf(x, y), Column(x, y), Line(x, y);
    InsidePass(w, h, x, y);
    ScatterExact(p, i, j, x, y);
    var part, pw, ph := raw[PassAt(f, w, h, p)..], PassWidth(p, w), PassHeight(p, h);
    CarriedRows(part, f, pw, ph, want[p], img, XOrig(p), XStep(p), YOrig(p), YStep(p), passes[p]);
    assert Sampled(f, want[p], img, XOrig(p), XStep(p), YOrig(p), YStep(p), i, j);
    PixelOfImage(out, f, y * w + x, want[p][j], i, img, x, y, c);
  }

  /** `stbi__create_png_image`: for every image, every choice of filters and both
      ways of storing it, the output is the image. */
  method CreateImage(raw: seq<byte>, f: Format, w: nat, h: nat, interlaced: bool,
                     ghost want: seq<seq<seq<byte>>>, ghost img: Image)
    returns (ok: bool, out: array<nat>)
    requires ValidFormat(f) && 1 <= w <= 0xFFFF_FFF8 && 1 <= h <= 0xFFFF_FFF8
    ensures ImageEncoded(raw, f, w, h, interlaced, want, img) ==> ok && ImageShown(out[..], f.outN, w, h, img)
    ensures ok <==> if interlaced then forall p | 0 <= p < 7 :: PassKnown(raw, f, w, h, p)
                    else FiltersKnown(raw, RowBytes(f, w), h)
  {
    hide Carries, Decoded, RowsAre, FiltersKnown, PassAt, Shown, PassWidth, PassHeight, Place, RowBytes,
      FilterBytes, RowAt, ChannelShown;
    if !interlaced {
      ghost var rows;
      ok, out, rows := CreateImageRaw(raw, f, w, h);
      if ImageEncoded(raw, f, w, h, interlaced, want, img) {
        CarriedKnown(raw, f, w, h, want[0], img, 0, 1, 0, 1);
        CarriedRows(raw, f, w, h, want[0], img, 0, 1, 0, 1, rows);
        PlainImage(out[..], raw, f, w, h, want[0], img);
      }
    } else {
      ghost var passes;
      ok, out, passes := Deinterlace(raw, f, w, h);
      if ImageEncoded(raw, f, w, h, interlaced, want, img) {
        forall p | 0 <= p < 7
          ensures PassKnown(raw, f, w, h, p)
        {
          assert PassCarries(raw, f, w, h, p, want[p], img);
          if !EmptyPass(w, h, p) {
            CarriedKnown(raw[PassAt(f, w, h, p)..], f, PassWidth(p, w), PassHeight(p, h), want[p], img,
                         XOrig(p), XStep(p), YOrig(p), YStep(p));
          }
        }
        forall x, y, c | 0 <= x < w && 0 <= y < h && 0 <= c < f.outN
          ensures ChannelShown(out[..], f.outN, w, img, x, y, c)
        {
          PassedPixel(out[..], raw, f, w, h, passes, want, img, x, y, c);
        }
      }
    }
  }
}
