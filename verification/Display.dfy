/** Display buffers and viewports (kernel/display.c), and the incremental
    presentation that the compositor builds from them (kernel/gfx/compositor.c). */
module Display {
  import opened Arithmetic
  import opened Rects
  import opened DirtyRegions

  type Color = nat

  /** A run of n pixels from column x0 of row y0 stays inside the buffer. */
  lemma RunBound(stride: nat, height: nat, x0: nat, y0: nat, n: nat)
    requires x0 + n <= stride && y0 < height
    ensures Index(stride, x0, y0) + n <= stride * height
  {
    OneMore(y0, stride);
    MulMonotone(y0 + 1, height, stride);
  }

  /** A run of n pixels from column x0 of row y0 meets a cell exactly in its row. */
  lemma RunMeetsCell(stride: nat, x0: nat, y0: nat, n: nat, x: nat, y: nat)
    requires x < stride && x0 + n <= stride
    ensures Index(stride, x0, y0) <= Index(stride, x, y) < Index(stride, x0, y0) + n <==> y == y0 && x0 <= x < x0 + n
    ensures y == y0 ==> Index(stride, x, y) - Index(stride, x0, y0) == x - x0
  {
    if y < y0 {
      OneMore(y, stride);
      MulMonotone(y + 1, y0, stride);
    } else if y > y0 {
      OneMore(y0, stride);
      MulMonotone(y0 + 1, y, stride);
    }
  }

  method FillRange(a: array<Color>, start: nat, n: nat, color: Color)
    requires start + n <= a.Length
    modifies a
    ensures forall i | 0 <= i < a.Length :: a[i] == if start <= i < start + n then color else old(a[i])
  {
    var k := 0;
    while k < n
      invariant 0 <= k <= n
      invariant forall i | 0 <= i < a.Length :: a[i] == if start <= i < start + k then color else old(a[i])
    {
      a[start + k] := color;
      k := k + 1;
    }
  }

  /** `memcpy` of n pixels. */
  method CopyRange(a: array<Color>, d: nat, b: array<Color>, s: nat, n: nat)
    requires a != b && d + n <= a.Length && s + n <= b.Length
    modifies a
    ensures forall i | 0 <= i < a.Length :: a[i] == if d <= i < d + n then b[s + i - d] else old(a[i])
  {
    var k := 0;
    while k < n
      invariant 0 <= k <= n
      invariant forall i | 0 <= i < a.Length :: a[i] == if d <= i < d + k then b[s + i - d] else old(a[i])
    {
      a[d + k] := b[s + k];
      k := k + 1;
    }
  }

  class DisplayBuffer {
    const width: nat
    const height: nat
    const stride: nat
    const pixels: array<Color>
    const dirty: DirtyRegionList?

    /** Sizes that keep coordinates in int32 and pixel indices in uint32. */
    ghost predicate Valid() {
      && 0 < width <= stride && 0 < height
      && width < 0x8000_0000 && height < 0x8000_0000
      && pixels.Length == stride * height && stride * height <= 0x1_0000_0000
    }

    /** Cell (x, y), where x may lie in the padding behind a row. */
    ghost function Cell(x: int, y: int): Color
      requires Valid() && 0 <= x < stride && 0 <= y < height
      reads pixels
    {
      IndexBound(stride, height, x, y);
      pixels[Index(stride, x, y)]
    }

    ghost function Bounds(): Frame {
      Frame(0, 0, width, height)
    }

    ghost predicate InBounds(x: int, y: int) {
      0 <= x < width && 0 <= y < height
    }

    constructor (w: nat, h: nat, s: nat, px: array<Color>, list: DirtyRegionList?)
      ensures width == w && height == h && stride == s && pixels == px && dirty == list
    {
      width, height, stride, pixels, dirty := w, h, s, px, list;
    }

    /** `display_buffer_write_pixel`. */
    method WritePixel(x: int, y: int, color: Color)
      requires Valid() && (dirty != null ==> dirty.Valid())
      modifies pixels, dirty, if dirty == null then {} else {dirty.regions}
      ensures forall cx, cy | 0 <= cx < stride && 0 <= cy < height ::
                Cell(cx, cy) == if InBounds(x, y) && cx == x && cy == y then color else old(Cell(cx, cy))
      ensures dirty != null ==>
                && dirty.Valid()
                && (if InBounds(x, y) then Marked(old(dirty.List()), Rect(x, y, 1, 1), dirty.List())
                    else dirty.List() == old(dirty.List()))
    {
      hide Marked;
      if x < 0 || y < 0 || x >= width || y >= height {
        return;
      }
      PutRun(x, y, 1, color);
      if dirty != null {
        dirty.Mark(Rect(x, y, 1, 1));
      }
    }

    /** Set n pixels of row y from column x. */
    method PutRun(x: nat, y: nat, n: nat, color: Color)
      requires Valid() && y < height && x + n <= width
      modifies pixels
      ensures forall cx, cy | 0 <= cx < stride && 0 <= cy < height ::
                Cell(cx, cy) == if cy == y && x <= cx < x + n then color else old(Cell(cx, cy))
    {
      hide Index;
      RunBound(stride, height, x, y, n);
      FillRange(pixels, Index(stride, x, y), n, color);
      forall cx, cy | 0 <= cx < stride && 0 <= cy < height
        ensures Cell(cx, cy) == if cy == y && x <= cx < x + n then color else old(Cell(cx, cy))
      {
        IndexBound(stride, height, cx, cy);
        RunMeetsCell(stride, x, y, n, cx, cy);
      }
    }

    /** `rect_clip_to_buffer`. */
    function Clipped(area: Rect): Rect {
      var x0, y0 := Max(area.x, 0), Max(area.y, 0);
      Rect(x0, y0, Min(area.Right(), width) - x0, Min(area.Bottom(), height) - y0)
    }

    predicate ClipsToNothing(area: Rect) {
      Min(area.Right(), width) <= Max(area.x, 0) || Min(area.Bottom(), height) <= Max(area.y, 0)
    }

    /** `display_buffer_fill_rect`. */
    method FillRect(area: Rect, color: Color)
      requires Valid() && area.InRange() && (dirty != null ==> dirty.Valid())
      modifies pixels, dirty, if dirty == null then {} else {dirty.regions}
      ensures forall cx, cy | 0 <= cx < stride && 0 <= cy < height ::
                Cell(cx, cy) == if cx < width && area.Covers(cx, cy) then color else old(Cell(cx, cy))
      ensures dirty != null ==>
                && dirty.Valid()
                && (if ClipsToNothing(area) then dirty.List() == old(dirty.List())
                    else Marked(old(dirty.List()), Clipped(area), dirty.List()))
    {
      hide Marked;
      if ClipsToNothing(area) {
        return;
      }
      var a := Clipped(area);
      FillClipped(a, color);
      if dirty != null {
        dirty.Mark(a);
      }
    }

    method FillClipped(a: Rect, color: Color)
      requires Valid() && 0 <= a.x && 0 <= a.y && 0 <= a.width && 0 <= a.height
      requires a.Right() <= width && a.Bottom() <= height
      modifies pixels
      ensures forall cx, cy | 0 <= cx < stride && 0 <= cy < height ::
                Cell(cx, cy) == if a.Covers(cx, cy) then color else old(Cell(cx, cy))
    {
      var row := 0;
      while row < a.height
        invariant 0 <= row <= a.height
        invariant forall cx, cy | 0 <= cx < stride && 0 <= cy < height ::
                    Cell(cx, cy) == if a.Covers(cx, cy) && cy < a.y + row then color else old(Cell(cx, cy))
      {
        PutRun(a.x, a.y + row, a.width, color);
        row := row + 1;
      }
    }
  }

  // ---- Viewports ------------------------------------------------------------------

  /** Target pixel (cx, cy) shows a source pixel: the per-pixel definition of a
      scrolled window at `bounds`. */
  ghost predicate Shown(bounds: Rect, sx: int, sy: int, src: DisplayBuffer, target: DisplayBuffer, cx: int, cy: int) {
    && target.InBounds(cx, cy) && bounds.Covers(cx, cy)
    && src.InBounds(cx - bounds.x + sx, cy - bounds.y + sy)
  }

  /** The row `memcpy` of `viewport_render`. */
  method CopyRun(target: DisplayBuffer, tx: nat, ty: nat, src: DisplayBuffer, sx: nat, sy: nat, n: nat)
    requires target.Valid() && src.Valid() && target.pixels != src.pixels
    requires ty < target.height && tx + n <= target.width
    requires sy < src.height && sx + n <= src.width
    modifies target.pixels
    ensures forall cx, cy | 0 <= cx < target.stride && 0 <= cy < target.height ::
              target.Cell(cx, cy) ==
              if cy == ty && tx <= cx < tx + n then src.Cell(cx - tx + sx, sy) else old(target.Cell(cx, cy))
  {
    hide Index;
    RunBound(target.stride, target.height, tx, ty, n);
    RunBound(src.stride, src.height, sx, sy, n);
    var to, from := Index(target.stride, tx, ty), Index(src.stride, sx, sy);
    CopyRange(target.pixels, to, src.pixels, from, n);
    forall cx, cy | 0 <= cx < target.stride && 0 <= cy < target.height
      ensures target.Cell(cx, cy) ==
              if cy == ty && tx <= cx < tx + n then src.Cell(cx - tx + sx, sy) else old(target.Cell(cx, cy))
    {
      IndexBound(target.stride, target.height, cx, cy);
      RunMeetsCell(target.stride, tx, ty, n, cx, cy);
      if cy == ty && tx <= cx < tx + n {
        RunMeetsCell(src.stride, sx, sy, n, cx - tx + sx, sy);
      }
    }
  }

  /** `viewport_render`: clipping once per call instead of once per pixel. */
  method ViewportRender(bounds: Rect, sx: int, sy: int, src: DisplayBuffer, target: DisplayBuffer)
    requires target.Valid() && src.Valid() && target.pixels != src.pixels && bounds.InRange()
    modifies target.pixels
    ensures forall cx, cy | 0 <= cx < target.stride && 0 <= cy < target.height ::
              target.Cell(cx, cy) ==
              if Shown(bounds, sx, sy, src, target, cx, cy)
              then src.Cell(cx - bounds.x + sx, cy - bounds.y + sy) else old(target.Cell(cx, cy))
  {
    var c0, c1 := Max(Max(0, -sx), -bounds.x), Min(Min(bounds.width, src.width - sx), target.width - bounds.x);
    if c1 <= c0 {
      return;
    }
    var r0, r1 := Max(Max(0, -sy), -bounds.y), Min(Min(bounds.height, src.height - sy), target.height - bounds.y);
    if r1 <= r0 {
      return;
    }
    var row := r0;
    while row < r1
      invariant r0 <= row <= r1
      invariant forall cx, cy | 0 <= cx < target.stride && 0 <= cy < target.height ::
                  target.Cell(cx, cy) ==
                  if Shown(bounds, sx, sy, src, target, cx, cy) && cy < bounds.y + row
                  then src.Cell(cx - bounds.x + sx, cy - bounds.y + sy) else old(target.Cell(cx, cy))
    {
      CopyRun(target, bounds.x + c0, bounds.y + row, src, sx + c0, sy + row, c1 - c0);
      row := row + 1;
    }
  }

  // ---- Incremental presentation ------------------------------------------------------

  ghost predicate PixelListed(list: seq<Rect>, x: int, y: int) {
    exists i | 0 <= i < |list| :: list[i].Covers(x, y)
  }

  /** Two buffers of the same size that share no storage. */
  ghost predicate Pair(src: DisplayBuffer, dst: DisplayBuffer) {
    && src.Valid() && dst.Valid() && src.pixels != dst.pixels
    && src.width == dst.width && src.height == dst.height
  }

  /** The target differs from the source at most in listed regions. */
  ghost predicate Synced(src: DisplayBuffer, dst: DisplayBuffer, list: seq<Rect>)
    requires Pair(src, dst)
    reads src.pixels, dst.pixels
  {
    && AllWithin(src.Bounds(), list) && |list| <= 64
    && forall x, y | src.InBounds(x, y) ::
         src.Cell(x, y) == dst.Cell(x, y) || PixelListed(list, x, y)
  }

  lemma ListedStays(f: Frame, s: seq<Rect>, s': seq<Rect>, x: int, y: int)
    requires Keeps(f, s, s') && PixelListed(s, x, y)
    ensures PixelListed(s', x, y)
  {
    var i :| 0 <= i < |s| && s[i].Covers(x, y);
    assert Contains(s[i], s[i]);
    assert Covered(s, s[i]);
    var j :| 0 <= j < |s'| && Contains(s'[j], s[i]);
    assert s'[j].Covers(x, y);
  }

  lemma CoveredListed(s: seq<Rect>, r: Rect, x: int, y: int)
    requires Covered(s, r) && r.Covers(x, y)
    ensures PixelListed(s, x, y)
  {
    var j :| 0 <= j < |s| && Contains(s[j], r);
    assert s[j].Covers(x, y);
  }

  /** A drawing call on the source. */
  datatype Draw = Pixel(x: int, y: int, c: Color) | Fill(area: Rect, c: Color)

  /** The call asks for this pixel to be set. */
  predicate Hits(op: Draw, x: int, y: int) {
    match op
    case Pixel(px, py, _) => x == px && y == py
    case Fill(area, _) => area.x <= x < area.Right() && area.y <= y < area.Bottom()
  }

  /** The colour of pixel (x, y) after the calls: that of the last one that hits it. */
  function Painted(was: Color, ops: seq<Draw>, x: int, y: int): Color {
    if ops == [] then was
    else if Hits(ops[|ops| - 1], x, y) then ops[|ops| - 1].c
    else Painted(was, ops[..|ops| - 1], x, y)
  }

  lemma PaintedStep(was: Color, ops: seq<Draw>, n: nat, x: int, y: int)
    requires n < |ops|
    ensures Painted(was, ops[..n + 1], x, y) ==
            if Hits(ops[n], x, y) then ops[n].c else Painted(was, ops[..n], x, y)
  {
    assert ops[..n + 1][..n] == ops[..n];
  }

  /** One drawing call paints what it asks for inside the source, and keeps the target
      in step up to listed regions. */
  method DrawOne(src: DisplayBuffer, dst: DisplayBuffer, op: Draw)
    requires Pair(src, dst) && src.dirty != null && src.dirty.Valid()
    requires op.Fill? ==> op.area.InRange()
    requires Synced(src, dst, src.dirty.List())
    modifies src.pixels, src.dirty, src.dirty.regions
    ensures src.dirty.Valid() && Synced(src, dst, src.dirty.List())
    ensures forall x, y | 0 <= x < src.stride && 0 <= y < src.height ::
              src.Cell(x, y) == if x < src.width && Hits(op, x, y) then op.c else old(src.Cell(x, y))
  {
    ghost var before := src.dirty.List();
    ghost var f := src.Bounds();
    ghost var r := if op.Pixel? then Rect(op.x, op.y, 1, 1) else src.Clipped(op.area);
    ghost var drawn := if op.Pixel? then src.InBounds(op.x, op.y) else !src.ClipsToNothing(op.area);
    hide Marked, AllWithin;
    if op.Pixel? {
      src.WritePixel(op.x, op.y, op.c);
    } else {
      src.FillRect(op.area, op.c);
    }
    if drawn {
      MarkedKeeps(f, before, r, src.dirty.List());
      forall x, y | src.InBounds(x, y)
        ensures src.Cell(x, y) == dst.Cell(x, y) || PixelListed(src.dirty.List(), x, y)
      {
        if r.Covers(x, y) {
          CoveredListed(src.dirty.List(), r, x, y);
        } else if PixelListed(before, x, y) {
          ListedStays(f, before, src.dirty.List(), x, y);
        }
      }
    }
  }

  /** `blit_rect_db` on a listed region, clipped to the screen. */
  method BlitRegion(src: DisplayBuffer, dst: DisplayBuffer, region: Rect)
    requires Pair(src, dst) && region.InRange()
    modifies dst.pixels
    ensures forall x, y | 0 <= x < dst.stride && 0 <= y < dst.height ::
              dst.Cell(x, y) ==
              if x < dst.width && region.Covers(x, y) then src.Cell(x, y) else old(dst.Cell(x, y))
  {
    hide Intersection, Intersects;
    var screen := Rect(0, 0, dst.width, dst.height);
    forall x, y {
      IntersectionIsCommonPixels(region, screen, x, y);
    }
    if !Intersects(region, screen) {
      return;
    }
    var r := Intersection(region, screen);
    IntersectionInRange(region, screen);
    ViewportRender(r, r.x, r.y, src, dst);
  }

  /** The present loop of the compositor: every listed region is blitted, and then
      the target equals the source everywhere. Padding keeps its contents. */
  method Present(src: DisplayBuffer, dst: DisplayBuffer)
    requires Pair(src, dst) && src.dirty != null && src.dirty.Valid()
    requires Synced(src, dst, src.dirty.List())
    modifies dst.pixels
    ensures forall x, y | src.InBounds(x, y) :: dst.Cell(x, y) == src.Cell(x, y)
    ensures forall x, y | dst.width <= x < dst.stride && 0 <= y < dst.height ::
              dst.Cell(x, y) == old(dst.Cell(x, y))
  {
    ghost var list := src.dirty.List();
    var i := 0;
    while i < src.dirty.count
      invariant 0 <= i <= src.dirty.count && src.dirty.List() == list
      invariant forall x, y | src.InBounds(x, y) ::
                  dst.Cell(x, y) == src.Cell(x, y) || PixelListed(list[i..], x, y)
      invariant forall x, y | dst.width <= x < dst.stride && 0 <= y < dst.height ::
                  dst.Cell(x, y) == old(dst.Cell(x, y))
    {
      assert list[i] in list;
      ghost var rest := list[i..];
      BlitRegion(src, dst, src.dirty.regions[i]);
      forall x, y | src.InBounds(x, y)
        ensures dst.Cell(x, y) == src.Cell(x, y) || PixelListed(list[i + 1..], x, y)
      {
        if !list[i].Covers(x, y) && PixelListed(rest, x, y) {
          var k :| 0 <= k < |rest| && rest[k].Covers(x, y);
          assert list[i + 1..][k - 1].Covers(x, y);
        }
      }
      i := i + 1;
    }
  }

  /** Any sequence of drawing calls on a tracked source, then one present: source and
      target both show every pixel in the colour of the last call that hit it. The two
      start equal and the list starts clear. */
  method DrawAndPresent(src: DisplayBuffer, dst: DisplayBuffer, ops: seq<Draw>)
    requires Pair(src, dst) && src.dirty != null && src.dirty.Valid() && src.dirty.List() == []
    requires forall op | op in ops :: op.Fill? ==> op.area.InRange()
    requires forall x, y | src.InBounds(x, y) :: src.Cell(x, y) == dst.Cell(x, y)
    modifies src.pixels, dst.pixels, src.dirty, src.dirty.regions
    ensures forall x, y | src.InBounds(x, y) ::
              dst.Cell(x, y) == src.Cell(x, y) == Painted(old(src.Cell(x, y)), ops, x, y)
    ensures forall x, y | src.width <= x < src.stride && 0 <= y < src.height :: src.Cell(x, y) == old(src.Cell(x, y))
    ensures forall x, y | dst.width <= x < dst.stride && 0 <= y < dst.height :: dst.Cell(x, y) == old(dst.Cell(x, y))
  {
    hide Hits, Painted;
    PaintedNone(ops);
    var i := 0;
    while i < |ops|
      invariant 0 <= i <= |ops| && src.dirty.Valid()
      invariant Synced(src, dst, src.dirty.List())
      invariant forall x, y | src.InBounds(x, y) :: src.Cell(x, y) == Painted(old(src.Cell(x, y)), ops[..i], x, y)
      invariant forall x, y | src.width <= x < src.stride && 0 <= y < src.height ::
                  src.Cell(x, y) == old(src.Cell(x, y))
      invariant forall x, y | dst.width <= x < dst.stride && 0 <= y < dst.height ::
                  dst.Cell(x, y) == old(dst.Cell(x, y))
    {
      DrawOne(src, dst, ops[i]);
      forall x, y | src.InBounds(x, y)
        ensures src.Cell(x, y) == Painted(old(src.Cell(x, y)), ops[..i + 1], x, y)
      {
        PaintedStep(old(src.Cell(x, y)), ops, i, x, y);
      }
      i := i + 1;
    }
    assert ops[..|ops|] == ops;
    Present(src, dst);
  }

  lemma PaintedNone(ops: seq<Draw>)
    ensures forall was, x, y :: Painted(was, ops[..0], x, y) == was
  {
  }
}
