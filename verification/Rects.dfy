/** Screen rectangles (kernel/display.c): 32-bit positions and sizes, 64-bit
    edge arithmetic, and the signed cost of merging two of them. */
module Rects {
  import opened Arithmetic

  /** Position int32, size uint32. */
  datatype Rect = Rect(x: int, y: int, width: int, height: int) {
    function Right(): int { x + width }

    function Bottom(): int { y + height }

    predicate Empty() { width == 0 || height == 0 }

    predicate InRange() {
      && -0x8000_0000 <= x < 0x8000_0000 && -0x8000_0000 <= y < 0x8000_0000
      && 0 <= width < 0x1_0000_0000 && 0 <= height < 0x1_0000_0000
    }

    ghost predicate Covers(px: int, py: int) {
      x <= px < Right() && y <= py < Bottom()
    }
  }

  function Min(a: int, b: int): int { if a < b then a else b }

  function Max(a: int, b: int): int { if a > b then a else b }

  /** Conversion to int64. */
  function I64(v: int): int {
    (v + 0x8000_0000_0000_0000) % 0x1_0000_0000_0000_0000 - 0x8000_0000_0000_0000
  }

  /** `rect_contains`. */
  predicate Contains(outer: Rect, inner: Rect) {
    && inner.x >= outer.x && inner.y >= outer.y
    && inner.Right() <= outer.Right() && inner.Bottom() <= outer.Bottom()
  }

  /** The test of `rect_intersect`. */
  predicate Intersects(a: Rect, b: Rect) {
    && Max(a.x, b.x) < Min(a.Right(), b.Right())
    && Max(a.y, b.y) < Min(a.Bottom(), b.Bottom())
  }

  /** `rect_intersect`. */
  function Intersection(a: Rect, b: Rect): Rect {
    var x0, y0 := Max(a.x, b.x), Max(a.y, b.y);
    Rect(x0, y0, U32(Min(a.Right(), b.Right()) - x0), U32(Min(a.Bottom(), b.Bottom()) - y0))
  }

  /** `rect_union`: the sizes are computed in 64 bits and stored in 32. */
  function Union(a: Rect, b: Rect): Rect {
    var x0, y0 := Min(a.x, b.x), Min(a.y, b.y);
    Rect(x0, y0, U32(Max(a.Right(), b.Right()) - x0), U32(Max(a.Bottom(), b.Bottom()) - y0))
  }

  function Area(r: Rect): int { r.width * r.height }

  /** `merge_inflation`. */
  function Inflation(a: Rect, b: Rect): int {
    I64(Area(Union(a, b)) - Area(a) - Area(b))
  }

  // ---- Geometry --------------------------------------------------------------

  /** The bounding box of both rectangles is representable. */
  predicate SpanFits(a: Rect, b: Rect) {
    && Max(a.Right(), b.Right()) - Min(a.x, b.x) < 0x1_0000_0000
    && Max(a.Bottom(), b.Bottom()) - Min(a.y, b.y) < 0x1_0000_0000
  }

  /** For non-empty rectangles, containment is inclusion of pixels. */
  lemma ContainsIsInclusion(outer: Rect, inner: Rect)
    requires outer.InRange() && inner.InRange() && !inner.Empty()
    ensures Contains(outer, inner) <==>
            forall px, py :: inner.Covers(px, py) ==> outer.Covers(px, py)
  {
    if forall px, py :: inner.Covers(px, py) ==> outer.Covers(px, py) {
      assert inner.Covers(inner.x, inner.y);
      assert inner.Covers(inner.Right() - 1, inner.Bottom() - 1);
    }
  }

  lemma IntersectionIsCommonPixels(a: Rect, b: Rect, px: int, py: int)
    requires a.InRange() && b.InRange()
    ensures Intersects(a, b) ==>
              (Intersection(a, b).Covers(px, py) <==> a.Covers(px, py) && b.Covers(px, py))
    ensures !Intersects(a, b) ==> !(a.Covers(px, py) && b.Covers(px, py))
  {
  }

  lemma IntersectionInRange(a: Rect, b: Rect)
    requires a.InRange() && b.InRange() && Intersects(a, b)
    ensures Intersection(a, b).InRange()
  {
  }

  /** `rect_union` returns the smallest rectangle containing both, exactly when
      their bounding box is representable: otherwise its size wraps around. */
  lemma UnionIsLeast(a: Rect, b: Rect)
    requires a.InRange() && b.InRange() && !a.Empty() && !b.Empty()
    ensures SpanFits(a, b) <==> Contains(Union(a, b), a) && Contains(Union(a, b), b)
    ensures SpanFits(a, b) ==>
              && Union(a, b).InRange() && !Union(a, b).Empty()
              && forall c: Rect :: Contains(c, a) && Contains(c, b) ==> Contains(c, Union(a, b))
  {
  }

  /** A merge can lose coverage when the span does not fit: two single pixels
      2^32 columns apart merge into nothing. */
  lemma UnionCanWrap()
    ensures var a, b := Rect(-0x8000_0000, 0, 1, 1), Rect(0x7FFF_FFFF, 0, 1, 1);
            && a.InRange() && b.InRange() && !SpanFits(a, b)
            && Union(a, b).Empty() && !Contains(Union(a, b), a)
  {
    hide U32;
    assert U32(0x1_0000_0000) == 0 by { WrapsToZero(); }
  }

  lemma WrapsToZero()
    ensures U32(0x1_0000_0000) == 0
  {
  }

  // ---- Frames: a region of the plane all rectangles stay in --------------------

  /** A representable region: left, top, right and bottom edge. */
  datatype Frame = Frame(left: int, top: int, right: int, bottom: int)

  ghost predicate ValidFrame(f: Frame) {
    && -0x8000_0000 <= f.left <= f.right && f.right - f.left < 0x1_0000_0000
    && -0x8000_0000 <= f.top <= f.bottom && f.bottom - f.top < 0x1_0000_0000
  }

  ghost predicate Within(f: Frame, r: Rect) {
    && r.InRange() && !r.Empty()
    && f.left <= r.x && r.Right() <= f.right && f.top <= r.y && r.Bottom() <= f.bottom
  }

  lemma UnionWithin(f: Frame, a: Rect, b: Rect)
    requires ValidFrame(f) && Within(f, a) && Within(f, b)
    ensures Within(f, Union(a, b)) && Contains(Union(a, b), a) && Contains(Union(a, b), b)
  {
  }

  /** Areas in the frame fit in int64. */
  ghost predicate SmallFrame(f: Frame) {
    ValidFrame(f) && (f.right - f.left) * (f.bottom - f.top) < 0x8000_0000_0000_0000
  }

  lemma AreaMonotone(a: Rect, b: Rect)
    requires 0 <= a.width <= b.width && 0 <= a.height <= b.height
    ensures 0 <= Area(a) <= Area(b)
  {
    assert a.width * a.height <= a.width * b.height <= b.width * b.height;
  }

  lemma AreaBound(f: Frame, r: Rect)
    requires SmallFrame(f) && Within(f, r)
    ensures 0 < Area(r) < 0x8000_0000_0000_0000
  {
    AreaMonotone(r, Rect(f.left, f.top, f.right - f.left, f.bottom - f.top));
    AreaMonotone(Rect(r.x, r.y, 1, 1), r);
  }

  /** In a small frame the cost is exact: the union is at least as large as each
      part, so the difference cannot leave int64. */
  lemma InflationExact(f: Frame, a: Rect, b: Rect)
    requires SmallFrame(f) && Within(f, a) && Within(f, b)
    ensures Inflation(a, b) == Area(Union(a, b)) - Area(a) - Area(b)
  {
    hide Area;
    UnionWithin(f, a, b);
    AreaBound(f, a);
    AreaBound(f, b);
    AreaBound(f, Union(a, b));
    AreaMonotone(a, Union(a, b));
    AreaMonotone(b, Union(a, b));
  }

  /** A mark that contains a listed region has negative cost, so the merge step
      always catches it. */
  lemma ContainedCostsNothing(f: Frame, inner: Rect, outer: Rect)
    requires SmallFrame(f) && Within(f, inner) && Within(f, outer)
    requires Contains(outer, inner)
    ensures Intersects(inner, outer) && Inflation(inner, outer) < 0
  {
    hide Area;
    InflationExact(f, inner, outer);
    assert Union(inner, outer) == outer;
    AreaBound(f, inner);
  }

  lemma ContainsTransitive(a: Rect, b: Rect, c: Rect)
    requires Contains(a, b) && Contains(b, c)
    ensures Contains(a, c)
  {
  }
}
