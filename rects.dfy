/**
 * Axis-aligned integer rectangles with half-open extents [x, x+w) x [y, y+h),
 * as used by the quad-tree node, the tile metadata and the viewport.
 */
module Rects {

  datatype Rect = Rect(x: int, y: int, w: int, h: int)

  /** The pixel (px, py) lies inside r. */
  predicate Inside(r: Rect, px: int, py: int) {
    r.x <= px < r.x + r.w && r.y <= py < r.y + r.h
  }

  /**
   * The overlap test written out in TileIndex::query and QuadTreeIndex::queryRecursive:
   * a and b overlap unless one lies entirely left of, above, right of or below the other.
   */
  predicate Overlaps(a: Rect, b: Rect) {
    !(a.x + a.w <= b.x || a.y + a.h <= b.y || a.x >= b.x + b.w || a.y >= b.y + b.h)
  }

  /** inner lies entirely within outer. */
  predicate Contains(outer: Rect, inner: Rect) {
    outer.x <= inner.x && outer.y <= inner.y &&
    inner.x + inner.w <= outer.x + outer.w && inner.y + inner.h <= outer.y + outer.h
  }

  /** Both sides are positive. */
  predicate NonEmpty(r: Rect) {
    r.w > 0 && r.h > 0
  }

  /** The overlap test does not depend on the order of its arguments. */
  lemma OverlapsSymmetric(a: Rect, b: Rect)
    ensures Overlaps(a, b) == Overlaps(b, a)
  {
  }

  /** For rectangles of positive area, the overlap test holds exactly when they share a pixel. */
  lemma OverlapsIffSharedPixel(a: Rect, b: Rect)
    requires NonEmpty(a) && NonEmpty(b)
    ensures Overlaps(a, b) <==> exists px, py :: Inside(a, px, py) && Inside(b, px, py)
  {
    if Overlaps(a, b) {
      var px := if a.x < b.x then b.x else a.x;
      var py := if a.y < b.y then b.y else a.y;
      assert Inside(a, px, py) && Inside(b, px, py);
    }
  }

  /** A rectangle that overlaps v also makes every rectangle containing it overlap v. */
  lemma ContainsOverlaps(outer: Rect, inner: Rect, v: Rect)
    requires Contains(outer, inner) && Overlaps(inner, v)
    ensures Overlaps(outer, v)
  {
  }

  /**
   * The four children of QuadTreeNode::subdivide, in the order top-left, top-right,
   * bottom-left, bottom-right: left columns are w/2 wide, right columns w - w/2,
   * top rows h/2 high, bottom rows h - h/2.
   */
  function Quadrants(r: Rect): (q: seq<Rect>)
    requires r.w > 1 && r.h > 1
    ensures |q| == 4
    ensures forall i :: 0 <= i < 4 ==> NonEmpty(q[i]) && Contains(r, q[i])
  {
    var hw := r.w / 2;
    var hh := r.h / 2;
    [Rect(r.x, r.y, hw, hh),
     Rect(r.x + hw, r.y, r.w - hw, hh),
     Rect(r.x, r.y + hh, hw, r.h - hh),
     Rect(r.x + hw, r.y + hh, r.w - hw, r.h - hh)]
  }

  /** How many rectangles of rs contain the pixel (px, py). */
  function CountInside(rs: seq<Rect>, px: int, py: int): nat
  {
    if rs == [] then 0
    else (if Inside(rs[0], px, py) then 1 else 0) + CountInside(rs[1..], px, py)
  }

  lemma CountInsideAppend(a: seq<Rect>, b: seq<Rect>, px: int, py: int)
    ensures CountInside(a + b, px, py) == CountInside(a, px, py) + CountInside(b, px, py)
  {
    if a == [] {
      assert a + b == b;
    } else {
      assert (a + b)[0] == a[0] && (a + b)[1..] == a[1..] + b;
      CountInsideAppend(a[1..], b, px, py);
    }
  }

  /**
   * The quadrants tile their parent exactly, also for odd sides: every pixel of r lies
   * in exactly one quadrant and no pixel outside r lies in any.
   */
  lemma QuadrantsTile(r: Rect, px: int, py: int)
    requires r.w > 1 && r.h > 1
    ensures CountInside(Quadrants(r), px, py) == if Inside(r, px, py) then 1 else 0
  {
    var q := Quadrants(r);
    assert q == [q[0]] + [q[1]] + [q[2]] + [q[3]];
    CountInsideAppend([q[0]] + [q[1]] + [q[2]], [q[3]], px, py);
    CountInsideAppend([q[0]] + [q[1]], [q[2]], px, py);
    CountInsideAppend([q[0]], [q[1]], px, py);
  }
}
