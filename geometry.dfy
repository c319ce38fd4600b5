/**
  Integer points and rectangles as the renderer uses them (Gwen::Point and
  Gwen::Rect), with the pixel-level meaning of a rectangle and the
  intersection that clipping computes.
 */
module Geometry {

  datatype Point = Point(x: int, y: int)

  /** An axis-aligned rectangle with origin (x, y), width w and height h.
      A rectangle whose width or height is zero or negative covers no pixel. */
  datatype Rect = Rect(x: int, y: int, w: int, h: int)

  function Right(r: Rect): int { r.x + r.w }

  function Bottom(r: Rect): int { r.y + r.h }

  function Min(a: int, b: int): int { if a <= b then a else b }

  function Max(a: int, b: int): int { if a >= b then a else b }

  /** The pixel (px, py) is covered by r. */
  predicate Contains(r: Rect, px: int, py: int) {
    r.x <= px < Right(r) && r.y <= py < Bottom(r)
  }

  /** Some pixel is covered by r. */
  ghost predicate HasPixel(r: Rect) {
    exists px, py :: Contains(r, px, py)
  }

  /** A rectangle covers a pixel exactly when both of its sides are positive. */
  lemma HasPixelIffPositive(r: Rect)
    ensures HasPixel(r) <==> r.w > 0 && r.h > 0
  {
    if r.w > 0 && r.h > 0 {
      assert Contains(r, r.x, r.y);
    }
  }

  /** Every edge of inner lies on or inside the matching edge of outer. */
  predicate Within(inner: Rect, outer: Rect) {
    outer.x <= inner.x && outer.y <= inner.y &&
    Right(inner) <= Right(outer) && Bottom(inner) <= Bottom(outer)
  }

  /** r moved by the offset o; its size is kept. */
  function Shift(r: Rect, o: Point): (t: Rect)
    ensures t.w == r.w && t.h == r.h
    ensures forall px, py :: Contains(r, px, py) <==> Contains(t, px + o.x, py + o.y)
  {
    Rect(r.x + o.x, r.y + o.y, r.w, r.h)
  }

  /** The largest rectangle whose edges lie within both a and b. */
  function Intersect(a: Rect, b: Rect): (r: Rect)
    ensures Within(r, a) && Within(r, b)
    ensures r.w <= a.w && r.h <= a.h && r.w <= b.w && r.h <= b.h
  {
    var x := Max(a.x, b.x);
    var y := Max(a.y, b.y);
    Rect(x, y, Min(Right(a), Right(b)) - x, Min(Bottom(a), Bottom(b)) - y)
  }

  /** The intersection covers exactly the pixels that both rectangles cover. */
  lemma IntersectContains(a: Rect, b: Rect, px: int, py: int)
    ensures Contains(Intersect(a, b), px, py) <==> Contains(a, px, py) && Contains(b, px, py)
  {
  }

  /** Every rectangle within both a and b is within their intersection. */
  lemma IntersectGreatest(a: Rect, b: Rect, q: Rect)
    requires Within(q, a) && Within(q, b)
    ensures Within(q, Intersect(a, b))
  {
  }

  /** Intersecting with an enclosing rectangle changes nothing. */
  lemma IntersectWithin(a: Rect, b: Rect)
    requires Within(a, b)
    ensures Intersect(a, b) == a
  {
  }

  lemma WithinTransitive(a: Rect, b: Rect, c: Rect)
    requires Within(a, b) && Within(b, c)
    ensures Within(a, c)
  {
  }
}
