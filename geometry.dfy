/** Axis-aligned rectangles with a signed origin and an unsigned size, and
    the strict (open-interval) overlap test the compositor uses for hit testing. */
module Geometry {

  /** Length of the overlap of the half-open intervals [a0, a1) and
      [b0, b1); zero or negative when they do not overlap. */
  function Overlap(a0: int, a1: int, b0: int, b1: int): int
  {
    (if a1 < b1 then a1 else b1) - (if a0 < b0 then b0 else a0)
  }

  /** `x`, `y` may be negative or lie beyond the screen; `width` and
      `height` are unsigned sizes. Field order follows `Rect::new`. */
  datatype Rect = Rect(width: nat, height: nat, x: int, y: int)
  {
    /** One past the last column: never before the start, and past it
        exactly when the rectangle has width. */
    function EndX(): (e: int)
      ensures x <= e && (x < e <==> width > 0)
    {
      x + width
    }

    /** One past the last row, likewise. */
    function EndY(): (e: int)
      ensures y <= e && (y < e <==> height > 0)
    {
      y + height
    }

    /** The cell (px, py) lies in the half-open area [x, EndX) × [y, EndY). */
    predicate Contains(px: int, py: int)
    {
      x <= px < EndX() && y <= py < EndY()
    }

    /** Strict overlap on both axes: rectangles that only share an edge
        do not collide. For non-empty rectangles this is a positive overlap
        length on both axes; an empty one can still pass the test. */
    predicate Collides(other: Rect)
      ensures Overlap(x, EndX(), other.x, other.EndX()) > 0 && Overlap(y, EndY(), other.y, other.EndY()) > 0
              ==> Collides(other)
      ensures width > 0 && height > 0 && other.width > 0 && other.height > 0 && Collides(other)
              ==> Overlap(x, EndX(), other.x, other.EndX()) > 0 && Overlap(y, EndY(), other.y, other.EndY()) > 0
    {
      x < other.EndX() && EndX() > other.x && y < other.EndY() && EndY() > other.y
    }
  }

  /** The collision test is symmetric. */
  lemma CollidesSymmetric(a: Rect, b: Rect)
    ensures a.Collides(b) <==> b.Collides(a)
  {
  }

  /** For non-empty rectangles the collision test agrees with the geometric
      reading: they collide exactly when some cell lies in both of them. */
  lemma CollidesIffSharedCell(a: Rect, b: Rect)
    requires a.width > 0 && a.height > 0 && b.width > 0 && b.height > 0
    ensures a.Collides(b) <==> exists px, py :: a.Contains(px, py) && b.Contains(px, py)
  {
    if a.Collides(b) {
      var px := if a.x < b.x then b.x else a.x;
      var py := if a.y < b.y then b.y else a.y;
      assert a.Contains(px, py) && b.Contains(px, py);
    }
  }

  /** A rectangle placed right after another along x (sharing an edge)
      never collides with it, and likewise along y. */
  lemma EdgeTouchingDoesNotCollide(a: Rect, b: Rect)
    requires b.x == a.EndX() || b.y == a.EndY() || a.x == b.EndX() || a.y == b.EndY()
    ensures !a.Collides(b) && !b.Collides(a)
  {
  }

  /** A degenerate rectangle can still collide: a zero-width one strictly
      between the other's vertical edges does, although no cell lies in both. */
  lemma ZeroWidthCanCollide()
    ensures Rect(0, 1, 5, 0).Collides(Rect(10, 1, 0, 0))
    ensures !exists px, py :: Rect(0, 1, 5, 0).Contains(px, py)
  {
  }

  /** A rectangle collides with itself exactly when it is non-empty. */
  lemma CollidesSelfIffNonEmpty(a: Rect)
    ensures a.Collides(a) <==> a.width > 0 && a.height > 0
  {
  }
}
