/** Axis-aligned integer rectangles, as the drawing library's Rect, and the
    two operations the games use on them: overlap and clamping. */
module Geometry {

  /** A rectangle with its top-left corner at (x, y), width w and height h. */
  datatype Rect = Rect(x: int, y: int, w: int, h: int)

  /** Rect.colliderect: the two rectangles share interior area on both axes.
      Rectangles that only touch along an edge do not collide. */
  predicate Overlaps(a: Rect, b: Rect)
  {
    a.x < b.x + b.w && b.x < a.x + a.w && a.y < b.y + b.h && b.y < a.y + a.h
  }

  /** Collision does not depend on which rectangle is tested against which. */
  lemma OverlapsSymmetric(a: Rect, b: Rect)
    ensures Overlaps(a, b) <==> Overlaps(b, a)
  {
  }

  /** A rectangle collides with itself exactly when it has area. Two
      rectangles of any sizes that meet along an edge, on any side, do not
      collide; in particular a copy moved to touch the right or bottom edge. */
  lemma EdgeContactIsNoOverlap(a: Rect, b: Rect)
    ensures Overlaps(a, a) <==> a.w > 0 && a.h > 0
    ensures b.x == a.x + a.w || a.x == b.x + b.w || b.y == a.y + a.h || a.y == b.y + b.h
            ==> !Overlaps(a, b)
    ensures !Overlaps(a, a.(x := a.x + a.w))
    ensures !Overlaps(a, a.(y := a.y + a.h))
  {
  }

  /** The screen clamp: the smaller of `v` and `hi`, then the larger of that
      and `lo`, in the order the program applies them. */
  function Clamp(v: int, lo: int, hi: int): (r: int)
    requires lo <= hi
    ensures lo <= r <= hi
    ensures lo <= v <= hi ==> r == v
    ensures v < lo ==> r == lo
    ensures hi < v ==> r == hi
  {
    var m := if v < hi then v else hi;
    if lo < m then m else lo
  }

  /** `inner` lies within `outer` (edges may coincide). */
  predicate Within(inner: Rect, outer: Rect)
  {
    outer.x <= inner.x && inner.x + inner.w <= outer.x + outer.w &&
    outer.y <= inner.y && inner.y + inner.h <= outer.y + outer.h
  }

  /** Some rectangle of `walls` collides with `box`. */
  predicate HitsWall(box: Rect, walls: seq<Rect>)
  {
    exists i :: 0 <= i < |walls| && Overlaps(box, walls[i])
  }
}
