/** Axis-aligned bounding boxes for mouse picking (`physics/Aabb.h`). A box
    covers the half-open ranges [position, position + size) on each axis. */
module Physics {

  datatype Vec = Vec(x: int, y: int)

  /** The default box has position and size (-1, -1). */
  datatype Aabb = Aabb(position: Vec, size: Vec)

  /** A box with room for at least one point. */
  predicate NonEmpty(b: Aabb)
  {
    b.size.x > 0 && b.size.y > 0
  }

  /** `PointVsAabb`: only a box that is not empty holds a point. */
  predicate PointVsAabb(p: Vec, b: Aabb)
    ensures PointVsAabb(p, b) ==> NonEmpty(b)
  {
    p.x >= b.position.x && p.y >= b.position.y
    && p.x < b.position.x + b.size.x && p.y < b.position.y + b.size.y
  }

  /** `AabbVsAabb`, against the point test: boxes that share the corner made
      of the larger coordinates of their positions collide, and colliding
      boxes that are not empty share that corner. */
  predicate AabbVsAabb(a: Aabb, b: Aabb)
    ensures var c := Vec(Max(a.position.x, b.position.x), Max(a.position.y, b.position.y));
            (PointVsAabb(c, a) && PointVsAabb(c, b) ==> AabbVsAabb(a, b))
            && (AabbVsAabb(a, b) && NonEmpty(a) && NonEmpty(b) ==> PointVsAabb(c, a) && PointVsAabb(c, b))
  {
    a.position.x < b.position.x + b.size.x && a.position.x + a.size.x > b.position.x
    && a.position.y < b.position.y + b.size.y && a.position.y + a.size.y > b.position.y
  }

  /** The corner at `position` belongs to the box exactly when the box is
      not empty; the opposite corner never does. */
  lemma PointVsAabbCorners(b: Aabb)
    ensures PointVsAabb(b.position, b) <==> NonEmpty(b)
    ensures !PointVsAabb(Vec(b.position.x + b.size.x, b.position.y + b.size.y), b)
  {
  }

  lemma AabbVsAabbSymmetric(a: Aabb, b: Aabb)
    ensures AabbVsAabb(a, b) <==> AabbVsAabb(b, a)
  {
  }

  /** Boxes that only touch along an edge do not collide. */
  lemma TouchingBoxesDoNotCollide(a: Aabb, b: Aabb)
    requires b.position.x == a.position.x + a.size.x || b.position.y == a.position.y + a.size.y
    ensures !AabbVsAabb(a, b) && !AabbVsAabb(b, a)
  {
  }

  /** For boxes that are not empty, the two tests agree: the boxes collide
      exactly when some point lies in both. The witness is the larger of the
      two `position` corners. */
  lemma CollisionIsCommonPoint(a: Aabb, b: Aabb)
    requires NonEmpty(a) && NonEmpty(b)
    ensures AabbVsAabb(a, b) <==> exists p :: PointVsAabb(p, a) && PointVsAabb(p, b)
  {
    if AabbVsAabb(a, b) {
      var p := Vec(Max(a.position.x, b.position.x), Max(a.position.y, b.position.y));
      assert PointVsAabb(p, a) && PointVsAabb(p, b);
    }
  }

  function Max(a: int, b: int): int { if a < b then b else a }
}
