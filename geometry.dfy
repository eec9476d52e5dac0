/** Axis-aligned boxes and the box tests the range query makes.
    Coordinates are exact reals; the source uses 32-bit floats. */
module Geometry {

  datatype Vec3 = Vec3(x: real, y: real, z: real)

  /** An axis-aligned box given by its center and its per-axis half-size. */
  datatype AABB = AABB(center: Vec3, extents: Vec3)

  datatype Option<T> = None | Some(value: T)

  function Abs(v: real): (r: real)
    ensures r >= 0.0 && (r == v || r == -v)
  {
    if v < 0.0 then -v else v
  }

  /** Closed per-axis interval test of a point (AABB.Contains(float3)): on
      every axis center - extents <= p <= center + extents. */
  predicate ContainsPoint(b: AABB, p: Vec3)
  {
    b.center.x - b.extents.x <= p.x <= b.center.x + b.extents.x &&
    b.center.y - b.extents.y <= p.y <= b.center.y + b.extents.y &&
    b.center.z - b.extents.z <= p.z <= b.center.z + b.extents.z
  }

  /** Box containment (AABB.Contains(AABB)): on every axis the inner interval
      lies within the outer one, faces may coincide. */
  predicate ContainsBox(outer: AABB, inner: AABB)
  {
    outer.center.x - outer.extents.x <= inner.center.x - inner.extents.x &&
    inner.center.x + inner.extents.x <= outer.center.x + outer.extents.x &&
    outer.center.y - outer.extents.y <= inner.center.y - inner.extents.y &&
    inner.center.y + inner.extents.y <= outer.center.y + outer.extents.y &&
    outer.center.z - outer.extents.z <= inner.center.z - inner.extents.z &&
    inner.center.z + inner.extents.z <= outer.center.z + outer.extents.z
  }

  /** The strict per-axis overlap test of the query. */
  predicate Intersects(a: AABB, b: AABB)
  {
    Abs(a.center.x - b.center.x) < a.extents.x + b.extents.x &&
    Abs(a.center.y - b.center.y) < a.extents.y + b.extents.y &&
    Abs(a.center.z - b.center.z) < a.extents.z + b.extents.z
  }

  /** The closed per-axis overlap test: like `Intersects`, but boxes that
      only touch at a face, edge or corner also pass. */
  predicate Touches(a: AABB, b: AABB)
  {
    Abs(a.center.x - b.center.x) <= a.extents.x + b.extents.x &&
    Abs(a.center.y - b.center.y) <= a.extents.y + b.extents.y &&
    Abs(a.center.z - b.center.z) <= a.extents.z + b.extents.z
  }

  /** The corner with the smallest coordinates on every axis. */
  function Low(b: AABB): Vec3
  {
    Vec3(b.center.x - b.extents.x, b.center.y - b.extents.y, b.center.z - b.extents.z)
  }

  /** The corner with the largest coordinates on every axis. */
  function High(b: AABB): Vec3
  {
    Vec3(b.center.x + b.extents.x, b.center.y + b.extents.y, b.center.z + b.extents.z)
  }

  /** The point lies strictly inside the box on every axis, off its faces. */
  predicate InInterior(b: AABB, p: Vec3)
  {
    b.center.x - b.extents.x < p.x < b.center.x + b.extents.x &&
    b.center.y - b.extents.y < p.y < b.center.y + b.extents.y &&
    b.center.z - b.extents.z < p.z < b.center.z + b.extents.z
  }

  predicate NonNegative(b: AABB)
  {
    b.extents.x >= 0.0 && b.extents.y >= 0.0 && b.extents.z >= 0.0
  }

  predicate Positive(b: AABB)
  {
    b.extents.x > 0.0 && b.extents.y > 0.0 && b.extents.z > 0.0
  }

  predicate Cubic(b: AABB)
  {
    b.extents.x == b.extents.y == b.extents.z
  }

  /** The box of octant `l` of `p`; octants outside 0..7 are an error.
      The split half-size comes from the x extent alone. */
  function GetChildBounds(p: AABB, l: int): (r: Option<AABB>)
    ensures r.Some? <==> 0 <= l < 8
    ensures r.Some? ==>
      var h := p.extents.x / 2.0;
      r.value.extents == Vec3(h, h, h) &&
      r.value.center.x == (if l % 2 == 1 then p.center.x + h else p.center.x - h) &&
      r.value.center.y == (if (l / 2) % 2 == 1 then p.center.y - h else p.center.y + h) &&
      r.value.center.z == (if l / 4 == 1 then p.center.z + h else p.center.z - h)
  {
    var c := p.center;
    var h := p.extents.x * 0.5;
    var e := Vec3(h, h, h);
    match l
    case 0 => Some(AABB(Vec3(c.x - h, c.y + h, c.z - h), e))
    case 1 => Some(AABB(Vec3(c.x + h, c.y + h, c.z - h), e))
    case 2 => Some(AABB(Vec3(c.x - h, c.y - h, c.z - h), e))
    case 3 => Some(AABB(Vec3(c.x + h, c.y - h, c.z - h), e))
    case 4 => Some(AABB(Vec3(c.x - h, c.y + h, c.z + h), e))
    case 5 => Some(AABB(Vec3(c.x + h, c.y + h, c.z + h), e))
    case 6 => Some(AABB(Vec3(c.x - h, c.y - h, c.z + h), e))
    case 7 => Some(AABB(Vec3(c.x + h, c.y - h, c.z + h), e))
    case _ => None
  }

  /** The child box of a valid octant code. */
  function Child(p: AABB, l: int): (r: AABB)
    requires 0 <= l < 8
    ensures Cubic(r) && r.extents.x == p.extents.x / 2.0
    ensures Some(r) == GetChildBounds(p, l)
  {
    var h := p.extents.x / 2.0;
    AABB(Vec3(if l % 2 == 1 then p.center.x + h else p.center.x - h,
              if (l / 2) % 2 == 1 then p.center.y - h else p.center.y + h,
              if l / 4 == 1 then p.center.z + h else p.center.z - h),
         Vec3(h, h, h))
  }

  /** The point test is the same as a distance test: on every axis the point
      is at most the box's extent away from its center. */
  lemma ContainsPointByDistance(b: AABB, p: Vec3)
    ensures ContainsPoint(b, p) <==>
      Abs(p.x - b.center.x) <= b.extents.x &&
      Abs(p.y - b.center.y) <= b.extents.y &&
      Abs(p.z - b.center.z) <= b.extents.z
  {
  }

  /** A box of non-negative size is contained exactly when its lowest and
      highest corners are. */
  lemma ContainsBoxByCorners(outer: AABB, inner: AABB)
    requires NonNegative(inner)
    ensures ContainsBox(outer, inner) <==>
      ContainsPoint(outer, Low(inner)) && ContainsPoint(outer, High(inner))
  {
  }

  /** The overlap test is the same as a strict overlap of the two boxes'
      intervals on every axis. */
  lemma IntersectsByIntervals(a: AABB, b: AABB)
    ensures Intersects(a, b) <==>
      a.center.x - a.extents.x < b.center.x + b.extents.x &&
      b.center.x - b.extents.x < a.center.x + a.extents.x &&
      a.center.y - a.extents.y < b.center.y + b.extents.y &&
      b.center.y - b.extents.y < a.center.y + a.extents.y &&
      a.center.z - a.extents.z < b.center.z + b.extents.z &&
      b.center.z - b.extents.z < a.center.z + a.extents.z
  {
  }

  lemma IntersectsSymmetric(a: AABB, b: AABB)
    ensures Intersects(a, b) <==> Intersects(b, a)
  {
    assert Abs(a.center.x - b.center.x) == Abs(b.center.x - a.center.x);
    assert Abs(a.center.y - b.center.y) == Abs(b.center.y - a.center.y);
    assert Abs(a.center.z - b.center.z) == Abs(b.center.z - a.center.z);
  }

  /** Boxes that meet exactly at a face on some axis do not intersect. */
  lemma TouchingBoxesDoNotIntersect(a: AABB, b: AABB)
    requires Abs(a.center.x - b.center.x) == a.extents.x + b.extents.x
          || Abs(a.center.y - b.center.y) == a.extents.y + b.extents.y
          || Abs(a.center.z - b.center.z) == a.extents.z + b.extents.z
    ensures !Intersects(a, b) && !Intersects(b, a)
  {
  }

  /** Two different octants of one box only touch, so they never intersect. */
  lemma SiblingsDoNotIntersect(p: AABB, i: int, j: int)
    requires 0 <= i < 8 && 0 <= j < 8 && i != j
    ensures !Intersects(Child(p, i), Child(p, j))
  {
    var a, b := Child(p, i), Child(p, j);
    var h := p.extents.x / 2.0;
    if i % 2 != j % 2 {
      assert Abs(a.center.x - b.center.x) >= a.extents.x + b.extents.x;
    } else if (i / 2) % 2 != (j / 2) % 2 {
      assert Abs(a.center.y - b.center.y) >= a.extents.y + b.extents.y;
    } else {
      assert i / 4 != j / 4;
      assert Abs(a.center.z - b.center.z) >= a.extents.z + b.extents.z;
    }
  }

  /** Each octant of a cubic box lies inside it. */
  lemma ChildInsideParent(p: AABB, l: int)
    requires 0 <= l < 8 && Cubic(p) && NonNegative(p)
    ensures ContainsBox(p, Child(p, l))
  {
  }

  lemma ContainsBoxTransitive(a: AABB, b: AABB, c: AABB)
    requires ContainsBox(a, b) && ContainsBox(b, c)
    ensures ContainsBox(a, c)
  {
  }

  lemma ContainsPointTransitive(a: AABB, b: AABB, p: Vec3)
    requires ContainsBox(a, b) && ContainsPoint(b, p)
    ensures ContainsPoint(a, p)
  {
  }

  /** A box of positive size that a region contains also intersects it. */
  lemma ContainedIntersects(region: AABB, b: AABB)
    requires ContainsBox(region, b) && Positive(b)
    ensures Intersects(region, b)
  {
  }

  /** A region disjoint from a box is disjoint from every box inside it. */
  lemma DisjointFromInner(region: AABB, outer: AABB, inner: AABB)
    requires ContainsBox(outer, inner) && !Intersects(region, outer)
    ensures !Intersects(region, inner)
  {
  }

  /** A point of a box that lies strictly inside the region makes the box
      pass the overlap test, and the point passes the closed point test. */
  lemma InteriorPointIntersects(region: AABB, b: AABB, q: Vec3)
    requires ContainsPoint(b, q) && InInterior(region, q)
    ensures Intersects(region, b) && ContainsPoint(region, q)
  {
    IntersectsByIntervals(region, b);
  }

  /** The closed overlap test holds exactly when the two boxes' closed
      intervals overlap on every axis. */
  lemma TouchesByIntervals(a: AABB, b: AABB)
    ensures Touches(a, b) <==>
      (a.center.x - a.extents.x <= b.center.x + b.extents.x && b.center.x - b.extents.x <= a.center.x + a.extents.x &&
       a.center.y - a.extents.y <= b.center.y + b.extents.y && b.center.y - b.extents.y <= a.center.y + a.extents.y &&
       a.center.z - a.extents.z <= b.center.z + b.extents.z && b.center.z - b.extents.z <= a.center.z + a.extents.z)
  {
  }

  /** The closed test prunes less than the strict one: every pair of boxes
      that intersects also touches. */
  lemma IntersectsTouches(a: AABB, b: AABB)
    requires Intersects(a, b)
    ensures Touches(a, b)
  {
  }

  /** A box holding a point that the region holds passes the closed overlap
      test. */
  lemma SharedPointTouches(region: AABB, b: AABB, q: Vec3)
    requires ContainsPoint(b, q) && ContainsPoint(region, q)
    ensures Touches(region, b)
  {
    TouchesByIntervals(region, b);
  }
}
