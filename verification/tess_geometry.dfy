/** The point-level tests of the ear-clipping tessellator: the signed area
    (`computeArea`, which is `Triangle2.GetSignedArea`), the closed
    point-in-triangle test, the segment test and the local-inside test. */
module TessGeometry {
  import opened Vector2
  import opened Triangle2

  // ---------------------------------------------------------------------
  // isPointInTriangle
  // ---------------------------------------------------------------------

  /** The three edge terms of `isPointInTriangle`, each a cross product of
      two corners seen from p. */
  function EdgeTerm(u: Vec2, w: Vec2, p: Vec2): real {
    (w.x - p.x) * (u.y - p.y) - (u.x - p.x) * (w.y - p.y)
  }

  /** The closed test: p is on the inner side of all three edges or on one. */
  predicate InTriangle(a: Vec2, b: Vec2, c: Vec2, p: Vec2) {
    EdgeTerm(a, c, p) >= 0.0 && EdgeTerm(b, a, p) >= 0.0 && EdgeTerm(c, b, p) >= 0.0
  }

  /** The bounding-box corners of the ear, computed with the source's nested
      comparisons; the result is the least (greatest) of the three. */
  function MinOf3(a: real, b: real, c: real): (r: real)
    ensures r <= a && r <= b && r <= c
    ensures r == a || r == b || r == c
  {
    if a < b then (if a < c then a else c) else (if b < c then b else c)
  }

  function MaxOf3(a: real, b: real, c: real): (r: real)
    ensures r >= a && r >= b && r >= c
    ensures r == a || r == b || r == c
  {
    if a > b then (if a > c then a else c) else (if b > c then b else c)
  }

  /** The three terms add up to minus the signed area, and weight the corners
      into p (barycentric coordinates, scaled). */
  lemma BarycentricIdentity(ux: real, uy: real, vx: real, vy: real, wx: real, wy: real)
    ensures (vx * wy - wx * vy) * ux + (wx * uy - ux * wy) * vx + (ux * vy - vx * uy) * wx == 0.0
    ensures (vx * wy - wx * vy) * uy + (wx * uy - ux * wy) * vy + (ux * vy - vx * uy) * wy == 0.0
  {
  }

  lemma TermsSum(a: Vec2, b: Vec2, c: Vec2, p: Vec2)
    ensures EdgeTerm(a, c, p) + EdgeTerm(b, a, p) + EdgeTerm(c, b, p) == -GetSignedArea(a, b, c)
  {
  }

  lemma TermsWeight(a: Vec2, b: Vec2, c: Vec2, p: Vec2, s: real)
    requires s == EdgeTerm(a, c, p) + EdgeTerm(b, a, p) + EdgeTerm(c, b, p)
    ensures EdgeTerm(c, b, p) * a.x + EdgeTerm(a, c, p) * b.x + EdgeTerm(b, a, p) * c.x == s * p.x
    ensures EdgeTerm(c, b, p) * a.y + EdgeTerm(a, c, p) * b.y + EdgeTerm(b, a, p) * c.y == s * p.y
  {
    BarycentricIdentity(a.x - p.x, a.y - p.y, b.x - p.x, b.y - p.y, c.x - p.x, c.y - p.y);
  }

  lemma MulNonneg(t: real, d: real)
    requires t >= 0.0 && d >= 0.0
    ensures t * d >= 0.0
  {
  }

  /** Nonnegative weights of values all at least m sum to at least m times
      the total weight. */
  lemma WeightedAbove(t1: real, t2: real, t3: real, u: real, v: real, w: real, m: real)
    requires t1 >= 0.0 && t2 >= 0.0 && t3 >= 0.0 && m <= u && m <= v && m <= w
    ensures t1 * u + t2 * v + t3 * w >= (t1 + t2 + t3) * m
  {
    MulNonneg(t1, u - m);
    MulNonneg(t2, v - m);
    MulNonneg(t3, w - m);
  }

  lemma WeightedBelow(t1: real, t2: real, t3: real, u: real, v: real, w: real, m: real)
    requires t1 >= 0.0 && t2 >= 0.0 && t3 >= 0.0 && u <= m && v <= m && w <= m
    ensures t1 * u + t2 * v + t3 * w <= (t1 + t2 + t3) * m
  {
    MulNonneg(t1, m - u);
    MulNonneg(t2, m - v);
    MulNonneg(t3, m - w);
  }

  lemma CancelPositive(s: real, x: real, m: real)
    requires s > 0.0
    ensures s * x >= s * m ==> x >= m
    ensures s * x <= s * m ==> x <= m
  {
    if x < m {
      assert s * (m - x) > 0.0;
    }
    if x > m {
      assert s * (x - m) > 0.0;
    }
  }

  /** One coordinate of a point of a proper (negative-area) triangle lies
      between the least and greatest corner coordinate. */
  lemma Between(t1: real, t2: real, t3: real, u: real, v: real, w: real, x: real)
    requires t1 >= 0.0 && t2 >= 0.0 && t3 >= 0.0 && t1 + t2 + t3 > 0.0
    requires t1 * u + t2 * v + t3 * w == (t1 + t2 + t3) * x
    ensures MinOf3(u, v, w) <= x <= MaxOf3(u, v, w)
  {
    var lo, hi := MinOf3(u, v, w), MaxOf3(u, v, w);
    WeightedAbove(t1, t2, t3, u, v, w, lo);
    WeightedBelow(t1, t2, t3, u, v, w, hi);
    CancelPositive(t1 + t2 + t3, x, lo);
    CancelPositive(t1 + t2 + t3, x, hi);
  }

  /** A point that passes the closed test for a triangle of negative area lies
      in the triangle's bounding box, the box `isEarHashed` derives its key
      range from. */
  lemma InTriangleBounds(a: Vec2, b: Vec2, c: Vec2, p: Vec2)
    requires GetSignedArea(a, b, c) < 0.0 && InTriangle(a, b, c, p)
    ensures MinOf3(a.x, b.x, c.x) <= p.x <= MaxOf3(a.x, b.x, c.x)
    ensures MinOf3(a.y, b.y, c.y) <= p.y <= MaxOf3(a.y, b.y, c.y)
  {
    var t1, t2, t3 := EdgeTerm(c, b, p), EdgeTerm(a, c, p), EdgeTerm(b, a, p);
    TermsSum(a, b, c, p);
    TermsWeight(a, b, c, p, t2 + t3 + t1);
    assert t1 + t2 + t3 == t2 + t3 + t1;
    Between(t1, t2, t3, a.x, b.x, c.x, p.x);
    Between(t1, t2, t3, a.y, b.y, c.y, p.y);
  }

  // ---------------------------------------------------------------------
  // intersects
  // ---------------------------------------------------------------------

  /** `intersects(p1, q1, p2, q2)`: the same segment in either direction, or
      each segment's ends on strictly different sides of the other's line
      (a zero area counts as the non-positive side). */
  predicate Intersects(p1: Vec2, q1: Vec2, p2: Vec2, q2: Vec2) {
    if (Equals(p1, q1) && Equals(p2, q2)) || (Equals(p1, q2) && Equals(p2, q1)) then true
    else
      ((GetSignedArea(p1, q1, p2) > 0.0) != (GetSignedArea(p1, q1, q2) > 0.0)) &&
      ((GetSignedArea(p2, q2, p1) > 0.0) != (GetSignedArea(p2, q2, q1) > 0.0))
  }

  /** Two edges that meet end to end at q (p→q then q→r) are reported as
      intersecting exactly when they fold back onto p or turn to the
      positive side; this is why `intersectsPolygon` skips the edges
      incident to the diagonal's ends. */
  lemma IntersectsAdjacent(p: Vec2, q: Vec2, r: Vec2)
    requires !Equals(p, q)
    ensures Intersects(p, q, q, r) <==> Equals(p, r) || GetSignedArea(p, q, r) > 0.0
  {
    SignedAreaDegenerate(p, q, q);
    SignedAreaDegenerate(q, r, q);
    SignedAreaSymmetries(p, q, r);
    if !Equals(p, r) {
      assert GetSignedArea(q, r, p) == GetSignedArea(p, q, r);
    }
  }

  /** A segment compared with itself reversed is always an intersection, and
      a segment of two distinct points never meets itself in the area test
      (all four areas vanish). */
  lemma IntersectsSelf(p: Vec2, q: Vec2)
    ensures Intersects(p, q, q, p)
    ensures !Equals(p, q) ==> !Intersects(p, q, p, q)
  {
    SignedAreaDegenerate(p, q, p);
    SignedAreaDegenerate(p, q, q);
  }

  // ---------------------------------------------------------------------
  // isLocallyInside
  // ---------------------------------------------------------------------

  /** `isLocallyInside(a, b)` with a's neighbours spelled out: at a convex
      corner (negative area) b must be inside the closed wedge, at a reflex
      corner it must not be inside the opposite closed wedge. */
  predicate LocallyInside(ap: Vec2, a: Vec2, an: Vec2, b: Vec2) {
    if GetSignedArea(ap, a, an) < 0.0 then
      GetSignedArea(a, b, an) >= 0.0 && GetSignedArea(a, ap, b) >= 0.0
    else
      GetSignedArea(a, b, ap) < 0.0 || GetSignedArea(a, an, b) < 0.0
  }

  /** The next corner is locally inside exactly at a convex corner. */
  lemma LocallyInsideNext(ap: Vec2, a: Vec2, an: Vec2)
    ensures LocallyInside(ap, a, an, an) <==> GetSignedArea(ap, a, an) < 0.0
  {
    SignedAreaDegenerate(a, an, an);
    SignedAreaSymmetries(ap, a, an);
    SignedAreaSymmetries(a, an, ap);
  }
}
