/** Orientation predicates on point triples. */
module Triangle2 {
  import opened Vector2

  /** (q.y - p.y)(r.x - q.x) - (q.x - p.x)(r.y - q.y): negative when p, q, r
      turn counter-clockwise (y up), zero when they are collinear. */
  function GetSignedArea(p: Vec2, q: Vec2, r: Vec2): real {
    (q.y - p.y) * (r.x - q.x) - (q.x - p.x) * (r.y - q.y)
  }

  /** Collinear triples count as counter-clockwise. */
  predicate CCW(p: Vec2, q: Vec2, r: Vec2) {
    var cw := (r.y - p.y) * (q.x - p.x) - (q.y - p.y) * (r.x - p.x);
    if cw > 0.0 then true else if cw < 0.0 then false else true
  }

  lemma CwIsNegatedArea(px: real, py: real, qx: real, qy: real, rx: real, ry: real)
    ensures (ry - py) * (qx - px) - (qy - py) * (rx - px)
         == -((qy - py) * (rx - qx) - (qx - px) * (ry - qy))
  {
  }

  /** CCW holds exactly when the signed area is not positive. */
  lemma CCWIffSignedAreaNonPositive(p: Vec2, q: Vec2, r: Vec2)
    ensures CCW(p, q, r) <==> GetSignedArea(p, q, r) <= 0.0
  {
    CwIsNegatedArea(p.x, p.y, q.x, q.y, r.x, r.y);
  }

  lemma RotateIdentity(px: real, py: real, qx: real, qy: real, rx: real, ry: real)
    ensures (qy - py) * (rx - qx) - (qx - px) * (ry - qy)
         == (ry - qy) * (px - rx) - (rx - qx) * (py - ry)
  {
  }

  lemma SwapIdentity(px: real, py: real, qx: real, qy: real, rx: real, ry: real)
    ensures (ry - py) * (qx - rx) - (rx - px) * (qy - ry)
         == -((qy - py) * (rx - qx) - (qx - px) * (ry - qy))
  {
  }

  /** Rotating the triple leaves the signed area unchanged; swapping its
      last two points negates it. */
  lemma SignedAreaSymmetries(p: Vec2, q: Vec2, r: Vec2)
    ensures GetSignedArea(q, r, p) == GetSignedArea(p, q, r)
    ensures GetSignedArea(p, r, q) == -GetSignedArea(p, q, r)
  {
    RotateIdentity(p.x, p.y, q.x, q.y, r.x, r.y);
    SwapIdentity(p.x, p.y, q.x, q.y, r.x, r.y);
  }

  /** A triple with a repeated point has zero signed area. */
  lemma SignedAreaDegenerate(p: Vec2, q: Vec2, r: Vec2)
    requires p == q || q == r || p == r
    ensures GetSignedArea(p, q, r) == 0.0
  {
    if p == r {
      SwapIdentity(p.x, p.y, q.x, q.y, r.x, r.y);
    }
  }

  lemma ShoelaceIdentity(px: real, py: real, qx: real, qy: real, rx: real, ry: real)
    ensures (qy - py) * (rx - qx) - (qx - px) * (ry - qy)
         == -((px * qy - qx * py) + (qx * ry - rx * qy) + (rx * py - px * ry))
  {
  }

  /** The signed area is minus twice the shoelace area of the triangle, so
      it is negative exactly for counter-clockwise triangles. */
  lemma SignedAreaIsShoelace(p: Vec2, q: Vec2, r: Vec2)
    ensures GetSignedArea(p, q, r) == -TriangleArea2(p, q, r)
    ensures GetSignedArea(p, q, r) == -2.0 * Shoelace([p, q, r])
  {
    ShoelaceIdentity(p.x, p.y, q.x, q.y, r.x, r.y);
    ShoelaceTriangle(p, q, r);
  }
}
