/** Three-dimensional line segments: the closest point and the squared
    distance to a point. The algorithm is the 2D one with a third
    coordinate. */
module Segment3 {
  import opened Wrappers
  import opened Vector3
  import Vector2
  import Segment2
  import Utils

  datatype Segment = Segment(p1: Vec3, p2: Vec3)

  /** Swaps the endpoints. */
  function Inverse(s: Segment): (r: Segment)
    ensures r.p1 == s.p2 && r.p2 == s.p1
  {
    Segment(s.p2, s.p1)
  }

  lemma InverseInvolution(s: Segment)
    ensures Inverse(Inverse(s)) == s
  {
  }

  /** |p2 - p1|^2, positive for distinct points. */
  function LengthSqOfDistinct(p1: Vec3, p2: Vec3): (r: real)
    requires p1 != p2
    ensures r > 0.0 && r == LengthSq(Sub(p2, p1))
  {
    SubZero(p2, p1);
    LengthSqZero(Sub(p2, p1));
    LengthSq(Sub(p2, p1))
  }

  /** The point of the segment closest to p: the projection ratio
      r = ((p - p1) . d) / |d|^2, d = p2 - p1, clamped to the segment unless
      `ignoreEnds` is set. A zero-length segment gives NaN coordinates,
      modelled as `None`. */
  function GetClosestPoint(s: Segment, p: Vec3, ignoreEnds: bool): (r: Option<Vec3>)
    ensures r.None? <==> s.p1 == s.p2
  {
    var d := Sub(s.p2, s.p1);
    if s.p1 == s.p2 then None
    else
      var lenSq := LengthSqOfDistinct(s.p1, s.p2);
      var ratio := Dot(Sub(p, s.p1), d) / lenSq;
      var foot := Vec3(s.p1.x + ratio * d.x, s.p1.y + ratio * d.y, s.p1.z + ratio * d.z);
      if ignoreEnds then Some(foot)
      else if ratio <= 0.0 then Some(s.p1)
      else if ratio >= 1.0 then Some(s.p2)
      else Some(foot)
  }

  /** The squared distance from direction d = p2 - p1 and v = p - p1, with
      the same three cases as in two dimensions and the clamp at 0. */
  function DistanceSqTerms(d: Vec3, v: Vec3): real {
    var dot := Dot(v, d);
    if dot <= 0.0 then Segment2.Clamp0(LengthSq(v) - 0.0)
    else
      var w := Sub(d, v);
      var dot2 := Dot(w, d);
      if dot2 <= 0.0 then Segment2.Clamp0(LengthSq(w) - 0.0)
      else
        DirectionNonZero(d, v);
        Segment2.Clamp0(LengthSq(w) - Vector2.Sq(dot2) / LengthSq(d))
  }

  lemma DirectionNonZero(d: Vec3, v: Vec3)
    requires Dot(v, d) > 0.0
    ensures LengthSq(d) > 0.0
  {
    assert Dot(v, Vec3(0.0, 0.0, 0.0)) == 0.0;
    LengthSqZero(d);
  }

  /** The squared distance from segment p1p2 to p. */
  function ComputeDistanceSq(p1: Vec3, p2: Vec3, p: Vec3): (r: real)
    ensures r >= 0.0
  {
    DistanceSqTerms(Sub(p2, p1), Sub(p, p1))
  }

  /** The distance vanishes at the first endpoint. */
  lemma DistanceSqAtStart(p1: Vec3, p2: Vec3)
    ensures ComputeDistanceSq(p1, p2, p1) == 0.0
  {
    assert Sub(p1, p1) == Vec3(0.0, 0.0, 0.0);
    assert Dot(Vec3(0.0, 0.0, 0.0), Sub(p2, p1)) == 0.0;
  }

  lemma DotSelf(d: Vec3)
    ensures Dot(d, d) == LengthSq(d)
  {
  }

  /** The distance vanishes at the second endpoint. */
  lemma DistanceSqAtEnd(p1: Vec3, p2: Vec3)
    ensures ComputeDistanceSq(p1, p2, p2) == 0.0
  {
    var d := Sub(p2, p1);
    DotSelf(d);
    assert Sub(d, d) == Vec3(0.0, 0.0, 0.0);
    assert Dot(Vec3(0.0, 0.0, 0.0), d) == 0.0;
  }

  lemma FootLength(d: Vec3, v: Vec3, r: real)
    ensures LengthSq(Sub(v, MulScalar(d, r)))
         == (v.x - d.x * r) * (v.x - d.x * r) + (v.y - d.y * r) * (v.y - d.y * r)
            + (v.z - d.z * r) * (v.z - d.z * r)
  {
    var e := Sub(v, MulScalar(d, r));
    assert e == Vec3(v.x - d.x * r, v.y - d.y * r, v.z - d.z * r);
    assert LengthSq(e) == Vector2.Sq(e.x) + Vector2.Sq(e.y) + Vector2.Sq(e.z);
  }

  lemma LengthSqTerms(d: Vec3)
    ensures LengthSq(d) == d.x * d.x + d.y * d.y + d.z * d.z
  {
  }

  /** |v - r d|^2 = |v|^2 - k^2 / l for r = k / l, k = v . d, l = |d|^2. */
  lemma FootDistance(dx: real, dy: real, dz: real, vx: real, vy: real, vz: real,
                     l: real, k: real, r: real)
    requires l == dx * dx + dy * dy + dz * dz && l != 0.0
    requires k == vx * dx + vy * dy + vz * dz && r == k / l
    ensures (vx - dx * r) * (vx - dx * r) + (vy - dy * r) * (vy - dy * r)
            + (vz - dz * r) * (vz - dz * r)
         == vx * vx + vy * vy + vz * vz - k * k / l
  {
    assert r * l == k;
    assert (vx - dx * r) * (vx - dx * r) + (vy - dy * r) * (vy - dy * r)
           + (vz - dz * r) * (vz - dz * r)
        == vx * vx + vy * vy + vz * vz - 2.0 * r * k + r * (r * l);
    assert r * k == k * k / l;
  }

  lemma ReanchorTerms(dx: real, dy: real, dz: real, vx: real, vy: real, vz: real)
    ensures (dx - vx) * (dx - vx) + (dy - vy) * (dy - vy) + (dz - vz) * (dz - vz)
         == (dx * dx + dy * dy + dz * dz) - 2.0 * (vx * dx + vy * dy + vz * dz)
            + (vx * vx + vy * vy + vz * vz)
    ensures (dx - vx) * dx + (dy - vy) * dy + (dz - vz) * dz
         == (dx * dx + dy * dy + dz * dz) - (vx * dx + vy * dy + vz * dz)
  {
  }

  /** Moving the reference point from p1 to p2 changes the projection by
      the squared length. */
  lemma ReanchorDot(d: Vec3, v: Vec3)
    ensures Dot(Sub(d, v), d) == LengthSq(d) - Dot(v, d)
    ensures LengthSq(Sub(d, v)) == LengthSq(d) - 2.0 * Dot(v, d) + LengthSq(v)
  {
    ReanchorTerms(d.x, d.y, d.z, v.x, v.y, v.z);
    LengthSqTerms(d);
    LengthSqTerms(v);
    assert LengthSq(Sub(d, v)) == (d.x - v.x) * (d.x - v.x) + (d.y - v.y) * (d.y - v.y)
                                   + (d.z - v.z) * (d.z - v.z);
  }

  lemma FootToPoint(d: Vec3, v: Vec3)
    requires LengthSq(d) > 0.0
    ensures LengthSq(Sub(v, MulScalar(d, Dot(v, d) / LengthSq(d))))
         == LengthSq(v) - Dot(v, d) * Dot(v, d) / LengthSq(d)
  {
    var r := Dot(v, d) / LengthSq(d);
    FootLength(d, v, r);
    LengthSqTerms(d);
    LengthSqTerms(v);
    FootDistance(d.x, d.y, d.z, v.x, v.y, v.z, LengthSq(d), Dot(v, d), r);
  }

  lemma PointToOtherEnd(d: Vec3, v: Vec3)
    requires LengthSq(d) > 0.0
    ensures LengthSq(v) - Dot(v, d) * Dot(v, d) / LengthSq(d)
         == LengthSq(Sub(d, v)) - Vector2.Sq(Dot(Sub(d, v), d)) / LengthSq(d)
  {
    ReanchorDot(d, v);
    Segment2.ReanchorIdentity(LengthSq(v), LengthSq(Sub(d, v)), LengthSq(d), Dot(v, d), Dot(Sub(d, v), d));
  }

  lemma InsideValue(d: Vec3, v: Vec3)
    requires Dot(v, d) > 0.0 && Dot(Sub(d, v), d) > 0.0
    ensures LengthSq(d) > 0.0
    ensures DistanceSqTerms(d, v)
         == Segment2.Clamp0(LengthSq(Sub(d, v)) - Vector2.Sq(Dot(Sub(d, v), d)) / LengthSq(d))
  {
    DirectionNonZero(d, v);
  }

  /** Projecting strictly inside: the distance is to the foot v - r d. */
  lemma DistanceSqTermsInside(d: Vec3, v: Vec3)
    requires Dot(v, d) > 0.0 && Dot(Sub(d, v), d) > 0.0
    ensures LengthSq(d) > 0.0
    ensures DistanceSqTerms(d, v)
         == LengthSq(Sub(v, MulScalar(d, Dot(v, d) / LengthSq(d))))
  {
    InsideValue(d, v);
    FootToPoint(d, v);
    PointToOtherEnd(d, v);
  }

  /** The squared distance is the squared distance to the closest point
      of the segment. */
  lemma DistanceSqIsClosest(p1: Vec3, p2: Vec3, p: Vec3)
    requires p1 != p2
    ensures ComputeDistanceSq(p1, p2, p)
         == DistanceSq(p, GetClosestPoint(Segment(p1, p2), p, false).value)
  {
    var d := Sub(p2, p1);
    var v := Sub(p, p1);
    var l := LengthSqOfDistinct(p1, p2);
    var k := Dot(v, d);
    Segment2.RatioBounds(k, l);
    ReanchorDot(d, v);
    var q := GetClosestPoint(Segment(p1, p2), p, false).value;
    if k <= 0.0 {
      assert q == p1;
    } else if k >= l {
      assert q == p2;
      assert Sub(d, v) == Sub(p2, p);
      DistanceSqSymmetric(p, p2);
    } else {
      DistanceSqTermsInside(d, v);
      assert Sub(p, q) == Sub(v, MulScalar(d, k / l));
    }
  }

  lemma FootOrthogonal(dx: real, dy: real, dz: real, vx: real, vy: real, vz: real, l: real, r: real)
    requires l == dx * dx + dy * dy + dz * dz && l != 0.0
    requires r == (vx * dx + vy * dy + vz * dz) / l
    ensures (vx - r * dx) * dx + (vy - r * dy) * dy + (vz - r * dz) * dz == 0.0
  {
    assert r * l == vx * dx + vy * dy + vz * dz;
  }

  lemma FootVectors(p1: Vec3, p: Vec3, d: Vec3, r: real)
    ensures var q := Vec3(p1.x + r * d.x, p1.y + r * d.y, p1.z + r * d.z);
      Sub(p, q) == Vec3(Sub(p, p1).x - r * d.x, Sub(p, p1).y - r * d.y, Sub(p, p1).z - r * d.z)
      && Sub(q, p1) == MulScalar(d, r)
  {
  }

  lemma FootDot(d: Vec3, v: Vec3, r: real)
    requires LengthSq(d) != 0.0 && r == Dot(v, d) / LengthSq(d)
    ensures Dot(Vec3(v.x - r * d.x, v.y - r * d.y, v.z - r * d.z), d) == 0.0
  {
    LengthSqTerms(d);
    FootOrthogonal(d.x, d.y, d.z, v.x, v.y, v.z, LengthSq(d), r);
  }

  /** Without clamping the result is the foot of the perpendicular: p - q
      is orthogonal to the segment and q - p1 is a multiple of it. */
  lemma ClosestPointIsFoot(s: Segment, p: Vec3)
    requires s.p1 != s.p2
    ensures var q := GetClosestPoint(s, p, true).value;
      Dot(Sub(p, q), Sub(s.p2, s.p1)) == 0.0
      && Sub(q, s.p1) == MulScalar(Sub(s.p2, s.p1), Dot(Sub(p, s.p1), Sub(s.p2, s.p1)) / LengthSq(Sub(s.p2, s.p1)))
  {
    var d := Sub(s.p2, s.p1);
    var v := Sub(p, s.p1);
    var l := LengthSqOfDistinct(s.p1, s.p2);
    var r := Dot(v, d) / l;
    FootVectors(s.p1, p, d, r);
    FootDot(d, v, r);
  }

  lemma DotAgainstP2(x1: real, y1: real, z1: real, x2: real, y2: real, z2: real,
                     px: real, py: real, pz: real)
    ensures (px - x2) * (x2 - x1) + (py - y2) * (y2 - y1) + (pz - z2) * (z2 - z1)
         == ((px - x1) * (x2 - x1) + (py - y1) * (y2 - y1) + (pz - z1) * (z2 - z1))
            - ((x2 - x1) * (x2 - x1) + (y2 - y1) * (y2 - y1) + (z2 - z1) * (z2 - z1))
  {
  }

  /** Projection measured from p2 is the projection from p1 minus |d|^2. */
  lemma ShiftToEnd(p1: Vec3, p2: Vec3, p: Vec3)
    ensures Dot(Sub(p, p2), Sub(p2, p1)) == Dot(Sub(p, p1), Sub(p2, p1)) - LengthSq(Sub(p2, p1))
  {
    DotSelf(Sub(p2, p1));
    DotAgainstP2(p1.x, p1.y, p1.z, p2.x, p2.y, p2.z, p.x, p.y, p.z);
  }

  /** The clamp in terms of dot products: p1 when p projects at or before
      p1, p2 when it projects at or beyond p2, the foot otherwise. */
  lemma ClosestPointClamp(s: Segment, p: Vec3)
    requires s.p1 != s.p2
    ensures var d := Sub(s.p2, s.p1);
      GetClosestPoint(s, p, false).value
      == if Dot(Sub(p, s.p1), d) <= 0.0 then s.p1
         else if Dot(Sub(p, s.p2), d) >= 0.0 then s.p2
         else GetClosestPoint(s, p, true).value
  {
    var d := Sub(s.p2, s.p1);
    var l := LengthSqOfDistinct(s.p1, s.p2);
    var k := Dot(Sub(p, s.p1), d);
    Segment2.RatioBounds(k, l);
    ShiftToEnd(s.p1, s.p2, p);
  }
  // ---------------------------------------------------------------------
  // Point along the segment, translation, perpendicularity, and the
  // distance between two segments
  // ---------------------------------------------------------------------

  /** `getPointAt(t)`: the point reached from p1 towards p2 by the fraction
      t (p1 at 0, p2 at 1). */
  function GetPointAt(s: Segment, t: real): (r: Vec3)
    ensures t == 0.0 ==> r == s.p1
    ensures t == 1.0 ==> r == s.p2
    ensures Sub(r, s.p1) == MulScalar(Sub(s.p2, s.p1), t)
  {
    var d := Sub(s.p2, s.p1);
    Vec3(s.p1.x + d.x * t, s.p1.y + d.y * t, s.p1.z + d.z * t)
  }

  /** `translate(v)`: both endpoints moved by v; the direction is kept. */
  function Translate(s: Segment, v: Vec3): (r: Segment)
    ensures Sub(r.p2, r.p1) == Sub(s.p2, s.p1)
    ensures Sub(r.p1, s.p1) == v && Sub(r.p2, s.p2) == v
  {
    Segment(Add(s.p1, v), Add(s.p2, v))
  }

  /** Distances are unchanged when the segment and the point move
      together, and translating back undoes a translation. */
  lemma TranslateKeepsDistance(s: Segment, v: Vec3, p: Vec3)
    ensures var r := Translate(s, v);
      ComputeDistanceSq(r.p1, r.p2, Add(p, v)) == ComputeDistanceSq(s.p1, s.p2, p)
    ensures Translate(Translate(s, v), MulScalar(v, -1.0)) == s
  {
    var r := Translate(s, v);
    assert Sub(Add(p, v), r.p1) == Sub(p, s.p1);
  }

  /** `isPerpendicular`: the dot product of the two directions is within
      `tolerance` of zero. */
  predicate IsPerpendicular(s: Segment, t: Segment, tolerance: real) {
    Utils.IsNearEqual(Dot(Sub(s.p2, s.p1), Sub(t.p2, t.p1)), 0.0, tolerance)
  }

  /** Perpendicularity does not depend on the order of the segments nor on
      the direction either one is traversed in. */
  lemma IsPerpendicularSymmetric(s: Segment, t: Segment, tolerance: real)
    ensures IsPerpendicular(s, t, tolerance) <==> IsPerpendicular(t, s, tolerance)
    ensures IsPerpendicular(s, t, tolerance) <==> IsPerpendicular(Inverse(s), t, tolerance)
  {
    var a, b := Sub(s.p2, s.p1), Sub(t.p2, t.p1);
    assert Dot(Sub(s.p1, s.p2), b) == -Dot(a, b);
  }

  /** `getSegmentDistanceSq`: the smaller squared distance from this
      segment to the other's two endpoints. */
  function GetSegmentDistanceSq(s: Segment, t: Segment): (r: real)
    ensures r >= 0.0
    ensures r <= ComputeDistanceSq(s.p1, s.p2, t.p1) && r <= ComputeDistanceSq(s.p1, s.p2, t.p2)
    ensures r == ComputeDistanceSq(s.p1, s.p2, t.p1) || r == ComputeDistanceSq(s.p1, s.p2, t.p2)
  {
    Segment2.Min2(ComputeDistanceSq(s.p1, s.p2, t.p1), ComputeDistanceSq(s.p1, s.p2, t.p2))
  }

  /** Two segments sharing an endpoint are at distance zero. */
  lemma GetSegmentDistanceSqShared(s: Segment, t: Segment)
    requires t.p1 == s.p1 || t.p2 == s.p1 || t.p1 == s.p2 || t.p2 == s.p2
    ensures GetSegmentDistanceSq(s, t) == 0.0
  {
    var a := ComputeDistanceSq(s.p1, s.p2, t.p1);
    var b := ComputeDistanceSq(s.p1, s.p2, t.p2);
    DistanceSqAtStart(s.p1, s.p2);
    DistanceSqAtEnd(s.p1, s.p2);
    assert a == 0.0 || b == 0.0;
  }
}
