/** Two-dimensional points and the polygon measures computed statically on
    arrays of them (area, centroid, center of mass). Coordinates are exact
    reals: single-precision rounding is not modelled. */
module Vector2 {
  import opened Wrappers
  import opened SeqUtil

  datatype Vec2 = Vec2(x: real, y: real)

  /** Componentwise equality test. */
  predicate Equals(v: Vec2, w: Vec2) {
    v.x == w.x && v.y == w.y
  }

  lemma EqualsIsIdentity(v: Vec2, w: Vec2)
    ensures Equals(v, w) <==> v == w
  {
  }

  function Add(v: Vec2, w: Vec2): Vec2 {
    Vec2(v.x + w.x, v.y + w.y)
  }

  function Sub(v: Vec2, w: Vec2): Vec2 {
    Vec2(v.x - w.x, v.y - w.y)
  }

  /** Adding and then subtracting the same vector (or the other way round)
      restores the original. */
  lemma AddSubInverse(v: Vec2, w: Vec2)
    ensures Sub(Add(v, w), w) == v
    ensures Add(Sub(v, w), w) == v
  {
  }

  function Negate(v: Vec2): (r: Vec2)
    ensures Add(v, r) == Vec2(0.0, 0.0)
  {
    Vec2(-v.x, -v.y)
  }

  function MulScalar(v: Vec2, s: real): Vec2 {
    Vec2(v.x * s, v.y * s)
  }

  /** Division by a scalar; dividing by zero yields the zero vector. */
  function DivScalar(v: Vec2, s: real): (r: Vec2)
    ensures s != 0.0 ==> MulScalar(r, s) == v
    ensures s == 0.0 ==> r == Vec2(0.0, 0.0)
  {
    if s != 0.0 then MulScalar(v, 1.0 / s) else Vec2(0.0, 0.0)
  }

  function Dot(v: Vec2, w: Vec2): real {
    v.x * w.x + v.y * w.y
  }

  lemma MulPositive(a: real, b: real)
    requires a > 0.0 && b > 0.0
    ensures a * b > 0.0
  {
  }

  /** The square of a coordinate. Squares are always taken through this
      function, so that facts about them are stated about one term. */
  function Sq(a: real): real {
    a * a
  }

  lemma ProductPositive(a: real, b: real, s: real)
    requires a > 0.0 && b > 0.0 && s == a * b
    ensures s > 0.0
  {
  }

  lemma SqPositive(a: real)
    requires a != 0.0
    ensures Sq(a) > 0.0
  {
    if a > 0.0 {
      ProductPositive(a, a, Sq(a));
    } else {
      ProductPositive(-a, -a, Sq(a));
    }
  }

  lemma SqNonneg(a: real)
    ensures Sq(a) >= 0.0
  {
    if a != 0.0 {
      SqPositive(a);
    }
  }

  /** A sum of two squares vanishes only when both terms do. */
  lemma SqSumPositive(a: real, b: real)
    requires a != 0.0 || b != 0.0
    ensures Sq(a) + Sq(b) > 0.0
  {
    SqNonneg(a);
    SqNonneg(b);
    if a != 0.0 {
      SqPositive(a);
    } else {
      SqPositive(b);
    }
  }

  function LengthSq(v: Vec2): (r: real)
    ensures r >= 0.0
    ensures v == Vec2(0.0, 0.0) ==> r == 0.0
  {
    SqNonneg(v.x);
    SqNonneg(v.y);
    Sq(v.x) + Sq(v.y)
  }

  lemma SubZero(v: Vec2, w: Vec2)
    ensures Sub(v, w) == Vec2(0.0, 0.0) <==> v == w
  {
  }

  /** The squared length is zero exactly for the zero vector. */
  lemma LengthSqZero(v: Vec2)
    ensures LengthSq(v) > 0.0 <==> v != Vec2(0.0, 0.0)
  {
    if v != Vec2(0.0, 0.0) {
      SqSumPositive(v.x, v.y);
    }
  }

  function DistanceSq(v: Vec2, w: Vec2): (r: real)
    ensures r >= 0.0
    ensures v == w ==> r == 0.0
  {
    LengthSq(Sub(v, w))
  }

  lemma DistanceSqSymmetric(v: Vec2, w: Vec2)
    ensures DistanceSq(v, w) == DistanceSq(w, v)
  {
    assert Sub(v, w) == Negate(Sub(w, v));
  }

  /** Componentwise minimum: each coordinate is the smaller of the two. */
  function Min(v: Vec2, w: Vec2): (r: Vec2)
    ensures r.x <= v.x && r.x <= w.x && (r.x == v.x || r.x == w.x)
    ensures r.y <= v.y && r.y <= w.y && (r.y == v.y || r.y == w.y)
  {
    Vec2(if v.x > w.x then w.x else v.x, if v.y > w.y then w.y else v.y)
  }

  /** Componentwise maximum: each coordinate is the larger of the two. */
  function Max(v: Vec2, w: Vec2): (r: Vec2)
    ensures r.x >= v.x && r.x >= w.x && (r.x == v.x || r.x == w.x)
    ensures r.y >= v.y && r.y >= w.y && (r.y == v.y || r.y == w.y)
  {
    Vec2(if v.x < w.x then w.x else v.x, if v.y < w.y then w.y else v.y)
  }

  /** Linear interpolation from `v` (alpha 0) to `w` (alpha 1). */
  function Lerp(v: Vec2, w: Vec2, alpha: real): (r: Vec2)
    ensures alpha == 0.0 ==> r == v
    ensures alpha == 1.0 ==> r == w
    ensures Sub(r, v) == MulScalar(Sub(w, v), alpha)
  {
    Vec2(v.x + (w.x - v.x) * alpha, v.y + (w.y - v.y) * alpha)
  }

  /** The 2D cross product a.x*b.y - b.x*a.y (twice the signed area of
      the triangle origin, a, b). */
  function Cross(a: Vec2, b: Vec2): real {
    a.x * b.y - b.x * a.y
  }

  // ---------------------------------------------------------------------
  // The reference signed area (shoelace formula)
  // ---------------------------------------------------------------------

  /** Sum of Cross(s[k], s[k+1]) over the open polyline s[0], ..., s[|s|-1]. */
  function OpenCross(s: seq<Vec2>): real {
    if |s| < 2 then 0.0 else Cross(s[0], s[1]) + OpenCross(s[1..])
  }

  /** The signed area of the closed polygon `s` by the shoelace formula:
      positive when the vertices run counter-clockwise. */
  function Shoelace(s: seq<Vec2>): real {
    if |s| == 0 then 0.0 else (OpenCross(s) + Cross(s[|s| - 1], s[0])) / 2.0
  }

  lemma {:induction false} OpenCrossAppend(s: seq<Vec2>, a: Vec2)
    requires |s| >= 1
    ensures OpenCross(s + [a]) == OpenCross(s) + Cross(s[|s| - 1], a)
    decreases |s|
  {
    if |s| == 1 {
      assert (s + [a])[1..] == [a];
    } else {
      assert (s + [a])[1..] == s[1..] + [a];
      OpenCrossAppend(s[1..], a);
    }
  }

  lemma {:induction false} OpenCrossReverse(s: seq<Vec2>)
    ensures OpenCross(Reverse(s)) == -OpenCross(s)
    decreases |s|
  {
    if |s| >= 2 {
      var t := s[1..];
      assert Reverse(s) == Reverse(t) + [s[0]];
      OpenCrossReverse(t);
      OpenCrossAppend(Reverse(t), s[0]);
    } else if |s| == 1 {
      assert Reverse(s) == s;
    }
  }

  /** Reversing the vertex order negates the signed area. */
  lemma ShoelaceReverse(s: seq<Vec2>)
    ensures Shoelace(Reverse(s)) == -Shoelace(s)
  {
    OpenCrossReverse(s);
  }

  // ---------------------------------------------------------------------
  // ComputeArea
  // ---------------------------------------------------------------------

  /** The trapezoid term the loop adds for the edge from `p1` to `p2`. */
  function TrapezoidTerm(p1: Vec2, p2: Vec2): real {
    (p2.x + p1.x) * (p2.y - p1.y)
  }

  /** The loop's accumulated sum over vertices i..|s|-1, each paired with its
      predecessor (the last vertex precedes vertex 0). */
  function TrapezoidSum(s: seq<Vec2>, i: nat): real
    requires i <= |s|
    decreases |s| - i
  {
    if i == |s| then 0.0
    else TrapezoidTerm(s[PrevIndex(|s|, i)], s[i]) + TrapezoidSum(s, i + 1)
  }

  /** Signed area of a polygon given as its vertex array (the wrapped
      trapezoid loop). */
  function ComputeArea(s: seq<Vec2>): real {
    TrapezoidSum(s, 0) * 0.5
  }

  function Diag(p: Vec2): real { p.x * p.y }

  lemma TrapezoidTermIsCross(p1: Vec2, p2: Vec2)
    ensures TrapezoidTerm(p1, p2) == Cross(p1, p2) + Diag(p2) - Diag(p1)
  {
  }

  lemma {:induction false} TrapezoidSumTail(s: seq<Vec2>, i: nat)
    requires 1 <= i <= |s|
    ensures TrapezoidSum(s, i) == OpenCross(s[i - 1..]) + Diag(s[|s| - 1]) - Diag(s[i - 1])
    decreases |s| - i
  {
    if i < |s| {
      TrapezoidSumTail(s, i + 1);
      TrapezoidTermIsCross(s[i - 1], s[i]);
      assert s[i - 1..][1..] == s[i..];
    }
  }

  /** The trapezoid loop computes the shoelace signed area. */
  lemma ComputeAreaIsShoelace(s: seq<Vec2>)
    ensures ComputeArea(s) == Shoelace(s)
  {
    if |s| > 0 {
      TrapezoidSumTail(s, 1);
      TrapezoidTermIsCross(s[|s| - 1], s[0]);
      assert s[0..] == s;
    }
  }

  /** Reversing the vertex array negates the computed area. */
  lemma ComputeAreaReverse(s: seq<Vec2>)
    ensures ComputeArea(Reverse(s)) == -ComputeArea(s)
  {
    ComputeAreaIsShoelace(s);
    ComputeAreaIsShoelace(Reverse(s));
    ShoelaceReverse(s);
  }

  // ---------------------------------------------------------------------
  // Centroid and center of mass
  // ---------------------------------------------------------------------

  /** First moments and doubled area accumulated over polygon edges. */
  datatype Moments = Moments(mx: real, my: real, area2: real)

  function AddMoments(m: Moments, n: Moments): Moments {
    Moments(m.mx + n.mx, m.my + n.my, m.area2 + n.area2)
  }

  /** What one edge p0 -> p1 contributes to the three running sums. */
  function EdgeMoments(p0: Vec2, p1: Vec2): Moments {
    var a := Cross(p0, p1);
    Moments((p0.x + p1.x) * a, (p0.y + p1.y) * a, a)
  }

  /** The sums over the open polyline edges s[k] -> s[k+1]. */
  function OpenMoments(s: seq<Vec2>): Moments {
    if |s| < 2 then Moments(0.0, 0.0, 0.0)
    else AddMoments(EdgeMoments(s[0], s[1]), OpenMoments(s[1..]))
  }

  /** The sums over every edge of the closed polygon, the closing one included. */
  function ClosedMoments(s: seq<Vec2>): Moments
    requires |s| >= 1
  {
    AddMoments(OpenMoments(s), EdgeMoments(s[|s| - 1], s[0]))
  }

  /** The area sum the moment loops accumulate is the shoelace sum. */
  lemma {:induction false} OpenMomentsArea(s: seq<Vec2>)
    ensures OpenMoments(s).area2 == OpenCross(s)
    decreases |s|
  {
    if |s| >= 2 {
      OpenMomentsArea(s[1..]);
    }
  }

  lemma ClosedMomentsArea(s: seq<Vec2>)
    requires |s| >= 1
    ensures ClosedMoments(s).area2 == 2.0 * Shoelace(s)
  {
    OpenMomentsArea(s);
  }

  /** The point whose coordinates are the first moments divided by `k`. */
  function Centre(m: Moments, k: real): Vec2
    requires k != 0.0
  {
    Vec2(m.mx / k, m.my / k)
  }

  /** Centroid of the polygon: the closed first moments divided by six
      times the signed area. `None` where the source would read a missing
      vertex (empty array) or divide by a zero area. */
  function ComputeCentroid(s: seq<Vec2>): (r: Option<Vec2>)
    ensures r.Some? <==> |s| >= 1 && Shoelace(s) != 0.0
  {
    if |s| == 0 then None
    else
      ClosedMomentsArea(s);
      var m := ClosedMoments(s);
      var signedArea := m.area2 * 0.5;
      if signedArea == 0.0 then None
      else Some(Centre(m, 6.0 * signedArea))
  }

  /** Center of mass as the source computes it: only the open edges
      s[k] -> s[k+1] are summed and the moments are divided by six times
      the doubled area. `None` where the result would be NaN or infinite. */
  function ComputeCenterOfMass(s: seq<Vec2>): (r: Option<Vec2>)
    ensures r.Some? <==> OpenCross(s) != 0.0
  {
    OpenMomentsArea(s);
    var m := OpenMoments(s);
    if m.area2 == 0.0 then None
    else Some(Centre(m, m.area2 * 6.0))
  }

  /** Center of mass with the closing edge included and the moments divided
      by three times the doubled area (six times the area). */
  function CenterOfMassCorrected(s: seq<Vec2>): (r: Option<Vec2>)
    ensures r.Some? <==> |s| >= 1 && Shoelace(s) != 0.0
  {
    if |s| == 0 then None
    else
      ClosedMomentsArea(s);
      var m := ClosedMoments(s);
      if m.area2 == 0.0 then None
      else Some(Centre(m, m.area2 * 3.0))
  }

  lemma {:induction false} OpenMomentsAppend(s: seq<Vec2>, a: Vec2)
    requires |s| >= 1
    ensures OpenMoments(s + [a]) == AddMoments(OpenMoments(s), EdgeMoments(s[|s| - 1], a))
    decreases |s|
  {
    if |s| == 1 {
      assert (s + [a])[1..] == [a];
    } else {
      assert (s + [a])[1..] == s[1..] + [a];
      OpenMomentsAppend(s[1..], a);
    }
  }

  lemma HalfDivisor(x: real, area2: real)
    requires area2 != 0.0
    ensures x / (area2 * 6.0) == (x / (6.0 * (area2 * 0.5))) * 0.5
  {
  }

  /** Closing the polyline explicitly (repeating the first vertex at the end)
      makes the center of mass sum every polygon edge, and it then comes out
      as exactly half of the centroid. */
  lemma CenterOfMassOfClosedIsHalfCentroid(s: seq<Vec2>)
    requires |s| >= 1
    ensures ComputeCenterOfMass(s + [s[0]]).Some? <==> ComputeCentroid(s).Some?
    ensures ComputeCentroid(s).Some? ==>
      ComputeCenterOfMass(s + [s[0]]).value == MulScalar(ComputeCentroid(s).value, 0.5)
  {
    OpenMomentsAppend(s, s[0]);
    var m := ClosedMoments(s);
    assert OpenMoments(s + [s[0]]) == m;
    if m.area2 != 0.0 {
      HalfDivisor(m.mx, m.area2);
      HalfDivisor(m.my, m.area2);
    }
  }

  /** The corrected center of mass agrees with the centroid everywhere. */
  lemma CenterOfMassCorrectedIsCentroid(s: seq<Vec2>)
    ensures CenterOfMassCorrected(s) == ComputeCentroid(s)
  {
  }

  /** Twice the signed area of triangle a, b, c. */
  function TriangleArea2(a: Vec2, b: Vec2, c: Vec2): real {
    Cross(a, b) + Cross(b, c) + Cross(c, a)
  }

  /** The shoelace area of a triangle is half its doubled area. */
  lemma ShoelaceTriangle(a: Vec2, b: Vec2, c: Vec2)
    ensures Shoelace([a, b, c]) == TriangleArea2(a, b, c) / 2.0
  {
    assert [a, b, c][1..] == [b, c] && [b, c][1..] == [c];
    assert OpenCross([c]) == 0.0;
    assert OpenCross([b, c]) == Cross(b, c);
  }

  lemma TriangleMomentX(a_x: real, a_y: real, b_x: real, b_y: real, c_x: real, c_y: real)
    ensures (a_x + b_x) * (a_x * b_y - b_x * a_y) + (b_x + c_x) * (b_x * c_y - c_x * b_y)
          + (c_x + a_x) * (c_x * a_y - a_x * c_y)
         == ((a_x * b_y - b_x * a_y) + (b_x * c_y - c_x * b_y) + (c_x * a_y - a_x * c_y)) * (a_x + b_x + c_x)
  {
  }

  lemma TriangleMomentY(a_x: real, a_y: real, b_x: real, b_y: real, c_x: real, c_y: real)
    ensures (a_y + b_y) * (a_x * b_y - b_x * a_y) + (b_y + c_y) * (b_x * c_y - c_x * b_y)
          + (c_y + a_y) * (c_x * a_y - a_x * c_y)
         == ((a_x * b_y - b_x * a_y) + (b_x * c_y - c_x * b_y) + (c_x * a_y - a_x * c_y)) * (a_y + b_y + c_y)
  {
  }

  lemma OpenMomentsTriangle(a: Vec2, b: Vec2, c: Vec2)
    ensures OpenMoments([a, b, c]) == AddMoments(EdgeMoments(a, b), EdgeMoments(b, c))
  {
    assert [a, b, c][1..] == [b, c] && [b, c][1..] == [c];
    assert OpenMoments([c]) == Moments(0.0, 0.0, 0.0);
  }

  /** The closed moments of a triangle are its doubled area times the sums
      of the vertex coordinates. */
  lemma TriangleClosedMoments(a: Vec2, b: Vec2, c: Vec2)
    ensures ClosedMoments([a, b, c]) ==
      Moments(TriangleArea2(a, b, c) * (a.x + b.x + c.x),
              TriangleArea2(a, b, c) * (a.y + b.y + c.y),
              TriangleArea2(a, b, c))
  {
    OpenMomentsTriangle(a, b, c);
    TriangleMomentX(a.x, a.y, b.x, b.y, c.x, c.y);
    TriangleMomentY(a.x, a.y, b.x, b.y, c.x, c.y);
  }

  lemma DivCancel(d: real, s: real)
    requires d != 0.0
    ensures (d * s) / (d * 3.0) == s / 3.0
  {
  }

  /** For a non-degenerate triangle the corrected center of mass is the
      average of the three vertices. */
  lemma CenterOfMassCorrectedTriangle(a: Vec2, b: Vec2, c: Vec2)
    requires TriangleArea2(a, b, c) != 0.0
    ensures CenterOfMassCorrected([a, b, c]) ==
      Some(Vec2((a.x + b.x + c.x) / 3.0, (a.y + b.y + c.y) / 3.0))
  {
    TriangleClosedMoments(a, b, c);
    var d := TriangleArea2(a, b, c);
    var sx, sy := a.x + b.x + c.x, a.y + b.y + c.y;
    var m := ClosedMoments([a, b, c]);
    assert m == Moments(d * sx, d * sy, d);
    assert CenterOfMassCorrected([a, b, c]) == Some(Centre(m, d * 3.0));
    DivCancel(d, sx);
    DivCancel(d, sy);
  }

  /** On the triangle (0,0), (1,0), (0,1), whose centroid is (1/3, 1/3), the
      source's center of mass yields (1/6, 1/6). */
  lemma CenterOfMassTriangleCounterexample(a: Vec2, b: Vec2, c: Vec2)
    requires a == Vec2(0.0, 0.0) && b == Vec2(1.0, 0.0) && c == Vec2(0.0, 1.0)
    ensures ComputeCentroid([a, b, c]) == Some(Vec2(1.0 / 3.0, 1.0 / 3.0))
    ensures ComputeCenterOfMass([a, b, c]) == Some(Vec2(1.0 / 6.0, 1.0 / 6.0))
  {
    UnitTriangleEdges(a, b, c);
    UnitTriangleMoments(a, b, c);
    UnitMomentsCentroid([a, b, c]);
  }

  lemma UnitMomentsCentroid(s: seq<Vec2>)
    requires |s| >= 1
    requires OpenMoments(s) == Moments(1.0, 1.0, 1.0)
    requires ClosedMoments(s) == Moments(1.0, 1.0, 1.0)
    ensures ComputeCentroid(s) == Some(Vec2(1.0 / 3.0, 1.0 / 3.0))
    ensures ComputeCenterOfMass(s) == Some(Vec2(1.0 / 6.0, 1.0 / 6.0))
  {
    var m := Moments(1.0, 1.0, 1.0);
    assert ComputeCentroid(s) == Some(Centre(m, 6.0 * (1.0 * 0.5)));
    assert ComputeCenterOfMass(s) == Some(Centre(m, 1.0 * 6.0));
  }

  lemma UnitTriangleMoments(a: Vec2, b: Vec2, c: Vec2)
    requires EdgeMoments(a, b) == Moments(0.0, 0.0, 0.0)
    requires EdgeMoments(b, c) == Moments(1.0, 1.0, 1.0)
    requires EdgeMoments(c, a) == Moments(0.0, 0.0, 0.0)
    ensures OpenMoments([a, b, c]) == Moments(1.0, 1.0, 1.0)
    ensures ClosedMoments([a, b, c]) == Moments(1.0, 1.0, 1.0)
  {
    OpenMomentsTriangle(a, b, c);
    assert ClosedMoments([a, b, c]) == AddMoments(OpenMoments([a, b, c]), EdgeMoments(c, a));
  }

  lemma UnitTriangleEdges(a: Vec2, b: Vec2, c: Vec2)
    requires a == Vec2(0.0, 0.0) && b == Vec2(1.0, 0.0) && c == Vec2(0.0, 1.0)
    ensures EdgeMoments(a, b) == Moments(0.0, 0.0, 0.0)
    ensures EdgeMoments(b, c) == Moments(1.0, 1.0, 1.0)
    ensures EdgeMoments(c, a) == Moments(0.0, 0.0, 0.0)
  {
  }
}
