/** The polygon data model: a closed ring of at least three points with its
    derived signed area, area, winding and bounds, the ray-parity point
    test and the nearest boundary crossing of a segment. */
module Polygon2 {
  import opened Wrappers
  import opened Vector2
  import opened SeqUtil
  import Segment2
  import Triangle2
  import Box2
  import Utils

  /** The points, in ring order: the last point connects back to the first. */
  datatype Polygon = Polygon(points: seq<Vec2>)

  datatype PolygonError = TooFewPoints

  /** The largest finite double, the initial "closest distance" of
      `intersectSegment`. */
  const MAX_VALUE: real :=
    179769313486231570814527423731704356798070567525844996598917476803157260780028538760589558632766878171540458953514382464234321326889464182768467546703537516986049910576551282076245490090389328944075868508455133942304583236903222948165808559332123348274797826204144723168738177180919299881250404026184124858368.0

  predicate Valid(p: Polygon) {
    |p.points| >= 3
  }

  /** The constructor: fewer than three points is an error. With `copy` the
      points are fresh copies, which carry the same coordinates. */
  function New(points: seq<Vec2>, copy: bool): (r: Result<Polygon, PolygonError>)
    ensures r.Ok? <==> |points| >= 3
    ensures r.Ok? ==> Valid(r.value) && r.value.points == points
  {
    if |points| < 3 then Err(TooFewPoints) else Ok(Polygon(points))
  }

  // ---------------------------------------------------------------------
  // Signed area, area and winding
  // ---------------------------------------------------------------------

  /** The term the area loop adds for the edge from `a` to `b`. */
  function EdgeTerm(a: Vec2, b: Vec2): real {
    (a.x - b.x) * (b.y + (a.y - b.y) / 2.0)
  }

  /** The loop's sum over the open edges s[0]s[1], ..., s[n-2]s[n-1]. */
  function OpenEdgeSum(s: seq<Vec2>): real {
    if |s| < 2 then 0.0 else EdgeTerm(s[0], s[1]) + OpenEdgeSum(s[1..])
  }

  /** `computeSignedArea`: the open edges plus the closing edge from the
      last point to the first. */
  function SignedArea(p: Polygon): real
    requires Valid(p)
  {
    var s := p.points;
    OpenEdgeSum(s) + EdgeTerm(s[|s| - 1], s[0])
  }

  function Area(p: Polygon): (r: real)
    requires Valid(p)
    ensures r >= 0.0
    ensures r == SignedArea(p) || r == -SignedArea(p)
  {
    var a := SignedArea(p);
    if a < 0.0 then -a else a
  }

  /** Winding flag: `clockwise` is the negation of "signed area > 0". */
  predicate Clockwise(p: Polygon)
    requires Valid(p)
  {
    !(SignedArea(p) > 0.0)
  }

  /** The cached bounds: the box over all points. */
  function Bounds(p: Polygon): (b: Box2.Box)
    ensures forall i :: 0 <= i < |p.points| ==> Box2.ContainsPoint(b, p.points[i])
  {
    Box2.SetFromPoints(p.points)
  }

  lemma EdgeTermIsCross(a: Vec2, b: Vec2)
    ensures EdgeTerm(a, b) == (Cross(a, b) + Diag(a) - Diag(b)) / 2.0
  {
  }

  lemma {:induction false} OpenEdgeSumIsCross(s: seq<Vec2>)
    requires |s| >= 1
    ensures OpenEdgeSum(s) == (OpenCross(s) + Diag(s[0]) - Diag(s[|s| - 1])) / 2.0
    decreases |s|
  {
    if |s| >= 2 {
      OpenEdgeSumIsCross(s[1..]);
      EdgeTermIsCross(s[0], s[1]);
    }
  }

  /** The signed area is the shoelace area: positive for counter-clockwise
      rings, and equal to `Vector2.ComputeArea` on the same points. */
  lemma SignedAreaIsShoelace(p: Polygon)
    requires Valid(p)
    ensures SignedArea(p) == Shoelace(p.points)
    ensures SignedArea(p) == ComputeArea(p.points)
  {
    var s := p.points;
    OpenEdgeSumIsCross(s);
    EdgeTermIsCross(s[|s| - 1], s[0]);
    ComputeAreaIsShoelace(s);
  }

  /** A triangle's signed area is minus half of `Triangle2.GetSignedArea`. */
  lemma TriangleSignedArea(a: Vec2, b: Vec2, c: Vec2)
    ensures SignedArea(Polygon([a, b, c])) == -Triangle2.GetSignedArea(a, b, c) / 2.0
  {
    SignedAreaIsShoelace(Polygon([a, b, c]));
    Triangle2.SignedAreaIsShoelace(a, b, c);
  }

  // ---------------------------------------------------------------------
  // reverseOrder
  // ---------------------------------------------------------------------

  function ReverseOrder(p: Polygon): (r: Polygon)
    requires Valid(p)
    ensures Valid(r) && |r.points| == |p.points|
    ensures forall i :: 0 <= i < |p.points| ==> r.points[i] == p.points[|p.points| - 1 - i]
  {
    Polygon(Reverse(p.points))
  }

  /** Reversing negates the signed area and keeps the area. */
  lemma ReverseOrderArea(p: Polygon)
    requires Valid(p)
    ensures SignedArea(ReverseOrder(p)) == -SignedArea(p)
    ensures Area(ReverseOrder(p)) == Area(p)
  {
    SignedAreaIsShoelace(p);
    SignedAreaIsShoelace(ReverseOrder(p));
    ShoelaceReverse(p.points);
  }

  /** A ring with non-zero area changes winding when reversed. */
  lemma ReverseOrderWinding(p: Polygon)
    requires Valid(p) && SignedArea(p) != 0.0
    ensures Clockwise(ReverseOrder(p)) == !Clockwise(p)
  {
    ReverseOrderArea(p);
  }

  lemma ReverseOrderInvolution(p: Polygon)
    requires Valid(p)
    ensures ReverseOrder(ReverseOrder(p)) == p
  {
    ReverseReverse(p.points);
  }

  // ---------------------------------------------------------------------
  // toSegments
  // ---------------------------------------------------------------------

  /** One segment per point, from it to the next point around the ring. The
      segments form a closed chain. */
  function ToSegments(p: Polygon): (r: seq<Segment2.Segment>)
    ensures |r| == |p.points|
    ensures forall i :: 0 <= i < |r| ==> r[i].p1 == p.points[i]
    ensures forall i :: 0 <= i < |r| ==> r[i].p2 == r[NextIndex(|r|, i)].p1
  {
    var s := p.points;
    seq(|s|, i requires 0 <= i < |s| => Segment2.Segment(s[i], s[NextIndex(|s|, i)]))
  }

  // ---------------------------------------------------------------------
  // containsPoint
  // ---------------------------------------------------------------------

  /** The x where the line through p1 and p2 meets the horizontal line y = py. */
  function CrossX(p1: Vec2, p2: Vec2, py: real): real
    requires p1.y != p2.y
  {
    (p1.x - p2.x) * (py - p1.y) / (p1.y - p2.y) + p1.x
  }

  /** The loop's test for the edge p1p2: it straddles y = pt.y (half-open:
      one end strictly above) and meets it strictly right of pt. */
  predicate Crosses(p1: Vec2, p2: Vec2, pt: Vec2) {
    (p1.y > pt.y) != (p2.y > pt.y) && pt.x < CrossX(p1, p2, pt.y)
  }

  /** The reference count: how many of the edges i..n-1 (edge i joins point
      i and its predecessor) the ray from pt crosses. */
  function CrossingsFrom(s: seq<Vec2>, pt: Vec2, i: nat): nat
    requires i <= |s|
    decreases |s| - i
  {
    if i == |s| then 0
    else (if Crosses(s[i], s[PrevIndex(|s|, i)], pt) then 1 else 0) + CrossingsFrom(s, pt, i + 1)
  }

  /** The loop itself: `c` flips at every crossing edge. The result is `c`
      exactly when the remaining crossings are even. */
  function ToggleFrom(s: seq<Vec2>, pt: Vec2, i: nat, c: bool): (r: bool)
    requires i <= |s|
    ensures r == (c != (CrossingsFrom(s, pt, i) % 2 == 1))
    decreases |s| - i
  {
    if i == |s| then c
    else ToggleFrom(s, pt, i + 1, if Crosses(s[i], s[PrevIndex(|s|, i)], pt) then !c else c)
  }

  /** `containsPoint`: odd crossing parity. */
  function ContainsPoint(p: Polygon, pt: Vec2): (r: bool)
    ensures r <==> CrossingsFrom(p.points, pt, 0) % 2 == 1
  {
    ToggleFrom(p.points, pt, 0, false)
  }

  lemma Cancel(u: real, v: real, d: real)
    requires d != 0.0 && u * d == v * d
    ensures u == v
  {
    assert u == (u * d) / d;
    assert v == (v * d) / d;
  }

  lemma CrossXTerms(ax: real, ay: real, bx: real, b_y: real, py: real)
    requires ay != b_y
    ensures (ax - bx) * (py - ay) / (ay - b_y) + ax == (bx - ax) * (py - b_y) / (b_y - ay) + bx
  {
    var d := ay - b_y;
    var q1 := (ax - bx) * (py - ay) / d;
    var q2 := (bx - ax) * (py - b_y) / (b_y - ay);
    assert q1 * d == (ax - bx) * (py - ay);
    assert q2 * d == -((bx - ax) * (py - b_y));
    assert (q1 - q2) * d == (bx - ax) * d;
    Cancel(q1 - q2, bx - ax, d);
  }

  /** The crossing abscissa does not depend on the edge's direction. */
  lemma CrossXSymmetric(a: Vec2, b: Vec2, py: real)
    requires a.y != b.y
    ensures CrossX(a, b, py) == CrossX(b, a, py)
  {
    CrossXTerms(a.x, a.y, b.x, b.y, py);
  }

  /** The edge test is symmetric in the edge's endpoints. */
  lemma CrossesSymmetric(a: Vec2, b: Vec2, pt: Vec2)
    ensures Crosses(a, b, pt) == Crosses(b, a, pt)
  {
    if a.y != b.y {
      CrossXSymmetric(a, b, pt.y);
    }
  }

  lemma CrossPointTerms(ax: real, ay: real, bx: real, b_y: real, py: real, q: real)
    requires ay != b_y && q == (ax - bx) * (py - ay) / (ay - b_y)
    ensures (b_y - ay) * (q + ax - bx) - (bx - ax) * (py - b_y) == 0.0
  {
    assert q * (ay - b_y) == (ax - bx) * (py - ay);
  }

  /** The crossing point (CrossX, py) lies on the line through the edge. */
  lemma CrossPointOnEdgeLine(a: Vec2, b: Vec2, py: real)
    requires a.y != b.y
    ensures Triangle2.GetSignedArea(a, b, Vec2(CrossX(a, b, py), py)) == 0.0
  {
    CrossPointTerms(a.x, a.y, b.x, b.y, py, (a.x - b.x) * (py - a.y) / (a.y - b.y));
  }

  lemma {:induction false} CrossingsFromIsCount(s: seq<Vec2>, pt: Vec2, i: nat)
    requires i <= |s|
    ensures CrossingsFrom(s, pt, i) == CountTrue(EdgeFlags(s, (a, b) => Crosses(a, b, pt))[i..])
    decreases |s| - i
  {
    if i < |s| {
      CrossingsFromIsCount(s, pt, i + 1);
      var f := EdgeFlags(s, (a, b) => Crosses(a, b, pt));
      assert f[i..][1..] == f[i + 1..];
    }
  }

  /** The point test does not depend on the ring's orientation. */
  lemma ContainsPointReverse(p: Polygon, pt: Vec2)
    requires Valid(p)
    ensures ContainsPoint(ReverseOrder(p), pt) == ContainsPoint(p, pt)
  {
    var s := p.points;
    var test := (a, b) => Crosses(a, b, pt);
    forall a, b ensures test(a, b) == test(b, a) {
      CrossesSymmetric(a, b, pt);
    }
    CrossingsFromIsCount(s, pt, 0);
    CrossingsFromIsCount(Reverse(s), pt, 0);
    assert EdgeFlags(s, test)[0..] == EdgeFlags(s, test);
    assert EdgeFlags(Reverse(s), test)[0..] == EdgeFlags(Reverse(s), test);
    ReversedEdgeCount(s, test);
  }

  // ---------------------------------------------------------------------
  // intersectSegment
  // ---------------------------------------------------------------------

  /** What the loop finds on edge i: the crossing point with `seg`, when the
      overlap test passes and `Intersect` returns a point. */
  function EdgeHit(s: seq<Vec2>, seg: Segment2.Segment, i: nat): Option<Vec2>
    requires i < |s|
  {
    var e := Segment2.Segment(s[i], s[NextIndex(|s|, i)]);
    if Segment2.Intersects(e, seg) then Segment2.Intersect(e.p1, e.p2, seg.p1, seg.p2) else None
  }

  /** The overlap test never discards a point that `Intersect` finds, so an
      edge's hit is exactly its `Intersect` result. */
  lemma EdgeHitIsIntersect(s: seq<Vec2>, seg: Segment2.Segment, i: nat)
    requires i < |s|
    ensures var e := Segment2.Segment(s[i], s[NextIndex(|s|, i)]);
      EdgeHit(s, seg, i) == Segment2.Intersect(e.p1, e.p2, seg.p1, seg.p2)
  {
    var e := Segment2.Segment(s[i], s[NextIndex(|s|, i)]);
    if Segment2.Intersect(e.p1, e.p2, seg.p1, seg.p2).Some? {
      Segment2.IntersectImpliesIntersects(e, seg);
    }
  }

  /** A hit whose squared distance to `origin` is below the start value. */
  predicate Candidate(h: Option<Vec2>, origin: Vec2) {
    h.Some? && DistanceSq(h.value, origin) < MAX_VALUE
  }

  /** The selection loop of `intersectSegment` over the edges' hits: the
      candidate closest to `origin`; on ties the first one wins. */
  method ClosestHit(hits: seq<Option<Vec2>>, origin: Vec2) returns (r: Option<Vec2>)
    ensures r.None? <==> forall i :: 0 <= i < |hits| ==> !Candidate(hits[i], origin)
    ensures r.Some? ==>
      (exists i :: 0 <= i < |hits| && Candidate(hits[i], origin) && hits[i].value == r.value
        && (forall j :: 0 <= j < i && Candidate(hits[j], origin) ==>
              DistanceSq(hits[j].value, origin) > DistanceSq(r.value, origin)))
    ensures r.Some? ==> forall j :: 0 <= j < |hits| && Candidate(hits[j], origin) ==>
      DistanceSq(hits[j].value, origin) >= DistanceSq(r.value, origin)
  {
    var best := MAX_VALUE;
    r := None;
    var at := 0;
    var i := 0;
    while i < |hits|
      invariant 0 <= i <= |hits|
      invariant r.None? <==> forall j :: 0 <= j < i ==> !Candidate(hits[j], origin)
      invariant r.None? ==> best == MAX_VALUE
      invariant r.Some? ==>
        (0 <= at < i && Candidate(hits[at], origin)
         && hits[at].value == r.value && best == DistanceSq(r.value, origin)
         && (forall j :: 0 <= j < at && Candidate(hits[j], origin) ==>
               DistanceSq(hits[j].value, origin) > best))
      invariant forall j :: 0 <= j < i && Candidate(hits[j], origin) ==>
        DistanceSq(hits[j].value, origin) >= best
    {
      var hit := hits[i];
      if hit.Some? {
        var d := DistanceSq(hit.value, origin);
        if d < best {
          r := Some(hit.value);
          best := d;
          at := i;
        }
      }
      i := i + 1;
    }
  }

  /** The hits of all edges, in ring order. */
  function Hits(s: seq<Vec2>, seg: Segment2.Segment): (h: seq<Option<Vec2>>)
    ensures |h| == |s|
    ensures forall i :: 0 <= i < |s| ==> h[i] == EdgeHit(s, seg, i)
  {
    seq(|s|, i requires 0 <= i < |s| => EdgeHit(s, seg, i))
  }

  /** `intersectSegment`: the boundary crossing of `seg` closest to seg.p1,
      the earliest edge on ties, `None` when no edge yields a point. */
  method IntersectSegment(p: Polygon, seg: Segment2.Segment) returns (r: Option<Vec2>)
    ensures r.None? <==> forall i :: 0 <= i < |p.points| ==> !Candidate(EdgeHit(p.points, seg, i), seg.p1)
    ensures r.Some? ==>
      (exists i :: 0 <= i < |p.points| && EdgeHit(p.points, seg, i) == Some(r.value)
        && DistanceSq(r.value, seg.p1) < MAX_VALUE)
    ensures r.Some? ==> forall j :: 0 <= j < |p.points| && Candidate(EdgeHit(p.points, seg, j), seg.p1) ==>
      DistanceSq(EdgeHit(p.points, seg, j).value, seg.p1) >= DistanceSq(r.value, seg.p1)
  {
    var hits := Hits(p.points, seg);
    r := ClosestHit(hits, seg.p1);
  }

  // ---------------------------------------------------------------------
  // Closest boundary point
  // ---------------------------------------------------------------------

  /** The squared distances of `point` to the edges, in ring order. */
  function EdgeDistances(s: seq<Vec2>, point: Vec2): (d: seq<real>)
    ensures |d| == |s|
    ensures forall i :: 0 <= i < |s| ==>
      d[i] == Segment2.ComputeDistanceSq(s[i], s[NextIndex(|s|, i)], point) && d[i] >= 0.0
  {
    seq(|s|, i requires 0 <= i < |s| => Segment2.ComputeDistanceSq(s[i], s[NextIndex(|s|, i)], point))
  }

  /** Position i holds the smallest value of d, below the start value, and
      no earlier position holds a value as small. */
  predicate FirstMinimum(d: seq<real>, i: int) {
    0 <= i < |d| && d[i] < MAX_VALUE
    && (forall j :: 0 <= j < |d| ==> d[i] <= d[j])
    && (forall j :: 0 <= j < i ==> d[j] > d[i])
  }

  /** The selection loop of `getClosestBoundaryPoint`: the first position
      of the smallest value, or -1 when no value is below the start value. */
  method FindFirstMinimum(d: seq<real>) returns (at: int)
    ensures at == -1 <==> forall i :: 0 <= i < |d| ==> d[i] >= MAX_VALUE
    ensures at != -1 ==> FirstMinimum(d, at)
  {
    var best := MAX_VALUE;
    at := -1;
    var i := 0;
    while i < |d|
      invariant 0 <= i <= |d|
      invariant at == -1 <==> forall j :: 0 <= j < i ==> d[j] >= MAX_VALUE
      invariant at == -1 ==> best == MAX_VALUE
      invariant at != -1 ==>
        (0 <= at < i && best == d[at] && best < MAX_VALUE
         && (forall j :: 0 <= j < at ==> d[j] > best))
      invariant forall j :: 0 <= j < i ==> d[j] >= best
    {
      if d[i] < best {
        best := d[i];
        at := i;
      }
      i := i + 1;
    }
  }

  /** The first minimum is unique. */
  lemma FirstMinimumUnique(d: seq<real>, i: int, k: int)
    requires FirstMinimum(d, i) && FirstMinimum(d, k)
    ensures i == k
  {
    assert d[i] <= d[k] && d[k] <= d[i];
  }

  /** `getClosestBoundaryPoint`: the closest point of the first edge nearest
      to `point`. When no edge is nearer than the start value the loop leaves
      its index at -1 and the segment is built from two `undefined` points,
      which the segment constructor turns into the origin twice; a
      zero-length segment has NaN as its closest point. Both cases, and a
      nearest edge between two equal vertices, give `None`. */
  method GetClosestBoundaryPoint(p: Polygon, point: Vec2) returns (r: Option<Vec2>)
    ensures var s := p.points; var d := EdgeDistances(s, point);
      r.None? <==> (forall i :: 0 <= i < |s| ==> d[i] >= MAX_VALUE)
                   || (exists i :: FirstMinimum(d, i) && s[i] == s[NextIndex(|s|, i)])
    ensures var s := p.points; var d := EdgeDistances(s, point);
      r.Some? ==> exists i :: (FirstMinimum(d, i)
        && r == Segment2.GetClosestPoint(Segment2.Segment(s[i], s[NextIndex(|s|, i)]), point, false))
    ensures var s := p.points; var d := EdgeDistances(s, point);
      r.Some? ==> forall j :: 0 <= j < |s| ==> DistanceSq(point, r.value) <= d[j]
  {
    var s := p.points;
    var d := EdgeDistances(s, point);
    var at := FindFirstMinimum(d);
    if at == -1 {
      r := None;
    } else {
      var e := Segment2.Segment(s[at], s[NextIndex(|s|, at)]);
      r := Segment2.GetClosestPoint(e, point, false);
      forall i | FirstMinimum(d, i)
        ensures i == at
      {
        FirstMinimumUnique(d, i, at);
      }
      if r.Some? {
        Segment2.DistanceSqIsClosest(e.p1, e.p2, point);
      }
    }
  }

  // ---------------------------------------------------------------------
  // Removing collinear points
  // ---------------------------------------------------------------------

  /** The area threshold of `optimize`, written 10e-5 in the source. */
  const OPTIMIZE_TOLERANCE: real := 0.0001

  /** Vertex i is dropped when it equals its successor or when it and its
      two original neighbours span a near-zero triangle. */
  predicate Redundant(s: seq<Vec2>, i: nat)
    requires i < |s|
  {
    var pp := s[PrevIndex(|s|, i)];
    var pn := s[NextIndex(|s|, i)];
    s[i] == pn || Utils.Abs(Triangle2.GetSignedArea(pp, s[i], pn)) < OPTIMIZE_TOLERANCE
  }

  /** The vertices among the first n that `optimize` keeps, in order. The
      neighbours are always read from the original ring, never from the
      points already kept. */
  function Kept(s: seq<Vec2>, n: nat): seq<Vec2>
    requires n <= |s|
  {
    if n == 0 then [] else Kept(s, n - 1) + (if Redundant(s, n - 1) then [] else [s[n - 1]])
  }

  /** A point survives exactly when some original vertex equal to it is not
      redundant, and there are never more points than before. */
  lemma {:induction false} KeptMembers(s: seq<Vec2>, n: nat, x: Vec2)
    requires n <= |s|
    ensures x in Kept(s, n) <==> exists i :: 0 <= i < n && !Redundant(s, i) && s[i] == x
    ensures |Kept(s, n)| <= n
    decreases n
  {
    if n > 0 {
      KeptMembers(s, n - 1, x);
      if exists i :: 0 <= i < n - 1 && !Redundant(s, i) && s[i] == x {
        var i :| 0 <= i < n - 1 && !Redundant(s, i) && s[i] == x;
        assert 0 <= i < n && !Redundant(s, i) && s[i] == x;
      }
    }
  }

  /** `optimize`: the polygon without its collinear and repeated vertices.
      The result may have fewer than three points; the source does not
      check. */
  method Optimize(p: Polygon) returns (r: Polygon)
    ensures forall x :: x in r.points <==>
      exists i :: 0 <= i < |p.points| && !Redundant(p.points, i) && p.points[i] == x
    ensures |r.points| <= |p.points|
    ensures r.points == Kept(p.points, |p.points|)
  {
    var s := p.points;
    var kept: seq<Vec2> := [];
    var i := 0;
    while i != |s|
      invariant 0 <= i <= |s|
      invariant kept == Kept(s, i)
    {
      if !Redundant(s, i) {
        kept := kept + [s[i]];
      }
      i := i + 1;
    }
    r := Polygon(kept);
    forall x
      ensures x in r.points <==> exists i :: 0 <= i < |s| && !Redundant(s, i) && s[i] == x
    {
      KeptMembers(s, |s|, x);
    }
    KeptMembers(s, |s|, Vec2(0.0, 0.0));
  }
}
