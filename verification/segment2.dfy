/** Two-dimensional line segments: intersection tests, the intersection
    point, the closest point and the squared distance to a point. */
module Segment2 {
  import opened Wrappers
  import opened Vector2
  import Triangle2
  import Line2
  import Utils

  datatype Segment = Segment(p1: Vec2, p2: Vec2)

  /** Swaps the endpoints. */
  function Inverse(s: Segment): (r: Segment)
    ensures r.p1 == s.p2 && r.p2 == s.p1
  {
    Segment(s.p2, s.p1)
  }

  lemma InverseInvolution(s: Segment)
    ensures Inverse(Inverse(s)) == s
  {
  }

  /** Which side of the directed line p -> q the point s lies on: the
      signed area of the triple (negative to the left, y up). */
  function Side(p: Vec2, q: Vec2, s: Vec2): real {
    Triangle2.GetSignedArea(p, q, s)
  }

  /** r and s are both non-zero and of the same sign. */
  predicate SameStrictSide(r: real, s: real) {
    r != 0.0 && s != 0.0 && ((r >= 0.0 && s >= 0.0) || (r < 0.0 && s < 0.0))
  }

  /** Cross product of the two segment directions; zero exactly for
      parallel (or degenerate) segments. */
  function DirCross(p1: Vec2, p2: Vec2, p3: Vec2, p4: Vec2): real {
    Cross(Sub(p2, p1), Sub(p4, p3))
  }

  // ---------------------------------------------------------------------
  // Intersect: the intersection point of two segments
  // ---------------------------------------------------------------------

  /** The quantities the intersection routine computes: the line
      coefficients, the four side tests and the numerators. */
  datatype IntersectTerms = IntersectTerms(
    a1: real, b1: real, c1: real, a2: real, b2: real, c2: real,
    r1: real, r2: real, r3: real, r4: real, denom: real, x: real, y: real)

  function Terms(p1: Vec2, p2: Vec2, p3: Vec2, p4: Vec2): IntersectTerms {
    var a1 := p2.y - p1.y;
    var b1 := p1.x - p2.x;
    var c1 := p2.x * p1.y - p1.x * p2.y;
    var a2 := p4.y - p3.y;
    var b2 := p3.x - p4.x;
    var c2 := p4.x * p3.y - p3.x * p4.y;
    IntersectTerms(a1, b1, c1, a2, b2, c2,
      a2 * p1.x + b2 * p1.y + c2, a2 * p2.x + b2 * p2.y + c2,
      a1 * p3.x + b1 * p3.y + c1, a1 * p4.x + b1 * p4.y + c1,
      a1 * b2 - a2 * b1, b1 * c2 - b2 * c1, a2 * c1 - a1 * c2)
  }

  lemma SideIdentity(px: real, py: real, qx: real, qy: real, sx: real, sy: real)
    ensures (qy - py) * sx + (px - qx) * sy + (qx * py - px * qy)
         == (qy - py) * (sx - qx) - (qx - px) * (sy - qy)
  {
  }

  lemma DenomIdentity(x1: real, y1: real, x2: real, y2: real,
                      x3: real, y3: real, x4: real, y4: real)
    ensures (y2 - y1) * (x3 - x4) - (y4 - y3) * (x1 - x2)
         == (x2 - x1) * (y4 - y3) - (x4 - x3) * (y2 - y1)
  {
  }

  /** The side tests are signed areas and the denominator is the cross
      product of the directions. */
  lemma TermsMeaning(p1: Vec2, p2: Vec2, p3: Vec2, p4: Vec2)
    ensures var t := Terms(p1, p2, p3, p4);
      t.r1 == Side(p3, p4, p1) && t.r2 == Side(p3, p4, p2)
      && t.r3 == Side(p1, p2, p3) && t.r4 == Side(p1, p2, p4)
      && t.denom == DirCross(p1, p2, p3, p4)
  {
    var t := Terms(p1, p2, p3, p4);
    assert t.r1 == Side(p3, p4, p1) by {
      SideIdentity(p3.x, p3.y, p4.x, p4.y, p1.x, p1.y);
    }
    assert t.r2 == Side(p3, p4, p2) by {
      SideIdentity(p3.x, p3.y, p4.x, p4.y, p2.x, p2.y);
    }
    assert t.r3 == Side(p1, p2, p3) by {
      SideIdentity(p1.x, p1.y, p2.x, p2.y, p3.x, p3.y);
    }
    assert t.r4 == Side(p1, p2, p4) by {
      SideIdentity(p1.x, p1.y, p2.x, p2.y, p4.x, p4.y);
    }
    assert t.denom == DirCross(p1, p2, p3, p4) by {
      DenomIdentity(p1.x, p1.y, p2.x, p2.y, p3.x, p3.y, p4.x, p4.y);
    }
  }

  /** The intersection point of segments p1p2 and p3p4, or `None` when p3
      and p4 lie strictly on one side of line p1p2, when p1 and p2 lie
      strictly on one side of line p3p4, or when the lines are parallel. */
  function Intersect(p1: Vec2, p2: Vec2, p3: Vec2, p4: Vec2): (r: Option<Vec2>)
    ensures r.Some? <==>
      !SameStrictSide(Side(p1, p2, p3), Side(p1, p2, p4))
      && !SameStrictSide(Side(p3, p4, p1), Side(p3, p4, p2))
      && DirCross(p1, p2, p3, p4) != 0.0
  {
    var t := Terms(p1, p2, p3, p4);
    TermsMeaning(p1, p2, p3, p4);
    if SameStrictSide(t.r3, t.r4) then None
    else if SameStrictSide(t.r1, t.r2) then None
    else if t.denom == 0.0 then None
    else Some(Vec2(t.x / t.denom, t.y / t.denom))
  }

  lemma LineConstantIdentity(x1: real, y1: real, x2: real, y2: real)
    ensures (y2 - y1) * x1 + (x1 - x2) * y1 == -(x2 * y1 - x1 * y2)
  {
  }

  /** The point found is the Cramer quotient of the terms. */
  lemma IntersectValue(p1: Vec2, p2: Vec2, p3: Vec2, p4: Vec2)
    requires Intersect(p1, p2, p3, p4).Some?
    ensures var t := Terms(p1, p2, p3, p4);
      t.denom != 0.0 && Intersect(p1, p2, p3, p4).value == Vec2(t.x / t.denom, t.y / t.denom)
  {
  }

  /** The segments' supporting lines, in the form of Line2, carry the
      negated constant terms. */
  lemma LinesOfTerms(p1: Vec2, p2: Vec2, p3: Vec2, p4: Vec2)
    ensures var t := Terms(p1, p2, p3, p4);
      Line2.LineThrough(p1, p2) == Line2.LineEq(t.a1, t.b1, -t.c1)
      && Line2.LineThrough(p3, p4) == Line2.LineEq(t.a2, t.b2, -t.c2)
  {
    LineConstantIdentity(p1.x, p1.y, p2.x, p2.y);
    LineConstantIdentity(p3.x, p3.y, p4.x, p4.y);
  }

  lemma NegatedConstants(a1: real, b1: real, c1: real, a2: real, b2: real, c2: real, d: real)
    requires d != 0.0
    ensures Line2.SolveAt(Line2.LineEq(a1, b1, -c1), Line2.LineEq(a2, b2, -c2), d)
         == Vec2((b1 * c2 - b2 * c1) / d, (a2 * c1 - a1 * c2) / d)
  {
    assert b2 * -c1 - b1 * -c2 == b1 * c2 - b2 * c1;
    assert a1 * -c2 - a2 * -c1 == a2 * c1 - a1 * c2;
  }

  /** The Cramer quotient of the terms is Line2's solution of the two
      supporting lines. */
  lemma TermsSolveLines(p1: Vec2, p2: Vec2, p3: Vec2, p4: Vec2)
    requires Terms(p1, p2, p3, p4).denom != 0.0
    ensures var t := Terms(p1, p2, p3, p4);
      var l0 := Line2.LineThrough(p1, p2);
      var l1 := Line2.LineThrough(p3, p4);
      Line2.Det(l0, l1) == t.denom
      && Line2.SolveAt(l0, l1, t.denom) == Vec2(t.x / t.denom, t.y / t.denom)
  {
    LinesOfTerms(p1, p2, p3, p4);
    SolveTerms(Terms(p1, p2, p3, p4));
  }

  lemma SolveTerms(t: IntersectTerms)
    requires t.denom == t.a1 * t.b2 - t.a2 * t.b1 && t.denom != 0.0
    requires t.x == t.b1 * t.c2 - t.b2 * t.c1 && t.y == t.a2 * t.c1 - t.a1 * t.c2
    ensures var l0 := Line2.LineEq(t.a1, t.b1, -t.c1);
      var l1 := Line2.LineEq(t.a2, t.b2, -t.c2);
      Line2.Det(l0, l1) == t.denom && Line2.SolveAt(l0, l1, t.denom) == Vec2(t.x / t.denom, t.y / t.denom)
  {
    NegatedConstants(t.a1, t.b1, t.c1, t.a2, t.b2, t.c2, t.denom);
  }

  /** A found point is the intersection of the two supporting lines. */
  lemma IntersectIsLineIntersection(p1: Vec2, p2: Vec2, p3: Vec2, p4: Vec2)
    requires Intersect(p1, p2, p3, p4).Some?
    ensures var l0 := Line2.LineThrough(p1, p2);
      var l1 := Line2.LineThrough(p3, p4);
      Line2.Det(l0, l1) != 0.0
      && Intersect(p1, p2, p3, p4).value == Line2.SolveAt(l0, l1, Line2.Det(l0, l1))
  {
    IntersectValue(p1, p2, p3, p4);
    TermsSolveLines(p1, p2, p3, p4);
  }

  /** So a found point is collinear with p1, p2 and with p3, p4. */
  lemma IntersectOnBothLines(p1: Vec2, p2: Vec2, p3: Vec2, p4: Vec2)
    requires Intersect(p1, p2, p3, p4).Some?
    ensures Side(p1, p2, Intersect(p1, p2, p3, p4).value) == 0.0
    ensures Side(p3, p4, Intersect(p1, p2, p3, p4).value) == 0.0
  {
    var l0 := Line2.LineThrough(p1, p2);
    var l1 := Line2.LineThrough(p3, p4);
    IntersectIsLineIntersection(p1, p2, p3, p4);
    var q := Intersect(p1, p2, p3, p4).value;
    Line2.SolveAtOnBoth(l0, l1);
    Line2.OnLineIffCollinear(p1, p2, q);
    Line2.OnLineIffCollinear(p3, p4, q);
  }

  // ---------------------------------------------------------------------
  // FastIntersects: the orientation-only test
  // ---------------------------------------------------------------------

  predicate FastIntersects(p1: Vec2, p2: Vec2, p3: Vec2, p4: Vec2) {
    Triangle2.CCW(p1, p3, p4) != Triangle2.CCW(p2, p3, p4)
    && Triangle2.CCW(p1, p2, p3) != Triangle2.CCW(p1, p2, p4)
  }

  /** The fast test does not depend on which segment comes first. */
  lemma FastIntersectsSymmetric(p1: Vec2, p2: Vec2, p3: Vec2, p4: Vec2)
    ensures FastIntersects(p3, p4, p1, p2) <==> FastIntersects(p1, p2, p3, p4)
  {
    Triangle2.SignedAreaSymmetries(p1, p3, p4);
    Triangle2.SignedAreaSymmetries(p2, p3, p4);
    Triangle2.SignedAreaSymmetries(p3, p1, p2);
    Triangle2.SignedAreaSymmetries(p4, p1, p2);
    Triangle2.CCWIffSignedAreaNonPositive(p1, p3, p4);
    Triangle2.CCWIffSignedAreaNonPositive(p2, p3, p4);
    Triangle2.CCWIffSignedAreaNonPositive(p1, p2, p3);
    Triangle2.CCWIffSignedAreaNonPositive(p1, p2, p4);
    Triangle2.CCWIffSignedAreaNonPositive(p3, p1, p2);
    Triangle2.CCWIffSignedAreaNonPositive(p4, p1, p2);
    Triangle2.CCWIffSignedAreaNonPositive(p3, p4, p1);
    Triangle2.CCWIffSignedAreaNonPositive(p3, p4, p2);
  }

  lemma SideShift(x1: real, y1: real, x2: real, y2: real,
                  x3: real, y3: real, x4: real, y4: real)
    ensures (y2 - y1) * (x4 - x2) - (x2 - x1) * (y4 - y2)
         == (y2 - y1) * (x3 - x2) - (x2 - x1) * (y3 - y2)
            - ((x2 - x1) * (y4 - y3) - (x4 - x3) * (y2 - y1))
  {
  }

  /** Moving the tested point along the other segment changes the side by
      the directions' cross product. */
  lemma SidesDiffer(p1: Vec2, p2: Vec2, p3: Vec2, p4: Vec2)
    ensures Side(p1, p2, p4) == Side(p1, p2, p3) - DirCross(p1, p2, p3, p4)
    ensures Side(p3, p4, p2) == Side(p3, p4, p1) + DirCross(p1, p2, p3, p4)
  {
    SideShift(p1.x, p1.y, p2.x, p2.y, p3.x, p3.y, p4.x, p4.y);
    SideShift(p3.x, p3.y, p4.x, p4.y, p1.x, p1.y, p2.x, p2.y);
    assert DirCross(p3, p4, p1, p2) == -DirCross(p1, p2, p3, p4);
  }

  /** Whenever the orientation test reports a crossing, the intersection
      routine finds a point. */
  lemma FastIntersectsImpliesIntersect(p1: Vec2, p2: Vec2, p3: Vec2, p4: Vec2)
    requires FastIntersects(p1, p2, p3, p4)
    ensures Intersect(p1, p2, p3, p4).Some?
  {
    Triangle2.SignedAreaSymmetries(p1, p3, p4);
    Triangle2.SignedAreaSymmetries(p2, p3, p4);
    Triangle2.CCWIffSignedAreaNonPositive(p1, p3, p4);
    Triangle2.CCWIffSignedAreaNonPositive(p2, p3, p4);
    Triangle2.CCWIffSignedAreaNonPositive(p1, p2, p3);
    Triangle2.CCWIffSignedAreaNonPositive(p1, p2, p4);
    SidesDiffer(p1, p2, p3, p4);
  }

  // ---------------------------------------------------------------------
  // Intersects: Franklin Antonio's test with the collinear extension
  // ---------------------------------------------------------------------

  /** The numerators and the common denominator of Franklin Antonio's
      method, and the collinearity test of p3 against p1p2. */
  datatype FranklinTerms = FranklinTerms(alphaNum: real, betaNum: real, denom: real, collinear: real)

  function Franklin(s: Segment, t: Segment): FranklinTerms {
    var ax := s.p2.x - s.p1.x;
    var ay := s.p2.y - s.p1.y;
    var bx := t.p1.x - t.p2.x;
    var b_y := t.p1.y - t.p2.y;
    var cx := s.p1.x - t.p1.x;
    var cy := s.p1.y - t.p1.y;
    FranklinTerms(b_y * cx - bx * cy, ax * cy - ay * cx, ay * bx - ax * b_y,
      s.p1.x * (s.p2.y - t.p1.y) + s.p2.x * (t.p1.y - s.p1.y) + t.p1.x * (s.p1.y - s.p2.y))
  }

  /** The window test applied to one numerator: false exactly when the
      quotient num/denom falls outside [0, 1]; vacuous when denom is 0. */
  predicate InWindow(num: real, denom: real) {
    if denom > 0.0 then !(num < 0.0 || num > denom)
    else if denom < 0.0 then !(num > 0.0 || num < denom)
    else true
  }

  /** The overlap test on one coordinate, clause by clause. */
  predicate OverlapTest(a1: real, a2: real, b1: real, b2: real) {
    (a1 >= b1 && a1 <= b2) || (a1 <= b1 && a1 >= b2)
    || (a2 >= b1 && a2 <= b2) || (a2 <= b1 && a2 >= b2)
    || (b1 >= a1 && b1 <= a2) || (b1 <= a1 && b1 >= a2)
  }

  predicate Degenerate(s: Segment) {
    s.p1.x == s.p2.x && s.p1.y == s.p2.y
  }

  predicate Intersects(s: Segment, t: Segment) {
    if Degenerate(s) || Degenerate(t) then false
    else
      var f := Franklin(s, t);
      if !InWindow(f.alphaNum, f.denom) then false
      else if !InWindow(f.betaNum, f.denom) then false
      else if f.denom == 0.0 then
        f.collinear == 0.0
        && OverlapTest(s.p1.x, s.p2.x, t.p1.x, t.p2.x)
        && OverlapTest(s.p1.y, s.p2.y, t.p1.y, t.p2.y)
      else true
  }

  lemma AlphaIdentity(x1: real, y1: real, x3: real, y3: real, x4: real, y4: real)
    ensures (y3 - y4) * (x1 - x3) - (x3 - x4) * (y1 - y3)
         == -((y4 - y3) * (x1 - x4) - (x4 - x3) * (y1 - y4))
  {
  }

  lemma BetaIdentity(x1: real, y1: real, x2: real, y2: real, x3: real, y3: real)
    ensures (x2 - x1) * (y1 - y3) - (y2 - y1) * (x1 - x3)
         == (y2 - y1) * (x3 - x2) - (x2 - x1) * (y3 - y2)
    ensures x1 * (y2 - y3) + x2 * (y3 - y1) + x3 * (y1 - y2)
         == -((y2 - y1) * (x3 - x2) - (x2 - x1) * (y3 - y2))
  {
  }

  lemma CommonDenomIdentity(x1: real, y1: real, x2: real, y2: real,
                            x3: real, y3: real, x4: real, y4: real)
    ensures (y2 - y1) * (x3 - x4) - (x2 - x1) * (y3 - y4)
         == (x2 - x1) * (y4 - y3) - (x4 - x3) * (y2 - y1)
  {
  }

  /** Franklin Antonio's quantities in terms of sides: alpha's numerator is
      the negated side of p1 against t, beta's is the side of p3 against s,
      the denominator is the directions' cross product. */
  lemma FranklinMeaning(s: Segment, t: Segment)
    ensures var f := Franklin(s, t);
      f.alphaNum == -Side(t.p1, t.p2, s.p1)
      && f.betaNum == Side(s.p1, s.p2, t.p1)
      && f.denom == DirCross(s.p1, s.p2, t.p1, t.p2)
      && f.collinear == -Side(s.p1, s.p2, t.p1)
  {
    AlphaIdentity(s.p1.x, s.p1.y, t.p1.x, t.p1.y, t.p2.x, t.p2.y);
    BetaIdentity(s.p1.x, s.p1.y, s.p2.x, s.p2.y, t.p1.x, t.p1.y);
    CommonDenomIdentity(s.p1.x, s.p1.y, s.p2.x, s.p2.y, t.p1.x, t.p1.y, t.p2.x, t.p2.y);
  }

  /** With r2 = r1 + d and d != 0, r1 and r2 straddle zero exactly when
      -r1/d lies in [0, 1]. */
  lemma WindowIsStraddle(r1: real, r2: real, d: real)
    requires d != 0.0 && r2 == r1 + d
    ensures InWindow(-r1, d) <==> !SameStrictSide(r1, r2)
  {
  }

  /** For segments that are not parallel the two tests agree: Franklin
      Antonio's window test accepts exactly when the intersection routine
      finds a point. */
  lemma IntersectsAgreesWithIntersect(s: Segment, t: Segment)
    requires DirCross(s.p1, s.p2, t.p1, t.p2) != 0.0
    ensures Intersects(s, t) <==> Intersect(s.p1, s.p2, t.p1, t.p2).Some?
  {
    var d := DirCross(s.p1, s.p2, t.p1, t.p2);
    FranklinMeaning(s, t);
    SidesDiffer(s.p1, s.p2, t.p1, t.p2);
    WindowIsStraddle(Side(t.p1, t.p2, s.p1), Side(t.p1, t.p2, s.p2), d);
    WindowIsStraddle(-Side(s.p1, s.p2, t.p1), -Side(s.p1, s.p2, t.p2), d);
    assert SameStrictSide(Side(s.p1, s.p2, t.p1), Side(s.p1, s.p2, t.p2))
       <==> SameStrictSide(-Side(s.p1, s.p2, t.p1), -Side(s.p1, s.p2, t.p2));
  }

  /** A point found by the intersection routine is always confirmed by
      Franklin Antonio's test. */
  lemma IntersectImpliesIntersects(s: Segment, t: Segment)
    requires Intersect(s.p1, s.p2, t.p1, t.p2).Some?
    ensures Intersects(s, t)
  {
    IntersectsAgreesWithIntersect(s, t);
  }

  function Min2(a: real, b: real): real { if a <= b then a else b }
  function Max2(a: real, b: real): real { if a <= b then b else a }

  /** The closed intervals spanned by (a1, a2) and (b1, b2) meet. */
  predicate IntervalsMeet(a1: real, a2: real, b1: real, b2: real) {
    Min2(a1, a2) <= Max2(b1, b2) && Min2(b1, b2) <= Max2(a1, a2)
  }

  /** The clause-by-clause overlap test is exactly interval intersection. */
  lemma OverlapTestIsIntervalsMeet(a1: real, a2: real, b1: real, b2: real)
    ensures OverlapTest(a1, a2, b1, b2) <==> IntervalsMeet(a1, a2, b1, b2)
  {
  }

  /** For parallel segments the test reports an intersection exactly when
      both have non-zero length, they lie on one line and their x-ranges
      and y-ranges both overlap. */
  lemma IntersectsParallel(s: Segment, t: Segment)
    requires DirCross(s.p1, s.p2, t.p1, t.p2) == 0.0
    ensures Intersects(s, t) <==>
      !Degenerate(s) && !Degenerate(t)
      && Side(s.p1, s.p2, t.p1) == 0.0
      && IntervalsMeet(s.p1.x, s.p2.x, t.p1.x, t.p2.x)
      && IntervalsMeet(s.p1.y, s.p2.y, t.p1.y, t.p2.y)
  {
    FranklinMeaning(s, t);
    OverlapTestIsIntervalsMeet(s.p1.x, s.p2.x, t.p1.x, t.p2.x);
    OverlapTestIsIntervalsMeet(s.p1.y, s.p2.y, t.p1.y, t.p2.y);
  }

  // ---------------------------------------------------------------------
  // Closest point and squared distance
  // ---------------------------------------------------------------------

  /** The point of the segment closest to p. The projection ratio
      r = ((p - p1) . d) / |d|^2, d = p2 - p1, is clamped to the segment
      unless `ignoreEnds` is set. For a zero-length segment the ratio is
      0/0 and every coordinate of the result is NaN, modelled as `None`. */
  function GetClosestPoint(s: Segment, p: Vec2, ignoreEnds: bool): (r: Option<Vec2>)
    ensures r.None? <==> s.p1 == s.p2
  {
    var d := Sub(s.p2, s.p1);
    if s.p1 == s.p2 then None
    else
      var lenSq := LengthSqOfDistinct(s.p1, s.p2);
      var ratio := Dot(Sub(p, s.p1), d) / lenSq;
      if ignoreEnds then Some(Vec2(s.p1.x + ratio * d.x, s.p1.y + ratio * d.y))
      else if ratio <= 0.0 then Some(s.p1)
      else if ratio >= 1.0 then Some(s.p2)
      else Some(Vec2(s.p1.x + ratio * d.x, s.p1.y + ratio * d.y))
  }

  /** |p2 - p1|^2, positive for distinct points. */
  function LengthSqOfDistinct(p1: Vec2, p2: Vec2): (r: real)
    requires p1 != p2
    ensures r > 0.0 && r == LengthSq(Sub(p2, p1))
  {
    SubZero(p2, p1);
    LengthSqZero(Sub(p2, p1));
    LengthSq(Sub(p2, p1))
  }

  function Clamp0(v: real): real {
    if v < 0.0 then 0.0 else v
  }

  /** The squared distance of the segment to a point, from the segment
      direction d = p2 - p1 and the point relative to p1, v = p - p1. If
      the point projects at or before p1 the distance is to p1; otherwise
      the point is re-expressed as w = d - v, relative to p2, and if it
      projects at or beyond p2 the distance is to p2; otherwise the squared
      projection of w on the direction is subtracted. A negative result is
      clamped to 0. */
  function DistanceSqTerms(d: Vec2, v: Vec2): real {
    var dot := Dot(v, d);
    if dot <= 0.0 then Clamp0(LengthSq(v) - 0.0)
    else
      var w := Sub(d, v);
      var dot2 := Dot(w, d);
      if dot2 <= 0.0 then Clamp0(LengthSq(w) - 0.0)
      else
        DirectionNonZero(d, v);
        Clamp0(LengthSq(w) - Sq(dot2) / LengthSq(d))
  }

  lemma DirectionNonZero(d: Vec2, v: Vec2)
    requires Dot(v, d) > 0.0
    ensures LengthSq(d) > 0.0
  {
    assert Dot(v, Vec2(0.0, 0.0)) == 0.0;
    LengthSqZero(d);
  }

  /** The squared distance from segment p1p2 to p. */
  function ComputeDistanceSq(p1: Vec2, p2: Vec2, p: Vec2): (r: real)
    ensures r >= 0.0
  {
    DistanceSqTerms(Sub(p2, p1), Sub(p, p1))
  }

  /** The distance vanishes at the first endpoint. */
  lemma DistanceSqAtStart(p1: Vec2, p2: Vec2)
    ensures ComputeDistanceSq(p1, p2, p1) == 0.0
  {
    assert Sub(p1, p1) == Vec2(0.0, 0.0);
    assert Dot(Vec2(0.0, 0.0), Sub(p2, p1)) == 0.0;
  }

  lemma DotSelf(d: Vec2)
    ensures Dot(d, d) == LengthSq(d)
  {
  }

  /** The distance vanishes at the second endpoint. */
  lemma DistanceSqAtEnd(p1: Vec2, p2: Vec2)
    ensures ComputeDistanceSq(p1, p2, p2) == 0.0
  {
    var d := Sub(p2, p1);
    DotSelf(d);
    assert Sub(d, d) == Vec2(0.0, 0.0);
    assert Dot(Vec2(0.0, 0.0), d) == 0.0;
  }

  /** For l > 0, k / l <= 0 exactly when k <= 0 and k / l >= 1 exactly
      when k >= l. */
  lemma RatioBounds(k: real, l: real)
    requires l > 0.0
    ensures k / l <= 0.0 <==> k <= 0.0
    ensures k / l >= 1.0 <==> k >= l
  {
    var q := k / l;
    assert q * l == k;
    if q > 0.0 {
      MulPositive(q, l);
    } else if q < 0.0 {
      MulPositive(-q, l);
    }
    if q > 1.0 {
      MulPositive(q - 1.0, l);
    } else if q < 1.0 {
      MulPositive(1.0 - q, l);
    }
  }

  /** Distance to the foot of the perpendicular: |v - r d|^2 with
      r = k / l, k = v . d, l = |d|^2, equals |v|^2 - k^2 / l. */
  lemma FootDistance(dx: real, dy: real, vx: real, vy: real, l: real, k: real, r: real)
    requires l == dx * dx + dy * dy && l != 0.0
    requires k == vx * dx + vy * dy && r == k / l
    ensures (vx - dx * r) * (vx - dx * r) + (vy - dy * r) * (vy - dy * r)
         == vx * vx + vy * vy - k * k / l
  {
    assert r * l == k;
    assert (vx - dx * r) * (vx - dx * r) + (vy - dy * r) * (vy - dy * r)
        == vx * vx + vy * vy - 2.0 * r * k + r * (r * l);
    assert r * k == k * k / l;
  }

  /** Re-expressing the point relative to p2 leaves |v|^2 - k^2 / l
      unchanged. */
  lemma ReanchorIdentity(vv: real, ww: real, l: real, k: real, k2: real)
    requires l != 0.0 && ww == l - 2.0 * k + vv && k2 == l - k
    ensures vv - k * k / l == ww - k2 * k2 / l
  {
    assert k2 * k2 == l * l - 2.0 * k * l + k * k;
    assert k2 * k2 / l == l - 2.0 * k + k * k / l;
  }

  lemma ReanchorTerms(dx: real, dy: real, vx: real, vy: real)
    ensures (dx - vx) * (dx - vx) + (dy - vy) * (dy - vy)
         == (dx * dx + dy * dy) - 2.0 * (vx * dx + vy * dy) + (vx * vx + vy * vy)
    ensures (dx - vx) * dx + (dy - vy) * dy == (dx * dx + dy * dy) - (vx * dx + vy * dy)
  {
  }

  /** Moving the reference point from p1 to p2 changes the projection by
      the squared length. */
  lemma ReanchorDot(d: Vec2, v: Vec2)
    ensures Dot(Sub(d, v), d) == LengthSq(d) - Dot(v, d)
    ensures LengthSq(Sub(d, v)) == LengthSq(d) - 2.0 * Dot(v, d) + LengthSq(v)
  {
    ReanchorTerms(d.x, d.y, v.x, v.y);
  }

  lemma FootLength(d: Vec2, v: Vec2, r: real)
    ensures LengthSq(Sub(v, MulScalar(d, r)))
         == (v.x - d.x * r) * (v.x - d.x * r) + (v.y - d.y * r) * (v.y - d.y * r)
    ensures LengthSq(v) == v.x * v.x + v.y * v.y
    ensures LengthSq(d) == d.x * d.x + d.y * d.y
    ensures Dot(v, d) == v.x * d.x + v.y * d.y
  {
    var e := Sub(v, MulScalar(d, r));
    assert e == Vec2(v.x - d.x * r, v.y - d.y * r);
    assert LengthSq(e) == Sq(e.x) + Sq(e.y);
  }

  /** The foot of the perpendicular from v on direction d is at squared
      distance |v|^2 - (v . d)^2 / |d|^2 from v. */
  lemma FootToPoint(d: Vec2, v: Vec2)
    requires LengthSq(d) > 0.0
    ensures LengthSq(Sub(v, MulScalar(d, Dot(v, d) / LengthSq(d))))
         == LengthSq(v) - Dot(v, d) * Dot(v, d) / LengthSq(d)
  {
    var r := Dot(v, d) / LengthSq(d);
    FootLength(d, v, r);
    FootDistance(d.x, d.y, v.x, v.y, LengthSq(d), Dot(v, d), r);
  }

  /** The same quantity measured from p2, with w = d - v. */
  lemma PointToOtherEnd(d: Vec2, v: Vec2)
    requires LengthSq(d) > 0.0
    ensures LengthSq(v) - Dot(v, d) * Dot(v, d) / LengthSq(d)
         == LengthSq(Sub(d, v)) - Sq(Dot(Sub(d, v), d)) / LengthSq(d)
  {
    ReanchorDot(d, v);
    ReanchorIdentity(LengthSq(v), LengthSq(Sub(d, v)), LengthSq(d), Dot(v, d), Dot(Sub(d, v), d));
  }

  lemma FootIdentity(d: Vec2, v: Vec2)
    requires LengthSq(d) > 0.0
    ensures LengthSq(Sub(v, MulScalar(d, Dot(v, d) / LengthSq(d))))
         == LengthSq(Sub(d, v)) - Sq(Dot(Sub(d, v), d)) / LengthSq(d)
  {
    FootToPoint(d, v);
    PointToOtherEnd(d, v);
  }

  lemma InsideValue(d: Vec2, v: Vec2)
    requires Dot(v, d) > 0.0 && Dot(Sub(d, v), d) > 0.0
    ensures LengthSq(d) > 0.0
    ensures DistanceSqTerms(d, v)
         == Clamp0(LengthSq(Sub(d, v)) - Sq(Dot(Sub(d, v), d)) / LengthSq(d))
  {
    DirectionNonZero(d, v);
  }

  /** Projecting strictly inside: the distance is to the foot v - r d. */
  lemma DistanceSqTermsInside(d: Vec2, v: Vec2)
    requires Dot(v, d) > 0.0 && Dot(Sub(d, v), d) > 0.0
    ensures LengthSq(d) > 0.0
    ensures DistanceSqTerms(d, v)
         == LengthSq(Sub(v, MulScalar(d, Dot(v, d) / LengthSq(d))))
  {
    InsideValue(d, v);
    FootIdentity(d, v);
  }

  /** The squared distance is the squared distance to the closest point
      of the segment. */
  lemma DistanceSqIsClosest(p1: Vec2, p2: Vec2, p: Vec2)
    requires p1 != p2
    ensures ComputeDistanceSq(p1, p2, p)
         == DistanceSq(p, GetClosestPoint(Segment(p1, p2), p, false).value)
  {
    var d := Sub(p2, p1);
    var v := Sub(p, p1);
    var l := LengthSqOfDistinct(p1, p2);
    var k := Dot(v, d);
    RatioBounds(k, l);
    ReanchorDot(d, v);
    var q := GetClosestPoint(Segment(p1, p2), p, false).value;
    if k <= 0.0 {
      assert q == p1;
    } else if k >= l {
      assert q == p2;
      assert Sub(d, v) == Sub(p2, p);
      DistanceSqSymmetric(p, p2);
    } else {
      DistanceSqTermsInside(d, v);
      assert Sub(p, q) == Sub(v, MulScalar(d, k / l));
    }
  }

  /** Without clamping the result is the foot of the perpendicular from p:
      it lies on the line p1p2 and p - q is orthogonal to the segment. */
  lemma ClosestPointIsFoot(s: Segment, p: Vec2)
    requires s.p1 != s.p2
    ensures var q := GetClosestPoint(s, p, true).value;
      Side(s.p1, s.p2, q) == 0.0 && Dot(Sub(p, q), Sub(s.p2, s.p1)) == 0.0
  {
    var d := Sub(s.p2, s.p1);
    var v := Sub(p, s.p1);
    var l := LengthSqOfDistinct(s.p1, s.p2);
    var r := Dot(v, d) / l;
    var q := GetClosestPoint(s, p, true).value;
    assert q == Vec2(s.p1.x + r * d.x, s.p1.y + r * d.y);
    FootOrthogonal(d.x, d.y, v.x, v.y, l, r);
    FootCollinear(s.p1.x, s.p1.y, d.x, d.y, r);
    assert Sub(p, q) == Vec2(v.x - r * d.x, v.y - r * d.y);
  }

  lemma FootOrthogonal(dx: real, dy: real, vx: real, vy: real, l: real, r: real)
    requires l == Sq(dx) + Sq(dy) && l != 0.0 && r == (vx * dx + vy * dy) / l
    ensures (vx - r * dx) * dx + (vy - r * dy) * dy == 0.0
  {
    assert r * l == vx * dx + vy * dy;
    assert r * l == r * (dx * dx) + r * (dy * dy);
  }

  lemma FootCollinear(x1: real, y1: real, dx: real, dy: real, r: real)
    ensures dy * ((x1 + r * dx) - (x1 + dx)) - dx * ((y1 + r * dy) - (y1 + dy)) == 0.0
  {
  }

  /** The clamp in terms of dot products: the closest point is p1 when p
      projects at or before p1, p2 when it projects at or beyond p2, and
      the foot of the perpendicular otherwise. */
  lemma ClosestPointClamp(s: Segment, p: Vec2)
    requires s.p1 != s.p2
    ensures var d := Sub(s.p2, s.p1);
      GetClosestPoint(s, p, false).value
      == if Dot(Sub(p, s.p1), d) <= 0.0 then s.p1
         else if Dot(Sub(p, s.p2), d) >= 0.0 then s.p2
         else GetClosestPoint(s, p, true).value
  {
    var d := Sub(s.p2, s.p1);
    var l := LengthSqOfDistinct(s.p1, s.p2);
    var k := Dot(Sub(p, s.p1), d);
    RatioBounds(k, l);
    DotAgainstP2(s.p1.x, s.p1.y, s.p2.x, s.p2.y, p.x, p.y);
    assert l == d.x * d.x + d.y * d.y;
  }

  lemma DotAgainstP2(x1: real, y1: real, x2: real, y2: real, px: real, py: real)
    ensures (px - x2) * (x2 - x1) + (py - y2) * (y2 - y1)
         == ((px - x1) * (x2 - x1) + (py - y1) * (y2 - y1))
            - ((x2 - x1) * (x2 - x1) + (y2 - y1) * (y2 - y1))
  {
  }
  // ---------------------------------------------------------------------
  // Point along the segment, translation, perpendicularity, and the
  // distance between two segments
  // ---------------------------------------------------------------------

  /** `getPointAt(t)`: the point reached from p1 towards p2 by the fraction
      t (p1 at 0, p2 at 1). */
  function GetPointAt(s: Segment, t: real): (r: Vec2)
    ensures t == 0.0 ==> r == s.p1
    ensures t == 1.0 ==> r == s.p2
    ensures Sub(r, s.p1) == MulScalar(Sub(s.p2, s.p1), t)
  {
    Lerp(s.p1, s.p2, t)
  }

  lemma LerpCollinear(px: real, py: real, qx: real, qy: real, t: real)
    ensures (qy - py) * ((px + (qx - px) * t) - qx) - (qx - px) * ((py + (qy - py) * t) - qy) == 0.0
  {
    assert (px + (qx - px) * t) - qx == (qx - px) * (t - 1.0);
    assert (py + (qy - py) * t) - qy == (qy - py) * (t - 1.0);
  }

  /** Every point along the segment lies on its supporting line. */
  lemma GetPointAtOnLine(s: Segment, t: real)
    ensures Side(s.p1, s.p2, GetPointAt(s, t)) == 0.0
  {
    LerpCollinear(s.p1.x, s.p1.y, s.p2.x, s.p2.y, t);
  }

  /** `translate(v)`: both endpoints moved by v; the direction is kept. */
  function Translate(s: Segment, v: Vec2): (r: Segment)
    ensures Sub(r.p2, r.p1) == Sub(s.p2, s.p1)
    ensures Sub(r.p1, s.p1) == v && Sub(r.p2, s.p2) == v
  {
    Segment(Add(s.p1, v), Add(s.p2, v))
  }

  /** Distances are unchanged when the segment and the point move
      together, and translating back undoes a translation. */
  lemma TranslateKeepsDistance(s: Segment, v: Vec2, p: Vec2)
    ensures var r := Translate(s, v);
      ComputeDistanceSq(r.p1, r.p2, Add(p, v)) == ComputeDistanceSq(s.p1, s.p2, p)
    ensures Translate(Translate(s, v), Negate(v)) == s
  {
    var r := Translate(s, v);
    assert Sub(Add(p, v), r.p1) == Sub(p, s.p1);
  }

  /** `isPerpendicular`: the dot product of the two directions is within
      the default tolerance of zero. */
  predicate IsPerpendicular(s: Segment, t: Segment) {
    Utils.IsNearEqual(Dot(Sub(s.p2, s.p1), Sub(t.p2, t.p1)), 0.0, Utils.EPSILON)
  }

  /** Perpendicularity does not depend on the order of the segments nor on
      the direction either one is traversed in. */
  lemma IsPerpendicularSymmetric(s: Segment, t: Segment)
    ensures IsPerpendicular(s, t) <==> IsPerpendicular(t, s)
    ensures IsPerpendicular(s, t) <==> IsPerpendicular(Inverse(s), t)
  {
    var a, b := Sub(s.p2, s.p1), Sub(t.p2, t.p1);
    assert Dot(Sub(s.p1, s.p2), b) == -Dot(a, b);
  }

  /** `getSegmentDistanceSq`: the smaller squared distance from this
      segment to the other's two endpoints. */
  function GetSegmentDistanceSq(s: Segment, t: Segment): (r: real)
    ensures r >= 0.0
    ensures r <= ComputeDistanceSq(s.p1, s.p2, t.p1) && r <= ComputeDistanceSq(s.p1, s.p2, t.p2)
    ensures r == ComputeDistanceSq(s.p1, s.p2, t.p1) || r == ComputeDistanceSq(s.p1, s.p2, t.p2)
  {
    Min2(ComputeDistanceSq(s.p1, s.p2, t.p1), ComputeDistanceSq(s.p1, s.p2, t.p2))
  }

  /** Two segments sharing an endpoint are at distance zero. */
  lemma GetSegmentDistanceSqShared(s: Segment, t: Segment)
    requires t.p1 == s.p1 || t.p2 == s.p1 || t.p1 == s.p2 || t.p2 == s.p2
    ensures GetSegmentDistanceSq(s, t) == 0.0
  {
    var a := ComputeDistanceSq(s.p1, s.p2, t.p1);
    var b := ComputeDistanceSq(s.p1, s.p2, t.p2);
    DistanceSqAtStart(s.p1, s.p2);
    DistanceSqAtEnd(s.p1, s.p2);
    assert a == 0.0 || b == 0.0;
  }

  /** The measure is the same with the other segment reversed. */
  lemma GetSegmentDistanceSqInverse(s: Segment, t: Segment)
    ensures GetSegmentDistanceSq(s, Inverse(t)) == GetSegmentDistanceSq(s, t)
  {
  }
}
