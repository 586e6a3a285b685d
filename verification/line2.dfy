/** Intersection of two infinite lines, each given by two points. */
module Line2 {
  import opened Wrappers
  import opened Vector2
  import Triangle2

  /** The tolerance `10e-5`, that is 1e-4, below which the determinant
      counts as zero. */
  const EPSILON: real := 0.0001

  /** Line p0p1 in the form a*x + b*y = c. */
  datatype LineEq = LineEq(a: real, b: real, c: real)

  function LineThrough(p0: Vec2, p1: Vec2): LineEq {
    var a := p1.y - p0.y;
    var b := p0.x - p1.x;
    LineEq(a, b, a * p0.x + b * p0.y)
  }

  function Det(l0: LineEq, l1: LineEq): real {
    l0.a * l1.b - l1.a * l0.b
  }

  predicate OnLine(l: LineEq, p: Vec2) {
    l.a * p.x + l.b * p.y == l.c
  }

  /** Cramer's rule on the 2x2 system, `None` when the determinant lies
      strictly inside (-EPSILON, EPSILON). */
  function Solve(l0: LineEq, l1: LineEq): (r: Option<Vec2>)
    ensures r.None? <==> -EPSILON < Det(l0, l1) < EPSILON
    ensures r.Some? ==> OnLine(l0, r.value) && OnLine(l1, r.value)
  {
    var det := Det(l0, l1);
    if det > -EPSILON && det < EPSILON then None
    else
      var p := SolveAt(l0, l1, det);
      CramerSolves(l0.a, l0.b, l0.c, l1.a, l1.b, l1.c, det, p.x, p.y);
      Some(p)
  }

  function SolveAt(l0: LineEq, l1: LineEq, det: real): Vec2
    requires det != 0.0
  {
    Vec2((l1.b * l0.c - l0.b * l1.c) / det, (l0.a * l1.c - l1.a * l0.c) / det)
  }

  /** The Cramer solution lies on both lines. */
  lemma SolveAtOnBoth(l0: LineEq, l1: LineEq)
    requires Det(l0, l1) != 0.0
    ensures OnLine(l0, SolveAt(l0, l1, Det(l0, l1)))
    ensures OnLine(l1, SolveAt(l0, l1, Det(l0, l1)))
  {
    var p := SolveAt(l0, l1, Det(l0, l1));
    CramerSolves(l0.a, l0.b, l0.c, l1.a, l1.b, l1.c, Det(l0, l1), p.x, p.y);
  }

  lemma CramerSolves(a0: real, b0: real, c0: real, a1: real, b1: real, c1: real,
                     det: real, x: real, y: real)
    requires det == a0 * b1 - a1 * b0 && det != 0.0
    requires x == (b1 * c0 - b0 * c1) / det
    requires y == (a0 * c1 - a1 * c0) / det
    ensures a0 * x + b0 * y == c0
    ensures a1 * x + b1 * y == c1
  {
    assert x * det == b1 * c0 - b0 * c1;
    assert y * det == a0 * c1 - a1 * c0;
    assert (a0 * x + b0 * y) * det == c0 * det;
    assert (a1 * x + b1 * y) * det == c1 * det;
  }

  /** The intersection point of line p0p1 with line p2p3. */
  function IntersectLines(p0: Vec2, p1: Vec2, p2: Vec2, p3: Vec2): (r: Option<Vec2>)
    ensures r.None? <==> -EPSILON < Det(LineThrough(p0, p1), LineThrough(p2, p3)) < EPSILON
    ensures r.Some? ==> OnLine(LineThrough(p0, p1), r.value) && OnLine(LineThrough(p2, p3), r.value)
  {
    Solve(LineThrough(p0, p1), LineThrough(p2, p3))
  }

  lemma OnLineCollinear(p0x: real, p0y: real, p1x: real, p1y: real, x: real, y: real)
    ensures (p1y - p0y) * x + (p0x - p1x) * y - ((p1y - p0y) * p0x + (p0x - p1x) * p0y)
         == (p1y - p0y) * (x - p1x) - (p1x - p0x) * (y - p1y)
  {
  }

  /** A point satisfies the equation of line p0p1 exactly when it is
      collinear with p0 and p1. */
  lemma OnLineIffCollinear(p0: Vec2, p1: Vec2, p: Vec2)
    ensures OnLine(LineThrough(p0, p1), p) <==> Triangle2.GetSignedArea(p0, p1, p) == 0.0
  {
    OnLineCollinear(p0.x, p0.y, p1.x, p1.y, p.x, p.y);
  }

  /** A found intersection lies on both lines. */
  lemma IntersectionIsCollinear(p0: Vec2, p1: Vec2, p2: Vec2, p3: Vec2)
    requires IntersectLines(p0, p1, p2, p3).Some?
    ensures Triangle2.GetSignedArea(p0, p1, IntersectLines(p0, p1, p2, p3).value) == 0.0
    ensures Triangle2.GetSignedArea(p2, p3, IntersectLines(p0, p1, p2, p3).value) == 0.0
  {
    var p := IntersectLines(p0, p1, p2, p3).value;
    OnLineIffCollinear(p0, p1, p);
    OnLineIffCollinear(p2, p3, p);
  }

  lemma NegatedQuotient(u: real, v: real, d: real)
    requires d != 0.0
    ensures (v - u) / (-d) == (u - v) / d
    ensures (-u + v) / (-d) == (u - v) / d
  {
  }

  lemma SolveAtSwap(l0: LineEq, l1: LineEq)
    requires Det(l0, l1) != 0.0
    ensures Det(l1, l0) == -Det(l0, l1)
    ensures SolveAt(l1, l0, Det(l1, l0)) == SolveAt(l0, l1, Det(l0, l1))
  {
    var det := Det(l0, l1);
    assert Det(l1, l0) == -det;
    NegatedQuotient(l1.b * l0.c, l0.b * l1.c, det);
    NegatedQuotient(l0.a * l1.c, l1.a * l0.c, det);
  }

  /** Swapping the two lines gives the same answer. */
  lemma IntersectLinesSwap(p0: Vec2, p1: Vec2, p2: Vec2, p3: Vec2)
    ensures IntersectLines(p2, p3, p0, p1) == IntersectLines(p0, p1, p2, p3)
  {
    var l0, l1 := LineThrough(p0, p1), LineThrough(p2, p3);
    if Det(l0, l1) != 0.0 {
      SolveAtSwap(l0, l1);
    }
    assert Det(l1, l0) == -Det(l0, l1);
  }

  lemma ReversedLineIdentity(p0x: real, p0y: real, p1x: real, p1y: real)
    ensures (p0y - p1y) * p1x + (p1x - p0x) * p1y == -((p1y - p0y) * p0x + (p0x - p1x) * p0y)
  {
  }

  /** Reversing a line's endpoints negates its equation. */
  lemma LineThroughReversed(p0: Vec2, p1: Vec2)
    ensures LineThrough(p1, p0) == Negated(LineThrough(p0, p1))
  {
    ReversedLineIdentity(p0.x, p0.y, p1.x, p1.y);
  }

  function Negated(l: LineEq): LineEq {
    LineEq(-l.a, -l.b, -l.c)
  }

  lemma SolveAtNegateFirst(l0: LineEq, l1: LineEq)
    requires Det(l0, l1) != 0.0
    ensures Det(Negated(l0), l1) == -Det(l0, l1)
    ensures SolveAt(Negated(l0), l1, Det(Negated(l0), l1)) == SolveAt(l0, l1, Det(l0, l1))
  {
    var m := Negated(l0);
    var det := Det(l0, l1);
    assert Det(m, l1) == -det;
    assert l1.b * m.c - m.b * l1.c == -(l1.b * l0.c) + l0.b * l1.c;
    assert m.a * l1.c - l1.a * m.c == -(l0.a * l1.c) + l1.a * l0.c;
    NegatedQuotient(l1.b * l0.c, l0.b * l1.c, det);
    NegatedQuotient(l0.a * l1.c, l1.a * l0.c, det);
  }

  lemma SolveNegateFirst(l0: LineEq, l1: LineEq)
    ensures Solve(Negated(l0), l1) == Solve(l0, l1)
  {
    if Det(l0, l1) != 0.0 {
      SolveAtNegateFirst(l0, l1);
    }
    assert Det(Negated(l0), l1) == -Det(l0, l1);
  }

  /** Reversing either line's endpoints gives the same answer. */
  lemma IntersectLinesReverse(p0: Vec2, p1: Vec2, p2: Vec2, p3: Vec2)
    ensures IntersectLines(p1, p0, p2, p3) == IntersectLines(p0, p1, p2, p3)
    ensures IntersectLines(p0, p1, p3, p2) == IntersectLines(p0, p1, p2, p3)
  {
    LineThroughReversed(p0, p1);
    SolveNegateFirst(LineThrough(p0, p1), LineThrough(p2, p3));
    LineThroughReversed(p2, p3);
    IntersectLinesSwap(p0, p1, p3, p2);
    IntersectLinesSwap(p0, p1, p2, p3);
    SolveNegateFirst(LineThrough(p2, p3), LineThrough(p0, p1));
  }
}
