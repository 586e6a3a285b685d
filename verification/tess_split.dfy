/** The last recovery pass of the tessellator, `splitNode`: find a diagonal
    a-b that lies inside the polygon and cut the ring in two along it.

    A diagonal is examined on the ring rotated so that a is the current
    node; b is then the node at position d, 2 <= d <= m-2 (from
    `a.next.next` up to, not including, `a.prev`). The search is written over
    the diagonal test, passed as a function; the test the tessellator uses is
    `DiagonalTest`. */
module TessSplit {
  import opened Wrappers
  import opened Vector2
  import opened SeqUtil
  import opened TessGeometry
  import opened TessRing
  import opened TessFilter
  import Polygon2

  // ---------------------------------------------------------------------
  // intersectsPolygon
  // ---------------------------------------------------------------------

  /** The edge from position k to its `next` is one `intersectsPolygon`
      holds against the segment of the nodes with indices a and b: it
      touches neither by index, and the segment test reports a crossing. */
  predicate EdgeHit(pts: seq<Vec2>, r: seq<nat>, k: nat, a: nat, b: nat)
    requires k < |r|
  {
    var kn := r[NextIndex(|r|, k)];
    r[k] != a && kn != a && r[k] != b && kn != b &&
    Intersects(At(pts, r[k]), At(pts, kn), At(pts, a), At(pts, b))
  }

  /** The scan of the edges from position k on. */
  function HitFrom(pts: seq<Vec2>, r: seq<nat>, a: nat, b: nat, k: nat): (hit: bool)
    requires k <= |r|
    ensures hit <==> exists j :: k <= j < |r| && EdgeHit(pts, r, j, a, b)
    decreases |r| - k
  {
    if k == |r| then false
    else EdgeHit(pts, r, k, a, b) || HitFrom(pts, r, a, b, k + 1)
  }

  /** `intersectsPolygon(a, b)` with a the current node: some edge of the
      ring that does not end at a or b crosses the segment a-b. */
  function IntersectsPolygon(pts: seq<Vec2>, r: seq<nat>, b: nat): (hit: bool)
    requires |r| >= 1
    ensures hit <==> exists j :: 0 <= j < |r| && EdgeHit(pts, r, j, r[0], b)
  {
    HitFrom(pts, r, r[0], b, 0)
  }

  // ---------------------------------------------------------------------
  // isMiddleInside
  // ---------------------------------------------------------------------

  /** The midpoint of a and b. */
  function Mid(a: Vec2, b: Vec2): Vec2 {
    Vec2((a.x + b.x) / 2.0, (a.y + b.y) / 2.0)
  }

  /** The toggle condition of `isMiddleInside` for the edge p -> pn: the
      edge straddles the horizontal through m and meets it right of m. */
  predicate MidCrosses(p: Vec2, pn: Vec2, m: Vec2) {
    ((p.y > m.y) != (pn.y > m.y)) && pn.y != p.y &&
    m.x < (pn.x - p.x) * (m.y - p.y) / (pn.y - p.y) + p.x
  }

  /** The toggle condition at every position of the ring. */
  function MidFlags(pts: seq<Vec2>, r: seq<nat>, m: Vec2): (f: seq<bool>)
    ensures |f| == |r|
    ensures forall k :: 0 <= k < |r| ==> f[k] == MidCrosses(At(pts, r[k]), At(pts, r[NextIndex(|r|, k)]), m)
  {
    seq(|r|, k requires 0 <= k < |r| => MidCrosses(At(pts, r[k]), At(pts, r[NextIndex(|r|, k)]), m))
  }

  /** The loop from position k with the flag so far: the result flips the
      flag once per crossing edge left. */
  function MiddleFrom(pts: seq<Vec2>, r: seq<nat>, m: Vec2, k: nat, inside: bool): (res: bool)
    requires k <= |r|
    ensures res == (inside != (CountTrue(MidFlags(pts, r, m)[k..]) % 2 == 1))
    decreases |r| - k
  {
    if k == |r| then inside
    else
      var f := MidFlags(pts, r, m);
      assert f[k..][1..] == f[k + 1..];
      MiddleFrom(pts, r, m, k + 1, if MidCrosses(At(pts, r[k]), At(pts, r[NextIndex(|r|, k)]), m) then !inside else inside)
  }

  /** `isMiddleInside(a, b)` with a the current node: ray parity of the
      midpoint of a-b against the ring. */
  function MiddleInside(pts: seq<Vec2>, r: seq<nat>, b: nat): (inside: bool)
    requires |r| >= 1
    ensures inside <==> CountTrue(MidFlags(pts, r, Mid(At(pts, r[0]), At(pts, b)))) % 2 == 1
  {
    var f := MidFlags(pts, r, Mid(At(pts, r[0]), At(pts, b)));
    assert f[0..] == f;
    MiddleFrom(pts, r, Mid(At(pts, r[0]), At(pts, b)), 0, false)
  }

  /** The ring's points, in ring order. */
  function RingPoints(pts: seq<Vec2>, r: seq<nat>): (s: seq<Vec2>)
    ensures |s| == |r|
    ensures forall k :: 0 <= k < |r| ==> s[k] == At(pts, r[k])
  {
    seq(|r|, k requires 0 <= k < |r| => At(pts, r[k]))
  }

  lemma QuotientNegated(u: real, v: real)
    requires v != 0.0
    ensures (-u) / (-v) == u / v
  {
  }

  /** The source's toggle condition is `Polygon2`'s crossing test of the same
      edge taken the other way round. */
  lemma MidCrossesIsCrosses(p: Vec2, pn: Vec2, m: Vec2)
    ensures MidCrosses(p, pn, m) == Polygon2.Crosses(pn, p, m)
  {
    if p.y != pn.y {
      QuotientNegated((pn.x - p.x) * (m.y - p.y), pn.y - p.y);
      assert (-((pn.x - p.x) * (m.y - p.y))) == (p.x - pn.x) * (m.y - p.y);
      assert Polygon2.CrossX(p, pn, m.y) == (pn.x - p.x) * (m.y - p.y) / (pn.y - p.y) + p.x;
      Polygon2.CrossesSymmetric(p, pn, m);
    }
  }

  /** The flags of the loop are `Polygon2`'s edge flags of the ring's points
      shifted by one place. */
  lemma MidFlagsShift(pts: seq<Vec2>, r: seq<nat>, m: Vec2)
    requires |r| >= 1
    ensures var f := Polygon2Flags(RingPoints(pts, r), m);
      MidFlags(pts, r, m) == f[1..] + [f[0]]
  {
    var s := RingPoints(pts, r);
    var f := Polygon2Flags(s, m);
    var g := f[1..] + [f[0]];
    var n := |r|;
    forall k | 0 <= k < n ensures MidFlags(pts, r, m)[k] == g[k] {
      var kn := NextIndex(n, k);
      MidCrossesIsCrosses(s[k], s[kn], m);
      assert PrevIndex(n, kn) == k;
      assert f[kn] == Polygon2.Crosses(s[kn], s[k], m);
    }
  }

  /** `Polygon2.containsPoint`'s edge flags. */
  function Polygon2Flags(s: seq<Vec2>, m: Vec2): seq<bool> {
    EdgeFlags(s, (a, b) => Polygon2.Crosses(a, b, m))
  }

  /** The middle test is `Polygon2.containsPoint` of the ring's points at the
      midpoint of the diagonal. */
  lemma MiddleInsideContains(pts: seq<Vec2>, r: seq<nat>, b: nat)
    requires |r| >= 1
    ensures MiddleInside(pts, r, b) ==
      Polygon2.ContainsPoint(Polygon2.Polygon(RingPoints(pts, r)), Mid(At(pts, r[0]), At(pts, b)))
  {
    var m := Mid(At(pts, r[0]), At(pts, b));
    var s := RingPoints(pts, r);
    var f := Polygon2Flags(s, m);
    MidFlagsShift(pts, r, m);
    CountTrueAppend(f[1..], [f[0]]);
    CountTrueAppend([f[0]], f[1..]);
    assert [f[0]] + f[1..] == f;
    Polygon2.CrossingsFromIsCount(s, m, 0);
    assert f[0..] == f;
  }

  // ---------------------------------------------------------------------
  // isValidDiagonal
  // ---------------------------------------------------------------------

  /** `isValidDiagonal(a, b)` for a the current node and b the node at
      position d: b is neither neighbour of a, no other edge crosses a-b,
      a-b leaves both ends into the polygon's interior and its midpoint is
      inside. */
  predicate ValidDiagonal(pts: seq<Vec2>, r: seq<nat>, d: nat)
    requires 2 <= d < |r|
  {
    var a, b := r[0], r[d];
    r[1] != b && r[|r| - 1] != b && !IntersectsPolygon(pts, r, b) &&
    LocallyInsideAt(pts, r, 0, b) && LocallyInsideAt(pts, r, d, a) &&
    MiddleInside(pts, r, b)
  }

  /** The test `splitNode` applies to a and b: different indices and a valid
      diagonal. */
  function DiagonalTest(pts: seq<Vec2>): (seq<nat>, nat) -> bool {
    (r: seq<nat>, d: nat) => 2 <= d < |r| && r[0] != r[d] && ValidDiagonal(pts, r, d)
  }

  // ---------------------------------------------------------------------
  // The search of splitNode
  // ---------------------------------------------------------------------

  /** The inner loop: b from position d on, up to `a.prev`. The first b
      the test accepts is returned. */
  function SearchB(diagonal: (seq<nat>, nat) -> bool, r: seq<nat>, d: nat): (res: Option<nat>)
    requires 2 <= d
    ensures res.Some? ==> d <= res.value && res.value + 1 < |r| && diagonal(r, res.value)
    ensures res.Some? ==> forall j :: d <= j < res.value ==> !diagonal(r, j)
    ensures res.None? ==> forall j :: d <= j && j + 1 < |r| ==> !diagonal(r, j)
    decreases |r| - d
  {
    if d + 1 >= |r| then None
    else if diagonal(r, d) then Some(d)
    else SearchB(diagonal, r, d + 1)
  }

  /** The outer loop: a from position i on, round to `start`. The result is
      the position of a and the offset of b from it. */
  function SearchA(diagonal: (seq<nat>, nat) -> bool, r: seq<nat>, i: nat): (res: Option<(nat, nat)>)
    requires i <= |r|
    ensures res.Some? ==> i <= res.value.0 < |r| && 2 <= res.value.1 && res.value.1 + 1 < |r|
    ensures res.Some? ==> diagonal(Rotate(r, res.value.0), res.value.1)
    ensures res.None? ==> forall j, d :: i <= j < |r| && 2 <= d && d + 1 < |r| ==> !diagonal(Rotate(r, j), d)
    decreases |r| - i
  {
    if i == |r| then None
    else
      match SearchB(diagonal, Rotate(r, i), 2)
      case Some(d) => Some((i, d))
      case None => SearchA(diagonal, r, i + 1)
  }

  /** The first pair the search returns is the first accepted one in the
      order of the two loops: no earlier a has an accepted b, and no earlier
      b goes with the returned a. */
  lemma {:induction false} SearchAFirst(diagonal: (seq<nat>, nat) -> bool, r: seq<nat>, i: nat)
    requires i <= |r| && SearchA(diagonal, r, i).Some?
    ensures var (ia, d) := SearchA(diagonal, r, i).value;
      (forall j, e :: i <= j < ia && 2 <= e && e + 1 < |r| ==> !diagonal(Rotate(r, j), e)) &&
      (forall e :: 2 <= e < d ==> !diagonal(Rotate(r, ia), e))
    decreases |r| - i
  {
    var sb := SearchB(diagonal, Rotate(r, i), 2);
    if sb.None? {
      SearchAFirst(diagonal, r, i + 1);
    }
  }

  // ---------------------------------------------------------------------
  // splitPolygon
  // ---------------------------------------------------------------------

  /** `splitPolygon(a, b)` on the ring with a current and b at position d.
      The first ring is a, b, b.next, ..., a.prev (a now links to b); the
      second starts at the copy of b and runs b2, a2, a.next, ..., b.prev. */
  function SplitRings(r: seq<nat>, d: nat): (halves: (seq<nat>, seq<nat>))
    requires 2 <= d && d + 1 < |r|
    ensures |halves.0| == |r| - d + 1 && |halves.1| == d + 1
    ensures 3 <= |halves.0| < |r| && 3 <= |halves.1| < |r|
  {
    ([r[0]] + r[d..], [r[d], r[0]] + r[1..d])
  }

  /** Together the two halves hold exactly the nodes of the ring. */
  lemma SplitRingsCover(r: seq<nat>, d: nat)
    requires 2 <= d && d + 1 < |r|
    ensures var (ra, rc) := SplitRings(r, d);
      (forall x :: x in ra ==> x in r) && (forall x :: x in rc ==> x in r) &&
      (forall x :: x in r ==> x in ra || x in rc)
  {
    var (ra, rc) := SplitRings(r, d);
    assert forall k :: 1 <= k < |ra| ==> ra[k] == r[d + k - 1];
    assert forall k :: 2 <= k < |rc| ==> rc[k] == r[k - 1];
    forall x | x in r ensures x in ra || x in rc {
      var j :| 0 <= j < |r| && r[j] == x;
      if j == 0 {
        assert ra[0] == x;
      } else if j < d {
        assert rc[j + 1] == x;
      } else {
        assert ra[j - d + 1] == x;
      }
    }
  }

  /** On a ring of distinct nodes each half keeps its nodes distinct, and
      the halves share the diagonal's two ends and nothing else. */
  lemma SplitRingsDistinct(r: seq<nat>, d: nat)
    requires 2 <= d && d + 1 < |r| && Distinct(r)
    ensures var (ra, rc) := SplitRings(r, d);
      Distinct(ra) && Distinct(rc) &&
      (forall x :: x in ra && x in rc <==> x == r[0] || x == r[d])
  {
    var (ra, rc) := SplitRings(r, d);
    assert forall k :: 1 <= k < |ra| ==> ra[k] == r[d + k - 1];
    assert forall k :: 2 <= k < |rc| ==> rc[k] == r[k - 1];
    forall p, q | 1 <= p < |ra| && 2 <= q < |rc| ensures ra[p] != rc[q] {
      assert ra[p] == r[d + p - 1] && rc[q] == r[q - 1];
    }
    forall x | x in ra && x in rc ensures x == r[0] || x == r[d] {
      var p :| 0 <= p < |ra| && ra[p] == x;
      var q :| 0 <= q < |rc| && rc[q] == x;
    }
    assert rc[1] == r[0] && ra[1] == r[d];
  }
}
