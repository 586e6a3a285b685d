/** The ear-clipping tessellator (`Tessellator2`): the constructor's
    normalisation, `process`, and the clipping loop `processList` with its
    three recovery passes (filter, cure, split).

    The loop and the passes are written over an `Env`, which carries the
    points and the geometric tests as functions; `SourceEnv` fills it with
    the tests the source uses. */
module Tessellator2 {
  import opened Wrappers
  import opened Vector2
  import opened SeqUtil
  import opened LinkedSort
  import opened ZOrder
  import opened TessRing
  import opened TessEar
  import opened TessFilter
  import opened TessSplit
  import Polygon2

  /** The points and the tests the clipping loop consults. `hashed` is
      `isEarHashed` (given the z-list), `plain` is `isEar`, and `complex`
      chooses between them and switches the z-order index on. */
  datatype Env = Env(
    pts: seq<Vec2>,
    complex: bool,
    key: nat -> int,
    hashed: (seq<nat>, seq<nat>) -> bool,
    plain: seq<nat> -> bool,
    removable: Corner -> bool,
    cure: seq<nat> -> bool,
    diagonal: (seq<nat>, nat) -> bool)

  /** The tests of the source for the tessellator state `c`; `complex` is
      `isComplex`, set for polygons of 70 points or more. */
  function SourceEnv(c: Ctx, complex: bool): Env {
    Env(c.pts, complex, KeyOf(c),
      (r: seq<nat>, z: seq<nat>) => |r| >= 3 && IsEarHashed(c, r, z),
      (r: seq<nat>) => |r| >= 3 && IsEar(c.pts, r),
      Removable, CureTest(c.pts), DiagonalTest(c.pts))
  }

  /** `this.isComplex ? this.isEarHashed(node) : this.isEar(node)`. */
  predicate EarAt(e: Env, r: seq<nat>, z: seq<nat>) {
    if e.complex then e.hashed(r, z) else e.plain(r)
  }

  // ---------------------------------------------------------------------
  // processList, splitNode
  // ---------------------------------------------------------------------

  /** `processList(node, out, pass)` on the ring r from `node`, with z-list
      z; returns what it appends to `out`. Pass 0 of a complex polygon first
      rebuilds the z-list from the ring (`indexCurve`). The loop runs while
      `node.prev !== node.next`, i.e. while the ring has three nodes. */
  function ProcessList(e: Env, r: seq<nat>, z: seq<nat>, pass: nat): seq<nat>
    requires pass <= 2
    decreases |r|, 3 - pass, 1, 0
  {
    if |r| < 3 then []
    else
      var z' := if pass == 0 && e.complex then SortLinked(r, e.key) else z;
      ClipLoop(e, r, z', |r|, pass)
  }

  /** The `while` loop. `steps` counts the advances left before `node`
      reaches `stop`. An ear emits prev, node, next, removes the node and
      restarts the lap from next.next. A full lap without an ear hands the
      ring, from `stop`, to the next pass: pass 0 filters and runs pass 1,
      pass 1 cures and runs pass 2, pass 2 splits. */
  function ClipLoop(e: Env, r: seq<nat>, z: seq<nat>, steps: nat, pass: nat): seq<nat>
    requires |r| >= 3 && 1 <= steps && pass <= 2
    decreases |r|, 3 - pass, 0, steps
  {
    if EarAt(e, r, z) then
      var r2 := Advance(r[1..]);
      [r[|r| - 1], r[0], r[1]] + (if |r2| >= 3 then ClipLoop(e, r2, Keep(z, r2), |r2|, pass) else [])
    else
      var s := Advance(r);
      if steps > 1 then ClipLoop(e, s, z, steps - 1, pass)
      else if pass == 0 then
        match Filter(e.removable, e.pts, s)
        case None => []
        case Some(f) => ProcessList(e, f, Keep(z, f), 1)
      else if pass == 1 then
        var cu := Cure(e.cure, s);
        cu.out + ProcessList(e, cu.ring, Keep(z, cu.ring), 2)
      else SplitNode(e, s)
  }

  /** `splitNode(start, out)`: the first valid diagonal in the order of the
      two loops splits the ring; each half is filtered at its cut and
      processed from pass 0 (which rebuilds its z-list). Without a diagonal
      nothing is emitted. */
  function SplitNode(e: Env, r: seq<nat>): seq<nat>
    requires |r| >= 3
    decreases |r|, 0, 0, 0
  {
    match SearchA(e.diagonal, r, 0)
    case None => []
    case Some((i, d)) =>
      var (ra, rc) := SplitRings(Rotate(r, i), d);
      var fa := FilterFirst(e.removable, e.pts, ra);
      var fc := FilterFirst(e.removable, e.pts, rc);
      (if fa.Some? then ProcessList(e, fa.value, [], 0) else []) +
      (if fc.Some? then ProcessList(e, fc.value, [], 0) else [])
  }

  // ---------------------------------------------------------------------
  // The constructor and process
  // ---------------------------------------------------------------------

  /** The constructor's polygon: reversed when it is not clockwise. */
  function Oriented(p: Polygon2.Polygon): (q: Polygon2.Polygon)
    requires Polygon2.Valid(p)
    ensures Polygon2.Valid(q) && |q.points| == |p.points|
  {
    if Polygon2.Clockwise(p) then p else Polygon2.ReverseOrder(p)
  }

  /** After the constructor the polygon is always clockwise, so
      `createLinkedList` always inserts in descending order. */
  lemma OrientedClockwise(p: Polygon2.Polygon)
    requires Polygon2.Valid(p)
    ensures Polygon2.Clockwise(Oriented(p))
    ensures forall v :: v in Oriented(p).points <==> v in p.points
  {
    if !Polygon2.Clockwise(p) {
      Polygon2.ReverseOrderWinding(p);
    }
    var s := p.points;
    var q := Oriented(p).points;
    forall v | v in s ensures v in q {
      var j :| 0 <= j < |s| && s[j] == v;
      if !Polygon2.Clockwise(p) {
        assert q[|s| - 1 - j] == v;
      }
    }
  }

  /** The index list `process` collects: the linked list of the oriented
      points run through `processList` from pass 0. */
  function Triangulate(pts: seq<Vec2>, clockwise: bool, complex: bool): seq<nat>
    requires |pts| >= 1
  {
    var c := Ctx(pts, FrameOf(pts));
    ProcessList(SourceEnv(c, complex), CreateLinkedList(pts, clockwise), [], 0)
  }

  /** The points of the collected indices. */
  function PointsOf(pts: seq<Vec2>, out: seq<nat>): (v: seq<Vec2>)
    ensures |v| == |out|
    ensures forall k :: 0 <= k < |out| ==> v[k] == At(pts, out[k])
  {
    seq(|out|, k requires 0 <= k < |out| => At(pts, out[k]))
  }

  /** `new Tessellator2(points).process()`: fewer than three points is the
      polygon constructor's error; a triangle comes back as its (oriented)
      points; otherwise the triangles' corners, three per triangle. */
  function Process(points: seq<Vec2>): (res: Result<seq<Vec2>, Polygon2.PolygonError>)
    ensures res.Err? <==> |points| < 3
  {
    match Polygon2.New(points, false)
    case Err(err) => Err(err)
    case Ok(p) =>
      var q := Oriented(p);
      if |q.points| == 3 then Ok(q.points)
      else Ok(PointsOf(q.points, Triangulate(q.points, Polygon2.Clockwise(q), |q.points| >= 70)))
  }

  // ---------------------------------------------------------------------
  // What the loop emits
  // ---------------------------------------------------------------------

  /** The output of a run on ring r: whole triangles of nodes of r, and no
      more than the r-2 triangles of a triangulation when there is any. */
  predicate Fits(out: seq<nat>, r: seq<nat>) {
    |out| % 3 == 0 && (forall x :: x in out ==> x in r) && (out == [] || |out| + 6 <= 3 * |r|)
  }

  lemma ModThreeSum(a: nat, b: nat)
    requires a % 3 == 0 && b % 3 == 0
    ensures (a + b) % 3 == 0
  {
  }

  /** Output that fits a smaller sub-ring fits the ring. */
  lemma FitsWithin(out: seq<nat>, r': seq<nat>, r: seq<nat>)
    requires Fits(out, r') && |r'| <= |r| && forall x :: x in r' ==> x in r
    ensures Fits(out, r)
  {
  }

  /** One ear followed by what the smaller ring emits. */
  lemma FitsEar(r: seq<nat>, rest: seq<nat>)
    requires |r| >= 3 && Fits(rest, Advance(r[1..]))
    ensures Fits([r[|r| - 1], r[0], r[1]] + rest, r)
  {
    var out := [r[|r| - 1], r[0], r[1]] + rest;
    ModThreeSum(3, |rest|);
    forall x | x in out ensures x in r {
      if x in rest {
        assert x in Advance(r[1..]);
      }
    }
  }

  /** What the cure pass emits followed by what pass 2 emits on the cured
      ring. */
  lemma FitsCure(s: seq<nat>, cu: Cured, rest: seq<nat>)
    requires |s| >= 3 && 2 <= |cu.ring| <= |s| && 2 * |cu.out| == 3 * (|s| - |cu.ring|)
    requires |cu.out| % 3 == 0
    requires forall x :: x in cu.ring ==> x in s
    requires forall x :: x in cu.out ==> x in s
    requires Fits(rest, cu.ring)
    ensures Fits(cu.out + rest, s)
  {
    ModThreeSum(|cu.out|, |rest|);
  }

  /** What the two halves of a split emit. */
  lemma FitsSplit(r: seq<nat>, ha: seq<nat>, hc: seq<nat>, pa: seq<nat>, pc: seq<nat>)
    requires |ha| + |hc| == |r| + 2 && 3 <= |ha| && 3 <= |hc|
    requires forall x :: x in ha ==> x in r
    requires forall x :: x in hc ==> x in r
    requires Fits(pa, ha) && Fits(pc, hc)
    ensures Fits(pa + pc, r)
  {
    ModThreeSum(|pa|, |pc|);
  }

  /** The filtered half of a split: a sub-ring of the half, so its output
      fits the half. */
  lemma FitsFiltered(e: Env, h: seq<nat>)
    requires |h| >= 1
    ensures var f := FilterFirst(e.removable, e.pts, h);
      Fits(if f.Some? then ProcessList(e, f.value, [], 0) else [], h)
    decreases |h|, 4, 0, 0
  {
    var f := FilterFirst(e.removable, e.pts, h);
    if f.Some? {
      FilterLoopNodes(e.removable, e.pts, h, 1);
      ProcessListFits(e, f.value, [], 0);
      FitsWithin(ProcessList(e, f.value, [], 0), f.value, h);
    }
  }

  lemma {:induction false} ProcessListFits(e: Env, r: seq<nat>, z: seq<nat>, pass: nat)
    requires pass <= 2
    ensures Fits(ProcessList(e, r, z, pass), r)
    decreases |r|, 3 - pass, 1, 0
  {
    if |r| >= 3 {
      var z' := if pass == 0 && e.complex then SortLinked(r, e.key) else z;
      ClipLoopFits(e, r, z', |r|, pass);
    }
  }

  lemma {:induction false} ClipLoopFits(e: Env, r: seq<nat>, z: seq<nat>, steps: nat, pass: nat)
    requires |r| >= 3 && 1 <= steps && pass <= 2
    ensures Fits(ClipLoop(e, r, z, steps, pass), r)
    decreases |r|, 3 - pass, 0, steps
  {
    var out := ClipLoop(e, r, z, steps, pass);
    if EarAt(e, r, z) {
      var r2 := Advance(r[1..]);
      var rest := if |r2| >= 3 then ClipLoop(e, r2, Keep(z, r2), |r2|, pass) else [];
      if |r2| >= 3 {
        ClipLoopFits(e, r2, Keep(z, r2), |r2|, pass);
      }
      assert out == [r[|r| - 1], r[0], r[1]] + rest;
      FitsEar(r, rest);
    } else {
      var s := Advance(r);
      if steps > 1 {
        ClipLoopFits(e, s, z, steps - 1, pass);
        FitsWithin(out, s, r);
      } else if pass == 0 {
        var f := Filter(e.removable, e.pts, s);
        if f.Some? {
          FilterLoopNodes(e.removable, e.pts, s, |s|);
          ProcessListFits(e, f.value, Keep(z, f.value), 1);
          FitsWithin(out, f.value, r);
        }
      } else if pass == 1 {
        var cu := Cure(e.cure, s);
        CureLoopTriangles(e.cure, s, |s|);
        CureLoopMembers(e.cure, s, |s|);
        ProcessListFits(e, cu.ring, Keep(z, cu.ring), 2);
        FitsCure(s, cu, ProcessList(e, cu.ring, Keep(z, cu.ring), 2));
        FitsWithin(out, s, r);
      } else {
        SplitNodeFits(e, s);
        FitsWithin(out, s, r);
      }
    }
  }

  lemma {:induction false} SplitNodeFits(e: Env, r: seq<nat>)
    requires |r| >= 3
    ensures Fits(SplitNode(e, r), r)
    decreases |r|, 0, 0, 0
  {
    var found := SearchA(e.diagonal, r, 0);
    if found.Some? {
      var (i, d) := found.value;
      var (ra, rc) := SplitRings(Rotate(r, i), d);
      SplitRingsCover(Rotate(r, i), d);
      FitsFiltered(e, ra);
      FitsFiltered(e, rc);
      var fa := FilterFirst(e.removable, e.pts, ra);
      var fc := FilterFirst(e.removable, e.pts, rc);
      FitsSplit(r, ra, rc, if fa.Some? then ProcessList(e, fa.value, [], 0) else [],
        if fc.Some? then ProcessList(e, fc.value, [], 0) else []);
    }
  }

  // ---------------------------------------------------------------------
  // The hashed test changes nothing
  // ---------------------------------------------------------------------

  /** The hashed and the plain test agree on every ring of distinct point
      indices whose z-list is indexed. */
  ghost predicate EarAgree(e: Env) {
    forall r: seq<nat>, z: seq<nat> {:trigger e.hashed(r, z)} ::
      |r| >= 3 && RingOver(r, |e.pts|) && ZIndexed(e.key, r, z) ==> e.hashed(r, z) == e.plain(r)
  }

  /** The source's two tests agree, with the frame of all the points. */
  lemma SourceEnvEarAgree(c: Ctx, complex: bool)
    requires |c.pts| >= 1 && c.frame == FrameOf(c.pts)
    ensures EarAgree(SourceEnv(c, complex))
  {
    var e := SourceEnv(c, complex);
    forall r: seq<nat>, z: seq<nat> | |r| >= 3 && RingOver(r, |e.pts|) && ZIndexed(e.key, r, z)
      ensures e.hashed(r, z) == e.plain(r)
    {
      forall x | x in r ensures InFrame(c.frame, At(c.pts, x)) {
      }
      EarHashedIsEar(c, r, z);
    }
  }

  /** A sub-ring of distinct nodes of a ring over n points is a ring over n
      points. */
  lemma RingOverWithin(r': seq<nat>, r: seq<nat>, n: nat)
    requires RingOver(r, n) && Distinct(r') && forall x :: x in r' ==> x in r
    ensures RingOver(r', n)
  {
  }

  lemma {:induction false} ProcessListPlain(e: Env, r: seq<nat>, z: seq<nat>, z2: seq<nat>, pass: nat)
    requires pass <= 2 && e.complex && EarAgree(e) && RingOver(r, |e.pts|)
    requires pass != 0 ==> ZIndexed(e.key, r, z)
    ensures ProcessList(e, r, z, pass) == ProcessList(e.(complex := false), r, z2, pass)
    decreases |r|, 3 - pass, 1, 0
  {
    if |r| >= 3 {
      var z' := if pass == 0 then SortLinked(r, e.key) else z;
      if pass == 0 {
        ZIndexedSortLinked(e.key, r);
      }
      ClipLoopPlain(e, r, z', z2, |r|, pass);
    }
  }

  lemma {:induction false} ClipLoopPlain(e: Env, r: seq<nat>, z: seq<nat>, z2: seq<nat>, steps: nat, pass: nat)
    requires |r| >= 3 && 1 <= steps && pass <= 2
    requires e.complex && EarAgree(e) && RingOver(r, |e.pts|) && ZIndexed(e.key, r, z)
    ensures ClipLoop(e, r, z, steps, pass) == ClipLoop(e.(complex := false), r, z2, steps, pass)
    decreases |r|, 3 - pass, 0, steps
  {
    var e' := e.(complex := false);
    assert EarAt(e, r, z) == EarAt(e', r, z2);
    if EarAt(e, r, z) {
      var r2 := Advance(r[1..]);
      if |r2| >= 3 {
        RemoveDistinct(r);
        AdvanceDistinct(r[1..]);
        RingOverWithin(r2, r, |e.pts|);
        ZIndexedKeep(e.key, r, z, r2);
        ClipLoopPlain(e, r2, Keep(z, r2), Keep(z2, r2), |r2|, pass);
      }
    } else {
      var s := Advance(r);
      AdvanceDistinct(r);
      if steps > 1 {
        ClipLoopPlain(e, s, z, z2, steps - 1, pass);
      } else if pass == 0 {
        var f := Filter(e.removable, e.pts, s);
        if f.Some? {
          FilterLoopNodes(e.removable, e.pts, s, |s|);
          RingOverWithin(f.value, r, |e.pts|);
          ZIndexedKeep(e.key, r, z, f.value);
          ProcessListPlain(e, f.value, Keep(z, f.value), Keep(z2, f.value), 1);
        }
      } else if pass == 1 {
        var cu := Cure(e.cure, s);
        CureLoopMembers(e.cure, s, |s|);
        CureLoopDistinct(e.cure, s, |s|);
        RingOverWithin(cu.ring, r, |e.pts|);
        ZIndexedKeep(e.key, r, z, cu.ring);
        ProcessListPlain(e, cu.ring, Keep(z, cu.ring), Keep(z2, cu.ring), 2);
      } else {
        RingOverWithin(s, r, |e.pts|);
        SplitNodePlain(e, s);
      }
    }
  }

  /** One filtered half of a split is processed alike under both tests. */
  lemma HalfPlain(e: Env, h: seq<nat>)
    requires |h| >= 1 && e.complex && EarAgree(e) && RingOver(h, |e.pts|)
    ensures var f := FilterFirst(e.removable, e.pts, h);
      (if f.Some? then ProcessList(e, f.value, [], 0) else []) ==
      (if f.Some? then ProcessList(e.(complex := false), f.value, [], 0) else [])
    decreases |h|, 4, 0, 0
  {
    var f := FilterFirst(e.removable, e.pts, h);
    if f.Some? {
      FilterLoopNodes(e.removable, e.pts, h, 1);
      RingOverWithin(f.value, h, |e.pts|);
      ProcessListPlain(e, f.value, [], [], 0);
    }
  }

  lemma {:induction false} SplitNodePlain(e: Env, r: seq<nat>)
    requires |r| >= 3 && e.complex && EarAgree(e) && RingOver(r, |e.pts|)
    ensures SplitNode(e, r) == SplitNode(e.(complex := false), r)
    decreases |r|, 0, 0, 0
  {
    var found := SearchA(e.diagonal, r, 0);
    if found.Some? {
      var (i, d) := found.value;
      var ri := Rotate(r, i);
      RotateDistinct(r, i);
      var (ra, rc) := SplitRings(ri, d);
      SplitRingsCover(ri, d);
      SplitRingsDistinct(ri, d);
      RingOverWithin(ri, r, |e.pts|);
      RingOverWithin(ra, ri, |e.pts|);
      RingOverWithin(rc, ri, |e.pts|);
      HalfPlain(e, ra);
      HalfPlain(e, rc);
    }
  }

  /** The 70-point threshold only selects the faster test: the hashed test
      yields exactly the triangles of the plain one. */
  lemma ComplexMatchesPlain(pts: seq<Vec2>, clockwise: bool)
    requires |pts| >= 1
    ensures Triangulate(pts, clockwise, true) == Triangulate(pts, clockwise, false)
  {
    var c := Ctx(pts, FrameOf(pts));
    var e := SourceEnv(c, true);
    assert e.(complex := false) == SourceEnv(c, false);
    SourceEnvEarAgree(c, true);
    var ring := CreateLinkedList(pts, clockwise);
    if |pts| >= 2 {
      CreateLinkedListRing(pts, clockwise);
      ProcessListPlain(e, ring, [], [], 0);
    } else {
      InsertAllFromEmpty(if clockwise then Descending(1) else Ascending(1));
    }
  }

  // ---------------------------------------------------------------------
  // process
  // ---------------------------------------------------------------------

  /** Every ring the clipping loop reaches by clipping is an ear at its
      current node: the ring itself, then the ring left after removing the
      node and moving to next.next, with its z-list kept in step. */
  predicate EarsAlong(e: Env, r: seq<nat>, z: seq<nat>)
    decreases |r|
  {
    |r| < 3 || (EarAt(e, r, z) && EarsAlong(e, Advance(r[1..]), Keep(z, Advance(r[1..]))))
  }

  /** When every corner the loop examines is an ear, the loop clips one
      triangle per node until two are left: r-2 triangles. */
  lemma {:induction false} AllEarsCount(e: Env, r: seq<nat>, z: seq<nat>, steps: nat, pass: nat)
    requires |r| >= 3 && 1 <= steps && pass <= 2
    requires EarsAlong(e, r, z)
    ensures |ClipLoop(e, r, z, steps, pass)| == 3 * (|r| - 2)
    decreases |r|
  {
    var r2 := Advance(r[1..]);
    if |r2| >= 3 {
      AllEarsCount(e, r2, Keep(z, r2), |r2|, pass);
    }
  }

  /** The unit square, turning the way the ear test accepts. */
  function Square(): seq<Vec2> {
    [Vec2(0.0, 0.0), Vec2(1.0, 0.0), Vec2(1.0, 1.0), Vec2(0.0, 1.0)]
  }

  lemma SquareFirstEar()
    ensures IsEar(Square(), [0, 1, 2, 3])
  {
    var pts, r := Square(), [0, 1, 2, 3];
    assert Convex(pts, r) by {
      assert EarA(pts, r) == Vec2(0.0, 1.0) && EarB(pts, r) == Vec2(0.0, 0.0) && EarC(pts, r) == Vec2(1.0, 0.0);
    }
    assert !ReflexAt(pts, r, 2) by {
      var q := CornerAt(pts, r, 2);
      assert q.prev == Vec2(1.0, 0.0) && q.at == Vec2(1.0, 1.0) && q.next == Vec2(0.0, 1.0);
    }
  }

  lemma SquareSecondEar()
    ensures IsEar(Square(), [2, 3, 1])
  {
    var pts, r := Square(), [2, 3, 1];
    assert EarA(pts, r) == Vec2(1.0, 0.0) && EarB(pts, r) == Vec2(1.0, 1.0) && EarC(pts, r) == Vec2(0.0, 1.0);
  }

  /** The source's own tests meet that hypothesis: on the unit square, in
      the turning direction the ear test accepts, both rings the loop
      examines are ears at their current node, so the square yields its
      two triangles. */
  lemma SquareAllEars(f: Frame)
    ensures EarsAlong(SourceEnv(Ctx(Square(), f), false), [0, 1, 2, 3], [])
    ensures |ClipLoop(SourceEnv(Ctx(Square(), f), false), [0, 1, 2, 3], [], 4, 0)| == 6
  {
    var e := SourceEnv(Ctx(Square(), f), false);
    var r: seq<nat> := [0, 1, 2, 3];
    var r2: seq<nat> := [2, 3, 1];
    assert Advance(r[1..]) == r2;
    assert Advance(r2[1..]) == [1, 3];
    SquareFirstEar();
    SquareSecondEar();
    assert EarAt(e, r2, Keep([], r2));
    assert EarsAlong(e, r2, Keep([], r2));
    assert EarAt(e, r, []);
    AllEarsCount(e, r, [], 4, 0);
  }

  /** The collected indices are whole triangles of point indices, at most
      n-2 of them. */
  lemma TriangulateFits(pts: seq<Vec2>, clockwise: bool, complex: bool)
    requires |pts| >= 2
    ensures var out := Triangulate(pts, clockwise, complex);
      |out| % 3 == 0 && |out| <= 3 * (|pts| - 2) && forall x :: x in out ==> x < |pts|
  {
    var c := Ctx(pts, FrameOf(pts));
    var ring := CreateLinkedList(pts, clockwise);
    CreateLinkedListRing(pts, clockwise);
    ProcessListFits(SourceEnv(c, complex), ring, [], 0);
    assert Triangulate(pts, clockwise, complex) == ProcessList(SourceEnv(c, complex), ring, [], 0);
  }

  /** The points of in-range indices are points of the sequence. */
  lemma PointsOfIn(pts: seq<Vec2>, out: seq<nat>)
    requires forall x :: x in out ==> x < |pts|
    ensures forall w :: w in PointsOf(pts, out) ==> w in pts
  {
    var v := PointsOf(pts, out);
    forall w | w in v ensures w in pts {
      var k :| 0 <= k < |v| && v[k] == w;
      assert out[k] in out;
    }
  }

  /** What `process` returns: the constructor's error for fewer than three
      points; otherwise whole triangles, at most n-2 of them, whose corners
      are points of the polygon. */
  lemma ProcessOutput(points: seq<Vec2>)
    ensures Process(points).Ok? ==> |Process(points).value| % 3 == 0
    ensures Process(points).Ok? ==> |Process(points).value| <= 3 * (|points| - 2)
    ensures Process(points).Ok? ==> forall v :: v in Process(points).value ==> v in points
  {
    if |points| >= 3 {
      var p := Polygon2.Polygon(points);
      var q := Oriented(p);
      OrientedClockwise(p);
      var pts := q.points;
      if |pts| > 3 {
        var cw := Polygon2.Clockwise(q);
        TriangulateFits(pts, cw, |pts| >= 70);
        PointsOfIn(pts, Triangulate(pts, cw, |pts| >= 70));
      }
    }
  }
}
