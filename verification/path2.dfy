/** `Path2`: a path builder that records segment types and their vertices,
    and `end()`, which flattens the recorded segments into computed
    vertices and a bounding rectangle. The rectangle behaves as Box2.
    Conic subdivision is a float-tolerance recursion and is taken as a
    parameter: the points it pushes between a conic's first and last
    point. */
module Path2 {
  import opened Wrappers
  import opened Vector2
  import opened Box2

  datatype SegmentType = Move | Linear | Conic | Cubic | Arc

  /** The object's fields. `params` is never written by any method. */
  datatype Path = Path(
    types: seq<SegmentType>,
    params: seq<real>,
    vertices: seq<Vec2>,
    bounds: Box,
    closed: bool,
    computed: seq<Vec2>,
    computedLength: real)

  /** A JavaScript TypeError: a segment reads a vertex past the end of the
      vertex list and then dereferences `undefined`. */
  datatype PathError = MissingVertex

  /** The points subdivideConic pushes for the conic p1, p2, p3. */
  type Subdivider = (Vec2, Vec2, Vec2) -> seq<Vec2>

  function New(): Path {
    Path([], [], [], Empty(), false, [], 0.0)
  }

  /** clear(): everything but the computed vertices and length is reset. */
  function Clear(p: Path): Path {
    p.(types := [], params := [], vertices := [], closed := false, bounds := Empty())
  }

  function Begin(p: Path, x: real, y: real): Path {
    p.(types := p.types + [Move], vertices := p.vertices + [Vec2(x, y)])
  }

  function LineTo(p: Path, x: real, y: real): Path {
    p.(types := p.types + [Linear], vertices := p.vertices + [Vec2(x, y)])
  }

  function ConicCurveTo(p: Path, cx: real, cy: real, x: real, y: real): Path {
    p.(types := p.types + [Conic], vertices := p.vertices + [Vec2(cx, cy), Vec2(x, y)])
  }

  function CubicCurveTo(p: Path, cx1: real, cy1: real, cx2: real, cy2: real, x: real, y: real): Path {
    p.(types := p.types + [Cubic], vertices := p.vertices + [Vec2(cx1, cy1), Vec2(cx2, cy2), Vec2(x, y)])
  }

  /** close() only marks a path that has at least one vertex. */
  function Close(p: Path): (r: Path)
    ensures r.closed <==> p.closed || |p.vertices| >= 1
    ensures r.(closed := p.closed) == p
  {
    if |p.vertices| < 1 then p else p.(closed := true)
  }

  // ---------------------------------------------------------------------
  // The builder invariant
  // ---------------------------------------------------------------------

  /** How many vertices each builder call appends with its segment type. */
  function Arity(t: SegmentType): nat {
    match t
    case Move => 1
    case Linear => 1
    case Conic => 2
    case Cubic => 3
    case Arc => 0
  }

  function VertexCount(types: seq<SegmentType>): nat {
    if |types| == 0 then 0 else VertexCount(types[..|types| - 1]) + Arity(types[|types| - 1])
  }

  /** Each recorded segment owns exactly its arity's worth of vertices. */
  predicate Aligned(p: Path) {
    |p.vertices| == VertexCount(p.types)
  }

  /** A new or cleared path is aligned, each builder call appends one
      segment type and that type's number of vertices, and close() changes
      neither list. */
  lemma BuildersKeepAligned(p: Path, x: real, y: real, cx: real, cy: real, dx: real, dy: real)
    requires Aligned(p)
    ensures Aligned(New()) && Aligned(Clear(p))
    ensures Aligned(Begin(p, x, y)) && Aligned(LineTo(p, x, y))
    ensures Aligned(ConicCurveTo(p, cx, cy, x, y))
    ensures Aligned(CubicCurveTo(p, cx, cy, dx, dy, x, y))
    ensures Aligned(Close(p))
  {
    assert (p.types + [Move])[..|p.types|] == p.types;
    assert (p.types + [Linear])[..|p.types|] == p.types;
    assert (p.types + [Conic])[..|p.types|] == p.types;
    assert (p.types + [Cubic])[..|p.types|] == p.types;
  }

  // ---------------------------------------------------------------------
  // compute()
  // ---------------------------------------------------------------------

  /** What the flattening loop produces. */
  datatype Flat = Flat(bounds: Box, computed: seq<Vec2>)

  /** The first point of a segment is pushed only when nothing has been
      computed yet. */
  function StartWith(computed: seq<Vec2>, p1: Vec2): seq<Vec2> {
    if |computed| == 0 then [p1] else computed
  }

  /** The `for` loop of compute() from segment s with vertex cursor v. A
      Move does not advance the cursor; a Linear segment reads vertices v
      and v+1 and advances by one; a Conic reads v, v+1, v+2 and advances
      by two; Cubic and Arc have no case at all. */
  function ComputeFrom(types: seq<SegmentType>, vertices: seq<Vec2>, conic: Subdivider,
                       s: nat, v: nat, acc: Flat): (r: Result<Flat, PathError>)
    requires s <= |types|
    decreases |types| - s
  {
    if s == |types| then Ok(acc)
    else
      match types[s]
      case Linear =>
        if v + 1 >= |vertices| then Err(MissingVertex)
        else
          var p1 := vertices[v];
          var p2 := vertices[v + 1];
          var b := Expand(Expand(acc.bounds, p1), p2);
          ComputeFrom(types, vertices, conic, s + 1, v + 1, Flat(b, StartWith(acc.computed, p1) + [p2]))
      case Conic =>
        if v + 2 >= |vertices| then Err(MissingVertex)
        else
          var p1 := vertices[v];
          var p2 := vertices[v + 1];
          var p3 := vertices[v + 2];
          var c := StartWith(acc.computed, p1) + conic(p1, p2, p3) + [p3];
          ComputeFrom(types, vertices, conic, s + 1, v + 2, Flat(acc.bounds, c))
      case _ =>
        ComputeFrom(types, vertices, conic, s + 1, v, acc)
  }

  /** end(): runs compute() from an emptied bounds and computed list; the
      computed length is reset to 0 and never accumulated. */
  function End(p: Path, conic: Subdivider): (r: Result<Path, PathError>)
    ensures r.Ok? ==> r.value.types == p.types && r.value.vertices == p.vertices
    ensures r.Ok? ==> r.value.closed == p.closed && r.value.computedLength == 0.0
  {
    match ComputeFrom(p.types, p.vertices, conic, 0, 0, Flat(Empty(), []))
    case Err(e) => Err(e)
    case Ok(f) => Ok(p.(bounds := f.bounds, computed := f.computed, computedLength := 0.0))
  }

  // ---------------------------------------------------------------------
  // Polylines
  // ---------------------------------------------------------------------

  /** begin(pts[0]) followed by lineTo(pts[k]) for every later point. */
  function Polyline(pts: seq<Vec2>): (p: Path)
    requires |pts| >= 1
    decreases |pts|
  {
    if |pts| == 1 then Begin(New(), pts[0].x, pts[0].y)
    else LineTo(Polyline(pts[..|pts| - 1]), pts[|pts| - 1].x, pts[|pts| - 1].y)
  }

  lemma {:induction false} PolylineShape(pts: seq<Vec2>)
    requires |pts| >= 1
    ensures Polyline(pts).vertices == pts
    ensures |Polyline(pts).types| == |pts|
    ensures Polyline(pts).types[0] == Move
    ensures forall s :: 1 <= s < |pts| ==> Polyline(pts).types[s] == Linear
    decreases |pts|
  {
    if |pts| > 1 {
      var init := pts[..|pts| - 1];
      var last := pts[|pts| - 1];
      PolylineShape(init);
      var q := Polyline(init);
      assert Polyline(pts) == LineTo(q, last.x, last.y);
      assert Vec2(last.x, last.y) == last;
      assert pts == init + [last];
    }
  }

  /** The loop over a polyline's Linear segments: after segment s the
      computed list is pts[..s+1] and the bounds hold each of those points. */
  lemma {:induction false} LinesFrom(pts: seq<Vec2>, types: seq<SegmentType>, conic: Subdivider, s: nat, acc: Flat)
    requires 1 <= s <= |pts| == |types|
    requires forall k :: 1 <= k < |types| ==> types[k] == Linear
    requires acc.computed == (if s == 1 then [] else pts[..s])
    requires forall k :: 0 <= k < s && s >= 2 ==> ContainsPoint(acc.bounds, pts[k])
    ensures ComputeFrom(types, pts, conic, s, s - 1, acc).Ok?
    ensures |pts| >= 2 ==> ComputeFrom(types, pts, conic, s, s - 1, acc).value.computed == pts
    ensures |pts| >= 2 ==> forall k :: 0 <= k < |pts| ==>
      ContainsPoint(ComputeFrom(types, pts, conic, s, s - 1, acc).value.bounds, pts[k])
    decreases |types| - s
  {
    if s < |types| {
      var p1 := pts[s - 1];
      var p2 := pts[s];
      var b := Expand(Expand(acc.bounds, p1), p2);
      var next := Flat(b, StartWith(acc.computed, p1) + [p2]);
      assert next.computed == pts[..s + 1];
      forall k | 0 <= k < s + 1
        ensures ContainsPoint(b, pts[k])
      {
        if k < s - 1 {
          assert ContainsPoint(acc.bounds, pts[k]);
        }
      }
      LinesFrom(pts, types, conic, s + 1, next);
    } else {
      assert pts[..s] == pts;
    }
  }

  /** For begin followed only by lineTo calls (at least one), end() yields
      exactly the vertex list, in order, and a bounding rectangle holding
      every vertex. A lone begin computes nothing. */
  lemma PolylineEnd(pts: seq<Vec2>, conic: Subdivider)
    requires |pts| >= 1
    ensures End(Polyline(pts), conic).Ok?
    ensures |pts| >= 2 ==> End(Polyline(pts), conic).value.computed == pts
    ensures |pts| >= 2 ==> forall k :: 0 <= k < |pts| ==>
      ContainsPoint(End(Polyline(pts), conic).value.bounds, pts[k])
    ensures |pts| == 1 ==> End(Polyline(pts), conic).value.computed == []
  {
    var p := Polyline(pts);
    PolylineShape(pts);
    var acc := Flat(Empty(), []);
    assert ComputeFrom(p.types, p.vertices, conic, 0, 0, acc)
        == ComputeFrom(p.types, p.vertices, conic, 1, 0, acc);
    LinesFrom(pts, p.types, conic, 1, acc);
  }

  // ---------------------------------------------------------------------
  // Conic and cubic segments
  // ---------------------------------------------------------------------

  /** Conic points never reach the bounds: a path of one begin and one
      conic has an empty bounding rectangle after end(). The computed list
      is the start, the subdivision points and the end. */
  lemma ConicNotBounded(a: Vec2, c: Vec2, b: Vec2, conic: Subdivider)
    ensures var p := ConicCurveTo(Begin(New(), a.x, a.y), c.x, c.y, b.x, b.y);
      End(p, conic).Ok? &&
      End(p, conic).value.bounds == Empty() &&
      End(p, conic).value.computed == [a] + conic(a, c, b) + [b]
  {
    var p := ConicCurveTo(Begin(New(), a.x, a.y), c.x, c.y, b.x, b.y);
    assert p.types == [Move, Conic] && p.vertices == [a, c, b];
    var acc := Flat(Empty(), []);
    var out := [a] + conic(a, c, b) + [b];
    assert ComputeFrom(p.types, p.vertices, conic, 1, 0, acc)
        == ComputeFrom(p.types, p.vertices, conic, 2, 2, Flat(Empty(), out));
    assert ComputeFrom(p.types, p.vertices, conic, 0, 0, acc)
        == ComputeFrom(p.types, p.vertices, conic, 1, 0, acc);
  }

  /** A cubic segment emits nothing and leaves the cursor where it was, so
      a following lineTo draws from the begin point to the first cubic
      control point instead of from the cubic's end. */
  lemma CubicMisalignsLaterSegments(a: Vec2, c1: Vec2, c2: Vec2, d: Vec2, e: Vec2, conic: Subdivider)
    ensures var p := LineTo(CubicCurveTo(Begin(New(), a.x, a.y), c1.x, c1.y, c2.x, c2.y, d.x, d.y), e.x, e.y);
      End(p, conic).Ok? && End(p, conic).value.computed == [a, c1]
  {
    var p := LineTo(CubicCurveTo(Begin(New(), a.x, a.y), c1.x, c1.y, c2.x, c2.y, d.x, d.y), e.x, e.y);
    assert p.types == [Move, Cubic, Linear] && p.vertices == [a, c1, c2, d, e];
    var acc := Flat(Empty(), []);
    var b := Expand(Expand(Empty(), a), c1);
    assert p.types[2] == Linear && p.vertices[0] == a && p.vertices[1] == c1;
    assert StartWith([], a) + [c1] == [a, c1];
    assert ComputeFrom(p.types, p.vertices, conic, 2, 0, acc)
        == ComputeFrom(p.types, p.vertices, conic, 3, 1, Flat(b, [a, c1]));
    assert ComputeFrom(p.types, p.vertices, conic, 0, 0, acc)
        == ComputeFrom(p.types, p.vertices, conic, 1, 0, acc)
        == ComputeFrom(p.types, p.vertices, conic, 2, 0, acc);
  }

  /** A lineTo with no vertex before it reads past the list: end() throws. */
  lemma LineWithoutBeginThrows(x: real, y: real, conic: Subdivider)
    ensures End(LineTo(New(), x, y), conic) == Err(MissingVertex)
  {
  }

  /** clear() keeps the last computed vertices, but a following end()
      computes nothing. */
  lemma ClearThenEnd(p: Path, conic: Subdivider)
    ensures Clear(p).computed == p.computed
    ensures End(Clear(p), conic).Ok? && End(Clear(p), conic).value.computed == []
    ensures !Clear(p).closed && Clear(p).vertices == [] && Clear(p).types == []
  {
  }
}
