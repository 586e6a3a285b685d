/** The bookkeeping of `Delaunay.ts` (Bowyer-Watson insertion with a
    super-triangle): the bail-out, the working copy of the vertices, the
    index sort that fixes the insertion order, the open/closed triangle
    lists, the duplicate-edge removal, GetCircle's error guard and the
    final filter. The two circumcircle tests of the insertion loop (is the
    new vertex right of the circle, is it outside it) are tolerance-based
    float tests and are taken as parameters. */
module Delaunay {
  import opened Wrappers
  import opened Vector2
  import opened SeqUtil
  import opened DelaunayEdges

  const EPSILON: real := 1.0 / 1048576.0

  /** A DelaunayCircle, by the three vertex numbers of its triangle. Its
      centre and squared radius are functions of those vertices, so the
      tests that read them are given the triangle. */
  datatype Circle = Circle(i: nat, j: nat, k: nat)

  datatype DelaunayError = CoincidentPoints

  function Abs(x: real): real {
    if x < 0.0 then -x else x
  }

  // ---------------------------------------------------------------------
  // GetCircle's guard
  // ---------------------------------------------------------------------

  /** Both y-gaps of the triple are below EPSILON. */
  predicate Flat(v: seq<Vec2>, i: nat, j: nat, k: nat)
    requires i < |v| && j < |v| && k < |v|
  {
    Abs(v[i].y - v[j].y) < EPSILON && Abs(v[j].y - v[k].y) < EPSILON
  }

  /** GetCircle: throws "Coincident points" on a flat triple, otherwise
      records the triangle (its centre and radius are left out). */
  function GetCircle(v: seq<Vec2>, i: nat, j: nat, k: nat): (r: Result<Circle, DelaunayError>)
    requires i < |v| && j < |v| && k < |v|
  {
    if Flat(v, i, j, k) then Err(CoincidentPoints) else Ok(Circle(i, j, k))
  }

  /** A circle is recorded exactly for the triple asked for, and the error
      is raised for coincident points. */
  lemma GetCircleResult(v: seq<Vec2>, i: nat, j: nat, k: nat)
    requires i < |v| && j < |v| && k < |v|
    ensures GetCircle(v, i, j, k).Ok? ==> GetCircle(v, i, j, k).value == Circle(i, j, k)
    ensures v[i] == v[j] == v[k] ==> GetCircle(v, i, j, k) == Err(CoincidentPoints)
  {
  }

  /** The guard looks at y only: three distinct points on one horizontal
      line are reported as coincident too. */
  lemma HorizontalTripleThrows()
    ensures GetCircle([Vec2(0.0, 0.0), Vec2(1.0, 0.0), Vec2(2.0, 0.0)], 0, 1, 2)
         == Err(CoincidentPoints)
  {
  }

  // ---------------------------------------------------------------------
  // The super-triangle
  // ---------------------------------------------------------------------

  datatype Extent = Extent(xmin: real, xmax: real, ymin: real, ymax: real)

  /** One step of CreateSuperTriangle's scan. */
  function Widen(e: Extent, p: Vec2): Extent {
    Extent(if p.x < e.xmin then p.x else e.xmin, if p.x > e.xmax then p.x else e.xmax,
           if p.y < e.ymin then p.y else e.ymin, if p.y > e.ymax then p.y else e.ymax)
  }

  /** The scan runs from the last vertex down to the first; starting from
      the infinities, the first step just takes that vertex. */
  function ExtentOf(v: seq<Vec2>): (e: Extent)
    requires |v| >= 1
    ensures forall p :: p in v ==> e.xmin <= p.x <= e.xmax && e.ymin <= p.y <= e.ymax
  {
    if |v| == 1 then Extent(v[0].x, v[0].x, v[0].y, v[0].y)
    else Widen(ExtentOf(v[1..]), v[0])
  }

  /** The largest side of the vertices' bounding box. */
  function DMax(v: seq<Vec2>): (d: real)
    requires |v| >= 1
    ensures d >= 0.0
  {
    var e := ExtentOf(v);
    var dx := e.xmax - e.xmin;
    var dy := e.ymax - e.ymin;
    if dx > dy then dx else dy
  }

  function SuperTriangle(v: seq<Vec2>): (st: seq<Vec2>)
    requires |v| >= 1
    ensures |st| == 3
  {
    var e := ExtentOf(v);
    var dmax := DMax(v);
    var xmid := e.xmin + (e.xmax - e.xmin) * 0.5;
    var ymid := e.ymin + (e.ymax - e.ymin) * 0.5;
    [Vec2(xmid - 20.0 * dmax, ymid - dmax), Vec2(xmid, ymid + 20.0 * dmax), Vec2(xmid + 20.0 * dmax, ymid - dmax)]
  }

  /** The super-triangle's circle is refused exactly when 21 * dmax is
      below EPSILON: the input spans less than EPSILON / 21 in both x and y. */
  lemma SuperCircleGuard(vertices: seq<Vec2>)
    requires |vertices| >= 1
    ensures var v := vertices + SuperTriangle(vertices);
      var n := |vertices|;
      GetCircle(v, n, n + 1, n + 2).Err? <==> 21.0 * DMax(vertices) < EPSILON
  {
    var v := vertices + SuperTriangle(vertices);
    var n := |vertices|;
    var d := DMax(vertices);
    assert v[n].y - v[n + 1].y == -21.0 * d;
    assert v[n + 1].y - v[n + 2].y == 21.0 * d;
  }

  /** A vertex list of one repeated point has a zero-size bounding box. */
  lemma {:induction false} ExtentOfRepeated(v: seq<Vec2>, p: Vec2)
    requires |v| >= 1 && forall q :: q in v ==> q == p
    ensures ExtentOf(v) == Extent(p.x, p.x, p.y, p.y)
    decreases |v|
  {
    if |v| > 1 {
      assert v[0] in v;
      forall q | q in v[1..]
        ensures q == p
      {
        assert q in v;
      }
      ExtentOfRepeated(v[1..], p);
    }
  }

  // ---------------------------------------------------------------------
  // The insertion order
  // ---------------------------------------------------------------------

  /** `new Uint16Array(n)` filled with `indices[i] = i`: a Uint16Array stores
      each number modulo 2^16. */
  function IndicesAsWritten(n: nat): (r: seq<nat>)
    ensures |r| == n
    ensures forall k :: 0 <= k < n ==> r[k] <= k && r[k] < 65536
    ensures n <= 65536 ==> r == Indices(n)
  {
    seq(n, i requires 0 <= i < n => i % 65536)
  }

  /** With more than 65536 vertices the index array is not 0 .. n-1: vertex
      0 appears twice and vertex 65536 never, so it is never inserted. */
  lemma IndicesWrapAround()
    ensures IndicesAsWritten(65537)[0] == 0 && IndicesAsWritten(65537)[65536] == 0
    ensures 65536 !in IndicesAsWritten(65537)
  {
    var r := IndicesAsWritten(65537);
    forall k | 0 <= k < |r|
      ensures r[k] != 65536
    {
      assert r[k] == k % 65536;
    }
  }

  /** The index array the rest of the model uses: 0 .. n-1. */
  function Indices(n: nat): (r: seq<nat>)
    ensures |r| == n
  {
    seq(n, i requires 0 <= i < n => i)
  }

  /** Every vertex number appears exactly once. */
  lemma {:induction false} IndicesArePermutation(n: nat, x: nat)
    ensures Count(Indices(n), x) == (if x < n then 1 else 0)
    decreases n
  {
    if n > 0 {
      var last: nat := n - 1;
      assert Indices(n) == Indices(last) + [last] by {
        forall i | 0 <= i < n
          ensures Indices(n)[i] == (Indices(last) + [last])[i]
        {
          if i < last {
            assert Indices(n)[i] == i == Indices(last)[i];
          }
        }
      }
      CountAppend(Indices(last), [last], x);
      IndicesArePermutation(last, x);
      assert Count([last], x) == (if x == last then 1 else 0) by {
        assert [last][1..] == [];
      }
    }
  }

  predicate IndicesBelow(s: seq<nat>, n: nat) {
    forall k :: 0 <= k < |s| ==> s[k] < n
  }

  /** The comparator: descending x, ties by ascending vertex number. */
  predicate Before(v: seq<Vec2>, a: nat, b: nat)
    requires a < |v| && b < |v|
  {
    v[a].x > v[b].x || (v[a].x == v[b].x && a < b)
  }

  /** Insertion of one index into a list sorted by the comparator. */
  function InsertSorted(v: seq<Vec2>, x: nat, s: seq<nat>): (r: seq<nat>)
    requires x < |v| && IndicesBelow(s, |v|)
    ensures |r| == |s| + 1 && IndicesBelow(r, |v|)
  {
    if |s| == 0 then [x]
    else if Before(v, x, s[0]) then [x] + s
    else [s[0]] + InsertSorted(v, x, s[1..])
  }

  /** `indices.sort(comparator)`: the comparator is a strict total order on
      distinct vertex numbers, so every correct sort returns this list. */
  function SortIndices(v: seq<Vec2>, s: seq<nat>): (r: seq<nat>)
    requires IndicesBelow(s, |v|)
    ensures |r| == |s| && IndicesBelow(r, |v|)
  {
    if |s| == 0 then [] else InsertSorted(v, s[0], SortIndices(v, s[1..]))
  }

  predicate SortedBy(v: seq<Vec2>, s: seq<nat>)
    requires IndicesBelow(s, |v|)
  {
    forall k :: 0 <= k < |s| - 1 ==> Before(v, s[k], s[k + 1])
  }

  lemma {:induction false} InsertSortedCount(v: seq<Vec2>, x: nat, s: seq<nat>, y: nat)
    requires x < |v| && IndicesBelow(s, |v|)
    ensures Count(InsertSorted(v, x, s), y) == Count(s, y) + (if y == x then 1 else 0)
    decreases |s|
  {
    if |s| > 0 && !Before(v, x, s[0]) {
      InsertSortedCount(v, x, s[1..], y);
      assert ([s[0]] + InsertSorted(v, x, s[1..]))[1..] == InsertSorted(v, x, s[1..]);
    } else if |s| > 0 {
      assert ([x] + s)[1..] == s;
    }
  }

  lemma {:induction false} InsertSortedSorted(v: seq<Vec2>, x: nat, s: seq<nat>)
    requires x < |v| && IndicesBelow(s, |v|) && SortedBy(v, s)
    requires forall k :: 0 <= k < |s| ==> s[k] != x
    ensures SortedBy(v, InsertSorted(v, x, s))
    ensures |s| > 0 ==> InsertSorted(v, x, s)[0] == x || InsertSorted(v, x, s)[0] == s[0]
    decreases |s|
  {
    if |s| > 0 && !Before(v, x, s[0]) {
      InsertSortedSorted(v, x, s[1..]);
      var r := InsertSorted(v, x, s);
      var t := InsertSorted(v, x, s[1..]);
      assert r == [s[0]] + t;
      assert Before(v, s[0], x);
      forall k | 0 <= k < |r| - 1
        ensures Before(v, r[k], r[k + 1])
      {
        if k > 0 {
          assert r[k] == t[k - 1] && r[k + 1] == t[k];
        } else if |s| > 1 {
          assert t[0] == x || t[0] == s[1];
        }
      }
    }
  }

  lemma {:induction false} SortIndicesSpec(v: seq<Vec2>, s: seq<nat>)
    requires IndicesBelow(s, |v|) && Distinct(s)
    ensures SortedBy(v, SortIndices(v, s))
    ensures forall y :: Count(SortIndices(v, s), y) == Count(s, y)
    decreases |s|
  {
    if |s| > 0 {
      assert Distinct(s[1..]) by {
        forall i, j | 0 <= i < j < |s[1..]|
          ensures s[1..][i] != s[1..][j]
        {
          assert s[1..][i] == s[i + 1] && s[1..][j] == s[j + 1];
        }
      }
      SortIndicesSpec(v, s[1..]);
      var t := SortIndices(v, s[1..]);
      assert s[0] !in s[1..] by {
        forall q | 0 <= q < |s[1..]|
          ensures s[1..][q] != s[0]
        {
          assert s[1..][q] == s[q + 1];
        }
      }
      CountPositive(s[1..], s[0]);
      CountPositive(t, s[0]);
      forall k | 0 <= k < |t|
        ensures t[k] != s[0]
      {
        assert t[k] in t;
      }
      InsertSortedSorted(v, s[0], t);
      forall y
        ensures Count(SortIndices(v, s), y) == Count(s, y)
      {
        InsertSortedCount(v, s[0], t, y);
        assert s == [s[0]] + s[1..];
        CountAppend([s[0]], s[1..], y);
        assert [s[0]][1..] == [];
      }
    }
  }

  /** How often each vertex number occurs in the as-written index array,
      for up to two wraps: x < 65536 is stored at slot x and at slot
      x + 65536, and no larger number is stored at all. */
  lemma {:induction false} IndicesAsWrittenCount(n: nat, x: nat)
    requires n <= 131072
    ensures Count(IndicesAsWritten(n), x) ==
      (if x < 65536 && x < n then 1 else 0) + (if x < 65536 && x + 65536 < n then 1 else 0)
    decreases n
  {
    if n > 0 {
      var last: nat := n - 1;
      var m: nat := last % 65536;
      assert IndicesAsWritten(n) == IndicesAsWritten(last) + [m] by {
        forall i | 0 <= i < n
          ensures IndicesAsWritten(n)[i] == (IndicesAsWritten(last) + [m])[i]
        {
          if i < last {
            assert IndicesAsWritten(n)[i] == i % 65536 == IndicesAsWritten(last)[i];
          }
        }
      }
      CountAppend(IndicesAsWritten(last), [m], x);
      IndicesAsWrittenCount(last, x);
      assert Count([m], x) == (if x == m then 1 else 0) by {
        assert [m][1..] == [];
      }
      assert m == (if last < 65536 then last else last - 65536);
    }
  }

  /** `indices.sort` only reorders its array. */
  lemma {:induction false} SortIndicesCount(v: seq<Vec2>, s: seq<nat>, y: nat)
    requires IndicesBelow(s, |v|)
    ensures Count(SortIndices(v, s), y) == Count(s, y)
    decreases |s|
  {
    if |s| > 0 {
      SortIndicesCount(v, s[1..], y);
      InsertSortedCount(v, s[0], SortIndices(v, s[1..]), y);
      assert s == [s[0]] + s[1..];
      CountAppend([s[0]], s[1..], y);
      assert [s[0]][1..] == [];
    }
  }

  /** The order the main loop inserts vertices in, as written: the sorted
      as-written index array, consumed from its end. */
  function InsertionOrder(vertices: seq<Vec2>): (order: seq<nat>)
    ensures |order| == |vertices| && IndicesBelow(order, |vertices|)
  {
    var n := |vertices|;
    assert IndicesBelow(IndicesAsWritten(n), n);
    var sorted := SortIndices(vertices, IndicesAsWritten(n));
    Reverse(sorted)
  }

  /** The order with the intended index array 0 .. n-1. */
  function InsertionOrderCorrected(vertices: seq<Vec2>): (order: seq<nat>)
    ensures |order| == |vertices| && IndicesBelow(order, |vertices|)
  {
    var sorted := SortIndices(vertices, Indices(|vertices|));
    Reverse(sorted)
  }

  /** As written, each vertex is inserted as often as its number occurs in
      the Uint16Array; up to 65536 vertices that is the intended order. */
  lemma InsertionOrderSpec(vertices: seq<Vec2>)
    ensures forall x: nat :: Count(InsertionOrder(vertices), x) == Count(IndicesAsWritten(|vertices|), x)
    ensures |vertices| <= 65536 ==> InsertionOrder(vertices) == InsertionOrderCorrected(vertices)
  {
    var n := |vertices|;
    forall x: nat
      ensures Count(InsertionOrder(vertices), x) == Count(IndicesAsWritten(n), x)
    {
      CountReverse(SortIndices(vertices, IndicesAsWritten(n)), x);
      SortIndicesCount(vertices, IndicesAsWritten(n), x);
    }
  }

  /** With 65537 vertices, vertex 0 is inserted twice and vertex 65536,
      the rightmost or not, never. */
  lemma InsertionOrderWrapAround(vertices: seq<Vec2>)
    requires |vertices| == 65537
    ensures Count(InsertionOrder(vertices), 0) == 2
    ensures Count(InsertionOrder(vertices), 65536) == 0
  {
    InsertionOrderSpec(vertices);
    IndicesAsWrittenCount(65537, 0);
    IndicesAsWrittenCount(65537, 65536);
  }

  /** With the intended index array every vertex is inserted exactly once,
      in ascending x (ties in descending vertex number). */
  lemma InsertionOrderCorrectedSpec(vertices: seq<Vec2>)
    ensures forall x: nat :: Count(InsertionOrderCorrected(vertices), x) == (if x < |vertices| then 1 else 0)
    ensures forall k :: 0 <= k < |vertices| - 1 ==>
      var o := InsertionOrderCorrected(vertices);
      vertices[o[k]].x < vertices[o[k + 1]].x ||
      (vertices[o[k]].x == vertices[o[k + 1]].x && o[k] > o[k + 1])
  {
    var n := |vertices|;
    var s := Indices(n);
    assert Distinct(s);
    SortIndicesSpec(vertices, s);
    var sorted := SortIndices(vertices, s);
    var o := InsertionOrderCorrected(vertices);
    forall x: nat
      ensures Count(o, x) == (if x < n then 1 else 0)
    {
      CountReverse(sorted, x);
      IndicesArePermutation(n, x);
    }
    forall k | 0 <= k < n - 1
      ensures vertices[o[k]].x < vertices[o[k + 1]].x ||
        (vertices[o[k]].x == vertices[o[k + 1]].x && o[k] > o[k + 1])
    {
      assert o[k] == sorted[n - 1 - k] && o[k + 1] == sorted[n - 2 - k];
      assert Before(vertices, sorted[n - 2 - k], sorted[n - 1 - k]);
    }
  }

  lemma {:induction false} CountReverse<T>(s: seq<T>, x: T)
    ensures Count(Reverse(s), x) == Count(s, x)
    decreases |s|
  {
    if |s| > 0 {
      CountReverse(s[1..], x);
      CountAppend(Reverse(s[1..]), [s[0]], x);
      assert s == [s[0]] + s[1..];
      CountAppend([s[0]], s[1..], x);
    }
  }

  // ---------------------------------------------------------------------
  // The insertion loop
  // ---------------------------------------------------------------------

  /** The circumcircle tests of the insertion loop: the vertex is right of
      the circle (dx > 0 and dx^2 > r), or outside it (beyond the EPSILON
      tolerance). */
  datatype Tests = Tests(rightOf: (nat, Circle) -> bool, outside: (nat, Circle) -> bool)

  datatype Mesh = Mesh(open: seq<Circle>, closed: seq<Circle>)

  predicate CirclesBelow(cs: seq<Circle>, m: nat) {
    forall q :: 0 <= q < |cs| ==> cs[q].i < m && cs[q].j < m && cs[q].k < m
  }

  predicate EdgesBelow(es: seq<Edge>, m: nat) {
    forall q :: 0 <= q < |es| ==> es[q].a < m && es[q].b < m
  }

  /** What one sweep over the open list leaves: the triangles kept open, the
      ones moved to the closed list (in the order pushed) and the edges of
      the removed ones (in the order pushed). */
  datatype Swept = Swept(kept: seq<Circle>, moved: seq<Circle>, edges: seq<Edge>)

  function EdgesOf(o: Circle): seq<Edge> {
    [Edge(o.i, o.j), Edge(o.j, o.k), Edge(o.k, o.i)]
  }

  /** The inner `for (j = open.length; j--;)`: splicing out open[j] while
      walking down leaves the unvisited prefix in place. */
  function Sweep(t: Tests, c: nat, open: seq<Circle>): (s: Swept)
    ensures |s.kept| + |s.moved| <= |open|
    ensures |s.edges| % 3 == 0
  {
    if |open| == 0 then Swept([], [], [])
    else
      var o := open[|open| - 1];
      var rest := Sweep(t, c, open[..|open| - 1]);
      if t.rightOf(c, o) then Swept(rest.kept, [o] + rest.moved, rest.edges)
      else if t.outside(c, o) then Swept(rest.kept + [o], rest.moved, rest.edges)
      else Swept(rest.kept, rest.moved, EdgesOf(o) + rest.edges)
  }

  /** The sweep only moves triangles and their edges around. */
  lemma {:induction false} SweepBelow(t: Tests, c: nat, open: seq<Circle>, m: nat)
    requires CirclesBelow(open, m)
    ensures CirclesBelow(Sweep(t, c, open).kept, m)
    ensures CirclesBelow(Sweep(t, c, open).moved, m)
    ensures EdgesBelow(Sweep(t, c, open).edges, m)
    decreases |open|
  {
    if |open| > 0 {
      SweepBelow(t, c, open[..|open| - 1], m);
    }
  }

  lemma EdgesBelowMembers(es: seq<Edge>, r: seq<Edge>, m: nat)
    requires EdgesBelow(es, m)
    requires forall x :: x in r ==> x in es
    ensures EdgesBelow(r, m)
  {
    forall q | 0 <= q < |r|
      ensures r[q].a < m && r[q].b < m
    {
      assert r[q] in es;
    }
  }

  /** The push loop `for (j = edges.length; j;)`: one circle per edge, from
      the last edge to the first, each closed by the new vertex c. */
  function AddCircles(v: seq<Vec2>, c: nat, es: seq<Edge>): (r: Result<seq<Circle>, DelaunayError>)
    requires c < |v| && EdgesBelow(es, |v|)
    ensures r.Ok? ==> |r.value| == |es| && CirclesBelow(r.value, |v|)
    ensures r.Ok? ==> forall q :: 0 <= q < |es| ==>
      r.value[q] == Circle(es[|es| - 1 - q].a, es[|es| - 1 - q].b, c)
  {
    if |es| == 0 then Ok([])
    else
      var e := es[|es| - 1];
      match GetCircle(v, e.a, e.b, c)
      case Err(x) => Err(x)
      case Ok(circle) =>
        match AddCircles(v, c, es[..|es| - 1])
        case Err(x) => Err(x)
        case Ok(rest) => Ok([circle] + rest)
  }

  /** One round of the outer loop: sweep, drop shared edges, fan the hole
      from c. */
  function InsertVertex(v: seq<Vec2>, t: Tests, c: nat, m: Mesh): (r: Result<Mesh, DelaunayError>)
    requires c < |v| && CirclesBelow(m.open, |v|)
    ensures r.Ok? ==> CirclesBelow(r.value.open, |v|)
    ensures r.Ok? && CirclesBelow(m.closed, |v|) ==> CirclesBelow(r.value.closed, |v|)
  {
    var s := Sweep(t, c, m.open);
    SweepBelow(t, c, m.open, |v|);
    var edges := RemoveDuplicatedEdges(s.edges);
    RemoveDuplicatedEdgesSpec(s.edges);
    EdgesBelowMembers(s.edges, edges, |v|);
    match AddCircles(v, c, edges)
    case Err(x) => Err(x)
    case Ok(added) => Ok(Mesh(s.kept + added, m.closed + s.moved))
  }

  /** `for (i = indices.length; i--;)`: insert the vertices from the end of
      the sorted index array. */
  function InsertAll(v: seq<Vec2>, t: Tests, sorted: seq<nat>, m: Mesh): (r: Result<Mesh, DelaunayError>)
    requires IndicesBelow(sorted, |v|) && CirclesBelow(m.open, |v|)
    ensures r.Ok? ==> CirclesBelow(r.value.open, |v|)
    ensures r.Ok? && CirclesBelow(m.closed, |v|) ==> CirclesBelow(r.value.closed, |v|)
    decreases |sorted|
  {
    if |sorted| == 0 then Ok(m)
    else
      match InsertVertex(v, t, sorted[|sorted| - 1], m)
      case Err(x) => Err(x)
      case Ok(m2) => InsertAll(v, t, sorted[..|sorted| - 1], m2)
  }

  // ---------------------------------------------------------------------
  // The final filter and the whole function
  // ---------------------------------------------------------------------

  predicate RealTriangle(o: Circle, n: nat) {
    o.i < n && o.j < n && o.k < n
  }

  /** `for (i = closed.length; i--;)`: keep the triangles that do not touch
      the super-triangle, in the order visited. */
  function Keep(n: nat, all: seq<Circle>): (r: seq<Circle>)
    ensures CirclesBelow(r, n)
  {
    if |all| == 0 then []
    else
      var o := all[|all| - 1];
      (if RealTriangle(o, n) then [o] else []) + Keep(n, all[..|all| - 1])
  }

  /** The triangles kept are exactly the collected ones off the
      super-triangle. */
  lemma {:induction false} KeepExactly(n: nat, all: seq<Circle>, o: Circle)
    ensures o in Keep(n, all) <==> o in all && RealTriangle(o, n)
    decreases |all|
  {
    if |all| > 0 {
      KeepExactly(n, all[..|all| - 1], o);
      assert all == all[..|all| - 1] + [all[|all| - 1]];
    }
  }

  /** The three corners of every kept triangle, cloned from the vertices. */
  function Corners(v: seq<Vec2>, tris: seq<Circle>): (r: seq<Vec2>)
    requires CirclesBelow(tris, |v|)
    ensures |r| == 3 * |tris|
    ensures forall q :: 0 <= q < |tris| ==>
      r[3 * q] == v[tris[q].i] && r[3 * q + 1] == v[tris[q].j] && r[3 * q + 2] == v[tris[q].k]
  {
    if |tris| == 0 then []
    else [v[tris[0].i], v[tris[0].j], v[tris[0].k]] + Corners(v, tris[1..])
  }

  /** Every corner is one of the vertices the triangles name. */
  lemma {:induction false} CornersIn(v: seq<Vec2>, tris: seq<Circle>)
    requires CirclesBelow(tris, |v|)
    ensures forall p :: p in Corners(v, tris) ==> p in v
    decreases |tris|
  {
    if |tris| > 0 {
      CornersIn(v, tris[1..]);
      assert Corners(v, tris) == [v[tris[0].i], v[tris[0].j], v[tris[0].k]] + Corners(v, tris[1..]);
    }
  }

  /** The closing loops: open triangles are appended to the closed list
      from the last, then the closed list is filtered from the last and
      each kept triangle emitted as three vertices. */
  function Emit(vertices: seq<Vec2>, m: Mesh): (out: seq<Vec2>)
    ensures |out| % 3 == 0
    ensures forall p :: p in out ==> p in vertices
  {
    var tris := Keep(|vertices|, m.closed + Reverse(m.open));
    CornersIn(vertices, tris);
    Corners(vertices, tris)
  }

  /** Delaunay(vertices): fewer than three vertices give []; otherwise the
      working copy gets the super-triangle appended, and the triangles of
      the final mesh that avoid it are emitted as vertex triples. */
  function Triangulate(vertices: seq<Vec2>, t: Tests): (r: Result<seq<Vec2>, DelaunayError>)
    ensures |vertices| < 3 ==> r == Ok([])
    ensures r.Ok? ==> |r.value| % 3 == 0
    ensures r.Ok? ==> forall p :: p in r.value ==> p in vertices
  {
    var n := |vertices|;
    if n < 3 then Ok([])
    else
      var v := vertices + SuperTriangle(vertices);
      var order := SortIndices(vertices, IndicesAsWritten(n));
      match GetCircle(v, n, n + 1, n + 2)
      case Err(x) => Err(x)
      case Ok(st) =>
        match InsertAll(v, t, order, Mesh([st], []))
        case Err(x) => Err(x)
        case Ok(m) =>
          Ok(Emit(vertices, m))
  }

  /** Three or more copies of one point make the super-triangle degenerate:
      Delaunay throws "Coincident points". */
  lemma RepeatedPointThrows(vertices: seq<Vec2>, t: Tests)
    requires |vertices| >= 3 && forall q :: q in vertices ==> q == vertices[0]
    ensures Triangulate(vertices, t) == Err(CoincidentPoints)
  {
    ExtentOfRepeated(vertices, vertices[0]);
    SuperCircleGuard(vertices);
  }
}
