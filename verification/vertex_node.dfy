/** The vertex lists of the polygon clipper and its first phase: every
    crossing of a subject edge with a clip edge becomes a pair of mutual
    `neighbor` nodes spliced into both lists.

    Nodes live in an arena (`seq<Node>`, a node's id is its index). A list
    is kept in a structured form: original vertex i has id base + i, the
    sentinel copy of vertex 0 that closes the last edge has id `sentinel`,
    `pre` holds nodes spliced in front of vertex 0, and `runs[i]` holds the
    intersection nodes between vertex i and vertex i + 1 (or the sentinel).
    `Flat` is the list in `next` order. */
module VertexNode {
  import opened Wrappers
  import opened Vector2
  import opened SeqUtil
  import Segment2

  datatype Node = Node(vec: Vec2, alpha: real, intersect: bool,
                       neighbor: Option<nat>, entry: bool, visited: bool)

  /** A node made from an input point: alpha 0, not an intersection. */
  function Original(p: Vec2): Node {
    Node(p, 0.0, false, None, false, false)
  }

  datatype Chain = Chain(base: nat, sentinel: nat, pre: seq<nat>, runs: seq<seq<nat>>)

  datatype Graph = Graph(nodes: seq<Node>, subject: Chain, clip: Chain)

  function Body(c: Chain, i: nat): seq<nat>
    requires i <= |c.runs|
    decreases |c.runs| - i
  {
    if i == |c.runs| then [c.sentinel] else [c.base + i] + c.runs[i] + Body(c, i + 1)
  }

  /** The list in `next` order, from the first node spliced in front of
      vertex 0 to the sentinel. */
  function Flat(c: Chain): seq<nat> {
    c.pre + Body(c, 0)
  }

  /** Position of vertex 0 (the list handle) in `Flat`. */
  function Head(c: Chain): nat {
    |c.pre|
  }

  // ---------------------------------------------------------------------
  // Building the lists
  // ---------------------------------------------------------------------

  /** `CreateLinkedList`: one original node per point, in order. */
  function CreateLinkedList(points: seq<Vec2>): (nodes: seq<Node>)
    ensures |nodes| == |points|
    ensures forall i :: 0 <= i < |points| ==>
      nodes[i].vec == points[i] && !nodes[i].intersect && nodes[i].alpha == 0.0
  {
    seq(|points|, i requires 0 <= i < |points| => Original(points[i]))
  }

  /** The two lists with their sentinels: subject vertices get ids
      0..ns-1, clip vertices ns..ns+nc-1, then the subject sentinel (a copy
      of subject vertex 0) and the clip sentinel. */
  function Init(subject: seq<Vec2>, clip: seq<Vec2>): (g: Graph)
    requires |subject| >= 1 && |clip| >= 1
  {
    var ns := |subject|;
    var nc := |clip|;
    Graph(CreateLinkedList(subject) + CreateLinkedList(clip)
            + [Original(subject[0]), Original(clip[0])],
          Chain(0, ns + nc, [], seq(ns, _ => [])),
          Chain(ns, ns + nc + 1, [], seq(nc, _ => [])))
  }

  lemma {:induction false} EmptyRunsBody(c: Chain, i: nat)
    requires i <= |c.runs|
    requires forall k :: 0 <= k < |c.runs| ==> c.runs[k] == []
    ensures |Body(c, i)| == |c.runs| - i + 1
    ensures forall k :: 0 <= k < |c.runs| - i ==> Body(c, i)[k] == c.base + i + k
    ensures Body(c, i)[|c.runs| - i] == c.sentinel
    decreases |c.runs| - i
  {
    if i < |c.runs| {
      EmptyRunsBody(c, i + 1);
      assert Body(c, i) == [c.base + i] + Body(c, i + 1);
    }
  }

  /** Before any crossing is spliced in, each list visits its points in
      order and ends with the sentinel copy of its first point; the list
      handle is at position 0. */
  lemma InitLists(subject: seq<Vec2>, clip: seq<Vec2>)
    requires |subject| >= 1 && |clip| >= 1
    ensures var g := Init(subject, clip);
      var ns, nc := |subject|, |clip|;
      Head(g.subject) == 0 && Head(g.clip) == 0
      && Flat(g.subject) == seq(ns, i => i) + [ns + nc]
      && Flat(g.clip) == seq(nc, j => ns + j) + [ns + nc + 1]
      && g.nodes[ns + nc].vec == subject[0] && g.nodes[ns + nc + 1].vec == clip[0]
  {
    var g := Init(subject, clip);
    EmptyRunsBody(g.subject, 0);
    EmptyRunsBody(g.clip, 0);
    assert Flat(g.subject) == Body(g.subject, 0);
    assert Flat(g.clip) == Body(g.clip, 0);
  }

  // ---------------------------------------------------------------------
  // insertBetween
  // ---------------------------------------------------------------------

  predicate IdsIn(run: seq<nat>, n: nat) {
    forall k :: 0 <= k < |run| ==> run[k] < n
  }

  /** Where the walk of `insertBetween` stops inside a run: at the first
      node whose alpha is not below `alpha`, or at the end of the run. */
  function StopIndex(nodes: seq<Node>, run: seq<nat>, alpha: real): (m: nat)
    requires IdsIn(run, |nodes|)
    ensures m <= |run|
    ensures forall k :: 0 <= k < m ==> nodes[run[k]].alpha < alpha
    ensures m < |run| ==> nodes[run[m]].alpha >= alpha
  {
    if |run| == 0 then 0
    else if nodes[run[0]].alpha < alpha then 1 + StopIndex(nodes, run[1..], alpha)
    else 0
  }

  predicate RunsIn(c: Chain, n: nat) {
    IdsIn(c.pre, n) && forall i :: 0 <= i < |c.runs| ==> IdsIn(c.runs[i], n)
  }

  predicate IdsFrom(run: seq<nat>, lo: nat) {
    forall k :: 0 <= k < |run| ==> lo <= run[k]
  }

  /** Every spliced-in node has an id of at least `lo`. */
  predicate RunsFrom(c: Chain, lo: nat) {
    IdsFrom(c.pre, lo) && forall i :: 0 <= i < |c.runs| ==> IdsFrom(c.runs[i], lo)
  }

  /** `insertBetween(first, last)` for node x on edge i (first = vertex i,
      last = the next vertex). The walk starts at `first`, whose alpha is 0:
      a positive alpha passes it and stops inside run i; otherwise x lands
      in front of `first`, at the end of run i - 1 (or of `pre`). */
  function InsertBetween(c: Chain, nodes: seq<Node>, x: nat, i: nat): (r: Chain)
    requires x < |nodes| && i < |c.runs| && RunsIn(c, |nodes|)
    ensures RunsIn(r, |nodes|)
    ensures r.base == c.base && r.sentinel == c.sentinel && |r.runs| == |c.runs|
  {
    var alpha := nodes[x].alpha;
    if 0.0 < alpha then
      var run := c.runs[i];
      var m := StopIndex(nodes, run, alpha);
      c.(runs := c.runs[i := run[..m] + [x] + run[m..]])
    else if i == 0 then c.(pre := c.pre + [x])
    else c.(runs := c.runs[i - 1 := c.runs[i - 1] + [x]])
  }

  predicate SortedRun(nodes: seq<Node>, run: seq<nat>)
    requires IdsIn(run, |nodes|)
  {
    forall a, b :: 0 <= a < b < |run| ==> nodes[run[a]].alpha <= nodes[run[b]].alpha
  }

  /** A node with positive alpha goes into run i, behind every node with a
      smaller alpha and in front of the rest, so a run in nondecreasing
      alpha order stays so; all other runs and `pre` are untouched. */
  lemma InsertBetweenPositive(c: Chain, nodes: seq<Node>, x: nat, i: nat)
    requires x < |nodes| && i < |c.runs| && RunsIn(c, |nodes|)
    requires 0.0 < nodes[x].alpha
    ensures var r := InsertBetween(c, nodes, x, i);
      r.pre == c.pre
      && (forall k :: 0 <= k < |c.runs| && k != i ==> r.runs[k] == c.runs[k])
      && (exists m :: 0 <= m <= |c.runs[i]| && r.runs[i] == c.runs[i][..m] + [x] + c.runs[i][m..]
            && (forall k :: 0 <= k < m ==> nodes[c.runs[i][k]].alpha < nodes[x].alpha)
            && (m < |c.runs[i]| ==> nodes[c.runs[i][m]].alpha >= nodes[x].alpha))
      && (SortedRun(nodes, c.runs[i]) ==> SortedRun(nodes, r.runs[i]))
  {
    var run := c.runs[i];
    var alpha := nodes[x].alpha;
    var m := StopIndex(nodes, run, alpha);
    var r2 := run[..m] + [x] + run[m..];
    if SortedRun(nodes, run) {
      forall k | m <= k < |run|
        ensures nodes[run[k]].alpha >= alpha
      {
        assert nodes[run[m]].alpha <= nodes[run[k]].alpha;
      }
      forall a, b | 0 <= a < b < |r2|
        ensures nodes[r2[a]].alpha <= nodes[r2[b]].alpha
      {
        if b < m {
          assert r2[a] == run[a] && r2[b] == run[b];
        } else if b == m {
          assert r2[a] == run[a] && r2[b] == x;
        } else if a < m {
          assert r2[a] == run[a] && r2[b] == run[b - 1];
        } else if a == m {
          assert r2[a] == x && r2[b] == run[b - 1];
        } else {
          assert r2[a] == run[a - 1] && r2[b] == run[b - 1];
        }
      }
    }
  }

  /** A node with alpha 0 lands immediately in front of vertex i: at the end
      of `pre` for vertex 0 (in front of the list handle), else at the end
      of run i - 1. */
  lemma InsertBetweenAtStart(c: Chain, nodes: seq<Node>, x: nat, i: nat)
    requires x < |nodes| && i < |c.runs| && RunsIn(c, |nodes|)
    requires !(0.0 < nodes[x].alpha)
    ensures var r := InsertBetween(c, nodes, x, i);
      i == 0 ==> r.pre == c.pre + [x] && r.runs == c.runs
    ensures var r := InsertBetween(c, nodes, x, i);
      i > 0 ==> (r.pre == c.pre && r.runs[i - 1] == c.runs[i - 1] + [x]
                 && forall k :: 0 <= k < |c.runs| && k != i - 1 ==> r.runs[k] == c.runs[k])
  {
  }

  lemma InsertBetweenFrom(c: Chain, nodes: seq<Node>, x: nat, i: nat, lo: nat)
    requires x < |nodes| && i < |c.runs| && RunsIn(c, |nodes|)
    requires RunsFrom(c, lo) && lo <= x
    ensures RunsFrom(InsertBetween(c, nodes, x, i), lo)
  {
    var alpha := nodes[x].alpha;
    if 0.0 < alpha {
      var run := c.runs[i];
      var m := StopIndex(nodes, run, alpha);
      var run2 := run[..m] + [x] + run[m..];
      assert IdsFrom(run2, lo) by {
        forall k | 0 <= k < |run2|
          ensures lo <= run2[k]
        {
          if k < m {
            assert run2[k] == run[k];
          } else if k > m {
            assert run2[k] == run[k - 1];
          }
        }
      }
    }
  }

  // ---------------------------------------------------------------------
  // What a splice adds to a list
  // ---------------------------------------------------------------------

  /** c2 is c with run i replaced. */
  predicate SameExcept(c: Chain, c2: Chain, i: nat) {
    c2.base == c.base && c2.sentinel == c.sentinel && c2.pre == c.pre && |c2.runs| == |c.runs|
    && forall k :: 0 <= k < |c.runs| && k != i ==> c2.runs[k] == c.runs[k]
  }

  lemma {:induction false} BodyBeyond(c: Chain, c2: Chain, i: nat, k: nat)
    requires SameExcept(c, c2, i) && i < k <= |c.runs|
    ensures Body(c2, k) == Body(c, k)
    decreases |c.runs| - k
  {
    if k < |c.runs| {
      BodyBeyond(c, c2, i, k + 1);
    }
  }

  lemma {:induction false} BodySame(c: Chain, c2: Chain, k: nat)
    requires c.base == c2.base && c.sentinel == c2.sentinel && c.runs == c2.runs
    requires k <= |c.runs|
    ensures Body(c, k) == Body(c2, k)
    decreases |c.runs| - k
  {
    if k < |c.runs| {
      BodySame(c, c2, k + 1);
    }
  }

  lemma BlockCount(h: nat, r: seq<nat>, rest: seq<nat>, y: nat)
    ensures Count([h] + r + rest, y) == Count([h], y) + Count(r, y) + Count(rest, y)
  {
    CountAppend([h] + r, rest, y);
    CountAppend([h], r, y);
  }

  lemma {:induction false} BodyCount(c: Chain, c2: Chain, i: nat, k: nat, y: nat)
    requires SameExcept(c, c2, i) && k <= i < |c.runs|
    ensures Count(Body(c2, k), y) + Count(c.runs[i], y) == Count(Body(c, k), y) + Count(c2.runs[i], y)
    decreases i - k
  {
    if k == i {
      BodyBeyond(c, c2, i, i + 1);
      BlockCount(c.base + k, c2.runs[i], Body(c, k + 1), y);
      BlockCount(c.base + k, c.runs[i], Body(c, k + 1), y);
    } else {
      BodyCount(c, c2, i, k + 1, y);
      BlockCount(c.base + k, c.runs[k], Body(c2, k + 1), y);
      BlockCount(c.base + k, c.runs[k], Body(c, k + 1), y);
    }
  }

  /** Replacing run i changes every id's count in the list by its change
      in the run. */
  lemma FlatCount(c: Chain, c2: Chain, i: nat, y: nat)
    requires SameExcept(c, c2, i) && i < |c.runs|
    ensures Count(Flat(c2), y) + Count(c.runs[i], y) == Count(Flat(c), y) + Count(c2.runs[i], y)
  {
    BodyCount(c, c2, i, 0, y);
    CountAppend(c.pre, Body(c, 0), y);
    CountAppend(c.pre, Body(c2, 0), y);
  }

  /** Splicing x in adds one occurrence of x and nothing else. */
  lemma InsertBetweenCount(c: Chain, nodes: seq<Node>, x: nat, i: nat, y: nat)
    requires x < |nodes| && i < |c.runs| && RunsIn(c, |nodes|)
    ensures Count(Flat(InsertBetween(c, nodes, x, i)), y) == Count(Flat(c), y) + (if y == x then 1 else 0)
  {
    var alpha := nodes[x].alpha;
    var c2 := InsertBetween(c, nodes, x, i);
    if 0.0 < alpha {
      var run := c.runs[i];
      var m := StopIndex(nodes, run, alpha);
      assert run == run[..m] + run[m..];
      CountAppend(run[..m], run[m..], y);
      CountAppend(run[..m] + [x], run[m..], y);
      CountAppend(run[..m], [x], y);
      FlatCount(c, c2, i, y);
    } else if i == 0 {
      BodySame(c, c2, 0);
      assert Flat(c2) == c.pre + ([x] + Body(c, 0));
      CountAppend(c.pre, [x] + Body(c, 0), y);
      CountAppend([x], Body(c, 0), y);
      CountAppend(c.pre, Body(c, 0), y);
    } else {
      CountAppend(c.runs[i - 1], [x], y);
      FlatCount(c, c2, i - 1, y);
    }
  }

  /** Splicing a fresh id into a list without repeats keeps it without
      repeats, and adds no other id. */
  lemma InsertBetweenFresh(c: Chain, nodes: seq<Node>, x: nat, i: nat)
    requires x < |nodes| && i < |c.runs| && RunsIn(c, |nodes|)
    requires AtMostOnce(Flat(c)) && x !in Flat(c)
    ensures var c2 := InsertBetween(c, nodes, x, i);
      AtMostOnce(Flat(c2)) && x in Flat(c2)
      && forall y :: y in Flat(c2) ==> y == x || y in Flat(c)
  {
    var c2 := InsertBetween(c, nodes, x, i);
    forall y
      ensures Count(Flat(c2), y) == Count(Flat(c), y) + (if y == x then 1 else 0)
      ensures y in Flat(c2) <==> Count(Flat(c2), y) > 0
      ensures y in Flat(c) <==> Count(Flat(c), y) > 0
    {
      InsertBetweenCount(c, nodes, x, i, y);
      CountPositive(Flat(c2), y);
      CountPositive(Flat(c), y);
    }
  }

  // ---------------------------------------------------------------------
  // IdentifyIntersections
  // ---------------------------------------------------------------------

  /** A non-null `Intersect` has two proper segments. */
  lemma IntersectDistinct(a: Vec2, b: Vec2, c: Vec2, d: Vec2)
    requires Segment2.Intersect(a, b, c, d).Some?
    ensures a != b && c != d
  {
    assert Cross(Vec2(0.0, 0.0), Sub(d, c)) == 0.0;
    assert Cross(Sub(b, a), Vec2(0.0, 0.0)) == 0.0;
  }

  /** The position of q along segment ab. The source uses the distance
      ratio |aq| / |ab|; its square orders the nodes of one edge the same
      way and is 0 exactly when the ratio is, which is all the list
      operations observe. */
  function AlphaOf(a: Vec2, b: Vec2, q: Vec2): (r: real)
    requires a != b
    ensures r >= 0.0
    ensures r == 0.0 <==> q == a
  {
    DistanceZero(a, b);
    DistanceZero(a, q);
    QuotientZero(DistanceSq(a, q), DistanceSq(a, b));
    DistanceSq(a, q) / DistanceSq(a, b)
  }

  lemma DistanceZero(a: Vec2, b: Vec2)
    ensures DistanceSq(a, b) == 0.0 <==> a == b
  {
    SubZero(a, b);
    LengthSqZero(Sub(a, b));
  }

  lemma QuotientZero(n: real, d: real)
    requires n >= 0.0 && d > 0.0
    ensures n / d >= 0.0 && (n / d == 0.0 <==> n == 0.0)
  {
    var q := n / d;
    assert q * d == n;
  }

  function Edge(s: seq<Vec2>, i: nat): (Vec2, Vec2)
    requires i < |s|
  {
    (s[i], s[if i + 1 == |s| then 0 else i + 1])
  }

  /** The `Intersect` call for subject edge i and clip edge j. */
  function Hit(subject: seq<Vec2>, clip: seq<Vec2>, i: nat, j: nat): Option<Vec2>
    requires i < |subject| && j < |clip|
  {
    var (a, b) := Edge(subject, i);
    var (c, d) := Edge(clip, j);
    Segment2.Intersect(a, b, c, d)
  }

  function FirstIntersectionId(subject: seq<Vec2>, clip: seq<Vec2>): nat {
    |subject| + |clip| + 2
  }

  /** Well-formed state of the first phase. */
  ghost predicate WellFormed(subject: seq<Vec2>, clip: seq<Vec2>, g: Graph) {
    var ns, nc := |subject|, |clip|;
    NodesOk(subject, clip, g.nodes)
    && ListOk(subject, clip, g.subject, 0, ns + nc, ns, |g.nodes|, true)
    && ListOk(subject, clip, g.clip, ns, ns + nc + 1, nc, |g.nodes|, false)
  }

  /** One list: its layout, ids below n, spliced ids past the originals,
      no repeats, and every id from the given side. */
  ghost predicate ListOk(subject: seq<Vec2>, clip: seq<Vec2>, c: Chain, base: nat, sentinel: nat,
                         count: nat, n: nat, side: bool) {
    c.base == base && c.sentinel == sentinel && |c.runs| == count
    && RunsIn(c, n) && RunsFrom(c, FirstIntersectionId(subject, clip))
    && AtMostOnce(Flat(c))
    && (forall y :: y in Flat(c) ==> y < n && SubjectSide(subject, clip, y) == side)
  }

  lemma ListStep(subject: seq<Vec2>, clip: seq<Vec2>, c: Chain, base: nat, sentinel: nat,
                 count: nat, nodes: seq<Node>, x: nat, i: nat, side: bool)
    requires ListOk(subject, clip, c, base, sentinel, count, x, side)
    requires x < |nodes| && i < count
    requires FirstIntersectionId(subject, clip) <= x && SubjectSide(subject, clip, x) == side
    ensures ListOk(subject, clip, InsertBetween(c, nodes, x, i), base, sentinel, count, |nodes|, side)
  {
    assert RunsIn(c, |nodes|);
    InsertBetweenFresh(c, nodes, x, i);
    InsertBetweenFrom(c, nodes, x, i, FirstIntersectionId(subject, clip));
  }

  /** The arena: the input points and sentinels first, then the pairs. */
  predicate NodesOk(subject: seq<Vec2>, clip: seq<Vec2>, nodes: seq<Node>) {
    var first := FirstIntersectionId(subject, clip);
    |subject| >= 1 && |clip| >= 1 && |nodes| >= first && (|nodes| - first) % 2 == 0
    && OriginalsKept(subject, clip, nodes)
    && (forall k :: 0 <= k < first ==> !nodes[k].intersect && nodes[k].neighbor.None?)
    && (forall k :: first <= k < |nodes| ==> nodes[k].intersect)
    && (forall k :: first <= k < |nodes| ==> MutualNeighbors(nodes, k))
  }

  /** The nodes made from the input points still carry them. */
  predicate OriginalsKept(subject: seq<Vec2>, clip: seq<Vec2>, nodes: seq<Node>)
    requires |subject| >= 1 && |clip| >= 1 && |nodes| >= FirstIntersectionId(subject, clip)
  {
    var ns, nc := |subject|, |clip|;
    (forall k :: 0 <= k < ns ==> nodes[k].vec == subject[k])
    && (forall k :: 0 <= k < nc ==> nodes[ns + k].vec == clip[k])
    && nodes[ns + nc].vec == subject[0] && nodes[ns + nc + 1].vec == clip[0]
  }

  /** Subject ids: subject vertices, the subject sentinel, and the first
      node of every intersection pair. */
  predicate SubjectSide(subject: seq<Vec2>, clip: seq<Vec2>, y: nat) {
    var first := FirstIntersectionId(subject, clip);
    y < |subject| || y == |subject| + |clip| || (y >= first && (y - first) % 2 == 0)
  }

  /** Node k and its neighbor point at each other and sit at the same
      point. */
  predicate MutualNeighbors(nodes: seq<Node>, k: nat)
    requires k < |nodes|
  {
    nodes[k].neighbor.Some? && nodes[k].neighbor.value < |nodes|
    && nodes[k].neighbor.value != k
    && nodes[nodes[k].neighbor.value].neighbor == Some(k)
    && nodes[nodes[k].neighbor.value].vec == nodes[k].vec
  }

  /** One inner-loop step: subject edge i against clip edge j. On a
      crossing, a node pair is created (subject node first) and spliced
      into both lists. */
  function EdgeStep(subject: seq<Vec2>, clip: seq<Vec2>, g: Graph, i: nat, j: nat): (r: (Graph, bool))
    requires i < |subject| && j < |clip| && WellFormed(subject, clip, g)
    ensures WellFormed(subject, clip, r.0)
    ensures r.1 <==> Hit(subject, clip, i, j).Some?
    ensures |r.0.nodes| >= |g.nodes|
    ensures forall k :: 0 <= k < |g.nodes| ==> r.0.nodes[k] == g.nodes[k]
  {
    var (a, b) := Edge(subject, i);
    var (c, d) := Edge(clip, j);
    match Segment2.Intersect(a, b, c, d)
    case None => (g, false)
    case Some(q) =>
      IntersectDistinct(a, b, c, d);
      var s := |g.nodes|;
      var t := s + 1;
      var nodes := g.nodes + [Node(q, AlphaOf(a, b, q), true, Some(t), false, false),
                              Node(q, AlphaOf(c, d, q), true, Some(s), false, false)];
      var g2 := Graph(nodes, InsertBetween(g.subject, nodes, s, i), InsertBetween(g.clip, nodes, t, j));
      StepWellFormed(subject, clip, g, nodes, g2, s, i, j);
      (g2, true)
  }

  lemma StepNodes(subject: seq<Vec2>, clip: seq<Vec2>, old_nodes: seq<Node>, nodes: seq<Node>, s: nat)
    requires NodesOk(subject, clip, old_nodes)
    requires s == |old_nodes| && |nodes| == s + 2 && nodes[..s] == old_nodes
    requires nodes[s].intersect && nodes[s + 1].intersect
    requires nodes[s].neighbor == Some(s + 1) && nodes[s + 1].neighbor == Some(s)
    requires nodes[s].vec == nodes[s + 1].vec
    ensures NodesOk(subject, clip, nodes)
  {
    var first := FirstIntersectionId(subject, clip);
    forall k | 0 <= k < s
      ensures nodes[k] == old_nodes[k]
    {
      assert nodes[..s][k] == nodes[k];
    }
    forall k | first <= k < |nodes|
      ensures MutualNeighbors(nodes, k)
    {
      if k < s {
        assert MutualNeighbors(old_nodes, k);
      }
    }
  }

  lemma StepWellFormed(subject: seq<Vec2>, clip: seq<Vec2>, g: Graph, nodes: seq<Node>, g2: Graph,
                       s: nat, i: nat, j: nat)
    requires WellFormed(subject, clip, g)
    requires s == |g.nodes| && |nodes| == s + 2 && nodes[..s] == g.nodes
    requires nodes[s].intersect && nodes[s + 1].intersect
    requires nodes[s].neighbor == Some(s + 1) && nodes[s + 1].neighbor == Some(s)
    requires nodes[s].vec == nodes[s + 1].vec
    requires g2.nodes == nodes
    requires i < |subject| && g2.subject == InsertBetween(g.subject, nodes, s, i)
    requires j < |clip| && g2.clip == InsertBetween(g.clip, nodes, s + 1, j)
    ensures WellFormed(subject, clip, g2)
  {
    var ns, nc := |subject|, |clip|;
    StepNodes(subject, clip, g.nodes, nodes, s);
    ListStep(subject, clip, g.subject, 0, ns + nc, ns, nodes, s, i, true);
    ListOkWider(subject, clip, g.clip, ns, ns + nc + 1, nc, s, s + 1, false);
    ListStep(subject, clip, g.clip, ns, ns + nc + 1, nc, nodes, s + 1, j, false);
  }

  lemma ListOkWider(subject: seq<Vec2>, clip: seq<Vec2>, c: Chain, base: nat, sentinel: nat,
                    count: nat, n: nat, n2: nat, side: bool)
    requires ListOk(subject, clip, c, base, sentinel, count, n, side) && n <= n2
    ensures ListOk(subject, clip, c, base, sentinel, count, n2, side)
  {
  }

  /** Some clip edge j.. crosses subject edge i. */
  predicate HitFrom(subject: seq<Vec2>, clip: seq<Vec2>, i: nat, j: nat)
    requires i < |subject|
  {
    exists j' :: j <= j' < |clip| && Hit(subject, clip, i, j').Some?
  }

  lemma HitFromStep(subject: seq<Vec2>, clip: seq<Vec2>, i: nat, j: nat)
    requires i < |subject| && j < |clip|
    ensures HitFrom(subject, clip, i, j) <==>
              Hit(subject, clip, i, j).Some? || HitFrom(subject, clip, i, j + 1)
  {
    if HitFrom(subject, clip, i, j) {
      var j' :| j <= j' < |clip| && Hit(subject, clip, i, j').Some?;
      if j' > j {
        assert HitFrom(subject, clip, i, j + 1);
      }
    }
  }

  /** Some subject edge i.. crosses some clip edge. */
  predicate HitAny(subject: seq<Vec2>, clip: seq<Vec2>, i: nat) {
    exists i', j :: i <= i' < |subject| && 0 <= j < |clip| && Hit(subject, clip, i', j).Some?
  }

  lemma HitAnyStep(subject: seq<Vec2>, clip: seq<Vec2>, i: nat)
    requires i < |subject|
    ensures HitAny(subject, clip, i) <==> HitFrom(subject, clip, i, 0) || HitAny(subject, clip, i + 1)
  {
    if HitAny(subject, clip, i) {
      var i', j :| i <= i' < |subject| && 0 <= j < |clip| && Hit(subject, clip, i', j).Some?;
      if i' > i {
        assert HitAny(subject, clip, i + 1);
      } else {
        assert HitFrom(subject, clip, i, 0);
      }
    }
    if HitFrom(subject, clip, i, 0) {
      var j :| 0 <= j < |clip| && Hit(subject, clip, i, j).Some?;
      assert HitAny(subject, clip, i);
    }
  }

  /** The inner loop over clip edges j.. for subject edge i. */
  function ClipLoop(subject: seq<Vec2>, clip: seq<Vec2>, g: Graph, i: nat, j: nat, found: bool): (r: (Graph, bool))
    requires i < |subject| && j <= |clip| && WellFormed(subject, clip, g)
    ensures WellFormed(subject, clip, r.0)
    ensures r.1 <==> found || HitFrom(subject, clip, i, j)
    decreases |clip| - j
  {
    if j == |clip| then (g, found)
    else
      var step := EdgeStep(subject, clip, g, i, j);
      HitFromStep(subject, clip, i, j);
      ClipLoop(subject, clip, step.0, i, j + 1, found || step.1)
  }

  /** The outer loop over subject edges i.. . */
  function SubjectLoop(subject: seq<Vec2>, clip: seq<Vec2>, g: Graph, i: nat, found: bool): (r: (Graph, bool))
    requires i <= |subject| && WellFormed(subject, clip, g)
    ensures WellFormed(subject, clip, r.0)
    ensures r.1 <==> found || HitAny(subject, clip, i)
    decreases |subject| - i
  {
    if i == |subject| then (g, found)
    else
      var inner := ClipLoop(subject, clip, g, i, 0, found);
      HitAnyStep(subject, clip, i);
      SubjectLoop(subject, clip, inner.0, i + 1, inner.1)
  }

  lemma InitWellFormed(subject: seq<Vec2>, clip: seq<Vec2>)
    requires |subject| >= 1 && |clip| >= 1
    ensures WellFormed(subject, clip, Init(subject, clip))
  {
    var g := Init(subject, clip);
    var ns, nc := |subject|, |clip|;
    InitLists(subject, clip);
    var fs: seq<nat>, fc: seq<nat> := Flat(g.subject), Flat(g.clip);
    assert Distinct(fs) by {
      forall a, b | 0 <= a < b < |fs|
        ensures fs[a] != fs[b]
      {
        if b < ns {
          assert fs[a] == a && fs[b] == b;
        }
      }
    }
    assert Distinct(fc) by {
      forall a, b | 0 <= a < b < |fc|
        ensures fc[a] != fc[b]
      {
        if b < nc {
          assert fc[a] == ns + a && fc[b] == ns + b;
        }
      }
    }
    DistinctIsAtMostOnce(fs);
    DistinctIsAtMostOnce(fc);
    forall y | y in fs
      ensures y < |g.nodes| && SubjectSide(subject, clip, y)
    {
      var k := IndexOf(fs, y);
    }
    forall y | y in fc
      ensures y < |g.nodes| && !SubjectSide(subject, clip, y)
    {
      var k := IndexOf(fc, y);
    }
    forall k | 0 <= k < FirstIntersectionId(subject, clip)
      ensures !g.nodes[k].intersect && g.nodes[k].neighbor.None?
      ensures k < ns ==> g.nodes[k].vec == subject[k]
      ensures ns <= k < ns + nc ==> g.nodes[k].vec == clip[k - ns]
    {
      if k < ns {
        assert g.nodes[k] == Original(subject[k]);
      } else if k < ns + nc {
        assert g.nodes[k] == Original(clip[k - ns]);
      }
    }
  }

  /** `IdentifyIntersections`: every subject edge against every clip edge,
      closing edges included; the result says whether any pair crossed. */
  function IdentifyIntersections(subject: seq<Vec2>, clip: seq<Vec2>): (r: (Graph, bool))
    requires |subject| >= 1 && |clip| >= 1
    ensures WellFormed(subject, clip, r.0)
    ensures r.1 <==> exists i, j :: 0 <= i < |subject| && 0 <= j < |clip| && Hit(subject, clip, i, j).Some?
  {
    InitWellFormed(subject, clip);
    SubjectLoop(subject, clip, Init(subject, clip), 0, false)
  }

  // ---------------------------------------------------------------------
  // Edge endpoints
  // ---------------------------------------------------------------------

  /** `nextNonIntersection`: the first node of `s` that is not an
      intersection; None when the walk runs off the end. */
  function NextNonIntersection(nodes: seq<Node>, s: seq<nat>): (r: Option<nat>)
    requires IdsIn(s, |nodes|)
    ensures r.Some? ==> r.value in s && !nodes[r.value].intersect
    ensures r.None? ==> forall k :: 0 <= k < |s| ==> nodes[s[k]].intersect
  {
    if |s| == 0 then None
    else if !nodes[s[0]].intersect then Some(s[0])
    else NextNonIntersection(nodes, s[1..])
  }

  lemma {:induction false} NextNonIntersectionSkips(nodes: seq<Node>, a: seq<nat>, b: seq<nat>)
    requires IdsIn(a, |nodes|) && IdsIn(b, |nodes|)
    requires forall k :: 0 <= k < |a| ==> nodes[a[k]].intersect
    ensures NextNonIntersection(nodes, a + b) == NextNonIntersection(nodes, b)
    decreases |a|
  {
    if |a| == 0 {
      assert a + b == b;
    } else {
      assert (a + b)[1..] == a[1..] + b;
      NextNonIntersectionSkips(nodes, a[1..], b);
    }
  }

  lemma BodyIdsIn(c: Chain, k: nat, n: nat)
    requires k <= |c.runs| && RunsIn(c, n) && c.sentinel < n && c.base + |c.runs| <= n
    ensures IdsIn(Body(c, k), n)
    decreases |c.runs| - k
  {
    if k < |c.runs| {
      BodyIdsIn(c, k + 1, n);
      assert Body(c, k) == [c.base + k] + c.runs[k] + Body(c, k + 1);
    }
  }

  /** In a list the first phase built, the walk `next.nextNonIntersection()`
      from vertex i skips the nodes spliced onto edge i and reaches vertex
      i + 1, or the sentinel copy of vertex 0 after the last vertex: the
      edge tested for vertex i is `Edge(points, i)` at every step. */
  lemma EdgeEndpoint(subject: seq<Vec2>, clip: seq<Vec2>, g: Graph, c: Chain, points: seq<Vec2>, i: nat)
    requires WellFormed(subject, clip, g)
    requires (c == g.subject && points == subject) || (c == g.clip && points == clip)
    requires i < |points|
    ensures Body(c, i) == [c.base + i] + c.runs[i] + Body(c, i + 1)
    ensures IdsIn(c.runs[i] + Body(c, i + 1), |g.nodes|)
    ensures var r := NextNonIntersection(g.nodes, c.runs[i] + Body(c, i + 1));
      r.Some? && r.value == (if i + 1 < |points| then c.base + i + 1 else c.sentinel)
      && g.nodes[c.base + i].vec == Edge(points, i).0
      && g.nodes[r.value].vec == Edge(points, i).1
  {
    EdgeNext(subject, clip, g, c, points, i);
  }

  /** The id part of `EdgeEndpoint`. */
  lemma EdgeNext(subject: seq<Vec2>, clip: seq<Vec2>, g: Graph, c: Chain, points: seq<Vec2>, i: nat)
    requires WellFormed(subject, clip, g)
    requires (c == g.subject && points == subject) || (c == g.clip && points == clip)
    requires i < |points|
    ensures Body(c, i) == [c.base + i] + c.runs[i] + Body(c, i + 1)
    ensures IdsIn(c.runs[i] + Body(c, i + 1), |g.nodes|)
    ensures NextNonIntersection(g.nodes, c.runs[i] + Body(c, i + 1))
         == Some(if i + 1 < |points| then c.base + i + 1 else c.sentinel)
  {
    var first := FirstIntersectionId(subject, clip);
    assert c.sentinel < first && (i + 1 < |points| ==> c.base + i + 1 < first);
    EdgeNextChain(g.nodes, c, i, first);
  }

  lemma EdgeNextChain(nodes: seq<Node>, c: Chain, i: nat, first: nat)
    requires i < |c.runs| && RunsIn(c, |nodes|) && RunsFrom(c, first)
    requires c.sentinel < |nodes| && c.base + |c.runs| <= |nodes|
    requires forall k :: first <= k < |nodes| ==> nodes[k].intersect
    requires !nodes[c.sentinel].intersect && (i + 1 < |c.runs| ==> !nodes[c.base + i + 1].intersect)
    ensures Body(c, i) == [c.base + i] + c.runs[i] + Body(c, i + 1)
    ensures IdsIn(c.runs[i] + Body(c, i + 1), |nodes|)
    ensures NextNonIntersection(nodes, c.runs[i] + Body(c, i + 1))
         == Some(if i + 1 < |c.runs| then c.base + i + 1 else c.sentinel)
  {
    BodyIdsIn(c, i + 1, |nodes|);
    assert IdsFrom(c.runs[i], first) && IdsIn(c.runs[i], |nodes|);
    NextNonIntersectionSkips(nodes, c.runs[i], Body(c, i + 1));
    if i + 1 < |c.runs| {
      assert Body(c, i + 1) == [c.base + i + 1] + c.runs[i + 1] + Body(c, i + 2);
    }
  }
}

