/** The second and third phases of the polygon clipper and `Boolean`:
    the lists are closed into rings, intersection nodes are labelled entry
    or exit by alternation, and result rings are traced by walking a list
    to the next intersection and jumping to its neighbor in the other list.

    After `createLoop` a list's links follow `Flat`: the ring runs from the
    list handle (vertex 0) to the node before the sentinel, which now links
    back to the handle; the sentinel drops out. Nodes spliced in front of
    the handle keep their links: forward they lead into the ring, and the
    first of them has no `prev`. */
module PolygonBoolean {
  import opened Wrappers
  import opened Vector2
  import opened SeqUtil
  import opened VertexNode
  import Polygon2

  datatype BooleanOp = And | Or | Not

  /** `NullLink`: the walk followed a missing link (the source throws on
      it); `Hang`: the walk cannot reach an intersection node (the source
      loops forever); `TooFewPoints`: a traced ring has fewer than three
      points (the polygon constructor throws). */
  datatype BooleanError = NullLink | Hang | TooFewPoints

  // ---------------------------------------------------------------------
  // The lists as rings
  // ---------------------------------------------------------------------

  lemma {:induction false} BodyEnd(c: Chain, k: nat)
    requires k <= |c.runs|
    ensures |Body(c, k)| >= |c.runs| - k + 1
    ensures Body(c, k)[|Body(c, k)| - 1] == c.sentinel
    decreases |c.runs| - k
  {
    if k < |c.runs| {
      BodyEnd(c, k + 1);
      assert Body(c, k) == [c.base + k] + c.runs[k] + Body(c, k + 1);
    }
  }

  /** A list of a well-formed graph has its handle, at least one more node
      and the sentinel at the end. */
  lemma FlatShape(subject: seq<Vec2>, clip: seq<Vec2>, g: Graph, c: Chain)
    requires WellFormed(subject, clip, g)
    requires c == g.subject || c == g.clip
    ensures |Flat(c)| >= Head(c) + 2
    ensures Flat(c)[Head(c)] == c.base
    ensures Flat(c)[|Flat(c)| - 1] == c.sentinel
  {
    BodyEnd(c, 0);
    assert Body(c, 0) == [c.base] + c.runs[0] + Body(c, 1);
    assert Flat(c)[Head(c)] == Body(c, 0)[0];
  }

  /** The ring of a list after `createLoop`, from the handle on. */
  function Ring(subject: seq<Vec2>, clip: seq<Vec2>, g: Graph, c: Chain): (r: seq<nat>)
    requires WellFormed(subject, clip, g)
    requires c == g.subject || c == g.clip
    ensures |r| >= 1 && r[0] == c.base
    ensures forall k :: 0 <= k < |r| ==> r[k] < |g.nodes|
  {
    FlatShape(subject, clip, g, c);
    var f := Flat(c);
    assert forall k :: 0 <= k < |f| ==> f[k] in f;
    f[Head(c)..|f| - 1]
  }

  /** The link from position p of a list with handle h: forward, the node
      before the sentinel closes the ring; backward, the handle's `prev` is
      that node, and the first node of all has none. */
  function LinkAt(f: seq<nat>, h: nat, p: nat, forward: bool): (r: Option<nat>)
    requires h + 2 <= |f| && p < |f| - 1
    ensures r.Some? ==> r.value in f
  {
    if forward then Some(if p == |f| - 2 then f[h] else f[p + 1])
    else if p == h then Some(f[|f| - 2])
    else if p == 0 then None
    else Some(f[p - 1])
  }

  /** The two lists once `createLoop` has closed them: each list's ids in
      `next` order as in `Flat` (the sentinel last), and the position of its
      handle. The tracing phase sees the lists only through these. */
  datatype Loops = Loops(fs: seq<nat>, hs: nat, fc: seq<nat>, hc: nat)

  function Close(g: Graph): Loops {
    Loops(Flat(g.subject), Head(g.subject), Flat(g.clip), Head(g.clip))
  }

  /** Both loops have a handle and a node before the sentinel, and name
      nodes of an arena of size n. */
  predicate LoopsOk(L: Loops, n: nat) {
    L.hs + 2 <= |L.fs| && L.hc + 2 <= |L.fc|
    && (forall y :: y in L.fs ==> y < n) && (forall y :: y in L.fc ==> y < n)
  }

  lemma CloseOk(subject: seq<Vec2>, clip: seq<Vec2>, g: Graph)
    requires WellFormed(subject, clip, g)
    ensures LoopsOk(Close(g), |g.nodes|)
  {
    FlatShape(subject, clip, g, g.subject);
    FlatShape(subject, clip, g, g.clip);
  }

  /** `next` (forward) or `prev` of node id once both lists are closed; the
      sentinels and ids on neither list have no link. */
  function Step(L: Loops, id: nat, forward: bool): (r: Option<nat>)
    requires L.hs + 2 <= |L.fs| && L.hc + 2 <= |L.fc|
    ensures r.Some? ==> r.value in L.fs || r.value in L.fc
  {
    var fs, fc := L.fs, L.fc;
    if id in fs[..|fs| - 1] then LinkAt(fs, L.hs, IndexOf(fs[..|fs| - 1], id), forward)
    else if id in fc[..|fc| - 1] then LinkAt(fc, L.hc, IndexOf(fc[..|fc| - 1], id), forward)
    else None
  }

  lemma PositionOf(f: seq<nat>, q: nat)
    requires Distinct(f) && q < |f| - 1
    ensures f[q] in f[..|f| - 1] && IndexOf(f[..|f| - 1], f[q]) == q
  {
    var pre := f[..|f| - 1];
    assert pre[q] == f[q];
    var k := IndexOf(pre, f[q]);
    assert pre[k] == f[k];
  }

  /** On a list node, `Step` follows that list's links. */
  lemma StepAt(subject: seq<Vec2>, clip: seq<Vec2>, g: Graph, c: Chain, q: nat, forward: bool)
    requires WellFormed(subject, clip, g)
    requires c == g.subject || c == g.clip
    requires q < |Flat(c)| - 1
    ensures LoopsOk(Close(g), |g.nodes|)
    ensures Head(c) + 2 <= |Flat(c)|
    ensures Step(Close(g), Flat(c)[q], forward) == LinkAt(Flat(c), Head(c), q, forward)
  {
    CloseOk(subject, clip, g);
    FlatShape(subject, clip, g, c);
    var L := Close(g);
    AtMostOnceIsDistinct(Flat(c));
    if c == g.subject {
      StepSubject(L, q, forward);
    } else {
      var x := Flat(c)[q];
      assert x in Flat(g.clip);
      assert x !in Flat(g.subject) by {
        assert SubjectSide(subject, clip, x) == false;
      }
      StepClip(L, q, forward);
    }
  }

  lemma StepSubject(L: Loops, q: nat, forward: bool)
    requires L.hs + 2 <= |L.fs| && L.hc + 2 <= |L.fc|
    requires Distinct(L.fs) && q < |L.fs| - 1
    ensures Step(L, L.fs[q], forward) == LinkAt(L.fs, L.hs, q, forward)
  {
    PositionOf(L.fs, q);
  }

  lemma StepClip(L: Loops, q: nat, forward: bool)
    requires L.hs + 2 <= |L.fs| && L.hc + 2 <= |L.fc|
    requires Distinct(L.fc) && q < |L.fc| - 1 && L.fc[q] !in L.fs
    ensures Step(L, L.fc[q], forward) == LinkAt(L.fc, L.hc, q, forward)
  {
    var fs := L.fs;
    forall y | y in fs[..|fs| - 1]
      ensures y in fs
    {
      var k :| 0 <= k < |fs| - 1 && fs[..|fs| - 1][k] == y;
      assert fs[k] == y;
    }
    PositionOf(L.fc, q);
  }

  /** The position a ring step leads to. */
  function RingNeighbor(f: seq<nat>, h: nat, q: nat, forward: bool): (q2: nat)
    requires h <= q < |f| - 1
    ensures h <= q2 < |f| - 1
  {
    if forward then (if q == |f| - 2 then h else q + 1)
    else (if q == h then |f| - 2 else q - 1)
  }

  /** After `createLoop`, `next` and `prev` are mutually inverse on each
      ring: stepping one way and back returns to the node, and a step never
      leaves the ring. */
  lemma RingLinksInverse(subject: seq<Vec2>, clip: seq<Vec2>, g: Graph, c: Chain, q: nat, forward: bool)
    requires WellFormed(subject, clip, g)
    requires c == g.subject || c == g.clip
    requires Head(c) <= q < |Flat(c)| - 1
    ensures LoopsOk(Close(g), |g.nodes|)
    ensures var q2 := RingNeighbor(Flat(c), Head(c), q, forward);
      Step(Close(g), Flat(c)[q], forward) == Some(Flat(c)[q2])
      && Step(Close(g), Flat(c)[q2], !forward) == Some(Flat(c)[q])
  {
    var q2 := RingNeighbor(Flat(c), Head(c), q, forward);
    StepAt(subject, clip, g, c, q, forward);
    StepAt(subject, clip, g, c, q2, !forward);
    LinkAtRing(Flat(c), Head(c), q, forward);
    LinkAtRing(Flat(c), Head(c), q2, !forward);
  }

  /** Within the ring, a link leads to the neighboring position, and the
      neighbor's link the other way leads back. */
  lemma LinkAtRing(f: seq<nat>, h: nat, q: nat, forward: bool)
    requires h <= q < |f| - 1
    ensures LinkAt(f, h, q, forward) == Some(f[RingNeighbor(f, h, q, forward)])
    ensures RingNeighbor(f, h, RingNeighbor(f, h, q, forward), !forward) == q
  {
  }

  /** A node spliced in front of the handle leads forward towards the
      handle, and the first such node has no `prev`. */
  lemma OrphanLinks(subject: seq<Vec2>, clip: seq<Vec2>, g: Graph, c: Chain, q: nat)
    requires WellFormed(subject, clip, g)
    requires c == g.subject || c == g.clip
    requires q < Head(c)
    ensures LoopsOk(Close(g), |g.nodes|)
    ensures Step(Close(g), Flat(c)[q], true) == Some(Flat(c)[q + 1])
    ensures q == 0 ==> Step(Close(g), Flat(c)[q], false) == None
  {
    FlatShape(subject, clip, g, c);
    StepAt(subject, clip, g, c, q, true);
    StepAt(subject, clip, g, c, q, false);
  }

  // ---------------------------------------------------------------------
  // IdentifyIntersectionType
  // ---------------------------------------------------------------------

  /** Number of intersection nodes among ids. */
  function IntersectionCount(nodes: seq<Node>, ids: seq<nat>): nat
    requires IdsIn(ids, |nodes|)
  {
    if |ids| == 0 then 0
    else (if nodes[ids[0]].intersect then 1 else 0) + IntersectionCount(nodes, ids[1..])
  }

  /** Two nodes that differ at most in `entry`. */
  predicate SameButEntry(a: Node, b: Node) {
    a.vec == b.vec && a.alpha == b.alpha && a.intersect == b.intersect
    && a.neighbor == b.neighbor && a.visited == b.visited
  }

  /** The flag loop: every intersection node among ids gets the current
      flag, which then flips; nothing else changes. */
  function SetEntries(nodes: seq<Node>, ids: seq<nat>, e: bool): (r: seq<Node>)
    requires IdsIn(ids, |nodes|)
    ensures |r| == |nodes|
    decreases |ids|
  {
    if |ids| == 0 then nodes
    else
      var x := ids[0];
      if nodes[x].intersect then SetEntries(nodes[x := nodes[x].(entry := e)], ids[1..], !e)
      else SetEntries(nodes, ids[1..], e)
  }

  /** Only `entry` changes, and only on intersection nodes among ids. */
  lemma {:induction false} SetEntriesKeeps(nodes: seq<Node>, ids: seq<nat>, e: bool, k: nat)
    requires IdsIn(ids, |nodes|) && k < |nodes|
    ensures SameButEntry(nodes[k], SetEntries(nodes, ids, e)[k])
    ensures k !in ids || !nodes[k].intersect ==> SetEntries(nodes, ids, e)[k] == nodes[k]
    decreases |ids|
  {
    if |ids| > 0 {
      var x := ids[0];
      var nodes1 := if nodes[x].intersect then nodes[x := nodes[x].(entry := e)] else nodes;
      var e1 := if nodes[x].intersect then !e else e;
      SetEntriesUnfold(nodes, ids, e, nodes1, e1);
      SetEntriesKeeps(nodes1, ids[1..], e1, k);
      if k !in ids {
        assert k !in ids[1..];
      }
    }
  }

  lemma {:induction false} IntersectionCountSame(nodes: seq<Node>, nodes2: seq<Node>, ids: seq<nat>)
    requires |nodes2| == |nodes| && IdsIn(ids, |nodes|)
    requires forall k :: 0 <= k < |nodes| ==> nodes2[k].intersect == nodes[k].intersect
    ensures IntersectionCount(nodes2, ids) == IntersectionCount(nodes, ids)
    decreases |ids|
  {
    if |ids| > 0 {
      IntersectionCountSame(nodes, nodes2, ids[1..]);
    }
  }

  /** The k-th id of a list without repeats, if an intersection node, is
      flagged e when an even number of intersection nodes precede it, and
      !e otherwise. */
  lemma {:induction false} SetEntriesParity(nodes: seq<Node>, ids: seq<nat>, e: bool, k: nat)
    requires IdsIn(ids, |nodes|) && Distinct(ids)
    requires k < |ids| && nodes[ids[k]].intersect
    ensures SetEntries(nodes, ids, e)[ids[k]].entry == (e != (IntersectionCount(nodes, ids[..k]) % 2 == 1))
    decreases |ids|
  {
    if k == 0 {
      SetEntriesHead(nodes, ids, e);
      assert ids[..0] == [];
    } else {
      var x := ids[0];
      var nodes1 := if nodes[x].intersect then nodes[x := nodes[x].(entry := e)] else nodes;
      var e1 := if nodes[x].intersect then !e else e;
      assert ids[1..][k - 1] == ids[k];
      SetEntriesParity(nodes1, ids[1..], e1, k - 1);
      ParityShift(nodes, ids, e, k, nodes1, e1);
    }
  }

  lemma ParityShift(nodes: seq<Node>, ids: seq<nat>, e: bool, k: nat, nodes1: seq<Node>, e1: bool)
    requires IdsIn(ids, |nodes|) && 0 < k < |ids|
    requires nodes1 == if nodes[ids[0]].intersect then nodes[ids[0] := nodes[ids[0]].(entry := e)] else nodes
    requires e1 == if nodes[ids[0]].intersect then !e else e
    requires SetEntries(nodes1, ids[1..], e1)[ids[k]].entry
          == (e1 != (IntersectionCount(nodes1, ids[1..][..k - 1]) % 2 == 1))
    ensures SetEntries(nodes, ids, e)[ids[k]].entry == (e != (IntersectionCount(nodes, ids[..k]) % 2 == 1))
  {
    SetEntriesUnfold(nodes, ids, e, nodes1, e1);
    CountUnfold(nodes, ids, k, nodes1);
    ParityBool(e, e1, nodes[ids[0]].intersect, IntersectionCount(nodes1, ids[1..][..k - 1]),
               SetEntries(nodes, ids, e)[ids[k]].entry);
  }

  lemma SetEntriesUnfold(nodes: seq<Node>, ids: seq<nat>, e: bool, nodes1: seq<Node>, e1: bool)
    requires IdsIn(ids, |nodes|) && 0 < |ids|
    requires nodes1 == if nodes[ids[0]].intersect then nodes[ids[0] := nodes[ids[0]].(entry := e)] else nodes
    requires e1 == if nodes[ids[0]].intersect then !e else e
    ensures IdsIn(ids[1..], |nodes1|)
    ensures SetEntries(nodes, ids, e) == SetEntries(nodes1, ids[1..], e1)
  {
  }

  lemma CountUnfold(nodes: seq<Node>, ids: seq<nat>, k: nat, nodes1: seq<Node>)
    requires IdsIn(ids, |nodes|) && 0 < k < |ids|
    requires |nodes1| == |nodes|
    requires forall j :: 0 <= j < |nodes| ==> nodes1[j].intersect == nodes[j].intersect
    ensures IdsIn(ids[1..][..k - 1], |nodes1|)
    ensures IntersectionCount(nodes, ids[..k])
         == (if nodes[ids[0]].intersect then 1 else 0) + IntersectionCount(nodes1, ids[1..][..k - 1])
  {
    var rest := ids[1..][..k - 1];
    IntersectionCountSame(nodes, nodes1, rest);
    assert ids[..k][1..] == rest && ids[..k][0] == ids[0];
  }

  lemma ParityBool(e: bool, e1: bool, b: bool, cnt: nat, entry: bool)
    requires e1 == if b then !e else e
    requires entry == (e1 != (cnt % 2 == 1))
    ensures entry == (e != (((if b then 1 else 0) + cnt) % 2 == 1))
  {
    OddSucc(cnt);
  }

  lemma OddSucc(n: nat)
    ensures ((n + 1) % 2 == 1) == !(n % 2 == 1)
  {
  }

  lemma SetEntriesHead(nodes: seq<Node>, ids: seq<nat>, e: bool)
    requires IdsIn(ids, |nodes|) && Distinct(ids)
    requires |ids| > 0 && nodes[ids[0]].intersect
    ensures SetEntries(nodes, ids, e)[ids[0]].entry == e
  {
    var x := ids[0];
    var nodes1 := nodes[x := nodes[x].(entry := e)];
    SetEntriesUnfold(nodes, ids, e, nodes1, !e);
    assert x !in ids[1..] by {
      forall j | 0 <= j < |ids| - 1
        ensures ids[1..][j] != x
      {
        assert ids[1..][j] == ids[j + 1];
      }
    }
    SetEntriesKeeps(nodes1, ids[1..], !e, x);
  }

  /** Consecutive intersection nodes of a list get opposite flags. */
  lemma EntriesAlternate(nodes: seq<Node>, ids: seq<nat>, e: bool, a: nat, b: nat)
    requires IdsIn(ids, |nodes|) && Distinct(ids)
    requires a < b < |ids| && nodes[ids[a]].intersect && nodes[ids[b]].intersect
    requires forall k :: a < k < b ==> !nodes[ids[k]].intersect
    ensures SetEntries(nodes, ids, e)[ids[b]].entry == !SetEntries(nodes, ids, e)[ids[a]].entry
  {
    SetEntriesParity(nodes, ids, e, a);
    SetEntriesParity(nodes, ids, e, b);
    CountBetween(nodes, ids, a, b);
  }

  lemma {:induction false} CountBetween(nodes: seq<Node>, ids: seq<nat>, a: nat, b: nat)
    requires IdsIn(ids, |nodes|) && a < b <= |ids| && nodes[ids[a]].intersect
    requires forall k :: a < k < b ==> !nodes[ids[k]].intersect
    ensures IntersectionCount(nodes, ids[..b]) == IntersectionCount(nodes, ids[..a]) + 1
    decreases b - a
  {
    if b == a + 1 {
      CountAppendOne(nodes, ids[..a], ids[a]);
      assert ids[..a] + [ids[a]] == ids[..b];
    } else {
      CountBetween(nodes, ids, a, b - 1);
      CountAppendOne(nodes, ids[..b - 1], ids[b - 1]);
      assert ids[..b - 1] + [ids[b - 1]] == ids[..b];
    }
  }

  lemma {:induction false} CountAppendOne(nodes: seq<Node>, ids: seq<nat>, x: nat)
    requires IdsIn(ids, |nodes|) && x < |nodes|
    ensures IntersectionCount(nodes, ids + [x])
         == IntersectionCount(nodes, ids) + (if nodes[x].intersect then 1 else 0)
    decreases |ids|
  {
    if |ids| == 0 {
      assert ids + [x] == [x];
    } else {
      assert (ids + [x])[1..] == ids[1..] + [x];
      CountAppendOne(nodes, ids[1..], x);
    }
  }


  // ---------------------------------------------------------------------
  // IdentifyIntersectionType as a whole
  // ---------------------------------------------------------------------

  /** A ring has no repeats, and its ids belong to its list. */
  lemma RingDistinct(subject: seq<Vec2>, clip: seq<Vec2>, g: Graph, c: Chain)
    requires WellFormed(subject, clip, g)
    requires c == g.subject || c == g.clip
    ensures Distinct(Ring(subject, clip, g, c))
    ensures forall k :: 0 <= k < |Ring(subject, clip, g, c)| ==> Ring(subject, clip, g, c)[k] in Flat(c)
  {
    var f := Flat(c);
    var r := Ring(subject, clip, g, c);
    AtMostOnceIsDistinct(f);
    forall k | 0 <= k < |r|
      ensures r[k] == f[Head(c) + k] && r[k] in f
    {
    }
  }

  /** The flag loop changes no node's shape and no `visited` mark. */
  lemma SetEntriesShape(nodes: seq<Node>, ids: seq<nat>, e: bool)
    requires IdsIn(ids, |nodes|)
    ensures SameShape(nodes, SetEntries(nodes, ids, e))
  {
    forall k | 0 <= k < |nodes|
      ensures SameButEntry(nodes[k], SetEntries(nodes, ids, e)[k])
    {
      SetEntriesKeeps(nodes, ids, e, k);
    }
  }

  /** The subject's first flag: its first point lies outside the clip
      polygon, reversed for `And`. */
  function SubjectSeed(op: BooleanOp, firstInClip: bool): bool {
    if op == And then firstInClip else !firstInClip
  }

  /** The clip's first flag: its first point lies inside the subject,
      reversed for `Or`. */
  function ClipSeed(op: BooleanOp, firstInSubject: bool): bool {
    if op == Or then !firstInSubject else firstInSubject
  }

  /** Both flag loops, each over its list from the handle up to the
      sentinel, which has no `next` yet. The point tests of the first
      points are the parameters. */
  function IdentifyIntersectionType(subject: seq<Vec2>, clip: seq<Vec2>, g: Graph,
                                    firstInClip: bool, firstInSubject: bool, op: BooleanOp): (r: seq<Node>)
    requires WellFormed(subject, clip, g)
    ensures SameShape(g.nodes, r)
  {
    var rs := Ring(subject, clip, g, g.subject);
    var rc := Ring(subject, clip, g, g.clip);
    var n1 := SetEntries(g.nodes, rs, SubjectSeed(op, firstInClip));
    SetEntriesShape(g.nodes, rs, SubjectSeed(op, firstInClip));
    SetEntriesShape(n1, rc, ClipSeed(op, firstInSubject));
    SetEntries(n1, rc, ClipSeed(op, firstInSubject))
  }

  /** Along either ring, an intersection node is flagged with the list's
      seed when an even number of intersection nodes precede it on the
      ring, and with the opposite flag otherwise; the other list's loop
      does not touch it. */
  lemma EntryParity(subject: seq<Vec2>, clip: seq<Vec2>, g: Graph, firstInClip: bool, firstInSubject: bool,
                    op: BooleanOp, onSubject: bool, a: nat)
    requires WellFormed(subject, clip, g)
    requires var R := Ring(subject, clip, g, if onSubject then g.subject else g.clip);
      a < |R| && g.nodes[R[a]].intersect
    ensures var R := Ring(subject, clip, g, if onSubject then g.subject else g.clip);
      var seed := if onSubject then SubjectSeed(op, firstInClip) else ClipSeed(op, firstInSubject);
      IdentifyIntersectionType(subject, clip, g, firstInClip, firstInSubject, op)[R[a]].entry
        == (seed != (IntersectionCount(g.nodes, R[..a]) % 2 == 1))
  {
    var rs := Ring(subject, clip, g, g.subject);
    var rc := Ring(subject, clip, g, g.clip);
    var se, ce := SubjectSeed(op, firstInClip), ClipSeed(op, firstInSubject);
    var n1 := SetEntries(g.nodes, rs, se);
    RingDistinct(subject, clip, g, g.subject);
    RingDistinct(subject, clip, g, g.clip);
    if onSubject {
      SetEntriesParity(g.nodes, rs, se, a);
      assert rs[a] in Flat(g.subject);
      forall j | 0 <= j < |rc|
        ensures rc[j] != rs[a]
      {
        assert rc[j] in Flat(g.clip);
      }
      SetEntriesKeeps(n1, rc, ce, rs[a]);
    } else {
      SetEntriesShape(g.nodes, rs, se);
      SetEntriesParity(n1, rc, ce, a);
      IntersectionCountSame(g.nodes, n1, rc[..a]);
    }
  }

  /** Consecutive intersection nodes of a ring get opposite flags. */
  lemma EntryAlternates(subject: seq<Vec2>, clip: seq<Vec2>, g: Graph, firstInClip: bool, firstInSubject: bool,
                        op: BooleanOp, onSubject: bool, a: nat, b: nat)
    requires WellFormed(subject, clip, g)
    requires var R := Ring(subject, clip, g, if onSubject then g.subject else g.clip);
      a < b < |R| && g.nodes[R[a]].intersect && g.nodes[R[b]].intersect
      && forall k :: a < k < b ==> !g.nodes[R[k]].intersect
    ensures var R := Ring(subject, clip, g, if onSubject then g.subject else g.clip);
      var r := IdentifyIntersectionType(subject, clip, g, firstInClip, firstInSubject, op);
      r[R[b]].entry == !r[R[a]].entry
  {
    var R := Ring(subject, clip, g, if onSubject then g.subject else g.clip);
    EntryParity(subject, clip, g, firstInClip, firstInSubject, op, onSubject, a);
    EntryParity(subject, clip, g, firstInClip, firstInSubject, op, onSubject, b);
    CountBetween(g.nodes, R, a, b);
  }

  // ---------------------------------------------------------------------
  // CollectClipResults
  // ---------------------------------------------------------------------

  /** The tracing phase changes only the `visited` and `entry` flags. */
  predicate SameShape(arena: seq<Node>, nodes: seq<Node>) {
    |nodes| == |arena|
    && forall k :: 0 <= k < |arena| ==>
         nodes[k].vec == arena[k].vec && nodes[k].intersect == arena[k].intersect
         && nodes[k].neighbor == arena[k].neighbor
  }

  /** Every intersection node has a neighbor, itself an intersection node. */
  predicate NeighborsOk(arena: seq<Node>) {
    forall k :: 0 <= k < |arena| && arena[k].intersect ==>
      arena[k].neighbor.Some? && arena[k].neighbor.value < |arena| && arena[arena[k].neighbor.value].intersect
  }

  lemma WellFormedNeighbors(subject: seq<Vec2>, clip: seq<Vec2>, g: Graph)
    requires WellFormed(subject, clip, g)
    ensures NeighborsOk(g.nodes)
  {
    var first := FirstIntersectionId(subject, clip);
    forall k | 0 <= k < |g.nodes| && g.nodes[k].intersect
      ensures g.nodes[k].neighbor.Some? && g.nodes[k].neighbor.value < |g.nodes|
              && g.nodes[g.nodes[k].neighbor.value].intersect
    {
      assert k >= first;
      assert MutualNeighbors(g.nodes, k);
    }
  }

  lemma ShapeNeighbors(arena: seq<Node>, nodes: seq<Node>)
    requires NeighborsOk(arena) && SameShape(arena, nodes)
    ensures NeighborsOk(nodes)
  {
  }

  /** The neighbor of an intersection node. */
  function NeighborOf(arena: seq<Node>, k: nat): (r: nat)
    requires NeighborsOk(arena) && k < |arena| && arena[k].intersect
    ensures r < |arena| && arena[k].neighbor == Some(r) && arena[r].intersect
  {
    arena[k].neighbor.value
  }

  /** No node loses its `visited` mark. */
  predicate VisitedGrows(nodes: seq<Node>, nodes2: seq<Node>)
    requires |nodes2| == |nodes|
  {
    forall k :: 0 <= k < |nodes| && nodes[k].visited ==> nodes2[k].visited
  }

  function Unvisited(nodes: seq<Node>): set<nat> {
    set k | 0 <= k < |nodes| && !nodes[k].visited
  }

  function Visit(nodes: seq<Node>, k: nat): (r: seq<Node>)
    requires k < |nodes|
    ensures |r| == |nodes| && r[k].visited
    ensures forall j :: 0 <= j < |nodes| && j != k ==> r[j] == nodes[j]
    ensures r[k] == nodes[k].(visited := true)
  {
    nodes[k := nodes[k].(visited := true)]
  }

  lemma SubsetCardinality(a: set<nat>, b: set<nat>)
    requires a <= b
    ensures |a| <= |b|
  {
    if a != {} {
      var x :| x in a;
      SubsetCardinality(a - {x}, b - {x});
    }
  }

  /** Marking an unvisited node, and never unmarking one, shrinks the set
      of unvisited nodes. */
  lemma UnvisitedShrinks(nodes: seq<Node>, nodes2: seq<Node>, k: nat)
    requires |nodes2| == |nodes| && VisitedGrows(nodes, nodes2)
    requires k < |nodes| && !nodes[k].visited && nodes2[k].visited
    ensures |Unvisited(nodes2)| < |Unvisited(nodes)|
  {
    assert Unvisited(nodes2) <= Unvisited(nodes) - {k};
    SubsetCardinality(Unvisited(nodes2), Unvisited(nodes) - {k});
  }

  /** A chain of links from `from` through the nodes `passed` to `stop`. */
  ghost predicate LinkPath(L: Loops, from: nat, forward: bool, passed: seq<nat>, stop: nat)
    requires L.hs + 2 <= |L.fs| && L.hc + 2 <= |L.fc|
    decreases |passed|
  {
    if |passed| == 0 then Step(L, from, forward) == Some(stop)
    else Step(L, from, forward) == Some(passed[0]) && LinkPath(L, passed[0], forward, passed[1..], stop)
  }

  datatype WalkEnd = WalkEnd(nodes: seq<Node>, stop: nat, passed: seq<nat>, points: seq<Vec2>)

  /** The inner `while (true)` loop: mark the current node, step, and stop
      at the first intersection node; every node passed on the way adds its
      point. A missing link is `NullLink`; a walk that passes more nodes
      than the arena holds is `Hang`. */
  function Walk(L: Loops, arena: seq<Node>, nodes: seq<Node>, crt: nat, forward: bool, fuel: nat)
    : (r: Result<WalkEnd, BooleanError>)
    requires LoopsOk(L, |arena|) && SameShape(arena, nodes) && crt < |nodes|
    ensures r.Ok? ==> var w := r.value;
      SameShape(arena, w.nodes) && VisitedGrows(nodes, w.nodes) && w.nodes[crt].visited
      && w.stop < |nodes| && arena[w.stop].intersect && w.nodes[w.stop].visited
    decreases fuel
  {
    var nodes1 := Visit(nodes, crt);
    match Step(L, crt, forward)
    case None => Err(NullLink)
    case Some(n) =>
      if nodes1[n].intersect then Ok(WalkEnd(Visit(nodes1, n), n, [], []))
      else if fuel == 0 then Err(Hang)
      else
        match Walk(L, arena, nodes1, n, forward, fuel - 1)
        case Err(e) => Err(e)
        case Ok(w) => Ok(WalkEnd(w.nodes, w.stop, [n] + w.passed, [nodes1[n].vec] + w.points))
  }

  /** A finished walk collects the points of the nodes it passes, none of
      them an intersection node. */
  lemma {:induction false} WalkPoints(L: Loops, arena: seq<Node>, nodes: seq<Node>, crt: nat,
                                      forward: bool, fuel: nat)
    requires LoopsOk(L, |arena|) && SameShape(arena, nodes) && crt < |nodes|
    ensures var r := Walk(L, arena, nodes, crt, forward, fuel);
      r.Ok? ==> (|r.value.points| == |r.value.passed|
                 && forall k :: 0 <= k < |r.value.passed| ==>
                      r.value.passed[k] < |arena| && !arena[r.value.passed[k]].intersect
                      && r.value.points[k] == arena[r.value.passed[k]].vec)
    decreases fuel
  {
    var nodes1 := Visit(nodes, crt);
    var st := Step(L, crt, forward);
    if st.Some? && !nodes1[st.value].intersect && fuel > 0 {
      var n := st.value;
      WalkPoints(L, arena, nodes1, n, forward, fuel - 1);
      var r1 := Walk(L, arena, nodes1, n, forward, fuel - 1);
      if r1.Ok? {
        var w := Walk(L, arena, nodes, crt, forward, fuel).value;
        assert w.passed == [n] + r1.value.passed && w.points == [nodes1[n].vec] + r1.value.points;
        forall k | 0 <= k < |w.passed|
          ensures w.passed[k] < |arena| && !arena[w.passed[k]].intersect && w.points[k] == arena[w.passed[k]].vec
        {
          if k > 0 {
            assert w.passed[k] == r1.value.passed[k - 1] && w.points[k] == r1.value.points[k - 1];
          }
        }
      }
    }
  }

  /** A finished walk follows the links from its start, through the nodes it
      passes, to the intersection node where it stops. */
  lemma {:induction false} WalkFollowsLinks(L: Loops, arena: seq<Node>, nodes: seq<Node>, crt: nat,
                                            forward: bool, fuel: nat)
    requires LoopsOk(L, |arena|) && SameShape(arena, nodes) && crt < |nodes|
    ensures var r := Walk(L, arena, nodes, crt, forward, fuel);
      r.Ok? ==> LinkPath(L, crt, forward, r.value.passed, r.value.stop)
    decreases fuel
  {
    var nodes1 := Visit(nodes, crt);
    var st := Step(L, crt, forward);
    if st.Some? && !nodes1[st.value].intersect && fuel > 0 {
      var n := st.value;
      WalkFollowsLinks(L, arena, nodes1, n, forward, fuel - 1);
      var r := Walk(L, arena, nodes1, n, forward, fuel - 1);
      if r.Ok? {
        var passed := [n] + r.value.passed;
        assert passed[1..] == r.value.passed;
      }
    }
  }

  /** Walking backward from the first node spliced in front of a handle
      follows a missing link. */
  lemma OrphanWalk(subject: seq<Vec2>, clip: seq<Vec2>, g: Graph, c: Chain, nodes: seq<Node>, fuel: nat)
    requires WellFormed(subject, clip, g) && SameShape(g.nodes, nodes)
    requires c == g.subject || c == g.clip
    requires Head(c) > 0
    ensures LoopsOk(Close(g), |g.nodes|) && Flat(c)[0] < |nodes|
    ensures Walk(Close(g), g.nodes, nodes, Flat(c)[0], false, fuel) == Err(NullLink)
  {
    OrphanLinks(subject, clip, g, c, 0);
    assert Flat(c)[0] in Flat(c);
  }

  /** Node k still needs tracing. */
  predicate OfInterest(nodes: seq<Node>, k: nat) {
    k < |nodes| && nodes[k].intersect && !nodes[k].visited
  }

  /** The `do ... while` scan of `firstNodeOfInterest` over f[k..end]. */
  function ScanRing(f: seq<nat>, nodes: seq<Node>, k: nat, end: nat): (r: Option<nat>)
    requires k <= end <= |f|
    ensures r.Some? ==> (exists j :: k <= j < end && f[j] == r.value) && OfInterest(nodes, r.value)
    ensures r.None? <==> forall j :: k <= j < end ==> !OfInterest(nodes, f[j])
    decreases end - k
  {
    if k == end then None
    else if OfInterest(nodes, f[k]) then Some(f[k])
    else ScanRing(f, nodes, k + 1, end)
  }

  /** `firstNodeOfInterest` from the subject handle: the first intersection
      node after the handle on the subject ring not yet visited, or None
      when the scan comes back round to the handle. */
  function FirstNodeOfInterest(L: Loops, nodes: seq<Node>): (r: Option<nat>)
    requires L.hs + 2 <= |L.fs|
    ensures r.Some? ==> (OfInterest(nodes, r.value)
                         && exists j :: L.hs < j < |L.fs| - 1 && L.fs[j] == r.value)
    ensures r.None? <==> forall j :: L.hs < j < |L.fs| - 1 ==> !OfInterest(nodes, L.fs[j])
  {
    ScanRing(L.fs, nodes, L.hs + 1, |L.fs| - 1)
  }

  /** The `for (; !crt.visited; crt = crt.neighbor)` loop: record the node,
      walk in its `entry` direction to the next intersection node, jump to
      that node's neighbor in the other list, until a visited node is
      reached. Every round marks the node it starts from, so the loop ends;
      the points come out in tracing order. */
  function Trace(L: Loops, arena: seq<Node>, nodes: seq<Node>, crt: nat)
    : (r: Result<(seq<Node>, seq<Vec2>), BooleanError>)
    requires LoopsOk(L, |arena|) && NeighborsOk(arena) && SameShape(arena, nodes) && crt < |nodes|
    ensures r.Ok? ==> (SameShape(arena, r.value.0) && VisitedGrows(nodes, r.value.0)
                       && r.value.0[crt].visited
                       && (!nodes[crt].visited ==> |r.value.1| >= 1 && r.value.1[0] == arena[crt].vec))
    decreases |Unvisited(nodes)|
  {
    if nodes[crt].visited then Ok((nodes, []))
    else
      match Walk(L, arena, nodes, crt, nodes[crt].entry, |nodes|)
      case Err(e) => Err(e)
      case Ok(w) =>
        UnvisitedShrinks(nodes, w.nodes, crt);
        match Trace(L, arena, w.nodes, NeighborOf(arena, w.stop))
        case Err(e) => Err(e)
        case Ok(t) => Ok((t.0, [nodes[crt].vec] + w.points + t.1))
  }

  // ---------------------------------------------------------------------
  // Clean
  // ---------------------------------------------------------------------

  predicate NoAdjacentDuplicates(s: seq<Vec2>) {
    forall i :: 0 <= i < |s| - 1 ==> s[i] != s[i + 1]
  }

  /** Reference definition: keep each point unless the point after it is
      the same; the last point always stays, and the last and first are
      not compared. */
  function Keep(s: seq<Vec2>): (r: seq<Vec2>)
    ensures |r| <= |s|
    ensures |s| >= 1 ==> |r| >= 1 && r[0] == s[0] && r[|r| - 1] == s[|s| - 1]
    decreases |s|
  {
    if |s| <= 1 then s
    else (if s[0] == s[1] then [] else [s[0]]) + Keep(s[1..])
  }

  lemma KeepCons(y: Vec2, w: seq<Vec2>)
    requires |w| >= 1
    ensures Keep([y] + w) == (if y == w[0] then [] else [y]) + Keep(w)
  {
    assert ([y] + w)[1..] == w;
  }

  /** The `while (cur--)` loop of `Clean` from index cur down: compare the
      point before cur with the one at cur and splice it out when they
      coincide. */
  function CleanDown(s: seq<Vec2>, cur: nat): seq<Vec2>
    requires cur < |s|
    decreases cur
  {
    if cur == 0 then s
    else
      var c := cur - 1;
      if s[c] == s[c + 1] then CleanDown(s[..c] + s[c + 1..], c) else CleanDown(s, c)
  }

  /** Running the loop over a prefix a in front of an already cleaned
      suffix cleans the whole. */
  lemma {:induction false} CleanDownKeep(a: seq<Vec2>, w: seq<Vec2>)
    requires |w| >= 1
    ensures CleanDown(a + Keep(w), |a|) == Keep(a + w)
    decreases |a|
  {
    if |a| == 0 {
      assert a + Keep(w) == Keep(w) && a + w == w;
    } else {
      var c := |a| - 1;
      var a1, y := a[..c], a[c];
      var w1 := [y] + w;
      KeepCons(y, w);
      CleanDownKeep(a1, w1);
      var s := a + Keep(w);
      assert s[c] == y && s[c + 1] == w[0];
      if y == w[0] {
        assert s[..c] + s[c + 1..] == a1 + Keep(w1);
      } else {
        assert s == a1 + Keep(w1);
      }
      assert a1 + w1 == a + w;
    }
  }

  lemma {:induction false} KeepNoAdjacent(s: seq<Vec2>)
    ensures NoAdjacentDuplicates(Keep(s))
    decreases |s|
  {
    if |s| > 1 {
      KeepNoAdjacent(s[1..]);
    }
  }

  /** Keep changes exactly the sequences with adjacent duplicates. */
  lemma {:induction false} KeepFixed(s: seq<Vec2>)
    ensures Keep(s) == s <==> NoAdjacentDuplicates(s)
    decreases |s|
  {
    KeepNoAdjacent(s);
    if |s| > 1 && NoAdjacentDuplicates(s) {
      KeepFixed(s[1..]);
      assert NoAdjacentDuplicates(s[1..]) by {
        forall i | 0 <= i < |s| - 2
          ensures s[1..][i] != s[1..][i + 1]
        {
          assert s[i + 1] != s[i + 2];
        }
      }
      assert s == [s[0]] + s[1..];
    }
  }

  /** `Clean`: remove every point equal to the point after it. It needs a
      point: on an empty list the loop reads before the start. */
  function Clean(s: seq<Vec2>): (r: seq<Vec2>)
    requires |s| >= 1
    ensures r == Keep(s)
  {
    var a, w := s[..|s| - 1], [s[|s| - 1]];
    CleanDownKeep(a, w);
    assert a + Keep(w) == s && a + w == s;
    CleanDown(s, |s| - 1)
  }

  lemma CleanFacts(s: seq<Vec2>)
    requires |s| >= 1
    ensures |Clean(s)| >= 1 && NoAdjacentDuplicates(Clean(s)) && Clean(s)[|Clean(s)| - 1] == s[|s| - 1]
    ensures NoAdjacentDuplicates(s) ==> Clean(s) == s
  {
    KeepNoAdjacent(s);
    KeepFixed(s);
  }

  // ---------------------------------------------------------------------
  // CollectClipResults and Boolean
  // ---------------------------------------------------------------------

  /** The outer loop of `CollectClipResults`: while the subject ring holds
      an unvisited intersection node, trace a ring from it and keep its
      cleaned points. Every ring marks at least one more node. */
  function Collect(L: Loops, arena: seq<Node>, nodes: seq<Node>)
    : (r: Result<(seq<Node>, seq<seq<Vec2>>), BooleanError>)
    requires LoopsOk(L, |arena|) && NeighborsOk(arena) && SameShape(arena, nodes)
    ensures r.Ok? ==> (SameShape(arena, r.value.0) && FirstNodeOfInterest(L, r.value.0).None?
                       && |r.value.1| <= |Unvisited(nodes)| && AllCleaned(r.value.1))
    decreases |Unvisited(nodes)|
  {
    match FirstNodeOfInterest(L, nodes)
    case None => Ok((nodes, []))
    case Some(crt) =>
      match Trace(L, arena, nodes, crt)
      case Err(e) => Err(e)
      case Ok(t) =>
        UnvisitedShrinks(nodes, t.0, crt);
        CleanFacts(t.1);
        match Collect(L, arena, t.0)
        case Err(e) => Err(e)
        case Ok(c) =>
          ConsCleaned(Clean(t.1), c.1);
          Ok((c.0, [Clean(t.1)] + c.1))
  }

  /** Every ring is nonempty and has no adjacent duplicate points. */
  predicate AllCleaned(rs: seq<seq<Vec2>>) {
    forall i :: 0 <= i < |rs| ==> |rs[i]| >= 1 && NoAdjacentDuplicates(rs[i])
  }

  lemma ConsCleaned(p: seq<Vec2>, rs: seq<seq<Vec2>>)
    requires |p| >= 1 && NoAdjacentDuplicates(p) && AllCleaned(rs)
    ensures AllCleaned([p] + rs)
  {
    forall i | 0 <= i < |rs| + 1
      ensures |([p] + rs)[i]| >= 1 && NoAdjacentDuplicates(([p] + rs)[i])
    {
      if i > 0 {
        assert ([p] + rs)[i] == rs[i - 1];
      }
    }
  }

  /** Every traced ring through the polygon constructor; the first with
      fewer than three points stops it. */
  function ToPolygons(rs: seq<seq<Vec2>>): (r: Result<seq<Polygon2.Polygon>, BooleanError>)
    ensures r.Ok? <==> forall i :: 0 <= i < |rs| ==> |rs[i]| >= 3
    ensures r.Ok? ==> |r.value| == |rs|
                      && forall i :: 0 <= i < |rs| ==> r.value[i].points == rs[i] && Polygon2.Valid(r.value[i])
  {
    if |rs| == 0 then Ok([])
    else
      match Polygon2.New(rs[0], true)
      case Err(_) => Err(TooFewPoints)
      case Ok(p) =>
        match ToPolygons(rs[1..])
        case Err(e) => Err(e)
        case Ok(ps) => Ok([p] + ps)
  }

  /** Every result is a polygon without adjacent duplicate points. */
  predicate ValidResults(ps: seq<Polygon2.Polygon>) {
    forall i :: 0 <= i < |ps| ==> Polygon2.Valid(ps[i]) && NoAdjacentDuplicates(ps[i].points)
  }

  lemma ToPolygonsValid(rs: seq<seq<Vec2>>)
    requires AllCleaned(rs)
    ensures ToPolygons(rs).Ok? ==> ValidResults(ToPolygons(rs).value)
  {
  }

  /** `Polygon2.Boolean`: with no crossing the result is empty (the branch
      for disjoint or nested polygons is disabled in the source); otherwise
      flag the intersection nodes, trace the result rings and make each a
      polygon. */
  function Boolean(poly: Polygon2.Polygon, clip: Polygon2.Polygon, op: BooleanOp)
    : (r: Result<seq<Polygon2.Polygon>, BooleanError>)
    requires Polygon2.Valid(poly) && Polygon2.Valid(clip)
    ensures r.Ok? ==> ValidResults(r.value)
  {
    var P, C := poly.points, clip.points;
    var (g, found) := IdentifyIntersections(P, C);
    if !found then Ok([])
    else
      var arena := IdentifyIntersectionType(P, C, g, Polygon2.ContainsPoint(clip, P[0]),
                                            Polygon2.ContainsPoint(poly, C[0]), op);
      CloseOk(P, C, g);
      WellFormedNeighbors(P, C, g);
      ShapeNeighbors(g.nodes, arena);
      match Collect(Close(g), arena, arena)
      case Err(e) => Err(e)
      case Ok(c) =>
        ToPolygonsValid(c.1);
        ToPolygons(c.1)
  }

  /** Polygons whose edges do not cross give no result at all, whatever
      the operation and however they are nested. */
  lemma BooleanNoCrossing(poly: Polygon2.Polygon, clip: Polygon2.Polygon, op: BooleanOp)
    requires Polygon2.Valid(poly) && Polygon2.Valid(clip)
    requires forall i, j :: 0 <= i < |poly.points| && 0 <= j < |clip.points| ==>
               Hit(poly.points, clip.points, i, j).None?
    ensures Boolean(poly, clip, op) == Ok([])
  {
  }
}
