/** The first two recovery passes of the tessellator: `filterPoints`, which
    drops repeated and collinear nodes, and `cureLocalIntersections`, which
    clips the small triangles left where the boundary crosses itself.

    Both loops are written over their node test, passed as a function; the
    tests the tessellator uses are `Removable` and `CureTest` below. Keeping
    the real arithmetic of the tests out of the loops keeps the proofs about
    the loops' bookkeeping free of it. */
module TessFilter {
  import opened Wrappers
  import opened Vector2
  import opened SeqUtil
  import opened Triangle2
  import opened TessGeometry
  import opened TessRing

  // ---------------------------------------------------------------------
  // filterPoints
  // ---------------------------------------------------------------------

  /** `filterPoints`' test of a node: its point repeats its `next`'s, or it
      is collinear with its neighbours. (The `steiner` guard always passes:
      no node is ever marked as one.) */
  predicate Removable(q: Corner) {
    Equals(q.at, q.next) || GetSignedArea(q.prev, q.at, q.next) == 0.0
  }

  /** A test that removes every node whose `prev` and `next` coincide, as in
      rings of one or two nodes. */
  ghost predicate RemovesFolds(removable: Corner -> bool) {
    forall q: Corner :: q.prev == q.next ==> removable(q)
  }

  /** `Removable` removes folds: the area of a degenerate triangle is zero. */
  lemma RemovableRemovesFolds()
    ensures RemovesFolds(Removable)
  {
    forall q: Corner | q.prev == q.next ensures Removable(q) {
      SignedAreaDegenerate(q.prev, q.at, q.next);
    }
  }

  /** A ring where no node would be filtered. */
  predicate Clean(removable: Corner -> bool, pts: seq<Vec2>, r: seq<nat>) {
    forall k :: 0 <= k < |r| ==> !removable(CornerAt(pts, r, k))
  }

  /** Removing the current node moves `p` (and `end`) back to its `prev`:
      the ring without position 0, starting from the old last node. */
  function RemoveBack(r: seq<nat>): (s: seq<nat>)
    requires |r| >= 2
    ensures |s| == |r| - 1
  {
    [r[|r| - 1]] + r[1..|r| - 1]
  }

  lemma RemoveBackDistinct(r: seq<nat>)
    requires |r| >= 2 && Distinct(r)
    ensures Distinct(RemoveBack(r))
  {
    var s := RemoveBack(r);
    assert forall j :: 1 <= j < |s| ==> s[j] == r[j];
  }

  /** Removal drops the current node and nothing else. */
  lemma RemoveBackMembers(r: seq<nat>)
    requires |r| >= 2
    ensures forall x :: x in RemoveBack(r) ==> x in r
    ensures forall x :: x in r && x != r[0] ==> x in RemoveBack(r)
  {
    var s := RemoveBack(r);
    assert forall j :: 1 <= j < |s| ==> s[j] == r[j];
    assert s[0] == r[|r| - 1];
    forall x | x in r && x != r[0] ensures x in s {
      var j :| 0 <= j < |r| && r[j] == x;
      if j == |r| - 1 {
        assert s[0] == x;
      } else {
        assert s[j] == x;
      }
    }
  }

  /** The `do ... while (again || p !== end)` loop. The ring starts at `p`;
      `d` counts the nodes still to be checked before `p` reaches `end` with
      no removal in between (a removal makes `end` the new `p` and restarts
      a full lap). The result starts at `end`; `None` is the `null` returned
      when a removal would leave a node that is its own `next`. */
  function FilterLoop(removable: Corner -> bool, pts: seq<Vec2>, r: seq<nat>, d: nat): (res: Option<seq<nat>>)
    requires 1 <= d <= |r|
    ensures res.Some? ==> 1 <= |res.value| <= |r|
    decreases |r|, d
  {
    if removable(CornerAt(pts, r, 0)) then
      if |r| <= 2 then None
      else FilterLoop(removable, pts, RemoveBack(r), |r| - 1)
    else if d == 1 then Some(Advance(r))
    else FilterLoop(removable, pts, Advance(r), d - 1)
  }

  /** `filterPoints(start)`: `end` defaults to `start`, a full lap. */
  function Filter(removable: Corner -> bool, pts: seq<Vec2>, r: seq<nat>): Option<seq<nat>>
    requires |r| >= 1
  {
    FilterLoop(removable, pts, r, |r|)
  }

  /** `filterPoints(start, start.next)`: only `start` is checked unless a
      removal restarts the lap. */
  function FilterFirst(removable: Corner -> bool, pts: seq<Vec2>, r: seq<nat>): Option<seq<nat>>
    requires |r| >= 1
  {
    FilterLoop(removable, pts, r, 1)
  }

  /** With a test that removes folds, whatever survives has at least three
      nodes: a ring of one or two nodes always gets a removal, and a removal
      from two nodes gives `null`. */
  lemma {:induction false} FilterLoopAtLeastThree(removable: Corner -> bool, pts: seq<Vec2>, r: seq<nat>, d: nat)
    requires 1 <= d <= |r| && RemovesFolds(removable)
    ensures FilterLoop(removable, pts, r, d).Some? ==> |FilterLoop(removable, pts, r, d).value| >= 3
    decreases |r|, d
  {
    var q := CornerAt(pts, r, 0);
    if |r| <= 2 {
      assert q.prev == q.next;
    } else if removable(q) {
      FilterLoopAtLeastThree(removable, pts, RemoveBack(r), |r| - 1);
    } else if d > 1 {
      FilterLoopAtLeastThree(removable, pts, Advance(r), d - 1);
    }
  }

  /** A property of rings that removal and advancing keep. */
  ghost predicate FilterInvariant(inv: seq<nat> -> bool) {
    (forall s: seq<nat> {:trigger inv(RemoveBack(s))} :: |s| >= 2 && inv(s) ==> inv(RemoveBack(s))) &&
    (forall s: seq<nat> {:trigger inv(Advance(s))} :: inv(s) ==> inv(Advance(s)))
  }

  /** The loop only removes and advances, so it keeps any such property. */
  lemma {:induction false} FilterLoopKeeps(inv: seq<nat> -> bool, removable: Corner -> bool, pts: seq<Vec2>, r: seq<nat>, d: nat)
    requires 1 <= d <= |r| && FilterInvariant(inv) && inv(r)
    ensures FilterLoop(removable, pts, r, d).Some? ==> inv(FilterLoop(removable, pts, r, d).value)
    decreases |r|, d
  {
    if removable(CornerAt(pts, r, 0)) {
      if |r| > 2 {
        FilterLoopKeeps(inv, removable, pts, RemoveBack(r), |r| - 1);
      }
    } else if d > 1 {
      FilterLoopKeeps(inv, removable, pts, Advance(r), d - 1);
    }
  }

  /** What the loop keeps are distinct nodes of the ring when the ring's
      nodes are distinct. */
  lemma FilterLoopNodes(removable: Corner -> bool, pts: seq<Vec2>, r: seq<nat>, d: nat)
    requires 1 <= d <= |r|
    ensures FilterLoop(removable, pts, r, d).Some? ==> forall x :: x in FilterLoop(removable, pts, r, d).value ==> x in r
    ensures Distinct(r) && FilterLoop(removable, pts, r, d).Some? ==> Distinct(FilterLoop(removable, pts, r, d).value)
  {
    var within := (s: seq<nat>) => forall x :: x in s ==> x in r;
    forall s: seq<nat> | |s| >= 2 && within(s) ensures within(RemoveBack(s)) {
      RemoveBackMembers(s);
    }
    FilterLoopKeeps(within, removable, pts, r, d);
    if Distinct(r) {
      var distinct := (s: seq<nat>) => Distinct(s);
      forall s: seq<nat> | |s| >= 2 && distinct(s) ensures distinct(RemoveBack(s)) {
        RemoveBackDistinct(s);
      }
      forall s: seq<nat> | distinct(s) ensures distinct(Advance(s)) {
        AdvanceDistinct(s);
      }
      FilterLoopKeeps(distinct, removable, pts, r, d);
    }
  }

  /** A node the loop removed, with its corner at the moment of removal. */
  datatype Drop = Drop(node: nat, corner: Corner)

  /** The nodes `FilterLoop` removes, in removal order, each with the corner
      (its current neighbours) the test was applied to. */
  function FilterDropped(removable: Corner -> bool, pts: seq<Vec2>, r: seq<nat>, d: nat): (ds: seq<Drop>)
    requires 1 <= d <= |r|
    ensures forall k :: 0 <= k < |ds| ==> removable(ds[k].corner) && ds[k].corner.at == At(pts, ds[k].node)
    decreases |r|, d
  {
    if removable(CornerAt(pts, r, 0)) then
      [Drop(r[0], CornerAt(pts, r, 0))] +
      (if |r| <= 2 then [] else FilterDropped(removable, pts, RemoveBack(r), |r| - 1))
    else if d == 1 then []
    else FilterDropped(removable, pts, Advance(r), d - 1)
  }

  /** x is one of the removed nodes. */
  predicate DroppedNode(ds: seq<Drop>, x: nat) {
    exists k :: 0 <= k < |ds| && ds[k].node == x
  }

  /** Every removed node is a node of the ring. */
  lemma {:induction false} FilterDroppedIn(removable: Corner -> bool, pts: seq<Vec2>, r: seq<nat>, d: nat, x: nat)
    requires 1 <= d <= |r|
    ensures DroppedNode(FilterDropped(removable, pts, r, d), x) ==> x in r
    decreases |r|, d
  {
    var ds := FilterDropped(removable, pts, r, d);
    if DroppedNode(ds, x) {
      var k :| 0 <= k < |ds| && ds[k].node == x;
      if removable(CornerAt(pts, r, 0)) {
        if k == 0 {
          assert x == r[0];
        } else {
          var s := RemoveBack(r);
          var rest := FilterDropped(removable, pts, s, |r| - 1);
          assert ds[k] == rest[k - 1];
          FilterDroppedIn(removable, pts, s, |r| - 1, x);
          RemoveBackMembers(r);
        }
      } else {
        FilterDroppedIn(removable, pts, Advance(r), d - 1, x);
      }
    }
  }

  /** Filtering only removes nodes the test accepts: every node of the ring
      either survives or was removed (each removal accepted by the test,
      `FilterDropped`), and the removals account exactly for the nodes
      missing from the result. */
  lemma {:induction false} FilterAccounts(removable: Corner -> bool, pts: seq<Vec2>, r: seq<nat>, d: nat, x: nat)
    requires 1 <= d <= |r|
    ensures FilterLoop(removable, pts, r, d).Some? ==>
      |FilterDropped(removable, pts, r, d)| + |FilterLoop(removable, pts, r, d).value| == |r|
    ensures FilterLoop(removable, pts, r, d).Some? && x in r ==>
      x in FilterLoop(removable, pts, r, d).value || DroppedNode(FilterDropped(removable, pts, r, d), x)
    decreases |r|, d
  {
    var ds := FilterDropped(removable, pts, r, d);
    var res := FilterLoop(removable, pts, r, d);
    if removable(CornerAt(pts, r, 0)) {
      if |r| > 2 {
        var s := RemoveBack(r);
        RemoveBackMembers(r);
        FilterAccounts(removable, pts, s, |r| - 1, x);
        var rest := FilterDropped(removable, pts, s, |r| - 1);
        assert ds == [Drop(r[0], CornerAt(pts, r, 0))] + rest;
        if res.Some? && x in r && x !in res.value {
          if x == r[0] {
            assert ds[0].node == x;
          } else {
            var k :| 0 <= k < |rest| && rest[k].node == x;
            assert ds[k + 1].node == x;
          }
        }
      }
    } else if d > 1 {
      FilterAccounts(removable, pts, Advance(r), d - 1, x);
    }
  }

  /** What the loop leaves has no removable node: the last lap, after the
      last removal, checked every node and removed none. The second
      precondition says the nodes past the `d` still to be checked have
      already passed. */
  lemma {:induction false} FilterLoopClean(removable: Corner -> bool, pts: seq<Vec2>, r: seq<nat>, d: nat)
    requires 1 <= d <= |r|
    requires forall k :: d <= k < |r| ==> !removable(CornerAt(pts, r, k))
    ensures FilterLoop(removable, pts, r, d).Some? ==> Clean(removable, pts, FilterLoop(removable, pts, r, d).value)
    decreases |r|, d
  {
    if removable(CornerAt(pts, r, 0)) {
      if |r| > 2 {
        FilterLoopClean(removable, pts, RemoveBack(r), |r| - 1);
      }
    } else {
      var m := |r|;
      forall k | d - 1 <= k < m
        ensures !removable(CornerAt(pts, Advance(r), k))
      {
        CornerAdvance(pts, r, k);
      }
      if d > 1 {
        FilterLoopClean(removable, pts, Advance(r), d - 1);
      }
    }
  }

  /** A full `filterPoints` leaves no node it would remove. */
  lemma FilterClean(removable: Corner -> bool, pts: seq<Vec2>, r: seq<nat>)
    requires |r| >= 1
    ensures Filter(removable, pts, r).Some? ==> Clean(removable, pts, Filter(removable, pts, r).value)
  {
    FilterLoopClean(removable, pts, r, |r|);
  }

  lemma AdvanceRotate(r: seq<nat>, j: nat)
    requires j < |r|
    ensures Advance(Rotate(r, j)) == Rotate(r, j + 1)
  {
    var s := Rotate(r, j);
    assert s[0] == r[j];
    assert s[1..] == r[j + 1..] + r[..j];
    assert r[..j] + [r[j]] == r[..j + 1];
  }

  lemma CleanAdvance(removable: Corner -> bool, pts: seq<Vec2>, r: seq<nat>)
    requires |r| >= 1 && Clean(removable, pts, r)
    ensures Clean(removable, pts, Advance(r))
  {
    forall k | 0 <= k < |r| ensures !removable(CornerAt(pts, Advance(r), k)) {
      CornerAdvance(pts, r, k);
    }
  }

  lemma {:induction false} FilterLoopOfClean(removable: Corner -> bool, pts: seq<Vec2>, r: seq<nat>, j: nat, d: nat)
    requires 1 <= d && j + d <= |r| && Clean(removable, pts, Rotate(r, j))
    ensures FilterLoop(removable, pts, Rotate(r, j), d) == Some(Rotate(r, j + d))
    decreases d
  {
    AdvanceRotate(r, j);
    assert !removable(CornerAt(pts, Rotate(r, j), 0));
    if d > 1 {
      CleanAdvance(removable, pts, Rotate(r, j));
      FilterLoopOfClean(removable, pts, r, j + 1, d - 1);
    }
  }

  /** A ring with nothing to remove comes back unchanged, so filtering twice
      is filtering once. */
  lemma FilterOfClean(removable: Corner -> bool, pts: seq<Vec2>, r: seq<nat>)
    requires |r| >= 1 && Clean(removable, pts, r)
    ensures Filter(removable, pts, r) == Some(r)
  {
    assert Rotate(r, 0) == r;
    assert Rotate(r, |r|) == r;
    FilterLoopOfClean(removable, pts, r, 0, |r|);
  }

  lemma FilterIdempotent(removable: Corner -> bool, pts: seq<Vec2>, r: seq<nat>)
    requires |r| >= 1 && Filter(removable, pts, r).Some?
    ensures Filter(removable, pts, Filter(removable, pts, r).value) == Filter(removable, pts, r)
  {
    FilterClean(removable, pts, r);
    FilterOfClean(removable, pts, Filter(removable, pts, r).value);
  }

  // ---------------------------------------------------------------------
  // cureLocalIntersections
  // ---------------------------------------------------------------------

  /** `isLocallyInside(a, b)` for the node at position k and the node of
      index q. */
  predicate LocallyInsideAt(pts: seq<Vec2>, r: seq<nat>, k: nat, q: nat)
    requires k < |r|
  {
    var a := CornerAt(pts, r, k);
    LocallyInside(a.prev, a.at, a.next, At(pts, q))
  }

  /** The cure test at the current node p with a = p.prev and
      b = p.next.next: a and b are different points, edge a-p crosses edge
      p.next-b, and the diagonal a-b is locally inside at both ends. */
  predicate CureAt(pts: seq<Vec2>, r: seq<nat>)
    requires |r| >= 1
  {
    var m := |r|;
    var a, p, pn, b := r[m - 1], r[0], r[1 % m], r[2 % m];
    !Equals(At(pts, a), At(pts, b)) &&
    Intersects(At(pts, a), At(pts, p), At(pts, pn), At(pts, b)) &&
    LocallyInsideAt(pts, r, m - 1, b) && LocallyInsideAt(pts, r, 2 % m, a)
  }

  /** The test never fires on a ring of fewer than four nodes: with one or
      three nodes a and b are the same node, with two the crossing test
      compares a segment with itself. */
  lemma CureNeedsFour(pts: seq<Vec2>, r: seq<nat>)
    requires |r| >= 1 && CureAt(pts, r)
    ensures |r| >= 4
  {
    if |r| == 2 {
      IntersectsSelf(At(pts, r[1]), At(pts, r[0]));
    }
  }

  /** The cure test as the loop consults it, on a ring of any length. */
  function CureTest(pts: seq<Vec2>): seq<nat> -> bool {
    r => |r| >= 1 && CureAt(pts, r)
  }

  /** The loop below checks the length before the test; for `CureTest` that
      check changes nothing, since the test fails on shorter rings. */
  lemma CureTestNeedsFour(pts: seq<Vec2>, r: seq<nat>)
    ensures CureTest(pts)(r) ==> |r| >= 4
  {
    if |r| >= 1 && CureAt(pts, r) {
      CureNeedsFour(pts, r);
    }
  }

  /** What the cure loop returns: the ring from the final `p`, and the
      emitted indices. */
  datatype Cured = Cured(ring: seq<nat>, out: seq<nat>)

  /** The `do ... while (p !== start)` loop; `k` counts the checks left
      before `p` is back at `start`. A cure emits a, p, b, removes p and
      p.next, makes b the new `start` and moves on to b.next. Each cure
      takes two nodes off the ring and emits one triangle. */
  function CureLoop(cure: seq<nat> -> bool, r: seq<nat>, k: nat): (res: Cured)
    requires |r| >= 1 && k >= 1
    ensures 1 <= |res.ring| <= |r|
    ensures 2 * |res.out| == 3 * (|r| - |res.ring|)
    ensures |r| >= 2 ==> |res.ring| >= 2
    decreases |r|, k
  {
    if |r| >= 4 && cure(r) then
      var rest := CureLoop(cure, Advance(r[2..]), |r| - 3);
      Cured(rest.ring, [r[|r| - 1], r[0], r[2]] + rest.out)
    else if k == 1 then Cured(Advance(r), [])
    else CureLoop(cure, Advance(r), k - 1)
  }

  /** `cureLocalIntersections(start)`: one lap from `start`. */
  function Cure(cure: seq<nat> -> bool, r: seq<nat>): Cured
    requires |r| >= 1
  {
    CureLoop(cure, r, |r|)
  }

  lemma TwoThirds(a: int, t: int)
    requires 2 * a == 3 * t
    ensures a % 3 == 0
  {
  }

  /** The cure loop emits whole triangles. */
  lemma CureLoopTriangles(cure: seq<nat> -> bool, r: seq<nat>, k: nat)
    requires |r| >= 1 && k >= 1
    ensures |CureLoop(cure, r, k).out| % 3 == 0
  {
    var res := CureLoop(cure, r, k);
    TwoThirds(|res.out|, |r| - |res.ring|);
  }

  /** Everything the cure loop keeps or emits is a node of the ring. */
  lemma {:induction false} CureLoopMembers(cure: seq<nat> -> bool, r: seq<nat>, k: nat)
    requires |r| >= 1 && k >= 1
    ensures forall x :: x in CureLoop(cure, r, k).ring ==> x in r
    ensures forall x :: x in CureLoop(cure, r, k).out ==> x in r
    decreases |r|, k
  {
    if |r| >= 4 && cure(r) {
      CureLoopMembers(cure, Advance(r[2..]), |r| - 3);
    } else if k > 1 {
      CureLoopMembers(cure, Advance(r), k - 1);
    }
  }

  /** The ring the cure loop keeps has distinct nodes when the input has. */
  lemma {:induction false} CureLoopDistinct(cure: seq<nat> -> bool, r: seq<nat>, k: nat)
    requires |r| >= 1 && k >= 1 && Distinct(r)
    ensures Distinct(CureLoop(cure, r, k).ring)
    decreases |r|, k
  {
    if |r| >= 4 && cure(r) {
      AdvanceDistinct(r[2..]);
      CureLoopDistinct(cure, Advance(r[2..]), |r| - 3);
    } else if k > 1 {
      AdvanceDistinct(r);
      CureLoopDistinct(cure, Advance(r), k - 1);
    } else {
      AdvanceDistinct(r);
    }
  }

  lemma {:induction false} CureLoopNone(cure: seq<nat> -> bool, r: seq<nat>, j: nat, k: nat)
    requires 1 <= k && j + k <= |r|
    requires forall i :: j <= i < j + k ==> !cure(Rotate(r, i))
    ensures CureLoop(cure, Rotate(r, j), k) == Cured(Rotate(r, j + k), [])
    decreases k
  {
    AdvanceRotate(r, j);
    if k > 1 {
      CureLoopNone(cure, r, j + 1, k - 1);
    }
  }

  /** A ring where the test fails at every node comes back unchanged, with
      nothing emitted. */
  lemma CureOfUncrossed(cure: seq<nat> -> bool, r: seq<nat>)
    requires |r| >= 1
    requires forall i :: 0 <= i < |r| ==> !cure(Rotate(r, i))
    ensures Cure(cure, r) == Cured(r, [])
  {
    assert Rotate(r, 0) == r;
    assert Rotate(r, |r|) == r;
    CureLoopNone(cure, r, 0, |r|);
  }
}
