/** The tessellator's doubly linked vertex ring and its z-list.

    A ring is the sequence of point indices met by following `next` from
    the current node, so position 0 is the current node, position 1 its
    `next` and the last position its `prev`. Every ring the tessellator
    builds holds distinct indices (the initial ring holds 0..n-1, removal
    only drops nodes, and the two halves of a split are disjoint arcs plus
    one copy each of the diagonal's ends), so a node is identified by its
    index within its ring and `prev`/`next` are inverse by construction.

    The z-list is the sequence of indices in `zNext` order. */
module TessRing {
  import opened Vector2
  import opened SeqUtil
  import opened LinkedSort

  /** The point of index i; the rings only ever hold indices in range. */
  function At(pts: seq<Vec2>, i: nat): Vec2 {
    if i < |pts| then pts[i] else Vec2(0.0, 0.0)
  }

  /** A well-formed ring over n points: distinct indices below n. */
  predicate RingOver(r: seq<nat>, n: nat) {
    Distinct(r) && forall x :: x in r ==> x < n
  }

  /** Moving the current node to its `next`. */
  function Advance(r: seq<nat>): (s: seq<nat>)
    ensures |s| == |r|
    ensures forall x :: x in s <==> x in r
  {
    if |r| == 0 then r else r[1..] + [r[0]]
  }

  /** Advancing keeps a ring's nodes distinct. */
  lemma AdvanceDistinct(r: seq<nat>)
    requires Distinct(r)
    ensures Distinct(Advance(r))
  {
    if |r| > 0 {
      var s := Advance(r);
      forall i, j | 0 <= i < j < |s| ensures s[i] != s[j] {
        if j == |s| - 1 {
          assert s[i] == r[i + 1] && s[j] == r[0];
        } else {
          assert s[i] == r[i + 1] && s[j] == r[j + 1];
        }
      }
    }
  }

  /** A node with its two neighbours' points, as the tests read them
      through `p.prev` and `p.next`. */
  datatype Corner = Corner(prev: Vec2, at: Vec2, next: Vec2)

  function CornerAt(pts: seq<Vec2>, r: seq<nat>, k: nat): Corner
    requires k < |r|
  {
    var m := |r|;
    Corner(At(pts, r[PrevIndex(m, k)]), At(pts, r[k]), At(pts, r[NextIndex(m, k)]))
  }

  /** After advancing, position k holds what position k+1 (round the ring)
      held, with the same neighbours. */
  lemma CornerAdvance(pts: seq<Vec2>, r: seq<nat>, k: nat)
    requires k < |r|
    ensures Advance(r)[k] == r[NextIndex(|r|, k)]
    ensures CornerAt(pts, Advance(r), k) == CornerAt(pts, r, NextIndex(|r|, k))
  {
    var m := |r|;
    var s := Advance(r);
    assert forall j :: 0 <= j < m ==> s[j] == r[NextIndex(m, j)];
  }

  /** The node at position k made current. */
  function Rotate(r: seq<nat>, k: nat): (s: seq<nat>)
    requires k <= |r|
    ensures |s| == |r|
    ensures forall x :: x in s <==> x in r
  {
    assert r == r[..k] + r[k..];
    r[k..] + r[..k]
  }

  lemma RotateDistinct(r: seq<nat>, k: nat)
    requires k <= |r| && Distinct(r)
    ensures Distinct(Rotate(r, k))
  {
    var s := Rotate(r, k);
    forall i, j | 0 <= i < j < |s| ensures s[i] != s[j] {
      var m := |r| - k;
      if j < m {
        assert s[i] == r[k + i] && s[j] == r[k + j];
      } else if i < m {
        assert s[i] == r[k + i] && s[j] == r[j - m];
      } else {
        assert s[i] == r[i - m] && s[j] == r[j - m];
      }
    }
  }

  /** Dropping the current node (`removeNode`): the ring now starts at the
      old `next`, whose `prev` is the old `prev`. */
  lemma RemoveDistinct(r: seq<nat>)
    requires |r| >= 1 && Distinct(r)
    ensures Distinct(r[1..])
    ensures forall x :: x in r[1..] <==> x in r && x != r[0]
  {
  }

  // ---------------------------------------------------------------------
  // createLinkedList / insertNode
  // ---------------------------------------------------------------------

  /** `insertNode(i, last)`: the new node goes right after `last` and is
      returned as the new `last`. A first node links to itself. */
  function InsertNode(r: seq<nat>, i: nat): seq<nat> {
    if |r| == 0 then [i] else [i] + r[1..] + [r[0]]
  }

  /** The insertion loop, inserting `order` from first to last. */
  function InsertAll(r: seq<nat>, order: seq<nat>): seq<nat>
    decreases |order|
  {
    if |order| == 0 then r else InsertAll(InsertNode(r, order[0]), order[1..])
  }

  /** Index orders of the two loops of `createLinkedList`. */
  function Ascending(n: nat): seq<nat> {
    seq(n, k requires 0 <= k < n => k)
  }

  function Descending(n: nat): seq<nat> {
    seq(n, k requires 0 <= k < n => n - 1 - k)
  }

  /** `createLinkedList(0, n)`: insert ascending for a counter-clockwise
      polygon and descending for a clockwise one, then drop `last` when it
      repeats the point of its `next` (a closing duplicate). */
  function CreateLinkedList(pts: seq<Vec2>, clockwise: bool): seq<nat> {
    var n := |pts|;
    var ring := InsertAll([], if clockwise then Descending(n) else Ascending(n));
    if |ring| >= 2 && At(pts, ring[0]) == At(pts, ring[1]) then ring[1..] else ring
  }

  lemma {:induction false} InsertAllShape(x: nat, rest: seq<nat>, order: seq<nat>)
    requires |order| >= 1
    ensures InsertAll([x] + rest, order) == [order[|order| - 1]] + rest + [x] + order[..|order| - 1]
    decreases |order|
  {
    var r := [x] + rest;
    assert InsertNode(r, order[0]) == [order[0]] + rest + [x];
    if |order| >= 2 {
      var o := order[1..];
      InsertAllShape(order[0], rest + [x], o);
      assert [order[0]] + o[..|o| - 1] == order[..|order| - 1];
      assert [order[0]] + (rest + [x]) == [order[0]] + rest + [x];
    }
  }

  /** Inserting a sequence into an empty ring leaves the last inserted node
      current, followed by the others in insertion order. */
  lemma {:induction false} InsertAllFromEmpty(order: seq<nat>)
    requires |order| >= 1
    ensures InsertAll([], order) == [order[|order| - 1]] + order[..|order| - 1]
  {
    var o := order[1..];
    assert InsertAll([], order) == InsertAll([order[0]], o);
    if |o| >= 1 {
      InsertAllShape(order[0], [], o);
      assert [order[0]] + [] == [order[0]];
      assert [order[0]] + o[..|o| - 1] == order[..|order| - 1];
    }
  }

  /** The ring `createLinkedList` builds, spelled out: a clockwise polygon
      gives index 0 followed by n-1 down to 1, a counter-clockwise one gives
      n-1 followed by 0 up to n-2; the leading node is dropped when its
      point equals the point of its `next`. */
  lemma CreateLinkedListOrder(pts: seq<Vec2>, clockwise: bool)
    requires |pts| >= 2
    ensures var n := |pts|;
      clockwise ==> (CreateLinkedList(pts, clockwise)
        == (if pts[0] == pts[n - 1] then [] else [0]) + seq(n - 1, k requires 0 <= k < n - 1 => n - 1 - k))
    ensures var n := |pts|;
      !clockwise ==> (CreateLinkedList(pts, clockwise)
        == (if pts[n - 1] == pts[0] then [] else [n - 1]) + seq(n - 1, k requires 0 <= k < n - 1 => k))
  {
    var n := |pts|;
    var order := if clockwise then Descending(n) else Ascending(n);
    InsertAllFromEmpty(order);
    var ring := InsertAll([], order);
    assert ring[0] == order[n - 1] && ring[1] == order[0];
    if clockwise {
      assert order[..n - 1] == seq(n - 1, k requires 0 <= k < n - 1 => n - 1 - k);
    } else {
      assert order[..n - 1] == seq(n - 1, k requires 0 <= k < n - 1 => k);
    }
  }

  /** The ring `createLinkedList` builds is a well-formed ring over the
      polygon's points with at least n-1 nodes. */
  lemma CreateLinkedListRing(pts: seq<Vec2>, clockwise: bool)
    requires |pts| >= 2
    ensures RingOver(CreateLinkedList(pts, clockwise), |pts|)
    ensures |pts| - 1 <= |CreateLinkedList(pts, clockwise)| <= |pts|
  {
    CreateLinkedListOrder(pts, clockwise);
    var n := |pts|;
    var r := CreateLinkedList(pts, clockwise);
    var lead: seq<nat> := if clockwise then (if pts[0] == pts[n - 1] then [] else [0]) else (if pts[n - 1] == pts[0] then [] else [n - 1]);
    var tail: seq<nat> := if clockwise then seq(n - 1, k requires 0 <= k < n - 1 => n - 1 - k) else seq(n - 1, k requires 0 <= k < n - 1 => k);
    assert r == lead + tail;
    forall i, j | 0 <= i < j < |r| ensures r[i] != r[j] {
      if |lead| == 1 {
        if i == 0 {
          assert r[j] == tail[j - 1];
        } else {
          assert r[i] == tail[i - 1] && r[j] == tail[j - 1];
        }
      } else {
        assert r[i] == tail[i] && r[j] == tail[j];
      }
    }
  }

  // ---------------------------------------------------------------------
  // The z-list
  // ---------------------------------------------------------------------

  /** The z-list after `removeNode` calls: the nodes still on the ring, in
      the z-list's order (`removeNode` splices each removed node out). */
  function Keep(z: seq<nat>, r: seq<nat>): (k: seq<nat>)
    ensures |k| <= |z|
    ensures forall x :: x in k <==> x in z && x in r
  {
    if |z| == 0 then [] else (if z[0] in r then [z[0]] else []) + Keep(z[1..], r)
  }

  /** The z-list of ring r as `indexCurve` leaves it and `removeNode` keeps
      it: the ring's nodes, each once, in nondecreasing key order. */
  predicate ZIndexed(key: nat -> int, r: seq<nat>, z: seq<nat>) {
    Sorted(z, key) && Distinct(z) && (forall x :: x in z ==> x in r) && (forall x :: x in r ==> x in z)
  }

  /** Splicing nodes out keeps the z-list sorted and its nodes distinct. */
  lemma {:induction false} KeepSorted(z: seq<nat>, r: seq<nat>, key: nat -> int)
    requires Sorted(z, key) && Distinct(z)
    ensures Sorted(Keep(z, r), key) && Distinct(Keep(z, r))
    decreases |z|
  {
    if |z| > 0 {
      var t := Keep(z[1..], r);
      KeepSorted(z[1..], r, key);
      if z[0] in r {
        forall i | 0 <= i < |t| ensures key(z[0]) <= key(t[i]) && z[0] != t[i] {
          assert t[i] in z[1..];
          var j :| 0 <= j < |z[1..]| && z[1..][j] == t[i];
          assert z[j + 1] == t[i];
        }
        forall i, j | 0 <= i < j < |[z[0]] + t| ensures ([z[0]] + t)[i] != ([z[0]] + t)[j] {
          if i > 0 {
            assert ([z[0]] + t)[i] == t[i - 1] && ([z[0]] + t)[j] == t[j - 1];
          }
        }
        SortedCons(z[0], t, key);
      }
    }
  }

  /** `indexCurve`: sorting a ring of distinct nodes by key gives its
      z-list. */
  lemma ZIndexedSortLinked(key: nat -> int, r: seq<nat>)
    requires |r| >= 1 && Distinct(r)
    ensures ZIndexed(key, r, SortLinked(r, key))
  {
    var z := SortLinked(r, key);
    SortLinkedSorted(r, key);
    forall x | x in z ensures x in r {
      SortLinkedPermutes(r, key, x);
      CountPositive(z, x);
      CountPositive(r, x);
    }
    forall x | x in r ensures x in z {
      SortLinkedPermutes(r, key, x);
      CountPositive(z, x);
      CountPositive(r, x);
    }
    DistinctIsAtMostOnce(r);
    forall y | y in z ensures Count(z, y) <= 1 {
      SortLinkedPermutes(r, key, y);
    }
    AtMostOnceIsDistinct(z);
  }

  /** Removing nodes from the ring and splicing them out of the z-list
      keeps the z-list indexed. */
  lemma ZIndexedKeep(key: nat -> int, r: seq<nat>, z: seq<nat>, r2: seq<nat>)
    requires ZIndexed(key, r, z) && forall x :: x in r2 ==> x in r
    ensures ZIndexed(key, r2, Keep(z, r2))
  {
    KeepSorted(z, r2, key);
  }
}
