/** `RemoveDuplicatedEdges` of `Delaunay.ts`: the polygonal hole left by the
    triangles a new vertex invalidates is the set of their edges that occur
    once; every edge shared by two of them is dropped, both copies.

    The flat number array `[a0, b0, a1, b1, ...]` is modelled as a sequence
    of pairs: it is only ever grown by whole pairs and `splice(j, 2)` always
    removes a whole pair, so pair positions are the flat positions halved. */
module DelaunayEdges {
  import opened Wrappers

  datatype Edge = Edge(a: nat, b: nat)

  /** The source's match test: the same two vertices in either direction. */
  predicate Same(e: Edge, f: Edge) {
    (e.a == f.a && e.b == f.b) || (e.a == f.b && e.b == f.a)
  }

  lemma SameIsEquivalence(e: Edge, f: Edge, g: Edge)
    ensures Same(e, e)
    ensures Same(e, f) ==> Same(f, e)
    ensures Same(e, f) && Same(f, g) ==> Same(e, g)
  {
  }

  /** The sequence without its element at position p (`splice(p, 1)`). */
  function Delete<T>(s: seq<T>, p: nat): (r: seq<T>)
    requires p < |s|
    ensures |r| == |s| - 1
    ensures forall x :: 0 <= x < p ==> r[x] == s[x]
    ensures forall x :: p <= x < |r| ==> r[x] == s[x + 1]
  {
    s[..p] + s[p + 1..]
  }

  /** The inner loop: scanning down from position i - 1, the first pair
      that is the same edge as e. */
  function FindCopy(es: seq<Edge>, e: Edge, i: nat): (r: Option<nat>)
    requires i <= |es|
    ensures r.Some? ==> r.value < i && Same(e, es[r.value])
    ensures r.None? ==> forall q :: 0 <= q < i ==> !Same(e, es[q])
    decreases i
  {
    if i == 0 then None
    else if Same(e, es[i - 1]) then Some(i - 1)
    else FindCopy(es, e, i - 1)
  }

  /** The outer loop with its cursor at pair j (the flat index 2j). After a
      match both copies are spliced out but the cursor only moves down by
      one pair, so the next round re-reads the pair that followed the
      removed one; when that was the last pair it reads `undefined`, which
      equals no vertex number, and the round finds no copy. */
  function RemoveFrom(es: seq<Edge>, j: nat): (r: seq<Edge>)
    requires j <= |es| + 1
    decreases j
  {
    if j == 0 then es
    else if j - 1 >= |es| then RemoveFrom(es, j - 1)
    else
      match FindCopy(es, es[j - 1], j - 1)
      case None => RemoveFrom(es, j - 1)
      case Some(i) => RemoveFrom(Delete(Delete(es, j - 1), i), j - 1)
  }

  function RemoveDuplicatedEdges(es: seq<Edge>): seq<Edge> {
    RemoveFrom(es, |es|)
  }

  // ---------------------------------------------------------------------
  // What the loop achieves
  // ---------------------------------------------------------------------

  /** How many pairs of `s` are the edge u, in either direction. */
  function CountSame(s: seq<Edge>, u: Edge): nat {
    if |s| == 0 then 0 else (if Same(s[0], u) then 1 else 0) + CountSame(s[1..], u)
  }

  lemma {:induction false} CountSameAppend(a: seq<Edge>, b: seq<Edge>, u: Edge)
    ensures CountSame(a + b, u) == CountSame(a, u) + CountSame(b, u)
    decreases |a|
  {
    if |a| == 0 {
      assert a + b == b;
    } else {
      assert (a + b)[1..] == a[1..] + b;
      CountSameAppend(a[1..], b, u);
    }
  }

  lemma CountSameDelete(s: seq<Edge>, p: nat, u: Edge)
    requires p < |s|
    ensures CountSame(Delete(s, p), u) + (if Same(s[p], u) then 1 else 0) == CountSame(s, u)
  {
    CountSameAppend(s[..p], s[p + 1..], u);
    CountSameAppend(s[..p], [s[p]], u);
    CountSameAppend(s[..p] + [s[p]], s[p + 1..], u);
    assert s[..p] + [s[p]] + s[p + 1..] == s;
  }

  /** No two pairs of `s` from position j on have a copy anywhere before them. */
  predicate UniqueFrom(s: seq<Edge>, j: nat) {
    forall x, t :: 0 <= x < t < |s| && t >= j ==> !Same(s[x], s[t])
  }

  /** Removing a matched pair and its copy keeps the counts' parity. */
  lemma ParityStep(es: seq<Edge>, p: nat, i: nat, u: Edge)
    requires i < p < |es| && Same(es[p], es[i])
    ensures CountSame(Delete(Delete(es, p), i), u) % 2 == CountSame(es, u) % 2
  {
    CountSameDelete(es, p, u);
    CountSameDelete(Delete(es, p), i, u);
    SameIsEquivalence(es[p], es[i], u);
    SameIsEquivalence(es[i], es[p], u);
  }

  /** Every pair that survives the matching rounds keeps the property that
      no copy of it comes earlier. */
  lemma UniqueStep(es: seq<Edge>, p: nat, i: nat)
    requires i < p < |es| && UniqueFrom(es, p + 1)
    ensures UniqueFrom(Delete(Delete(es, p), i), p)
  {
    var d := Delete(Delete(es, p), i);
    forall x, t | 0 <= x < t < |d| && t >= p
      ensures !Same(d[x], d[t])
    {
      assert d[t] == es[t + 2];
      var x2 := if x < i then x else if x < p - 1 then x + 1 else x + 2;
      assert d[x] == es[x2];
    }
  }

  lemma {:induction false} RemoveFromSpec(es: seq<Edge>, j: nat, u: Edge)
    requires j <= |es| + 1 && UniqueFrom(es, j)
    ensures UniqueFrom(RemoveFrom(es, j), 0)
    ensures CountSame(RemoveFrom(es, j), u) % 2 == CountSame(es, u) % 2
    decreases j
  {
    if j == 0 {
    } else if j - 1 >= |es| {
      RemoveFromSpec(es, j - 1, u);
    } else {
      match FindCopy(es, es[j - 1], j - 1)
      case None =>
        RemoveFromSpec(es, j - 1, u);
      case Some(i) =>
        SameIsEquivalence(es[j - 1], es[i], u);
        UniqueStep(es, j - 1, i);
        ParityStep(es, j - 1, i, u);
        RemoveFromSpec(Delete(Delete(es, j - 1), i), j - 1, u);
    }
  }

  lemma {:induction false} RemoveFromMembers(es: seq<Edge>, j: nat, x: Edge)
    requires j <= |es| + 1
    ensures x in RemoveFrom(es, j) ==> x in es
    decreases j
  {
    if j == 0 {
    } else if j - 1 >= |es| {
      RemoveFromMembers(es, j - 1, x);
    } else {
      match FindCopy(es, es[j - 1], j - 1)
      case None =>
        RemoveFromMembers(es, j - 1, x);
      case Some(i) =>
        var d := Delete(Delete(es, j - 1), i);
        RemoveFromMembers(d, j - 1, x);
        if x in d {
          var t :| 0 <= t < |d| && d[t] == x;
          var t2 := if t < i then t else if t < j - 2 then t + 1 else t + 2;
          assert es[t2] == x;
        }
    }
  }

  /** A sequence without repeated edges holds each edge at most once. */
  lemma {:induction false} UniqueCountsAtMostOne(s: seq<Edge>, u: Edge)
    requires UniqueFrom(s, 0)
    ensures CountSame(s, u) <= 1
    decreases |s|
  {
    if |s| > 0 {
      assert UniqueFrom(s[1..], 0) by {
        forall x, t | 0 <= x < t < |s[1..]|
          ensures !Same(s[1..][x], s[1..][t])
        {
          assert s[1..][x] == s[x + 1] && s[1..][t] == s[t + 1];
        }
      }
      UniqueCountsAtMostOne(s[1..], u);
      if Same(s[0], u) {
        forall q | 0 <= q < |s[1..]|
          ensures !Same(s[1..][q], u)
        {
          assert s[1..][q] == s[q + 1];
          assert !Same(s[0], s[q + 1]);
          SameIsEquivalence(s[0], u, s[q + 1]);
          SameIsEquivalence(s[q + 1], u, s[0]);
        }
        NoneSame(s[1..], u);
      }
    }
  }

  lemma {:induction false} NoneSame(s: seq<Edge>, u: Edge)
    requires forall q :: 0 <= q < |s| ==> !Same(s[q], u)
    ensures CountSame(s, u) == 0
    decreases |s|
  {
    if |s| > 0 {
      NoneSame(s[1..], u);
    }
  }

  /** RemoveDuplicatedEdges leaves no edge twice (in either direction),
      keeps each edge exactly as often as the parity of its occurrences
      (an edge that occurs once survives, one that occurs twice is gone),
      and invents no pair. */
  lemma RemoveDuplicatedEdgesSpec(es: seq<Edge>)
    ensures UniqueFrom(RemoveDuplicatedEdges(es), 0)
    ensures forall u :: CountSame(RemoveDuplicatedEdges(es), u) == CountSame(es, u) % 2
    ensures forall x :: x in RemoveDuplicatedEdges(es) ==> x in es
  {
    var r := RemoveDuplicatedEdges(es);
    forall u
      ensures UniqueFrom(r, 0) && CountSame(r, u) == CountSame(es, u) % 2
    {
      RemoveFromSpec(es, |es|, u);
      UniqueCountsAtMostOne(r, u);
    }
    if |es| == 0 {
      assert UniqueFrom(r, 0);
    } else {
      RemoveFromSpec(es, |es|, es[0]);
    }
    forall x | x in r
      ensures x in es
    {
      RemoveFromMembers(es, |es|, x);
    }
  }
}
