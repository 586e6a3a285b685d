/** The tessellator's bottom-up merge sort of the z-order list. A list is
    the sequence of its nodes in `zNext` order (`zPrev` is the same order
    read backwards, so the two stay inverse by construction); the node
    keys are given by `key`. */
module LinkedSort {
  import opened SeqUtil

  /** Every element's key is at most every later element's key. */
  predicate Sorted<T>(s: seq<T>, key: T -> int) {
    forall i, j :: 0 <= i < j < |s| ==> key(s[i]) <= key(s[j])
  }

  /** Every key in `s` is at least `b`. */
  predicate AtLeast<T>(s: seq<T>, key: T -> int, b: int) {
    forall i :: 0 <= i < |s| ==> b <= key(s[i])
  }

  /** The elements whose key is `k`, in their order in `s`. */
  function WithKey<T>(s: seq<T>, key: T -> int, k: int): seq<T> {
    if |s| == 0 then []
    else (if key(s[0]) == k then [s[0]] else []) + WithKey(s[1..], key, k)
  }

  function Min(a: nat, b: nat): nat {
    if a <= b then a else b
  }

  /** The inner merge loop: take from `p` while its key is `<=` the head of
      `q`, so ties keep `p` first. */
  function Merge<T>(p: seq<T>, q: seq<T>, key: T -> int): (r: seq<T>)
    ensures |r| == |p| + |q|
    decreases |p| + |q|
  {
    if |p| == 0 then q
    else if |q| == 0 then p
    else if key(p[0]) <= key(q[0]) then [p[0]] + Merge(p[1..], q, key)
    else [q[0]] + Merge(p, q[1..], key)
  }

  /** One pass of the outer loop with run length `w`: merge the first two
      runs of at most `w` nodes, then the next two, and so on. */
  function Pass<T>(s: seq<T>, w: nat, key: T -> int): (r: seq<T>)
    requires w >= 1
    ensures |r| == |s|
    decreases |s|
  {
    if |s| == 0 then []
    else
      var a := Min(w, |s|);
      var b := Min(w, |s| - a);
      Merge(s[..a], s[a..a + b], key) + Pass(s[a + b..], w, key)
  }

  /** `numMerges` of a pass over `n` nodes with run length `w`. */
  function Merges(n: nat, w: nat): (m: nat)
    requires w >= 1
    ensures m > 1 <==> n > 2 * w
    ensures n > 0 ==> m >= 1
    decreases n
  {
    if n == 0 then 0 else 1 + Merges(n - Min(2 * w, n), w)
  }

  /** The do-while: pass after pass, doubling the run length, until a pass
      performs at most one merge. */
  function SortFrom<T>(s: seq<T>, w: nat, key: T -> int): (r: seq<T>)
    requires w >= 1
    ensures |r| == |s|
    decreases if w < |s| then |s| - w else 0
  {
    var r := Pass(s, w, key);
    if Merges(|s|, w) > 1 then SortFrom(r, 2 * w, key) else r
  }

  /** `sortLinked(list)`. The list is never empty: the source dereferences
      the tail of the merged list, which an empty list does not have. */
  function SortLinked<T>(s: seq<T>, key: T -> int): (r: seq<T>)
    requires |s| >= 1
    ensures |r| == |s|
  {
    SortFrom(s, 1, key)
  }

  // ---------------------------------------------------------------------
  // Permutation
  // ---------------------------------------------------------------------

  lemma {:induction false} MergeCount<T>(p: seq<T>, q: seq<T>, key: T -> int, y: T)
    ensures Count(Merge(p, q, key), y) == Count(p, y) + Count(q, y)
    decreases |p| + |q|
  {
    if |p| > 0 && |q| > 0 {
      if key(p[0]) <= key(q[0]) {
        MergeCount(p[1..], q, key, y);
        assert ([p[0]] + Merge(p[1..], q, key))[1..] == Merge(p[1..], q, key);
      } else {
        MergeCount(p, q[1..], key, y);
        assert ([q[0]] + Merge(p, q[1..], key))[1..] == Merge(p, q[1..], key);
      }
    }
  }

  lemma CountSplit<T>(s: seq<T>, i: nat, y: T)
    requires i <= |s|
    ensures Count(s, y) == Count(s[..i], y) + Count(s[i..], y)
  {
    assert s == s[..i] + s[i..];
    CountAppend(s[..i], s[i..], y);
  }

  /** The first two runs and the rest of the list, as slices. */
  lemma Runs3<T>(s: seq<T>, a: nat, b: nat)
    requires a + b <= |s|
    ensures s[a..][..b] == s[a..a + b] && s[a..][b..] == s[a + b..]
  {
  }

  lemma {:induction false} PassCount<T>(s: seq<T>, w: nat, key: T -> int, y: T)
    requires w >= 1
    ensures Count(Pass(s, w, key), y) == Count(s, y)
    decreases |s|
  {
    if |s| > 0 {
      var a := Min(w, |s|);
      var b := Min(w, |s| - a);
      var m, t := Merge(s[..a], s[a..a + b], key), Pass(s[a + b..], w, key);
      assert Pass(s, w, key) == m + t;
      PassCount(s[a + b..], w, key, y);
      MergeCount(s[..a], s[a..a + b], key, y);
      CountAppend(m, t, y);
      CountSplit(s, a, y);
      CountSplit(s[a..], b, y);
      Runs3(s, a, b);
    }
  }

  lemma {:induction false} SortFromCount<T>(s: seq<T>, w: nat, key: T -> int, y: T)
    requires w >= 1
    ensures Count(SortFrom(s, w, key), y) == Count(s, y)
    decreases if w < |s| then |s| - w else 0
  {
    PassCount(s, w, key, y);
    if Merges(|s|, w) > 1 {
      SortFromCount(Pass(s, w, key), 2 * w, key, y);
    }
  }

  /** The sorted list holds every node exactly as often as the input. */
  lemma SortLinkedPermutes<T>(s: seq<T>, key: T -> int, y: T)
    requires |s| >= 1
    ensures Count(SortLinked(s, key), y) == Count(s, y)
  {
    SortFromCount(s, 1, key, y);
  }

  // ---------------------------------------------------------------------
  // Order
  // ---------------------------------------------------------------------

  lemma {:induction false} MergeAtLeast<T>(p: seq<T>, q: seq<T>, key: T -> int, b: int)
    requires AtLeast(p, key, b) && AtLeast(q, key, b)
    ensures AtLeast(Merge(p, q, key), key, b)
    decreases |p| + |q|
  {
    if |p| > 0 && |q| > 0 {
      if key(p[0]) <= key(q[0]) {
        MergeAtLeast(p[1..], q, key, b);
      } else {
        MergeAtLeast(p, q[1..], key, b);
      }
    }
  }

  lemma SortedCons<T>(x: T, s: seq<T>, key: T -> int)
    requires Sorted(s, key) && AtLeast(s, key, key(x))
    ensures Sorted([x] + s, key)
  {
    forall i, j | 0 <= i < j < |[x] + s|
      ensures key(([x] + s)[i]) <= key(([x] + s)[j])
    {
      if i > 0 {
        assert ([x] + s)[i] == s[i - 1];
      }
      assert ([x] + s)[j] == s[j - 1];
    }
  }

  lemma SortedTail<T>(s: seq<T>, key: T -> int)
    requires |s| > 0 && Sorted(s, key)
    ensures Sorted(s[1..], key) && AtLeast(s[1..], key, key(s[0]))
  {
    assert forall i :: 0 <= i < |s[1..]| ==> s[1..][i] == s[i + 1];
  }

  /** Merging two sorted runs gives a sorted run. */
  lemma {:induction false} MergeSorted<T>(p: seq<T>, q: seq<T>, key: T -> int)
    requires Sorted(p, key) && Sorted(q, key)
    ensures Sorted(Merge(p, q, key), key)
    decreases |p| + |q|
  {
    if |p| > 0 && |q| > 0 {
      SortedTail(p, key);
      SortedTail(q, key);
      if key(p[0]) <= key(q[0]) {
        MergeSorted(p[1..], q, key);
        AtLeastWeaken(q[1..], key, key(q[0]), key(p[0]));
        AtLeastCons(q, key, key(p[0]));
        MergeAtLeast(p[1..], q, key, key(p[0]));
        SortedCons(p[0], Merge(p[1..], q, key), key);
      } else {
        MergeSorted(p, q[1..], key);
        AtLeastWeaken(p[1..], key, key(p[0]), key(q[0]));
        AtLeastCons(p, key, key(q[0]));
        MergeAtLeast(p, q[1..], key, key(q[0]));
        SortedCons(q[0], Merge(p, q[1..], key), key);
      }
    }
  }

  lemma AtLeastWeaken<T>(s: seq<T>, key: T -> int, b: int, c: int)
    requires AtLeast(s, key, b) && c <= b
    ensures AtLeast(s, key, c)
  {
  }

  lemma AtLeastCons<T>(s: seq<T>, key: T -> int, b: int)
    requires |s| > 0 && b <= key(s[0]) && AtLeast(s[1..], key, b)
    ensures AtLeast(s, key, b)
  {
    assert forall i :: 1 <= i < |s| ==> s[i] == s[1..][i - 1];
  }

  /** The list splits into runs of `w` nodes (the last possibly shorter),
      each sorted: the state between two passes. */
  predicate RunsSorted<T>(s: seq<T>, w: nat, key: T -> int)
    requires w >= 1
    decreases |s|
  {
    if |s| <= w then Sorted(s, key)
    else Sorted(s[..w], key) && RunsSorted(s[w..], w, key)
  }

  /** Runs of one node are trivially sorted: the state before the first pass. */
  lemma {:induction false} SingletonRuns<T>(s: seq<T>, key: T -> int)
    ensures RunsSorted(s, 1, key)
    decreases |s|
  {
    if |s| > 1 {
      SingletonRuns(s[1..], key);
    }
  }

  /** A pass turns sorted runs of `w` into sorted runs of `2w`. */
  lemma {:induction false} PassRuns<T>(s: seq<T>, w: nat, key: T -> int)
    requires w >= 1 && RunsSorted(s, w, key)
    ensures RunsSorted(Pass(s, w, key), 2 * w, key)
    decreases |s|
  {
    if |s| > 0 {
      var a := Min(w, |s|);
      var b := Min(w, |s| - a);
      var m, t := Merge(s[..a], s[a..a + b], key), Pass(s[a + b..], w, key);
      assert Pass(s, w, key) == m + t;
      RunsPieces(s, w, key);
      MergeSorted(s[..a], s[a..a + b], key);
      if a + b < |s| {
        assert a == w && b == w;
        PassRuns(s[a + b..], w, key);
      } else {
        assert |t| == 0 && |m| <= 2 * w;
      }
      RunsAppend(m, t, 2 * w, key);
    }
  }

  lemma RunsAppend<T>(m: seq<T>, rest: seq<T>, w: nat, key: T -> int)
    requires w >= 1 && Sorted(m, key)
    requires (|rest| == 0 && |m| <= w) || (|m| == w && RunsSorted(rest, w, key))
    ensures RunsSorted(m + rest, w, key)
  {
    if |rest| == 0 {
      assert m + rest == m;
    } else {
      assert (m + rest)[..w] == m && (m + rest)[w..] == rest;
    }
  }

  lemma {:induction false} SortFromSorted<T>(s: seq<T>, w: nat, key: T -> int)
    requires w >= 1 && RunsSorted(s, w, key)
    ensures Sorted(SortFrom(s, w, key), key)
    decreases if w < |s| then |s| - w else 0
  {
    PassRuns(s, w, key);
    if Merges(|s|, w) > 1 {
      SortFromSorted(Pass(s, w, key), 2 * w, key);
    }
  }

  /** The sorted list is nondecreasing in key. */
  lemma SortLinkedSorted<T>(s: seq<T>, key: T -> int)
    requires |s| >= 1
    ensures Sorted(SortLinked(s, key), key)
  {
    SingletonRuns(s, key);
    SortFromSorted(s, 1, key);
  }

  // ---------------------------------------------------------------------
  // Stability
  // ---------------------------------------------------------------------

  lemma WithKeyCons<T>(x: T, s: seq<T>, key: T -> int, k: int)
    ensures WithKey([x] + s, key, k) == (if key(x) == k then [x] else []) + WithKey(s, key, k)
  {
    assert ([x] + s)[0] == x && ([x] + s)[1..] == s;
  }

  lemma {:induction false} WithKeyAppend<T>(a: seq<T>, b: seq<T>, key: T -> int, k: int)
    ensures WithKey(a + b, key, k) == WithKey(a, key, k) + WithKey(b, key, k)
    decreases |a|
  {
    if |a| == 0 {
      assert a + b == b;
      assert WithKey(a, key, k) == [];
    } else {
      WithKeyAppend(a[1..], b, key, k);
      assert a + b == [a[0]] + (a[1..] + b);
      assert a == [a[0]] + a[1..];
      WithKeyCons(a[0], a[1..] + b, key, k);
      WithKeyCons(a[0], a[1..], key, k);
    }
  }

  lemma {:induction false} WithKeyAbove<T>(s: seq<T>, key: T -> int, k: int)
    requires AtLeast(s, key, k + 1)
    ensures WithKey(s, key, k) == []
    decreases |s|
  {
    if |s| > 0 {
      WithKeyAbove(s[1..], key, k);
    }
  }

  /** Merging keeps, for every key, the `p` nodes of that key ahead of the
      `q` nodes of that key, each in their own order. */
  lemma ConsJoin<T>(l: seq<T>, h: seq<T>, m: seq<T>, x: seq<T>, y: seq<T>, p: seq<T>)
    requires l == h + m && m == x + y && p == h + x
    ensures l == p + y
  {
  }

  lemma ConsSwap<T>(l: seq<T>, h: seq<T>, m: seq<T>, x: seq<T>, y: seq<T>, q: seq<T>)
    requires l == h + m && m == x + y && q == h + y && (h == [] || x == [])
    ensures l == x + q
  {
  }

  lemma {:induction false} MergeStable<T>(p: seq<T>, q: seq<T>, key: T -> int, k: int)
    requires Sorted(p, key)
    ensures WithKey(Merge(p, q, key), key, k) == WithKey(p, key, k) + WithKey(q, key, k)
    decreases |p| + |q|
  {
    if |p| == 0 {
      assert WithKey(p, key, k) == [];
    } else if |q| == 0 {
      assert WithKey(q, key, k) == [];
    } else if key(p[0]) <= key(q[0]) {
      var h := if key(p[0]) == k then [p[0]] else [];
      SortedTail(p, key);
      MergeStable(p[1..], q, key, k);
      WithKeyCons(p[0], Merge(p[1..], q, key), key, k);
      assert p == [p[0]] + p[1..];
      WithKeyCons(p[0], p[1..], key, k);
      ConsJoin(WithKey(Merge(p, q, key), key, k), h, WithKey(Merge(p[1..], q, key), key, k),
        WithKey(p[1..], key, k), WithKey(q, key, k), WithKey(p, key, k));
    } else {
      var h := if key(q[0]) == k then [q[0]] else [];
      MergeStable(p, q[1..], key, k);
      WithKeyCons(q[0], Merge(p, q[1..], key), key, k);
      assert q == [q[0]] + q[1..];
      WithKeyCons(q[0], q[1..], key, k);
      if key(q[0]) == k {
        SortedTail(p, key);
        AtLeastCons(p, key, k + 1);
        WithKeyAbove(p, key, k);
      }
      ConsSwap(WithKey(Merge(p, q, key), key, k), h, WithKey(Merge(p, q[1..], key), key, k),
        WithKey(p, key, k), WithKey(q[1..], key, k), WithKey(q, key, k));
    }
  }

  lemma WithKeySplit<T>(s: seq<T>, i: nat, key: T -> int, k: int)
    requires i <= |s|
    ensures WithKey(s, key, k) == WithKey(s[..i], key, k) + WithKey(s[i..], key, k)
  {
    assert s == s[..i] + s[i..];
    WithKeyAppend(s[..i], s[i..], key, k);
  }

  /** The first run of a list in sorted runs is sorted, and the list after
      the first two runs is again in sorted runs. */
  lemma RunsPieces<T>(s: seq<T>, w: nat, key: T -> int)
    requires w >= 1 && |s| > 0 && RunsSorted(s, w, key)
    ensures var a := Min(w, |s|); var b := Min(w, |s| - a);
      Sorted(s[..a], key) && Sorted(s[a..a + b], key) && RunsSorted(s[a + b..], w, key)
  {
    var a := Min(w, |s|);
    var b := Min(w, |s| - a);
    if |s| <= w {
      assert s[..a] == s && s[a..a + b] == [] && s[a + b..] == [];
    } else {
      var t := s[w..];
      assert s[..a] == s[..w];
      assert s[a..a + b] == t[..b];
      if |t| <= w {
        assert t[..b] == t && s[a + b..] == [];
      } else {
        assert s[a + b..] == t[w..];
      }
    }
  }

  lemma Join3<T>(l: seq<T>, m: seq<T>, t: seq<T>, p: seq<T>, q: seq<T>, r: seq<T>, s: seq<T>, s2: seq<T>)
    requires l == m + t && m == p + q && t == r && s == p + s2 && s2 == q + r
    ensures l == s
  {
  }

  lemma {:induction false} PassStable<T>(s: seq<T>, w: nat, key: T -> int, k: int)
    requires w >= 1 && RunsSorted(s, w, key)
    ensures WithKey(Pass(s, w, key), key, k) == WithKey(s, key, k)
    decreases |s|
  {
    if |s| > 0 {
      var a := Min(w, |s|);
      var b := Min(w, |s| - a);
      var m, t := Merge(s[..a], s[a..a + b], key), Pass(s[a + b..], w, key);
      assert Pass(s, w, key) == m + t;
      RunsPieces(s, w, key);
      PassStable(s[a + b..], w, key, k);
      MergeStable(s[..a], s[a..a + b], key, k);
      WithKeyAppend(m, t, key, k);
      WithKeySplit(s, a, key, k);
      WithKeySplit(s[a..], b, key, k);
      Runs3(s, a, b);
      Join3(WithKey(m + t, key, k), WithKey(m, key, k), WithKey(t, key, k),
        WithKey(s[..a], key, k), WithKey(s[a..a + b], key, k), WithKey(s[a + b..], key, k),
        WithKey(s, key, k), WithKey(s[a..], key, k));
    }
  }

  lemma {:induction false} SortFromStable<T>(s: seq<T>, w: nat, key: T -> int, k: int)
    requires w >= 1 && RunsSorted(s, w, key)
    ensures WithKey(SortFrom(s, w, key), key, k) == WithKey(s, key, k)
    decreases if w < |s| then |s| - w else 0
  {
    PassStable(s, w, key, k);
    if Merges(|s|, w) > 1 {
      PassRuns(s, w, key);
      SortFromStable(Pass(s, w, key), 2 * w, key, k);
    }
  }

  /** Nodes with equal keys leave the sort in the order they entered it,
      because the merge takes from the first run on ties (`<=`). */
  lemma SortLinkedStable<T>(s: seq<T>, key: T -> int, k: int)
    requires |s| >= 1
    ensures WithKey(SortLinked(s, key), key, k) == WithKey(s, key, k)
  {
    SingletonRuns(s, key);
    SortFromStable(s, 1, key, k);
  }
}
