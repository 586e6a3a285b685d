/** Sequence helpers shared by the polygon, hull and tessellator models. */
module SeqUtil {

  /** The sequence in the opposite order (JavaScript `Array.prototype.reverse`). */
  function Reverse<T>(s: seq<T>): (r: seq<T>)
    ensures |r| == |s|
    ensures forall i :: 0 <= i < |s| ==> r[i] == s[|s| - 1 - i]
  {
    if |s| == 0 then [] else Reverse(s[1..]) + [s[0]]
  }

  /** Reversing twice gives the sequence back. */
  lemma ReverseReverse<T>(s: seq<T>)
    ensures Reverse(Reverse(s)) == s
  {
  }

  /** The elements of `s` are pairwise distinct. */
  predicate Distinct<T(==)>(s: seq<T>) {
    forall i, j :: 0 <= i < j < |s| ==> s[i] != s[j]
  }

  /** Position of `x` in a sequence that contains it. */
  function IndexOf<T(==)>(s: seq<T>, x: T): (k: nat)
    requires x in s
    ensures k < |s| && s[k] == x
    ensures forall j :: 0 <= j < k ==> s[j] != x
  {
    if s[0] == x then 0 else 1 + IndexOf(s[1..], x)
  }

  /** The index before `i` around a ring of `n` elements. */
  function PrevIndex(n: nat, i: nat): nat
    requires i < n
  {
    if i == 0 then n - 1 else i - 1
  }

  /** The index after `i` around a ring of `n` elements. */
  function NextIndex(n: nat, i: nat): nat
    requires i < n
  {
    if i + 1 == n then 0 else i + 1
  }

  /** Number of `true` entries. */
  function CountTrue(f: seq<bool>): nat {
    if |f| == 0 then 0 else (if f[0] then 1 else 0) + CountTrue(f[1..])
  }

  lemma {:induction false} CountTrueAppend(a: seq<bool>, b: seq<bool>)
    ensures CountTrue(a + b) == CountTrue(a) + CountTrue(b)
    decreases |a|
  {
    if |a| == 0 {
      assert a + b == b;
    } else {
      assert (a + b)[1..] == a[1..] + b;
      CountTrueAppend(a[1..], b);
    }
  }

  lemma {:induction false} CountTrueReverse(f: seq<bool>)
    ensures CountTrue(Reverse(f)) == CountTrue(f)
    decreases |f|
  {
    if |f| > 0 {
      assert Reverse(f) == Reverse(f[1..]) + [f[0]];
      CountTrueAppend(Reverse(f[1..]), [f[0]]);
      CountTrueReverse(f[1..]);
      assert [f[0]][1..] == [];
    }
  }

  /** Number of occurrences of `y`. */
  function Count<T(==)>(s: seq<T>, y: T): nat {
    if |s| == 0 then 0 else (if s[0] == y then 1 else 0) + Count(s[1..], y)
  }

  lemma {:induction false} CountAppend<T>(a: seq<T>, b: seq<T>, y: T)
    ensures Count(a + b, y) == Count(a, y) + Count(b, y)
    decreases |a|
  {
    if |a| == 0 {
      assert a + b == b;
    } else {
      assert (a + b)[1..] == a[1..] + b;
      CountAppend(a[1..], b, y);
    }
  }

  lemma {:induction false} CountPositive<T>(s: seq<T>, y: T)
    ensures Count(s, y) > 0 <==> y in s
    decreases |s|
  {
    if |s| > 0 {
      CountPositive(s[1..], y);
      assert s == [s[0]] + s[1..];
    }
  }

  /** No element occurs twice. */
  predicate AtMostOnce<T(==)>(s: seq<T>) {
    forall y :: y in s ==> Count(s, y) <= 1
  }

  lemma AtMostOnceIsDistinct<T>(s: seq<T>)
    requires AtMostOnce(s)
    ensures Distinct(s)
  {
    forall i, j | 0 <= i < j < |s|
      ensures s[i] != s[j]
    {
      var y := s[i];
      assert s == s[..j] + s[j..];
      CountAppend(s[..j], s[j..], y);
      assert s[..j][i] == y;
      CountPositive(s[..j], y);
      assert Count(s, y) <= 1;
      assert Count(s[j..], y) == 0;
      CountPositive(s[j..], y);
      assert s[j..][0] == s[j];
    }
  }

  lemma {:induction false} DistinctIsAtMostOnce<T>(s: seq<T>)
    requires Distinct(s)
    ensures AtMostOnce(s)
    decreases |s|
  {
    if |s| > 0 {
      DistinctIsAtMostOnce(s[1..]);
      CountPositive(s[1..], s[0]);
      assert s[0] !in s[1..];
      forall y | y in s
        ensures Count(s, y) <= 1
      {
        if y != s[0] {
          assert y in s[1..];
        }
      }
    }
  }

  /** The flags `test(s[i], s[i - 1])` of the edges 0..n-1 (edge 0 joins
      the first point and the last). */
  function EdgeFlags<V>(s: seq<V>, test: (V, V) -> bool): (f: seq<bool>)
    ensures |f| == |s|
    ensures forall i :: 0 <= i < |s| ==> f[i] == test(s[i], s[PrevIndex(|s|, i)])
  {
    seq(|s|, i requires 0 <= i < |s| => test(s[i], s[PrevIndex(|s|, i)]))
  }

  lemma EdgeFlagAt<V>(s: seq<V>, test: (V, V) -> bool, k: nat)
    requires 1 <= k < |s|
    ensures EdgeFlags(s, test)[k] == test(s[k], s[k - 1])
  {
  }

  lemma ReversedEdgeFlagAt<V>(s: seq<V>, q: seq<V>, test: (V, V) -> bool, k: nat)
    requires |q| == |s| && forall i :: 0 <= i < |s| ==> q[i] == s[|s| - 1 - i]
    requires forall a, b :: test(a, b) == test(b, a)
    requires 1 <= k < |s|
    ensures EdgeFlags(q, test)[k] == EdgeFlags(s, test)[|s| - k]
  {
    var n := |s|;
    EdgeFlagAt(q, test, k);
    EdgeFlagAt(s, test, n - k);
    assert q[k] == s[n - 1 - k];
    assert q[k - 1] == s[n - k];
  }

  /** For a symmetric edge test, the flags of the reversed ring `q` are the
      first flag followed by the others in reverse. */
  lemma ReversedEdgeFlags<V>(s: seq<V>, q: seq<V>, test: (V, V) -> bool)
    requires |q| == |s| && forall i :: 0 <= i < |s| ==> q[i] == s[|s| - 1 - i]
    requires forall a, b :: test(a, b) == test(b, a)
    requires |s| >= 1
    ensures EdgeFlags(q, test) == [EdgeFlags(s, test)[0]] + Reverse(EdgeFlags(s, test)[1..])
  {
    var n := |s|;
    var f := EdgeFlags(s, test);
    var t := f[1..];
    var g := [f[0]] + Reverse(t);
    forall k | 0 <= k < n
      ensures EdgeFlags(q, test)[k] == g[k]
    {
      if k == 0 {
        assert q[0] == s[n - 1] && q[n - 1] == s[0];
        assert test(s[n - 1], s[0]) == test(s[0], s[n - 1]);
      } else {
        ReversedEdgeFlagAt(s, q, test, k);
        assert g[k] == Reverse(t)[k - 1] == t[n - 1 - k];
      }
    }
  }

  /** A symmetric edge test holds on as many edges of the reversed ring. */
  lemma ReversedEdgeCount<V>(s: seq<V>, test: (V, V) -> bool)
    requires forall a, b :: test(a, b) == test(b, a)
    ensures CountTrue(EdgeFlags(Reverse(s), test)) == CountTrue(EdgeFlags(s, test))
  {
    if |s| >= 1 {
      var f := EdgeFlags(s, test);
      ReversedEdgeFlags(s, Reverse(s), test);
      CountTrueAppend([f[0]], Reverse(f[1..]));
      CountTrueReverse(f[1..]);
      CountTrueAppend([f[0]], f[1..]);
      assert [f[0]] + f[1..] == f;
    }
  }

}
