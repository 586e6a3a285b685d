/** The monotone-chain convex hull as `ConvexHull.ts` writes it: two stack
    scans (one over the input, one over the input reversed in place) and a
    closing point. The stacks are modelled as sequences of positions into
    the scanned array, so "is a subsequence of the input" becomes "the
    positions are strictly increasing". */
module ConvexHull {
  import opened Wrappers
  import opened Vector2
  import opened SeqUtil

  /** (a - o) x (b - o): positive when o, a, b turn counter-clockwise. */
  function Cross(o: Vec2, a: Vec2, b: Vec2): real {
    (a.x - o.x) * (b.y - o.y) - (a.y - o.y) * (b.x - o.x)
  }

  /** Cross is the vector cross product of the two edges leaving `o`. */
  lemma CrossIsEdgeCross(o: Vec2, a: Vec2, b: Vec2)
    ensures Cross(o, a, b) == Vector2.Cross(Sub(a, o), Sub(b, o))
  {
  }

  /** Every stack entry is a position of `pts`. */
  predicate Within(pts: seq<Vec2>, st: seq<nat>) {
    forall k :: 0 <= k < |st| ==> st[k] < |pts|
  }

  /** Positions listed in strictly increasing order: the points they name
      form an order-preserving subsequence of the scanned array. */
  predicate Increasing(st: seq<nat>) {
    forall i, j :: 0 <= i < j < |st| ==> st[i] < st[j]
  }

  /** The orientation test the scans use. The scans take it as a parameter
      so that their proofs never unfold its (nonlinear) body; the hull
      instantiates it with Cross. */
  type Orient = (Vec2, Vec2, Vec2) -> real

  /** The retained points at k, k+1, k+2 turn strictly left. */
  predicate TurnAt(cross: Orient, pts: seq<Vec2>, st: seq<nat>, k: nat)
    requires Within(pts, st) && k + 2 < |st|
  {
    cross(pts[st[k]], pts[st[k + 1]], pts[st[k + 2]]) > 0.0
  }

  /** Every three consecutive retained points turn strictly left. */
  predicate Turns(cross: Orient, pts: seq<Vec2>, st: seq<nat>)
    requires Within(pts, st)
  {
    forall k: nat :: k + 2 < |st| ==> TurnAt(cross, pts, st, k)
  }

  /** The inner `while`: pop while the top two entries and `p` do not turn
      strictly left. */
  function PopWhile(cross: Orient, pts: seq<Vec2>, st: seq<nat>, p: Vec2): (r: seq<nat>)
    requires Within(pts, st)
    ensures |r| <= |st| && r == st[..|r|]
    ensures |st| >= 1 ==> |r| >= 1
    ensures |r| >= 2 ==> cross(pts[r[|r| - 2]], pts[r[|r| - 1]], p) > 0.0
    decreases |st|
  {
    if |st| >= 2 && cross(pts[st[|st| - 2]], pts[st[|st| - 1]], p) <= 0.0 then
      PopWhile(cross, pts, st[..|st| - 1], p)
    else
      st
  }

  /** The stack after the outer loop has pushed pts[0], ..., pts[l-1]. */
  function Scan(cross: Orient, pts: seq<Vec2>, l: nat): (st: seq<nat>)
    requires l <= |pts|
    ensures Within(pts, st)
    ensures forall k :: 0 <= k < |st| ==> st[k] < l
    decreases l
  {
    if l == 0 then [] else PopWhile(cross, pts, Scan(cross, pts, l - 1), pts[l - 1]) + [l - 1]
  }

  /** The stack never loses its bottom entry and always ends with the
      last pushed point. */
  lemma {:induction false} ScanEnds(cross: Orient, pts: seq<Vec2>, l: nat)
    requires 1 <= l <= |pts|
    ensures |Scan(cross, pts, l)| >= 1
    ensures Scan(cross, pts, l)[0] == 0
    ensures Scan(cross, pts, l)[|Scan(cross, pts, l)| - 1] == l - 1
    decreases l
  {
    if l > 1 {
      ScanEnds(cross, pts, l - 1);
    }
  }

  /** The stack never holds more entries than points pushed. */
  lemma {:induction false} ScanLength(cross: Orient, pts: seq<Vec2>, l: nat)
    requires l <= |pts|
    ensures |Scan(cross, pts, l)| <= l
    decreases l
  {
    if l > 0 {
      ScanLength(cross, pts, l - 1);
    }
  }

  /** The stack lists positions in increasing order. */
  lemma {:induction false} ScanIncreasing(cross: Orient, pts: seq<Vec2>, l: nat)
    requires l <= |pts|
    ensures Increasing(Scan(cross, pts, l))
    decreases l
  {
    if l > 0 {
      ScanIncreasing(cross, pts, l - 1);
    }
  }

  /** Popping keeps the turn property: it only shortens the stack. */
  lemma TurnsPrefix(cross: Orient, pts: seq<Vec2>, s: seq<nat>, q: seq<nat>)
    requires Within(pts, s) && |q| <= |s| && q == s[..|q|]
    requires Turns(cross, pts, s)
    ensures Within(pts, q) && Turns(cross, pts, q)
  {
    forall k: nat | k + 2 < |q|
      ensures TurnAt(cross, pts, q, k)
    {
      assert TurnAt(cross, pts, s, k);
      assert q[k] == s[k] && q[k + 1] == s[k + 1] && q[k + 2] == s[k + 2];
    }
  }

  /** Pushing after the pop loop keeps the turn property. */
  lemma TurnsPush(cross: Orient, pts: seq<Vec2>, q: seq<nat>, i: nat)
    requires Within(pts, q) && i < |pts|
    requires Turns(cross, pts, q)
    requires |q| >= 2 ==> cross(pts[q[|q| - 2]], pts[q[|q| - 1]], pts[i]) > 0.0
    ensures Within(pts, q + [i]) && Turns(cross, pts, q + [i])
  {
    var st := q + [i];
    forall k: nat | k + 2 < |st|
      ensures TurnAt(cross, pts, st, k)
    {
      if k + 2 < |q| {
        assert TurnAt(cross, pts, q, k);
        assert st[k] == q[k] && st[k + 1] == q[k + 1] && st[k + 2] == q[k + 2];
      } else {
        assert st[k] == q[|q| - 2] && st[k + 1] == q[|q| - 1] && st[k + 2] == i;
      }
    }
  }

  /** The pop loop's invariant: the stack always turns strictly left. */
  lemma {:induction false} ScanTurns(cross: Orient, pts: seq<Vec2>, l: nat)
    requires l <= |pts|
    ensures Turns(cross, pts, Scan(cross, pts, l))
    decreases l
  {
    if l > 0 {
      ScanTurns(cross, pts, l - 1);
      var s := Scan(cross, pts, l - 1);
      var q := PopWhile(cross, pts, s, pts[l - 1]);
      TurnsPrefix(cross, pts, s, q);
      TurnsPush(cross, pts, q, l - 1);
    }
  }

  /** The positions a tangent keeps: the final stack with its top popped
      (`Array.prototype.pop` on an empty stack leaves it empty). */
  function Retained(cross: Orient, pts: seq<Vec2>): (idx: seq<nat>)
    ensures Within(pts, idx)
  {
    var st := Scan(cross, pts, |pts|);
    if |st| == 0 then [] else st[..|st| - 1]
  }

  /** The points named by a list of positions. */
  function PointsAt(pts: seq<Vec2>, idx: seq<nat>): (r: seq<Vec2>)
    requires Within(pts, idx)
    ensures |r| == |idx|
    ensures forall k :: 0 <= k < |idx| ==> r[k] == pts[idx[k]]
  {
    seq(|idx|, k requires 0 <= k < |idx| => pts[idx[k]])
  }

  /** UpperTangent (and LowerTangent on the reversed array): one chain. */
  function Chain(cross: Orient, pts: seq<Vec2>): (chain: seq<Vec2>) {
    PointsAt(pts, Retained(cross, pts))
  }

  /** UpperTangent / LowerTangent with the source's orientation test. */
  function Tangent(pts: seq<Vec2>): (chain: seq<Vec2>) {
    Chain(Cross, pts)
  }

  /** c[k], c[k+1], c[k+2] turn strictly left. */
  predicate LeftAt(cross: Orient, c: seq<Vec2>, k: nat)
    requires k + 2 < |c|
  {
    cross(c[k], c[k + 1], c[k + 2]) > 0.0
  }

  /** Every three consecutive points of a polyline turn strictly left. */
  predicate LeftTurns(cross: Orient, c: seq<Vec2>) {
    forall k: nat :: k + 2 < |c| ==> LeftAt(cross, c, k)
  }

  /** A chain is an order-preserving subsequence of its input that never
      contains the input's last position (the final pop removes it). */
  lemma ChainSubsequence(cross: Orient, pts: seq<Vec2>)
    ensures Increasing(Retained(cross, pts))
    ensures forall k :: 0 <= k < |Retained(cross, pts)| ==> Retained(cross, pts)[k] < |pts| - 1
    ensures |pts| >= 1 ==> |Chain(cross, pts)| <= |pts| - 1
  {
    var st := Scan(cross, pts, |pts|);
    ScanIncreasing(cross, pts, |pts|);
    ScanLength(cross, pts, |pts|);
    var idx := Retained(cross, pts);
    assert Increasing(idx) by {
      forall i, j | 0 <= i < j < |idx|
        ensures idx[i] < idx[j]
      {
        assert idx[i] == st[i] && idx[j] == st[j];
      }
    }
    if |pts| > 0 {
      ScanEnds(cross, pts, |pts|);
      forall k | 0 <= k < |idx|
        ensures idx[k] < |pts| - 1
      {
        assert idx[k] == st[k] && st[|st| - 1] == |pts| - 1;
      }
    }
  }

  /** A chain turns strictly left at every interior point. */
  lemma ChainTurns(cross: Orient, pts: seq<Vec2>)
    ensures LeftTurns(cross, Chain(cross, pts))
  {
    var st := Scan(cross, pts, |pts|);
    ScanTurns(cross, pts, |pts|);
    var c := Chain(cross, pts);
    forall k: nat | k + 2 < |c|
      ensures LeftAt(cross, c, k)
    {
      assert TurnAt(cross, pts, st, k);
      assert c[k] == pts[st[k]] && c[k + 1] == pts[st[k + 1]] && c[k + 2] == pts[st[k + 2]];
    }
  }

  /** What ConvexHull returns and the state it leaves the caller's array in
      (LowerTangent reverses it in place). An element pushed from an empty
      array is `undefined`: `None`. */
  datatype HullCall = HullCall(hull: seq<Option<Vec2>>, points: seq<Vec2>)

  function Defined(s: seq<Vec2>): (r: seq<Option<Vec2>>)
    ensures |r| == |s|
    ensures forall k :: 0 <= k < |s| ==> r[k] == Some(s[k])
  {
    seq(|s|, k requires 0 <= k < |s| => Some(s[k]))
  }

  /** ConvexHull: the upper tangent is computed first on the caller's order,
      then the lower tangent reverses the array, so the closing push reads
      the reversed array's first element. */
  function Hull(pts: seq<Vec2>): (c: HullCall)
    ensures c.points == Reverse(pts)
  {
    var upper := Tangent(pts);
    var reversed := Reverse(pts);
    var lower := Tangent(reversed);
    var closing := if |reversed| == 0 then None else Some(reversed[0]);
    HullCall(Defined(lower + upper) + [closing], reversed)
  }

  /** A chain over two or more points starts with the first point; over
      one point it is empty. */
  lemma ChainFirst(cross: Orient, pts: seq<Vec2>)
    requires |pts| >= 1
    ensures |pts| == 1 ==> Chain(cross, pts) == []
    ensures |pts| >= 2 ==> |Chain(cross, pts)| >= 1 && Chain(cross, pts)[0] == pts[0]
  {
    var st := Scan(cross, pts, |pts|);
    ScanEnds(cross, pts, |pts|);
    if |pts| >= 2 {
      assert st[0] != st[|st| - 1];
      assert Retained(cross, pts)[0] == 0;
    } else {
      ScanLength(cross, pts, |pts|);
    }
  }

  /** The hull is lower ++ upper ++ [closing]; the closing point is the
      caller's LAST point, which is also the hull's first, so the result is
      a closed ring. An empty input gives `[undefined]`. */
  lemma HullIsClosed(pts: seq<Vec2>)
    ensures |pts| == 0 ==> Hull(pts).hull == [None]
    ensures |pts| >= 1 ==>
      Hull(pts).hull[|Hull(pts).hull| - 1] == Some(pts[|pts| - 1]) &&
      Hull(pts).hull[0] == Some(pts[|pts| - 1])
  {
    var reversed := Reverse(pts);
    if |pts| >= 1 {
      ChainFirst(Cross, reversed);
      assert reversed[0] == pts[|pts| - 1];
    }
  }

  /** Every element of a non-empty input's hull is one of its points, and
      the hull has at most 2n - 1 entries. */
  lemma HullPoints(pts: seq<Vec2>)
    requires |pts| >= 1
    ensures |Hull(pts).hull| <= 2 * |pts| - 1
    ensures forall k :: 0 <= k < |Hull(pts).hull| ==>
      Hull(pts).hull[k].Some? && Hull(pts).hull[k].value in pts
  {
    var reversed := Reverse(pts);
    var upper := Tangent(pts);
    var lower := Tangent(reversed);
    ChainSubsequence(Cross, pts);
    ChainSubsequence(Cross, reversed);
    var h := Hull(pts).hull;
    forall k | 0 <= k < |h|
      ensures h[k].Some? && h[k].value in pts
    {
      if k < |lower| {
        var i := Retained(Cross, reversed)[k];
        assert h[k] == Some(reversed[i]);
        assert reversed[i] == pts[|pts| - 1 - i];
      } else if k < |lower| + |upper| {
        assert h[k] == Some(upper[k - |lower|]);
      } else {
        assert h[k] == Some(reversed[0]) && reversed[0] == pts[|pts| - 1];
      }
    }
  }
}
