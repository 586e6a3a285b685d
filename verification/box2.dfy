/** Two-dimensional axis-aligned bounding boxes. Corners may be infinite:
    the empty box has min (+inf, +inf) and max (-inf, -inf). */
module Box2 {
  import opened Wrappers
  import opened ExtReal
  import opened Vector2

  datatype EVec2 = EVec2(x: Ext, y: Ext)

  datatype Box = Box(min: EVec2, max: EVec2)

  function Lift(p: Vec2): EVec2 {
    EVec2(Fin(p.x), Fin(p.y))
  }

  function EMin(a: EVec2, b: EVec2): EVec2 {
    EVec2(ExtReal.Min(a.x, b.x), ExtReal.Min(a.y, b.y))
  }

  function EMax(a: EVec2, b: EVec2): EVec2 {
    EVec2(ExtReal.Max(a.x, b.x), ExtReal.Max(a.y, b.y))
  }

  /** Componentwise `a <= b`. */
  predicate ELe(a: EVec2, b: EVec2) {
    Le(a.x, b.x) && Le(a.y, b.y)
  }

  /** The box `empty()` produces, and the default-constructed box. */
  function Empty(): (b: Box)
    ensures forall p: Vec2 :: !ContainsPoint(b, p)
  {
    Box(EVec2(PosInf, PosInf), EVec2(NegInf, NegInf))
  }

  predicate ContainsPoint(b: Box, p: Vec2) {
    !(Lt(Fin(p.x), b.min.x) || Lt(b.max.x, Fin(p.x))
      || Lt(Fin(p.y), b.min.y) || Lt(b.max.y, Fin(p.y)))
  }

  lemma NotLtIsLe(a: Ext, b: Ext)
    ensures !Lt(b, a) <==> Le(a, b)
  {
    LtIsStrictTotalOrder(a, b, a);
  }

  /** A point is inside exactly when it lies between the corners. */
  lemma ContainsPointBetweenCorners(b: Box, p: Vec2)
    ensures ContainsPoint(b, p) <==> ELe(b.min, Lift(p)) && ELe(Lift(p), b.max)
  {
    NotLtIsLe(b.min.x, Fin(p.x));
    NotLtIsLe(b.min.y, Fin(p.y));
    NotLtIsLe(Fin(p.x), b.max.x);
    NotLtIsLe(Fin(p.y), b.max.y);
  }

  predicate ContainsBox(b: Box, c: Box) {
    Le(b.min.x, c.min.x) && Le(c.max.x, b.max.x)
    && Le(b.min.y, c.min.y) && Le(c.max.y, b.max.y)
  }

  predicate Intersects(b: Box, c: Box) {
    !(Lt(c.max.x, b.min.x) || Lt(b.max.x, c.min.x)
      || Lt(c.max.y, b.min.y) || Lt(b.max.y, c.min.y))
  }

  /** A box whose min does not exceed its max on either axis. */
  predicate NonEmpty(b: Box) {
    ELe(b.min, b.max)
  }

  /** Grows the box to take in `p`. */
  function Expand(b: Box, p: Vec2): (r: Box)
    ensures ContainsPoint(r, p)
    ensures ContainsBox(r, b)
    ensures forall q: Vec2 :: ContainsPoint(b, q) ==> ContainsPoint(r, q)
  {
    var r := Box(EMin(b.min, Lift(p)), EMax(b.max, Lift(p)));
    ContainsPointBetweenCorners(r, p);
    forall q: Vec2 | ContainsPoint(b, q) ensures ContainsPoint(r, q) {
      ContainsPointBetweenCorners(b, q);
      ContainsPointBetweenCorners(r, q);
      LeTransitive(r.min.x, b.min.x, Fin(q.x));
      LeTransitive(r.min.y, b.min.y, Fin(q.y));
      LeTransitive(Fin(q.x), b.max.x, r.max.x);
      LeTransitive(Fin(q.y), b.max.y, r.max.y);
    }
    r
  }

  lemma LeTransitive(a: Ext, b: Ext, c: Ext)
    requires Le(a, b) && Le(b, c)
    ensures Le(a, c)
  {
    LtIsStrictTotalOrder(a, b, c);
  }

  /** Grows the box to take in all of `c`. */
  function Merge(b: Box, c: Box): (r: Box)
    ensures ContainsBox(r, b) && ContainsBox(r, c)
  {
    Box(EMin(b.min, c.min), EMax(b.max, c.max))
  }

  /** The merged box is the least box containing both: any box holding
      both arguments holds their merge. */
  lemma MergeIsLeast(b: Box, c: Box, d: Box)
    requires ContainsBox(d, b) && ContainsBox(d, c)
    ensures ContainsBox(d, Merge(b, c))
  {
  }

  /** The empty box expanded by every point in order. */
  function SetFromPoints(pts: seq<Vec2>): (r: Box)
    ensures forall i :: 0 <= i < |pts| ==> ContainsPoint(r, pts[i])
  {
    if |pts| == 0 then Empty()
    else
      var prior := SetFromPoints(pts[..|pts| - 1]);
      var r := Expand(prior, pts[|pts| - 1]);
      assert forall i :: 0 <= i < |pts| - 1 ==> pts[..|pts| - 1][i] == pts[i];
      r
  }

  /** For points p_0..p_{n-1}, n >= 1, the box corners are attained
      coordinates: each corner coordinate equals some point's coordinate and
      bounds every point's coordinate. */
  lemma {:induction false} SetFromPointsTight(pts: seq<Vec2>)
    requires |pts| >= 1
    ensures var r := SetFromPoints(pts);
      (exists i :: 0 <= i < |pts| && r.min.x == Fin(pts[i].x))
      && (exists i :: 0 <= i < |pts| && r.min.y == Fin(pts[i].y))
      && (exists i :: 0 <= i < |pts| && r.max.x == Fin(pts[i].x))
      && (exists i :: 0 <= i < |pts| && r.max.y == Fin(pts[i].y))
      && NonEmpty(r)
  {
    var n := |pts|;
    var r := SetFromPoints(pts);
    var last := pts[n - 1];
    if n == 1 {
      assert SetFromPoints(pts[..0]) == Empty();
      assert r == Expand(Empty(), last);
      assert r == Box(Lift(last), Lift(last));
    } else {
      var init := pts[..n - 1];
      SetFromPointsTight(init);
      var prior := SetFromPoints(init);
      assert r == Expand(prior, last);
      var ix :| 0 <= ix < n - 1 && prior.min.x == Fin(init[ix].x);
      var iy :| 0 <= iy < n - 1 && prior.min.y == Fin(init[iy].y);
      var jx :| 0 <= jx < n - 1 && prior.max.x == Fin(init[jx].x);
      var jy :| 0 <= jy < n - 1 && prior.max.y == Fin(init[jy].y);
      assert init[ix] == pts[ix] && init[iy] == pts[iy];
      assert init[jx] == pts[jx] && init[jy] == pts[jy];
      LeTransitive(r.min.x, prior.min.x, prior.max.x);
      LeTransitive(r.min.x, prior.max.x, r.max.x);
      LeTransitive(r.min.y, prior.min.y, prior.max.y);
      LeTransitive(r.min.y, prior.max.y, r.max.y);
    }
  }

  /** Componentwise equality of the corners. */
  predicate Equals(b: Box, c: Box) {
    b.min == c.min && b.max == c.max
  }

  /** `copy` as written: min is copied, but max becomes the componentwise
      maximum of the old max and the source's max. */
  function Copy(target: Box, src: Box): (r: Box)
    ensures r.min == src.min
    ensures ContainsBox(r, src)
    ensures ELe(target.max, r.max) && ELe(src.max, r.max)
    ensures (r.max.x == target.max.x || r.max.x == src.max.x) && (r.max.y == target.max.y || r.max.y == src.max.y)
  {
    Box(src.min, EMax(target.max, src.max))
  }

  /** `copy` as evidently intended: both corners are copied. */
  function CopyCorrected(target: Box, src: Box): (r: Box)
    ensures Equals(r, src)
  {
    src
  }

  /** Copying onto a box whose max is beyond the source's leaves that max in
      place: copying the unit box onto the box [0,5]x[0,5] gives [0,5]x[0,5]. */
  lemma CopyCounterexample()
    ensures var target := Box(EVec2(Fin(0.0), Fin(0.0)), EVec2(Fin(5.0), Fin(5.0)));
      var src := Box(EVec2(Fin(0.0), Fin(0.0)), EVec2(Fin(1.0), Fin(1.0)));
      !Equals(Copy(target, src), src) && Copy(target, src) == target
  {
  }

  /** `clone` copies onto a fresh empty box, whose max is (-inf, -inf), so the
      flawed copy still reproduces the source there. */
  lemma CloneIsExact(b: Box)
    ensures Equals(Copy(Empty(), b), b)
  {
  }

  predicate Finite(b: Box) {
    b.min.x.Fin? && b.min.y.Fin? && b.max.x.Fin? && b.max.y.Fin?
  }

  function Lower(b: Box): Vec2
    requires Finite(b)
  {
    Vec2(b.min.x.v, b.min.y.v)
  }

  function Upper(b: Box): Vec2
    requires Finite(b)
  {
    Vec2(b.max.x.v, b.max.y.v)
  }

  /** (min + max) / 2; `None` when a corner is infinite (the source then
      yields an infinite or NaN coordinate). */
  function GetCenter(b: Box): (r: Option<Vec2>)
    ensures r.Some? <==> Finite(b)
    ensures r.Some? ==> Sub(r.value, Lower(b)) == Sub(Upper(b), r.value)
  {
    if Finite(b) then Some(MulScalar(Add(Lower(b), Upper(b)), 0.5)) else None
  }

  /** max - min; `None` when a corner is infinite. */
  function GetSize(b: Box): (r: Option<Vec2>)
    ensures r.Some? <==> Finite(b)
  {
    if Finite(b) then Some(Sub(Upper(b), Lower(b))) else None
  }

  /** A finite non-empty box contains its center, has a non-negative size,
      min + size gives back max, and the center is min plus half the size. */
  lemma CenterAndSize(b: Box)
    requires NonEmpty(b) && Finite(b)
    ensures ContainsPoint(b, GetCenter(b).value)
    ensures GetSize(b).value.x >= 0.0 && GetSize(b).value.y >= 0.0
    ensures Add(Lower(b), GetSize(b).value) == Upper(b)
    ensures Add(Lower(b), MulScalar(GetSize(b).value, 0.5)) == GetCenter(b).value
  {
  }

  /** `scale(s)`: both corners times s. `None` when an infinite corner
      coordinate is scaled by zero, which the source turns into NaN. */
  function Scale(b: Box, s: real): (r: Option<Box>)
    ensures r.None? <==> s == 0.0 && !Finite(b)
    ensures r.Some? && Finite(b) ==> Finite(r.value)
  {
    var lo := ScaleCorner(b.min, s);
    var hi := ScaleCorner(b.max, s);
    if lo.None? || hi.None? then None else Some(Box(lo.value, hi.value))
  }

  function ScaleCorner(a: EVec2, s: real): (r: Option<EVec2>)
    ensures r.None? <==> s == 0.0 && !(a.x.Fin? && a.y.Fin?)
    ensures r.Some? ==> r.value.x == ExtReal.Scale(a.x, s).value && r.value.y == ExtReal.Scale(a.y, s).value
  {
    var x := ExtReal.Scale(a.x, s);
    var y := ExtReal.Scale(a.y, s);
    if x.None? || y.None? then None else Some(EVec2(x.value, y.value))
  }

  lemma ScaleCorners(b: Box, s: real)
    requires s != 0.0
    ensures Scale(b, s).Some?
    ensures var r := Scale(b, s).value; r.min.x == ExtReal.Scale(b.min.x, s).value && r.max.x == ExtReal.Scale(b.max.x, s).value && r.min.y == ExtReal.Scale(b.min.y, s).value && r.max.y == ExtReal.Scale(b.max.y, s).value
  {
  }

  lemma ContainsPointAxes(b: Box, p: Vec2)
    ensures ContainsPoint(b, p) <==> Between(b.min.x, p.x, b.max.x) && Between(b.min.y, p.y, b.max.y)
  {
  }

  /** Scaling by a positive factor scales the contained points: p is in the
      box exactly when s p is in the scaled box. */
  lemma ScalePositive(b: Box, s: real, p: Vec2)
    requires s > 0.0
    ensures Scale(b, s).Some?
    ensures ContainsPoint(Scale(b, s).value, MulScalar(p, s)) <==> ContainsPoint(b, p)
  {
    ScaleCorners(b, s);
    var r := Scale(b, s).value;
    var q := MulScalar(p, s);
    ScaleBetweenAt(b.min.x, b.max.x, p.x, s, r.min.x, r.max.x, q.x);
    ScaleBetweenAt(b.min.y, b.max.y, p.y, s, r.min.y, r.max.y, q.y);
    ContainsPointAxes(b, p);
    ContainsPointAxes(r, q);
  }

  /** Scaling by a negative factor swaps the order of the corners, so a box
      with some extent along x contains no point afterwards. */
  lemma ScaleNegativeEmpties(b: Box, s: real, q: Vec2)
    requires s < 0.0 && Lt(b.min.x, b.max.x)
    ensures Scale(b, s).Some?
    ensures !ContainsPoint(Scale(b, s).value, q)
  {
    ScaleOrder(b.min.x, b.max.x, s);
    ScaleOrder(b.min.y, b.max.y, s);
    var r := Scale(b, s).value;
    LtIsStrictTotalOrder(r.max.x, r.min.x, Fin(q.x));
    LtIsStrictTotalOrder(Fin(q.x), r.max.x, r.min.x);
    LtIsStrictTotalOrder(r.max.x, Fin(q.x), r.min.x);
  }

  /** Intersection is symmetric. */
  lemma IntersectsSymmetric(b: Box, c: Box)
    ensures Intersects(b, c) <==> Intersects(c, b)
  {
  }

  /** A box intersects every non-empty box it contains. */
  lemma ContainsBoxIntersects(b: Box, c: Box)
    requires ContainsBox(b, c) && NonEmpty(c)
    ensures Intersects(b, c)
  {
    LeTransitive(b.min.x, c.min.x, c.max.x);
    LeTransitive(b.min.y, c.min.y, c.max.y);
    LeTransitive(c.min.x, c.max.x, b.max.x);
    LeTransitive(c.min.y, c.max.y, b.max.y);
    NotLtIsLe(b.min.x, c.max.x);
    NotLtIsLe(b.min.y, c.max.y);
    NotLtIsLe(c.min.x, b.max.x);
    NotLtIsLe(c.min.y, b.max.y);
  }
}
