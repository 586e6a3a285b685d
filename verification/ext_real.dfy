/** Reals extended with the two infinities, as they appear in the corners
    of an empty bounding box. No NaN arises: boxes only compare and take
    minima and maxima of these values, and scaling one that is infinite by
    zero (NaN) is reported as `None`. */
module ExtReal {
  import opened Wrappers

  datatype Ext = NegInf | Fin(v: real) | PosInf

  /** JavaScript `<` on finite or infinite numbers. */
  predicate Lt(a: Ext, b: Ext) {
    match (a, b)
    case (NegInf, NegInf) => false
    case (NegInf, _) => true
    case (Fin(x), Fin(y)) => x < y
    case (Fin(_), PosInf) => true
    case (_, _) => false
  }

  predicate Le(a: Ext, b: Ext) {
    Lt(a, b) || a == b
  }

  lemma LtIsStrictTotalOrder(a: Ext, b: Ext, c: Ext)
    ensures !Lt(a, a)
    ensures Lt(a, b) && Lt(b, c) ==> Lt(a, c)
    ensures Lt(a, b) || a == b || Lt(b, a)
  {
  }

  /** The `if (this.x > v.x) this.x = v.x` update of Vector.min. */
  function Min(a: Ext, b: Ext): (r: Ext)
    ensures Le(r, a) && Le(r, b)
    ensures r == a || r == b
  {
    if Lt(b, a) then b else a
  }

  /** The `if (this.x < v.x) this.x = v.x` update of Vector.max. */
  function Max(a: Ext, b: Ext): (r: Ext)
    ensures Le(a, r) && Le(b, r)
    ensures r == a || r == b
  {
    if Lt(a, b) then b else a
  }

  /** `x *= s`: an infinity times a negative factor changes sign, and times
      zero it is NaN, reported as `None`. */
  function Scale(a: Ext, s: real): (r: Option<Ext>)
    ensures r.None? <==> !a.Fin? && s == 0.0
    ensures a.Fin? ==> r == Some(Fin(a.v * s))
  {
    if a.Fin? then Some(Fin(a.v * s))
    else if s == 0.0 then None
    else if (s > 0.0) == a.PosInf? then Some(PosInf) else Some(NegInf)
  }

  lemma ProductOrder(x: real, y: real, s: real)
    ensures s > 0.0 ==> (x < y <==> x * s < y * s)
    ensures s < 0.0 ==> (x < y <==> y * s < x * s)
  {
    if s > 0.0 {
      if x < y { assert y * s - x * s == (y - x) * s; }
      if x * s < y * s { assert (y - x) * s == y * s - x * s; }
    }
    if s < 0.0 {
      if x < y { assert x * s - y * s == (y - x) * (-s); }
      if y * s < x * s { assert (y - x) * (-s) == x * s - y * s; }
    }
  }

  /** Scaling by a positive factor keeps the order of any two values; by a
      negative factor it reverses it. */
  lemma ScaleOrder(a: Ext, b: Ext, s: real)
    requires s != 0.0
    ensures Scale(a, s).Some? && Scale(b, s).Some?
    ensures s > 0.0 ==> (Lt(a, b) <==> Lt(Scale(a, s).value, Scale(b, s).value))
    ensures s < 0.0 ==> (Lt(a, b) <==> Lt(Scale(b, s).value, Scale(a, s).value))
  {
    if a.Fin? && b.Fin? {
      ProductOrder(a.v, b.v, s);
    }
  }

  /** One axis of a box's point test: lo <= x <= hi. */
  predicate Between(lo: Ext, x: real, hi: Ext) {
    !Lt(Fin(x), lo) && !Lt(hi, Fin(x))
  }

  /** x lies between lo and hi exactly when x s lies between the scaled
      bounds, for a positive factor s. */
  lemma ScaleBetween(lo: Ext, hi: Ext, x: real, s: real)
    requires s > 0.0
    ensures Scale(lo, s).Some? && Scale(hi, s).Some?
    ensures Between(lo, x, hi) <==> Between(Scale(lo, s).value, x * s, Scale(hi, s).value)
  {
    ScaleOrder(Fin(x), lo, s);
    ScaleOrder(hi, Fin(x), s);
  }

  /** ScaleBetween with the scaled values named. */
  lemma ScaleBetweenAt(lo: Ext, hi: Ext, x: real, s: real, slo: Ext, shi: Ext, sx: real)
    requires s > 0.0 && sx == x * s
    requires Scale(lo, s) == Some(slo) && Scale(hi, s) == Some(shi)
    ensures Between(lo, x, hi) <==> Between(slo, sx, shi)
  {
    ScaleBetween(lo, hi, x, s);
  }
}
