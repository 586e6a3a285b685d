/** Bit patterns: the binary representation of a natural number, the
    shift-and-mask Morton interleaving of two 15-bit patterns, and the
    arithmetic Morton number it computes. */
module ZBits {

  function Bit(n: nat): bv32 {
    if n % 2 == 1 then 1 else 0
  }

  /** The low 32 bits of the binary representation of n: the bit pattern
      ToInt32 gives a non-negative integer. */
  function Bits(n: nat): bv32 {
    if n == 0 then 0 else (Bits(n / 2) << 1) | Bit(n)
  }

  /** The four shift-or-mask steps that move bit i of v to bit 2i. */
  function Spread(v: bv32): bv32 {
    var a := (v | (v << 8)) & 0x00FF00FF;
    var b := (a | (a << 4)) & 0x0F0F0F0F;
    var c := (b | (b << 2)) & 0x33333333;
    (c | (c << 1)) & 0x55555555
  }

  /** Bit i of a 15-bit value lands at bit 2i; the odd bits stay clear. */
  lemma SpreadBits(v: bv32, i: bv32)
    requires v < 0x8000 && i < 15
    ensures (Spread(v) >> (2 * i)) & 1 == (v >> i) & 1
    ensures (Spread(v) >> (2 * i + 1)) & 1 == 0
  {
  }

  /** x in the even bits, y in the odd bits: `x | (y << 1)` after spreading. */
  function Interleave(x: bv32, y: bv32): bv32 {
    Spread(x) | (Spread(y) << 1)
  }

  /** The Morton number of (x, y) by arithmetic: the low bit of x, then the
      low bit of y, then the interleaving of the remaining bits. */
  function Morton(x: nat, y: nat): nat
    decreases x + y
  {
    if x == 0 && y == 0 then 0
    else 4 * Morton(x / 2, y / 2) + 2 * (y % 2) + x % 2
  }

  // ---------------------------------------------------------------------
  // The shift-and-mask code computes the Morton number
  // ---------------------------------------------------------------------

  function Pow2(k: nat): nat {
    if k == 0 then 1 else 2 * Pow2(k - 1)
  }

  function Pow4(k: nat): (r: nat)
    ensures r >= 1
  {
    if k == 0 then 1 else 4 * Pow4(k - 1)
  }

  lemma BitsStep(n: nat)
    ensures Bits(n) == (Bits(n / 2) << 1) | Bit(n)
  {
  }

  /** Seven more low bits: a number below 2^7 fits in seven bits. */
  lemma SevenBits(n: nat)
    requires Bits(n / 128) <= 0x0
    ensures Bits(n) <= 0x7F
  {
    assert n / 1 / 2 == n / 2 && n / 2 / 2 == n / 4 && n / 4 / 2 == n / 8 && n / 8 / 2 == n / 16 && n / 16 / 2 == n / 32 && n / 32 / 2 == n / 64 && n / 64 / 2 == n / 128;
    BitsStep(n / 1);
    BitsStep(n / 2);
    BitsStep(n / 4);
    BitsStep(n / 8);
    BitsStep(n / 16);
    BitsStep(n / 32);
    BitsStep(n / 64);
  }

  /** Seven more low bits on top of seven. */
  lemma FourteenBits(n: nat)
    requires Bits(n / 128) <= 0x7F
    ensures Bits(n) <= 0x3FFF
  {
    assert n / 1 / 2 == n / 2 && n / 2 / 2 == n / 4 && n / 4 / 2 == n / 8 && n / 8 / 2 == n / 16 && n / 16 / 2 == n / 32 && n / 32 / 2 == n / 64 && n / 64 / 2 == n / 128;
    BitsStep(n / 1);
    BitsStep(n / 2);
    BitsStep(n / 4);
    BitsStep(n / 8);
    BitsStep(n / 16);
    BitsStep(n / 32);
    BitsStep(n / 64);
  }

  /** A number below 2^14 has a pattern within 14 bits. */
  lemma Bits14(n: nat)
    requires n < 0x4000
    ensures Bits(n) <= 0x3FFF
  {
    assert n / 128 / 128 == 0;
    SevenBits(n / 128);
    FourteenBits(n);
  }

  /** One interleaving step: prefixing a bit to each input prefixes two
      bits to the output. */
  lemma InterleaveStep(a: bv32, c: bv32, xb: bv32, yb: bv32)
    requires a <= 0x3FFF && c <= 0x3FFF && xb <= 1 && yb <= 1
    ensures Interleave((a << 1) | xb, (c << 1) | yb) == (Interleave(a, c) << 2) | (yb << 1) | xb
  {
  }

  lemma ShiftTwice(b: bv32, xb: bv32, yb: bv32)
    ensures (((b << 1) | yb) << 1) | xb == (b << 2) | (yb << 1) | xb
  {
  }

  /** The pattern of 4m + 2y + x is that of m followed by the bits y, x. */
  lemma BitsQuad(m: nat, x: nat, y: nat)
    requires x <= 1 && y <= 1
    ensures Bits(4 * m + 2 * y + x) == (Bits(m) << 2) | (Bit(y) << 1) | Bit(x)
  {
    var n := 4 * m + 2 * y + x;
    assert n / 2 == 2 * m + y && (2 * m + y) / 2 == m;
    assert Bit(n) == Bit(x) && Bit(2 * m + y) == Bit(y);
    BitsStep(n);
    BitsStep(2 * m + y);
    ShiftTwice(Bits(m), Bit(x), Bit(y));
  }

  /** On 15-bit inputs the shift-and-mask interleaving is exactly the
      pattern of the Morton number. */
  lemma {:induction false} InterleaveIsMorton(x: nat, y: nat)
    requires x < 0x8000 && y < 0x8000
    ensures Interleave(Bits(x), Bits(y)) == Bits(Morton(x, y))
    decreases x + y
  {
    if x == 0 && y == 0 {
      assert Bits(0) == 0;
    } else {
      InterleaveIsMorton(x / 2, y / 2);
      Bits14(x / 2);
      Bits14(y / 2);
      BitsStep(x);
      BitsStep(y);
      InterleaveStep(Bits(x / 2), Bits(y / 2), Bit(x), Bit(y));
      BitsQuad(Morton(x / 2, y / 2), x % 2, y % 2);
      assert Bit(x % 2) == Bit(x) && Bit(y % 2) == Bit(y);
    }
  }

  // ---------------------------------------------------------------------
  // Order
  // ---------------------------------------------------------------------

  /** The defining step holds at the origin as well. */
  lemma MortonStep(x: nat, y: nat)
    ensures Morton(x, y) == 4 * Morton(x / 2, y / 2) + 2 * (y % 2) + x % 2
  {
  }

  lemma QuadLess(m: int, r: int, m2: int, r2: int)
    requires 0 <= r <= 3 && 0 <= r2 <= 3
    requires m < m2 || (m == m2 && r < r2)
    ensures 4 * m + r < 4 * m2 + r2
  {
  }

  /** The Morton number is strictly monotone in the componentwise order. */
  lemma {:induction false} MortonStrict(x: nat, y: nat, x2: nat, y2: nat)
    requires x <= x2 && y <= y2 && (x, y) != (x2, y2)
    ensures Morton(x, y) < Morton(x2, y2)
    decreases x2 + y2
  {
    MortonStep(x, y);
    MortonStep(x2, y2);
    if (x / 2, y / 2) != (x2 / 2, y2 / 2) {
      MortonStrict(x / 2, y / 2, x2 / 2, y2 / 2);
    }
    QuadLess(Morton(x / 2, y / 2), 2 * (y % 2) + x % 2, Morton(x2 / 2, y2 / 2), 2 * (y2 % 2) + x2 % 2);
  }

  lemma MortonMonotone(x: nat, y: nat, x2: nat, y2: nat)
    requires x <= x2 && y <= y2
    ensures Morton(x, y) <= Morton(x2, y2)
  {
    if (x, y) != (x2, y2) {
      MortonStrict(x, y, x2, y2);
    }
  }

  /** Two k-bit coordinates give a 2k-bit number. */
  lemma {:induction false} MortonBound(x: nat, y: nat, k: nat)
    requires x < Pow2(k) && y < Pow2(k)
    ensures Morton(x, y) < Pow4(k)
    decreases k
  {
    if x != 0 || y != 0 {
      assert k > 0 && x / 2 < Pow2(k - 1) && y / 2 < Pow2(k - 1);
      MortonBound(x / 2, y / 2, k - 1);
      assert Morton(x, y) == 4 * Morton(x / 2, y / 2) + 2 * (y % 2) + x % 2;
      assert Pow4(k) == 4 * Pow4(k - 1);
    }
  }

  lemma MortonBelow(x: nat, y: nat)
    requires x < 0x8000 && y < 0x8000
    ensures Morton(x, y) < 0x4000_0000
  {
    assert Pow2(15) == 0x8000 by { assert Pow2(10) == 1024; }
    assert Pow4(15) == 0x4000_0000 by { assert Pow4(5) == 1024; assert Pow4(10) == 1048576; }
    MortonBound(x, y, 15);
  }
}

module ZOrder {
  import opened Vector2
  import opened ZBits

  /** The bounds the tessellator keeps: the lower corner of the points'
      bounding rectangle and `size`, the larger of its two extents. */
  datatype Frame = Frame(minX: real, minY: real, size: real)

  function Min(a: real, b: real): real { if a <= b then a else b }
  function Max(a: real, b: real): real { if a >= b then a else b }

  function LoX(pts: seq<Vec2>): (r: real)
    requires |pts| >= 1
    ensures forall i :: 0 <= i < |pts| ==> r <= pts[i].x
    ensures exists i :: 0 <= i < |pts| && r == pts[i].x
  {
    if |pts| == 1 then pts[0].x
    else
      var m := LoX(pts[1..]);
      assert forall i :: 1 <= i < |pts| ==> pts[i] == pts[1..][i - 1];
      Min(pts[0].x, m)
  }

  function HiX(pts: seq<Vec2>): (r: real)
    requires |pts| >= 1
    ensures forall i :: 0 <= i < |pts| ==> pts[i].x <= r
    ensures exists i :: 0 <= i < |pts| && r == pts[i].x
  {
    if |pts| == 1 then pts[0].x
    else
      var m := HiX(pts[1..]);
      assert forall i :: 1 <= i < |pts| ==> pts[i] == pts[1..][i - 1];
      Max(pts[0].x, m)
  }

  function LoY(pts: seq<Vec2>): (r: real)
    requires |pts| >= 1
    ensures forall i :: 0 <= i < |pts| ==> r <= pts[i].y
    ensures exists i :: 0 <= i < |pts| && r == pts[i].y
  {
    if |pts| == 1 then pts[0].y
    else
      var m := LoY(pts[1..]);
      assert forall i :: 1 <= i < |pts| ==> pts[i] == pts[1..][i - 1];
      Min(pts[0].y, m)
  }

  function HiY(pts: seq<Vec2>): (r: real)
    requires |pts| >= 1
    ensures forall i :: 0 <= i < |pts| ==> pts[i].y <= r
    ensures exists i :: 0 <= i < |pts| && r == pts[i].y
  {
    if |pts| == 1 then pts[0].y
    else
      var m := HiY(pts[1..]);
      assert forall i :: 1 <= i < |pts| ==> pts[i] == pts[1..][i - 1];
      Max(pts[0].y, m)
  }

  /** A point lies in the frame's bounding square. */
  predicate InFrame(f: Frame, p: Vec2) {
    f.minX <= p.x <= f.minX + f.size && f.minY <= p.y <= f.minY + f.size
  }

  /** The constructor's bounds: the rectangle over all points and the larger
      of its width and height. Every point lies in the resulting square. */
  function FrameOf(pts: seq<Vec2>): (f: Frame)
    requires |pts| >= 1
    ensures f.size >= 0.0
    ensures forall i :: 0 <= i < |pts| ==> InFrame(f, pts[i])
  {
    Frame(LoX(pts), LoY(pts), Max(HiX(pts) - LoX(pts), HiY(pts) - LoY(pts)))
  }

  // ---------------------------------------------------------------------
  // The key
  // ---------------------------------------------------------------------

  /** Truncation toward zero, the first step of ToInt32. */
  function Trunc(r: real): int {
    if r >= 0.0 then r.Floor else -((-r).Floor)
  }

  /** ToInt32 read as an unsigned number: truncate, then reduce modulo 2^32. */
  function Coord(r: real): nat {
    Trunc(r) % 0x1_0000_0000
  }

  /** The scaled coordinate `32767 * (v - lo) / size`; a zero size divides
      zero by zero, whose NaN converts to 0. */
  function Scale(v: real, lo: real, size: real): real {
    if size == 0.0 then 0.0 else 32767.0 * (v - lo) / size
  }

  /** `zOrder(x, y)` exactly as written: the shift-and-mask interleaving of
      the two converted coordinates, as a 32-bit pattern. */
  function KeyBits(f: Frame, p: Vec2): bv32 {
    Interleave(Bits(Coord(Scale(p.x, f.minX, f.size))), Bits(Coord(Scale(p.y, f.minY, f.size))))
  }

  /** The key the tessellator orders nodes by, as a number: the Morton
      number of the converted coordinates (`KeyIsBitwise` shows it is the
      value `zOrder` returns for every point of the frame). */
  function Key(f: Frame, p: Vec2): nat {
    Morton(Coord(Scale(p.x, f.minX, f.size)), Coord(Scale(p.y, f.minY, f.size)))
  }

  lemma ScaleRange(v: real, lo: real, size: real)
    requires size >= 0.0 && lo <= v <= lo + size
    ensures 0.0 <= Scale(v, lo, size) <= 32767.0
  {
    if size != 0.0 {
      var t := (v - lo) / size;
      assert 0.0 <= t <= 1.0;
      assert Scale(v, lo, size) == 32767.0 * t;
    }
  }

  lemma ScaleMonotone(v: real, w: real, lo: real, size: real)
    requires size >= 0.0 && v <= w
    ensures Scale(v, lo, size) <= Scale(w, lo, size)
  {
    if size != 0.0 {
      assert (v - lo) / size <= (w - lo) / size;
    }
  }

  /** A scaled coordinate in range converts to a 15-bit number, and the
      conversion keeps order. */
  lemma CoordMonotone(r: real, s: real)
    requires 0.0 <= r <= s <= 32767.0
    ensures Coord(r) <= Coord(s) < 0x8000
  {
    assert Coord(r) == r.Floor && Coord(s) == s.Floor;
  }

  /** For a point of the frame the source's bit pattern is the pattern of
      the key, and the key is below 2^30, where a signed Int32 and its
      unsigned reading agree: comparing keys as numbers is comparing what
      `zOrder` returns. */
  lemma KeyIsBitwise(f: Frame, p: Vec2)
    requires f.size >= 0.0 && InFrame(f, p)
    ensures KeyBits(f, p) == Bits(Key(f, p))
    ensures Key(f, p) < 0x4000_0000
  {
    var sx, sy := Scale(p.x, f.minX, f.size), Scale(p.y, f.minY, f.size);
    ScaleRange(p.x, f.minX, f.size);
    ScaleRange(p.y, f.minY, f.size);
    CoordMonotone(sx, sx);
    CoordMonotone(sy, sy);
    InterleaveIsMorton(Coord(sx), Coord(sy));
    MortonBelow(Coord(sx), Coord(sy));
  }

  /** The key is monotone in each coordinate over the frame: a point that is
      componentwise between two others has a key between theirs. This is
      what lets `isEarHashed` confine its search to the keys of a
      triangle's bounding-box corners. */
  lemma KeyMonotone(f: Frame, p: Vec2, q: Vec2)
    requires f.size >= 0.0 && InFrame(f, p) && InFrame(f, q)
    requires p.x <= q.x && p.y <= q.y
    ensures Key(f, p) <= Key(f, q)
  {
    ScaleRange(p.x, f.minX, f.size);
    ScaleRange(q.x, f.minX, f.size);
    ScaleRange(p.y, f.minY, f.size);
    ScaleRange(q.y, f.minY, f.size);
    ScaleMonotone(p.x, q.x, f.minX, f.size);
    ScaleMonotone(p.y, q.y, f.minY, f.size);
    var px, qx := Scale(p.x, f.minX, f.size), Scale(q.x, f.minX, f.size);
    var py, qy := Scale(p.y, f.minY, f.size), Scale(q.y, f.minY, f.size);
    CoordMonotone(px, qx);
    CoordMonotone(py, qy);
    MortonMonotone(Coord(px), Coord(py), Coord(qx), Coord(qy));
  }
}
