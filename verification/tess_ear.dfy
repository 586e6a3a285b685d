/** The two ear tests of the tessellator: `isEar`, which scans the whole
    ring, and `isEarHashed`, which scans only the z-list neighbourhood whose
    keys fall in the key range of the candidate triangle's bounding box.
    `EarHashedIsEar` shows that on a correctly indexed ring the two agree. */
module TessEar {
  import opened Vector2
  import opened SeqUtil
  import opened Triangle2
  import opened LinkedSort
  import opened ZOrder
  import opened TessGeometry
  import opened TessRing

  /** What the tessellator fixes at construction and the ear tests read:
      the clockwise points and the z-order frame. */
  datatype Ctx = Ctx(pts: seq<Vec2>, frame: Frame)

  /** A node's z-order key (`zOrder(p.x, p.y)`). */
  function KeyOf(c: Ctx): nat -> int {
    (i: nat) => Key(c.frame, At(c.pts, i))
  }

  /** The corner at position k turns the wrong way or not at all:
      `computeArea(p.prev, p, p.next) >= 0`. */
  predicate ReflexAt(pts: seq<Vec2>, r: seq<nat>, k: nat)
    requires k < |r|
  {
    var q := CornerAt(pts, r, k);
    GetSignedArea(q.prev, q.at, q.next) >= 0.0
  }

  /** The candidate ear of the current node: prev, node, next. */
  function EarA(pts: seq<Vec2>, r: seq<nat>): Vec2 requires |r| >= 3 { At(pts, r[|r| - 1]) }
  function EarB(pts: seq<Vec2>, r: seq<nat>): Vec2 requires |r| >= 3 { At(pts, r[0]) }
  function EarC(pts: seq<Vec2>, r: seq<nat>): Vec2 requires |r| >= 3 { At(pts, r[1]) }

  /** The current node is a convex corner: `computeArea(a, b, c) < 0`. */
  predicate Convex(pts: seq<Vec2>, r: seq<nat>)
    requires |r| >= 3
  {
    GetSignedArea(EarA(pts, r), EarB(pts, r), EarC(pts, r)) < 0.0
  }

  /** The node at position k spoils the ear: it lies in the closed triangle
      and is itself reflex. */
  predicate Blocks(pts: seq<Vec2>, r: seq<nat>, k: nat)
    requires |r| >= 3 && k < |r|
  {
    InTriangle(EarA(pts, r), EarB(pts, r), EarC(pts, r), At(pts, r[k])) && ReflexAt(pts, r, k)
  }

  // ---------------------------------------------------------------------
  // isEar
  // ---------------------------------------------------------------------

  /** The scan of `isEar` from position k up to (not including) `prev`. */
  function EarScan(pts: seq<Vec2>, r: seq<nat>, k: nat): (ok: bool)
    requires |r| >= 3 && 2 <= k <= |r| - 1
    ensures ok <==> forall j :: k <= j < |r| - 1 ==> !Blocks(pts, r, j)
    decreases |r| - k
  {
    if k == |r| - 1 then true
    else if Blocks(pts, r, k) then false
    else EarScan(pts, r, k + 1)
  }

  /** `isEar`: a convex corner none of whose other ring nodes (from
      next.next round to prev.prev) spoils it. */
  function IsEar(pts: seq<Vec2>, r: seq<nat>): (ok: bool)
    requires |r| >= 3
    ensures ok <==> Convex(pts, r) && forall j :: 2 <= j < |r| - 1 ==> !Blocks(pts, r, j)
  {
    if !Convex(pts, r) then false else EarScan(pts, r, 2)
  }

  // ---------------------------------------------------------------------
  // isEarHashed
  // ---------------------------------------------------------------------

  /** Position of x in s, or |s| when absent. */
  function FindIn(s: seq<nat>, x: nat): (k: nat)
    ensures k <= |s| && (k < |s| <==> x in s)
    ensures k < |s| ==> s[k] == x
  {
    if x in s then IndexOf(s, x) else |s|
  }

  /** The hashed scan's test of node p: not the ear's own neighbours, in
      the triangle, and reflex at its own ring position. */
  predicate HashBlocks(c: Ctx, r: seq<nat>, p: nat)
    requires |r| >= 3
  {
    var k := FindIn(r, p);
    p != r[|r| - 1] && p != r[1] &&
    InTriangle(EarA(c.pts, r), EarB(c.pts, r), EarC(c.pts, r), At(c.pts, p)) &&
    k < |r| && ReflexAt(c.pts, r, k)
  }

  /** The upward scan along `zNext` from z-list position j while keys stay
      at most maxZ. */
  function ScanUp(c: Ctx, r: seq<nat>, z: seq<nat>, j: nat, maxZ: int): bool
    requires |r| >= 3
    decreases if j <= |z| then |z| - j else 0
  {
    if j >= |z| || KeyOf(c)(z[j]) > maxZ then true
    else if HashBlocks(c, r, z[j]) then false
    else ScanUp(c, r, z, j + 1, maxZ)
  }

  /** The downward scan along `zPrev` from z-list position j while keys
      stay at least minZ. */
  function ScanDown(c: Ctx, r: seq<nat>, z: seq<nat>, j: int, minZ: int): bool
    requires |r| >= 3
    decreases j + 1
  {
    if j < 0 || j >= |z| || KeyOf(c)(z[j]) < minZ then true
    else if HashBlocks(c, r, z[j]) then false
    else ScanDown(c, r, z, j - 1, minZ)
  }

  /** The lower-left and upper-right corners of the ear's bounding box. */
  function BoxLo(pts: seq<Vec2>, r: seq<nat>): Vec2
    requires |r| >= 3
  {
    var a, b, cc := EarA(pts, r), EarB(pts, r), EarC(pts, r);
    Vec2(MinOf3(a.x, b.x, cc.x), MinOf3(a.y, b.y, cc.y))
  }

  function BoxHi(pts: seq<Vec2>, r: seq<nat>): Vec2
    requires |r| >= 3
  {
    var a, b, cc := EarA(pts, r), EarB(pts, r), EarC(pts, r);
    Vec2(MaxOf3(a.x, b.x, cc.x), MaxOf3(a.y, b.y, cc.y))
  }

  /** `isEarHashed`: a convex corner with no spoiling node among the z-list
      neighbours, scanned up to the key of the box's upper corner and down
      to the key of its lower corner. */
  function IsEarHashed(c: Ctx, r: seq<nat>, z: seq<nat>): bool
    requires |r| >= 3
  {
    if !Convex(c.pts, r) then false
    else
      var pos: int := FindIn(z, r[0]);
      ScanUp(c, r, z, pos + 1, Key(c.frame, BoxHi(c.pts, r))) &&
      ScanDown(c, r, z, pos - 1, Key(c.frame, BoxLo(c.pts, r)))
  }

  // ---------------------------------------------------------------------
  // The two tests agree
  // ---------------------------------------------------------------------

  /** Every node of the ring lies in the z-order frame. */
  predicate Framed(c: Ctx, r: seq<nat>) {
    c.frame.size >= 0.0 && forall x :: x in r ==> InFrame(c.frame, At(c.pts, x))
  }

  lemma {:induction false} ScanUpPasses(c: Ctx, r: seq<nat>, z: seq<nat>, j: nat, maxZ: int)
    requires |r| >= 3
    requires forall i :: j <= i < |z| ==> !HashBlocks(c, r, z[i])
    ensures ScanUp(c, r, z, j, maxZ)
    decreases if j <= |z| then |z| - j else 0
  {
    if j < |z| && KeyOf(c)(z[j]) <= maxZ {
      ScanUpPasses(c, r, z, j + 1, maxZ);
    }
  }

  lemma {:induction false} ScanDownPasses(c: Ctx, r: seq<nat>, z: seq<nat>, j: int, minZ: int)
    requires |r| >= 3
    requires forall i :: 0 <= i <= j && i < |z| ==> !HashBlocks(c, r, z[i])
    ensures ScanDown(c, r, z, j, minZ)
    decreases j + 1
  {
    if 0 <= j < |z| && KeyOf(c)(z[j]) >= minZ {
      ScanDownPasses(c, r, z, j - 1, minZ);
    }
  }

  /** A spoiling node at or above j with key at most maxZ stops the upward
      scan: every key between is no larger, so the scan reaches it. */
  lemma {:induction false} ScanUpFinds(c: Ctx, r: seq<nat>, z: seq<nat>, j: nat, i: nat, maxZ: int)
    requires |r| >= 3 && j <= i < |z| && Sorted(z, KeyOf(c))
    requires HashBlocks(c, r, z[i]) && KeyOf(c)(z[i]) <= maxZ
    ensures !ScanUp(c, r, z, j, maxZ)
    decreases i - j
  {
    if j < i {
      assert KeyOf(c)(z[j]) <= KeyOf(c)(z[i]);
      if !HashBlocks(c, r, z[j]) {
        ScanUpFinds(c, r, z, j + 1, i, maxZ);
      }
    }
  }

  lemma {:induction false} ScanDownFinds(c: Ctx, r: seq<nat>, z: seq<nat>, j: int, i: nat, minZ: int)
    requires |r| >= 3 && i <= j < |z| && Sorted(z, KeyOf(c))
    requires HashBlocks(c, r, z[i]) && KeyOf(c)(z[i]) >= minZ
    ensures !ScanDown(c, r, z, j, minZ)
    decreases j - i
  {
    if i < j {
      assert KeyOf(c)(z[i]) <= KeyOf(c)(z[j]);
      if !HashBlocks(c, r, z[j]) {
        ScanDownFinds(c, r, z, j - 1, i, minZ);
      }
    }
  }

  /** For a node other than the ear's three corners, the hashed test is
      the plain test at the node's ring position, which lies in 2..m-2. */
  lemma HashBlocksAt(c: Ctx, r: seq<nat>, k: nat)
    requires |r| >= 3 && Distinct(r) && 2 <= k < |r| - 1
    ensures FindIn(r, r[k]) == k
    ensures HashBlocks(c, r, r[k]) == Blocks(c.pts, r, k)
  {
  }

  /** Nodes the hashed test can flag are neither the current node nor its
      neighbours, so they sit at ring positions 2..m-2. */
  lemma HashBlocksPosition(c: Ctx, r: seq<nat>, p: nat)
    requires |r| >= 3 && Distinct(r) && p != r[0] && HashBlocks(c, r, p)
    ensures 2 <= FindIn(r, p) < |r| - 1
  {
  }

  /** The box corners lie in the frame when the ear's corners do. */
  lemma BoxFramed(c: Ctx, r: seq<nat>)
    requires |r| >= 3 && Framed(c, r)
    ensures InFrame(c.frame, BoxLo(c.pts, r)) && InFrame(c.frame, BoxHi(c.pts, r))
  {
    assert r[|r| - 1] in r && r[0] in r && r[1] in r;
  }

  /** A spoiling node's key lies in the box's key range. */
  lemma BlockerKeyInRange(c: Ctx, r: seq<nat>, k: nat)
    requires |r| >= 3 && k < |r| && Framed(c, r)
    requires Convex(c.pts, r) && Blocks(c.pts, r, k)
    ensures Key(c.frame, BoxLo(c.pts, r)) <= KeyOf(c)(r[k]) <= Key(c.frame, BoxHi(c.pts, r))
  {
    var p := At(c.pts, r[k]);
    InTriangleBounds(EarA(c.pts, r), EarB(c.pts, r), EarC(c.pts, r), p);
    BoxFramed(c, r);
    assert r[k] in r;
    KeyMonotone(c.frame, BoxLo(c.pts, r), p);
    KeyMonotone(c.frame, p, BoxHi(c.pts, r));
  }

  /** When the plain test accepts, no z-list node other than the current one
      is flagged by the hashed test. */
  lemma NoHashBlocker(c: Ctx, r: seq<nat>, z: seq<nat>, pos: nat)
    requires |r| >= 3 && Distinct(r) && ZIndexed(KeyOf(c), r, z)
    requires pos < |z| && z[pos] == r[0]
    requires forall j :: 2 <= j < |r| - 1 ==> !Blocks(c.pts, r, j)
    ensures forall i :: 0 <= i < |z| && i != pos ==> !HashBlocks(c, r, z[i])
  {
    forall i | 0 <= i < |z| && i != pos
      ensures !HashBlocks(c, r, z[i])
    {
      var p := z[i];
      assert p in r && p != r[0];
      if p != r[|r| - 1] && p != r[1] {
        var k := FindIn(r, p);
        assert 2 <= k < |r| - 1;
        HashBlocksAt(c, r, k);
      }
    }
  }

  /** With no spoiling node the hashed scans both run out clean. */
  lemma HashedAccepts(c: Ctx, r: seq<nat>, z: seq<nat>)
    requires |r| >= 3 && Distinct(r) && ZIndexed(KeyOf(c), r, z)
    requires IsEar(c.pts, r)
    ensures IsEarHashed(c, r, z)
  {
    assert r[0] in r;
    var pos: int := FindIn(z, r[0]);
    NoHashBlocker(c, r, z, pos);
    ScanUpPasses(c, r, z, pos + 1, Key(c.frame, BoxHi(c.pts, r)));
    ScanDownPasses(c, r, z, pos - 1, Key(c.frame, BoxLo(c.pts, r)));
  }

  /** A flagged z-list node other than the current one, with its key in the
      box's key range, stops one of the two scans. */
  lemma HashedRejectsAt(c: Ctx, r: seq<nat>, z: seq<nat>, i: nat)
    requires |r| >= 3 && Convex(c.pts, r) && Sorted(z, KeyOf(c))
    requires i < |z| && FindIn(z, r[0]) != i && HashBlocks(c, r, z[i])
    requires Key(c.frame, BoxLo(c.pts, r)) <= KeyOf(c)(z[i]) <= Key(c.frame, BoxHi(c.pts, r))
    ensures !IsEarHashed(c, r, z)
  {
    var pos: int := FindIn(z, r[0]);
    if i > pos {
      ScanUpFinds(c, r, z, pos + 1, i, Key(c.frame, BoxHi(c.pts, r)));
    } else {
      ScanDownFinds(c, r, z, pos - 1, i, Key(c.frame, BoxLo(c.pts, r)));
    }
  }

  /** A spoiling node at ring position k is found by one of the scans: its
      key is in range and every key between it and the current node's is
      too. */
  lemma HashedRejects(c: Ctx, r: seq<nat>, z: seq<nat>, k: nat)
    requires |r| >= 3 && Distinct(r) && ZIndexed(KeyOf(c), r, z) && Framed(c, r)
    requires Convex(c.pts, r) && 2 <= k < |r| - 1 && Blocks(c.pts, r, k)
    ensures !IsEarHashed(c, r, z)
  {
    assert r[0] in z && r[k] in z;
    HashBlocksAt(c, r, k);
    BlockerKeyInRange(c, r, k);
    var i := FindIn(z, r[k]);
    assert z[i] == r[k] && r[k] != r[0];
    HashedRejectsAt(c, r, z, i);
  }

  /** On a ring whose z-list is indexed and whose points lie in the frame,
      the hashed ear test gives exactly the answer of the full scan. */
  lemma EarHashedIsEar(c: Ctx, r: seq<nat>, z: seq<nat>)
    requires |r| >= 3 && Distinct(r) && ZIndexed(KeyOf(c), r, z) && Framed(c, r)
    ensures IsEarHashed(c, r, z) == IsEar(c.pts, r)
  {
    if IsEar(c.pts, r) {
      HashedAccepts(c, r, z);
    } else if Convex(c.pts, r) {
      var k :| 2 <= k < |r| - 1 && Blocks(c.pts, r, k);
      HashedRejects(c, r, z, k);
    }
  }
}
