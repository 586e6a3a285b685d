/** Three-dimensional points, only the arithmetic the 3D box and segment
    need. Coordinates are exact reals. */
module Vector3 {
  import Vector2

  datatype Vec3 = Vec3(x: real, y: real, z: real)

  function Add(v: Vec3, w: Vec3): Vec3 {
    Vec3(v.x + w.x, v.y + w.y, v.z + w.z)
  }

  function Sub(v: Vec3, w: Vec3): Vec3 {
    Vec3(v.x - w.x, v.y - w.y, v.z - w.z)
  }

  function MulScalar(v: Vec3, s: real): Vec3 {
    Vec3(v.x * s, v.y * s, v.z * s)
  }

  function Dot(v: Vec3, w: Vec3): real {
    v.x * w.x + v.y * w.y + v.z * w.z
  }

  function LengthSq(v: Vec3): (r: real)
    ensures r >= 0.0
    ensures v == Vec3(0.0, 0.0, 0.0) ==> r == 0.0
  {
    Vector2.SqNonneg(v.x);
    Vector2.SqNonneg(v.y);
    Vector2.SqNonneg(v.z);
    Vector2.Sq(v.x) + Vector2.Sq(v.y) + Vector2.Sq(v.z)
  }

  lemma SubZero(v: Vec3, w: Vec3)
    ensures Sub(v, w) == Vec3(0.0, 0.0, 0.0) <==> v == w
  {
  }

  /** The squared length is zero exactly for the zero vector. */
  lemma LengthSqZero(v: Vec3)
    ensures LengthSq(v) > 0.0 <==> v != Vec3(0.0, 0.0, 0.0)
  {
    if v != Vec3(0.0, 0.0, 0.0) {
      Vector2.SqNonneg(v.x);
      Vector2.SqNonneg(v.y);
      Vector2.SqNonneg(v.z);
      if v.x != 0.0 {
        Vector2.SqPositive(v.x);
      } else if v.y != 0.0 {
        Vector2.SqPositive(v.y);
      } else {
        Vector2.SqPositive(v.z);
      }
    }
  }

  function DistanceSq(v: Vec3, w: Vec3): (r: real)
    ensures r >= 0.0
    ensures v == w ==> r == 0.0
  {
    LengthSq(Sub(v, w))
  }

  lemma DistanceSqSymmetric(v: Vec3, w: Vec3)
    ensures DistanceSq(v, w) == DistanceSq(w, v)
  {
    var a := Sub(v, w);
    var b := Sub(w, v);
    assert Vector2.Sq(a.x) == Vector2.Sq(b.x) && Vector2.Sq(a.y) == Vector2.Sq(b.y) && Vector2.Sq(a.z) == Vector2.Sq(b.z);
  }
}
