/** Scalar helpers: tolerance comparison, sign, the 32-bit power-of-two
    test and angle conversion. Numbers are exact reals or integers. */
module Utils {

  /** The single-precision tolerance 2^-23 used as the default epsilon. */
  const EPSILON: real := 1.0 / 8388608.0

  /** The double closest to pi, as JavaScript's Math.PI. */
  const PI: real := 3.141592653589793

  const DEG_TO_RAD: real := PI / 180.0
  const RAD_TO_DEG: real := 180.0 / PI

  function Abs(x: real): real {
    if x < 0.0 then -x else x
  }

  /** Tolerance comparison: a lies strictly inside (b - eps, b + eps). */
  predicate IsNearEqual(a: real, b: real, eps: real) {
    a > b - eps && a < b + eps
  }

  /** Near-equality is exactly a strict bound on the distance. */
  lemma IsNearEqualDistance(a: real, b: real, eps: real)
    ensures IsNearEqual(a, b, eps) <==> Abs(a - b) < eps
    ensures IsNearEqual(a, b, eps) <==> IsNearEqual(b, a, eps)
  {
  }

  /** -1 for negative input and 1 otherwise (zero included). */
  function GetSign(v: real): (r: int)
    ensures r == -1 || r == 1
    ensures r == -1 <==> v < 0.0
    ensures r as real * v == Abs(v)
  {
    if v < 0.0 then -1 else 1
  }

  function Pow2(k: nat): (r: nat)
    ensures r >= 1
  {
    if k == 0 then 1 else 2 * Pow2(k - 1)
  }

  lemma {:induction false} Pow2Add(a: nat, b: nat)
    ensures Pow2(a + b) == Pow2(a) * Pow2(b)
  {
    if a > 0 {
      Pow2Add(a - 1, b);
    }
  }

  lemma Pow2Of32()
    ensures Pow2(32) == 0x1_0000_0000
  {
    assert Pow2(4) == 16;
    Pow2Add(4, 4);
    var p8 := Pow2(8);
    assert p8 == 256;
    Pow2Add(8, 8);
    var p16 := Pow2(16);
    assert p16 == 65536;
    Pow2Add(16, 16);
  }

  /** `v` is 2^k for some k. */
  predicate IsPow2(v: nat) {
    if v == 0 then false
    else if v == 1 then true
    else v % 2 == 0 && IsPow2(v / 2)
  }

  lemma {:induction false} IsPow2Exponent(k: nat)
    ensures IsPow2(Pow2(k))
  {
    if k > 0 {
      IsPow2Exponent(k - 1);
      assert Pow2(k) / 2 == Pow2(k - 1);
    }
  }

  /** The ECMAScript ToUint32 conversion: the low 32 bits of an integer. */
  function ToUint32(v: int): (r: nat)
    ensures r < 0x1_0000_0000
    ensures 0 <= v < 0x1_0000_0000 ==> r == v
  {
    v % 0x1_0000_0000
  }

  /** Bitwise AND of two non-negative integers, bit by bit from the least
      significant one. */
  function BitAnd(a: nat, b: nat): nat {
    if a == 0 || b == 0 then 0
    else 2 * BitAnd(a / 2, b / 2) + (if a % 2 == 1 && b % 2 == 1 then 1 else 0)
  }

  /** The JavaScript test `(val & (val - 1)) === 0 && val !== 0`, with the
      operands of `&` converted to their 32-bit patterns. */
  predicate IsPowerOfTwo(v: int) {
    BitAnd(ToUint32(v), ToUint32(v - 1)) == 0 && v != 0
  }

  lemma {:induction false} BitAndSelf(a: nat)
    ensures BitAnd(a, a) == a
  {
    if a != 0 {
      BitAndSelf(a / 2);
    }
  }

  lemma {:induction false} BitAndPredecessor(v: nat)
    requires v > 0
    ensures BitAnd(v, v - 1) == 0 <==> IsPow2(v)
    decreases v
  {
    if v > 1 {
      if v % 2 == 0 {
        assert (v - 1) / 2 == v / 2 - 1;
        BitAndPredecessor(v / 2);
      } else {
        assert (v - 1) / 2 == v / 2;
        BitAndSelf(v / 2);
      }
    }
  }

  /** On the 32-bit range the test recognises exactly the powers of two. */
  lemma IsPowerOfTwoCorrect(v: int)
    requires 0 <= v < 0x1_0000_0000
    ensures IsPowerOfTwo(v) <==> v > 0 && IsPow2(v)
  {
    if v > 0 {
      BitAndPredecessor(v);
    }
  }

  /** Beyond 32 bits the operands wrap: 3 * 2^32 has all-zero low bits and
      passes the test although it is not a power of two. */
  lemma IsPowerOfTwoWraps()
    ensures IsPowerOfTwo(3 * 0x1_0000_0000)
    ensures !IsPow2(3 * 0x1_0000_0000)
  {
    var v := 3 * 0x1_0000_0000;
    assert ToUint32(v) == 0;
    Pow2Of32();
    IsPow2Exponent(32);
    NotPow2Times3(0x1_0000_0000);
  }

  /** Negative inputs wrap too: -2^31 has the 32-bit pattern of 2^31 and
      passes the test. */
  lemma IsPowerOfTwoNegative()
    ensures IsPowerOfTwo(-0x8000_0000)
  {
    Pow2Of32();
    assert Pow2(32) == 2 * Pow2(31);
    IsPow2Exponent(31);
    assert ToUint32(-0x8000_0000) == 0x8000_0000;
    assert ToUint32(-0x8000_0000 - 1) == 0x8000_0000 - 1;
    BitAndPredecessor(0x8000_0000);
  }

  lemma {:induction false} NotPow2Times3(m: nat)
    requires m >= 1 && IsPow2(m)
    ensures !IsPow2(3 * m)
    decreases m
  {
    if m > 1 {
      NotPow2Times3(m / 2);
      assert (3 * m) / 2 == 3 * (m / 2);
    }
  }

  /** The ECMAScript ToInt32/ToUint32 first step on a finite number:
      truncation toward zero. */
  function Trunc(x: real): (r: int)
    ensures x >= 0.0 ==> r as real <= x < r as real + 1.0
    ensures x < 0.0 ==> r as real - 1.0 < x <= r as real
  {
    if x >= 0.0 then x.Floor else -((-x).Floor)
  }

  /** `IsPowerOfTwo` on any finite JavaScript number: both operands of `&`
      are truncated before their 32-bit patterns are taken. */
  predicate IsPowerOfTwoNumber(v: real) {
    BitAnd(ToUint32(Trunc(v)), ToUint32(Trunc(v - 1.0))) == 0 && v != 0.0
  }

  /** On whole numbers the number test is the integer test. */
  lemma IsPowerOfTwoNumberIntegral(v: int)
    ensures IsPowerOfTwoNumber(v as real) <==> IsPowerOfTwo(v)
  {
    assert Trunc(v as real) == v;
    assert Trunc(v as real - 1.0) == v - 1;
  }

  /** Fractions pass too: 0.3 and 0.3 - 1 both truncate to 0, and 1.5 and
      0.5 truncate to 1 and 0. */
  lemma IsPowerOfTwoFractions()
    ensures IsPowerOfTwoNumber(0.3) && IsPowerOfTwoNumber(1.5)
  {
    assert Trunc(0.3) == 0 && Trunc(0.3 - 1.0) == 0;
    assert Trunc(1.5) == 1 && Trunc(1.5 - 1.0) == 0;
  }

  /** The power-of-two test with no 32-bit conversion of its operands. */
  predicate IsPowerOfTwoCorrected(v: int) {
    v > 0 && BitAnd(v, v - 1) == 0
  }

  /** The corrected test recognises exactly the powers of two, at every
      magnitude, and agrees with the source's test on the 32-bit range. */
  lemma IsPowerOfTwoCorrectedCorrect(v: int)
    ensures IsPowerOfTwoCorrected(v) <==> v > 0 && IsPow2(v)
    ensures 0 <= v < 0x1_0000_0000 ==> (IsPowerOfTwoCorrected(v) <==> IsPowerOfTwo(v))
  {
    if v > 0 {
      BitAndPredecessor(v);
    }
    if 0 <= v < 0x1_0000_0000 {
      IsPowerOfTwoCorrect(v);
    }
  }

  function ToRadians(deg: real): real {
    deg * DEG_TO_RAD
  }

  function ToDegrees(rad: real): real {
    rad * RAD_TO_DEG
  }

  lemma RoundTripScale(d: real, p: real)
    requires p != 0.0
    ensures d * (p / 180.0) * (180.0 / p) == d
    ensures d * (180.0 / p) * (p / 180.0) == d
  {
    assert (p / 180.0) * (180.0 / p) == 1.0;
  }

  /** Degrees -> radians -> degrees is the identity over the reals, and so
      is the other order. */
  lemma AngleRoundTrip(d: real)
    ensures ToDegrees(ToRadians(d)) == d
    ensures ToRadians(ToDegrees(d)) == d
  {
    RoundTripScale(d, PI);
  }
}
