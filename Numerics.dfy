/**
 * The slice of System.Numerics the renderer relies on, over idealised reals:
 * Vector3 arithmetic, Dot, Cross, Reflect, square roots and IEEE +infinity.
 */
module Numerics {

  /** System.Numerics.Vector3 with `real` components in place of `float`. */
  datatype Vector3 = Vector3(x: real, y: real, z: real)

  const Zero: Vector3 := Vector3(0.0, 0.0, 0.0)
  const One: Vector3 := Vector3(1.0, 1.0, 1.0)

  function Add(a: Vector3, b: Vector3): Vector3 {
    Vector3(a.x + b.x, a.y + b.y, a.z + b.z)
  }

  function Sub(a: Vector3, b: Vector3): Vector3 {
    Vector3(a.x - b.x, a.y - b.y, a.z - b.z)
  }

  function Neg(a: Vector3): Vector3 {
    Vector3(-a.x, -a.y, -a.z)
  }

  /** `k * a` (and `a * k`). */
  function Scale(k: real, a: Vector3): Vector3 {
    Vector3(k * a.x, k * a.y, k * a.z)
  }

  /** Component-wise product `a * b`, used to attenuate colours. */
  function Mul(a: Vector3, b: Vector3): Vector3 {
    Vector3(a.x * b.x, a.y * b.y, a.z * b.z)
  }

  function Dot(a: Vector3, b: Vector3): real {
    a.x * b.x + a.y * b.y + a.z * b.z
  }

  function Cross(a: Vector3, b: Vector3): Vector3 {
    Vector3(a.y * b.z - a.z * b.y, a.z * b.x - a.x * b.z, a.x * b.y - a.y * b.x)
  }

  function LengthSquared(v: Vector3): real {
    Dot(v, v)
  }

  /** Vector3.Reflect: `v - 2 (v . n) n`. */
  function Reflect(v: Vector3, n: Vector3): Vector3 {
    Sub(v, Scale(2.0 * Dot(v, n), n))
  }

  /**
   * Division as the renderer performs it. A zero divisor gives an infinity or NaN
   * in IEEE arithmetic; the model has no such values and yields 0 instead.
   */
  function Div(a: real, b: real): (q: real)
    ensures b != 0.0 ==> q * b == a
    ensures b == 0.0 ==> q == 0.0
  {
    if b == 0.0 then 0.0 else a / b
  }

  /** `v / k`, component by component. */
  function DivBy(v: Vector3, k: real): Vector3 {
    Vector3(Div(v.x, k), Div(v.y, k), Div(v.z, k))
  }

  /** What MathF.Sqrt is taken to be: the non-negative square root on non-negative inputs. */
  ghost predicate IsSqrt(sqrt: real -> real) {
    forall x: real :: 0.0 <= x ==> 0.0 <= sqrt(x) && sqrt(x) * sqrt(x) == x
  }

  /**
   * `v` lies strictly inside the unit sphere: the test that ends RandomUtil's rejection loops,
   * and what Metal and Lambertian rely on of their random sample.
   */
  predicate InUnitSphere(v: Vector3) {
    LengthSquared(v) < 1.0
  }

  /** Vector3.Length. */
  function Length(sqrt: real -> real, v: Vector3): real {
    sqrt(LengthSquared(v))
  }

  /** A float bound that may be +infinity (`float.PositiveInfinity`). */
  datatype Limit = Finite(value: real) | PositiveInfinity

  /** `t < limit`. */
  predicate Below(t: real, limit: Limit) {
    limit.PositiveInfinity? || t < limit.value
  }

  /** `a <= b` on limits. */
  predicate AtMost(a: Limit, b: Limit) {
    b.PositiveInfinity? || (a.Finite? && a.value <= b.value)
  }

  // Small facts of real multiplication, stated over distinct variables so that
  // the solver does not have to find them on its own.

  lemma MulZero(a: real, b: real)
    ensures a * b == 0.0 ==> a == 0.0 || b == 0.0
  {
  }

  lemma MulNonNegative(a: real, b: real)
    requires 0.0 <= a && 0.0 <= b
    ensures 0.0 <= a * b
  {
  }

  lemma MulMonotone(a: real, b: real, c: real, d: real)
    requires 0.0 <= a <= c && 0.0 <= b <= d
    ensures a * b <= c * d
  {
  }

  lemma MulStrictMonotone(a: real, b: real, c: real, d: real)
    requires 0.0 <= a < c && 0.0 <= b < d
    ensures a * b < c * d
  {
  }

  lemma MulStrictLeft(a: real, c: real, b: real)
    requires 0.0 <= a < c && 0.0 < b
    ensures a * b < c * b
  {
  }

  lemma PositiveFactor(a: real, x: real)
    requires 0.0 < a && 0.0 < a * x
    ensures 0.0 < x
  {
    if x <= 0.0 {
      MulNonNegative(a, -x);
    }
  }

  /** `a * t == a * t'` with `a != 0` forces `t == t'`. */
  lemma CancelFactor(a: real, t: real, u: real)
    requires a != 0.0 && a * t == a * u
    ensures t == u
  {
    assert a * (t - u) == 0.0;
    MulZero(a, t - u);
  }

  lemma MulBySame(a: real, b: real, q: real)
    requires a == b
    ensures a * q == b * q
  {
  }

  lemma SquareNonNegative(a: real)
    ensures 0.0 <= a * a
    ensures a != 0.0 ==> 0.0 < a * a
  {
  }

  /** Squaring is strictly monotone on non-negative reals. */
  lemma SquareMonotone(a: real, b: real)
    requires 0.0 <= a && 0.0 <= b
    ensures a < b <==> a * a < b * b
    ensures a <= b <==> a * a <= b * b
  {
    if a < b {
      MulStrictMonotone(a, a, b, b);
    } else if b < a {
      MulStrictMonotone(b, b, a, a);
    }
  }

  lemma NonNegativeSum(a: real, b: real, c: real)
    requires 0.0 <= a && 0.0 <= b && 0.0 <= c
    ensures 0.0 <= a + b + c
    ensures a + b + c == 0.0 <==> a == 0.0 && b == 0.0 && c == 0.0
  {
  }

  lemma LengthSquaredZero(v: Vector3)
    ensures 0.0 <= LengthSquared(v)
    ensures LengthSquared(v) == 0.0 <==> v == Zero
  {
    SquareNonNegative(v.x);
    SquareNonNegative(v.y);
    SquareNonNegative(v.z);
    NonNegativeSum(v.x * v.x, v.y * v.y, v.z * v.z);
    MulZero(v.x, v.x);
    MulZero(v.y, v.y);
    MulZero(v.z, v.z);
  }

  /** `|a u + b v|^2` expanded. */
  lemma CombinationLengthSquared(a: real, u: Vector3, b: real, v: Vector3)
    ensures LengthSquared(Add(Scale(a, u), Scale(b, v)))
            == a * a * LengthSquared(u) + 2.0 * a * b * Dot(u, v) + b * b * LengthSquared(v)
  {
    assert (a * u.x + b * v.x) * (a * u.x + b * v.x) == a * a * (u.x * u.x) + 2.0 * a * b * (u.x * v.x) + b * b * (v.x * v.x);
    assert (a * u.y + b * v.y) * (a * u.y + b * v.y) == a * a * (u.y * u.y) + 2.0 * a * b * (u.y * v.y) + b * b * (v.y * v.y);
    assert (a * u.z + b * v.z) * (a * u.z + b * v.z) == a * a * (u.z * u.z) + 2.0 * a * b * (u.z * v.z) + b * b * (v.z * v.z);
  }

  lemma DotWithZero(a: Vector3, b: Vector3)
    ensures b == Zero ==> Dot(a, b) == 0.0
  {
  }

  /** The dot product is linear in its first operand. */
  lemma DotCombination(a: real, u: Vector3, b: real, v: Vector3, w: Vector3)
    ensures Dot(Add(Scale(a, u), Scale(b, v)), w) == a * Dot(u, w) + b * Dot(v, w)
  {
  }

  /** Lagrange's identity: |a|^2 |b|^2 - (a . b)^2 == |a x b|^2. */
  lemma Lagrange(a: Vector3, b: Vector3)
    ensures Dot(a, a) * Dot(b, b) - Dot(a, b) * Dot(a, b) == LengthSquared(Cross(a, b))
  {
  }

  lemma CauchySchwarz(a: Vector3, b: Vector3)
    ensures Dot(a, b) * Dot(a, b) <= Dot(a, a) * Dot(b, b)
  {
    Lagrange(a, b);
    LengthSquaredZero(Cross(a, b));
  }

  lemma CrossOrthogonal(a: Vector3, b: Vector3)
    ensures Dot(Cross(a, b), a) == 0.0 && Dot(Cross(a, b), b) == 0.0
  {
  }

  /** Reflecting in a unit normal keeps the length, flips the normal component and undoes itself. */
  lemma ReflectInUnitNormal(v: Vector3, n: Vector3)
    requires LengthSquared(n) == 1.0
    ensures Dot(Reflect(v, n), n) == -Dot(v, n)
    ensures LengthSquared(Reflect(v, n)) == LengthSquared(v)
    ensures Reflect(Reflect(v, n), n) == v
  {
    var d := Dot(v, n);
    var r := Reflect(v, n);
    assert Dot(r, n) == d - 2.0 * d * Dot(n, n);
    assert LengthSquared(r) == Dot(v, v) - 4.0 * d * d + 4.0 * d * d * Dot(n, n);
  }

  lemma SqrtZero(sqrt: real -> real)
    requires IsSqrt(sqrt)
    ensures sqrt(0.0) == 0.0
  {
    var s := sqrt(0.0);
    MulZero(s, s);
  }

  lemma SqrtOne(sqrt: real -> real)
    requires IsSqrt(sqrt)
    ensures sqrt(1.0) == 1.0
  {
    var s := sqrt(1.0);
    MulZero(s - 1.0, s + 1.0);
    assert (s - 1.0) * (s + 1.0) == s * s - 1.0;
  }

  lemma DivSelf(a: real)
    requires a != 0.0
    ensures Div(a, a) == 1.0
  {
  }

  /** A number whose square is below 1 lies strictly between -1 and 1. */
  lemma SquareBelowOne(d: real)
    requires d * d < 1.0
    ensures -1.0 < d < 1.0
  {
    if d <= -1.0 {
      SquareMonotone(1.0, -d);
    } else if 1.0 <= d {
      SquareMonotone(1.0, d);
    }
  }

  /** The defining property of `sqrt`, instantiated at one argument. */
  lemma SqrtSquared(sqrt: real -> real, x: real)
    requires IsSqrt(sqrt) && 0.0 <= x
    ensures 0.0 <= sqrt(x) && sqrt(x) * sqrt(x) == x
  {
  }

  lemma SqrtPositive(sqrt: real -> real, x: real)
    requires IsSqrt(sqrt) && 0.0 < x
    ensures 0.0 < sqrt(x)
  {
    var s := sqrt(x);
    if s == 0.0 {
      assert s * s == 0.0;
    }
  }

  lemma SqrtMonotone(sqrt: real -> real, x: real, y: real)
    requires IsSqrt(sqrt) && 0.0 <= x <= y
    ensures sqrt(x) <= sqrt(y)
  {
    SquareMonotone(sqrt(x), sqrt(y));
  }

  /** The square root of `a * a` is `a` for non-negative `a`. */
  lemma SqrtOfSquare(sqrt: real -> real, a: real)
    requires IsSqrt(sqrt) && 0.0 <= a
    ensures sqrt(a * a) == a
  {
    var s := sqrt(a * a);
    SquareMonotone(s, a);
  }
}
