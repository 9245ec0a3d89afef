/** The sphere: its ray intersection test and the hit record it builds. */
module Spheres {
  import opened Wrappers
  import opened Numerics
  import opened Rays

  datatype Sphere = Sphere(center: Vector3, radius: real)

  /**
   * The ray/sphere equation `|origin + t direction - center|^2 == radius^2` written as
   * `a t^2 + 2 b t + c == 0` (`b` is half the usual linear coefficient).
   */
  datatype Quadratic = Quadratic(a: real, b: real, c: real)

  function Coefficients(sphere: Sphere, ray: Ray): Quadratic {
    var oc := Sub(ray.origin, sphere.center);
    Quadratic(Dot(ray.direction, ray.direction), Dot(oc, ray.direction),
              Dot(oc, oc) - sphere.radius * sphere.radius)
  }

  function Discriminant(q: Quadratic): real {
    q.b * q.b - q.a * q.c
  }

  function Value(q: Quadratic, t: real): real {
    q.a * (t * t) + 2.0 * q.b * t + q.c
  }

  /** The point at parameter `t` of the ray lies on the sphere's surface. */
  predicate OnSurface(sphere: Sphere, ray: Ray, t: real) {
    LengthSquared(Sub(PointAt(ray, t), sphere.center)) == sphere.radius * sphere.radius
  }

  /** `tMin < t < tMax`, the acceptance test applied to each root. */
  predicate InRange(t: real, tMin: real, tMax: Limit) {
    Below(t, tMax) && t > tMin
  }

  /** The nearer root `(-b - sqrt(disc)) / a`. */
  function NearRoot(sqrt: real -> real, q: Quadratic): real {
    Div(-q.b - sqrt(Discriminant(q)), q.a)
  }

  /** The farther root `(-b + sqrt(disc)) / a`. */
  function FarRoot(sqrt: real -> real, q: Quadratic): real {
    Div(-q.b + sqrt(Discriminant(q)), q.a)
  }

  /**
   * GetRayHit: the point at `t` and the normal `(point - center) / radius`, which points
   * outwards for a positive radius and inwards for a negative one.
   */
  function GetRayHit(t: real, ray: Ray, center: Vector3, radius: real): (h: RayHit)
    ensures h.t == t && h.point == PointAt(ray, t)
    ensures radius != 0.0 ==> Scale(radius, h.normal) == Sub(h.point, center)
  {
    var position := PointAt(ray, t);
    RayHit(position, DivBy(Sub(position, center), radius), t)
  }

  /**
   * Sphere.Hit: `None` stands for the `false` return, `Some(hit)` for `true` with `hit` written
   * to the out-parameter. The nearer root is taken when it lies strictly inside `(tMin, tMax)`,
   * else the farther one when it does; a ray that only grazes the sphere (zero discriminant)
   * misses.
   */
  function Hit(sqrt: real -> real, sphere: Sphere, ray: Ray, tMin: real, tMax: Limit): (r: Option<RayHit>)
    ensures r.Some? ==> InRange(r.value.t, tMin, tMax)
    ensures r.Some? ==> r.value == GetRayHit(r.value.t, ray, sphere.center, sphere.radius)
    ensures Discriminant(Coefficients(sphere, ray)) <= 0.0 ==> r.None?
    ensures var q := Coefficients(sphere, ray);
            Discriminant(q) > 0.0 && InRange(NearRoot(sqrt, q), tMin, tMax)
            ==> r == Some(GetRayHit(NearRoot(sqrt, q), ray, sphere.center, sphere.radius))
    ensures var q := Coefficients(sphere, ray);
            r.Some? && r.value.t != NearRoot(sqrt, q) ==> !InRange(NearRoot(sqrt, q), tMin, tMax) && r.value.t == FarRoot(sqrt, q)
  {
    var q := Coefficients(sphere, ray);
    if Discriminant(q) > 0.0 then
      var near := NearRoot(sqrt, q);
      if InRange(near, tMin, tMax) then
        Some(GetRayHit(near, ray, sphere.center, sphere.radius))
      else
        var far := FarRoot(sqrt, q);
        if InRange(far, tMin, tMax) then
          Some(GetRayHit(far, ray, sphere.center, sphere.radius))
        else
          None
    else
      None
  }

  /** `|oc + t d|^2` expanded in powers of `t`. */
  lemma OffsetLengthSquared(oc: Vector3, t: real, d: Vector3)
    ensures LengthSquared(Add(oc, Scale(t, d))) == Dot(d, d) * (t * t) + 2.0 * Dot(oc, d) * t + Dot(oc, oc)
  {
    assert (oc.x + t * d.x) * (oc.x + t * d.x) == d.x * d.x * (t * t) + 2.0 * (oc.x * d.x) * t + oc.x * oc.x;
    assert (oc.y + t * d.y) * (oc.y + t * d.y) == d.y * d.y * (t * t) + 2.0 * (oc.y * d.y) * t + oc.y * oc.y;
    assert (oc.z + t * d.z) * (oc.z + t * d.z) == d.z * d.z * (t * t) + 2.0 * (oc.z * d.z) * t + oc.z * oc.z;
  }

  /** Being on the surface is being a root of the quadratic. */
  lemma SurfaceEquation(sphere: Sphere, ray: Ray, t: real)
    ensures OnSurface(sphere, ray, t) <==> Value(Coefficients(sphere, ray), t) == 0.0
  {
    var oc := Sub(ray.origin, sphere.center);
    assert Sub(PointAt(ray, t), sphere.center) == Add(oc, Scale(t, ray.direction));
    OffsetLengthSquared(oc, t, ray.direction);
  }

  /** A quadratic whose `b` vanishes with `a` has `a > 0` when its discriminant is positive. */
  lemma DegenerateQuadratic(q: Quadratic)
    requires 0.0 <= q.a && (q.a == 0.0 ==> q.b == 0.0) && Discriminant(q) > 0.0
    ensures q.a > 0.0
  {
    MulZero(q.b, q.b);
  }

  /** A positive discriminant needs a non-zero direction, so the division by `a` in the roots is exact. */
  lemma PositiveDiscriminantDirection(sphere: Sphere, ray: Ray)
    requires Discriminant(Coefficients(sphere, ray)) > 0.0
    ensures Coefficients(sphere, ray).a > 0.0
  {
    var q := Coefficients(sphere, ray);
    LengthSquaredZero(ray.direction);
    DotWithZero(Sub(ray.origin, sphere.center), ray.direction);
    DegenerateQuadratic(q);
  }

  /** A positive discriminant needs a non-zero radius, so the division by `radius` in the normal is exact. */
  lemma PositiveDiscriminantRadius(sphere: Sphere, ray: Ray)
    requires Discriminant(Coefficients(sphere, ray)) > 0.0
    ensures sphere.radius != 0.0
  {
    var oc := Sub(ray.origin, sphere.center);
    var q := Coefficients(sphere, ray);
    CauchySchwarz(oc, ray.direction);
    assert q.b * q.b <= q.c * q.a + (sphere.radius * sphere.radius) * q.a;
    if sphere.radius == 0.0 {
      assert false;
    }
  }

  /** With a positive leading coefficient and `s` the root of the discriminant, the roots are `(-b -+ s) / a`. */
  lemma QuadraticRoots(q: Quadratic, s: real, t: real)
    requires q.a > 0.0 && 0.0 <= s && s * s == Discriminant(q)
    ensures Value(q, t) == 0.0 <==> q.a * t == -q.b - s || q.a * t == -q.b + s
  {
    assert q.a * Value(q, t) == (q.a * t + q.b + s) * (q.a * t + q.b - s);
    MulZero(q.a, Value(q, t));
    MulZero(q.a * t + q.b + s, q.a * t + q.b - s);
  }

  /** For a positive discriminant the roots are exactly NearRoot and FarRoot, and NearRoot is smaller. */
  lemma TwoRoots(sqrt: real -> real, sphere: Sphere, ray: Ray, t: real)
    requires IsSqrt(sqrt) && Discriminant(Coefficients(sphere, ray)) > 0.0
    ensures var q := Coefficients(sphere, ray);
            && NearRoot(sqrt, q) < FarRoot(sqrt, q)
            && OnSurface(sphere, ray, NearRoot(sqrt, q)) && OnSurface(sphere, ray, FarRoot(sqrt, q))
            && (OnSurface(sphere, ray, t) <==> t == NearRoot(sqrt, q) || t == FarRoot(sqrt, q))
  {
    var q := Coefficients(sphere, ray);
    PositiveDiscriminantDirection(sphere, ray);
    var s := sqrt(Discriminant(q));
    SqrtSquared(sqrt, Discriminant(q));
    SqrtPositive(sqrt, Discriminant(q));
    var near, far := NearRoot(sqrt, q), FarRoot(sqrt, q);
    assert near * q.a == -q.b - s && far * q.a == -q.b + s;
    RootsOfQuadratic(q, s, near, far, t);
    SurfaceEquation(sphere, ray, near);
    SurfaceEquation(sphere, ray, far);
    SurfaceEquation(sphere, ray, t);
  }

  /** The two roots `near = (-b - s) / a` and `far = (-b + s) / a` of a quadratic with `a > 0`, `s > 0`. */
  lemma RootsOfQuadratic(q: Quadratic, s: real, near: real, far: real, t: real)
    requires q.a > 0.0 && 0.0 < s && s * s == Discriminant(q)
    requires near * q.a == -q.b - s && far * q.a == -q.b + s
    ensures near < far && Value(q, near) == 0.0 && Value(q, far) == 0.0
    ensures Value(q, t) == 0.0 <==> t == near || t == far
  {
    assert q.a * (far - near) == 2.0 * s;
    PositiveFactor(q.a, far - near);
    QuadraticRoots(q, s, near);
    QuadraticRoots(q, s, far);
    QuadraticRoots(q, s, t);
    if q.a * t == -q.b - s {
      CancelFactor(q.a, t, near);
    }
    if q.a * t == -q.b + s {
      CancelFactor(q.a, t, far);
    }
  }

  /** Dividing a vector of length `|k|` by `k` gives a unit vector. */
  lemma UnitNormal(k: real, n: Vector3, p: Vector3)
    requires k != 0.0 && Scale(k, n) == p && LengthSquared(p) == k * k
    ensures LengthSquared(n) == 1.0
  {
    assert LengthSquared(Scale(k, n)) == (k * k) * LengthSquared(n);
    assert (k * k) * (LengthSquared(n) - 1.0) == 0.0;
    MulZero(k * k, LengthSquared(n) - 1.0);
    MulZero(k, k);
  }

  /** A hit point lies on the sphere, and the normal stored with it has unit length. */
  lemma HitOnSurface(sqrt: real -> real, sphere: Sphere, ray: Ray, tMin: real, tMax: Limit)
    requires IsSqrt(sqrt)
    ensures var r := Hit(sqrt, sphere, ray, tMin, tMax);
            r.Some? ==> && OnSurface(sphere, ray, r.value.t)
                        && LengthSquared(Sub(r.value.point, sphere.center)) == sphere.radius * sphere.radius
                        && LengthSquared(r.value.normal) == 1.0
  {
    var r := Hit(sqrt, sphere, ray, tMin, tMax);
    if r.Some? {
      var h := r.value;
      TwoRoots(sqrt, sphere, ray, h.t);
      PositiveDiscriminantRadius(sphere, ray);
      UnitNormal(sphere.radius, h.normal, Sub(h.point, sphere.center));
    }
  }

  /**
   * Hit returns the nearest surface point strictly between `tMin` and `tMax`: no surface point
   * in that range comes before it, and when Hit misses despite a positive discriminant, no
   * surface point lies in the range at all.
   */
  lemma HitIsNearest(sqrt: real -> real, sphere: Sphere, ray: Ray, tMin: real, tMax: Limit, t: real)
    requires IsSqrt(sqrt) && OnSurface(sphere, ray, t) && InRange(t, tMin, tMax)
    ensures var r := Hit(sqrt, sphere, ray, tMin, tMax);
            && (r.Some? ==> r.value.t <= t)
            && (Discriminant(Coefficients(sphere, ray)) > 0.0 ==> r.Some?)
  {
    if Discriminant(Coefficients(sphere, ray)) > 0.0 {
      TwoRoots(sqrt, sphere, ray, t);
    }
  }

  /** A quadratic with `a >= 0` and a negative discriminant has no real root. */
  lemma NoRealRoot(q: Quadratic, t: real)
    requires 0.0 <= q.a && Discriminant(q) < 0.0
    ensures Value(q, t) != 0.0
  {
    SquareNonNegative(q.b);
    assert q.a * Value(q, t) == (q.a * t + q.b) * (q.a * t + q.b) - Discriminant(q);
    SquareNonNegative(q.a * t + q.b);
    MulZero(q.a, Value(q, t));
  }

  /** A negative discriminant means the ray's line never meets the sphere. */
  lemma NegativeDiscriminantMisses(sphere: Sphere, ray: Ray, t: real)
    requires Discriminant(Coefficients(sphere, ray)) < 0.0
    ensures !OnSurface(sphere, ray, t)
  {
    LengthSquaredZero(ray.direction);
    NoRealRoot(Coefficients(sphere, ray), t);
    SurfaceEquation(sphere, ray, t);
  }

  /**
   * Narrowing the far limit to `c` keeps a hit closer than `c` and drops any other. Scene.Hit
   * relies on this when it narrows the range to the closest hit found so far.
   */
  lemma HitNarrowed(sqrt: real -> real, sphere: Sphere, ray: Ray, tMin: real, tMax: Limit, c: real)
    requires IsSqrt(sqrt) && AtMost(Finite(c), tMax)
    ensures var r := Hit(sqrt, sphere, ray, tMin, tMax);
            Hit(sqrt, sphere, ray, tMin, Finite(c)) == if r.Some? && r.value.t < c then r else None
  {
    var q := Coefficients(sphere, ray);
    if Discriminant(q) > 0.0 {
      TwoRoots(sqrt, sphere, ray, NearRoot(sqrt, q));
    }
  }
}
