/**
 * The three materials and how each scatters an incoming ray at a hit: diffuse (Lambertian),
 * reflective with optional fuzz (Metal) and refractive glass (Dielectric).
 */
module Materials {
  import opened Wrappers
  import opened Numerics
  import opened Rays
  import opened VectorExtensions

  /** The Material class hierarchy as one datatype, one constructor per subclass. */
  datatype Material =
    | Lambertian(albedo: Vector3)
    | Metal(albedo: Vector3, fuzzyness: real)
    | Dielectric(refractionIndex: real)

  /** The Metal constructor: the fuzz is capped at 1. */
  function NewMetal(albedo: Vector3, fuzzyness: real): (m: Material)
    ensures m.Metal? && m.albedo == albedo
    ensures m.fuzzyness <= 1.0 && m.fuzzyness <= fuzzyness
    ensures m.fuzzyness == fuzzyness || m.fuzzyness == 1.0
  {
    Metal(albedo, if fuzzyness < 1.0 then fuzzyness else 1.0)
  }

  /** The out-parameters and return value of Scatter. */
  datatype ScatterResult = ScatterResult(ok: bool, attenuation: Vector3, scattered: Ray)

  /**
   * The random numbers one Scatter call consumes: a point from RandomInUnitSphere (Metal,
   * Lambertian) or one NextFloat draw (Dielectric).
   */
  datatype ScatterSample = ScatterSample(inUnitSphere: Vector3, uniform: real)

  /** Every component lies in `[0, 1]`: a colour channel or an attenuation factor. */
  predicate InUnitCube(v: Vector3) {
    0.0 <= v.x <= 1.0 && 0.0 <= v.y <= 1.0 && 0.0 <= v.z <= 1.0
  }

  /** Metal.Scatter: the mirror direction of the normalised incoming direction, jittered by the fuzz. */
  function MetalScatter(sqrt: real -> real, albedo: Vector3, fuzzyness: real, rayIn: Ray, hit: RayHit,
                        inUnitSphere: Vector3): (r: ScatterResult)
    ensures r.attenuation == albedo && r.scattered.origin == hit.point
    ensures Sub(r.scattered.direction, Reflect(UnitVector(sqrt, rayIn.direction), hit.normal))
            == Scale(fuzzyness, inUnitSphere)
    ensures r.ok <==> Dot(r.scattered.direction, hit.normal) > 0.0
  {
    var reflected := Reflect(UnitVector(sqrt, rayIn.direction), hit.normal);
    var scattered := Ray(hit.point, Add(reflected, Scale(fuzzyness, inUnitSphere)));
    ScatterResult(Dot(scattered.direction, hit.normal) > 0.0, albedo, scattered)
  }

  /** Lambertian.Scatter: towards a random point of the unit sphere that touches the surface at the hit. */
  function LambertianScatter(albedo: Vector3, hit: RayHit, inUnitSphere: Vector3): (r: ScatterResult)
    ensures r.ok && r.attenuation == albedo && r.scattered.origin == hit.point
    ensures Sub(r.scattered.direction, hit.normal) == inUnitSphere
  {
    var target := Add(Add(hit.point, hit.normal), inUnitSphere);
    ScatterResult(true, albedo, Ray(hit.point, Sub(target, hit.point)))
  }

  /** The surface normal facing against the ray: flipped when the ray leaves the sphere. */
  function OutwardNormal(direction: Vector3, normal: Vector3): (n: Vector3)
    ensures Dot(direction, n) <= 0.0
    ensures n == normal || n == Neg(normal)
    ensures Dot(direction, normal) <= 0.0 ==> n == normal
  {
    if Dot(direction, normal) > 0.0 then
      DotNeg(direction, normal);
      Neg(normal)
    else
      normal
  }

  lemma DotNeg(a: Vector3, b: Vector3)
    ensures Dot(a, Neg(b)) == -Dot(a, b)
  {
    var nb := Neg(b);
    assert nb.x == -b.x && nb.y == -b.y && nb.z == -b.z;
  }

  /** The ratio of refractive indices: `refractionIndex` leaving the glass, its inverse entering it. */
  function NiOverNt(refractionIndex: real, direction: Vector3, normal: Vector3): (eta: real)
    ensures Dot(direction, normal) > 0.0 ==> eta == refractionIndex
    ensures Dot(direction, normal) <= 0.0 && refractionIndex != 0.0 ==> eta * refractionIndex == 1.0
  {
    if Dot(direction, normal) > 0.0 then refractionIndex else Div(1.0, refractionIndex)
  }

  /**
   * The cosine fed to Schlick's approximation: the projection of the direction on the normal
   * divided by the direction's length, multiplied by the index when the ray leaves the glass.
   */
  function Cosine(sqrt: real -> real, refractionIndex: real, direction: Vector3, normal: Vector3): (c: real)
    ensures Length(sqrt, direction) != 0.0 && Dot(direction, normal) > 0.0 ==>
              c * Length(sqrt, direction) == refractionIndex * Dot(direction, normal)
    ensures Length(sqrt, direction) != 0.0 && Dot(direction, normal) <= 0.0 ==>
              c * Length(sqrt, direction) == -Dot(direction, normal)
    ensures Length(sqrt, direction) == 0.0 ==> c == 0.0
  {
    if Dot(direction, normal) > 0.0 then
      Div(refractionIndex * Dot(direction, normal), Length(sqrt, direction))
    else
      Div(-Dot(direction, normal), Length(sqrt, direction))
  }

  /** The discriminant of Snell's law: `1 - eta^2 (1 - cos^2)`. */
  function RefractDiscriminant(niOverNt: real, dt: real): real {
    1.0 - niOverNt * niOverNt * (1.0 - dt * dt)
  }

  /**
   * Dielectric.Refract: `None` stands for the `false` return (total internal reflection,
   * the out-parameter then being the zero vector).
   */
  function Refract(sqrt: real -> real, v: Vector3, n: Vector3, niOverNt: real): (r: Option<Vector3>)
    ensures r.Some? <==> RefractDiscriminant(niOverNt, Dot(UnitVector(sqrt, v), n)) > 0.0
  {
    var uv := UnitVector(sqrt, v);
    var dt := Dot(uv, n);
    var discriminant := RefractDiscriminant(niOverNt, dt);
    if discriminant > 0.0 then
      Some(Sub(Scale(niOverNt, Sub(uv, Scale(dt, n))), Scale(sqrt(discriminant), n)))
    else
      None
  }

  /** `x^5`, MathF.Pow with exponent 5. */
  function Pow5(x: real): real {
    x * x * x * x * x
  }

  /** The reflectance at normal incidence, `((1 - n) / (1 + n))^2`. */
  function NormalReflectance(refractiveIndex: real): real {
    Div(1.0 - refractiveIndex, 1.0 + refractiveIndex) * Div(1.0 - refractiveIndex, 1.0 + refractiveIndex)
  }

  /** For a non-negative index the normal reflectance is a probability. */
  lemma NormalReflectanceBounds(refractiveIndex: real)
    requires 0.0 <= refractiveIndex
    ensures 0.0 <= NormalReflectance(refractiveIndex) <= 1.0
  {
    var q := Div(1.0 - refractiveIndex, 1.0 + refractiveIndex);
    assert q * (1.0 + refractiveIndex) == 1.0 - refractiveIndex;
    assert -1.0 <= q <= 1.0 by {
      if q > 1.0 {
        MulStrictMonotone(1.0, 1.0, q, 1.0 + refractiveIndex);
      } else if q < -1.0 {
        MulStrictMonotone(1.0, 1.0, -q, 1.0 + refractiveIndex);
      }
    }
    var m := if q < 0.0 then -q else q;
    assert q * q == m * m;
    MulMonotone(m, m, 1.0, 1.0);
    SquareNonNegative(q);
  }

  /** Schlick's approximation of the reflectance at a given cosine. */
  function Schlick(cosine: real, refractiveIndex: real): (p: real)
    ensures cosine == 1.0 ==> p == NormalReflectance(refractiveIndex)
    ensures cosine == 0.0 ==> p == 1.0
  {
    var r0 := NormalReflectance(refractiveIndex);
    r0 + (1.0 - r0) * Pow5(1.0 - cosine)
  }

  /**
   * Dielectric.Scatter, with `uniform` the NextFloat draw: reflect with Schlick's probability,
   * or always under total internal reflection, else refract. Glass absorbs nothing.
   */
  function DielectricScatter(sqrt: real -> real, refractionIndex: real, rayIn: Ray, hit: RayHit,
                             uniform: real): (r: ScatterResult)
    ensures r.ok && r.attenuation == One && r.scattered.origin == hit.point
  {
    var d := rayIn.direction;
    var reflected := Reflect(d, hit.normal);
    var refraction := Refract(sqrt, d, OutwardNormal(d, hit.normal), NiOverNt(refractionIndex, d, hit.normal));
    var reflectProb := if refraction.Some? then Schlick(Cosine(sqrt, refractionIndex, d, hit.normal), refractionIndex) else 1.0;
    var direction := if uniform < reflectProb then reflected
                     else if refraction.Some? then refraction.value else Zero;
    ScatterResult(true, One, Ray(hit.point, direction))
  }

  /** Material.Scatter, dispatched on the subclass. */
  function Scatter(sqrt: real -> real, material: Material, rayIn: Ray, hit: RayHit, sample: ScatterSample): (r: ScatterResult)
    ensures r.scattered.origin == hit.point
    ensures !material.Metal? ==> r.ok
    ensures r.attenuation == if material.Dielectric? then One else material.albedo
  {
    match material
    case Lambertian(albedo) => LambertianScatter(albedo, hit, sample.inUnitSphere)
    case Metal(albedo, fuzzyness) => MetalScatter(sqrt, albedo, fuzzyness, rayIn, hit, sample.inUnitSphere)
    case Dielectric(refractionIndex) => DielectricScatter(sqrt, refractionIndex, rayIn, hit, sample.uniform)
  }

  lemma Pow5Bounds(x: real)
    requires 0.0 <= x <= 1.0
    ensures 0.0 <= Pow5(x) <= 1.0
  {
    MulNonNegative(x, x);
    MulMonotone(x, x, 1.0, 1.0);
    MulNonNegative(x * x, x);
    MulMonotone(x * x, x, 1.0, 1.0);
    MulNonNegative(x * x * x, x);
    MulMonotone(x * x * x, x, 1.0, 1.0);
    MulNonNegative(x * x * x * x, x);
    MulMonotone(x * x * x * x, x, 1.0, 1.0);
  }

  /**
   * For a cosine in `[0, 1]` and a non-negative index, Schlick's reflectance lies between
   * the normal reflectance and 1: it is a probability.
   */
  lemma SchlickBounds(cosine: real, refractiveIndex: real)
    requires 0.0 <= cosine <= 1.0 && 0.0 <= refractiveIndex
    ensures NormalReflectance(refractiveIndex) <= Schlick(cosine, refractiveIndex) <= 1.0
  {
    var r0 := NormalReflectance(refractiveIndex);
    NormalReflectanceBounds(refractiveIndex);
    Pow5Bounds(1.0 - cosine);
    MulMonotone(0.0, 0.0, 1.0 - r0, Pow5(1.0 - cosine));
    MulMonotone(1.0 - r0, Pow5(1.0 - cosine), 1.0 - r0, 1.0);
  }

  /** A unit vector minus its component along a unit normal leaves `1 - cos^2` of its length squared. */
  lemma TangentialPart(uv: Vector3, n: Vector3)
    requires LengthSquared(uv) == 1.0 && LengthSquared(n) == 1.0
    ensures Dot(Sub(uv, Scale(Dot(uv, n), n)), n) == 0.0
    ensures LengthSquared(Sub(uv, Scale(Dot(uv, n), n))) == 1.0 - Dot(uv, n) * Dot(uv, n)
  {
    var dt := Dot(uv, n);
    assert Dot(Sub(uv, Scale(dt, n)), n) == dt - dt * LengthSquared(n);
    assert Sub(uv, Scale(dt, n)) == Add(Scale(1.0, uv), Scale(-dt, n));
    CombinationLengthSquared(1.0, uv, -dt, n);
  }

  /**
   * Refract obeys Snell's law for a unit normal: the refracted direction has unit length,
   * crosses the surface (negative component along `n`) and its tangential part is the incoming
   * unit direction's tangential part scaled by `niOverNt`.
   */
  lemma RefractionSnell(sqrt: real -> real, v: Vector3, n: Vector3, niOverNt: real)
    requires IsSqrt(sqrt) && v != Zero && LengthSquared(n) == 1.0
    requires Refract(sqrt, v, n, niOverNt).Some?
    ensures var r := Refract(sqrt, v, n, niOverNt).value;
            var uv := UnitVector(sqrt, v);
            && LengthSquared(r) == 1.0
            && Dot(r, n) < 0.0
            && Sub(r, Scale(Dot(r, n), n)) == Scale(niOverNt, Sub(uv, Scale(Dot(uv, n), n)))
  {
    var uv := UnitVector(sqrt, v);
    var dt := Dot(uv, n);
    var disc := RefractDiscriminant(niOverNt, dt);
    var root := sqrt(disc);
    var tangent := Sub(uv, Scale(dt, n));
    var r := Refract(sqrt, v, n, niOverNt).value;
    UnitVectorIsUnit(sqrt, v);
    TangentialPart(uv, n);
    SqrtPositive(sqrt, disc);
    assert r == Add(Scale(niOverNt, tangent), Scale(-root, n));
    CombinationLengthSquared(niOverNt, tangent, -root, n);
    DotCombination(niOverNt, tangent, -root, n, n);
  }

  /** A ratio below 1 leaves a positive discriminant whatever the cosine. */
  lemma SmallRatioDiscriminant(eta: real, dt: real)
    requires 0.0 < eta < 1.0 && dt * dt <= 1.0
    ensures RefractDiscriminant(eta, dt) > 0.0
  {
    SquareNonNegative(dt);
    MulStrictMonotone(eta, eta, 1.0, 1.0);
    MulMonotone(eta * eta, 1.0 - dt * dt, eta * eta, 1.0);
  }

  /** The inverse of an index above 1 lies strictly between 0 and 1. */
  lemma InverseBelowOne(refractionIndex: real)
    requires refractionIndex > 1.0
    ensures 0.0 < Div(1.0, refractionIndex) < 1.0
  {
    var eta := Div(1.0, refractionIndex);
    assert eta * refractionIndex == 1.0;
    PositiveFactor(refractionIndex, eta);
    if eta >= 1.0 {
      MulMonotone(1.0, 1.0, eta, refractionIndex);
    }
  }

  /** The cosine between a unit vector (or zero) and a unit normal squares to at most 1. */
  lemma CosineSquaredAtMostOne(sqrt: real -> real, d: Vector3, n: Vector3)
    requires IsSqrt(sqrt) && LengthSquared(n) == 1.0
    ensures Dot(UnitVector(sqrt, d), n) * Dot(UnitVector(sqrt, d), n) <= 1.0
  {
    var uv := UnitVector(sqrt, d);
    if d != Zero {
      UnitVectorIsUnit(sqrt, d);
    }
    CauchySchwarz(uv, n);
  }

  /**
   * Entering a medium with index above 1 never reflects totally: the ratio used is `1 / index`,
   * below 1, and the refraction always exists.
   */
  lemma EnteringAlwaysRefracts(sqrt: real -> real, refractionIndex: real, d: Vector3, n: Vector3)
    requires IsSqrt(sqrt) && refractionIndex > 1.0 && LengthSquared(n) == 1.0 && Dot(d, n) <= 0.0
    ensures Refract(sqrt, d, OutwardNormal(d, n), NiOverNt(refractionIndex, d, n)).Some?
  {
    InverseBelowOne(refractionIndex);
    CosineSquaredAtMostOne(sqrt, d, n);
    SmallRatioDiscriminant(Div(1.0, refractionIndex), Dot(UnitVector(sqrt, d), n));
  }

  /** The absolute value of a dot product with a unit vector is at most the other vector's length. */
  lemma DotAtMostLength(sqrt: real -> real, d: Vector3, n: Vector3)
    requires IsSqrt(sqrt) && LengthSquared(n) == 1.0
    ensures -Length(sqrt, d) <= Dot(d, n) <= Length(sqrt, d)
  {
    var len := Length(sqrt, d);
    var dot := Dot(d, n);
    LengthSquaredZero(d);
    CauchySchwarz(d, n);
    assert len * len == LengthSquared(d);
    var m := if dot < 0.0 then -dot else dot;
    assert m * m == dot * dot;
    SquareMonotone(m, len);
  }

  /** Entering the surface, the cosine handed to Schlick's approximation lies in `[0, 1]`. */
  lemma EnteringCosineBounds(sqrt: real -> real, refractionIndex: real, d: Vector3, n: Vector3)
    requires IsSqrt(sqrt) && LengthSquared(n) == 1.0 && Dot(d, n) <= 0.0
    ensures 0.0 <= Cosine(sqrt, refractionIndex, d, n) <= 1.0
  {
    var len := Length(sqrt, d);
    DotAtMostLength(sqrt, d, n);
    if len != 0.0 {
      var c := Div(-Dot(d, n), len);
      assert c * len == -Dot(d, n);
      PositiveFactor(len, 1.0);
      if c < 0.0 {
        MulNonNegative(-c, len);
      }
      if c > 1.0 {
        MulStrictMonotone(1.0, len, c, len);
      }
    }
  }

  /**
   * Under total internal reflection the reflect probability is 1 and a draw from `[0, 1)`
   * always chooses the mirror direction.
   */
  lemma TotalInternalReflectionReflects(sqrt: real -> real, refractionIndex: real, rayIn: Ray, hit: RayHit,
                                        uniform: real)
    requires 0.0 <= uniform < 1.0
    requires Refract(sqrt, rayIn.direction, OutwardNormal(rayIn.direction, hit.normal),
                     NiOverNt(refractionIndex, rayIn.direction, hit.normal)).None?
    ensures DielectricScatter(sqrt, refractionIndex, rayIn, hit, uniform).scattered.direction
            == Reflect(rayIn.direction, hit.normal)
  {
  }

  /**
   * Below the reflect probability (Schlick's, or 1 under total internal reflection) the glass
   * reflects the incoming direction about the normal.
   */
  lemma DielectricReflectsBelowProbability(sqrt: real -> real, refractionIndex: real, rayIn: Ray, hit: RayHit,
                                           uniform: real)
    requires var d := rayIn.direction;
             var refraction := Refract(sqrt, d, OutwardNormal(d, hit.normal), NiOverNt(refractionIndex, d, hit.normal));
             uniform < if refraction.Some? then Schlick(Cosine(sqrt, refractionIndex, d, hit.normal), refractionIndex)
                       else 1.0
    ensures DielectricScatter(sqrt, refractionIndex, rayIn, hit, uniform).scattered.direction
            == Reflect(rayIn.direction, hit.normal)
  {
  }

  /**
   * At or above Schlick's probability, when a refraction exists, the glass passes the ray on
   * along the refracted direction.
   */
  lemma DielectricRefractsAboveProbability(sqrt: real -> real, refractionIndex: real, rayIn: Ray, hit: RayHit,
                                           uniform: real)
    ensures var d := rayIn.direction;
            var refraction := Refract(sqrt, d, OutwardNormal(d, hit.normal), NiOverNt(refractionIndex, d, hit.normal));
            refraction.Some? && uniform >= Schlick(Cosine(sqrt, refractionIndex, d, hit.normal), refractionIndex) ==>
              DielectricScatter(sqrt, refractionIndex, rayIn, hit, uniform).scattered.direction == refraction.value
  {
  }

  /**
   * A ray entering glass of index above 1 that is not reflected obeys Snell's law: the scattered
   * direction is a unit vector that crosses into the sphere, and its tangential part is the
   * incoming unit direction's tangential part divided by the index.
   */
  lemma DielectricRefractsEntering(sqrt: real -> real, refractionIndex: real, rayIn: Ray, hit: RayHit,
                                   uniform: real)
    requires IsSqrt(sqrt) && refractionIndex > 1.0 && LengthSquared(hit.normal) == 1.0
    requires rayIn.direction != Zero && Dot(rayIn.direction, hit.normal) <= 0.0
    requires uniform >= Schlick(Cosine(sqrt, refractionIndex, rayIn.direction, hit.normal), refractionIndex)
    ensures var r := DielectricScatter(sqrt, refractionIndex, rayIn, hit, uniform).scattered.direction;
            var n := hit.normal;
            var uv := UnitVector(sqrt, rayIn.direction);
            && LengthSquared(r) == 1.0
            && Dot(r, n) < 0.0
            && Sub(r, Scale(Dot(r, n), n)) == Scale(Div(1.0, refractionIndex), Sub(uv, Scale(Dot(uv, n), n)))
  {
    EnteringAlwaysRefracts(sqrt, refractionIndex, rayIn.direction, hit.normal);
    RefractionSnell(sqrt, rayIn.direction, hit.normal, Div(1.0, refractionIndex));
  }

  /**
   * An unfuzzed metal is a mirror: the scattered direction is the unit incoming direction
   * reflected, and the scatter succeeds exactly when the ray arrives against the normal.
   */
  lemma MetalMirror(sqrt: real -> real, albedo: Vector3, rayIn: Ray, hit: RayHit, inUnitSphere: Vector3)
    requires IsSqrt(sqrt) && rayIn.direction != Zero && LengthSquared(hit.normal) == 1.0
    ensures var r := MetalScatter(sqrt, albedo, 0.0, rayIn, hit, inUnitSphere);
            && r.scattered.direction == Reflect(UnitVector(sqrt, rayIn.direction), hit.normal)
            && LengthSquared(r.scattered.direction) == 1.0
            && (r.ok <==> Dot(rayIn.direction, hit.normal) < 0.0)
  {
    var d := rayIn.direction;
    var n := hit.normal;
    var uv := UnitVector(sqrt, d);
    var r := MetalScatter(sqrt, albedo, 0.0, rayIn, hit, inUnitSphere);
    assert Scale(0.0, inUnitSphere) == Zero;
    assert r.scattered.direction == Add(Reflect(uv, n), Zero) == Reflect(uv, n);
    UnitVectorIsUnit(sqrt, d);
    ReflectInUnitNormal(uv, n);
    LengthOfNonZero(sqrt, d);
    var len := Length(sqrt, d);
    assert Dot(d, n) == len * Dot(uv, n) by {
      assert Scale(len, uv) == d;
    }
    if Dot(uv, n) < 0.0 {
      MulStrictMonotone(0.0, 0.0, len, -Dot(uv, n));
    } else {
      MulNonNegative(len, Dot(uv, n));
    }
  }

  /** With fuzz in `[0, 1]`, a metal scatters to within the unit sphere around the mirror direction. */
  lemma MetalFuzzBounded(sqrt: real -> real, albedo: Vector3, fuzzyness: real, rayIn: Ray, hit: RayHit,
                         inUnitSphere: Vector3)
    requires -1.0 <= fuzzyness <= 1.0 && InUnitSphere(inUnitSphere)
    ensures var r := MetalScatter(sqrt, albedo, fuzzyness, rayIn, hit, inUnitSphere);
            InUnitSphere(Sub(r.scattered.direction, Reflect(UnitVector(sqrt, rayIn.direction), hit.normal)))
  {
    var f := fuzzyness;
    assert LengthSquared(Scale(f, inUnitSphere)) == (f * f) * LengthSquared(inUnitSphere);
    LengthSquaredZero(inUnitSphere);
    var m := if f < 0.0 then -f else f;
    assert m * m == f * f;
    SquareMonotone(m, 1.0);
    SquareNonNegative(f);
    MulMonotone(f * f, LengthSquared(inUnitSphere), 1.0, LengthSquared(inUnitSphere));
  }

  /**
   * With a unit normal and a sample inside the unit sphere, a Lambertian surface scatters to the
   * side its normal points to.
   */
  lemma LambertianScattersOutward(albedo: Vector3, hit: RayHit, inUnitSphere: Vector3)
    requires LengthSquared(hit.normal) == 1.0 && InUnitSphere(inUnitSphere)
    ensures Dot(LambertianScatter(albedo, hit, inUnitSphere).scattered.direction, hit.normal) > 0.0
  {
    var n := hit.normal;
    var s := inUnitSphere;
    var dot := Dot(s, n);
    assert Dot(Add(n, s), n) == Dot(n, n) + dot;
    CauchySchwarz(s, n);
    BelowUnitProduct(dot * dot, Dot(s, s), Dot(n, n));
    SquareBelowOne(dot);
  }

  lemma BelowUnitProduct(p: real, ss: real, nn: real)
    requires p <= ss * nn && nn == 1.0 && ss < 1.0
    ensures p < 1.0
  {
  }
}
