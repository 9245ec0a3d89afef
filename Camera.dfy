/** The thin-lens camera: an orthonormal basis and a viewport computed once, and GetRay. */
module Cameras {
  import opened Numerics
  import opened Rays
  import opened VectorExtensions

  datatype Camera = Camera(
    origin: Vector3,
    horizontal: Vector3,
    vertical: Vector3,
    lowerLeftCorner: Vector3,
    lensRadius: real,
    w: Vector3,
    u: Vector3,
    v: Vector3,
    aspectRatio: real,
    verticalFieldOfView: real)

  /** The viewport is `2 tan(theta / 2)` high at unit distance... */
  function ViewportHeight(tanHalfTheta: real): real {
    2.0 * tanHalfTheta
  }

  /** ...and `aspectRatio` times as wide. */
  function ViewportWidth(aspectRatio: real, tanHalfTheta: real): real {
    aspectRatio * ViewportHeight(tanHalfTheta)
  }

  /**
   * The lower-left corner lies half a viewport below and to the left of the point
   * `focusDistance` along `-w`, which is therefore the viewport's centre.
   */
  lemma CornerCentresViewport(origin: Vector3, horizontal: Vector3, vertical: Vector3, focusDistance: real,
                              w: Vector3)
    ensures var corner := Sub(Sub(Sub(origin, DivBy(horizontal, 2.0)), DivBy(vertical, 2.0)), Scale(focusDistance, w));
            Add(Add(corner, DivBy(horizontal, 2.0)), DivBy(vertical, 2.0)) == Sub(origin, Scale(focusDistance, w))
  {
  }

  /**
   * The Camera constructor. `tanHalfTheta` stands for
   * `MathF.Tan(MathUtils.DegreesToRadians(verticalFieldOfView) / 2)`, which the model does not compute.
   */
  function NewCamera(sqrt: real -> real, lookFrom: Vector3, lookAt: Vector3, vUp: Vector3,
                     verticalFieldOfView: real, tanHalfTheta: real, aspectRatio: real,
                     aperture: real, focusDistance: real): (c: Camera)
    ensures c.verticalFieldOfView == verticalFieldOfView && c.aspectRatio == aspectRatio
    ensures c.origin == lookFrom
    ensures c.lensRadius == aperture / 2.0
    ensures c.w == UnitVector(sqrt, Sub(lookFrom, lookAt))
    ensures c.u == UnitVector(sqrt, Cross(vUp, c.w)) && c.v == Cross(c.w, c.u)
    ensures c.horizontal == Scale(focusDistance * ViewportWidth(aspectRatio, tanHalfTheta), c.u)
    ensures c.vertical == Scale(focusDistance * ViewportHeight(tanHalfTheta), c.v)
    ensures Add(Add(c.lowerLeftCorner, DivBy(c.horizontal, 2.0)), DivBy(c.vertical, 2.0))
            == Sub(c.origin, Scale(focusDistance, c.w))
  {
    var w := UnitVector(sqrt, Sub(lookFrom, lookAt));
    var u := UnitVector(sqrt, Cross(vUp, w));
    var v := Cross(w, u);
    var horizontal := Scale(focusDistance * ViewportWidth(aspectRatio, tanHalfTheta), u);
    var vertical := Scale(focusDistance * ViewportHeight(tanHalfTheta), v);
    var lowerLeftCorner := Sub(Sub(Sub(lookFrom, DivBy(horizontal, 2.0)), DivBy(vertical, 2.0)), Scale(focusDistance, w));
    CornerCentresViewport(lookFrom, horizontal, vertical, focusDistance, w);
    Camera(lookFrom, horizontal, vertical, lowerLeftCorner, aperture / 2.0, w, u, v, aspectRatio, verticalFieldOfView)
  }

  /** Scaling the second operand of a cross product scales the product. */
  lemma CrossScale(a: Vector3, k: real, b: Vector3)
    ensures Cross(a, Scale(k, b)) == Scale(k, Cross(a, b))
  {
    var sb := Scale(k, b);
    assert sb.x == k * b.x && sb.y == k * b.y && sb.z == k * b.z;
    ScaleDifference(a.y, b.z, a.z, b.y, k);
    ScaleDifference(a.z, b.x, a.x, b.z, k);
    ScaleDifference(a.x, b.y, a.y, b.x, k);
    var l, r := Cross(a, sb), Scale(k, Cross(a, b));
    assert l.x == r.x && l.y == r.y && l.z == r.z;
  }

  lemma ScaleDifference(p: real, u: real, q: real, v: real, k: real)
    ensures p * (k * u) - q * (k * v) == k * (p * u - q * v)
  {
  }

  /** An up vector not parallel to `d` is not parallel to `d`'s direction either. */
  lemma CrossWithDirection(sqrt: real -> real, up: Vector3, d: Vector3)
    requires IsSqrt(sqrt) && Cross(up, d) != Zero
    ensures d != Zero && Cross(up, UnitVector(sqrt, d)) != Zero
  {
    CrossScale(up, 0.0, d);
    LengthOfNonZero(sqrt, d);
    CrossScale(up, Length(sqrt, d), UnitVector(sqrt, d));
  }

  /**
   * The basis NewCamera builds from a viewing direction `d` and an up vector: `w` along `d`,
   * `u` across `up x w`, `v` as `w x u`.
   */
  lemma BasisOrthonormal(sqrt: real -> real, up: Vector3, d: Vector3)
    requires IsSqrt(sqrt) && Cross(up, d) != Zero
    ensures var w := UnitVector(sqrt, d);
            var u := UnitVector(sqrt, Cross(up, w));
            var v := Cross(w, u);
            && LengthSquared(u) == 1.0 && LengthSquared(v) == 1.0 && LengthSquared(w) == 1.0
            && Dot(u, w) == 0.0 && Dot(v, w) == 0.0 && Dot(u, v) == 0.0
  {
    var w := UnitVector(sqrt, d);
    CrossWithDirection(sqrt, up, d);
    UnitVectorIsUnit(sqrt, d);
    var n := Cross(up, w);
    var u := UnitVector(sqrt, n);
    UnitVectorIsUnit(sqrt, n);
    CrossOrthogonal(up, w);
    UnitVectorOrthogonal(sqrt, n, w);
    Lagrange(w, u);
    assert Dot(w, u) == Dot(u, w);
    CrossOrthogonal(w, u);
  }

  /**
   * When the up vector is not parallel to the viewing direction, the camera's `u`, `v` and `w`
   * form an orthonormal basis.
   */
  lemma CameraBasisOrthonormal(sqrt: real -> real, lookFrom: Vector3, lookAt: Vector3, vUp: Vector3,
                               verticalFieldOfView: real, tanHalfTheta: real, aspectRatio: real,
                               aperture: real, focusDistance: real)
    requires IsSqrt(sqrt) && Cross(vUp, Sub(lookFrom, lookAt)) != Zero
    ensures var c := NewCamera(sqrt, lookFrom, lookAt, vUp, verticalFieldOfView, tanHalfTheta,
                               aspectRatio, aperture, focusDistance);
            && LengthSquared(c.u) == 1.0 && LengthSquared(c.v) == 1.0 && LengthSquared(c.w) == 1.0
            && Dot(c.u, c.w) == 0.0 && Dot(c.v, c.w) == 0.0 && Dot(c.u, c.v) == 0.0
  {
    BasisOrthonormal(sqrt, vUp, Sub(lookFrom, lookAt));
  }

  /**
   * `GetRay(s, t)` with `diskSample` the point RandomInUnitDisk drew: the ray starts at a lens
   * point and, whatever that point, reaches `lowerLeftCorner + s * horizontal + t * vertical`
   * at parameter 1.
   */
  function GetRay(camera: Camera, s: real, t: real, diskSample: Vector3): (r: Ray)
    ensures PointAt(r, 1.0) == Add(Add(camera.lowerLeftCorner, Scale(s, camera.horizontal)), Scale(t, camera.vertical))
    ensures camera.lensRadius == 0.0 ==> r.origin == camera.origin
  {
    var rd := Scale(camera.lensRadius, diskSample);
    var offset := Add(Scale(rd.x, camera.u), Scale(rd.y, camera.v));
    var target := Add(Add(camera.lowerLeftCorner, Scale(s, camera.horizontal)), Scale(t, camera.vertical));
    Ray(Add(camera.origin, offset), Sub(Sub(target, camera.origin), offset))
  }

  /** With no aperture every ray starts at `lookFrom` (a pinhole camera). */
  lemma PinholeRaysStartAtLookFrom(sqrt: real -> real, lookFrom: Vector3, lookAt: Vector3, vUp: Vector3,
                                   verticalFieldOfView: real, tanHalfTheta: real, aspectRatio: real,
                                   focusDistance: real, s: real, t: real, diskSample: Vector3)
    ensures GetRay(NewCamera(sqrt, lookFrom, lookAt, vUp, verticalFieldOfView, tanHalfTheta, aspectRatio,
                             0.0, focusDistance), s, t, diskSample).origin == lookFrom
  {
  }

  /**
   * With an orthonormal `u`, `v`, a ray starts at most `lensRadius` away from the camera origin,
   * when the lens sample lies in the unit disk.
   */
  lemma RayStartsOnLens(camera: Camera, s: real, t: real, diskSample: Vector3)
    requires LengthSquared(camera.u) == 1.0 && LengthSquared(camera.v) == 1.0 && Dot(camera.u, camera.v) == 0.0
    requires diskSample.x * diskSample.x + diskSample.y * diskSample.y < 1.0
    ensures LengthSquared(Sub(GetRay(camera, s, t, diskSample).origin, camera.origin))
            <= camera.lensRadius * camera.lensRadius
  {
    var k := camera.lensRadius;
    var a, b := k * diskSample.x, k * diskSample.y;
    var offset := Add(Scale(a, camera.u), Scale(b, camera.v));
    assert Sub(GetRay(camera, s, t, diskSample).origin, camera.origin) == offset;
    CombinationLengthSquared(a, camera.u, b, camera.v);
    assert a * a + b * b == (k * k) * (diskSample.x * diskSample.x + diskSample.y * diskSample.y);
    SquareNonNegative(k);
    SquareNonNegative(diskSample.x);
    SquareNonNegative(diskSample.y);
    MulMonotone(k * k, diskSample.x * diskSample.x + diskSample.y * diskSample.y, k * k, 1.0);
  }
}
