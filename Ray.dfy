/** Ray (an immutable origin/direction record) and RayHit (the record an intersection produces). */
module Rays {
  import opened Numerics

  datatype Ray = Ray(origin: Vector3, direction: Vector3)

  /** A surface hit: the point, the surface normal there and the ray parameter `t`. */
  datatype RayHit = RayHit(point: Vector3, normal: Vector3, t: real)

  /** `Origin + Direction * t`. */
  function PointAt(ray: Ray, t: real): (p: Vector3)
    ensures Sub(p, ray.origin) == Scale(t, ray.direction)
  {
    Add(ray.origin, Scale(t, ray.direction))
  }

  lemma PointAtZero(ray: Ray)
    ensures PointAt(ray, 0.0) == ray.origin
  {
  }

  lemma PointAtOne(ray: Ray)
    ensures PointAt(ray, 1.0) == Add(ray.origin, ray.direction)
  {
  }

  /** Moving along the ray from `t1` to `t2` covers `(t2 - t1)` times the direction. */
  lemma PointAtDifference(ray: Ray, t1: real, t2: real)
    ensures Sub(PointAt(ray, t2), PointAt(ray, t1)) == Scale(t2 - t1, ray.direction)
  {
  }
}
