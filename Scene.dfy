/** The scene: a camera and a list of spheres with their materials, searched for the closest hit. */
module Scenes {
  import opened Wrappers
  import opened Numerics
  import opened Rays
  import opened Spheres
  import opened Materials
  import opened Cameras

  /** One element of the scene's list: a sphere and the material it is made of. */
  datatype Entry = Entry(sphere: Sphere, material: Material)

  /** A hit together with the material of the sphere that produced it. */
  datatype Closest = Closest(hit: RayHit, material: Material)

  /** The far limit of the search once `best` has been found: its `t`, or `tMax` before any hit. */
  function Narrowed(best: Option<Closest>, tMax: Limit): Limit {
    if best.Some? then Finite(best.value.hit.t) else tMax
  }

  /**
   * What Scene.Hit computes over `entries`: each sphere in turn is tested against the range
   * narrowed to the closest hit so far, and a hit replaces the current best.
   */
  function ClosestHit(sqrt: real -> real, entries: seq<Entry>, ray: Ray, tMin: real, tMax: Limit): (r: Option<Closest>)
    ensures r.Some? ==> InRange(r.value.hit.t, tMin, tMax)
    decreases |entries|
  {
    if |entries| == 0 then
      None
    else
      var best := ClosestHit(sqrt, entries[..|entries| - 1], ray, tMin, tMax);
      var last := entries[|entries| - 1];
      match Spheres.Hit(sqrt, last.sphere, ray, tMin, Narrowed(best, tMax))
      case Some(h) => Some(Closest(h, last.material))
      case None => best
  }

  /**
   * No sphere is hit closer than the result: whenever sphere `j`, tested alone over the
   * whole range, is hit, ClosestHit finds a hit and it is no farther.
   */
  lemma {:induction false} ClosestHitIsNearest(sqrt: real -> real, entries: seq<Entry>, ray: Ray, tMin: real,
                                               tMax: Limit, j: nat)
    requires IsSqrt(sqrt) && j < |entries|
    requires Spheres.Hit(sqrt, entries[j].sphere, ray, tMin, tMax).Some?
    ensures var r := ClosestHit(sqrt, entries, ray, tMin, tMax);
            r.Some? && r.value.hit.t <= Spheres.Hit(sqrt, entries[j].sphere, ray, tMin, tMax).value.t
    decreases |entries|
  {
    var n := |entries|;
    var prefix := entries[..n - 1];
    var best := ClosestHit(sqrt, prefix, ray, tMin, tMax);
    var last := entries[n - 1];
    if j < n - 1 {
      assert prefix[j] == entries[j];
      ClosestHitIsNearest(sqrt, prefix, ray, tMin, tMax, j);
    } else if best.Some? {
      HitNarrowed(sqrt, last.sphere, ray, tMin, tMax, best.value.hit.t);
    }
  }

  /**
   * Sphere `k` is where the closest hit `c` comes from: `c` is sphere `k`'s own hit over the
   * whole range, carries its material, and every earlier sphere misses or is hit strictly
   * farther away.
   */
  ghost predicate FirstNearestAt(sqrt: real -> real, entries: seq<Entry>, ray: Ray, tMin: real, tMax: Limit,
                                 k: int, c: Closest) {
    && 0 <= k < |entries|
    && Spheres.Hit(sqrt, entries[k].sphere, ray, tMin, tMax) == Some(c.hit)
    && entries[k].material == c.material
    && forall j :: 0 <= j < k ==>
         var h := Spheres.Hit(sqrt, entries[j].sphere, ray, tMin, tMax);
         h.None? || h.value.t > c.hit.t
  }

  /** A hit found comes from one sphere, and ties go to the first sphere. */
  lemma {:induction false} ClosestHitIsFirstNearest(sqrt: real -> real, entries: seq<Entry>, ray: Ray,
                                                    tMin: real, tMax: Limit)
    requires IsSqrt(sqrt) && ClosestHit(sqrt, entries, ray, tMin, tMax).Some?
    ensures exists k :: FirstNearestAt(sqrt, entries, ray, tMin, tMax, k, ClosestHit(sqrt, entries, ray, tMin, tMax).value)
    decreases |entries|
  {
    var n := |entries|;
    var prefix := entries[..n - 1];
    var best := ClosestHit(sqrt, prefix, ray, tMin, tMax);
    var r := ClosestHit(sqrt, entries, ray, tMin, tMax).value;
    if Spheres.Hit(sqrt, entries[n - 1].sphere, ray, tMin, Narrowed(best, tMax)).Some? {
      LastIsFirstNearest(sqrt, entries, ray, tMin, tMax);
    } else {
      assert best == ClosestHit(sqrt, entries, ray, tMin, tMax);
      ClosestHitIsFirstNearest(sqrt, prefix, ray, tMin, tMax);
      var k :| FirstNearestAt(sqrt, prefix, ray, tMin, tMax, k, r);
      FirstNearestExtend(sqrt, entries, ray, tMin, tMax, k, r);
    }
  }

  /** When the last sphere is hit within the narrowed range, it is where the closest hit comes from. */
  lemma LastIsFirstNearest(sqrt: real -> real, entries: seq<Entry>, ray: Ray, tMin: real, tMax: Limit)
    requires IsSqrt(sqrt) && 0 < |entries|
    requires Spheres.Hit(sqrt, entries[|entries| - 1].sphere, ray, tMin,
                         Narrowed(ClosestHit(sqrt, entries[..|entries| - 1], ray, tMin, tMax), tMax)).Some?
    ensures FirstNearestAt(sqrt, entries, ray, tMin, tMax, |entries| - 1, ClosestHit(sqrt, entries, ray, tMin, tMax).value)
  {
    var n := |entries|;
    var prefix := entries[..n - 1];
    var best := ClosestHit(sqrt, prefix, ray, tMin, tMax);
    var last := entries[n - 1];
    var r := ClosestHit(sqrt, entries, ray, tMin, tMax).value;
    if best.Some? {
      HitNarrowed(sqrt, last.sphere, ray, tMin, tMax, best.value.hit.t);
    }
    forall j | 0 <= j < n - 1
      ensures var h := Spheres.Hit(sqrt, entries[j].sphere, ray, tMin, tMax);
              h.None? || h.value.t > r.hit.t
    {
      assert prefix[j] == entries[j];
      if Spheres.Hit(sqrt, entries[j].sphere, ray, tMin, tMax).Some? {
        ClosestHitIsNearest(sqrt, prefix, ray, tMin, tMax, j);
      }
    }
  }

  /** Appending a sphere keeps an earlier sphere's claim to a closest hit. */
  lemma FirstNearestExtend(sqrt: real -> real, entries: seq<Entry>, ray: Ray, tMin: real, tMax: Limit,
                           k: int, c: Closest)
    requires 0 < |entries| && FirstNearestAt(sqrt, entries[..|entries| - 1], ray, tMin, tMax, k, c)
    ensures FirstNearestAt(sqrt, entries, ray, tMin, tMax, k, c)
  {
    var prefix := entries[..|entries| - 1];
    forall j | 0 <= j <= k
      ensures entries[j] == prefix[j]
    {
    }
  }

  /** ClosestHit finds nothing exactly when no sphere, tested alone over the whole range, is hit. */
  lemma ClosestHitMisses(sqrt: real -> real, entries: seq<Entry>, ray: Ray, tMin: real, tMax: Limit)
    requires IsSqrt(sqrt)
    ensures ClosestHit(sqrt, entries, ray, tMin, tMax).None?
            <==> forall j :: 0 <= j < |entries| ==> Spheres.Hit(sqrt, entries[j].sphere, ray, tMin, tMax).None?
  {
    if ClosestHit(sqrt, entries, ray, tMin, tMax).Some? {
      ClosestHitIsFirstNearest(sqrt, entries, ray, tMin, tMax);
    }
    forall j | 0 <= j < |entries| && Spheres.Hit(sqrt, entries[j].sphere, ray, tMin, tMax).Some?
      ensures ClosestHit(sqrt, entries, ray, tMin, tMax).Some?
    {
      ClosestHitIsNearest(sqrt, entries, ray, tMin, tMax, j);
    }
  }

  /** Scene: the camera it was built with and the spheres added so far, in order. */
  class Scene {
    const camera: Camera
    var spheres: seq<Entry>

    constructor(camera: Camera)
      ensures this.camera == camera && spheres == []
    {
      this.camera := camera;
      spheres := [];
    }

    /** Add: appends the sphere and its material to the list. */
    method Add(sphere: Sphere, material: Material)
      modifies this
      ensures spheres == old(spheres) + [Entry(sphere, material)]
    {
      spheres := spheres + [Entry(sphere, material)];
    }

    /**
     * Hit: walks the list once, narrowing the far limit to each hit it finds. `found` is the
     * return value; `hit` and `material` are the out-parameters, the empty hit and no
     * material when nothing is hit.
     */
    method Hit(sqrt: real -> real, ray: Ray, tMin: real, tMax: Limit)
      returns (found: bool, hit: RayHit, material: Option<Material>)
      ensures found <==> ClosestHit(sqrt, spheres, ray, tMin, tMax).Some?
      ensures found ==> && hit == ClosestHit(sqrt, spheres, ray, tMin, tMax).value.hit
                        && material == Some(ClosestHit(sqrt, spheres, ray, tMin, tMax).value.material)
      ensures !found ==> hit == RayHit(Zero, Zero, 0.0) && material == None
    {
      hit := RayHit(Zero, Zero, 0.0);
      found := false;
      var closestSoFar := tMax;
      material := None;
      for i := 0 to |spheres|
        invariant found <==> ClosestHit(sqrt, spheres[..i], ray, tMin, tMax).Some?
        invariant found ==> && hit == ClosestHit(sqrt, spheres[..i], ray, tMin, tMax).value.hit
                            && material == Some(ClosestHit(sqrt, spheres[..i], ray, tMin, tMax).value.material)
        invariant !found ==> hit == RayHit(Zero, Zero, 0.0) && material == None
        invariant closestSoFar == Narrowed(ClosestHit(sqrt, spheres[..i], ray, tMin, tMax), tMax)
      {
        assert spheres[..i + 1][..i] == spheres[..i];
        var tempHit := Spheres.Hit(sqrt, spheres[i].sphere, ray, tMin, closestSoFar);
        if tempHit.Some? {
          found := true;
          closestSoFar := Finite(tempHit.value.t);
          hit := tempHit.value;
          material := Some(spheres[i].material);
        }
      }
      assert spheres[..|spheres|] == spheres;
    }
  }
}
