/**
 * RandomUtil: uniform draws and the rejection loops that pick a point inside the unit sphere
 * or the unit disk.
 */
module RandomUtil {
  import opened Numerics

  /** A value Random.NextSingle can return: a float in `[0, 1)`. */
  type UnitDraw = r: real | 0.0 <= r < 1.0

  lemma ScaledDrawBounds(draw: real, min: real, max: real)
    ensures 0.0 <= draw < 1.0 && min < max ==> 0.0 <= draw * (max - min) < max - min
  {
    if 0.0 <= draw < 1.0 && min < max {
      MulNonNegative(draw, max - min);
      MulStrictLeft(draw, 1.0, max - min);
    }
  }

  /** `draw * (max - min) + min`, a draw rescaled to `[min, max)`. */
  function Lerp(draw: real, min: real, max: real): (f: real)
    ensures 0.0 <= draw < 1.0 && min < max ==> min <= f < max
  {
    ScaledDrawBounds(draw, min, max);
    draw * (max - min) + min
  }

  /** The vector RandomVector(min, max) builds from three consecutive draws. */
  function RandomVectorFrom(d1: real, d2: real, d3: real, min: real, max: real): Vector3 {
    Vector3(Lerp(d1, min, max), Lerp(d2, min, max), Lerp(d3, min, max))
  }

  /** The candidate RandomInUnitDisk builds from two draws: `2 (d1, d2, 0) - (1, 1, 0)`. */
  function DiskCandidate(d1: real, d2: real): (p: Vector3)
    ensures p.z == 0.0
    ensures 0.0 <= d1 < 1.0 && 0.0 <= d2 < 1.0 ==> -1.0 <= p.x < 1.0 && -1.0 <= p.y < 1.0
  {
    Sub(Scale(2.0, Vector3(d1, d2, 0.0)), Vector3(1.0, 1.0, 0.0))
  }

  /**
   * The shared generator behind RandomUtil. The infinite sequence of NextSingle results is fixed
   * in `stream`; `next` counts the draws taken so far.
   */
  class Random {
    const stream: nat -> UnitDraw
    var next: nat

    constructor(stream: nat -> UnitDraw)
      ensures this.stream == stream && next == 0
    {
      this.stream := stream;
      next := 0;
    }

    /** The `k`-th RandomInUnitSphere candidate counted from draw `from`. */
    function SphereCandidate(from: nat, k: nat): Vector3 {
      RandomVectorFrom(stream(from + 3 * k), stream(from + 3 * k + 1), stream(from + 3 * k + 2), -1.0, 1.0)
    }

    /** The `k`-th RandomInUnitDisk candidate counted from draw `from`. */
    function DiskCandidateAt(from: nat, k: nat): Vector3 {
      DiskCandidate(stream(from + 2 * k), stream(from + 2 * k + 1))
    }

    /** NextFloat(): one draw in `[0, 1)`. */
    method NextFloat() returns (f: real)
      modifies this
      ensures f == stream(old(next)) && 0.0 <= f < 1.0
      ensures next == old(next) + 1
    {
      f := stream(next);
      next := next + 1;
    }

    /** NextFloat(min, max): one draw rescaled to `[min, max)`. */
    method NextFloatBetween(min: real, max: real) returns (f: real)
      modifies this
      ensures f == Lerp(stream(old(next)), min, max)
      ensures min < max ==> min <= f < max
      ensures next == old(next) + 1
    {
      var draw := NextFloat();
      f := draw * (max - min) + min;
    }

    /** RandomVector(min, max): three draws, for x, y and z in that order. */
    method RandomVector(min: real, max: real) returns (v: Vector3)
      modifies this
      ensures v == RandomVectorFrom(stream(old(next)), stream(old(next) + 1), stream(old(next) + 2), min, max)
      ensures min < max ==> min <= v.x < max && min <= v.y < max && min <= v.z < max
      ensures next == old(next) + 3
    {
      var x := NextFloatBetween(min, max);
      var y := NextFloatBetween(min, max);
      var z := NextFloatBetween(min, max);
      v := Vector3(x, y, z);
    }

    /** The body of RandomInUnitDisk's loop: two draws mapped onto the square `[-1, 1)^2` at `z = 0`. */
    method DrawDiskCandidate() returns (p: Vector3)
      modifies this
      ensures p == DiskCandidate(stream(old(next)), stream(old(next) + 1))
      ensures p.z == 0.0 && -1.0 <= p.x < 1.0 && -1.0 <= p.y < 1.0
      ensures next == old(next) + 2
    {
      var d1 := NextFloat();
      var d2 := NextFloat();
      p := DiskCandidate(d1, d2);
    }

    /**
     * RandomInUnitSphere: draws candidates from `[-1, 1)^3` until one falls inside the unit
     * ball. The loop ends only if such a candidate comes, which the precondition states; the
     * ghost `rejected` counts the candidates thrown away.
     */
    method RandomInUnitSphere() returns (v: Vector3, ghost rejected: nat)
      requires exists k: nat :: InUnitSphere(SphereCandidate(next, k))
      modifies this
      ensures InUnitSphere(v)
      ensures -1.0 <= v.x < 1.0 && -1.0 <= v.y < 1.0 && -1.0 <= v.z < 1.0
      ensures v == SphereCandidate(old(next), rejected)
      ensures forall j: nat :: j < rejected ==> !InUnitSphere(SphereCandidate(old(next), j))
      ensures next == old(next) + 3 * (rejected + 1)
    {
      ghost var start := next;
      ghost var accepted: nat :| InUnitSphere(SphereCandidate(start, accepted));
      v := RandomVector(-1.0, 1.0);
      rejected := 0;
      while Dot(v, v) >= 1.0
        invariant next == start + 3 * (rejected + 1)
        invariant v == SphereCandidate(start, rejected)
        invariant forall j: nat :: j < rejected ==> !InUnitSphere(SphereCandidate(start, j))
        invariant rejected <= accepted
        decreases accepted - rejected
      {
        assert !InUnitSphere(SphereCandidate(start, rejected)) && rejected != accepted;
        ghost var at := next;
        v := RandomVector(-1.0, 1.0);
        rejected := rejected + 1;
        assert at == start + 3 * rejected;
        assert v == SphereCandidate(start, rejected);
      }
    }

    /**
     * RandomInUnitDisk: draws candidates from `[-1, 1)^2` in the plane `z = 0` until one falls
     * inside the unit disk, under the same precondition.
     */
    method RandomInUnitDisk() returns (p: Vector3, ghost rejected: nat)
      requires exists k: nat :: InUnitSphere(DiskCandidateAt(next, k))
      modifies this
      ensures p.z == 0.0 && p.x * p.x + p.y * p.y < 1.0
      ensures p == DiskCandidateAt(old(next), rejected)
      ensures forall j: nat :: j < rejected ==> !InUnitSphere(DiskCandidateAt(old(next), j))
      ensures next == old(next) + 2 * (rejected + 1)
    {
      ghost var start := next;
      ghost var accepted: nat :| InUnitSphere(DiskCandidateAt(start, accepted));
      p := DrawDiskCandidate();
      rejected := 0;
      while Dot(p, p) >= 1.0
        invariant next == start + 2 * (rejected + 1)
        invariant p == DiskCandidateAt(start, rejected)
        invariant forall j: nat :: j < rejected ==> !InUnitSphere(DiskCandidateAt(start, j))
        invariant rejected <= accepted
        decreases accepted - rejected
      {
        assert !InUnitSphere(DiskCandidateAt(start, rejected)) && rejected != accepted;
        ghost var at := next;
        p := DrawDiskCandidate();
        rejected := rejected + 1;
        assert at == start + 2 * rejected;
        assert p == DiskCandidateAt(start, rejected);
      }
      PlanarDot(p);
    }
  }

  /** For a point in the plane `z = 0`, `p . p` is `x^2 + y^2`. */
  lemma PlanarDot(p: Vector3)
    requires p.z == 0.0
    ensures Dot(p, p) == p.x * p.x + p.y * p.y
  {
  }

  /** Every RandomInUnitSphere candidate lies in the cube `[-1, 1)^3` around the origin. */
  lemma SphereCandidateInCube(d1: UnitDraw, d2: UnitDraw, d3: UnitDraw)
    ensures var v := RandomVectorFrom(d1, d2, d3, -1.0, 1.0);
            -1.0 <= v.x < 1.0 && -1.0 <= v.y < 1.0 && -1.0 <= v.z < 1.0
  {
  }

  /**
   * A generator whose next three draws are all 0.5 meets RandomInUnitSphere's precondition: the
   * first candidate is the origin.
   */
  lemma CentreDrawsEndSphereLoop(random: Random)
    requires random.stream(random.next) == 0.5 && random.stream(random.next + 1) == 0.5
    requires random.stream(random.next + 2) == 0.5
    ensures exists k: nat :: InUnitSphere(random.SphereCandidate(random.next, k))
  {
    var from := random.next;
    assert from + 3 * 0 == from;
    assert Lerp(0.5, -1.0, 1.0) == 0.0;
    assert random.SphereCandidate(from, 0) == RandomVectorFrom(0.5, 0.5, 0.5, -1.0, 1.0) == Zero;
  }

  /**
   * A generator whose next two draws are both 0.5 meets RandomInUnitDisk's precondition: the
   * first candidate is the origin.
   */
  lemma CentreDrawsEndDiskLoop(random: Random)
    requires random.stream(random.next) == 0.5 && random.stream(random.next + 1) == 0.5
    ensures exists k: nat :: InUnitSphere(random.DiskCandidateAt(random.next, k))
  {
    var from := random.next;
    assert from + 2 * 0 == from;
    assert Scale(2.0, Vector3(0.5, 0.5, 0.0)) == Vector3(1.0, 1.0, 0.0);
    assert random.DiskCandidateAt(from, 0) == DiskCandidate(0.5, 0.5) == Zero;
  }
}
