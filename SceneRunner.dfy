/**
 * SceneRunner: the recursive colour of a ray, the frame buffer, and the render loops that
 * fill the buffer pixel by pixel.
 */
module SceneRunners {
  import opened Wrappers
  import opened Numerics
  import opened Rays
  import opened VectorExtensions
  import opened Materials
  import opened Cameras
  import opened Scenes

  const DefaultImageWidth: int := 1280
  const DefaultImageHeight: int := 768
  const DefaultMaxDepth: int := 50

  /** The near limit of every scene query, which keeps a scattered ray off its own surface. */
  const HitEpsilon: real := 0.001

  /** The sky's colour at the zenith; the horizon below it fades to white. */
  const SkyBlue: Vector3 := Vector3(0.5, 0.7, 1.0)

  /** The background: white blended towards SkyBlue by the height of the unit direction. */
  function SkyColor(sqrt: real -> real, direction: Vector3): (c: Vector3)
    ensures c.z == 1.0
    ensures 3.0 * (1.0 - c.x) == 5.0 * (1.0 - c.y)
  {
    var unitDirection := UnitVector(sqrt, direction);
    var t := 0.5 * (unitDirection.y + 1.0);
    Add(Scale(1.0 - t, One), Scale(t, SkyBlue))
  }

  /**
   * RayColor. The scene is its list of spheres, and `draws(depth)` is what the Scatter call at
   * that depth draws from RandomUtil.
   */
  function RayColor(sqrt: real -> real, ray: Ray, entries: seq<Entry>, depth: int,
                    draws: int -> ScatterSample): (c: Vector3)
    ensures IsSqrt(sqrt) && Absorbing(entries) ==> InUnitCube(c)
    decreases depth
  {
    if depth <= 0 then
      Zero
    else
      match ClosestHit(sqrt, entries, ray, HitEpsilon, PositiveInfinity)
      case Some(closest) =>
        var scatter := Scatter(sqrt, closest.material, ray, closest.hit, draws(depth));
        if scatter.ok then
          var incoming := RayColor(sqrt, scatter.scattered, entries, depth - 1, draws);
          ClosestMaterialAbsorbs(sqrt, entries, ray);
          MulInUnitCube(scatter.attenuation, incoming);
          Mul(scatter.attenuation, incoming)
        else
          Zero
      case None =>
        SkyColorInUnitCube(sqrt, ray.direction);
        SkyColor(sqrt, ray.direction)
  }

  /** The sky colour lies between white (looking down) and SkyBlue (looking up). */
  lemma SkyColorBounds(sqrt: real -> real, direction: Vector3)
    requires IsSqrt(sqrt)
    ensures var c := SkyColor(sqrt, direction);
            && 0.5 <= c.x <= 1.0 && 0.7 <= c.y <= 1.0 && c.z == 1.0
            && InUnitCube(c)
  {
    var u := UnitVector(sqrt, direction);
    if direction != Zero {
      UnitVectorIsUnit(sqrt, direction);
    }
    SquareNonNegative(u.x);
    SquareNonNegative(u.z);
    assert u.y * u.y <= 1.0;
    SquareMonotone(if u.y < 0.0 then -u.y else u.y, 1.0);
  }

  /** Normalising a vertical vector gives the unit up or down vector. */
  lemma VerticalUnit(sqrt: real -> real, k: real)
    requires IsSqrt(sqrt) && k > 0.0
    ensures UnitVector(sqrt, Vector3(0.0, k, 0.0)) == Vector3(0.0, 1.0, 0.0)
    ensures UnitVector(sqrt, Vector3(0.0, -k, 0.0)) == Vector3(0.0, -1.0, 0.0)
  {
    assert LengthSquared(Vector3(0.0, k, 0.0)) == k * k;
    assert LengthSquared(Vector3(0.0, -k, 0.0)) == k * k;
    SqrtOfSquare(sqrt, k);
    assert Div(k, k) * k == k * 1.0;
    CancelFactor(k, Div(k, k), 1.0);
    assert Div(-k, k) * k == k * -1.0;
    CancelFactor(k, Div(-k, k), -1.0);
  }

  /** Straight up is SkyBlue and straight down is white. */
  lemma SkyColorVertical(sqrt: real -> real, k: real)
    requires IsSqrt(sqrt) && k > 0.0
    ensures SkyColor(sqrt, Vector3(0.0, k, 0.0)) == SkyBlue
    ensures SkyColor(sqrt, Vector3(0.0, -k, 0.0)) == One
  {
    VerticalUnit(sqrt, k);
    SkyColorOfHeight(sqrt, Vector3(0.0, k, 0.0), 1.0);
    SkyColorOfHeight(sqrt, Vector3(0.0, -k, 0.0), -1.0);
  }

  /** The sky colour depends on the unit direction's height alone. */
  lemma SkyColorOfHeight(sqrt: real -> real, direction: Vector3, height: real)
    requires UnitVector(sqrt, direction).y == height
    ensures height == 1.0 ==> SkyColor(sqrt, direction) == SkyBlue
    ensures height == -1.0 ==> SkyColor(sqrt, direction) == One
  {
    var c := SkyColor(sqrt, direction);
    var t := 0.5 * (height + 1.0);
    assert c == Add(Scale(1.0 - t, One), Scale(t, SkyBlue));
    assert c.x == (1.0 - t) + t * 0.5 && c.y == (1.0 - t) + t * 0.7 && c.z == 1.0;
  }

  /** Every material's albedo is a colour with channels in `[0, 1]`. */
  predicate Absorbing(entries: seq<Entry>) {
    forall i :: 0 <= i < |entries| ==> entries[i].material.Dielectric? || InUnitCube(entries[i].material.albedo)
  }

  /** Multiplying two colours channel by channel stays in `[0, 1]^3`. */
  lemma MulInUnitCube(a: Vector3, b: Vector3)
    ensures InUnitCube(a) && InUnitCube(b) ==> InUnitCube(Mul(a, b))
  {
    if InUnitCube(a) && InUnitCube(b) {
      MulMonotone(a.x, b.x, 1.0, 1.0);
      MulMonotone(a.y, b.y, 1.0, 1.0);
      MulMonotone(a.z, b.z, 1.0, 1.0);
      MulNonNegative(a.x, b.x);
      MulNonNegative(a.y, b.y);
      MulNonNegative(a.z, b.z);
    }
  }

  /** For a true square root the sky is a colour. */
  lemma SkyColorInUnitCube(sqrt: real -> real, direction: Vector3)
    ensures IsSqrt(sqrt) ==> InUnitCube(SkyColor(sqrt, direction))
  {
    if IsSqrt(sqrt) {
      SkyColorBounds(sqrt, direction);
    }
  }

  /**
   * The material of the nearest hit is one of the scene's, so in an absorbing scene it is glass
   * or has an albedo in `[0, 1]^3`.
   */
  lemma ClosestMaterialAbsorbs(sqrt: real -> real, entries: seq<Entry>, ray: Ray)
    ensures var closest := ClosestHit(sqrt, entries, ray, HitEpsilon, PositiveInfinity);
            IsSqrt(sqrt) && Absorbing(entries) && closest.Some? ==>
              closest.value.material.Dielectric? || InUnitCube(closest.value.material.albedo)
  {
    var closest := ClosestHit(sqrt, entries, ray, HitEpsilon, PositiveInfinity);
    if IsSqrt(sqrt) && closest.Some? {
      ClosestHitIsFirstNearest(sqrt, entries, ray, HitEpsilon, PositiveInfinity);
    }
  }

  /** With no sphere in the scene every ray, at any positive depth, shows the sky. */
  lemma EmptySceneShowsSky(sqrt: real -> real, ray: Ray, depth: int, draws: int -> ScatterSample)
    requires depth > 0
    ensures RayColor(sqrt, ray, [], depth, draws) == SkyColor(sqrt, ray.direction)
  {
  }

  /** Out of bounces: a ray at depth 0 or below contributes no light. */
  lemma ExhaustedDepthIsBlack(sqrt: real -> real, ray: Ray, entries: seq<Entry>, depth: int,
                              draws: int -> ScatterSample)
    requires depth <= 0
    ensures RayColor(sqrt, ray, entries, depth, draws) == Zero
  {
  }

  /** ScreenPoint: the frame buffer key (x, y). */
  datatype ScreenPoint = ScreenPoint(x: int, y: int)

  /** The points `(x, y)` with `0 <= x < width` and `0 <= y < height`. */
  function PixelKeys(width: int, height: int): set<ScreenPoint> {
    set y: int, x: int | 0 <= y < height && 0 <= x < width :: ScreenPoint(x, y)
  }

  /**
   * CreateFramebuffer: one black entry per pixel. The outer Enumerable.Range rejects a negative
   * height at once; the inner one rejects a negative width only when a row is enumerated, which
   * a zero height never does.
   */
  function CreateFramebuffer(width: int, height: int): (r: Result<map<ScreenPoint, Vector3>>)
    ensures r.Success? <==> 0 <= height && (height == 0 || 0 <= width)
    ensures r.Success? ==> r.value.Keys == PixelKeys(width, height)
    ensures r.Success? ==> forall p :: p in r.value ==> r.value[p] == Zero
  {
    if height < 0 then
      Failure("imageHeight is negative")
    else if height > 0 && width < 0 then
      Failure("imageWidth is negative")
    else
      Success(map p | p in PixelKeys(width, height) :: Zero)
  }

  function Row(width: int, y: int): set<ScreenPoint> {
    set x: int | 0 <= x < width :: ScreenPoint(x, y)
  }

  lemma {:induction false} RowSize(width: nat, y: int)
    ensures |Row(width, y)| == width
  {
    if width > 0 {
      RowSize(width - 1, y);
      assert Row(width, y) == Row(width - 1, y) + {ScreenPoint(width - 1, y)};
    } else {
      assert Row(width, y) == {};
    }
  }

  /** The pixels of `height + 1` rows are those of `height` rows plus the new row, which is disjoint from them. */
  lemma PixelKeysAddRow(width: int, height: nat)
    ensures PixelKeys(width, height + 1) == PixelKeys(width, height) + Row(width, height)
    ensures PixelKeys(width, height) !! Row(width, height)
  {
  }

  lemma {:induction false} PixelKeysSize(width: nat, height: nat)
    ensures |PixelKeys(width, height)| == width * height
  {
    if height > 0 {
      PixelKeysSize(width, height - 1);
      RowSize(width, height - 1);
      PixelKeysAddRow(width, height - 1);
      DisjointUnionSize(PixelKeys(width, height - 1), Row(width, height - 1));
      MulSuccessor(width, height - 1);
    } else {
      NoRowsNoPixels(width);
    }
  }

  lemma MulSuccessor(w: int, h: int)
    ensures w * h + w == w * (h + 1)
  {
  }

  lemma NoRowsNoPixels(width: int)
    ensures PixelKeys(width, 0) == {}
  {
  }

  lemma DisjointUnionSize<T>(a: set<T>, b: set<T>)
    requires a !! b
    ensures |a + b| == |a| + |b|
  {
    assert a * b == {};
  }

  /** A frame buffer that can be created has exactly `width * height` entries. */
  lemma FramebufferSize(width: int, height: int)
    requires CreateFramebuffer(width, height).Success?
    ensures |CreateFramebuffer(width, height).value| == width * height
  {
    if height == 0 {
      assert PixelKeys(width, height) == {};
    } else {
      PixelKeysSize(width, height);
    }
  }

  /** ConcurrentDictionary.TryUpdate: replaces the value only if the key is present with `comparison`. */
  function TryUpdate(m: map<ScreenPoint, Vector3>, key: ScreenPoint, value: Vector3, comparison: Vector3): (m': map<ScreenPoint, Vector3>)
    ensures m'.Keys == m.Keys
    ensures forall p :: p in m && p != key ==> m'[p] == m[p]
    ensures key in m ==> m'[key] == if m[key] == comparison then value else m[key]
  {
    if key in m && m[key] == comparison then m[key := value] else m
  }

  /** The lens samples a pixel's `s`-th GetRay call draws, and the scatter draws of its bounces. */
  function BounceDraws(bounces: (int, int, int, int) -> ScatterSample, x: int, y: int, s: int): int -> ScatterSample {
    depth => bounces(x, y, s, depth)
  }

  /** `x / (n - 1)`, the float division that maps a pixel index to `[0, 1]`. */
  function ScreenCoord(i: int, n: int): real {
    Div(i as real, (n - 1) as real)
  }

  /** Pixel indices of an image at least 2 pixels across map into `[0, 1]`, the last one to 1. */
  lemma ScreenCoordBounds(i: int, n: int)
    requires 2 <= n && 0 <= i < n
    ensures 0.0 <= ScreenCoord(i, n) <= 1.0
    ensures i == n - 1 ==> ScreenCoord(i, n) == 1.0
  {
    var d := (n - 1) as real;
    var q := ScreenCoord(i, n);
    assert q * d == i as real;
    if q < 0.0 {
      MulNonNegative(-q, d);
    }
    if q > 1.0 {
      MulStrictLeft(1.0, q, d);
    }
    if i == n - 1 {
      assert q == Div(d, d);
      DivSelf(d);
    }
  }

  /**
   * SceneRunner: a scene, the render settings and the frame buffer the render fills. The
   * random draws of a render are parameters of its methods: `lens(x, y, s)` is the
   * RandomInUnitDisk point of sample `s` of pixel `(x, y)`, and `bounces(x, y, s, depth)` the
   * scatter draw of that sample at that depth.
   */
  class SceneRunner {
    const scene: Scene
    const samplesPerPixel: int
    const imageWidth: int
    const imageHeight: int
    const maxDepth: int
    var frameBuffer: map<ScreenPoint, Vector3>

    constructor(scene: Scene, samplesPerPixel: int, imageWidth: int := DefaultImageWidth,
                imageHeight: int := DefaultImageHeight, maxDepth: int := DefaultMaxDepth)
      requires CreateFramebuffer(imageWidth, imageHeight).Success?
      ensures this.scene == scene && this.samplesPerPixel == samplesPerPixel
      ensures this.imageWidth == imageWidth && this.imageHeight == imageHeight && this.maxDepth == maxDepth
      ensures frameBuffer == CreateFramebuffer(imageWidth, imageHeight).value
    {
      this.scene := scene;
      this.samplesPerPixel := samplesPerPixel;
      this.imageWidth := imageWidth;
      this.imageHeight := imageHeight;
      this.maxDepth := maxDepth;
      frameBuffer := CreateFramebuffer(imageWidth, imageHeight).value;
    }

    /** The colour of sample `s` of pixel `(x, y)`: a ray through the pixel, traced to `maxDepth`. */
    function SampleRadiance(sqrt: real -> real, x: int, y: int, s: int, lens: (int, int, int) -> Vector3,
                            bounces: (int, int, int, int) -> ScatterSample): (c: Vector3)
      reads scene
      ensures IsSqrt(sqrt) && Absorbing(scene.spheres) ==> InUnitCube(c)
    {
      var ray := GetRay(scene.camera, ScreenCoord(x, imageWidth), ScreenCoord(y, imageHeight), lens(x, y, s));
      RayColor(sqrt, ray, scene.spheres, maxDepth, BounceDraws(bounces, x, y, s))
    }

    /** The sum of the first `n` samples of pixel `(x, y)`. */
    function SampleSum(sqrt: real -> real, x: int, y: int, n: int, lens: (int, int, int) -> Vector3,
                       bounces: (int, int, int, int) -> ScatterSample): (sum: Vector3)
      reads scene
      ensures n <= 0 ==> sum == Zero
      ensures IsSqrt(sqrt) && Absorbing(scene.spheres) && n >= 0 ==>
                && 0.0 <= sum.x <= n as real && 0.0 <= sum.y <= n as real && 0.0 <= sum.z <= n as real
      decreases n
    {
      if n <= 0 then Zero
      else Add(SampleSum(sqrt, x, y, n - 1, lens, bounces), SampleRadiance(sqrt, x, y, n - 1, lens, bounces))
    }

    /** The unscaled colour of pixel `(x, y)`: the sum of its `samplesPerPixel` samples. */
    function PixelColor(sqrt: real -> real, x: int, y: int, lens: (int, int, int) -> Vector3,
                        bounces: (int, int, int, int) -> ScatterSample): (c: Vector3)
      reads scene
      ensures samplesPerPixel <= 0 ==> c == Zero
      ensures IsSqrt(sqrt) && Absorbing(scene.spheres) && samplesPerPixel >= 0 ==>
                && 0.0 <= c.x <= samplesPerPixel as real
                && 0.0 <= c.y <= samplesPerPixel as real
                && 0.0 <= c.z <= samplesPerPixel as real
    {
      SampleSum(sqrt, x, y, samplesPerPixel, lens, bounces)
    }

    /** `fb` after painting the still-black pixels of rows `y0 <= y < y1`, columns `0 <= x < xEnd`. */
    function Painted(sqrt: real -> real, fb: map<ScreenPoint, Vector3>, y0: int, y1: int, xEnd: int,
                     lens: (int, int, int) -> Vector3, bounces: (int, int, int, int) -> ScatterSample)
      : (painted: map<ScreenPoint, Vector3>)
      reads scene
      ensures painted.Keys == fb.Keys
      ensures forall p :: p in fb && !(y0 <= p.y < y1 && 0 <= p.x < xEnd) ==> painted[p] == fb[p]
      ensures forall p :: p in fb && fb[p] != Zero ==> painted[p] == fb[p]
    {
      map p | p in fb :: if y0 <= p.y < y1 && 0 <= p.x < xEnd && fb[p] == Zero
                         then PixelColor(sqrt, p.x, p.y, lens, bounces) else fb[p]
    }

    /** The inner loops of one row task for one pixel: the sum of its samples. */
    method RenderPixel(sqrt: real -> real, x: int, y: int, lens: (int, int, int) -> Vector3,
                       bounces: (int, int, int, int) -> ScatterSample)
      returns (pixelColor: Vector3)
      ensures pixelColor == PixelColor(sqrt, x, y, lens, bounces)
    {
      pixelColor := Zero;
      var s := 0;
      while s < samplesPerPixel
        invariant s <= samplesPerPixel || s == 0
        invariant pixelColor == SampleSum(sqrt, x, y, s, lens, bounces)
        decreases samplesPerPixel - s
      {
        var u := ScreenCoord(x, imageWidth);
        var v := ScreenCoord(y, imageHeight);
        var ray := GetRay(scene.camera, u, v, lens(x, y, s));
        pixelColor := Add(pixelColor, RayColor(sqrt, ray, scene.spheres, maxDepth, BounceDraws(bounces, x, y, s)));
        s := s + 1;
      }
      assert s == samplesPerPixel || samplesPerPixel <= 0;
    }

    /** One row task of Run: every pixel of row `y`, stored with TryUpdate against black. */
    method RenderRow(sqrt: real -> real, y: int, lens: (int, int, int) -> Vector3,
                     bounces: (int, int, int, int) -> ScatterSample)
      modifies this
      ensures frameBuffer == Painted(sqrt, old(frameBuffer), y, y + 1, imageWidth, lens, bounces)
    {
      ghost var start := frameBuffer;
      var x := 0;
      while x < imageWidth
        invariant 0 <= x && (x <= imageWidth || x == 0)
        invariant frameBuffer == Painted(sqrt, start, y, y + 1, x, lens, bounces)
        decreases imageWidth - x
      {
        PaintNextPixel(sqrt, start, y, x, lens, bounces);
        StorePixel(sqrt, x, y, lens, bounces);
        x := x + 1;
      }
    }

    /** The body of a row task's loop: render pixel `(x, y)` and TryUpdate it against black. */
    method StorePixel(sqrt: real -> real, x: int, y: int, lens: (int, int, int) -> Vector3,
                      bounces: (int, int, int, int) -> ScatterSample)
      modifies this
      ensures frameBuffer == TryUpdate(old(frameBuffer), ScreenPoint(x, y), PixelColor(sqrt, x, y, lens, bounces), Zero)
    {
      var pixelColor := RenderPixel(sqrt, x, y, lens, bounces);
      frameBuffer := TryUpdate(frameBuffer, ScreenPoint(x, y), pixelColor, Zero);
    }

    /** Run, with the row tasks taken one after the other. */
    method Run(sqrt: real -> real, lens: (int, int, int) -> Vector3,
               bounces: (int, int, int, int) -> ScatterSample)
      modifies this
      ensures frameBuffer == Painted(sqrt, old(frameBuffer), 0, imageHeight, imageWidth, lens, bounces)
    {
      ghost var start := frameBuffer;
      var y := 0;
      while y < imageHeight
        invariant 0 <= y && (y <= imageHeight || y == 0)
        invariant frameBuffer == Painted(sqrt, start, 0, y, imageWidth, lens, bounces)
        decreases imageHeight - y
      {
        PaintNextRow(sqrt, start, y, lens, bounces);
        RenderRow(sqrt, y, lens, bounces);
        y := y + 1;
      }
    }

    /** Painting one more pixel of a row is a TryUpdate of that pixel against black. */
    lemma PaintNextPixel(sqrt: real -> real, fb: map<ScreenPoint, Vector3>, y: int, x: int,
                         lens: (int, int, int) -> Vector3, bounces: (int, int, int, int) -> ScatterSample)
      requires 0 <= x
      ensures Painted(sqrt, fb, y, y + 1, x + 1, lens, bounces)
              == TryUpdate(Painted(sqrt, fb, y, y + 1, x, lens, bounces), ScreenPoint(x, y),
                           PixelColor(sqrt, x, y, lens, bounces), Zero)
    {
      var key := ScreenPoint(x, y);
      var before := Painted(sqrt, fb, y, y + 1, x, lens, bounces);
      var after := Painted(sqrt, fb, y, y + 1, x + 1, lens, bounces);
      var updated := TryUpdate(before, key, PixelColor(sqrt, x, y, lens, bounces), Zero);
      forall p | p in fb
        ensures after[p] == updated[p]
      {
        if p != key {
          assert after[p] == before[p];
        }
      }
      assert after == updated;
    }

    /** Painting one more row is painting that row into the frame painted so far. */
    lemma PaintNextRow(sqrt: real -> real, fb: map<ScreenPoint, Vector3>, y: int,
                       lens: (int, int, int) -> Vector3, bounces: (int, int, int, int) -> ScatterSample)
      requires 0 <= y
      ensures Painted(sqrt, fb, 0, y + 1, imageWidth, lens, bounces)
              == Painted(sqrt, Painted(sqrt, fb, 0, y, imageWidth, lens, bounces), y, y + 1, imageWidth, lens, bounces)
    {
    }
 
    /** Run on the frame buffer the constructor made gives every pixel its colour. */
    lemma FreshFramebufferFullyPainted(sqrt: real -> real, lens: (int, int, int) -> Vector3,
                                       bounces: (int, int, int, int) -> ScatterSample)
      requires CreateFramebuffer(imageWidth, imageHeight).Success?
      ensures var fb := Painted(sqrt, CreateFramebuffer(imageWidth, imageHeight).value, 0, imageHeight,
                                imageWidth, lens, bounces);
              && fb.Keys == PixelKeys(imageWidth, imageHeight)
              && forall p :: p in fb ==> fb[p] == PixelColor(sqrt, p.x, p.y, lens, bounces)
    {
    }
  }
}
