/** Vector3 extension methods: normalisation and the conversion of a summed radiance to an 8-bit colour. */
module VectorExtensions {
  import opened Numerics

  /**
   * `vector / vector.Length()`. The zero vector has no direction: IEEE arithmetic gives NaN
   * components there, the model gives the zero vector back (see Div).
   */
  function UnitVector(sqrt: real -> real, v: Vector3): (u: Vector3)
    ensures v == Zero ==> u == Zero
    ensures Length(sqrt, v) != 0.0 ==> Scale(Length(sqrt, v), u) == v
  {
    DivBy(v, Length(sqrt, v))
  }

  /** A non-zero vector divided by its length has length 1. */
  lemma UnitVectorIsUnit(sqrt: real -> real, v: Vector3)
    requires IsSqrt(sqrt) && v != Zero
    ensures LengthSquared(UnitVector(sqrt, v)) == 1.0
  {
    var s := LengthSquared(v);
    LengthSquaredZero(v);
    var len := Length(sqrt, v);
    SqrtPositive(sqrt, s);
    var u := UnitVector(sqrt, v);
    assert Scale(len, u) == v;
    assert LengthSquared(Scale(len, u)) == (len * len) * LengthSquared(u);
    MulBySame(len * len, s, LengthSquared(u));
    MulZero(s, LengthSquared(u) - 1.0);
  }

  /** A non-zero vector has a non-zero length, so UnitVector rescales it exactly. */
  lemma LengthOfNonZero(sqrt: real -> real, v: Vector3)
    requires IsSqrt(sqrt) && v != Zero
    ensures 0.0 < Length(sqrt, v)
    ensures Scale(Length(sqrt, v), UnitVector(sqrt, v)) == v
  {
    LengthSquaredZero(v);
    SqrtPositive(sqrt, LengthSquared(v));
  }

  /** Normalising a vector keeps it orthogonal to whatever it was orthogonal to. */
  lemma UnitVectorOrthogonal(sqrt: real -> real, v: Vector3, w: Vector3)
    requires IsSqrt(sqrt) && Dot(v, w) == 0.0
    ensures Dot(UnitVector(sqrt, v), w) == 0.0
  {
    if v != Zero {
      LengthOfNonZero(sqrt, v);
      var len := Length(sqrt, v);
      var u := UnitVector(sqrt, v);
      assert Dot(Scale(len, u), w) == len * Dot(u, w);
      MulZero(len, Dot(u, w));
    }
  }

  /** UnitVector is idempotent on non-zero vectors. */
  lemma UnitVectorOfUnit(sqrt: real -> real, v: Vector3)
    requires IsSqrt(sqrt) && LengthSquared(v) == 1.0
    ensures UnitVector(sqrt, v) == v
  {
    SqrtOne(sqrt);
  }

  /** SkiaSharp's SKColor: three channels, each an 8-bit integer. */
  datatype Color = Color(red: int, green: int, blue: int)

  /** Math.Clamp on floats (called here only with `min <= max`). */
  function Clamp(value: real, min: real, max: real): real {
    if value < min then min else if value > max then max else value
  }

  /** `(byte)(256 * Math.Clamp(value, 0, 0.999))`: the cast truncates, which is the floor here. */
  function ToByte(value: real): (b: int)
    ensures 0 <= b <= 255
  {
    (256.0 * Clamp(value, 0.0, 0.999)).Floor
  }

  /**
   * One channel of GetColor: average over the samples (`1 / samplesPerPixel` times the sum),
   * gamma 2 by a square root, then ToByte.
   */
  function ChannelByte(sqrt: real -> real, component: real, samplesPerPixel: int): (b: int)
    ensures 0 <= b <= 255
  {
    ToByte(Gamma(sqrt, component, samplesPerPixel))
  }

  /** `MathF.Sqrt(scale * component)` with `scale = 1f / samplesPerPixel`. */
  function Gamma(sqrt: real -> real, component: real, samplesPerPixel: int): real {
    sqrt(Div(1.0, samplesPerPixel as real) * component)
  }

  /** `vector.GetColor(samplesPerPixel)`: each channel is computed from its own component alone. */
  function GetColor(sqrt: real -> real, v: Vector3, samplesPerPixel: int): (c: Color)
    ensures 0 <= c.red <= 255 && 0 <= c.green <= 255 && 0 <= c.blue <= 255
    ensures c.red == ChannelByte(sqrt, v.x, samplesPerPixel)
    ensures c.green == ChannelByte(sqrt, v.y, samplesPerPixel)
    ensures c.blue == ChannelByte(sqrt, v.z, samplesPerPixel)
  {
    Color(ChannelByte(sqrt, v.x, samplesPerPixel),
          ChannelByte(sqrt, v.y, samplesPerPixel),
          ChannelByte(sqrt, v.z, samplesPerPixel))
  }

  lemma ToByteMonotone(a: real, b: real)
    requires a <= b
    ensures ToByte(a) <= ToByte(b)
  {
    assert Clamp(a, 0.0, 0.999) <= Clamp(b, 0.0, 0.999);
  }

  /** ToByte saturates from 0.999 on, and below it is `floor(256 * value)`. */
  lemma ToByteCases(value: real)
    requires 0.0 <= value
    ensures 0.999 <= value ==> ToByte(value) == 255
    ensures value < 0.999 ==> ToByte(value) == (256.0 * value).Floor
  {
  }

  /** The channel's average: `(1 / samplesPerPixel) * component`, that is `component / samplesPerPixel`. */
  lemma ScaleIsAverage(component: real, samplesPerPixel: int)
    requires 1 <= samplesPerPixel
    ensures Div(1.0, samplesPerPixel as real) * component == component / samplesPerPixel as real
  {
  }

  /**
   * The byte without square roots: an average of at least 0.999^2 saturates at 255; below
   * that the byte is the integer `b` with `b^2 <= 65536 * average < (b + 1)^2`, that is
   * `floor(256 * sqrt(average))`.
   */
  lemma ChannelByteExact(sqrt: real -> real, component: real, samplesPerPixel: int)
    requires IsSqrt(sqrt) && 0.0 <= component && 1 <= samplesPerPixel
    ensures var average := component / samplesPerPixel as real;
            var b := ChannelByte(sqrt, component, samplesPerPixel);
            && (0.998001 <= average ==> b == 255)
            && (average < 0.998001 ==>
                  (b as real) * (b as real) <= 65536.0 * average < (b as real + 1.0) * (b as real + 1.0))
  {
    var average := component / samplesPerPixel as real;
    ScaleIsAverage(component, samplesPerPixel);
    var s := sqrt(average);
    assert Gamma(sqrt, component, samplesPerPixel) == s;
    var b := ToByte(s);
    assert s * s == average;
    SquareMonotone(s, 0.999);
    ToByteCases(s);
    if s < 0.999 {
      var br := b as real;
      assert 0.0 <= br <= 256.0 * s < br + 1.0;
      assert (256.0 * s) * (256.0 * s) == 65536.0 * average;
      SquareMonotone(br, 256.0 * s);
      SquareMonotone(256.0 * s, br + 1.0);
    }
  }

  /** A pixel that gathered no light is black. */
  lemma ChannelByteOfZero(sqrt: real -> real, samplesPerPixel: int)
    requires IsSqrt(sqrt)
    ensures ChannelByte(sqrt, 0.0, samplesPerPixel) == 0
  {
    SqrtZero(sqrt);
  }

  lemma AverageMonotone(c1: real, c2: real, samplesPerPixel: int)
    requires 0.0 <= c1 <= c2 && 1 <= samplesPerPixel
    ensures 0.0 <= Div(1.0, samplesPerPixel as real) * c1 <= Div(1.0, samplesPerPixel as real) * c2
  {
    var scale := Div(1.0, samplesPerPixel as real);
    assert 0.0 < scale;
    MulMonotone(scale, c1, scale, c2);
    MulNonNegative(scale, c1);
  }

  lemma GammaMonotone(sqrt: real -> real, c1: real, c2: real, samplesPerPixel: int)
    requires IsSqrt(sqrt) && 0.0 <= c1 <= c2 && 1 <= samplesPerPixel
    ensures Gamma(sqrt, c1, samplesPerPixel) <= Gamma(sqrt, c2, samplesPerPixel)
  {
    AverageMonotone(c1, c2, samplesPerPixel);
    SqrtMonotone(sqrt, Div(1.0, samplesPerPixel as real) * c1, Div(1.0, samplesPerPixel as real) * c2);
  }

  /** More light never gives a darker byte. */
  lemma ChannelByteMonotone(sqrt: real -> real, c1: real, c2: real, samplesPerPixel: int)
    requires IsSqrt(sqrt) && 0.0 <= c1 <= c2 && 1 <= samplesPerPixel
    ensures ChannelByte(sqrt, c1, samplesPerPixel) <= ChannelByte(sqrt, c2, samplesPerPixel)
  {
    GammaMonotone(sqrt, c1, c2, samplesPerPixel);
    ToByteMonotone(Gamma(sqrt, c1, samplesPerPixel), Gamma(sqrt, c2, samplesPerPixel));
  }
}
