/**
 * Values shared by the 2D light model: optional values, the exception outcome of
 * an operation, IEEE single-precision floats reduced to what the light code
 * compares, colours and vectors, and the designer-facing enumerations of
 * Light2D.
 */
module Values {

  datatype Option<+T> = None | Some(value: T)

  /**
   * The .NET exceptions the modelled code can raise: an array index out of range,
   * a List<T> index out of range, a member access on null.
   */
  datatype Exception = IndexOutOfRange | ArgumentOutOfRange | NullReference

  /** The outcome of a statement sequence that may throw. */
  datatype Outcome = Completed | Threw(error: Exception)

  /**
   * A float as far as the light code looks at it: a number or NaN. Positive and
   * negative zero are one value here, as both C# `!=` and float.CompareTo treat them.
   */
  datatype Float = Num(value: real) | NaN

  /** C# `a != b` on floats: NaN differs from everything, itself included. */
  predicate FloatNotEqual(a: Float, b: Float) {
    a.NaN? || b.NaN? || a.value != b.value
  }

  /**
   * float.CompareTo (what Comparer<float>.Default uses): NaN is equal to NaN
   * and precedes every number.
   */
  function FloatCompare(a: Float, b: Float): (c: int)
    ensures -1 <= c <= 1
  {
    match (a, b)
    case (NaN, NaN) => 0
    case (NaN, Num(_)) => -1
    case (Num(_), NaN) => 1
    case (Num(x), Num(y)) => if x < y then -1 else if x > y then 1 else 0
  }

  /** CompareTo reports "different" exactly when the two floats are different values. */
  lemma FloatCompareIsIdentity(a: Float, b: Float)
    ensures FloatCompare(a, b) == 0 <==> a == b
  {
    match (a, b)
    case (NaN, NaN) =>
    case (NaN, Num(_)) =>
    case (Num(_), NaN) =>
    case (Num(x), Num(y)) =>
  }

  /** C# `!=` agrees with value inequality except that a NaN is never equal to itself. */
  lemma FloatNotEqualIsIdentityExceptNaN(a: Float, b: Float)
    ensures FloatNotEqual(a, b) <==> (a != b || a.NaN?)
  {
  }

  /** UnityEngine.Color: four float channels, HDR values allowed. */
  datatype Color = Color(r: Float, g: Float, b: Float, a: Float)

  predicate HasNaN(c: Color) {
    c.r.NaN? || c.g.NaN? || c.b.NaN? || c.a.NaN?
  }

  const White := Color(Num(1.0), Num(1.0), Num(1.0), Num(1.0))

  /** The colour with the same r, g, b and alpha 0, as used for the feather ring. */
  function Transparent(c: Color): (t: Color)
    ensures t.r == c.r && t.g == c.g && t.b == c.b && t.a == Num(0.0)
  {
    Color(c.r, c.g, c.b, Num(0.0))
  }

  datatype Vec2 = Vec2(x: Float, y: Float)
  datatype Vec3 = Vec3(x: Float, y: Float, z: Float)
  datatype Vec4 = Vec4(x: Float, y: Float, z: Float, w: Float)

  const Vec2Zero := Vec2(Num(0.0), Num(0.0))

  /** A texture asset, by identity. */
  datatype Texture = Texture(textureId: int)

  /** A sprite asset: its instance id and its (possibly missing) texture. */
  datatype Sprite = Sprite(instanceId: int, texture: Option<Texture>)

  /** A camera, by identity. */
  datatype Camera = Camera(cameraId: int)

  datatype LightProjectionType = Shape | Point

  /** Only the two declared styles (Parametric = 0, Sprite = 2) are modelled. */
  datatype CookieStyle = Parametric | SpriteCookie

  datatype ParametricShape = Circle | Freeform

  datatype LightOverlapMode = Additive | AlphaBlend

  /** LightOperation.Type0 .. Type2, the category of a light. */
  type LightOperation = k: int | 0 <= k < 3

  /** Light2DType.Count: three shape categories and the point bucket. */
  const LightTypeCount := 4

  /** The index of the Light2DType.Point bucket. */
  const PointBucket := 3
}
