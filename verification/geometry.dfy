/** Vectors, the two declarative layout values (Coordinate and Dimension) and
    the rules that resolve them against a parent span. All quantities are
    `real`: the single-precision rounding of the original is not modelled. */
module Geometry {

  datatype Vec2 = Vec2(x: real, y: real)
  datatype Vec3 = Vec3(x: real, y: real, z: real)
  datatype Vec4 = Vec4(x: real, y: real, z: real, w: real)

  // ---------------------------------------------------------------------------
  // Numeric helpers

  /** Linear interpolation `a + t * (b - a)`. */
  function Lerp(a: real, b: real, t: real): (r: real)
    ensures t == 0.0 ==> r == a
    ensures t == 1.0 ==> r == b
  {
    a + t * (b - a)
  }

  function Lerp2(a: Vec2, b: Vec2, t: real): Vec2 {
    Vec2(Lerp(a.x, b.x, t), Lerp(a.y, b.y, t))
  }

  function Lerp3(a: Vec3, b: Vec3, t: real): Vec3 {
    Vec3(Lerp(a.x, b.x, t), Lerp(a.y, b.y, t), Lerp(a.z, b.z, t))
  }

  function Lerp4(a: Vec4, b: Vec4, t: real): Vec4 {
    Vec4(Lerp(a.x, b.x, t), Lerp(a.y, b.y, t), Lerp(a.z, b.z, t), Lerp(a.w, b.w, t))
  }

  function Min(a: real, b: real): real { if a <= b then a else b }
  function Max(a: real, b: real): real { if a >= b then a else b }

  /** Division where the source divides by a span that may be zero. IEEE
      infinities and NaN are outside this model: a zero divisor gives 0. */
  function SafeDiv(a: real, b: real): (q: real)
    ensures b != 0.0 ==> q * b == a
    ensures b == 0.0 ==> q == 0.0
  {
    if b == 0.0 then 0.0 else a / b
  }

  /** C's float-to-int conversion, which truncates toward zero. */
  function Trunc(x: real): (n: int)
    ensures x >= 0.0 ==> 0.0 <= n as real <= x < n as real + 1.0
    ensures x < 0.0 ==> n as real - 1.0 < x <= n as real <= 0.0
  {
    if x >= 0.0 then x.Floor else -((-x).Floor)
  }

  // ---------------------------------------------------------------------------
  // Coordinate: one axis of a position

  datatype PosKind = RelativePos | PixelPos

  /** Which point of the element (and, for pixel offsets, of the parent) the
      coordinate refers to. */
  datatype Anchor = CenterMin | CenterCenter | CenterMax

  /** `param` is the single float slot that the source shares between
      `relativePos` and `pixelPos`: changing only `kind` reinterprets it. */
  datatype Coordinate = Coordinate(kind: PosKind, param: real, anchor: Anchor)

  /** A default-constructed Coordinate: relative, centred, fraction 0.5. */
  const DefaultCoordinate := Coordinate(RelativePos, 0.5, CenterCenter)

  /** The point of a span of length `size` centred at `center` named by `a`. */
  function AnchorPoint(a: Anchor, center: real, size: real): real {
    match a
    case CenterMin => center - size / 2.0
    case CenterCenter => center
    case CenterMax => center + size / 2.0
  }

  /** Resolves a coordinate to the centre of the element, in pixels, given the
      parent's centre and extent and the element's own extent on this axis. */
  function CalcRenderPos(c: Coordinate, parentPos: real, parentSize: real, size: real): (pos: real)
    // a relative coordinate puts the element's anchor point at fraction
    // `param` of the way across the parent, from its min edge
    ensures c.kind == RelativePos ==>
      AnchorPoint(c.anchor, pos, size) == AnchorPoint(CenterMin, parentPos, parentSize) + c.param * parentSize
    // a pixel coordinate measures `param` inwards from the parent's matching point
    ensures c.kind == PixelPos && c.anchor == CenterMin ==>
      pos - size / 2.0 == AnchorPoint(CenterMin, parentPos, parentSize) + c.param
    ensures c.kind == PixelPos && c.anchor == CenterCenter ==>
      pos == parentPos + c.param
    ensures c.kind == PixelPos && c.anchor == CenterMax ==>
      pos + size / 2.0 == AnchorPoint(CenterMax, parentPos, parentSize) - c.param
  {
    var base :=
      match c.kind
      case PixelPos =>
        (match c.anchor
         case CenterCenter => parentPos + c.param
         case CenterMax => parentPos + parentSize * 0.5 - c.param
         case CenterMin => parentPos - parentSize * 0.5 + c.param)
      case RelativePos => parentPos + parentSize * (c.param - 0.5);
    match c.anchor
    case CenterMin => base + size * 0.5
    case CenterMax => base - size * 0.5
    case CenterCenter => base
  }

  /** The default coordinate centres the element in its parent. */
  lemma DefaultCoordinateCentres(parentPos: real, parentSize: real, size: real)
    ensures CalcRenderPos(DefaultCoordinate, parentPos, parentSize, size) == parentPos
  {
  }

  /** A centred pixel offset of 0 and the relative fraction 0.5 agree. */
  lemma ZeroOffsetIsHalfFraction(parentPos: real, parentSize: real, size: real)
    ensures CalcRenderPos(Coordinate(PixelPos, 0.0, CenterCenter), parentPos, parentSize, size)
         == CalcRenderPos(Coordinate(RelativePos, 0.5, CenterCenter), parentPos, parentSize, size)
  {
  }

  /** Moving the parent moves the element by the same amount: this is what lets
      the transition engine resolve coordinates against a zero baseline. */
  lemma PositionTranslates(c: Coordinate, parentPos: real, d: real, parentSize: real, size: real)
    ensures CalcRenderPos(c, parentPos + d, parentSize, size) == CalcRenderPos(c, parentPos, parentSize, size) + d
  {
  }

  // ---------------------------------------------------------------------------
  // Dimension: one axis of a size

  datatype SizeKind = RelativeSize | PixelSize | AspectSize | SpaceSize

  /** `param` is the single float slot the source shares between
      `relativeSize`, `pixelSize`, `aspectRatio` and `emptyPixels`. */
  datatype Dimension = Dimension(kind: SizeKind, param: real)

  /** A default-constructed Dimension: relative, fraction 1.0. */
  const DefaultDimension := Dimension(RelativeSize, 1.0)

  /** Resolves a size against the parent's extent on the same axis. An aspect
      size cannot be resolved from one axis alone and falls back to the parent
      extent here; the element resolves it against its other axis. */
  function CalcRenderSize(d: Dimension, parentSize: real): (size: real)
    ensures d.kind == PixelSize ==> size == d.param
    ensures d.kind == RelativeSize ==> size == parentSize * d.param
    ensures d.kind == SpaceSize ==> size + d.param == parentSize
    ensures d.kind == AspectSize ==> size == parentSize
  {
    match d.kind
    case PixelSize => d.param
    case RelativeSize => parentSize * d.param
    case SpaceSize => parentSize - d.param
    case AspectSize => parentSize
  }

  /** A margin wider than the parent yields a negative size: the source does
      not clamp it. */
  lemma SpaceCanBeNegative()
    ensures CalcRenderSize(Dimension(SpaceSize, 40.0), 30.0) < 0.0
  {
  }

  /** The parameter slot both structs share between their kinds, and its
      defaults: changing only the kind reinterprets the same number, so a
      centred coordinate reads it as a fraction or as a pixel offset and a
      dimension as a fraction, a pixel size (whatever the parent) or a
      margin; the default dimension, relative 1.0, fills the parent. */
  lemma SharedSlot(c: Coordinate, d: Dimension, parentPos: real, parentSize: real, otherParent: real, size: real)
    requires c.anchor == CenterCenter
    ensures CalcRenderPos(c.(kind := RelativePos), parentPos, parentSize, size) == parentPos + parentSize * (c.param - 0.5)
    ensures CalcRenderPos(c.(kind := PixelPos), parentPos, parentSize, size) == parentPos + c.param
    ensures CalcRenderSize(d.(kind := PixelSize), parentSize) == d.param == CalcRenderSize(d.(kind := PixelSize), otherParent)
    ensures CalcRenderSize(d.(kind := RelativeSize), parentSize) == parentSize * d.param
    ensures CalcRenderSize(d.(kind := SpaceSize), parentSize) == parentSize - d.param
    ensures CalcRenderSize(DefaultDimension, parentSize) == parentSize
  {
  }
}
