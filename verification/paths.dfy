/** Vector outlines as the shadow cache sees them. The float geometry of a
    `juce::Path` is opaque here: a path is an origin-agnostic `Shape` (its
    geometry up to translation, with a bounding box whose top-left corner is
    (0,0)) placed at an origin in the drawing context. Two shapes are equal
    exactly when the paths they stand for compare equal. */
module Paths {
  import opened Geometry

  type Extent = r: real | 0.0 <= r

  /** `outline` identifies the geometry up to translation; `width` and
      `height` are the extents of its bounding box. */
  datatype Shape = Shape(outline: nat, width: Extent, height: Extent) {
    /** Bounds of an origin-stripped path: always anchored at (0,0). */
    function Bounds(): FRect {
      FRect(0.0, 0.0, width, height)
    }
  }

  /** A default-constructed, empty `juce::Path`. */
  const EmptyShape := Shape(0, 0.0, 0.0)

  /** A path placed in the drawing context: its bounding box starts at `origin`. */
  datatype Path = Path(shape: Shape, origin: RPoint) {
    function Bounds(): FRect {
      FRect(origin.x, origin.y, shape.width, shape.height)
    }
  }

  /** A path transformed by `AffineTransform::scale (factor)`. */
  datatype ScaledShape = ScaledShape(shape: Shape, factor: real)

  datatype JointStyle = Mitered | Curved | Beveled
  datatype EndCapStyle = Butt | Square | Rounded

  /** `juce::PathStrokeType`; equality compares all three fields. */
  datatype StrokeType = StrokeType(thickness: real, joint: JointStyle, endCap: EndCapStyle)

  /** `PathStrokeType { -1.0f }`: the sentinel no real stroke compares equal to. */
  const UnsetStroke := StrokeType(-1.0, Mitered, Butt)

  /** `PathStrokeType::createStrokedPath (dest, source, {}, scale)`, a foreign
      operation supplied by the caller. */
  type Stroker = (Path, StrokeType, real) -> Path
}
