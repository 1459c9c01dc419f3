/** One drop or inner shadow (`RenderedSingleChannelShadow`): its parameters,
    the position-independent single-channel mask rendered from them and the
    device-space bounds derived alongside it. The blur itself is foreign; a
    mask records its size and every input the blur reads. */
module SingleShadow {
  import opened Geometry
  import opened Paths

  /** `juce::Colour`; the alpha channel is kept as a fraction. */
  datatype Colour = Colour(red: int, green: int, blue: int, alpha: real)

  /** A default-constructed `juce::Colour`. */
  const TransparentBlack := Colour(0, 0, 0, 0.0)

  /** `ShadowParameters`: one colour, a blur radius, an integer offset, a
      spread that grows (drop) or shrinks (inner) the outline, and the kind. */
  datatype ShadowParameters = ShadowParameters(
    color: Colour,
    radius: int,
    offset: Point,
    spread: int,
    inner: bool)

  const DefaultParameters := ShadowParameters(TransparentBlack, 1, Origin, 0, false)

  /** How the outline is filled before blurring: as is for a drop shadow;
      for an inner shadow, inverted inside a rectangle `pad` wider than it. */
  datatype Fill = Solid | InvertedWithin(pad: int)

  /** Everything the foreign fill-and-blur step reads: the origin-agnostic
      shape, the spread it is reshaped by (in logical units, 0 when it is not),
      the fill, the scale, the device-space corner the mask starts at and the
      signed device blur radius, which the blur receives as
      `SizeCast (blurRadius)`. The offset is deliberately not among them. */
  datatype MaskSource = MaskSource(
    shape: Shape,
    reshape: int,
    fill: Fill,
    scale: real,
    origin: Point,
    blurRadius: int)

  /** A single-channel image: null, or a blurred stencil of the given size. */
  datatype Mask = NoMask | Mask(width: int, height: int, source: MaskSource)

  datatype Shadow = Shadow(
    params: ShadowParameters,
    mask: Mask,
    scaledShadowBounds: Rect,
    scaledPathBounds: Rect,
    scaledRadius: int,
    scaledSpread: int,
    scaledOffset: Point)

  /** Result of a compare-and-set updater: whether anything changed, and the shadow after it. */
  datatype Updated = Updated(changed: bool, shadow: Shadow)

  /** A freshly constructed shadow: parameters only, nothing rendered yet. */
  function NewShadow(p: ShadowParameters): (s: Shadow)
    ensures s.params == p
    ensures s.mask == NoMask
    ensures s.scaledShadowBounds.IsEmpty() && s.scaledPathBounds.IsEmpty()
    ensures s.scaledOffset == Origin
  {
    Shadow(p, NoMask, NoRect, NoRect, 0, 0, Origin)
  }

  /** Everything a shadow derives from its parameters, i.e. all but `params`. */
  predicate SameRendering(a: Shadow, b: Shadow) {
    && a.mask == b.mask
    && a.scaledShadowBounds == b.scaledShadowBounds
    && a.scaledPathBounds == b.scaledPathBounds
    && a.scaledRadius == b.scaledRadius
    && a.scaledSpread == b.scaledSpread
    && a.scaledOffset == b.scaledOffset
  }

  /** `getScaledBounds`: the offset is applied when the bounds are read. */
  function GetScaledBounds(s: Shadow): Rect {
    s.scaledShadowBounds.Translated(s.scaledOffset)
  }

  /** `getScaledPathBounds`. */
  function GetScaledPathBounds(s: Shadow): Rect {
    s.scaledPathBounds
  }

  // ---------------------------------------------------------------------
  // Device-space offset

  /** A logical length in device pixels: the nearest integer to `v * scale`
      (`roundToInt ((float) v * scale)`). */
  function ScaleLength(v: int, scale: real): (n: int)
    ensures -0.5 <= n as real - v as real * scale <= 0.5
  {
    Round(v as real * scale)
  }

  /** At an integral scale no rounding happens. */
  lemma ScaleLengthExact(v: int, scale: real)
    requires IsIntegral(scale)
    ensures ScaleLength(v, scale) as real == v as real * scale
  {
    var f := scale.Floor;
    assert v as real * scale == (v * f) as real;
    assert IsIntegral((v * f) as real);
  }

  /** At an integral scale distinct lengths stay distinct in device pixels,
      so a radius change always changes the blur radius. The setter
      counterexamples in `CachedShadows` rest on this. */
  lemma ScaleLengthInjective(a: int, b: int, scale: Scale)
    requires IsIntegral(scale) && a != b
    ensures ScaleLength(a, scale) != ScaleLength(b, scale)
    ensures a as real * scale != b as real * scale
  {
    ScaleLengthExact(a, scale);
    ScaleLengthExact(b, scale);
    assert (a - b) as real * scale != 0.0;
    assert a as real * scale - b as real * scale == (a - b) as real * scale;
  }

  /** The device-space offset: each coordinate is the nearest integer to the
      logical offset times the scale. */
  function ScaleOffset(offset: Point, scale: real): (r: Point)
    ensures -0.5 <= r.x as real - offset.x as real * scale <= 0.5
    ensures -0.5 <= r.y as real - offset.y as real * scale <= 0.5
  {
    Point(ScaleLength(offset.x, scale), ScaleLength(offset.y, scale))
  }

  /** `(offset * scale).roundToInt()` as JUCE evaluates it: `Point<int> * float`
      converts each product back to `int` (truncating) before the rounding,
      which then has nothing left to round. */
  function ScaleOffsetAsWritten(offset: Point, scale: real): (r: Point)
    ensures 0.0 <= offset.x as real * scale ==> 0.0 <= offset.x as real * scale - r.x as real < 1.0
    ensures offset.x as real * scale < 0.0 ==> 0.0 <= r.x as real - offset.x as real * scale < 1.0
    ensures 0.0 <= offset.y as real * scale ==> 0.0 <= offset.y as real * scale - r.y as real < 1.0
    ensures offset.y as real * scale < 0.0 ==> 0.0 <= r.y as real - offset.y as real * scale < 1.0
  {
    Point(Trunc(offset.x as real * scale), Trunc(offset.y as real * scale))
  }

  /** At 125% scale an offset of (3,-3) becomes (3,-3) as written, 0.75 of a
      pixel short in each direction; the nearest integers are (4,-4). */
  lemma TruncatedOffsetMissesNearest()
    ensures ScaleOffsetAsWritten(Point(3, -3), 1.25) == Point(3, -3)
    ensures ScaleOffset(Point(3, -3), 1.25) == Point(4, -4)
  {
    assert 3.0 * 1.25 == 3.75;
    assert (3.75).Floor == 3;
    assert (-3.75).Floor == -4;
  }

  // ---------------------------------------------------------------------
  // Compare-and-set updaters

  /** `updateRadius`. */
  function UpdateRadius(s: Shadow, radius: int): (r: Updated)
    ensures r.changed <==> radius != s.params.radius
    ensures r.shadow.params.radius == radius
    ensures r.shadow.params.(radius := s.params.radius) == s.params
    ensures SameRendering(r.shadow, s)
  {
    if radius == s.params.radius then Updated(false, s)
    else Updated(true, s.(params := s.params.(radius := radius)))
  }

  /** `updateSpread`. */
  function UpdateSpread(s: Shadow, spread: int): (r: Updated)
    ensures r.changed <==> spread != s.params.spread
    ensures r.shadow.params.spread == spread
    ensures r.shadow.params.(spread := s.params.spread) == s.params
    ensures SameRendering(r.shadow, s)
  {
    if spread == s.params.spread then Updated(false, s)
    else Updated(true, s.(params := s.params.(spread := spread)))
  }

  /** `updateColor`. */
  function UpdateColor(s: Shadow, color: Colour): (r: Updated)
    ensures r.changed <==> color != s.params.color
    ensures r.shadow.params.color == color
    ensures r.shadow.params.(color := s.params.color) == s.params
    ensures SameRendering(r.shadow, s)
  {
    if color == s.params.color then Updated(false, s)
    else Updated(true, s.(params := s.params.(color := color)))
  }

  /** `updateOpacity`: replaces only the alpha of the colour. */
  function UpdateOpacity(s: Shadow, opacity: real): (r: Updated)
    ensures r.changed <==> opacity != s.params.color.alpha
    ensures r.shadow.params.color.alpha == opacity
    ensures r.shadow.params.color.(alpha := s.params.color.alpha) == s.params.color
    ensures r.shadow.params.(color := s.params.color) == s.params
    ensures SameRendering(r.shadow, s)
  {
    if opacity == s.params.color.alpha then Updated(false, s)
    else Updated(true, s.(params := s.params.(color := s.params.color.(alpha := opacity))))
  }

  /** `updateOffset`: also refreshes the device-space offset, and nothing the
      mask or its bounds depend on. */
  function UpdateOffset(s: Shadow, offset: Point, scale: real): (r: Updated)
    ensures r.changed <==> offset != s.params.offset
    ensures r.shadow.params.offset == offset
    ensures r.shadow.params.(offset := s.params.offset) == s.params
    ensures r.changed ==> r.shadow.scaledOffset == ScaleOffset(offset, scale)
    ensures !r.changed ==> r.shadow == s
    ensures r.shadow.mask == s.mask
    ensures r.shadow.scaledShadowBounds == s.scaledShadowBounds
    ensures r.shadow.scaledPathBounds == s.scaledPathBounds
    ensures r.shadow.scaledRadius == s.scaledRadius && r.shadow.scaledSpread == s.scaledSpread
  {
    if offset == s.params.offset then Updated(false, s)
    else Updated(true, s.(params := s.params.(offset := offset), scaledOffset := ScaleOffset(offset, scale)))
  }

  /** Setting a value and then setting the previous one back restores the
      shadow exactly, and both calls report a change exactly when the values differ. */
  lemma {:induction false} UpdatesUndo(s: Shadow, radius: int, spread: int, color: Colour, opacity: real)
    ensures var u := UpdateRadius(s, radius);
      var v := UpdateRadius(u.shadow, s.params.radius);
      v.shadow == s && v.changed == u.changed
    ensures var u := UpdateSpread(s, spread);
      var v := UpdateSpread(u.shadow, s.params.spread);
      v.shadow == s && v.changed == u.changed
    ensures var u := UpdateColor(s, color);
      var v := UpdateColor(u.shadow, s.params.color);
      v.shadow == s && v.changed == u.changed
    ensures var u := UpdateOpacity(s, opacity);
      var v := UpdateOpacity(u.shadow, s.params.color.alpha);
      v.shadow == s && v.changed == u.changed
  {
  }

  /** Undoing an offset change restores the shadow when its device-space
      offset was up to date with the scale. */
  lemma OffsetUndo(s: Shadow, offset: Point, scale: real)
    requires s.scaledOffset == ScaleOffset(s.params.offset, scale)
    ensures var u := UpdateOffset(s, offset, scale);
      var v := UpdateOffset(u.shadow, s.params.offset, scale);
      v.shadow == s && v.changed == u.changed
  {
  }

  /** An offset change moves the shadow's bounds by the change of the
      device-space offset without resizing them; the path bounds stay put. */
  lemma OffsetMovesBoundsOnly(s: Shadow, offset: Point, scale: real)
    ensures var u := UpdateOffset(s, offset, scale).shadow;
      && GetScaledBounds(u) == GetScaledBounds(s).Translated(u.scaledOffset.Minus(s.scaledOffset))
      && GetScaledBounds(u).w == GetScaledBounds(s).w
      && GetScaledBounds(u).h == GetScaledBounds(s).h
      && GetScaledPathBounds(u) == GetScaledPathBounds(s)
  {
  }

  // ---------------------------------------------------------------------
  // Bounds

  /** How far the shadow reaches beyond the path on each side: spread grows
      a drop shadow's outline and shrinks an inner shadow's. */
  function BlurMargin(inner: bool, scaledRadius: int, scaledSpread: int): int {
    if inner then scaledRadius - scaledSpread else scaledRadius + scaledSpread
  }

  /** The one-pixel buffer added at a fractional scale for sub-pixel edges. */
  function SubpixelPad(scale: real): (pad: int)
    ensures pad == 0 <==> IsIntegral(scale)
  {
    if IsIntegral(scale) then 0 else 1
  }

  /** `updateScaledShadowBounds`: derives the device-space radius, spread and
      offset and the bounds of the mask around the scaled path bounds. */
  function UpdateScaledShadowBounds(s: Shadow, scale: real): (r: Shadow)
    ensures r.params == s.params && r.mask == s.mask && r.scaledPathBounds == s.scaledPathBounds
    ensures -0.5 <= r.scaledRadius as real - s.params.radius as real * scale <= 0.5
    ensures -0.5 <= r.scaledSpread as real - s.params.spread as real * scale <= 0.5
    ensures r.scaledOffset == ScaleOffset(s.params.offset, scale)
    ensures var m := BlurMargin(s.params.inner, r.scaledRadius, r.scaledSpread) + SubpixelPad(scale);
      r.scaledShadowBounds.Position() == s.scaledPathBounds.Position().Minus(Point(m, m))
    ensures var m := BlurMargin(s.params.inner, r.scaledRadius, r.scaledSpread);
      var pad := SubpixelPad(scale);
      && r.scaledShadowBounds.w == Max(0, s.scaledPathBounds.w + 2 * m) + 2 * pad
      && r.scaledShadowBounds.h == Max(0, s.scaledPathBounds.h + 2 * m) + 2 * pad
  {
    var scaledSpread := ScaleLength(s.params.spread, scale);
    var scaledRadius := ScaleLength(s.params.radius, scale);
    var scaledOffset := ScaleOffset(s.params.offset, scale);
    var margin := BlurMargin(s.params.inner, scaledRadius, scaledSpread);
    var bounds := s.scaledPathBounds.Expanded(margin, margin);
    var padded := if !IsIntegral(scale) then bounds.Expanded(1, 1) else bounds;
    s.(scaledSpread := scaledSpread, scaledRadius := scaledRadius,
       scaledOffset := scaledOffset, scaledShadowBounds := padded)
  }

  /** The shadow bounds are the path bounds expanded by the blur margin; a
      fractional scale widens them by exactly one more pixel on every side. */
  lemma SubpixelPadding(s: Shadow, scale: real)
    ensures var r := UpdateScaledShadowBounds(s, scale);
      var m := BlurMargin(s.params.inner, r.scaledRadius, r.scaledSpread);
      var e := s.scaledPathBounds.Expanded(m, m);
      && (IsIntegral(scale) ==> r.scaledShadowBounds == e)
      && (!IsIntegral(scale) ==> r.scaledShadowBounds == Rect(e.x - 1, e.y - 1, e.w + 2, e.h + 2))
  {
  }

  /** A drop shadow whose spread does not eat its radius encloses its path. */
  lemma DropShadowEnclosesPath(s: Shadow, scale: real)
    requires !s.params.inner && 0 <= s.params.radius && 0 <= s.params.spread
    requires 0.0 < scale
    ensures s.scaledPathBounds.Within(UpdateScaledShadowBounds(s, scale).scaledShadowBounds)
  {
    var r := UpdateScaledShadowBounds(s, scale);
    assert 0.0 <= s.params.radius as real * scale;
    assert 0.0 <= s.params.spread as real * scale;
  }

  /** At scale 1, a drop shadow of radius `radius`, no spread and offset `o`
      around a W x H path at (0,0) covers (o.x - radius, o.y - radius,
      W + 2 radius, H + 2 radius). */
  lemma UnitScaleDropBounds(s: Shadow, radius: int, o: Point, w: nat, h: nat)
    requires s.params.radius == radius && 0 <= radius
    requires s.params.spread == 0 && !s.params.inner && s.params.offset == o
    requires s.scaledPathBounds == Rect(0, 0, w, h)
    ensures GetScaledBounds(UpdateScaledShadowBounds(s, 1.0))
         == Rect(o.x - radius, o.y - radius, w + 2 * radius, h + 2 * radius)
  {
    var r := UpdateScaledShadowBounds(s, 1.0);
    assert IsIntegral(1.0);
    assert r.scaledRadius == radius;
    assert r.scaledSpread == 0;
    assert r.scaledOffset == o;
  }

  // ---------------------------------------------------------------------
  // Rendering

  /** The spread the outline is reshaped by before blurring: only unstroked
      paths are reshaped, outward for drop shadows and inward for inner ones. */
  function Reshape(p: ShadowParameters, stroked: bool): (r: int)
    ensures r != 0 <==> !stroked && p.spread != 0
    ensures r != 0 ==> (0 < r <==> (0 < p.spread) != p.inner)
  {
    if !stroked && p.spread != 0 then (if p.inner then -p.spread else p.spread) else 0
  }

  /** The scaled path bounds of an origin-stripped shape: the smallest integer
      box holding it at `scale`, anchored at (0,0). */
  function ScaledPathBounds(path: Shape, scale: real): (r: Rect)
    ensures r == Rect(0, 0, Ceil(path.width * scale), Ceil(path.height * scale))
  {
    AnchoredContainer(path.width, path.height, scale);
    path.Bounds().Scaled(scale).SmallestIntegerContainer()
  }

  /** `render`: recomputes the scaled path bounds and the shadow bounds, then
      builds the mask. A null image is first assigned for a radius below 1 or
      empty bounds, and is always replaced by the freshly built mask. */
  function RenderShadow(s: Shadow, path: Shape, scale: real, stroked: bool): (r: Shadow)
    requires 0.0 < scale
    ensures r.params == s.params
    ensures r.scaledPathBounds == Rect(0, 0, Ceil(path.width * scale), Ceil(path.height * scale))
    ensures UpdateScaledShadowBounds(r, scale) == r
    ensures r.mask.Mask?
    ensures r.mask.width == r.scaledShadowBounds.w && r.mask.height == r.scaledShadowBounds.h
    ensures r.mask.source.shape == path && r.mask.source.scale == scale
    ensures r.mask.source.origin == r.scaledShadowBounds.Position()
    ensures r.mask.source.blurRadius == r.scaledRadius
    ensures r.mask.source.reshape != 0 <==> !stroked && s.params.spread != 0
    ensures r.mask.source.fill.InvertedWithin? <==> s.params.inner
  {
    var withPath := s.(scaledPathBounds := ScaledPathBounds(path, scale));
    var sized := UpdateScaledShadowBounds(withPath, scale);
    var cleared :=
      if sized.params.radius < 1 || sized.scaledShadowBounds.IsEmpty() then sized.(mask := NoMask)
      else sized;
    var fill := if sized.params.inner then InvertedWithin(sized.scaledRadius) else Solid;
    var source := MaskSource(path, Reshape(sized.params, stroked), fill, scale,
                             sized.scaledShadowBounds.Position(), sized.scaledRadius);
    cleared.(mask := Mask(sized.scaledShadowBounds.w, sized.scaledShadowBounds.h, source))
  }

  /** A rendered shadow blurs with its radius scaled to the nearest pixel. */
  lemma RenderedBlurRadius(s: Shadow, path: Shape, scale: real, stroked: bool)
    requires 0.0 < scale
    ensures var r := RenderShadow(s, path, scale, stroked);
      r.scaledRadius == ScaleLength(s.params.radius, scale) && r.mask.source.blurRadius == r.scaledRadius
  {
  }

  /** The blur receives the device radius through a `(size_t)` cast. A
      negative radius is not rejected anywhere: a drop shadow of radius -1 at
      scale 1 still gets a mask the size of its bounds, and the blur is
      handed 2^64 - 1. */
  lemma NegativeRadiusWrapsBlurRadius(outline: nat, w: nat, h: nat)
    ensures var p := ShadowParameters(TransparentBlack, -1, Origin, 0, false);
      var s := RenderShadow(NewShadow(p), Shape(outline, w as real, h as real), 1.0, false);
      && s.mask.Mask?
      && s.mask.source.blurRadius == -1
      && SizeCast(s.mask.source.blurRadius) == 0xFFFF_FFFF_FFFF_FFFF
  {
    var p := ShadowParameters(TransparentBlack, -1, Origin, 0, false);
    RenderAtUnitScale(NewShadow(p), outline, w, h, false);
  }

  /** The mask and every bound depend on the radius, spread and kind only:
      two shadows that agree on those render the same mask whatever their
      offsets, colours or earlier state. */
  lemma MaskIgnoresOffsetAndColour(a: Shadow, b: Shadow, path: Shape, scale: real, stroked: bool)
    requires 0.0 < scale
    requires a.params.radius == b.params.radius
    requires a.params.spread == b.params.spread
    requires a.params.inner == b.params.inner
    ensures var ra := RenderShadow(a, path, scale, stroked);
      var rb := RenderShadow(b, path, scale, stroked);
      && ra.mask == rb.mask
      && ra.scaledShadowBounds == rb.scaledShadowBounds
      && ra.scaledPathBounds == rb.scaledPathBounds
      && (ra.scaledOffset == rb.scaledOffset <== a.params.offset == b.params.offset)
  {
  }

  /** Rendering forgets everything but the parameters. */
  lemma RenderDependsOnParameters(a: Shadow, b: Shadow, path: Shape, scale: real, stroked: bool)
    requires 0.0 < scale
    requires a.params == b.params
    ensures RenderShadow(a, path, scale, stroked) == RenderShadow(b, path, scale, stroked)
  {
  }

  /** Rendering twice with the same inputs gives what rendering once gave. */
  lemma RenderIdempotent(s: Shadow, path: Shape, scale: real, stroked: bool)
    requires 0.0 < scale
    ensures var r := RenderShadow(s, path, scale, stroked);
      RenderShadow(r, path, scale, stroked) == r
  {
    RenderDependsOnParameters(RenderShadow(s, path, scale, stroked), s, path, scale, stroked);
  }

  /** A shadow whose rendering is current stays current when only its colour,
      opacity or offset changes (the offset update refreshes the device-space
      offset with the same scale). */
  lemma StyleUpdatesKeepRenderingCurrent(s: Shadow, path: Shape, scale: real, stroked: bool,
                                         color: Colour, opacity: real, offset: Point)
    requires 0.0 < scale
    requires RenderShadow(s, path, scale, stroked) == s
    ensures var u := UpdateColor(s, color).shadow; RenderShadow(u, path, scale, stroked) == u
    ensures var u := UpdateOpacity(s, opacity).shadow; RenderShadow(u, path, scale, stroked) == u
    ensures var u := UpdateOffset(s, offset, scale).shadow; RenderShadow(u, path, scale, stroked) == u
  {
  }

  /** At scale 1 nothing is rounded: a W x H shape renders with path bounds
      (0,0,W,H), the parameters' own radius, spread and offset, and shadow
      bounds that are the path bounds expanded by the blur margin. */
  lemma RenderAtUnitScale(s: Shadow, outline: nat, w: nat, h: nat, stroked: bool)
    ensures var r := RenderShadow(s, Shape(outline, w as real, h as real), 1.0, stroked);
      var m := BlurMargin(s.params.inner, s.params.radius, s.params.spread);
      && r.scaledPathBounds == Rect(0, 0, w, h)
      && r.scaledRadius == s.params.radius
      && r.scaledSpread == s.params.spread
      && r.scaledOffset == s.params.offset
      && r.scaledShadowBounds == Rect(0, 0, w, h).Expanded(m, m)
  {
    assert IsIntegral(1.0);
    ScaleLengthExact(s.params.radius, 1.0);
    ScaleLengthExact(s.params.spread, 1.0);
    ScaleLengthExact(s.params.offset.x, 1.0);
    ScaleLengthExact(s.params.offset.y, 1.0);
    assert Ceil(w as real * 1.0) == w;
    assert Ceil(h as real * 1.0) == h;
  }

  /** A shadow built from the default parameters is a transparent drop
      shadow of radius 1, no offset and no spread: at scale 1 its mask is one
      pixel wider than the path on every side. */
  lemma DefaultShadowAtUnitScale(outline: nat, w: nat, h: nat)
    ensures var s := RenderShadow(NewShadow(DefaultParameters), Shape(outline, w as real, h as real), 1.0, false);
      && s.params.color == TransparentBlack && !s.params.inner
      && s.scaledOffset == Origin
      && s.scaledShadowBounds == Rect(-1, -1, w + 2, h + 2)
      && s.mask.width == w + 2 && s.mask.height == h + 2
  {
    RenderAtUnitScale(NewShadow(DefaultParameters), outline, w, h, false);
  }

  /** The scenario of a 50%-black drop shadow of radius 10 and offset (5,5)
      under a 100 x 100 square at scale 1: a 120 x 120 mask whose bounds,
      once offset, start at (-5,-5). */
  lemma SquareDropShadowScenario(outline: nat)
    ensures var p := ShadowParameters(Colour(0, 0, 0, 0.5), 10, Point(5, 5), 0, false);
      var r := RenderShadow(NewShadow(p), Shape(outline, 100.0, 100.0), 1.0, false);
      && r.mask.Mask? && r.mask.width == 120 && r.mask.height == 120
      && GetScaledBounds(r) == Rect(-5, -5, 120, 120)
  {
    var p := ShadowParameters(Colour(0, 0, 0, 0.5), 10, Point(5, 5), 0, false);
    var r := RenderShadow(NewShadow(p), Shape(outline, 100.0, 100.0), 1.0, false);
    RenderAtUnitScale(NewShadow(p), outline, 100, 100, false);
  }
}
