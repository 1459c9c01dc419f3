/** The shadow stack (`CachedShadows`): a fixed list of shadows over one
    path, the last origin-agnostic path and scale they were rendered for,
    the composite, and the two dirty flags that decide on every render call
    whether to re-blur, reposition or recomposite. Drawing onto the host
    context is modelled by the `Drawing` it would perform. */
module CachedShadows {
  import opened Geometry
  import opened Paths
  import opened SingleShadow
  import opened Composite

  /** `(int) n` for a `size_t`: the low 32 bits read as two's complement. */
  function SizeToInt(n: SizeT): (r: int)
    ensures -0x8000_0000 <= r < 0x8000_0000
    ensures n < 0x8000_0000 ==> r == n
    ensures (r - n) % 0x1_0000_0000 == 0
  {
    var low := n % 0x1_0000_0000;
    if low < 0x8000_0000 then low else low - 0x1_0000_0000
  }

  datatype Cache = Cache(
    shadows: seq<Shadow>,
    lastPath: Shape,                  // lastOriginAgnosticPath
    lastPathScaled: ScaledShape,      // lastOriginAgnosticPathScaled
    pathPosition: RPoint,             // pathPositionInContext
    composite: Image,                 // compositedARGB
    compositePosition: RPoint,        // scaledCompositePosition
    needsRecomposite: bool,
    needsRecalculate: bool,
    lastScale: Scale,
    stroked: bool,
    strokeType: StrokeType)

  /** What a render call paints on the host context: nothing, or `image`
      drawn through `translation (position).scaled (1 / scale)`. */
  datatype Drawing = NoDrawing | DrawImage(image: Image, position: RPoint, scale: Scale)

  /** The cache after a render call, and what the call drew. */
  datatype Frame = Frame(cache: Cache, drawing: Drawing)

  function Params(ss: seq<Shadow>): (ps: seq<ShadowParameters>)
    ensures |ps| == |ss|
    ensures forall i :: 0 <= i < |ss| ==> ps[i] == ss[i].params
  {
    seq(|ss|, i requires 0 <= i < |ss| => ss[i].params)
  }

  /** The constructor: one unrendered shadow per parameter set, in the given
      order, every one of them inner when `forceInner` is set; both flags
      raised, scale 1, not stroked, the sentinel stroke, no composite. */
  function NewCache(params: seq<ShadowParameters>, forceInner: bool := false): (c: Cache)
    requires |params| > 0
    ensures |c.shadows| == |params|
    ensures forall i :: 0 <= i < |params| ==> c.shadows[i].params.(inner := params[i].inner) == params[i]
    ensures forall i :: 0 <= i < |params| ==> c.shadows[i].params.inner == (forceInner || params[i].inner)
    ensures forall i :: 0 <= i < |params| ==> c.shadows[i].mask == NoMask
    ensures c.needsRecomposite && c.needsRecalculate
    ensures c.lastScale == 1.0 && !c.stroked && c.strokeType == UnsetStroke
    ensures c.lastPath == EmptyShape && c.pathPosition == ROrigin && c.composite == NoImage
  {
    var shadows := seq(|params|, i requires 0 <= i < |params| =>
      NewShadow(if forceInner then params[i].(inner := true) else params[i]));
    Cache(shadows, EmptyShape, ScaledShape(EmptyShape, 1.0), ROrigin, NoImage, ROrigin,
          true, true, 1.0, false, UnsetStroke)
  }

  // ---------------------------------------------------------------------
  // The render pipeline

  /** Low quality renders at scale 1, otherwise at the context's pixel scale. */
  function RenderScale(hostScale: Scale, lowQuality: bool): (s: Scale)
    ensures lowQuality ==> s == 1.0
    ensures !lowQuality ==> s == hostScale
  {
    if lowQuality then 1.0 else hostScale
  }

  /** A scale other than the last one breaks the cache and is remembered. */
  function NoteScale(c: Cache, scale: Scale): (r: Cache)
    ensures r.lastScale == scale
    ensures r.needsRecalculate <==> c.needsRecalculate || c.lastScale != scale
    ensures r.(needsRecalculate := c.needsRecalculate, lastScale := c.lastScale) == c
  {
    if c.lastScale != scale then c.(needsRecalculate := true, lastScale := scale) else c
  }

  /** The path to cache against: stroked first when the stack is stroked,
      since stroking changes the bounds. Its shape is the origin-stripped
      path and its origin the offset that was stripped. */
  function IncomingPath(c: Cache, path: Path, scale: Scale, stroker: Stroker): Path {
    if c.stroked then stroker(path, c.strokeType, scale) else path
  }

  /** `recalculateBlurs`: re-renders every shadow from the cached path. */
  function RecalculateBlurs(c: Cache, scale: Scale): (r: Cache)
    ensures |r.shadows| == |c.shadows|
    ensures forall i :: 0 <= i < |c.shadows| ==>
      r.shadows[i] == RenderShadow(c.shadows[i], c.lastPath, scale, c.stroked)
    ensures Params(r.shadows) == Params(c.shadows)
    ensures !r.needsRecalculate && r.needsRecomposite
    ensures r.(shadows := c.shadows, needsRecalculate := c.needsRecalculate,
               needsRecomposite := c.needsRecomposite) == c
  {
    var shadows := seq(|c.shadows|, i requires 0 <= i < |c.shadows| =>
      RenderShadow(c.shadows[i], c.lastPath, scale, c.stroked));
    c.(shadows := shadows, needsRecalculate := false, needsRecomposite := true)
  }

  /** True when the render call must recompute every mask. */
  predicate MustRecompute(c: Cache, incoming: Path) {
    c.needsRecalculate || incoming.shape != c.lastPath
  }

  /** The three-way branch of `render`: a full recompute when forced or when
      the shape changed, a reposition when only the origin moved, otherwise nothing. */
  function UpdateGeometry(c: Cache, incoming: Path, scale: Scale): (r: Cache)
    ensures r.lastPath == incoming.shape && r.pathPosition == incoming.origin
    ensures !r.needsRecalculate
    ensures Params(r.shadows) == Params(c.shadows)
    ensures MustRecompute(c, incoming) ==>
      && r.lastPathScaled == ScaledShape(incoming.shape, scale)
      && r.needsRecomposite
      && forall i :: 0 <= i < |c.shadows| ==>
           r.shadows[i] == RenderShadow(c.shadows[i], incoming.shape, scale, c.stroked)
    ensures !MustRecompute(c, incoming) ==> r == c.(pathPosition := incoming.origin)
  {
    if MustRecompute(c, incoming) then
      RecalculateBlurs(c.(lastPath := incoming.shape,
                          lastPathScaled := ScaledShape(incoming.shape, scale),
                          pathPosition := incoming.origin), scale)
    else if incoming.origin != c.pathPosition then
      c.(pathPosition := incoming.origin)
    else
      c
  }

  /** `compositeShadowsToARGB`, with the composite dropped when its bounds
      are empty (see `CompositeShadowsToARGBAsWritten`) and the inner-shadow
      clip and bands placed on the canvas. */
  function CompositeShadowsToARGB(c: Cache): (r: Cache)
    ensures var k := Compose(c.shadows, c.lastPathScaled);
      && r.composite == k.image
      && r.compositePosition == ToReal(k.position)
      && r.needsRecomposite == (c.needsRecomposite && k.image.NoImage?)
    ensures r.(composite := c.composite, compositePosition := c.compositePosition,
               needsRecomposite := c.needsRecomposite) == c
  {
    var k := Compose(c.shadows, c.lastPathScaled);
    if k.image.NoImage? then c.(composite := NoImage, compositePosition := ToReal(k.position))
    else c.(composite := k.image, compositePosition := ToReal(k.position), needsRecomposite := false)
  }

  /** `compositeShadowsToARGB` as written: the position is recorded before
      the emptiness check, an empty canvas leaves the previous image and the
      flag alone, and each layer is built by `LayerAsWritten`. */
  function CompositeShadowsToARGBAsWritten(c: Cache): (r: Cache)
    ensures var bounds := CompositeBounds(c.shadows);
      && r.compositePosition == ToReal(bounds.Position())
      && (bounds.IsEmpty() ==> r.composite == c.composite && r.needsRecomposite == c.needsRecomposite)
      && (!bounds.IsEmpty() ==>
            && r.composite.ARGB?
            && r.composite.width == bounds.w && r.composite.height == bounds.h
            && |r.composite.layers| == |c.shadows|
            && (forall i :: 0 <= i < |c.shadows| ==>
                  r.composite.layers[i] == LayerAsWritten(c.shadows[i], bounds, c.lastPathScaled))
            && !r.needsRecomposite)
    ensures r.shadows == c.shadows && r.pathPosition == c.pathPosition
  {
    var bounds := CompositeBounds(c.shadows);
    var positioned := c.(compositePosition := ToReal(bounds.Position()));
    if bounds.IsEmpty() then positioned
    else
      var layers := seq(|c.shadows|, i requires 0 <= i < |c.shadows| =>
        LayerAsWritten(c.shadows[i], bounds, c.lastPathScaled));
      positioned.(composite := ARGB(bounds.w, bounds.h, layers), needsRecomposite := false)
  }

  /** `drawARGBComposite`: nothing for a null composite, otherwise the
      composite at its own position plus the path origin in device pixels. */
  function DrawARGBComposite(c: Cache, scale: Scale): (d: Drawing)
    ensures d.NoDrawing? <==> c.composite.NoImage?
    ensures d.DrawImage? ==>
      && d.image == c.composite
      && d.position == c.compositePosition.Plus(c.pathPosition.Times(scale))
      && d.scale == scale
  {
    if c.composite.NoImage? then NoDrawing
    else DrawImage(c.composite, c.compositePosition.Plus(c.pathPosition.Times(scale)), scale)
  }

  /** The recomposite step of `render`: a pending recomposite survives it
      only when there is nothing to draw; nothing but the composite, its
      position and the flag ever changes. */
  function RecompositeIfNeeded(c: Cache): (r: Cache)
    ensures r.needsRecomposite ==> r.composite == NoImage && c.needsRecomposite
    ensures !c.needsRecomposite ==> r == c
    ensures r.(composite := c.composite, compositePosition := c.compositePosition,
               needsRecomposite := c.needsRecomposite) == c
  {
    if c.needsRecomposite then CompositeShadowsToARGB(c) else c
  }

  /** `render`: resolve the scale, strip the origin, recompute or reposition,
      recomposite if needed, draw. */
  function Render(c: Cache, hostScale: Scale, path: Path, lowQuality: bool, stroker: Stroker): (f: Frame)
    ensures var scale := RenderScale(hostScale, lowQuality);
      var incoming := IncomingPath(c, path, scale, stroker);
      && f.cache.lastScale == scale
      && f.cache.lastPath == incoming.shape
      && f.cache.pathPosition == incoming.origin
      && !f.cache.needsRecalculate
      && Params(f.cache.shadows) == Params(c.shadows)
      && f.cache.stroked == c.stroked && f.cache.strokeType == c.strokeType
      && (f.drawing.DrawImage? ==>
            f.drawing.position == f.cache.compositePosition.Plus(incoming.origin.Times(scale)))
  {
    var scale := RenderScale(hostScale, lowQuality);
    var scaled := NoteScale(c, scale);
    var incoming := IncomingPath(scaled, path, scale, stroker);
    var placed := UpdateGeometry(scaled, incoming, scale);
    var composited := RecompositeIfNeeded(placed);
    Frame(composited, DrawARGBComposite(composited, scale))
  }

  /** `renderStroked`: marks the stack stroked for good, breaks the cache on
      a different stroke, then renders. */
  function RenderStroked(c: Cache, hostScale: Scale, path: Path, strokeType: StrokeType,
                         lowQuality: bool, stroker: Stroker): (f: Frame)
    ensures f.cache.stroked && f.cache.strokeType == strokeType
  {
    var marked := c.(stroked := true);
    var restroked :=
      if strokeType != marked.strokeType then marked.(strokeType := strokeType, needsRecalculate := true)
      else marked;
    Render(restroked, hostScale, path, lowQuality, stroker)
  }

  // ---------------------------------------------------------------------
  // Setters

  /** The value a per-index setter passes to its shadow. */
  datatype Setting =
    | Radius(radius: int)
    | Spread(spread: int)
    | Offset(offset: Point)
    | Color(color: Colour)
    | Opacity(opacity: real)

  /** Radius and spread reshape the blur; the other settings only restyle or move it. */
  predicate AffectsMask(setting: Setting) {
    setting.Radius? || setting.Spread?
  }

  /** The updater a setter calls; offsets are scaled with the last scale. */
  function UpdateShadow(s: Shadow, setting: Setting, scale: Scale): Updated {
    match setting
    case Radius(v) => UpdateRadius(s, v)
    case Spread(v) => UpdateSpread(s, v)
    case Offset(o) => UpdateOffset(s, o, scale)
    case Color(k) => UpdateColor(s, k)
    case Opacity(a) => UpdateOpacity(s, a)
  }

  /** A per-index setter with the updater's result OR-ed into its flag:
      an out-of-range index changes nothing; otherwise only shadow `index`
      is updated, and a change raises `needsRecalculate` for radius and
      spread and `needsRecomposite` for the rest, never lowering either. */
  function Apply(c: Cache, setting: Setting, index: nat): (r: Cache)
    ensures index >= |c.shadows| ==> r == c
    ensures index < |c.shadows| ==>
      var u := UpdateShadow(c.shadows[index], setting, c.lastScale);
      && r.shadows == c.shadows[index := u.shadow]
      && r.needsRecalculate == (c.needsRecalculate || (AffectsMask(setting) && u.changed))
      && r.needsRecomposite == (c.needsRecomposite || (!AffectsMask(setting) && u.changed))
      && r.(shadows := c.shadows, needsRecalculate := c.needsRecalculate,
            needsRecomposite := c.needsRecomposite) == c
  {
    if index < |c.shadows| then
      var u := UpdateShadow(c.shadows[index], setting, c.lastScale);
      var updated := c.(shadows := c.shadows[index := u.shadow]);
      if AffectsMask(setting) then updated.(needsRecalculate := c.needsRecalculate || u.changed)
      else updated.(needsRecomposite := c.needsRecomposite || u.changed)
    else
      c
  }

  /** The per-index setters as written: the flag is assigned the updater's
      result, so an unchanged value lowers a flag an earlier call raised. */
  function ApplyAsWritten(c: Cache, setting: Setting, index: nat): (r: Cache)
    ensures index >= |c.shadows| ==> r == c
    ensures index < |c.shadows| ==>
      var u := UpdateShadow(c.shadows[index], setting, c.lastScale);
      && r.shadows == c.shadows[index := u.shadow]
      && (AffectsMask(setting) ==> r.needsRecalculate == u.changed && r.needsRecomposite == c.needsRecomposite)
      && (!AffectsMask(setting) ==> r.needsRecomposite == u.changed && r.needsRecalculate == c.needsRecalculate)
      && r.(shadows := c.shadows, needsRecalculate := c.needsRecalculate,
            needsRecomposite := c.needsRecomposite) == c
  {
    if index < |c.shadows| then
      var u := UpdateShadow(c.shadows[index], setting, c.lastScale);
      var updated := c.(shadows := c.shadows[index := u.shadow]);
      if AffectsMask(setting) then updated.(needsRecalculate := u.changed)
      else updated.(needsRecomposite := u.changed)
    else
      c
  }

  function SetRadius(c: Cache, radius: SizeT, index: SizeT := 0): Cache {
    Apply(c, Radius(SizeToInt(radius)), index)
  }

  function SetSpread(c: Cache, spread: SizeT, index: SizeT := 0): Cache {
    Apply(c, Spread(SizeToInt(spread)), index)
  }

  function SetOffset(c: Cache, offset: Point, index: SizeT := 0): Cache {
    Apply(c, Offset(offset), index)
  }

  function SetColor(c: Cache, color: Colour, index: SizeT := 0): Cache {
    Apply(c, Color(color), index)
  }

  function SetOpacity(c: Cache, opacity: real, index: SizeT := 0): Cache {
    Apply(c, Opacity(opacity), index)
  }

  // ---------------------------------------------------------------------
  // What the flags promise

  /** Every shadow's rendering is current for the cached shape, scale and
      stroke mode, and the cached scaled path is the cached shape at that scale. */
  predicate MasksCurrent(c: Cache) {
    && c.lastPathScaled == ScaledShape(c.lastPath, c.lastScale)
    && forall i :: 0 <= i < |c.shadows| ==>
         RenderShadow(c.shadows[i], c.lastPath, c.lastScale, c.stroked) == c.shadows[i]
  }

  /** The composite and its position are those of the current shadows. */
  predicate CompositeCurrent(c: Cache) {
    var k := Compose(c.shadows, c.lastPathScaled);
    c.composite == k.image && c.compositePosition == ToReal(k.position)
  }

  /** The cache invariant: a lowered `needsRecalculate` means every mask is
      current, both flags lowered mean the composite is current too, and an
      unstroked stack still holds the sentinel stroke. */
  predicate Valid(c: Cache) {
    && (!c.stroked ==> c.strokeType == UnsetStroke)
    && (!c.needsRecalculate ==> MasksCurrent(c))
    && (!c.needsRecalculate && !c.needsRecomposite ==> CompositeCurrent(c))
  }

  lemma NewCacheValid(params: seq<ShadowParameters>, forceInner: bool)
    requires |params| > 0
    ensures Valid(NewCache(params, forceInner))
  {
  }

  // ---------------------------------------------------------------------
  // The uncached reference

  /** Shadows rendered from scratch for the given parameters. */
  function FreshShadows(ps: seq<ShadowParameters>, shape: Shape, scale: Scale, stroked: bool): (ss: seq<Shadow>)
    ensures |ss| == |ps|
    ensures Params(ss) == ps
    ensures forall i :: 0 <= i < |ps| ==> ss[i] == RenderShadow(NewShadow(ps[i]), shape, scale, stroked)
  {
    seq(|ps|, i requires 0 <= i < |ps| => RenderShadow(NewShadow(ps[i]), shape, scale, stroked))
  }

  /** What drawing the stack over `path` should paint, computed from the
      parameters alone with nothing cached: nothing when every layer is
      empty, otherwise the composite at its canvas corner plus the path
      origin in device pixels. */
  function Uncached(ps: seq<ShadowParameters>, path: Path, scale: Scale,
                    stroked: bool, strokeType: StrokeType, stroker: Stroker): (d: Drawing)
    ensures var incoming := if stroked then stroker(path, strokeType, scale) else path;
      var ss := FreshShadows(ps, incoming.shape, scale, stroked);
      && (d.NoDrawing? <==> forall i :: 0 <= i < |ps| ==> LayerBounds(ss[i]).IsEmpty())
      && (d.DrawImage? ==>
            && d.image.ARGB? && |d.image.layers| == |ps|
            && d.position == ToReal(CompositeBounds(ss).Position()).Plus(incoming.origin.Times(scale))
            && d.scale == scale)
  {
    var incoming := if stroked then stroker(path, strokeType, scale) else path;
    var k := Compose(FreshShadows(ps, incoming.shape, scale, stroked), ScaledShape(incoming.shape, scale));
    if k.image.NoImage? then NoDrawing
    else DrawImage(k.image, ToReal(k.position).Plus(incoming.origin.Times(scale)), scale)
  }

  /** Shadows that are current for a shape are the fresh renderings of their
      parameters. */
  lemma {:induction false} CurrentShadowsAreFresh(ss: seq<Shadow>, shape: Shape, scale: Scale, stroked: bool)
    requires forall i :: 0 <= i < |ss| ==> RenderShadow(ss[i], shape, scale, stroked) == ss[i]
    ensures ss == FreshShadows(Params(ss), shape, scale, stroked)
  {
    var renewed := FreshShadows(Params(ss), shape, scale, stroked);
    forall i | 0 <= i < |ss|
      ensures ss[i] == renewed[i]
    {
      RenderDependsOnParameters(ss[i], NewShadow(ss[i].params), shape, scale, stroked);
    }
  }

  /** Re-rendered shadows are the fresh renderings of their parameters, and current. */
  lemma {:induction false} RerenderedShadowsAreFresh(ss: seq<Shadow>, rs: seq<Shadow>, shape: Shape, scale: Scale, stroked: bool)
    requires |rs| == |ss|
    requires forall i :: 0 <= i < |ss| ==> rs[i] == RenderShadow(ss[i], shape, scale, stroked)
    ensures rs == FreshShadows(Params(ss), shape, scale, stroked)
    ensures forall i :: 0 <= i < |rs| ==> RenderShadow(rs[i], shape, scale, stroked) == rs[i]
  {
    var renewed := FreshShadows(Params(ss), shape, scale, stroked);
    forall i | 0 <= i < |ss|
      ensures rs[i] == renewed[i] && RenderShadow(rs[i], shape, scale, stroked) == rs[i]
    {
      RenderDependsOnParameters(ss[i], NewShadow(ss[i].params), shape, scale, stroked);
      RenderIdempotent(ss[i], shape, scale, stroked);
    }
  }

  /** After the geometry stage of a valid render call every shadow is the
      fresh rendering of its parameters over the incoming shape, and the
      cache is valid. */
  lemma GeometryStageFresh(c: Cache, incoming: Path, scale: Scale)
    requires Valid(c) && c.lastScale == scale
    ensures var r := UpdateGeometry(c, incoming, scale);
      && r.shadows == FreshShadows(Params(c.shadows), incoming.shape, scale, c.stroked)
      && r.lastPathScaled == ScaledShape(incoming.shape, scale)
      && r.lastScale == scale && r.stroked == c.stroked
      && Valid(r)
  {
    var r := UpdateGeometry(c, incoming, scale);
    if MustRecompute(c, incoming) {
      RerenderedShadowsAreFresh(c.shadows, r.shadows, incoming.shape, scale, c.stroked);
    } else {
      CurrentShadowsAreFresh(c.shadows, c.lastPath, scale, c.stroked);
    }
  }

  /** The composite stage leaves a valid cache whose composite is current. */
  lemma CompositeStageCurrent(c: Cache)
    requires Valid(c) && !c.needsRecalculate
    ensures var r := RecompositeIfNeeded(c);
      && Valid(r) && CompositeCurrent(r)
      && r.shadows == c.shadows && r.lastPathScaled == c.lastPathScaled && r.pathPosition == c.pathPosition
  {
  }

  /** The cache is transparent: from any valid state, a render call leaves
      a valid cache and paints exactly what rendering every shadow from its
      parameters, with nothing cached, would paint. */
  lemma RenderMatchesUncached(c: Cache, hostScale: Scale, path: Path, lowQuality: bool, stroker: Stroker)
    requires Valid(c)
    ensures var f := Render(c, hostScale, path, lowQuality, stroker);
      && Valid(f.cache)
      && f.drawing == Uncached(Params(c.shadows), path, RenderScale(hostScale, lowQuality),
                               c.stroked, c.strokeType, stroker)
  {
    var scale := RenderScale(hostScale, lowQuality);
    var scaled := NoteScale(c, scale);
    var incoming := IncomingPath(scaled, path, scale, stroker);
    GeometryStageFresh(scaled, incoming, scale);
    var placed := UpdateGeometry(scaled, incoming, scale);
    CompositeStageCurrent(placed);
  }

  /** The same for a stroked render with a real stroke: the masks follow the
      stroked outline. */
  lemma RenderStrokedMatchesUncached(c: Cache, hostScale: Scale, path: Path, strokeType: StrokeType,
                                     lowQuality: bool, stroker: Stroker)
    requires Valid(c) && strokeType != UnsetStroke
    ensures var f := RenderStroked(c, hostScale, path, strokeType, lowQuality, stroker);
      && Valid(f.cache)
      && f.drawing == Uncached(Params(c.shadows), path, RenderScale(hostScale, lowQuality),
                               true, strokeType, stroker)
  {
    var marked := c.(stroked := true);
    var restroked :=
      if strokeType != marked.strokeType then marked.(strokeType := strokeType, needsRecalculate := true)
      else marked;
    assert Valid(restroked);
    RenderMatchesUncached(restroked, hostScale, path, lowQuality, stroker);
  }

  // ---------------------------------------------------------------------
  // Setters keep the invariant

  /** An updater that reports no change leaves the shadow as it was. */
  lemma UnchangedUpdateIsIdentity(s: Shadow, setting: Setting, scale: Scale)
    ensures var u := UpdateShadow(s, setting, scale); !u.changed ==> u.shadow == s
  {
  }

  /** A restyle or offset change keeps a current rendering current. */
  lemma RestyleKeepsMaskCurrent(s: Shadow, setting: Setting, path: Shape, scale: Scale, stroked: bool)
    requires !AffectsMask(setting)
    requires RenderShadow(s, path, scale, stroked) == s
    ensures var u := UpdateShadow(s, setting, scale).shadow; RenderShadow(u, path, scale, stroked) == u
  {
    match setting
    case Offset(o) => StyleUpdatesKeepRenderingCurrent(s, path, scale, stroked, s.params.color, 0.0, o);
    case Color(k) => StyleUpdatesKeepRenderingCurrent(s, path, scale, stroked, k, 0.0, Origin);
    case Opacity(a) => StyleUpdatesKeepRenderingCurrent(s, path, scale, stroked, s.params.color, a, Origin);
  }

  /** The corrected setters keep the cache valid: a change to radius or
      spread leaves `needsRecalculate` raised until the next render, and a
      restyle or offset change keeps the masks current. */
  lemma ApplyPreservesValid(c: Cache, setting: Setting, index: nat)
    requires Valid(c)
    ensures Valid(Apply(c, setting, index))
  {
    var r := Apply(c, setting, index);
    if index < |c.shadows| {
      var s := c.shadows[index];
      var u := UpdateShadow(s, setting, c.lastScale);
      UnchangedUpdateIsIdentity(s, setting, c.lastScale);
      if !u.changed {
        assert r.shadows == c.shadows;
        assert r == c;
      } else if !AffectsMask(setting) && !c.needsRecalculate {
        assert MasksCurrent(c);
        RestyleKeepsMaskCurrent(s, setting, c.lastPath, c.lastScale, c.stroked);
        forall j | 0 <= j < |r.shadows|
          ensures RenderShadow(r.shadows[j], r.lastPath, r.lastScale, r.stroked) == r.shadows[j]
        {
          if j != index {
            assert r.shadows[j] == c.shadows[j];
          }
        }
        assert MasksCurrent(r);
      }
    }
  }

  /** The two as-written setter calls of the counterexample below: the
      first raises `needsRecalculate`, the second lowers it again while
      shadow 0 still holds the rendering of its old radius. */
  lemma AsWrittenResetLowersFlag(c: Cache, radius: int)
    requires |c.shadows| >= 2
    requires !c.needsRecalculate && MasksCurrent(c)
    requires IsIntegral(c.lastScale)
    requires radius != c.shadows[0].params.radius
    ensures var changed := ApplyAsWritten(c, Radius(radius), 0);
      var reset := ApplyAsWritten(changed, Radius(c.shadows[1].params.radius), 1);
      && changed.needsRecalculate
      && !reset.needsRecalculate
      && reset.lastPath == c.lastPath && reset.lastScale == c.lastScale && reset.stroked == c.stroked
      && reset.shadows == c.shadows[0 := c.shadows[0].(params := c.shadows[0].params.(radius := radius))]
      && reset.shadows[0].mask.source.blurRadius == ScaleLength(c.shadows[0].params.radius, c.lastScale)
      && !MasksCurrent(reset)
  {
    var s := c.shadows[0];
    var changed := ApplyAsWritten(c, Radius(radius), 0);
    assert changed.shadows[0] == s.(params := s.params.(radius := radius));
    var reset := ApplyAsWritten(changed, Radius(c.shadows[1].params.radius), 1);
    UnchangedUpdateIsIdentity(changed.shadows[1], Radius(c.shadows[1].params.radius), c.lastScale);
    assert reset.shadows == changed.shadows;
    assert RenderShadow(s, c.lastPath, c.lastScale, c.stroked) == s;
    RenderedBlurRadius(s, c.lastPath, c.lastScale, c.stroked);
    assert reset.shadows[0].mask == s.mask;
    assert s.mask.source.blurRadius == ScaleLength(s.params.radius, c.lastScale);
    ScaleLengthInjective(radius, s.params.radius, c.lastScale);
    RenderedBlurRadius(reset.shadows[0], c.lastPath, c.lastScale, c.stroked);
    var rerendered := RenderShadow(reset.shadows[0], c.lastPath, c.lastScale, c.stroked);
    assert rerendered.scaledRadius != reset.shadows[0].scaledRadius;
  }

  /** The setters as written lose a pending recalculation: a radius change
      on shadow 0 followed by setting shadow 1's radius to the value it
      already has lowers the flag, and the next render of the same path at
      the same scale keeps blurring shadow 0 with its old radius. */
  lemma AsWrittenSetterForgetsRadiusChange(c: Cache, radius: int, path: Path, stroker: Stroker)
    requires |c.shadows| >= 2 && !c.stroked
    requires !c.needsRecalculate && MasksCurrent(c)
    requires IsIntegral(c.lastScale)
    requires radius != c.shadows[0].params.radius
    requires path.shape == c.lastPath
    ensures var changed := ApplyAsWritten(c, Radius(radius), 0);
      var reset := ApplyAsWritten(changed, Radius(c.shadows[1].params.radius), 1);
      var f := Render(reset, c.lastScale, path, false, stroker);
      && !reset.needsRecalculate
      && f.cache.shadows[0].params.radius == radius
      && f.cache.shadows[0].mask.source.blurRadius == ScaleLength(c.shadows[0].params.radius, c.lastScale)
      && f.cache.shadows[0].mask.source.blurRadius != ScaleLength(radius, c.lastScale)
  {
    AsWrittenResetLowersFlag(c, radius);
    var changed := ApplyAsWritten(c, Radius(radius), 0);
    var reset := ApplyAsWritten(changed, Radius(c.shadows[1].params.radius), 1);
    SameShapeReusesMasks(reset, c.lastScale, path, false, stroker);
    ScaleLengthInjective(radius, c.shadows[0].params.radius, c.lastScale);
  }

  /** With the corrected setters the same sequence keeps the change: the
      next render blurs shadow 0 with its new radius. */
  lemma SetterKeepsRadiusChange(c: Cache, radius: int, path: Path, stroker: Stroker)
    requires |c.shadows| >= 2 && !c.stroked
    requires radius != c.shadows[0].params.radius
    ensures var changed := Apply(c, Radius(radius), 0);
      var again := Apply(changed, Radius(c.shadows[1].params.radius), 1);
      var f := Render(again, c.lastScale, path, false, stroker);
      && again.needsRecalculate
      && f.cache.shadows[0].params.radius == radius
      && f.cache.shadows[0].mask.source.blurRadius == ScaleLength(radius, c.lastScale)
  {
  }

  // ---------------------------------------------------------------------
  // What the cache saves

  /** Rendering again with the same inputs changes nothing and paints the same. */
  lemma RedrawIsStable(c: Cache, hostScale: Scale, path: Path, lowQuality: bool, stroker: Stroker)
    ensures var f := Render(c, hostScale, path, lowQuality, stroker);
      Render(f.cache, hostScale, path, lowQuality, stroker) == f
  {
  }

  /** Moving an unstroked path reuses every mask and the composite: only the
      recorded origin changes, and the image is drawn moved by the
      difference in device pixels. */
  lemma TranslationReusesComposite(c: Cache, hostScale: Scale, shape: Shape, from: RPoint, to: RPoint,
                                   lowQuality: bool, stroker: Stroker)
    requires !c.stroked
    ensures var scale := RenderScale(hostScale, lowQuality);
      var f1 := Render(c, hostScale, Path(shape, from), lowQuality, stroker);
      var f2 := Render(f1.cache, hostScale, Path(shape, to), lowQuality, stroker);
      && f2.cache == f1.cache.(pathPosition := to)
      && (f2.drawing.NoDrawing? <==> f1.drawing.NoDrawing?)
      && (f1.drawing.DrawImage? ==>
            && f2.drawing.image == f1.drawing.image
            && f2.drawing.position.Minus(to.Times(scale)) == f1.drawing.position.Minus(from.Times(scale)))
  {
  }

  /** A scale other than the cached one re-renders every shadow. */
  lemma ScaleChangeRecomputes(c: Cache, hostScale: Scale, path: Path, lowQuality: bool, stroker: Stroker)
    requires RenderScale(hostScale, lowQuality) != c.lastScale
    ensures var scale := RenderScale(hostScale, lowQuality);
      var incoming := IncomingPath(c, path, scale, stroker);
      var f := Render(c, hostScale, path, lowQuality, stroker);
      && |f.cache.shadows| == |c.shadows|
      && f.cache.lastPathScaled == ScaledShape(incoming.shape, scale)
      && forall i :: 0 <= i < |c.shadows| ==>
           f.cache.shadows[i] == RenderShadow(c.shadows[i], incoming.shape, scale, c.stroked)
  {
  }

  /** Same shape, same scale, nothing pending: the masks are reused, and with
      no recomposite pending only the recorded origin changes. */
  lemma SameShapeReusesMasks(c: Cache, hostScale: Scale, path: Path, lowQuality: bool, stroker: Stroker)
    requires !c.needsRecalculate && c.lastScale == RenderScale(hostScale, lowQuality)
    requires IncomingPath(c, path, c.lastScale, stroker).shape == c.lastPath
    ensures var incoming := IncomingPath(c, path, c.lastScale, stroker);
      var f := Render(c, hostScale, path, lowQuality, stroker);
      && f.cache.shadows == c.shadows
      && (!c.needsRecomposite ==> f.cache == c.(pathPosition := incoming.origin))
  {
  }

  /** A colour, opacity or offset change followed by a render of the same
      shape at the same scale keeps every mask: only the composite is redone. */
  lemma StyleChangeRecompositesOnly(c: Cache, setting: Setting, index: nat, hostScale: Scale,
                                    path: Path, lowQuality: bool, stroker: Stroker)
    requires !AffectsMask(setting)
    requires !c.needsRecalculate && c.lastScale == RenderScale(hostScale, lowQuality)
    requires IncomingPath(c, path, c.lastScale, stroker).shape == c.lastPath
    ensures var a := Apply(c, setting, index);
      var f := Render(a, hostScale, path, lowQuality, stroker);
      && !a.needsRecalculate
      && f.cache.shadows == a.shadows
      && |f.cache.shadows| == |c.shadows|
      && forall i :: 0 <= i < |c.shadows| ==> f.cache.shadows[i].mask == c.shadows[i].mask
  {
  }

  /** A radius change on shadow `index` re-renders that shadow with the new
      radius; every other shadow comes out as it was. */
  lemma RadiusChangeRerendersShadow(c: Cache, radius: int, index: nat, hostScale: Scale,
                                    path: Path, lowQuality: bool, stroker: Stroker)
    requires Valid(c) && !c.needsRecalculate
    requires index < |c.shadows| && radius != c.shadows[index].params.radius
    requires c.lastScale == RenderScale(hostScale, lowQuality)
    requires IncomingPath(c, path, c.lastScale, stroker).shape == c.lastPath
    ensures var f := Render(Apply(c, Radius(radius), index), hostScale, path, lowQuality, stroker);
      && |f.cache.shadows| == |c.shadows|
      && f.cache.shadows[index] ==
           RenderShadow(NewShadow(c.shadows[index].params.(radius := radius)), c.lastPath, c.lastScale, c.stroked)
      && forall j :: 0 <= j < |c.shadows| && j != index ==> f.cache.shadows[j] == c.shadows[j]
  {
    var a := Apply(c, Radius(radius), index);
    RenderDependsOnParameters(a.shadows[index], NewShadow(c.shadows[index].params.(radius := radius)),
                              c.lastPath, c.lastScale, c.stroked);
  }

  // ---------------------------------------------------------------------
  // An empty canvas

  /** When every layer is empty the composite as written keeps the previous
      image, which is then drawn again; the corrected composite drops it and
      nothing is drawn. */
  lemma AsWrittenDrawsStaleComposite(c: Cache, scale: Scale)
    requires c.composite.ARGB?
    requires forall i :: 0 <= i < |c.shadows| ==> LayerBounds(c.shadows[i]).IsEmpty()
    ensures var d := DrawARGBComposite(CompositeShadowsToARGBAsWritten(c), scale);
      d.DrawImage? && d.image == c.composite
    ensures DrawARGBComposite(CompositeShadowsToARGB(c), scale) == NoDrawing
  {
    CompositeBoundsEmpty(c.shadows);
  }
}
