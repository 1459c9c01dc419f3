# Shadow caching in melatonin_blur, modelled in Dafny

melatonin_blur draws drop and inner shadows under JUCE paths. Two classes hold its caching core:

- `RenderedSingleChannelShadow` is one shadow. It keeps its parameters (colour, radius, offset, spread, kind). It also keeps a single-channel mask rendered at device scale from the origin-stripped path. The mask's device-space bounds are derived from the path bounds, the scaled radius and spread, and a one-pixel pad at fractional scales. The offset is stored apart from the mask, so moving a shadow never re-blurs it.
- `CachedShadows` is a stack of such shadows over one path. On every `render` call it:
  1. resolves the scale;
  2. strokes the path if the stack is stroked;
  3. strips the path's origin;
  4. re-blurs every shadow when the scale, stroke or shape changed, or just records the new origin when only the position moved;
  5. rebuilds the ARGB composite when needed;
  6. draws the composite at the composite's corner plus the path origin.

  Per-index setters change one shadow and raise the dirty flags `needsRecalculate` (radius, spread) or `needsRecomposite` (offset, colour, opacity).

The model is functional. Every object is an immutable datatype, and every member function returns the updated value. Pixels are not modelled:

- A mask records its size and every input the blur reads (`MaskSource`): the shape, the reshape spread, the fill, the scale, the corner and the blur radius.
- A composite records its canvas size and, per shadow, the layer it would paint: colour, mask, placement, clip and edge bands.
- A render call returns the `Drawing` it would make.

Files:

- `geometry.dfy` covers JUCE's `Point` and `Rectangle`. It defines `roundToInt` (nearest integer, ties to even), the truncating `int` cast, floor and ceiling.
- `paths.dfy` covers paths. A path is an opaque origin-agnostic `Shape` with bounding-box extents, placed at an origin. Stroking is a caller-supplied function.
- `single_shadow.dfy` covers `RenderedSingleChannelShadow`: its updaters, `updateScaledShadowBounds` and `render`.
- `composite.dfy` covers the composite: the canvas as a union of layer bounds, the layers, and the inner-shadow edge bands.
- `cached_shadows.dfy` covers `CachedShadows`: the constructor, `render`, `renderStroked`, the setters, `recalculateBlurs`, `compositeShadowsToARGB` and `drawARGBComposite`. It also defines:
  - `Valid`, the cache invariant, which says what the dirty flags promise;
  - `Uncached`, a reference that renders every shadow from its parameters with nothing cached.

The main theorem is `RenderMatchesUncached`. From any valid state, a render call leaves a valid state and paints exactly what `Uncached` paints. The corrected setters keep the state valid (`ApplyPreservesValid`).

In five places the code departs from what it evidently intends; each is listed under "## Findings". For each of them the model carries an as-written version, with a lemma that exhibits the discrepancy, and a corrected version. The rest of the model, including `Render`, uses the corrected versions:

1. The inner-shadow edge bands (`cached_shadows.cpp:255-258`). The corrected `EdgeRects` is used; `EdgeRectsAsWritten` exhibits the gap.
2. The device offset (`rendered_single_channel_shadow.h:82` and `:112`). `UpdateOffset` and `UpdateScaledShadowBounds` use the rounding `ScaleOffset`; `ScaleOffsetAsWritten` truncates.
3. The inner-shadow clip and bands on the canvas (`cached_shadows.cpp:217-263`). The corrected `LayerOf` is used; `LayerAsWritten` keeps them in path coordinates.
4. Empty composite bounds (`cached_shadows.cpp:177-180`). `Render` recomposites through `RecompositeIfNeeded` with the corrected `CompositeShadowsToARGB`, which drops the image; `CompositeShadowsToARGBAsWritten` keeps the previous one.
5. The setters (`cached_shadows.cpp:95-123`). `SetRadius` to `SetOpacity` call the corrected `Apply`, which ORs the dirty flag; `ApplyAsWritten` assigns it.

Two further behaviours of the code are kept as they are:

- A shadow of radius 0 or below still draws. The null image assigned for a radius below 1 (`rendered_single_channel_shadow.cpp:13-14`) is always overwritten (line 61), so a drop shadow of radius 0 over a non-empty path gets a mask the size of the path and is composited. A negative radius reaches the blur through the `(size_t)` cast at line 59 as a value near 2^64 (`NegativeRadiusWrapsBlurRadius`).
- A radius or spread change on one shadow re-renders every shadow (`recalculateBlurs`, `cached_shadows.cpp:125-133`). The other shadows come out unchanged (`RadiusChangeRerendersShadow`).

## Model

| member | source | states |
|---|---|---|
| Geometry.Round | melatonin/internal/rendered_single_channel_shadow.h:110-111 | `roundToInt` lands within half a unit of its argument and is exact on integral values |
| Geometry.SizeCast | melatonin/internal/rendered_single_channel_shadow.cpp:59 | the `(size_t)` cast is congruent to its argument modulo 2^64, is the value itself when non-negative, and adds 2^64 to a negative value |
| Geometry.AnchoredContainer | melatonin/internal/rendered_single_channel_shadow.cpp:9 | the smallest integer container of the scaled bounds of a path at (0,0) is anchored at (0,0) with the ceilings of the scaled extents as size |
| SingleShadow.NewShadow | melatonin/internal/rendered_single_channel_shadow.h:34 | a new shadow holds the given parameters, no mask, empty bounds and a zero device offset |
| SingleShadow.ScaleLength | melatonin/internal/rendered_single_channel_shadow.h:110-111 | a scaled radius or spread is within half a pixel of value times scale |
| SingleShadow.ScaleLengthInjective | melatonin/internal/rendered_single_channel_shadow.h:110-111 | at an integral scale distinct radii or spreads give distinct device values, so a radius change always changes the blur radius |
| SingleShadow.ScaleLengthExact | melatonin/internal/rendered_single_channel_shadow.h:110-111 | at an integral scale the scaled radius or spread is exactly value times scale |
| SingleShadow.ScaleOffset | melatonin/internal/rendered_single_channel_shadow.h:112 | the device offset as intended: each coordinate within half a pixel of offset times scale |
| SingleShadow.ScaleOffsetAsWritten | melatonin/internal/rendered_single_channel_shadow.h:82 | the device offset as written truncates each coordinate toward zero: it lies less than one pixel from offset times scale, on the side of zero |
| SingleShadow.TruncatedOffsetMissesNearest | melatonin/internal/rendered_single_channel_shadow.h:112 | offset (3,-3) at scale 1.25 becomes (3,-3) as written, while the nearest device offset is (4,-4) |
| SingleShadow.UpdateRadius | melatonin/internal/rendered_single_channel_shadow.h:58-65 | reports a change exactly when the radius differs, stores it, and leaves every other parameter and the rendering as they were |
| SingleShadow.UpdateSpread | melatonin/internal/rendered_single_channel_shadow.h:67-74 | reports a change exactly when the spread differs, stores it, and leaves every other parameter and the rendering as they were |
| SingleShadow.UpdateColor | melatonin/internal/rendered_single_channel_shadow.h:86-93 | reports a change exactly when the colour differs, stores it, and leaves every other parameter and the rendering as they were |
| SingleShadow.UpdateOpacity | melatonin/internal/rendered_single_channel_shadow.h:95-102 | reports a change exactly when the alpha differs, replaces only the alpha, and leaves the rest of the colour, the other parameters and the rendering as they were |
| SingleShadow.UpdateOffset | melatonin/internal/rendered_single_channel_shadow.h:76-84 | reports a change exactly when the offset differs, stores it, refreshes the device offset on a change, and leaves the mask, both bounds, radius and spread alone |
| SingleShadow.UpdatesUndo | melatonin/internal/rendered_single_channel_shadow.h:58-102 | setting a radius, spread, colour or opacity and then the previous value restores the shadow exactly, and both calls agree on whether anything changed |
| SingleShadow.OffsetUndo | melatonin/internal/rendered_single_channel_shadow.h:76-84 | undoing an offset change restores the shadow when its device offset was current |
| SingleShadow.GetScaledBounds | melatonin/internal/rendered_single_channel_shadow.h:38-43 | the shadow bounds moved by the device offset; `OffsetMovesBoundsOnly` and `LayerBounds` state what follows from it |
| SingleShadow.GetScaledPathBounds | melatonin/internal/rendered_single_channel_shadow.h:45-48 | the stored path bounds, unaffected by the offset; `ScaledPathBounds` and `RenderShadow` state their value |
| SingleShadow.OffsetMovesBoundsOnly | melatonin/internal/rendered_single_channel_shadow.h:38-43 | an offset change translates the shadow bounds by the change in device offset without resizing them, and the path bounds stay put |
| SingleShadow.SubpixelPad | melatonin/internal/rendered_single_channel_shadow.h:135-139 | the extra pad is zero exactly at integral scales |
| SingleShadow.UpdateScaledShadowBounds | melatonin/internal/rendered_single_channel_shadow.h:105-140 | radius and spread are scaled to the nearest pixel and the offset via the device offset. The bounds are the path bounds moved out by the blur margin (radius plus spread for drop shadows, radius minus spread for inner ones) plus the pad, and never have negative size before padding. Parameters, mask and path bounds are untouched |
| SingleShadow.BlurMargin | melatonin/internal/rendered_single_channel_shadow.h:115-123 | how far the path bounds grow: radius plus spread for drop shadows, radius minus spread for inner ones; `UpdateScaledShadowBounds` states the bounds built from it |
| SingleShadow.SubpixelPadding | melatonin/internal/rendered_single_channel_shadow.h:130-139 | at integral scales the shadow bounds are exactly the expanded path bounds; otherwise one more pixel on every side |
| SingleShadow.DropShadowEnclosesPath | melatonin/internal/rendered_single_channel_shadow.h:122-123 | a drop shadow with non-negative radius and spread encloses its path bounds |
| SingleShadow.UnitScaleDropBounds | melatonin/internal/rendered_single_channel_shadow.h:105-123 | at scale 1 a drop shadow of radius r and offset o around a W x H path covers (o.x-r, o.y-r, W+2r, H+2r) |
| SingleShadow.ScaledPathBounds | melatonin/internal/rendered_single_channel_shadow.cpp:9 | the scaled path bounds are anchored at (0,0) and sized by the ceilings of the scaled extents |
| SingleShadow.Reshape | melatonin/internal/rendered_single_channel_shadow.cpp:20-26 | the outline is reshaped exactly when it is unstroked with a non-zero spread; a positive spread grows a drop shadow's outline and shrinks an inner shadow's |
| SingleShadow.RenderShadow | melatonin/internal/rendered_single_channel_shadow.cpp:6-63 | render keeps the parameters and leaves derived bounds consistent with them. It always yields a mask the size of the shadow bounds, drawn at their corner from the given shape and scale and blurred with the scaled radius. Only unstroked shapes with a spread are reshaped. Inner shadows fill the inverted shape |
| SingleShadow.NegativeRadiusWrapsBlurRadius | melatonin/internal/rendered_single_channel_shadow.cpp:13-61 | a drop shadow of radius -1 at scale 1 still gets a mask, and the blur is handed 2^64 - 1 |
| SingleShadow.RenderedBlurRadius | melatonin/internal/rendered_single_channel_shadow.cpp:59 | the blur radius is the radius scaled to the nearest pixel |
| SingleShadow.MaskIgnoresOffsetAndColour | melatonin/internal/rendered_single_channel_shadow.cpp:53-56 | two shadows with equal radius, spread and kind render the same mask and bounds whatever their offsets and colours |
| SingleShadow.RenderDependsOnParameters | melatonin/internal/rendered_single_channel_shadow.cpp:6-63 | a render depends on the parameters only, not on earlier state |
| SingleShadow.RenderIdempotent | melatonin/internal/rendered_single_channel_shadow.cpp:6-63 | rendering a rendered shadow again with the same inputs changes nothing |
| SingleShadow.StyleUpdatesKeepRenderingCurrent | melatonin/internal/rendered_single_channel_shadow.h:76-102 | a current rendering stays current after a colour, opacity or offset update |
| SingleShadow.RenderAtUnitScale | melatonin/internal/rendered_single_channel_shadow.cpp:9-10 | at scale 1 a W x H shape gives path bounds (0,0,W,H), the parameters' own radius, spread and offset, and bounds expanded by the blur margin |
| SingleShadow.DefaultShadowAtUnitScale | melatonin/internal/rendered_single_channel_shadow.h:9-22 | the default parameters give a transparent drop shadow of radius 1 with no offset, whose mask at scale 1 is one pixel wider than the path on every side |
| SingleShadow.SquareDropShadowScenario | melatonin/internal/rendered_single_channel_shadow.cpp:6-63 | a radius-10 drop shadow offset by (5,5) under a 100 x 100 square renders a 120 x 120 mask whose bounds start at (-5,-5) |
| Composite.CompositeBounds | melatonin/internal/cached_shadows.cpp:168-175 | the union of the layer bounds in stack order; an empty union is the empty rectangle at (0,0). `CompositeBoundsEncloses`, `CompositeBoundsLeast` and `CompositeBoundsEmpty` state that it is the least enclosing box |
| Composite.CompositeBoundsEncloses | melatonin/internal/cached_shadows.cpp:168-175 | every shadow's layer bounds (path bounds for inner, offset shadow bounds for drop) lie inside the canvas |
| Composite.CompositeBoundsLeast | melatonin/internal/cached_shadows.cpp:168-175 | any box holding every layer's bounds holds the canvas |
| Composite.CompositeBoundsEmpty | melatonin/internal/cached_shadows.cpp:168-180 | the canvas is empty exactly when every layer's bounds are empty |
| Composite.EdgeRects | melatonin/internal/cached_shadows.cpp:250-263 | four bands built from corners, none of which paints over the mask; `EdgeRectsCover` states that with the mask they cover the path |
| Composite.EdgeRectsAsWritten | melatonin/internal/cached_shadows.cpp:250-263 | the bands as written: for a path at (0,0) the top and left bands equal the corrected ones, and the bottom and right ones contain them when the mask's bottom-right corner is not above or left of (0,0) |
| Composite.EdgeRectsCover | melatonin/internal/cached_shadows.cpp:250-263 | the corrected bands together with the mask cover every point of the path, wherever the mask lies |
| Composite.EdgeRectsAsWrittenCover | melatonin/internal/cached_shadows.cpp:250-263 | the bands as written cover the path when it starts at (0,0) and the mask's bottom-right corner is not above or left of (0,0) |
| Composite.FarOffsetInnerShadowGap | melatonin/internal/cached_shadows.cpp:255-258 | radius 10, spread 50 and offset (-80,0) inner shadow on a 100 x 100 path: the bands as written leave (90,50) unpainted and the corrected bands paint it |
| Composite.LayerAsWritten | melatonin/internal/cached_shadows.cpp:192-270 | as written, each mask is placed at its offset from the canvas corner with the shadow's colour, but an inner shadow's clip stays at (0,0) and its bands are the as-written ones in path coordinates; drop shadows get no clip and no bands |
| Composite.LayerOf | melatonin/internal/cached_shadows.cpp:192-270 | each mask is placed at its offset from the canvas corner with the shadow's colour. Exactly inner shadows are clipped, to their path placed on the canvas. Drop shadows get no bands |
| Composite.LayerCoversPath | melatonin/internal/cached_shadows.cpp:211-263 | on the canvas every point of an inner shadow's path is painted by its mask or a band, for any canvas corner |
| Composite.MixedStackRendering | melatonin/internal/rendered_single_channel_shadow.h:105-123 | a radius-10 drop shadow and a radius-5 inner shadow offset by (30,0) over a 100 x 100 path have bounds (-10,-10,120,120), path bounds (0,0,100,100) and bounds (25,-5,110,110) |
| Composite.MixedStackInnerShadowGap | melatonin/internal/cached_shadows.cpp:217-263 | in that stack the canvas starts at (-10,-10); as written the canvas point (30,50) of the path gets neither mask nor band, and with the bands placed on the canvas it does |
| Composite.Layers | melatonin/internal/cached_shadows.cpp:192-271 | one layer per shadow, in order |
| Composite.Compose | melatonin/internal/cached_shadows.cpp:163-273 | no image exactly when every layer bounds is empty. Otherwise a canvas the size of the union with one layer per shadow carrying its mask and colour, positioned at the union's corner |
| Composite.LayersFitCanvas | melatonin/internal/cached_shadows.cpp:187-200 | every drop shadow's mask and every inner shadow's path lies on the canvas |
| CachedShadows.SizeToInt | melatonin/internal/cached_shadows.cpp:98 | the `(int)` cast of a `size_t` is congruent to it modulo 2^32, lies in the 32-bit range and is the value itself below 2^31 |
| CachedShadows.NewCache | melatonin/internal/cached_shadows.cpp:4-16 | one unrendered shadow per parameter set, in order, inner when forced and otherwise as given. Both flags are raised, the scale is 1, the stack is unstroked with the sentinel stroke, and there is no composite |
| CachedShadows.RenderScale | melatonin/internal/cached_shadows.cpp:21-23 | low quality renders at scale 1, otherwise at the context's scale |
| CachedShadows.NoteScale | melatonin/internal/cached_shadows.cpp:25-30 | a scale change raises `needsRecalculate` and is remembered; nothing else changes |
| CachedShadows.IncomingPath | melatonin/internal/cached_shadows.cpp:36-49 | the path is stroked before its origin is stripped when the stack is stroked; `Render`'s contract states the shape and origin it leaves cached |
| CachedShadows.MustRecompute | melatonin/internal/cached_shadows.cpp:52 | a recompute is due when it was requested or the stripped shape differs from the cached one; `UpdateGeometry` states both outcomes |
| CachedShadows.RecalculateBlurs | melatonin/internal/cached_shadows.cpp:125-133 | every shadow is re-rendered from the cached shape with parameters kept; then `needsRecalculate` is lowered and `needsRecomposite` raised |
| CachedShadows.UpdateGeometry | melatonin/internal/cached_shadows.cpp:51-73 | afterwards the cached shape and origin are the incoming ones and nothing is pending recalculation. A forced or shape-changing call re-renders every shadow for the new shape and scale; otherwise only the origin is recorded |
| CachedShadows.CompositeShadowsToARGB | melatonin/internal/cached_shadows.cpp:163-273 | the corrected composite: image and position are those of `Compose`, and the flag is lowered only when there is an image |
| CachedShadows.CompositeShadowsToARGBAsWritten | melatonin/internal/cached_shadows.cpp:163-273 | as written: the position is the union's corner; on an empty union the old image and flag are kept; otherwise a canvas with one as-written layer per shadow, flag lowered |
| CachedShadows.RecompositeIfNeeded | melatonin/internal/cached_shadows.cpp:75-78 | nothing changes unless a recomposite is pending; afterwards one stays pending only with no image, and only the composite, its position and the flag change |
| CachedShadows.DrawARGBComposite | melatonin/internal/cached_shadows.cpp:135-161 | nothing is drawn exactly when there is no composite; otherwise it is drawn at its position plus the path origin times the scale, scaled down by the scale |
| CachedShadows.Render | melatonin/internal/cached_shadows.cpp:18-82 | afterwards the scale, shape and origin are the incoming ones, nothing is pending recalculation, parameters and stroke state are unchanged, and the image lands at the composite position plus the origin times the scale |
| CachedShadows.RenderStroked | melatonin/internal/cached_shadows.cpp:84-93 | the stack is stroked from then on with the given stroke |
| CachedShadows.Apply | melatonin/internal/cached_shadows.cpp:95-123 | the corrected setters: an out-of-range index changes nothing; otherwise only that shadow is updated. A change raises `needsRecalculate` (radius, spread) or `needsRecomposite` (the rest), and neither flag is ever lowered |
| CachedShadows.ApplyAsWritten | melatonin/internal/cached_shadows.cpp:95-123 | the setters as written: as `Apply`, but the flag is set to whether the updater reported a change |
| CachedShadows.NewCacheValid | melatonin/internal/cached_shadows.cpp:4-16 | a new stack satisfies the cache invariant |
| CachedShadows.FreshShadows | melatonin/internal/cached_shadows.cpp:125-133 | the reference shadows: one fresh rendering per parameter set, parameters kept |
| CachedShadows.Uncached | melatonin/internal/cached_shadows.cpp:18-82 | the reference drawing paints nothing exactly when every freshly rendered layer is empty. Otherwise it paints a full composite at the union's corner plus the stroked or plain path origin times the scale |
| CachedShadows.CurrentShadowsAreFresh | melatonin/internal/cached_shadows.cpp:125-133 | shadows whose rendering is current are the fresh renderings of their parameters |
| CachedShadows.RerenderedShadowsAreFresh | melatonin/internal/cached_shadows.cpp:125-133 | re-rendered shadows are the fresh renderings of their parameters and are current |
| CachedShadows.GeometryStageFresh | melatonin/internal/cached_shadows.cpp:51-73 | from a valid state at the current scale, recompute and reposition both leave the fresh shadows for the incoming shape and a valid state |
| CachedShadows.CompositeStageCurrent | melatonin/internal/cached_shadows.cpp:75-78 | with masks current, the recomposite step leaves a current composite and a valid state |
| CachedShadows.RenderMatchesUncached | melatonin/internal/cached_shadows.cpp:18-82 | from any valid state a render call leaves a valid state and paints exactly what rendering every shadow from its parameters would |
| CachedShadows.RenderStrokedMatchesUncached | melatonin/internal/cached_shadows.cpp:84-93 | the same for stroked renders with a real stroke: the masks follow the stroked outline |
| CachedShadows.UnchangedUpdateIsIdentity | melatonin/internal/rendered_single_channel_shadow.h:58-102 | an updater that reports no change leaves the shadow as it was |
| CachedShadows.RestyleKeepsMaskCurrent | melatonin/internal/cached_shadows.cpp:107-123 | an offset, colour or opacity setter keeps a current rendering current |
| CachedShadows.ApplyPreservesValid | melatonin/internal/cached_shadows.cpp:95-123 | the corrected setters keep the cache invariant |
| CachedShadows.AsWrittenResetLowersFlag | melatonin/internal/cached_shadows.cpp:95-99 | as written, a radius change on shadow 0 followed by re-setting shadow 1's radius lowers `needsRecalculate` while shadow 0 is stale, breaking the invariant |
| CachedShadows.AsWrittenSetterForgetsRadiusChange | melatonin/internal/cached_shadows.cpp:95-99 | after that sequence the next render of the same path keeps blurring shadow 0 with its old radius |
| CachedShadows.SetterKeepsRadiusChange | melatonin/internal/cached_shadows.cpp:95-99 | with the corrected setters the same sequence keeps the flag raised and the next render uses the new radius |
| CachedShadows.RedrawIsStable | melatonin/internal/cached_shadows.cpp:18-82 | rendering again with the same inputs changes nothing and paints the same |
| CachedShadows.TranslationReusesComposite | melatonin/internal/cached_shadows.cpp:47-73 | moving an unstroked path keeps every mask and the composite. Only the recorded origin changes, and the drawing moves with the origin in device pixels |
| CachedShadows.ScaleChangeRecomputes | melatonin/internal/cached_shadows.cpp:25-30 | a different scale re-renders every shadow at that scale |
| CachedShadows.SameShapeReusesMasks | melatonin/internal/cached_shadows.cpp:68-73 | the same shape at the same scale with nothing pending reuses every mask; with no recomposite pending only the origin changes |
| CachedShadows.StyleChangeRecompositesOnly | melatonin/internal/cached_shadows.cpp:107-123 | an offset, colour or opacity change followed by a render of the same shape keeps every mask |
| CachedShadows.RadiusChangeRerendersShadow | melatonin/internal/cached_shadows.cpp:95-133 | a radius change on one shadow re-renders it with the new radius, and every other shadow comes out unchanged |
| CachedShadows.AsWrittenDrawsStaleComposite | melatonin/internal/cached_shadows.cpp:177-180 | when every layer is empty, the composite as written keeps and draws the previous image, and the corrected one draws nothing |

## Left out

- Pixels are out of scope: path filling, reshaping by `scaleToFit`, the blur kernels, clipping, `fillRect` and `drawImageAt`. Masks and layers record what would be drawn, not the pixels. `melatonin_blur.cpp` and the vImage implementation headers are not part of this model.
- Path geometry is abstract. A shape is a token plus its bounding-box extents, and path equality is equality of shapes. Stroking is a function supplied by the caller, because `PathStrokeType::createStrokedPath` is JUCE code.
- Floats are modelled as exact reals. `approximatelyEqual` becomes exact equality in three places: the scale comparison (`NoteScale`), the fractional-scale test (`SubpixelPad`) and the opacity comparison (`UpdateOpacity`). Colours store alpha as a real, so the 8-bit quantisation of `withAlpha` is not modelled either.
- Fixed-width integers are not modelled: integers are unbounded. So 32-bit `int` overflow in the `Rectangle<int>` arithmetic (`expanded`, `getUnion`, adding the device offset) and in `roundToInt` and `getSmallestIntegerContainer` of very large floats is not modelled. The `(float)` casts of radius and spread are taken as exact, which they are only up to 2^24. The `(size_t)` cast of the blur radius is modelled as `SizeCast`, but `MaskSource` records the signed device radius it is applied to.
- UpdateOffset: uses the rounding `ScaleOffset`, the corrected reading of Findings row 2, not the truncation as written (`ScaleOffsetAsWritten`).
- UpdateScaledShadowBounds: uses the rounding `ScaleOffset` for the device offset, as `UpdateOffset` does.
- Render: recomposites with the corrected `CompositeShadowsToARGB` and `LayerOf` (Findings rows 3 and 4). The as-written composite is `CompositeShadowsToARGBAsWritten`.
- `drawARGBComposite`'s `optimizeClipBounds` branch is left out: no caller in this code enables it.
- `getImage` is left out; it returns the mask unchanged.
- The assertions in the source become preconditions or types. A positive scale is the `Scale` type. At least one shadow is a precondition of `NewCache`.
- Concurrency is left out: the classes are single-threaded.
- The setter wrappers `SetRadius`, `SetSpread`, `SetOffset`, `SetColor` and `SetOpacity` carry no contract of their own. They pass the converted value and index (default 0) to the corrected `Apply` (Findings row 5), whose contract is stated.
- RenderStrokedMatchesUncached: requires a stroke other than the sentinel `PathStrokeType { -1 }`. A first stroked render with that sentinel stroke does not force a recompute, so the masks of a previously unstroked stack stay unstroked.
- AsWrittenSetterForgetsRadiusChange: stated at integral scales only. At fractional scales two radii can round to the same device radius, and then nothing is visibly stale.

## Findings

| source | as written | input that shows it | evidently intended | confidence | as-written member | corrected member |
|---|---|---|---|---|---|---|
| melatonin/internal/cached_shadows.cpp:255-258 | the edge bands are built with `Rectangle (x, y, w, h)`, passing corner coordinates as width and height | inner shadow with radius 10, spread 50 and offset (-80,0) on a 100 x 100 path at scale 1: shadow bounds (-40,40,20,20), and path point (90,50) is covered by no band | bands spanning from corner to corner (`leftTopRightBottom`) | high, not executed | Composite.FarOffsetInnerShadowGap | Composite.EdgeRectsCover |
| melatonin/internal/rendered_single_channel_shadow.h:112 | `(offset * scale).roundToInt()` multiplies a `Point<int>` by a float. JUCE truncates that product back to `int` before the rounding | offset (3,-3) at scale 1.25 gives device offset (3,-3) | the nearest device offset (4,-4), as for radius and spread | medium (JUCE's `Point` is not part of this model), not executed | SingleShadow.TruncatedOffsetMissesNearest | SingleShadow.ScaleOffset |
| melatonin/internal/cached_shadows.cpp:217-263 | the inner-shadow clip path and bands are used in path coordinates, but the canvas starts at the composite corner | a radius-10 drop shadow plus a radius-5 inner shadow offset by (30,0) on a 100 x 100 path: the canvas starts at (-10,-10), and canvas point (30,50) inside the path is painted by neither mask nor band | clip and bands moved onto the canvas like the masks | high, not executed | Composite.MixedStackInnerShadowGap | Composite.LayerCoversPath |
| melatonin/internal/cached_shadows.cpp:177-180 | on empty composite bounds the function returns and keeps the previous composite image, which `drawARGBComposite` then draws | a stack composited once, then rendered with a path whose every layer is empty, e.g. an inner-only stack over an empty path | no image, nothing drawn | high, not executed | CachedShadows.AsWrittenDrawsStaleComposite | CachedShadows.CompositeShadowsToARGB |
| melatonin/internal/cached_shadows.cpp:95-123 | each setter assigns the updater's result to the dirty flag, lowering a flag an earlier setter raised | a two-shadow stack rendered at scale 1, then `setRadius (r, 0)` with a new r and `setRadius (same, 1)`: the next render keeps shadow 0's old blur | flags OR-ed with the updater's result | high, not executed | CachedShadows.AsWrittenSetterForgetsRadiusChange | CachedShadows.ApplyPreservesValid |
