/** Compositing of all shadows of a stack into one ARGB image
    (`compositeShadowsToARGB`): the canvas is the union of what every shadow
    paints, each mask is placed at its offset from the canvas corner, and an
    inner shadow is clipped to its path with the bands between path and mask
    filled with solid colour. Pixels are not modelled, only what is painted
    where. */
module Composite {
  import opened Geometry
  import opened Paths
  import opened SingleShadow

  /** The clip a layer is painted through: none, or the scaled path placed at `at`. */
  datatype Clip = NoClip | ClipToPath(path: ScaledShape, at: Point)

  /** One shadow painted into the canvas: solid `fills` first, then the mask
      with its top-left corner at `at`, all in `colour` and through `clip`. */
  datatype Layer = Layer(colour: Colour, mask: Mask, at: Point, clip: Clip, fills: seq<Rect>)

  /** The composite: null, or an ARGB canvas with the layers in paint order. */
  datatype Image = NoImage | ARGB(width: int, height: int, layers: seq<Layer>)

  /** A composite together with the device-space position of its top-left corner. */
  datatype Composition = Composition(image: Image, position: Point)

  /** What a shadow needs of the canvas: an inner shadow never paints outside
      its path, a drop shadow covers its offset bounds. */
  function LayerBounds(s: Shadow): Rect {
    if s.params.inner then GetScaledPathBounds(s) else GetScaledBounds(s)
  }

  /** The canvas: `getUnion` folded over the shadows in order, starting from
      an empty rectangle at (0,0). An empty canvas is always that rectangle. */
  function CompositeBounds(ss: seq<Shadow>): (r: Rect)
    ensures r.IsEmpty() ==> r == NoRect
    decreases |ss|
  {
    if |ss| == 0 then NoRect
    else CompositeBounds(ss[..|ss| - 1]).Union(LayerBounds(ss[|ss| - 1]))
  }

  /** Every shadow's layer bounds lie on the canvas. */
  lemma {:induction false} CompositeBoundsEncloses(ss: seq<Shadow>)
    ensures forall i :: 0 <= i < |ss| ==> LayerBounds(ss[i]).Within(CompositeBounds(ss))
    decreases |ss|
  {
    if |ss| > 0 {
      var init := ss[..|ss| - 1];
      var last := LayerBounds(ss[|ss| - 1]);
      CompositeBoundsEncloses(init);
      UnionEncloses(CompositeBounds(init), last);
      forall i | 0 <= i < |ss|
        ensures LayerBounds(ss[i]).Within(CompositeBounds(ss))
      {
        if i < |ss| - 1 {
          assert ss[i] == init[i];
          WithinTransitive(LayerBounds(ss[i]), CompositeBounds(init), CompositeBounds(ss));
        }
      }
    }
  }

  /** The canvas is the least such box: any box holding every layer holds it. */
  lemma {:induction false} CompositeBoundsLeast(ss: seq<Shadow>, box: Rect)
    requires forall i :: 0 <= i < |ss| ==> LayerBounds(ss[i]).Within(box)
    ensures CompositeBounds(ss).Within(box)
    decreases |ss|
  {
    if |ss| > 0 {
      var init := ss[..|ss| - 1];
      forall i | 0 <= i < |init|
        ensures LayerBounds(init[i]).Within(box)
      {
        assert init[i] == ss[i];
      }
      CompositeBoundsLeast(init, box);
      UnionLeast(CompositeBounds(init), LayerBounds(ss[|ss| - 1]), box);
    }
  }

  /** The canvas is empty exactly when every shadow's layer bounds are. */
  lemma {:induction false} CompositeBoundsEmpty(ss: seq<Shadow>)
    ensures CompositeBounds(ss).IsEmpty() <==> forall i :: 0 <= i < |ss| ==> LayerBounds(ss[i]).IsEmpty()
    decreases |ss|
  {
    if |ss| > 0 {
      var init := ss[..|ss| - 1];
      CompositeBoundsEmpty(init);
      UnionEmpty(CompositeBounds(init), LayerBounds(ss[|ss| - 1]));
      assert forall i :: 0 <= i < |init| ==> init[i] == ss[i];
    }
  }

  // ---------------------------------------------------------------------
  // Inner-shadow edge fills

  /** `p` is painted by the mask drawn over `mask` or by one of `fills`. */
  predicate Covered(p: Point, mask: Rect, fills: seq<Rect>) {
    mask.Contains(p) || exists k :: 0 <= k < |fills| && fills[k].Contains(p)
  }

  /** The top, left, bottom and right bands as built in the source: the
      `(x, y, width, height)` constructor is handed corner coordinates as
      width and height. For a path at (0,0) the top and left bands come out
      right and the bottom and right ones too large, which the clip hides. */
  function EdgeRectsAsWritten(path: Rect, shadow: Rect): (r: seq<Rect>)
    ensures |r| == 4
    ensures path.Position() == Origin ==> r[..2] == EdgeRects(path, shadow)[..2]
    ensures path.Position() == Origin && 0 <= shadow.Bottom() ==> EdgeRects(path, shadow)[2].Within(r[2])
    ensures path.Position() == Origin && 0 <= shadow.Right() ==> EdgeRects(path, shadow)[3].Within(r[3])
  {
    [ Rect(path.x, path.y, path.Right(), shadow.y),
      Rect(path.x, path.y, shadow.x, path.Bottom()),
      Rect(path.x, shadow.Bottom(), path.Right(), path.Bottom()),
      Rect(shadow.Right(), path.y, path.Right(), path.Bottom()) ]
  }

  /** The same four bands built from their corners: above, left of, below and
      right of the mask, each spanning the path. No band paints over the mask. */
  function EdgeRects(path: Rect, shadow: Rect): (r: seq<Rect>)
    ensures |r| == 4
    ensures forall k, p :: 0 <= k < |r| && r[k].Contains(p) ==> !shadow.Contains(p)
  {
    [ FromCorners(path.x, path.y, path.Right(), shadow.y),
      FromCorners(path.x, path.y, shadow.x, path.Bottom()),
      FromCorners(path.x, shadow.Bottom(), path.Right(), path.Bottom()),
      FromCorners(shadow.Right(), path.y, path.Right(), path.Bottom()) ]
  }

  /** Every point of the path is painted by the mask or one of the bands,
      wherever the mask lies. */
  lemma EdgeRectsCover(path: Rect, shadow: Rect)
    ensures forall p :: path.Contains(p) ==> Covered(p, shadow, EdgeRects(path, shadow))
  {
    var e := EdgeRects(path, shadow);
    forall p | path.Contains(p)
      ensures Covered(p, shadow, e)
    {
      if p.y < shadow.y {
        assert e[0].Contains(p);
      } else if p.x < shadow.x {
        assert e[1].Contains(p);
      } else if shadow.Bottom() <= p.y {
        assert e[2].Contains(p);
      } else if shadow.Right() <= p.x {
        assert e[3].Contains(p);
      }
    }
  }

  /** The bands as written cover the path when the path starts at (0,0) and
      the mask's bottom-right corner is not above or left of it. */
  lemma EdgeRectsAsWrittenCover(path: Rect, shadow: Rect)
    requires path.Position() == Origin
    requires 0 <= shadow.Right() && 0 <= shadow.Bottom()
    ensures forall p :: path.Contains(p) ==> Covered(p, shadow, EdgeRectsAsWritten(path, shadow))
  {
    var e := EdgeRectsAsWritten(path, shadow);
    forall p | path.Contains(p)
      ensures Covered(p, shadow, e)
    {
      if p.y < shadow.y {
        assert e[0].Contains(p);
      } else if p.x < shadow.x {
        assert e[1].Contains(p);
      } else if shadow.Bottom() <= p.y {
        assert e[2].Contains(p);
      } else if shadow.Right() <= p.x {
        assert e[3].Contains(p);
      }
    }
  }

  /** An inner shadow offset so far left that its mask ends left of the path
      (radius 10, spread 50, offset (-80,0), 100 x 100 path, scale 1): as
      written, no band reaches the right part of the path, so the point
      (90,50) is left unpainted; the bands built from corners paint it. */
  lemma FarOffsetInnerShadowGap(outline: nat)
    ensures var p := ShadowParameters(TransparentBlack, 10, Point(-80, 0), 50, true);
      var s := RenderShadow(NewShadow(p), Shape(outline, 100.0, 100.0), 1.0, false);
      var q := Point(90, 50);
      && GetScaledPathBounds(s).Contains(q)
      && !Covered(q, GetScaledBounds(s), EdgeRectsAsWritten(GetScaledPathBounds(s), GetScaledBounds(s)))
      && Covered(q, GetScaledBounds(s), EdgeRects(GetScaledPathBounds(s), GetScaledBounds(s)))
  {
    var p := ShadowParameters(TransparentBlack, 10, Point(-80, 0), 50, true);
    var s := RenderShadow(NewShadow(p), Shape(outline, 100.0, 100.0), 1.0, false);
    var q := Point(90, 50);
    RenderAtUnitScale(NewShadow(p), outline, 100, 100, false);
    assert s.scaledShadowBounds == Rect(40, 40, 20, 20) by {
      assert BlurMargin(true, 10, 50) == -40;
    }
    var path := GetScaledPathBounds(s);
    var shadow := GetScaledBounds(s);
    assert path == Rect(0, 0, 100, 100);
    assert shadow == Rect(-40, 40, 20, 20);
    var e := EdgeRectsAsWritten(path, shadow);
    assert e == [Rect(0, 0, 100, 40), Rect(0, 0, -40, 100), Rect(0, 60, 100, 100), Rect(-20, 0, 100, 100)];
    assert forall k :: 0 <= k < |e| ==> !e[k].Contains(q);
    assert EdgeRects(path, shadow)[3] == FromCorners(-20, 0, 100, 100);
    assert EdgeRects(path, shadow)[3].Contains(q);
  }

  // ---------------------------------------------------------------------
  // Layers

  /** Where a shadow's mask lands on the canvas whose corner is `corner`. */
  function PlacedMask(s: Shadow, corner: Point): Rect {
    GetScaledBounds(s).Translated(Origin.Minus(corner))
  }

  /** Where a shadow's path lands on the canvas whose corner is `corner`. */
  function PlacedPath(s: Shadow, corner: Point): Rect {
    GetScaledPathBounds(s).Translated(Origin.Minus(corner))
  }

  function TranslateAll(rs: seq<Rect>, d: Point): (r: seq<Rect>)
    ensures |r| == |rs|
    ensures forall k :: 0 <= k < |rs| ==> r[k] == rs[k].Translated(d)
  {
    seq(|rs|, k requires 0 <= k < |rs| => rs[k].Translated(d))
  }

  /** One loop iteration as written: the mask is placed relative to the
      canvas corner, but the clip path and the bands are used in the path's
      own coordinates, as if the canvas started at (0,0). */
  function LayerAsWritten(s: Shadow, bounds: Rect, pathScaled: ScaledShape): (l: Layer)
    ensures l.at == PlacedMask(s, bounds.Position()).Position()
    ensures l.mask == s.mask && l.colour == s.params.color
    ensures s.params.inner <==> l.clip.ClipToPath?
    ensures s.params.inner ==>
      && l.clip.at == Origin
      && l.fills == EdgeRectsAsWritten(GetScaledPathBounds(s), GetScaledBounds(s))
    ensures !s.params.inner ==> l.fills == []
  {
    var at := GetScaledBounds(s).Position().Minus(bounds.Position());
    if s.params.inner then
      Layer(s.params.color, s.mask, at, ClipToPath(pathScaled, Origin),
            EdgeRectsAsWritten(GetScaledPathBounds(s), GetScaledBounds(s)))
    else
      Layer(s.params.color, s.mask, at, NoClip, [])
  }

  /** One loop iteration with the clip path and the bands moved onto the
      canvas like the mask, and the bands built from their corners. */
  function LayerOf(s: Shadow, bounds: Rect, pathScaled: ScaledShape): (l: Layer)
    ensures l.at == PlacedMask(s, bounds.Position()).Position()
    ensures l.mask == s.mask && l.colour == s.params.color
    ensures s.params.inner <==> l.clip.ClipToPath?
    ensures s.params.inner ==> GetScaledPathBounds(s).Translated(l.clip.at) == PlacedPath(s, bounds.Position())
    ensures !s.params.inner ==> l.fills == []
  {
    var shift := Origin.Minus(bounds.Position());
    var at := GetScaledBounds(s).Position().Plus(shift);
    if s.params.inner then
      Layer(s.params.color, s.mask, at, ClipToPath(pathScaled, shift),
            TranslateAll(EdgeRects(GetScaledPathBounds(s), GetScaledBounds(s)), shift))
    else
      Layer(s.params.color, s.mask, at, NoClip, [])
  }

  /** On the canvas, every point of an inner shadow's path is painted by its
      mask or by one of its bands, for every canvas corner. */
  lemma LayerCoversPath(s: Shadow, bounds: Rect, pathScaled: ScaledShape)
    requires s.params.inner
    ensures var l := LayerOf(s, bounds, pathScaled);
      forall p :: PlacedPath(s, bounds.Position()).Contains(p) ==>
        Covered(p, PlacedMask(s, bounds.Position()), l.fills)
  {
    var l := LayerOf(s, bounds, pathScaled);
    var shift := Origin.Minus(bounds.Position());
    var e := EdgeRects(GetScaledPathBounds(s), GetScaledBounds(s));
    EdgeRectsCover(GetScaledPathBounds(s), GetScaledBounds(s));
    forall p | PlacedPath(s, bounds.Position()).Contains(p)
      ensures Covered(p, PlacedMask(s, bounds.Position()), l.fills)
    {
      var q := p.Minus(shift);
      TranslatedContains(GetScaledPathBounds(s), shift, p);
      assert Covered(q, GetScaledBounds(s), e);
      TranslatedContains(GetScaledBounds(s), shift, p);
      if !GetScaledBounds(s).Contains(q) {
        var k :| 0 <= k < |e| && e[k].Contains(q);
        TranslatedContains(e[k], shift, p);
        assert l.fills[k].Contains(p);
      }
    }
  }

  /** A drop shadow of radius 10 and an inner shadow of radius 5 and offset
      (30,0) under one 100 x 100 path at scale 1. */
  lemma MixedStackRendering(outline: nat)
    ensures var shape := Shape(outline, 100.0, 100.0);
      var drop := RenderShadow(NewShadow(ShadowParameters(TransparentBlack, 10, Origin, 0, false)), shape, 1.0, false);
      var inner := RenderShadow(NewShadow(ShadowParameters(TransparentBlack, 5, Point(30, 0), 0, true)), shape, 1.0, false);
      && !drop.params.inner && GetScaledBounds(drop) == Rect(-10, -10, 120, 120)
      && inner.params.inner && GetScaledPathBounds(inner) == Rect(0, 0, 100, 100)
      && GetScaledBounds(inner) == Rect(25, -5, 110, 110)
  {
    RenderAtUnitScale(NewShadow(ShadowParameters(TransparentBlack, 10, Origin, 0, false)), outline, 100, 100, false);
    RenderAtUnitScale(NewShadow(ShadowParameters(TransparentBlack, 5, Point(30, 0), 0, true)), outline, 100, 100, false);
  }

  /** With the stack of `MixedStackRendering` the drop shadow moves the canvas
      corner to (-10,-10), so on the canvas the path spans (10,10)-(110,110).
      As written, the inner shadow's bands stay in path coordinates and the
      canvas point (30,50) of the path is painted by neither mask nor band;
      with the bands moved onto the canvas it is. */
  lemma MixedStackInnerShadowGap(drop: Shadow, inner: Shadow, ps: ScaledShape)
    requires !drop.params.inner && GetScaledBounds(drop) == Rect(-10, -10, 120, 120)
    requires inner.params.inner && GetScaledPathBounds(inner) == Rect(0, 0, 100, 100)
    requires GetScaledBounds(inner) == Rect(25, -5, 110, 110)
    ensures var bounds := CompositeBounds([drop, inner]);
      var q := Point(30, 50);
      && bounds == Rect(-10, -10, 120, 120)
      && PlacedPath(inner, bounds.Position()).Contains(q)
      && !Covered(q, PlacedMask(inner, bounds.Position()), LayerAsWritten(inner, bounds, ps).fills)
      && Covered(q, PlacedMask(inner, bounds.Position()), LayerOf(inner, bounds, ps).fills)
  {
    var q := Point(30, 50);
    var ss := [drop, inner];
    assert ss[..1] == [drop];
    assert [drop][..0] == [];
    assert CompositeBounds([drop]) == Rect(-10, -10, 120, 120);
    var bounds := CompositeBounds(ss);
    assert bounds == Rect(-10, -10, 120, 120);
    assert PlacedMask(inner, bounds.Position()) == Rect(35, 5, 110, 110);
    var e := LayerAsWritten(inner, bounds, ps).fills;
    assert e == [Rect(0, 0, 100, -5), Rect(0, 0, 25, 100), Rect(0, 105, 100, 100), Rect(135, 0, 100, 100)];
    assert forall k :: 0 <= k < |e| ==> !e[k].Contains(q);
    LayerCoversPath(inner, bounds, ps);
  }

  // ---------------------------------------------------------------------
  // The composite

  function Layers(ss: seq<Shadow>, bounds: Rect, pathScaled: ScaledShape): (ls: seq<Layer>)
    ensures |ls| == |ss|
    ensures forall i :: 0 <= i < |ss| ==> ls[i] == LayerOf(ss[i], bounds, pathScaled)
  {
    seq(|ss|, i requires 0 <= i < |ss| => LayerOf(ss[i], bounds, pathScaled))
  }

  /** The composite of a stack of shadows over the scaled path: a canvas the
      size of the union of the layer bounds, one layer per shadow in order,
      and no image at all when that union is empty. */
  function Compose(ss: seq<Shadow>, pathScaled: ScaledShape): (r: Composition)
    ensures r.position == CompositeBounds(ss).Position()
    ensures r.image.NoImage? <==> forall i :: 0 <= i < |ss| ==> LayerBounds(ss[i]).IsEmpty()
    ensures r.image.ARGB? ==>
      && r.image.width == CompositeBounds(ss).w
      && r.image.height == CompositeBounds(ss).h
      && |r.image.layers| == |ss|
      && (forall i :: 0 <= i < |ss| ==> r.image.layers[i].mask == ss[i].mask)
      && (forall i :: 0 <= i < |ss| ==> r.image.layers[i].colour == ss[i].params.color)
  {
    var bounds := CompositeBounds(ss);
    CompositeBoundsEmpty(ss);
    if bounds.IsEmpty() then Composition(NoImage, bounds.Position())
    else Composition(ARGB(bounds.w, bounds.h, Layers(ss, bounds, pathScaled)), bounds.Position())
  }

  /** Everything a layer needs lies on the canvas: each drop shadow's mask
      and each inner shadow's path. */
  lemma LayersFitCanvas(ss: seq<Shadow>, pathScaled: ScaledShape)
    ensures var r := Compose(ss, pathScaled);
      r.image.ARGB? ==>
        forall i :: 0 <= i < |ss| ==>
          (if ss[i].params.inner then PlacedPath(ss[i], r.position) else PlacedMask(ss[i], r.position))
            .Within(Rect(0, 0, r.image.width, r.image.height))
  {
    var r := Compose(ss, pathScaled);
    var bounds := CompositeBounds(ss);
    CompositeBoundsEncloses(ss);
    forall i | 0 <= i < |ss|
      ensures (if ss[i].params.inner then PlacedPath(ss[i], r.position) else PlacedMask(ss[i], r.position))
            .Within(Rect(0, 0, bounds.w, bounds.h))
    {
      assert LayerBounds(ss[i]).Within(bounds);
    }
  }
}
