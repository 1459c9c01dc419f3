/** Plane geometry with the semantics of JUCE's `Point`, `Rectangle<int>` and
    `Rectangle<float>`, plus the integer conversions the shadow code relies on
    (`roundToInt`, the truncating `int` cast, floor and ceiling). */
module Geometry {

  function Min(a: int, b: int): int { if a <= b then a else b }
  function Max(a: int, b: int): int { if a >= b then a else b }

  /** A device scale factor: always strictly positive. */
  type Scale = s: real | 0.0 < s witness 1.0

  /** True when `s` has no fractional part (scale 1, 2, 3, ...). */
  predicate IsIntegral(s: real) {
    s.Floor as real == s
  }

  /** The least integer not below `x`. */
  function Ceil(x: real): (n: int)
    ensures (n - 1) as real < x <= n as real
  {
    -((-x).Floor)
  }

  /** `juce::roundToInt`: nearest integer, halves going to the even neighbour
      (the magic-number conversion under the default floating-point mode). */
  function Round(x: real): (n: int)
    ensures -0.5 <= n as real - x <= 0.5
    ensures IsIntegral(x) ==> n as real == x
  {
    var f := x.Floor;
    var frac := x - f as real;
    if frac < 0.5 then f
    else if frac > 0.5 then f + 1
    else if f % 2 == 0 then f
    else f + 1
  }

  /** The C++ conversion of a floating value to `int`: truncation toward zero. */
  function Trunc(x: real): (n: int)
    ensures 0.0 <= x ==> 0.0 <= x - n as real < 1.0
    ensures x < 0.0 ==> 0.0 <= n as real - x < 1.0
  {
    if 0.0 <= x then x.Floor else -((-x).Floor)
  }

  /** A 64-bit `size_t`. */
  type SizeT = n: nat | n < 0x1_0000_0000_0000_0000

  /** The C++ conversion `(size_t) n` of a signed integer: the value modulo
      2^64, so a negative value wraps to a huge one. */
  function SizeCast(n: int): (r: SizeT)
    ensures (r - n) % 0x1_0000_0000_0000_0000 == 0
    ensures 0 <= n < 0x1_0000_0000_0000_0000 ==> r == n
    ensures -0x1_0000_0000_0000_0000 <= n < 0 ==> r == n + 0x1_0000_0000_0000_0000
  {
    n % 0x1_0000_0000_0000_0000
  }

  datatype Point = Point(x: int, y: int) {
    function Plus(d: Point): Point { Point(x + d.x, y + d.y) }
    function Minus(d: Point): Point { Point(x - d.x, y - d.y) }
  }

  const Origin := Point(0, 0)

  datatype RPoint = RPoint(x: real, y: real) {
    function Plus(d: RPoint): RPoint { RPoint(x + d.x, y + d.y) }
    function Minus(d: RPoint): RPoint { RPoint(x - d.x, y - d.y) }
    function Times(k: real): RPoint { RPoint(x * k, y * k) }
  }

  const ROrigin := RPoint(0.0, 0.0)

  function ToReal(p: Point): RPoint {
    RPoint(p.x as real, p.y as real)
  }

  /** `juce::Rectangle<int>`: top-left corner plus width and height. A
      rectangle with a non-positive side is empty and contains no point. */
  datatype Rect = Rect(x: int, y: int, w: int, h: int) {

    function Position(): Point { Point(x, y) }

    function Right(): int { x + w }

    function Bottom(): int { y + h }

    predicate IsEmpty() { w <= 0 || h <= 0 }

    /** Half-open containment, as `Rectangle::contains (Point)`. */
    predicate Contains(p: Point) {
      x <= p.x < x + w && y <= p.y < y + h
    }

    /** Every point of this rectangle lies in `o`. */
    predicate Within(o: Rect) {
      IsEmpty() || (o.x <= x && o.y <= y && Right() <= o.Right() && Bottom() <= o.Bottom())
    }

    /** `Rectangle::expanded (dx, dy)`: grows each side, never below zero size. */
    function Expanded(dx: int, dy: int): Rect {
      Rect(x - dx, y - dy, Max(0, w + 2 * dx), Max(0, h + 2 * dy))
    }

    /** `rectangle + point`: moves the rectangle without resizing it. */
    function Translated(d: Point): Rect {
      Rect(x + d.x, y + d.y, w, h)
    }

    /** `Rectangle::getUnion`: an empty operand contributes nothing. */
    function Union(o: Rect): Rect {
      if o.IsEmpty() then this
      else if IsEmpty() then o
      else
        var nx := Min(x, o.x);
        var ny := Min(y, o.y);
        Rect(nx, ny, Max(Right(), o.Right()) - nx, Max(Bottom(), o.Bottom()) - ny)
    }
  }

  /** The empty rectangle a default-constructed `Rectangle<int>` holds. */
  const NoRect := Rect(0, 0, 0, 0)

  /** `Rectangle<int>::leftTopRightBottom`. */
  function FromCorners(left: int, top: int, right: int, bottom: int): Rect {
    Rect(left, top, right - left, bottom - top)
  }

  /** `juce::Rectangle<float>`. */
  datatype FRect = FRect(x: real, y: real, w: real, h: real) {

    /** `rectangle * scale`: scales position and size alike. */
    function Scaled(k: real): FRect {
      FRect(x * k, y * k, w * k, h * k)
    }

    /** `getSmallestIntegerContainer`: floor of the top-left corner, ceiling
        of the bottom-right corner. */
    function SmallestIntegerContainer(): Rect {
      FromCorners(x.Floor, y.Floor, Ceil(x + w), Ceil(y + h))
    }
  }

  /** A box anchored at (0,0) stays anchored there when scaled; its integer
      container rounds only the far corner up. */
  lemma AnchoredContainer(w: real, h: real, k: real)
    ensures FRect(0.0, 0.0, w, h).Scaled(k).SmallestIntegerContainer() == Rect(0, 0, Ceil(w * k), Ceil(h * k))
  {
    var f := FRect(0.0, 0.0, w, h).Scaled(k);
    assert f == FRect(0.0, 0.0, w * k, h * k) by {
      assert 0.0 * k == 0.0;
    }
    assert f.x.Floor == 0 && f.y.Floor == 0;
    assert f.x + f.w == w * k && f.y + f.h == h * k;
    assert f.SmallestIntegerContainer() == FromCorners(0, 0, Ceil(w * k), Ceil(h * k));
  }

  lemma WithinTransitive(a: Rect, b: Rect, c: Rect)
    requires a.Within(b) && b.Within(c)
    ensures a.Within(c)
  {
  }

  /** The union encloses both operands. */
  lemma UnionEncloses(a: Rect, b: Rect)
    ensures a.Within(a.Union(b)) && b.Within(a.Union(b))
  {
  }

  /** The union is the least rectangle enclosing both operands. */
  lemma UnionLeast(a: Rect, b: Rect, box: Rect)
    requires a.Within(box) && b.Within(box)
    ensures a.Union(b).Within(box)
  {
  }

  /** The union is empty exactly when both operands are. */
  lemma UnionEmpty(a: Rect, b: Rect)
    ensures a.Union(b).IsEmpty() <==> a.IsEmpty() && b.IsEmpty()
  {
  }

  lemma TranslatedContains(r: Rect, d: Point, p: Point)
    ensures r.Translated(d).Contains(p) <==> r.Contains(p.Minus(d))
  {
  }
}
