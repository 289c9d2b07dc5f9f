/** The fit-and-centre layout of the wallpaper composer: the source image is
    scaled by `min(TargetWidth / w, TargetHeight / h)`, truncated to whole
    pixels, and centred on the fixed canvas. All arithmetic here is exact:
    a ratio is a pair of naturals and comparisons are cross-multiplied. */
module Layout {

  const TargetWidth: nat := 1200
  const TargetHeight: nat := 2600

  /** The exact rational `num / den`. */
  datatype Ratio = Ratio(num: nat, den: nat)

  datatype Size = Size(width: nat, height: nat)

  /** The width is the constraining axis: `TargetWidth / w <= TargetHeight / h`,
      cross-multiplied. On equality `min` keeps its first argument, the
      width ratio. */
  predicate WidthConstrains(w: nat, h: nat) {
    TargetWidth * h <= TargetHeight * w
  }

  /** `scale = min(TargetWidth / w, TargetHeight / h)`: it is no larger than
      either ratio and equal to one of them. */
  function Scale(w: nat, h: nat): (s: Ratio)
    requires w > 0 && h > 0
    ensures s.den > 0
    ensures s.num * w <= TargetWidth * s.den && s.num * h <= TargetHeight * s.den
    ensures s == Ratio(TargetWidth, w) || s == Ratio(TargetHeight, h)
  {
    if WidthConstrains(w, h) then Ratio(TargetWidth, w) else Ratio(TargetHeight, h)
  }

  /** The size of the scaled foreground, `(int(w * scale), int(h * scale))`
      computed exactly: it fits inside the canvas and fills it along the
      constraining axis. */
  function ForegroundSize(w: nat, h: nat): (sz: Size)
    requires w > 0 && h > 0
    ensures sz.width <= TargetWidth && sz.height <= TargetHeight
    ensures WidthConstrains(w, h) ==> sz.width == TargetWidth
    ensures !WidthConstrains(w, h) ==> sz.height == TargetHeight
  {
    if WidthConstrains(w, h) then
      DivBound(h * TargetWidth, w, TargetHeight);
      Size(TargetWidth, (h * TargetWidth) / w)
    else
      DivBound(w * TargetHeight, h, TargetWidth);
      Size((w * TargetHeight) / h, TargetHeight)
  }

  /** The imaging library refuses to resize to a side of 0 pixels, so the
      foreground can be built only when both of its sides are positive. */
  predicate CanResize(w: nat, h: nat)
    requires w > 0 && h > 0
  {
    ForegroundSize(w, h).width > 0 && ForegroundSize(w, h).height > 0
  }

  /** The centring offset of a side of length `size` on a canvas side of
      length `target`, `(target - size) // 2`: the box stays inside the
      canvas and the two margins differ by at most one pixel, the far one
      being the larger. */
  function Offset(target: nat, size: nat): (off: nat)
    requires size <= target
    ensures off + size <= target
    ensures off <= target - size - off <= off + 1
  {
    (target - size) / 2
  }

  lemma MulCancelLe(a: int, x: int, y: int)
    requires a > 0 && a * x <= a * y
    ensures x <= y
  {
    assert a * (y - x) >= 0;
  }

  lemma MulCancelLt(a: int, x: int, y: int)
    requires a > 0 && a * x < a * y
    ensures x < y
  {
    assert a * (y - x) > 0;
  }

  lemma MulDivCancel(a: nat, b: nat)
    requires a > 0
    ensures (a * b) / a == b
  {
    var n := a * b;
    var q := n / a;
    assert n == a * q + n % a;
    MulCancelLe(a, q, b);
    assert a * b < a * (q + 1);
    MulCancelLt(a, b, q + 1);
  }

  lemma DivBound(n: nat, d: nat, q: nat)
    requires d > 0 && n <= q * d
    ensures n / d <= q
  {
    assert n == d * (n / d) + n % d;
    assert d * (n / d) <= d * q;
    MulCancelLe(d, n / d, q);
  }

  /** Each foreground side is `floor(side * scale)` for the exact scale. */
  lemma {:induction false} ForegroundIsScaledFloor(w: nat, h: nat)
    requires w > 0 && h > 0
    ensures var s := Scale(w, h);
      ForegroundSize(w, h) == Size((w * s.num) / s.den, (h * s.num) / s.den)
  {
    if WidthConstrains(w, h) {
      MulDivCancel(w, TargetWidth);
    } else {
      MulDivCancel(h, TargetHeight);
    }
  }

  /** The aspect ratio is kept up to truncation: along the free axis the
      foreground side is the largest whole number of pixels not exceeding the
      proportional length. */
  lemma {:induction false} ForegroundKeepsAspect(w: nat, h: nat)
    requires w > 0 && h > 0
    ensures var sz := ForegroundSize(w, h);
      if WidthConstrains(w, h) then
        sz.height * w <= h * sz.width < (sz.height + 1) * w
      else
        sz.width * h <= w * sz.height < (sz.width + 1) * h
  {
    var sz := ForegroundSize(w, h);
    if WidthConstrains(w, h) {
      var n := h * TargetWidth;
      assert n == w * (n / w) + n % w;
      assert sz.height * w == w * (n / w);
    } else {
      var n := w * TargetHeight;
      assert n == h * (n / h) + n % h;
      assert sz.width * h == h * (n / h);
    }
  }

  /** Truncation leaves both foreground sides positive exactly when the
      source is at most 1200 times wider than tall and at most 2600 times
      taller than wide. A 1201 x 1 source, for one, truncates to a height
      of 0. */
  lemma {:induction false} ForegroundNonEmpty(w: nat, h: nat)
    requires w > 0 && h > 0
    ensures CanResize(w, h) <==> w <= TargetWidth * h && h <= TargetHeight * w
  {
    var sz := ForegroundSize(w, h);
    ForegroundKeepsAspect(w, h);
    if WidthConstrains(w, h) {
      FloorPositive(sz.height, TargetWidth * h, w);
    } else {
      FloorPositive(sz.width, TargetHeight * w, h);
    }
  }

  /** A floor `q` of `n / d`, pinned down by `q * d <= n < (q + 1) * d`, is
      positive exactly when `d <= n`. */
  lemma FloorPositive(q: nat, n: nat, d: nat)
    requires d > 0 && q * d <= n < (q + 1) * d
    ensures q > 0 <==> d <= n
  {
    if q > 0 {
      assert q * d >= 1 * d;
    } else {
      assert (q + 1) * d == d;
    }
  }

  /** A 1201 x 1 source would need a foreground 0 pixels high. */
  lemma VeryWideSourceCannotResize()
    ensures ForegroundSize(1201, 1) == Size(1200, 0) && !CanResize(1201, 1)
  {
  }

  /** A source with exactly the canvas' aspect ratio fills the whole canvas. */
  lemma {:induction false} MatchingAspectFillsCanvas(w: nat, h: nat)
    requires w > 0 && h > 0 && TargetWidth * h == TargetHeight * w
    ensures ForegroundSize(w, h) == Size(TargetWidth, TargetHeight)
  {
    assert h * TargetWidth == w * TargetHeight;
    MulDivCancel(w, TargetHeight);
  }

  /** A 600 x 1300 source is scaled by 2 and fills the canvas with no margin. */
  lemma HalfSizeSourceFillsCanvas()
    ensures ForegroundSize(600, 1300) == Size(1200, 2600)
    ensures Offset(TargetWidth, 1200) == 0 && Offset(TargetHeight, 2600) == 0
  {
  }

  /** A 100 x 100 source is scaled by 12 and centred vertically, 700 pixels
      from the top. */
  lemma SquareSourceCentredVertically()
    ensures ForegroundSize(100, 100) == Size(1200, 1200)
    ensures Offset(TargetWidth, 1200) == 0 && Offset(TargetHeight, 1200) == 700
  {
  }
}
