/**
 * The resolution policy of `renderMeshGradient`: the width the IDW loop runs
 * at is capped (300 pixels in low-quality mode, 600 otherwise); a capped
 * render keeps the aspect ratio by scaling the height with the same factor,
 * rounded down, and is later stretched back to the target size. Both
 * callers in the editor (the preview and the download) pass
 * `lowQuality = false`, so in practice the cap is 600.
 */
module Resolution {

  const LowQualityCap: nat := 300
  const NormalCap: nat := 600

  /** `maxPreviewWidth`. */
  function MaxRenderWidth(lowQuality: bool): nat {
    if lowQuality then LowQualityCap else NormalCap
  }

  function Max(a: nat, b: nat): nat {
    if a >= b then a else b
  }

  /** The internal render size and the `scale` factor that decides the upsampling step. */
  datatype RenderSize = RenderSize(width: nat, height: nat, scale: real)

  /**
   * The size the pixel loop runs at for a `width` x `height` target:
   * the target itself when it fits under the cap, otherwise the cap by
   * `floor(height * cap / width)` with `scale = cap / width`.
   */
  function PlanRender(width: nat, height: nat, lowQuality: bool): (p: RenderSize)
    ensures var cap := MaxRenderWidth(lowQuality);
      && (width <= cap ==> p == RenderSize(width, height, 1.0))
      && (width > cap ==>
            && p.width == cap < width
            && p.height <= height
            && p.height == (height * cap) / width
            && 0.0 < p.scale < 1.0)
      && p.width <= Max(width, cap)
      && (p.scale < 1.0 <==> width > cap)
  {
    var cap := MaxRenderWidth(lowQuality);
    if width > cap then
      var scale := cap as real / width as real;
      CappedHeight(height, cap, width);
      RenderSize(cap, (height as real * scale).Floor, scale)
    else
      RenderSize(width, height, 1.0)
  }

  /** Dividing a strict or non-strict product bound by a positive real. */
  lemma DivideBounds(a: real, lo: real, hi: real, d: real)
    requires d > 0.0 && lo * d <= a < hi * d
    ensures lo <= a / d < hi
  {
    var q := a / d;
    assert q * d == a;
    assert lo * d <= q * d < hi * d;
  }

  /** The real floor of a quotient of naturals is the integer quotient. */
  lemma FloorOfQuotient(n: nat, d: nat)
    requires d > 0
    ensures (n as real / d as real).Floor == n / d
  {
    var q := n / d;
    assert q * d <= n < (q + 1) * d;
    assert (q * d) as real == q as real * d as real;
    assert ((q + 1) * d) as real == (q + 1) as real * d as real;
    DivideBounds(n as real, q as real, (q + 1) as real, d as real);
  }

  /** For `0 < cap < width` the scale `cap / width` lies strictly between 0 and 1. */
  lemma ScaleBetween(cap: nat, width: nat)
    requires 0 < cap < width
    ensures 0.0 < cap as real / width as real < 1.0
  {
    DivideBounds(cap as real, 0.0, 1.0, width as real);
  }

  /** Scaling the height by `cap / width` is dividing `height * cap` by `width`, and it never grows. */
  lemma ScaledHeightBound(height: nat, cap: nat, width: nat)
    requires 0 < cap < width
    ensures height as real * (cap as real / width as real) == (height * cap) as real / width as real
    ensures (height * cap) / width <= height
  {
    assert height * cap <= height * width;
    assert (height * cap) / width <= (height * width) / width;
  }

  /**
   * For `0 < cap < width`: the scale lies strictly between 0 and 1, and the
   * scaled height, rounded down, is the integer quotient `height * cap / width`,
   * never above `height`.
   */
  lemma CappedHeight(height: nat, cap: nat, width: nat)
    requires 0 < cap < width
    ensures 0.0 < cap as real / width as real < 1.0
    ensures (height as real * (cap as real / width as real)).Floor == (height * cap) / width
    ensures (height * cap) / width <= height
  {
    ScaleBetween(cap, width);
    ScaledHeightBound(height, cap, width);
    FloorOfQuotient(height * cap, width);
  }

  /** A capped render keeps the target aspect ratio up to the rounding of the height. */
  lemma CappedAspectRatio(width: nat, height: nat, lowQuality: bool)
    requires width > MaxRenderWidth(lowQuality)
    ensures var p := PlanRender(width, height, lowQuality);
      p.height * width <= height * p.width < (p.height + 1) * width
  {
  }

  /** A quotient of naturals is at least one when the divisor does not exceed the dividend. */
  lemma QuotientAtLeastOne(n: nat, d: nat)
    requires 0 < d <= n
    ensures n / d >= 1
  {
    var q, r := n / d, n % d;
    assert q * d + r == n && r < d;
  }

  /** Both render dimensions are positive whenever the target ones are and the height survives the scaling. */
  lemma RenderSizePositive(width: nat, height: nat, lowQuality: bool)
    requires width > 0 && height * MaxRenderWidth(lowQuality) >= width
    ensures PlanRender(width, height, lowQuality).width > 0
    ensures PlanRender(width, height, lowQuality).height > 0
  {
    var cap := MaxRenderWidth(lowQuality);
    if width > cap {
      QuotientAtLeastOne(height * cap, width);
    } else {
      assert height > 0;
    }
  }
}
