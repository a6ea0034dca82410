/**
 * The loops of `renderMeshGradient`: one pass over the points per pixel,
 * rows top to bottom and pixels left to right, each pixel writing four
 * values to the RGBA buffer at `(y * renderWidth + x) * 4`.
 */
module Raster {
  import opened Colour
  import opened ColorPoints
  import opened Resolution
  import opened Blend

  /** Channel `k` of a pixel in buffer order: red, green, blue, alpha. */
  function Channel(p: Pixel, k: nat): int
    requires k < 4
  {
    if k == 0 then p.r else if k == 1 then p.g else if k == 2 then p.b else p.a
  }

  /** The slot of channel `k` of the `i`-th pixel in row-major order. */
  function Slot(i: nat, k: nat): nat {
    i * 4 + k
  }

  /** The slot `(y * renderWidth + x) * 4 + k` of channel `k` of pixel `(x, y)`. */
  function BufferIndex(rw: nat, x: nat, y: nat, k: nat): nat {
    Slot(y * rw + x, k)
  }

  /**
   * The point loop for one pixel at `(nx, ny)`, with the five running sums as
   * local variables: the sums of all the points' samples.
   */
  method SumPoints(ps: seq<ColorPoint>, nx: real, ny: real, radius: Radius) returns (s: Sums)
    ensures s == PixelSums(ps, nx, ny, radius)
  {
    var totalWeight, r, g, b, a := 0.0, 0.0, 0.0, 0.0, 0.0;
    var i := 0;
    while i < |ps|
      invariant 0 <= i <= |ps|
      invariant Sums(totalWeight, r, g, b, a) == Accumulate(Samples(ps[..i], nx, ny, radius))
    {
      var sample := SampleOf(ps[i], nx, ny, radius);
      var add := SampleSums(sample);
      AccumulateStep(ps, i, nx, ny, radius);
      totalWeight := totalWeight + add.total;
      r := r + add.r;
      g := g + add.g;
      b := b + add.b;
      a := a + add.a;
      i := i + 1;
    }
    assert ps[..i] == ps;
    s := Sums(totalWeight, r, g, b, a);
  }

  /** The normalisation and rounding after the point loop. */
  method Normalise(s: Sums) returns (px: Pixel)
    ensures px == Shade(s)
  {
    var totalWeight, r, g, b, a := s.total, s.r, s.g, s.b, s.a;
    if totalWeight > 0.0 {
      r := r / totalWeight;
      g := g / totalWeight;
      b := b / totalWeight;
      a := Min(1.0, a / totalWeight);
    }
    px := Pixel(Round(r), Round(g), Round(b), Round(a * 255.0));
  }

  /** The pixel `(x, y)`: its position as a fraction of the render size, the point loop, the normalisation. */
  method ShadePixel(ps: seq<ColorPoint>, radius: Radius, rw: nat, rh: nat, x: nat, y: nat) returns (px: Pixel)
    requires x < rw && y < rh
    ensures px == PixelAt(ps, radius, rw, rh, x, y)
  {
    var nx := x as real / rw as real;
    var ny := y as real / rh as real;
    var sums := SumPoints(ps, nx, ny, radius);
    px := Normalise(sums);
  }

  /** One row of the image: `4 * rw` values, pixel `x` at slots `4x` to `4x + 3`. */
  method RenderRow(ps: seq<ColorPoint>, radius: Radius, rw: nat, rh: nat, y: nat) returns (row: seq<int>)
    requires y < rh
    ensures |row| == rw * 4
    ensures forall x, k :: 0 <= x < rw && 0 <= k < 4 ==>
      row[Slot(x, k)] == Channel(PixelAt(ps, radius, rw, rh, x, y), k)
  {
    row := [];
    var x := 0;
    while x < rw
      invariant 0 <= x <= rw
      invariant |row| == x * 4
      invariant forall x', k :: 0 <= x' < x && 0 <= k < 4 ==>
        row[Slot(x', k)] == Channel(PixelAt(ps, radius, rw, rh, x', y), k)
    {
      var px := ShadePixel(ps, radius, rw, rh, x, y);
      row := row + [px.r, px.g, px.b, px.a];
      x := x + 1;
    }
  }

  /** Within row `y`, channel `k` of pixel `x` sits `Slot(x, k)` after the row's first slot `4 * y * rw`. */
  lemma SlotInRow(rw: nat, x: nat, y: nat, k: nat)
    ensures BufferIndex(rw, x, y, k) == y * rw * 4 + Slot(x, k)
  {
  }

  /** Row `y + 1` starts one row's width of slots after row `y`. */
  lemma NextRowStart(rw: nat, y: nat)
    ensures (y + 1) * rw * 4 == y * rw * 4 + rw * 4
  {
  }

  /** Every slot of an earlier row comes before row `y` starts. */
  lemma SlotBeforeRow(rw: nat, x: nat, y': nat, y: nat, k: nat)
    requires x < rw && y' < y && k < 4
    ensures BufferIndex(rw, x, y', k) < y * rw * 4
  {
    assert (y' + 1) * rw <= y * rw;
  }

  /** The first `rows` rows of a `rw` x `rh` render are in the buffer at their slots. */
  predicate Rendered(data: seq<int>, ps: seq<ColorPoint>, radius: Radius, rw: nat, rh: nat, rows: nat)
    requires rows <= rh
  {
    && |data| == rows * rw * 4
    && forall x, y, k :: 0 <= x < rw && 0 <= y < rows && 0 <= k < 4 ==>
         BufferIndex(rw, x, y, k) < |data| && data[BufferIndex(rw, x, y, k)] == Channel(PixelAt(ps, radius, rw, rh, x, y), k)
  }

  /** Appending row `y` to a buffer holding the rows above it gives a buffer holding one more row. */
  lemma AppendRow(data: seq<int>, row: seq<int>, ps: seq<ColorPoint>, radius: Radius, rw: nat, rh: nat, y: nat)
    requires y < rh && Rendered(data, ps, radius, rw, rh, y)
    requires |row| == rw * 4
    requires forall x, k :: 0 <= x < rw && 0 <= k < 4 ==> row[Slot(x, k)] == Channel(PixelAt(ps, radius, rw, rh, x, y), k)
    ensures Rendered(data + row, ps, radius, rw, rh, y + 1)
  {
    var next := data + row;
    NextRowStart(rw, y);
    forall x, y', k | 0 <= x < rw && 0 <= y' < y + 1 && 0 <= k < 4
      ensures BufferIndex(rw, x, y', k) < |next| && next[BufferIndex(rw, x, y', k)] == Channel(PixelAt(ps, radius, rw, rh, x, y'), k)
    {
      if y' < y {
        SlotBeforeRow(rw, x, y', y, k);
        assert next[BufferIndex(rw, x, y', k)] == data[BufferIndex(rw, x, y', k)];
      } else {
        SlotInRow(rw, x, y, k);
        assert next[BufferIndex(rw, x, y, k)] == row[Slot(x, k)];
      }
    }
  }

  /**
   * The pixel loops: `rw * rh` pixels, four values each, channel `k` of pixel
   * `(x, y)` at `(y * rw + x) * 4 + k`, holding the blended pixel there.
   */
  method RenderPixels(ps: seq<ColorPoint>, radius: Radius, rw: nat, rh: nat) returns (data: seq<int>)
    ensures |data| == rw * rh * 4
    ensures forall x, y, k :: 0 <= x < rw && 0 <= y < rh && 0 <= k < 4 ==>
      BufferIndex(rw, x, y, k) < |data| && data[BufferIndex(rw, x, y, k)] == Channel(PixelAt(ps, radius, rw, rh, x, y), k)
  {
    data := [];
    var y := 0;
    while y < rh
      invariant 0 <= y <= rh
      invariant Rendered(data, ps, radius, rw, rh, y)
    {
      var row := RenderRow(ps, radius, rw, rh, y);
      AppendRow(data, row, ps, radius, rw, rh, y);
      data := data + row;
      y := y + 1;
    }
    assert rh * rw * 4 == rw * rh * 4;
  }

  /** The size plan and the pixel buffer `renderMeshGradient` fills before the canvas calls. */
  datatype Render = Render(plan: RenderSize, data: seq<int>)

  /**
   * `renderMeshGradient` up to `putImageData`: choose the render size, then
   * fill the buffer at that size.
   */
  method RenderMeshGradient(ps: seq<ColorPoint>, radius: Radius, width: nat, height: nat, lowQuality: bool)
    returns (out: Render)
    ensures out.plan == PlanRender(width, height, lowQuality)
    ensures out.plan.width <= MaxRenderWidth(lowQuality) || out.plan.width == width
    ensures |out.data| == out.plan.width * out.plan.height * 4
    ensures forall x, y, k :: 0 <= x < out.plan.width && 0 <= y < out.plan.height && 0 <= k < 4 ==>
      BufferIndex(out.plan.width, x, y, k) < |out.data| && out.data[BufferIndex(out.plan.width, x, y, k)]
        == Channel(PixelAt(ps, radius, out.plan.width, out.plan.height, x, y), k)
  {
    var plan := PlanRender(width, height, lowQuality);
    var data := RenderPixels(ps, radius, plan.width, plan.height);
    out := Render(plan, data);
  }

  /** With opacities in `[0, 1]` every value written to the buffer is a byte. */
  lemma BufferIsBytes(ps: seq<ColorPoint>, radius: Radius, rw: nat, rh: nat, x: nat, y: nat, k: nat)
    requires x < rw && y < rh && k < 4
    requires OpacitiesWithin(ps, 1.0)
    ensures 0 <= Channel(PixelAt(ps, radius, rw, rh, x, y), k) <= 255
  {
    PixelIsBytes(ps, radius, rw, rh, x, y);
  }
}
