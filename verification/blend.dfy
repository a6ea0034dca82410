/**
 * The per-pixel inverse-distance-weighted blend of `renderMeshGradient`.
 * Every control point is sampled at the pixel: its parsed colour, its
 * opacity and the weight `1 / ((dist / radius)^2 + 0.01)`. The loop adds up
 * the weights, `channel * weight * opacity` per colour channel and
 * `opacity * weight` for alpha; after all points the sums are divided by the
 * total weight, alpha is clamped at 1, and the results are rounded.
 * Arithmetic is over exact reals, and only the square of the distance is used.
 */
module Blend {
  import opened Colour
  import opened ColorPoints

  /** The blend radius: positive, 0.4 by default. */
  type Radius = r: real | r > 0.0 witness 0.4

  /** The term added to the squared adjusted distance. */
  const Epsilon: real := 0.01

  /** The weight of a point sitting exactly on the pixel, `1 / Epsilon`. */
  const PeakWeight: real := 100.0

  /** `u * v`, kept behind a name so that its sign is a fact about one term. */
  function Product(u: real, v: real): real
  {
    u * v
  }

  /** Two factors of the same strict sign give a positive product. */
  lemma ProductPositive(u: real, v: real)
    requires (u > 0.0 && v > 0.0) || (u < 0.0 && v < 0.0)
    ensures Product(u, v) > 0.0
  {
    if u < 0.0 {
      assert u * v == (-u) * (-v);
    }
  }

  /** A square: never negative, and zero only for zero. */
  function Square(u: real): (s: real)
    ensures s >= 0.0
    ensures u != 0.0 ==> s > 0.0
  {
    if u != 0.0 then ProductPositive(u, u); Product(u, u) else Product(u, u)
  }

  /** The square of `distance(x1, y1, x2, y2)`: never negative, and zero exactly when the points coincide. */
  function SquaredDistance(x1: real, y1: real, x2: real, y2: real): (d2: real)
    ensures d2 >= 0.0
    ensures d2 == 0.0 <==> x1 == x2 && y1 == y2
  {
    Square(x2 - x1) + Square(y2 - y1)
  }

  /** Distance does not depend on which point comes first. */
  lemma SquaredDistanceSymmetric(x1: real, y1: real, x2: real, y2: real)
    ensures SquaredDistance(x1, y1, x2, y2) == SquaredDistance(x2, y2, x1, y1)
  {
    assert (x2 - x1) * (x2 - x1) == (x1 - x2) * (x1 - x2);
    assert (y2 - y1) * (y2 - y1) == (y1 - y2) * (y1 - y2);
  }

  /**
   * `1 / (adjustedDist ** 2 + 0.01)` with `adjustedDist ** 2 = dist^2 / radius^2`:
   * positive, at most 100, and 100 exactly at distance zero.
   */
  function Weight(d2: real, radius: Radius): (w: real)
    requires d2 >= 0.0
    ensures 0.0 < w <= PeakWeight
    ensures w == PeakWeight <==> d2 == 0.0
  {
    var t := d2 / (radius * radius);
    assert radius * radius > 0.0;
    assert t >= 0.0;
    assert t == 0.0 <==> d2 == 0.0;
    1.0 / (t + Epsilon)
  }

  /** A farther point always weighs strictly less. */
  lemma WeightDecreasing(d1: real, d2: real, radius: Radius)
    requires 0.0 <= d1 < d2
    ensures Weight(d2, radius) < Weight(d1, radius)
  {
    var r2 := radius * radius;
    assert r2 > 0.0;
    var t1 := d1 / r2;
    var t2 := d2 / r2;
    assert t1 < t2;
    var u1, u2 := t1 + Epsilon, t2 + Epsilon;
    assert 0.0 < u1 < u2;
    assert 1.0 / u2 < 1.0 / u1;
  }

  /** What the loop reads from one point: its parsed colour, its opacity and its weight. */
  datatype Sample = Sample(rgb: Rgb, opacity: real, weight: real)

  /** One turn of the point loop of `renderMeshGradient`: sample point `p` at the normalised pixel position `(nx, ny)`. */
  function SampleOf(p: ColorPoint, nx: real, ny: real, radius: Radius): (s: Sample)
    ensures s.rgb == HexToRgb(p.color) && s.opacity == p.opacity
    ensures 0.0 < s.weight <= PeakWeight
    ensures s.weight == PeakWeight <==> p.x == nx && p.y == ny
  {
    Sample(HexToRgb(p.color), p.opacity, Weight(SquaredDistance(nx, ny, p.x, p.y), radius))
  }

  /** Applying `f` to every element, keeping the order. */
  function Map<A, B>(f: A -> B, xs: seq<A>): (ys: seq<B>)
    ensures |ys| == |xs|
    ensures forall i :: 0 <= i < |xs| ==> ys[i] == f(xs[i])
  {
    seq(|xs|, i requires 0 <= i < |xs| => f(xs[i]))
  }

  /** Deleting the element at `j` removes one occurrence of it from the multiset. */
  lemma MultisetDelete<T>(s: seq<T>, j: nat)
    requires j < |s|
    ensures multiset(s) == multiset(s[..j] + s[j + 1..]) + multiset{s[j]}
  {
    assert s == s[..j] + [s[j]] + s[j + 1..];
    assert multiset(s) == multiset(s[..j]) + multiset{s[j]} + multiset(s[j + 1..]);
  }

  /** Dropping the last element removes one occurrence of it from the multiset. */
  lemma MultisetDropLast<T>(s: seq<T>)
    requires |s| > 0
    ensures multiset(s) == multiset(s[..|s| - 1]) + multiset{s[|s| - 1]}
  {
    assert s == s[..|s| - 1] + [s[|s| - 1]];
  }

  /** Taking the same element out of two equal multisets leaves equal multisets. */
  lemma MultisetCancel<T>(a: multiset<T>, b: multiset<T>, e: T)
    requires a + multiset{e} == b + multiset{e}
    ensures a == b
  {
    assert a == (a + multiset{e}) - multiset{e};
    assert b == (b + multiset{e}) - multiset{e};
  }

  /**
   * The last element of `xs` occurs in `ys`; with it taken out of both, the
   * rest are still permutations of each other.
   */
  lemma PermutationPeel<T>(xs: seq<T>, ys: seq<T>) returns (j: nat)
    requires |xs| > 0 && multiset(xs) == multiset(ys)
    ensures j < |ys| && ys[j] == xs[|xs| - 1]
    ensures multiset(xs[..|xs| - 1]) == multiset(ys[..j] + ys[j + 1..])
  {
    var e := xs[|xs| - 1];
    assert e in multiset(ys);
    j :| 0 <= j < |ys| && ys[j] == e;
    MultisetDelete(ys, j);
    MultisetDropLast(xs);
    MultisetCancel(multiset(xs[..|xs| - 1]), multiset(ys[..j] + ys[j + 1..]), e);
  }

  /** Mapping commutes with taking a prefix. */
  lemma MapPrefix<A, B>(f: A -> B, xs: seq<A>, n: nat)
    requires n <= |xs|
    ensures Map(f, xs)[..n] == Map(f, xs[..n])
  {
  }

  /** Mapping commutes with deleting the element at `j`. */
  lemma MapDelete<A, B>(f: A -> B, xs: seq<A>, j: nat)
    requires j < |xs|
    ensures Map(f, xs[..j] + xs[j + 1..]) == Map(f, xs)[..j] + Map(f, xs)[j + 1..]
  {
  }

  /** Mapping a permutation gives a permutation of the images. */
  lemma {:induction false} MapPermutation<A, B>(f: A -> B, xs: seq<A>, ys: seq<A>)
    requires multiset(xs) == multiset(ys)
    ensures multiset(Map(f, xs)) == multiset(Map(f, ys))
    decreases |xs|
  {
    if xs == [] {
      assert |ys| == |multiset(ys)| == 0;
    } else {
      var n := |xs| - 1;
      var j := PermutationPeel(xs, ys);
      MapPermutation(f, xs[..n], ys[..j] + ys[j + 1..]);
      var fx, fy := Map(f, xs), Map(f, ys);
      MapPrefix(f, xs, n);
      MapDelete(f, ys, j);
      MultisetDelete(fy, j);
      MultisetDropLast(fx);
      assert fx[n] == fy[j];
    }
  }

  /** Every point sampled at one pixel, in list order. */
  function Samples(ps: seq<ColorPoint>, nx: real, ny: real, radius: Radius): (ss: seq<Sample>)
    ensures |ss| == |ps|
    ensures forall i :: 0 <= i < |ps| ==> ss[i] == SampleOf(ps[i], nx, ny, radius)
  {
    Map(p => SampleOf(p, nx, ny, radius), ps)
  }

  /** The running sums of the point loop: `totalWeight`, `r`, `g`, `b`, `a`. */
  datatype Sums = Sums(total: real, r: real, g: real, b: real, a: real)

  const NoSums: Sums := Sums(0.0, 0.0, 0.0, 0.0, 0.0)

  function Add(u: Sums, v: Sums): Sums {
    Sums(u.total + v.total, u.r + v.r, u.g + v.g, u.b + v.b, u.a + v.a)
  }

  /** What one sample adds to the running sums: its weight, `channel * weight * opacity` and `opacity * weight`. */
  function SampleSums(s: Sample): Sums {
    Sums(s.weight, s.rgb.r as real * s.weight * s.opacity, s.rgb.g as real * s.weight * s.opacity,
         s.rgb.b as real * s.weight * s.opacity, s.opacity * s.weight)
  }

  predicate PositiveWeights(ss: seq<Sample>) {
    forall i :: 0 <= i < |ss| ==> 0.0 < ss[i].weight <= PeakWeight
  }

  /**
   * The sums after the loop has visited the samples in order. With weights in
   * `(0, 100]` the total weight is positive exactly when there is a sample,
   * and at most 100 per sample.
   */
  function Accumulate(ss: seq<Sample>): (s: Sums)
    ensures PositiveWeights(ss) ==> 0.0 <= s.total <= PeakWeight * |ss| as real
    ensures PositiveWeights(ss) ==> (s.total > 0.0 <==> |ss| > 0)
    decreases |ss|
  {
    if ss == [] then NoSums
    else
      var n := |ss| - 1;
      assert PositiveWeights(ss) ==> PositiveWeights(ss[..n]);
      Add(Accumulate(ss[..n]), SampleSums(ss[n]))
  }

  /** The sums of every point at the normalised pixel position `(nx, ny)`. */
  function PixelSums(ps: seq<ColorPoint>, nx: real, ny: real, radius: Radius): (s: Sums)
    ensures 0.0 <= s.total <= PeakWeight * |ps| as real
    ensures s.total > 0.0 <==> |ps| > 0
  {
    Accumulate(Samples(ps, nx, ny, radius))
  }

  /** One more turn of the point loop adds the next point's sample to the sums. */
  lemma AccumulateStep(ps: seq<ColorPoint>, i: nat, nx: real, ny: real, radius: Radius)
    requires i < |ps|
    ensures Accumulate(Samples(ps[..i + 1], nx, ny, radius))
         == Add(Accumulate(Samples(ps[..i], nx, ny, radius)), SampleSums(SampleOf(ps[i], nx, ny, radius)))
  {
    var ss := Samples(ps[..i + 1], nx, ny, radius);
    assert ss[..i] == Samples(ps[..i], nx, ny, radius);
  }

  /** Adding up a sequence of sums from first to last. */
  function Total(cs: seq<Sums>): Sums
    decreases |cs|
  {
    if cs == [] then NoSums else Add(Total(cs[..|cs| - 1]), cs[|cs| - 1])
  }

  /** The loop's sums are the total of the samples' individual sums. */
  lemma {:induction false} AccumulateIsTotal(ss: seq<Sample>)
    ensures Accumulate(ss) == Total(Map(SampleSums, ss))
    decreases |ss|
  {
    if ss != [] {
      var n := |ss| - 1;
      AccumulateIsTotal(ss[..n]);
      assert Map(SampleSums, ss)[..n] == Map(SampleSums, ss[..n]);
    }
  }

  /** Totalling two runs one after the other adds their totals. */
  lemma {:induction false} TotalAppend(cs: seq<Sums>, ds: seq<Sums>)
    ensures Total(cs + ds) == Add(Total(cs), Total(ds))
    decreases |ds|
  {
    if ds == [] {
      assert cs + ds == cs;
    } else {
      var last := |ds| - 1;
      assert (cs + ds)[..|cs + ds| - 1] == cs + ds[..last];
      TotalAppend(cs, ds[..last]);
    }
  }

  /** A one-element total is that element. */
  lemma TotalSingleton(e: Sums)
    ensures Total([e]) == e
  {
    assert [e][..0] == [];
  }

  /** Adding `e` before or after `v` gives the same sums. */
  lemma AddSwap(u: Sums, e: Sums, v: Sums)
    ensures Add(Add(u, e), v) == Add(Add(u, v), e)
  {
  }

  /** The total with the element at `j` taken out, plus that element, is the whole total. */
  lemma {:induction false} TotalDelete(ds: seq<Sums>, j: nat)
    requires j < |ds|
    ensures Total(ds) == Add(Total(ds[..j] + ds[j + 1..]), ds[j])
  {
    var e, a, b := ds[j], ds[..j], ds[j + 1..];
    assert ds == (a + [e]) + b;
    calc {
      Total(ds);
    == { TotalAppend(a + [e], b); }
      Add(Total(a + [e]), Total(b));
    == { TotalAppend(a, [e]); TotalSingleton(e); }
      Add(Add(Total(a), e), Total(b));
    == { AddSwap(Total(a), e, Total(b)); }
      Add(Add(Total(a), Total(b)), e);
    == { TotalAppend(a, b); }
      Add(Total(a + b), e);
    }
  }

  /** The total does not depend on the order of the sums. */
  lemma {:induction false} TotalPermutation(cs: seq<Sums>, ds: seq<Sums>)
    requires multiset(cs) == multiset(ds)
    ensures Total(cs) == Total(ds)
    decreases |cs|
  {
    if cs == [] {
      assert |ds| == |multiset(ds)| == 0;
    } else {
      var n := |cs| - 1;
      var j := PermutationPeel(cs, ds);
      TotalPermutation(cs[..n], ds[..j] + ds[j + 1..]);
      TotalDelete(ds, j);
    }
  }

  /**
   * Order independence: any permutation of the samples gives the same total
   * weight and the same channel sums.
   */
  lemma AccumulatePermutation(ss: seq<Sample>, ts: seq<Sample>)
    requires multiset(ss) == multiset(ts)
    ensures Accumulate(ss) == Accumulate(ts)
  {
    AccumulateIsTotal(ss);
    AccumulateIsTotal(ts);
    MapPermutation(SampleSums, ss, ts);
    TotalPermutation(Map(SampleSums, ss), Map(SampleSums, ts));
  }

  /** Any permutation of the points gives the same sums at every pixel. */
  lemma PixelSumsPermutation(ps: seq<ColorPoint>, qs: seq<ColorPoint>, nx: real, ny: real, radius: Radius)
    requires multiset(ps) == multiset(qs)
    ensures PixelSums(ps, nx, ny, radius) == PixelSums(qs, nx, ny, radius)
  {
    MapPermutation(p => SampleOf(p, nx, ny, radius), ps, qs);
    AccumulatePermutation(Samples(ps, nx, ny, radius), Samples(qs, nx, ny, radius));
  }

  /** A pixel as written to the buffer: the four rounded channel values. */
  datatype Pixel = Pixel(r: int, g: int, b: int, a: int)

  /** `Math.round`: the nearest integer, halves rounded up. */
  function Round(v: real): (n: int)
    ensures v - 0.5 < n as real <= v + 0.5
  {
    (v + 0.5).Floor
  }

  function Min(a: real, b: real): real {
    if a <= b then a else b
  }

  /**
   * The normalisation after the point loop: divide by the total weight when
   * it is positive, clamp alpha at 1, scale alpha to 255, round every channel.
   * With positive weight the alpha byte never exceeds 255, whatever the
   * opacities.
   */
  function Shade(s: Sums): (p: Pixel)
    ensures s.total > 0.0 ==> p.a <= 255
  {
    if s.total > 0.0 then
      Pixel(Round(s.r / s.total), Round(s.g / s.total), Round(s.b / s.total),
            Round(Min(1.0, s.a / s.total) * 255.0))
    else
      Pixel(Round(s.r), Round(s.g), Round(s.b), Round(s.a * 255.0))
  }

  /**
   * The pixel `(x, y)` of a `rw` x `rh` render, at `(x / rw, y / rh)`.
   * Without points the loop adds nothing and the pixel is transparent black;
   * with points the alpha byte is at most 255 whatever the opacities.
   */
  function PixelAt(ps: seq<ColorPoint>, radius: Radius, rw: nat, rh: nat, x: nat, y: nat): (p: Pixel)
    requires x < rw && y < rh
    ensures ps == [] ==> p == Pixel(0, 0, 0, 0)
    ensures |ps| > 0 ==> p.a <= 255
  {
    Shade(PixelSums(ps, x as real / rw as real, y as real / rh as real, radius))
  }

  /** Every sum multiplied by `k`: what the loop adds up when every weight is `k` times larger. */
  function Scale(s: Sums, k: real): Sums {
    Sums(k * s.total, k * s.r, k * s.g, k * s.b, k * s.a)
  }

  /** A common positive factor cancels from a quotient. */
  lemma DivScale(k: real, v: real, t: real)
    requires k > 0.0 && t > 0.0
    ensures (k * v) / (k * t) == v / t
  {
    assert (k * v) / (k * t) * (k * t) == k * v;
    assert (v / t) * (k * t) == k * v;
  }

  /**
   * Normalisation: multiplying every weight by the same positive factor
   * leaves the pixel unchanged, so only the weights' ratios matter.
   */
  lemma ShadeScaleInvariant(s: Sums, k: real)
    requires s.total > 0.0 && k > 0.0
    ensures Shade(Scale(s, k)) == Shade(s)
  {
    var t := Scale(s, k);
    ProductPositive(k, s.total);
    assert t.total > 0.0;
    assert t.r / t.total == s.r / s.total by { DivScale(k, s.r, s.total); }
    assert t.g / t.total == s.g / s.total by { DivScale(k, s.g, s.total); }
    assert t.b / t.total == s.b / s.total by { DivScale(k, s.b, s.total); }
    assert t.a / t.total == s.a / s.total by { DivScale(k, s.a, s.total); }
  }

  /** Every opacity lies in `[0, m]`. */
  predicate OpacitiesWithin(ps: seq<ColorPoint>, m: real) {
    forall i :: 0 <= i < |ps| ==> 0.0 <= ps[i].opacity <= m
  }

  /** Products of non-negative reals grow with their factors. */
  lemma MulMono(a: real, b: real, c: real, d: real)
    requires 0.0 <= a <= b && 0.0 <= c <= d
    ensures a * c <= b * d
  {
    assert a * c <= b * c;
    assert b * c <= b * d;
  }

  /** One weighted channel `ch * w * o` lies between 0 and `k * w` when `ch * o <= k`. */
  lemma ChannelBound(ch: real, o: real, w: real, k: real)
    requires 0.0 <= ch && 0.0 <= o && ch * o <= k && w > 0.0
    ensures 0.0 <= ch * w * o <= k * w
  {
    assert ch * w * o == (ch * o) * w;
    MulMono(0.0, ch * o, w, w);
    MulMono(ch * o, k, w, w);
  }

  /** `v` lies between 0 and `k` times the weight `t`. */
  predicate Within(v: real, t: real, k: real) {
    0.0 <= v <= k * t
  }

  /** The channel sums, each between 0 and `k` times the total weight, alpha between 0 and `m` times it. */
  predicate SumsWithin(s: Sums, k: real, m: real) {
    Within(s.r, s.total, k) && Within(s.g, s.total, k) && Within(s.b, s.total, k) && Within(s.a, s.total, m)
  }

  /** One colour channel weighted by `w` and opacity `o <= m` lies in `[0, 255 * m * w]`. */
  lemma ChannelWithin(ch: Byte, o: real, w: real, m: real)
    requires 0.0 <= o <= m && w > 0.0
    ensures Within(ch as real * w * o, w, 255.0 * m)
  {
    MulMono(ch as real, 255.0, o, m);
    ChannelBound(ch as real, o, w, 255.0 * m);
  }

  /** Colour channel `i` (red, green, blue) of a sum. */
  function ChannelSum(t: Sums, i: nat): real
    requires i < 3
  {
    if i == 0 then t.r else if i == 1 then t.g else t.b
  }

  /** Colour channel `i` of a sample's sums lies in `[0, 255 * m]` times its weight. */
  lemma SampleChannelWithin(s: Sample, m: real, i: nat)
    requires 0.0 <= s.opacity <= m && s.weight > 0.0 && i < 3
    ensures Within(ChannelSum(SampleSums(s), i), SampleSums(s).total, 255.0 * m)
  {
    var ch := if i == 0 then s.rgb.r else if i == 1 then s.rgb.g else s.rgb.b;
    ChannelWithin(ch, s.opacity, s.weight, m);
  }

  /** The alpha sum of a sample lies in `[0, m]` times its weight. */
  lemma SampleAlphaWithin(s: Sample, m: real)
    requires 0.0 <= s.opacity <= m && s.weight > 0.0
    ensures Within(SampleSums(s).a, SampleSums(s).total, m)
  {
    MulMono(s.opacity, m, s.weight, s.weight);
  }

  /** One sample with opacity in `[0, m]` respects the bounds for `k = 255 * m`. */
  lemma SampleWithin(s: Sample, m: real)
    requires 0.0 <= s.opacity <= m && s.weight > 0.0
    ensures SumsWithin(SampleSums(s), 255.0 * m, m)
  {
    SampleChannelWithin(s, m, 0);
    SampleChannelWithin(s, m, 1);
    SampleChannelWithin(s, m, 2);
    SampleAlphaWithin(s, m);
  }

  /** Bounds proportional to the weight survive adding two sums. */
  lemma AddWithin(u: Sums, v: Sums, k: real, m: real)
    requires SumsWithin(u, k, m) && SumsWithin(v, k, m)
    ensures SumsWithin(Add(u, v), k, m)
  {
    assert k * u.total + k * v.total == k * (u.total + v.total);
    assert m * u.total + m * v.total == m * (u.total + v.total);
  }

  /** A total of sums that each respect the bounds respects them too. */
  lemma {:induction false} TotalWithin(cs: seq<Sums>, k: real, m: real)
    requires forall i :: 0 <= i < |cs| ==> SumsWithin(cs[i], k, m)
    ensures SumsWithin(Total(cs), k, m)
    decreases |cs|
  {
    if cs != [] {
      var n := |cs| - 1;
      TotalWithin(cs[..n], k, m);
      AddWithin(Total(cs[..n]), cs[n], k, m);
    }
  }

  /** Summed over all points, each channel sum lies between 0 and `255 * m` times the total weight. */
  lemma SumsBounds(ps: seq<ColorPoint>, nx: real, ny: real, radius: Radius, m: real)
    requires OpacitiesWithin(ps, m)
    ensures SumsWithin(PixelSums(ps, nx, ny, radius), 255.0 * m, m)
  {
    var ss := Samples(ps, nx, ny, radius);
    var cs := Map(SampleSums, ss);
    forall i | 0 <= i < |cs| ensures SumsWithin(cs[i], 255.0 * m, m) {
      SampleWithin(ss[i], m);
    }
    TotalWithin(cs, 255.0 * m, m);
    AccumulateIsTotal(ss);
  }

  /** `0 <= u <= k * t` with `t > 0` gives `0 <= u / t <= k`. */
  lemma DivBound(u: real, k: real, t: real)
    requires t > 0.0 && 0.0 <= u <= k * t
    ensures 0.0 <= u / t <= k
  {
  }

  /** `Math.round` keeps order. */
  lemma RoundMono(u: real, v: real)
    requires u <= v
    ensures Round(u) <= Round(v)
  {
  }

  /** Normalised sums within the bounds shade to channels no larger than the rounding of `255 * m`. */
  lemma ShadeBounds(s: Sums, m: real)
    requires SumsWithin(s, 255.0 * m, m) && 0.0 <= m <= 1.0
    ensures var p := Shade(s);
      && 0 <= p.r <= Round(255.0 * m) && 0 <= p.g <= Round(255.0 * m) && 0 <= p.b <= Round(255.0 * m)
      && 0 <= p.a <= Round(255.0 * m)
      && Round(255.0 * m) <= 255
  {
    MulMono(255.0, 255.0, m, 1.0);
    RoundMono(255.0 * m, 255.0);
    if s.total > 0.0 {
      DivBound(s.r, 255.0 * m, s.total);
      DivBound(s.g, 255.0 * m, s.total);
      DivBound(s.b, 255.0 * m, s.total);
      DivBound(s.a, m, s.total);
      RoundMono(s.r / s.total, 255.0 * m);
      RoundMono(s.g / s.total, 255.0 * m);
      RoundMono(s.b / s.total, 255.0 * m);
      var alpha := Min(1.0, s.a / s.total);
      MulMono(alpha, m, 255.0, 255.0);
      RoundMono(alpha * 255.0, 255.0 * m);
    } else {
      assert s.r == 0.0 && s.g == 0.0 && s.b == 0.0 && s.a == 0.0;
    }
  }

  /**
   * With opacities in `[0, m]` and `m <= 1`, every normalised channel of a
   * pixel lies in `[0, 255 * m]` and alpha in `[0, m]`, so each byte written
   * lies in `[0, 255]` and none exceeds the rounding of `255 * m`.
   */
  lemma PixelBounds(ps: seq<ColorPoint>, radius: Radius, rw: nat, rh: nat, x: nat, y: nat, m: real)
    requires x < rw && y < rh
    requires OpacitiesWithin(ps, m) && 0.0 <= m <= 1.0
    ensures var p := PixelAt(ps, radius, rw, rh, x, y);
      && 0 <= p.r <= Round(255.0 * m) && 0 <= p.g <= Round(255.0 * m) && 0 <= p.b <= Round(255.0 * m)
      && 0 <= p.a <= Round(255.0 * m)
      && Round(255.0 * m) <= 255
  {
    var nx, ny := x as real / rw as real, y as real / rh as real;
    SumsBounds(ps, nx, ny, radius, m);
    ShadeBounds(PixelSums(ps, nx, ny, radius), m);
  }

  /** Every pixel of points with opacities in `[0, 1]` is four bytes. */
  lemma PixelIsBytes(ps: seq<ColorPoint>, radius: Radius, rw: nat, rh: nat, x: nat, y: nat)
    requires x < rw && y < rh
    requires OpacitiesWithin(ps, 1.0)
    ensures var p := PixelAt(ps, radius, rw, rh, x, y);
      0 <= p.r <= 255 && 0 <= p.g <= 255 && 0 <= p.b <= 255 && 0 <= p.a <= 255
  {
    PixelBounds(ps, radius, rw, rh, x, y, 1.0);
  }

  /** All points share the parsed colour `c` and the opacity `o`. */
  predicate Uniform(ps: seq<ColorPoint>, c: Rgb, o: real) {
    forall i :: 0 <= i < |ps| ==> HexToRgb(ps[i].color) == c && ps[i].opacity == o
  }

  /** Channel sums that are fixed multiples of the weight: `r = kr * total`, and so on. */
  predicate Proportional(s: Sums, kr: real, kg: real, kb: real, ka: real) {
    s.r == kr * s.total && s.g == kg * s.total && s.b == kb * s.total && s.a == ka * s.total
  }

  /** Proportionality with common factors survives totalling. */
  lemma {:induction false} TotalProportional(cs: seq<Sums>, kr: real, kg: real, kb: real, ka: real)
    requires forall i :: 0 <= i < |cs| ==> Proportional(cs[i], kr, kg, kb, ka)
    ensures Proportional(Total(cs), kr, kg, kb, ka)
    decreases |cs|
  {
    if cs != [] {
      var n := |cs| - 1;
      TotalProportional(cs[..n], kr, kg, kb, ka);
      var u, v := Total(cs[..n]), cs[n];
      assert kr * u.total + kr * v.total == kr * (u.total + v.total);
      assert kg * u.total + kg * v.total == kg * (u.total + v.total);
      assert kb * u.total + kb * v.total == kb * (u.total + v.total);
      assert ka * u.total + ka * v.total == ka * (u.total + v.total);
    }
  }

  /** A channel `ch * w * o` is the factor `ch * o` times the weight. */
  lemma ChannelProportional(ch: real, o: real, w: real)
    ensures ch * w * o == (ch * o) * w
  {
  }

  /** A sample of colour `c` and opacity `o` adds sums proportional to `c * o` and `o`. */
  lemma SampleProportional(s: Sample, c: Rgb, o: real)
    requires s.rgb == c && s.opacity == o
    ensures Proportional(SampleSums(s), c.r as real * o, c.g as real * o, c.b as real * o, o)
  {
    ChannelProportional(c.r as real, o, s.weight);
    ChannelProportional(c.g as real, o, s.weight);
    ChannelProportional(c.b as real, o, s.weight);
  }

  /** Sums of uniform points are the shared colour and opacity scaled by the total weight. */
  lemma UniformSums(ps: seq<ColorPoint>, c: Rgb, o: real, nx: real, ny: real, radius: Radius)
    requires Uniform(ps, c, o)
    ensures Proportional(PixelSums(ps, nx, ny, radius), c.r as real * o, c.g as real * o, c.b as real * o, o)
  {
    var ss := Samples(ps, nx, ny, radius);
    var cs := Map(SampleSums, ss);
    forall i | 0 <= i < |cs| ensures Proportional(cs[i], c.r as real * o, c.g as real * o, c.b as real * o, o) {
      assert ss[i] == SampleOf(ps[i], nx, ny, radius);
      SampleProportional(ss[i], c, o);
    }
    TotalProportional(cs, c.r as real * o, c.g as real * o, c.b as real * o, o);
    AccumulateIsTotal(ss);
  }

  /** Dividing a multiple of a non-zero weight by that weight gives the factor back. */
  lemma DivCancel(k: real, t: real)
    requires t != 0.0
    ensures (k * t) / t == k
  {
  }

  /**
   * The pixel a uniform mesh collapses to: colour `c` scaled by opacity `o`,
   * alpha `min(1, o)`, each rounded.
   */
  function CollapsedPixel(c: Rgb, o: real): Pixel {
    Pixel(Round(c.r as real * o), Round(c.g as real * o), Round(c.b as real * o), Round(Min(1.0, o) * 255.0))
  }

  /** Sums proportional to colour `c` times opacity `o`, with positive weight, shade to the collapsed pixel. */
  lemma ShadeProportional(s: Sums, c: Rgb, o: real)
    requires s.total > 0.0 && Proportional(s, c.r as real * o, c.g as real * o, c.b as real * o, o)
    ensures Shade(s) == CollapsedPixel(c, o)
  {
    DivCancel(c.r as real * o, s.total);
    DivCancel(c.g as real * o, s.total);
    DivCancel(c.b as real * o, s.total);
    DivCancel(o, s.total);
    assert s.r / s.total == c.r as real * o && s.g / s.total == c.g as real * o;
    assert s.b / s.total == c.b as real * o && s.a / s.total == o;
  }

  /**
   * Collapse: when every point has the same colour and opacity `o`, every
   * pixel is that colour times `o` with alpha `min(1, o)`, wherever the points are.
   */
  lemma UniformCollapse(ps: seq<ColorPoint>, c: Rgb, o: real, radius: Radius, rw: nat, rh: nat, x: nat, y: nat)
    requires x < rw && y < rh
    requires |ps| > 0 && Uniform(ps, c, o)
    ensures PixelAt(ps, radius, rw, rh, x, y) == CollapsedPixel(c, o)
  {
    var nx, ny := x as real / rw as real, y as real / rh as real;
    UniformSums(ps, c, o, nx, ny, radius);
    ShadeProportional(PixelSums(ps, nx, ny, radius), c, o);
  }

  /** A single point paints the whole canvas in its own colour scaled by its opacity. */
  lemma SinglePointCollapse(p: ColorPoint, radius: Radius, rw: nat, rh: nat, x: nat, y: nat)
    requires x < rw && y < rh
    ensures PixelAt([p], radius, rw, rh, x, y) == CollapsedPixel(HexToRgb(p.color), p.opacity)
  {
    assert Uniform([p], HexToRgb(p.color), p.opacity) by {
      assert [p][0] == p;
    }
    UniformCollapse([p], HexToRgb(p.color), p.opacity, radius, rw, rh, x, y);
  }

  /** Rounding an integer gives it back. */
  lemma RoundInteger(n: int)
    ensures Round(n as real) == n
  {
  }

  /** At full opacity the collapsed pixel is the colour itself with alpha byte 255. */
  lemma CollapsedOpaque(c: Rgb)
    ensures CollapsedPixel(c, 1.0) == Pixel(c.r, c.g, c.b, 255)
  {
    RoundInteger(c.r);
    RoundInteger(c.g);
    RoundInteger(c.b);
    RoundInteger(255);
  }

  /** Opaque points of one colour give exactly that colour with alpha byte 255 everywhere. */
  lemma OpaqueCollapse(ps: seq<ColorPoint>, c: Rgb, radius: Radius, rw: nat, rh: nat, x: nat, y: nat)
    requires x < rw && y < rh
    requires |ps| > 0 && Uniform(ps, c, 1.0)
    ensures PixelAt(ps, radius, rw, rh, x, y) == Pixel(c.r, c.g, c.b, 255)
  {
    UniformCollapse(ps, c, 1.0, radius, rw, rh, x, y);
    CollapsedOpaque(c);
  }

  /** Fully transparent points give alpha 0 everywhere, whatever their colours. */
  lemma TransparentPoints(ps: seq<ColorPoint>, radius: Radius, rw: nat, rh: nat, x: nat, y: nat)
    requires x < rw && y < rh
    requires OpacitiesWithin(ps, 0.0)
    ensures PixelAt(ps, radius, rw, rh, x, y).a == 0
  {
    PixelBounds(ps, radius, rw, rh, x, y, 0.0);
  }

  /** Reordering the points leaves every pixel unchanged. */
  lemma PixelPermutation(ps: seq<ColorPoint>, qs: seq<ColorPoint>, radius: Radius, rw: nat, rh: nat, x: nat, y: nat)
    requires x < rw && y < rh
    requires multiset(ps) == multiset(qs)
    ensures PixelAt(ps, radius, rw, rh, x, y) == PixelAt(qs, radius, rw, rh, x, y)
  {
    PixelSumsPermutation(ps, qs, x as real / rw as real, y as real / rh as real, radius);
  }

  /** Of two points, the one nearer the pixel gets the larger weight. */
  lemma NearerPointWeighsMore(p: ColorPoint, q: ColorPoint, nx: real, ny: real, radius: Radius)
    requires SquaredDistance(nx, ny, p.x, p.y) < SquaredDistance(nx, ny, q.x, q.y)
    ensures SampleOf(p, nx, ny, radius).weight > SampleOf(q, nx, ny, radius).weight
  {
    WeightDecreasing(SquaredDistance(nx, ny, p.x, p.y), SquaredDistance(nx, ny, q.x, q.y), radius);
  }
}
