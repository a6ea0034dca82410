/**
 * Output sizes and the download: the preset aspect ratios, the custom size
 * the user types in (accepted only when both numbers are positive), and the
 * wallpaper file, named after the ratio and rendered in normal quality: at
 * most 600 pixels wide, and stretched to the selected size by the canvas.
 */
module Export {
  import opened Wrappers
  import opened Colour
  import opened ColorPoints
  import opened Resolution
  import opened Blend
  import opened Raster

  /** An output size with its display name; `isCustom` marks a size the user typed in. */
  datatype AspectRatio = AspectRatio(name: string, width: int, height: int, isCustom: bool)

  /** The six preset output sizes, the first being the initial selection. */
  const Presets: seq<AspectRatio> := [
    AspectRatio("16:9", 1920, 1080, false),
    AspectRatio("4:3", 1600, 1200, false),
    AspectRatio("21:9", 2560, 1080, false),
    AspectRatio("Square", 1440, 1440, false),
    AspectRatio("Mobile", 1080, 1920, false),
    AspectRatio("32:9", 3840, 1080, false)
  ]

  predicate PositiveSize(r: AspectRatio) {
    r.width > 0 && r.height > 0
  }

  /** Every preset is a positive size and none is marked custom. */
  lemma PresetsArePositive()
    ensures forall i :: 0 <= i < |Presets| ==> PositiveSize(Presets[i]) && !Presets[i].isCustom
  {
  }

  /**
   * The guard of `handleCustomRatio`: both fields parse (`None` stands for
   * `NaN`, which fails every comparison) to positive numbers.
   */
  predicate AcceptsCustom(width: Option<int>, height: Option<int>) {
    width.Some? && height.Some? && width.value > 0 && height.value > 0
  }

  /**
   * `handleCustomRatio`: the selection becomes the custom size when both parsed
   * numbers are positive, and stays as it was otherwise.
   */
  function ApplyCustomRatio(current: AspectRatio, width: Option<int>, height: Option<int>): (r: AspectRatio)
    ensures AcceptsCustom(width, height) ==>
      r.isCustom && r.name == "Custom" && r.width == width.value && r.height == height.value
    ensures !AcceptsCustom(width, height) ==> r == current
    ensures PositiveSize(current) ==> PositiveSize(r)
  {
    if AcceptsCustom(width, height) then AspectRatio("Custom", width.value, height.value, true)
    else current
  }

  /** The selection after the custom-size inputs are submitted one after another. */
  function ApplyAll(current: AspectRatio, inputs: seq<(Option<int>, Option<int>)>): AspectRatio
    decreases |inputs|
  {
    if inputs == [] then current
    else ApplyAll(ApplyCustomRatio(current, inputs[0].0, inputs[0].1), inputs[1..])
  }

  /** Whatever the user types, in any number of submissions, the selection keeps a positive size. */
  lemma {:induction false} CustomRatioKeepsPositive(current: AspectRatio, inputs: seq<(Option<int>, Option<int>)>)
    requires PositiveSize(current)
    ensures PositiveSize(ApplyAll(current, inputs))
    decreases |inputs|
  {
    if inputs != [] {
      CustomRatioKeepsPositive(ApplyCustomRatio(current, inputs[0].0, inputs[0].1), inputs[1..]);
    }
  }

  /** Submitting the same custom size twice selects the same as submitting it once. */
  lemma CustomRatioIdempotent(current: AspectRatio, width: Option<int>, height: Option<int>)
    ensures ApplyCustomRatio(ApplyCustomRatio(current, width, height), width, height)
         == ApplyCustomRatio(current, width, height)
  {
  }

  const FilePrefix: string := "mesh-wallpaper-"
  const FileSuffix: string := ".png"

  /** The download name `mesh-wallpaper-<lower-cased ratio name>.png`. */
  function FileName(name: string): (f: string)
    ensures |f| == |FilePrefix| + |name| + |FileSuffix|
    ensures f[..|FilePrefix|] == FilePrefix
    ensures f[|FilePrefix|..|FilePrefix| + |name|] == LowerAscii(name)
    ensures f[|FilePrefix| + |name|..] == FileSuffix
  {
    FilePrefix + LowerAscii(name) + FileSuffix
  }

  /** Two ratios get the same file name exactly when their names agree up to ASCII case. */
  lemma FileNameMatches(a: string, b: string)
    ensures FileName(a) == FileName(b) <==> LowerAscii(a) == LowerAscii(b)
  {
    if FileName(a) == FileName(b) {
      assert |a| == |b|;
      var p := |FilePrefix|;
      assert LowerAscii(a) == FileName(a)[p..p + |a|];
    }
  }

  /** Lower-casing a name first does not change its file name. */
  lemma FileNameIgnoresCase(name: string)
    ensures FileName(LowerAscii(name)) == FileName(name)
  {
    FileNameMatches(LowerAscii(name), name);
    assert LowerAscii(LowerAscii(name)) == LowerAscii(name);
  }

  /** The downloaded file: its name and the render behind its pixels. */
  datatype Wallpaper = Wallpaper(fileName: string, render: Render)

  /**
   * `downloadWallpaper`: render at the selected size in normal quality (the
   * render is capped at 600 pixels wide and stretched back by the canvas) and
   * name the file after the selected ratio.
   */
  method DownloadWallpaper(ratio: AspectRatio, ps: seq<ColorPoint>, radius: Radius) returns (w: Wallpaper)
    requires PositiveSize(ratio)
    ensures w.fileName == FileName(ratio.name)
    ensures w.render.plan == PlanRender(ratio.width, ratio.height, false)
    ensures w.render.plan.width == if ratio.width > NormalCap then NormalCap else ratio.width
    ensures |w.render.data| == w.render.plan.width * w.render.plan.height * 4
    ensures forall x, y, k :: 0 <= x < w.render.plan.width && 0 <= y < w.render.plan.height && 0 <= k < 4 ==>
      BufferIndex(w.render.plan.width, x, y, k) < |w.render.data|
      && w.render.data[BufferIndex(w.render.plan.width, x, y, k)]
           == Channel(PixelAt(ps, radius, w.render.plan.width, w.render.plan.height, x, y), k)
  {
    var out := RenderMeshGradient(ps, radius, ratio.width, ratio.height, false);
    w := Wallpaper(FileName(ratio.name), out);
  }
}
