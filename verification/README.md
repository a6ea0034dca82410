# Mesh gradient wallpaper generator — Dafny model

A model of the core of the mesh gradient editor in
`src/components/MeshGradientForm.tsx`. It covers:

- `hexToRgb`, the lenient `#rrggbb` parser. A string that does not match
  falls back to black.
- `renderMeshGradient`:
  - the resolution policy: a render wider than the cap is drawn at the cap's
    width, with the height scaled and rounded down. The cap is 600 pixels, or
    300 when the `lowQuality` parameter is set; no caller in the editor sets
    it, since the preview and the download both pass `lowQuality = false`;
  - the per-pixel inverse-distance-weighted (IDW) blend. Every control point
    gets weight `1 / ((dist / radius)^2 + 0.01)`. Colour is weighted by weight
    times opacity, and alpha is `min(1, Σ opacity·weight / Σ weight)`;
  - the RGBA buffer filled row by row at `(y * renderWidth + x) * 4`.
- The edits the editor applies to its ordered list of control points:
  recolour, drag, add from the button, add by canvas click, and remove with
  the selection adjusted.
- The preset and custom output sizes, and the name and render of the
  downloaded wallpaper.

Modules:

| module | file | contents |
|---|---|---|
| `Wrappers` | `wrappers.dfy` | `Option` |
| `Colour` | `colour.dfy` | hex colour strings |
| `ColorPoints` | `points.dfy` | control points and the edits on the point list |
| `Resolution` | `resolution.dfy` | render-size policy |
| `Blend` | `blend.dfy` | weights, sums and the pixel of one position |
| `Raster` | `raster.dfy` | the loops of `renderMeshGradient` as methods |
| `Export` | `export.dfy` | aspect ratios and the download |

Arithmetic is over exact reals. The model uses the squared distance, which
is all the weight needs. `Math.round(v)` is `floor(v + 0.5)`.

Two points about the code:

- The wallpaper download calls `renderMeshGradient` with
  `lowQuality = false` (line 332). So the export is also rendered at most 600
  pixels wide and stretched by the canvas; it is not a full-resolution render.
- The code does no size check of its own. `createImageData` (line 84) throws
  when a render dimension is zero; the model returns an empty buffer instead.
  Sizes are natural numbers, and the blend radius is a positive real.

## Model

| member | source | states |
|---|---|---|
| Colour.ParseHexColor | src/components/MeshGradientForm.tsx:50-59 | The regular expression matches exactly the strings of six hex digits, in either case, optionally preceded by `#`. On a match, the three channels are the values of the three digit pairs in order. |
| Colour.HexToRgb | src/components/MeshGradientForm.tsx:50-59 | A colour string yields the bytes of its three digit pairs. Every other string yields black `(0, 0, 0)`. |
| Colour.FormatThenParse | src/components/MeshGradientForm.tsx:50-59 | Round trip: any three bytes, written as `#rrggbb` (as a colour input reports them), parse back to the same three bytes. |
| Colour.ParseThenFormat | src/components/MeshGradientForm.tsx:50-59 | Round trip: parsing a colour string and writing the bytes back gives the same digits lower-cased, with the `#` present. |
| Colour.WhiteIsFullIntensity | src/components/MeshGradientForm.tsx:269-274 | The colour `#ffffff` of a newly added point parses to full intensity on all three channels. |
| Blend.SquaredDistance | src/components/MeshGradientForm.tsx:62-64 | The squared distance is never negative, and it is zero exactly when the two points coincide. |
| Blend.SquaredDistanceSymmetric | src/components/MeshGradientForm.tsx:62-64 | The distance does not depend on which point comes first. |
| Blend.Weight | src/components/MeshGradientForm.tsx:103-104 | The epsilon bounds a weight: it lies in `(0, 100]`, and it is 100 exactly at distance zero. |
| Blend.WeightDecreasing | src/components/MeshGradientForm.tsx:103-104 | The weight strictly decreases as the distance grows. |
| Blend.SampleProportional | src/components/MeshGradientForm.tsx:105-112 | What one point adds is proportional to its weight: each colour sum is the channel times the opacity times the weight, and the alpha sum is the opacity times the weight. |
| Blend.SampleWithin | src/components/MeshGradientForm.tsx:105-112 | With opacity in `[0, m]`, a point adds colour sums between 0 and `255·m` times its weight, and an alpha sum between 0 and `m` times its weight. |
| Blend.SampleOf | src/components/MeshGradientForm.tsx:100-108 | A point contributes its parsed colour and its own opacity. Its weight lies in `(0, 100]`, and it reaches 100 exactly when the point sits on the pixel. |
| Blend.NearerPointWeighsMore | src/components/MeshGradientForm.tsx:100-104 | Of two points, the one nearer the pixel gets the strictly larger weight. |
| Blend.Accumulate | src/components/MeshGradientForm.tsx:99-113 | With weights in `(0, 100]`, the total weight after the loop is at most 100 per point, and it is positive exactly when there is at least one point. |
| Blend.PixelSums | src/components/MeshGradientForm.tsx:93-113 | At any pixel, the total weight is positive exactly when the point list is non-empty. So the normalisation branch runs exactly when there are points. |
| Blend.AccumulatePermutation | src/components/MeshGradientForm.tsx:99-113 | The loop's sums do not depend on the order of the samples: any permutation gives the same five sums. |
| Blend.PixelSumsPermutation | src/components/MeshGradientForm.tsx:99-113 | Reordering the control points leaves the sums at every position unchanged. |
| Blend.PixelPermutation | src/components/MeshGradientForm.tsx:87-127 | Reordering the control points leaves every rendered pixel unchanged. |
| Blend.Round | src/components/MeshGradientForm.tsx:124-127 | `Math.round` gives an integer within one half of its argument, rounding halves up. |
| Blend.Shade | src/components/MeshGradientForm.tsx:115-127 | With positive total weight, `Math.min` keeps the alpha byte at most 255, whatever the opacities. |
| Blend.ShadeScaleInvariant | src/components/MeshGradientForm.tsx:115-121 | Normalisation: multiplying every weight by the same positive factor leaves the pixel unchanged, so only the ratios of the weights matter. |
| Blend.PixelAt | src/components/MeshGradientForm.tsx:87-127 | Without points the normalisation is skipped and the pixel is transparent black. With points, the alpha byte is at most 255 whatever the opacities. |
| Blend.ShadeBounds | src/components/MeshGradientForm.tsx:115-127 | Channel sums within `255·m` times the total weight, with alpha within `m` times it, normalise and round to channels in `[0, round(255·m)]`. |
| Blend.PixelBounds | src/components/MeshGradientForm.tsx:87-127 | With opacities in `[0, m]` and `m ≤ 1`, every channel of every pixel lies in `[0, round(255·m)]`, wherever the points are. |
| Blend.PixelIsBytes | src/components/MeshGradientForm.tsx:87-127 | With opacities in `[0, 1]`, every channel of every pixel is a byte in `[0, 255]`. |
| Blend.UniformCollapse | src/components/MeshGradientForm.tsx:99-127 | If all points share one colour and opacity `o`, every pixel is that colour times `o`, rounded, with alpha `round(min(1, o)·255)`, independent of the positions and the radius. |
| Blend.SinglePointCollapse | src/components/MeshGradientForm.tsx:99-127 | A single point paints every pixel with its own colour scaled by its opacity. |
| Blend.OpaqueCollapse | src/components/MeshGradientForm.tsx:99-127 | Opaque points of one colour give exactly that colour with alpha byte 255 at every pixel. |
| Blend.TransparentPoints | src/components/MeshGradientForm.tsx:99-127 | Points of opacity 0 give alpha 0 at every pixel, whatever their colours. |
| Raster.SumPoints | src/components/MeshGradientForm.tsx:93-113 | The point loop with its five running sums computes the sums of all the points' samples. |
| Raster.RenderRow | src/components/MeshGradientForm.tsx:88-128 | One row holds `4 · renderWidth` values. Slots `4x` to `4x + 3` hold the blended channels of pixel `x` of that row. |
| Raster.RenderPixels | src/components/MeshGradientForm.tsx:84-129 | The buffer holds `renderWidth · renderHeight · 4` values. Channel `k` of pixel `(x, y)` sits at `(y · renderWidth + x) · 4 + k` and holds that pixel's blended channel. |
| Raster.RenderMeshGradient | src/components/MeshGradientForm.tsx:67-131 | The buffer is filled at the planned render size, never wider than the cap unless the target already fits. Every pixel holds the blend at its position. |
| Raster.BufferIsBytes | src/components/MeshGradientForm.tsx:123-127 | With opacities in `[0, 1]`, every value written to the image buffer lies in `[0, 255]`. |
| Resolution.PlanRender | src/components/MeshGradientForm.tsx:71-82 | A target no wider than the cap (300 in low quality, 600 otherwise) is rendered as is, with scale 1. A wider one is rendered at the cap's width and `floor(height · cap / width)` height, never taller than the target, with scale strictly between 0 and 1. The scale is below 1 exactly when the target is wider than the cap. |
| Resolution.CappedAspectRatio | src/components/MeshGradientForm.tsx:78-82 | A capped render keeps the target's aspect ratio up to the rounding down of the height. |
| Resolution.RenderSizePositive | src/components/MeshGradientForm.tsx:73-84 | Both render dimensions are positive when the target width is positive and the height survives the scaling. |
| ColorPoints.Clamp01 | src/components/MeshGradientForm.tsx:221-222 | `Math.max(0, Math.min(1, v))` lies in `[0, 1]`, keeps values already inside it and sends values outside to the nearer end. |
| ColorPoints.InitialEditorValid | src/components/MeshGradientForm.tsx:30-36 | The editor starts with four points, all of opacity 1, inside the canvas and with parsable colours, and nothing selected: a valid editor. |
| ColorPoints.ChangeColor | src/components/MeshGradientForm.tsx:288-292 | Recolouring sets the colour and opacity of one point. Its position and every other point stay as they were. |
| ColorPoints.ChangeColorUndo | src/components/MeshGradientForm.tsx:288-292 | Recolouring a point and then restoring its old colour and opacity gives back the original list. |
| ColorPoints.ChangeColorPreservesValidity | src/components/ColorPicker.tsx:21-43 | A colour from the colour input and an opacity from the `[0, 1]` slider keep a valid editor valid. |
| ColorPoints.MovePoint | src/components/MeshGradientForm.tsx:220-230 | A drag moves one point to the cursor fraction clamped into the canvas. Its colour, its opacity and every other point stay as they were. |
| ColorPoints.MovePreservesValidity | src/components/MeshGradientForm.tsx:220-230 | Dragging keeps every point of a valid list valid. |
| ColorPoints.FilterIndexIsDeletion | src/components/MeshGradientForm.tsx:305 | The index filter removes exactly the element at that index, keeping the others in order, and removes nothing for an index that does not exist. |
| ColorPoints.RemovePoint | src/components/MeshGradientForm.tsx:303-313 | With more than one point, the point at the index is deleted and the others shift down. The selection is adjusted: the removed point's selection moves to the first point, a later selection moves down by one, an earlier selection or none is kept. With a single point nothing changes. |
| ColorPoints.RemovePreservesValidity | src/components/MeshGradientForm.tsx:303-313 | Removing keeps at least one point and keeps the selection inside the list. |
| ColorPoints.AddPoint | src/components/MeshGradientForm.tsx:315-325 | Adding keeps the existing points and appends a white opaque point at the centre, which becomes selected. |
| ColorPoints.ClickAddPoint | src/components/MeshGradientForm.tsx:258-277 | During a drag a click changes nothing. Otherwise it appends a white opaque point at the clicked fraction, clamped into the canvas, and selects it. |
| ColorPoints.AddPreservesValidity | src/components/MeshGradientForm.tsx:258-277 | Adding a point, by button or by click, keeps a valid editor valid. |
| ColorPoints.AddThenRemove | src/components/MeshGradientForm.tsx:303-325 | Removing the point just added restores the original list, with the selection on the first point. |
| Export.PresetsArePositive | src/components/MeshGradientForm.tsx:19-26 | All six preset sizes are positive, and none is marked custom. |
| Export.ApplyCustomRatio | src/components/MeshGradientForm.tsx:340-352 | If both fields parse to positive numbers, the selection becomes the custom size under the name `Custom`. Otherwise the selection is unchanged, so the selected size stays positive. |
| Export.CustomRatioKeepsPositive | src/components/MeshGradientForm.tsx:340-352 | After any number of custom-size submissions, with any input, the selected size is positive. |
| Export.CustomRatioIdempotent | src/components/MeshGradientForm.tsx:340-352 | Submitting the same custom size twice has the effect of submitting it once. |
| Export.FileName | src/components/MeshGradientForm.tsx:335 | The download name is `mesh-wallpaper-`, then the ratio name lower-cased, then `.png`. |
| Export.FileNameMatches | src/components/MeshGradientForm.tsx:335 | Two ratios get the same file name exactly when their names agree up to ASCII case. |
| Export.FileNameIgnoresCase | src/components/MeshGradientForm.tsx:335 | Lower-casing a ratio name before naming the file makes no difference. |
| Export.DownloadWallpaper | src/components/MeshGradientForm.tsx:327-338 | The download is rendered at the selected size in normal quality, so it is at most 600 pixels wide. Every pixel holds the blend, and the file is named after the ratio. |

## Left out

- Canvas and DOM work is not modelled: `getContext`, `createImageData`, `putImageData`, element creation and bounding rectangles. The model ends at the filled buffer and its render size.
- The upsampling of a capped render back to the target size (lines 133-146) is left out. It is an image resize done by the browser; the model records `scale` so that whether it happens is known.
- Scheduling is left out: the debounced preview effect, `requestAnimationFrame`, the drag-throttling effect and the interaction flags (lines 149-255, 280-301). They decide when a render or move happens, not what it computes.
- The preview fit (lines 170-181) is left out because it reads the container's size from the DOM. The model takes the render size as a parameter.
- PNG encoding and the download link (lines 336-337) are left out. The wallpaper is its file name plus its render.
- IEEE-754 doubles and `Math.sqrt` are not modelled. Arithmetic is over exact reals, and since only the square of the distance is used, the square root is never taken.
- Raster.RenderPixels: writes the rounded values without the `Uint8ClampedArray` clamp to `[0, 255]`. For opacities in `[0, 1]`, which is all the opacity slider produces, the clamp changes nothing (Raster.BufferIsBytes).
- A preview canvas whose container is narrower than one pixel gets width `Math.floor(rect.width) == 0` (line 180). `createImageData` rejects that in the browser; the model gives an empty buffer.
- Resolution.RenderSizePositive: needs `height · cap ≥ width`. A custom size flatter than that gets render height 0, which `createImageData` rejects in the browser. The model gives an empty buffer instead.
- Export.ApplyCustomRatio: takes the results of `parseInt` as `Option<int>` parameters, with `None` standing for `NaN`. `parseInt` itself is not modelled.
- Export.FileName: `toLowerCase` is modelled on ASCII letters only. Ratio names are ASCII.
- ColorPoints.ChangeColor: requires the index to be in range. The editor only passes the index of a listed point; JavaScript would add a malformed point.
- ColorPoints.MovePoint: requires the index to be in range, as the drag index always is. The cursor position arrives as a fraction `fx, fy`, since it is computed from the DOM rectangle.
- ColorPoints.ClickAddPoint: the two drag flags `isDragging` and `isDraggingRef` are modelled as a single `dragging` flag.
- ColorPoints.AddPoint: the ten-point limit (line 363) is the button's `disabled` attribute, not part of `addColorPoint`, so the model does not enforce it.
- Blend.Weight: the radius is any positive real. The slider restricts it to `[0.1, 1]` in steps of 0.05 (lines 416-433).
- `GradientForm.tsx`, `ColorPicker.tsx`, the theme and mode toggles and `App.tsx` are not part of this model, beyond the value ranges of the colour and opacity inputs.
