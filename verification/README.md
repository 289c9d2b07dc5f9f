# Wallpaper composer, modelled in Dafny

This project models the one piece of original logic in the wallpaper resizer
(`wallpaper_resizer.py`). The resizer fits an uploaded photo into a fixed
1200 x 2600 canvas, keeping the aspect ratio. It centres the photo on the
canvas. The rest of the canvas is filled either with a blurred, stretched copy
of the photo or with one solid colour. That colour is taken from the photo's
four corners.

The project is made of five modules:

- `Pixels` (`pixels.dfy`): RGB pixels, immutable rasters, and the raster of
  one solid colour.
- `CornerColor` (`corner_color.dfy`): `extract_background_color`. The four
  corners are read in the order top-left, top-right, bottom-left,
  bottom-right. The result is `Counter(corners).most_common(1)`, modelled step
  by step. The counter's keys come in first-encounter order (`Keys`). Then the
  first key of highest count is picked, as `max` does (`FirstMaxIndex`). The
  result is characterised by `IsFirstMode`: it is a corner colour, no corner
  colour occurs more often, and every colour met before it occurs strictly
  less often. `FirstModeUnique` shows that this characterisation has only one
  solution.
- `Layout` (`layout.dfy`): the scale `min(1200/w, 2600/h)`, the foreground
  size and the centring offsets. All of it uses exact rational arithmetic, by
  cross-multiplying.
- `Canvas` (`canvas.dfy`): `Image.new` with a fill colour and `paste`, as
  methods on an `array2<Color>` with nested loops. `Pasted` is the pure
  description of a paste. `Paste` is proved against it and also states its
  frame condition directly.
- `Wallpaper` (`wallpaper.dfy`): `make_wallpaper`. `Composite` is the
  wallpaper as a pure function. `MakeWallpaper` first checks that the
  foreground can be resized. A foreground side of 0 pixels gives the
  `ResizeRejected` outcome, where the imaging library raises an error.
  Otherwise `Build` makes the wallpaper in place, and it is proved to produce
  exactly `Composite`. Because `Composite` is a function, two runs on the same
  input give the same picture.

Canvas and raster coordinates are `[x, y]`: the first index is the column
and the second the row. The origin is the top-left corner.

## Model

| member | source | states |
|---|---|---|
| `Pixels.Solid` | wallpaper_resizer.py:42 | the solid raster has the requested width and height, and every pixel is the fill colour |
| `CornerColor.Keys` | wallpaper_resizer.py:22 | the counter's keys are exactly the distinct corner colours, in the order of their first occurrence |
| `CornerColor.FirstMaxIndex` | wallpaper_resizer.py:22 | `most_common(1)` picks a key of highest count, and every earlier key has a strictly lower count |
| `CornerColor.MostCommon` | wallpaper_resizer.py:22 | the result occurs in the samples, nothing occurs more often, and every sample before its first occurrence occurs strictly less often |
| `CornerColor.FirstModeUnique` | wallpaper_resizer.py:22 | at most one colour meets that description, so the mode and its tie-break determine the result |
| `CornerColor.FirstWinsUnlessOutnumbered` | wallpaper_resizer.py:22 | the first sample is the result if and only if no sample occurs more often than it |
| `CornerColor.Corners` | wallpaper_resizer.py:15-20 | exactly four samples, at (0,0), (w-1,0), (0,h-1), (w-1,h-1) in that order |
| `CornerColor.ExtractBackgroundColor` | wallpaper_resizer.py:10-22 | the colour is one of the four corners; no corner colour is more frequent; ties go to the first corner in the order (0,0), (w-1,0), (0,h-1), (w-1,h-1) |
| `CornerColor.DistinctCornersGiveTopLeft` | wallpaper_resizer.py:15-22 | four distinct corner colours give the top-left colour |
| `CornerColor.RepeatedTopLeftWins` | wallpaper_resizer.py:15-22 | if the top-left and bottom-left corners have the same colour, that colour is chosen |
| `CornerColor.MajorityCornerExample` | wallpaper_resizer.py:15-22 | corners red, green, red, blue give red |
| `Layout.Scale` | wallpaper_resizer.py:31 | the scale is at most 1200/w and at most 2600/h, and equals one of the two: it is their minimum |
| `Layout.ForegroundIsScaledFloor` | wallpaper_resizer.py:31-33 | each foreground side is the source side times the scale, truncated |
| `Layout.ForegroundSize` | wallpaper_resizer.py:31-33 | the foreground fits inside 1200 x 2600 and fills the constraining axis exactly: the width is 1200 when the width ratio is the smaller (or equal) one, the height is 2600 otherwise |
| `Layout.ForegroundKeepsAspect` | wallpaper_resizer.py:31-33 | on the free axis, the side is the proportional length truncated, so the aspect ratio is kept within one pixel |
| `Layout.ForegroundNonEmpty` | wallpaper_resizer.py:31-34 | both foreground sides are positive, so the resize can succeed, if and only if w <= 1200 h and h <= 2600 w |
| `Layout.VeryWideSourceCannotResize` | wallpaper_resizer.py:31-34 | a 1201 x 1 source gives a 1200 x 0 foreground, which cannot be resized |
| `Layout.MatchingAspectFillsCanvas` | wallpaper_resizer.py:31-33 | a source with the canvas's own aspect ratio is scaled to exactly 1200 x 2600 |
| `Layout.Offset` | wallpaper_resizer.py:45-46 | the offset is non-negative, the box ends inside the canvas, and the two margins differ by at most one pixel |
| `Layout.HalfSizeSourceFillsCanvas` | wallpaper_resizer.py:31-46 | a 600 x 1300 source becomes 1200 x 2600 at offset (0, 0) |
| `Layout.SquareSourceCentredVertically` | wallpaper_resizer.py:31-46 | a 100 x 100 source becomes 1200 x 1200 at offset (0, 700) |
| `Canvas.Pasted` | wallpaper_resizer.py:47 | the pasted raster keeps the background's size; each pixel inside the box at (x, y) is the foreground pixel at (i-x, j-y), every other pixel is the background's |
| `Canvas.PastedInsideBox` | wallpaper_resizer.py:47 | when the box lies inside the background, every point of the box is a canvas pixel showing the matching foreground pixel |
| `Canvas.NewSolid` | wallpaper_resizer.py:42 | a fresh canvas of the requested size whose every pixel has the fill colour |
| `Canvas.Paste` | wallpaper_resizer.py:47 | each canvas pixel inside the box at (x, y) takes the foreground pixel at (i-x, j-y); every other pixel is unchanged; the box is clipped to the canvas |
| `Wallpaper.Background` | wallpaper_resizer.py:37-42 | the background is a well-formed 1200 x 2600 raster for either method (which label takes which path is stated by `SolidMarginsHaveCornerColor` and `BlurredMarginsShowBackdrop`) |
| `Wallpaper.Origin` | wallpaper_resizer.py:45-46 | the centred foreground box lies inside the canvas |
| `Wallpaper.Composite` | wallpaper_resizer.py:25-49 | the wallpaper is 1200 x 2600, whichever method is chosen |
| `Wallpaper.CompositeShowsForeground` | wallpaper_resizer.py:44-47 | every pixel inside the centred box is the matching foreground pixel |
| `Wallpaper.SolidMarginsHaveCornerColor` | wallpaper_resizer.py:37-47 | for any method label other than "Blurred background", every pixel outside the box has the extracted corner colour |
| `Wallpaper.BlurredMarginsShowBackdrop` | wallpaper_resizer.py:37-47 | in blurred mode, every pixel outside the box is the blurred backdrop's pixel |
| `Wallpaper.MatchingAspectHidesBackground` | wallpaper_resizer.py:31-47 | a source with the canvas's aspect ratio yields exactly the foreground, so the background is not visible |
| `Wallpaper.Build` | wallpaper_resizer.py:37-49 | the canvas returned holds exactly `Composite`; in blurred mode it is the backdrop, updated in place; otherwise it is a fresh canvas and the backdrop is untouched |
| `Wallpaper.MakeWallpaper` | wallpaper_resizer.py:25-49 | the resize is rejected if and only if a foreground side would be 0 pixels, and then the backdrop is untouched; otherwise the canvas returned holds exactly `Composite`, is the backdrop updated in place in blurred mode, and is a fresh canvas with the backdrop untouched in solid mode |

## Left out

- `main()` (wallpaper_resizer.py:52-101) is not modelled. It is the Streamlit page: the method selector, the upload, `Image.open`, the PNG encoding and the download button. All of that is UI and I/O.
- `background_remover.py` is not part of this model. It only wraps an external segmentation model, with upload and download around it.
- LANCZOS resampling (wallpaper_resizer.py:34, 38) and `GaussianBlur(radius=50)` (wallpaper_resizer.py:39) are image-library calls on floating point. Their outputs are inputs here: `fg` must have the size `ForegroundSize` gives, and the blurred backdrop must be 1200 x 2600.
- `convert("RGB")` (wallpaper_resizer.py:12, 27) is not modelled. Every image is already a raster of RGB pixels.
- Layout.ForegroundIsScaledFloor: the model uses exact rational arithmetic. The source computes `int(w * scale)` in floating point. That can land one pixel below the exact floor, for example when `w * (1200 / w)` rounds to just under 1200. So the model is not claimed to match the float computation bit for bit.
- Layout.ForegroundSize: the same exact-arithmetic caveat applies. The sides it gives, and the iff of `ForegroundNonEmpty`, are the exact floors, which the float computation can miss by one pixel.
- Wallpaper.MakeWallpaper: when a foreground side would truncate to 0 pixels (`ForegroundNonEmpty`), the imaging library raises an error at wallpaper_resizer.py:34. The model returns the `ResizeRejected` outcome instead. The library's exception and its message are not part of this model.
- The default argument `method="Blurred background"` (wallpaper_resizer.py:25) is not modelled. `MakeWallpaper` always takes the label explicitly, as the one caller does at wallpaper_resizer.py:83.
- A source of width or height 0 is excluded by precondition. The source would divide by zero at line 31, and `getpixel` would fail on the corners.
- Canvas.Paste: it requires the canvas and the pasted image to be different arrays. `make_wallpaper` always pastes a freshly resized image, so it never pastes an image onto itself.
- Wallpaper.MakeWallpaper: the blurred backdrop is always passed in, but it is only read or modified in blurred mode. The source builds the backdrop only in that mode.
