/** `make_wallpaper`: scale the source to fit the 1200 x 2600 canvas, build
    the background (the blurred stretched copy, or a solid fill with the
    corner colour), and paste the foreground centred on it.

    The two resampled images come from the imaging library and are inputs
    here: `fg` is the source resized to `ForegroundSize` and `blurred` is the
    source resized to the canvas size and blurred. */
module Wallpaper {
  import opened Pixels
  import opened Layout
  import opened CornerColor
  import opened Canvas

  /** The one method label that selects the blurred background; every other
      label selects the solid colour. */
  const BlurredBackground: string := "Blurred background"

  /** The result of `make_wallpaper`: the canvas, or the error the imaging
      library raises when asked for a foreground with a side of 0 pixels. */
  datatype Outcome = Built(canvas: array2<Color>) | ResizeRejected

  /** What a successful `make_wallpaper` works on: a non-empty source, a
      foreground of the fitted size with both sides positive (so the resize
      succeeded, `CanResize`) and a backdrop of the canvas size. */
  predicate WellFormedInputs(img: Raster, fg: Raster, blurred: Raster) {
    && img.Valid() && img.width > 0 && img.height > 0
    && fg.Valid() && fg.width > 0 && fg.height > 0
    && fg.width == ForegroundSize(img.width, img.height).width
    && fg.height == ForegroundSize(img.width, img.height).height
    && blurred.Valid() && blurred.width == TargetWidth && blurred.height == TargetHeight
  }

  /** The background before the paste. */
  function Background(img: Raster, style: string, blurred: Raster): (bg: Raster)
    requires img.Valid() && img.width > 0 && img.height > 0
    requires blurred.Valid() && blurred.width == TargetWidth && blurred.height == TargetHeight
    ensures bg.Valid() && bg.width == TargetWidth && bg.height == TargetHeight
  {
    if style == BlurredBackground then blurred
    else Solid(TargetWidth, TargetHeight, ExtractBackgroundColor(img))
  }

  /** Where the foreground is pasted: `((TW - fg.width) // 2, (TH - fg.height) // 2)`. */
  function Origin(img: Raster, fg: Raster): (o: (nat, nat))
    requires img.width > 0 && img.height > 0
    requires fg.width == ForegroundSize(img.width, img.height).width
    requires fg.height == ForegroundSize(img.width, img.height).height
    ensures o.0 + fg.width <= TargetWidth && o.1 + fg.height <= TargetHeight
  {
    (Offset(TargetWidth, fg.width), Offset(TargetHeight, fg.height))
  }

  /** The wallpaper `make_wallpaper` returns: always 1200 x 2600, whichever
      method is chosen. */
  function Composite(img: Raster, style: string, fg: Raster, blurred: Raster): (r: Raster)
    requires WellFormedInputs(img, fg, blurred)
    ensures r.Valid() && r.width == TargetWidth && r.height == TargetHeight
  {
    var o := Origin(img, fg);
    Pasted(Background(img, style, blurred), fg, o.0, o.1)
  }

  /** Inside the centred box the wallpaper shows the foreground, unscaled
      and unshifted relative to the box. */
  lemma CompositeShowsForeground(img: Raster, style: string, fg: Raster, blurred: Raster, i: nat, j: nat)
    requires WellFormedInputs(img, fg, blurred)
    requires var o := Origin(img, fg); InBox(i, j, o.0, o.1, fg.width, fg.height)
    ensures i < TargetWidth && j < TargetHeight
    ensures var o := Origin(img, fg);
      Composite(img, style, fg, blurred).At(i, j) == fg.At(i - o.0, j - o.1)
  {
    var o := Origin(img, fg);
    PastedInsideBox(Background(img, style, blurred), fg, o.0, o.1, i, j);
  }

  /** In solid mode — any label other than "Blurred background" — every
      pixel outside the box has the extracted corner colour. */
  lemma SolidMarginsHaveCornerColor(img: Raster, style: string, fg: Raster, blurred: Raster, i: nat, j: nat)
    requires WellFormedInputs(img, fg, blurred) && style != BlurredBackground
    requires i < TargetWidth && j < TargetHeight
    requires var o := Origin(img, fg); !InBox(i, j, o.0, o.1, fg.width, fg.height)
    ensures Composite(img, style, fg, blurred).At(i, j) == ExtractBackgroundColor(img)
  {
  }

  /** In blurred mode every pixel outside the box is the backdrop's. */
  lemma BlurredMarginsShowBackdrop(img: Raster, fg: Raster, blurred: Raster, i: nat, j: nat)
    requires WellFormedInputs(img, fg, blurred)
    requires i < TargetWidth && j < TargetHeight
    requires var o := Origin(img, fg); !InBox(i, j, o.0, o.1, fg.width, fg.height)
    ensures Composite(img, BlurredBackground, fg, blurred).At(i, j) == blurred.At(i, j)
  {
  }

  /** A source with the canvas' own aspect ratio hides the background
      completely: the wallpaper is the foreground, whatever the method. */
  lemma {:induction false} MatchingAspectHidesBackground(img: Raster, style: string, fg: Raster, blurred: Raster)
    requires WellFormedInputs(img, fg, blurred)
    requires TargetWidth * img.height == TargetHeight * img.width
    ensures Composite(img, style, fg, blurred) == fg
  {
    MatchingAspectFillsCanvas(img.width, img.height);
    var r := Composite(img, style, fg, blurred);
    assert Origin(img, fg) == (0, 0);
    forall i | 0 <= i < TargetWidth
      ensures r.cols[i] == fg.cols[i]
    {
      assert forall j :: 0 <= j < TargetHeight ==> r.cols[i][j] == r.At(i, j) == fg.At(i, j);
    }
    assert r.cols == fg.cols;
  }

  /** The successful path of `make_wallpaper`: choose the background and
      paste the foreground centred on it. The backdrop `blurred` is pasted on
      in place when the blurred method is chosen; otherwise a fresh solid
      canvas is built and `blurred` is left untouched. */
  method Build(img: Raster, style: string, fg: array2<Color>, blurred: array2<Color>)
    returns (canvas: array2<Color>)
    requires WellFormedInputs(img, Snapshot(fg), Snapshot(blurred))
    requires fg != blurred
    modifies blurred
    ensures Shows(canvas, Composite(img, style, Snapshot(fg), old(Snapshot(blurred))))
    ensures style == BlurredBackground ==> canvas == blurred
    ensures style != BlurredBackground ==> fresh(canvas) && unchanged(blurred)
  {
    ghost var fgR, blurredR := Snapshot(fg), Snapshot(blurred);
    ghost var bgR := Background(img, style, blurredR);
    if style == BlurredBackground {
      canvas := blurred;
    } else {
      var c := ExtractBackgroundColor(img);
      canvas := NewSolid(TargetWidth, TargetHeight, c);
    }
    assert Shows(canvas, bgR);
    var x := Offset(TargetWidth, fg.Length0);
    var y := Offset(TargetHeight, fg.Length1);
    Paste(canvas, fg, x, y);
    ghost var r := Composite(img, style, fgR, blurredR);
    assert r == Pasted(bgR, fgR, x, y);
    forall i, j | 0 <= i < TargetWidth && 0 <= j < TargetHeight
      ensures canvas[i, j] == r.At(i, j)
    {
    }
  }

  /** `make_wallpaper(image, method)`. When the fitted foreground would have
      a side of 0 pixels the resize fails and nothing is built; otherwise the
      wallpaper is built as `Build` describes. */
  method MakeWallpaper(img: Raster, style: string, fg: array2<Color>, blurred: array2<Color>)
    returns (out: Outcome)
    requires img.Valid() && img.width > 0 && img.height > 0
    requires CanResize(img.width, img.height) ==>
      && fg.Length0 == ForegroundSize(img.width, img.height).width
      && fg.Length1 == ForegroundSize(img.width, img.height).height
    requires blurred.Length0 == TargetWidth && blurred.Length1 == TargetHeight
    requires fg != blurred
    modifies blurred
    ensures out.ResizeRejected? <==> !CanResize(img.width, img.height)
    ensures out.ResizeRejected? ==> unchanged(blurred)
    ensures out.Built? ==>
      Shows(out.canvas, Composite(img, style, Snapshot(fg), old(Snapshot(blurred))))
    ensures out.Built? && style == BlurredBackground ==> out.canvas == blurred
    ensures out.Built? && style != BlurredBackground ==> fresh(out.canvas) && unchanged(blurred)
  {
    var size := ForegroundSize(img.width, img.height);
    if size.width == 0 || size.height == 0 {
      return ResizeRejected;
    }
    var canvas := Build(img, style, fg, blurred);
    out := Built(canvas);
  }
}
