/** Pixels and immutable rasters of the wallpaper composer. Every image is
    converted to RGB before it is used, so a pixel is an RGB triple. */
module Pixels {

  /** One 8-bit colour channel. */
  newtype Byte = x: int | 0 <= x < 256

  /** An RGB pixel. */
  datatype Color = RGB(r: Byte, g: Byte, b: Byte)

  /** An immutable raster of `width` x `height` pixels, stored column by
      column: `cols[i][j]` is the pixel at x = i, y = j (the origin is the
      top-left corner, as in the imaging library). */
  datatype Raster = Raster(width: nat, height: nat, cols: seq<seq<Color>>) {

    predicate Valid() {
      |cols| == width && forall i :: 0 <= i < |cols| ==> |cols[i]| == height
    }

    /** The pixel at (i, j), what `getpixel((i, j))` reads. */
    function At(i: nat, j: nat): Color
      requires Valid() && i < width && j < height
    {
      cols[i][j]
    }
  }

  /** A raster of the given size whose every pixel is `c`: what
      `Image.new("RGB", (width, height), c)` describes. */
  function Solid(width: nat, height: nat, c: Color): (r: Raster)
    ensures r.Valid() && r.width == width && r.height == height
    ensures forall i, j :: 0 <= i < width && 0 <= j < height ==> r.At(i, j) == c
  {
    Raster(width, height, seq(width, _ => seq(height, _ => c)))
  }
}
