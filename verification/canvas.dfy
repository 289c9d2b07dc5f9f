/** The mutable canvas: `Image.new` with a fill colour, and `paste`, which
    overwrites a rectangle of the canvas in place with the pixels of another
    image. A canvas is an `array2<Color>` indexed `[x, y]`: `Length0` is its
    width and `Length1` its height. */
module Canvas {
  import opened Pixels

  /** (i, j) lies in the box of a `width` x `height` image pasted at (x, y). */
  predicate InBox(i: int, j: int, x: int, y: int, width: nat, height: nat) {
    x <= i < x + width && y <= j < y + height
  }

  /** The raster `bg` after `fg` is pasted onto it at (x, y): pixels inside
      the box come from `fg`, every other pixel is `bg`'s own. Parts of the
      box that fall outside `bg` are clipped away. */
  function Pasted(bg: Raster, fg: Raster, x: int, y: int): (r: Raster)
    requires bg.Valid() && fg.Valid()
    ensures r.Valid() && r.width == bg.width && r.height == bg.height
    ensures forall i, j :: 0 <= i < bg.width && 0 <= j < bg.height ==>
      r.At(i, j) == if InBox(i, j, x, y, fg.width, fg.height) then fg.At(i - x, j - y) else bg.At(i, j)
  {
    Raster(bg.width, bg.height,
      seq(bg.width, i requires 0 <= i < bg.width =>
        seq(bg.height, j requires 0 <= j < bg.height =>
          if InBox(i, j, x, y, fg.width, fg.height) then fg.At(i - x, j - y) else bg.At(i, j))))
  }

  /** A box that lies inside the background shows the pasted image. */
  lemma PastedInsideBox(bg: Raster, fg: Raster, x: nat, y: nat, i: int, j: int)
    requires bg.Valid() && fg.Valid()
    requires x + fg.width <= bg.width && y + fg.height <= bg.height
    requires InBox(i, j, x, y, fg.width, fg.height)
    ensures 0 <= i < bg.width && 0 <= j < bg.height
    ensures Pasted(bg, fg, x, y).At(i, j) == fg.At(i - x, j - y)
  {
  }

  /** The current contents of a canvas, as a raster. */
  ghost function Snapshot(a: array2<Color>): (r: Raster)
    reads a
    ensures r.Valid() && r.width == a.Length0 && r.height == a.Length1
    ensures forall i, j :: 0 <= i < a.Length0 && 0 <= j < a.Length1 ==> r.At(i, j) == a[i, j]
  {
    Raster(a.Length0, a.Length1,
      seq(a.Length0, i requires 0 <= i < a.Length0 reads a =>
        seq(a.Length1, j requires 0 <= j < a.Length1 reads a => a[i, j])))
  }

  /** The canvas `a` holds exactly the raster `r`. */
  ghost predicate Shows(a: array2<Color>, r: Raster)
    reads a
  {
    && r.Valid() && a.Length0 == r.width && a.Length1 == r.height
    && forall i, j :: 0 <= i < r.width && 0 <= j < r.height ==> a[i, j] == r.At(i, j)
  }

  function Max(a: int, b: int): int { if a < b then b else a }
  function Min(a: int, b: int): int { if a < b then a else b }

  /** `Image.new("RGB", (width, height), c)`: a new canvas, every pixel `c`. */
  method NewSolid(width: nat, height: nat, c: Color) returns (a: array2<Color>)
    ensures fresh(a)
    ensures Shows(a, Solid(width, height, c))
  {
    a := new Color[width, height];
    var i := 0;
    while i < width
      invariant 0 <= i <= width
      invariant forall p, q :: 0 <= p < i && 0 <= q < height ==> a[p, q] == c
    {
      var j := 0;
      while j < height
        invariant 0 <= j <= height
        invariant forall p, q :: 0 <= p < i && 0 <= q < height ==> a[p, q] == c
        invariant forall q :: 0 <= q < j ==> a[i, q] == c
      {
        a[i, j] := c;
        j := j + 1;
      }
      i := i + 1;
    }
  }

  /** `canvas.paste(fg, (x, y))`: every canvas pixel inside the box of `fg`
      placed at (x, y) takes the matching pixel of `fg`; every other canvas
      pixel keeps its value. The box is clipped to the canvas. */
  method Paste(canvas: array2<Color>, fg: array2<Color>, x: int, y: int)
    requires canvas != fg
    modifies canvas
    ensures forall i, j :: 0 <= i < canvas.Length0 && 0 <= j < canvas.Length1 ==>
      canvas[i, j] == if InBox(i, j, x, y, fg.Length0, fg.Length1) then fg[i - x, j - y] else old(canvas[i, j])
    ensures Shows(canvas, Pasted(old(Snapshot(canvas)), Snapshot(fg), x, y))
  {
    var x0, x1 := Max(x, 0), Min(x + fg.Length0, canvas.Length0);
    var y0, y1 := Max(y, 0), Min(y + fg.Length1, canvas.Length1);
    var i := x0;
    while i < x1
      invariant x0 <= i <= Max(x0, x1)
      invariant forall p, q :: 0 <= p < canvas.Length0 && 0 <= q < canvas.Length1 ==>
        canvas[p, q] == if x0 <= p < i && y0 <= q < y1 then fg[p - x, q - y] else old(canvas[p, q])
    {
      var j := y0;
      while j < y1
        invariant y0 <= j <= Max(y0, y1)
        invariant forall p, q :: 0 <= p < canvas.Length0 && 0 <= q < canvas.Length1 ==>
          canvas[p, q] == if (x0 <= p < i && y0 <= q < y1) || (p == i && y0 <= q < j)
                          then fg[p - x, q - y] else old(canvas[p, q])
      {
        canvas[i, j] := fg[i - x, j - y];
        j := j + 1;
      }
      i := i + 1;
    }
  }
}
