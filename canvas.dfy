/** The mutable canvas and `draw`, which commits one colour over a footprint.
    A raster is read through its grid of columns, `g[x][y]` being the pixel
    at column `x`, row `y`, as `get_pixel(x, y)` addresses it. */
module Canvas {
  import opened Colors
  import opened Rasterizer

  type Grid = seq<seq<Color>>

  /** `p` addresses a pixel of `g`; any other point is skipped. */
  predicate InBounds(g: Grid, p: Point)
  {
    p.x < |g| && p.y < |g[p.x]|
  }

  predicate SameShape(a: Grid, b: Grid)
  {
    |a| == |b| && forall x :: 0 <= x < |a| ==> |a[x]| == |b[x]|
  }

  /** The pixels of an image buffer as a grid. */
  ghost function View(a: array2<Color>): (g: Grid)
    reads a
    ensures |g| == a.Length0 && forall x :: 0 <= x < |g| ==> |g[x]| == a.Length1
    ensures forall x, y :: 0 <= x < a.Length0 && 0 <= y < a.Length1 ==> g[x][y] == a[x, y]
  {
    seq(a.Length0, x reads a requires 0 <= x < a.Length0 =>
      seq(a.Length1, y reads a requires 0 <= y < a.Length1 => a[x, y]))
  }

  /** Two grids of one shape that agree on every pixel are equal. */
  lemma GridsEqual(a: Grid, b: Grid)
    requires SameShape(a, b)
    requires forall x, y :: 0 <= x < |a| && 0 <= y < |a[x]| ==> a[x][y] == b[x][y]
    ensures a == b
  {
    forall x | 0 <= x < |a|
      ensures a[x] == b[x]
    {
      assert forall y :: 0 <= y < |a[x]| ==> a[x][y] == b[x][y];
    }
  }

  /** One pixel write; a point outside the grid changes nothing. */
  function SetPixel(g: Grid, p: Point, c: Color): Grid
  {
    if InBounds(g, p) then g[p.x := g[p.x][p.y := c]] else g
  }

  /** The grid after writing `c` at each point of `fp` in turn. Its shape is
      that of `g`; each pixel the footprint names is set to `c`, and every
      other pixel keeps its old colour (which may already be `c`). */
  function Paint(g: Grid, fp: seq<Point>, c: Color): (r: Grid)
    ensures SameShape(r, g)
    ensures forall x, y :: 0 <= x < |g| && 0 <= y < |g[x]| ==> r[x][y] == if Point(x, y) in fp then c else g[x][y]
  {
    if fp == [] then g
    else
      assert fp == fp[..|fp| - 1] + [fp[|fp| - 1]];
      SetPixel(Paint(g, fp[..|fp| - 1], c), fp[|fp| - 1], c)
  }

  /** Drawing the same footprint in the same colour twice is drawing it once. */
  lemma PaintTwice(g: Grid, fp: seq<Point>, c: Color)
    ensures Paint(Paint(g, fp, c), fp, c) == Paint(g, fp, c)
  {
    GridsEqual(Paint(Paint(g, fp, c), fp, c), Paint(g, fp, c));
  }

  /** `draw`: writes `color` at every point of `points` that lies inside the
      image; points outside are skipped. */
  method Draw(img: array2<Color>, points: seq<Point>, color: Color)
    modifies img
    ensures View(img) == Paint(old(View(img)), points, color)
  {
    ghost var before := View(img);
    for k := 0 to |points|
      invariant forall x, y :: 0 <= x < img.Length0 && 0 <= y < img.Length1 ==>
        img[x, y] == if Point(x, y) in points[..k] then color else before[x][y]
    {
      var p := points[k];
      if p.x < img.Length0 && p.y < img.Length1 {
        img[p.x, p.y] := color;
      }
      assert points[..k + 1] == points[..k] + [p];
    }
    assert points[..|points|] == points;
    GridsEqual(View(img), Paint(before, points, color));
  }
}
