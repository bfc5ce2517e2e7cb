/** Scoring: the two L1 error sums over a footprint that decide whether a
    proposal is committed. Points outside the target are skipped; every other
    point contributes once per occurrence in the footprint. */
module Scoring {
  import opened Colors
  import opened Rasterizer
  import opened Canvas

  /** The current error at one footprint point: target against canvas. */
  function CanvasTerm(t: Grid, g: Grid, p: Point): (d: nat)
    requires SameShape(t, g)
  {
    if InBounds(t, p) then L1(t[p.x][p.y], g[p.x][p.y]) else 0
  }

  /** The candidate error at one footprint point: target against `c`. */
  function ColorTerm(t: Grid, p: Point, c: Color): (d: nat)
  {
    if InBounds(t, p) then L1(t[p.x][p.y], c) else 0
  }

  /** `d_buf`: the error of the canvas against the target over `fp`. Each
      point adds at most 765, so the sum is at most `765 * |fp|`. */
  function CanvasError(t: Grid, g: Grid, fp: seq<Point>): (e: nat)
    requires SameShape(t, g)
    ensures e <= 765 * |fp|
  {
    if fp == [] then 0 else CanvasError(t, g, fp[..|fp| - 1]) + CanvasTerm(t, g, fp[|fp| - 1])
  }

  /** `d_canv`: the error of the candidate colour against the target over
      `fp`, at most `765 * |fp|`. */
  function ColorError(t: Grid, fp: seq<Point>, c: Color): (e: nat)
    ensures e <= 765 * |fp|
  {
    if fp == [] then 0 else ColorError(t, fp[..|fp| - 1], c) + ColorTerm(t, fp[|fp| - 1], c)
  }

  /** The scoring loop: both sums accumulated point by point in footprint
      order, skipping points outside the target image. */
  method Score(target: array2<Color>, canvas: array2<Color>, fp: seq<Point>, color: Color)
    returns (dBuf: nat, dCanv: nat)
    requires canvas.Length0 == target.Length0 && canvas.Length1 == target.Length1
    ensures dBuf == CanvasError(View(target), View(canvas), fp)
    ensures dCanv == ColorError(View(target), fp, color)
  {
    ghost var t, g := View(target), View(canvas);
    dBuf, dCanv := 0, 0;
    for k := 0 to |fp|
      invariant dBuf == CanvasError(t, g, fp[..k])
      invariant dCanv == ColorError(t, fp[..k], color)
    {
      var p := fp[k];
      assert fp[..k + 1][..k] == fp[..k];
      if p.x >= target.Length0 || p.y >= target.Length1 {
        continue;
      }
      var pImg := target[p.x, p.y];
      var pCanv := canvas[p.x, p.y];
      dBuf := dBuf + L1(pImg, pCanv);
      dCanv := dCanv + L1(pImg, color);
    }
    assert fp[..|fp|] == fp;
  }

  /** A footprint with no point inside the target scores zero both ways, so
      it can never be committed. */
  lemma {:induction false} OutsideScoresZero(t: Grid, g: Grid, fp: seq<Point>, c: Color)
    requires SameShape(t, g)
    requires forall i :: 0 <= i < |fp| ==> !InBounds(t, fp[i])
    ensures CanvasError(t, g, fp) == 0 && ColorError(t, fp, c) == 0
  {
    if fp != [] {
      OutsideScoresZero(t, g, fp[..|fp| - 1], c);
    }
  }

  /** Where the canvas already holds `c` at every in-bounds footprint point,
      its error over the footprint is the candidate error of `c`. */
  lemma {:induction false} MatchingError(t: Grid, g: Grid, fp: seq<Point>, c: Color)
    requires SameShape(t, g)
    requires forall i :: 0 <= i < |fp| && InBounds(t, fp[i]) ==> g[fp[i].x][fp[i].y] == c
    ensures CanvasError(t, g, fp) == ColorError(t, fp, c)
  {
    if fp != [] {
      MatchingError(t, g, fp[..|fp| - 1], c);
    }
  }

  /** Each footprint point's canvas term is part of `d_buf`. */
  lemma {:induction false} TermWithinError(t: Grid, g: Grid, fp: seq<Point>, i: nat)
    requires SameShape(t, g) && i < |fp|
    ensures CanvasTerm(t, g, fp[i]) <= CanvasError(t, g, fp)
  {
    var n := |fp| - 1;
    if i < n {
      TermWithinError(t, g, fp[..n], i);
    }
  }

  /** After drawing `c` over `fp`, the canvas error over `fp` equals the
      candidate error the proposal was scored with. */
  lemma CommittedError(t: Grid, g: Grid, fp: seq<Point>, c: Color)
    requires SameShape(t, g)
    ensures SameShape(t, Paint(g, fp, c))
    ensures CanvasError(t, Paint(g, fp, c), fp) == ColorError(t, fp, c)
  {
    var painted := Paint(g, fp, c);
    forall i | 0 <= i < |fp| && InBounds(t, fp[i])
      ensures painted[fp[i].x][fp[i].y] == c
    {
      assert Point(fp[i].x, fp[i].y) == fp[i];
    }
    MatchingError(t, painted, fp, c);
  }

  /** A colour scores zero against any image that already holds it at every
      in-bounds footprint point. */
  lemma {:induction false} ExactScoresZero(t: Grid, fp: seq<Point>, c: Color)
    requires forall i :: 0 <= i < |fp| && InBounds(t, fp[i]) ==> t[fp[i].x][fp[i].y] == c
    ensures ColorError(t, fp, c) == 0
  {
    if fp != [] {
      ExactScoresZero(t, fp[..|fp| - 1], c);
    }
  }

  /** Recomputing the candidate error against the freshly drawn canvas, in
      place of the target, gives zero: the canvas now holds `c` at every
      in-bounds footprint point. */
  lemma RedrawnScoresZero(g: Grid, fp: seq<Point>, c: Color)
    ensures ColorError(Paint(g, fp, c), fp, c) == 0
  {
    var painted := Paint(g, fp, c);
    forall i | 0 <= i < |fp| && InBounds(painted, fp[i])
      ensures painted[fp[i].x][fp[i].y] == c
    {
      assert Point(fp[i].x, fp[i].y) == fp[i];
    }
    ExactScoresZero(painted, fp, c);
  }

  /** The error of one column of the canvas against the target's column. */
  function ColumnError(t: seq<Color>, g: seq<Color>): nat
    requires |t| == |g|
  {
    if t == [] then 0 else ColumnError(t[..|t| - 1], g[..|g| - 1]) + L1(t[|t| - 1], g[|g| - 1])
  }

  /** The error of the whole canvas against the target: every pixel once. */
  function ImageError(t: Grid, g: Grid): nat
    requires SameShape(t, g)
  {
    if t == [] then 0 else ImageError(t[..|t| - 1], g[..|g| - 1]) + ColumnError(t[|t| - 1], g[|g| - 1])
  }

  /** Writing `c` at row `y` of a column trades that pixel's old error for
      its error against `c`. */
  lemma {:induction false} ColumnUpdate(t: seq<Color>, g: seq<Color>, y: nat, c: Color)
    requires |t| == |g| && y < |g|
    ensures ColumnError(t, g[y := c]) + L1(t[y], g[y]) == ColumnError(t, g) + L1(t[y], c)
  {
    var n := |g| - 1;
    if y < n {
      assert g[y := c][..n] == g[..n][y := c];
      ColumnUpdate(t[..n], g[..n], y, c);
    } else {
      assert g[y := c][..n] == g[..n];
    }
  }

  /** Writing `c` at one in-bounds pixel changes the whole-image error by
      that pixel's candidate error minus its canvas error. */
  lemma {:induction false} ImageUpdate(t: Grid, g: Grid, p: Point, c: Color)
    requires SameShape(t, g) && InBounds(t, p)
    ensures SameShape(t, SetPixel(g, p, c))
    ensures ImageError(t, SetPixel(g, p, c)) + CanvasTerm(t, g, p) == ImageError(t, g) + ColorTerm(t, p, c)
    decreases |g|, 1
  {
    if p.x < |g| - 1 {
      EarlierColumnUpdate(t, g, p, c);
    } else {
      LastColumnUpdate(t, g, p, c);
    }
  }

  lemma {:induction false} EarlierColumnUpdate(t: Grid, g: Grid, p: Point, c: Color)
    requires SameShape(t, g) && InBounds(t, p) && p.x < |g| - 1
    ensures SameShape(t, SetPixel(g, p, c))
    ensures ImageError(t, SetPixel(g, p, c)) + CanvasTerm(t, g, p) == ImageError(t, g) + ColorTerm(t, p, c)
    decreases |g|, 0
  {
    var n := |g| - 1;
    var h := SetPixel(g, p, c);
    SetPixelPrefix(g, p, c);
    ImageUpdate(t[..n], g[..n], p, c);
    assert CanvasTerm(t[..n], g[..n], p) == CanvasTerm(t, g, p);
  }

  /** A write to an earlier column is a write to the prefix of columns. */
  lemma SetPixelPrefix(g: Grid, p: Point, c: Color)
    requires InBounds(g, p) && p.x < |g| - 1
    ensures SetPixel(g, p, c)[..|g| - 1] == SetPixel(g[..|g| - 1], p, c)
    ensures SetPixel(g, p, c)[|g| - 1] == g[|g| - 1]
  {
  }

  lemma LastColumnUpdate(t: Grid, g: Grid, p: Point, c: Color)
    requires SameShape(t, g) && InBounds(t, p) && p.x == |g| - 1
    ensures SameShape(t, SetPixel(g, p, c))
    ensures ImageError(t, SetPixel(g, p, c)) + CanvasTerm(t, g, p) == ImageError(t, g) + ColorTerm(t, p, c)
  {
    var n := |g| - 1;
    var h := SetPixel(g, p, c);
    assert h[..n] == g[..n] && h[n] == g[n][p.y := c];
    ColumnUpdate(t[n], g[n], p.y, c);
  }

  /** No point occurs twice. */
  predicate Distinct(fp: seq<Point>)
  {
    forall i, j :: 0 <= i < j < |fp| ==> fp[i] != fp[j]
  }

  /** Drawing a footprint that names no point twice changes the whole-image
      error by exactly `d_canv - d_buf`. */
  lemma {:induction false} PaintImageError(t: Grid, g: Grid, fp: seq<Point>, c: Color)
    requires SameShape(t, g) && Distinct(fp)
    ensures SameShape(t, Paint(g, fp, c))
    ensures ImageError(t, Paint(g, fp, c)) + CanvasError(t, g, fp) == ImageError(t, g) + ColorError(t, fp, c)
  {
    if fp != [] {
      var n := |fp| - 1;
      var p := fp[n];
      var before := Paint(g, fp[..n], c);
      PaintImageError(t, g, fp[..n], c);
      if InBounds(t, p) {
        assert p !in fp[..n] by {
          forall i | 0 <= i < n ensures fp[..n][i] != p {
            assert fp[i] != fp[n];
          }
        }
        assert before[p.x][p.y] == g[p.x][p.y] by {
          assert Point(p.x, p.y) == p;
        }
        ImageUpdate(t, before, p, c);
      }
    }
  }

  /** The acceptance test is sound for a footprint that names no point
      twice: a commit strictly lowers the whole-image error. */
  lemma CommitLowersImageError(t: Grid, g: Grid, fp: seq<Point>, c: Color)
    requires SameShape(t, g) && Distinct(fp)
    requires ColorError(t, fp, c) < CanvasError(t, g, fp)
    ensures SameShape(t, Paint(g, fp, c))
    ensures ImageError(t, Paint(g, fp, c)) < ImageError(t, g)
  {
    PaintImageError(t, g, fp, c);
  }

  /** The footprint `[p, q, q]`, which is how `gen_line` ends every line
      whose last step lands on the end point `q`: both sums count `q`
      twice, while drawing it changes the whole-image error by the terms
      of `p` and `q` once each. */
  lemma DoubledEndpoint(t: Grid, g: Grid, p: Point, q: Point, c: Color)
    requires SameShape(t, g) && p != q
    ensures CanvasError(t, g, [p, q, q]) == CanvasTerm(t, g, p) + 2 * CanvasTerm(t, g, q)
    ensures ColorError(t, [p, q, q], c) == ColorTerm(t, p, c) + 2 * ColorTerm(t, q, c)
    ensures SameShape(t, Paint(g, [p, q, q], c))
    ensures ImageError(t, Paint(g, [p, q, q], c)) + CanvasTerm(t, g, p) + CanvasTerm(t, g, q)
      == ImageError(t, g) + ColorTerm(t, p, c) + ColorTerm(t, q, c)
  {
    assert [p, q, q][..2] == [p, q] && [p, q][..1] == [p] && [p][..0] == [];
    PaintImageError(t, g, [p, q], c);
    PaintRepeat(g, [p, q], c);
    assert [p, q] + [q] == [p, q, q];
  }

  /** So the acceptance test can commit a line that raises the whole-image
      error. Take the line `[p, q, q]`, with a black target pixel at `p`
      that the black canvas already matches, a target `(4,0,0)` over a
      black canvas pixel at `q`, and the colour `(5,0,0)`. It scores
      `d_canv = 7 < 8 = d_buf`, so it is committed, and the whole-image
      error grows by two. */
  lemma DoubledEndpointRaisesError(t: Grid, g: Grid, p: Point, q: Point, c: Color)
    requires SameShape(t, g) && InBounds(t, p) && InBounds(t, q) && p != q
    requires t[p.x][p.y] == Black && g[p.x][p.y] == Black
    requires t[q.x][q.y] == Color(4, 0, 0) && g[q.x][q.y] == Black
    requires c == Color(5, 0, 0)
    ensures ColorError(t, [p, q, q], c) == 7 && CanvasError(t, g, [p, q, q]) == 8
    ensures SameShape(t, Paint(g, [p, q, q], c))
    ensures ImageError(t, Paint(g, [p, q, q], c)) == ImageError(t, g) + 2
  {
    MatchedPixel(t, g, p, c);
    ImprovedPixel(t, g, q, c);
    ExampleSums(t, g, p, q, c);
  }

  /** The example's sums from its four terms. */
  lemma ExampleSums(t: Grid, g: Grid, p: Point, q: Point, c: Color)
    requires SameShape(t, g) && p != q
    requires CanvasTerm(t, g, p) == 0 && ColorTerm(t, p, c) == 5
    requires CanvasTerm(t, g, q) == 4 && ColorTerm(t, q, c) == 1
    ensures ColorError(t, [p, q, q], c) == 7 && CanvasError(t, g, [p, q, q]) == 8
    ensures SameShape(t, Paint(g, [p, q, q], c))
    ensures ImageError(t, Paint(g, [p, q, q], c)) == ImageError(t, g) + 2
  {
    DoubledEndpoint(t, g, p, q, c);
  }

  lemma MatchedPixel(t: Grid, g: Grid, p: Point, c: Color)
    requires SameShape(t, g) && InBounds(t, p) && c == Color(5, 0, 0)
    requires t[p.x][p.y] == Black && g[p.x][p.y] == Black
    ensures CanvasTerm(t, g, p) == 0 && ColorTerm(t, p, c) == 5
  {
    PointTerms(t, g, p, c, Black, Black);
    BlackDistance(c);
  }

  lemma ImprovedPixel(t: Grid, g: Grid, p: Point, c: Color)
    requires SameShape(t, g) && InBounds(t, p) && c == Color(5, 0, 0)
    requires t[p.x][p.y] == Color(4, 0, 0) && g[p.x][p.y] == Black
    ensures CanvasTerm(t, g, p) == 4 && ColorTerm(t, p, c) == 1
  {
    PointTerms(t, g, p, c, Color(4, 0, 0), Black);
    TargetDistances(c);
  }

  /** The two terms at one in-bounds point, by the colours found there. */
  lemma PointTerms(t: Grid, g: Grid, p: Point, c: Color, a: Color, b: Color)
    requires SameShape(t, g) && InBounds(t, p)
    requires t[p.x][p.y] == a && g[p.x][p.y] == b
    ensures CanvasTerm(t, g, p) == L1(a, b) && ColorTerm(t, p, c) == L1(a, c)
  {
  }

  lemma BlackDistance(c: Color)
    requires c == Color(5, 0, 0)
    ensures L1(Black, c) == 5
  {
  }

  lemma TargetDistances(c: Color)
    requires c == Color(5, 0, 0)
    ensures L1(Color(4, 0, 0), Black) == 4 && L1(Color(4, 0, 0), c) == 1
  {
  }

  /** Painting the last point of a footprint once more changes nothing. */
  lemma PaintRepeat(g: Grid, fp: seq<Point>, c: Color)
    requires fp != []
    ensures Paint(g, fp + [fp[|fp| - 1]], c) == Paint(g, fp, c)
  {
    var q := fp[|fp| - 1];
    var once := Paint(g, fp, c);
    assert (fp + [q])[..|fp|] == fp;
    if InBounds(once, q) {
      assert once[q.x][q.y] == c by {
        assert Point(q.x, q.y) == q;
      }
      assert once[q.x][q.y := c] == once[q.x];
    }
  }
}
