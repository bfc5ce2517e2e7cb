# ReDraw core, modelled in Dafny

ReDraw approximates a target RGB image by greedy hill climbing. It builds a
black canvas the size of the target. Each iteration proposes one line or
rectangle with a colour. It scores the proposal over the proposal's own
footprint: the L1 error of the canvas against the target (`d_buf`), and the
L1 error of the proposal's colour against the target (`d_canv`). It draws the
proposal only when `d_canv < d_buf`. In adaptive mode, the maximum object
size shrinks after ever longer runs of rejections.

This project models the integer core of that loop in `src/main.rs`:

- `rasterizer.dfy`: the Bresenham line walker `gen_line` and the rectangle
  enumerator `gen_rect`, as loops, with points and 32-bit anchors.
  `LinePath` is the exact point sequence `gen_line` pushes, defined by
  recursion over the loop's turns, and `GenLine` returns exactly it. The
  body of `gen_line`'s loop is the method `LineAdvance`.
- `colors.dfy`: the `[u8; 3]` colour, its lexicographic order, the
  per-pixel L1 distance and `owned_array`.
- `palette.dfy`: the palette builder, plus `sort` and `dedup` for uniform mode.
- `canvas.dfy`: the canvas seen as a grid of columns, and `draw`.
- `scoring.dfy`: the two error sums and the scoring loop.
- `adaptive.dfy`: the shrink trigger `2^k * adapt_rate` and the clamp
  above `min`.
- `search.dfy`: the class `Redraw`. It owns the target and canvas arrays,
  the size range and the counters. Its `Step` method is one pass of the
  loop body (lines 170-207), with the proposal passed in as an argument.
  `Run` is the loop over a sequence of proposals. It returns each
  footprint, commit decision and shrink flag. Its contract gives the final
  canvas as the committed footprints replayed in order, and the final
  maximum size as the old one scaled and clamped once per shrink. `UniformSquare` runs one
  iteration on a small image from start to finish.

Rust's `/` on a negative `i64` rounds toward zero (line 259). The model
writes this out as `HalfTowardZero`, because Dafny's `/` is Euclidean. The
`as u32` casts in `gen_line` never truncate: `GenLine` proves that every
point lies in the anchors' bounding box.

Some behaviours of the code are easy to misread. The model follows the code:

- A line whose two anchors are equal gives two copies of the point. Line
  262 pushes the start, and line 276 pushes the end point again after the
  loop. In fact every line ends with two copies of its end point.
  Both error sums therefore count the end pixel twice. A committed line can
  then raise the error of the whole canvas, which a footprint naming each
  pixel once, like a rectangle, never does.
- `gen_line` compares `2 * err` against the deltas. It starts `err` at
  `dx / 2` when `dx > dy`, and at `-(dy / 2)` otherwise, both rounded toward
  zero (line 259). So a diagonal is walked as a staircase: (0,0) to (2,2)
  visits (0,0), (0,1), (1,1), (1,2), (2,2), and then (2,2) again
  (`DiagonalStaircase`). This is still 8-connected, and no step moves away
  from the end point.
- The error sums are `u32` accumulators (lines 173-186).
- `min < max` is a precondition of the constructor. The source checks
  nothing, but when `min >= max` the offset range `[min/max, 1)` built at
  line 134 is empty, and building it fails.

## Model

| member | source | states |
|---|---|---|
| Rasterizer.HalfTowardZero | src/main.rs:259 | the quotient by two is rounded toward zero: twice its magnitude is within one of the dividend's magnitude, and it has the dividend's sign |
| Rasterizer.NoOvershoot | src/main.rs:268-272 | after all column steps the error term is too low for another column step; after all row steps it is too high for another row step |
| Rasterizer.WalkStep | src/main.rs:263-275 | one loop turn away from the end point keeps the walk state (each axis a whole number of unit steps toward its anchor, error term `e0 + v*dx - u*dy`), takes at least one step, and moves to an 8-neighbour inside the anchors' box that is strictly closer to the end point |
| Rasterizer.TraceStep | src/main.rs:268-274 | one turn of the loop, away from the end point, pushes the position the doubled error term selects, and the rest of the trace continues from there |
| Rasterizer.PathStep | src/main.rs:263-275 | the points pushed so far followed by the trace still to come remain the same path after one more turn |
| Rasterizer.TraceWalk | src/main.rs:263-275 | from any reachable state of the walk with enough turns left, the current point and the points the loop still pushes form a walk: inside the box, 8-connected, strictly closer to the end point at each step, ending there, with no more points than steps left |
| Rasterizer.WalkFinish | src/main.rs:276 | a walk from the first anchor followed by the end point pushed again has the shape `LineShape` states |
| Rasterizer.LinePath | src/main.rs:241-279 | the exact footprint of `gen_line`: the start point, the points the loop pushes, and the end point again; so it starts at `(x0,y0)` and ends at `(x1,y1)` |
| Rasterizer.LinePathShape | src/main.rs:241-279 | `LinePath` starts at `(x0,y0)`; its last two points are both `(x1,y1)`; every point lies in the anchors' bounding box; consecutive points are 8-neighbours; each step strictly shortens the taxicab distance to `(x1,y1)`; the length is at most `|dx|+|dy|+2`; equal anchors give exactly `[p, p]` |
| Rasterizer.LineStart | src/main.rs:251-262 | the deltas, the directions, the starting error term and the first push establish the loop's invariant, with the path being `LinePath` without its final push |
| Rasterizer.LineTurn | src/main.rs:263-275 | one turn away from the end point keeps the loop's invariant with one turn fewer left and takes at least one step |
| Rasterizer.LineAdvance | src/main.rs:267-274 | the loop body: doubling the error term, stepping the column and the row as it selects, and pushing the new position keep the loop's invariant with one turn fewer left |
| Rasterizer.LineEnd | src/main.rs:265 | when the loop breaks at the end point it has pushed the whole path |
| Rasterizer.DiagonalStaircase | src/main.rs:259-276 | the line from `(0,0)` to `(2,2)` is exactly `(0,0), (0,1), (1,1), (1,2), (2,2), (2,2)` |
| Rasterizer.GenLine | src/main.rs:241-279 | the result is exactly `LinePath`, so it has the whole `LineShape`: starts at `(x0,y0)`, ends with two copies of `(x1,y1)`, stays in the bounding box, is 8-connected, gets strictly closer to `(x1,y1)` at each step, has at most `|dx|+|dy|+2` points, and equal anchors give `[p, p]` |
| Rasterizer.GenRect | src/main.rs:281-290 | holds exactly the points with `x0 <= x < x1` and `y0 <= y < y1`, in strictly increasing `(x, y)` order, so each once and column by column; the length is `max(0,x1-x0) * max(0,y1-y0)`, so reversed anchors give the empty footprint |
| Colors.L1 | src/main.rs:180-186 | a per-pixel term lies in `[0, 765]` and is zero exactly when the two colours are equal |
| Colors.OwnedArray | src/main.rs:223-225 | the colour holds the slice's first three bytes, in order |
| Colors.ColorLessTotal | src/main.rs:116 | the lexicographic order on `[r,g,b]` used by `sort` is irreflexive, asymmetric, transitive and total |
| Palette.PixelsOfFlatten | src/main.rs:110-113 | reading groups of three bytes from an image's raw buffer with `owned_array` gives back the image's pixels in scan order |
| Palette.Insert | src/main.rs:116 | inserting into a sorted sequence keeps it sorted and adds exactly one copy of the colour |
| Palette.SortColors | src/main.rs:116 | `sort` returns a non-decreasing permutation of the palette |
| Palette.Dedupped | src/main.rs:117 | no two neighbours of the result are equal, and a non-empty input keeps its last colour at the end |
| Palette.DeduppedProperties | src/main.rs:117 | `dedup` keeps exactly the colours of its input, keeps its last colour, and turns a sorted input into a strictly increasing one |
| Palette.UniformPalette | src/main.rs:115-118 | sort followed by dedup leaves every colour of the input exactly once, in strictly increasing order |
| Palette.BuildPalette | src/main.rs:108-118 | without `uniform`: one colour per pixel, in buffer order, each built by `owned_array` from three consecutive bytes; with `uniform`: strictly increasing, and holding exactly the colours of the image |
| Canvas.Paint | src/main.rs:227-238 | drawing keeps the canvas's shape; each pixel the footprint names is set to the colour; every other pixel keeps its colour, and points outside the canvas change nothing |
| Canvas.PaintTwice | src/main.rs:227-238 | drawing the same footprint in the same colour twice is the same as drawing it once |
| Canvas.Draw | src/main.rs:227-238 | the canvas array after `draw` is the old canvas painted over the footprint |
| Scoring.CanvasError | src/main.rs:173-182 | `d_buf` over a footprint is at most `765` times the footprint's length |
| Scoring.ColorError | src/main.rs:174-186 | `d_canv` over a footprint is at most `765` times the footprint's length |
| Scoring.Score | src/main.rs:172-187 | the loop's two accumulators equal the canvas error and the candidate error over the footprint; points outside the target are skipped |
| Scoring.OutsideScoresZero | src/main.rs:176 | a footprint with no point inside the target scores zero both ways, so `d_canv < d_buf` fails and it is never drawn |
| Scoring.MatchingError | src/main.rs:175-187 | a canvas that already holds the colour at every in-bounds footprint point has canvas error equal to that colour's candidate error |
| Scoring.TermWithinError | src/main.rs:175-182 | each footprint point's canvas term is at most `d_buf` |
| Scoring.CommittedError | src/main.rs:204-205 | after a commit, the canvas error over the footprint equals the `d_canv` the proposal was scored with |
| Scoring.ExactScoresZero | src/main.rs:184-186 | a colour scores zero against an image that holds it at every in-bounds footprint point |
| Scoring.RedrawnScoresZero | src/main.rs:204-205 | after a commit, comparing the candidate colour with the canvas over the footprint gives zero |
| Scoring.ColumnUpdate | src/main.rs:235 | writing one pixel of a column changes the column's error by that pixel's new term minus its old one |
| Scoring.ImageUpdate | src/main.rs:233-235 | writing one in-bounds pixel changes the whole-image error by that pixel's candidate term minus its canvas term |
| Scoring.PaintImageError | src/main.rs:204-205 | drawing a footprint that names no point twice changes the whole-image error by exactly `d_canv - d_buf` |
| Scoring.CommitLowersImageError | src/main.rs:204-206 | for such a footprint the acceptance test is sound: a commit strictly lowers the error of the whole canvas |
| Scoring.PaintRepeat | src/main.rs:231-236 | drawing the last point of a footprint a second time leaves the canvas as drawing it once |
| Scoring.DoubledEndpoint | src/main.rs:175-186 | on the footprint `[p, q, q]` that ends a line, both sums count `q` twice, but drawing it changes the whole-image error by the terms of `p` and `q` once each |
| Scoring.DoubledEndpointRaisesError | src/main.rs:204-205 | there are a target, a canvas and a colour for which such a line scores `d_canv = 7 < 8 = d_buf` and is committed, yet the whole-image error grows by two |
| Adaptive.Pow2 | src/main.rs:195 | `2^k` is at least `k + 1` |
| Adaptive.Threshold | src/main.rs:195 | with a positive rate, the threshold `2^k * adapt_rate` is at least `2^k` |
| Adaptive.ShrinkDue | src/main.rs:195 | a shrink fires only in adaptive mode and after at least one rejection; with a positive rate, the `k+1`-th shrink needs more than `k + 1` rejections |
| Adaptive.ClampMax | src/main.rs:196-197 | after the clamp the maximum is above `min`; a scaled value above `min` is kept as it is, and any other becomes `min + 1` |
| Adaptive.ClampNeverGrows | src/main.rs:196-197 | when the scaled value is at most the old maximum, the clamped maximum is at most the old maximum |
| Search.Rasterize | src/main.rs:170 | the footprint is exactly the one the generator the proposal names produces (`Footprint`: `LinePath` for a line, the rectangle's points in order for a rectangle), with everything `GenLine` or `GenRect` promises; a rectangle names each point once |
| Search.Redraw.constructor | src/main.rs:120-128 | the canvas is a fresh all-black image of the target's size; `max` is the configured maximum; all counters start at zero |
| Search.Redraw.Step | src/main.rs:140-207 | the footprint is exactly the one the proposal's generator produces (`Footprint`). The proposal is committed exactly when `d_canv < d_buf`. A commit paints the footprint, adds one to `num_objs`, and lowers the footprint error to `d_canv`. A committed rectangle also lowers the error of the whole canvas. A rejection leaves the canvas and `num_objs` alone. A shrink fires exactly on the trigger. The rejection count `i - num_objs` never decreases, and the run invariant is kept |
| Search.Redraw.Adapt | src/main.rs:195-201 | when `i - num_objs > 2^adapt_counter * adapt_rate`, the maximum becomes the clamped scaled value and `adapt_counter` goes up by one; otherwise both are unchanged; afterwards `max > min`, and the last shrink's threshold is below the rejection count |
| Search.Redraw.Commit | src/main.rs:204-206 | the canvas becomes the old canvas painted with the proposal, `num_objs` goes up by one, and the canvas error over the footprint equals the candidate error |
| Search.Redraw.Run | src/main.rs:140-213 | after `n` proposals, `i` has grown by `n`. Each returned footprint is exactly the one its proposal's generator produces, and each commit flag is the acceptance test over the canvas the earlier proposals left (`RunLog`). The canvas is the old canvas with the committed footprints painted in order (`Replay`), and `num_objs` has grown by the number of commits. Each returned shrink flag is the trigger over the iteration, `num_objs` and `adapt_counter` the earlier iterations left (`ShrinkLog`); `adapt_counter` has grown by the number of shrinks, and `max` is the old maximum scaled and clamped once per shrink, in order (`Shrunk`). With a shrink that never enlarges, `max` never grows. Without adaptive mode, `max` and `adapt_counter` are fixed. A run of rectangles never raises the error of the whole canvas. With a positive rate, there are never more shrinks than rejections |
| Search.Redraw.Turn | src/main.rs:140-207 | one iteration extends the run's logs and its replayed canvas by the new proposal: its commit is added to `num_objs`, its shrink flag is the trigger over the current counters, it is added to `adapt_counter`, and a set flag scales and clamps `max` once more |
| Search.RunStep | src/main.rs:204-206 | a footprint and decision appended to a log give a log, and the canvas after the turn is the replay of the longer run |
| Search.Shrunk | src/main.rs:195-201 | the maximum after a sequence of shrinks stays above `min`; with no shrink it is the starting maximum; when no scaled value exceeds the value it came from it never exceeds the starting maximum |
| Search.FixedNeverShrinks | src/main.rs:195 | without adaptive mode the trigger never fires, so a run logs no shrink |
| Search.ShrinkStep | src/main.rs:195-201 | the trigger's value over the current iteration, `num_objs` and `adapt_counter` extends the shrink log, whatever the iteration then decides |
| Search.Redraw.ShrinksLogarithmic | src/main.rs:195 | with a positive rate, after `k > 0` shrinks more than `2^(k-1)` proposals have been rejected, so there are never more shrinks than rejections |
| Search.UniformSquare | src/main.rs:120-207 | for a 2x2 target of one colour `c` and a fresh black canvas, a rectangle of colour `c` over the image is committed exactly when `c` is not black, and afterwards every pixel of the canvas is `c` |
| Search.SquareScores | src/main.rs:172-187 | against a one-colour 2x2 target and a black canvas, the target's colour scores zero, and the canvas scores above zero exactly when that colour is not black |

## Left out

- Command-line parsing (lines 36-98). The shape-name dispatch becomes the closed `ShapeKind` datatype, so the unknown-shape error path has no counterpart.
- Image decoding and encoding, `to_rgb`, saving animation frames and the final file (lines 101-103, 209-212, 219). These are file I/O through the image library. The raw buffer's layout is modelled by `Palette.Flatten`. The canvas starts all black, as `RgbImage::new` does.
- Random sampling (lines 131-136, 142-145, 170). Each proposal is an argument to `Step`, or an element of the sequence given to `Run`.
- The floating-point second-anchor computation and its axis-intercept fallback (lines 148-168), and the recomputed offset range (lines 134, 199). These are floating-point numerics.
- Search.Redraw.Adapt: the shrink multiply `max as f64 * adapt_coeff` (line 196) is the function parameter `shrink`. The model proves the clamp, the counter and the trigger, not the float product.
- Progress printing (lines 189-193, 220). When fewer than 100 iterations are requested and output is not quiet, `prog` is 0 and `i % prog` panics. That crash is part of this printing, so it is not modelled either.
- The blur (lines 216-218), whose result the source discards, and `version` (lines 292-295).
- Scoring.Score: the sums are unbounded integers. The source's `u32` accumulators (lines 173-186) would overflow only on a footprint with more than 5614336 in-bounds points. `CanvasError` and `ColorError` bound each sum by `765 * |fp|`.
- Adaptive.ShrinkDue: the threshold `2u64.pow(adapt_counter) * adapt_rate` is an unbounded integer. With a positive rate, overflowing `u64` would take at least 2^63 rejections. The source does not check the rate (lines 55 and 70). With rate 0 the threshold is always 0, so every rejection shrinks, and after 64 shrinks `2u64.pow(64)` overflows: a debug build panics, and a release build wraps to 0. The model keeps computing `2^k * 0 = 0` and does not model that overflow.
- Palette.SortColors: the standard library's sort algorithm is not modelled. Its result is: a sorted permutation, which is unique because equal colours are identical values.
