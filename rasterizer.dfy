/** Shape rasterizers: integer line walking and rectangle enumeration.
    Anchors are 32-bit unsigned coordinates; the footprint is a sequence of
    points that may lie outside the raster (they are skipped later). */
module Rasterizer {

  const U32_LIMIT: int := 0x1_0000_0000

  /** Rust's `u32`. */
  type u32 = x: int | 0 <= x < U32_LIMIT

  /** A pixel coordinate, column `x` and row `y`. */
  datatype Point = Point(x: nat, y: nat)

  /** The closed set of shape kinds a proposal may name. */
  datatype ShapeKind = Line | Rectangle

  function Abs(a: int): nat
  {
    if a < 0 then -a else a
  }

  /** Rust's `/ 2` on a signed integer: the quotient is rounded toward zero,
      so `-3 / 2 == -1`, where Dafny's Euclidean `/` gives `-2`. */
  function HalfTowardZero(a: int): (q: int)
    ensures 2 * Abs(q) <= Abs(a) < 2 * Abs(q) + 2
    ensures a >= 0 ==> q >= 0
    ensures a <= 0 ==> q <= 0
  {
    if a >= 0 then a / 2 else -((-a) / 2)
  }

  /** `v` lies between `a` and `b`, whichever of them is larger. */
  predicate Between(v: int, a: int, b: int)
  {
    (a <= v <= b) || (b <= v <= a)
  }

  /** The two points are equal or 8-neighbours. */
  predicate Adjacent(p: Point, q: Point)
  {
    Abs(p.x - q.x) <= 1 && Abs(p.y - q.y) <= 1
  }

  /** Taxicab distance from `p` to `(x, y)`. */
  function Dist(p: Point, x: int, y: int): nat
  {
    Abs(p.x - x) + Abs(p.y - y)
  }

  /** Lexicographic order on `(x, y)`: the order in which `GenRect` emits. */
  predicate PointLess(p: Point, q: Point)
  {
    p.x < q.x || (p.x == q.x && p.y < q.y)
  }

  /** Length of the half-open range `[a, b)`, zero when `b <= a`. */
  function Span(a: int, b: int): nat
  {
    if a < b then b - a else 0
  }

  /** The error term of the line walk after `u` column steps and `v` row
      steps, starting from `e0`: each column step subtracts `dy`, each row
      step adds `dx`. */
  function WalkError(e0: int, dx: nat, dy: nat, u: nat, v: nat): int
  {
    e0 + v * dx - u * dy
  }

  /** A column step lowers the error term by `dy`, a row step raises it by `dx`. */
  lemma WalkErrorStep(e0: int, dx: nat, dy: nat, u: nat, v: nat)
    ensures WalkError(e0, dx, dy, u + 1, v) == WalkError(e0, dx, dy, u, v) - dy
    ensures WalkError(e0, dx, dy, u, v + 1) == WalkError(e0, dx, dy, u, v) + dx
  {
  }

  /** The walk never steps past the end column or the end row: once all `dx`
      column steps are taken the error is too low for another one, and once
      all `dy` row steps are taken it is too high for another one. */
  lemma NoOvershoot(e0: int, dx: nat, dy: nat, u: nat, v: nat)
    requires -(dy as int) <= 2 * e0 <= dx
    requires u <= dx && v <= dy && !(u == dx && v == dy)
    ensures u == dx ==> 2 * WalkError(e0, dx, dy, u, v) <= -(dx as int)
    ensures v == dy ==> 2 * WalkError(e0, dx, dy, u, v) >= dy
  {
    if u == dx {
      ScaledGap(dx, dy, v);
    }
    if v == dy {
      ScaledGap(dy, dx, u);
    }
  }

  /** `a` times a positive gap `b - k` is at least `a`. */
  lemma ScaledGap(a: nat, b: nat, k: nat)
    requires k < b
    ensures k * a - b * a <= -(a as int)
  {
    var g: nat := b - k - 1;
    assert g * a >= 0;
    assert b * a == k * a + a + g * a by {
      assert b == k + 1 + g;
    }
  }

  /** `p` lies in the bounding box of the anchors `(x0, y0)` and `(x1, y1)`. */
  predicate InBox(p: Point, x0: int, y0: int, x1: int, y1: int)
  {
    Between(p.x, x0, x1) && Between(p.y, y0, y1)
  }

  /** A walk toward `(x1, y1)`: every point lies in the anchors' box, each
      point is an 8-neighbour of the previous one and strictly closer to
      `(x1, y1)`, and the last point is `(x1, y1)`. */
  ghost predicate WalkTo(line: seq<Point>, x0: nat, y0: nat, x1: nat, y1: nat)
  {
    && |line| >= 1
    && line[|line| - 1] == Point(x1, y1)
    && (forall i :: 0 <= i < |line| ==> InBox(line[i], x0, y0, x1, y1))
    && (forall i :: 0 <= i < |line| - 1 ==> Adjacent(line[i], line[i + 1]))
    && (forall i :: 0 <= i < |line| - 1 ==> Dist(line[i + 1], x1, y1) < Dist(line[i], x1, y1))
  }

  /** A walk stays a walk with one more point in front, when that point is in
      the box, next to the walk's first point and farther from the end. */
  lemma WalkCons(p: Point, line: seq<Point>, x0: nat, y0: nat, x1: nat, y1: nat)
    requires WalkTo(line, x0, y0, x1, y1)
    requires InBox(p, x0, y0, x1, y1)
    requires Adjacent(p, line[0]) && Dist(line[0], x1, y1) < Dist(p, x1, y1)
    ensures WalkTo([p] + line, x0, y0, x1, y1)
  {
    var r := [p] + line;
    assert forall i :: 0 < i < |r| ==> r[i] == line[i - 1];
  }

  /** Position `a` is `k` unit steps from `a0` in direction `s` toward `a1`. */
  predicate OnAxis(a: int, a0: int, a1: int, s: int, k: nat)
  {
    if s == 1 then a0 < a1 && a == a0 + k else s == -1 && a1 <= a0 && a == a0 - k
  }

  /** One step along an axis, taken only while steps remain, stays between the
      anchors, moves by at most one and leaves one step fewer to go. */
  lemma AxisStep(a: int, a0: int, a1: int, s: int, k: nat, stepped: bool)
    requires OnAxis(a, a0, a1, s, k) && k <= Abs(a0 - a1)
    requires stepped ==> k < Abs(a0 - a1)
    ensures var a', k' := (if stepped then a + s else a), (if stepped then k + 1 else k);
      && OnAxis(a', a0, a1, s, k') && k' <= Abs(a0 - a1)
      && Between(a', a0, a1) && Abs(a' - a) <= 1
      && Abs(a' - a1) == Abs(a0 - a1) - k' && Abs(a - a1) == Abs(a0 - a1) - k
  {
  }

  /** The state of the line walk after `u` column steps and `v` row steps:
      each coordinate has moved that many unit steps toward the second anchor,
      and the error term has moved by `dx` per row step and `-dy` per column
      step. */
  predicate WalkAt(x0: nat, y0: nat, x1: nat, y1: nat, dx: int, dy: int, sx: int, sy: int,
                   e0: int, x: int, y: int, err: int, u: nat, v: nat)
  {
    && dx == Abs(x0 - x1) && dy == Abs(y0 - y1) && u <= dx && v <= dy
    && -dy <= 2 * e0 <= dx
    && OnAxis(x, x0, x1, sx, u) && OnAxis(y, y0, y1, sy, v)
    && err == WalkError(e0, dx, dy, u, v)
  }

  /** One turn of the walk's loop body, taken while `(x, y)` is not yet the
      second anchor, keeps the walk state, takes at least one step, and moves
      to an 8-neighbour in the box that is strictly closer to the second
      anchor. */
  lemma WalkStep(x0: nat, y0: nat, x1: nat, y1: nat, dx: int, dy: int, sx: int, sy: int, e0: int,
                 x: int, y: int, err: int, u: nat, v: nat,
                 stepX: bool, stepY: bool, x': int, y': int, err': int, u': int, v': int)
    requires WalkAt(x0, y0, x1, y1, dx, dy, sx, sy, e0, x, y, err, u, v)
    requires !(x == x1 && y == y1)
    requires stepX == (2 * err > -dx) && stepY == (2 * err < dy)
    requires x' == (if stepX then x + sx else x) && u' == (if stepX then u + 1 else u)
    requires y' == (if stepY then y + sy else y) && v' == (if stepY then v + 1 else v)
    requires err' == err - (if stepX then dy else 0) + (if stepY then dx else 0)
    ensures x >= 0 && y >= 0 && x' >= 0 && y' >= 0 && u' >= 0 && v' >= 0
    ensures WalkAt(x0, y0, x1, y1, dx, dy, sx, sy, e0, x', y', err', u', v')
    ensures u' + v' > u + v
    ensures InBox(Point(x', y'), x0, y0, x1, y1) && Adjacent(Point(x, y), Point(x', y'))
    ensures Dist(Point(x', y'), x1, y1) < Dist(Point(x, y), x1, y1)
  {
    NoOvershoot(e0, dx, dy, u, v);
    WalkErrorStep(e0, dx, dy, u, v);
    WalkErrorStep(e0, dx, dy, u', v);
    AxisStep(x, x0, x1, sx, u, 2 * err > -dx);
    AxisStep(y, y0, y1, sy, v, 2 * err < dy);
  }

  /** The points the walk's loop pushes from state `(x, y, err)` on, one per
      turn, until it reaches `(x1, y1)`. A turn doubles the error term,
      steps the column when that exceeds `-dx` and the row when it is below
      `dy`, and pushes the new position. `n` bounds the number of turns and
      negative coordinates end the trace; neither cut-off is reached from
      the start of a real line (`dx + dy` turns suffice, and every point
      stays in the anchors' box), as `GenLine` shows. */
  function Trace(x1: int, y1: int, dx: int, dy: int, sx: int, sy: int, x: int, y: int, err: int, n: nat): seq<Point>
    decreases n
  {
    if n == 0 || (x == x1 && y == y1) then []
    else
      var next := NextPos(dx, dy, sx, sy, x, y, err);
      if next.x < 0 || next.y < 0 then []
      else [Point(next.x, next.y)] + Trace(x1, y1, dx, dy, sx, sy, next.x, next.y, next.err, n - 1)
  }

  /** A position of the walk and its error term. */
  datatype WalkPos = WalkPos(x: int, y: int, err: int)

  /** One turn of the walk's loop (lines 268-272): the error term doubled
      decides the column step (above `-dx`) and the row step (below `dy`). */
  function NextPos(dx: int, dy: int, sx: int, sy: int, x: int, y: int, err: int): WalkPos
  {
    var ex := if 2 * err > -dx then err - dy else err;
    WalkPos(if 2 * err > -dx then x + sx else x, if 2 * err < dy then y + sy else y,
            if 2 * err < dy then ex + dx else ex)
  }

  /** One turn of the trace, away from the end point with turns left and
      non-negative coordinates next, pushes the next position. */
  lemma TraceStep(x1: int, y1: int, dx: int, dy: int, sx: int, sy: int, x: int, y: int, err: int, n: nat,
                  stepX: bool, stepY: bool, x': int, y': int, err': int)
    requires n > 0 && !(x == x1 && y == y1)
    requires stepX == (2 * err > -dx) && stepY == (2 * err < dy)
    requires x' == (if stepX then x + sx else x) && y' == (if stepY then y + sy else y)
    requires err' == err - (if stepX then dy else 0) + (if stepY then dx else 0)
    requires x' >= 0 && y' >= 0
    ensures Trace(x1, y1, dx, dy, sx, sy, x, y, err, n)
      == [Point(x', y')] + Trace(x1, y1, dx, dy, sx, sy, x', y', err', n - 1)
  {
  }

  /** The points pushed so far followed by the trace from the current
      position stay the whole path after one more turn. */
  lemma PathStep(x1: int, y1: int, dx: int, dy: int, sx: int, sy: int, x: int, y: int, err: int, n: nat,
                 line: seq<Point>, path: seq<Point>, stepX: bool, stepY: bool, x': int, y': int, err': int)
    requires n > 0 && !(x == x1 && y == y1)
    requires stepX == (2 * err > -dx) && stepY == (2 * err < dy)
    requires x' == (if stepX then x + sx else x) && y' == (if stepY then y + sy else y)
    requires err' == err - (if stepX then dy else 0) + (if stepY then dx else 0)
    requires x' >= 0 && y' >= 0
    requires line + Trace(x1, y1, dx, dy, sx, sy, x, y, err, n) == path
    ensures (line + [Point(x', y')]) + Trace(x1, y1, dx, dy, sx, sy, x', y', err', n - 1) == path
  {
    var rest := Trace(x1, y1, dx, dy, sx, sy, x', y', err', n - 1);
    TraceStep(x1, y1, dx, dy, sx, sy, x, y, err, n, stepX, stepY, x', y', err');
    assert line + ([Point(x', y')] + rest) == (line + [Point(x', y')]) + rest;
  }

  /** The invariant of `GenLine`'s loop: the walk state, enough turns left
      for the steps still to take, and the points pushed so far followed by
      the trace from the current position making up the whole path. */
  ghost predicate LineLoop(x0: nat, y0: nat, x1: nat, y1: nat, dx: int, dy: int, sx: int, sy: int, e0: int,
                           x: int, y: int, err: int, u: nat, v: nat, n: nat, line: seq<Point>, path: seq<Point>)
  {
    && WalkAt(x0, y0, x1, y1, dx, dy, sx, sy, e0, x, y, err, u, v)
    && n >= (dx - u) + (dy - v)
    && line + Trace(x1, y1, dx, dy, sx, sy, x, y, err, n) == path
  }

  /** One turn of `GenLine`'s loop, taken away from the end point, keeps its
      invariant, takes at least one step, and the turn count stays a `nat`. */
  lemma LineTurn(x0: nat, y0: nat, x1: nat, y1: nat, dx: int, dy: int, sx: int, sy: int, e0: int,
                 x: int, y: int, err: int, u: nat, v: nat, n: nat, line: seq<Point>, path: seq<Point>,
                 stepX: bool, stepY: bool, x': int, y': int, err': int, u': int, v': int)
    requires LineLoop(x0, y0, x1, y1, dx, dy, sx, sy, e0, x, y, err, u, v, n, line, path)
    requires !(x == x1 && y == y1)
    requires stepX == (2 * err > -dx) && stepY == (2 * err < dy)
    requires x' == (if stepX then x + sx else x) && u' == (if stepX then u + 1 else u)
    requires y' == (if stepY then y + sy else y) && v' == (if stepY then v + 1 else v)
    requires err' == err - (if stepX then dy else 0) + (if stepY then dx else 0)
    ensures x' >= 0 && y' >= 0 && u' >= 0 && v' >= 0 && n >= 1
    ensures LineLoop(x0, y0, x1, y1, dx, dy, sx, sy, e0, x', y', err', u', v', n - 1, line + [Point(x', y')], path)
    ensures 0 <= (dx - u') + (dy - v') < (dx - u) + (dy - v)
  {
    WalkStep(x0, y0, x1, y1, dx, dy, sx, sy, e0, x, y, err, u, v, stepX, stepY, x', y', err', u', v');
    PathStep(x1, y1, dx, dy, sx, sy, x, y, err, n, line, path, stepX, stepY, x', y', err');
  }

  /** `GenLine`'s loop invariant holds before the first turn, with the path
      being `LinePath` without its repeated end point. */
  lemma LineStart(x0: u32, y0: u32, x1: u32, y1: u32, dx: int, dy: int, sx: int, sy: int, e0: int)
    requires dx == Abs(x0 - x1) && dy == Abs(y0 - y1)
    requires sx == (if x0 < x1 then 1 else -1) && sy == (if y0 < y1 then 1 else -1)
    requires e0 == HalfTowardZero(if dx > dy then dx else -dy)
    ensures var path := [Point(x0, y0)] + Trace(x1, y1, dx, dy, sx, sy, x0, y0, e0, dx + dy);
      && LineLoop(x0, y0, x1, y1, dx, dy, sx, sy, e0, x0, y0, e0, 0, 0, dx + dy, [Point(x0, y0)], path)
      && path + [Point(x1, y1)] == LinePath(x0, y0, x1, y1)
  {
  }

  /** When `GenLine`'s loop stops at the end point, it has pushed the whole
      path. */
  lemma LineEnd(x0: nat, y0: nat, x1: nat, y1: nat, dx: int, dy: int, sx: int, sy: int, e0: int,
                x: int, y: int, err: int, u: nat, v: nat, n: nat, line: seq<Point>, path: seq<Point>)
    requires LineLoop(x0, y0, x1, y1, dx, dy, sx, sy, e0, x, y, err, u, v, n, line, path)
    requires x == x1 && y == y1
    ensures line == path
  {
    assert line + [] == line;
  }

  /** From any state of the walk with enough turns left, the current point
      followed by its trace is a walk toward the second anchor, one point
      per step still to take at most. */
  lemma {:induction false} TraceWalk(x0: nat, y0: nat, x1: nat, y1: nat, dx: int, dy: int, sx: int, sy: int,
                                     e0: int, x: int, y: int, err: int, u: nat, v: nat, n: nat)
    requires WalkAt(x0, y0, x1, y1, dx, dy, sx, sy, e0, x, y, err, u, v)
    requires n >= (dx - u) + (dy - v)
    ensures x >= 0 && y >= 0
    ensures var s := [Point(x, y)] + Trace(x1, y1, dx, dy, sx, sy, x, y, err, n);
      WalkTo(s, x0, y0, x1, y1) && |s| <= (dx - u) + (dy - v) + 1
    decreases n
  {
    AxisStep(x, x0, x1, sx, u, false);
    AxisStep(y, y0, y1, sy, v, false);
    if !(x == x1 && y == y1) {
      var stepX, stepY := 2 * err > -dx, 2 * err < dy;
      var x', u' := if stepX then x + sx else x, if stepX then u + 1 else u;
      var y', v' := if stepY then y + sy else y, if stepY then v + 1 else v;
      var err' := err - (if stepX then dy else 0) + (if stepY then dx else 0);
      WalkStep(x0, y0, x1, y1, dx, dy, sx, sy, e0, x, y, err, u, v, stepX, stepY, x', y', err', u', v');
      TraceStep(x1, y1, dx, dy, sx, sy, x, y, err, n, stepX, stepY, x', y', err');
      TraceWalk(x0, y0, x1, y1, dx, dy, sx, sy, e0, x', y', err', u', v', n - 1);
      var rest := [Point(x', y')] + Trace(x1, y1, dx, dy, sx, sy, x', y', err', n - 1);
      WalkCons(Point(x, y), rest, x0, y0, x1, y1);
    } else {
      assert [Point(x, y)] + Trace(x1, y1, dx, dy, sx, sy, x, y, err, n) == [Point(x1, y1)];
    }
  }

  /** The error term `gen_line` starts from: half the larger delta, with the
      sign of `-dy` when `dy` is at least `dx`, rounded toward zero. */
  function StartError(dx: int, dy: int): int
  {
    HalfTowardZero(if dx > dy then dx else -dy)
  }

  /** The exact footprint of the line from `(x0, y0)` to `(x1, y1)`: the
      start point, the points the loop pushes, and the end point again. */
  function LinePath(x0: u32, y0: u32, x1: u32, y1: u32): (line: seq<Point>)
    ensures |line| >= 2 && line[0] == Point(x0, y0) && line[|line| - 1] == Point(x1, y1)
  {
    var dx, dy := Abs(x0 - x1), Abs(y0 - y1);
    var sx, sy := (if x0 < x1 then 1 else -1), (if y0 < y1 then 1 else -1);
    [Point(x0, y0)] + Trace(x1, y1, dx, dy, sx, sy, x0, y0, StartError(dx, dy), dx + dy) + [Point(x1, y1)]
  }

  /** Everything the walk promises about the line from `(x0, y0)` to
      `(x1, y1)`. */
  ghost predicate LineShape(x0: u32, y0: u32, x1: u32, y1: u32, line: seq<Point>)
  {
    && 2 <= |line| <= Abs(x0 - x1) + Abs(y0 - y1) + 2
    && line[0] == Point(x0, y0)
    && line[|line| - 2] == Point(x1, y1) && line[|line| - 1] == Point(x1, y1)
    && (forall i :: 0 <= i < |line| ==> Between(line[i].x, x0, x1) && Between(line[i].y, y0, y1))
    && (forall i :: 0 <= i < |line| - 1 ==> Adjacent(line[i], line[i + 1]))
    && (forall i :: 0 <= i < |line| - 2 ==> Dist(line[i + 1], x1, y1) < Dist(line[i], x1, y1))
    && (x0 == x1 && y0 == y1 ==> line == [Point(x0, y0), Point(x0, y0)])
  }

  /** A walk from the first anchor, followed by the second anchor once more,
      has the shape of a line. */
  lemma WalkFinish(walk: seq<Point>, x0: u32, y0: u32, x1: u32, y1: u32)
    requires WalkTo(walk, x0, y0, x1, y1) && walk[0] == Point(x0, y0)
    requires |walk| <= Abs(x0 - x1) + Abs(y0 - y1) + 1
    ensures LineShape(x0, y0, x1, y1, walk + [Point(x1, y1)])
  {
  }

  /** `LinePath` has the shape of a line. */
  lemma LinePathShape(x0: u32, y0: u32, x1: u32, y1: u32)
    ensures LineShape(x0, y0, x1, y1, LinePath(x0, y0, x1, y1))
  {
    var dx, dy := Abs(x0 - x1), Abs(y0 - y1);
    var sx, sy := (if x0 < x1 then 1 else -1), (if y0 < y1 then 1 else -1);
    var e0 := StartError(dx, dy);
    var walk := [Point(x0, y0)] + Trace(x1, y1, dx, dy, sx, sy, x0, y0, e0, dx + dy);
    assert LinePath(x0, y0, x1, y1) == walk + [Point(x1, y1)];
    assert WalkAt(x0, y0, x1, y1, dx, dy, sx, sy, e0, x0, y0, e0, 0, 0);
    TraceWalk(x0, y0, x1, y1, dx, dy, sx, sy, e0, x0, y0, e0, 0, 0, dx + dy);
    WalkFinish(walk, x0, y0, x1, y1);
  }

  /** The diagonal from `(0, 0)` to `(2, 2)` is walked as a staircase, and
      its end point is pushed twice. */
  lemma DiagonalStaircase()
    ensures LinePath(0, 0, 2, 2) == [Point(0, 0), Point(0, 1), Point(1, 1), Point(1, 2), Point(2, 2), Point(2, 2)]
  {
    assert StartError(2, 2) == -1;
    assert Trace(2, 2, 2, 2, 1, 1, 2, 2, -1, 0) == [];
    assert Trace(2, 2, 2, 2, 1, 1, 1, 2, 1, 1) == [Point(2, 2)];
    assert Trace(2, 2, 2, 2, 1, 1, 1, 1, -1, 2) == [Point(1, 2), Point(2, 2)];
    assert Trace(2, 2, 2, 2, 1, 1, 0, 1, 1, 3) == [Point(1, 1), Point(1, 2), Point(2, 2)];
    assert Trace(2, 2, 2, 2, 1, 1, 0, 0, -1, 4) == [Point(0, 1), Point(1, 1), Point(1, 2), Point(2, 2)];
  }

  /** Everything `GenRect` promises about the rectangle `[x0, x1) x [y0, y1)`:
      exactly its points, in strictly increasing `(x, y)` order, so each
      once; reversed anchors are not swapped and give the empty footprint. */
  ghost predicate RectShape(x0: u32, y0: u32, x1: u32, y1: u32, rect: seq<Point>)
  {
    && (forall p :: p in rect <==> x0 <= p.x < x1 && y0 <= p.y < y1)
    && (forall i, j :: 0 <= i < j < |rect| ==> PointLess(rect[i], rect[j]))
    && |rect| == Span(x0, x1) * Span(y0, y1)
  }

  /** The all-octant integer line walker, `gen_line`: it pushes exactly
      `LinePath`. The walk starts at `(x0, y0)`, stays inside the anchors'
      bounding box (so each coordinate fits a `u32` again and the casts back
      lose nothing), moves to an 8-neighbour at each step, gets strictly
      closer to `(x1, y1)` at each step, and ends there. The end point is
      then pushed a second time, so the result always ends with two copies
      of `(x1, y1)`, and equal anchors give exactly two points. */
  method GenLine(x0: u32, y0: u32, x1: u32, y1: u32) returns (line: seq<Point>)
    ensures line == LinePath(x0, y0, x1, y1)
    ensures LineShape(x0, y0, x1, y1, line)
  {
    var x: int, y: int := x0, y0;
    var dx: int := Abs(x - x1);
    var dy: int := Abs(y - y1);
    var sx := if x < x1 then 1 else -1;
    var sy := if y < y1 then 1 else -1;
    var err := HalfTowardZero(if dx > dy then dx else -dy);
    ghost var e0 := err;
    ghost var u: nat, v: nat := 0, 0;
    ghost var n: nat := dx + dy;
    ghost var path := [Point(x0, y0)] + Trace(x1, y1, dx, dy, sx, sy, x0, y0, e0, dx + dy);
    LineStart(x0, y0, x1, y1, dx, dy, sx, sy, e0);
    line := [Point(x0, y0)];
    while !(x == x1 && y == y1)
      invariant LineLoop(x0, y0, x1, y1, dx, dy, sx, sy, e0, x, y, err, u, v, n, line, path)
      decreases n
    {
      x, y, err, u, v, n, line := LineAdvance(x0, y0, x1, y1, dx, dy, sx, sy, e0, x, y, err, u, v, n, line, path);
    }
    LineEnd(x0, y0, x1, y1, dx, dy, sx, sy, e0, x, y, err, u, v, n, line, path);
    line := line + [Point(x1, y1)];
    LinePathShape(x0, y0, x1, y1);
  }

  /** One turn of `gen_line`'s loop, away from the end point: the doubled
      error term decides whether the column steps (above `-dx`) and whether
      the row steps (below `dy`), and the new position is pushed. The turn
      keeps the loop's invariant with one turn fewer left. */
  method LineAdvance(x0: nat, y0: nat, x1: nat, y1: nat, dx: int, dy: int, sx: int, sy: int, ghost e0: int,
                     x: int, y: int, err: int, ghost u: nat, ghost v: nat, ghost n: nat,
                     line: seq<Point>, ghost path: seq<Point>)
      returns (x': int, y': int, err': int, ghost u': nat, ghost v': nat, ghost n': nat, line': seq<Point>)
    requires LineLoop(x0, y0, x1, y1, dx, dy, sx, sy, e0, x, y, err, u, v, n, line, path)
    requires !(x == x1 && y == y1)
    ensures LineLoop(x0, y0, x1, y1, dx, dy, sx, sy, e0, x', y', err', u', v', n', line', path)
    ensures n' < n
  {
    x', y', err', u', v' := x, y, err, u, v;
    var err2 := 2 * err;
    ghost var stepX, stepY := err2 > -dx, err2 < dy;
    if err2 > -dx {
      err' := err' - dy;
      x' := x' + sx;
      u' := u' + 1;
    }
    if err2 < dy {
      err' := err' + dx;
      y' := y' + sy;
      v' := v' + 1;
    }
    LineTurn(x0, y0, x1, y1, dx, dy, sx, sy, e0, x, y, err, u, v, n, line, path, stepX, stepY, x', y', err', u', v');
    line' := line + [Point(x', y')];
    n' := n - 1;
  }

  /** The half-open rectangle `[x0, x1) x [y0, y1)`, column by column. The
      result holds exactly the points of the rectangle, each once, in strictly
      increasing `(x, y)` order; reversed anchors are not swapped, they give
      the empty footprint. */
  method GenRect(x0: u32, y0: u32, x1: u32, y1: u32) returns (rect: seq<Point>)
    ensures RectShape(x0, y0, x1, y1, rect)
  {
    rect := [];
    var x := x0;
    while x < x1
      invariant x0 <= x && (x == x0 || x <= x1)
      invariant forall p :: p in rect <==> x0 <= p.x < x && y0 <= p.y < y1
      invariant forall i, j :: 0 <= i < j < |rect| ==> PointLess(rect[i], rect[j])
      invariant |rect| == (x - x0) * Span(y0, y1)
    {
      var y := y0;
      while y < y1
        invariant y0 <= y && (y == y0 || y <= y1)
        invariant forall p :: p in rect <==> (x0 <= p.x < x && y0 <= p.y < y1) || (p.x == x && y0 <= p.y < y)
        invariant forall i, j :: 0 <= i < j < |rect| ==> PointLess(rect[i], rect[j])
        invariant |rect| == (x - x0) * Span(y0, y1) + (y - y0)
      {
        rect := rect + [Point(x, y)];
        y := y + 1;
      }
      assert y0 < y1 ==> y == y1;
      assert |rect| == (x + 1 - x0) * Span(y0, y1);
      x := x + 1;
    }
  }
}
