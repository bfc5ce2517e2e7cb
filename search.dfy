/** One run of the approximation loop: the target image, the canvas being
    built, the size range and the counters, and the loop body that scores a
    proposal, adapts the size range and commits the proposal when it lowers
    the error over its own footprint. Proposals come from outside; how they
    are drawn at random is not part of this model. */
module Search {
  import opened Colors
  import opened Rasterizer
  import opened Canvas
  import opened Scoring
  import opened Adaptive

  /** A shape kind, its two anchors and its colour. */
  datatype Proposal = Proposal(kind: ShapeKind, x0: u32, y0: u32, x1: u32, y1: u32, color: Color)

  /** `fp` is the footprint the generator `p.kind` names produces for the
      proposal's anchors: exactly `LinePath` for a line, and exactly the
      rectangle's points in order for a rectangle, with everything `GenLine`
      or `GenRect` promises about them. */
  ghost predicate Footprint(p: Proposal, fp: seq<Point>)
  {
    match p.kind
    case Line => fp == LinePath(p.x0, p.y0, p.x1, p.y1) && LineShape(p.x0, p.y0, p.x1, p.y1, fp)
    case Rectangle => RectShape(p.x0, p.y0, p.x1, p.y1, fp)
  }

  /** Rasterize a proposal with the generator its kind names (line 170). A
      rectangle's footprint names each point once. */
  method Rasterize(p: Proposal) returns (fp: seq<Point>)
    ensures Footprint(p, fp)
    ensures p.kind == Rectangle ==> Distinct(fp)
  {
    match p.kind
    case Line => fp := GenLine(p.x0, p.y0, p.x1, p.y1);
    case Rectangle => fp := GenRect(p.x0, p.y0, p.x1, p.y1);
  }

  /** The canvas after a run: starting from `g`, each committed footprint is
      painted in its proposal's colour, in order. */
  function Replay(g: Grid, ps: seq<Proposal>, fps: seq<seq<Point>>, cs: seq<bool>): (r: Grid)
    requires |ps| == |fps| == |cs|
    ensures SameShape(r, g)
  {
    if ps == [] then g
    else
      var n := |ps| - 1;
      var before := Replay(g, ps[..n], fps[..n], cs[..n]);
      if cs[n] then Paint(before, fps[n], ps[n].color) else before
  }

  /** The number of `true` entries in a run's log of commits or shrinks. */
  function Count(bs: seq<bool>): (n: nat)
    ensures n <= |bs|
  {
    if bs == [] then 0 else Count(bs[..|bs| - 1]) + (if bs[|bs| - 1] then 1 else 0)
  }

  /** The acceptance test at line 204, applied to footprint `fp` of `p` over
      canvas `g`. */
  ghost predicate Decided(t: Grid, g: Grid, p: Proposal, fp: seq<Point>, committed: bool)
  {
    SameShape(t, g) && (committed <==> ColorError(t, fp, p.color) < CanvasError(t, g, fp))
  }

  /** A log of a run against target `t` from canvas `g`: each entry's
      footprint is one its proposal names, and its decision is the
      acceptance test over the canvas the earlier entries left. */
  ghost predicate RunLog(t: Grid, g: Grid, ps: seq<Proposal>, fps: seq<seq<Point>>, cs: seq<bool>)
  {
    && |ps| == |fps| == |cs|
    && (ps != [] ==>
          var n := |ps| - 1;
          && RunLog(t, g, ps[..n], fps[..n], cs[..n])
          && Footprint(ps[n], fps[n])
          && Decided(t, Replay(g, ps[..n], fps[..n], cs[..n]), ps[n], fps[n], cs[n]))
  }

  /** A log of the shrinks of a run that started at iteration `i0` with
      `n0` objects and `k0` shrinks done, whose commits are logged in `cs`:
      entry `n` records whether the trigger at line 195 held at iteration
      `i0 + n`, with the objects and shrinks the earlier entries left. */
  ghost predicate ShrinkLog(adaptive: bool, rate: nat, i0: nat, n0: nat, k0: nat, cs: seq<bool>, ss: seq<bool>)
  {
    && |cs| == |ss|
    && (ss != [] ==>
          var n := |ss| - 1;
          && ShrinkLog(adaptive, rate, i0, n0, k0, cs[..n], ss[..n])
          && n0 + Count(cs[..n]) <= i0 + n
          && ss[n] == ShrinkDue(adaptive, i0 + n, n0 + Count(cs[..n]), k0 + Count(ss[..n]), rate))
  }

  /** The maximum object size after the shrinks logged in `ss`, starting
      from `m0`: each logged shrink scales the maximum and clamps it above
      `min`. The result stays above `min`; with no shrink it is `m0`; and
      when no scaled value exceeds the value it came from it is at most
      `m0`. */
  function Shrunk(m0: u32, min: u32, shrink: u32 -> u32, ss: seq<bool>): (m: u32)
    requires min < m0
    ensures min < m
    ensures Count(ss) == 0 ==> m == m0
    ensures (forall v: u32 :: shrink(v) <= v) ==> m <= m0
  {
    if ss == [] then m0
    else
      var n := |ss| - 1;
      var m := Shrunk(m0, min, shrink, ss[..n]);
      if ss[n] then ClampMax(shrink(m), min) else m
  }

  /** A run in fixed-size mode logs no shrink. */
  lemma {:induction false} FixedNeverShrinks(rate: nat, i0: nat, n0: nat, k0: nat, cs: seq<bool>, ss: seq<bool>)
    requires ShrinkLog(false, rate, i0, n0, k0, cs, ss)
    ensures Count(ss) == 0
  {
    if ss != [] {
      var n := |ss| - 1;
      FixedNeverShrinks(rate, i0, n0, k0, cs[..n], ss[..n]);
    }
  }

  /** Appending one entry to a log adds one to its count exactly when the
      entry is `true`. */
  lemma CountSnoc(bs: seq<bool>, b: bool)
    ensures Count(bs + [b]) == Count(bs) + (if b then 1 else 0)
  {
    assert (bs + [b])[..|bs|] == bs;
  }

  /** One more shrink flag scales and clamps the maximum once more when it is
      set, and leaves it alone otherwise. */
  lemma ShrunkSnoc(m0: u32, min: u32, shrink: u32 -> u32, ss: seq<bool>, shrunk: bool)
    requires min < m0
    ensures Shrunk(m0, min, shrink, ss + [shrunk])
      == if shrunk then ClampMax(shrink(Shrunk(m0, min, shrink, ss)), min) else Shrunk(m0, min, shrink, ss)
  {
    assert (ss + [shrunk])[..|ss|] == ss;
  }

  /** One more turn extends the shrink log with the trigger's value at the
      next iteration, whatever that turn decides. */
  lemma ShrinkStep(adaptive: bool, rate: nat, i0: nat, n0: nat, k0: nat, cs: seq<bool>, ss: seq<bool>,
                   i: nat, numObjs: nat, k: nat, shrunk: bool)
    requires ShrinkLog(adaptive, rate, i0, n0, k0, cs, ss)
    requires i == i0 + |ss| && numObjs == n0 + Count(cs) && k == k0 + Count(ss) && numObjs <= i
    requires shrunk == ShrinkDue(adaptive, i, numObjs, k, rate)
    ensures forall committed :: ShrinkLog(adaptive, rate, i0, n0, k0, cs + [committed], ss + [shrunk])
  {
    forall committed: bool
      ensures ShrinkLog(adaptive, rate, i0, n0, k0, cs + [committed], ss + [shrunk])
    {
      var cs', ss' := cs + [committed], ss + [shrunk];
      assert cs'[..|cs|] == cs && ss'[..|ss|] == ss;
    }
  }

  class Redraw {
    /** The image being approximated; never written. */
    const target: array2<Color>
    /** The image being built. */
    const canvas: array2<Color>
    const minSize: u32
    const adaptive: bool
    const adaptRate: nat
    /** The current maximum object size. */
    var maxSize: u32
    /** Index of the next iteration, `i`. */
    var iteration: nat
    /** Proposals committed so far, `num_objs`. */
    var numObjs: nat
    /** Shrinks so far, `adapt_counter`. */
    var adaptCounter: nat

    /** The run's invariant: two distinct images of one size, a maximum
        above the minimum, no more commits than iterations, and, once the
        size has been shrunk `k` times, more rejections so far than the
        threshold that triggered the last shrink. */
    ghost predicate Valid()
      reads this
    {
      && target != canvas
      && canvas.Length0 == target.Length0 && canvas.Length1 == target.Length1
      && minSize < maxSize
      && numObjs <= iteration
      && (adaptCounter > 0 ==> Threshold(adaptCounter - 1, adaptRate) < iteration - numObjs)
    }

    /** A black canvas of the target's size and all counters at zero. The
        size range needs `min < max`: otherwise the source's offset range
        `[min / max, 1)` is empty and building it fails. */
    constructor (target: array2<Color>, minSize: u32, maxSize: u32, adaptive: bool, adaptRate: nat)
      requires minSize < maxSize
      ensures Valid() && fresh(canvas)
      ensures this.target == target && this.minSize == minSize && this.maxSize == maxSize
      ensures this.adaptive == adaptive && this.adaptRate == adaptRate
      ensures iteration == 0 && numObjs == 0 && adaptCounter == 0
      ensures forall x, y :: 0 <= x < canvas.Length0 && 0 <= y < canvas.Length1 ==> canvas[x, y] == Black
    {
      this.target := target;
      this.canvas := new Color[target.Length0, target.Length1]((x, y) => Black);
      this.minSize, this.maxSize := minSize, maxSize;
      this.adaptive, this.adaptRate := adaptive, adaptRate;
      iteration, numObjs, adaptCounter := 0, 0, 0;
    }

    /** One iteration of the main loop for the proposal `p`. `shrink` stands
        for the floating-point `max * adapt_coeff` truncated to `u32`.
        The proposal is committed exactly when its colour's error over the
        footprint is below the canvas's; a commit paints the footprint,
        counts one more object, and leaves the canvas error over the
        footprint equal to the candidate error, so strictly lower than it
        was; for a rectangle, which names each point once, the error of the
        whole canvas drops too. A rejection leaves the canvas and the count alone. A shrink
        fires exactly when the trigger holds, bumps the shrink counter by
        one and leaves the maximum above the minimum. */
    method Step(p: Proposal, shrink: u32 -> u32) returns (fp: seq<Point>, committed: bool)
      requires Valid()
      modifies this, canvas
      ensures Valid()
      ensures iteration == old(iteration) + 1
      ensures View(target) == old(View(target))
      ensures Footprint(p, fp)
      ensures committed <==> ColorError(View(target), fp, p.color) < CanvasError(View(target), old(View(canvas)), fp)
      ensures committed ==> View(canvas) == Paint(old(View(canvas)), fp, p.color) && numObjs == old(numObjs) + 1
      ensures committed ==> CanvasError(View(target), View(canvas), fp) == ColorError(View(target), fp, p.color)
      ensures committed && p.kind == Rectangle ==>
        ImageError(View(target), View(canvas)) < old(ImageError(View(target), View(canvas)))
      ensures !committed ==> View(canvas) == old(View(canvas)) && numObjs == old(numObjs)
      ensures old(ShrinkDue(adaptive, iteration, numObjs, adaptCounter, adaptRate)) ==>
        adaptCounter == old(adaptCounter) + 1 && maxSize == ClampMax(shrink(old(maxSize)), minSize)
      ensures !old(ShrinkDue(adaptive, iteration, numObjs, adaptCounter, adaptRate)) ==>
        adaptCounter == old(adaptCounter) && maxSize == old(maxSize)
      ensures iteration - numObjs >= old(iteration - numObjs)
    {
      ghost var t, before := View(target), View(canvas);
      fp := Rasterize(p);
      var dBuf, dCanv := Score(target, canvas, fp, p.color);
      Adapt(shrink);
      assert View(target) == t && View(canvas) == before;
      committed := dCanv < dBuf;
      if committed {
        Commit(fp, p.color);
        if p.kind == Rectangle {
          CommitLowersImageError(t, before, fp, p.color);
        }
      }
      iteration := iteration + 1;
    }

    /** Lines 195-201: when the trigger holds, shrink the maximum, clamp it
        above the minimum and count the shrink. */
    method Adapt(shrink: u32 -> u32)
      requires Valid()
      modifies this`maxSize, this`adaptCounter
      ensures Valid()
      ensures old(ShrinkDue(adaptive, iteration, numObjs, adaptCounter, adaptRate)) ==>
        adaptCounter == old(adaptCounter) + 1 && maxSize == ClampMax(shrink(old(maxSize)), minSize)
      ensures !old(ShrinkDue(adaptive, iteration, numObjs, adaptCounter, adaptRate)) ==>
        adaptCounter == old(adaptCounter) && maxSize == old(maxSize)
    {
      if adaptive && iteration - numObjs > Pow2(adaptCounter) * adaptRate {
        maxSize := ClampMax(shrink(maxSize), minSize);
        adaptCounter := adaptCounter + 1;
      }
    }

    /** Lines 204-206 after the test: draw the proposal and count it. The
        canvas error over the footprint becomes the candidate error. */
    method Commit(fp: seq<Point>, color: Color)
      requires target != canvas
      requires canvas.Length0 == target.Length0 && canvas.Length1 == target.Length1
      modifies this`numObjs, canvas
      ensures numObjs == old(numObjs) + 1
      ensures View(target) == old(View(target))
      ensures View(canvas) == Paint(old(View(canvas)), fp, color)
      ensures CanvasError(View(target), View(canvas), fp) == ColorError(View(target), fp, color)
    {
      ghost var before := View(canvas);
      Draw(canvas, fp, color);
      CommittedError(View(target), before, fp, color);
      numObjs := numObjs + 1;
    }

    /** The main loop over a sequence of proposals, one iteration each. It
        returns each proposal's footprint, whether it was committed, and
        whether the size controller shrank the maximum in that iteration.
        Each footprint is the one its proposal names, and each decision is
        the acceptance test over the canvas as the earlier proposals left it.
        The canvas ends as the old canvas with the committed footprints
        painted in order, and `num_objs` grows by the number of commits. Each
        shrink flag is the trigger over the iteration, objects and shrinks
        the earlier iterations left; `adapt_counter` grows by the number of
        shrinks, and the maximum is the old one scaled and clamped once per
        shrink, in order. So when every scaled maximum is no larger than the
        maximum it came from, the maximum never grows; in fixed-size mode
        neither it nor the counter changes; a run of rectangles never raises
        the error of the whole canvas; and with a positive rate the shrinks
        stay logarithmic in the rejections. */
    method Run(proposals: seq<Proposal>, shrink: u32 -> u32)
        returns (fps: seq<seq<Point>>, commits: seq<bool>, shrinks: seq<bool>)
      requires Valid()
      modifies this, canvas
      ensures Valid()
      ensures |fps| == |commits| == |shrinks| == |proposals|
      ensures iteration == old(iteration) + |proposals|
      ensures View(target) == old(View(target))
      ensures RunLog(View(target), old(View(canvas)), proposals, fps, commits)
      ensures View(canvas) == Replay(old(View(canvas)), proposals, fps, commits)
      ensures numObjs == old(numObjs) + Count(commits)
      ensures ShrinkLog(adaptive, adaptRate, old(iteration), old(numObjs), old(adaptCounter), commits, shrinks)
      ensures adaptCounter == old(adaptCounter) + Count(shrinks)
      ensures maxSize == Shrunk(old(maxSize), minSize, shrink, shrinks)
      ensures (forall m: u32 :: shrink(m) <= m) ==> maxSize <= old(maxSize)
      ensures !adaptive ==> maxSize == old(maxSize) && adaptCounter == old(adaptCounter)
      ensures (forall k :: 0 <= k < |proposals| ==> proposals[k].kind == Rectangle) ==>
        ImageError(View(target), View(canvas)) <= old(ImageError(View(target), View(canvas)))
      ensures adaptRate >= 1 ==> adaptCounter <= iteration - numObjs
    {
      ghost var t, g0 := View(target), View(canvas);
      fps, commits, shrinks := [], [], [];
      for k := 0 to |proposals|
        invariant Valid()
        invariant |fps| == |commits| == |shrinks| == k
        invariant iteration == old(iteration) + k
        invariant View(target) == t
        invariant RunLog(t, g0, proposals[..k], fps, commits)
        invariant View(canvas) == Replay(g0, proposals[..k], fps, commits)
        invariant numObjs == old(numObjs) + Count(commits)
        invariant ShrinkLog(adaptive, adaptRate, old(iteration), old(numObjs), old(adaptCounter), commits, shrinks)
        invariant adaptCounter == old(adaptCounter) + Count(shrinks)
        invariant maxSize == Shrunk(old(maxSize), minSize, shrink, shrinks)
        invariant (forall j :: 0 <= j < |proposals| ==> proposals[j].kind == Rectangle) ==>
          ImageError(t, View(canvas)) <= ImageError(t, g0)
      {
        fps, commits, shrinks :=
          Turn(t, g0, old(iteration), old(numObjs), old(adaptCounter), old(maxSize), proposals, k, fps, commits, shrinks, shrink);
      }
      assert proposals[..|proposals|] == proposals;
      if !adaptive {
        FixedNeverShrinks(adaptRate, old(iteration), old(numObjs), old(adaptCounter), commits, shrinks);
      }
      if adaptRate >= 1 {
        ShrinksLogarithmic();
      }
    }

    /** One turn of `Run`'s loop: `Step` on the `k`-th proposal, whose
        footprint, decision and shrink flag extend the logs of the run so
        far, which started at iteration `i0` with `n0` objects, `k0` shrinks
        and maximum `m0`. */
    method Turn(ghost t: Grid, ghost g0: Grid, ghost i0: nat, ghost n0: nat, ghost k0: nat, ghost m0: u32,
                ps: seq<Proposal>, k: nat, fps: seq<seq<Point>>, commits: seq<bool>, shrinks: seq<bool>,
                shrink: u32 -> u32) returns (fps': seq<seq<Point>>, commits': seq<bool>, shrinks': seq<bool>)
      requires Valid() && k < |ps| && |fps| == |commits| == |shrinks| == k
      requires View(target) == t
      requires RunLog(t, g0, ps[..k], fps, commits)
      requires View(canvas) == Replay(g0, ps[..k], fps, commits)
      requires minSize < m0
      requires iteration == i0 + k && numObjs == n0 + Count(commits)
      requires ShrinkLog(adaptive, adaptRate, i0, n0, k0, commits, shrinks)
      requires adaptCounter == k0 + Count(shrinks)
      requires maxSize == Shrunk(m0, minSize, shrink, shrinks)
      modifies this, canvas
      ensures Valid()
      ensures |fps'| == |commits'| == |shrinks'| == k + 1
      ensures iteration == old(iteration) + 1
      ensures View(target) == t
      ensures RunLog(t, g0, ps[..k + 1], fps', commits')
      ensures View(canvas) == Replay(g0, ps[..k + 1], fps', commits')
      ensures numObjs == n0 + Count(commits')
      ensures ShrinkLog(adaptive, adaptRate, i0, n0, k0, commits', shrinks')
      ensures adaptCounter == k0 + Count(shrinks')
      ensures maxSize == Shrunk(m0, minSize, shrink, shrinks')
      ensures ps[k].kind == Rectangle ==> ImageError(t, View(canvas)) <= old(ImageError(t, View(canvas)))
    {
      ghost var before := View(canvas);
      var shrunk := ShrinkDue(adaptive, iteration, numObjs, adaptCounter, adaptRate);
      ShrinkStep(adaptive, adaptRate, i0, n0, k0, commits, shrinks, iteration, numObjs, adaptCounter, shrunk);
      CountSnoc(shrinks, shrunk);
      ShrunkSnoc(m0, minSize, shrink, shrinks, shrunk);
      var fp, committed := Step(ps[k], shrink);
      RunStep(t, g0, ps, fps, commits, k, fp, committed, before, View(canvas));
      fps', commits', shrinks' := fps + [fp], commits + [committed], shrinks + [shrunk];
    }

    /** With a positive rate, the shrinks are logarithmic in the rejections:
        after `k` shrinks more than `2^(k - 1)` proposals have been rejected,
        so there are never more shrinks than rejections. */
    lemma ShrinksLogarithmic()
      requires Valid() && adaptRate >= 1
      ensures adaptCounter > 0 ==> Pow2(adaptCounter - 1) < iteration - numObjs
      ensures adaptCounter <= iteration - numObjs
    {
      if adaptCounter > 0 {
        assert Threshold(adaptCounter - 1, adaptRate) >= Pow2(adaptCounter - 1);
      }
    }
  }

  /** A whole iteration end to end, from a fresh canvas: against a 2x2
      target of one colour `c`, a rectangle of colour `c` covering the image
      scores `d_canv = 0`, and the all-black canvas scores `d_buf > 0`
      exactly when `c` is not black. So it is committed exactly then, and
      either way the canvas ends equal to the target. */
  method UniformSquare(c: Color) returns (committed: bool, pixels: seq<Color>)
    ensures committed <==> c != Black
    ensures pixels == [c, c, c, c]
  {
    var target := new Color[2, 2]((x, y) => c);
    var r := new Redraw(target, 1, 10, false, 1);
    ghost var t, g := View(target), View(r.canvas);
    assert forall x, y :: 0 <= x < 2 && 0 <= y < 2 ==> t[x][y] == c && g[x][y] == Black;
    var fp;
    fp, committed := r.Step(Proposal(Rectangle, 0, 0, 2, 2, c), m => m);
    SquareFootprint(fp, c);
    SquareScores(t, g, fp, c);
    ghost var h := View(r.canvas);
    assert h == if committed then Paint(g, fp, c) else g;
    pixels := [r.canvas[0, 0], r.canvas[0, 1], r.canvas[1, 0], r.canvas[1, 1]];
    assert pixels == [h[0][0], h[0][1], h[1][0], h[1][1]];
  }

  /** The rectangle from `(0, 0)` to `(2, 2)` names the four pixels of a
      2x2 image. */
  lemma SquareFootprint(fp: seq<Point>, c: Color)
    requires Footprint(Proposal(Rectangle, 0, 0, 2, 2, c), fp)
    ensures Point(0, 0) in fp && Point(0, 1) in fp && Point(1, 0) in fp && Point(1, 1) in fp
  {
    assert RectShape(0, 0, 2, 2, fp);
  }

  /** Against a 2x2 target all of colour `c` and an all-black canvas, over a
      footprint holding `(0, 0)`: `c` scores zero, and the canvas scores
      above zero exactly when `c` is not black. */
  lemma SquareScores(t: Grid, g: Grid, fp: seq<Point>, c: Color)
    requires |t| == 2 && |g| == 2 && |t[0]| == |t[1]| == |g[0]| == |g[1]| == 2
    requires forall x, y :: 0 <= x < 2 && 0 <= y < 2 ==> t[x][y] == c && g[x][y] == Black
    requires Point(0, 0) in fp
    ensures ColorError(t, fp, c) == 0
    ensures CanvasError(t, g, fp) > 0 <==> c != Black
  {
    SquareColorError(t, g, fp, c);
    if c == Black {
      SquareBlackError(t, g, fp);
    } else {
      CanvasScores(t, g, fp, c);
    }
  }

  /** Against a 2x2 target all of colour `c`, `c` scores zero. */
  lemma SquareColorError(t: Grid, g: Grid, fp: seq<Point>, c: Color)
    requires |t| == 2 && |t[0]| == |t[1]| == 2
    requires forall x, y :: 0 <= x < 2 && 0 <= y < 2 ==> t[x][y] == c
    ensures ColorError(t, fp, c) == 0
  {
    ExactScoresZero(t, fp, c);
  }

  /** An all-black canvas scores zero against an all-black 2x2 target. */
  lemma SquareBlackError(t: Grid, g: Grid, fp: seq<Point>)
    requires |t| == 2 && |g| == 2 && |t[0]| == |t[1]| == |g[0]| == |g[1]| == 2
    requires forall x, y :: 0 <= x < 2 && 0 <= y < 2 ==> t[x][y] == Black && g[x][y] == Black
    ensures CanvasError(t, g, fp) == 0
  {
    ExactScoresZero(t, fp, Black);
    MatchingError(t, g, fp, Black);
  }

  /** Against a target of colour `c` at `(0, 0)` and a canvas of another
      colour there, a footprint holding `(0, 0)` has a positive canvas
      error. */
  lemma CanvasScores(t: Grid, g: Grid, fp: seq<Point>, c: Color)
    requires SameShape(t, g) && |t| > 0 && |t[0]| > 0
    requires t[0][0] == c && g[0][0] != c
    requires Point(0, 0) in fp
    ensures CanvasError(t, g, fp) > 0
  {
    var i :| 0 <= i < |fp| && fp[i] == Point(0, 0);
    TermWithinError(t, g, fp, i);
  }

  /** One turn of `Run`'s loop: the new footprint and decision extend the
      log, and the canvas `after` the turn is the replay of the longer run. */
  lemma RunStep(t: Grid, g0: Grid, ps: seq<Proposal>, fps: seq<seq<Point>>, cs: seq<bool>, k: nat,
                fp: seq<Point>, committed: bool, before: Grid, after: Grid)
    requires k < |ps|
    requires RunLog(t, g0, ps[..k], fps, cs)
    requires before == Replay(g0, ps[..k], fps, cs)
    requires Footprint(ps[k], fp)
    requires Decided(t, before, ps[k], fp, committed)
    requires after == if committed then Paint(before, fp, ps[k].color) else before
    ensures RunLog(t, g0, ps[..k + 1], fps + [fp], cs + [committed])
    ensures after == Replay(g0, ps[..k + 1], fps + [fp], cs + [committed])
    ensures Count(cs + [committed]) == Count(cs) + (if committed then 1 else 0)
  {
    CountSnoc(cs, committed);
    var ps', fps', cs' := ps[..k + 1], fps + [fp], cs + [committed];
    assert ps'[..k] == ps[..k] && fps'[..k] == fps && cs'[..k] == cs;
  }
}
