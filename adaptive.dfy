/** The adaptive size controller: after ever longer runs of rejected
    proposals the maximum object size is shrunk, but never down to the
    minimum. */
module Adaptive {
  import opened Rasterizer

  function Pow2(k: nat): (r: nat)
    ensures r >= k + 1
  {
    if k == 0 then 1 else 2 * Pow2(k - 1)
  }

  /** `2^k * adapt_rate`: the number of rejections that must be exceeded
      before shrink number `k + 1` fires. With a positive rate it is at
      least `2^k`. */
  function Threshold(k: nat, rate: nat): (t: nat)
    ensures rate >= 1 ==> t >= Pow2(k)
  {
    assert rate >= 1 ==> Pow2(k) * rate >= Pow2(k) by {
      if rate >= 1 {
        assert Pow2(k) * rate == Pow2(k) + Pow2(k) * (rate - 1);
      }
    }
    Pow2(k) * rate
  }

  /** The trigger at line 195: adaptive mode is on and the rejections so far,
      `i - num_objs`, exceed the current threshold. A shrink therefore needs
      at least one rejection, and with a positive rate more than `k + 1` of
      them once `k` shrinks have happened. */
  function ShrinkDue(adaptive: bool, i: nat, numObjs: nat, k: nat, rate: nat): (due: bool)
    requires numObjs <= i
    ensures due ==> adaptive && numObjs < i
    ensures due && rate >= 1 ==> i - numObjs > k + 1
  {
    adaptive && i - numObjs > Threshold(k, rate)
  }

  /** The clamp after a shrink: a scaled maximum at or below the minimum is
      replaced by `min + 1`, so the maximum always stays above the minimum,
      and a scaled maximum above the minimum is kept as it is. */
  function ClampMax(scaled: u32, min: u32): (m: u32)
    requires min + 1 < U32_LIMIT
    ensures m > min
    ensures scaled > min ==> m == scaled
    ensures m == scaled || m == min + 1
  {
    if scaled <= min then min + 1 else scaled
  }

  /** A shrink whose scaled value is no larger than the old maximum never
      raises the maximum: the clamp only lifts values to `min + 1`, which
      the old maximum already reaches. */
  lemma ClampNeverGrows(scaled: u32, min: u32, max: u32)
    requires min < max && scaled <= max
    ensures ClampMax(scaled, min) <= max
  {
  }
}
