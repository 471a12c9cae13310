/**
 * sample_uniformly (src/mosaic_creator.py, lines 78-94): keep the list when it
 * is no longer than the requested count, otherwise pick `num_samples` images
 * at evenly spaced positions `int(i * (n / num_samples))`. The real-valued
 * step is modelled with exact arithmetic: the position is floor(i * n / k).
 */
module Sampler {
  import opened DivMod

  lemma PickInRange(i: nat, n: nat, k: nat)
    requires i < k
    ensures 0 <= i * n / k && (n > 0 ==> i * n / k < n)
  {
    MulIsMonotonic(0, i, n);
    DivIsMonotonic(0, i * n, k);
    if n > 0 {
      MulIsMonotonic(i, k - 1, n);
      assert (k - 1) * n + n == k * n;
      DivBelow(i * n, n, k);
    }
  }

  /** The position of the i-th pick among `n` images when `k` are wanted. */
  function SourceIndex(i: nat, n: nat, k: nat): (j: nat)
    requires i < k
    ensures j < n || n == 0
  {
    PickInRange(i, n, k);
    i * n / k
  }

  /**
   * The sampled list. A `num_samples` of zero with a non-empty list divides by
   * zero in the source, so callers must not ask for it; a negative one gives an
   * empty range and so an empty list.
   */
  function SampleUniformly<T>(images: seq<T>, numSamples: int): (sampled: seq<T>)
    requires |images| <= numSamples || numSamples != 0
    ensures |images| <= numSamples ==> sampled == images
    ensures numSamples >= 0 ==> |sampled| == if |images| <= numSamples then |images| else numSamples
    ensures numSamples < 0 ==> sampled == []
    ensures |images| > numSamples > 0 ==>
      forall i :: 0 <= i < numSamples ==> sampled[i] == images[SourceIndex(i, |images|, numSamples)]
  {
    var n := |images|;
    if n <= numSamples then images
    else if numSamples < 0 then []
    else seq(numSamples, i requires 0 <= i < numSamples => images[SourceIndex(i, n, numSamples)])
  }

  /** The first pick is the first image. */
  lemma FirstPickIsFirst(n: nat, k: nat)
    requires n > k > 0
    ensures SourceIndex(0, n, k) == 0
  {
  }

  /**
   * Consecutive picks are `n / k` or `n / k + 1` apart: at least one apart, so
   * the positions strictly increase, and never more than one stride plus one.
   */
  lemma {:induction false} PickGap(i: nat, n: nat, k: nat)
    requires n > k > 0 && i + 1 < k
    ensures n / k >= 1
    ensures n / k <= SourceIndex(i + 1, n, k) - SourceIndex(i, n, k) <= n / k + 1
  {
    DivIsMonotonic(k, n, k);
    DivModOfBlock(1, 0, k);
    assert (i + 1) * n == i * n + n;
    DivOfSum(i * n, n, k);
  }

  /** The positions of the picks strictly increase, so the sample keeps the input order. */
  lemma {:induction false} PicksIncrease(i: nat, j: nat, n: nat, k: nat)
    requires n > k > 0 && i < j < k
    ensures SourceIndex(i, n, k) < SourceIndex(j, n, k)
    decreases j - i
  {
    PickGap(j - 1, n, k);
    if i < j - 1 {
      PicksIncrease(i, j - 1, n, k);
    }
  }

  /** The last pick is within one stride (rounded up) of the end of the list. */
  lemma LastPickNearEnd(n: nat, k: nat)
    requires n > k > 0
    ensures n - SourceIndex(k - 1, n, k) <= n / k + 1
  {
    assert (k - 1) * n + n == k * n;
    DivModOfBlock(n, 0, k);
    DivOfSum((k - 1) * n, n, k);
  }

  /**
   * With more images than wanted, the sample is exactly `k` of them, taken at
   * strictly increasing positions that start at 0 and stay below `n`.
   */
  lemma SampleIsSpreadSubsequence<T>(images: seq<T>, k: nat)
    requires |images| > k > 0
    ensures var sampled, n := SampleUniformly(images, k), |images|;
      && |sampled| == k
      && SourceIndex(0, n, k) == 0
      && (forall i :: 0 <= i < k ==> SourceIndex(i, n, k) < n && sampled[i] == images[SourceIndex(i, n, k)])
      && (forall i, j :: 0 <= i < j < k ==> SourceIndex(i, n, k) < SourceIndex(j, n, k))
  {
    var n := |images|;
    forall i, j | 0 <= i < j < k ensures SourceIndex(i, n, k) < SourceIndex(j, n, k) {
      PicksIncrease(i, j, n, k);
    }
  }
}
