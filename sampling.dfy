/**
 * Frame selection of `preprocess_video`: the indices
 * `np.linspace(0, n - 1, 32, dtype=int)` of the frames fed to the detector.
 *
 * For a non-negative integer stop, numpy computes `i * (stop / (num - 1))`,
 * overwrites the last value with `stop` and floors; on these magnitudes the
 * floating-point product floors to the same integer as the exact quotient, so
 * the model uses integer division.
 */
module Sampling {
  import opened Config

  /** `np.linspace(0, stop, num, dtype=int)` for an integer stop >= 0 and num >= 2. */
  function Linspace(stop: nat, num: nat): seq<nat>
    requires num >= 2
  {
    seq(num, i requires 0 <= i < num => if i == num - 1 then stop else i * stop / (num - 1))
  }

  /** The indices of the frames sampled from a video with n >= 1 decoded frames. */
  function FrameIndices(n: nat): (idx: seq<nat>)
    requires n >= 1
    ensures |idx| == SequenceLength
  {
    Linspace(n - 1, SequenceLength)
  }

  // Integer-division facts used below.

  /** The quotient and remainder of x by d are the only such pair (x = d * q + r, 0 <= r < d). */
  lemma DivUnique(x: nat, d: nat, q: int, r: int)
    requires d > 0 && x == d * q + r && 0 <= r < d
    ensures x / d == q
  {
    var k := x / d - q;
    assert d * k == r - x % d;
  }

  lemma DivPlusMultiple(a: nat, b: nat, d: nat)
    requires d > 0
    ensures (d * a + b) / d == a + b / d
  {
    var q, r := b / d, b % d;
    assert d * a + b == d * (a + q) + r;
    DivUnique(d * a + b, d, a + q, r);
  }

  /** Adding less than d to x raises x / d by at most one. */
  lemma DivAddSmall(x: nat, r: nat, d: nat)
    requires d > 0 && r < d
    ensures x / d <= (x + r) / d <= x / d + 1
  {
    var q, s := x / d, x % d;
    assert x + r == d * q + (s + r);
    DivPlusMultiple(q, s + r, d);
    assert (s + r) / d <= 1;
  }

  lemma MulMonotone(i: nat, j: nat, m: nat)
    requires i <= j
    ensures i * m <= j * m
  {
    assert j * m == i * m + (j - i) * m;
  }

  lemma DivMonotone(a: nat, b: nat, d: nat)
    requires d > 0 && a <= b
    ensures a / d <= b / d
  {
    var qa, qb := a / d, b / d;
    if qb < qa {
      MulMonotone(qb + 1, qa, d);
    }
  }

  /** The i-th floor quotient never exceeds stop. */
  lemma QuotientBounded(i: nat, stop: nat, d: nat)
    requires 0 < d && i <= d
    ensures i * stop / d <= stop
  {
    MulMonotone(i, d, stop);
    DivMonotone(i * stop, d * stop, d);
    assert d * stop / d == stop by { DivPlusMultiple(stop, 0, d); }
  }

  /** Every sampled index is `floor(i * (n - 1) / 31)`: the last one is n - 1 by the formula too. */
  lemma IndexFormula(n: nat)
    requires n >= 1
    ensures forall i | 0 <= i < SequenceLength :: FrameIndices(n)[i] == i * (n - 1) / (SequenceLength - 1)
  {
    DivPlusMultiple(n - 1, 0, SequenceLength - 1);
    assert (SequenceLength - 1) * (n - 1) == (SequenceLength - 1) * (n - 1) + 0;
  }

  /**
   * Exactly 32 indices, each a frame of the video, starting at the first
   * frame and ending at the last, in non-decreasing order.
   */
  lemma IndicesInRangeAndOrdered(n: nat)
    requires n >= 1
    ensures |FrameIndices(n)| == SequenceLength
    ensures forall i | 0 <= i < SequenceLength :: FrameIndices(n)[i] < n
    ensures FrameIndices(n)[0] == 0 && FrameIndices(n)[SequenceLength - 1] == n - 1
    ensures forall i, j | 0 <= i <= j < SequenceLength :: FrameIndices(n)[i] <= FrameIndices(n)[j]
  {
    var idx, d := FrameIndices(n), SequenceLength - 1;
    forall i | 0 <= i < SequenceLength ensures idx[i] < n {
      if i < d {
        QuotientBounded(i, n - 1, d);
      }
    }
    IndexFormula(n);
    forall i, j | 0 <= i <= j < SequenceLength ensures idx[i] <= idx[j] {
      MulMonotone(i, j, n - 1);
      DivMonotone(i * (n - 1), j * (n - 1), d);
    }
  }

  /** A one-frame video samples its only frame 32 times. */
  lemma SingleFrameVideo()
    ensures forall i | 0 <= i < SequenceLength :: FrameIndices(1)[i] == 0
  {
  }

  /**
   * Consecutive indices are `(n - 1) / 31` or one more apart: the frames are
   * spread evenly over the video.
   */
  lemma EvenSpacing(n: nat, i: nat)
    requires n >= 1 && i + 1 < SequenceLength
    ensures var idx, q := FrameIndices(n), (n - 1) / (SequenceLength - 1);
      q <= idx[i + 1] - idx[i] <= q + 1
  {
    var d, m := SequenceLength - 1, n - 1;
    var q, r := m / d, m % d;
    IndexFormula(n);
    assert i * m == d * (i * q) + i * r;
    assert (i + 1) * m == d * ((i + 1) * q) + (i * r + r);
    DivPlusMultiple(i * q, i * r, d);
    DivPlusMultiple((i + 1) * q, i * r + r, d);
    DivAddSmall(i * r, r, d);
  }

  /** A video of at least 32 frames never has a frame sampled twice. */
  lemma LongVideoDistinctFrames(n: nat)
    requires n >= SequenceLength
    ensures forall i, j | 0 <= i < j < SequenceLength :: FrameIndices(n)[i] < FrameIndices(n)[j]
  {
    var idx := FrameIndices(n);
    forall i | 0 <= i < SequenceLength - 1 ensures idx[i] < idx[i + 1] {
      EvenSpacing(n, i);
    }
    StepwiseIncreasing(idx);
  }

  /** A video of at most 32 frames has every frame sampled at least once. */
  lemma ShortVideoEveryFrame(n: nat)
    requires 1 <= n <= SequenceLength
    ensures forall f | 0 <= f < n :: f in FrameIndices(n)
  {
    var idx := FrameIndices(n);
    IndicesInRangeAndOrdered(n);
    forall i | 0 <= i < SequenceLength - 1 ensures idx[i + 1] <= idx[i] + 1 {
      EvenSpacing(n, i);
      if n == SequenceLength {
        IndexFormula(n);
        DivPlusMultiple(i, 0, SequenceLength - 1);
        DivPlusMultiple(i + 1, 0, SequenceLength - 1);
      }
    }
    forall f | 0 <= f < n ensures f in idx {
      UnitStepsCover(idx, f);
    }
  }

  /** A sequence that starts at 0 and never rises by more than one passes every value up to its last. */
  lemma {:induction false} UnitStepsCover(s: seq<nat>, v: nat)
    requires |s| > 0 && s[0] == 0 && v <= s[|s| - 1]
    requires forall i | 0 <= i < |s| - 1 :: s[i + 1] <= s[i] + 1
    ensures v in s
  {
    var init := s[..|s| - 1];
    if v != s[|s| - 1] {
      assert |s| > 1;
      assert v <= init[|init| - 1];
      UnitStepsCover(init, v);
    }
  }
}
