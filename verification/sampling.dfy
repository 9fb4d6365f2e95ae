/**
 * The sizing and sampling arithmetic of `convert_to_css`: the output grid
 * width, the frame stride, and which frame indices are encoded.
 */
module Sampling {
  import opened Wrappers
  import opened Arith

  /**
   * `int(width * result_height / height)`: true division then truncation,
   * which for non-negative operands is the floor of the exact quotient.
   * The source raises ZeroDivisionError when `height` is 0, hence the
   * precondition; the converter checks it first.
   */
  function ResultWidth(width: nat, resultHeight: nat, height: nat): (w: nat)
    requires height > 0
    ensures w * height <= width * resultHeight < (w + 1) * height
  {
    width * resultHeight / height
  }

  function Abs(x: int): nat
  {
    if x < 0 then -x else x
  }

  /** `k` is a nearest integer to `n / d`, and an even one on an exact tie. */
  predicate RoundsHalfEven(n: nat, d: nat, k: int)
    requires d > 0
  {
    && 2 * Abs(n - k * d) <= d
    && (2 * Abs(n - k * d) == d ==> k % 2 == 0)
  }

  /** Python's `round(n / d)` on the exact ratio of two integers: round half to even. */
  function RoundHalfEven(n: nat, d: nat): (k: nat)
    requires d > 0
    ensures RoundsHalfEven(n, d, k)
  {
    var q := n / d;
    var m := n % d;
    DivMod(n, d);
    Distribute(q, d);
    assert n - q * d == m && n - (q + 1) * d == m - d;
    if 2 * m < d then q
    else if 2 * m > d then q + 1
    else if q % 2 == 0 then q
    else q + 1
  }

  /** An integer two or more steps below, or one or more above, the quotient misses by more than half. */
  lemma TooFar(t: int, d: int, m: int)
    requires d > 0 && 0 <= m < d
    requires t >= 1 || t <= -2
    ensures 2 * Abs(t * d + m) > d
  {
    if t >= 1 {
      MulAtLeast(t, d);
    } else {
      MulAtLeast(-t - 1, d);
      assert t * d == -((-t - 1) * d) - d;
    }
  }

  /** Round half to even is the only integer with that property. */
  lemma RoundHalfEvenUnique(n: nat, d: nat, k: int)
    requires d > 0
    requires RoundsHalfEven(n, d, k)
    ensures k == RoundHalfEven(n, d)
  {
    var q := n / d;
    var m := n % d;
    var t := q - k;
    assert n - k * d == t * d + m by {
      assert n == q * d + m;
      assert t * d == q * d - k * d;
    }
    if t >= 1 || t <= -2 {
      TooFar(t, d, m);
      assert false;
    }
    if t == 0 {
      assert n - k * d == m;
    } else {
      assert n - k * d == m - d;
    }
  }

  /**
   * The stride `round(nb_frames / nb_result_frames)` with
   * `nb_result_frames = video_duration * result_fps`. None when that
   * expression cannot be used as a modulus: `nb_result_frames` is 0 (the
   * division raises) or the rounded ratio is 0 (`i % 0` raises).
   */
  function Stride(nbFrames: nat, duration: nat, fps: nat): (s: Option<nat>)
    ensures s.None? <==> duration * fps == 0 || 2 * nbFrames <= duration * fps
    ensures s.Some? ==> s.value >= 1 && RoundsHalfEven(nbFrames, duration * fps, s.value)
  {
    var total := duration * fps;
    if total == 0 then None
    else
      var k := RoundHalfEven(nbFrames, total);
      if k == 0 then None else Some(k)
  }

  /** The sampling predicate of the worker loop: `i % stride == 0`. */
  predicate IsSampled(i: nat, stride: nat)
    requires stride >= 1
  {
    i % stride == 0
  }

  /**
   * The sampled indices of `[lo, hi)` in increasing order, as a loop over
   * `range(lo, hi)` visits them: exactly the indices of the range that the
   * sampling predicate accepts, each once.
   */
  function SampledIndices(lo: nat, hi: nat, stride: nat): (r: seq<nat>)
    requires stride >= 1
    ensures forall k :: 0 <= k < |r| ==> lo <= r[k] < hi
    decreases hi - lo
  {
    if lo >= hi then []
    else (if IsSampled(lo, stride) then [lo] else []) + SampledIndices(lo + 1, hi, stride)
  }

  /**
   * The sampled indices are exactly the accepted indices of the range:
   * each listed index lies in the range and is accepted, the list strictly
   * increases, and no accepted index of the range is missing.
   */
  lemma {:induction false} SampledIndicesSpec(lo: nat, hi: nat, stride: nat)
    requires stride >= 1
    ensures var r := SampledIndices(lo, hi, stride);
      && (forall k :: 0 <= k < |r| ==> lo <= r[k] < hi && IsSampled(r[k], stride))
      && (forall j, k :: 0 <= j < k < |r| ==> r[j] < r[k])
      && (forall i :: lo <= i < hi && IsSampled(i, stride) ==> i in r)
    decreases hi - lo
  {
    if lo < hi {
      SampledIndicesSpec(lo + 1, hi, stride);
      var head := if IsSampled(lo, stride) then [lo] else [];
      var rest := SampledIndices(lo + 1, hi, stride);
      var r := SampledIndices(lo, hi, stride);
      assert r == head + rest;
      forall i | lo <= i < hi && IsSampled(i, stride)
        ensures i in r
      {
        if i == lo {
          assert r[0] == lo;
        } else {
          assert i in rest;
        }
      }
    }
  }

  /** Scanning two adjacent ranges one after the other is scanning their union. */
  lemma {:induction false} SampledSplit(a: nat, b: nat, c: nat, stride: nat)
    requires stride >= 1
    requires a <= b <= c
    ensures SampledIndices(a, b, stride) + SampledIndices(b, c, stride) == SampledIndices(a, c, stride)
    decreases b - a
  {
    if a < b {
      SampledSplit(a + 1, b, c, stride);
      var head := if IsSampled(a, stride) then [a] else [];
      var x, y := SampledIndices(a + 1, b, stride), SampledIndices(b, c, stride);
      assert SampledIndices(a, b, stride) == head + x;
      assert SampledIndices(a, c, stride) == head + SampledIndices(a + 1, c, stride);
      assert (head + x) + y == head + (x + y);
    }
  }

  /** Extending a range by one index adds one to ceil(n / stride) exactly when that index is sampled. */
  lemma CeilStep(n: nat, stride: nat)
    requires n >= 1 && stride >= 1
    ensures (n + stride - 1) / stride == (n - 1 + stride - 1) / stride + (if IsSampled(n - 1, stride) then 1 else 0)
  {
    var q := (n - 1) / stride;
    var m := (n - 1) % stride;
    if m == 0 {
      DivUnique(n + stride - 1, stride, q + 1, 0);
      DivUnique(n - 1 + stride - 1, stride, q, stride - 1);
    } else {
      DivUnique(n + stride - 1, stride, q + 1, m);
      DivUnique(n - 1 + stride - 1, stride, q + 1, m - 1);
    }
  }

  /** Every sampled index of `[0, n)` is a multiple of the stride, so there are ceil(n / stride) of them. */
  lemma {:induction false} SampledCount(n: nat, stride: nat)
    requires stride >= 1
    ensures |SampledIndices(0, n, stride)| == (n + stride - 1) / stride
    decreases n
  {
    if n > 0 {
      SampledCount(n - 1, stride);
      SampledSplit(0, n - 1, n, stride);
      var last := SampledIndices(n - 1, n, stride);
      assert |last| == (if IsSampled(n - 1, stride) then 1 else 0) by {
        assert SampledIndices(n, n, stride) == [];
      }
      assert |SampledIndices(0, n, stride)| == |SampledIndices(0, n - 1, stride)| + |last|;
      CeilStep(n, stride);
    }
  }

  /**
   * The width is truncated, not rounded: a 640x480 video scaled to a
   * height of 20 is 26 pixels wide, although 640 * 20 / 480 is nearer 27.
   */
  lemma WidthTruncates()
    ensures ResultWidth(640, 20, 480) == 26
    ensures 2 * (640 * 20 - 26 * 480) > 480
  {
  }

  /**
   * The stride is a rounded ratio, so the number of sampled frames is not
   * bounded by the target frame count: 100 frames over 4 seconds at 10
   * frames per second have a target of 40 frames, a stride of round(2.5) = 2
   * and 50 sampled frames.
   */
  lemma SamplesCanExceedTarget()
    ensures Stride(100, 4, 10) == Some(2)
    ensures |SampledIndices(0, 100, 2)| == 50 > 4 * 10 + 1
  {
    StrideOfHalf();
    SampledCount(100, 2);
  }

  /** round(100 / 40) is 2: an exact half rounds to the even neighbour. */
  lemma StrideOfHalf()
    ensures Stride(100, 4, 10) == Some(2)
  {
    RoundHalfEvenUnique(100, 40, 2);
  }
}
