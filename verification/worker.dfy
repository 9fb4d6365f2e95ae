/**
 * `process_frames`: one worker's scan of its slice of the frame range.
 * The frame source is the list of frames the decoder can deliver; a read
 * at index `i` succeeds exactly when `i` is below its length, so a short or
 * damaged file is a source that runs dry early.
 */
module Worker {
  import opened Wrappers
  import opened Sampling
  import opened Partition
  import opened Encoder

  /** One sampled frame: its index in the video and its shadow-list text. */
  datatype Keyframe = Keyframe(index: nat, fragment: string)

  function Min(a: nat, b: nat): nat
  {
    if a <= b then a else b
  }

  /** The keyframes of the given frame indices, in the order given. */
  function Keyframes(frames: seq<Grid>, idx: seq<nat>): (r: seq<Keyframe>)
    requires forall k :: 0 <= k < |idx| ==> idx[k] < |frames|
    ensures |r| == |idx|
    ensures forall k :: 0 <= k < |r| ==> r[k].index == idx[k] && r[k].fragment == Fragment(frames[idx[k]])
  {
    seq(|idx|, k requires 0 <= k < |idx| => Keyframe(idx[k], Fragment(frames[idx[k]])))
  }

  lemma KeyframesAppend(frames: seq<Grid>, a: seq<nat>, b: seq<nat>)
    requires forall k :: 0 <= k < |a| ==> a[k] < |frames|
    requires forall k :: 0 <= k < |b| ==> b[k] < |frames|
    ensures Keyframes(frames, a + b) == Keyframes(frames, a) + Keyframes(frames, b)
  {
  }

  /**
   * The loop of `process_frames` without the progress bar: for `i` from
   * `start` up to `end`, read frame `i` and stop if the read fails, then
   * emit a keyframe when `i` is sampled.
   */
  function Scan(frames: seq<Grid>, start: nat, end: nat, stride: nat): seq<Keyframe>
    requires stride >= 1
    decreases end - start
  {
    if start >= end || start >= |frames| then []
    else
      (if start % stride == 0 then [Keyframe(start, Fragment(frames[start]))] else [])
      + Scan(frames, start + 1, end, stride)
  }

  /**
   * The worker emits the keyframes of exactly the sampled indices it can
   * read, in increasing order: the sampled indices of `[start, end)` below
   * the point where the source runs dry, each with its own frame's fragment.
   */
  lemma {:induction false} ScanIsSampled(frames: seq<Grid>, start: nat, end: nat, stride: nat)
    requires stride >= 1
    ensures Scan(frames, start, end, stride) == Keyframes(frames, SampledIndices(start, Min(end, |frames|), stride))
    decreases end - start
  {
    var m := Min(end, |frames|);
    if start < end && start < |frames| {
      ScanIsSampled(frames, start + 1, end, stride);
      var head: seq<nat> := if IsSampled(start, stride) then [start] else [];
      var tail := SampledIndices(start + 1, m, stride);
      var emitted := if start % stride == 0 then [Keyframe(start, Fragment(frames[start]))] else [];
      assert Scan(frames, start, end, stride) == emitted + Keyframes(frames, tail);
      assert SampledIndices(start, m, stride) == head + tail;
      KeyframesAppend(frames, head, tail);
      assert Keyframes(frames, head) == emitted;
    } else {
      assert SampledIndices(start, m, stride) == [];
    }
  }

  /**
   * Spelled out: every emitted keyframe is a readable, sampled index of the
   * slice with its frame's fragment; indices strictly increase; and every
   * readable sampled index of the slice is emitted.
   */
  lemma ScanSelects(frames: seq<Grid>, start: nat, end: nat, stride: nat)
    requires stride >= 1
    ensures var r := Scan(frames, start, end, stride);
      && (forall k :: 0 <= k < |r| ==>
            && start <= r[k].index < end && r[k].index < |frames|
            && IsSampled(r[k].index, stride)
            && r[k].fragment == Fragment(frames[r[k].index]))
      && (forall j, k :: 0 <= j < k < |r| ==> r[j].index < r[k].index)
      && (forall i :: start <= i < end && i < |frames| && IsSampled(i, stride) ==>
            exists k :: 0 <= k < |r| && r[k].index == i)
  {
    ScanIsSampled(frames, start, end, stride);
    SampledIndicesSpec(start, Min(end, |frames|), stride);
    var idx := SampledIndices(start, Min(end, |frames|), stride);
    assert forall i :: start <= i < end && i < |frames| && IsSampled(i, stride) ==> i in idx;
  }

  /**
   * A worker's output for a range. When the stride is not usable (None, or
   * 0) the expression `i % round(...)` raises on the first frame the worker
   * reads, before anything is emitted, and the thread ends with nothing.
   */
  function Work(frames: seq<Grid>, r: Range, stride: Option<nat>): seq<Keyframe>
  {
    match stride
    case None => []
    case Some(s) => if s == 0 then [] else Scan(frames, r.start, r.end, s)
  }

  /** Scanning two adjacent slices one after the other is scanning their union. */
  lemma ScanSplit(frames: seq<Grid>, a: nat, b: nat, c: nat, stride: nat)
    requires stride >= 1
    requires a <= b <= c
    ensures Scan(frames, a, b, stride) + Scan(frames, b, c, stride) == Scan(frames, a, c, stride)
  {
    ScanIsSampled(frames, a, b, stride);
    ScanIsSampled(frames, b, c, stride);
    ScanIsSampled(frames, a, c, stride);
    var m := |frames|;
    if b <= m {
      SampledSplit(a, b, Min(c, m), stride);
      KeyframesAppend(frames, SampledIndices(a, b, stride), SampledIndices(b, Min(c, m), stride));
    } else {
      assert SampledIndices(b, Min(c, m), stride) == [];
    }
  }

  /**
   * A source that runs dry at position `k` (it delivers only the first `k`
   * frames) makes the worker emit a prefix of what it emits on the full
   * source: exactly the keyframes below `k`, and nothing at or after `k`.
   */
  lemma ScanTruncated(full: seq<Grid>, k: nat, start: nat, end: nat, stride: nat)
    requires stride >= 1
    requires k <= |full|
    ensures var t, f := Scan(full[..k], start, end, stride), Scan(full, start, end, stride);
      && |t| <= |f|
      && t == f[..|t|]
      && (forall j :: 0 <= j < |t| ==> t[j].index < k)
      && (forall j :: |t| <= j < |f| ==> f[j].index >= k)
  {
    ScanIsSampled(full[..k], start, end, stride);
    ScanIsSampled(full, start, end, stride);
    var m1, m2 := Min(end, k), Min(end, |full|);
    var t, f := Scan(full[..k], start, end, stride), Scan(full, start, end, stride);
    if start <= m1 {
      var pre, post := SampledIndices(start, m1, stride), SampledIndices(m1, m2, stride);
      SampledSplit(start, m1, m2, stride);
      KeyframesAppend(full, pre, post);
      assert t == Keyframes(full, pre);
      assert f == Keyframes(full, pre) + Keyframes(full, post);
      assert f[..|t|] == t;
    }
  }
}
