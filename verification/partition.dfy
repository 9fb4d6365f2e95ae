/**
 * The split of the frame range `[0, nb_frames)` among the worker threads:
 * `frames_per_thread = nb_frames // num_threads`, slice `i` starts at
 * `i * frames_per_thread`, and the last slice runs to `nb_frames`.
 */
module Partition {
  import opened Arith

  /** A half-open range of frame indices `[start, end)`. */
  datatype Range = Range(start: nat, end: nat)

  /** The arguments the loop passes to thread `i` of `n`. */
  function RangeAt(nbFrames: nat, n: nat, i: nat): Range
    requires 1 <= n && i < n
  {
    var per := nbFrames / n;
    Range(i * per, if i < n - 1 then (i + 1) * per else nbFrames)
  }

  /**
   * All `n` ranges in thread order. Every range but the last holds
   * `nb_frames // n` indices and the last one also takes the remainder,
   * so when there are fewer frames than threads only the last is non-empty.
   */
  function Partition(nbFrames: nat, n: nat): (rs: seq<Range>)
    requires n >= 1
    ensures |rs| == n
    ensures forall i :: 0 <= i < n ==> rs[i].start <= rs[i].end
    ensures forall i :: 0 <= i < n - 1 ==> rs[i].end - rs[i].start == nbFrames / n
    ensures rs[n - 1].end - rs[n - 1].start == nbFrames / n + nbFrames % n
    ensures nbFrames < n ==> forall i :: 0 <= i < n - 1 ==> rs[i].start == rs[i].end
  {
    var rs := seq(n, i requires 0 <= i < n => RangeAt(nbFrames, n, i));
    forall i | 0 <= i < n
      ensures rs[i].start <= rs[i].end
      ensures i < n - 1 ==> rs[i].end - rs[i].start == nbFrames / n
      ensures i == n - 1 ==> rs[i].end - rs[i].start == nbFrames / n + nbFrames % n
    {
      RangeLength(nbFrames, n, i);
    }
    assert nbFrames < n ==> nbFrames / n == 0 by {
      if nbFrames < n {
        DivUnique(nbFrames, n, 0, nbFrames);
      }
    }
    rs
  }

  /** The length of thread `i`'s range: `nb // n`, plus `nb % n` for the last thread. */
  lemma RangeLength(nbFrames: nat, n: nat, i: nat)
    requires 1 <= n && i < n
    ensures var r := RangeAt(nbFrames, n, i);
      && r.start <= r.end
      && (i < n - 1 ==> r.end - r.start == nbFrames / n)
      && (i == n - 1 ==> r.end - r.start == nbFrames / n + nbFrames % n)
  {
    var per := nbFrames / n;
    StartBound(nbFrames, n, i);
    Distribute(i, per);
    if i == n - 1 {
      DivMod(nbFrames, n);
    }
  }

  /** Every start `i * (nb // n)` lies within the frame range. */
  lemma StartBound(nbFrames: nat, n: nat, i: nat)
    requires 1 <= n && i < n
    ensures i * (nbFrames / n) <= (i + 1) * (nbFrames / n) <= nbFrames
  {
    var per := nbFrames / n;
    Distribute(i, per);
    MulMonotone(n, i + 1, per);
    DivMod(nbFrames, n);
  }

  /**
   * `rs` tiles `[a, b)`: the ranges are non-decreasing, the first starts
   * at `a`, each starts where the previous ended, and the last ends at `b`.
   */
  predicate Tiles(rs: seq<Range>, a: nat, b: nat)
    decreases |rs|
  {
    if |rs| == 0 then a == b
    else rs[0].start == a && rs[0].start <= rs[0].end && Tiles(rs[1..], rs[0].end, b)
  }

  lemma {:induction false} PartitionTilesFrom(nbFrames: nat, n: nat, i: nat)
    requires 1 <= n && i < n
    ensures Tiles(Partition(nbFrames, n)[i..], i * (nbFrames / n), nbFrames)
    decreases n - i
  {
    var rs := Partition(nbFrames, n);
    if i < n - 1 {
      PartitionTilesFrom(nbFrames, n, i + 1);
      assert rs[i..][1..] == rs[i + 1..];
    } else {
      assert rs[i..][1..] == [];
    }
  }

  /** The thread ranges tile the whole frame range `[0, nb_frames)`, for every thread count. */
  lemma PartitionTiles(nbFrames: nat, n: nat)
    requires n >= 1
    ensures Tiles(Partition(nbFrames, n), 0, nbFrames)
  {
    PartitionTilesFrom(nbFrames, n, 0);
    assert Partition(nbFrames, n)[0..] == Partition(nbFrames, n);
  }

  /** The indices of `[a, b)` in increasing order. */
  function Span(a: nat, b: nat): (r: seq<nat>)
    requires a <= b
    ensures |r| == b - a
    ensures forall k :: 0 <= k < |r| ==> r[k] == a + k
  {
    seq(b - a, k requires 0 <= k < b - a => a + k)
  }

  /** The indices of every range, one range after another. */
  function Spans(rs: seq<Range>): seq<nat>
    requires forall i :: 0 <= i < |rs| ==> rs[i].start <= rs[i].end
  {
    if |rs| == 0 then [] else Span(rs[0].start, rs[0].end) + Spans(rs[1..])
  }

  /** Ranges that tile `[a, b)` visit each index of it exactly once, in increasing order. */
  lemma {:induction false} TilesCover(rs: seq<Range>, a: nat, b: nat)
    requires Tiles(rs, a, b)
    ensures a <= b
    ensures forall i :: 0 <= i < |rs| ==> rs[i].start <= rs[i].end
    ensures Spans(rs) == Span(a, b)
    decreases |rs|
  {
    if |rs| > 0 {
      TilesCover(rs[1..], rs[0].end, b);
      assert forall i :: 1 <= i < |rs| ==> rs[i] == rs[1..][i - 1];
    }
  }

  /** No gaps and no overlaps: every frame index is in exactly one thread's range. */
  lemma PartitionCovers(nbFrames: nat, n: nat)
    requires n >= 1
    ensures Spans(Partition(nbFrames, n)) == Span(0, nbFrames)
  {
    PartitionTiles(nbFrames, n);
    TilesCover(Partition(nbFrames, n), 0, nbFrames);
  }
}
