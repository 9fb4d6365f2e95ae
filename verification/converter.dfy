/**
 * `convert_to_css` without the GUI, OpenCV and threads: validate the
 * video, derive the sizes and the stride, split the frame range among the
 * workers, run each worker on its own range, merge their keyframes in
 * range order and assemble the two texts.
 */
module Converter {
  import opened Wrappers
  import opened Sampling
  import opened Partition
  import opened Encoder
  import opened Worker
  import opened Assembly
  import opened Strings

  /**
   * What the decoder reports and delivers: the frame count, frame size and
   * duration from the metadata, and the frames it can actually read, in
   * order (a read past the last of them fails).
   */
  datatype Video = Video(frameCount: nat, width: nat, height: nat, duration: nat, frames: seq<Grid>)

  /** The three spin boxes: frames per second, output height, thread count. */
  datatype Config = Config(fps: nat, resultHeight: nat, threads: nat)
  {
    predicate Valid()
    {
      1 <= fps <= 60 && 1 <= resultHeight <= 500 && 1 <= threads <= 16
    }
  }

  /** Why a conversion produces nothing: the first frame is unreadable, or the height is 0. */
  datatype Error = CannotReadVideo | ZeroFrameHeight

  /** The contents of `video.css` and `index.html`. */
  datatype Output = Output(css: string, html: string)

  /** The workers' keyframe lists, concatenated in range order. */
  function Merge(frames: seq<Grid>, rs: seq<Range>, stride: Option<nat>): seq<Keyframe>
  {
    if |rs| == 0 then [] else Work(frames, rs[0], stride) + Merge(frames, rs[1..], stride)
  }

  /**
   * Workers on ranges that tile `[a, b)`, merged in range order, emit
   * exactly what one scan of `[a, b)` emits.
   */
  lemma {:induction false} MergeTiles(frames: seq<Grid>, rs: seq<Range>, a: nat, b: nat, stride: nat)
    requires stride >= 1
    requires Tiles(rs, a, b)
    ensures Merge(frames, rs, Some(stride)) == Scan(frames, a, b, stride)
    decreases |rs|
  {
    if |rs| > 0 {
      TilesCover(rs, a, b);
      TilesCover(rs[1..], rs[0].end, b);
      MergeTiles(frames, rs[1..], rs[0].end, b, stride);
      ScanSplit(frames, a, rs[0].end, b, stride);
    }
  }

  /** Without a usable stride every worker ends before emitting, so nothing is merged. */
  lemma {:induction false} MergeWithoutStride(frames: seq<Grid>, rs: seq<Range>, stride: Option<nat>)
    requires stride.None? || stride.value == 0
    ensures Merge(frames, rs, stride) == []
    decreases |rs|
  {
    if |rs| > 0 {
      MergeWithoutStride(frames, rs[1..], stride);
    }
  }

  /** Each readable frame as `cv2.resize(frame, (result_width, result_height))` returns it. */
  function Resized(v: Video, cfg: Config, resize: (Grid, nat, nat) -> Grid): seq<Grid>
    requires v.height > 0
  {
    var w := ResultWidth(v.width, cfg.resultHeight, v.height);
    seq(|v.frames|, i requires 0 <= i < |v.frames| => resize(v.frames[i], w, cfg.resultHeight))
  }

  /**
   * The conversion. `resize` stands for `cv2.resize` and `fmt` for the
   * `.2f` formatting of the percent.
   */
  function Convert(v: Video, cfg: Config, resize: (Grid, nat, nat) -> Grid, fmt: Ratio -> string): (r: Result<Output, Error>)
    requires cfg.Valid()
    ensures r == Failure(CannotReadVideo) <==> |v.frames| == 0
    ensures r == Failure(ZeroFrameHeight) <==> |v.frames| > 0 && v.height == 0
    ensures r.Success? ==> r.value.html == Markup(cfg.resultHeight)
  {
    if |v.frames| == 0 then Failure(CannotReadVideo)
    else if v.height == 0 then Failure(ZeroFrameHeight)
    else
      var frames := Resized(v, cfg, resize);
      var stride := Stride(v.frameCount, v.duration, cfg.fps);
      var kfs := Merge(frames, Partition.Partition(v.frameCount, cfg.threads), stride);
      Success(Output(Stylesheet(v.duration, fmt, v.frameCount, kfs), Markup(cfg.resultHeight)))
  }

  /**
   * The keyframes a single pass over the whole frame range would emit:
   * the reference the threaded conversion is measured against.
   */
  function Sequential(frames: seq<Grid>, nbFrames: nat, stride: Option<nat>): seq<Keyframe>
  {
    Work(frames, Range(0, nbFrames), stride)
  }

  /**
   * Workers on the ranges of any partition of `[0, nb_frames)`, merged in
   * range order, emit what one sequential pass emits.
   */
  lemma MergeIsSequential(frames: seq<Grid>, nbFrames: nat, threads: nat, stride: Option<nat>)
    requires threads >= 1
    ensures Merge(frames, Partition.Partition(nbFrames, threads), stride) == Sequential(frames, nbFrames, stride)
  {
    var rs := Partition.Partition(nbFrames, threads);
    if stride.None? || stride.value == 0 {
      MergeWithoutStride(frames, rs, stride);
    } else {
      PartitionTiles(nbFrames, threads);
      MergeTiles(frames, rs, 0, nbFrames, stride.value);
    }
  }

  /**
   * The threaded conversion produces the stylesheet of one sequential
   * pass over `[0, nb_frames)`, whatever the thread count.
   */
  lemma ConvertIsSequential(v: Video, cfg: Config, resize: (Grid, nat, nat) -> Grid, fmt: Ratio -> string)
    requires cfg.Valid()
    requires |v.frames| > 0 && v.height > 0
    ensures Convert(v, cfg, resize, fmt) == Success(Output(
      Stylesheet(v.duration, fmt, v.frameCount,
                 Sequential(Resized(v, cfg, resize), v.frameCount, Stride(v.frameCount, v.duration, cfg.fps))),
      Markup(cfg.resultHeight)))
  {
    MergeIsSequential(Resized(v, cfg, resize), v.frameCount, cfg.threads, Stride(v.frameCount, v.duration, cfg.fps));
  }

  /** The output does not depend on the number of threads. */
  lemma ThreadCountIrrelevant(v: Video, cfg: Config, threads: nat, resize: (Grid, nat, nat) -> Grid, fmt: Ratio -> string)
    requires cfg.Valid() && 1 <= threads <= 16
    ensures Convert(v, cfg, resize, fmt) == Convert(v, cfg.(threads := threads), resize, fmt)
  {
    if |v.frames| > 0 && v.height > 0 {
      ConvertIsSequential(v, cfg, resize, fmt);
      ConvertIsSequential(v, cfg.(threads := threads), resize, fmt);
      assert Resized(v, cfg, resize) == Resized(v, cfg.(threads := threads), resize);
    }
  }

  /**
   * With a usable stride the merged keyframes are exactly the sampled
   * indices below both `nb_frames` and the point where the source runs dry,
   * in increasing order, each with its own frame's fragment; their
   * percents strictly increase and stay below 100.
   */
  lemma SequentialKeyframes(frames: seq<Grid>, nbFrames: nat, stride: nat)
    requires stride >= 1
    ensures var kfs := Sequential(frames, nbFrames, Some(stride));
      && (forall k :: 0 <= k < |kfs| ==>
            && kfs[k].index < nbFrames && kfs[k].index < |frames|
            && IsSampled(kfs[k].index, stride)
            && kfs[k].fragment == Fragment(frames[kfs[k].index]))
      && (forall i: nat :: i < nbFrames && i < |frames| && IsSampled(i, stride) ==>
            exists k :: 0 <= k < |kfs| && kfs[k].index == i)
      && (forall j, k :: 0 <= j < k < |kfs| ==>
            Below(Percent(kfs[j].index, nbFrames), Percent(kfs[k].index, nbFrames)))
      && (forall k :: 0 <= k < |kfs| ==> Below(Percent(kfs[k].index, nbFrames), Ratio(100, 1)))
  {
    assert Sequential(frames, nbFrames, Some(stride)) == Scan(frames, 0, nbFrames, stride);
    ScanSelects(frames, 0, nbFrames, stride);
    PercentsIncrease(nbFrames, Sequential(frames, nbFrames, Some(stride)));
  }

  /** Every fragment a sequential pass emits is a single line. */
  lemma SequentialSingleLine(frames: seq<Grid>, nbFrames: nat, stride: Option<nat>)
    ensures var kfs := Sequential(frames, nbFrames, stride);
      forall k :: 0 <= k < |kfs| ==> '\n' !in kfs[k].fragment
  {
    if stride.Some? && stride.value != 0 {
      var kfs := Sequential(frames, nbFrames, stride);
      assert kfs == Scan(frames, 0, nbFrames, stride.value);
      ScanSelects(frames, 0, nbFrames, stride.value);
      forall k | 0 <= k < |kfs|
        ensures '\n' !in kfs[k].fragment
      {
        FragmentSingleLine(frames[kfs[k].index]);
      }
    }
  }

  /**
   * With a resize that returns a grid of the requested size, every keyframe
   * carries one shadow per output pixel: its fragment splits at commas into
   * `result_width * result_height` parts, and is empty when that product is 0.
   */
  lemma KeyframeShadowCount(v: Video, cfg: Config, resize: (Grid, nat, nat) -> Grid)
    requires cfg.Valid()
    requires v.height > 0
    requires forall g, w, h :: resize(g, w, h).width == w && resize(g, w, h).height == h
    ensures var n := ResultWidth(v.width, cfg.resultHeight, v.height) * cfg.resultHeight;
      var kfs := Sequential(Resized(v, cfg, resize), v.frameCount, Stride(v.frameCount, v.duration, cfg.fps));
      forall k :: 0 <= k < |kfs| ==>
        && (n > 0 ==> |Split(kfs[k].fragment, ',')| == n)
        && (n == 0 ==> kfs[k].fragment == "")
  {
    var w := ResultWidth(v.width, cfg.resultHeight, v.height);
    var frames := Resized(v, cfg, resize);
    var stride := Stride(v.frameCount, v.duration, cfg.fps);
    var kfs := Sequential(frames, v.frameCount, stride);
    if stride.Some? && stride.value != 0 {
      assert kfs == Scan(frames, 0, v.frameCount, stride.value);
      ScanSelects(frames, 0, v.frameCount, stride.value);
      forall k | 0 <= k < |kfs|
        ensures w * cfg.resultHeight > 0 ==> |Split(kfs[k].fragment, ',')| == w * cfg.resultHeight
        ensures w * cfg.resultHeight == 0 ==> kfs[k].fragment == ""
      {
        ResizedSize(v, cfg, resize, kfs[k].index);
        FragmentShadowCount(frames[kfs[k].index]);
      }
    }
  }

  /** A resize that honours the requested size yields frames of the output size. */
  lemma ResizedSize(v: Video, cfg: Config, resize: (Grid, nat, nat) -> Grid, i: nat)
    requires v.height > 0 && i < |v.frames|
    requires forall g, w, h :: resize(g, w, h).width == w && resize(g, w, h).height == h
    ensures Resized(v, cfg, resize)[i].width == ResultWidth(v.width, cfg.resultHeight, v.height)
    ensures Resized(v, cfg, resize)[i].height == cfg.resultHeight
  {
    var w := ResultWidth(v.width, cfg.resultHeight, v.height);
    assert Resized(v, cfg, resize)[i] == resize(v.frames[i], w, cfg.resultHeight);
  }

  /**
   * The produced stylesheet reads back as its header, one line per
   * keyframe of the sequential pass in order, and the closing brace.
   */
  lemma ConvertReadsBack(v: Video, cfg: Config, resize: (Grid, nat, nat) -> Grid, fmt: Ratio -> string)
    requires cfg.Valid()
    requires |v.frames| > 0 && v.height > 0
    requires forall p :: '\n' !in fmt(p)
    ensures var css, h := Convert(v, cfg, resize, fmt).value.css, Header(v.duration);
      var kfs := Sequential(Resized(v, cfg, resize), v.frameCount, Stride(v.frameCount, v.duration, cfg.fps));
      && |css| > |h|
      && css[..|h|] == h
      && css[|css| - 1] == '}'
      && Split(css[|h|..|css| - 1], '\n') == Lines(fmt, v.frameCount, kfs) + [""]
  {
    var kfs := Sequential(Resized(v, cfg, resize), v.frameCount, Stride(v.frameCount, v.duration, cfg.fps));
    ConvertIsSequential(v, cfg, resize, fmt);
    SequentialSingleLine(Resized(v, cfg, resize), v.frameCount, Stride(v.frameCount, v.duration, cfg.fps));
    StylesheetReadsBack(v.duration, fmt, v.frameCount, kfs);
  }

  /**
   * A target rate of more than twice the video's frames per second of
   * duration (a 10-second, 240-frame clip at 60 fps: stride round(0.4) = 0)
   * makes every worker raise before emitting: the stylesheet is the header
   * and the closing brace alone.
   */
  lemma HighTargetRateGivesEmptyAnimation(v: Video, cfg: Config, resize: (Grid, nat, nat) -> Grid, fmt: Ratio -> string)
    requires cfg.Valid()
    requires |v.frames| > 0 && v.height > 0
    requires 2 * v.frameCount <= v.duration * cfg.fps
    ensures Convert(v, cfg, resize, fmt).value.css == Header(v.duration) + "}"
  {
    ConvertIsSequential(v, cfg, resize, fmt);
    assert Concat<char>([]) == "";
  }
}
