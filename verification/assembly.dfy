/**
 * Assembly of the two output texts: the stylesheet (a fixed rule block
 * carrying the duration, one keyframe line per sampled frame, a closing
 * brace) and the companion HTML page.
 */
module Assembly {
  import opened Numerals
  import opened Strings
  import opened Worker
  import opened Wrappers
  import opened Encoder

  /** An exact non-negative rational `num / den`. */
  datatype Ratio = Ratio(num: nat, den: nat)

  /** `p < q`, for positive denominators. */
  predicate Below(p: Ratio, q: Ratio)
  {
    p.num * q.den < q.num * p.den
  }

  /** The keyframe position `i * 100 / nb_frames`, kept exact; the source formats it with `.2f`. */
  function Percent(i: nat, nbFrames: nat): Ratio
  {
    Ratio(i * 100, nbFrames)
  }

  /** The header text before the duration. */
  const HeaderLead: string :=
    "\n#cssVideo {\n    position: sticky;\n    top: -1px;\n    left: -1px;\n    overflow: visible;\n"
    + "    width: 1px;\n    height: 1px;\n    animation: cssVideo linear "

  /** The header text after the duration, up to the opening of the keyframes block. */
  const HeaderUnit: string := "s both infinite;"
  const HeaderRest: string := "\n}\n\n@keyframes cssVideo {\n"

  /** The rule block that opens the stylesheet, with the animation duration in seconds. */
  function Header(duration: nat): string
  {
    HeaderLead + Decimal(duration) + HeaderUnit + HeaderRest
  }

  /**
   * The duration reads back from the header: after the fixed lead comes
   * the number of seconds, then the unit and the rest of the block.
   */
  lemma HeaderReadsBack(duration: nat)
    ensures var h := Header(duration);
      && |h| > |HeaderLead|
      && h[..|HeaderLead|] == HeaderLead
      && ParseNumber(h[|HeaderLead|..], HeaderUnit) == Some((duration, HeaderRest))
  {
    var h := Header(duration);
    assert h[..|HeaderLead|] == HeaderLead;
    assert h[|HeaderLead|..] == Decimal(duration) + HeaderUnit + HeaderRest;
    NumberReadsBack(duration, HeaderUnit, HeaderRest);
  }

  /** One keyframe line, without its line break; `fmt` renders the percent. */
  function LineText(fmt: Ratio -> string, nbFrames: nat, kf: Keyframe): string
  {
    fmt(Percent(kf.index, nbFrames)) + "% {box-shadow: " + kf.fragment + ";}"
  }

  function Lines(fmt: Ratio -> string, nbFrames: nat, kfs: seq<Keyframe>): (r: seq<string>)
    ensures |r| == |kfs|
    ensures forall k :: 0 <= k < |r| ==> r[k] == LineText(fmt, nbFrames, kfs[k])
  {
    seq(|kfs|, k requires 0 <= k < |kfs| => LineText(fmt, nbFrames, kfs[k]))
  }

  /** The stylesheet: header, every keyframe line with its line break, in order, then `}`. */
  function Stylesheet(duration: nat, fmt: Ratio -> string, nbFrames: nat, kfs: seq<Keyframe>): string
  {
    Header(duration) + Concat(Terminated(Lines(fmt, nbFrames, kfs), '\n')) + "}"
  }

  /**
   * The stylesheet can be read back: it starts with the header, ends with
   * the closing brace, and what lies between splits at line breaks into
   * the keyframe lines in order (plus the empty remainder after the last
   * break), provided the percent text and the fragments hold no line break.
   */
  lemma StylesheetReadsBack(duration: nat, fmt: Ratio -> string, nbFrames: nat, kfs: seq<Keyframe>)
    requires forall p :: '\n' !in fmt(p)
    requires forall k :: 0 <= k < |kfs| ==> '\n' !in kfs[k].fragment
    ensures var css, h := Stylesheet(duration, fmt, nbFrames, kfs), Header(duration);
      && |css| > |h|
      && css[..|h|] == h
      && css[|css| - 1] == '}'
      && Split(css[|h|..|css| - 1], '\n') == Lines(fmt, nbFrames, kfs) + [""]
  {
    var h := Header(duration);
    var lines := Lines(fmt, nbFrames, kfs);
    var body := Concat(Terminated(lines, '\n'));
    var css := Stylesheet(duration, fmt, nbFrames, kfs);
    assert css == h + body + "}";
    assert css[..|h|] == h;
    assert css[|h|..|css| - 1] == body;
    ConcatTerminated(lines, '\n');
    LinesSingle(fmt, nbFrames, kfs);
    SplitJoin(lines + [""], '\n');
  }

  /** No keyframe line breaks, given that no percent text and no fragment does. */
  lemma LinesSingle(fmt: Ratio -> string, nbFrames: nat, kfs: seq<Keyframe>)
    requires forall p :: '\n' !in fmt(p)
    requires forall k :: 0 <= k < |kfs| ==> '\n' !in kfs[k].fragment
    ensures var parts := Lines(fmt, nbFrames, kfs) + [""];
      forall k :: 0 <= k < |parts| ==> '\n' !in parts[k]
  {
    var lines := Lines(fmt, nbFrames, kfs);
    var parts := lines + [""];
    forall k | 0 <= k < |parts|
      ensures '\n' !in parts[k]
    {
      if k < |lines| {
        assert parts[k] == fmt(Percent(kfs[k].index, nbFrames)) + "% {box-shadow: " + kfs[k].fragment + ";}";
      }
    }
  }

  /**
   * Keyframes with strictly increasing indices below `nb_frames` have
   * strictly increasing percents, all in `[0, 100)`.
   */
  lemma PercentsIncrease(nbFrames: nat, kfs: seq<Keyframe>)
    requires forall j, k :: 0 <= j < k < |kfs| ==> kfs[j].index < kfs[k].index
    requires forall k :: 0 <= k < |kfs| ==> kfs[k].index < nbFrames
    ensures forall j, k :: 0 <= j < k < |kfs| ==>
      Below(Percent(kfs[j].index, nbFrames), Percent(kfs[k].index, nbFrames))
    ensures forall k :: 0 <= k < |kfs| ==> Below(Percent(kfs[k].index, nbFrames), Ratio(100, 1))
  {
    forall j, k | 0 <= j < k < |kfs|
      ensures Below(Percent(kfs[j].index, nbFrames), Percent(kfs[k].index, nbFrames))
    {
      var a, b := kfs[j].index * 100, kfs[k].index * 100;
      assert a < b;
      MulStrict(a, b, nbFrames);
    }
    forall k | 0 <= k < |kfs|
      ensures Below(Percent(kfs[k].index, nbFrames), Ratio(100, 1))
    {
      MulStrict(kfs[k].index, nbFrames, 100);
    }
  }

  lemma MulStrict(a: nat, b: nat, d: nat)
    requires a < b && d > 0
    ensures a * d < b * d
  {
    assert b * d == a * d + (b - a) * d;
  }

  /** The HTML page up to the scale factor. */
  const PageLead: string :=
    "\n<!DOCTYPE html>\n<html>\n<head>\n    <meta charset=\"UTF-8\">\n"
    + "    <meta name=\"viewport\" content=\"width=device-width, initial-scale=1.0\">\n"
    + "    <title>CSS Video</title>\n    <link rel=\"stylesheet\" href=\"video.css\">\n</head>\n<body>\n"
    + "    <div style=\"scale: "

  /** The HTML page after the scale factor. */
  const PageRest: string := ";\" id=\"cssVideo\"></div>\n</body>\n</html>\n"

  /** The HTML page that loads `video.css` and scales the element by `result_height / 10`. */
  function Markup(resultHeight: nat): string
    requires 1 <= resultHeight <= 500
  {
    PageLead + Tenths(resultHeight) + PageRest
  }
}
