/**
 * `write_css_colors` and the slicing at the use site: one resized frame,
 * a grid of (b, g, r) byte triples indexed `[y, x]`, becomes the text of a
 * `box-shadow` list, one `"<x>px <y>px 0 #rrggbb"` entry per pixel, columns
 * outermost, joined by commas.
 */
module Encoder {
  import opened Wrappers
  import opened Numerals
  import opened Strings
  import opened Arith

  /** One pixel in OpenCV's native channel order: blue, green, red. */
  datatype Pixel = Pixel(b: Byte, g: Byte, r: Byte)

  /** A frame as an array of rows, `rows[y][x]`, of the stated size. */
  datatype Image = Image(width: nat, height: nat, rows: seq<seq<Pixel>>)
  {
    predicate Valid()
    {
      |rows| == height && forall y :: 0 <= y < |rows| ==> |rows[y]| == width
    }
  }

  /** A well-formed frame. */
  type Grid = img: Image | img.Valid() witness Image(0, 0, [])

  /** `resized[y, x]` */
  function At(g: Grid, x: nat, y: nat): Pixel
    requires x < g.width && y < g.height
  {
    g.rows[y][x]
  }

  /** The text of one shadow: offset, zero blur, colour with the channels in RGB order. */
  function Entry(x: nat, y: nat, p: Pixel): string
  {
    Decimal(x) + "px " + Decimal(y) + "px 0 #" + Hex2(p.r) + Hex2(p.g) + Hex2(p.b)
  }

  /** The entries of column `x`, top to bottom: the inner `for y` of the comprehension. */
  function Column(g: Grid, x: nat): seq<string>
    requires x < g.width
  {
    seq(g.height, y requires 0 <= y < g.height => Entry(x, y, At(g, x, y)))
  }

  /** All entries of the frame, without separators: the columns left to right (the outer `for x`). */
  function Entries(g: Grid): seq<string>
  {
    Concat(Columns(g))
  }

  /**
   * The list `write_css_colors` returns (each entry with a trailing comma),
   * joined with `''.join` and cut with `[:-1]`.
   */
  function Fragment(g: Grid): string
  {
    DropLast(Concat(Terminated(Entries(g), ',')))
  }

  /**
   * The whole frame: `W * H` entries, and entry `k` is the pixel at column
   * `k / H`, row `k % H` (columns outermost, rows innermost).
   */
  lemma EntriesOrder(g: Grid)
    ensures |Entries(g)| == g.width * g.height
    ensures forall k :: 0 <= k < |Entries(g)| ==> Entries(g)[k] == EntryAt(g, k)
  {
    ConcatLength(Columns(g), g.height);
    TimesIsMul(g.width, g.height);
    forall k | 0 <= k < |Entries(g)|
      ensures Entries(g)[k] == EntryAt(g, k)
    {
      EntryIndex(g, k);
    }
  }

  /** The columns of the frame, left to right. */
  function Columns(g: Grid): (cs: seq<seq<string>>)
    ensures |cs| == g.width
    ensures forall x :: 0 <= x < g.width ==> |cs[x]| == g.height
  {
    seq(g.width, x requires 0 <= x < g.width => Column(g, x))
  }

  /** Entry `k` of the frame is the pixel at column `k / H`, row `k % H`. */
  lemma EntryIndex(g: Grid, k: nat)
    requires k < g.width * g.height
    ensures k < |Entries(g)| && Entries(g)[k] == EntryAt(g, k)
  {
    var h := g.height;
    var cols := Columns(g);
    DivBelow(k, g.width, h);
    var x, y := k / h, k % h;
    ConcatAt(cols, h, x, y);
    TimesIsMul(x, h);
    DivMod(k, h);
    assert Times(x, h) + y == k;
    assert cols[x][y] == Entry(x, y, At(g, x, y));
  }

  /** The entry of the `n`-th pixel in column-major order. */
  function EntryAt(g: Grid, n: nat): string
    requires n < g.width * g.height
  {
    DivBelow(n, g.width, g.height);
    var x, y := n / g.height, n % g.height;
    Entry(x, y, At(g, x, y))
  }

  /** An entry holds neither the entry separator nor a line break. */
  lemma EntryPlain(x: nat, y: nat, p: Pixel)
    ensures ',' !in Entry(x, y, p) && '\n' !in Entry(x, y, p)
  {
    var dx, dy, hr, hg, hb := Decimal(x), Decimal(y), Hex2(p.r), Hex2(p.g), Hex2(p.b);
    assert Entry(x, y, p) == dx + "px " + dy + "px 0 #" + hr + hg + hb;
    assert forall i :: 0 <= i < |dx| ==> IsDigit(dx[i]);
    assert forall i :: 0 <= i < |dy| ==> IsDigit(dy[i]);
  }

  /**
   * The fragment is the entries joined by single commas: no trailing
   * comma, and it is empty exactly when the frame has no pixels.
   */
  lemma FragmentIsJoin(g: Grid)
    ensures Fragment(g) == Join(Entries(g), ',')
    ensures Fragment(g) == "" <==> g.width * g.height == 0
  {
    StripTrailingSeparator(Entries(g), ',');
    EntriesOrder(g);
    var es := Entries(g);
    if |es| > 0 {
      assert |es[0]| > 0;
      assert |es| == 1 || |Join(es, ',')| >= |es[0]|;
    }
  }

  /** The fragment never breaks a line, so it fits on its keyframe line. */
  lemma FragmentSingleLine(g: Grid)
    ensures '\n' !in Fragment(g)
  {
    FragmentIsJoin(g);
    EntriesOrder(g);
    var es := Entries(g);
    forall k | 0 <= k < |es|
      ensures '\n' !in es[k]
    {
      PixelEntry(g, k);
    }
    JoinAvoids(es, ',', '\n');
  }

  /** One shadow as a stylesheet reader sees it: offsets and an RGB colour. */
  datatype Shadow = Shadow(x: nat, y: nat, red: Byte, green: Byte, blue: Byte)

  /** Reads a decimal number followed by the literal `suffix`; returns the number and what follows. */
  function ParseNumber(s: string, suffix: string): Option<(nat, string)>
  {
    var i := DigitRun(s);
    if i == 0 || |s| - i < |suffix| || s[i..i + |suffix|] != suffix then None
    else Some((DigitsValue(s[..i]), s[i + |suffix|..]))
  }

  /** Reads exactly six hexadecimal digits `rrggbb`. */
  function ParseColor(s: string): Option<(Byte, Byte, Byte)>
  {
    if |s| != 6 || !(forall k :: 0 <= k < 6 ==> IsHexDigit(s[k])) then None
    else Some((HexByte(s[0], s[1]), HexByte(s[2], s[3]), HexByte(s[4], s[5])))
  }

  /** Reads one `"<x>px <y>px 0 #rrggbb"` entry; None for any other text. */
  function ParseEntry(s: string): Option<Shadow>
  {
    match ParseNumber(s, "px ")
    case None => None
    case Some((x, t)) =>
      match ParseNumber(t, "px 0 #")
      case None => None
      case Some((y, u)) =>
        match ParseColor(u)
        case None => None
        case Some((red, green, blue)) => Some(Shadow(x, y, red, green, blue))
  }

  lemma NumberReadsBack(n: nat, suffix: string, rest: string)
    requires |suffix| > 0 && !IsDigit(suffix[0])
    ensures ParseNumber(Decimal(n) + suffix + rest, suffix) == Some((n, rest))
  {
    var d := Decimal(n);
    var s := d + suffix + rest;
    assert s == d + (suffix + rest);
    DigitRunOf(d, suffix + rest);
    assert s[..|d|] == d;
    assert s[|d|..|d| + |suffix|] == suffix;
    assert s[|d| + |suffix|..] == rest;
  }

  lemma ColorReadsBack(p: Pixel)
    ensures ParseColor(Hex2(p.r) + Hex2(p.g) + Hex2(p.b)) == Some((p.r, p.g, p.b))
  {
  }

  /**
   * Every entry reads back as its own offsets and as the pixel's colour
   * with red first: the (b, g, r) triple is written as `#rrggbb`.
   */
  lemma EntryReadsBack(x: nat, y: nat, p: Pixel)
    ensures ParseEntry(Entry(x, y, p)) == Some(Shadow(x, y, p.r, p.g, p.b))
  {
    var hex := Hex2(p.r) + Hex2(p.g) + Hex2(p.b);
    var t := Decimal(y) + "px 0 #" + hex;
    assert Entry(x, y, p) == Decimal(x) + "px " + t;
    NumberReadsBack(x, "px ", t);
    NumberReadsBack(y, "px 0 #", hex);
    ColorReadsBack(p);
  }

  /** What the `n`-th entry of a frame should read back as. */
  function ShadowAt(g: Grid, n: nat): Shadow
    requires n < g.width * g.height
  {
    DivBelow(n, g.width, g.height);
    var x, y := n / g.height, n % g.height;
    var p := At(g, x, y);
    Shadow(x, y, p.r, p.g, p.b)
  }

  /** The entry of pixel `n` is plain text that reads back as that pixel. */
  lemma PixelEntry(g: Grid, n: nat)
    requires n < g.width * g.height
    ensures ',' !in EntryAt(g, n) && '\n' !in EntryAt(g, n)
    ensures ParseEntry(EntryAt(g, n)) == Some(ShadowAt(g, n))
  {
    DivBelow(n, g.width, g.height);
    var x, y := n / g.height, n % g.height;
    EntryPlain(x, y, At(g, x, y));
    EntryReadsBack(x, y, At(g, x, y));
  }

  /**
   * Splitting the fragment of a non-empty frame at its commas gives its
   * `W * H` entries, and entry `k` reads back as the pixel at column
   * `k / H`, row `k % H`, in RGB.
   */
  lemma FragmentReadsBack(g: Grid)
    requires g.width * g.height > 0
    ensures |Split(Fragment(g), ',')| == g.width * g.height
    ensures forall k :: 0 <= k < g.width * g.height ==>
      ParseEntry(Split(Fragment(g), ',')[k]) == Some(ShadowAt(g, k))
  {
    FragmentIsJoin(g);
    EntriesOrder(g);
    var es := Entries(g);
    forall k | 0 <= k < |es|
      ensures ',' !in es[k]
      ensures ParseEntry(es[k]) == Some(ShadowAt(g, k))
    {
      PixelEntry(g, k);
    }
    SplitJoin(es, ',');
  }

  /** The fragment of a frame holds one shadow per pixel, and nothing for a frame without pixels. */
  lemma FragmentShadowCount(g: Grid)
    ensures g.width * g.height > 0 ==> |Split(Fragment(g), ',')| == g.width * g.height
    ensures g.width * g.height == 0 ==> Fragment(g) == ""
  {
    FragmentIsJoin(g);
    if g.width * g.height > 0 {
      FragmentReadsBack(g);
    }
  }
}
