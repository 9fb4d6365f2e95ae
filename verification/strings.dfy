/**
 * Joining and splitting of strings around a one-character separator.
 * The converter builds text the Python way (a list of pieces, each with a
 * trailing separator, concatenated, then the last character sliced off);
 * this module relates that construction to a plain join, and a join back
 * to its parts through a split.
 */
module Strings {
  import opened Wrappers
  import opened Arith

  /**
   * Concatenation of all pieces, in order: Python's `''.join(parts)` on
   * strings, and the flattening of a nested list comprehension.
   */
  function Concat<T>(parts: seq<seq<T>>): seq<T>
  {
    if |parts| == 0 then [] else parts[0] + Concat(parts[1..])
  }

  /** Each piece followed by `sep`, as a list comprehension `f"...{sep}"` builds it. */
  function Terminated(parts: seq<string>, sep: char): (r: seq<string>)
    ensures |r| == |parts|
    ensures forall k :: 0 <= k < |r| ==> r[k] == parts[k] + [sep]
  {
    seq(|parts|, k requires 0 <= k < |parts| => parts[k] + [sep])
  }

  /** Pieces separated by `sep`, with no separator before the first or after the last. */
  function Join(parts: seq<string>, sep: char): string
  {
    if |parts| == 0 then ""
    else if |parts| == 1 then parts[0]
    else parts[0] + [sep] + Join(parts[1..], sep)
  }

  /** Python's `s[:-1]`: everything but the last character; the empty string stays empty. */
  function DropLast(s: string): (r: string)
    ensures |s| > 0 ==> s == r + [s[|s| - 1]]
    ensures |s| == 0 ==> r == ""
  {
    if |s| == 0 then s else s[..|s| - 1]
  }

  /** Position of the first occurrence of `c` in `s`, if any. */
  function IndexOf(s: string, c: char): (r: Option<nat>)
    ensures r.None? <==> c !in s
    ensures r.Some? ==> r.value < |s| && s[r.value] == c && c !in s[..r.value]
    decreases |s|
  {
    if |s| == 0 then None
    else if s[0] == c then Some(0)
    else match IndexOf(s[1..], c)
      case None => None
      case Some(i) =>
        assert s[..i + 1] == [s[0]] + s[1..][..i];
        Some(i + 1)
  }

  /** The pieces of `s` between occurrences of `sep` (Python's `s.split(sep)`). */
  function Split(s: string, sep: char): (r: seq<string>)
    ensures |r| >= 1
    decreases |s|
  {
    match IndexOf(s, sep)
    case None => [s]
    case Some(i) => [s[..i]] + Split(s[i + 1..], sep)
  }

  /** Pieces of a common length `h` concatenate to `|parts| * h` elements. */
  lemma {:induction false} ConcatLength<T>(parts: seq<seq<T>>, h: nat)
    requires forall i :: 0 <= i < |parts| ==> |parts[i]| == h
    ensures |Concat(parts)| == Times(|parts|, h)
    decreases |parts|
  {
    if |parts| > 0 {
      ConcatLength(parts[1..], h);
    }
  }

  /**
   * In a concatenation of pieces of common length `h`, element `y` of
   * piece `c` sits at position `c * h + y`.
   */
  lemma {:induction false} ConcatAt<T>(parts: seq<seq<T>>, h: nat, c: nat, y: nat)
    requires forall i :: 0 <= i < |parts| ==> |parts[i]| == h
    requires c < |parts| && y < h
    ensures Times(c, h) + y < |Concat(parts)|
    ensures Concat(parts)[Times(c, h) + y] == parts[c][y]
    decreases c
  {
    var rest := Concat(parts[1..]);
    assert Concat(parts) == parts[0] + rest;
    ConcatLength(parts[1..], h);
    if c > 0 {
      ConcatAt(parts[1..], h, c - 1, y);
      var i := Times(c - 1, h) + y;
      assert Times(c, h) + y == h + i;
      assert (parts[0] + rest)[h + i] == rest[i];
    }
  }

  /** Concatenating separator-terminated pieces is the join of the pieces and one empty piece. */
  lemma {:induction false} ConcatTerminated(parts: seq<string>, sep: char)
    ensures Concat(Terminated(parts, sep)) == Join(parts + [""], sep)
    decreases |parts|
  {
    if |parts| == 0 {
      assert parts + [""] == [""];
    } else {
      var t := Terminated(parts, sep);
      assert t[1..] == Terminated(parts[1..], sep);
      ConcatTerminated(parts[1..], sep);
      assert (parts + [""])[1..] == parts[1..] + [""];
    }
  }

  lemma {:induction false} JoinSnoc(parts: seq<string>, last: string, sep: char)
    requires |parts| > 0
    ensures Join(parts + [last], sep) == Join(parts, sep) + [sep] + last
    decreases |parts|
  {
    if |parts| == 1 {
      assert parts + [last] == [parts[0], last];
    } else {
      assert (parts + [last])[1..] == parts[1..] + [last];
      JoinSnoc(parts[1..], last, sep);
    }
  }

  /**
   * Slicing the last character off the concatenation of separator-terminated
   * pieces gives exactly the join of the pieces: no trailing separator, and
   * the empty list gives the empty string.
   */
  lemma StripTrailingSeparator(parts: seq<string>, sep: char)
    ensures DropLast(Concat(Terminated(parts, sep))) == Join(parts, sep)
  {
    ConcatTerminated(parts, sep);
    if |parts| > 0 {
      JoinSnoc(parts, "", sep);
      assert Join(parts + [""], sep) == Join(parts, sep) + [sep];
    } else {
      assert parts + [""] == [""];
    }
  }

  /** A character that is neither the separator nor in any piece is not in the join. */
  lemma {:induction false} JoinAvoids(parts: seq<string>, sep: char, c: char)
    requires c != sep
    requires forall k :: 0 <= k < |parts| ==> c !in parts[k]
    ensures c !in Join(parts, sep)
    decreases |parts|
  {
    if |parts| > 1 {
      JoinAvoids(parts[1..], sep, c);
    }
  }

  lemma SplitAt(a: string, sep: char, rest: string)
    requires sep !in a
    ensures Split(a + [sep] + rest, sep) == [a] + Split(rest, sep)
  {
    var s := a + [sep] + rest;
    assert s[..|a|] == a;
    assert s[|a| + 1..] == rest;
    assert s[|a|] == sep;
    assert forall j :: 0 <= j < |a| ==> s[j] == a[j];
    assert IndexOf(s, sep) == Some(|a|);
  }

  /** Splitting a join recovers the pieces, when no piece contains the separator. */
  lemma {:induction false} SplitJoin(parts: seq<string>, sep: char)
    requires |parts| > 0
    requires forall k :: 0 <= k < |parts| ==> sep !in parts[k]
    ensures Split(Join(parts, sep), sep) == parts
    decreases |parts|
  {
    if |parts| == 1 {
      assert sep !in parts[0];
    } else {
      SplitAt(parts[0], sep, Join(parts[1..], sep));
      SplitJoin(parts[1..], sep);
    }
  }
}
