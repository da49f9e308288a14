/**
 * Path-string helpers the common-root resolver relies on: Go's
 * strings.Trim, strings.Split and strings.Join specialised to a single
 * separator character, and path/filepath.Join on separator-free segments,
 * including the cleaning of "." and ".." segments that Join performs.
 */
module Paths {

  /** The path separator on the platform the watcher runs on. */
  const Separator: char := '/'

  /** Index of the first occurrence of `c` in `s`. */
  function IndexOf(s: string, c: char): (i: nat)
    requires c in s
    ensures i < |s| && s[i] == c
    ensures c !in s[..i]
  {
    if s[0] == c then 0
    else
      assert s == [s[0]] + s[1..];
      var j := IndexOf(s[1..], c);
      assert s[..j + 1] == [s[0]] + s[1..][..j];
      j + 1
  }

  /** strings.TrimLeft(s, string(c)): drops every leading `c` (see TrimLeftSpec). */
  function TrimLeft(s: string, c: char): (r: string)
    ensures |r| <= |s|
    decreases |s|
  {
    if |s| > 0 && s[0] == c then TrimLeft(s[1..], c) else s
  }

  /** TrimLeft leaves a suffix of `s` that does not start with `c`, and drops only `c`s. */
  lemma {:induction false} TrimLeftSpec(s: string, c: char)
    ensures var r := TrimLeft(s, c);
      r == s[|s| - |r|..] &&
      (forall i :: 0 <= i < |s| - |r| ==> s[i] == c) &&
      (r == [] || r[0] != c)
    decreases |s|
  {
    if |s| > 0 && s[0] == c {
      TrimLeftSpec(s[1..], c);
    }
  }

  /** strings.TrimRight(s, string(c)): drops every trailing `c` (see TrimRightSpec). */
  function TrimRight(s: string, c: char): (r: string)
    ensures |r| <= |s|
    decreases |s|
  {
    if |s| > 0 && s[|s| - 1] == c then TrimRight(s[..|s| - 1], c) else s
  }

  /** TrimRight leaves a prefix of `s` that does not end with `c`, and drops only `c`s. */
  lemma {:induction false} TrimRightSpec(s: string, c: char)
    ensures var r := TrimRight(s, c);
      r == s[..|r|] &&
      (forall i :: |r| <= i < |s| ==> s[i] == c) &&
      (r == [] || r[|r| - 1] != c)
    decreases |s|
  {
    if |s| > 0 && s[|s| - 1] == c {
      TrimRightSpec(s[..|s| - 1], c);
    }
  }

  /**
   * strings.Trim(s, string(c)): `s` without its leading and trailing `c`s
   * (TrimBounds says that nothing else is dropped).
   */
  function Trim(s: string, c: char): (r: string)
    ensures |r| <= |s|
    ensures r == [] || (r[0] != c && r[|r| - 1] != c)
  {
    TrimLeftSpec(s, c);
    TrimRightSpec(TrimLeft(s, c), c);
    TrimRight(TrimLeft(s, c), c)
  }

  /** Trim drops only a run of `c`s at each end: the result is a slice of `s` with nothing but `c` around it. */
  lemma TrimBounds(s: string, c: char)
    ensures exists lo :: 0 <= lo <= |s| - |Trim(s, c)| && s[lo..][..|Trim(s, c)|] == Trim(s, c) &&
                         (forall i :: 0 <= i < lo ==> s[i] == c) &&
                         (forall i :: lo + |Trim(s, c)| <= i < |s| ==> s[i] == c)
  {
    var left := TrimLeft(s, c);
    var r := Trim(s, c);
    TrimLeftSpec(s, c);
    TrimRightSpec(left, c);
    var lo := |s| - |left|;
    assert s[lo..][..|r|] == r;
  }

  /** strings.Join(parts, string(c)). */
  function Join(parts: seq<string>, c: char): string
  {
    if |parts| == 0 then ""
    else if |parts| == 1 then parts[0]
    else parts[0] + [c] + Join(parts[1..], c)
  }

  /**
   * strings.Split(s, string(c)): the pieces between the occurrences of `c`.
   * There is always at least one piece ("" splits to [""]), no piece holds
   * `c`, and joining the pieces gives `s` back.
   */
  function Split(s: string, c: char): (r: seq<string>)
    ensures |r| >= 1
    ensures forall i :: 0 <= i < |r| ==> c !in r[i]
    ensures Join(r, c) == s
    decreases |s|
  {
    if c !in s then [s]
    else
      var i := IndexOf(s, c);
      var rest := Split(s[i + 1..], c);
      assert ([s[..i]] + rest)[1..] == rest;
      assert s == s[..i] + [c] + s[i + 1..];
      [s[..i]] + rest
  }

  /** A position holding `c` with no `c` before it is the first occurrence. */
  lemma IndexOfAt(s: string, c: char, n: nat)
    requires n < |s| && s[n] == c && c !in s[..n]
    ensures IndexOf(s, c) == n
  {
    var i := IndexOf(s, c);
    if i != n {
      assert false;
    }
  }

  /** Splitting at a first separator peels off the piece before it. */
  lemma SplitCons(a: string, c: char, b: string)
    requires c !in a
    ensures Split(a + [c] + b, c) == [a] + Split(b, c)
  {
    var s := a + [c] + b;
    assert s[..|a|] == a;
    assert s[|a|] == c;
    IndexOfAt(s, c, |a|);
    assert s[|a| + 1..] == b;
  }

  /** Splitting a join of separator-free pieces gives the pieces back. */
  lemma {:induction false} SplitJoin(parts: seq<string>, c: char)
    requires |parts| >= 1
    requires forall i :: 0 <= i < |parts| ==> c !in parts[i]
    ensures Split(Join(parts, c), c) == parts
    decreases |parts|
  {
    if |parts| > 1 {
      var tail := parts[1..];
      SplitCons(parts[0], c, Join(tail, c));
      SplitJoin(tail, c);
      assert parts == [parts[0]] + tail;
    }
  }

  /** The elements of `elems` that are not the empty string, in order. */
  function NonEmpty(elems: seq<string>): (r: seq<string>)
    ensures |r| <= |elems|
    ensures forall x :: x in r <==> x in elems && x != ""
  {
    if |elems| == 0 then []
    else
      var rest := NonEmpty(elems[1..]);
      assert elems == [elems[0]] + elems[1..];
      if elems[0] == "" then rest else [elems[0]] + rest
  }

  /** Dropping empty elements changes nothing when there are none. */
  lemma {:induction false} NonEmptyKeepsAll(elems: seq<string>)
    requires forall i :: 0 <= i < |elems| ==> elems[i] != ""
    ensures NonEmpty(elems) == elems
    decreases |elems|
  {
    if |elems| > 0 {
      NonEmptyKeepsAll(elems[1..]);
    }
  }

  /** No segment is "." or "..", the two names path cleaning rewrites. */
  predicate NoDotSegments(segs: seq<string>)
  {
    forall i :: 0 <= i < |segs| ==> segs[i] != "." && segs[i] != ".."
  }

  /**
   * Segments in the form path cleaning leaves them: no "." segment, and
   * every ".." segment comes before all other segments.
   */
  predicate IsClean(segs: seq<string>)
  {
    (forall i :: 0 <= i < |segs| ==> segs[i] != ".") &&
    (forall i, j :: 0 <= i < j < |segs| && segs[j] == ".." ==> segs[i] == "..")
  }

  /**
   * One step of filepath.Clean on a relative path: "." is dropped, ".."
   * removes the last kept segment unless that is itself ".." (or there is
   * none, in which case ".." is kept), any other segment is kept.
   */
  function CleanStep(kept: seq<string>, seg: string): seq<string>
  {
    if seg == "." then kept
    else if seg == ".." then
      if |kept| > 0 && kept[|kept| - 1] != ".." then kept[..|kept| - 1] else kept + [".."]
    else kept + [seg]
  }

  /**
   * filepath.Clean on the segments of a relative path, left to right. The
   * result is clean, no longer than the input, and holds only input
   * segments and "..".
   */
  function CleanSegments(segs: seq<string>): (r: seq<string>)
    ensures |r| <= |segs|
    ensures IsClean(r)
    ensures forall i :: 0 <= i < |r| ==> r[i] == ".." || r[i] in segs
    decreases |segs|
  {
    if |segs| == 0 then []
    else
      var init := segs[..|segs| - 1];
      var kept := CleanSegments(init);
      assert forall x :: x in init ==> x in segs;
      CleanStep(kept, segs[|segs| - 1])
  }

  /** Cleaning leaves clean segments as they are. */
  lemma {:induction false} CleanKeepsClean(segs: seq<string>)
    requires IsClean(segs)
    ensures CleanSegments(segs) == segs
    decreases |segs|
  {
    if |segs| > 0 {
      var init := segs[..|segs| - 1];
      CleanKeepsClean(init);
      assert segs == init + [segs[|segs| - 1]];
    }
  }

  /** Cleaning is idempotent. */
  lemma CleanIdempotent(segs: seq<string>)
    ensures CleanSegments(CleanSegments(segs)) == CleanSegments(segs)
  {
    CleanKeepsClean(CleanSegments(segs));
  }

  /** Without "." and ".." there is nothing to clean. */
  lemma CleanKeepsPlain(segs: seq<string>)
    requires NoDotSegments(segs)
    ensures CleanSegments(segs) == segs
  {
    CleanKeepsClean(segs);
  }

  /**
   * filepath.Join on separator-free segments: "" when every segment is
   * empty; otherwise the non-empty segments, cleaned, joined with the
   * separator, or "." when cleaning leaves nothing. The result never starts
   * or ends with the separator, and its own segments are non-empty and are
   * either the single "." or clean (JoinPathIdempotent, JoinPathOfPlainSegments).
   */
  function JoinPath(elems: seq<string>): (r: string)
    requires forall i :: 0 <= i < |elems| ==> Separator !in elems[i]
    ensures r == "" <==> forall i :: 0 <= i < |elems| ==> elems[i] == ""
    ensures r == [] || (r[0] != Separator && r[|r| - 1] != Separator)
  {
    var parts := NonEmpty(elems);
    NonEmptyParts(elems, Separator);
    if |parts| == 0 then ""
    else
      var kept := CleanSegments(parts);
      if |kept| == 0 then "."
      else
        CleanedParts(parts);
        JoinShape(kept, Separator);
        Join(kept, Separator)
  }

  /** Cleaning non-empty, separator-free segments keeps them so. */
  lemma CleanedParts(parts: seq<string>)
    requires forall i :: 0 <= i < |parts| ==> parts[i] != "" && Separator !in parts[i]
    ensures var kept := CleanSegments(parts);
      forall i :: 0 <= i < |kept| ==> kept[i] != "" && Separator !in kept[i]
  {
    var kept := CleanSegments(parts);
    forall i | 0 <= i < |kept|
      ensures kept[i] != "" && Separator !in kept[i]
    {
      if kept[i] != ".." {
        var j :| 0 <= j < |parts| && parts[j] == kept[i];
      }
    }
  }

  /** On segments without "." or "..", JoinPath only drops the empty ones: splitting it gives the rest back. */
  lemma JoinPathOfPlainSegments(elems: seq<string>)
    requires forall i :: 0 <= i < |elems| ==> Separator !in elems[i]
    requires NoDotSegments(elems)
    ensures JoinPath(elems) != "" ==> Split(JoinPath(elems), Separator) == NonEmpty(elems)
  {
    var parts := NonEmpty(elems);
    NonEmptyParts(elems, Separator);
    if |parts| > 0 {
      assert forall i :: 0 <= i < |parts| ==> parts[i] in elems;
      CleanKeepsPlain(parts);
      SplitJoin(parts, Separator);
    }
  }

  /** A joined path is already clean: joining its own segments again gives it back. */
  lemma JoinPathIdempotent(elems: seq<string>)
    requires forall i :: 0 <= i < |elems| ==> Separator !in elems[i]
    requires JoinPath(elems) != ""
    ensures JoinPath(Split(JoinPath(elems), Separator)) == JoinPath(elems)
  {
    var parts := NonEmpty(elems);
    NonEmptyParts(elems, Separator);
    var kept := CleanSegments(parts);
    var r := JoinPath(elems);
    if |kept| == 0 {
      assert r == ".";
      assert Split(r, Separator) == ["."];
      assert NonEmpty(["."]) == ["."];
    } else {
      CleanedParts(parts);
      SplitJoin(kept, Separator);
      NonEmptyKeepsAll(kept);
      CleanKeepsClean(kept);
    }
  }

  /**
   * The parts JoinPath joins are non-empty and separator-free, and there are
   * none exactly when every element is empty.
   */
  lemma NonEmptyParts(elems: seq<string>, c: char)
    requires forall i :: 0 <= i < |elems| ==> c !in elems[i]
    ensures var parts := NonEmpty(elems);
      (forall i :: 0 <= i < |parts| ==> parts[i] != "" && c !in parts[i]) &&
      (parts == [] <==> forall i :: 0 <= i < |elems| ==> elems[i] == "")
  {
    var parts := NonEmpty(elems);
    forall i | 0 <= i < |parts|
      ensures parts[i] != "" && c !in parts[i]
    {
      assert parts[i] in parts;
      var j :| 0 <= j < |elems| && elems[j] == parts[i];
    }
    if parts != [] {
      assert parts[0] in elems;
    }
  }

  /** A join of non-empty, separator-free pieces is non-empty and neither starts nor ends with the separator. */
  lemma {:induction false} JoinShape(parts: seq<string>, c: char)
    requires |parts| >= 1
    requires forall i :: 0 <= i < |parts| ==> parts[i] != "" && c !in parts[i]
    ensures var s := Join(parts, c); s != "" && s[0] != c && s[|s| - 1] != c
    decreases |parts|
  {
    if |parts| > 1 {
      JoinShape(parts[1..], c);
      assert parts[0][0] in parts[0];
    } else {
      assert parts[0][0] in parts[0] && parts[0][|parts[0]| - 1] in parts[0];
    }
  }
}
