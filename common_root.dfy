/**
 * The common-root resolver (findCommonRoot): the longest segment-wise
 * common prefix of the watched paths, rendered as one directory path that
 * starts and ends with the separator.
 */
module CommonRoot {
  import opened Paths

  /** findCommonRoot's outcome: a list of roots, or its error. */
  datatype RootResult = Ok(roots: seq<string>) | Err(error: string)

  const NoCommonRootError: string := "could not find common root of directories"

  /** strings.Split(strings.Trim(p, "/"), "/"): the segments of a path. */
  function Segments(p: string): (r: seq<string>)
    ensures |r| >= 1
    ensures forall i :: 0 <= i < |r| ==> Separator !in r[i]
  {
    Split(Trim(p, Separator), Separator)
  }

  /** The segments of each path, in order. */
  function SegmentsOf(names: seq<string>): seq<seq<string>>
  {
    seq(|names|, j requires 0 <= j < |names| => Segments(names[j]))
  }

  /** `q` is a prefix of every segment list in `paths`. */
  ghost predicate IsCommonPrefix(q: seq<string>, paths: seq<seq<string>>)
  {
    forall j :: 0 <= j < |paths| ==> q <= paths[j]
  }

  /** `q` is a common prefix of `paths` and no common prefix is longer. */
  ghost predicate IsLongestCommonPrefix(q: seq<string>, paths: seq<seq<string>>)
  {
    IsCommonPrefix(q, paths) && forall q' :: IsCommonPrefix(q', paths) ==> |q'| <= |q|
  }

  /**
   * What findCommonRoot's inner loop computes: the length of the longest
   * common prefix of `a` and `b` that is no longer than `bound`.
   */
  function MatchLen(a: seq<string>, b: seq<string>, bound: nat): (k: nat)
    requires bound <= |a|
    ensures k <= bound && k <= |b|
    ensures a[..k] == b[..k]
    ensures k < bound && k < |b| ==> a[k] != b[k]
    decreases bound
  {
    if bound == 0 || |b| == 0 || a[0] != b[0] then 0
    else
      var k := MatchLen(a[1..], b[1..], bound - 1);
      assert a[..k + 1] == [a[0]] + a[1..][..k];
      assert b[..k + 1] == [b[0]] + b[1..][..k];
      k + 1
  }

  /** The three properties MatchLen promises single out its result. */
  lemma MatchLenUnique(a: seq<string>, b: seq<string>, bound: nat, m: nat)
    requires bound <= |a|
    requires m <= bound && m <= |b| && a[..m] == b[..m]
    requires m < bound && m < |b| ==> a[m] != b[m]
    ensures m == MatchLen(a, b, bound)
  {
    var k := MatchLen(a, b, bound);
    if m != k {
      assert false;
    }
  }

  /**
   * What findCommonRoot's outer loop keeps in rootLength: the number of
   * leading segments of `root` still shared after each segment list of
   * `paths` has been matched against it in turn, starting from all of `root`.
   */
  function Shared(root: seq<string>, paths: seq<seq<string>>): (k: nat)
    ensures k <= |root|
    decreases |paths|
  {
    if |paths| == 0 then |root|
    else MatchLen(root, paths[|paths| - 1], Shared(root, paths[..|paths| - 1]))
  }

  /** Matching one more path never lets the shared count grow. */
  lemma SharedNonIncreasing(root: seq<string>, paths: seq<seq<string>>, n: nat)
    requires n < |paths|
    ensures Shared(root, paths[..n + 1]) <= Shared(root, paths[..n])
  {
    assert paths[..n + 1][..n] == paths[..n];
  }

  /** One step of the outer loop: matching the next path continues the shared count. */
  lemma SharedStep(root: seq<string>, paths: seq<seq<string>>, n: nat, m: nat)
    requires n < |paths| && Shared(root, paths[..n]) <= |root|
    requires m == MatchLen(root, paths[n], Shared(root, paths[..n]))
    ensures m == Shared(root, paths[..n + 1])
    ensures IsCommonPrefix(root[..m], paths[..n + 1])
  {
    assert paths[..n + 1][..n] == paths[..n];
    assert paths[..n + 1][n] == paths[n];
    SharedIsCommon(root, paths[..n + 1]);
  }

  /** The shared segments of `root` are a prefix of every path matched so far. */
  lemma {:induction false} SharedIsCommon(root: seq<string>, paths: seq<seq<string>>)
    ensures IsCommonPrefix(root[..Shared(root, paths)], paths)
    decreases |paths|
  {
    if |paths| > 0 {
      var init := paths[..|paths| - 1];
      SharedIsCommon(root, init);
      var k0 := Shared(root, init);
      var k := Shared(root, paths);
      forall j | 0 <= j < |paths|
        ensures root[..k] <= paths[j]
      {
        if j < |init| {
          assert paths[j] == init[j];
          assert root[..k] <= root[..k0];
        }
      }
    }
  }

  /** No prefix of `root` shared by every path is longer than the shared count. */
  lemma {:induction false} SharedIsMaximal(root: seq<string>, paths: seq<seq<string>>, q: seq<string>)
    requires q <= root && IsCommonPrefix(q, paths)
    ensures |q| <= Shared(root, paths)
    decreases |paths|
  {
    if |paths| > 0 {
      var init := paths[..|paths| - 1];
      forall j | 0 <= j < |init|
        ensures q <= init[j]
      {
        assert init[j] == paths[j];
      }
      SharedIsMaximal(root, init, q);
      assert q <= paths[|paths| - 1];
    }
  }

  /**
   * findCommonRoot as a function: no roots for no paths; otherwise the
   * segments of the first path that every path shares, joined between a
   * leading and a trailing separator, or an error when none is shared.
   */
  function RootOf(names: seq<string>): (r: RootResult)
    ensures |names| == 0 ==> r == Ok([])
    ensures r.Err? ==> r.error == NoCommonRootError
    ensures r.Ok? && |names| > 0 ==> |r.roots| == 1 && |r.roots[0]| >= 2 &&
                                     r.roots[0][0] == Separator && r.roots[0][|r.roots[0]| - 1] == Separator
  {
    if |names| == 0 then Ok([])
    else
      var root := Segments(names[0]);
      var k := Shared(root, SegmentsOf(names));
      if k == 0 then Err(NoCommonRootError)
      else Ok([[Separator] + JoinPath(root[..k]) + [Separator]])
  }

  /** Every non-empty list of paths has a longest common segment prefix. */
  lemma LongestCommonPrefixExists(names: seq<string>)
    requires |names| > 0
    ensures exists p :: IsLongestCommonPrefix(p, SegmentsOf(names))
  {
    var paths := SegmentsOf(names);
    var root := paths[0];
    var p := root[..Shared(root, paths)];
    SharedIsCommon(root, paths);
    forall q | IsCommonPrefix(q, paths)
      ensures |q| <= |p|
    {
      SharedIsMaximal(root, paths, q);
    }
    assert IsLongestCommonPrefix(p, paths);
  }

  /**
   * The meaning of findCommonRoot on a non-empty list: with `p` the longest
   * common segment prefix of the paths, it fails exactly when `p` is empty
   * and otherwise returns the single root "/" + p joined + "/".
   */
  lemma RootIsLongestCommonPrefix(names: seq<string>, p: seq<string>)
    requires |names| > 0
    requires IsLongestCommonPrefix(p, SegmentsOf(names))
    ensures p <= Segments(names[0])
    ensures RootOf(names) == if p == [] then Err(NoCommonRootError) else Ok([[Separator] + JoinPath(p) + [Separator]])
  {
    var paths := SegmentsOf(names);
    var root := paths[0];
    var k := Shared(root, paths);
    assert p <= root;
    SharedIsCommon(root, paths);
    assert IsCommonPrefix(root[..k], paths);
    assert |root[..k]| <= |p|;
    SharedIsMaximal(root, paths, p);
    assert p == root[..k];
  }

  /** A common prefix of the paths of one list is one of every list whose paths it holds. */
  lemma CommonPrefixOfSubset(names: seq<string>, names': seq<string>, q: seq<string>)
    requires forall x :: x in names ==> x in names'
    requires IsCommonPrefix(q, SegmentsOf(names'))
    ensures IsCommonPrefix(q, SegmentsOf(names))
  {
    var paths, paths' := SegmentsOf(names), SegmentsOf(names');
    forall j | 0 <= j < |paths|
      ensures q <= paths[j]
    {
      assert names[j] in names';
      var i :| 0 <= i < |names'| && names'[i] == names[j];
      assert paths'[i] == paths[j];
    }
  }

  /**
   * Which path comes first decides which path's segments seed the search,
   * not the outcome: two lists holding the same paths have the same root.
   */
  lemma RootOrderIndependent(names: seq<string>, names': seq<string>)
    requires |names| > 0 && |names'| > 0
    requires forall x :: x in names <==> x in names'
    ensures RootOf(names) == RootOf(names')
  {
    var paths, paths' := SegmentsOf(names), SegmentsOf(names');
    LongestCommonPrefixExists(names);
    var p :| IsLongestCommonPrefix(p, paths);
    CommonPrefixOfSubset(names', names, p);
    forall q | IsCommonPrefix(q, paths')
      ensures |q| <= |p|
    {
      CommonPrefixOfSubset(names, names', q);
    }
    assert IsLongestCommonPrefix(p, paths');
    RootIsLongestCommonPrefix(names, p);
    RootIsLongestCommonPrefix(names', p);
  }

  /** A single path is its own root: the search never fails for one path. */
  lemma SinglePathRoot(p: string)
    ensures RootOf([p]) == Ok([[Separator] + JoinPath(Segments(p)) + [Separator]])
  {
    var root := Segments(p);
    var paths := SegmentsOf([p]);
    assert paths == [root];
    assert paths[..0] == [];
    MatchLenUnique(root, root, |root|, |root|);
    assert Shared(root, paths) == |root|;
    assert root[..|root|] == root;
  }

  /** Paths whose first segments already differ have no common root. */
  lemma DivergentPathsHaveNoRoot(names: seq<string>)
    requires |names| >= 2
    requires Segments(names[0])[0] != Segments(names[1])[0]
    ensures RootOf(names) == Err(NoCommonRootError)
  {
    var paths := SegmentsOf(names);
    assert paths[0] == Segments(names[0]) && paths[1] == Segments(names[1]);
    SharedIsCommon(paths[0], paths);
  }

  /** The segments of a path that is one separator followed by separator-free, non-empty parts. */
  lemma SegmentsOfSimplePath(parts: seq<string>)
    requires |parts| >= 1
    requires forall i :: 0 <= i < |parts| ==> parts[i] != "" && Separator !in parts[i]
    ensures Segments([Separator] + Join(parts, Separator)) == parts
  {
    var body := Join(parts, Separator);
    var s := [Separator] + body;
    JoinShape(parts, Separator);
    assert s[1..] == body;
    assert TrimLeft(s[1..], Separator) == body;
    assert TrimLeft(s, Separator) == body;
    assert TrimRight(body, Separator) == body;
    SplitJoin(parts, Separator);
  }

  /**
   * A single clean absolute directory is its own root, with a trailing
   * separator added: "/a/b/c" alone yields "/a/b/c/".
   */
  lemma SingleDirectoryIsItsOwnRoot(parts: seq<string>)
    requires |parts| >= 1
    requires forall i :: 0 <= i < |parts| ==> parts[i] != "" && Separator !in parts[i]
    requires NoDotSegments(parts)
    ensures RootOf([[Separator] + Join(parts, Separator)]) == Ok([[Separator] + Join(parts, Separator) + [Separator]])
  {
    SegmentsOfSimplePath(parts);
    SinglePathRoot([Separator] + Join(parts, Separator));
    NonEmptyKeepsAll(parts);
    CleanKeepsPlain(parts);
  }

  /**
   * The inner loop of findCommonRoot: walks `rootSplit` and `split` in
   * lockstep while fewer than `rootLength` segments have matched, and stops
   * at the first segment that differs.
   */
  method CommonLength(rootSplit: seq<string>, split: seq<string>, rootLength: nat) returns (commonLength: nat)
    requires rootLength <= |rootSplit|
    ensures commonLength == MatchLen(rootSplit, split, rootLength)
  {
    commonLength := 0;
    var i := 0;
    while i < rootLength && i < |split|
      invariant i <= rootLength && i <= |split|
      invariant commonLength == i
      invariant forall j :: 0 <= j < i ==> rootSplit[j] == split[j]
    {
      if rootSplit[i] != split[i] {
        break;
      }
      commonLength := i + 1;
      i := i + 1;
    }
    assert rootSplit[..i] == split[..i];
    MatchLenUnique(rootSplit, split, rootLength, commonLength);
  }

  /**
   * findCommonRoot: seeds rootLength with the segment count of the first
   * path, then shrinks it to the common prefix with each path in turn.
   */
  method FindCommonRoot(names: seq<string>) returns (r: RootResult)
    ensures r == RootOf(names)
  {
    if |names| == 0 {
      return Ok([]);
    }
    var rootSplit := Segments(names[0]);
    var rootLength := |rootSplit|;
    ghost var paths := SegmentsOf(names);
    for n := 0 to |names|
      invariant rootLength <= |rootSplit|
      invariant rootLength == Shared(rootSplit, paths[..n])
      invariant IsCommonPrefix(rootSplit[..rootLength], paths[..n])
    {
      var split := Segments(names[n]);
      var commonLength := CommonLength(rootSplit, split, rootLength);
      SharedStep(rootSplit, paths, n, commonLength);
      rootLength := commonLength;
    }
    assert paths[..|names|] == paths;
    if rootLength == 0 {
      return Err(NoCommonRootError);
    }
    return Ok([[Separator] + JoinPath(rootSplit[..rootLength]) + [Separator]]);
  }
}
