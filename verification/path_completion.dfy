/**
 * Shell completion of qualified paths (src/cli/completion/path.rs). A completer first
 * filters (and, relative to a current path, rewrites) the known paths against the typed
 * prefix, then `complete` offers either the single match, or the distinct next-segment
 * candidates, or every match in full when they all share one candidate.
 */
module PathCompletion {
  import opened Wrappers
  import opened Strings
  import opened QualifiedPaths

  /** Pairwise distinct entries. */
  predicate Distinct(s: seq<string>)
  {
    forall i, j | 0 <= i < j < |s| :: s[i] != s[j]
  }

  /** The distinct entries of `s` in order of first occurrence. */
  function Dedup(s: seq<string>): (r: seq<string>)
    ensures Distinct(r)
    ensures forall x :: x in r <==> x in s
    ensures |r| <= |s|
  {
    if |s| == 0 then []
    else
      var rest := Dedup(s[..|s| - 1]);
      if s[|s| - 1] in rest then rest else rest + [s[|s| - 1]]
  }

  /** The candidate a match yields: its first `index` segments, with `/` if it goes on. */
  function Candidate(path: QualifiedPath, index: nat): string
    requires index <= |path|
  {
    ToString(TrimNRight(path, index)) + (if |path| == index then "" else "/")
  }

  function Candidates(filtered: seq<QualifiedPath>, index: nat): (r: seq<string>)
    requires forall t | 0 <= t < |filtered| :: index <= |filtered[t]|
    ensures |r| == |filtered|
    ensures forall t | 0 <= t < |r| :: r[t] == Candidate(filtered[t], index)
  {
    seq(|filtered|, t requires 0 <= t < |filtered| => Candidate(filtered[t], index))
  }

  function InFull(filtered: seq<QualifiedPath>): (r: seq<string>)
    ensures |r| == |filtered|
    ensures forall t | 0 <= t < |r| :: r[t] == ToString(filtered[t])
  {
    seq(|filtered|, t requires 0 <= t < |filtered| => ToString(filtered[t]))
  }

  /**
   * `complete(prefix, paths)` once the paths are filtered: no match gives nothing, one
   * match gives that path, several give their distinct candidates unless there is only
   * one, in which case every match is given in full. Cutting a match at `prefix.len()`
   * needs it to be at least that long, which both filters guarantee.
   */
  function Complete(prefix: QualifiedPath, filtered: seq<QualifiedPath>): (r: seq<string>)
    requires forall t | 0 <= t < |filtered| :: |prefix| <= |filtered[t]|
    ensures |filtered| == 0 ==> r == []
    ensures |filtered| == 1 ==> r == [ToString(filtered[0])]
    ensures |filtered| >= 2 && |Dedup(Candidates(filtered, |prefix|))| == 1 ==> r == InFull(filtered)
    ensures |filtered| >= 2 && |Dedup(Candidates(filtered, |prefix|))| != 1 ==>
      && Distinct(r) && |r| >= 2
      && forall x :: x in r <==> exists t | 0 <= t < |filtered| :: x == Candidate(filtered[t], |prefix|)
  {
    if |filtered| == 0 then []
    else if |filtered| == 1 then [ToString(filtered[0])]
    else
      var all := Dedup(Candidates(filtered, |prefix|));
      assert Candidates(filtered, |prefix|)[0] in all;
      if |all| == 1 then InFull(filtered) else all
  }

  // ------------------------------------------------------------------ absolute completion

  /** `AbsolutePathCompletion::transform_and_filter_path`: the paths starting with the prefix. */
  function AbsoluteFilter(prefix: QualifiedPath, paths: seq<QualifiedPath>): (r: seq<QualifiedPath>)
    ensures forall p | p in r :: p in paths && StartsWith(p, prefix)
    ensures forall p | p in paths && StartsWith(p, prefix) :: p in r
    ensures |r| <= |paths|
  {
    if |paths| == 0 then []
    else
      var rest := AbsoluteFilter(prefix, paths[1..]);
      assert forall p | p in paths :: p == paths[0] || p in paths[1..];
      if StartsWith(paths[0], prefix) then [paths[0]] + rest else rest
  }

  /** Every non-empty path the absolute filter keeps is at least as long as the prefix. */
  lemma AbsoluteMatchesAreLongEnough(prefix: QualifiedPath, paths: seq<QualifiedPath>)
    requires forall p | p in paths :: |p| >= 1
    ensures forall p | p in AbsoluteFilter(prefix, paths) :: |prefix| <= |p|
  {
    forall p | p in AbsoluteFilter(prefix, paths)
      ensures |prefix| <= |p|
    {
      StartsWithLength(p, prefix);
    }
  }

  /** `AbsolutePathCompletion::complete`; every known path has at least one segment. */
  function AbsoluteComplete(prefix: QualifiedPath, paths: seq<QualifiedPath>): seq<string>
    requires forall p | p in paths :: |p| >= 1
  {
    AbsoluteMatchesAreLongEnough(prefix, paths);
    Complete(prefix, AbsoluteFilter(prefix, paths))
  }

  // ------------------------------------------------------------------ relative completion

  /** A prefix ending in `.` or `..` is read as that directory: one empty segment is added. */
  function TransformedPrefix(prefix: QualifiedPath): (r: QualifiedPath)
    ensures |r| == |prefix| || |r| == |prefix| + 1
    ensures r[..|prefix|] == prefix
  {
    match Last(prefix)
    case Some(s) => if s == "." || s == ".." then Add(prefix, FromStr("")) else prefix
    case None => prefix
  }

  /** The rewritten match: the prefix without its last segment, then the path below the current position. */
  function Rewritten(transformed: QualifiedPath, path: QualifiedPath, index: nat): (r: QualifiedPath)
    requires |transformed| >= 1 && index <= |path|
    ensures r == transformed[..|transformed| - 1] + path[index..]
  {
    Add(TrimNRight(transformed, |transformed| - 1), TrimNLeft(path, index))
  }

  /** The relative filter keeps a path that starts with the current position and goes past its index. */
  predicate Kept(p: QualifiedPath, position: QualifiedPath, index: nat)
  {
    StartsWith(p, position) && |p| > index
  }

  /** The filter-and-rewrite step of the relative filter over a list of paths. */
  function RelativeFrom(transformed: QualifiedPath, position: QualifiedPath, index: nat,
                        paths: seq<QualifiedPath>): (r: seq<QualifiedPath>)
    requires |transformed| >= 1
    ensures |r| <= |paths|
  {
    if |paths| == 0 then []
    else
      var rest := RelativeFrom(transformed, position, index, paths[1..]);
      if Kept(paths[0], position, index) then [Rewritten(transformed, paths[0], index)] + rest else rest
  }

  /** Everything the relative filter yields is the rewritten form of a kept path. */
  lemma {:induction false} RelativeFromSound(transformed: QualifiedPath, position: QualifiedPath, index: nat,
                                             paths: seq<QualifiedPath>)
    requires |transformed| >= 1
    ensures forall q | q in RelativeFrom(transformed, position, index, paths) ::
      exists p | p in paths && Kept(p, position, index) :: q == Rewritten(transformed, p, index)
  {
    if |paths| > 0 {
      var rest := RelativeFrom(transformed, position, index, paths[1..]);
      RelativeFromSound(transformed, position, index, paths[1..]);
      forall q | q in RelativeFrom(transformed, position, index, paths)
        ensures exists p | p in paths && Kept(p, position, index) :: q == Rewritten(transformed, p, index)
      {
        if Kept(paths[0], position, index) && q == Rewritten(transformed, paths[0], index) {
          assert paths[0] in paths;
        } else {
          assert q in rest;
          var p :| p in paths[1..] && Kept(p, position, index) && q == Rewritten(transformed, p, index);
          assert p in paths;
        }
      }
    }
  }

  /** The relative filter yields the rewritten form of every kept path. */
  lemma {:induction false} RelativeFromComplete(transformed: QualifiedPath, position: QualifiedPath, index: nat,
                                                paths: seq<QualifiedPath>)
    requires |transformed| >= 1
    ensures forall p | p in paths && Kept(p, position, index) ::
      Rewritten(transformed, p, index) in RelativeFrom(transformed, position, index, paths)
  {
    if |paths| > 0 {
      RelativeFromComplete(transformed, position, index, paths[1..]);
      forall p | p in paths && Kept(p, position, index)
        ensures Rewritten(transformed, p, index) in RelativeFrom(transformed, position, index, paths)
      {
        if p != paths[0] {
          assert p in paths[1..];
        }
      }
    }
  }

  /**
   * `RelativePathCompletion::transform_and_filter_path`: the paths starting with the
   * current path followed by the (transformed) prefix and reaching past its last segment,
   * rewritten relative to the current path. The current position must have a segment
   * (`len() - 1`) and the prefix too (`transformed_prefix.len() - 1`).
   */
  function RelativeFilter(current: QualifiedPath, prefix: QualifiedPath, paths: seq<QualifiedPath>)
    : (r: seq<QualifiedPath>)
    requires |prefix| >= 1
  {
    var transformed := TransformedPrefix(prefix);
    var position := Add(current, transformed);
    RelativeFrom(transformed, position, |position| - 1, paths)
  }

  /**
   * A relative match keeps as many segments as the original path has below the current
   * path, and begins with the typed prefix minus its last segment.
   */
  lemma RelativeMatchShape(current: QualifiedPath, prefix: QualifiedPath, path: QualifiedPath)
    requires |prefix| >= 1
    requires StartsWith(path, Add(current, TransformedPrefix(prefix)))
    requires |path| > |current| + |TransformedPrefix(prefix)| - 1
    ensures var q := Rewritten(TransformedPrefix(prefix), path, |current| + |TransformedPrefix(prefix)| - 1);
      |q| == |path| - |current| && q[..|prefix| - 1] == prefix[..|prefix| - 1]
  {
  }

  /** Every relative match of a non-empty path is at least as long as the prefix. */
  lemma RelativeMatchesAreLongEnough(current: QualifiedPath, prefix: QualifiedPath, paths: seq<QualifiedPath>)
    requires |prefix| >= 1
    ensures forall q | q in RelativeFilter(current, prefix, paths) :: |prefix| <= |q|
  {
    var transformed := TransformedPrefix(prefix);
    var position := Add(current, transformed);
    var index := |position| - 1;
    RelativeFromSound(transformed, position, index, paths);
    forall q | q in RelativeFilter(current, prefix, paths)
      ensures |prefix| <= |q|
    {
      var p :| p in paths && Kept(p, position, index) && q == Rewritten(transformed, p, index);
      StartsWithLength(p, position);
    }
  }

  /** `RelativePathCompletion::complete`. */
  function RelativeComplete(current: QualifiedPath, prefix: QualifiedPath, paths: seq<QualifiedPath>): seq<string>
    requires |prefix| >= 1
  {
    RelativeMatchesAreLongEnough(current, prefix, paths);
    Complete(prefix, RelativeFilter(current, prefix, paths))
  }

  // ------------------------------------------------------------------ the empty prefix

  /** `c/` is a prefix of `a/…` exactly when `c` is `a`, neither containing `/`. */
  lemma SlashPrefix(c: string, a: string, t: string)
    requires Separator !in c && Separator !in a
    ensures (c + [Separator] <= a + [Separator] + t) <==> c == a
  {
    var x := c + [Separator];
    var y := a + [Separator] + t;
    if c == a {
      assert y == x + t;
    } else if x <= y {
      PrefixAgrees(x, y, |c|);
      if |a| <= |c| {
        PrefixAgrees(x, y, |a|);
      }
    }
  }

  /** A prefix agrees with the longer string position by position. */
  lemma PrefixAgrees(x: string, y: string, i: nat)
    requires x <= y && i < |x|
    ensures x[i] == y[i] && x[..i] == y[..i]
  {
  }

  /** Standing in the one-segment path `[c]`, the empty prefix keeps exactly the paths below `c`. */
  lemma KeptBelowIff(c: string, p: QualifiedPath)
    requires Separator !in c
    ensures Kept(p, [c, ""], 1) <==> |p| >= 2 && p[0] == c
  {
    var cs: QualifiedPath := [c, ""];
    assert cs[1..] == [""];
    assert Join([""], Separator) == "";
    assert ToString(cs) == c + [Separator] + Join([""], Separator);
    if |p| >= 2 {
      assert ToString(p) == p[0] + [Separator] + ToString(p[1..]);
      SlashPrefix(c, p[0], ToString(p[1..]));
    } else if |p| == 1 {
      assert ToString(p) == p[0];
      if ToString(cs) <= ToString(p) {
        assert ToString(cs)[|c|] in p[0];
      }
    }
  }

  /** The paths strictly below `c`, relative to it, in order. */
  function Below(c: string, paths: seq<QualifiedPath>): seq<QualifiedPath>
  {
    if |paths| == 0 then []
    else if |paths[0]| >= 2 && paths[0][0] == c then [paths[0][1..]] + Below(c, paths[1..])
    else Below(c, paths[1..])
  }

  /**
   * Standing in `[c]` with the empty prefix, the relative filter lists every path strictly
   * below `c`, relative to `c`, in input order.
   */
  lemma {:induction false} EmptyPrefixListsPathsBelow(c: string, paths: seq<QualifiedPath>)
    requires Separator !in c
    ensures RelativeFilter([c], [""], paths) == Below(c, paths)
  {
    assert TransformedPrefix([""]) == [""];
    assert Add([c], [""]) == [c, ""];
    RelativeFromBelow(c, paths);
  }

  lemma {:induction false} RelativeFromBelow(c: string, paths: seq<QualifiedPath>)
    requires Separator !in c
    ensures RelativeFrom([""], [c, ""], 1, paths) == Below(c, paths)
  {
    if |paths| > 0 {
      KeptBelowIff(c, paths[0]);
      RelativeFromBelow(c, paths[1..]);
    }
  }

  /**
   * Standing in the virtual root (the empty current path) with the empty prefix, the
   * relative filter lists every non-empty path unchanged.
   */
  lemma FromVirtualRootListsAll(paths: seq<QualifiedPath>)
    requires forall p | p in paths :: |p| >= 1
    ensures RelativeFilter([], [""], paths) == paths
  {
    assert TransformedPrefix([""]) == [""];
    assert Add([], [""]) == [""];
    VirtualRootKeepsAll(paths);
  }

  lemma {:induction false} VirtualRootKeepsAll(paths: seq<QualifiedPath>)
    requires forall p | p in paths :: |p| >= 1
    ensures RelativeFrom([""], [""], 0, paths) == paths
  {
    if |paths| > 0 {
      assert ToString([""]) == "";
      assert Kept(paths[0], [""], 0);
      VirtualRootKeepsAll(paths[1..]);
      assert paths == [paths[0]] + paths[1..];
    }
  }
}
