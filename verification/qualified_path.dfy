/**
 * QualifiedPath: a branch name seen as a sequence of segments, and its encoding to
 * the flat native branch name of the version-control tool (every non-final segment
 * escaped with `_`, segments joined with `/`).
 */
module QualifiedPaths {
  import opened Strings
  import opened Wrappers

  const Separator: char := '/'
  const Escape: char := '_'
  const CheckoutMarker: char := '*'

  /**
   * The segments of a path. Every path is built by `push`, which splits what it
   * appends on `/`, so no segment ever contains the separator.
   */
  type QualifiedPath = s: seq<string> | NoneContains(s, Separator)

  /** `push(s)`: appends the `/`-separated pieces of `s`. */
  function Push(p: QualifiedPath, s: string): (r: QualifiedPath)
    ensures |r| == |p| + Count(s, Separator) + 1
    ensures r[..|p|] == p && Join(r[|p|..], Separator) == s
  {
    SplitPiecesHaveNoSeparator(s, Separator);
    SplitCount(s, Separator);
    JoinSplit(s, Separator);
    var pieces := Split(s, Separator);
    assert (p + pieces)[|p|..] == pieces;
    p + pieces
  }

  /** Pushing a name without a separator appends exactly that one segment. */
  lemma PushSegment(p: QualifiedPath, s: string)
    requires Separator !in s
    ensures Push(p, s) == p + [s]
  {
    SplitWithoutSeparator(s, Separator);
  }

  /** `From<String>`: a native branch name, with every `*` and `_` removed and trimmed, then split. */
  function FromString(value: string): (r: QualifiedPath)
    ensures |r| >= 1
  {
    Push([], Trim(Remove(Remove(value, CheckoutMarker), Escape)))
  }

  /** `From<&str>`: split on `/`, nothing removed. */
  function FromStr(value: string): (r: QualifiedPath)
    ensures |r| >= 1 && Join(r, Separator) == value
  {
    Push([], value)
  }

  /** `From<Vec<String>>`: every element pushed in turn. */
  function FromSegments(value: seq<string>): (r: QualifiedPath)
    ensures NoneContains(value, Separator) ==> r == value
  {
    if |value| == 0 then []
    else
      var init := FromSegments(value[..|value| - 1]);
      var r := Push(init, value[|value| - 1]);
      if NoneContains(value, Separator) then
        assert NoneContains(value[..|value| - 1], Separator);
        SplitWithoutSeparator(value[|value| - 1], Separator);
        assert value == value[..|value| - 1] + [value[|value| - 1]];
        r
      else r
  }

  /** The loop of `From<Vec<String>>`, pushing element after element. */
  method FromVec(value: seq<string>) returns (path: QualifiedPath)
    ensures path == FromSegments(value)
  {
    path := [];
    var i := 0;
    while i < |value|
      invariant 0 <= i <= |value|
      invariant path == FromSegments(value[..i])
    {
      assert value[..i + 1][..i] == value[..i];
      path := Push(path, value[i]);
      i := i + 1;
    }
    assert value[..|value|] == value;
  }

  /** `to_string`: the segments joined with `/`, without escaping. */
  function ToString(p: QualifiedPath): string
  {
    Join(p, Separator)
  }

  /** The segments `_` is put in front of. */
  function Escaped(segs: seq<string>): (r: seq<string>)
    ensures |r| == |segs|
    ensures forall i | 0 <= i < |segs| :: r[i] == [Escape] + segs[i]
  {
    seq(|segs|, i requires 0 <= i < |segs| => [Escape] + segs[i])
  }

  /**
   * `to_git_branch`: the native branch name. The empty path is outside the domain
   * (`len() - 1` underflows).
   */
  function ToGitBranch(p: QualifiedPath): string
    requires |p| >= 1
  {
    if |p| == 1 then p[0]
    else Join(Escaped(p[..|p| - 1]) + [p[|p| - 1]], Separator)
  }

  /** `trim_n(l, r)`: the segments from `l` up to (excluding) `r`, rebuilt through `From<Vec>`. */
  function TrimN(p: QualifiedPath, left: nat, right: nat): (r: QualifiedPath)
    requires left <= right <= |p|
    ensures r == p[left..right]
  {
    assert NoneContains(p[left..right], Separator);
    FromSegments(p[left..right])
  }

  /** `trim_n_left(n)` (also `strip_n_left`): drops the first `n` segments. */
  function TrimNLeft(p: QualifiedPath, n: nat): (r: QualifiedPath)
    requires n <= |p|
    ensures r == p[n..] && p == p[..n] + r
  {
    TrimN(p, n, |p|)
  }

  /** `trim_n_right(n)` (also `strip_n_right`): KEEPS the first `n` segments. */
  function TrimNRight(p: QualifiedPath, n: nat): (r: QualifiedPath)
    requires n <= |p|
    ensures |r| == n && r <= p
  {
    TrimN(p, 0, n)
  }

  /** `a + b`: the segments of both, rebuilt through `From<Vec>`. */
  function Add(a: QualifiedPath, b: QualifiedPath): (r: QualifiedPath)
    ensures |r| == |a| + |b| && r[..|a|] == a && r[|a|..] == b
  {
    assert NoneContains(a + b, Separator);
    FromSegments(a + b)
  }

  /** `starts_with`: compares the joined strings, NOT the segments. */
  predicate StartsWith(p: QualifiedPath, prefix: QualifiedPath)
  {
    ToString(prefix) <= ToString(p)
  }

  function First(p: QualifiedPath): (r: Option<string>)
    ensures r.Some? <==> |p| > 0
    ensures r.Some? ==> r.value == p[0]
  {
    if |p| == 0 then None else Some(p[0])
  }

  function Last(p: QualifiedPath): (r: Option<string>)
    ensures r.Some? <==> |p| > 0
    ensures r.Some? ==> r.value == p[|p| - 1]
  {
    if |p| == 0 then None else Some(p[|p| - 1])
  }

  /**
   * `get(i)`: the i-th segment, converted back through `From<String>`, so that
   * `*`, `_` and edge whitespace are stripped from it.
   */
  function Get(p: QualifiedPath, index: nat): (r: Option<QualifiedPath>)
    ensures r.Some? <==> index < |p|
    ensures r.Some? ==> ToString(r.value) == Trim(Remove(Remove(p[index], CheckoutMarker), Escape))
  {
    if index < |p| then
      var v := Trim(Remove(Remove(p[index], CheckoutMarker), Escape));
      JoinSplit(v, Separator);
      Some(FromString(p[index]))
    else None
  }

  // ------------------------------------------------------------------ encoding

  /** A segment the encoding can carry: no `/`, `_` or `*`, and no whitespace at its ends. */
  predicate Plain(segment: string)
  {
    Separator !in segment && Escape !in segment && CheckoutMarker !in segment
    && NoEdgeWhitespace(segment)
  }

  function RemoveEach(segs: seq<string>, c: char): (r: seq<string>)
    ensures |r| == |segs|
    ensures forall i | 0 <= i < |segs| :: r[i] == Remove(segs[i], c)
  {
    seq(|segs|, i requires 0 <= i < |segs| => Remove(segs[i], c))
  }

  lemma {:induction false} RemoveJoin(segs: seq<string>, sep: char, c: char)
    requires c != sep
    ensures Remove(Join(segs, sep), c) == Join(RemoveEach(segs, c), sep)
  {
    if |segs| > 1 {
      RemoveJoin(segs[1..], sep, c);
      RemoveAppend(segs[0] + [sep], Join(segs[1..], sep), c);
      RemoveAppend(segs[0], [sep], c);
      assert Remove([sep], c) == [sep];
      assert RemoveEach(segs, c)[1..] == RemoveEach(segs[1..], c);
    }
  }

  lemma {:induction false} JoinNoEdgeWhitespace(segs: seq<string>, sep: char)
    requires !IsWhitespace(sep)
    requires forall i | 0 <= i < |segs| :: NoEdgeWhitespace(segs[i])
    ensures NoEdgeWhitespace(Join(segs, sep))
  {
    if |segs| > 1 {
      JoinNoEdgeWhitespace(segs[1..], sep);
      var rest := Join(segs[1..], sep);
      var j := segs[0] + [sep] + rest;
      assert |segs[0]| > 0 ==> j[0] == segs[0][0];
      assert |segs[0]| == 0 ==> j[0] == sep;
      assert |rest| > 0 ==> j[|j| - 1] == rest[|rest| - 1];
      assert |rest| == 0 ==> j[|j| - 1] == sep;
    }
  }

  /** The encoding as one join, uniformly for one and for several segments. */
  lemma EncodingIsJoin(p: QualifiedPath)
    requires |p| >= 1
    ensures ToGitBranch(p) == Join(Escaped(p[..|p| - 1]) + [p[|p| - 1]], Separator)
  {
    if |p| == 1 {
      assert Escaped(p[..0]) + [p[0]] == [p[0]];
    }
  }

  /**
   * A one-segment path encodes to the bare segment; otherwise the native name splits
   * into `_s0, _s1, ..., sk`: every segment but the last, `feature` and `product`
   * included, carries the escape.
   */
  lemma EncodedSegments(p: QualifiedPath)
    requires |p| >= 1
    ensures |p| == 1 ==> ToGitBranch(p) == p[0]
    ensures Split(ToGitBranch(p), Separator) == Escaped(p[..|p| - 1]) + [p[|p| - 1]]
  {
    EncodingIsJoin(p);
    var q := Escaped(p[..|p| - 1]) + [p[|p| - 1]];
    assert NoneContains(q, Separator) by {
      forall i | 0 <= i < |q| ensures Separator !in q[i] {
        if i < |p| - 1 {
          assert q[i] == [Escape] + p[i];
        }
      }
    }
    SplitJoin(q, Separator);
  }

  /**
   * Round trip: decoding the native name of a non-empty path of plain segments gives
   * the path back.
   */
  lemma RoundTrip(p: QualifiedPath)
    requires |p| >= 1
    requires forall i | 0 <= i < |p| :: Plain(p[i])
    ensures FromString(ToGitBranch(p)) == p
  {
    EncodingIsJoin(p);
    var q := Escaped(p[..|p| - 1]) + [p[|p| - 1]];
    RemoveJoin(q, Separator, CheckoutMarker);
    assert RemoveEach(q, CheckoutMarker) == q by {
      forall i | 0 <= i < |q| ensures Remove(q[i], CheckoutMarker) == q[i] {
        RemoveAbsent(q[i], CheckoutMarker);
      }
    }
    RemoveJoin(q, Separator, Escape);
    assert RemoveEach(q, Escape) == p by {
      forall i | 0 <= i < |q| ensures Remove(q[i], Escape) == p[i] {
        if i < |p| - 1 {
          assert q[i] == [Escape] + p[i];
          assert q[i][1..] == p[i];
        }
        RemoveAbsent(p[i], Escape);
      }
    }
    JoinNoEdgeWhitespace(p, Separator);
    TrimUntouched(Join(p, Separator));
    SplitJoin(p, Separator);
  }

  // ------------------------------------------------------------------ prefixes

  /**
   * A string prefix can only be as long as the path, except for the one-empty-segment
   * path, whose string is empty like that of the empty path.
   */
  lemma StartsWithLength(p: QualifiedPath, prefix: QualifiedPath)
    requires StartsWith(p, prefix)
    ensures |prefix| <= |p| || (p == [] && prefix == [""])
  {
    if |prefix| >= 1 {
      JoinCount(prefix, Separator);
      CountPrefix(Join(prefix, Separator), Join(p, Separator), Separator);
      if |p| >= 1 {
        JoinCount(p, Separator);
      } else {
        assert Join(prefix, Separator) == "";
        if |prefix| == 1 {
          assert prefix == [""];
        }
      }
    }
  }

  /** Every segment prefix is a string prefix. */
  lemma SegmentPrefixStartsWith(p: QualifiedPath, prefix: QualifiedPath)
    requires prefix <= p
    ensures StartsWith(p, prefix)
  {
    if |prefix| >= 1 && |prefix| < |p| {
      assert p == prefix + p[|prefix|..];
      JoinAppend(prefix, p[|prefix|..], Separator);
    } else if |prefix| == |p| {
      assert prefix == p;
    }
  }

  /** ... but not conversely: `foo/abc` starts with `foo/a`. */
  lemma StartsWithIsNotSegmentwise()
    ensures StartsWith(["foo", "abc"], ["foo", "a"]) && !(["foo", "a"] <= ["foo", "abc"])
  {
    assert ToString(["foo", "a"]) == "foo/a";
    assert ToString(["foo", "abc"]) == "foo/abc";
  }
}
