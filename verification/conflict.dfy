/**
 * Conflict checking of src/git/conflict.rs without the git calls: every unordered pair
 * of the given feature paths is formed once, in the order of the nested loops, each pair
 * is classified by the outcome of a trial merge, and the outcomes are sorted into
 * three buckets whose sizes are reported.
 */
module Conflict {
  import opened Wrappers
  import opened QualifiedPaths

  /** A failure reported by the version-control tool; only its message is kept. */
  datatype GitError = GitError(message: string)

  type PathPair = (QualifiedPath, QualifiedPath)

  /** `ConflictStatistic`: the outcome of merging one pair. */
  datatype ConflictStatistic =
    | Clean(pair: PathPair)
    | Conflicting(pair: PathPair)
    | Failed(pair: PathPair, error: GitError)

  // ------------------------------------------------------------------ pair enumeration

  /** The index pairs `(i, i+1) … (i, k-1)` the inner loop forms for row `i`. */
  function Row(i: nat, k: nat): (r: seq<(nat, nat)>)
    requires i < k
    ensures |r| == k - i - 1
    ensures forall t | 0 <= t < |r| :: r[t] == (i, i + 1 + t)
  {
    seq(k - i - 1, t requires 0 <= t < k - i - 1 => (i, i + 1 + t))
  }

  /** The index pairs formed by the first `n` turns of the outer loop over `k` paths. */
  function IndexPairs(k: nat, n: nat): (r: seq<(nat, nat)>)
    requires n <= k
    ensures forall t | 0 <= t < |r| :: r[t].0 < r[t].1 < k && r[t].0 < n
  {
    if n == 0 then [] else IndexPairs(k, n - 1) + Row(n - 1, k)
  }

  /** The pairs of paths a list of index pairs stands for. */
  function Select(paths: seq<QualifiedPath>, ips: seq<(nat, nat)>): (r: seq<PathPair>)
    requires forall t | 0 <= t < |ips| :: ips[t].0 < |paths| && ips[t].1 < |paths|
    ensures |r| == |ips|
    ensures forall t | 0 <= t < |r| :: r[t] == (paths[ips[t].0], paths[ips[t].1])
  {
    seq(|ips|, t requires 0 <= t < |ips| => (paths[ips[t].0], paths[ips[t].1]))
  }

  /** Strict lexicographic order on index pairs. */
  predicate LexLess(a: (nat, nat), b: (nat, nat))
  {
    a.0 < b.0 || (a.0 == b.0 && a.1 < b.1)
  }

  /** The feature combinations of `check`: all pairs `(paths[i], paths[j])` with `i < j`. */
  function Combinations(paths: seq<QualifiedPath>): seq<PathPair>
  {
    Select(paths, IndexPairs(|paths|, |paths|))
  }

  /** Selection distributes over concatenation. */
  lemma SelectAppend(paths: seq<QualifiedPath>, a: seq<(nat, nat)>, b: seq<(nat, nat)>)
    requires forall t | 0 <= t < |a| :: a[t].0 < |paths| && a[t].1 < |paths|
    requires forall t | 0 <= t < |b| :: b[t].0 < |paths| && b[t].1 < |paths|
    ensures Select(paths, a + b) == Select(paths, a) + Select(paths, b)
  {
  }

  /** The nested loops of `check` that fill `feature_combinations`. */
  method FeatureCombinations(paths: seq<QualifiedPath>) returns (combinations: seq<PathPair>)
    ensures combinations == Combinations(paths)
  {
    var k := |paths|;
    combinations := [];
    for i := 0 to k
      invariant combinations == Select(paths, IndexPairs(k, i))
    {
      SelectAppend(paths, IndexPairs(k, i), Row(i, k));
      ghost var done := Select(paths, IndexPairs(k, i));
      for j := i + 1 to k
        invariant combinations == done + Select(paths, Row(i, k)[..j - i - 1])
      {
        assert Row(i, k)[..j - i] == Row(i, k)[..j - i - 1] + [(i, j)];
        SelectAppend(paths, Row(i, k)[..j - i - 1], [(i, j)]);
        combinations := combinations + [(paths[i], paths[j])];
      }
      assert Row(i, k)[..k - i - 1] == Row(i, k);
    }
  }

  /** `check` forms `k(k-1)/2` pairs for `k` paths. */
  lemma {:induction false} IndexPairsCount(k: nat, n: nat)
    requires n <= k
    ensures 2 * |IndexPairs(k, n)| == n * (2 * k - n - 1)
  {
    if n > 0 {
      IndexPairsCount(k, n - 1);
    }
  }

  /** The pairs come in strictly increasing lexicographic order of their indices. */
  lemma {:induction false} IndexPairsSorted(k: nat, n: nat)
    requires n <= k
    ensures forall s, t | 0 <= s < t < |IndexPairs(k, n)| :: LexLess(IndexPairs(k, n)[s], IndexPairs(k, n)[t])
  {
    if n > 0 {
      IndexPairsSorted(k, n - 1);
    }
  }

  /** Every pair `i < j < k` with `i < n` is formed. */
  lemma {:induction false} IndexPairsComplete(k: nat, n: nat, i: nat, j: nat)
    requires n <= k && i < j < k && i < n
    ensures (i, j) in IndexPairs(k, n)
  {
    if i == n - 1 {
      assert Row(n - 1, k)[j - i - 1] == (i, j);
    } else {
      IndexPairsComplete(k, n - 1, i, j);
    }
  }

  /** `p` is `(paths[i], paths[j])` for some `i < j`. */
  predicate IsPairOf(paths: seq<QualifiedPath>, p: PathPair)
  {
    exists i, j | 0 <= i < j < |paths| :: p == (paths[i], paths[j])
  }

  /**
   * The combinations of `k` paths: `k(k-1)/2` of them, each `(paths[i], paths[j])` for
   * some `i < j`, and every such pair occurring.
   */
  lemma CombinationsExactly(paths: seq<QualifiedPath>)
    ensures 2 * |Combinations(paths)| == |paths| * (|paths| - 1)
    ensures forall i, j | 0 <= i < j < |paths| :: (paths[i], paths[j]) in Combinations(paths)
    ensures forall t | 0 <= t < |Combinations(paths)| :: IsPairOf(paths, Combinations(paths)[t])
  {
    var k := |paths|;
    var ips := IndexPairs(k, k);
    IndexPairsCount(k, k);
    forall i, j | 0 <= i < j < k
      ensures (paths[i], paths[j]) in Combinations(paths)
    {
      IndexPairsComplete(k, k, i, j);
      var t :| 0 <= t < |ips| && ips[t] == (i, j);
      assert Combinations(paths)[t] == (paths[i], paths[j]);
    }
    forall t | 0 <= t < |Combinations(paths)|
      ensures IsPairOf(paths, Combinations(paths)[t])
    {
      var i, j := ips[t].0, ips[t].1;
      assert 0 <= i < j < k;
      assert Combinations(paths)[t] == (paths[i], paths[j]);
    }
  }

  // ------------------------------------------------------------------ classification

  /** The result of one trial merge: OK when it merged, CONFLICT when not, ERROR when git failed. */
  function Classify(pair: PathPair, outcome: Result<bool, GitError>): (r: ConflictStatistic)
    ensures r.pair == pair
    ensures r.Clean? <==> outcome == Ok(true)
    ensures r.Conflicting? <==> outcome == Ok(false)
    ensures r.Failed? <==> outcome.Err? && r.error == outcome.error
  {
    match outcome
    case Ok(true) => Clean(pair)
    case Ok(false) => Conflicting(pair)
    case Err(e) => Failed(pair, e)
  }

  /** Every pair classified by the merge probe, in order. */
  function ClassifyAll(pairs: seq<PathPair>, probe: PathPair -> Result<bool, GitError>): (r: seq<ConflictStatistic>)
    ensures |r| == |pairs|
    ensures forall t | 0 <= t < |r| :: r[t] == Classify(pairs[t], probe(pairs[t]))
  {
    if |pairs| == 0 then [] else [Classify(pairs[0], probe(pairs[0]))] + ClassifyAll(pairs[1..], probe)
  }

  /**
   * `check(paths)`: a failure of the preparatory checkout (`setup`) is returned as is;
   * otherwise one statistic per combination, `probe` standing for `check_two`.
   */
  method Check(paths: seq<QualifiedPath>, setup: Option<GitError>, probe: PathPair -> Result<bool, GitError>)
    returns (r: Result<seq<ConflictStatistic>, GitError>)
    ensures setup.Some? ==> r == Err(setup.value)
    ensures setup.None? ==> r == Ok(ClassifyAll(Combinations(paths), probe))
  {
    if setup.Some? {
      return Err(setup.value);
    }
    var combinations := FeatureCombinations(paths);
    return Ok(ClassifyAll(combinations, probe));
  }

  // ------------------------------------------------------------------ statistics

  /** The three buckets a statistic can land in. */
  datatype Kind = OkKind | ConflictKind | ErrorKind

  function KindOf(s: ConflictStatistic): Kind
  {
    match s
    case Clean(_) => OkKind
    case Conflicting(_) => ConflictKind
    case Failed(_, _) => ErrorKind
  }

  /** The statistics of one kind, in order. */
  function Bucket(stats: seq<ConflictStatistic>, kind: Kind): (r: seq<ConflictStatistic>)
    ensures forall s | s in r :: KindOf(s) == kind && s in stats
  {
    if |stats| == 0 then []
    else (if KindOf(stats[0]) == kind then [stats[0]] else []) + Bucket(stats[1..], kind)
  }

  /** Appending one statistic extends exactly the bucket of its kind. */
  lemma {:induction false} BucketAppend(stats: seq<ConflictStatistic>, s: ConflictStatistic, kind: Kind)
    ensures Bucket(stats + [s], kind) == Bucket(stats, kind) + (if KindOf(s) == kind then [s] else [])
  {
    if |stats| == 0 {
      assert stats + [s] == [s];
    } else {
      assert (stats + [s])[1..] == stats[1..] + [s];
      BucketAppend(stats[1..], s, kind);
    }
  }

  /** The three buckets split the statistics: together they hold each one exactly once. */
  lemma {:induction false} BucketsPartition(stats: seq<ConflictStatistic>)
    ensures |Bucket(stats, OkKind)| + |Bucket(stats, ConflictKind)| + |Bucket(stats, ErrorKind)| == |stats|
    ensures multiset(Bucket(stats, OkKind)) + multiset(Bucket(stats, ConflictKind)) + multiset(Bucket(stats, ErrorKind))
         == multiset(stats)
  {
    if |stats| > 0 {
      BucketsPartition(stats[1..]);
      assert stats == [stats[0]] + stats[1..];
    }
  }

  class ConflictStatistics {
    var ok: seq<ConflictStatistic>
    var conflict: seq<ConflictStatistic>
    var error: seq<ConflictStatistic>

    /** Each bucket holds statistics of its own kind only. */
    predicate Valid()
      reads this
    {
      && (forall s | s in ok :: KindOf(s) == OkKind)
      && (forall s | s in conflict :: KindOf(s) == ConflictKind)
      && (forall s | s in error :: KindOf(s) == ErrorKind)
    }

    /** `ConflictStatistics::new()`: three empty buckets. */
    constructor ()
      ensures ok == [] && conflict == [] && error == []
      ensures Valid()
    {
      ok := [];
      conflict := [];
      error := [];
    }

    /** `push(statistic)`: appended to the bucket of its kind, the others untouched. */
    method Push(statistic: ConflictStatistic)
      requires Valid()
      modifies this
      ensures Valid()
      ensures ok == old(ok) + (if statistic.Clean? then [statistic] else [])
      ensures conflict == old(conflict) + (if statistic.Conflicting? then [statistic] else [])
      ensures error == old(error) + (if statistic.Failed? then [statistic] else [])
      ensures NOk() + NConflict() + NErrors() == old(NOk() + NConflict() + NErrors()) + 1
    {
      match statistic
      case Clean(_) => ok := ok + [statistic];
      case Conflicting(_) => conflict := conflict + [statistic];
      case Failed(_, _) => error := error + [statistic];
    }

    /** `ConflictStatistics::from(statistics)`: each one pushed, in iteration order. */
    static method From(statistics: seq<ConflictStatistic>) returns (c: ConflictStatistics)
      ensures fresh(c) && c.Valid()
      ensures c.ok == Bucket(statistics, OkKind)
      ensures c.conflict == Bucket(statistics, ConflictKind)
      ensures c.error == Bucket(statistics, ErrorKind)
      ensures c.NOk() + c.NConflict() + c.NErrors() == |statistics|
    {
      c := new ConflictStatistics();
      for i := 0 to |statistics|
        invariant c.Valid()
        invariant c.ok == Bucket(statistics[..i], OkKind)
        invariant c.conflict == Bucket(statistics[..i], ConflictKind)
        invariant c.error == Bucket(statistics[..i], ErrorKind)
      {
        BucketAppend(statistics[..i], statistics[i], OkKind);
        BucketAppend(statistics[..i], statistics[i], ConflictKind);
        BucketAppend(statistics[..i], statistics[i], ErrorKind);
        assert statistics[..i + 1] == statistics[..i] + [statistics[i]];
        c.Push(statistics[i]);
      }
      assert statistics[..|statistics|] == statistics;
      BucketsPartition(statistics);
    }

    /** `iter_ok()`: the OK statistics in push order. */
    function IterOk(): seq<ConflictStatistic>
      reads this
    {
      ok
    }

    function NOk(): nat
      reads this
    {
      |ok|
    }

    function NConflict(): nat
      reads this
    {
      |conflict|
    }

    function NErrors(): nat
      reads this
    {
      |error|
    }
  }
}
