/** Positional distance between tokenized log lines and the online
    clustering of lines (include/logmine.h). */
module Logmine {
  import opened Tokens
  import opened Alignment

  /** `score` with K = 1 (include/logmine.h:12-15). */
  function Score<T(==)>(a: T, b: T): (s: int)
    ensures s == 1 <==> a == b
    ensures s == 0 <==> a != b
  {
    if a == b then 1 else 0
  }

  /** The number of equal positions among the first `i`. */
  function MatchesUpTo(a: seq<Token>, b: seq<Token>, i: nat): (n: nat)
    requires i <= |a| && i <= |b|
    ensures n <= i
  {
    if i == 0 then 0 else MatchesUpTo(a, b, i - 1) + Score(a[i - 1], b[i - 1])
  }

  /** The number of positions, among those both lines have, where their
      tokens are equal. */
  function Matches(a: seq<Token>, b: seq<Token>): nat
  {
    MatchesUpTo(a, b, Min(|a|, |b|))
  }

  /** What `distance` computes, in exact arithmetic: one minus the share of
      equal positions in the longer line; two empty lines are at distance 1. */
  function DistanceOf(a: seq<Token>, b: seq<Token>): (d: real)
    ensures 0.0 <= d <= 1.0
    ensures d < 1.0 <==> Matches(a, b) > 0
  {
    var max := Max(|a|, |b|);
    if max == 0 then 1.0
    else
      ShareBounds(Matches(a, b) as real, max as real);
      SharePositive(Matches(a, b) as real, max as real);
      1.0 - (Matches(a, b) as real) / (max as real)
  }

  /** Two shares of the same whole add up. */
  lemma AddShares(a: real, b: real, m: real)
    requires m > 0.0
    ensures a / m + b / m == (a + b) / m
  {
  }

  /** A part of a whole is a share between 0 and 1, above one half exactly
      when the part is more than half the whole. */
  lemma ShareBounds(a: real, m: real)
    requires m > 0.0 && 0.0 <= a <= m
    ensures 0.0 <= a / m <= 1.0
    ensures 1.0 - a / m < 0.5 <==> 2.0 * a > m
  {
  }

  /** A share is positive exactly when the part is. */
  lemma SharePositive(a: real, m: real)
    requires m > 0.0 && 0.0 <= a
    ensures a / m > 0.0 <==> a > 0.0
  {
  }

  /** `distance` (include/logmine.h:17-35): the loop adds score/max for each
      position both lines have. */
  method Distance(log1: seq<Token>, log2: seq<Token>) returns (d: real)
    ensures d == DistanceOf(log1, log2)
  {
    var len1, len2 := |log1|, |log2|;
    var min, max := Min(len1, len2), Max(len1, len2);
    var sum := 0.0;
    for i := 0 to min
      invariant i == 0 ==> sum == 0.0
      invariant i > 0 ==> sum == (MatchesUpTo(log1, log2, i) as real) / (max as real)
    {
      var s := Score(log1[i], log2[i]);
      AddShares(MatchesUpTo(log1, log2, i) as real, s as real, max as real);
      sum := sum + (s as real) / (max as real);
    }
    d := 1.0 - sum;
  }

  /** All of the first `i` positions match exactly when every one of them
      holds equal tokens. */
  lemma {:induction false} MatchesUpToAll(a: seq<Token>, b: seq<Token>, i: nat)
    requires i <= |a| && i <= |b|
    ensures MatchesUpTo(a, b, i) == i <==> forall k :: 0 <= k < i ==> a[k] == b[k]
  {
    if i > 0 {
      MatchesUpToAll(a, b, i - 1);
    }
  }

  /** Counting equal positions does not depend on the order of the lines. */
  lemma {:induction false} MatchesUpToSymmetric(a: seq<Token>, b: seq<Token>, i: nat)
    requires i <= |a| && i <= |b|
    ensures MatchesUpTo(a, b, i) == MatchesUpTo(b, a, i)
  {
    if i > 0 {
      MatchesUpToSymmetric(a, b, i - 1);
    }
  }

  /** The distance lies in [0, 1], is symmetric, is 0 from a nonempty line
      to itself and 1 when either line is empty. */
  lemma DistanceProperties(a: seq<Token>, b: seq<Token>)
    ensures 0.0 <= DistanceOf(a, b) <= 1.0
    ensures DistanceOf(a, b) == DistanceOf(b, a)
    ensures a == b && |a| > 0 ==> DistanceOf(a, b) == 0.0
    ensures |a| == 0 || |b| == 0 ==> DistanceOf(a, b) == 1.0
  {
    var m, max := Matches(a, b), Max(|a|, |b|);
    MatchesUpToSymmetric(a, b, Min(|a|, |b|));
    MatchesUpToAll(a, b, Min(|a|, |b|));
    assert Max(|a|, |b|) == Max(|b|, |a|) && Min(|a|, |b|) == Min(|b|, |a|);
    if max > 0 {
      ShareBounds(m as real, max as real);
    }
  }

  /** `find_cluster`'s threshold on the distance. */
  const MAX_DIST: real := 0.5

  /** More than half of the positions of the longer line hold equal
      tokens. */
  predicate Close(a: seq<Token>, b: seq<Token>)
  {
    2 * Matches(a, b) > Max(|a|, |b|)
  }

  /** A line is close to a representative exactly when their distance is
      below the threshold; then neither is empty. */
  lemma CloseMatches(a: seq<Token>, b: seq<Token>)
    ensures Close(a, b) <==> DistanceOf(a, b) < MAX_DIST
    ensures Close(a, b) ==> |a| > 0 && |b| > 0
  {
    var m, max := Matches(a, b), Max(|a|, |b|);
    if max > 0 {
      ShareBounds(m as real, max as real);
    }
  }

  /** The test of the scan: a distance is below both the threshold and
      `FLT_MAX` exactly when the line is close to the representative. */
  lemma ScanTest(rep: seq<Token>, log: seq<Token>)
    ensures DistanceOf(rep, log) < MAX_DIST && DistanceOf(rep, log) < FLT_MAX <==> Close(rep, log)
  {
    CloseMatches(rep, log);
    DistanceProperties(rep, log);
  }

  /** `std::numeric_limits<float>::max()`, the initial value of `d` in
      `find_cluster`. */
  const FLT_MAX: real := 340282346638528859811704183484516925440.0

  // ---------------------------------------------------------------------
  // Clusters
  // ---------------------------------------------------------------------

  /** A cluster: the line that opened it, never changed, and the number of
      lines routed to it (include/logmine.h:37-60). */
  class Cluster {
    const rep: seq<Token>
    var size: int

    /** A new cluster holds one line. */
    constructor (rep: seq<Token>)
      ensures this.rep == rep && size == 1
    {
      this.rep := rep;
      size := 1;
    }

    /** `cluster_distance`: the absolute value of the distance, which is
        the distance itself. */
    method ClusterDistance(log: seq<Token>) returns (d: real)
      ensures d == DistanceOf(rep, log)
    {
      d := Distance(rep, log);
      DistanceProperties(rep, log);
      if d < 0.0 {
        d := -d;
      }
    }

    /** `add`: counts the line. The alignment with the representative is
        computed and only logged, so the representative stays as it was. */
    method Add(log: seq<Token>)
      requires |rep| > 0 && |log| > 0
      modifies this
      ensures size == old(size) + 1
    {
      size := size + 1;
      var leftOut, rightOut := Align2(rep, log, Token("-", Gap), (a, b) => Score(a, b));
    }

    /** `size`. */
    method Size() returns (n: int)
      ensures n == size
    {
      n := size;
    }
  }

  // ---------------------------------------------------------------------
  // Routing, as a function of the clusters' representatives and sizes
  // ---------------------------------------------------------------------

  /** Where `find_cluster` sends a line: nowhere (a new cluster) or the
      cluster at an index. */
  datatype Choice = NoCluster | ClusterAt(index: nat)

  /** The last representative, in list order, that the line is close to. */
  function LastClose(reps: seq<seq<Token>>, log: seq<Token>): (c: Choice)
    ensures c.ClusterAt? ==> c.index < |reps| && Close(reps[c.index], log)
    ensures c.ClusterAt? ==> forall k :: c.index < k < |reps| ==> !Close(reps[k], log)
    ensures c.NoCluster? ==> forall k :: 0 <= k < |reps| ==> !Close(reps[k], log)
  {
    if reps == [] then NoCluster
    else if Close(reps[|reps| - 1], log) then ClusterAt(|reps| - 1)
    else LastClose(reps[..|reps| - 1], log)
  }

  /** Scanning one more representative: the scan's choice moves to it when
      the line is close to it. */
  lemma LastCloseSnoc(reps: seq<seq<Token>>, i: nat, log: seq<Token>)
    requires i < |reps|
    ensures LastClose(reps[..i + 1], log) ==
      if Close(reps[i], log) then ClusterAt(i) else LastClose(reps[..i], log)
  {
    assert reps[..i + 1][..i] == reps[..i];
  }

  /** One iteration of the scan in `find_cluster`: with the distance to
      representative i in hand, the test against `max_dist` and `d` picks
      the last close cluster among the first i + 1. */
  lemma ScanStep(reps: seq<seq<Token>>, i: nat, log: seq<Token>, d1: real, found: Choice)
    requires i < |reps| && d1 == DistanceOf(reps[i], log)
    requires found == LastClose(reps[..i], log)
    ensures (if d1 < MAX_DIST && d1 < FLT_MAX then ClusterAt(i) else found) == LastClose(reps[..i + 1], log)
  {
    ScanTest(reps[i], log);
    LastCloseSnoc(reps, i, log);
  }

  /** The representatives and sizes of the clusters, in list order. */
  datatype Clusters = Clusters(reps: seq<seq<Token>>, sizes: seq<int>)

  /** The clusters after one more line: the last close cluster grows by one,
      or, when no cluster is close, a new cluster holding the line is
      appended (include/logmine.h:78-98). */
  function Added(s: Clusters, log: seq<Token>): (t: Clusters)
    requires |s.reps| == |s.sizes|
    ensures |t.reps| == |t.sizes|
  {
    match LastClose(s.reps, log)
    case NoCluster => Clusters(s.reps + [log], s.sizes + [1])
    case ClusterAt(i) => Clusters(s.reps, s.sizes[i := s.sizes[i] + 1])
  }

  /** Every cluster holds at least one line. */
  predicate Positive(sizes: seq<int>)
  {
    forall k :: 0 <= k < |sizes| ==> sizes[k] >= 1
  }

  function Sum(s: seq<int>): int
  {
    if s == [] then 0 else Sum(s[..|s| - 1]) + s[|s| - 1]
  }

  /** A line close to some cluster grows the last close one, in list
      order, and nothing else changes. */
  lemma AddedGrows(s: Clusters, log: seq<Token>, i: nat)
    requires |s.reps| == |s.sizes| && i < |s.reps|
    requires Close(s.reps[i], log)
    requires forall k :: i < k < |s.reps| ==> !Close(s.reps[k], log)
    ensures Added(s, log) == Clusters(s.reps, s.sizes[i := s.sizes[i] + 1])
  {
    LastCloseIs(s.reps, log, i);
  }

  /** The scan's choice is the last close representative. */
  lemma {:induction false} LastCloseIs(reps: seq<seq<Token>>, log: seq<Token>, i: nat)
    requires i < |reps| && Close(reps[i], log)
    requires forall k :: i < k < |reps| ==> !Close(reps[k], log)
    ensures LastClose(reps, log) == ClusterAt(i)
  {
    if i < |reps| - 1 {
      LastCloseIs(reps[..|reps| - 1], log, i);
    }
  }

  /** A line close to no cluster opens a new one at the end. */
  lemma AddedOpens(s: Clusters, log: seq<Token>)
    requires |s.reps| == |s.sizes|
    requires forall k :: 0 <= k < |s.reps| ==> !Close(s.reps[k], log)
    ensures Added(s, log) == Clusters(s.reps + [log], s.sizes + [1])
  {
    LastCloseNone(s.reps, log);
  }

  /** With no close representative the scan chooses none. */
  lemma {:induction false} LastCloseNone(reps: seq<seq<Token>>, log: seq<Token>)
    requires forall k :: 0 <= k < |reps| ==> !Close(reps[k], log)
    ensures LastClose(reps, log) == NoCluster
  {
    if reps != [] {
      LastCloseNone(reps[..|reps| - 1], log);
    }
  }

  /** The line joins the scan's choice. */
  lemma AddedChosen(s: Clusters, log: seq<Token>, i: nat)
    requires |s.reps| == |s.sizes| && LastClose(s.reps, log) == ClusterAt(i)
    ensures i < |s.reps| && Added(s, log) == Clusters(s.reps, s.sizes[i := s.sizes[i] + 1])
  {
  }

  /** With no choice, the line opens a new cluster. */
  lemma AddedNone(s: Clusters, log: seq<Token>)
    requires |s.reps| == |s.sizes| && LastClose(s.reps, log) == NoCluster
    ensures Added(s, log) == Clusters(s.reps + [log], s.sizes + [1])
  {
  }

  /** Raising one entry by one raises the sum by one. */
  lemma {:induction false} SumIncrement(s: seq<int>, i: nat)
    requires i < |s|
    ensures Sum(s[i := s[i] + 1]) == Sum(s) + 1
    decreases |s|
  {
    var t := s[i := s[i] + 1];
    assert t[..|t| - 1] == if i == |s| - 1 then s[..|s| - 1] else s[..|s| - 1][i := s[i] + 1];
    if i < |s| - 1 {
      SumIncrement(s[..|s| - 1], i);
    }
  }

  /** Lines are counted, not lost: adding one keeps every cluster at size
      at least one, raises the total of the sizes by exactly one, never
      changes or reorders the representatives and opens at most one
      cluster. */
  lemma AddedCounts(s: Clusters, log: seq<Token>)
    requires |s.reps| == |s.sizes|
    requires Positive(s.sizes)
    ensures Positive(Added(s, log).sizes)
    ensures Sum(Added(s, log).sizes) == Sum(s.sizes) + 1
    ensures |s.reps| <= |Added(s, log).reps| <= |s.reps| + 1
    ensures Added(s, log).reps[..|s.reps|] == s.reps
  {
    var t := Added(s, log);
    match LastClose(s.reps, log)
    case NoCluster =>
      assert t.sizes[..|s.sizes|] == s.sizes;
      assert t.reps[..|s.reps|] == s.reps;
    case ClusterAt(i) =>
      SumIncrement(s.sizes, i);
  }

  /** A line that joins a cluster is close to its representative, so both
      are nonempty, as `align2` in `Cluster::add` needs. */
  lemma JoinedNonempty(reps: seq<seq<Token>>, log: seq<Token>, i: nat)
    requires LastClose(reps, log) == ClusterAt(i)
    ensures i < |reps| && |reps[i]| > 0 && |log| > 0
  {
    CloseMatches(reps[i], log);
  }


  /** The clusters after routing the given lines, in order, starting from
      none: what a new `Logmine` holds after `add` of each line. */
  function Routed(logs: seq<seq<Token>>): (s: Clusters)
    ensures |s.reps| == |s.sizes|
  {
    if logs == [] then Clusters([], [])
    else Added(Routed(logs[..|logs| - 1]), logs[|logs| - 1])
  }

  /** Routing one more line is one more step of `Added`. */
  lemma RoutedSnoc(logs: seq<seq<Token>>, log: seq<Token>)
    ensures Routed(logs + [log]) == Added(Routed(logs), log)
  {
    assert (logs + [log])[..|logs|] == logs;
  }

  /** Over any sequence of lines, every cluster holds at least one line,
      the sizes add up to the number of lines, there are no more clusters
      than lines, and every representative is one of the lines. */
  lemma {:induction false} RoutedCounts(logs: seq<seq<Token>>)
    ensures Positive(Routed(logs).sizes)
    ensures Sum(Routed(logs).sizes) == |logs|
    ensures |Routed(logs).reps| <= |logs|
    ensures forall k :: 0 <= k < |Routed(logs).reps| ==> Routed(logs).reps[k] in logs
  {
    if logs != [] {
      var init, last := logs[..|logs| - 1], logs[|logs| - 1];
      RoutedCounts(init);
      var s := Routed(init);
      AddedCounts(s, last);
      var t := Added(s, last);
      forall k | 0 <= k < |t.reps|
        ensures t.reps[k] in logs
      {
        if k < |s.reps| {
          assert t.reps[k] == s.reps[k];
          assert s.reps[k] in init;
        } else {
          AddedOpensOnly(s, last);
        }
      }
    }
  }

  /** Representatives are lines that were added, so when every line added
      is one `tokenize` can produce, no representative holds a Gap. */
  lemma RoutedWellFormed(logs: seq<seq<Token>>)
    requires forall k :: 0 <= k < |logs| ==> WellFormedLine(logs[k])
    ensures forall k :: 0 <= k < |Routed(logs).reps| ==> WellFormedLine(Routed(logs).reps[k])
  {
    RoutedCounts(logs);
  }

  /** Adding a line `tokenize` can produce to such lines gives such lines. */
  lemma LinesSnoc(logs: seq<seq<Token>>, log: seq<Token>)
    requires forall k :: 0 <= k < |logs| ==> WellFormedLine(logs[k])
    requires WellFormedLine(log)
    ensures forall k :: 0 <= k < |logs + [log]| ==> WellFormedLine((logs + [log])[k])
  {
  }

  /** A new representative can only be the line just routed. */
  lemma AddedOpensOnly(s: Clusters, log: seq<Token>)
    requires |s.reps| == |s.sizes|
    ensures |Added(s, log).reps| > |s.reps| ==> Added(s, log).reps == s.reps + [log]
  {
  }

  /** No cluster appears twice in the list. */
  predicate Distinct(cs: seq<Cluster>)
  {
    forall i, j :: 0 <= i < j < |cs| ==> cs[i] != cs[j]
  }

  /** The representatives of a list of clusters. */
  ghost function RepsOf(cs: seq<Cluster>): (r: seq<seq<Token>>)
    ensures |r| == |cs| && forall k :: 0 <= k < |cs| ==> r[k] == cs[k].rep
  {
    seq(|cs|, k requires 0 <= k < |cs| => cs[k].rep)
  }

  /** The sizes of a list of clusters. */
  ghost function SizesOf(cs: seq<Cluster>): (s: seq<int>)
    reads cs
    ensures |s| == |cs| && forall k :: 0 <= k < |cs| ==> s[k] == cs[k].size
  {
    seq(|cs|, k requires 0 <= k < |cs| reads cs => cs[k].size)
  }

  // ---------------------------------------------------------------------
  // The clustering object
  // ---------------------------------------------------------------------

  /** The clusters found so far (include/logmine.h:62-99). */
  class Logmine {
    var clusters: seq<Cluster>
    /** The tokenized lines routed so far, in order. */
    ghost var history: seq<seq<Token>>

    /** The representatives, in list order. */
    ghost function Reps(): seq<seq<Token>>
      reads this`clusters
    {
      RepsOf(clusters)
    }

    /** The sizes, in list order. */
    ghost function Sizes(): seq<int>
      reads this`clusters, clusters
    {
      SizesOf(clusters)
    }

    ghost function State(): Clusters
      reads this`clusters, clusters
    {
      Clusters(Reps(), Sizes())
    }

    /** Distinct cluster objects, whose representatives and sizes are
        those of routing every line added so far; each of those lines is
        one `tokenize` can produce. */
    ghost predicate Valid()
      reads this, clusters
    {
      && Distinct(clusters)
      && State() == Routed(history)
      && forall k :: 0 <= k < |history| ==> WellFormedLine(history[k])
    }

    /** A new `Logmine` has no clusters. */
    constructor ()
      ensures Valid() && clusters == [] && history == []
    {
      clusters := [];
      history := [];
    }

    /** The scan of `find_cluster` (include/logmine.h:82-90). `d` keeps its
        initial value, so `d1 < d` always holds and the scan ends on the
        last close cluster, not the closest one. */
    method Scan(log: seq<Token>) returns (found: Choice)
      ensures found == LastClose(Reps(), log)
    {
      ghost var reps := Reps();
      var d := FLT_MAX;
      found := NoCluster;
      for i := 0 to |clusters|
        invariant found == LastClose(reps[..i], log)
      {
        var d1 := clusters[i].ClusterDistance(log);
        assert clusters[i].rep == reps[i];
        ScanStep(reps, i, log, d1, found);
        if d1 < MAX_DIST && d1 < d {
          found := ClusterAt(i);
        }
      }
      assert reps[..|clusters|] == reps;
    }

    /** `find_cluster`: route a tokenized line to the last close cluster, or
        open a new cluster for it (include/logmine.h:78-98). */
    method FindCluster(log: seq<Token>)
      requires Valid() && WellFormedLine(log)
      modifies this, clusters
      ensures Valid()
      ensures State() == Added(old(State()), log)
      ensures history == old(history) + [log]
    {
      ghost var before := State();
      assert Distinct(clusters) && before == Routed(history);
      LinesSnoc(history, log);
      var found := Scan(log);
      RoutedSnoc(history, log);
      match found {
        case ClusterAt(i) =>
          AddedChosen(before, log, i);
          JoinedNonempty(before.reps, log, i);
          Grow(i, log, before);
          assert State() == Added(before, log);
        case NoCluster =>
          AddedNone(before, log);
          Open(log, before);
          assert State() == Added(before, log);
      }
      assert Distinct(clusters) && State() == Routed(history);
    }

    /** The first branch of `find_cluster` (include/logmine.h:91-93): the
        chosen cluster takes the line, and no other cluster changes. */
    method Grow(i: nat, log: seq<Token>, ghost s: Clusters)
      requires Distinct(clusters) && i < |clusters| && State() == s
      requires |clusters[i].rep| > 0 && |log| > 0
      modifies clusters[i], this`history
      ensures i < |s.sizes| && State() == Clusters(s.reps, s.sizes[i := s.sizes[i] + 1])
      ensures clusters == old(clusters) && history == old(history) + [log]
    {
      ghost var sizes := Sizes();
      clusters[i].Add(log);
      forall k | 0 <= k < |clusters|
        ensures clusters[k].size == sizes[i := sizes[i] + 1][k]
      {
        if k != i {
          assert clusters[k] != clusters[i];
        }
      }
      assert Reps() == s.reps;
      assert Sizes() == s.sizes[i := s.sizes[i] + 1];
      history := history + [log];
    }

    /** The second branch of `find_cluster` (include/logmine.h:94-96): a new
        cluster with the line as representative goes at the end. */
    method Open(log: seq<Token>, ghost s: Clusters)
      requires Distinct(clusters) && State() == s
      modifies this
      ensures Distinct(clusters) && history == old(history) + [log]
      ensures State() == Clusters(s.reps + [log], s.sizes + [1])
    {
      history := history + [log];
      var c := new Cluster(log);
      clusters := clusters + [c];
      assert Reps() == s.reps + [log];
      assert Sizes() == s.sizes + [1];
    }

    /** `Logmine::add`: tokenize the line and route it. Afterwards every
        cluster still holds at least one line, the sizes add up to the
        number of lines added, and no representative holds a Gap. */
    method Add(line: string)
      requires Valid()
      modifies this, clusters
      ensures Valid()
      ensures State() == Added(old(State()), Tokenized(line))
      ensures history == old(history) + [Tokenized(line)]
      ensures Positive(Sizes()) && Sum(Sizes()) == |history|
      ensures forall k :: 0 <= k < |Reps()| ==> WellFormedLine(Reps()[k])
      ensures forall k, n :: 0 <= k < |Reps()| && 0 <= n < |Reps()[k]| ==> Reps()[k][n].kind != Gap
    {
      var tokens := Tokenize(line);
      TokenizedWellFormed(line);
      FindCluster(tokens);
      RoutedCounts(history);
      RoutedWellFormed(history);
      assert Reps() == Routed(history).reps;
    }
  }
}
