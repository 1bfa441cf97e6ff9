/** The duration statistics that are reported after a run. Durations are whole nanoseconds. */
module LatencyStats {
  import opened Arithmetic
  import opened Sequences
  import opened Sorting

  datatype Stat = Stat(avg: nat, p50: nat, p95: nat, p99: nat, min: nat, max: nat)

  // -------------------------------------------------------------------------
  // The statistics
  // -------------------------------------------------------------------------

  function Length(d: nat): int {
    d
  }

  function Sort(s: seq<nat>): seq<nat> {
    SortBy(Length, s)
  }

  function Sum(s: seq<nat>): nat {
    if s == [] then 0 else Sum(s[..|s| - 1]) + s[|s| - 1]
  }

  /** `percent` of `n`, rounded up. */
  function Rank(n: nat, percent: nat): nat {
    (n * percent + 99) / 100
  }

  lemma RankInRange(n: nat, percent: nat)
    requires n >= 1 && 1 <= percent <= 100
    ensures 1 <= Rank(n, percent) <= n
  {
  }

  lemma SortKeepsSize(s: seq<nat>)
    ensures |Sort(s)| == |s|
  {
    SortSorts(Length, s);
    SameSize(s, Sort(s));
  }

  function Quantile(durations: seq<nat>, percent: nat): nat
    requires durations != [] && 1 <= percent <= 100
  {
    RankInRange(|durations|, percent);
    SortKeepsSize(durations);
    Sort(durations)[Rank(|durations|, percent) - 1]
  }

  /** `compute_stat_on_durations`, without the standard deviation. */
  function StatOf(durations: seq<nat>): Stat {
    if durations == [] then Stat(0, 0, 0, 0, 0, 0)
    else
      SortKeepsSize(durations);
      var sorted := Sort(durations);
      Stat(Sum(durations) / |durations|,
           Quantile(durations, 50), Quantile(durations, 95), Quantile(durations, 99),
           sorted[0], sorted[|sorted| - 1])
  }

  // -------------------------------------------------------------------------
  // Nearest rank
  // -------------------------------------------------------------------------

  function CountAtMost(s: seq<nat>, v: nat): nat {
    if s == [] then 0 else CountAtMost(s[..|s| - 1], v) + if s[|s| - 1] <= v then 1 else 0
  }

  lemma {:induction false} CountAppend(a: seq<nat>, b: seq<nat>, v: nat)
    ensures CountAtMost(a + b, v) == CountAtMost(a, v) + CountAtMost(b, v)
  {
    if b == [] {
      assert a + b == a;
    } else {
      var init := b[..|b| - 1];
      CountAppend(a, init, v);
      assert (a + b)[..|a + b| - 1] == a + init;
    }
  }

  lemma {:induction false} CountUnderReordering(a: seq<nat>, b: seq<nat>, v: nat)
    requires multiset(a) == multiset(b)
    ensures CountAtMost(a, v) == CountAtMost(b, v)
    decreases |a|
  {
    SameSize(a, b);
    if a != [] {
      var n := |a| - 1;
      var k := LastInReordering(a, b);
      CountUnderReordering(a[..n], b[..k] + b[k + 1..], v);
      CountAppend(b[..k], b[k + 1..], v);
      CountAppend(b[..k + 1], b[k + 1..], v);
      assert b[..k + 1] + b[k + 1..] == b && b[..k + 1][..k] == b[..k];
    }
  }

  lemma {:induction false} CountAll(s: seq<nat>, v: nat)
    requires forall i :: 0 <= i < |s| ==> s[i] <= v
    ensures CountAtMost(s, v) == |s|
  {
    if s != [] {
      CountAll(s[..|s| - 1], v);
    }
  }

  lemma {:induction false} CountNone(s: seq<nat>, v: nat)
    requires forall i :: 0 <= i < |s| ==> v < s[i]
    ensures CountAtMost(s, v) == 0
  {
    if s != [] {
      CountNone(s[..|s| - 1], v);
    }
  }

  lemma {:induction false} CountBound(s: seq<nat>, v: nat)
    ensures CountAtMost(s, v) <= |s|
  {
    if s != [] {
      CountBound(s[..|s| - 1], v);
    }
  }

  lemma CutAt(s: seq<nat>, k: nat, v: nat)
    requires k <= |s|
    ensures CountAtMost(s, v) == CountAtMost(s[..k], v) + CountAtMost(s[k..], v)
  {
    assert s == s[..k] + s[k..];
    CountAppend(s[..k], s[k..], v);
  }

  lemma ManyAtMost(s: seq<nat>, k: nat, v: nat)
    requires k < |s| && forall i :: 0 <= i <= k ==> s[i] <= v
    ensures CountAtMost(s, v) >= k + 1
  {
    CutAt(s, k + 1, v);
    CountAll(s[..k + 1], v);
  }

  lemma FewAtMost(s: seq<nat>, k: nat, v: nat)
    requires k < |s| && forall i :: k <= i < |s| ==> v < s[i]
    ensures CountAtMost(s, v) <= k
  {
    CutAt(s, k, v);
    CountNone(s[k..], v);
    CountBound(s[..k], v);
  }

  /** In a sorted list, more than `k` values are at most `s[k]`, and at most `k` are below it. */
  lemma CountInSorted(s: seq<nat>, k: nat, v: nat)
    requires SortedBy(Length, s) && k < |s|
    ensures s[k] <= v ==> CountAtMost(s, v) >= k + 1
    ensures v < s[k] ==> CountAtMost(s, v) <= k
  {
    assert forall i :: 0 <= i <= k ==> Length(s[i]) <= Length(s[k]);
    assert forall i :: k <= i < |s| ==> Length(s[k]) <= Length(s[i]);
    if s[k] <= v {
      ManyAtMost(s, k, v);
    } else {
      FewAtMost(s, k, v);
    }
  }

  /** At least `percent` of the durations are at most `v`. */
  ghost predicate Covers(durations: seq<nat>, percent: nat, v: nat) {
    100 * CountAtMost(durations, v) >= percent * |durations|
  }

  /** The nearest-rank quantile: the least recorded duration that covers `percent`. */
  ghost predicate NearestRank(durations: seq<nat>, percent: nat, v: nat) {
    && v in durations && Covers(durations, percent, v)
    && forall w: nat :: w < v ==> !Covers(durations, percent, w)
  }

  lemma RankCompare(n: nat, percent: nat, count: nat)
    ensures 100 * count >= percent * n <==> count >= Rank(n, percent)
  {
    assert percent * n == n * percent;
  }

  /** A value covers `percent` exactly when it is at least the reported quantile. */
  lemma CoversIff(durations: seq<nat>, percent: nat, v: nat)
    requires durations != [] && 1 <= percent <= 100
    ensures Covers(durations, percent, v) <==> Quantile(durations, percent) <= v
  {
    var s, n := Sort(durations), |durations|;
    SortSorts(Length, durations);
    SortKeepsSize(durations);
    RankInRange(n, percent);
    RankCompare(n, percent, CountAtMost(durations, v));
    CountUnderReordering(durations, s, v);
    CountInSorted(s, Rank(n, percent) - 1, v);
  }

  lemma QuantileIsRecorded(durations: seq<nat>, percent: nat)
    requires durations != [] && 1 <= percent <= 100
    ensures Quantile(durations, percent) in durations
  {
    SortSorts(Length, durations);
    SortKeepsSize(durations);
    RankInRange(|durations|, percent);
    assert Quantile(durations, percent) in multiset(Sort(durations));
  }

  /** What is reported is the nearest-rank quantile, and nothing else is. */
  lemma QuantileIsNearestRank(durations: seq<nat>, percent: nat, v: nat)
    requires durations != [] && 1 <= percent <= 100
    ensures NearestRank(durations, percent, v) <==> v == Quantile(durations, percent)
  {
    var q := Quantile(durations, percent);
    QuantileIsRecorded(durations, percent);
    CoversIff(durations, percent, q);
    forall w: nat ensures Covers(durations, percent, w) <==> q <= w {
      CoversIff(durations, percent, w);
    }
  }

  lemma RankGrows(n: nat, p: nat, q: nat)
    requires p <= q
    ensures Rank(n, p) <= Rank(n, q)
  {
    assert n * p <= n * q by {
      assert n * q == n * p + n * (q - p);
    }
  }

  lemma QuantilesAreOrdered(durations: seq<nat>, p: nat, q: nat)
    requires durations != [] && 1 <= p <= q <= 100
    ensures Quantile(durations, p) <= Quantile(durations, q)
  {
    SortSorts(Length, durations);
    SortKeepsSize(durations);
    RankGrows(|durations|, p, q);
    RankInRange(|durations|, p);
    RankInRange(|durations|, q);
  }

  // -------------------------------------------------------------------------
  // The whole record
  // -------------------------------------------------------------------------

  lemma {:induction false} SumBounds(s: seq<nat>, lo: nat, hi: nat)
    requires forall i :: 0 <= i < |s| ==> lo <= s[i] <= hi
    ensures |s| * lo <= Sum(s) <= |s| * hi
  {
    if s != [] {
      var n := |s| - 1;
      SumBounds(s[..n], lo, hi);
      OneMore(n, lo);
      OneMore(n, hi);
    }
  }

  ghost predicate Extremes(durations: seq<nat>, lo: nat, hi: nat) {
    lo in durations && hi in durations && forall d :: d in durations ==> lo <= d <= hi
  }

  lemma ExtremesOfSorted(durations: seq<nat>)
    requires durations != []
    ensures Extremes(durations, StatOf(durations).min, StatOf(durations).max)
  {
    var s := Sort(durations);
    SortSorts(Length, durations);
    SortKeepsSize(durations);
    assert s[0] in multiset(s) && s[|s| - 1] in multiset(s);
    forall d | d in durations ensures s[0] <= d <= s[|s| - 1] {
      assert d in multiset(s);
    }
  }

  lemma AverageIsBetween(durations: seq<nat>, lo: nat, hi: nat)
    requires durations != [] && Extremes(durations, lo, hi)
    ensures lo <= Sum(durations) / |durations| <= hi
  {
    assert forall i :: 0 <= i < |durations| ==> durations[i] in durations;
    SumBounds(durations, lo, hi);
    QuotientBounds(Sum(durations), |durations|, lo, hi);
  }

  lemma AverageIsFloor(total: nat, n: nat)
    requires n >= 1
    ensures n * (total / n) <= total < n * (total / n) + n
  {
  }

  /** The reported figures are the recorded extremes, the nearest-rank quantiles and the mean
      rounded down. */
  lemma StatMeaning(durations: seq<nat>)
    requires durations != []
    ensures var st, n := StatOf(durations), |durations|;
            && Extremes(durations, st.min, st.max)
            && NearestRank(durations, 50, st.p50) && NearestRank(durations, 95, st.p95)
            && NearestRank(durations, 99, st.p99)
            && n * st.avg <= Sum(durations) < n * st.avg + n
  {
    var st := StatOf(durations);
    ExtremesOfSorted(durations);
    QuantileIsNearestRank(durations, 50, st.p50);
    QuantileIsNearestRank(durations, 95, st.p95);
    QuantileIsNearestRank(durations, 99, st.p99);
    AverageIsFloor(Sum(durations), |durations|);
  }

  /** They increase from the minimum over the quantiles to the maximum, and the average lies
      between the extremes. */
  lemma StatIsOrdered(durations: seq<nat>)
    requires durations != []
    ensures var st := StatOf(durations);
            && st.min <= st.p50 <= st.p95 <= st.p99 <= st.max
            && st.min <= st.avg <= st.max
  {
    var st := StatOf(durations);
    ExtremesOfSorted(durations);
    QuantilesAreOrdered(durations, 50, 95);
    QuantilesAreOrdered(durations, 95, 99);
    QuantileIsRecorded(durations, 50);
    QuantileIsRecorded(durations, 99);
    AverageIsBetween(durations, st.min, st.max);
  }

  lemma {:induction false} SumAppend(a: seq<nat>, b: seq<nat>)
    ensures Sum(a + b) == Sum(a) + Sum(b)
  {
    if b == [] {
      assert a + b == a;
    } else {
      SumAppend(a, b[..|b| - 1]);
      assert (a + b)[..|a + b| - 1] == a + b[..|b| - 1];
    }
  }

  lemma {:induction false} SumUnderReordering(a: seq<nat>, b: seq<nat>)
    requires multiset(a) == multiset(b)
    ensures Sum(a) == Sum(b)
    decreases |a|
  {
    SameSize(a, b);
    if a != [] {
      var n := |a| - 1;
      var k := LastInReordering(a, b);
      SumUnderReordering(a[..n], b[..k] + b[k + 1..]);
      SumAppend(b[..k], b[k + 1..]);
      SumAppend(b[..k + 1], b[k + 1..]);
      assert b[..k + 1] + b[k + 1..] == b && b[..k + 1][..k] == b[..k];
    }
  }

  lemma SameQuantile(a: seq<nat>, b: seq<nat>, percent: nat)
    requires multiset(a) == multiset(b) && a != [] && b != [] && 1 <= percent <= 100
    ensures Quantile(a, percent) == Quantile(b, percent)
  {
    SameSize(a, b);
    var x, y := Quantile(a, percent), Quantile(b, percent);
    CountUnderReordering(a, b, x);
    CountUnderReordering(a, b, y);
    CoversIff(a, percent, x);
    CoversIff(b, percent, x);
    CoversIff(a, percent, y);
    CoversIff(b, percent, y);
  }

  lemma SameExtremes(a: seq<nat>, b: seq<nat>)
    requires multiset(a) == multiset(b) && a != [] && b != []
    ensures StatOf(a).min == StatOf(b).min && StatOf(a).max == StatOf(b).max
  {
    ExtremesOfSorted(a);
    ExtremesOfSorted(b);
    forall d ensures d in a <==> d in b {
      assert d in multiset(a) <==> d in multiset(b);
    }
  }

  /** The statistics do not depend on the order in which the durations were recorded. */
  lemma StatUnderReordering(a: seq<nat>, b: seq<nat>)
    requires multiset(a) == multiset(b)
    ensures StatOf(a) == StatOf(b)
  {
    SameSize(a, b);
    if a != [] {
      SumUnderReordering(a, b);
      SameQuantile(a, b, 50);
      SameQuantile(a, b, 95);
      SameQuantile(a, b, 99);
      SameExtremes(a, b);
    }
  }
}
