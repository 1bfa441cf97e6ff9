/** The quantile ranks are computed in floating point; up to two to the 32 durations that makes no
    difference. */
module FloatRanks {
  import opened LatencyStats

  datatype Level = Median | High | Highest

  function Percent(level: Level): (p: nat)
    ensures 1 <= p <= 100
  {
    match level
    case Median => 50
    case High => 95
    case Highest => 99
  }

  /** The doubles that 0.50, 0.95 and 0.99 stand for. */
  function Factor(level: Level): real {
    match level
    case Median => 0.5
    case High => 8556839292003942.0 / 9007199254740992.0
    case Highest => 8917127262193582.0 / 9007199254740992.0
  }

  const COUNT_LIMIT: nat := 0x1_0000_0000

  /** Multiples of 1/128 below two to the 46 are doubles. */
  predicate IsDouble(x: real) {
    0.0 <= x < 70368744177664.0 && (128.0 * x).Floor as real == 128.0 * x
  }

  /** What is needed of the rounding of products: it respects the order and leaves doubles alone,
      as rounding to nearest does. */
  ghost predicate Rounds(round: real -> real) {
    && (forall x: real, y: real :: x <= y ==> round(x) <= round(y))
    && (forall x: real :: IsDouble(x) ==> round(x) == x)
  }

  function Ceiling(x: real): int {
    -((-x).Floor)
  }

  /** `(n as f64 * factor).ceil() as usize`. */
  function FloatRank(round: real -> real, n: nat, factor: real): int {
    Ceiling(round(n as real * factor))
  }

  lemma CeilingIs(x: real, k: int)
    requires (k - 1) as real < x <= k as real
    ensures Ceiling(x) == k
  {
  }

  lemma Dyadic(k: nat)
    requires k <= COUNT_LIMIT
    ensures IsDouble(k as real) && IsDouble(k as real + 0.0078125)
  {
    assert 128.0 * k as real == (128 * k) as real;
    assert 128.0 * (k as real + 0.0078125) == (128 * k + 1) as real;
  }

  /** A product between `k - 1 + 1/128` and `k` is rounded up to `k`, whatever happens to its last
      digits. */
  lemma RoundedUp(round: real -> real, p: real, k: nat)
    requires Rounds(round) && 1 <= k <= COUNT_LIMIT
    requires (k - 1) as real + 0.0078125 <= p <= k as real
    ensures Ceiling(round(p)) == k
  {
    Dyadic(k);
    Dyadic(k - 1);
    assert round((k - 1) as real + 0.0078125) <= round(p) <= round(k as real);
    CeilingIs(round(p), k);
  }

  /** `factor` is at most the exact share, and short of it by next to nothing. */
  predicate Approximates(factor: real, percent: nat) {
    0.0 <= percent as real - 100.0 * factor <= 0.000000000001
  }

  lemma FactorApproximates(level: Level)
    ensures Approximates(Factor(level), Percent(level))
  {
  }

  lemma ScaleUp(a: real, x: real, y: real)
    requires 0.0 <= a && x <= y
    ensures a * x <= a * y
  {
    assert a * y - a * x == a * (y - x);
  }

  lemma RankBounds(n: nat, percent: nat)
    requires n * percent >= 1
    ensures 100 * (Rank(n, percent) - 1) + 1 <= n * percent <= 100 * Rank(n, percent)
  {
  }

  /** A hundred times the product is short of `n * percent` by less than a hundredth. */
  lemma ProductBounds(n: nat, factor: real, percent: nat)
    requires n < COUNT_LIMIT && Approximates(factor, percent)
    ensures (n * percent) as real - 0.01 <= 100.0 * (n as real * factor) <= (n * percent) as real
  {
    var m, p := n as real, percent as real;
    ShortBy(m, p - 100.0 * factor);
    Expand(m, p, factor);
    RealProduct(n, percent);
  }

  lemma ShortBy(m: real, gap: real)
    requires 0.0 <= m <= 4294967296.0 && 0.0 <= gap <= 0.000000000001
    ensures 0.0 <= m * gap <= 0.01
  {
    ProductWithin(m, gap, 4294967296.0, 0.000000000001);
  }

  lemma ProductWithin(x: real, y: real, a: real, b: real)
    requires 0.0 <= x <= a && 0.0 <= y <= b
    ensures 0.0 <= x * y <= a * b
  {
    ScaleUp(x, y, b);
    ScaleUp(b, x, a);
    assert x * b == b * x && a * b == b * a;
  }

  lemma Expand(m: real, p: real, f: real)
    ensures m * (p - 100.0 * f) == m * p - 100.0 * (m * f)
  {
  }

  lemma {:induction false} RealProduct(n: nat, p: nat)
    ensures (n * p) as real == n as real * p as real
  {
    if p > 0 {
      RealProduct(n, p - 1);
      assert n * p == n * (p - 1) + n;
      assert p as real == (p - 1) as real + 1.0;
    }
  }

  /** Up to two to the 32 durations, the rank computed in floating point is the exact one. */
  lemma FloatRankIsExact(round: real -> real, n: nat, factor: real, percent: nat)
    requires Rounds(round) && 1 <= n < COUNT_LIMIT && 1 <= percent <= 100 && Approximates(factor, percent)
    ensures FloatRank(round, n, factor) == Rank(n, percent)
  {
    var k := Rank(n, percent);
    RankInRange(n, percent);
    RankBounds(n, percent);
    ProductBounds(n, factor, percent);
    RoundedUp(round, n as real * factor, k);
  }

  /** The element of the sorted copy at a floating-point rank. */
  method QuantileAt(durations: seq<nat>, sorted: seq<nat>, round: real -> real, level: Level) returns (q: nat)
    requires Rounds(round) && durations != [] && |durations| < COUNT_LIMIT && sorted == Sort(durations)
    ensures q == Quantile(durations, Percent(level))
  {
    FactorApproximates(level);
    FloatRankIsExact(round, |durations|, Factor(level), Percent(level));
    RankInRange(|durations|, Percent(level));
    SortKeepsSize(durations);
    var index := FloatRank(round, |durations|, Factor(level)) - 1;
    q := sorted[index];
  }

  lemma StatFrom(durations: seq<nat>, p50: nat, p95: nat, p99: nat)
    requires durations != []
    requires p50 == Quantile(durations, 50) && p95 == Quantile(durations, 95) && p99 == Quantile(durations, 99)
    ensures |Sort(durations)| == |durations|
    ensures StatOf(durations)
         == Stat(Sum(durations) / |durations|, p50, p95, p99, Sort(durations)[0], Sort(durations)[|durations| - 1])
  {
    SortKeepsSize(durations);
  }

  /** `compute_stat_on_durations` as it is written: a sorted copy indexed by floating-point ranks
      gives the statistics with exact ranks. */
  method ComputeStat(durations: seq<nat>, round: real -> real) returns (st: Stat)
    requires Rounds(round) && |durations| < COUNT_LIMIT
    ensures st == StatOf(durations)
  {
    if durations == [] {
      return Stat(0, 0, 0, 0, 0, 0);
    }
    var sorted := Sort(durations);
    var p50 := QuantileAt(durations, sorted, round, Median);
    var p95 := QuantileAt(durations, sorted, round, High);
    var p99 := QuantileAt(durations, sorted, round, Highest);
    StatFrom(durations, p50, p95, p99);
    st := Stat(Sum(durations) / |durations|, p50, p95, p99, sorted[0], sorted[|sorted| - 1]);
  }
}
