/** Arithmetic of the open-loop rate generator: an integer accumulator that releases
    `rate` requests per second over ticks of five milliseconds. */
module Pacing {
  import Arithmetic

  const TICKS_PER_SECOND: nat := 200
  const U64_MAX: nat := 0xFFFF_FFFF_FFFF_FFFF

  /** Rust's `u64::saturating_add`. */
  function SaturatingAdd(a: nat, b: nat): nat {
    if a + b <= U64_MAX then a + b else U64_MAX
  }

  function Min(a: int, b: int): int {
    if a <= b then a else b
  }

  function Max(a: int, b: int): int {
    if a >= b then a else b
  }

  /** The accumulator after `ticks` ticks. */
  function Carry(rate: nat, ticks: nat): (r: nat)
    ensures r < TICKS_PER_SECOND
  {
    if ticks == 0 then 0 else (Carry(rate, ticks - 1) + rate) % TICKS_PER_SECOND
  }

  /** What tick number `ticks` (counted from zero) releases. */
  function Launches(rate: nat, ticks: nat): nat {
    (Carry(rate, ticks) + rate) / TICKS_PER_SECOND
  }

  /** What has been released after `ticks` ticks, if the list of requests were endless. */
  function Due(rate: nat, ticks: nat): nat {
    if ticks == 0 then 0 else Due(rate, ticks - 1) + Launches(rate, ticks - 1)
  }

  /** No request is lost to rounding: after any number of ticks the releases are the floor of
      the exact share, and the accumulator holds the remainder. */
  lemma {:induction false} DueIsFloor(rate: nat, ticks: nat)
    ensures Due(rate, ticks) == ticks * rate / 200 && Carry(rate, ticks) == ticks * rate % 200
  {
    if ticks > 0 {
      DueIsFloor(rate, ticks - 1);
      assert ticks * rate == (ticks - 1) * rate + rate;
    }
  }

  /** `x` is the floor or the ceiling of the exact share of `m` ticks. */
  ghost predicate FairShare(x: int, m: nat, rate: nat) {
    m * rate / 200 <= x <= (m * rate + 199) / 200
  }

  /** Any `m` consecutive ticks release the floor or the ceiling of their share. */
  lemma BurstIsFloorOrCeiling(rate: nat, k: nat, m: nat)
    ensures FairShare(Due(rate, k + m) - Due(rate, k), m, rate)
  {
    DueIsFloor(rate, k);
    DueIsFloor(rate, k + m);
    assert (k + m) * rate == k * rate + m * rate;
  }

  lemma {:induction false} DueGrows(rate: nat, k: nat, m: nat)
    ensures Due(rate, k) <= Due(rate, k + m)
  {
    if m > 0 {
      DueGrows(rate, k, m - 1);
    }
  }

  /** The same with a finite list, as long as it lasts. */
  lemma BurstOfFiniteList(total: nat, rate: nat, k: nat, m: nat, early: nat, late: nat)
    requires early == Min(total, Due(rate, k)) && late == Min(total, Due(rate, k + m)) && late < total
    ensures FairShare(late - early, m, rate)
  {
    DueGrows(rate, k, m);
    BurstIsFloorOrCeiling(rate, k, m);
  }

  /** The whole budget `rate * duration` is due exactly from tick `200 * duration` on. */
  lemma BudgetDueAfter(rate: nat, duration: nat, ticks: nat)
    requires rate >= 1
    ensures Due(rate, ticks) >= rate * duration <==> ticks >= 200 * duration
  {
    DueIsFloor(rate, ticks);
    ScaledCompare(rate, duration, ticks);
  }

  lemma ScaledCompare(rate: nat, duration: nat, ticks: nat)
    requires rate >= 1
    ensures ticks * rate >= 200 * (rate * duration) <==> ticks >= 200 * duration
  {
    assert (200 * duration) * rate == 200 * (rate * duration);
    Arithmetic.MulCompare(ticks, 200 * duration, rate);
  }

  /** In the range the request buffer admits, the saturating addition never saturates. */
  lemma NeverSaturates(rate: nat, durationSecs: nat, carry: nat)
    requires durationSecs >= 1 && rate * durationSecs < 0x8000_0000_0000_0000 && carry < 200
    ensures rate < 0x8000_0000_0000_0000
    ensures SaturatingAdd(carry, rate) == carry + rate
  {
    assert rate * durationSecs >= rate;
  }
}
