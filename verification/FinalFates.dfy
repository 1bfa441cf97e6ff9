/** What becomes of each request over a whole run, and what the report says about it. */
module FinalFates {
  import Replies
  import opened LoadGenerator
  import Quorum
  import LatencyStats

  // -------------------------------------------------------------------------
  // Joining one task
  // -------------------------------------------------------------------------

  /** The result of a task is the earliest replies with the time of the last of them. */
  ghost predicate ResultOf(run: Quorum.TaskRun<Response>, quorum: nat, d: Quorum.UserDecryption<Response>) {
    run.Runs? && Replies.HandsOver(run.arrivals, quorum, run.clock, d.responses, d.latency)
  }

  /** Joining a task in flight decides its request: done exactly when the task completes, with its
      result appended, and failed otherwise. No other request is touched. */
  lemma JoinDecides(cfg: Config, s: Ledger, f: Finish)
    requires cfg.numExpected >= 1 && f.request < |s.fates| && s.fates[f.request] == InFlight
    ensures var t := Settle(cfg, s, f);
      && |t.fates| == |s.fates| && t.ticks == s.ticks
      && t.fates[f.request] == (if Quorum.Completes(f.run, cfg.numExpected) then Done else Failed)
      && (forall r :: 0 <= r < |s.fates| && r != f.request ==> t.fates[r] == s.fates[r])
      && (!Quorum.Completes(f.run, cfg.numExpected) ==> t.collected == s.collected)
      && (Quorum.Completes(f.run, cfg.numExpected) ==>
            && |t.collected| == |s.collected| + 1 && s.collected <= t.collected
            && t.collected[|s.collected|].request == f.request
            && ResultOf(f.run, cfg.numExpected, t.collected[|s.collected|].decryption))
  {
    Quorum.TaskOutcomeMeans(f.run, cfg.numExpected);
  }

  /** Joining a task that is not in flight changes nothing. */
  lemma JoinOfOthers(cfg: Config, s: Ledger, f: Finish)
    requires cfg.numExpected >= 1 && (f.request >= |s.fates| || s.fates[f.request] != InFlight)
    ensures Settle(cfg, s, f) == s
  {
  }

  // -------------------------------------------------------------------------
  // Joining several tasks
  // -------------------------------------------------------------------------

  /** Join number `j` of `fs` meets request `r` in flight, and its task completes or not. */
  ghost predicate DecidedAt(cfg: Config, s: Ledger, fs: seq<Finish>, r: nat, good: bool, j: nat)
    requires cfg.numExpected >= 1
  {
    && j < |fs| && fs[j].request == r
    && r < |SettleAll(cfg, s, fs[..j]).fates| && SettleAll(cfg, s, fs[..j]).fates[r] == InFlight
    && Quorum.Completes(fs[j].run, cfg.numExpected) == good
  }

  ghost predicate DecidedIn(cfg: Config, s: Ledger, fs: seq<Finish>, r: nat, good: bool)
    requires cfg.numExpected >= 1
  {
    exists j :: DecidedAt(cfg, s, fs, r, good, j)
  }

  lemma DecidedInPrefix(cfg: Config, s: Ledger, fs: seq<Finish>, r: nat, good: bool, j: nat)
    requires cfg.numExpected >= 1 && j < |fs| - 1
    ensures DecidedAt(cfg, s, fs, r, good, j) <==> DecidedAt(cfg, s, fs[..|fs| - 1], r, good, j)
  {
    assert fs[..|fs| - 1][..j] == fs[..j];
  }

  lemma DecidedLast(cfg: Config, s: Ledger, fs: seq<Finish>, r: nat, good: bool)
    requires cfg.numExpected >= 1 && fs != []
    ensures DecidedIn(cfg, s, fs, r, good)
       <==> DecidedIn(cfg, s, fs[..|fs| - 1], r, good) || DecidedAt(cfg, s, fs, r, good, |fs| - 1)
  {
    if DecidedIn(cfg, s, fs, r, good) {
      var j: nat :| DecidedAt(cfg, s, fs, r, good, j);
      if j < |fs| - 1 {
        DecidedInPrefix(cfg, s, fs, r, good, j);
      }
    }
    if DecidedIn(cfg, s, fs[..|fs| - 1], r, good) {
      var j: nat :| DecidedAt(cfg, s, fs[..|fs| - 1], r, good, j);
      DecidedInPrefix(cfg, s, fs, r, good, j);
    }
  }

  function FateOf(good: bool): Fate {
    if good then Done else Failed
  }

  lemma SettleAllSize(cfg: Config, s: Ledger, fs: seq<Finish>)
    requires cfg.numExpected >= 1
    ensures |SettleAll(cfg, s, fs).fates| == |s.fates|
  {
    if fs != [] {
      SettleAllSize(cfg, s, fs[..|fs| - 1]);
    }
  }

  lemma SettleFate(cfg: Config, s: Ledger, f: Finish, r: nat, good: bool)
    requires cfg.numExpected >= 1 && r < |s.fates|
    ensures |Settle(cfg, s, f).fates| == |s.fates|
    ensures Settle(cfg, s, f).fates[r] == FateOf(good)
       <==> || s.fates[r] == FateOf(good)
            || (s.fates[r] == InFlight && f.request == r && Quorum.Completes(f.run, cfg.numExpected) == good)
  {
    if f.request < |s.fates| && s.fates[f.request] == InFlight {
      JoinDecides(cfg, s, f);
    } else {
      JoinOfOthers(cfg, s, f);
    }
  }

  lemma {:induction false} SettleAllFate(cfg: Config, s: Ledger, fs: seq<Finish>, r: nat, good: bool)
    requires cfg.numExpected >= 1 && r < |s.fates|
    ensures |SettleAll(cfg, s, fs).fates| == |s.fates|
    ensures SettleAll(cfg, s, fs).fates[r] == FateOf(good)
       <==> s.fates[r] == FateOf(good) || DecidedIn(cfg, s, fs, r, good)
  {
    if fs != [] {
      var n := |fs| - 1;
      SettleAllFate(cfg, s, fs[..n], r, good);
      SettleFate(cfg, SettleAll(cfg, s, fs[..n]), fs[n], r, good);
      DecidedLast(cfg, s, fs, r, good);
    }
  }

  // -------------------------------------------------------------------------
  // Whole runs
  // -------------------------------------------------------------------------

  /** The joins of tick `k`, or of the drain behind the last tick. */
  function JoinsAt(schedule: seq<seq<Finish>>, drain: seq<Finish>, k: nat): seq<Finish> {
    if k < |schedule| then schedule[k] else drain
  }

  /** Some join in tick `k`, or in the drain behind the last tick, is the first to meet request `r`
      in flight, and its task completes or not. */
  ghost predicate DecidedInTick(
      cfg: Config, schedule: seq<seq<Finish>>, drain: seq<Finish>, r: nat, good: bool, k: nat)
    requires cfg.numExpected >= 1
  {
    k <= |schedule| && DecidedIn(cfg, Ticks(cfg, Start, schedule[..k]), JoinsAt(schedule, drain, k), r, good)
  }

  ghost predicate DecidedInRun(cfg: Config, schedule: seq<seq<Finish>>, drain: seq<Finish>, r: nat, good: bool)
    requires cfg.numExpected >= 1
  {
    exists k :: DecidedInTick(cfg, schedule, drain, r, good, k)
  }

  /** A tick decides what its joins decide; the requests it offers are not decided yet. */
  lemma TickFate(cfg: Config, s: Ledger, finished: seq<Finish>, r: nat, good: bool)
    requires cfg.numExpected >= 1 && r < |Tick(cfg, s, finished).fates|
    ensures Tick(cfg, s, finished).fates[r] == FateOf(good)
       <==> r < |s.fates| && (s.fates[r] == FateOf(good) || DecidedIn(cfg, s, finished, r, good))
  {
    SettleAllSize(cfg, s, finished);
    if r < |s.fates| {
      SettleAllFate(cfg, s, finished, r, good);
    }
  }

  lemma NotOfferedNotDecided(cfg: Config, s: Ledger, fs: seq<Finish>, r: nat, good: bool)
    requires cfg.numExpected >= 1 && r >= |s.fates|
    ensures !DecidedIn(cfg, s, fs, r, good)
  {
    forall j: nat | j < |fs| ensures !DecidedAt(cfg, s, fs, r, good, j) {
      SettleAllSize(cfg, s, fs[..j]);
    }
  }

  lemma OffersGrow(cfg: Config, schedule: seq<seq<Finish>>, k: nat)
    requires cfg.numExpected >= 1 && k <= |schedule|
    ensures |Ticks(cfg, Start, schedule[..k]).fates| <= |Ticks(cfg, Start, schedule).fates|
  {
    FatesAreFinal(cfg, schedule, k, []);
  }

  /** In a run without its last tick the same joins decide. */
  lemma DecidedEarlier(cfg: Config, schedule: seq<seq<Finish>>, r: nat, good: bool, k: nat)
    requires cfg.numExpected >= 1 && schedule != [] && k < |schedule| - 1
    ensures DecidedInTick(cfg, schedule, [], r, good, k)
       <==> DecidedInTick(cfg, schedule[..|schedule| - 1], [], r, good, k)
  {
    assert schedule[..|schedule| - 1][..k] == schedule[..k];
  }

  lemma EmptyDecidesNothing(cfg: Config, s: Ledger, r: nat, good: bool)
    requires cfg.numExpected >= 1
    ensures !DecidedIn(cfg, s, [], r, good)
  {
  }

  lemma TickOfLonger(cfg: Config, schedule: seq<seq<Finish>>, r: nat, good: bool, k: nat)
    requires cfg.numExpected >= 1 && schedule != [] && DecidedInTick(cfg, schedule, [], r, good, k)
    ensures || DecidedInRun(cfg, schedule[..|schedule| - 1], [], r, good)
            || DecidedIn(cfg, Ticks(cfg, Start, schedule[..|schedule| - 1]), schedule[|schedule| - 1], r, good)
  {
    EmptyDecidesNothing(cfg, Ticks(cfg, Start, schedule[..k]), r, good);
    if k < |schedule| - 1 {
      DecidedEarlier(cfg, schedule, r, good, k);
    }
  }

  lemma TickOfShorter(cfg: Config, schedule: seq<seq<Finish>>, r: nat, good: bool, k: nat)
    requires cfg.numExpected >= 1 && schedule != []
    requires DecidedInTick(cfg, schedule[..|schedule| - 1], [], r, good, k)
    ensures DecidedInRun(cfg, schedule, [], r, good)
  {
    EmptyDecidesNothing(cfg, Ticks(cfg, Start, schedule[..|schedule| - 1][..k]), r, good);
    DecidedEarlier(cfg, schedule, r, good, k);
  }

  lemma DecidedByLastTick(cfg: Config, schedule: seq<seq<Finish>>, r: nat, good: bool)
    requires cfg.numExpected >= 1 && schedule != []
    ensures var n := |schedule| - 1;
      DecidedInRun(cfg, schedule, [], r, good)
      <==> || DecidedInRun(cfg, schedule[..n], [], r, good)
           || DecidedIn(cfg, Ticks(cfg, Start, schedule[..n]), schedule[n], r, good)
  {
    var n := |schedule| - 1;
    if DecidedInRun(cfg, schedule, [], r, good) {
      var k: nat :| DecidedInTick(cfg, schedule, [], r, good, k);
      TickOfLonger(cfg, schedule, r, good, k);
    } else if DecidedInRun(cfg, schedule[..n], [], r, good) {
      var k: nat :| DecidedInTick(cfg, schedule[..n], [], r, good, k);
      TickOfShorter(cfg, schedule, r, good, k);
    } else if DecidedIn(cfg, Ticks(cfg, Start, schedule[..n]), schedule[n], r, good) {
      assert DecidedInTick(cfg, schedule, [], r, good, n);
    }
  }

  lemma {:induction false} TicksFate(cfg: Config, schedule: seq<seq<Finish>>, r: nat, good: bool)
    requires cfg.numExpected >= 1 && r < |Ticks(cfg, Start, schedule).fates|
    ensures Ticks(cfg, Start, schedule).fates[r] == FateOf(good) <==> DecidedInRun(cfg, schedule, [], r, good)
  {
    if schedule != [] {
      var n := |schedule| - 1;
      var s := Ticks(cfg, Start, schedule[..n]);
      DecidedByLastTick(cfg, schedule, r, good);
      TickFate(cfg, s, schedule[n], r, good);
      if r < |s.fates| {
        TicksFate(cfg, schedule[..n], r, good);
      } else {
        NotOfferedNotDecided(cfg, s, schedule[n], r, good);
        NeverDecidedBeforeOffer(cfg, schedule[..n], r, good);
      }
    }
  }

  lemma NeverDecidedBeforeOffer(cfg: Config, schedule: seq<seq<Finish>>, r: nat, good: bool)
    requires cfg.numExpected >= 1 && r >= |Ticks(cfg, Start, schedule).fates|
    ensures !DecidedInRun(cfg, schedule, [], r, good)
  {
    forall k: nat | k <= |schedule| ensures !DecidedInTick(cfg, schedule, [], r, good, k) {
      OffersGrow(cfg, schedule, k);
      NotOfferedNotDecided(cfg, Ticks(cfg, Start, schedule[..k]), JoinsAt(schedule, [], k), r, good);
    }
  }

  lemma TickBeforeDrain(cfg: Config, schedule: seq<seq<Finish>>, drain: seq<Finish>, r: nat, good: bool, k: nat)
    requires cfg.numExpected >= 1 && DecidedInTick(cfg, schedule, drain, r, good, k)
    ensures || DecidedInRun(cfg, schedule, [], r, good)
            || DecidedIn(cfg, Ticks(cfg, Start, schedule), drain, r, good)
  {
    if k < |schedule| {
      assert DecidedInTick(cfg, schedule, [], r, good, k);
    } else {
      assert schedule[..k] == schedule;
    }
  }

  lemma TickWithDrain(cfg: Config, schedule: seq<seq<Finish>>, drain: seq<Finish>, r: nat, good: bool, k: nat)
    requires cfg.numExpected >= 1 && DecidedInTick(cfg, schedule, [], r, good, k)
    ensures DecidedInRun(cfg, schedule, drain, r, good)
  {
    EmptyDecidesNothing(cfg, Ticks(cfg, Start, schedule[..k]), r, good);
    assert DecidedInTick(cfg, schedule, drain, r, good, k);
  }

  lemma DecidedWithDrain(cfg: Config, schedule: seq<seq<Finish>>, drain: seq<Finish>, r: nat, good: bool)
    requires cfg.numExpected >= 1
    ensures DecidedInRun(cfg, schedule, drain, r, good)
       <==> || DecidedInRun(cfg, schedule, [], r, good)
            || DecidedIn(cfg, Ticks(cfg, Start, schedule), drain, r, good)
  {
    if DecidedInRun(cfg, schedule, drain, r, good) {
      var k: nat :| DecidedInTick(cfg, schedule, drain, r, good, k);
      TickBeforeDrain(cfg, schedule, drain, r, good, k);
    } else if DecidedInRun(cfg, schedule, [], r, good) {
      var k: nat :| DecidedInTick(cfg, schedule, [], r, good, k);
      TickWithDrain(cfg, schedule, drain, r, good, k);
    } else if DecidedIn(cfg, Ticks(cfg, Start, schedule), drain, r, good) {
      assert schedule[..|schedule|] == schedule;
      assert DecidedInTick(cfg, schedule, drain, r, good, |schedule|);
    }
  }

  /** At the end of every run an offered request is done exactly when the first join that met it in
      flight was of a task that completes, and failed exactly when it was of one that does not. */
  lemma FateIsDecided(cfg: Config, schedule: seq<seq<Finish>>, drain: seq<Finish>, r: nat, good: bool)
    requires cfg.numExpected >= 1 && r < |Drained(cfg, schedule, drain).fates|
    ensures Drained(cfg, schedule, drain).fates[r] == FateOf(good) <==> DecidedInRun(cfg, schedule, drain, r, good)
  {
    var s := Ticks(cfg, Start, schedule);
    SettleAllSize(cfg, s, drain);
    SettleAllFate(cfg, s, drain, r, good);
    TicksFate(cfg, schedule, r, good);
    DecidedWithDrain(cfg, schedule, drain, r, good);
  }

  // -------------------------------------------------------------------------
  // Where results come from
  // -------------------------------------------------------------------------

  /** Join number `j` of `fs` met the request of `c` in flight, and its task completed with the
      result that `c` holds. */
  ghost predicate BroughtAt(cfg: Config, s: Ledger, fs: seq<Finish>, c: Collected, j: nat)
    requires cfg.numExpected >= 1
  {
    DecidedAt(cfg, s, fs, c.request, true, j) && ResultOf(fs[j].run, cfg.numExpected, c.decryption)
  }

  ghost predicate BroughtBy(cfg: Config, s: Ledger, fs: seq<Finish>, c: Collected)
    requires cfg.numExpected >= 1
  {
    exists j :: BroughtAt(cfg, s, fs, c, j)
  }

  lemma BroughtByPrefix(cfg: Config, s: Ledger, fs: seq<Finish>, c: Collected)
    requires cfg.numExpected >= 1 && fs != [] && BroughtBy(cfg, s, fs[..|fs| - 1], c)
    ensures BroughtBy(cfg, s, fs, c)
  {
    var j: nat :| BroughtAt(cfg, s, fs[..|fs| - 1], c, j);
    DecidedInPrefix(cfg, s, fs, c.request, true, j);
    assert BroughtAt(cfg, s, fs, c, j);
  }

  lemma {:induction false} SettleAllBrings(cfg: Config, s: Ledger, fs: seq<Finish>, c: Collected)
    requires cfg.numExpected >= 1 && c in SettleAll(cfg, s, fs).collected && c !in s.collected
    ensures BroughtBy(cfg, s, fs, c)
  {
    var n := |fs| - 1;
    var t := SettleAll(cfg, s, fs[..n]);
    if c in t.collected {
      SettleAllBrings(cfg, s, fs[..n], c);
      BroughtByPrefix(cfg, s, fs, c);
    } else {
      LastBrings(cfg, t, fs[n], c);
      assert BroughtAt(cfg, s, fs, c, n);
    }
  }

  lemma LastBrings(cfg: Config, s: Ledger, f: Finish, c: Collected)
    requires cfg.numExpected >= 1 && c in Settle(cfg, s, f).collected && c !in s.collected
    ensures f.request == c.request < |s.fates| && s.fates[f.request] == InFlight
    ensures Quorum.Completes(f.run, cfg.numExpected) && ResultOf(f.run, cfg.numExpected, c.decryption)
  {
    if f.request < |s.fates| && s.fates[f.request] == InFlight {
      JoinDecides(cfg, s, f);
    } else {
      JoinOfOthers(cfg, s, f);
    }
  }

  ghost predicate BroughtIn(cfg: Config, schedule: seq<seq<Finish>>, drain: seq<Finish>, c: Collected, k: nat)
    requires cfg.numExpected >= 1
  {
    k <= |schedule| && BroughtBy(cfg, Ticks(cfg, Start, schedule[..k]), JoinsAt(schedule, drain, k), c)
  }

  lemma BroughtEarlier(cfg: Config, schedule: seq<seq<Finish>>, c: Collected, k: nat)
    requires cfg.numExpected >= 1 && schedule != [] && k < |schedule| - 1
    requires BroughtIn(cfg, schedule[..|schedule| - 1], [], c, k)
    ensures BroughtIn(cfg, schedule, [], c, k)
  {
    assert schedule[..|schedule| - 1][..k] == schedule[..k];
  }

  lemma {:induction false} TicksBring(cfg: Config, schedule: seq<seq<Finish>>, c: Collected) returns (k: nat)
    requires cfg.numExpected >= 1 && c in Ticks(cfg, Start, schedule).collected
    ensures k < |schedule| && BroughtIn(cfg, schedule, [], c, k)
  {
    var n := |schedule| - 1;
    var s := Ticks(cfg, Start, schedule[..n]);
    if c in s.collected {
      k := TicksBring(cfg, schedule[..n], c);
      BroughtEarlier(cfg, schedule, c, k);
    } else {
      SettleAllBrings(cfg, s, schedule[n], c);
      k := n;
    }
  }

  /** Every collected result is that of a join which met its request in flight. */
  lemma ResultsAreBrought(cfg: Config, schedule: seq<seq<Finish>>, drain: seq<Finish>, c: Collected)
    requires cfg.numExpected >= 1 && c in Drained(cfg, schedule, drain).collected
    ensures exists k :: BroughtIn(cfg, schedule, drain, c, k)
  {
    var s := Ticks(cfg, Start, schedule);
    assert schedule[..|schedule|] == schedule;
    if c in s.collected {
      var k := TicksBring(cfg, schedule, c);
      assert BroughtIn(cfg, schedule, drain, c, k);
    } else {
      SettleAllBrings(cfg, s, drain, c);
      assert BroughtIn(cfg, schedule, drain, c, |schedule|);
    }
  }

  // -------------------------------------------------------------------------
  // The report
  // -------------------------------------------------------------------------

  ghost function With(fates: seq<Fate>, f: Fate): set<int> {
    set r | 0 <= r < |fates| && fates[r] == f
  }

  lemma WithLast(fates: seq<Fate>, f: Fate)
    requires fates != []
    ensures With(fates, f)
         == With(fates[..|fates| - 1], f) + if fates[|fates| - 1] == f then {|fates| - 1} else {}
    ensures |fates| - 1 !in With(fates[..|fates| - 1], f)
  {
  }

  lemma {:induction false} CountIsSize(fates: seq<Fate>, f: Fate)
    ensures Count(fates, f) == |With(fates, f)|
  {
    if fates == [] {
      assert With(fates, f) == {};
    } else {
      CountIsSize(fates[..|fates| - 1], f);
      WithLast(fates, f);
    }
  }

  /** The offered requests whose first join in flight was of a task that completes. */
  ghost function Completed(cfg: Config, schedule: seq<seq<Finish>>, drain: seq<Finish>, offered: nat): set<int>
    requires cfg.numExpected >= 1
  {
    set r | 0 <= r < offered && DecidedInRun(cfg, schedule, drain, r, true)
  }

  /** The number of completed requests in the report is the number of requests that completed. */
  lemma CompletedAreCounted(cfg: Config, schedule: seq<seq<Finish>>, drain: seq<Finish>)
    requires cfg.numExpected >= 1
    ensures var s := Drained(cfg, schedule, drain);
            |s.collected| == |Completed(cfg, schedule, drain, |s.fates|)|
  {
    var s := Drained(cfg, schedule, drain);
    EveryDrainedLedger(cfg, schedule, drain);
    CountIsSize(s.fates, Done);
    forall r | 0 <= r < |s.fates| ensures r in With(s.fates, Done) <==> DecidedInRun(cfg, schedule, drain, r, true) {
      FateIsDecided(cfg, schedule, drain, r, true);
    }
    assert With(s.fates, Done) == Completed(cfg, schedule, drain, |s.fates|);
  }

  /** What each request adds to the sent bytes: its size for every core, or nothing if it is shed. */
  function SentSizes(sizes: seq<nat>, endpoints: nat, fates: seq<Fate>): (r: seq<nat>)
    requires |fates| <= |sizes|
    ensures |r| == |fates|
    ensures forall i :: 0 <= i < |r| ==> r[i] == if fates[i] == Shed then 0 else sizes[i] * endpoints
  {
    seq(|fates|, i requires 0 <= i < |fates| => if fates[i] == Shed then 0 else sizes[i] * endpoints)
  }

  lemma {:induction false} SentBytesIsSum(sizes: seq<nat>, endpoints: nat, fates: seq<Fate>)
    requires |fates| <= |sizes|
    ensures SentBytes(sizes, endpoints, fates) == LatencyStats.Sum(SentSizes(sizes, endpoints, fates))
  {
    if fates != [] {
      var n := |fates| - 1;
      SentBytesIsSum(sizes, endpoints, fates[..n]);
      assert SentSizes(sizes, endpoints, fates)[..n] == SentSizes(sizes, endpoints, fates[..n]);
    }
  }

  function Lengths(responses: seq<Response>): (r: seq<nat>)
    ensures |r| == |responses| && forall i :: 0 <= i < |r| ==> r[i] == responses[i].encodedLen
  {
    seq(|responses|, i requires 0 <= i < |responses| => responses[i].encodedLen)
  }

  /** The lengths of all responses, one collected request after the other. */
  function AllLengths(collected: seq<Collected>): seq<nat> {
    if collected == [] then []
    else AllLengths(collected[..|collected| - 1]) + Lengths(collected[|collected| - 1].decryption.responses)
  }

  lemma {:induction false} SumLengthsIsSum(responses: seq<Response>)
    ensures SumLengths(responses) == LatencyStats.Sum(Lengths(responses))
  {
    if responses != [] {
      var n := |responses| - 1;
      SumLengthsIsSum(responses[..n]);
      assert Lengths(responses)[..n] == Lengths(responses[..n]);
    }
  }

  lemma {:induction false} ResponseBytesIsSum(collected: seq<Collected>)
    ensures ResponseBytes(collected) == LatencyStats.Sum(AllLengths(collected))
  {
    if collected != [] {
      var n := |collected| - 1;
      ResponseBytesIsSum(collected[..n]);
      SumLengthsIsSum(collected[n].decryption.responses);
      LatencyStats.SumAppend(AllLengths(collected[..n]), Lengths(collected[n].decryption.responses));
    }
  }

  lemma AbortedFail(fates: seq<Fate>)
    ensures Count(Abort(fates), Failed) == |With(fates, Failed)| + |With(fates, InFlight)|
  {
    CountAbort(fates);
    CountIsSize(fates, Failed);
    CountIsSize(fates, InFlight);
  }

  lemma SomeWith(fates: seq<Fate>, f: Fate)
    ensures Count(fates, f) > 0 <==> exists r :: 0 <= r < |fates| && fates[r] == f
  {
    CountIsSize(fates, f);
    if r :| 0 <= r < |fates| && fates[r] == f {
      assert r in With(fates, f);
    } else {
      assert With(fates, f) == {};
    }
  }

  /** Each figure of the report, from the fates and the results at the end of the drain: requests
      are counted by fate, what is still in flight counts as failed, the run is saturated exactly
      when some request was shed or is still in flight, and bytes are summed over what was sent and
      what was collected. */
  lemma ReportMeans(cfg: Config, sizes: seq<nat>, s: Ledger)
    requires |s.fates| <= |sizes|
    ensures var o := ReportOf(cfg, sizes, s);
      && o.offered == |s.fates| && o.completed == |s.collected|
      && o.failed == |With(s.fates, Failed)| + |With(s.fates, InFlight)|
      && o.shed == |With(s.fates, Shed)|
      && (o.saturated <==> exists r :: 0 <= r < |s.fates| && (s.fates[r] == Shed || s.fates[r] == InFlight))
      && o.requestBytes == LatencyStats.Sum(SentSizes(sizes, cfg.endpoints, s.fates))
      && o.responseBytes == LatencyStats.Sum(AllLengths(s.collected))
      && |o.latencies| == |s.collected|
      && forall i :: 0 <= i < |o.latencies| ==> o.latencies[i] == s.collected[i].decryption.latency
  {
    AbortedFail(s.fates);
    CountIsSize(s.fates, Shed);
    SomeWith(s.fates, Shed);
    SomeWith(s.fates, InFlight);
    SentBytesIsSum(sizes, cfg.endpoints, s.fates);
    ResponseBytesIsSum(s.collected);
  }
}
