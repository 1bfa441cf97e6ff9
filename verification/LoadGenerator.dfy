/** The open-loop load generator of the user-decrypt benchmark, as a state machine.

    Requests are prebuilt, released by the rate accumulator at every tick, and either sent or
    shed when too many are in flight. Tasks finish at arbitrary times; a timed drain follows
    the run and aborts what is left.

    Clocks and task completions are an arbitrary schedule. The ledger records for every offered
    request which fate it met; `UserDecryptRun` holds the client's loop over counters. */
module LoadGenerator {
  import opened Sequences
  import opened Pacing
  import Quorum

  /** The wire size of a response is all the report needs to know about it. */
  datatype Response = Response(encodedLen: nat)

  /** `total` is the number of prebuilt requests. */
  datatype Config = Config(
    rate: nat, durationSecs: nat, total: nat, maxInFlight: nat, endpoints: nat, numExpected: nat) {

    /** What the argument validation and the allocation of the request buffer demand. */
    ghost predicate Valid() {
      && durationSecs >= 1 && numExpected >= 1
      && total == rate * durationSecs < 0x8000_0000_0000_0000
    }
  }

  /** A task that has finished: the request it served and how it ran. */
  datatype Finish = Finish(request: nat, run: Quorum.TaskRun<Response>)

  datatype Collected = Collected(request: nat, decryption: Quorum.UserDecryption<Response>)

  datatype Fate = InFlight | Shed | Failed | Done

  /** `fates[r]` is what happened so far to request `r`; requests are offered in list order, so
      `|fates|` requests have been offered. */
  datatype Ledger = Ledger(ticks: nat, fates: seq<Fate>, collected: seq<Collected>)

  const Start := Ledger(0, [], [])

  function Count(fates: seq<Fate>, f: Fate): nat {
    if fates == [] then 0
    else Count(fates[..|fates| - 1], f) + if fates[|fates| - 1] == f then 1 else 0
  }

  // -------------------------------------------------------------------------
  // Steps
  // -------------------------------------------------------------------------

  /** A finished task is joined once; a task that is not in flight is not in the join set. */
  function Settle(cfg: Config, s: Ledger, f: Finish): Ledger
    requires cfg.numExpected >= 1
  {
    if f.request >= |s.fates| || s.fates[f.request] != InFlight then s
    else
      match Quorum.TaskOutcome(f.run, cfg.numExpected)
      case Some(d) => s.(fates := s.fates[f.request := Done], collected := s.collected + [Collected(f.request, d)])
      case None => s.(fates := s.fates[f.request := Failed])
  }

  function SettleAll(cfg: Config, s: Ledger, fs: seq<Finish>): Ledger
    requires cfg.numExpected >= 1
  {
    if fs == [] then s else Settle(cfg, SettleAll(cfg, s, fs[..|fs| - 1]), fs[|fs| - 1])
  }

  function Repeat(f: Fate, n: nat): (r: seq<Fate>)
    ensures |r| == n && forall i :: 0 <= i < n ==> r[i] == f
  {
    seq(n, _ => f)
  }

  /** Offers `n` more requests: as many as there is `room` for are sent, the rest is shed. */
  function Offer(fates: seq<Fate>, n: nat, room: nat): seq<Fate> {
    fates + Repeat(InFlight, Min(n, room)) + Repeat(Shed, n - Min(n, room))
  }

  function Room(cfg: Config, fates: seq<Fate>): nat {
    Max(0, cfg.maxInFlight - Count(fates, InFlight))
  }

  /** Of `launches` requests only as many are offered as the list still has. */
  function Offers(total: nat, offered: nat, launches: nat): nat {
    Max(0, Min(launches, total - offered))
  }

  /** Joins what has finished, then releases `launches` requests. */
  function Advance(cfg: Config, s: Ledger, finished: seq<Finish>, launches: nat): Ledger
    requires cfg.numExpected >= 1
  {
    var d := SettleAll(cfg, s, finished);
    Ledger(s.ticks + 1, Offer(d.fates, Offers(cfg.total, |d.fates|, launches), Room(cfg, d.fates)), d.collected)
  }

  /** One tick: join what has finished, then release what has become due. */
  function Tick(cfg: Config, s: Ledger, finished: seq<Finish>): Ledger
    requires cfg.numExpected >= 1
  {
    Advance(cfg, s, finished, Launches(cfg.rate, s.ticks))
  }

  function Ticks(cfg: Config, s: Ledger, schedule: seq<seq<Finish>>): Ledger
    requires cfg.numExpected >= 1
  {
    if schedule == [] then s else Tick(cfg, Ticks(cfg, s, schedule[..|schedule| - 1]), schedule[|schedule| - 1])
  }

  /** The ledger when the drain has ended: the tick phase and then the joins of the drain. */
  function Drained(cfg: Config, schedule: seq<seq<Finish>>, drain: seq<Finish>): Ledger
    requires cfg.numExpected >= 1
  {
    SettleAll(cfg, Ticks(cfg, Start, schedule), drain)
  }

  /** Whatever is still in flight is aborted and counts as failed. */
  function Abort(fates: seq<Fate>): (r: seq<Fate>)
    ensures |r| == |fates|
    ensures forall i :: 0 <= i < |r| ==> r[i] == if fates[i] == InFlight then Failed else fates[i]
  {
    seq(|fates|, i requires 0 <= i < |fates| => if fates[i] == InFlight then Failed else fates[i])
  }

  // -------------------------------------------------------------------------
  // Counting fates
  // -------------------------------------------------------------------------

  lemma {:induction false} CountUpdate(fates: seq<Fate>, r: nat, g: Fate, f: Fate)
    requires r < |fates|
    ensures Count(fates[r := g], f)
         == Count(fates, f) - (if fates[r] == f then 1 else 0) + if g == f then 1 else 0
  {
    var init := fates[..|fates| - 1];
    if r == |fates| - 1 {
      assert fates[r := g][..|fates| - 1] == init;
    } else {
      assert fates[r := g][..|fates| - 1] == init[r := g];
      CountUpdate(init, r, g, f);
    }
  }

  lemma {:induction false} CountRepeat(fates: seq<Fate>, g: Fate, n: nat, f: Fate)
    ensures Count(fates + Repeat(g, n), f) == Count(fates, f) + if g == f then n else 0
  {
    if n == 0 {
      assert fates + Repeat(g, n) == fates;
    } else {
      CountRepeat(fates, g, n - 1, f);
      assert (fates + Repeat(g, n))[..|fates| + n - 1] == fates + Repeat(g, n - 1);
    }
  }

  /** An offer adds what it sends to the tasks in flight and the rest to the shed. */
  lemma CountOffer(fates: seq<Fate>, n: nat, room: nat, f: Fate)
    ensures Count(Offer(fates, n, room), f)
         == Count(fates, f) + (if f == InFlight then Min(n, room) else if f == Shed then n - Min(n, room) else 0)
  {
    CountRepeat(fates, InFlight, Min(n, room), f);
    CountRepeat(fates + Repeat(InFlight, Min(n, room)), Shed, n - Min(n, room), f);
  }

  /** Nothing is lost and nothing is counted twice: the fates add up to the offered requests. */
  lemma {:induction false} Conservation(fates: seq<Fate>)
    ensures |fates| == Count(fates, InFlight) + Count(fates, Shed) + Count(fates, Failed) + Count(fates, Done)
  {
    if fates != [] {
      Conservation(fates[..|fates| - 1]);
    }
  }

  lemma {:induction false} CountAbort(fates: seq<Fate>)
    ensures Count(Abort(fates), InFlight) == 0
    ensures Count(Abort(fates), Failed) == Count(fates, Failed) + Count(fates, InFlight)
    ensures Count(Abort(fates), Shed) == Count(fates, Shed) && Count(Abort(fates), Done) == Count(fates, Done)
  {
    if fates != [] {
      CountAbort(fates[..|fates| - 1]);
      assert Abort(fates)[..|fates| - 1] == Abort(fates[..|fates| - 1]);
    }
  }

  // -------------------------------------------------------------------------
  // What every reachable ledger satisfies
  // -------------------------------------------------------------------------

  function Requests(collected: seq<Collected>): seq<int> {
    Map((c: Collected) => c.request, collected)
  }

  /** A request is among the results once if its fate is `Done`, and not at all otherwise. */
  ghost predicate ResultsMatchFates(s: Ledger) {
    && |s.collected| == Count(s.fates, Done)
    && forall r :: multiset(Requests(s.collected))[r] == if 0 <= r < |s.fates| && s.fates[r] == Done then 1 else 0
  }

  /** What holds at every step whatever the pace. */
  ghost predicate Sound(cfg: Config, s: Ledger) {
    && ResultsMatchFates(s)
    && Count(s.fates, InFlight) <= cfg.maxInFlight
    && (forall c :: c in s.collected ==> |c.decryption.responses| == cfg.numExpected)
    && (cfg.maxInFlight >= 1 && |s.fates| >= 1 ==> s.fates[0] != Shed)
  }

  lemma SettleKeepsResults(cfg: Config, s: Ledger, f: Finish)
    requires cfg.numExpected >= 1 && ResultsMatchFates(s)
    ensures ResultsMatchFates(Settle(cfg, s, f))
  {
    if f.request < |s.fates| && s.fates[f.request] == InFlight {
      match Quorum.TaskOutcome(f.run, cfg.numExpected)
      case Some(d) =>
        CountUpdate(s.fates, f.request, Done, Done);
        var c := Collected(f.request, d);
        assert Requests(s.collected + [c]) == Requests(s.collected) + [f.request];
      case None =>
        CountUpdate(s.fates, f.request, Failed, Done);
    }
  }

  lemma SettleKeepsSound(cfg: Config, s: Ledger, f: Finish)
    requires cfg.numExpected >= 1 && Sound(cfg, s)
    ensures Sound(cfg, Settle(cfg, s, f))
  {
    SettleKeepsResults(cfg, s, f);
    if f.request < |s.fates| {
      CountUpdate(s.fates, f.request, Done, InFlight);
      CountUpdate(s.fates, f.request, Failed, InFlight);
    }
  }

  lemma {:induction false} SettleAllKeepsSound(cfg: Config, s: Ledger, fs: seq<Finish>)
    requires cfg.numExpected >= 1 && Sound(cfg, s)
    ensures Sound(cfg, SettleAll(cfg, s, fs))
    ensures SettleAll(cfg, s, fs).ticks == s.ticks && |SettleAll(cfg, s, fs).fates| == |s.fates|
  {
    if fs != [] {
      SettleAllKeepsSound(cfg, s, fs[..|fs| - 1]);
      SettleKeepsSound(cfg, SettleAll(cfg, s, fs[..|fs| - 1]), fs[|fs| - 1]);
    }
  }

  lemma OfferKeepsResults(s: Ledger, n: nat, room: nat, k: nat)
    requires ResultsMatchFates(s)
    ensures ResultsMatchFates(Ledger(k, Offer(s.fates, n, room), s.collected))
  {
    CountOffer(s.fates, n, room, Done);
  }

  lemma OfferKeepsSound(cfg: Config, s: Ledger, n: nat, k: nat)
    requires Sound(cfg, s)
    ensures Sound(cfg, Ledger(k, Offer(s.fates, n, Room(cfg, s.fates)), s.collected))
  {
    OfferKeepsResults(s, n, Room(cfg, s.fates), k);
    CountOffer(s.fates, n, Room(cfg, s.fates), InFlight);
  }

  lemma AdvanceKeepsSound(cfg: Config, s: Ledger, finished: seq<Finish>, launches: nat)
    requires cfg.numExpected >= 1 && Sound(cfg, s)
    ensures Sound(cfg, Advance(cfg, s, finished, launches))
    ensures |Advance(cfg, s, finished, launches).fates| == |s.fates| + Offers(cfg.total, |s.fates|, launches)
  {
    SettleAllKeepsSound(cfg, s, finished);
    OfferKeepsSound(cfg, SettleAll(cfg, s, finished), Offers(cfg.total, |s.fates|, launches), s.ticks + 1);
  }

  /** Offers follow the pace: what has been offered is what is due, capped by the list. */
  lemma TickKeepsPace(cfg: Config, s: Ledger, finished: seq<Finish>)
    requires cfg.numExpected >= 1 && Sound(cfg, s)
    requires |s.fates| == Min(cfg.total, Due(cfg.rate, s.ticks))
    ensures |Tick(cfg, s, finished).fates| == Min(cfg.total, Due(cfg.rate, s.ticks + 1))
  {
    AdvanceKeepsSound(cfg, s, finished, Launches(cfg.rate, s.ticks));
  }

  /** The invariant holds after every tick of every schedule. */
  lemma {:induction false} EveryReachableLedger(cfg: Config, schedule: seq<seq<Finish>>)
    requires cfg.numExpected >= 1
    ensures Sound(cfg, Ticks(cfg, Start, schedule))
    ensures Ticks(cfg, Start, schedule).ticks == |schedule|
    ensures |Ticks(cfg, Start, schedule).fates| == Min(cfg.total, Due(cfg.rate, |schedule|))
  {
    if schedule == [] {
      assert Requests([]) == [];
    } else {
      var init, finished := schedule[..|schedule| - 1], schedule[|schedule| - 1];
      EveryReachableLedger(cfg, init);
      var s := Ticks(cfg, Start, init);
      AdvanceKeepsSound(cfg, s, finished, Launches(cfg.rate, s.ticks));
      TickKeepsPace(cfg, s, finished);
    }
  }

  /** The same after any number of joins of the drain. */
  lemma EveryDrainedLedger(cfg: Config, schedule: seq<seq<Finish>>, drain: seq<Finish>)
    requires cfg.numExpected >= 1
    ensures Sound(cfg, Drained(cfg, schedule, drain))
    ensures Drained(cfg, schedule, drain).ticks == |schedule|
    ensures |Drained(cfg, schedule, drain).fates| == Min(cfg.total, Due(cfg.rate, |schedule|))
  {
    EveryReachableLedger(cfg, schedule);
    SettleAllKeepsSound(cfg, Ticks(cfg, Start, schedule), drain);
  }

  // -------------------------------------------------------------------------
  // Consequences over whole runs
  // -------------------------------------------------------------------------

  /** `t` continues `s`: no decided fate changes, nothing goes back in flight, results are only
      appended. */
  ghost predicate Continues(s: Ledger, t: Ledger) {
    && |s.fates| <= |t.fates| && s.collected <= t.collected
    && forall r :: 0 <= r < |s.fates| && s.fates[r] != InFlight ==> t.fates[r] == s.fates[r]
  }

  lemma {:induction false} SettleAllContinues(cfg: Config, s: Ledger, fs: seq<Finish>)
    requires cfg.numExpected >= 1
    ensures Continues(s, SettleAll(cfg, s, fs))
  {
    if fs != [] {
      SettleAllContinues(cfg, s, fs[..|fs| - 1]);
    }
  }

  lemma TickContinues(cfg: Config, s: Ledger, finished: seq<Finish>)
    requires cfg.numExpected >= 1
    ensures Continues(s, Tick(cfg, s, finished))
  {
    SettleAllContinues(cfg, s, finished);
  }

  /** What happened to a request never changes in the rest of the run. */
  lemma {:induction false} FatesAreFinal(cfg: Config, schedule: seq<seq<Finish>>, k: nat, drain: seq<Finish>)
    requires cfg.numExpected >= 1 && k <= |schedule|
    ensures Continues(Ticks(cfg, Start, schedule[..k]), Drained(cfg, schedule, drain))
    decreases |schedule|, |drain|
  {
    if drain != [] {
      FatesAreFinal(cfg, schedule, k, []);
      SettleAllContinues(cfg, Ticks(cfg, Start, schedule), drain);
    } else if k < |schedule| {
      var init := schedule[..|schedule| - 1];
      FatesAreFinal(cfg, init, k, []);
      assert init[..k] == schedule[..k];
      TickContinues(cfg, Ticks(cfg, Start, init), schedule[|schedule| - 1]);
    } else {
      assert schedule[..k] == schedule;
    }
  }

  /** Every prebuilt request is offered exactly when the run lasts its full number of ticks. */
  lemma AllOfferedIff(cfg: Config, schedule: seq<seq<Finish>>)
    requires cfg.Valid() && cfg.rate >= 1
    ensures |Ticks(cfg, Start, schedule).fates| == cfg.total <==> |schedule| >= 200 * cfg.durationSecs
  {
    EveryReachableLedger(cfg, schedule);
    BudgetDueAfter(cfg.rate, cfg.durationSecs, |schedule|);
  }

  /** After `k` ticks the offers are the floor of the exact share, capped by the list. */
  lemma OffersAreFloor(cfg: Config, schedule: seq<seq<Finish>>)
    requires cfg.numExpected >= 1
    ensures |Ticks(cfg, Start, schedule).fates| == Min(cfg.total, |schedule| * cfg.rate / 200)
  {
    EveryReachableLedger(cfg, schedule);
    DueIsFloor(cfg.rate, |schedule|);
  }

  lemma OffersAreDue(cfg: Config, schedule: seq<seq<Finish>>)
    requires cfg.numExpected >= 1
    ensures |Ticks(cfg, Start, schedule).fates| == Min(cfg.total, Due(cfg.rate, |schedule|))
  {
    EveryReachableLedger(cfg, schedule);
  }

  /** As long as the list lasts, the ticks of `rest` offer the floor or the ceiling of their
      share of the rate, whatever came before. */
  lemma {:induction false} SteadyPace(cfg: Config, before: seq<seq<Finish>>, rest: seq<seq<Finish>>)
    requires cfg.numExpected >= 1
    requires |Ticks(cfg, Start, before + rest).fates| < cfg.total
    ensures FairShare(|Ticks(cfg, Start, before + rest).fates| - |Ticks(cfg, Start, before).fates|, |rest|, cfg.rate)
  {
    OffersAreDue(cfg, before + rest);
    OffersAreDue(cfg, before);
    BurstOfFiniteList(cfg.total, cfg.rate, |before|, |rest|, |Ticks(cfg, Start, before).fates|,
                      |Ticks(cfg, Start, before + rest).fates|);
  }

  /** `t` adds offers to `d`: in order, as many are sent as fit under the cap, and only the
      others are shed. */
  ghost predicate FillsRoom(cap: nat, d: seq<Fate>, t: seq<Fate>) {
    && |d| <= |t| && Count(d, InFlight) <= cap
    && var sent := Min(|t| - |d|, cap - Count(d, InFlight));
       && Count(t, InFlight) == Count(d, InFlight) + sent
       && Count(t, Shed) == Count(d, Shed) + |t| - |d| - sent
       && forall r :: |d| <= r < |t| ==> t[r] == if r < |d| + sent then InFlight else Shed
  }

  lemma OfferFillsRoom(cap: nat, d: seq<Fate>, n: nat)
    requires Count(d, InFlight) <= cap
    ensures FillsRoom(cap, d, Offer(d, n, cap - Count(d, InFlight)))
  {
    CountOffer(d, n, cap - Count(d, InFlight), InFlight);
    CountOffer(d, n, cap - Count(d, InFlight), Shed);
  }

  lemma AdvanceFillsRoom(cfg: Config, s: Ledger, finished: seq<Finish>, launches: nat)
    requires cfg.numExpected >= 1 && Sound(cfg, s)
    ensures FillsRoom(cfg.maxInFlight, SettleAll(cfg, s, finished).fates, Advance(cfg, s, finished, launches).fates)
  {
    SettleAllKeepsSound(cfg, s, finished);
    var d := SettleAll(cfg, s, finished).fates;
    OfferFillsRoom(cfg.maxInFlight, d, Offers(cfg.total, |d|, launches));
  }

  /** Every tick of every run joins what had finished and then fills the room under the cap. */
  lemma TickFillsRoom(cfg: Config, schedule: seq<seq<Finish>>, finished: seq<Finish>)
    requires cfg.numExpected >= 1
    ensures var s := Ticks(cfg, Start, schedule);
            FillsRoom(cfg.maxInFlight, SettleAll(cfg, s, finished).fates, Tick(cfg, s, finished).fates)
  {
    EveryReachableLedger(cfg, schedule);
    AdvanceFillsRoom(cfg, Ticks(cfg, Start, schedule), finished,
                     Launches(cfg.rate, Ticks(cfg, Start, schedule).ticks));
  }

  // -------------------------------------------------------------------------
  // The report
  // -------------------------------------------------------------------------

  datatype Report = Report(
    offered: nat, completed: nat, failed: nat, shed: nat, saturated: bool,
    requestBytes: nat, requestMessages: nat, responseBytes: nat, responseMessages: nat,
    latencies: seq<nat>)

  /** Bytes of the requests that were sent, counted once per core they went to. */
  function SentBytes(sizes: seq<nat>, endpoints: nat, fates: seq<Fate>): nat
    requires |fates| <= |sizes|
  {
    if fates == [] then 0
    else
      SentBytes(sizes, endpoints, fates[..|fates| - 1])
      + if fates[|fates| - 1] == Shed then 0 else sizes[|fates| - 1] * endpoints
  }

  /** One message per request that was sent and core it went to. */
  function SentMessages(endpoints: nat, fates: seq<Fate>): nat {
    if fates == [] then 0
    else SentMessages(endpoints, fates[..|fates| - 1]) + if fates[|fates| - 1] == Shed then 0 else endpoints
  }

  function SumLengths(responses: seq<Response>): nat {
    if responses == [] then 0
    else SumLengths(responses[..|responses| - 1]) + responses[|responses| - 1].encodedLen
  }

  function ResponseBytes(collected: seq<Collected>): nat {
    if collected == [] then 0
    else ResponseBytes(collected[..|collected| - 1]) + SumLengths(collected[|collected| - 1].decryption.responses)
  }

  function ResponseMessages(collected: seq<Collected>): nat {
    if collected == [] then 0
    else ResponseMessages(collected[..|collected| - 1]) + |collected[|collected| - 1].decryption.responses|
  }

  function Latencies(collected: seq<Collected>): seq<nat> {
    Map((c: Collected) => c.decryption.latency, collected)
  }

  /** The report that belongs to a drained ledger. */
  function ReportOf(cfg: Config, sizes: seq<nat>, s: Ledger): Report
    requires |s.fates| <= |sizes|
  {
    Report(|s.fates|, |s.collected|, Count(Abort(s.fates), Failed), Count(s.fates, Shed),
           Count(s.fates, Shed) > 0 || Count(s.fates, InFlight) > 0,
           SentBytes(sizes, cfg.endpoints, s.fates), SentMessages(cfg.endpoints, s.fates),
           ResponseBytes(s.collected), ResponseMessages(s.collected), Latencies(s.collected))
  }

  lemma {:induction false} MessagesPerRequest(endpoints: nat, fates: seq<Fate>)
    ensures SentMessages(endpoints, fates) == (|fates| - Count(fates, Shed)) * endpoints
  {
    if fates != [] {
      var init := fates[..|fates| - 1];
      MessagesPerRequest(endpoints, init);
      assert (|init| + 1 - Count(init, Shed)) * endpoints == (|init| - Count(init, Shed)) * endpoints + endpoints;
    }
  }

  lemma {:induction false} MessagesPerQuorum(collected: seq<Collected>, quorum: nat)
    requires forall c :: c in collected ==> |c.decryption.responses| == quorum
    ensures ResponseMessages(collected) == |collected| * quorum
  {
    if collected != [] {
      MessagesPerQuorum(collected[..|collected| - 1], quorum);
      assert |collected| * quorum == (|collected| - 1) * quorum + quorum;
    }
  }

  lemma {:induction false} SomeNotShed(fates: seq<Fate>)
    requires |fates| >= 1 && fates[0] != Shed
    ensures Count(fates, Shed) < |fates|
  {
    if |fates| > 1 {
      SomeNotShed(fates[..|fates| - 1]);
    }
  }

  /** Every offered request is completed, failed or shed, and the message counters follow from
      these three. */
  ghost predicate Consistent(cfg: Config, r: Report) {
    && r.offered == r.completed + r.failed + r.shed
    && |r.latencies| == r.completed
    && r.requestMessages == (r.completed + r.failed) * cfg.endpoints
    && r.responseMessages == r.completed * cfg.numExpected
    && (cfg.maxInFlight >= 1 && r.offered >= 1 ==> r.shed < r.offered)
  }

  lemma FatesAddUp(fates: seq<Fate>)
    ensures |fates| == Count(fates, Done) + Count(Abort(fates), Failed) + Count(fates, Shed)
  {
    Conservation(fates);
    CountAbort(fates);
  }

  lemma FirstIsSent(cfg: Config, s: Ledger)
    requires Sound(cfg, s) && cfg.maxInFlight >= 1 && |s.fates| >= 1
    ensures Count(s.fates, Shed) < |s.fates|
  {
    SomeNotShed(s.fates);
  }

  lemma SoundLedgerAddsUp(cfg: Config, sizes: seq<nat>, s: Ledger)
    requires Sound(cfg, s) && |s.fates| <= |sizes|
    ensures Consistent(cfg, ReportOf(cfg, sizes, s))
  {
    FatesAddUp(s.fates);
    MessagesPerQuorum(s.collected, cfg.numExpected);
    MessagesPerRequest(cfg.endpoints, s.fates);
    if cfg.maxInFlight >= 1 && |s.fates| >= 1 {
      FirstIsSent(cfg, s);
    }
  }

  /** On every run the report adds up, and the offers are those of the pace. */
  lemma ReportIsConsistent(cfg: Config, sizes: seq<nat>, schedule: seq<seq<Finish>>, drain: seq<Finish>)
    requires cfg.numExpected >= 1 && |sizes| == cfg.total
    ensures var s := Drained(cfg, schedule, drain);
      && |s.fates| <= |sizes|
      && Consistent(cfg, ReportOf(cfg, sizes, s))
      && ReportOf(cfg, sizes, s).offered == Min(cfg.total, Due(cfg.rate, |schedule|))
  {
    EveryDrainedLedger(cfg, schedule, drain);
    SoundLedgerAddsUp(cfg, sizes, Drained(cfg, schedule, drain));
  }
}
