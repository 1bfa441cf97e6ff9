/** The client's own loop: counters instead of a ledger, a saturating accumulator instead of
    the pace, one request at a time instead of a batch. Every method is proved to do what the
    ledger of `LoadGenerator` says. */
module UserDecryptRun {
  import opened Wrappers
  import opened Sequences
  import opened Pacing
  import opened LoadGenerator
  import opened Tasks
  import opened LatencyStats
  import FinalFates
  import Quorum

  datatype Counters = Counters(
    inFlight: set<int>, collected: seq<Collected>, latencies: seq<nat>,
    offered: nat, failed: nat, shed: nat, saturated: bool,
    requestBytes: nat, requestMessages: nat)

  /** The join set holds the requests in flight. */
  ghost predicate Joins(inFlight: set<int>, fates: seq<Fate>) {
    && |inFlight| == Count(fates, InFlight)
    && forall r :: r in inFlight <==> 0 <= r < |fates| && fates[r] == InFlight
  }

  /** The counters count what the ledger records. */
  ghost predicate Counts(c: Counters, s: Ledger) {
    && Joins(c.inFlight, s.fates)
    && c.collected == s.collected && c.latencies == Latencies(s.collected)
    && c.offered == |s.fates| && c.failed == Count(s.fates, Failed) && c.shed == Count(s.fates, Shed)
    && c.saturated == (Count(s.fates, Shed) > 0)
  }

  ghost predicate Payload(cfg: Config, sizes: seq<nat>, c: Counters, fates: seq<Fate>) {
    && |fates| <= |sizes|
    && c.requestBytes == SentBytes(sizes, cfg.endpoints, fates)
    && c.requestMessages == SentMessages(cfg.endpoints, fates)
  }

  ghost predicate Tracks(cfg: Config, sizes: seq<nat>, c: Counters, s: Ledger) {
    Counts(c, s) && Payload(cfg, sizes, c, s.fates)
  }

  // -------------------------------------------------------------------------
  // Joining finished tasks
  // -------------------------------------------------------------------------

  lemma JoinsAfterSettle(inFlight: set<int>, fates: seq<Fate>, r: nat, g: Fate)
    requires Joins(inFlight, fates) && r in inFlight && g != InFlight
    ensures r < |fates| && Joins(inFlight - {r}, fates[r := g])
  {
    CountUpdate(fates, r, g, InFlight);
  }

  /** What one joined task does to the counters. */
  function Booked(cfg: Config, c: Counters, f: Finish): Counters
    requires cfg.numExpected >= 1
  {
    if f.request !in c.inFlight then c
    else
      var rest := c.(inFlight := c.inFlight - {f.request});
      match Quorum.TaskOutcome(f.run, cfg.numExpected)
      case Some(d) =>
        rest.(collected := c.collected + [Collected(f.request, d)], latencies := c.latencies + [d.latency])
      case None => rest.(failed := c.failed + 1)
  }

  lemma BookedCounts(cfg: Config, c: Counters, f: Finish, s: Ledger)
    requires cfg.numExpected >= 1 && Counts(c, s)
    ensures Counts(Booked(cfg, c, f), Settle(cfg, s, f))
  {
    if f.request in c.inFlight {
      match Quorum.TaskOutcome(f.run, cfg.numExpected)
      case Some(d) =>
        JoinsAfterSettle(c.inFlight, s.fates, f.request, Done);
        CountUpdate(s.fates, f.request, Done, Failed);
        CountUpdate(s.fates, f.request, Done, Shed);
        LatenciesSnoc(c.collected, Collected(f.request, d));
      case None =>
        JoinsAfterSettle(c.inFlight, s.fates, f.request, Failed);
        CountUpdate(s.fates, f.request, Failed, Failed);
        CountUpdate(s.fates, f.request, Failed, Shed);
    }
  }

  lemma LatenciesSnoc(collected: seq<Collected>, c: Collected)
    ensures Latencies(collected + [c]) == Latencies(collected) + [c.decryption.latency]
  {
  }

  method BookJoined(cfg: Config, c: Counters, f: Finish) returns (c': Counters)
    requires cfg.numExpected >= 1
    ensures c' == Booked(cfg, c, f)
  {
    if f.request !in c.inFlight {
      return c;
    }
    var outcome := None;
    if f.run.Runs? {
      outcome := Quorum.SendAndCollect(f.run, cfg.numExpected);
    }
    var rest := c.(inFlight := c.inFlight - {f.request});
    match outcome
    case Some(d) =>
      c' := rest.(collected := c.collected + [Collected(f.request, d)], latencies := c.latencies + [d.latency]);
    case None =>
      c' := rest.(failed := c.failed + 1);
  }

  ghost predicate AppendsResult(c: Counters, c': Counters, r: nat, d: Quorum.UserDecryption<Response>) {
    c'.collected == c.collected + [Collected(r, d)] && c'.latencies == c.latencies + [d.latency]
  }

  lemma BookedResult(cfg: Config, c: Counters, f: Finish)
    requires cfg.numExpected >= 1 && f.request in c.inFlight && Quorum.TaskOutcome(f.run, cfg.numExpected).Some?
    ensures var d := Quorum.TaskOutcome(f.run, cfg.numExpected).value;
            AppendsResult(c, Booked(cfg, c, f), f.request, d) && FinalFates.ResultOf(f.run, cfg.numExpected, d)
  {
    Quorum.TaskOutcomeMeans(f.run, cfg.numExpected);
  }

  /** Booking keeps everything that one join does not concern. */
  ghost predicate BooksOnly(c: Counters, c': Counters, r: nat) {
    && c'.inFlight == c.inFlight - {r}
    && c'.offered == c.offered && c'.shed == c.shed && c'.saturated == c.saturated
    && c'.requestBytes == c.requestBytes && c'.requestMessages == c.requestMessages
  }

  ghost predicate BooksFailure(c: Counters, c': Counters) {
    c'.failed == c.failed + 1 && c'.collected == c.collected && c'.latencies == c.latencies
  }

  ghost predicate BooksResult(cfg: Config, c: Counters, c': Counters, f: Finish) {
    && c'.failed == c.failed
    && exists d :: FinalFates.ResultOf(f.run, cfg.numExpected, d) && AppendsResult(c, c', f.request, d)
  }

  lemma BookedMeans(cfg: Config, c: Counters, f: Finish)
    requires cfg.numExpected >= 1
    ensures var c' := Booked(cfg, c, f);
      && (f.request !in c.inFlight ==> c' == c)
      && (f.request in c.inFlight ==>
            && BooksOnly(c, c', f.request)
            && if Quorum.Completes(f.run, cfg.numExpected) then BooksResult(cfg, c, c', f) else BooksFailure(c, c'))
  {
    Quorum.TaskOutcomeMeans(f.run, cfg.numExpected);
    if f.request in c.inFlight && Quorum.Completes(f.run, cfg.numExpected) {
      BookedResult(cfg, c, f);
    }
  }

  /** Books one joined task. A task that completes adds its result and its latency, any other adds
      a failure; the join set loses the request and nothing else changes. */
  method JoinResult(cfg: Config, c: Counters, f: Finish, ghost s: Ledger) returns (c': Counters)
    requires cfg.numExpected >= 1 && Counts(c, s)
    ensures Counts(c', Settle(cfg, s, f))
    ensures c'.requestBytes == c.requestBytes && c'.requestMessages == c.requestMessages
    ensures f.request !in c.inFlight ==> c' == c
    ensures f.request in c.inFlight ==>
      && BooksOnly(c, c', f.request)
      && if Quorum.Completes(f.run, cfg.numExpected) then BooksResult(cfg, c, c', f) else BooksFailure(c, c')
  {
    BookedMeans(cfg, c, f);
    BookedCounts(cfg, c, f, s);
    c' := BookJoined(cfg, c, f);
  }

  lemma {:induction false} PayloadUpdate(sizes: seq<nat>, endpoints: nat, fates: seq<Fate>, r: nat, g: Fate)
    requires r < |fates| <= |sizes| && fates[r] != Shed && g != Shed
    ensures SentBytes(sizes, endpoints, fates[r := g]) == SentBytes(sizes, endpoints, fates)
    ensures SentMessages(endpoints, fates[r := g]) == SentMessages(endpoints, fates)
  {
    var init := fates[..|fates| - 1];
    if r < |fates| - 1 {
      PayloadUpdate(sizes, endpoints, init, r, g);
      assert fates[r := g][..|fates| - 1] == init[r := g];
    } else {
      assert fates[r := g][..|fates| - 1] == init;
    }
  }

  /** Joining does not touch what was sent. */
  lemma {:induction false} SettleAllKeepsPayload(cfg: Config, sizes: seq<nat>, c: Counters, s: Ledger, fs: seq<Finish>)
    requires cfg.numExpected >= 1 && Payload(cfg, sizes, c, s.fates)
    ensures Payload(cfg, sizes, c, SettleAll(cfg, s, fs).fates)
  {
    if fs != [] {
      var d, f := SettleAll(cfg, s, fs[..|fs| - 1]), fs[|fs| - 1];
      SettleAllKeepsPayload(cfg, sizes, c, s, fs[..|fs| - 1]);
      if f.request < |d.fates| && d.fates[f.request] == InFlight {
        PayloadUpdate(sizes, cfg.endpoints, d.fates, f.request, Done);
        PayloadUpdate(sizes, cfg.endpoints, d.fates, f.request, Failed);
      }
    }
  }

  /** Joins everything that has finished, without waiting. */
  method DrainFinished(cfg: Config, sizes: seq<nat>, c: Counters, finished: seq<Finish>, ghost s: Ledger)
    returns (c': Counters)
    requires cfg.numExpected >= 1 && Tracks(cfg, sizes, c, s)
    ensures Tracks(cfg, sizes, c', SettleAll(cfg, s, finished))
  {
    c' := c;
    for i := 0 to |finished|
      invariant Counts(c', SettleAll(cfg, s, finished[..i]))
      invariant c'.requestBytes == c.requestBytes && c'.requestMessages == c.requestMessages
    {
      assert finished[..i + 1][..i] == finished[..i];
      c' := JoinResult(cfg, c', finished[i], SettleAll(cfg, s, finished[..i]));
    }
    assert finished[..|finished|] == finished;
    SettleAllKeepsPayload(cfg, sizes, c, s, finished);
  }

  // -------------------------------------------------------------------------
  // Releasing one request at a time
  // -------------------------------------------------------------------------

  /** A batch is its requests one by one: they are sent until the room is used up. */
  lemma OfferStep(d: seq<Fate>, i: nat, room: nat)
    ensures Offer(d, i + 1, room) == Offer(d, i, room) + [if i < room then InFlight else Shed]
  {
  }

  lemma CountSnoc(fates: seq<Fate>, g: Fate, f: Fate)
    ensures Count(fates + [g], f) == Count(fates, f) + if g == f then 1 else 0
  {
    assert (fates + [g])[..|fates|] == fates;
  }

  lemma JoinsAfterOffer(inFlight: set<int>, fates: seq<Fate>)
    requires Joins(inFlight, fates)
    ensures Joins(inFlight + {|fates|}, fates + [InFlight])
    ensures Joins(inFlight, fates + [Shed])
  {
    CountSnoc(fates, InFlight, InFlight);
    CountSnoc(fates, Shed, InFlight);
  }

  lemma PayloadSnoc(sizes: seq<nat>, endpoints: nat, fates: seq<Fate>, g: Fate)
    requires |fates| < |sizes|
    ensures SentBytes(sizes, endpoints, fates + [g])
         == SentBytes(sizes, endpoints, fates) + if g == Shed then 0 else sizes[|fates|] * endpoints
    ensures SentMessages(endpoints, fates + [g]) == SentMessages(endpoints, fates) + if g == Shed then 0 else endpoints
  {
    assert (fates + [g])[..|fates|] == fates;
  }

  /** Books a request that is shed. */
  function BookShed(c: Counters): Counters {
    c.(offered := c.offered + 1, shed := c.shed + 1, saturated := true)
  }

  /** Books a request that is sent to every core. */
  function BookSent(c: Counters, size: nat, endpoints: nat): Counters {
    c.(offered := c.offered + 1, inFlight := c.inFlight + {c.offered},
       requestBytes := c.requestBytes + size * endpoints, requestMessages := c.requestMessages + endpoints)
  }

  lemma ShedIsCounted(cfg: Config, sizes: seq<nat>, c: Counters, s: Ledger)
    requires Counts(c, s) && Payload(cfg, sizes, c, s.fates) && |s.fates| < |sizes|
    ensures Counts(BookShed(c), s.(fates := s.fates + [Shed]))
    ensures Payload(cfg, sizes, BookShed(c), s.fates + [Shed])
  {
    JoinsAfterOffer(c.inFlight, s.fates);
    CountSnoc(s.fates, Shed, Shed);
    CountSnoc(s.fates, Shed, Failed);
    PayloadSnoc(sizes, cfg.endpoints, s.fates, Shed);
  }

  lemma SentIsCounted(cfg: Config, sizes: seq<nat>, c: Counters, s: Ledger)
    requires Counts(c, s) && Payload(cfg, sizes, c, s.fates) && |s.fates| < |sizes|
    ensures Counts(BookSent(c, sizes[c.offered], cfg.endpoints), s.(fates := s.fates + [InFlight]))
    ensures Payload(cfg, sizes, BookSent(c, sizes[c.offered], cfg.endpoints), s.fates + [InFlight])
  {
    JoinsAfterOffer(c.inFlight, s.fates);
    CountSnoc(s.fates, InFlight, Shed);
    CountSnoc(s.fates, InFlight, Failed);
    PayloadSnoc(sizes, cfg.endpoints, s.fates, InFlight);
  }

  /** The cap is reached exactly when the room is used up. */
  lemma CapMeansNoRoom(cfg: Config, d: seq<Fate>, i: nat)
    requires Count(d, InFlight) <= cfg.maxInFlight
    ensures Count(Offer(d, i, Room(cfg, d)), InFlight) >= cfg.maxInFlight <==> i >= Room(cfg, d)
  {
    CountOffer(d, i, Room(cfg, d), InFlight);
  }

  /** What the arrival of one more request does to the ledger. */
  ghost function Arrive(cfg: Config, s: Ledger): Ledger {
    s.(fates := s.fates + [if Count(s.fates, InFlight) >= cfg.maxInFlight then Shed else InFlight])
  }

  /** The arrival of one request: shed at the cap, else sent. */
  method OfferNext(cfg: Config, sizes: seq<nat>, c: Counters, ghost s: Ledger) returns (c': Counters)
    requires Tracks(cfg, sizes, c, s) && |s.fates| < |sizes|
    ensures Tracks(cfg, sizes, c', Arrive(cfg, s))
  {
    if |c.inFlight| >= cfg.maxInFlight {
      ShedIsCounted(cfg, sizes, c, s);
      c' := BookShed(c);
    } else {
      SentIsCounted(cfg, sizes, c, s);
      c' := BookSent(c, sizes[c.offered], cfg.endpoints);
    }
  }

  /** A batch is its requests one by one. */
  ghost function Batch(cfg: Config, s: Ledger, n: nat): Ledger {
    s.(fates := Offer(s.fates, n, Room(cfg, s.fates)))
  }

  lemma BatchStep(cfg: Config, s: Ledger, i: nat)
    requires Count(s.fates, InFlight) <= cfg.maxInFlight
    ensures Batch(cfg, s, i + 1) == Arrive(cfg, Batch(cfg, s, i))
  {
    OfferStep(s.fates, i, Room(cfg, s.fates));
    CapMeansNoRoom(cfg, s.fates, i);
  }

  /** The launches of one tick. */
  method ReleaseDue(cfg: Config, sizes: seq<nat>, c: Counters, launches: nat, ghost s: Ledger) returns (c': Counters)
    requires |sizes| == cfg.total && Count(s.fates, InFlight) <= cfg.maxInFlight
    requires Tracks(cfg, sizes, c, s)
    ensures Tracks(cfg, sizes, c', Batch(cfg, s, Offers(cfg.total, |s.fates|, launches)))
  {
    c' := c;
    assert Offer(s.fates, 0, Room(cfg, s.fates)) == s.fates;
    for i := 0 to launches
      invariant Tracks(cfg, sizes, c', Batch(cfg, s, i))
    {
      if c'.offered >= |sizes| {
        assert i == Offers(cfg.total, |s.fates|, launches);
        return;
      }
      BatchStep(cfg, s, i);
      c' := OfferNext(cfg, sizes, c', Batch(cfg, s, i));
    }
  }

  // -------------------------------------------------------------------------
  // The run
  // -------------------------------------------------------------------------

  /** The accumulator step: how many requests to launch, and what is carried over. */
  method StepAccumulator(rate: nat, accumulator: nat, ghost ticks: nat) returns (launches: nat, accumulator': nat)
    requires rate < 0x8000_0000_0000_0000 && accumulator == Carry(rate, ticks)
    ensures launches == Launches(rate, ticks) && accumulator' == Carry(rate, ticks + 1)
  {
    accumulator' := SaturatingAdd(accumulator, rate);
    launches := accumulator' / TICKS_PER_SECOND;
    accumulator' := accumulator' % TICKS_PER_SECOND;
  }

  lemma BatchIsAdvance(cfg: Config, sizes: seq<nat>, c: Counters, s: Ledger, finished: seq<Finish>, launches: nat)
    requires cfg.numExpected >= 1
    requires var d := SettleAll(cfg, s, finished);
             Tracks(cfg, sizes, c, Batch(cfg, d, Offers(cfg.total, |d.fates|, launches)))
    ensures Tracks(cfg, sizes, c, Advance(cfg, s, finished, launches))
  {
  }

  /** Joins what has finished, then releases the launches of the tick. */
  method JoinAndRelease(cfg: Config, sizes: seq<nat>, c: Counters, launches: nat, finished: seq<Finish>, ghost s: Ledger)
    returns (c': Counters)
    requires cfg.numExpected >= 1 && |sizes| == cfg.total && Sound(cfg, s)
    requires Tracks(cfg, sizes, c, s)
    ensures Tracks(cfg, sizes, c', Advance(cfg, s, finished, launches))
  {
    c' := DrainFinished(cfg, sizes, c, finished, s);
    SettleAllKeepsSound(cfg, s, finished);
    c' := ReleaseDue(cfg, sizes, c', launches, SettleAll(cfg, s, finished));
    BatchIsAdvance(cfg, sizes, c', s, finished, launches);
  }

  /** The timed drain: joins until nothing is in flight or the deadline passes, which is when
      the list of joins ends. */
  method TimedDrain(cfg: Config, sizes: seq<nat>, c: Counters, drain: seq<Finish>, ghost s: Ledger) returns (c': Counters)
    requires cfg.numExpected >= 1 && Tracks(cfg, sizes, c, s)
    ensures Tracks(cfg, sizes, c', SettleAll(cfg, s, drain))
  {
    c' := c;
    var i := 0;
    while c'.inFlight != {} && i < |drain|
      invariant 0 <= i <= |drain|
      invariant Counts(c', SettleAll(cfg, s, drain[..i]))
      invariant c'.requestBytes == c.requestBytes && c'.requestMessages == c.requestMessages
      decreases |drain| - i
    {
      assert drain[..i + 1][..i] == drain[..i];
      c' := JoinResult(cfg, c', drain[i], SettleAll(cfg, s, drain[..i]));
      i := i + 1;
    }
    NothingLeftToJoin(cfg, s, drain, i);
    SettleAllKeepsPayload(cfg, sizes, c, s, drain);
  }

  /** Once nothing is in flight the remaining joins are void. */
  lemma {:induction false} NothingLeftToJoin(cfg: Config, s: Ledger, drain: seq<Finish>, i: nat)
    requires cfg.numExpected >= 1 && i <= |drain|
    requires i == |drain| || Count(SettleAll(cfg, s, drain[..i]).fates, InFlight) == 0
    ensures SettleAll(cfg, s, drain) == SettleAll(cfg, s, drain[..i])
  {
    if i == |drain| {
      assert drain[..i] == drain;
    } else {
      var init := drain[..|drain| - 1];
      assert init[..i] == drain[..i];
      NothingLeftToJoin(cfg, s, init, i);
      NoneInFlight(SettleAll(cfg, s, init).fates);
    }
  }

  lemma {:induction false} NoneInFlight(fates: seq<Fate>)
    requires Count(fates, InFlight) == 0
    ensures forall r :: 0 <= r < |fates| ==> fates[r] != InFlight
  {
    if fates != [] {
      NoneInFlight(fates[..|fates| - 1]);
    }
  }

  lemma NextTick(cfg: Config, schedule: seq<seq<Finish>>, k: nat)
    requires cfg.numExpected >= 1 && k < |schedule|
    ensures var s := Ticks(cfg, Start, schedule[..k]);
      && Sound(cfg, s) && s.ticks == k
      && Ticks(cfg, Start, schedule[..k + 1]) == Advance(cfg, s, schedule[k], Launches(cfg.rate, k))
  {
    EveryReachableLedger(cfg, schedule[..k]);
    assert schedule[..k + 1][..k] == schedule[..k];
  }

  /** The tick loop, for any schedule of completions. */
  method RunTicks(cfg: Config, sizes: seq<nat>, schedule: seq<seq<Finish>>) returns (c: Counters)
    requires cfg.numExpected >= 1 && cfg.rate < 0x8000_0000_0000_0000 && |sizes| == cfg.total
    ensures Tracks(cfg, sizes, c, Ticks(cfg, Start, schedule))
  {
    c := Counters({}, [], [], 0, 0, 0, false, 0, 0);
    var accumulator := 0;
    for k := 0 to |schedule|
      invariant Tracks(cfg, sizes, c, Ticks(cfg, Start, schedule[..k]))
      invariant accumulator == Carry(cfg.rate, k)
    {
      NextTick(cfg, schedule, k);
      var launches;
      launches, accumulator := StepAccumulator(cfg.rate, accumulator, k);
      c := JoinAndRelease(cfg, sizes, c, launches, schedule[k], Ticks(cfg, Start, schedule[..k]));
    }
    assert schedule[..|schedule|] == schedule;
  }

  /** Gives up on what is still in flight and writes the report. */
  method Conclude(cfg: Config, sizes: seq<nat>, c: Counters, ghost s: Ledger) returns (report: Report)
    requires Tracks(cfg, sizes, c, s)
    ensures report == ReportOf(cfg, sizes, s)
  {
    CountAbort(s.fates);
    var failed, saturated := c.failed, c.saturated;
    if c.inFlight != {} {
      saturated := true;
      failed := failed + |c.inFlight|;
    }
    report := Report(c.offered, |c.collected|, failed, c.shed, saturated, c.requestBytes, c.requestMessages,
                     ResponseBytes(c.collected), ResponseMessages(c.collected), c.latencies);
  }

  /** What the command reports and whether it succeeds. */
  datatype Outcome = Outcome(
    report: Report, latency: Stat, reconstructionFailed: nat, reconstruction: Stat, ok: bool)

  lemma TracksCollected(cfg: Config, sizes: seq<nat>, c: Counters, s: Ledger)
    requires Tracks(cfg, sizes, c, s)
    ensures c.collected == s.collected && c.latencies == Latencies(s.collected)
  {
  }

  /** Reconstructs what was collected, in whatever order the tasks finish. */
  method Reconstruct(collected: seq<Collected>, rebuilds: Collected -> bool, time: Collected -> nat)
    returns (stat: Stat, failed: nat)
    ensures failed + |Filter(rebuilds, collected)| == |collected|
    ensures failed == 0 <==> All(rebuilds, collected)
    ensures stat == StatOf(Map(time, Filter(rebuilds, collected)))
  {
    var durations;
    durations, failed := JoinCounting(collected, rebuilds, time);
    SameSize(durations, Map(time, Filter(rebuilds, collected)));
    StatUnderReordering(durations, Map(time, Filter(rebuilds, collected)));
    stat := StatOf(durations);
  }

  /** The whole benchmark run: whatever the schedule of ticks and completions, the report is
      the one the ledger prescribes, and it adds up. Every completed request is reconstructed or
      counted as a failed reconstruction, and one failed reconstruction fails the command. */
  method DoUserDecrypt(cfg: Config, sizes: seq<nat>, schedule: seq<seq<Finish>>, drain: seq<Finish>,
                       rebuilds: Collected -> bool, time: Collected -> nat)
    returns (o: Outcome)
    requires cfg.Valid() && |sizes| == cfg.total
    ensures |Drained(cfg, schedule, drain).fates| <= |sizes|
    ensures o.report == ReportOf(cfg, sizes, Drained(cfg, schedule, drain))
    ensures Consistent(cfg, o.report)
    ensures o.report.completed == |FinalFates.Completed(cfg, schedule, drain, o.report.offered)|
    ensures forall c :: c in Drained(cfg, schedule, drain).collected ==>
      exists k :: FinalFates.BroughtIn(cfg, schedule, drain, c, k)
    ensures o.latency == StatOf(o.report.latencies)
    ensures var rebuilt := Filter(rebuilds, Drained(cfg, schedule, drain).collected);
            && o.reconstructionFailed + |rebuilt| == o.report.completed
            && o.reconstruction == StatOf(Map(time, rebuilt))
    ensures o.ok <==> All(rebuilds, Drained(cfg, schedule, drain).collected)
  {
    NeverSaturates(cfg.rate, cfg.durationSecs, 0);
    var c := RunTicks(cfg, sizes, schedule);
    c := TimedDrain(cfg, sizes, c, drain, Ticks(cfg, Start, schedule));
    var report := Conclude(cfg, sizes, c, Drained(cfg, schedule, drain));
    ReportIsConsistent(cfg, sizes, schedule, drain);
    TracksCollected(cfg, sizes, c, Drained(cfg, schedule, drain));
    var stat, failed := Reconstruct(c.collected, rebuilds, time);
    o := Outcome(report, StatOf(c.latencies), failed, stat, failed == 0);
    FinalFates.CompletedAreCounted(cfg, schedule, drain);
    forall r | r in Drained(cfg, schedule, drain).collected
      ensures exists k :: FinalFates.BroughtIn(cfg, schedule, drain, r, k)
    {
      FinalFates.ResultsAreBrought(cfg, schedule, drain, r);
    }
  }
}
