/** The public-decryption command: launching requests in groups, collecting all of them, and
    verifying all of them. */
module PublicDecrypt {
  import opened Wrappers
  import opened Sequences
  import opened Identifiers
  import opened Arithmetic
  import opened Tasks
  import opened LatencyStats
  import opened Replies
  import Quorum

  /** The number of responses that are expected; the configuration demands at least one. */
  type Quota = n: nat | n >= 1 witness 1

  /** A request and how its task runs: it panics, or some cores take the request, the polling
      tasks finish, and the clock can be read at each join. */
  datatype Request<+T> = Request(id: Id, run: Quorum.TaskRun<T>)

  /** The responses of a request, and the time until they were there. */
  datatype Answer<+T> = Answer(responses: seq<T>, latency: nat)

  /** A task that has ended, with what it collected, if it did. */
  datatype Finished<+T> = Finished(request: Request<T>, answer: Option<Answer<T>>)

  /** A request whose responses are collected. */
  datatype Collected<+T> = Collected(request: Request<T>, answer: Answer<T>)

  datatype Decryption<+T> = Decryption(id: Id, responses: seq<T>)

  // -------------------------------------------------------------------------
  // Launching
  // -------------------------------------------------------------------------

  /** The number of pauses before request `k` is launched. */
  function PausesBefore(k: nat, parallel: nat, delay: nat): nat {
    if parallel > 0 && delay > 0 then k / parallel else 0
  }

  lemma NextGroup(i: nat, parallel: nat)
    requires parallel > 0
    ensures (i + 1) / parallel == i / parallel + if (i + 1) % parallel == 0 then 1 else 0
  {
    var q, r := i / parallel, i % parallel;
    assert i == parallel * q + r;
    if r + 1 == parallel {
      assert i + 1 == parallel * (q + 1);
      Quotient(i + 1, parallel, q + 1, 0);
    } else {
      Quotient(i + 1, parallel, q, r + 1);
    }
  }

  /** The positions up to `k` that start a further group. */
  ghost function GroupStarts(k: int, parallel: nat, delay: nat): set<int> {
    set i | 0 < i <= k && parallel > 0 && delay > 0 && i % parallel == 0
  }

  lemma {:induction false} PausesAreGroupStarts(k: nat, parallel: nat, delay: nat)
    ensures PausesBefore(k, parallel, delay) == |GroupStarts(k, parallel, delay)|
  {
    if k == 0 || parallel == 0 || delay == 0 {
      assert GroupStarts(k, parallel, delay) == {};
    } else {
      PausesAreGroupStarts(k - 1, parallel, delay);
      NextGroup(k - 1, parallel);
      assert GroupStarts(k, parallel, delay)
          == GroupStarts(k - 1, parallel, delay) + if k % parallel == 0 then {k} else {};
    }
  }

  /** Launches `n` requests with a pause before every further group of `parallel` requests; a
      zero delay or a zero group size means no pauses. `pauses[k]` is the number of pauses that
      precede request `k`. */
  method Launch(n: nat, parallel: nat, delay: nat) returns (pauses: seq<nat>, slept: nat)
    ensures |pauses| == n && forall k :: 0 <= k < n ==> pauses[k] == PausesBefore(k, parallel, delay)
    ensures slept == if n == 0 then 0 else PausesBefore(n - 1, parallel, delay)
    ensures forall k :: 0 <= k < n ==> pauses[k] == |GroupStarts(k, parallel, delay)|
    ensures slept == |GroupStarts(n - 1, parallel, delay)|
  {
    pauses, slept := [], 0;
    for i := 0 to n
      invariant |pauses| == i
      invariant slept == if i == 0 then 0 else PausesBefore(i - 1, parallel, delay)
      invariant forall k :: 0 <= k < i ==> pauses[k] == PausesBefore(k, parallel, delay)
    {
      if i > 0 && parallel > 0 {
        NextGroup(i - 1, parallel);
      }
      if i > 0 && parallel != 0 && i % parallel == 0 && delay != 0 {
        slept := slept + 1;
      }
      pauses := pauses + [slept];
    }
    forall k | 0 <= k < n ensures pauses[k] == |GroupStarts(k, parallel, delay)| {
      PausesAreGroupStarts(k, parallel, delay);
    }
    if n == 0 {
      assert GroupStarts(n - 1, parallel, delay) == {};
    } else {
      PausesAreGroupStarts(n - 1, parallel, delay);
    }
  }

  /** Requests with the same number of pauses before them are fewer than `parallel` apart, and
      requests that are `parallel` apart always have a pause between them. */
  lemma GroupsAreParallelSized(j: nat, k: nat, parallel: nat, delay: nat)
    requires j <= k && parallel > 0 && delay > 0
    ensures PausesBefore(j, parallel, delay) == PausesBefore(k, parallel, delay) ==> k - j < parallel
    ensures PausesBefore(j + parallel, parallel, delay) == PausesBefore(j, parallel, delay) + 1
  {
    var q, r := j / parallel, j % parallel;
    assert j == parallel * q + r;
    assert j + parallel == parallel * (q + 1) + r;
    Quotient(j + parallel, parallel, q + 1, r);
    assert k == parallel * (k / parallel) + k % parallel;
  }

  // -------------------------------------------------------------------------
  // Phase 1: collecting
  // -------------------------------------------------------------------------

  /** What a request collects: its task must not panic, enough cores must take the request, and
      enough of them must answer. The latency is read when the last response comes in. */
  function Outcome<T>(q: Request<T>, numExpected: Quota): Option<Answer<T>> {
    if q.run.Panics? || CountTrue(q.run.sends) < numExpected then None
    else
      match Quorum.Returned(q.run.arrivals, numExpected)
      case None => None
      case Some(responses) =>
        Some(Answer(responses, q.run.clock(Quorum.QuorumPoint(q.run.arrivals, numExpected) - 1)))
  }

  /** The answer of a request: its task does not panic, enough cores take it, and the responses are
      the earliest replies it receives, sorted by party, with the time of the last of them. */
  ghost predicate Gets<T(!new)>(q: Request<T>, numExpected: nat, a: Answer<T>) {
    && q.run.Runs? && |TruePositions(q.run.sends)| >= numExpected
    && HandsOverSorted(q.run.arrivals, numExpected, q.run.clock, a.responses, a.latency)
  }

  /** A request has an outcome exactly when its task does not panic, enough cores take it and
      enough replies arrive, and the outcome is then its answer. */
  lemma OutcomeMeans<T(!new)>(q: Request<T>, numExpected: Quota)
    ensures Outcome(q, numExpected).Some?
       <==> && q.run.Runs? && |TruePositions(q.run.sends)| >= numExpected
            && |ReplyPositions(q.run.arrivals)| >= numExpected
    ensures Outcome(q, numExpected).Some? ==> Gets(q, numExpected, Outcome(q, numExpected).value)
  {
    if q.run.Runs? {
      CountTrueIsSize(q.run.sends);
      Quorum.ReturnedMeans(q.run.arrivals, numExpected, q.run.clock);
    }
  }

  lemma SortedOnce<T(!new)>(arrivals: seq<Arrival<T>>, ps: seq<nat>, kept: seq<Arrival<T>>)
    requires Sorts(arrivals, ps, kept) && Ascending(ps) && Quorum.DistinctParties(arrivals)
    ensures Quorum.DistinctParties(kept) && Quorum.SortedByParty(kept)
  {
    Quorum.PartiesOfReordering(Picked(arrivals, ps), kept);
    forall i, j | 0 <= i <= j < |kept| ensures Quorum.PartyOf(kept[i]) <= Quorum.PartyOf(kept[j]) {
      assert i < j ==> kept[i].core.partyId <= kept[j].core.partyId;
    }
  }

  /** When the parties are distinct, a request has only one answer. */
  lemma AnswerIsUnique<T(!new)>(q: Request<T>, numExpected: nat, a: Answer<T>, b: Answer<T>)
    requires Gets(q, numExpected, a) && Gets(q, numExpected, b) && Quorum.DistinctParties(q.run.arrivals)
    ensures a == b
  {
    var arrivals, clock := q.run.arrivals, q.run.clock;
    var ps: seq<nat>, kept: seq<Arrival<T>> :|
      && Earliest(arrivals, ps) && |ps| == numExpected >= 1 && Sorts(arrivals, ps, kept)
      && ValuesOf(kept, a.responses) && a.latency == clock(ps[numExpected - 1]);
    var qs: seq<nat>, held: seq<Arrival<T>> :|
      && Earliest(arrivals, qs) && |qs| == numExpected >= 1 && Sorts(arrivals, qs, held)
      && ValuesOf(held, b.responses) && b.latency == clock(qs[numExpected - 1]);
    EarliestIsUnique(arrivals, ps, qs);
    SortedOnce(arrivals, ps, kept);
    SortedOnce(arrivals, ps, held);
    Quorum.SortedOrderIsUnique(kept, held);
    SameValues(kept, a.responses, b.responses);
  }

  method CountAccepted(sends: seq<bool>) returns (accepted: nat)
    ensures accepted == CountTrue(sends)
  {
    accepted := 0;
    for i := 0 to |sends|
      invariant accepted == CountTrue(sends[..i])
    {
      assert sends[..i + 1][..i] == sends[..i];
      if sends[i] {
        accepted := accepted + 1;
      }
    }
    assert sends[..|sends|] == sends;
  }

  /** The task of one request: sends it to every core, then collects the responses. */
  method RunRequest<T(!new)>(q: Request<T>, numExpected: Quota) returns (f: Finished<T>)
    ensures f == Finished(q, Outcome(q, numExpected))
    ensures f.answer.Some?
       <==> && q.run.Runs? && |TruePositions(q.run.sends)| >= numExpected
            && |ReplyPositions(q.run.arrivals)| >= numExpected
    ensures f.answer.Some? ==> Gets(q, numExpected, f.answer.value)
  {
    OutcomeMeans(q, numExpected);
    if q.run.Panics? {
      return Finished(q, None);
    }
    var accepted := CountAccepted(q.run.sends);
    if accepted < numExpected {
      return Finished(q, None);
    }
    var responses, latency := Quorum.CollectTimed(q.run.arrivals, numExpected, q.run.clock);
    if responses.None? {
      return Finished(q, None);
    }
    f := Finished(q, Some(Answer(responses.value, latency)));
  }

  predicate Collects<T>(f: Finished<T>) {
    f.answer.Some?
  }

  function CollectedOf<T>(f: Finished<T>): Collected<T> {
    Collected(f.request, if f.answer.Some? then f.answer.value else Answer([], 0))
  }

  /** What a request leads to when its responses are there. */
  function Collection<T>(q: Request<T>, numExpected: Quota): Collected<T> {
    CollectedOf(Finished(q, Outcome(q, numExpected)))
  }

  method CollectAll<T(!new)>(requests: seq<Request<T>>, numExpected: Quota) returns (r: Option<seq<Collected<T>>>)
    ensures r.Some? <==> forall q :: q in requests ==> Outcome(q, numExpected).Some?
    ensures r.Some? ==> multiset(r.value) == multiset(Map(q => Collection(q, numExpected), requests))
  {
    var tasks: seq<Finished<T>> := [];
    for i := 0 to |requests|
      invariant |tasks| == i
      invariant forall k :: 0 <= k < i ==> tasks[k] == Finished(requests[k], Outcome(requests[k], numExpected))
    {
      var task := RunRequest(requests[i], numExpected);
      tasks := tasks + [task];
    }
    r := JoinAll(tasks, Collects, CollectedOf);
    AllCollect(requests, tasks, numExpected);
    assert Map(CollectedOf, tasks) == Map(q => Collection(q, numExpected), requests);
  }

  lemma AllCollect<T>(requests: seq<Request<T>>, tasks: seq<Finished<T>>, numExpected: Quota)
    requires |tasks| == |requests|
    requires forall k :: 0 <= k < |tasks| ==> tasks[k] == Finished(requests[k], Outcome(requests[k], numExpected))
    ensures All(Collects, tasks) <==> forall q :: q in requests ==> Outcome(q, numExpected).Some?
  {
    if All(Collects, tasks) {
      forall q | q in requests ensures Outcome(q, numExpected).Some? {
        var k :| 0 <= k < |requests| && requests[k] == q;
        assert tasks[k] in tasks && Collects(tasks[k]);
      }
    } else {
      var t :| t in tasks && !Collects(t);
      var k :| 0 <= k < |tasks| && tasks[k] == t;
      assert requests[k] in requests && Outcome(requests[k], numExpected).None?;
    }
  }

  // -------------------------------------------------------------------------
  // Phase 2: verifying
  // -------------------------------------------------------------------------

  /** Whether responses verify for a request. */
  type Verify<!T> = (Request<T>, seq<T>) -> bool

  function DecryptionOf<T>(c: Collected<T>): Decryption<T> {
    Decryption(c.request.id, c.answer.responses)
  }

  /** The request collects responses, and these verify. */
  predicate Succeeds<T>(q: Request<T>, numExpected: Quota, verify: Verify<T>) {
    Outcome(q, numExpected).Some? && verify(q, Outcome(q, numExpected).value.responses)
  }

  /** What a successful request contributes to the result: its own responses. */
  function Expected<T>(q: Request<T>, numExpected: Quota): Decryption<T> {
    Decryption(q.id, if Outcome(q, numExpected).Some? then Outcome(q, numExpected).value.responses else [])
  }

  function Latency<T>(q: Request<T>, numExpected: Quota): nat {
    if Outcome(q, numExpected).Some? then Outcome(q, numExpected).value.latency else 0
  }

  lemma CollectionsOf<T>(requests: seq<Request<T>>, collected: seq<Collected<T>>, numExpected: Quota)
    requires forall q :: q in requests ==> Outcome(q, numExpected).Some?
    requires multiset(collected) == multiset(Map(q => Collection(q, numExpected), requests))
    ensures forall q :: q in requests ==> Collected(q, Outcome(q, numExpected).value) in collected
    ensures forall c :: c in collected ==>
      c.request in requests && c == Collected(c.request, Outcome(c.request, numExpected).value)
  {
    var all := Map(q => Collection(q, numExpected), requests);
    SameMembers(collected, all);
    forall q | q in requests ensures Collected(q, Outcome(q, numExpected).value) in collected {
      var i :| 0 <= i < |requests| && requests[i] == q;
      assert all[i] in all && all[i] == Collection(q, numExpected);
    }
    forall c | c in collected
      ensures c.request in requests && c == Collected(c.request, Outcome(c.request, numExpected).value)
    {
      var i :| 0 <= i < |all| && all[i] == c;
      assert all[i] == Collection(requests[i], numExpected) && requests[i] in requests;
    }
  }

  function VerifiedBy<T>(verify: Verify<T>): Collected<T> -> bool {
    (c: Collected<T>) => verify(c.request, c.answer.responses)
  }

  lemma VerifiedAfterCollecting<T>(
      requests: seq<Request<T>>, collected: seq<Collected<T>>, numExpected: Quota, verify: Verify<T>)
    requires forall q :: q in requests ==> Outcome(q, numExpected).Some?
    requires multiset(collected) == multiset(Map(q => Collection(q, numExpected), requests))
    ensures All(VerifiedBy(verify), collected) <==> forall q :: q in requests ==> Succeeds(q, numExpected, verify)
  {
    CollectionsOf(requests, collected, numExpected);
    if All(VerifiedBy(verify), collected) {
      forall q | q in requests ensures Succeeds(q, numExpected, verify) {
        assert VerifiedBy(verify)(Collected(q, Outcome(q, numExpected).value));
      }
    } else {
      var c :| c in collected && !VerifiedBy(verify)(c);
      assert c.request in requests && !Succeeds(c.request, numExpected, verify);
    }
  }

  lemma ResultsMatch<T>(
      requests: seq<Request<T>>, collected: seq<Collected<T>>, results: seq<Decryption<T>>, numExpected: Quota)
    requires multiset(collected) == multiset(Map(q => Collection(q, numExpected), requests))
    requires multiset(results) == multiset(Map(DecryptionOf, collected))
    ensures multiset(results) == multiset(Map(q => Expected(q, numExpected), requests))
  {
    var collection, expected := (q: Request<T>) => Collection(q, numExpected), (q: Request<T>) => Expected(q, numExpected);
    MapUnderReordering(DecryptionOf, collected, Map(collection, requests));
    MapTwice(collection, DecryptionOf, expected, requests);
  }

  lemma DurationsMatch<T>(requests: seq<Request<T>>, collected: seq<Collected<T>>, numExpected: Quota)
    requires multiset(collected) == multiset(Map(q => Collection(q, numExpected), requests))
    ensures multiset(Map((c: Collected<T>) => c.answer.latency, collected)) == multiset(Map(q => Latency(q, numExpected), requests))
  {
    var collection, latency := (q: Request<T>) => Collection(q, numExpected), (q: Request<T>) => Latency(q, numExpected);
    var duration := (c: Collected<T>) => c.answer.latency;
    MapUnderReordering(duration, collected, Map(collection, requests));
    MapTwice(collection, duration, latency, requests);
  }

  /** One answer per request, and it verifies. */
  ghost predicate AllAnswered<T(!new)>(
      requests: seq<Request<T>>, numExpected: nat, verify: Verify<T>, answers: seq<Answer<T>>)
  {
    && |answers| == |requests|
    && forall i :: 0 <= i < |requests| ==>
      Gets(requests[i], numExpected, answers[i]) && verify(requests[i], answers[i].responses)
  }

  function Paired<T>(requests: seq<Request<T>>, answers: seq<Answer<T>>): (r: seq<Decryption<T>>)
    requires |answers| == |requests|
    ensures |r| == |requests|
    ensures forall i :: 0 <= i < |r| ==> r[i] == Decryption(requests[i].id, answers[i].responses)
  {
    seq(|requests|, i requires 0 <= i < |requests| => Decryption(requests[i].id, answers[i].responses))
  }

  function Latencies<T>(answers: seq<Answer<T>>): (r: seq<nat>)
    ensures |r| == |answers| && forall i :: 0 <= i < |r| ==> r[i] == answers[i].latency
  {
    seq(|answers|, i requires 0 <= i < |answers| => answers[i].latency)
  }

  /** The request fails: its task panics, too few cores take it, too few replies arrive, or its
      answer does not verify. */
  ghost predicate Fails<T(!new)>(q: Request<T>, numExpected: nat, verify: Verify<T>) {
    || q.run.Panics? || |TruePositions(q.run.sends)| < numExpected
    || |ReplyPositions(q.run.arrivals)| < numExpected
    || exists a :: Gets(q, numExpected, a) && !verify(q, a.responses)
  }

  lemma SuccessMeans<T(!new)>(requests: seq<Request<T>>, numExpected: Quota, verify: Verify<T>)
    returns (answers: seq<Answer<T>>)
    requires forall q :: q in requests ==> Succeeds(q, numExpected, verify)
    ensures AllAnswered(requests, numExpected, verify, answers)
    ensures Map(q => Expected(q, numExpected), requests) == Paired(requests, answers)
    ensures Map(q => Latency(q, numExpected), requests) == Latencies(answers)
  {
    answers := seq(|requests|, i requires 0 <= i < |requests| =>
      assert requests[i] in requests; Outcome(requests[i], numExpected).value);
    forall i | 0 <= i < |requests| ensures Gets(requests[i], numExpected, answers[i]) {
      assert requests[i] in requests;
      OutcomeMeans(requests[i], numExpected);
    }
    forall i | 0 <= i < |requests| ensures Succeeds(requests[i], numExpected, verify) {
      assert requests[i] in requests;
    }
  }

  /** A request that does not succeed fails, and when its parties are distinct not both. */
  lemma FailureMeans<T(!new)>(q: Request<T>, numExpected: Quota, verify: Verify<T>)
    ensures !Succeeds(q, numExpected, verify) ==> Fails(q, numExpected, verify)
    ensures Succeeds(q, numExpected, verify) && (q.run.Runs? ==> Quorum.DistinctParties(q.run.arrivals)) ==>
      !Fails(q, numExpected, verify)
  {
    OutcomeMeans(q, numExpected);
    if Succeeds(q, numExpected, verify) && Quorum.DistinctParties(q.run.arrivals) {
      forall a | Gets(q, numExpected, a) ensures a == Outcome(q, numExpected).value {
        AnswerIsUnique(q, numExpected, a, Outcome(q, numExpected).value);
      }
    }
  }

  /** Both phases, stated by what each request leads to. */
  method CollectAndVerify<T(!new)>(requests: seq<Request<T>>, numExpected: Quota, verify: Verify<T>, parallel: nat, delay: nat)
    returns (r: Option<seq<Decryption<T>>>, stat: Stat, slept: nat)
    ensures r.Some? <==> forall q :: q in requests ==> Succeeds(q, numExpected, verify)
    ensures r.Some? ==> multiset(r.value) == multiset(Map(q => Expected(q, numExpected), requests))
    ensures r.Some? ==> stat == StatOf(Map(q => Latency(q, numExpected), requests))
    ensures slept == if requests == [] then 0 else PausesBefore(|requests| - 1, parallel, delay)
  {
    var pauses;
    pauses, slept := Launch(|requests|, parallel, delay);
    stat := StatOf([]);
    var collected := CollectAll(requests, numExpected);
    if collected.None? {
      return None, stat, slept;
    }
    VerifiedAfterCollecting(requests, collected.value, numExpected, verify);
    r := JoinAll(collected.value, VerifiedBy(verify), DecryptionOf);
    if r.None? {
      return;
    }
    ResultsMatch(requests, collected.value, r.value, numExpected);
    var durations := Map((c: Collected<T>) => c.answer.latency, collected.value);
    DurationsMatch(requests, collected.value, numExpected);
    StatUnderReordering(durations, Map(q => Latency(q, numExpected), requests));
    stat := StatOf(durations);
  }

  /** The whole command: for every order in which requests are collected and verified it succeeds
      exactly when every request collects a quorum of responses that verify; it then returns each
      request once with its own responses, and reports the statistics of all requests. */
  method DoPublicDecrypt<T(!new)>(requests: seq<Request<T>>, numExpected: Quota, verify: Verify<T>, parallel: nat, delay: nat)
    returns (r: Option<seq<Decryption<T>>>, stat: Stat, slept: nat)
    ensures r.Some? <==> forall q :: q in requests ==> Succeeds(q, numExpected, verify)
    ensures r.Some? ==> multiset(r.value) == multiset(Map(q => Expected(q, numExpected), requests))
    ensures r.Some? ==> stat == StatOf(Map(q => Latency(q, numExpected), requests))
    ensures r.Some? ==>
      exists answers :: AllAnswered(requests, numExpected, verify, answers)
        && multiset(r.value) == multiset(Paired(requests, answers)) && stat == StatOf(Latencies(answers))
    ensures r.None? ==> exists q :: q in requests && Fails(q, numExpected, verify)
    ensures r.Some? ==> forall q :: q in requests && q.run.Runs? && Quorum.DistinctParties(q.run.arrivals) ==>
      !Fails(q, numExpected, verify)
    ensures slept == if requests == [] then 0 else PausesBefore(|requests| - 1, parallel, delay)
  {
    r, stat, slept := CollectAndVerify(requests, numExpected, verify, parallel, delay);
    if r.Some? {
      ghost var answers := SuccessMeans(requests, numExpected, verify);
      forall q | q in requests && q.run.Runs? && Quorum.DistinctParties(q.run.arrivals)
        ensures !Fails(q, numExpected, verify)
      {
        FailureMeans(q, numExpected, verify);
      }
    } else {
      ghost var q :| q in requests && !Succeeds(q, numExpected, verify);
      FailureMeans(q, numExpected, verify);
    }
  }
}
