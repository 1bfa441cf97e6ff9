/** Collecting replies from several cores: one task per core, results joined in whatever
    order the tasks finish, an early stop at the quorum, and a final sort by party. */
module Quorum {
  import opened Wrappers
  import opened Cores
  import opened Replies
  import opened Sequences
  import opened Sorting
  import Polling

  // -------------------------------------------------------------------------
  // Early stop at the quorum
  // -------------------------------------------------------------------------

  /** The first `quorum` replies, if there are that many. */
  function FirstReplies<T>(arrivals: seq<Arrival<T>>, quorum: nat): Option<seq<Arrival<T>>> {
    var all := Successes(arrivals);
    if |all| >= quorum then Some(all[..quorum]) else None
  }

  // -------------------------------------------------------------------------
  // Sorting by party
  // -------------------------------------------------------------------------

  ghost predicate DistinctParties<T>(s: seq<Arrival<T>>) {
    forall i, j :: 0 <= i < j < |s| ==> s[i].core.partyId != s[j].core.partyId
  }

  function PartyOf<T>(a: Arrival<T>): int {
    a.core.partyId
  }

  predicate SortedByParty<T>(s: seq<Arrival<T>>) {
    SortedBy(PartyOf, s)
  }

  /** `sort_by_key(|(conf, _)| conf.party_id)`. */
  function SortByParty<T>(s: seq<Arrival<T>>): (r: seq<Arrival<T>>)
    ensures multiset(r) == multiset(s) && SortedByParty(r)
  {
    SortSorts(PartyOf, s);
    SortBy(PartyOf, s)
  }

  lemma PartiesOfReordering<T>(a: seq<Arrival<T>>, b: seq<Arrival<T>>)
    requires multiset(a) == multiset(b)
    requires DistinctParties(a)
    ensures DistinctParties(b)
  {
    var party := (x: Arrival<T>) => x.core.partyId;
    MapUnderReordering(party, a, b);
    DistinctUnderReordering(Map(party, a), Map(party, b));
    forall i, j | 0 <= i < j < |b| ensures b[i].core.partyId != b[j].core.partyId {
      assert Map(party, b)[i] != Map(party, b)[j];
    }
  }

  lemma LastIsLargest<T>(a: seq<Arrival<T>>, b: seq<Arrival<T>>)
    requires multiset(a) == multiset(b) && a != [] && b != []
    requires SortedByParty(b)
    requires DistinctParties(b)
    ensures a[|a| - 1].core.partyId <= b[|b| - 1].core.partyId
    ensures a[|a| - 1].core.partyId == b[|b| - 1].core.partyId ==> a[|a| - 1] == b[|b| - 1]
  {
    assert a[|a| - 1] in multiset(b);
    var k :| 0 <= k < |b| && b[k] == a[|a| - 1];
  }

  lemma SameLast<T>(a: seq<Arrival<T>>, b: seq<Arrival<T>>)
    requires multiset(a) == multiset(b) && a != [] && b != []
    requires SortedByParty(a) && SortedByParty(b)
    requires DistinctParties(a) && DistinctParties(b)
    ensures a[|a| - 1] == b[|b| - 1]
    ensures multiset(a[..|a| - 1]) == multiset(b[..|b| - 1])
  {
    LastIsLargest(a, b);
    LastIsLargest(b, a);
    DropLast(a);
    DropLast(b);
  }

  /** With distinct parties there is only one way to sort. */
  lemma {:induction false} SortedOrderIsUnique<T>(a: seq<Arrival<T>>, b: seq<Arrival<T>>)
    requires multiset(a) == multiset(b)
    requires DistinctParties(a) && DistinctParties(b)
    requires SortedByParty(a) && SortedByParty(b)
    ensures a == b
    decreases |a|
  {
    assert |multiset(a)| == |a|;
    assert |multiset(b)| == |b|;
    if a != [] {
      SameLast(a, b);
      SortedOrderIsUnique(a[..|a| - 1], b[..|b| - 1]);
      assert a == a[..|a| - 1] + [a[|a| - 1]];
      assert b == b[..|b| - 1] + [b[|b| - 1]];
    }
  }

  // -------------------------------------------------------------------------
  // Collecting a quorum
  // -------------------------------------------------------------------------

  /** The replies kept by the collection loop, sorted by party; `None` if the quorum is missed. */
  function Collected<T>(arrivals: seq<Arrival<T>>, quorum: nat): Option<seq<Arrival<T>>> {
    match FirstReplies(arrivals, quorum)
    case None => None
    case Some(replies) => Some(SortByParty(replies))
  }

  /** The payloads of a sequence of replies; the cores are dropped. */
  function Values<T>(replies: seq<Arrival<T>>): (r: seq<T>)
    requires forall a :: a in replies ==> a.result.Reply?
    ensures |r| == |replies|
    ensures forall i :: 0 <= i < |r| ==> r[i] == replies[i].result.value
  {
    if replies == [] then [] else Values(replies[..|replies| - 1]) + [replies[|replies| - 1].result.value]
  }

  lemma CollectedAreReplies<T>(arrivals: seq<Arrival<T>>, quorum: nat)
    requires Collected(arrivals, quorum).Some?
    ensures var r := Collected(arrivals, quorum).value;
            |r| == quorum && forall a :: a in r ==> a.result.Reply? && a in arrivals
  {
    var kept := Successes(arrivals)[..quorum];
    var r := Collected(arrivals, quorum).value;
    SuccessesAreReplies(arrivals);
    assert |multiset(r)| == |r| && |multiset(kept)| == |kept|;
    forall a | a in r ensures a in kept {
      assert a in multiset(r);
    }
  }

  /** What a collector returns: the payloads of the replies it kept. */
  function Returned<T>(arrivals: seq<Arrival<T>>, quorum: nat): Option<seq<T>> {
    match Collected(arrivals, quorum)
    case None => None
    case Some(kept) =>
      CollectedAreReplies(arrivals, quorum);
      Some(Values(kept))
  }

  lemma LastPosition<T>(arrivals: seq<Arrival<T>>, quorum: nat)
    requires 1 <= quorum <= |Successes(arrivals)|
    ensures quorum <= |Positions(arrivals)| && Positions(arrivals)[quorum - 1] == QuorumPoint(arrivals, quorum) - 1
  {
    PositionOfLast(arrivals, quorum, QuorumPoint(arrivals, quorum));
  }

  /** A collector returns exactly when enough replies arrive, and then the values of the earliest
      ones, sorted by party; the join that meets the quorum is the one that brought the last. */
  lemma ReturnedMeans<T(!new)>(arrivals: seq<Arrival<T>>, quorum: nat, clock: nat -> nat)
    requires quorum >= 1
    ensures Returned(arrivals, quorum).Some? <==> |ReplyPositions(arrivals)| >= quorum
    ensures Returned(arrivals, quorum).Some? ==>
      && |Successes(arrivals)| >= quorum
      && HandsOverSorted(arrivals, quorum, clock, Returned(arrivals, quorum).value,
                         clock(QuorumPoint(arrivals, quorum) - 1))
  {
    SuccessesSize(arrivals);
    if Returned(arrivals, quorum).Some? {
      var kept := Collected(arrivals, quorum).value;
      LastPosition(arrivals, quorum);
      CollectedAreReplies(arrivals, quorum);
      SortedParties(kept);
      ValuesAreValues(kept);
      HandOverSorted(arrivals, quorum, clock, kept, Values(kept));
    }
  }

  lemma ValuesAreValues<T>(kept: seq<Arrival<T>>)
    requires forall a :: a in kept ==> a.result.Reply?
    ensures ValuesOf(kept, Values(kept))
  {
    forall i | 0 <= i < |kept| ensures kept[i].result == Reply(Values(kept)[i]) {
      assert kept[i] in kept;
    }
  }

  lemma SortedParties<T>(kept: seq<Arrival<T>>)
    requires SortedByParty(kept)
    ensures PartiesInOrder(kept)
  {
    forall i, j | 0 <= i < j < |kept| ensures kept[i].core.partyId <= kept[j].core.partyId {
      assert PartyOf(kept[i]) <= PartyOf(kept[j]);
    }
  }

  /** Joins tasks as they finish and stops as soon as the quorum is met; the clock is read at
      that moment. */
  method JoinUntilQuorum<T>(arrivals: seq<Arrival<T>>, numExpected: nat, clock: nat -> nat)
    returns (responses: seq<Arrival<T>>, joined: nat, met: Option<nat>)
    requires numExpected >= 1
    ensures joined <= |arrivals| && responses == Successes(arrivals[..joined])
    ensures |responses| <= numExpected
    ensures |responses| < numExpected ==> joined == |arrivals|
    ensures |responses| == numExpected ==> joined >= 1 && |Successes(arrivals[..joined - 1])| < numExpected
    ensures met == if |responses| == numExpected then Some(clock(joined - 1)) else None
  {
    met := None;
    responses := [];
    joined := 0;
    while joined < |arrivals|
      invariant joined <= |arrivals|
      invariant responses == Successes(arrivals[..joined])
      invariant |responses| < numExpected && met.None?
    {
      var arrival := arrivals[joined];
      assert arrivals[..joined + 1][..joined] == arrivals[..joined];
      joined := joined + 1;
      if arrival.result.Reply? {
        responses := responses + [arrival];
      }
      if |responses| >= numExpected {
        met := Some(clock(joined - 1));
        break;
      }
    }
  }

  /** Stopping early keeps exactly the first `quorum` replies of the whole run. */
  lemma EarlyStopKeepsFirst<T>(arrivals: seq<Arrival<T>>, quorum: nat, joined: nat)
    requires joined <= |arrivals|
    requires |Successes(arrivals[..joined])| <= quorum
    requires |Successes(arrivals[..joined])| < quorum ==> joined == |arrivals|
    ensures FirstReplies(arrivals, quorum)
         == if |Successes(arrivals[..joined])| == quorum then Some(Successes(arrivals[..joined])) else None
  {
    SuccessesOfPrefix(arrivals, joined);
    if |Successes(arrivals[..joined])| == quorum {
      assert Successes(arrivals)[..quorum] == Successes(arrivals[..joined]);
    } else {
      assert arrivals[..joined] == arrivals;
    }
  }

  /** The result collectors of decryption, key generation and CRS generation: stop at the
      quorum, sort by party, drop the cores. */
  method CollectResponses<T(!new)>(arrivals: seq<Arrival<T>>, numExpected: nat) returns (r: Option<seq<T>>)
    requires numExpected >= 1
    ensures r == Returned(arrivals, numExpected)
    ensures r.Some? <==> |ReplyPositions(arrivals)| >= numExpected
  {
    var latency;
    r, latency := CollectTimed(arrivals, numExpected, k => k);
  }

  /** The same with the time at which the quorum was met: succeeds exactly when enough replies
      arrive, and hands over the earliest of them, sorted by party. */
  method CollectTimed<T(!new)>(arrivals: seq<Arrival<T>>, numExpected: nat, clock: nat -> nat)
    returns (r: Option<seq<T>>, latency: nat)
    requires numExpected >= 1
    ensures r == Returned(arrivals, numExpected)
    ensures r.Some? <==> |ReplyPositions(arrivals)| >= numExpected
    ensures r.Some? ==>
      |Successes(arrivals)| >= numExpected && latency == clock(QuorumPoint(arrivals, numExpected) - 1)
    ensures r.Some? ==> HandsOverSorted(arrivals, numExpected, clock, r.value, latency)
  {
    ReturnedMeans(arrivals, numExpected, clock);
    var responses, joined, met := JoinUntilQuorum(arrivals, numExpected, clock);
    EarlyStopKeepsFirst(arrivals, numExpected, joined);
    if |responses| < numExpected {
      return None, 0;
    }
    QuorumPointIsUnique(arrivals, numExpected, joined);
    CollectedAreReplies(arrivals, numExpected);
    r, latency := Some(Values(SortByParty(responses))), met.value;
  }

  /** The preprocessing collector joins every task and wants a reply from all of them. */
  method CollectFromAll<T>(arrivals: seq<Arrival<T>>) returns (r: Option<seq<T>>)
    ensures r == Returned(arrivals, |arrivals|)
    ensures r.Some? <==> forall a :: a in arrivals ==> a.result.Reply?
  {
    AllReply(arrivals);
    var responses: seq<Arrival<T>> := [];
    for joined := 0 to |arrivals|
      invariant responses == Successes(arrivals[..joined])
      invariant |responses| <= joined
    {
      assert arrivals[..joined + 1][..joined] == arrivals[..joined];
      if arrivals[joined].result.Reply? {
        responses := responses + [arrivals[joined]];
      }
    }
    EarlyStopKeepsFirst(arrivals, |arrivals|, |arrivals|);
    if |responses| < |arrivals| {
      return None;
    }
    CollectedAreReplies(arrivals, |arrivals|);
    r := Some(Values(SortByParty(responses)));
  }

  // -------------------------------------------------------------------------
  // Schedule independence
  // -------------------------------------------------------------------------

  /** A core's task panics, or polls the core's reply stream. */
  datatype Behaviour<!T> = Crashes | Serves(stream: Polling.Stream<T>)

  function CoreTask<T>(core: CoreConf, behaviour: Behaviour<T>, maxIter: nat): Arrival<T> {
    match behaviour
    case Crashes => Arrival(core, Panicked)
    case Serves(stream) =>
      match Polling.Answer(stream(Polling.LastCall(stream, maxIter)))
      case Some(v) => Arrival(core, Reply(v))
      case None => Arrival(core, Failed)
  }

  /** The arrivals when the tasks of `order` finish in that order. */
  function Arrivals<T>(order: seq<CoreConf>, behaviour: CoreConf -> Behaviour<T>, maxIter: nat): seq<Arrival<T>> {
    Map((core: CoreConf) => CoreTask(core, behaviour(core), maxIter), order)
  }

  /** What a polling task makes of a core: a crash is a panic, a stream that settles on a value
      within the retries is a reply with this value, and everything else is a failure. */
  lemma CoreTaskMeans<T>(core: CoreConf, behaviour: Behaviour<T>, maxIter: nat, v: T)
    ensures CoreTask(core, behaviour, maxIter).core == core
    ensures CoreTask(core, behaviour, maxIter).result.Panicked? <==> behaviour.Crashes?
    ensures CoreTask(core, behaviour, maxIter).result == Reply(v)
       <==> behaviour.Serves? && exists k :: Polling.SettlesOn(behaviour.stream, maxIter, k, v)
  {
    if behaviour.Serves? {
      Polling.AnswerIff(behaviour.stream, maxIter, v);
    }
  }

  /** One polling task, run to its end. */
  method PollCore<T>(core: CoreConf, behaviour: Behaviour<T>, maxIter: nat) returns (a: Arrival<T>)
    ensures a == CoreTask(core, behaviour, maxIter)
    ensures a.core == core && (a.result.Panicked? <==> behaviour.Crashes?)
    ensures a.result.Reply? <==> SettlesWithin(behaviour, maxIter)
    ensures a.result.Reply? ==> exists k :: Polling.SettlesOn(behaviour.stream, maxIter, k, a.result.value)
  {
    ReplyIffSettles(core, behaviour, maxIter);
    match behaviour
    case Crashes =>
      a := Arrival(core, Panicked);
    case Serves(stream) =>
      var answer, _ := Polling.PollThenBail(stream, maxIter);
      match answer
      case Some(v) => a := Arrival(core, Reply(v));
      case None => a := Arrival(core, Failed);
  }

  /** Polls every core and collects a quorum, for the order in which the tasks finish. */
  method GetResponses<T(!new)>(order: seq<CoreConf>, behaviour: CoreConf -> Behaviour<T>, maxIter: nat, numExpected: nat)
    returns (r: Option<seq<T>>)
    requires numExpected >= 1
    ensures r == Returned(Arrivals(order, behaviour, maxIter), numExpected)
    ensures Distinct(order) ==> (r.Some? <==> |Answering(order, behaviour, maxIter)| >= numExpected)
    ensures r.Some? ==>
      exists ps, heard :: |ps| == numExpected && Heard(order, behaviour, maxIter, ps, heard, r.value)
  {
    var arrivals: seq<Arrival<T>> := [];
    for i := 0 to |order|
      invariant |arrivals| == i
      invariant forall k :: 0 <= k < i ==> arrivals[k] == CoreTask(order[k], behaviour(order[k]), maxIter)
    {
      var a := PollCore(order[i], behaviour(order[i]), maxIter);
      arrivals := arrivals + [a];
    }
    assert arrivals == Arrivals(order, behaviour, maxIter);
    r := CollectResponses(arrivals, numExpected);
    if Distinct(order) {
      QuorumMetIffEnoughAnswer(order, order, behaviour, maxIter, numExpected);
    }
    if r.Some? {
      ReturnedMeans(arrivals, numExpected, k => k);
      ghost var ps, heard := WhoIsHeard(order, behaviour, maxIter, numExpected, k => k, r.value,
                                        QuorumPoint(arrivals, numExpected) - 1);
    }
  }

  ghost function CoresAt(order: seq<CoreConf>, ps: seq<nat>): (r: seq<CoreConf>)
    requires forall k :: 0 <= k < |ps| ==> ps[k] < |order|
    ensures |r| == |ps| && forall k :: 0 <= k < |r| ==> r[k] == order[ps[k]]
  {
    seq(|ps|, k requires 0 <= k < |ps| => order[ps[k]])
  }

  /** The cores at the positions `ps` of the order are the earliest ones to answer. */
  ghost predicate FirstToAnswer<T>(
      order: seq<CoreConf>, behaviour: CoreConf -> Behaviour<T>, maxIter: nat, ps: seq<nat>)
  {
    && (forall k :: 0 <= k < |ps| ==> ps[k] < |order| && Answers(order[ps[k]], behaviour, maxIter))
    && Ascending(ps)
    && (forall i, k :: 0 <= k < |ps| && 0 <= i <= ps[k] && Answers(order[i], behaviour, maxIter) ==> i in ps)
  }

  /** `heard` are the earliest cores to answer, sorted by party, and each value is what the stream
      of its core settles on. */
  ghost predicate Heard<T>(
      order: seq<CoreConf>, behaviour: CoreConf -> Behaviour<T>, maxIter: nat,
      ps: seq<nat>, heard: seq<CoreConf>, values: seq<T>)
  {
    && FirstToAnswer(order, behaviour, maxIter, ps)
    && multiset(heard) == multiset(CoresAt(order, ps))
    && (forall i, j :: 0 <= i < j < |heard| ==> heard[i].partyId <= heard[j].partyId)
    && |values| == |heard|
    && forall i :: 0 <= i < |heard| ==>
      && behaviour(heard[i]).Serves?
      && exists k :: Polling.SettlesOn(behaviour(heard[i]).stream, maxIter, k, values[i])
  }

  lemma ArrivalsAnswer<T>(order: seq<CoreConf>, behaviour: CoreConf -> Behaviour<T>, maxIter: nat, i: nat)
    requires i < |order|
    ensures var a := Arrivals(order, behaviour, maxIter)[i];
            && a.core == order[i] && a == CoreTask(order[i], behaviour(order[i]), maxIter)
            && (a.result.Reply? <==> Answers(order[i], behaviour, maxIter))
  {
    AnswersIsReply(order[i], behaviour, maxIter);
  }

  lemma EarliestAnswer<T>(order: seq<CoreConf>, behaviour: CoreConf -> Behaviour<T>, maxIter: nat, ps: seq<nat>)
    requires Earliest(Arrivals(order, behaviour, maxIter), ps)
    ensures FirstToAnswer(order, behaviour, maxIter, ps)
  {
    forall i | 0 <= i < |order|
      ensures Arrivals(order, behaviour, maxIter)[i].result.Reply? <==> Answers(order[i], behaviour, maxIter)
    {
      ArrivalsAnswer(order, behaviour, maxIter, i);
    }
  }

  function CoreOf<T>(a: Arrival<T>): CoreConf {
    a.core
  }

  lemma KeptSettle<T>(
      order: seq<CoreConf>, behaviour: CoreConf -> Behaviour<T>, maxIter: nat, ps: seq<nat>, kept: seq<Arrival<T>>,
      i: nat)
    requires Sorts(Arrivals(order, behaviour, maxIter), ps, kept) && i < |kept| && kept[i].result.Reply?
    ensures behaviour(kept[i].core).Serves?
    ensures exists k :: Polling.SettlesOn(behaviour(kept[i].core).stream, maxIter, k, kept[i].result.value)
  {
    var arrivals := Arrivals(order, behaviour, maxIter);
    assert kept[i] in multiset(kept);
    var m :| 0 <= m < |ps| && Picked(arrivals, ps)[m] == kept[i];
    ArrivalsAnswer(order, behaviour, maxIter, ps[m]);
    ReplyIffSettles(kept[i].core, behaviour(kept[i].core), maxIter);
  }

  lemma WhoIsHeard<T(!new)>(
      order: seq<CoreConf>, behaviour: CoreConf -> Behaviour<T>, maxIter: nat, quorum: nat, clock: nat -> nat,
      values: seq<T>, latency: nat)
    returns (ps: seq<nat>, heard: seq<CoreConf>)
    requires HandsOverSorted(Arrivals(order, behaviour, maxIter), quorum, clock, values, latency)
    ensures |ps| == quorum && Heard(order, behaviour, maxIter, ps, heard, values)
  {
    var arrivals := Arrivals(order, behaviour, maxIter);
    var kept: seq<Arrival<T>>;
    ps, kept :| Earliest(arrivals, ps) && |ps| == quorum && Sorts(arrivals, ps, kept) && ValuesOf(kept, values);
    heard := Map(CoreOf, kept);
    EarliestAnswer(order, behaviour, maxIter, ps);
    MapUnderReordering(CoreOf, kept, Picked(arrivals, ps));
    assert Map(CoreOf, Picked(arrivals, ps)) == CoresAt(order, ps);
    forall i | 0 <= i < |heard|
      ensures behaviour(heard[i]).Serves?
      ensures exists k :: Polling.SettlesOn(behaviour(heard[i]).stream, maxIter, k, values[i])
    {
      KeptSettle(order, behaviour, maxIter, ps, kept, i);
    }
  }

  /** The core is ready at some call within the retries, after nothing but "unavailable". */
  ghost predicate SettlesWithin<T>(b: Behaviour<T>, maxIter: nat) {
    && b.Serves?
    && exists k: nat :: k <= maxIter && b.stream(k).Ready? && forall j: nat :: j < k ==> b.stream(j).Unavailable?
  }

  ghost predicate Answers<T>(core: CoreConf, behaviour: CoreConf -> Behaviour<T>, maxIter: nat) {
    SettlesWithin(behaviour(core), maxIter)
  }

  predicate HasReply<T>(core: CoreConf, behaviour: CoreConf -> Behaviour<T>, maxIter: nat) {
    CoreTask(core, behaviour(core), maxIter).result.Reply?
  }

  lemma ReplyIffSettles<T>(core: CoreConf, b: Behaviour<T>, maxIter: nat)
    ensures CoreTask(core, b, maxIter).result.Reply? <==> SettlesWithin(b, maxIter)
    ensures CoreTask(core, b, maxIter).result.Reply? ==>
      exists k :: Polling.SettlesOn(b.stream, maxIter, k, CoreTask(core, b, maxIter).result.value)
  {
    if b.Serves? {
      var l := Polling.LastCall(b.stream, maxIter);
      if b.stream(l).Ready? {
        assert Polling.SettlesOn(b.stream, maxIter, l, b.stream(l).value);
      }
      forall k: nat | k <= maxIter && b.stream(k).Ready? && forall j: nat :: j < k ==> b.stream(j).Unavailable?
        ensures k == l
      {
        assert !(l < k) && !(k < l);
      }
    }
  }

  lemma AnswersIsReply<T>(core: CoreConf, behaviour: CoreConf -> Behaviour<T>, maxIter: nat)
    ensures Answers(core, behaviour, maxIter) <==> HasReply(core, behaviour, maxIter)
  {
    ReplyIffSettles(core, behaviour(core), maxIter);
  }

  ghost predicate DistinctPartyIds(cores: seq<CoreConf>) {
    forall i, j :: 0 <= i < j < |cores| ==> cores[i].partyId != cores[j].partyId
  }

  /** The cores that answer within their retry budget. */
  ghost function Answering<T>(cores: seq<CoreConf>, behaviour: CoreConf -> Behaviour<T>, maxIter: nat): set<CoreConf> {
    set c | c in cores && Answers(c, behaviour, maxIter)
  }

  lemma AnsweringSnoc<T>(init: seq<CoreConf>, last: CoreConf, behaviour: CoreConf -> Behaviour<T>, maxIter: nat)
    requires last !in init
    ensures |Answering(init + [last], behaviour, maxIter)|
         == |Answering(init, behaviour, maxIter)| + if Answers(last, behaviour, maxIter) then 1 else 0
  {
    var before := Answering(init, behaviour, maxIter);
    assert Answering(init + [last], behaviour, maxIter)
        == if Answers(last, behaviour, maxIter) then before + {last} else before;
  }

  lemma SuccessesSnoc<T>(init: seq<CoreConf>, last: CoreConf, behaviour: CoreConf -> Behaviour<T>, maxIter: nat)
    ensures |Successes(Arrivals(init + [last], behaviour, maxIter))|
         == |Successes(Arrivals(init, behaviour, maxIter))| + if Answers(last, behaviour, maxIter) then 1 else 0
  {
    var arrivals := Arrivals(init + [last], behaviour, maxIter);
    assert arrivals[..|arrivals| - 1] == Arrivals(init, behaviour, maxIter);
    AnswersIsReply(last, behaviour, maxIter);
  }

  lemma {:induction false} SuccessesPerCore<T>(cores: seq<CoreConf>, behaviour: CoreConf -> Behaviour<T>, maxIter: nat)
    requires Distinct(cores)
    ensures |Successes(Arrivals(cores, behaviour, maxIter))| == |Answering(cores, behaviour, maxIter)|
  {
    if cores != [] {
      var init, last := cores[..|cores| - 1], cores[|cores| - 1];
      SuccessesPerCore(init, behaviour, maxIter);
      assert cores == init + [last];
      SuccessesSnoc(init, last, behaviour, maxIter);
      AnsweringSnoc(init, last, behaviour, maxIter);
    } else {
      assert Answering(cores, behaviour, maxIter) == {};
    }
  }

  lemma OrdersGiveSameReplies<T>(
      cores: seq<CoreConf>, order: seq<CoreConf>, behaviour: CoreConf -> Behaviour<T>, maxIter: nat)
    requires multiset(order) == multiset(cores)
    ensures multiset(Successes(Arrivals(order, behaviour, maxIter)))
         == multiset(Successes(Arrivals(cores, behaviour, maxIter)))
    ensures |Successes(Arrivals(order, behaviour, maxIter))| == |Successes(Arrivals(cores, behaviour, maxIter))|
  {
    MapUnderReordering((core: CoreConf) => CoreTask(core, behaviour(core), maxIter), order, cores);
    SuccessesUnderReordering(Arrivals(order, behaviour, maxIter), Arrivals(cores, behaviour, maxIter));
  }

  /** Whether collection succeeds is a property of the cores, not of the order in which they
      answer: the quorum is met exactly when that many cores answer within their budget. */
  lemma QuorumMetIffEnoughAnswer<T>(
      cores: seq<CoreConf>, order: seq<CoreConf>, behaviour: CoreConf -> Behaviour<T>, maxIter: nat, quorum: nat)
    requires multiset(order) == multiset(cores)
    requires Distinct(cores)
    ensures Collected(Arrivals(order, behaviour, maxIter), quorum).Some?
       <==> |Answering(cores, behaviour, maxIter)| >= quorum
  {
    OrdersGiveSameReplies(cores, order, behaviour, maxIter);
    SuccessesPerCore(cores, behaviour, maxIter);
  }

  lemma DistinctReplies<T>(order: seq<CoreConf>, behaviour: CoreConf -> Behaviour<T>, maxIter: nat, quorum: nat)
    requires DistinctPartyIds(order)
    requires Collected(Arrivals(order, behaviour, maxIter), quorum).Some?
    ensures DistinctParties(Collected(Arrivals(order, behaviour, maxIter), quorum).value)
  {
    var arrivals := Arrivals(order, behaviour, maxIter);
    assert DistinctParties(arrivals);
    SuccessesKeepDistinct(arrivals);
    PartiesOfReordering(Successes(arrivals)[..quorum], Collected(arrivals, quorum).value);
  }

  lemma {:induction false} SuccessesKeepDistinct<T>(arrivals: seq<Arrival<T>>)
    requires DistinctParties(arrivals)
    ensures DistinctParties(Successes(arrivals))
  {
    if arrivals != [] {
      SuccessesKeepDistinct(arrivals[..|arrivals| - 1]);
      SuccessesAreReplies(arrivals[..|arrivals| - 1]);
    }
  }

  lemma PartyIdsUnderReordering(a: seq<CoreConf>, b: seq<CoreConf>)
    requires multiset(a) == multiset(b) && DistinctPartyIds(a)
    ensures DistinctPartyIds(b)
  {
    var party := (x: CoreConf) => x.partyId;
    MapUnderReordering(party, a, b);
    DistinctUnderReordering(Map(party, a), Map(party, b));
    forall i, j | 0 <= i < j < |b| ensures b[i].partyId != b[j].partyId {
      assert Map(party, b)[i] != Map(party, b)[j];
    }
  }

  /** On success the result has exactly `quorum` entries, one per core, in strictly increasing
      party order, each being that core's own reply. */
  lemma CollectedShape<T>(
      cores: seq<CoreConf>, order: seq<CoreConf>, behaviour: CoreConf -> Behaviour<T>, maxIter: nat, quorum: nat)
    requires multiset(order) == multiset(cores)
    requires DistinctPartyIds(cores)
    requires Collected(Arrivals(order, behaviour, maxIter), quorum).Some?
    ensures var r := Collected(Arrivals(order, behaviour, maxIter), quorum).value;
            && |r| == quorum
            && (forall i, j :: 0 <= i < j < |r| ==> r[i].core.partyId < r[j].core.partyId)
            && (forall a :: a in r ==> a.core in cores && a.result.Reply? && a == CoreTask(a.core, behaviour(a.core), maxIter))
  {
    var arrivals := Arrivals(order, behaviour, maxIter);
    var r := Collected(arrivals, quorum).value;
    CollectedAreReplies(arrivals, quorum);
    PartyIdsUnderReordering(cores, order);
    DistinctReplies(order, behaviour, maxIter, quorum);
    forall a | a in r ensures a.core in cores && a == CoreTask(a.core, behaviour(a.core), maxIter) {
      var i :| 0 <= i < |arrivals| && arrivals[i] == a;
      assert order[i] in multiset(order);
    }
  }

  /** If no more cores answer than the quorum asks for, every order yields the same result. */
  lemma SameResultForEveryOrder<T>(
      a: seq<CoreConf>, b: seq<CoreConf>, behaviour: CoreConf -> Behaviour<T>, maxIter: nat, quorum: nat)
    requires multiset(a) == multiset(b)
    requires DistinctPartyIds(a)
    requires |Successes(Arrivals(a, behaviour, maxIter))| <= quorum
    ensures Collected(Arrivals(a, behaviour, maxIter), quorum) == Collected(Arrivals(b, behaviour, maxIter), quorum)
  {
    OrdersGiveSameReplies(b, a, behaviour, maxIter);
    PartyIdsUnderReordering(a, b);
    var sa, sb := Successes(Arrivals(a, behaviour, maxIter)), Successes(Arrivals(b, behaviour, maxIter));
    if |sa| == quorum {
      assert sa[..quorum] == sa && sb[..quorum] == sb;
      DistinctReplies(a, behaviour, maxIter, quorum);
      DistinctReplies(b, behaviour, maxIter, quorum);
      SortedOrderIsUnique(SortByParty(sa), SortByParty(sb));
    }
  }

  /** Moves the core at position `k` to the end of the order. */
  function MoveToEnd(cores: seq<CoreConf>, k: nat): (r: seq<CoreConf>)
    requires k < |cores|
    ensures multiset(r) == multiset(cores)
  {
    assert cores == cores[..k] + [cores[k]] + cores[k + 1..];
    cores[..k] + cores[k + 1..] + [cores[k]]
  }

  lemma LastCoreNotNeeded<T>(
      init: seq<CoreConf>, last: CoreConf, behaviour: CoreConf -> Behaviour<T>, maxIter: nat, quorum: nat)
    requires |Successes(Arrivals(init + [last], behaviour, maxIter))| > quorum
    ensures FirstReplies(Arrivals(init + [last], behaviour, maxIter), quorum)
         == FirstReplies(Arrivals(init, behaviour, maxIter), quorum)
    ensures FirstReplies(Arrivals(init, behaviour, maxIter), quorum).Some?
  {
    SuccessesSnoc(init, last, behaviour, maxIter);
    var arrivals := Arrivals(init + [last], behaviour, maxIter);
    assert arrivals[..|init|] == Arrivals(init, behaviour, maxIter);
    SuccessesOfPrefix(arrivals, |init|);
    assert Successes(arrivals)[..quorum] == Successes(arrivals[..|init|])[..quorum];
  }

  lemma CollectedFromOrder<T>(order: seq<CoreConf>, behaviour: CoreConf -> Behaviour<T>, maxIter: nat, quorum: nat, a: Arrival<T>)
    requires Collected(Arrivals(order, behaviour, maxIter), quorum).Some?
    requires a in Collected(Arrivals(order, behaviour, maxIter), quorum).value
    ensures a.core in order
  {
    var arrivals := Arrivals(order, behaviour, maxIter);
    CollectedAreReplies(arrivals, quorum);
    var i :| 0 <= i < |arrivals| && arrivals[i] == a;
    assert a.core == order[i];
  }

  /** If more cores answer than the quorum asks for, the result depends on the order: letting
      one of the cores that were heard answer last leaves it out. */
  lemma SlowestCoreIsLeftOut<T>(
      cores: seq<CoreConf>, k: nat, behaviour: CoreConf -> Behaviour<T>, maxIter: nat, quorum: nat)
    requires DistinctPartyIds(cores) && k < |cores|
    requires |Successes(Arrivals(cores, behaviour, maxIter))| > quorum
    ensures var r := Collected(Arrivals(MoveToEnd(cores, k), behaviour, maxIter), quorum);
            r.Some? && forall a :: a in r.value ==> a.core != cores[k]
  {
    var init := cores[..k] + cores[k + 1..];
    OrdersGiveSameReplies(cores, MoveToEnd(cores, k), behaviour, maxIter);
    LastCoreNotNeeded(init, cores[k], behaviour, maxIter, quorum);
    var r := Collected(Arrivals(init, behaviour, maxIter), quorum);
    forall a | a in r.value ensures a.core != cores[k] {
      CollectedFromOrder(init, behaviour, maxIter, quorum, a);
    }
  }

  /** Which cores are heard, and so what is kept, is independent of the order in which cores
      answer exactly when at most `quorum` of them answer; asking for all cores is the usual
      case. */
  lemma OrderIndependentIff<T>(
      cores: seq<CoreConf>, behaviour: CoreConf -> Behaviour<T>, maxIter: nat, quorum: nat)
    requires DistinctPartyIds(cores) && quorum >= 1
    ensures (forall order :: multiset(order) == multiset(cores) ==>
               Collected(Arrivals(order, behaviour, maxIter), quorum) == Collected(Arrivals(cores, behaviour, maxIter), quorum))
       <==> |Answering(cores, behaviour, maxIter)| <= quorum
  {
    SuccessesPerCore(cores, behaviour, maxIter);
    if |Answering(cores, behaviour, maxIter)| <= quorum {
      forall order | multiset(order) == multiset(cores)
        ensures Collected(Arrivals(order, behaviour, maxIter), quorum) == Collected(Arrivals(cores, behaviour, maxIter), quorum)
      {
        SameResultForEveryOrder(cores, order, behaviour, maxIter, quorum);
      }
    } else {
      CollectedShape(cores, cores, behaviour, maxIter, quorum);
      var heard := Collected(Arrivals(cores, behaviour, maxIter), quorum).value[0];
      var k :| 0 <= k < |cores| && cores[k] == heard.core;
      SlowestCoreIsLeftOut(cores, k, behaviour, maxIter, quorum);
      assert multiset(MoveToEnd(cores, k)) == multiset(cores);
    }
  }

  // -------------------------------------------------------------------------
  // One user decryption
  // -------------------------------------------------------------------------

  /** How the task of one user decryption runs: which cores accepted the request, how the
      polling tasks finish, and the clock at each join. A task may also panic. */
  datatype TaskRun<+T> = Panics | Runs(sends: seq<bool>, arrivals: seq<Arrival<T>>, clock: nat -> nat)

  datatype UserDecryption<+T> = UserDecryption(responses: seq<T>, latency: nat)

  /** The task does not panic, enough cores take the request, and enough replies arrive. */
  ghost predicate Completes<T>(run: TaskRun<T>, quorum: nat) {
    run.Runs? && |TruePositions(run.sends)| >= quorum && |ReplyPositions(run.arrivals)| >= quorum
  }

  /** The number of joins after which the quorum is met. */
  function QuorumPoint<T>(arrivals: seq<Arrival<T>>, quorum: nat): (n: nat)
    requires 1 <= quorum <= |Successes(arrivals)|
    ensures 1 <= n <= |arrivals|
    ensures |Successes(arrivals[..n])| == quorum
    ensures |Successes(arrivals[..n - 1])| == quorum - 1
  {
    var init := arrivals[..|arrivals| - 1];
    if |Successes(init)| >= quorum then
      var n := QuorumPoint(init, quorum);
      assert init[..n] == arrivals[..n] && init[..n - 1] == arrivals[..n - 1];
      n
    else
      assert arrivals[..|arrivals|] == arrivals;
      |arrivals|
  }

  /** The outcome of a user-decryption task: the first `quorum` responses in arrival order and
      the time at which the last of them came in. */
  function TaskOutcome<T>(run: TaskRun<T>, quorum: nat): (r: Option<UserDecryption<T>>)
    requires quorum >= 1
    ensures r.Some? ==> |r.value.responses| == quorum
  {
    if run.Panics? || CountTrue(run.sends) < quorum || |Successes(run.arrivals)| < quorum then None
    else
      SuccessesAreReplies(run.arrivals);
      Some(UserDecryption(Values(Successes(run.arrivals)[..quorum]),
                          run.clock(QuorumPoint(run.arrivals, quorum) - 1)))
  }

  /** A task succeeds exactly when it does not panic, enough cores take the request and enough of
      them reply; it hands over the earliest replies, with the time of the last of them. */
  lemma TaskOutcomeMeans<T>(run: TaskRun<T>, quorum: nat)
    requires quorum >= 1
    ensures TaskOutcome(run, quorum).Some? <==> Completes(run, quorum)
    ensures TaskOutcome(run, quorum).Some? ==>
      var d := TaskOutcome(run, quorum).value;
      HandsOver(run.arrivals, quorum, run.clock, d.responses, d.latency)
  {
    if run.Runs? {
      CountTrueIsSize(run.sends);
      SuccessesSize(run.arrivals);
    }
    if TaskOutcome(run, quorum).Some? {
      LastPosition(run.arrivals, quorum);
      SuccessesAreReplies(run.arrivals);
      ValuesAreValues(Successes(run.arrivals)[..quorum]);
      HandOver(run.arrivals, quorum, run.clock, Values(Successes(run.arrivals)[..quorum]));
    }
  }

  /** Sends the request to every core, then collects responses until the quorum is met. The
      latency is always set when the responses are handed over. */
  method SendAndCollect<T>(run: TaskRun<T>, numExpected: nat) returns (r: Option<UserDecryption<T>>)
    requires numExpected >= 1 && run.Runs?
    ensures r == TaskOutcome(run, numExpected)
    ensures r.Some? <==> |TruePositions(run.sends)| >= numExpected && |ReplyPositions(run.arrivals)| >= numExpected
    ensures r.Some? ==> HandsOver(run.arrivals, numExpected, run.clock, r.value.responses, r.value.latency)
  {
    r := SendThenJoin(run, numExpected);
    TaskOutcomeMeans(run, numExpected);
  }

  method SendThenJoin<T>(run: TaskRun<T>, numExpected: nat) returns (r: Option<UserDecryption<T>>)
    requires numExpected >= 1 && run.Runs?
    ensures r == TaskOutcome(run, numExpected)
  {
    var accepted := 0;
    for i := 0 to |run.sends|
      invariant accepted == CountTrue(run.sends[..i])
    {
      assert run.sends[..i + 1][..i] == run.sends[..i];
      if run.sends[i] {
        accepted := accepted + 1;
      }
    }
    assert run.sends[..|run.sends|] == run.sends;
    if accepted < numExpected {
      return None;
    }

    var responses, joined, latency := JoinUntilQuorum(run.arrivals, numExpected, run.clock);
    EarlyStopKeepsFirst(run.arrivals, numExpected, joined);
    if |responses| < numExpected {
      return None;
    }
    QuorumPointIsUnique(run.arrivals, numExpected, joined);
    SuccessesAreReplies(run.arrivals);
    assert responses == Successes(run.arrivals)[..numExpected];
    assert latency.Some?;
    r := Some(UserDecryption(Values(responses), latency.value));
  }

  lemma QuorumPointIsUnique<T>(arrivals: seq<Arrival<T>>, quorum: nat, n: nat)
    requires 1 <= quorum <= |Successes(arrivals)|
    requires 1 <= n <= |arrivals|
    requires |Successes(arrivals[..n])| == quorum && |Successes(arrivals[..n - 1])| < quorum
    ensures n == QuorumPoint(arrivals, quorum)
  {
    var p := QuorumPoint(arrivals, quorum);
    if n < p {
      SuccessesMonotone(arrivals, n, p - 1);
    } else if p < n {
      SuccessesMonotone(arrivals, p, n - 1);
    }
  }
}
