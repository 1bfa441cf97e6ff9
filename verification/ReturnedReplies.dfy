/** When what a collector returns depends on the order in which the cores answer. */
module ReturnedReplies {
  import opened Cores
  import opened Replies
  import opened Sequences
  import opened Quorum

  /** Every answering core gives the same reply. */
  ghost predicate RepliesAgree<T>(cores: seq<CoreConf>, behaviour: CoreConf -> Behaviour<T>, maxIter: nat) {
    forall x, y :: x in cores && y in cores && Answers(x, behaviour, maxIter) && Answers(y, behaviour, maxIter) ==>
      CoreTask(x, behaviour(x), maxIter).result == CoreTask(y, behaviour(y), maxIter).result
  }

  ghost predicate ResultsAgree<T>(cores: seq<CoreConf>, behaviour: CoreConf -> Behaviour<T>, maxIter: nat) {
    forall x, y :: x in cores && y in cores && HasReply(x, behaviour, maxIter) && HasReply(y, behaviour, maxIter) ==>
      CoreTask(x, behaviour(x), maxIter).result == CoreTask(y, behaviour(y), maxIter).result
  }

  lemma AgreementOfResults<T>(cores: seq<CoreConf>, behaviour: CoreConf -> Behaviour<T>, maxIter: nat)
    ensures RepliesAgree(cores, behaviour, maxIter) <==> ResultsAgree(cores, behaviour, maxIter)
  {
    forall c ensures Answers(c, behaviour, maxIter) <==> HasReply(c, behaviour, maxIter) {
      AnswersIsReply(c, behaviour, maxIter);
    }
  }

  // -------------------------------------------------------------------------
  // Agreeing replies
  // -------------------------------------------------------------------------

  lemma KeptFromCores<T>(
      cores: seq<CoreConf>, order: seq<CoreConf>, behaviour: CoreConf -> Behaviour<T>, maxIter: nat, quorum: nat,
      a: Arrival<T>)
    requires multiset(order) == multiset(cores)
    requires Collected(Arrivals(order, behaviour, maxIter), quorum).Some?
    requires a in Collected(Arrivals(order, behaviour, maxIter), quorum).value
    ensures a.core in cores && a.result.Reply? && a == CoreTask(a.core, behaviour(a.core), maxIter)
  {
    var arrivals := Arrivals(order, behaviour, maxIter);
    CollectedAreReplies(arrivals, quorum);
    var i :| 0 <= i < |arrivals| && arrivals[i] == a;
    assert order[i] in multiset(order);
  }

  lemma AgreeingReturnsMatch<T>(
      cores: seq<CoreConf>, a: seq<CoreConf>, b: seq<CoreConf>, behaviour: CoreConf -> Behaviour<T>, maxIter: nat,
      quorum: nat)
    requires multiset(a) == multiset(b) == multiset(cores) && Distinct(cores)
    requires ResultsAgree(cores, behaviour, maxIter)
    ensures Returned(Arrivals(a, behaviour, maxIter), quorum) == Returned(Arrivals(b, behaviour, maxIter), quorum)
  {
    QuorumMetIffEnoughAnswer(cores, a, behaviour, maxIter, quorum);
    QuorumMetIffEnoughAnswer(cores, b, behaviour, maxIter, quorum);
    if |Answering(cores, behaviour, maxIter)| >= quorum {
      CollectedAreReplies(Arrivals(a, behaviour, maxIter), quorum);
      CollectedAreReplies(Arrivals(b, behaviour, maxIter), quorum);
      var ka := Collected(Arrivals(a, behaviour, maxIter), quorum).value;
      var kb := Collected(Arrivals(b, behaviour, maxIter), quorum).value;
      forall i | 0 <= i < quorum ensures Values(ka)[i] == Values(kb)[i] {
        KeptFromCores(cores, a, behaviour, maxIter, quorum, ka[i]);
        KeptFromCores(cores, b, behaviour, maxIter, quorum, kb[i]);
        assert HasReply(ka[i].core, behaviour, maxIter) && HasReply(kb[i].core, behaviour, maxIter);
      }
      assert Values(ka) == Values(kb);
    }
  }

  // -------------------------------------------------------------------------
  // Two orders that differ in one core that is heard
  // -------------------------------------------------------------------------

  /** `first` is heard before all others and `last` after them. */
  function Between(first: CoreConf, others: seq<CoreConf>, last: CoreConf): seq<CoreConf> {
    [first] + others + [last]
  }

  lemma SuccessesBetween<T>(
      first: CoreConf, others: seq<CoreConf>, last: CoreConf, behaviour: CoreConf -> Behaviour<T>, maxIter: nat)
    requires HasReply(first, behaviour, maxIter) && HasReply(last, behaviour, maxIter)
    ensures Successes(Arrivals(Between(first, others, last), behaviour, maxIter))
         == [CoreTask(first, behaviour(first), maxIter)] + Successes(Arrivals(others, behaviour, maxIter))
            + [CoreTask(last, behaviour(last), maxIter)]
  {
    var x, y := CoreTask(first, behaviour(first), maxIter), CoreTask(last, behaviour(last), maxIter);
    var rest := Arrivals(others, behaviour, maxIter);
    assert Arrivals(Between(first, others, last), behaviour, maxIter) == [x] + rest + [y];
    SuccessesAppend([x] + rest, [y]);
    SuccessesAppend([x], rest);
  }

  function ResultOf<T>(a: Arrival<T>): TaskResult<T> {
    a.result
  }

  /** The results that are kept, up to order, when `first` is heard first and enough others answer. */
  lemma KeptBetween<T>(
      first: CoreConf, others: seq<CoreConf>, last: CoreConf, behaviour: CoreConf -> Behaviour<T>, maxIter: nat,
      quorum: nat)
    requires HasReply(first, behaviour, maxIter) && HasReply(last, behaviour, maxIter)
    requires 1 <= quorum <= |Successes(Arrivals(others, behaviour, maxIter))| + 1
    ensures var kept := Collected(Arrivals(Between(first, others, last), behaviour, maxIter), quorum);
            && kept.Some?
            && multiset(Map(ResultOf, kept.value))
            == multiset{CoreTask(first, behaviour(first), maxIter).result}
               + multiset(Map(ResultOf, Successes(Arrivals(others, behaviour, maxIter))[..quorum - 1]))
  {
    var arrivals := Arrivals(Between(first, others, last), behaviour, maxIter);
    var x, s := CoreTask(first, behaviour(first), maxIter), Successes(Arrivals(others, behaviour, maxIter));
    SuccessesBetween(first, others, last, behaviour, maxIter);
    var heard := Successes(arrivals)[..quorum];
    assert heard == [x] + s[..quorum - 1];
    MapUnderReordering(ResultOf, Collected(arrivals, quorum).value, heard);
    MapAppend(ResultOf, [x], s[..quorum - 1]);
    assert Map(ResultOf, [x]) == [x.result];
  }

  lemma SameValuesSameResults<T>(a: seq<Arrival<T>>, b: seq<Arrival<T>>)
    requires forall x :: x in a ==> x.result.Reply?
    requires forall x :: x in b ==> x.result.Reply?
    requires Values(a) == Values(b)
    ensures Map(ResultOf, a) == Map(ResultOf, b)
  {
    forall i | 0 <= i < |a| ensures a[i].result == b[i].result {
      assert a[i] in a && b[i] in b;
      assert Values(a)[i] == Values(b)[i];
    }
  }

  lemma CancelRest<T>(x: T, y: T, rest: multiset<T>)
    requires multiset{x} + rest == multiset{y} + rest
    ensures x == y
  {
    assert (multiset{x} + rest)[x] == (multiset{y} + rest)[x];
  }

  /** If exchanging the first and the last core makes no difference to what is returned, their
      replies agree. */
  lemma ExchangeShowsReplies<T>(
      x: CoreConf, others: seq<CoreConf>, y: CoreConf, behaviour: CoreConf -> Behaviour<T>, maxIter: nat, quorum: nat)
    requires HasReply(x, behaviour, maxIter) && HasReply(y, behaviour, maxIter)
    requires 1 <= quorum <= |Successes(Arrivals(others, behaviour, maxIter))| + 1
    requires Returned(Arrivals(Between(x, others, y), behaviour, maxIter), quorum)
          == Returned(Arrivals(Between(y, others, x), behaviour, maxIter), quorum)
    ensures CoreTask(x, behaviour(x), maxIter).result == CoreTask(y, behaviour(y), maxIter).result
  {
    KeptBetween(x, others, y, behaviour, maxIter, quorum);
    KeptBetween(y, others, x, behaviour, maxIter, quorum);
    var a, b := Arrivals(Between(x, others, y), behaviour, maxIter), Arrivals(Between(y, others, x), behaviour, maxIter);
    CollectedAreReplies(a, quorum);
    CollectedAreReplies(b, quorum);
    SameValuesSameResults(Collected(a, quorum).value, Collected(b, quorum).value);
    CancelRest(CoreTask(x, behaviour(x), maxIter).result, CoreTask(y, behaviour(y), maxIter).result,
               multiset(Map(ResultOf, Successes(Arrivals(others, behaviour, maxIter))[..quorum - 1])));
  }

  // -------------------------------------------------------------------------
  // The exact condition
  // -------------------------------------------------------------------------

  function Others(cores: seq<CoreConf>, i: nat, j: nat): seq<CoreConf>
    requires i < j < |cores|
  {
    cores[..i] + cores[i + 1..j] + cores[j + 1..]
  }

  lemma BetweenReorders(cores: seq<CoreConf>, i: nat, j: nat)
    requires i < j < |cores|
    ensures multiset(Between(cores[i], Others(cores, i, j), cores[j])) == multiset(cores)
    ensures multiset(Between(cores[j], Others(cores, i, j), cores[i])) == multiset(cores)
  {
    assert cores == cores[..i] + [cores[i]] + cores[i + 1..j] + [cores[j]] + cores[j + 1..];
  }

  /** What is returned is the same for every order. */
  ghost predicate SameForEveryOrder<T>(
      cores: seq<CoreConf>, behaviour: CoreConf -> Behaviour<T>, maxIter: nat, quorum: nat)
  {
    forall order :: multiset(order) == multiset(cores) ==>
      Returned(Arrivals(order, behaviour, maxIter), quorum) == Returned(Arrivals(cores, behaviour, maxIter), quorum)
  }

  lemma TwoRepliesAgree<T>(
      cores: seq<CoreConf>, behaviour: CoreConf -> Behaviour<T>, maxIter: nat, quorum: nat, i: nat, j: nat)
    requires i < j < |cores| && 1 <= quorum < |Successes(Arrivals(cores, behaviour, maxIter))|
    requires HasReply(cores[i], behaviour, maxIter) && HasReply(cores[j], behaviour, maxIter)
    requires SameForEveryOrder(cores, behaviour, maxIter, quorum)
    ensures CoreTask(cores[i], behaviour(cores[i]), maxIter).result == CoreTask(cores[j], behaviour(cores[j]), maxIter).result
  {
    var x, others, y := cores[i], Others(cores, i, j), cores[j];
    BetweenReorders(cores, i, j);
    OrdersGiveSameReplies(cores, Between(x, others, y), behaviour, maxIter);
    SuccessesBetween(x, others, y, behaviour, maxIter);
    ExchangeShowsReplies(x, others, y, behaviour, maxIter, quorum);
  }

  lemma AnyTwoRepliesAgree<T>(
      cores: seq<CoreConf>, behaviour: CoreConf -> Behaviour<T>, maxIter: nat, quorum: nat, i: nat, j: nat)
    requires i < |cores| && j < |cores| && 1 <= quorum < |Successes(Arrivals(cores, behaviour, maxIter))|
    requires HasReply(cores[i], behaviour, maxIter) && HasReply(cores[j], behaviour, maxIter)
    requires SameForEveryOrder(cores, behaviour, maxIter, quorum)
    ensures CoreTask(cores[i], behaviour(cores[i]), maxIter).result == CoreTask(cores[j], behaviour(cores[j]), maxIter).result
  {
    if i < j {
      TwoRepliesAgree(cores, behaviour, maxIter, quorum, i, j);
    } else if j < i {
      TwoRepliesAgree(cores, behaviour, maxIter, quorum, j, i);
    }
  }

  lemma OrderShowsReplies<T>(cores: seq<CoreConf>, behaviour: CoreConf -> Behaviour<T>, maxIter: nat, quorum: nat)
    requires 1 <= quorum < |Successes(Arrivals(cores, behaviour, maxIter))|
    requires SameForEveryOrder(cores, behaviour, maxIter, quorum)
    ensures ResultsAgree(cores, behaviour, maxIter)
  {
    forall x, y | x in cores && y in cores && HasReply(x, behaviour, maxIter) && HasReply(y, behaviour, maxIter)
      ensures CoreTask(x, behaviour(x), maxIter).result == CoreTask(y, behaviour(y), maxIter).result
    {
      var i :| 0 <= i < |cores| && cores[i] == x;
      var j :| 0 <= j < |cores| && cores[j] == y;
      AnyTwoRepliesAgree(cores, behaviour, maxIter, quorum, i, j);
    }
  }

  lemma FewAnswersReturnTheSame<T>(cores: seq<CoreConf>, behaviour: CoreConf -> Behaviour<T>, maxIter: nat, quorum: nat)
    requires DistinctPartyIds(cores) && |Successes(Arrivals(cores, behaviour, maxIter))| <= quorum
    ensures SameForEveryOrder(cores, behaviour, maxIter, quorum)
  {
    forall order | multiset(order) == multiset(cores)
      ensures Returned(Arrivals(order, behaviour, maxIter), quorum) == Returned(Arrivals(cores, behaviour, maxIter), quorum)
    {
      SameResultForEveryOrder(cores, order, behaviour, maxIter, quorum);
    }
  }

  lemma AgreeingRepliesReturnTheSame<T>(
      cores: seq<CoreConf>, behaviour: CoreConf -> Behaviour<T>, maxIter: nat, quorum: nat)
    requires Distinct(cores) && ResultsAgree(cores, behaviour, maxIter)
    ensures SameForEveryOrder(cores, behaviour, maxIter, quorum)
  {
    forall order | multiset(order) == multiset(cores)
      ensures Returned(Arrivals(order, behaviour, maxIter), quorum) == Returned(Arrivals(cores, behaviour, maxIter), quorum)
    {
      AgreeingReturnsMatch(cores, order, cores, behaviour, maxIter, quorum);
    }
  }

  /** What is returned is the same for every order exactly when at most `quorum` cores answer or
      all answering cores give the same reply. */
  lemma ReturnedOrderIndependentIff<T>(
      cores: seq<CoreConf>, behaviour: CoreConf -> Behaviour<T>, maxIter: nat, quorum: nat)
    requires DistinctPartyIds(cores) && quorum >= 1
    ensures SameForEveryOrder(cores, behaviour, maxIter, quorum)
       <==> |Answering(cores, behaviour, maxIter)| <= quorum || RepliesAgree(cores, behaviour, maxIter)
  {
    assert Distinct(cores);
    AgreementOfResults(cores, behaviour, maxIter);
    SuccessesPerCore(cores, behaviour, maxIter);
    if |Answering(cores, behaviour, maxIter)| <= quorum {
      FewAnswersReturnTheSame(cores, behaviour, maxIter, quorum);
    } else if RepliesAgree(cores, behaviour, maxIter) {
      AgreeingRepliesReturnTheSame(cores, behaviour, maxIter, quorum);
    } else if SameForEveryOrder(cores, behaviour, maxIter, quorum) {
      OrderShowsReplies(cores, behaviour, maxIter, quorum);
    }
  }
}
