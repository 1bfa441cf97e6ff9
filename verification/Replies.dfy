/** Joined tasks and the replies among them: how many there are, which ones are the earliest, and
    at which join they came in. */
module Replies {
  import opened Cores
  import opened Sequences

  datatype TaskResult<+T> = Reply(value: T) | Failed | Panicked

  /** A joined task: the core it polled and how it went. */
  datatype Arrival<+T> = Arrival(core: CoreConf, result: TaskResult<T>)

  // -------------------------------------------------------------------------
  // The replies in arrival order
  // -------------------------------------------------------------------------

  /** The arrivals that carry a reply, in arrival order. */
  function Successes<T>(arrivals: seq<Arrival<T>>): seq<Arrival<T>> {
    if arrivals == [] then []
    else
      var last := arrivals[|arrivals| - 1];
      Successes(arrivals[..|arrivals| - 1]) + if last.result.Reply? then [last] else []
  }

  lemma {:induction false} SuccessesOfPrefix<T>(arrivals: seq<Arrival<T>>, k: nat)
    requires k <= |arrivals|
    ensures Successes(arrivals[..k]) <= Successes(arrivals)
  {
    if k < |arrivals| {
      var init := arrivals[..|arrivals| - 1];
      SuccessesOfPrefix(init, k);
      assert init[..k] == arrivals[..k];
    } else {
      assert arrivals[..k] == arrivals;
    }
  }

  lemma {:induction false} SuccessesCount<T>(arrivals: seq<Arrival<T>>, a: Arrival<T>)
    ensures multiset(Successes(arrivals))[a] == if a.result.Reply? then multiset(arrivals)[a] else 0
  {
    if arrivals != [] {
      var init, last := arrivals[..|arrivals| - 1], arrivals[|arrivals| - 1];
      SuccessesCount(init, a);
      assert arrivals == init + [last];
    }
  }

  /** Which replies arrive does not depend on the order in which tasks finish. */
  lemma SuccessesUnderReordering<T>(a: seq<Arrival<T>>, b: seq<Arrival<T>>)
    requires multiset(a) == multiset(b)
    ensures multiset(Successes(a)) == multiset(Successes(b))
    ensures |Successes(a)| == |Successes(b)|
  {
    forall x | x in Successes(a) || x in Successes(b)
      ensures multiset(Successes(a))[x] == multiset(Successes(b))[x]
    {
      SuccessesCount(a, x);
      SuccessesCount(b, x);
    }
    SameCounts(Successes(a), Successes(b));
  }

  lemma {:induction false} SuccessesAreReplies<T>(arrivals: seq<Arrival<T>>)
    ensures forall a :: a in Successes(arrivals) ==> a.result.Reply? && a in arrivals
  {
    if arrivals != [] {
      SuccessesAreReplies(arrivals[..|arrivals| - 1]);
    }
  }

  lemma {:induction false} AllReply<T>(arrivals: seq<Arrival<T>>)
    ensures |Successes(arrivals)| <= |arrivals|
    ensures |Successes(arrivals)| == |arrivals| <==> forall a :: a in arrivals ==> a.result.Reply?
  {
    if arrivals != [] {
      var init, last := arrivals[..|arrivals| - 1], arrivals[|arrivals| - 1];
      AllReply(init);
      assert arrivals == init + [last];
    }
  }

  lemma SuccessesMonotone<T>(arrivals: seq<Arrival<T>>, i: nat, j: nat)
    requires i <= j <= |arrivals|
    ensures |Successes(arrivals[..i])| <= |Successes(arrivals[..j])|
  {
    SuccessesOfPrefix(arrivals[..j], i);
    assert arrivals[..j][..i] == arrivals[..i];
  }

  lemma {:induction false} SuccessesAppend<T>(a: seq<Arrival<T>>, b: seq<Arrival<T>>)
    ensures Successes(a + b) == Successes(a) + Successes(b)
  {
    if b == [] {
      assert a + b == a;
    } else {
      SuccessesAppend(a, b[..|b| - 1]);
      assert (a + b)[..|a + b| - 1] == a + b[..|b| - 1];
    }
  }

  // -------------------------------------------------------------------------
  // Counting
  // -------------------------------------------------------------------------

  function CountTrue(s: seq<bool>): nat {
    if s == [] then 0 else CountTrue(s[..|s| - 1]) + if s[|s| - 1] then 1 else 0
  }

  /** The positions of `s` that are true. */
  ghost function TruePositions(s: seq<bool>): set<int> {
    set i | 0 <= i < |s| && s[i]
  }

  lemma {:induction false} CountTrueIsSize(s: seq<bool>)
    ensures CountTrue(s) == |TruePositions(s)|
  {
    if s == [] {
      assert TruePositions(s) == {};
    } else {
      var n := |s| - 1;
      CountTrueIsSize(s[..n]);
      assert TruePositions(s) == TruePositions(s[..n]) + if s[n] then {n} else {};
    }
  }

  /** The joins that brought a reply. */
  ghost function ReplyPositions<T>(arrivals: seq<Arrival<T>>): set<int> {
    set i | 0 <= i < |arrivals| && arrivals[i].result.Reply?
  }

  lemma {:induction false} SuccessesSize<T>(arrivals: seq<Arrival<T>>)
    ensures |Successes(arrivals)| == |ReplyPositions(arrivals)|
  {
    if arrivals == [] {
      assert ReplyPositions(arrivals) == {};
    } else {
      var n := |arrivals| - 1;
      SuccessesSize(arrivals[..n]);
      assert ReplyPositions(arrivals) == ReplyPositions(arrivals[..n]) + if arrivals[n].result.Reply? then {n} else {};
    }
  }

  // -------------------------------------------------------------------------
  // The earliest replies
  // -------------------------------------------------------------------------

  /** The joins `ps` brought replies, in this order, and no reply came before the last of them
      that is not among them. */
  ghost predicate Earliest<T>(arrivals: seq<Arrival<T>>, ps: seq<nat>) {
    && (forall k :: 0 <= k < |ps| ==> 0 <= ps[k] < |arrivals| && arrivals[ps[k]].result.Reply?)
    && Ascending(ps)
    && (forall i, k :: 0 <= k < |ps| && 0 <= i <= ps[k] && arrivals[i].result.Reply? ==> i in ps)
  }

  /** The joins that brought a reply, in order. */
  function Positions<T>(arrivals: seq<Arrival<T>>): seq<nat> {
    if arrivals == [] then []
    else Positions(arrivals[..|arrivals| - 1]) + if arrivals[|arrivals| - 1].result.Reply? then [|arrivals| - 1] else []
  }

  /** `found` are the arrivals at `ps`. */
  ghost predicate FoundAt<T>(arrivals: seq<Arrival<T>>, ps: seq<nat>, found: seq<Arrival<T>>) {
    |ps| == |found| && forall k :: 0 <= k < |ps| ==> ps[k] < |arrivals| && arrivals[ps[k]] == found[k]
  }

  ghost predicate Ascending(ps: seq<nat>) {
    forall j, k :: 0 <= j < k < |ps| ==> ps[j] < ps[k]
  }

  ghost predicate CoversReplies<T>(arrivals: seq<Arrival<T>>, ps: seq<nat>) {
    forall i :: 0 <= i < |arrivals| && arrivals[i].result.Reply? ==> i in ps
  }

  lemma FoundMore<T>(init: seq<Arrival<T>>, last: Arrival<T>, ps: seq<nat>, found: seq<Arrival<T>>)
    requires FoundAt(init, ps, found)
    ensures FoundAt(init + [last], ps, found) && FoundAt(init + [last], ps + [|init|], found + [last])
  {
  }

  lemma AscendingMore<T>(init: seq<Arrival<T>>, ps: seq<nat>, found: seq<Arrival<T>>)
    requires FoundAt(init, ps, found) && Ascending(ps)
    ensures Ascending(ps + [|init|])
  {
  }

  lemma CoversMore<T>(init: seq<Arrival<T>>, last: Arrival<T>, ps: seq<nat>)
    requires CoversReplies(init, ps)
    ensures CoversReplies(init + [last], ps + if last.result.Reply? then [|init|] else [])
  {
    var all := ps + if last.result.Reply? then [|init|] else [];
    forall i | 0 <= i < |init + [last]| && (init + [last])[i].result.Reply? ensures i in all {
      if i < |init| {
        assert init[i].result.Reply?;
        assert i in ps;
      } else {
        assert all[|ps|] == i;
      }
    }
  }

  lemma SuccessesLast<T>(init: seq<Arrival<T>>, last: Arrival<T>)
    ensures Successes(init + [last]) == Successes(init) + if last.result.Reply? then [last] else []
    ensures Positions(init + [last]) == Positions(init) + if last.result.Reply? then [|init|] else []
  {
    assert (init + [last])[..|init|] == init;
  }

  lemma {:induction false} PositionsLocate<T>(arrivals: seq<Arrival<T>>)
    ensures FoundAt(arrivals, Positions(arrivals), Successes(arrivals))
    ensures Ascending(Positions(arrivals)) && CoversReplies(arrivals, Positions(arrivals))
  {
    if arrivals != [] {
      var init, last := arrivals[..|arrivals| - 1], arrivals[|arrivals| - 1];
      assert init + [last] == arrivals;
      PositionsLocate(init);
      SuccessesLast(init, last);
      FoundMore(init, last, Positions(init), Successes(init));
      AscendingMore(init, Positions(init), Successes(init));
      CoversMore(init, last, Positions(init));
    }
  }

  lemma InPrefix(ps: seq<nat>, n: nat, i: int, k: nat)
    requires n <= |ps| && k < n && i in ps && i <= ps[k]
    requires Ascending(ps)
    ensures i in ps[..n]
  {
    var m :| 0 <= m < |ps| && ps[m] == i;
    assert m <= k;
    assert ps[..n][m] == i;
  }

  lemma PrefixIsEarliest<T>(arrivals: seq<Arrival<T>>, n: nat)
    requires n <= |Positions(arrivals)|
    ensures Earliest(arrivals, Positions(arrivals)[..n])
  {
    var all := Positions(arrivals);
    PositionsLocate(arrivals);
    SuccessesAreReplies(arrivals);
    forall k | 0 <= k < n ensures arrivals[all[k]].result.Reply? {
      assert Successes(arrivals)[k] in Successes(arrivals);
    }
    forall i, k | 0 <= k < n && 0 <= i <= all[k] && arrivals[i].result.Reply? ensures i in all[..n] {
      InPrefix(all, n, i, k);
    }
  }

  /** The replies of a prefix are the first positions. */
  lemma {:induction false} PositionsOfPrefix<T>(arrivals: seq<Arrival<T>>, m: nat)
    requires m <= |arrivals|
    ensures Positions(arrivals[..m]) <= Positions(arrivals)
  {
    if m < |arrivals| {
      var init := arrivals[..|arrivals| - 1];
      PositionsOfPrefix(init, m);
      assert init[..m] == arrivals[..m];
    } else {
      assert arrivals[..m] == arrivals;
    }
  }

  /** The join that brings the number of replies to `quorum` is the position of that reply. */
  lemma PositionOfLast<T>(arrivals: seq<Arrival<T>>, quorum: nat, n: nat)
    requires 1 <= n <= |arrivals| && 1 <= quorum
    requires |Successes(arrivals[..n])| == quorum && |Successes(arrivals[..n - 1])| == quorum - 1
    ensures quorum <= |Positions(arrivals)| && Positions(arrivals)[quorum - 1] == n - 1
  {
    var prefix := arrivals[..n];
    assert prefix[..n - 1] == arrivals[..n - 1];
    PositionsLocate(prefix);
    PositionsLocate(arrivals[..n - 1]);
    PositionsOfPrefix(arrivals, n);
  }

  // -------------------------------------------------------------------------
  // What is handed over
  // -------------------------------------------------------------------------

  ghost predicate Inside<T>(arrivals: seq<Arrival<T>>, ps: seq<nat>) {
    forall k :: 0 <= k < |ps| ==> 0 <= ps[k] < |arrivals|
  }

  ghost function Picked<T>(arrivals: seq<Arrival<T>>, ps: seq<nat>): (r: seq<Arrival<T>>)
    requires Inside(arrivals, ps)
    ensures |r| == |ps| && forall k :: 0 <= k < |r| ==> r[k] == arrivals[ps[k]]
  {
    seq(|ps|, k requires 0 <= k < |ps| => arrivals[ps[k]])
  }

  /** The responses are the values of these arrivals. */
  ghost predicate ValuesOf<T>(kept: seq<Arrival<T>>, responses: seq<T>) {
    |kept| == |responses| && forall i :: 0 <= i < |kept| ==> kept[i].result == Reply(responses[i])
  }

  ghost predicate PartiesInOrder<T>(kept: seq<Arrival<T>>) {
    forall i, j :: 0 <= i < j < |kept| ==> kept[i].core.partyId <= kept[j].core.partyId
  }

  /** The responses are the values of the `n` earliest replies, in arrival order, and `latency` is
      the clock at the join that brought the last of them. */
  ghost predicate HandsOver<T>(arrivals: seq<Arrival<T>>, n: nat, clock: nat -> nat, responses: seq<T>, latency: nat) {
    exists ps: seq<nat> ::
      && Earliest(arrivals, ps) && Inside(arrivals, ps) && |ps| == n >= 1
      && ValuesOf(Picked(arrivals, ps), responses) && latency == clock(ps[n - 1])
  }

  /** `kept` are the arrivals at `ps`, sorted by party. */
  ghost predicate Sorts<T>(arrivals: seq<Arrival<T>>, ps: seq<nat>, kept: seq<Arrival<T>>) {
    Inside(arrivals, ps) && multiset(kept) == multiset(Picked(arrivals, ps)) && PartiesInOrder(kept)
  }

  /** The responses are the values of the `n` earliest replies, sorted by party, and `latency` is
      the clock at the join that brought the last of them. */
  ghost predicate HandsOverSorted<T(!new)>(
      arrivals: seq<Arrival<T>>, n: nat, clock: nat -> nat, responses: seq<T>, latency: nat)
  {
    exists ps: seq<nat>, kept: seq<Arrival<T>> ::
      && Earliest(arrivals, ps) && |ps| == n >= 1 && Sorts(arrivals, ps, kept)
      && ValuesOf(kept, responses) && latency == clock(ps[n - 1])
  }

  lemma FirstSuccesses<T>(arrivals: seq<Arrival<T>>, n: nat)
    requires n <= |Successes(arrivals)|
    ensures n <= |Positions(arrivals)|
    ensures var ps := Positions(arrivals)[..n];
            Earliest(arrivals, ps) && Inside(arrivals, ps) && Picked(arrivals, ps) == Successes(arrivals)[..n]
  {
    PositionsLocate(arrivals);
    PrefixIsEarliest(arrivals, n);
  }

  lemma HandOver<T>(arrivals: seq<Arrival<T>>, n: nat, clock: nat -> nat, responses: seq<T>)
    requires 1 <= n <= |Successes(arrivals)| && ValuesOf(Successes(arrivals)[..n], responses)
    ensures n <= |Positions(arrivals)|
    ensures HandsOver(arrivals, n, clock, responses, clock(Positions(arrivals)[n - 1]))
  {
    FirstSuccesses(arrivals, n);
    var ps := Positions(arrivals)[..n];
    assert Earliest(arrivals, ps) && ps[n - 1] == Positions(arrivals)[n - 1];
  }

  lemma HandOverSorted<T(!new)>(
      arrivals: seq<Arrival<T>>, n: nat, clock: nat -> nat, kept: seq<Arrival<T>>, responses: seq<T>)
    requires 1 <= n <= |Successes(arrivals)| && multiset(kept) == multiset(Successes(arrivals)[..n])
    requires PartiesInOrder(kept) && ValuesOf(kept, responses)
    ensures n <= |Positions(arrivals)|
    ensures HandsOverSorted(arrivals, n, clock, responses, clock(Positions(arrivals)[n - 1]))
  {
    FirstSuccesses(arrivals, n);
    var ps := Positions(arrivals)[..n];
    assert Earliest(arrivals, ps) && Sorts(arrivals, ps, kept) && ps[n - 1] == Positions(arrivals)[n - 1];
  }

  // -------------------------------------------------------------------------
  // What is handed over is determined
  // -------------------------------------------------------------------------

  /** Two lists of earliest replies agree at `k` if they agree before it. */
  lemma NotBefore<T>(arrivals: seq<Arrival<T>>, ps: seq<nat>, qs: seq<nat>, k: nat)
    requires Earliest(arrivals, ps) && Earliest(arrivals, qs) && k < |ps| && k < |qs|
    requires forall m :: 0 <= m < k ==> ps[m] == qs[m]
    ensures qs[k] <= ps[k]
  {
  }

  lemma {:induction false} EarliestAgree<T>(arrivals: seq<Arrival<T>>, ps: seq<nat>, qs: seq<nat>, k: nat)
    requires Earliest(arrivals, ps) && Earliest(arrivals, qs) && k <= |ps| && k <= |qs|
    ensures forall m :: 0 <= m < k ==> ps[m] == qs[m]
  {
    if k > 0 {
      EarliestAgree(arrivals, ps, qs, k - 1);
      NotBefore(arrivals, ps, qs, k - 1);
      NotBefore(arrivals, qs, ps, k - 1);
    }
  }

  lemma EarliestIsUnique<T>(arrivals: seq<Arrival<T>>, ps: seq<nat>, qs: seq<nat>)
    requires Earliest(arrivals, ps) && Earliest(arrivals, qs) && |ps| == |qs|
    ensures ps == qs
  {
    EarliestAgree(arrivals, ps, qs, |ps|);
  }

  lemma SameValues<T>(kept: seq<Arrival<T>>, a: seq<T>, b: seq<T>)
    requires ValuesOf(kept, a) && ValuesOf(kept, b)
    ensures a == b
  {
    forall i | 0 <= i < |a| ensures a[i] == b[i] {
      assert kept[i].result == Reply(a[i]) && kept[i].result == Reply(b[i]);
    }
  }
}
