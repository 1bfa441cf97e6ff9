/** Sets of spawned tasks, joined in whatever order they finish. */
module Tasks {
  import opened Wrappers
  import opened Sequences

  /** `join_next`: some pending task, and the tasks that stay pending. */
  method JoinNext<T>(pending: seq<T>) returns (task: T, rest: seq<T>)
    requires pending != []
    ensures |rest| == |pending| - 1 && multiset(pending) == multiset(rest) + multiset{task}
  {
    var k :| 0 <= k < |pending|;
    TakeOut(pending, k);
    task, rest := pending[k], pending[..k] + pending[k + 1..];
  }

  lemma Moved<T>(all: multiset<T>, done: seq<T>, pending: seq<T>, task: T, rest: seq<T>)
    requires all == multiset(done) + multiset(pending) && multiset(pending) == multiset(rest) + multiset{task}
    ensures all == multiset(done + [task]) + multiset(rest)
  {
  }

  lemma NoneLeft<T>(tasks: seq<T>, done: seq<T>)
    requires multiset(tasks) == multiset(done) + multiset([])
    ensures multiset(tasks) == multiset(done)
  {
  }

  lemma SameMembers<T>(a: seq<T>, b: seq<T>)
    requires multiset(a) == multiset(b)
    ensures forall x :: x in a <==> x in b
  {
    forall x ensures x in a <==> x in b {
      assert x in multiset(a) <==> x in multiset(b);
    }
  }

  ghost predicate All<T>(ok: T -> bool, tasks: seq<T>) {
    forall t :: t in tasks ==> ok(t)
  }

  lemma MemberOfAll<T>(all: multiset<T>, done: seq<T>, rest: seq<T>, tasks: seq<T>, task: T)
    requires all == multiset(tasks) == multiset(done) + multiset(rest) + multiset{task}
    ensures task in tasks
  {
    assert task in multiset(tasks);
  }

  /** Joins every task and keeps the values; the first failure ends the loop. Whatever the order,
      it succeeds exactly when all tasks do, with one value per task. */
  method JoinAll<T, U>(tasks: seq<T>, ok: T -> bool, value: T -> U) returns (r: Option<seq<U>>)
    ensures r.Some? <==> All(ok, tasks)
    ensures r.Some? ==> multiset(r.value) == multiset(Map(value, tasks))
  {
    var pending, values := tasks, [];
    ghost var done: seq<T> := [];
    while pending != []
      invariant multiset(tasks) == multiset(done) + multiset(pending)
      invariant values == Map(value, done) && All(ok, done)
      decreases |pending|
    {
      var task, rest := JoinNext(pending);
      if !ok(task) {
        MemberOfAll(multiset(tasks), done, rest, tasks, task);
        return None;
      }
      Moved(multiset(tasks), done, pending, task, rest);
      MapAppend(value, done, [task]);
      pending, values, done := rest, values + [value(task)], done + [task];
    }
    NoneLeft(tasks, done);
    SameMembers(tasks, done);
    MapUnderReordering(value, done, tasks);
    return Some(values);
  }

  // -------------------------------------------------------------------------
  // Counting failures
  // -------------------------------------------------------------------------

  function Filter<T>(keep: T -> bool, s: seq<T>): seq<T> {
    if s == [] then []
    else Filter(keep, s[..|s| - 1]) + if keep(s[|s| - 1]) then [s[|s| - 1]] else []
  }

  lemma {:induction false} FilterSize<T>(keep: T -> bool, s: seq<T>)
    ensures |Filter(keep, s)| <= |s|
    ensures |Filter(keep, s)| == |s| <==> All(keep, s)
  {
    if s != [] {
      var init, last := s[..|s| - 1], s[|s| - 1];
      FilterSize(keep, init);
      assert s == init + [last];
    }
  }

  lemma {:induction false} FilterCount<T>(keep: T -> bool, s: seq<T>, x: T)
    ensures multiset(Filter(keep, s))[x] == if keep(x) then multiset(s)[x] else 0
  {
    if s != [] {
      var init, last := s[..|s| - 1], s[|s| - 1];
      FilterCount(keep, init, x);
      assert s == init + [last];
    }
  }

  lemma FilterUnderReordering<T>(keep: T -> bool, a: seq<T>, b: seq<T>)
    requires multiset(a) == multiset(b)
    ensures multiset(Filter(keep, a)) == multiset(Filter(keep, b))
  {
    forall x | x in Filter(keep, a) || x in Filter(keep, b)
      ensures multiset(Filter(keep, a))[x] == multiset(Filter(keep, b))[x]
    {
      FilterCount(keep, a, x);
      FilterCount(keep, b, x);
    }
    SameCounts(Filter(keep, a), Filter(keep, b));
  }

  lemma FilterNext<T, U>(keep: T -> bool, value: T -> U, done: seq<T>, task: T)
    ensures Map(value, Filter(keep, done + [task]))
         == Map(value, Filter(keep, done)) + if keep(task) then [value(task)] else []
  {
    assert (done + [task])[..|done|] == done;
    if keep(task) {
      MapAppend(value, Filter(keep, done), [task]);
    }
  }

  lemma FilterDone<T, U>(keep: T -> bool, value: T -> U, tasks: seq<T>, done: seq<T>)
    requires multiset(tasks) == multiset(done)
    ensures multiset(Map(value, Filter(keep, done))) == multiset(Map(value, Filter(keep, tasks)))
    ensures |Filter(keep, done)| == |tasks| <==> All(keep, tasks)
  {
    FilterUnderReordering(keep, done, tasks);
    MapUnderReordering(value, Filter(keep, done), Filter(keep, tasks));
    FilterSize(keep, done);
    SameSize(done, tasks);
    SameMembers(tasks, done);
  }

  /** Joins every task, keeps the values of those that succeed and counts the others. */
  method JoinCounting<T, U>(tasks: seq<T>, ok: T -> bool, value: T -> U) returns (values: seq<U>, failed: nat)
    ensures multiset(values) == multiset(Map(value, Filter(ok, tasks)))
    ensures |values| + failed == |tasks|
    ensures failed == 0 <==> All(ok, tasks)
  {
    var pending := tasks;
    ghost var done: seq<T> := [];
    values, failed := [], 0;
    while pending != []
      invariant multiset(tasks) == multiset(done) + multiset(pending)
      invariant |done| + |pending| == |tasks| && |values| + failed == |done|
      invariant values == Map(value, Filter(ok, done))
      decreases |pending|
    {
      var task, rest := JoinNext(pending);
      Moved(multiset(tasks), done, pending, task, rest);
      FilterNext(ok, value, done, task);
      if ok(task) {
        values := values + [value(task)];
      } else {
        failed := failed + 1;
      }
      pending, done := rest, done + [task];
    }
    NoneLeft(tasks, done);
    FilterDone(ok, value, tasks, done);
  }
}
