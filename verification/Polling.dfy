/** The bounded retry loops around one core.

    A core is a reply stream: `stream(k)` is what its `k`-th call would return. */
module Polling {
  import opened Wrappers

  datatype Reply<+T> = Ready(value: T) | Unavailable | Rejected

  type Stream<!T> = nat -> Reply<T>

  /** The index of the last call made when at most `retries` retries follow the first call. */
  function LastCall<T>(stream: Stream<T>, retries: nat): (k: nat)
    ensures k <= retries
    ensures forall j: nat :: j < k ==> stream(j).Unavailable?
    ensures k < retries ==> !stream(k).Unavailable?
  {
    if retries == 0 then 0
    else
      var k := LastCall(stream, retries - 1);
      if stream(k).Unavailable? then retries else k
  }

  /** What a caller of a polling loop sees: the value of the last reply, if it is one. */
  function Answer<T>(reply: Reply<T>): Option<T> {
    match reply
    case Ready(v) => Some(v)
    case _ => None
  }

  /** The loop used for decryption, key generation, preprocessing and CRS results:
      the counter is checked before the next call. */
  method PollThenBail<T>(stream: Stream<T>, maxIter: nat) returns (answer: Option<T>, calls: nat)
    ensures calls == LastCall(stream, maxIter) + 1
    ensures answer == Answer(stream(LastCall(stream, maxIter)))
  {
    var response := stream(0);
    calls := 1;
    var ctr := 0;
    while response.Unavailable?
      invariant 0 <= ctr <= maxIter
      invariant calls == ctr + 1
      invariant response == stream(ctr)
      invariant forall j: nat :: j < ctr ==> stream(j).Unavailable?
      decreases maxIter - ctr
    {
      if ctr >= maxIter {
        return None, calls;
      }
      ctr := ctr + 1;
      response := stream(ctr);
      calls := calls + 1;
    }
    answer := Answer(response);
  }

  /** The loop used for epoch results: the counter is checked after the next call. */
  method PollThenBreak<T>(stream: Stream<T>, maxIter: nat) returns (answer: Option<T>, calls: nat)
    ensures calls == LastCall(stream, if maxIter == 0 then 1 else maxIter) + 1
    ensures answer == Answer(stream(LastCall(stream, if maxIter == 0 then 1 else maxIter)))
  {
    var limit := if maxIter == 0 then 1 else maxIter;
    var response := stream(0);
    calls := 1;
    var ctr := 0;
    while response.Unavailable?
      invariant 0 <= ctr < limit || !response.Unavailable?
      invariant 0 <= ctr <= limit
      invariant calls == ctr + 1
      invariant response == stream(ctr)
      invariant forall j: nat :: j < ctr ==> stream(j).Unavailable?
      decreases limit - ctr
    {
      response := stream(ctr + 1);
      calls := calls + 1;
      ctr := ctr + 1;
      if ctr >= maxIter {
        break;
      }
    }
    answer := Answer(response);
  }

  /** A poll comes back empty exactly when every call it is allowed was unavailable, or the
      first reply that was not is a rejection; otherwise it carries that first reply. */
  lemma {:induction false} AnswerCharacterised<T>(stream: Stream<T>, retries: nat)
    ensures Answer(stream(LastCall(stream, retries))).Some?
       <==> exists k: nat :: k <= retries && stream(k).Ready? && forall j: nat :: j < k ==> stream(j).Unavailable?
    ensures forall k: nat :: k <= retries && !stream(k).Unavailable? && (forall j: nat :: j < k ==> stream(j).Unavailable?)
              ==> k == LastCall(stream, retries)
  {
    var l := LastCall(stream, retries);
    forall k: nat | k <= retries && !stream(k).Unavailable? && forall j: nat :: j < k ==> stream(j).Unavailable?
      ensures k == l
    {
      assert !(l < k) && !(k < l);
    }
  }

  /** Reply number `k` is the first that is not "unavailable", within `retries`, and carries `v`. */
  ghost predicate SettlesOn<T>(stream: Stream<T>, retries: nat, k: nat, v: T) {
    k <= retries && stream(k) == Ready(v) && forall j: nat :: j < k ==> stream(j).Unavailable?
  }

  /** The answer of a polling loop is `v` exactly when the stream settles on `v`. */
  lemma AnswerIff<T>(stream: Stream<T>, retries: nat, v: T)
    ensures Answer(stream(LastCall(stream, retries))) == Some(v) <==> exists k :: SettlesOn(stream, retries, k, v)
  {
    var l := LastCall(stream, retries);
    if Answer(stream(l)) == Some(v) {
      assert SettlesOn(stream, retries, l, v);
    }
    forall k | SettlesOn(stream, retries, k, v) ensures k == l {
      assert !(l < k) && !(k < l);
    }
  }

  /** The two loop shapes make the same calls on a stream exactly when the retry budget is
      positive or the first call already settles the matter. With a budget of zero the
      second shape still retries once. */
  lemma ShapesAgreeIff<T>(stream: Stream<T>, maxIter: nat)
    ensures LastCall(stream, maxIter) == LastCall(stream, if maxIter == 0 then 1 else maxIter)
       <==> maxIter >= 1 || !stream(0).Unavailable?
  {
    if maxIter == 0 {
      assert LastCall(stream, 0) == 0;
      assert LastCall(stream, 1) == if stream(0).Unavailable? then 1 else 0;
    }
  }

  datatype Attempt<+T, +E> = Ok(value: T) | Err(error: E)

  /** The `retry!` macro: returns the first success, or else the last error. It gives up only after
      `count + 2` evaluations, and comes to the last of them exactly when all before it fail. */
  method Retry<T, E>(attempt: nat -> Attempt<T, E>, count: nat) returns (result: Attempt<T, E>, evaluations: nat)
    ensures 1 <= evaluations <= count + 2
    ensures result == attempt(evaluations - 1)
    ensures forall k: nat :: k < evaluations - 1 ==> attempt(k).Err?
    ensures result.Err? ==> evaluations == count + 2
    ensures evaluations == count + 2 <==> forall k: nat :: k < count + 1 ==> attempt(k).Err?
    ensures result.Err? <==> forall k: nat :: k < count + 2 ==> attempt(k).Err?
  {
    var retries := 0;
    evaluations := 0;
    while true
      invariant retries == evaluations <= count + 1
      invariant forall k: nat :: k < evaluations ==> attempt(k).Err?
      decreases count + 2 - evaluations
    {
      result := attempt(evaluations);
      evaluations := evaluations + 1;
      if result.Ok? {
        return;
      } else if retries > count {
        return;
      }
      retries := retries + 1;
    }
  }
}
