/** Checking the cores' answers to a new-epoch request: every core must acknowledge, the
    resharing responses must list the expected keys, and their signatures must verify on the
    material that was fetched and loaded. */
module NewEpoch {
  import opened Wrappers
  import opened Sequences
  import opened Hex
  import opened Identifiers
  import opened Cores
  import opened PublicElements
  import ClientConfig
  import KeyInfo
  import Polling
  import Quorum

  type Signature = seq<Byte>

  /** One entry of a resharing response; the identifiers are optional on the wire. */
  datatype Reshare = Reshare(keyId: Option<string>, preprocId: Option<string>, signature: Signature)

  /** One joined polling task. */
  datatype Joined = TaskFailed | CallFailed | Response(reshares: seq<Reshare>)

  /** A key that is expected to be reshared. */
  datatype Expected = Expected(keyId: Id, preprocId: Id)

  /** What the checks depend on besides the responses: the public elements, and whether a
      signature verifies on the material of a key. */
  datatype World = World(storage: Storage, verify: (Format, Material, Expected, Signature) -> bool)

  function ExpectedOf(keys: seq<KeyInfo.Info>): (r: seq<Expected>)
    ensures |r| == |keys| && forall i :: 0 <= i < |r| ==> r[i] == Expected(keys[i].keyId, keys[i].preprocId)
  {
    seq(|keys|, i requires 0 <= i < |keys| => Expected(keys[i].keyId, keys[i].preprocId))
  }

  // -------------------------------------------------------------------------
  // Accepting a response
  // -------------------------------------------------------------------------

  predicate Names(r: Reshare, e: Expected) {
    r.keyId == Some(Print(e.keyId)) && r.preprocId == Some(Print(e.preprocId))
  }

  /** The response lists exactly the expected keys, in the expected order. */
  ghost predicate Lists(reshares: seq<Reshare>, expected: seq<Expected>) {
    |reshares| == |expected| && forall i :: 0 <= i < |expected| ==> Names(reshares[i], expected[i])
  }

  function KeyTexts(expected: seq<Expected>): (r: seq<string>)
    ensures |r| == |expected| && forall i :: 0 <= i < |r| ==> r[i] == Print(expected[i].keyId)
  {
    seq(|expected|, i requires 0 <= i < |expected| => Print(expected[i].keyId))
  }

  function PreprocTexts(expected: seq<Expected>): (r: seq<string>)
    ensures |r| == |expected| && forall i :: 0 <= i < |r| ==> r[i] == Print(expected[i].preprocId)
  {
    seq(|expected|, i requires 0 <= i < |expected| => Print(expected[i].preprocId))
  }

  /** The identifiers of a response; `None` when one of them is not set. */
  method CollectIds(reshares: seq<Reshare>) returns (r: Option<(seq<string>, seq<string>)>)
    ensures r.Some? <==> forall i :: 0 <= i < |reshares| ==> reshares[i].keyId.Some? && reshares[i].preprocId.Some?
    ensures r.Some? ==>
      && |r.value.0| == |r.value.1| == |reshares|
      && forall i :: 0 <= i < |reshares| ==>
        reshares[i].keyId == Some(r.value.0[i]) && reshares[i].preprocId == Some(r.value.1[i])
  {
    var keyIds: seq<string>, preprocIds: seq<string> := [], [];
    for i := 0 to |reshares|
      invariant |keyIds| == |preprocIds| == i
      invariant forall j :: 0 <= j < i ==>
        reshares[j].keyId == Some(keyIds[j]) && reshares[j].preprocId == Some(preprocIds[j])
    {
      if reshares[i].keyId.None? {
        return None;
      }
      keyIds := keyIds + [reshares[i].keyId.value];
      if reshares[i].preprocId.None? {
        return None;
      }
      preprocIds := preprocIds + [reshares[i].preprocId.value];
    }
    return Some((keyIds, preprocIds));
  }

  method AcceptResponse(reshares: seq<Reshare>, expected: seq<Expected>) returns (ok: bool)
    ensures ok <==> Lists(reshares, expected)
    ensures ok <==>
      && |reshares| == |expected|
      && forall i :: 0 <= i < |expected| ==>
        reshares[i].keyId == Some(Print(expected[i].keyId)) && reshares[i].preprocId == Some(Print(expected[i].preprocId))
  {
    var ids := CollectIds(reshares);
    if ids.None? {
      return false;
    }
    if ids.value.0 != KeyTexts(expected) {
      return false;
    }
    ok := ids.value.1 == PreprocTexts(expected);
  }

  ghost predicate AllAnswered(joins: seq<Joined>) {
    forall i :: 0 <= i < |joins| ==> joins[i].Response?
  }

  function Replies(joins: seq<Joined>): (r: seq<seq<Reshare>>)
    requires AllAnswered(joins)
    ensures |r| == |joins| && forall i :: 0 <= i < |r| ==> joins[i] == Response(r[i])
  {
    seq(|joins|, i requires 0 <= i < |joins| => joins[i].reshares)
  }

  ghost predicate AllList(responses: seq<seq<Reshare>>, expected: seq<Expected>) {
    forall i :: 0 <= i < |responses| ==> Lists(responses[i], expected)
  }

  /** The responses of all tasks; `None` as soon as one task fails or lists other keys. */
  method AcceptAll(joins: seq<Joined>, expected: seq<Expected>) returns (r: Option<seq<seq<Reshare>>>)
    ensures r.Some? <==> AllAnswered(joins) && AllList(Replies(joins), expected)
    ensures r.Some? ==> r.value == Replies(joins)
  {
    var responses: seq<seq<Reshare>> := [];
    for i := 0 to |joins|
      invariant |responses| == i
      invariant forall j :: 0 <= j < i ==> joins[j] == Response(responses[j])
      invariant AllList(responses, expected)
    {
      if !joins[i].Response? {
        return None;
      }
      var ok := AcceptResponse(joins[i].reshares, expected);
      if !ok {
        assert AllAnswered(joins) ==> !Lists(Replies(joins)[i], expected);
        return None;
      }
      responses := responses + [joins[i].reshares];
    }
    return Some(responses);
  }

  // -------------------------------------------------------------------------
  // Checking the signatures
  // -------------------------------------------------------------------------

  /** The first position that expects the same key as position `i`. */
  function First(expected: seq<Expected>, i: nat): (k: nat)
    requires i < |expected|
    ensures k <= i && expected[k] == expected[i]
    ensures forall j :: 0 <= j < k ==> expected[j] != expected[i]
  {
    FirstFrom(expected, i, 0)
  }

  function FirstFrom(expected: seq<Expected>, i: nat, from: nat): (k: nat)
    requires from <= i < |expected|
    requires forall j :: 0 <= j < from ==> expected[j] != expected[i]
    ensures k <= i && expected[k] == expected[i]
    ensures forall j :: 0 <= j < k ==> expected[j] != expected[i]
    decreases i - from
  {
    if expected[from] == expected[i] then from else FirstFrom(expected, i, from + 1)
  }

  lemma SameTextSameKey(a: Expected, b: Expected)
    ensures Print(a.keyId) == Print(b.keyId) && Print(a.preprocId) == Print(b.preprocId) <==> a == b
  {
    ParsePrint(a.keyId);
    ParsePrint(b.keyId);
    ParsePrint(a.preprocId);
    ParsePrint(b.preprocId);
  }

  lemma OnlyOwnEntryIsNamed(reshares: seq<Reshare>, expected: seq<Expected>, j: nat, e: Expected)
    requires Lists(reshares, expected) && j < |expected|
    ensures Names(reshares[j], e) <==> expected[j] == e
  {
    assert Names(reshares[j], expected[j]);
    SameTextSameKey(expected[j], e);
  }

  /** The search for an expected key in an accepted response always succeeds, and finds the
      first position that expects this key. */
  method FindSignature(reshares: seq<Reshare>, expected: seq<Expected>, i: nat) returns (s: Option<Signature>)
    requires Lists(reshares, expected) && i < |expected|
    ensures s == Some(reshares[First(expected, i)].signature)
  {
    for j := 0 to |reshares|
      invariant forall k :: 0 <= k < j ==> expected[k] != expected[i]
    {
      OnlyOwnEntryIsNamed(reshares, expected, j, expected[i]);
      if Names(reshares[j], expected[i]) {
        return Some(reshares[j].signature);
      }
    }
    return None;
  }

  /** The signature that the response gives for the key expected at `i` verifies. */
  predicate Signed(reshares: seq<Reshare>, expected: seq<Expected>, i: nat, l: Loaded, w: World)
    requires i < |expected|
  {
    |reshares| == |expected| && w.verify(l.format, l.material, expected[i], reshares[First(expected, i)].signature)
  }

  /** The material of the key expected at `i` is there, and every response signs it. */
  ghost predicate KeyChecked(responses: seq<seq<Reshare>>, expected: seq<Expected>, i: nat, w: World)
    requires i < |expected|
  {
    && LoadedFor(w.storage, expected[i].keyId).Some?
    && forall r :: 0 <= r < |responses| ==>
      Signed(responses[r], expected, i, LoadedFor(w.storage, expected[i].keyId).value, w)
  }

  method CheckKey(responses: seq<seq<Reshare>>, expected: seq<Expected>, i: nat, w: World) returns (ok: bool)
    requires i < |expected| && AllList(responses, expected)
    ensures ok <==> KeyChecked(responses, expected, i, w)
  {
    var loaded := LoadMaterial(w.storage, expected[i].keyId);
    if loaded.None? {
      return false;
    }
    var l := loaded.value;
    for r := 0 to |responses|
      invariant forall q :: 0 <= q < r ==> Signed(responses[q], expected, i, l, w)
    {
      var signature := FindSignature(responses[r], expected, i);
      if signature.None? {
        return false;
      }
      if !w.verify(l.format, l.material, expected[i], signature.value) {
        assert !Signed(responses[r], expected, i, l, w);
        return false;
      }
    }
    return true;
  }

  /** Resharing succeeds: every response lists the expected keys, and every expected key is
      checked against every response. */
  ghost predicate Reshared(responses: seq<seq<Reshare>>, expected: seq<Expected>, w: World) {
    && AllList(responses, expected)
    && forall i :: 0 <= i < |expected| ==> KeyChecked(responses, expected, i, w)
  }

  method CheckResharing(joins: seq<Joined>, expected: seq<Expected>, w: World) returns (ok: bool)
    ensures ok <==> AllAnswered(joins) && Reshared(Replies(joins), expected, w)
  {
    var accepted := AcceptAll(joins, expected);
    if accepted.None? {
      return false;
    }
    var responses := accepted.value;
    for i := 0 to |expected|
      invariant forall j :: 0 <= j < i ==> KeyChecked(responses, expected, j, w)
    {
      var checked := CheckKey(responses, expected, i, w);
      if !checked {
        return false;
      }
    }
    return true;
  }

  /** Every core acknowledges the request; if all responses are expected, all parties must be
      among them. */
  ghost predicate Acknowledged(acks: seq<bool>, expectAll: bool, numParties: nat) {
    (forall i :: 0 <= i < |acks| ==> acks[i]) && (expectAll ==> |acks| == numParties)
  }

  method CollectAcks(acks: seq<bool>, expectAll: bool, numParties: nat) returns (ok: bool)
    ensures ok <==> Acknowledged(acks, expectAll, numParties)
    ensures ok <==> (forall i :: 0 <= i < |acks| ==> acks[i]) && (expectAll ==> |acks| == numParties)
  {
    var results := 0;
    for i := 0 to |acks|
      invariant results == i && forall j :: 0 <= j < i ==> acks[j]
    {
      if !acks[i] {
        return false;
      }
      results := results + 1;
    }
    ok := expectAll ==> results == numParties;
  }

  /** The joined tasks of a new epoch. Without a previous epoch it is enough that all answered. */
  method CheckJoined(joins: seq<Joined>, previous: Option<seq<KeyInfo.Info>>, w: World) returns (ok: bool)
    ensures ok <==>
      && AllAnswered(joins)
      && (previous.Some? ==> Reshared(Replies(joins), ExpectedOf(previous.value), w))
  {
    if previous.Some? {
      ok := CheckResharing(joins, ExpectedOf(previous.value), w);
      return;
    }
    for i := 0 to |joins|
      invariant forall j :: 0 <= j < i ==> joins[j].Response?
    {
      if !joins[i].Response? {
        return false;
      }
    }
    return true;
  }

  // -------------------------------------------------------------------------
  // Polling the cores
  // -------------------------------------------------------------------------

  /** How a core behaves: its task panics, or it serves a stream of replies. */
  type Behaviour = Quorum.Behaviour<seq<Reshare>>

  /** The response of a core: its first settled reply within the retries, of which there is at
      least one. */
  function EpochResult(b: Behaviour, maxIter: nat): Option<seq<Reshare>> {
    match b
    case Crashes => None
    case Serves(stream) =>
      Polling.Answer(stream(Polling.LastCall(stream, if maxIter == 0 then 1 else maxIter)))
  }

  /** The core is ready with `x` at some call within the retries, of which there is at least one,
      after nothing but "unavailable". */
  ghost predicate Settles(b: Behaviour, maxIter: nat, x: seq<Reshare>) {
    && b.Serves?
    && (exists k: nat :: (k <= maxIter || k <= 1) && b.stream(k) == Polling.Ready(x)
                         && forall j: nat :: j < k ==> b.stream(j).Unavailable?)
  }

  /** The result is exactly what the core settles on. */
  lemma EpochResultIff(b: Behaviour, maxIter: nat, x: seq<Reshare>)
    ensures EpochResult(b, maxIter) == Some(x) <==> Settles(b, maxIter, x)
  {
    if b.Serves? {
      var limit := if maxIter == 0 then 1 else maxIter;
      Polling.AnswerIff(b.stream, limit, x);
      if Settles(b, maxIter, x) {
        var k: nat :| (k <= maxIter || k <= 1) && b.stream(k) == Polling.Ready(x)
          && forall j: nat :: j < k ==> b.stream(j).Unavailable?;
        assert Polling.SettlesOn(b.stream, limit, k, x);
      }
    }
  }

  /** Every core settles on its result. */
  ghost predicate SettleOn(cores: seq<Behaviour>, maxIter: nat, results: seq<seq<Reshare>>) {
    |results| == |cores| && forall i :: 0 <= i < |cores| ==> Settles(cores[i], maxIter, results[i])
  }

  lemma SettleOnIff(cores: seq<Behaviour>, maxIter: nat, results: seq<seq<Reshare>>)
    ensures SettleOn(cores, maxIter, results) <==> AllSettle(cores, maxIter) && results == EpochResults(cores, maxIter)
  {
    if SettleOn(cores, maxIter, results) {
      forall i | 0 <= i < |cores| ensures EpochResult(cores[i], maxIter) == Some(results[i]) {
        EpochResultIff(cores[i], maxIter, results[i]);
      }
      assert AllSettle(cores, maxIter);
    } else if AllSettle(cores, maxIter) && results == EpochResults(cores, maxIter) {
      forall i | 0 <= i < |cores| ensures Settles(cores[i], maxIter, results[i]) {
        EpochResultIff(cores[i], maxIter, results[i]);
      }
    }
  }

  ghost predicate AllSettle(cores: seq<Behaviour>, maxIter: nat) {
    forall i :: 0 <= i < |cores| ==> EpochResult(cores[i], maxIter).Some?
  }

  function EpochResults(cores: seq<Behaviour>, maxIter: nat): (r: seq<seq<Reshare>>)
    requires AllSettle(cores, maxIter)
    ensures |r| == |cores| && forall i :: 0 <= i < |r| ==> EpochResult(cores[i], maxIter) == Some(r[i])
  {
    seq(|cores|, i requires 0 <= i < |cores| => EpochResult(cores[i], maxIter).value)
  }

  /** One polling task, run to its end. */
  method PollEpoch(b: Behaviour, maxIter: nat) returns (j: Joined)
    ensures j.Response? <==> EpochResult(b, maxIter).Some?
    ensures j.Response? ==> EpochResult(b, maxIter) == Some(j.reshares)
    ensures j.Response? ==> Settles(b, maxIter, j.reshares)
    ensures !j.Response? ==> forall x :: !Settles(b, maxIter, x)
  {
    forall x ensures EpochResult(b, maxIter) == Some(x) <==> Settles(b, maxIter, x) {
      EpochResultIff(b, maxIter, x);
    }
    match b
    case Crashes =>
      j := TaskFailed;
    case Serves(stream) =>
      var answer, _ := Polling.PollThenBreak(stream, maxIter);
      match answer
      case Some(reshares) => j := Response(reshares);
      case None => j := CallFailed;
  }

  lemma JoinsAreResults(joins: seq<Joined>, cores: seq<Behaviour>, maxIter: nat)
    requires |joins| == |cores|
    requires forall k :: 0 <= k < |cores| ==>
      && (joins[k].Response? <==> EpochResult(cores[k], maxIter).Some?)
      && (joins[k].Response? ==> EpochResult(cores[k], maxIter) == Some(joins[k].reshares))
    ensures AllAnswered(joins) <==> AllSettle(cores, maxIter)
    ensures AllAnswered(joins) ==> Replies(joins) == EpochResults(cores, maxIter)
  {
    if AllAnswered(joins) {
      forall k | 0 <= k < |cores| ensures EpochResult(cores[k], maxIter) == Some(Replies(joins)[k]) {
        assert joins[k].Response?;
      }
      assert AllSettle(cores, maxIter);
    } else {
      var k :| 0 <= k < |joins| && !joins[k].Response?;
      assert EpochResult(cores[k], maxIter).None?;
    }
  }

  /** Acknowledgements, polling and checking, stated by the result of each core. */
  method PollAndCheck(acks: seq<bool>, expectAll: bool, cores: seq<Behaviour>, maxIter: nat,
                      previous: Option<seq<KeyInfo.Info>>, w: World) returns (ok: bool)
    ensures ok <==>
      && Acknowledged(acks, expectAll, w.storage.conf.numParties) && AllSettle(cores, maxIter)
      && (previous.Some? ==> Reshared(EpochResults(cores, maxIter), ExpectedOf(previous.value), w))
  {
    var acknowledged := CollectAcks(acks, expectAll, w.storage.conf.numParties);
    if !acknowledged {
      return false;
    }
    var joins: seq<Joined> := [];
    for i := 0 to |cores|
      invariant |joins| == i
      invariant forall k :: 0 <= k < i ==>
        && (joins[k].Response? <==> EpochResult(cores[k], maxIter).Some?)
        && (joins[k].Response? ==> EpochResult(cores[k], maxIter) == Some(joins[k].reshares))
    {
      var j := PollEpoch(cores[i], maxIter);
      joins := joins + [j];
    }
    JoinsAreResults(joins, cores, maxIter);
    ok := CheckJoined(joins, previous, w);
  }

  /** The whole command after the request is built, for the order in which the polling tasks
      finish. It succeeds exactly when every core acknowledges, all parties do if all responses are
      expected, every core's stream settles on a response within its retries and, with a previous
      epoch, these responses pass the check. */
  method DoNewEpoch(acks: seq<bool>, expectAll: bool, cores: seq<Behaviour>, maxIter: nat,
                    previous: Option<seq<KeyInfo.Info>>, w: World) returns (ok: bool)
    ensures ok <==>
      && (forall i :: 0 <= i < |acks| ==> acks[i]) && (expectAll ==> |acks| == w.storage.conf.numParties)
      && (exists results :: SettleOn(cores, maxIter, results)
                           && (previous.Some? ==> Reshared(results, ExpectedOf(previous.value), w)))
  {
    ok := PollAndCheck(acks, expectAll, cores, maxIter, previous, w);
    if AllSettle(cores, maxIter) {
      SettleOnIff(cores, maxIter, EpochResults(cores, maxIter));
    }
    forall results | SettleOn(cores, maxIter, results)
      ensures AllSettle(cores, maxIter) && results == EpochResults(cores, maxIter)
    {
      SettleOnIff(cores, maxIter, results);
    }
  }

  // -------------------------------------------------------------------------
  // What success means
  // -------------------------------------------------------------------------

  /** The entry names the key, and its signature verifies on the key's material. */
  ghost predicate EntryVerifies(x: Reshare, e: Expected, w: World) {
    && Names(x, e) && LoadedFor(w.storage, e.keyId).Some?
    && var l := LoadedFor(w.storage, e.keyId).value;
       w.verify(l.format, l.material, e, x.signature)
  }

  ghost predicate EveryEntryVerifies(responses: seq<seq<Reshare>>, expected: seq<Expected>, w: World) {
    forall r, i :: 0 <= r < |responses| && 0 <= i < |responses[r]| && i < |expected| ==>
      EntryVerifies(responses[r][i], expected[i], w)
  }

  /** When no key is expected twice, success means that every entry of every response verifies. */
  lemma SuccessVerifiesEveryEntry(responses: seq<seq<Reshare>>, expected: seq<Expected>, w: World)
    requires Distinct(expected) && Reshared(responses, expected, w)
    ensures EveryEntryVerifies(responses, expected, w)
  {
    forall r, i | 0 <= r < |responses| && 0 <= i < |responses[r]| && i < |expected|
      ensures EntryVerifies(responses[r][i], expected[i], w)
    {
      assert Lists(responses[r], expected);
      assert KeyChecked(responses, expected, i, w);
      assert First(expected, i) == i;
    }
  }

  /** What the check of the resharing demands, entry by entry: every response lists the expected
      keys in order; every expected key has material; and on it verifies, in every response, the
      signature of the first entry for this key. */
  lemma ResharedMeans(responses: seq<seq<Reshare>>, expected: seq<Expected>, w: World)
    ensures Reshared(responses, expected, w) <==>
      && (forall r :: 0 <= r < |responses| ==> Lists(responses[r], expected))
      && (forall i :: 0 <= i < |expected| ==> LoadedFor(w.storage, expected[i].keyId).Some?)
      && Verifies(responses, expected, w)
  {
    if Reshared(responses, expected, w) {
      forall i | 0 <= i < |expected| ensures LoadedFor(w.storage, expected[i].keyId).Some? {
        assert KeyChecked(responses, expected, i, w);
      }
      forall r, i, k | 0 <= r < |responses| && 0 <= k <= i < |expected| && FirstFor(expected, i, k)
        ensures |responses[r]| == |expected|
        ensures var l := LoadedFor(w.storage, expected[i].keyId).value;
                w.verify(l.format, l.material, expected[i], responses[r][k].signature)
      {
        assert Lists(responses[r], expected) && KeyChecked(responses, expected, i, w);
        assert k == First(expected, i);
      }
    } else if
      && (forall r :: 0 <= r < |responses| ==> Lists(responses[r], expected))
      && (forall i :: 0 <= i < |expected| ==> LoadedFor(w.storage, expected[i].keyId).Some?)
      && Verifies(responses, expected, w)
    {
      forall i | 0 <= i < |expected| ensures KeyChecked(responses, expected, i, w) {
        assert FirstFor(expected, i, First(expected, i));
      }
    }
  }

  ghost predicate Verifies(responses: seq<seq<Reshare>>, expected: seq<Expected>, w: World)
    requires forall i :: 0 <= i < |expected| ==> LoadedFor(w.storage, expected[i].keyId).Some?
  {
    forall r, i, k :: 0 <= r < |responses| && 0 <= k <= i < |expected| && FirstFor(expected, i, k) ==>
      && |responses[r]| == |expected|
      && var l := LoadedFor(w.storage, expected[i].keyId).value;
         w.verify(l.format, l.material, expected[i], responses[r][k].signature)
  }

  /** Position `k` is the first that expects the same key as position `i`. */
  ghost predicate FirstFor(expected: seq<Expected>, i: nat, k: nat)
    requires i < |expected|
  {
    k <= i && expected[k] == expected[i] && forall j :: 0 <= j < k ==> expected[j] != expected[i]
  }

  /** Each position is looked up at itself exactly when no key is expected twice. */
  lemma OwnPositionIff(expected: seq<Expected>)
    ensures (forall i :: 0 <= i < |expected| ==> First(expected, i) == i) <==> Distinct(expected)
  {
    if forall i :: 0 <= i < |expected| ==> First(expected, i) == i {
      forall i, j | 0 <= i < j < |expected| ensures expected[i] != expected[j] {
        assert First(expected, j) == j;
      }
    }
  }

  /** A world that can occur: the configuration was accepted, and cores are listed once each. */
  ghost predicate Possible(w: World) {
    ClientConfig.Acceptable(w.storage.conf) && ListsCores(w.storage)
  }

  const SampleCore := CoreConf(1, "localhost:50001", "http://localhost:9000/kms", "PUB-p1")

  /** One party that serves every key; only the signature `[1]` verifies. */
  const SampleWorld := World(
    Storage(
      ClientConfig.Config(ClientConfig.Threshold, [SampleCore], 1, 1, 1),
      (_: string, _: Id, _: CoreConf) => true,
      (_: Id, t: set<CoreConf>) => if t == {} then [] else [SampleCore],
      (_: Format, _: Id, _: string) => Some([])),
    (_: Format, _: Material, _: Expected, s: Signature) => s == [1])

  /** A response with a verifying signature at the first position of each key, and only there. */
  function SampleResponse(expected: seq<Expected>): (r: seq<Reshare>)
    ensures |r| == |expected|
    ensures forall i :: 0 <= i < |r| ==> Names(r[i], expected[i])
    ensures forall i :: 0 <= i < |r| ==> r[i].signature == if First(expected, i) == i then [1] else [0]
  {
    seq(|expected|, i requires 0 <= i < |expected| =>
      Reshare(Some(Print(expected[i].keyId)), Some(Print(expected[i].preprocId)),
              if First(expected, i) == i then [1] else [0]))
  }

  lemma FirstOfFirst(expected: seq<Expected>, i: nat)
    requires i < |expected|
    ensures First(expected, First(expected, i)) == First(expected, i)
  {
  }

  lemma SampleLists()
    ensures ListsCores(SampleWorld.storage)
  {
    var s := SampleWorld.storage;
    forall keyId, t | Configured(s.conf, t) ensures multiset(s.listing(keyId, t)) == multiset(t) {
      assert t == {} || t == {SampleCore};
    }
  }

  lemma SampleIsPossible()
    ensures Possible(SampleWorld)
  {
    var conf := SampleWorld.storage.conf;
    assert ClientConfig.Ids(conf.cores) == [1];
    SampleLists();
  }

  lemma SampleLoads(keyId: Id)
    ensures LoadedFor(SampleWorld.storage, keyId) == Some(Loaded(CompressedKeys, []))
  {
    assert Servers(SampleWorld.storage, CompressedKeys, keyId) == {SampleCore};
  }

  /** A run that succeeds with an entry that does not verify, for every list of keys with a
      repetition. */
  lemma RepetitionHidesEntry(expected: seq<Expected>, j: nat)
    requires j < |expected| && First(expected, j) != j
    ensures Reshared([SampleResponse(expected)], expected, SampleWorld)
    ensures !EntryVerifies(SampleResponse(expected)[j], expected[j], SampleWorld)
  {
    var response := SampleResponse(expected);
    assert Lists(response, expected);
    forall i | 0 <= i < |expected| ensures KeyChecked([response], expected, i, SampleWorld) {
      SampleLoads(expected[i].keyId);
      FirstOfFirst(expected, i);
      assert Signed(response, expected, i, Loaded(CompressedKeys, []), SampleWorld);
    }
    SampleLoads(expected[j].keyId);
  }

  /** Success vouches for every entry, whatever the responses, the material and the signatures in
      a world that can occur, exactly when no key is expected twice. */
  lemma SuccessVouchesIff(expected: seq<Expected>)
    ensures (forall responses, w :: Possible(w) && Reshared(responses, expected, w) ==>
               EveryEntryVerifies(responses, expected, w))
       <==> Distinct(expected)
  {
    OwnPositionIff(expected);
    if Distinct(expected) {
      forall responses, w | Possible(w) && Reshared(responses, expected, w)
        ensures EveryEntryVerifies(responses, expected, w)
      {
        SuccessVerifiesEveryEntry(responses, expected, w);
      }
    } else {
      var j :| 0 <= j < |expected| && First(expected, j) != j;
      var responses := [SampleResponse(expected)];
      RepetitionHidesEntry(expected, j);
      SampleIsPossible();
      assert !EntryVerifies(responses[0][j], expected[j], SampleWorld);
      assert !EveryEntryVerifies(responses, expected, SampleWorld);
    }
  }

  /** The responses differ only in the signature of entry `j`. */
  ghost predicate SameBut(a: seq<Reshare>, b: seq<Reshare>, j: nat) {
    && |a| == |b|
    && forall i :: 0 <= i < |a| ==> b[i] == if i == j then a[i].(signature := b[i].signature) else a[i]
  }

  ghost predicate AllSameBut(a: seq<seq<Reshare>>, b: seq<seq<Reshare>>, j: nat) {
    |a| == |b| && forall r :: 0 <= r < |a| ==> SameBut(a[r], b[r], j)
  }

  lemma SameButLists(a: seq<Reshare>, b: seq<Reshare>, expected: seq<Expected>, j: nat)
    requires SameBut(a, b, j) && Lists(a, expected)
    ensures Lists(b, expected)
  {
    forall i | 0 <= i < |expected| ensures Names(b[i], expected[i]) {
      assert Names(a[i], expected[i]);
    }
  }

  lemma RepeatedEntryStep(a: seq<seq<Reshare>>, b: seq<seq<Reshare>>, expected: seq<Expected>, j: nat, w: World)
    requires j < |expected| && First(expected, j) != j && AllSameBut(a, b, j)
    requires Reshared(a, expected, w)
    ensures Reshared(b, expected, w)
  {
    forall r | 0 <= r < |b| ensures Lists(b[r], expected) {
      SameButLists(a[r], b[r], expected, j);
    }
    forall i | 0 <= i < |expected| ensures KeyChecked(b, expected, i, w) {
      assert KeyChecked(a, expected, i, w);
      assert First(expected, i) != j;
      var l := LoadedFor(w.storage, expected[i].keyId).value;
      forall r | 0 <= r < |b| ensures Signed(b[r], expected, i, l, w) {
        assert Signed(a[r], expected, i, l, w);
        assert SameBut(a[r], b[r], j);
      }
    }
  }

  /** The signature at a position whose key is already expected earlier has no influence: the
      entry that is checked for both positions is the earlier one. */
  lemma RepeatedEntryIsNotLookedAt(
      a: seq<seq<Reshare>>, b: seq<seq<Reshare>>, expected: seq<Expected>, j: nat, w: World)
    requires j < |expected| && First(expected, j) != j && AllSameBut(a, b, j)
    ensures Reshared(a, expected, w) <==> Reshared(b, expected, w)
  {
    forall r | 0 <= r < |b| ensures SameBut(b[r], a[r], j) {
      assert SameBut(a[r], b[r], j);
    }
    if Reshared(a, expected, w) {
      RepeatedEntryStep(a, b, expected, j, w);
    }
    if Reshared(b, expected, w) {
      RepeatedEntryStep(b, a, expected, j, w);
    }
  }

  lemma ReorderedStep(a: seq<seq<Reshare>>, b: seq<seq<Reshare>>, expected: seq<Expected>, w: World)
    requires multiset(a) == multiset(b) && Reshared(a, expected, w)
    ensures Reshared(b, expected, w)
  {
    forall r | 0 <= r < |b| ensures b[r] in a {
      assert b[r] in multiset(b);
    }
    forall i | 0 <= i < |expected| ensures KeyChecked(b, expected, i, w) {
      assert KeyChecked(a, expected, i, w);
    }
  }

  /** The order in which the responses arrive does not matter. */
  lemma ArrivalOrderIsIrrelevant(a: seq<seq<Reshare>>, b: seq<seq<Reshare>>, expected: seq<Expected>, w: World)
    requires multiset(a) == multiset(b)
    ensures Reshared(a, expected, w) <==> Reshared(b, expected, w)
  {
    if Reshared(a, expected, w) {
      ReorderedStep(a, b, expected, w);
    }
    if Reshared(b, expected, w) {
      ReorderedStep(b, a, expected, w);
    }
  }
}
