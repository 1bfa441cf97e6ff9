# Core-client model

A Dafny model of the logic behind the KMS core client: the open-loop load generator and its
accounting, the collection of replies from a set of cores, the hand-written parser for previous
epochs and its conversion to a message, the configuration validator, the check of a new epoch's
responses, and four smaller pieces (metadata file, metric labels, duration statistics, hex).

Network replies, clocks and task schedulers are parameters. A core is the stream of replies its
calls would get. A run of the load generator is any sequence of ticks, each with any list of
finished tasks. A join set hands out its tasks in any order. All theorems hold for every such
choice.

## How to read it

Each part has a specification made of functions over values, and methods with loops that follow
the client's code and are proved to compute that specification. The theorems are about the
specification.

| part | specification | loops | main results |
|---|---|---|---|
| rate accumulator | `Pacing` | `UserDecryptRun` | no request is lost to rounding; every stretch of ticks releases the floor or ceiling of its share |
| load generator | `LoadGenerator` (a ledger of fates), `FinalFates` | `UserDecryptRun` (counters and a join set) | conservation, cap, pace and a consistent report on every run; a request is done exactly when the task that decides it completes |
| polling and quorum | `Polling`, `Replies`, `Quorum`, `ReturnedReplies` | `Polling`, `Quorum` | success never depends on the order of replies; which cores are heard does not, exactly when at most a quorum of them answers; what is returned does not, exactly when that holds or all answers are equal |
| previous-epoch text | `KeyInfo`, `KeyTexts`, `PreviousEpoch`, `EpochGrammar` | `KeyInfoParser`, `PreviousEpochParser` | exactly which texts parse, and to what; every segment is used once |
| previous-epoch printing | `KeyPrinter`, `EpochPrinter`, `EpochImage`, `EpochListFormat` | | parsing undoes printing, with the exact condition; exactly which records some text denotes |
| previous-epoch message | `EpochLowering`, `EpochBytes` | `EpochLowering`, `EpochBytes` | converts exactly the hexadecimal records and loses nothing but letter case; digest bytes arrive unchanged over the command line |
| configuration | `ClientConfig` | `ClientConfig` | the validator accepts exactly the acceptable configurations; when index and search lookup agree |
| public elements | `PublicElements` | `PublicElements` | where loaded material comes from, and exactly when it is loaded in every order of the cores |
| new epoch | `NewEpoch` | `NewEpoch` | when a new epoch succeeds, from the polled replies on, and exactly when success vouches for every signature |
| public decryption | `PublicDecrypt`, `Tasks` | `PublicDecrypt`, `Tasks` | succeeds exactly when every request collects a quorum that verifies; each request once, in every order of both phases; the number of pauses |
| supporting pieces | `LatencyStats`, `Metadata`, `MetricLabels`, `Hex`, `Identifiers` | `FloatRanks`, `Metadata`, `MetricLabels` | nearest rank also with floating-point ranks, last batch wins, labels round trip, value of hex digits |

`Wrappers`, `Sequences`, `Sorting`, `Arithmetic`, `Cores` and `Text` hold what several modules share.

## What a reader of the code may not expect

- `retry!` is documented to retry `count` times. It evaluates its argument `count + 2` times before
  it gives up, and comes to the last evaluation exactly when the first `count + 1` fail
  (`Polling.Retry`).
- With a retry limit of zero, the epoch polling loop still retries once and the others do not
  (`Polling.ShapesAgreeIff`). The command line demands a limit of at least one
  (core-client/src/lib.rs:1252-1254), so only a caller of the library can pass zero.
- The documented list format cannot carry a record with a digest that ends in `]` before the end
  of its list (`EpochListFormat.EpochRoundTripIff`, `EpochListFormat.BracketBreaksListFormat`).
- The index lookup of a core assumes that the listed cores are the first parties in order. The
  validator does not demand that (`ClientConfig.IndexAgreesIff`). With a subset of the parties the
  lookup after key generation can be out of bounds (`ClientConfig.SubsetBreaksIndex`), and it never
  is exactly when the party ids are `1` to the number of cores (`ClientConfig.IndexInBoundsIff`).
  In a new epoch it is always in bounds, because all parties were fetched from by then, but it
  yields another party's core when the list is not in order (`ClientConfig.FullListPicksWrongIff`);
  that core has served the key as well (`PublicElements.LoadedMeans`).
- The three centralized complaints of the validator are never raised, because earlier checks leave
  only the values they ask for (`ClientConfig.Validate`).
- When the same key is expected twice in a new epoch, the entry for its second occurrence is never
  looked at, so success says nothing about it (`NewEpoch.RepeatedEntryIsNotLookedAt`,
  `NewEpoch.SuccessVouchesIff`).
- The replies that a collector returns can be the same in every order although different cores are
  heard, namely when the replies agree (`ReturnedReplies.ReturnedOrderIndependentIff`).

## Model

| member | source | states |
|---|---|---|
| `Pacing.DueIsFloor` | core-client/src/decrypt.rs:810-812 | after any number of ticks the accumulator has released the floor of `ticks * rate / 200` and holds the remainder |
| `Pacing.BurstIsFloorOrCeiling` | core-client/src/decrypt.rs:810-812 | any stretch of consecutive ticks releases the floor or the ceiling of its share |
| `Pacing.BudgetDueAfter` | core-client/src/decrypt.rs:738-812 | the whole budget is due exactly from tick `200 * duration` on |
| `Pacing.NeverSaturates` | core-client/src/decrypt.rs:738-810 | in the range the request buffer admits, the saturating addition is exact |
| `LoadGenerator.Conservation` | core-client/src/decrypt.rs:789-885 | the requests in flight, shed, failed and done add up to the offered ones |
| `LoadGenerator.SettleKeepsSound` | core-client/src/decrypt.rs:572-594 | joining any finished task keeps the invariant: results match fates, the cap holds, every result has a full quorum, the first request is not shed |
| `LoadGenerator.AdvanceKeepsSound` | core-client/src/decrypt.rs:803-842 | a tick keeps the invariant, and offers the launches that the list still has |
| `LoadGenerator.EveryReachableLedger` | core-client/src/decrypt.rs:789-842 | after every tick of every schedule the invariant holds and the offers are what is due, capped by the list |
| `LoadGenerator.EveryDrainedLedger` | core-client/src/decrypt.rs:855-885 | the same after any joins of the timed drain |
| `LoadGenerator.FatesAreFinal` | core-client/src/decrypt.rs:789-885 | from any tick to the end of the run no decided fate changes and results are only appended |
| `LoadGenerator.AllOfferedIff` | core-client/src/decrypt.rs:738-818 | every prebuilt request is offered exactly when the run has at least `200 * duration` ticks |
| `LoadGenerator.OffersAreFloor` | core-client/src/decrypt.rs:810-818 | after `k` ticks `min(total, floor(k * rate / 200))` requests have been offered |
| `LoadGenerator.SteadyPace` | core-client/src/decrypt.rs:810-818 | until the list is exhausted, any consecutive ticks offer the floor or ceiling of their share |
| `LoadGenerator.TickFillsRoom` | core-client/src/decrypt.rs:814-842 | every tick of every run sends, in list order, as many offers as fit under the cap after joining, and sheds exactly the others |
| `LoadGenerator.CountAbort` | core-client/src/decrypt.rs:879-885 | aborting moves exactly the requests in flight to the failed ones |
| `LoadGenerator.ReportIsConsistent` | core-client/src/decrypt.rs:879-908 | on every run the report adds up: offered is completed plus failed plus shed, one latency per completed request, messages per request and per quorum |
| `FinalFates.JoinDecides` | core-client/src/decrypt.rs:578-593 | joining a task in flight makes its request done exactly when the task does not panic, enough cores take the request and enough replies arrive, and failed otherwise; on success the earliest replies are appended with the time of the last of them; no other request is touched |
| `FinalFates.FateIsDecided` | core-client/src/decrypt.rs:789-878 | at the end of every run a request is done exactly when the first join that met it in flight was of a task that completes, and failed exactly when it was of one that does not |
| `FinalFates.ResultsAreBrought` | core-client/src/decrypt.rs:572-594 | every collected result is that of a join which met its request in flight |
| `FinalFates.CompletedAreCounted` | core-client/src/decrypt.rs:887-888 | the number of completed requests is the number of requests whose deciding task completes |
| `FinalFates.ReportMeans` | core-client/src/decrypt.rs:879-908 | each figure of the report from the fates and results: requests by fate, saturation exactly when some request was shed or is left in flight, bytes as sums over what was sent and collected, the latencies one by one |
| `UserDecryptRun.JoinResult` | core-client/src/decrypt.rs:578-593 | booking one joined task is the ledger's step: a task that completes adds its result and latency, any other one failure, and nothing else changes |
| `UserDecryptRun.DrainFinished` | core-client/src/decrypt.rs:572-594 | joining everything that has finished is the ledger's step, and leaves what was sent alone |
| `UserDecryptRun.OfferNext` | core-client/src/decrypt.rs:815-827 | one arrival is shed at the cap and sent below it, and all counters follow |
| `UserDecryptRun.ReleaseDue` | core-client/src/decrypt.rs:814-842 | the request-by-request launches of a tick are the batch the ledger prescribes, also when the list runs out |
| `UserDecryptRun.StepAccumulator` | core-client/src/decrypt.rs:810-812 | the accumulator step yields the pace's launches and carry |
| `UserDecryptRun.RunTicks` | core-client/src/decrypt.rs:789-843 | the tick loop refines the ledger for every schedule |
| `UserDecryptRun.TimedDrain` | core-client/src/decrypt.rs:855-878 | the drain refines the ledger, whether it ends empty or by the deadline |
| `UserDecryptRun.Conclude` | core-client/src/decrypt.rs:879-908 | the counters give the report that belongs to the ledger |
| `UserDecryptRun.Reconstruct` | core-client/src/decrypt.rs:920-947 | in every join order, successes plus failures equal what was collected, and the statistics are those of the successes |
| `UserDecryptRun.DoUserDecrypt` | core-client/src/decrypt.rs:719-995 | for every schedule the report is the ledger's and consistent, the completed requests are those whose deciding task completes, every result comes from such a task, reconstructions account for every completed request, and the command succeeds exactly when none failed |
| `Polling.PollThenBail` | core-client/src/keygen.rs:391-424 | makes the calls up to the first reply that is not "unavailable", at most `max_iter + 1`, and returns that reply |
| `Polling.PollThenBreak` | core-client/src/mpc_epoch.rs:187-206 | the same with at least one retry |
| `Polling.AnswerCharacterised` | core-client/src/keygen.rs:391-424 | an answer comes back exactly when the first reply that is not "unavailable" is within the budget and ready |
| `Polling.AnswerIff` | core-client/src/keygen.rs:391-424 | the answer is a value exactly when the first reply that is not "unavailable" comes within the retries and carries it |
| `Polling.ShapesAgreeIff` | core-client/src/mpc_epoch.rs:187-206 | the two loop shapes make the same calls exactly when the limit is positive or the first call settles the matter |
| `Polling.Retry` | core-client/src/lib.rs:75-93 | returns the first success, else the error of the last evaluation; gives up only after `count + 2` evaluations, and makes the last of them exactly when the first `count + 1` fail |
| `Quorum.PollCore` | core-client/src/decrypt.rs:1112-1143 | a core replies exactly when its stream is ready within the retries after nothing but "unavailable", with that value; it panics exactly when the task crashes |
| `Quorum.CoreTaskMeans` | core-client/src/decrypt.rs:1112-1143 | the same of the task as a value: which reply, failure or panic a core's stream leads to |
| `Quorum.JoinUntilQuorum` | core-client/src/decrypt.rs:504-553 | stops at the first join that meets the quorum, keeps all replies up to it in order, and reads the clock exactly then |
| `Quorum.EarlyStopKeepsFirst` | core-client/src/decrypt.rs:1145-1160 | stopping early keeps exactly the first `quorum` replies of the whole run |
| `Quorum.CollectResponses` | core-client/src/decrypt.rs:1144-1180 | the collector returns the first `quorum` replies sorted by party, or fails when there are fewer |
| `Quorum.CollectTimed` | core-client/src/decrypt.rs:1144-1184 | succeeds exactly when at least `quorum` joins bring replies, and hands over the values of the earliest of them, sorted by party, with the time of the join that brought the last |
| `Quorum.ReturnedMeans` | core-client/src/decrypt.rs:1144-1184 | the same of the returned value |
| `Quorum.CollectFromAll` | core-client/src/keygen.rs:843-870 | the preprocessing collector succeeds exactly when every task replies, and returns all replies sorted by party |
| `Quorum.GetResponses` | core-client/src/keygen.rs:391-459 | from streams to responses: for distinct cores succeeds exactly when at least `quorum` streams settle within the retries; the values are what the streams of the earliest cores to answer settle on, sorted by party |
| `Quorum.SortedOrderIsUnique` | core-client/src/crsgen.rs:284-315 | with distinct parties there is only one sorted order of the same replies |
| `Quorum.QuorumMetIffEnoughAnswer` | core-client/src/decrypt.rs:1145-1168 | for every order, collection succeeds exactly when the streams of at least `quorum` cores are ready within the retries after nothing but "unavailable" |
| `Quorum.CollectedShape` | core-client/src/decrypt.rs:1145-1180 | on success there are exactly `quorum` replies in strictly increasing party order, each the reply of its own core |
| `Quorum.SameResultForEveryOrder` | core-client/src/keygen.rs:428-459 | when at most `quorum` cores answer, all orders keep the same replies of the same cores |
| `Quorum.SlowestCoreIsLeftOut` | core-client/src/decrypt.rs:1157-1161 | when more cores answer, letting any one of them finish last leaves it out |
| `Quorum.OrderIndependentIff` | core-client/src/decrypt.rs:1145-1180 | which cores are heard, and with them the kept replies, is the same for every order exactly when at most `quorum` cores answer |
| `ReturnedReplies.ReturnedOrderIndependentIff` | core-client/src/decrypt.rs:1145-1184 | what the collector returns is the same for every order exactly when at most `quorum` cores answer or all answering cores give the same reply |
| `ReturnedReplies.ExchangeShowsReplies` | core-client/src/decrypt.rs:1145-1184 | if letting two answering cores swap the first and the last place never changes what is returned, their replies agree |
| `Quorum.SendAndCollect` | core-client/src/decrypt.rs:421-570 | a user-decryption task succeeds exactly when at least `quorum` cores take the request and at least `quorum` joins bring replies; it hands over the earliest replies in arrival order and the time of the last of them |
| `Quorum.TaskOutcomeMeans` | core-client/src/decrypt.rs:421-570 | the same of the outcome of a task, which a panic leaves without a result |
| `Quorum.QuorumPointIsUnique` | core-client/src/decrypt.rs:517-522 | there is only one join at which the quorum is met |
| `KeyInfo.ParsesIff` | core-client/src/lib.rs:1552-1632 | a text parses to a key exactly when its pairs are both identifiers and one of the two kinds of digests, each once and nothing else |
| `KeyTexts.KeyParsesIff` | core-client/src/lib.rs:1552-1632 | a text parses to a key exactly when its pieces are, in any order, the literal pairs of this key with identifiers that parse |
| `KeyInfo.OrderIsIrrelevant` | core-client/src/lib.rs:1559-1631 | permuting the pairs changes neither success nor value |
| `KeyInfoParser.FromStr` | core-client/src/lib.rs:1552-1632 | the one-pass loop over optional fields computes the specification |
| `KeyInfoParser.ReadPair` | core-client/src/lib.rs:1559-1607 | one pair: unknown names, repeated names, mixed digests and bad identifiers are errors |
| `PreviousEpoch.GroupUsesEachSegment` | core-client/src/lib.rs:1386-1498 | scalar fields, keys and CRSs account for every segment once |
| `PreviousEpoch.SegmentsAccountedFor` | core-client/src/lib.rs:1380-1507 | when a text parses, its segments are as many as its scalar fields plus the keys and CRSs of the record |
| `PreviousEpoch.ParseFromStep` | core-client/src/lib.rs:1386-1498 | reading field by field is the same as grouping the text first |
| `PreviousEpochParser.ReadList` | core-client/src/lib.rs:1420-1446 | the inner loop over the shared iterator takes the entries of one list and leaves the rest |
| `PreviousEpochParser.TakeField` | core-client/src/lib.rs:1388-1496 | one turn of the outer loop consumes at least one segment and takes the specified field |
| `PreviousEpochParser.ApplyField` | core-client/src/lib.rs:1393-1495 | a scalar overwrites, a list appends, an entry that does not parse is an error |
| `PreviousEpochParser.FromStr` | core-client/src/lib.rs:1380-1507 | the nested loops over one iterator compute the specification |
| `EpochGrammar.GroupsIff` | core-client/src/lib.rs:1386-1498 | segments fall into fields exactly when they spell these fields out; only the last list may lack its closing bracket |
| `EpochGrammar.ApplyAllMeans` | core-client/src/lib.rs:1393-1506 | applying fields one by one means: all identifiers and entries parse, the last scalar of a kind counts, lists of a kind are joined |
| `EpochGrammar.EpochParsesIff` | core-client/src/lib.rs:1380-1507 | a text parses to a record exactly when it spells out fields that denote the record |
| `KeyPrinter.KeyRoundTrip` | core-client/src/lib.rs:1549-1633 | parsing undoes printing for every key whose digests have no comma |
| `EpochPrinter.CrsRoundTrip` | core-client/src/lib.rs:1509-1547 | parsing undoes printing for every CRS, whatever its digest |
| `EpochPrinter.CrsParsesIff` | core-client/src/lib.rs:1509-1547 | a text parses to a CRS exactly when it is `crs_id=`, an identifier that parses, `,digest=` and the digest |
| `EpochPrinter.EpochRoundTrip` | core-client/src/lib.rs:1380-1507 | parsing undoes printing for every clean record whose lists close only at their end |
| `EpochImage.ParsedIsClean` | core-client/src/lib.rs:1380-1507 | no digest of a parsed record holds a separator |
| `EpochImage.SeparateRoundTrip` | core-client/src/lib.rs:1380-1507 | with one list field per entry, parsing undoes printing for every clean record |
| `EpochImage.DenotableIff` | core-client/src/lib.rs:1380-1507 | the records that some text denotes are exactly the clean ones |
| `EpochImage.ReparseIsStable` | core-client/src/lib.rs:1380-1507 | parsing, printing and parsing again changes nothing |
| `EpochListFormat.EpochRoundTripIff` | core-client/src/lib.rs:1380-1507 | in the documented list format parsing undoes printing exactly for clean records in which only the last digest of a list may end with a bracket |
| `EpochListFormat.EarlyBracketFails` | core-client/src/lib.rs:1420-1446 | a list that closes early leaves entries over that start no field, so the text is refused |
| `EpochListFormat.BracketBreaksListFormat` | core-client/src/lib.rs:1420-1446 | a record that the list format loses and separate fields keep |
| `EpochLowering.ConvertDigest` | core-client/src/mpc_epoch.rs:28-63 | the digests of a key are listed under the types of their material, and converted exactly when they are hexadecimal |
| `EpochLowering.ConvertKeys` | core-client/src/mpc_epoch.rs:26-71 | one message per key, in order, or an error when a digest does not decode |
| `EpochLowering.ConvertCrses` | core-client/src/mpc_epoch.rs:73-85 | one message per CRS, in order, or an error when a digest does not decode |
| `EpochLowering.ConvertToGrpc` | core-client/src/mpc_epoch.rs:22-96 | conversion succeeds exactly when every digest is hexadecimal, and the message then says what the record says |
| `EpochLowering.SameMessageIff` | core-client/src/mpc_epoch.rs:22-96 | two records become the same message exactly when they differ at most in the case of their digests |
| `EpochLowering.ConvertibleRoundTrips` | core-client/src/mpc_epoch.rs:22-96 | every convertible record survives printing and parsing in the documented format |
| `EpochBytes.BytesArrive` | core-client/src/lib.rs:1380-1507 | the text of a record with digests encoded from bytes parses back to it, and it can be converted |
| `EpochBytes.OnlyMessage` | core-client/src/mpc_epoch.rs:22-96 | the only message that says such a record is the one with exactly its bytes and identifiers, in order |
| `EpochBytes.ParseAndConvert` | core-client/src/mpc_epoch.rs:22-96 | from command-line text to message: succeeds exactly on texts of hexadecimal records, and for digests encoded from bytes the message holds exactly these bytes and identifiers, in order |
| `ClientConfig.Validate` | core-client/src/lib.rs:214-333 | accepts exactly the acceptable configurations, and every complaint is deserved |
| `ClientConfig.ValidateCores` | core-client/src/lib.rs:231-271 | the loop over the cores finds every bad or repeated identifier and address |
| `ClientConfig.ValidateCore` | core-client/src/lib.rs:231-270 | one turn of that loop: range, repeated identifier, repeated address |
| `ClientConfig.TooManyCores` | core-client/src/lib.rs:220-229 | the count check is implied by the checks on identifiers |
| `ClientConfig.SearchLookup` | core-client/src/crsgen.rs:160-169 | the search finds a core exactly when it is configured |
| `ClientConfig.IndexAgreesIff` | core-client/src/keygen.rs:238-242 | in an accepted configuration the index lookup finds every core exactly when the cores are listed in party order without gaps |
| `ClientConfig.FullListSuffices` | core-client/src/mpc_epoch.rs:297-299 | when all parties are listed in increasing order the index lookup is right |
| `ClientConfig.FullListInBounds` | core-client/src/mpc_epoch.rs:289-299 | when every party is configured, the index is in bounds for each core and yields it exactly when it sits at its own position |
| `ClientConfig.FullListPicksWrongIff` | core-client/src/mpc_epoch.rs:289-299 | when every party is configured, the index yields a wrong core for some party exactly when the cores are not listed in order |
| `ClientConfig.ReversedListPicksWrong` | core-client/src/mpc_epoch.rs:289-299 | an accepted configuration of two parties in which the index of each yields the other |
| `ClientConfig.SubsetBreaksIndex` | core-client/src/keygen.rs:238-242 | an accepted configuration with a core that the index lookup cannot reach |
| `ClientConfig.IndexInBoundsIff` | core-client/src/keygen.rs:238-242 | in an accepted configuration no configured core is out of the index's bounds exactly when the party ids are the numbers from 1 to the number of cores |
| `NewEpoch.CollectIds` | core-client/src/mpc_epoch.rs:225-242 | collects both identifiers of every entry, or fails when one is not set |
| `NewEpoch.AcceptResponse` | core-client/src/mpc_epoch.rs:225-256 | accepts exactly the responses that list the expected keys in order |
| `NewEpoch.AcceptAll` | core-client/src/mpc_epoch.rs:219-258 | succeeds exactly when every task answers and every answer is accepted |
| `NewEpoch.FindSignature` | core-client/src/mpc_epoch.rs:336-353 | in an accepted response the search never fails and finds the first entry of that key |
| `PublicElements.FetchPublicElements` | core-client/src/s3_operations.rs:32-86 | fails exactly when no configured core has all elements; otherwise lists exactly the cores that do, or only the first of them if one is enough |
| `PublicElements.ServesMeans` | core-client/src/mpc_epoch.rs:267-285 | which elements make up a key in each format |
| `PublicElements.LoadedMeans` | core-client/src/mpc_epoch.rs:267-335 | loaded material comes from a complete deployment: every party is configured, every core serves the key in that format, which is the compressed one exactly when some core has it, and the folder is a configured core's |
| `PublicElements.LoadedInEveryOrderIff` | core-client/src/mpc_epoch.rs:267-335 | the material is loaded in whatever order cores are listed exactly when every party is configured, every core serves the key in the preferred format and every core's folder can be read |
| `NewEpoch.CheckKey` | core-client/src/mpc_epoch.rs:260-385 | a key is checked exactly when all parties served it, its material can be loaded from the folder of the indexed core, and every response's signature for it verifies |
| `NewEpoch.CheckResharing` | core-client/src/mpc_epoch.rs:210-385 | a new epoch with resharing succeeds exactly when all responses are accepted and all keys are checked |
| `NewEpoch.CollectAcks` | core-client/src/mpc_epoch.rs:156-171 | every core must acknowledge the request, and all parties must if all responses are expected |
| `NewEpoch.DoNewEpoch` | core-client/src/mpc_epoch.rs:156-394 | from acknowledgements and reply streams to the outcome: succeeds exactly when every core acknowledges, all parties do if all responses are expected, every core's stream is ready within its retries after nothing but "unavailable" and, with a previous epoch, these responses pass the resharing check |
| `NewEpoch.PollEpoch` | core-client/src/mpc_epoch.rs:176-207 | a polling task yields the value its core's stream settles on within the retries, of which there is at least one, and fails exactly when there is none |
| `NewEpoch.EpochResultIff` | core-client/src/mpc_epoch.rs:187-206 | the same of the result as a value |
| `NewEpoch.ResharedMeans` | core-client/src/mpc_epoch.rs:210-385 | the resharing check, entry by entry: every response lists the expected keys in order, every key has material, and on it verifies the signature of the first entry for this key in every response |
| `NewEpoch.SuccessVerifiesEveryEntry` | core-client/src/mpc_epoch.rs:336-385 | when the expected keys are distinct, success means that every entry of every response names its key and its signature verifies on that key's material |
| `NewEpoch.RepetitionHidesEntry` | core-client/src/mpc_epoch.rs:336-385 | for every list of keys with a repetition, a run that succeeds with an entry that does not verify |
| `NewEpoch.SuccessVouchesIff` | core-client/src/mpc_epoch.rs:336-385 | success implies that every entry verifies, for all responses and all storage and signatures under an accepted configuration, exactly when the expected keys are distinct |
| `NewEpoch.OwnPositionIff` | core-client/src/mpc_epoch.rs:338-343 | every key is looked up at its own position exactly when the expected keys are distinct |
| `NewEpoch.RepeatedEntryIsNotLookedAt` | core-client/src/mpc_epoch.rs:338-343 | the signature of a repeated key's later entry does not influence the outcome |
| `NewEpoch.ArrivalOrderIsIrrelevant` | core-client/src/mpc_epoch.rs:219-258 | the order in which responses arrive does not influence the outcome |
| `PublicDecrypt.Launch` | core-client/src/decrypt.rs:152-161 | request `k` is preceded by as many pauses as there are positive multiples of `parallel` up to `k`, which is `k / parallel`; none for a zero delay or group size |
| `PublicDecrypt.GroupsAreParallelSized` | core-client/src/decrypt.rs:153-161 | requests without a pause between them are fewer than `parallel` apart, and `parallel` requests further there is exactly one more pause |
| `PublicDecrypt.RunRequest` | core-client/src/decrypt.rs:167-227 | a request gets an answer exactly when its task does not panic, at least `quorum` cores take it and at least `quorum` joins bring replies; the answer is the earliest replies sorted by party, with the time of the last of them |
| `PublicDecrypt.OutcomeMeans` | core-client/src/decrypt.rs:167-227 | the same of the outcome as a value |
| `PublicDecrypt.AnswerIsUnique` | core-client/src/decrypt.rs:1145-1184 | with distinct parties these words determine the responses and the latency |
| `PublicDecrypt.FailureMeans` | core-client/src/decrypt.rs:167-264 | a request that does not succeed panics, is taken or answered too rarely, or has an answer that does not verify; with distinct parties never both |
| `PublicDecrypt.CollectAll` | core-client/src/decrypt.rs:152-237 | phase 1 succeeds exactly when every request collects, with one collection per request |
| `PublicDecrypt.DoPublicDecrypt` | core-client/src/decrypt.rs:108-275 | for all join orders of both phases: on success every request has an answer that verifies, each is returned once with the responses of its own answer, and the statistics are those of the answers' latencies; on failure some request panics, is taken or answered too rarely, or has an answer that does not verify |
| `Tasks.JoinNext` | core-client/src/decrypt.rs:233-237 | some pending task is handed out and the others stay |
| `Tasks.JoinAll` | core-client/src/decrypt.rs:230-264 | in every order, joining succeeds exactly when all tasks do, with one value per task |
| `Tasks.JoinCounting` | core-client/src/decrypt.rs:930-947 | in every order, the values of the successes are kept and the failures counted |
| `LatencyStats.QuantileIsNearestRank` | core-client/src/lib.rs:2904-2913 | a reported quantile is the least recorded duration that covers its share of the durations, and nothing else is |
| `LatencyStats.CoversIff` | core-client/src/lib.rs:2904-2913 | a value covers the share exactly when it is at least the reported quantile |
| `LatencyStats.StatMeaning` | core-client/src/lib.rs:2878-2926 | the report holds the recorded extremes, the nearest-rank quantiles for 50, 95 and 99 percent and the mean rounded down |
| `LatencyStats.StatIsOrdered` | core-client/src/lib.rs:2889-2926 | minimum, quantiles and maximum increase, and the average lies between the extremes |
| `LatencyStats.StatUnderReordering` | core-client/src/lib.rs:2878-2926 | the statistics do not depend on the order of the durations |
| `FloatRanks.FloatRankIsExact` | core-client/src/lib.rs:2907-2909 | for every rounding that respects the order and leaves doubles alone, the rank computed with the double factor is the exact rank |
| `FloatRanks.ComputeStat` | core-client/src/lib.rs:2878-2926 | the statistics indexed by floating-point ranks are the ones with exact ranks |
| `Metadata.MetadataStore.Store` | backward-compatibility/generate-v0.14.0/src/generate.rs:119-156 | a run writes its batch behind the entries of other versions |
| `Metadata.MetadataStore.StoreAll` | backward-compatibility/generate-v0.14.0/src/generate.rs:119-156 | the file after a sequence of runs |
| `Metadata.RerunChangesNothing` | backward-compatibility/generate-v0.14.0/src/generate.rs:134-152 | running the same batch again changes nothing |
| `Metadata.LastBatchWins` | backward-compatibility/generate-v0.14.0/src/generate.rs:134-152 | for every version the file holds exactly the entries of the last batch that mentions it, or the earlier content if none does |
| `Metadata.RunsLeaveSurvivors` | backward-compatibility/generate-v0.14.0/src/generate.rs:126-155 | the content after any sequence of runs in closed form: of each batch what no later batch writes, in run order |
| `Metadata.UntouchedStayInFront` | backward-compatibility/generate-v0.14.0/src/generate.rs:148-152 | entries of versions that no run writes stay in order at the front |
| `MetricLabels.ReadLabels` | observability/src/metrics.rs:779-808 | the loop with its skipped entries computes the specification |
| `MetricLabels.ConfiguresIff` | observability/src/metrics.rs:784-806 | an entry configures a key exactly when it is an acceptable key and a value with an equals sign between them and whitespace around each |
| `MetricLabels.AcceptableKeyIff` | observability/src/metrics.rs:817-855 | which names are acceptable, character by character and name by name |
| `MetricLabels.LastEntryWins` | observability/src/metrics.rs:784-806 | each key has the value of the last entry that configures it, and is absent if none does |
| `MetricLabels.ParsedAreAcceptable` | observability/src/metrics.rs:779-855 | whatever the variable holds, every key is valid and not reserved, every value trimmed, not empty and free of commas |
| `MetricLabels.LabelsRoundTrip` | observability/src/metrics.rs:779-808 | parsing undoes printing for every acceptable map, in whatever order its labels are listed |
| `MetricLabels.ConfigurableIff` | observability/src/metrics.rs:779-855 | the maps that some value of the variable denotes are exactly the acceptable ones |
| `MetricLabels.FilterLabels` | observability/src/metrics.rs:811-830 | keeps exactly the labels with acceptable keys |
| `MetricLabels.FilterIsNoOpIff` | observability/src/metrics.rs:811-855 | the filter leaves a map alone exactly when all its keys are acceptable |
| `MetricLabels.FilterAfterParsing` | observability/src/metrics.rs:779-813 | parsed labels pass the filter unchanged, and filtering is idempotent |
| `Hex.ParseHexMeaning` | core-client/src/lib.rs:592-605 | a text parses exactly when it is hex digits behind an optional prefix; the bytes have the value of the digits, two digits per byte rounded up |
| `Hex.ParseHexIff` | core-client/src/lib.rs:592-605 | a text parses to bytes exactly when it is an optional prefix and hex digits whose value and number give these bytes |
| `Hex.DigitValues` | core-client/src/lib.rs:592-605 | the digits and their values are the positions in `0123456789abcdef` and its capital form, and nothing else is a digit |
| `Hex.ParseHexEncode` | core-client/src/lib.rs:592-605 | parsing undoes encoding for every byte string, with no prefix and with either prefix |
| `Hex.DecodesIff` | core-client/src/mpc_epoch.rs:32-38 | decoding succeeds exactly on an even number of hex digits |
| `Hex.EncodeDecode` | core-client/src/mpc_epoch.rs:32-38 | encoding what was decoded gives the same digits in lower case |
| `Hex.ByteText` | core/grpc/src/identifiers.rs:236-240 | a byte is written as its two digits, the high one first, in lower case |
| `Identifiers.ParseIff` | core/grpc/src/identifiers.rs:243-278 | a text parses to an identifier exactly when it is the printed digits in either case behind up to two prefixes `0x`, with whitespace around it |
| `Identifiers.ParsePrint` | core/grpc/src/identifiers.rs:236-278 | parsing undoes printing for every identifier |

## Left out

- The threshold protocols, the engine and the other crates behind the cores: the model is about the client.
- Command-line parsing, request construction, file and object-store access and logging: plumbing around the modelled logic.
- Signatures, digests of keys and plaintext reconstruction: uninterpreted functions of their inputs.
- Downloading and storing public elements: which elements a core has, and whether a folder can be read, are parameters.
- Error texts: an error is `None` or a complaint of the validator, and so is a panic.
- Elapsed time, throughput figures and the standard deviation: floating-point reporting without an exact property.
- FloatRanks.ComputeStat: covers fewer than two to the 32 durations, since the source cuts their number to 32 bits before it divides.
- Quorum.JoinUntilQuorum: the tasks left over after the quorum are not modelled, since their results are dropped.
- Identifiers.ParsePrint: error kinds of malformed identifiers are not told apart.
- Older copies of the metadata store, which only append.
