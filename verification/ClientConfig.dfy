/** The client configuration: its validation, and the two ways the client looks up a core. */
module ClientConfig {
  import opened Wrappers
  import opened Sequences
  import opened Cores

  datatype KmsType = Centralized | Threshold

  datatype Config = Config(
    kmsType: KmsType, cores: seq<CoreConf>, numParties: nat, numMajority: nat, numReconstruct: nat)

  datatype ConfigError =
    | FieldOutOfRange | CoreCount | IncorrectPartyId | DuplicatePartyId | DuplicateAddress
    | MajorityCount | ReconstructionCount | WrongKmsType
    | CentralizedMajority | CentralizedReconstruction | CentralizedPartyId

  /** What an accepted configuration looks like. */
  ghost predicate Acceptable(conf: Config) {
    && conf.cores != []
    && 1 <= conf.numMajority <= conf.numReconstruct <= conf.numParties
    && (forall i :: 0 <= i < |conf.cores| ==> 1 <= conf.cores[i].partyId <= conf.numParties)
    && Distinct(Ids(conf.cores))
    && Distinct(Addresses(conf.cores))
    && (conf.kmsType == Centralized ==> conf.numParties == 1)
  }

  function Ids(cores: seq<CoreConf>): seq<int> {
    Map((c: CoreConf) => c.partyId, cores)
  }

  function Addresses(cores: seq<CoreConf>): seq<string> {
    Map((c: CoreConf) => c.address, cores)
  }

  lemma AcceptableMeans(conf: Config)
    ensures Acceptable(conf) <==>
      && conf.cores != [] && 1 <= conf.numMajority <= conf.numReconstruct <= conf.numParties
      && (forall i :: 0 <= i < |conf.cores| ==> 1 <= conf.cores[i].partyId <= conf.numParties)
      && (forall i, j :: 0 <= i < j < |conf.cores| ==>
            conf.cores[i].partyId != conf.cores[j].partyId && conf.cores[i].address != conf.cores[j].address)
      && (conf.kmsType == Centralized ==> conf.numParties == 1)
  {
    var ids, addresses := Ids(conf.cores), Addresses(conf.cores);
    assert Distinct(ids) <==>
      forall i, j :: 0 <= i < j < |conf.cores| ==> conf.cores[i].partyId != conf.cores[j].partyId by {
      assert forall i :: 0 <= i < |conf.cores| ==> ids[i] == conf.cores[i].partyId;
    }
    assert Distinct(addresses) <==>
      forall i, j :: 0 <= i < j < |conf.cores| ==> conf.cores[i].address != conf.cores[j].address by {
      assert forall i :: 0 <= i < |conf.cores| ==> addresses[i] == conf.cores[i].address;
    }
  }

  /** What each complaint of the validator means. */
  ghost predicate Deserved(conf: Config, e: ConfigError) {
    match e
    case FieldOutOfRange => conf.cores == [] || conf.numParties < 1 || conf.numMajority < 1 || conf.numReconstruct < 1
    case CoreCount => |conf.cores| > conf.numParties
    case IncorrectPartyId => exists i :: 0 <= i < |conf.cores| && !(1 <= conf.cores[i].partyId <= conf.numParties)
    case DuplicatePartyId => !Distinct(Ids(conf.cores))
    case DuplicateAddress => !Distinct(Addresses(conf.cores))
    case MajorityCount => conf.numMajority > conf.numParties
    case ReconstructionCount => conf.numReconstruct > conf.numParties || conf.numReconstruct < conf.numMajority
    case WrongKmsType => conf.numParties > 1 && conf.kmsType == Centralized
    case _ => false
  }

  // -------------------------------------------------------------------------
  // Validation
  // -------------------------------------------------------------------------

  lemma AtMostOnceEach<T>(s: seq<T>)
    requires forall i :: 0 <= i < |s| ==> multiset(s)[s[i]] <= 1
    ensures Distinct(s)
  {
    if i, j :| 0 <= i < j < |s| && s[i] == s[j] {
      CountTwice(s, i, j);
    }
  }

  lemma MoreThanOnce<T>(s: seq<T>, x: T)
    requires multiset(s)[x] > 1
    ensures !Distinct(s)
  {
    if Distinct(s) {
      CountOnce(s, x);
    }
  }

  /** The three checks on one core. */
  method ValidateCore(conf: Config, k: nat) returns (e: Option<ConfigError>)
    requires k < |conf.cores|
    ensures e.Some? ==> Deserved(conf, e.value)
    ensures e.None? ==>
      && 1 <= conf.cores[k].partyId <= conf.numParties
      && multiset(Ids(conf.cores))[conf.cores[k].partyId] <= 1
      && multiset(Addresses(conf.cores))[conf.cores[k].address] <= 1
  {
    var core := conf.cores[k];
    if core.partyId == 0 || core.partyId > conf.numParties {
      return Some(IncorrectPartyId);
    }
    if multiset(Ids(conf.cores))[core.partyId] > 1 {
      MoreThanOnce(Ids(conf.cores), core.partyId);
      return Some(DuplicatePartyId);
    }
    if multiset(Addresses(conf.cores))[core.address] > 1 {
      MoreThanOnce(Addresses(conf.cores), core.address);
      return Some(DuplicateAddress);
    }
    return None;
  }

  /** The loop over the cores: range of the id, uniqueness of the id, uniqueness of the address. */
  method ValidateCores(conf: Config) returns (e: Option<ConfigError>)
    ensures e.Some? ==> Deserved(conf, e.value)
    ensures e.None? ==> Distinct(Ids(conf.cores)) && Distinct(Addresses(conf.cores))
    ensures e.None? ==> forall i :: 0 <= i < |conf.cores| ==> 1 <= conf.cores[i].partyId <= conf.numParties
  {
    ghost var ids, addresses := Ids(conf.cores), Addresses(conf.cores);
    for k := 0 to |conf.cores|
      invariant forall i :: 0 <= i < k ==> 1 <= conf.cores[i].partyId <= conf.numParties
      invariant forall i :: 0 <= i < k ==> multiset(ids)[ids[i]] <= 1
      invariant forall i :: 0 <= i < k ==> multiset(addresses)[addresses[i]] <= 1
    {
      e := ValidateCore(conf, k);
      if e.Some? {
        return;
      }
    }
    AtMostOnceEach(ids);
    AtMostOnceEach(addresses);
    e := None;
  }

  /** The validator accepts exactly the acceptable configurations and every complaint is
      deserved; in particular the three centralized complaints are never raised, because the
      earlier checks leave only the values they ask for. */
  method Validate(conf: Config) returns (e: Option<ConfigError>)
    ensures e.None? <==> Acceptable(conf)
    ensures e.None? <==>
      && conf.cores != [] && 1 <= conf.numMajority <= conf.numReconstruct <= conf.numParties
      && (forall i :: 0 <= i < |conf.cores| ==> 1 <= conf.cores[i].partyId <= conf.numParties)
      && (forall i, j :: 0 <= i < j < |conf.cores| ==>
            conf.cores[i].partyId != conf.cores[j].partyId && conf.cores[i].address != conf.cores[j].address)
      && (conf.kmsType == Centralized ==> conf.numParties == 1)
    ensures e.Some? ==> Deserved(conf, e.value)
  {
    AcceptableMeans(conf);
    if conf.cores == [] || conf.numParties < 1 || conf.numMajority < 1 || conf.numReconstruct < 1 {
      return Some(FieldOutOfRange);
    }
    if |conf.cores| > conf.numParties {
      TooManyCores(conf);
      return Some(CoreCount);
    }
    e := ValidateCores(conf);
    if e.Some? {
      return;
    }
    if conf.numMajority > conf.numParties {
      return Some(MajorityCount);
    }
    if conf.numReconstruct > conf.numParties {
      return Some(ReconstructionCount);
    }
    if conf.numReconstruct < conf.numMajority {
      return Some(ReconstructionCount);
    }
    if conf.numParties > 1 {
      if conf.kmsType != Threshold {
        return Some(WrongKmsType);
      }
    } else {
      if conf.kmsType == Centralized {
        if conf.numMajority != 1 {
          return Some(CentralizedMajority);
        }
        if conf.numReconstruct != 1 {
          return Some(CentralizedReconstruction);
        }
        if conf.cores[0].partyId != 1 {
          return Some(CentralizedPartyId);
        }
      }
    }
    return None;
  }

  // -------------------------------------------------------------------------
  // Counting parties
  // -------------------------------------------------------------------------

  /** Distinct ids between 1 and `n` are at most `n`: the count check is implied by the others. */
  lemma Pigeonhole(ids: seq<int>, n: nat)
    requires Distinct(ids)
    requires forall i :: 0 <= i < |ids| ==> 1 <= ids[i] <= n
    ensures |ids| <= n
  {
    DistinctSize(ids);
    var all := set x | x in ids;
    assert all <= Range(1, n + 1);
    SubsetSize(all, Range(1, n + 1));
    RangeSize(1, n + 1);
  }

  lemma TooManyCores(conf: Config)
    requires |conf.cores| > conf.numParties
    ensures !Acceptable(conf)
  {
    if Acceptable(conf) {
      Pigeonhole(Ids(conf.cores), conf.numParties);
    }
  }

  // -------------------------------------------------------------------------
  // Looking up a core
  // -------------------------------------------------------------------------

  /** `cores[party_id - 1]`; out of bounds is a panic. */
  function IndexLookup(conf: Config, partyId: nat): Option<CoreConf> {
    if 1 <= partyId <= |conf.cores| then Some(conf.cores[partyId - 1]) else None
  }

  /** `cores.iter().find(|c| c == core)`. */
  method SearchLookup(conf: Config, core: CoreConf) returns (r: Option<CoreConf>)
    ensures r.Some? <==> core in conf.cores
    ensures r.Some? ==> r.value == core
  {
    for i := 0 to |conf.cores|
      invariant forall j :: 0 <= j < i ==> conf.cores[j] != core
    {
      if conf.cores[i] == core {
        return Some(conf.cores[i]);
      }
    }
    return None;
  }

  ghost predicate Increasing(ids: seq<int>) {
    forall i, j :: 0 <= i < j < |ids| ==> ids[i] < ids[j]
  }

  /** In increasing order starting from at least 1 the ids run ahead of the positions. */
  lemma {:induction false} AheadOfPosition(ids: seq<int>, k: nat)
    requires Increasing(ids) && k < |ids| && ids[0] >= 1
    ensures ids[k] >= k + 1
  {
    if k > 0 {
      AheadOfPosition(ids, k - 1);
    }
  }

  /** And they leave room for all that follow. */
  lemma {:induction false} GapToLast(ids: seq<int>, k: nat)
    requires Increasing(ids) && k < |ids|
    ensures ids[|ids| - 1] - ids[k] >= |ids| - 1 - k
    decreases |ids| - k
  {
    if k < |ids| - 1 {
      GapToLast(ids, k + 1);
    }
  }

  /** Every core sits at the position its id names. */
  ghost predicate InPlace(conf: Config) {
    forall i :: 0 <= i < |conf.cores| ==> conf.cores[i].partyId == i + 1
  }

  /** The index lookup finds every configured core. */
  ghost predicate IndexFindsAll(conf: Config) {
    forall c :: c in conf.cores ==> IndexLookup(conf, c.partyId) == Some(c)
  }

  /** The ids are increasing and end with the number of cores. */
  ghost predicate ListedInOrder(conf: Config) {
    && conf.cores != [] && Increasing(Ids(conf.cores))
    && conf.cores[|conf.cores| - 1].partyId == |conf.cores|
  }

  lemma SortedIsInPlace(conf: Config)
    requires Acceptable(conf) && ListedInOrder(conf)
    ensures InPlace(conf)
  {
    var ids := Ids(conf.cores);
    forall i | 0 <= i < |conf.cores| ensures conf.cores[i].partyId == i + 1 {
      AheadOfPosition(ids, i);
      GapToLast(ids, i);
    }
  }

  lemma AgreementIsInPlace(conf: Config)
    requires Acceptable(conf) && IndexFindsAll(conf)
    ensures InPlace(conf)
  {
    var ids := Ids(conf.cores);
    forall i | 0 <= i < |conf.cores| ensures conf.cores[i].partyId == i + 1 {
      var c := conf.cores[i];
      assert c in conf.cores;
      assert ids[c.partyId - 1] == ids[i];
    }
  }

  lemma InPlaceSuffices(conf: Config)
    requires conf.cores != [] && InPlace(conf)
    ensures IndexFindsAll(conf) && ListedInOrder(conf)
  {
  }

  /** The index lookup finds every configured core exactly when the cores are listed in
      increasing order and the last id is the number of cores. */
  lemma IndexAgreesIff(conf: Config)
    requires Acceptable(conf)
    ensures IndexFindsAll(conf) <==> ListedInOrder(conf)
  {
    if IndexFindsAll(conf) {
      AgreementIsInPlace(conf);
      InPlaceSuffices(conf);
    }
    if ListedInOrder(conf) {
      SortedIsInPlace(conf);
      InPlaceSuffices(conf);
    }
  }

  /** When every party is configured, listing them in increasing order is enough. */
  lemma FullListSuffices(conf: Config)
    requires Acceptable(conf) && |conf.cores| == conf.numParties && Increasing(Ids(conf.cores))
    ensures InPlace(conf) && IndexFindsAll(conf)
  {
    AheadOfPosition(Ids(conf.cores), |conf.cores| - 1);
    SortedIsInPlace(conf);
    InPlaceSuffices(conf);
  }

  /** When every party is configured, the index is in bounds for each of them; it yields the core
      itself exactly when that core sits at the position its id names. */
  lemma FullListInBounds(conf: Config, c: CoreConf)
    requires Acceptable(conf) && |conf.cores| == conf.numParties && c in conf.cores
    ensures 1 <= c.partyId <= |conf.cores|
    ensures IndexLookup(conf, c.partyId).Some? && IndexLookup(conf, c.partyId).value in conf.cores
    ensures IndexLookup(conf, c.partyId) == Some(c) <==> conf.cores[c.partyId - 1].partyId == c.partyId
  {
    var i :| 0 <= i < |conf.cores| && conf.cores[i] == c;
    var ids := Ids(conf.cores);
    assert ids[i] == c.partyId && ids[c.partyId - 1] == conf.cores[c.partyId - 1].partyId;
  }

  /** When every party is configured, the index lookup yields a wrong core for some party exactly
      when the cores are not listed in order, which then only means increasing. */
  lemma FullListPicksWrongIff(conf: Config)
    requires Acceptable(conf) && |conf.cores| == conf.numParties
    ensures (exists c :: c in conf.cores && IndexLookup(conf, c.partyId).Some? && IndexLookup(conf, c.partyId).value != c)
       <==> !ListedInOrder(conf)
    ensures ListedInOrder(conf) <==> Increasing(Ids(conf.cores))
  {
    IndexAgreesIff(conf);
    if Increasing(Ids(conf.cores)) {
      FullListSuffices(conf);
    }
    if !ListedInOrder(conf) {
      var c :| c in conf.cores && IndexLookup(conf, c.partyId) != Some(c);
      FullListInBounds(conf, c);
    }
  }

  /** Two parties listed the wrong way round pass validation, and the index lookup of party 2
      yields the core of party 1. */
  lemma ReversedListPicksWrong(a: CoreConf, b: CoreConf)
    requires a.partyId == 1 && b.partyId == 2 && a.address != b.address
    ensures var conf := Config(Threshold, [b, a], 2, 1, 2);
            Acceptable(conf) && IndexLookup(conf, 2) == Some(a) && IndexLookup(conf, 1) == Some(b)
  {
    var conf := Config(Threshold, [b, a], 2, 1, 2);
    assert Ids(conf.cores) == [2, 1] && Addresses(conf.cores) == [b.address, a.address];
  }

  /** The party ids as a set. */
  ghost function IdSet(conf: Config): set<int> {
    set x | x in Ids(conf.cores)
  }

  lemma DistinctCores(conf: Config)
    requires Acceptable(conf)
    ensures Distinct(conf.cores)
  {
    var ids := Ids(conf.cores);
    forall i, j | 0 <= i < j < |conf.cores| ensures conf.cores[i] != conf.cores[j] {
      assert ids[i] != ids[j];
    }
  }

  /** Distinct numbers from 1 to their count are all of them. */
  lemma FillsRange(ids: seq<int>)
    requires Distinct(ids) && forall i :: 0 <= i < |ids| ==> 1 <= ids[i] <= |ids|
    ensures (set x | x in ids) == Range(1, |ids| + 1)
  {
    DistinctSize(ids);
    RangeSize(1, |ids| + 1);
    SubsetSize((set x | x in ids), Range(1, |ids| + 1));
  }

  lemma InBoundsMeans(conf: Config)
    ensures (forall c :: c in conf.cores ==> IndexLookup(conf, c.partyId).Some?)
       <==> forall i :: 0 <= i < |conf.cores| ==> 1 <= conf.cores[i].partyId <= |conf.cores|
  {
    if forall c :: c in conf.cores ==> IndexLookup(conf, c.partyId).Some? {
      forall i | 0 <= i < |conf.cores| ensures 1 <= conf.cores[i].partyId <= |conf.cores| {
        assert conf.cores[i] in conf.cores;
      }
    }
  }

  lemma RangeBounds(conf: Config)
    requires IdSet(conf) == Range(1, |conf.cores| + 1)
    ensures forall i :: 0 <= i < |conf.cores| ==> 1 <= conf.cores[i].partyId <= |conf.cores|
  {
    forall i | 0 <= i < |conf.cores| ensures 1 <= conf.cores[i].partyId <= |conf.cores| {
      assert Ids(conf.cores)[i] in Ids(conf.cores);
      assert conf.cores[i].partyId in IdSet(conf);
    }
  }

  /** In an accepted configuration the index lookup is in bounds for every configured core exactly
      when the party ids are the numbers from 1 to the number of cores, in any order. */
  lemma IndexInBoundsIff(conf: Config)
    requires Acceptable(conf)
    ensures (forall c :: c in conf.cores ==> IndexLookup(conf, c.partyId).Some?)
       <==> IdSet(conf) == Range(1, |conf.cores| + 1)
  {
    InBoundsMeans(conf);
    if forall c :: c in conf.cores ==> IndexLookup(conf, c.partyId).Some? {
      FillsRange(Ids(conf.cores));
    } else if IdSet(conf) == Range(1, |conf.cores| + 1) {
      RangeBounds(conf);
    }
  }

  /** When every party is configured, some party names each position. */
  lemma PartyNaming(conf: Config, k: nat) returns (p: CoreConf)
    requires Acceptable(conf) && |conf.cores| == conf.numParties && k < |conf.cores|
    ensures p in conf.cores && p.partyId == k + 1
  {
    forall c | c in conf.cores ensures IndexLookup(conf, c.partyId).Some? {
      FullListInBounds(conf, c);
    }
    IndexInBoundsIff(conf);
    assert k + 1 in IdSet(conf);
    var i :| 0 <= i < |conf.cores| && Ids(conf.cores)[i] == k + 1;
    p := conf.cores[i];
  }

  /** A client that talks to a subset of the parties passes validation and yet its only core is
      out of reach of the index lookup. */
  lemma SubsetBreaksIndex()
    ensures exists conf, c :: Acceptable(conf) && c in conf.cores && IndexLookup(conf, c.partyId).None?
  {
    var c := CoreConf(2, "localhost:50002", "http://localhost:9000/kms", "PUB-p2");
    var conf := Config(Threshold, [c], 4, 2, 3);
    assert Acceptable(conf) && c in conf.cores && IndexLookup(conf, c.partyId).None?;
  }
}
