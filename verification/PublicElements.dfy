/** Fetching the public elements of a key from the cores and loading its material. */
module PublicElements {
  import opened Wrappers
  import opened Sequences
  import opened Hex
  import opened Identifiers
  import opened Cores
  import opened ClientConfig

  datatype Format = CompressedKeys | UncompressedKeys

  type Material = seq<Byte>

  /** Where public elements come from. `has` tells whether a core has an element of a key.
      `listing` is the order in which a set of cores is listed, which may differ from key to key.
      `load` reads the fetched material from a folder; a panic is `None`. */
  datatype Storage = Storage(
    conf: Config,
    has: (string, Id, CoreConf) -> bool,
    listing: (Id, set<CoreConf>) -> seq<CoreConf>,
    load: (Format, Id, string) -> Option<Material>)

  /** The elements that make up a key in a format. */
  function Elements(format: Format): seq<string> {
    match format
    case CompressedKeys => ["CompressedXofKeySet", "PublicKey"]
    case UncompressedKeys => ["PublicKey", "ServerKey"]
  }

  // -------------------------------------------------------------------------
  // Fetching
  // -------------------------------------------------------------------------

  /** The core has every element of the key in the format. */
  predicate Serves(s: Storage, format: Format, keyId: Id, c: CoreConf) {
    forall i :: 0 <= i < |Elements(format)| ==> s.has(Elements(format)[i], keyId, c)
  }

  /** The elements of a compressed key are the key set and the public key, those of an uncompressed
      key the public and the server key. */
  lemma ServesMeans(s: Storage, keyId: Id, c: CoreConf)
    ensures Serves(s, CompressedKeys, keyId, c)
       <==> s.has("CompressedXofKeySet", keyId, c) && s.has("PublicKey", keyId, c)
    ensures Serves(s, UncompressedKeys, keyId, c) <==> s.has("PublicKey", keyId, c) && s.has("ServerKey", keyId, c)
  {
    assert Elements(CompressedKeys)[0] == "CompressedXofKeySet" && Elements(CompressedKeys)[1] == "PublicKey";
    assert Elements(UncompressedKeys)[0] == "PublicKey" && Elements(UncompressedKeys)[1] == "ServerKey";
  }

  function Servers(s: Storage, format: Format, keyId: Id): set<CoreConf> {
    set c | c in s.conf.cores && Serves(s, format, keyId, c)
  }

  method FetchFromCore(s: Storage, format: Format, keyId: Id, core: CoreConf) returns (all: bool)
    ensures all <==> Serves(s, format, keyId, core)
  {
    var elements := Elements(format);
    for i := 0 to |elements|
      invariant forall j :: 0 <= j < i ==> s.has(elements[j], keyId, core)
    {
      if !s.has(elements[i], keyId, core) {
        return false;
      }
    }
    return true;
  }

  /** The cores that served a key, or `None` if there are none: all of them, or only the first one
      in the configuration if one is enough. */
  method FetchPublicElements(s: Storage, format: Format, keyId: Id, downloadAll: bool)
    returns (r: Option<seq<CoreConf>>)
    ensures r.None? <==> Servers(s, format, keyId) == {}
    ensures r.Some? && downloadAll ==> r.value == s.listing(keyId, Servers(s, format, keyId))
    ensures r.Some? && !downloadAll ==>
      exists k :: 0 <= k < |s.conf.cores| && Serves(s, format, keyId, s.conf.cores[k])
        && (forall j :: 0 <= j < k ==> !Serves(s, format, keyId, s.conf.cores[j]))
        && r.value == s.listing(keyId, {s.conf.cores[k]})
  {
    var successful: set<CoreConf> := {};
    var cores := s.conf.cores;
    for i := 0 to |cores|
      invariant successful == set c | c in cores[..i] && Serves(s, format, keyId, c)
      invariant !downloadAll ==> successful == {}
    {
      assert cores[..i + 1] == cores[..i] + [cores[i]];
      var all := FetchFromCore(s, format, keyId, cores[i]);
      if all {
        assert cores[i] in Servers(s, format, keyId);
        forall j | !downloadAll && 0 <= j < i ensures !Serves(s, format, keyId, cores[j]) {
          assert cores[j] in cores[..i];
          assert cores[j] !in successful;
        }
        successful := successful + {cores[i]};
        if !downloadAll {
          assert successful == {cores[i]};
          return Some(s.listing(keyId, successful));
        }
      }
    }
    assert cores[..|cores|] == cores;
    if successful == {} {
      return None;
    }
    r := Some(s.listing(keyId, successful));
  }

  // -------------------------------------------------------------------------
  // Loading
  // -------------------------------------------------------------------------

  /** Compressed if some core has the key in that format. */
  function Preferred(s: Storage, keyId: Id): Format {
    if Servers(s, CompressedKeys, keyId) != {} then CompressedKeys else UncompressedKeys
  }

  datatype Loaded = Loaded(format: Format, material: Material)

  /** The cores that served the key in the preferred format, as listed. */
  function Contacted(s: Storage, keyId: Id): seq<CoreConf> {
    s.listing(keyId, Servers(s, Preferred(s, keyId), keyId))
  }

  /** The material of a key: served by as many cores as there are parties, and read from the folder
      of the core at the position that the first of them names. */
  function LoadedFor(s: Storage, keyId: Id): Option<Loaded> {
    var format, contacted := Preferred(s, keyId), Contacted(s, keyId);
    if Servers(s, format, keyId) == {} || |contacted| != s.conf.numParties || contacted == [] then None
    else
      var core :- IndexLookup(s.conf, contacted[0].partyId);
      var material :- s.load(format, keyId, core.objectFolder);
      Some(Loaded(format, material))
  }

  method LoadMaterial(s: Storage, keyId: Id) returns (r: Option<Loaded>)
    ensures r == LoadedFor(s, keyId)
  {
    var format := CompressedKeys;
    var parties := FetchPublicElements(s, CompressedKeys, keyId, true);
    if parties.None? {
      format := UncompressedKeys;
      parties := FetchPublicElements(s, UncompressedKeys, keyId, true);
      if parties.None? {
        return None;
      }
    }
    if |parties.value| != s.conf.numParties {
      return None;
    }
    if parties.value == [] {
      return None;
    }
    var core := IndexLookup(s.conf, parties.value[0].partyId);
    if core.None? {
      return None;
    }
    var material := s.load(format, keyId, core.value.objectFolder);
    if material.None? {
      return None;
    }
    r := Some(Loaded(format, material.value));
  }

  // -------------------------------------------------------------------------
  // Listings
  // -------------------------------------------------------------------------

  ghost predicate Configured(conf: Config, t: set<CoreConf>) {
    forall c :: c in t ==> c in conf.cores
  }

  /** A listing names every core of a set once. */
  ghost predicate ListsCores(s: Storage) {
    forall keyId, t :: Configured(s.conf, t) ==> multiset(s.listing(keyId, t)) == multiset(t)
  }

  lemma ListingOf(listed: seq<CoreConf>, t: set<CoreConf>)
    requires multiset(listed) == multiset(t)
    ensures |listed| == |t| && forall c :: c in listed <==> c in t
  {
    assert |multiset(listed)| == |listed| && |multiset(t)| == |t|;
    forall c ensures c in listed <==> c in t {
      assert c in multiset(listed) <==> c in multiset(t);
    }
  }

  /** The configured cores of a set, in configuration order. */
  function InOrder(cores: seq<CoreConf>, t: set<CoreConf>): seq<CoreConf> {
    if cores == [] then []
    else InOrder(cores[..|cores| - 1], t) + if cores[|cores| - 1] in t then [cores[|cores| - 1]] else []
  }

  lemma {:induction false} CountInOrder(cores: seq<CoreConf>, t: set<CoreConf>, c: CoreConf)
    ensures multiset(InOrder(cores, t))[c] == if c in t then multiset(cores)[c] else 0
  {
    if cores != [] {
      var init, last := cores[..|cores| - 1], cores[|cores| - 1];
      CountInOrder(init, t, c);
      assert cores == init + [last];
    }
  }

  lemma InOrderLists(cores: seq<CoreConf>, t: set<CoreConf>)
    requires Distinct(cores) && forall c :: c in t ==> c in cores
    ensures multiset(InOrder(cores, t)) == multiset(t)
  {
    forall c ensures multiset(InOrder(cores, t))[c] == multiset(t)[c] {
      CountInOrder(cores, t, c);
      CountOnce(cores, c);
      assert c in cores <==> c in multiset(cores);
    }
  }

  /** A listing that names `c` first. */
  function PutFirst(c: CoreConf, cores: seq<CoreConf>, t: set<CoreConf>): seq<CoreConf> {
    if c in t then [c] + InOrder(cores, t - {c}) else InOrder(cores, t)
  }

  lemma PutFirstLists(c: CoreConf, cores: seq<CoreConf>, t: set<CoreConf>)
    requires Distinct(cores) && forall x :: x in t ==> x in cores
    ensures multiset(PutFirst(c, cores, t)) == multiset(t)
  {
    if c in t {
      InOrderLists(cores, t - {c});
      assert multiset(t) == multiset(t - {c}) + multiset{c};
    } else {
      InOrderLists(cores, t);
    }
  }

  /** The storage when cores are listed with `c` first. */
  ghost function Favouring(s: Storage, c: CoreConf): Storage {
    s.(listing := (keyId, t) => PutFirst(c, s.conf.cores, t))
  }

  lemma FavouringLists(s: Storage, c: CoreConf)
    requires Acceptable(s.conf)
    ensures ListsCores(Favouring(s, c))
  {
    DistinctCores(s.conf);
    forall keyId: Id, t | Configured(s.conf, t)
      ensures multiset(Favouring(s, c).listing(keyId, t)) == multiset(t)
    {
      PutFirstLists(c, s.conf.cores, t);
    }
  }

  // -------------------------------------------------------------------------
  // What loading means
  // -------------------------------------------------------------------------

  lemma AllCoresServe(s: Storage, format: Format, keyId: Id)
    requires Acceptable(s.conf) && |Servers(s, format, keyId)| == s.conf.numParties
    ensures |s.conf.cores| == s.conf.numParties && forall c :: c in s.conf.cores ==> Serves(s, format, keyId, c)
  {
    var all := set c | c in s.conf.cores;
    SizeOfElements(s.conf.cores);
    SubsetSize(Servers(s, format, keyId), all);
    if |s.conf.cores| > s.conf.numParties {
      TooManyCores(s.conf);
    }
    forall c | c in s.conf.cores ensures Serves(s, format, keyId, c) {
      assert c in all;
    }
  }

  lemma AllCoresAreServers(s: Storage, format: Format, keyId: Id)
    requires Acceptable(s.conf) && forall c :: c in s.conf.cores ==> Serves(s, format, keyId, c)
    ensures |Servers(s, format, keyId)| == |s.conf.cores|
  {
    DistinctCores(s.conf);
    DistinctSize(s.conf.cores);
    assert Servers(s, format, keyId) == set c | c in s.conf.cores;
  }

  lemma ContactedAreServers(s: Storage, keyId: Id)
    requires ListsCores(s)
    ensures |Contacted(s, keyId)| == |Servers(s, Preferred(s, keyId), keyId)|
    ensures forall c :: c in Contacted(s, keyId) <==> c in Servers(s, Preferred(s, keyId), keyId)
  {
    var t := Servers(s, Preferred(s, keyId), keyId);
    assert Configured(s.conf, t);
    ListingOf(s.listing(keyId, t), t);
  }

  /** Material that is loaded comes from a complete deployment: every party is configured, every
      configured core serves the key in this format, which is the compressed one exactly when some
      core has it, and the folder belongs to a configured core. The index is never out of bounds
      on the way. */
  lemma LoadedMeans(s: Storage, keyId: Id)
    requires Acceptable(s.conf) && ListsCores(s) && LoadedFor(s, keyId).Some?
    ensures var l := LoadedFor(s, keyId).value;
            && |s.conf.cores| == s.conf.numParties
            && (forall c :: c in s.conf.cores ==> Serves(s, l.format, keyId, c))
            && (l.format == CompressedKeys <==> exists c :: c in s.conf.cores && Serves(s, CompressedKeys, keyId, c))
            && exists c :: c in s.conf.cores && s.load(l.format, keyId, c.objectFolder) == Some(l.material)
  {
    ContactedAreServers(s, keyId);
    AllCoresServe(s, Preferred(s, keyId), keyId);
    var first := Contacted(s, keyId)[0];
    assert first in Contacted(s, keyId);
    FullListInBounds(s.conf, first);
    var core := IndexLookup(s.conf, first.partyId).value;
    assert core in s.conf.cores && s.load(Preferred(s, keyId), keyId, core.objectFolder).Some?;
    if c :| c in s.conf.cores && Serves(s, CompressedKeys, keyId, c) {
      assert c in Servers(s, CompressedKeys, keyId);
    }
    if d :| d in Servers(s, CompressedKeys, keyId) {
      assert d in s.conf.cores && Serves(s, CompressedKeys, keyId, d);
    }
  }

  /** Every party is configured, every configured core serves the key in the preferred format, and
      every configured core's folder can be read. */
  ghost predicate Complete(s: Storage, keyId: Id) {
    && |s.conf.cores| == s.conf.numParties
    && forall c :: c in s.conf.cores ==>
      Serves(s, Preferred(s, keyId), keyId, c) && s.load(Preferred(s, keyId), keyId, c.objectFolder).Some?
  }

  lemma CompleteLoads(s: Storage, keyId: Id)
    requires Acceptable(s.conf) && ListsCores(s) && Complete(s, keyId)
    ensures LoadedFor(s, keyId).Some?
  {
    AllCoresAreServers(s, Preferred(s, keyId), keyId);
    ContactedAreServers(s, keyId);
    var first := Contacted(s, keyId)[0];
    assert first in Contacted(s, keyId);
    FullListInBounds(s.conf, first);
  }

  lemma SameServers(s: Storage, listing: (Id, set<CoreConf>) -> seq<CoreConf>, keyId: Id)
    ensures Preferred(s.(listing := listing), keyId) == Preferred(s, keyId)
    ensures Complete(s.(listing := listing), keyId) <==> Complete(s, keyId)
  {
    var t := s.(listing := listing);
    assert forall format, c :: Serves(t, format, keyId, c) <==> Serves(s, format, keyId, c);
    assert Servers(t, CompressedKeys, keyId) == Servers(s, CompressedKeys, keyId);
  }

  lemma FavouredIsFirst(s: Storage, keyId: Id, p: CoreConf)
    requires Acceptable(s.conf) && p in s.conf.cores && LoadedFor(Favouring(s, p), keyId).Some?
    ensures Contacted(Favouring(s, p), keyId) != [] && Contacted(Favouring(s, p), keyId)[0] == p
  {
    var f := Favouring(s, p);
    FavouringLists(s, p);
    LoadedMeans(f, keyId);
    assert p in Servers(f, Preferred(f, keyId), keyId);
  }

  lemma LoadedReads(s: Storage, keyId: Id, c: CoreConf)
    requires LoadedFor(s, keyId).Some?
    requires Contacted(s, keyId) != [] && IndexLookup(s.conf, Contacted(s, keyId)[0].partyId) == Some(c)
    ensures s.load(Preferred(s, keyId), keyId, c.objectFolder).Some?
  {
  }

  /** With the party that names its position listed first, a core's own folder is read. */
  lemma FavouredFolderIsRead(s: Storage, keyId: Id, c: CoreConf)
    requires Acceptable(s.conf) && |s.conf.cores| == s.conf.numParties && c in s.conf.cores
    requires forall p :: p in s.conf.cores ==> LoadedFor(Favouring(s, p), keyId).Some?
    ensures s.load(Preferred(s, keyId), keyId, c.objectFolder).Some?
  {
    var k :| 0 <= k < |s.conf.cores| && s.conf.cores[k] == c;
    var p := PartyNaming(s.conf, k);
    SameServers(s, Favouring(s, p).listing, keyId);
    FavouredIsFirst(s, keyId, p);
    LoadedReads(Favouring(s, p), keyId, c);
  }

  /** Whatever the order in which cores are listed, the material of a key is loaded, exactly when
      the deployment is complete for this key. */
  lemma LoadedInEveryOrderIff(s: Storage, keyId: Id)
    requires Acceptable(s.conf)
    ensures (forall listing :: ListsCores(s.(listing := listing)) ==> LoadedFor(s.(listing := listing), keyId).Some?)
       <==> Complete(s, keyId)
  {
    if Complete(s, keyId) {
      forall listing | ListsCores(s.(listing := listing)) ensures LoadedFor(s.(listing := listing), keyId).Some? {
        SameServers(s, listing, keyId);
        CompleteLoads(s.(listing := listing), keyId);
      }
    } else if forall listing :: ListsCores(s.(listing := listing)) ==> LoadedFor(s.(listing := listing), keyId).Some? {
      forall p | p in s.conf.cores ensures LoadedFor(Favouring(s, p), keyId).Some? {
        FavouringLists(s, p);
        assert Favouring(s, p) == s.(listing := Favouring(s, p).listing);
      }
      EveryOrderCompletes(s, keyId);
    }
  }

  lemma EveryOrderCompletes(s: Storage, keyId: Id)
    requires Acceptable(s.conf) && forall p :: p in s.conf.cores ==> LoadedFor(Favouring(s, p), keyId).Some?
    ensures Complete(s, keyId)
  {
    var p := s.conf.cores[0];
    FavouringLists(s, p);
    LoadedMeans(Favouring(s, p), keyId);
    SameServers(s, Favouring(s, p).listing, keyId);
    forall c | c in s.conf.cores
      ensures Serves(s, Preferred(s, keyId), keyId, c) && s.load(Preferred(s, keyId), keyId, c.objectFolder).Some?
    {
      assert Serves(Favouring(s, p), Preferred(s, keyId), keyId, c);
      FavouredFolderIsRead(s, keyId, c);
    }
  }
}
