/** One previous key on the command line: `key=value` pairs separated by commas, in any order. */
module KeyInfo {
  import opened Wrappers
  import opened Sequences
  import opened Text
  import opened Identifiers

  datatype Digest = Compressed(xof: string) | Uncompressed(server: string, public: string)

  datatype Info = Info(keyId: Id, preprocId: Id, digest: Digest)

  datatype Field = KeyId | PreprocId | XofDigest | ServerDigest | PublicDigest

  datatype Entry = Entry(field: Field, value: string)

  function FieldNamed(name: string): Option<Field> {
    if name == "key_id" then Some(KeyId)
    else if name == "preproc_id" then Some(PreprocId)
    else if name == "xof_key_digest" then Some(XofDigest)
    else if name == "server_key_digest" then Some(ServerDigest)
    else if name == "public_key_digest" then Some(PublicDigest)
    else None
  }

  /** A piece between commas, if it is a `key=value` pair with a known key. */
  function EntryOf(piece: string): Option<Entry> {
    match SplitOnce(piece, '=')
    case None => None
    case Some(p) =>
      match FieldNamed(p.key)
      case None => None
      case Some(f) => Some(Entry(f, p.value))
  }

  /** All pieces as entries; `None` if one of them is not a pair with a known key. */
  function Entries(pieces: seq<string>): Option<seq<Entry>> {
    if pieces == [] then Some([])
    else
      match (Entries(pieces[..|pieces| - 1]), EntryOf(pieces[|pieces| - 1]))
      case (Some(es), Some(e)) => Some(es + [e])
      case _ => None
  }

  function Fields(entries: seq<Entry>): seq<Field> {
    Map((e: Entry) => e.field, entries)
  }

  // -------------------------------------------------------------------------
  // What the text means
  // -------------------------------------------------------------------------

  /** The entries spell out `info`: the identifiers and one of the two kinds of digests, each
      once and nothing else, in whatever order. */
  ghost predicate Describes(entries: seq<Entry>, info: Info) {
    && Mentions(entries, KeyId, info.keyId) && Mentions(entries, PreprocId, info.preprocId)
    && match info.digest
       case Compressed(xof) =>
         && multiset(Fields(entries)) == multiset{KeyId, PreprocId, XofDigest}
         && Entry(XofDigest, xof) in entries
       case Uncompressed(server, public) =>
         && multiset(Fields(entries)) == multiset{KeyId, PreprocId, ServerDigest, PublicDigest}
         && Entry(ServerDigest, server) in entries && Entry(PublicDigest, public) in entries
  }

  ghost predicate Mentions(entries: seq<Entry>, f: Field, id: Id) {
    exists v :: Entry(f, v) in entries && Parse(v) == Some(id)
  }

  // -------------------------------------------------------------------------
  // Reading entries one by one
  // -------------------------------------------------------------------------

  /** The fields seen so far with their values. */
  type Seen = map<Field, string>

  /** The two kinds of digests exclude each other. */
  predicate Conflicts(seen: Seen, f: Field) {
    || (f == XofDigest && (ServerDigest in seen || PublicDigest in seen))
    || ((f == ServerDigest || f == PublicDigest) && XofDigest in seen)
  }

  predicate IsIdentifier(f: Field) {
    f == KeyId || f == PreprocId
  }

  /** Reads one entry: duplicates, conflicting digests and malformed identifiers are refused. */
  function Read(seen: Seen, e: Entry): Option<Seen> {
    if e.field in seen || Conflicts(seen, e.field) then None
    else if IsIdentifier(e.field) && Parse(e.value).None? then None
    else Some(seen[e.field := e.value])
  }

  function ReadAll(entries: seq<Entry>): Option<Seen> {
    if entries == [] then Some(map[])
    else
      match ReadAll(entries[..|entries| - 1])
      case None => None
      case Some(seen) => Read(seen, entries[|entries| - 1])
  }

  predicate IdentifiersParse(seen: Seen) {
    && (KeyId in seen ==> Parse(seen[KeyId]).Some?)
    && (PreprocId in seen ==> Parse(seen[PreprocId]).Some?)
  }

  /** The checks after the last entry. */
  function Finish(seen: Seen): Option<Info>
    requires IdentifiersParse(seen)
  {
    if (ServerDigest in seen) != (PublicDigest in seen) then None
    else if XofDigest !in seen && ServerDigest !in seen then None
    else if KeyId !in seen || PreprocId !in seen then None
    else
      Some(Info(Parse(seen[KeyId]).value, Parse(seen[PreprocId]).value,
                if XofDigest in seen then Compressed(seen[XofDigest])
                else Uncompressed(seen[ServerDigest], seen[PublicDigest])))
  }

  /** `seen` holds exactly the entries, without repetition, conflict or malformed identifier. */
  ghost predicate Holds(entries: seq<Entry>, seen: Seen) {
    && (forall f :: multiset(Fields(entries))[f] == if f in seen then 1 else 0)
    && (forall e :: e in entries ==> e.field in seen && seen[e.field] == e.value)
    && !(XofDigest in seen && (ServerDigest in seen || PublicDigest in seen))
    && IdentifiersParse(seen)
  }

  lemma FieldsSnoc(init: seq<Entry>, e: Entry)
    ensures multiset(Fields(init + [e])) == multiset(Fields(init)) + multiset{e.field}
  {
    assert Fields(init + [e]) == Fields(init) + [e.field];
  }

  lemma ReadKeepsHolds(init: seq<Entry>, e: Entry, seen: Seen)
    requires Holds(init, seen) && Read(seen, e).Some?
    ensures Holds(init + [e], Read(seen, e).value)
  {
    FieldsSnoc(init, e);
    var next := Read(seen, e).value;
    forall x | x in init + [e] ensures x.field in next && next[x.field] == x.value {
      assert x in init || x == e;
    }
  }

  /** Reading succeeds only on entries that fit together, and keeps all of them. */
  lemma {:induction false} ReadAllHolds(entries: seq<Entry>)
    ensures ReadAll(entries).Some? ==> Holds(entries, ReadAll(entries).value)
  {
    if entries == [] {
      assert Fields(entries) == [];
    } else {
      var init, e := entries[..|entries| - 1], entries[|entries| - 1];
      assert init + [e] == entries;
      ReadAllHolds(init);
      if ReadAll(init).Some? && Read(ReadAll(init).value, e).Some? {
        ReadKeepsHolds(init, e, ReadAll(init).value);
      }
    }
  }

  lemma HoldsInit(init: seq<Entry>, e: Entry, seen: Seen)
    requires Holds(init + [e], seen)
    ensures e.field in seen && seen[e.field] == e.value
    ensures Holds(init, seen - {e.field})
  {
    var entries := init + [e];
    FieldsSnoc(init, e);
    assert e in entries;
    forall x | x in init ensures x.field in seen - {e.field} && (seen - {e.field})[x.field] == x.value {
      assert x in entries;
      assert x.field in Fields(init) by {
        var i :| 0 <= i < |init| && init[i] == x;
        assert Fields(init)[i] == x.field;
      }
    }
  }

  lemma ReadLast(e: Entry, seen: Seen)
    requires e.field in seen && seen[e.field] == e.value
    requires !(XofDigest in seen && (ServerDigest in seen || PublicDigest in seen)) && IdentifiersParse(seen)
    ensures Read(seen - {e.field}, e) == Some(seen)
  {
    assert (seen - {e.field})[e.field := e.value] == seen;
  }

  /** Entries that fit together are read without complaint. */
  lemma {:induction false} HoldsReadAll(entries: seq<Entry>, seen: Seen)
    requires Holds(entries, seen)
    ensures ReadAll(entries) == Some(seen)
    decreases |entries|
  {
    if entries == [] {
      NothingSeen(seen);
    } else {
      var init, e := entries[..|entries| - 1], entries[|entries| - 1];
      assert entries == init + [e];
      HoldsInit(init, e, seen);
      HoldsReadAll(init, seen - {e.field});
      ReadLast(e, seen);
    }
  }

  lemma NothingSeen(seen: Seen)
    requires Holds([], seen)
    ensures seen == map[]
  {
    assert Fields([]) == [];
  }

  // -------------------------------------------------------------------------
  // Parsing
  // -------------------------------------------------------------------------

  function InfoOf(entries: seq<Entry>): Option<Info> {
    match ReadAll(entries)
    case None => None
    case Some(seen) => ReadAllHolds(entries); Finish(seen)
  }

  function ParseInfo(s: string): Option<Info> {
    match Entries(Split(s, ','))
    case None => None
    case Some(entries) => InfoOf(entries)
  }

  lemma HeldEntry(entries: seq<Entry>, seen: Seen, f: Field)
    requires Holds(entries, seen) && f in seen
    ensures Entry(f, seen[f]) in entries
  {
    assert multiset(Fields(entries))[f] == 1;
    assert f in Fields(entries);
    var i :| 0 <= i < |Fields(entries)| && Fields(entries)[i] == f;
    assert entries[i] in entries;
  }

  lemma FieldSet(entries: seq<Entry>, seen: Seen)
    requires forall f :: multiset(Fields(entries))[f] == if f in seen then 1 else 0
    ensures multiset(Fields(entries)) == multiset(seen.Keys)
  {
  }

  lemma CompressedKeys(seen: Seen)
    requires KeyId in seen && PreprocId in seen && XofDigest in seen
    requires ServerDigest !in seen && PublicDigest !in seen
    ensures multiset(seen.Keys) == multiset{KeyId, PreprocId, XofDigest}
  {
    forall f | f in seen.Keys ensures f in {KeyId, PreprocId, XofDigest} {
      match f { case KeyId => case PreprocId => case XofDigest => case ServerDigest => case PublicDigest => }
    }
    assert seen.Keys == {KeyId, PreprocId, XofDigest};
  }

  lemma UncompressedKeys(seen: Seen)
    requires KeyId in seen && PreprocId in seen && XofDigest !in seen
    requires ServerDigest in seen && PublicDigest in seen
    ensures multiset(seen.Keys) == multiset{KeyId, PreprocId, ServerDigest, PublicDigest}
  {
    forall f | f in seen.Keys ensures f in {KeyId, PreprocId, ServerDigest, PublicDigest} {
      match f { case KeyId => case PreprocId => case XofDigest => case ServerDigest => case PublicDigest => }
    }
    assert seen.Keys == {KeyId, PreprocId, ServerDigest, PublicDigest};
  }

  lemma SeenIsDescribed(entries: seq<Entry>, seen: Seen, info: Info)
    requires Holds(entries, seen) && Finish(seen) == Some(info)
    ensures Describes(entries, info)
  {
    FieldSet(entries, seen);
    HeldEntry(entries, seen, KeyId);
    HeldEntry(entries, seen, PreprocId);
    if XofDigest in seen {
      HeldEntry(entries, seen, XofDigest);
      CompressedKeys(seen);
    } else {
      HeldEntry(entries, seen, ServerDigest);
      HeldEntry(entries, seen, PublicDigest);
      UncompressedKeys(seen);
    }
  }

  lemma InfoIsDescribed(entries: seq<Entry>, info: Info)
    requires InfoOf(entries) == Some(info)
    ensures Describes(entries, info)
  {
    ReadAllHolds(entries);
    SeenIsDescribed(entries, ReadAll(entries).value, info);
  }

  /** A field that occurs once has one value. */
  lemma OneValue(entries: seq<Entry>, a: Entry, b: Entry)
    requires a in entries && b in entries && a.field == b.field
    requires multiset(Fields(entries))[a.field] == 1
    ensures a == b
  {
    var i :| 0 <= i < |entries| && entries[i] == a;
    var j :| 0 <= j < |entries| && entries[j] == b;
    assert Fields(entries)[i] == Fields(entries)[j] == a.field;
    if i < j {
      CountTwice(Fields(entries), i, j);
    } else if j < i {
      CountTwice(Fields(entries), j, i);
    }
  }

  lemma HoldsFromValues(entries: seq<Entry>, seen: Seen)
    requires multiset(Fields(entries)) == multiset(seen.Keys)
    requires forall f :: f in seen ==> Entry(f, seen[f]) in entries
    requires !(XofDigest in seen && (ServerDigest in seen || PublicDigest in seen)) && IdentifiersParse(seen)
    ensures Holds(entries, seen)
  {
    forall e | e in entries ensures e.field in seen && seen[e.field] == e.value {
      var i :| 0 <= i < |entries| && entries[i] == e;
      assert Fields(entries)[i] == e.field;
      assert multiset(Fields(entries))[e.field] >= 1;
      OneValue(entries, e, Entry(e.field, seen[e.field]));
    }
  }

  /** What has been seen after reading `info`, with `k` and `p` spelling its identifiers. */
  ghost function SeenOf(info: Info, k: string, p: string): Seen {
    match info.digest
    case Compressed(xof) => map[KeyId := k, PreprocId := p, XofDigest := xof]
    case Uncompressed(server, public) =>
      map[KeyId := k, PreprocId := p, ServerDigest := server, PublicDigest := public]
  }

  lemma FinishSeenOf(info: Info, k: string, p: string)
    requires Parse(k) == Some(info.keyId) && Parse(p) == Some(info.preprocId)
    ensures IdentifiersParse(SeenOf(info, k, p)) && Finish(SeenOf(info, k, p)) == Some(info)
  {
  }

  lemma SeenOfKeys(entries: seq<Entry>, info: Info, k: string, p: string)
    requires Describes(entries, info)
    ensures multiset(Fields(entries)) == multiset(SeenOf(info, k, p).Keys)
  {
    var seen := SeenOf(info, k, p);
    if info.digest.Compressed? {
      CompressedKeys(seen);
    } else {
      UncompressedKeys(seen);
    }
  }

  lemma CompressedEntries(entries: seq<Entry>, seen: Seen, k: string, p: string, xof: string)
    requires Entry(KeyId, k) in entries && Entry(PreprocId, p) in entries && Entry(XofDigest, xof) in entries
    requires seen == map[KeyId := k, PreprocId := p, XofDigest := xof]
    ensures forall f :: f in seen ==> Entry(f, seen[f]) in entries
  {
  }

  lemma UncompressedEntries(entries: seq<Entry>, seen: Seen, k: string, p: string, server: string, public: string)
    requires Entry(KeyId, k) in entries && Entry(PreprocId, p) in entries
    requires Entry(ServerDigest, server) in entries && Entry(PublicDigest, public) in entries
    requires seen == map[KeyId := k, PreprocId := p, ServerDigest := server, PublicDigest := public]
    ensures forall f :: f in seen ==> Entry(f, seen[f]) in entries
  {
  }

  lemma SeenOfEntries(entries: seq<Entry>, info: Info, k: string, p: string)
    requires Describes(entries, info)
    requires Entry(KeyId, k) in entries && Entry(PreprocId, p) in entries
    ensures forall f :: f in SeenOf(info, k, p) ==> Entry(f, SeenOf(info, k, p)[f]) in entries
  {
    match info.digest
    case Compressed(xof) => CompressedEntries(entries, SeenOf(info, k, p), k, p, xof);
    case Uncompressed(server, public) => UncompressedEntries(entries, SeenOf(info, k, p), k, p, server, public);
  }

  lemma SeenOfExclusive(info: Info, k: string, p: string)
    ensures var seen := SeenOf(info, k, p);
            !(XofDigest in seen && (ServerDigest in seen || PublicDigest in seen))
  {
  }

  lemma DescribedHolds(entries: seq<Entry>, info: Info, k: string, p: string)
    requires Describes(entries, info)
    requires Entry(KeyId, k) in entries && Entry(PreprocId, p) in entries
    requires IdentifiersParse(SeenOf(info, k, p))
    ensures Holds(entries, SeenOf(info, k, p))
  {
    SeenOfKeys(entries, info, k, p);
    SeenOfEntries(entries, info, k, p);
    SeenOfExclusive(info, k, p);
    HoldsFromValues(entries, SeenOf(info, k, p));
  }

  lemma DescribedIsRead(entries: seq<Entry>, info: Info)
    requires Describes(entries, info)
    ensures InfoOf(entries) == Some(info)
  {
    var k :| Entry(KeyId, k) in entries && Parse(k) == Some(info.keyId);
    var p :| Entry(PreprocId, p) in entries && Parse(p) == Some(info.preprocId);
    FinishSeenOf(info, k, p);
    DescribedHolds(entries, info, k, p);
    HoldsReadAll(entries, SeenOf(info, k, p));
  }

  /** A text parses to `info` exactly when its pairs spell out `info`: both identifiers, and
      either the one or the two digests, each once, nothing else, in any order. */
  lemma ParsesIff(s: string, info: Info)
    ensures ParseInfo(s) == Some(info)
       <==> Entries(Split(s, ',')).Some? && Describes(Entries(Split(s, ',')).value, info)
  {
    var e := Entries(Split(s, ','));
    if e.Some? {
      if InfoOf(e.value) == Some(info) {
        InfoIsDescribed(e.value, info);
      }
      if Describes(e.value, info) {
        DescribedIsRead(e.value, info);
      }
    }
  }

  // -------------------------------------------------------------------------
  // The order of the pairs
  // -------------------------------------------------------------------------

  function EntryOr(piece: string): Entry {
    match EntryOf(piece)
    case Some(e) => e
    case None => Entry(KeyId, "")
  }

  lemma {:induction false} EntriesPointwise(pieces: seq<string>)
    ensures Entries(pieces).Some? <==> forall p :: p in pieces ==> EntryOf(p).Some?
    ensures Entries(pieces).Some? ==> Entries(pieces).value == Map(EntryOr, pieces)
  {
    if pieces != [] {
      var init, last := pieces[..|pieces| - 1], pieces[|pieces| - 1];
      EntriesPointwise(init);
      assert pieces == init + [last];
      if Entries(pieces).Some? {
        assert Map(EntryOr, pieces) == Map(EntryOr, init) + [EntryOr(last)];
      }
    }
  }

  lemma DescribesUnderReordering(a: seq<Entry>, b: seq<Entry>, info: Info)
    requires multiset(a) == multiset(b) && Describes(a, info)
    ensures Describes(b, info)
  {
    MapUnderReordering((e: Entry) => e.field, a, b);
    assert forall e :: e in a ==> e in multiset(b);
  }

  /** Permuting the pairs of a text changes nothing. */
  lemma OrderIsIrrelevant(s: string, t: string)
    requires multiset(Split(s, ',')) == multiset(Split(t, ','))
    ensures ParseInfo(s) == ParseInfo(t)
  {
    HalfOrderIsIrrelevant(s, t);
    HalfOrderIsIrrelevant(t, s);
  }

  lemma HalfOrderIsIrrelevant(s: string, t: string)
    requires multiset(Split(s, ',')) == multiset(Split(t, ','))
    ensures ParseInfo(s).Some? ==> ParseInfo(t) == ParseInfo(s)
  {
    if ParseInfo(s).Some? {
      var a, b := Split(s, ','), Split(t, ',');
      EntriesPointwise(a);
      EntriesPointwise(b);
      assert forall p :: p in b ==> p in multiset(a);
      MapUnderReordering(EntryOr, a, b);
      ParsesIff(s, ParseInfo(s).value);
      DescribesUnderReordering(Entries(a).value, Entries(b).value, ParseInfo(s).value);
      ParsesIff(t, ParseInfo(s).value);
    }
  }
}
