/** Exactly which texts are previous keys, spelled out pair by pair. */
module KeyTexts {
  import opened Wrappers
  import opened Sequences
  import opened Text
  import opened Identifiers
  import opened KeyInfo

  /** The pairs of a key whose identifiers are written as `k` and `p`. */
  ghost function Pairs(info: Info, k: string, p: string): seq<string> {
    match info.digest
    case Compressed(xof) => ["key_id=" + k, "preproc_id=" + p, "xof_key_digest=" + xof]
    case Uncompressed(server, public) =>
      ["key_id=" + k, "preproc_id=" + p, "server_key_digest=" + server, "public_key_digest=" + public]
  }

  ghost function PairEntries(info: Info, k: string, p: string): seq<Entry> {
    match info.digest
    case Compressed(xof) => [Entry(KeyId, k), Entry(PreprocId, p), Entry(XofDigest, xof)]
    case Uncompressed(server, public) =>
      [Entry(KeyId, k), Entry(PreprocId, p), Entry(ServerDigest, server), Entry(PublicDigest, public)]
  }

  // -------------------------------------------------------------------------
  // Pieces and entries
  // -------------------------------------------------------------------------

  function NameOf(f: Field): string {
    match f
    case KeyId => "key_id"
    case PreprocId => "preproc_id"
    case XofDigest => "xof_key_digest"
    case ServerDigest => "server_key_digest"
    case PublicDigest => "public_key_digest"
  }

  function TextOf(e: Entry): string {
    NameOf(e.field) + ['='] + e.value
  }

  lemma Named(name: string, f: Field)
    ensures FieldNamed(name) == Some(f) <==> name == NameOf(f)
  {
  }

  lemma NameLacksEquals(f: Field)
    ensures '=' !in NameOf(f)
  {
  }

  lemma PieceIsText(piece: string)
    requires EntryOf(piece).Some?
    ensures piece == TextOf(EntryOf(piece).value)
  {
    Named(SplitOnce(piece, '=').value.key, EntryOf(piece).value.field);
  }

  lemma TextIsPiece(e: Entry)
    ensures EntryOf(TextOf(e)) == Some(e)
  {
    Named(NameOf(e.field), e.field);
    NameLacksEquals(e.field);
    SplitOnceAt(NameOf(e.field), e.value, '=');
  }

  lemma IdTexts(k: string, p: string)
    ensures "key_id=" + k == TextOf(Entry(KeyId, k)) && "preproc_id=" + p == TextOf(Entry(PreprocId, p))
  {
    assert "key_id=" == "key_id" + ['='] && "preproc_id=" == "preproc_id" + ['='];
  }

  lemma XofText(v: string)
    ensures "xof_key_digest=" + v == TextOf(Entry(XofDigest, v))
  {
    assert "xof_key_digest=" == "xof_key_digest" + ['='];
  }

  lemma PairTexts(a: string, b: string)
    ensures "server_key_digest=" + a == TextOf(Entry(ServerDigest, a))
    ensures "public_key_digest=" + b == TextOf(Entry(PublicDigest, b))
  {
    assert "server_key_digest=" == "server_key_digest" + ['='];
    assert "public_key_digest=" == "public_key_digest" + ['='];
  }

  lemma PairsAreTexts(info: Info, k: string, p: string)
    ensures Pairs(info, k, p) == Map(TextOf, PairEntries(info, k, p))
  {
    IdTexts(k, p);
    match info.digest
    case Compressed(xof) => XofText(xof);
    case Uncompressed(server, public) => PairTexts(server, public);
  }

  // -------------------------------------------------------------------------
  // A list of different elements found in a list of the same length
  // -------------------------------------------------------------------------

  lemma {:induction false} SameElements<T>(a: seq<T>, b: seq<T>)
    requires Distinct(a) && |a| == |b| && forall i :: 0 <= i < |a| ==> a[i] in b
    ensures multiset(a) == multiset(b)
    decreases |a|
  {
    if a == [] {
      assert b == [];
    } else {
      var n := |a| - 1;
      var k :| 0 <= k < |b| && b[k] == a[n];
      var rest := b[..k] + b[k + 1..];
      forall i | 0 <= i < n ensures a[..n][i] in rest {
        var m :| 0 <= m < |b| && b[m] == a[i];
        assert m < k ==> rest[m] == a[i];
        assert m > k ==> rest[m - 1] == a[i];
      }
      SameElements(a[..n], rest);
      TakeOut(b, k);
      assert a == a[..n] + [a[n]];
    }
  }

  // -------------------------------------------------------------------------
  // Texts
  // -------------------------------------------------------------------------

  lemma DescribedSize(entries: seq<Entry>, info: Info, k: string, p: string)
    requires Describes(entries, info)
    ensures |entries| == |PairEntries(info, k, p)|
  {
    assert |multiset(Fields(entries))| == |Fields(entries)| == |entries|;
  }

  lemma DescribedEntries(entries: seq<Entry>, info: Info, k: string, p: string)
    requires Describes(entries, info) && Entry(KeyId, k) in entries && Entry(PreprocId, p) in entries
    ensures multiset(PairEntries(info, k, p)) == multiset(entries)
  {
    DescribedSize(entries, info, k, p);
    DifferentFields(info, k, p);
    SameElements(PairEntries(info, k, p), entries);
  }

  lemma DifferentFields(info: Info, k: string, p: string)
    ensures Distinct(PairEntries(info, k, p))
  {
    var e := PairEntries(info, k, p);
    forall i, j | 0 <= i < j < |e| ensures e[i] != e[j] {
      assert e[i].field != e[j].field;
    }
  }

  lemma CompressedFields(k: string, p: string, xof: string)
    ensures Fields([Entry(KeyId, k), Entry(PreprocId, p), Entry(XofDigest, xof)]) == [KeyId, PreprocId, XofDigest]
  {
  }

  lemma UncompressedFields(k: string, p: string, server: string, public: string)
    ensures Fields([Entry(KeyId, k), Entry(PreprocId, p), Entry(ServerDigest, server), Entry(PublicDigest, public)])
         == [KeyId, PreprocId, ServerDigest, PublicDigest]
  {
  }

  lemma PairEntriesDescribe(info: Info, k: string, p: string)
    requires Parse(k) == Some(info.keyId) && Parse(p) == Some(info.preprocId)
    ensures Describes(PairEntries(info, k, p), info)
  {
    var e := PairEntries(info, k, p);
    assert e[0] in e && e[1] in e && e[2] in e;
    match info.digest
    case Compressed(xof) => CompressedFields(k, p, xof);
    case Uncompressed(server, public) =>
      UncompressedFields(k, p, server, public);
      assert e[3] in e;
  }

  /** The text is the pairs of the key, in any order, with identifiers that parse. */
  ghost predicate KeyText(s: string, info: Info, k: string, p: string) {
    && Parse(k) == Some(info.keyId) && Parse(p) == Some(info.preprocId)
    && multiset(Split(s, ',')) == multiset(Pairs(info, k, p))
  }

  lemma EntriesAreTexts(pieces: seq<string>)
    requires Entries(pieces).Some?
    ensures pieces == Map(TextOf, Entries(pieces).value)
  {
    EntriesPointwise(pieces);
    var entries := Entries(pieces).value;
    forall i | 0 <= i < |pieces| ensures pieces[i] == TextOf(entries[i]) {
      assert pieces[i] in pieces;
      PieceIsText(pieces[i]);
    }
  }

  lemma ParsedKeyText(s: string, info: Info) returns (k: string, p: string)
    requires ParseInfo(s) == Some(info)
    ensures KeyText(s, info, k, p)
  {
    ParsesIff(s, info);
    var pieces := Split(s, ',');
    var entries := Entries(pieces).value;
    k :| Entry(KeyId, k) in entries && Parse(k) == Some(info.keyId);
    p :| Entry(PreprocId, p) in entries && Parse(p) == Some(info.preprocId);
    DescribedEntries(entries, info, k, p);
    EntriesAreTexts(pieces);
    MapUnderReordering(TextOf, entries, PairEntries(info, k, p));
    PairsAreTexts(info, k, p);
  }

  lemma PairsHaveEntries(info: Info, k: string, p: string)
    ensures forall x :: x in Pairs(info, k, p) ==> EntryOf(x).Some?
    ensures Map(EntryOr, Pairs(info, k, p)) == PairEntries(info, k, p)
  {
    var e, t := PairEntries(info, k, p), Pairs(info, k, p);
    PairsAreTexts(info, k, p);
    forall i | 0 <= i < |e| ensures EntryOf(t[i]) == Some(e[i]) {
      TextIsPiece(e[i]);
    }
  }

  lemma KeyTextParses(s: string, info: Info, k: string, p: string)
    requires KeyText(s, info, k, p)
    ensures ParseInfo(s) == Some(info)
  {
    var pieces, pairs := Split(s, ','), Pairs(info, k, p);
    PairsHaveEntries(info, k, p);
    forall x | x in pieces ensures EntryOf(x).Some? {
      assert x in multiset(pieces);
      assert x in pairs;
    }
    EntriesPointwise(pieces);
    MapUnderReordering(EntryOr, pieces, pairs);
    PairEntriesDescribe(info, k, p);
    DescribesUnderReordering(PairEntries(info, k, p), Entries(pieces).value, info);
    ParsesIff(s, info);
  }

  /** A text parses to a key exactly when it is a text of this key. */
  lemma KeyParsesIff(s: string, info: Info)
    ensures ParseInfo(s) == Some(info) <==> exists k, p :: KeyText(s, info, k, p)
  {
    if ParseInfo(s) == Some(info) {
      var k, p := ParsedKeyText(s, info);
    }
    forall k, p | KeyText(s, info, k, p) ensures ParseInfo(s) == Some(info) {
      KeyTextParses(s, info, k, p);
    }
  }
}
