/** Printing one previous key, and how printing and parsing fit together. */
module KeyPrinter {
  import opened Wrappers
  import opened Text
  import opened Hex
  import opened Identifiers
  import opened KeyInfo

  function DigestPieces(d: Digest): seq<string> {
    match d
    case Compressed(xof) => ["xof_key_digest=" + xof]
    case Uncompressed(server, public) => ["server_key_digest=" + server, "public_key_digest=" + public]
  }

  function KeyPieces(k: Info): seq<string> {
    ["key_id=" + Print(k.keyId), "preproc_id=" + Print(k.preprocId)] + DigestPieces(k.digest)
  }

  function PrintKey(k: Info): string {
    Join(KeyPieces(k), ',')
  }

  /** `c` does not occur in the digests. */
  ghost predicate DigestLacks(d: Digest, c: char) {
    match d
    case Compressed(xof) => c !in xof
    case Uncompressed(server, public) => c !in server && c !in public
  }

  lemma PieceParses(name: string, field: Field, value: string)
    requires FieldNamed(name) == Some(field) && '=' !in name
    ensures EntryOf(name + "=" + value) == Some(Entry(field, value))
  {
    SplitOnceAt(name, value, '=');
    assert name + "=" + value == name + ['='] + value;
  }

  ghost function KeyEntries(k: Info): seq<Entry> {
    [Entry(KeyId, Print(k.keyId)), Entry(PreprocId, Print(k.preprocId))]
    + match k.digest
      case Compressed(xof) => [Entry(XofDigest, xof)]
      case Uncompressed(server, public) => [Entry(ServerDigest, server), Entry(PublicDigest, public)]
  }

  lemma IdPiecesParse(k: Info)
    ensures EntryOf("key_id=" + Print(k.keyId)) == Some(Entry(KeyId, Print(k.keyId)))
    ensures EntryOf("preproc_id=" + Print(k.preprocId)) == Some(Entry(PreprocId, Print(k.preprocId)))
  {
    PieceParses("key_id", KeyId, Print(k.keyId));
    assert "key_id" + "=" == "key_id=";
    PieceParses("preproc_id", PreprocId, Print(k.preprocId));
    assert "preproc_id" + "=" == "preproc_id=";
  }

  lemma XofPieceParses(v: string)
    ensures EntryOf("xof_key_digest=" + v) == Some(Entry(XofDigest, v))
  {
    PieceParses("xof_key_digest", XofDigest, v);
    assert "xof_key_digest" + "=" == "xof_key_digest=";
  }

  lemma ServerPieceParses(v: string)
    ensures EntryOf("server_key_digest=" + v) == Some(Entry(ServerDigest, v))
  {
    PieceParses("server_key_digest", ServerDigest, v);
    assert "server_key_digest" + "=" == "server_key_digest=";
  }

  lemma PublicPieceParses(v: string)
    ensures EntryOf("public_key_digest=" + v) == Some(Entry(PublicDigest, v))
  {
    PieceParses("public_key_digest", PublicDigest, v);
    assert "public_key_digest" + "=" == "public_key_digest=";
  }

  lemma EntriesSnoc(pieces: seq<string>, entries: seq<Entry>, p: string, e: Entry)
    requires Entries(pieces) == Some(entries) && EntryOf(p) == Some(e)
    ensures Entries(pieces + [p]) == Some(entries + [e])
  {
    assert (pieces + [p])[..|pieces|] == pieces;
  }

  lemma EntriesOfTwo(a: string, b: string, x: Entry, y: Entry)
    requires EntryOf(a) == Some(x) && EntryOf(b) == Some(y)
    ensures Entries([a, b]) == Some([x, y])
  {
    EntriesSnoc([], [], a, x);
    assert [] + [a] == [a] && [] + [x] == [x];
    EntriesSnoc([a], [x], b, y);
    assert [a] + [b] == [a, b] && [x] + [y] == [x, y];
  }

  /** The printed pairs are the entries of the key. */
  lemma KeyPiecesParse(k: Info)
    ensures Entries(KeyPieces(k)) == Some(KeyEntries(k))
  {
    var a, b := "key_id=" + Print(k.keyId), "preproc_id=" + Print(k.preprocId);
    var x, y := Entry(KeyId, Print(k.keyId)), Entry(PreprocId, Print(k.preprocId));
    IdPiecesParse(k);
    EntriesOfTwo(a, b, x, y);
    match k.digest
    case Compressed(xof) =>
      XofPieceParses(xof);
      EntriesSnoc([a, b], [x, y], "xof_key_digest=" + xof, Entry(XofDigest, xof));
    case Uncompressed(server, public) =>
      ServerPieceParses(server);
      PublicPieceParses(public);
      var c, d := "server_key_digest=" + server, "public_key_digest=" + public;
      EntriesSnoc([a, b], [x, y], c, Entry(ServerDigest, server));
      EntriesSnoc([a, b] + [c], [x, y] + [Entry(ServerDigest, server)], d, Entry(PublicDigest, public));
      assert [a, b] + [c] + [d] == KeyPieces(k);
      assert [x, y] + [Entry(ServerDigest, server)] + [Entry(PublicDigest, public)] == KeyEntries(k);
  }

  lemma EntriesDescribeKey(k: Info)
    ensures Describes(KeyEntries(k), k)
  {
    ParsePrint(k.keyId);
    ParsePrint(k.preprocId);
    var entries := KeyEntries(k);
    assert entries[0] == Entry(KeyId, Print(k.keyId)) && entries[1] == Entry(PreprocId, Print(k.preprocId));
    assert entries[0] in entries && entries[1] in entries;
    match k.digest
    case Compressed(xof) =>
      assert entries[2] == Entry(XofDigest, xof) && entries[2] in entries;
      assert Fields(entries) == [KeyId, PreprocId, XofDigest];
    case Uncompressed(server, public) =>
      assert entries[2] == Entry(ServerDigest, server) && entries[2] in entries;
      assert entries[3] == Entry(PublicDigest, public) && entries[3] in entries;
      assert Fields(entries) == [KeyId, PreprocId, ServerDigest, PublicDigest];
  }

  lemma PrintedIdLacks(id: Id, c: char)
    requires Digit(c).None?
    ensures c !in Print(id)
  {
    EncodeIsHex(id);
    HexLacks(Print(id), c);
  }

  lemma KeyPiecesLack(k: Info, c: char)
    requires c == ',' || c == ';'
    requires DigestLacks(k.digest, c)
    ensures forall i :: 0 <= i < |KeyPieces(k)| ==> c !in KeyPieces(k)[i]
  {
    PrintedIdLacks(k.keyId, c);
    PrintedIdLacks(k.preprocId, c);
  }

  /** Parsing undoes printing for every key whose digests have no comma. */
  lemma KeyRoundTrip(k: Info)
    requires DigestLacks(k.digest, ',')
    ensures ParseInfo(PrintKey(k)) == Some(k)
  {
    KeyPiecesLack(k, ',');
    SplitJoin(KeyPieces(k), ',');
    KeyPiecesParse(k);
    EntriesDescribeKey(k);
    DescribedIsRead(KeyEntries(k), k);
  }

  // -------------------------------------------------------------------------
  // What can come out of the parser
  // -------------------------------------------------------------------------

  lemma EntryLacks(piece: string, c: char)
    requires c !in piece && EntryOf(piece).Some?
    ensures c !in EntryOf(piece).value.value
  {
    SplitOnceLacks(piece, '=', c);
  }

  lemma ValuesLack(pieces: seq<string>, c: char)
    requires Entries(pieces).Some? && forall p :: p in pieces ==> c !in p
    ensures forall e :: e in Entries(pieces).value ==> c !in e.value
  {
    EntriesPointwise(pieces);
    var entries := Entries(pieces).value;
    forall e | e in entries ensures c !in e.value {
      var i :| 0 <= i < |entries| && entries[i] == e;
      assert pieces[i] in pieces;
      EntryLacks(pieces[i], c);
    }
  }

  /** Parsed digests have no comma, and no character that the text did not have. */
  lemma ParsedKeyLacks(s: string, c: char)
    requires ParseInfo(s).Some? && (c == ',' || c !in s)
    ensures DigestLacks(ParseInfo(s).value.digest, c)
  {
    var pieces := Split(s, ',');
    if c == ',' {
      PiecesLackSeparator(s, ',');
    } else {
      PiecesFromText(s, ',', c);
    }
    ValuesLack(pieces, c);
    ParsesIff(s, ParseInfo(s).value);
  }
}
