/** Printing previous-epoch records, and exactly when parsing undoes it. */
module EpochPrinter {
  import opened Wrappers
  import opened Sequences
  import opened Text
  import opened Identifiers
  import opened PreviousEpoch
  import KeyInfo
  import opened KeyPrinter

  // -------------------------------------------------------------------------
  // The printed forms
  // -------------------------------------------------------------------------

  function PrintCrs(c: Crs): string {
    "crs_id=" + Print(c.crsId) + ",digest=" + c.digest
  }

  function PrintKeys(keys: seq<KeyInfo.Info>): (r: seq<string>)
    ensures |r| == |keys| && forall i :: 0 <= i < |r| ==> r[i] == PrintKey(keys[i])
  {
    seq(|keys|, i requires 0 <= i < |keys| => PrintKey(keys[i]))
  }

  function PrintCrses(crses: seq<Crs>): (r: seq<string>)
    ensures |r| == |crses| && forall i :: 0 <= i < |r| ==> r[i] == PrintCrs(crses[i])
  {
    seq(|crses|, i requires 0 <= i < |crses| => PrintCrs(crses[i]))
  }

  /** The last entry carries the closing bracket. */
  function Closed(items: seq<string>): seq<string>
    requires items != []
  {
    items[..|items| - 1] + [items[|items| - 1] + "]"]
  }

  /** A list as documented: one bracketed field, its entries separated by semicolons. An empty
      list is not a field at all, because the parser refuses `[]`. */
  function ListSegments(name: string, items: seq<string>): seq<string> {
    if items == [] then []
    else [name + ":[" + Closed(items)[0]] + Closed(items)[1..]
  }

  function ScalarSegments(e: Epoch): seq<string> {
    ["context_id" + ":" + Print(e.contextId), "epoch_id" + ":" + Print(e.epochId)]
  }

  function Segments(e: Epoch): seq<string> {
    ScalarSegments(e)
    + (ListSegments("previous_keys", PrintKeys(e.keys)) + ListSegments("previous_crs", PrintCrses(e.crses)))
  }

  /** The record in the documented format. */
  function PrintEpoch(e: Epoch): string {
    Join(Segments(e), ';')
  }

  // -------------------------------------------------------------------------
  // Conditions
  // -------------------------------------------------------------------------

  /** No digest contains a separator that would cut it: no semicolon anywhere, no comma in the
      digests of keys. */
  ghost predicate CleanKeys(keys: seq<KeyInfo.Info>) {
    forall i :: 0 <= i < |keys| ==> DigestLacks(keys[i].digest, ',') && DigestLacks(keys[i].digest, ';')
  }

  ghost predicate CleanCrses(crses: seq<Crs>) {
    forall i :: 0 <= i < |crses| ==> ';' !in crses[i].digest
  }

  ghost predicate Clean(e: Epoch) {
    CleanKeys(e.keys) && CleanCrses(e.crses)
  }

  /** Only the last entry may end with a bracket. */
  ghost predicate NoEarlyBracket(items: seq<string>) {
    forall i :: 0 <= i < |items| - 1 ==> !EndsWith(items[i], ']')
  }

  // -------------------------------------------------------------------------
  // One CRS
  // -------------------------------------------------------------------------

  lemma CrsIdPart(v: string)
    ensures SplitOnce("crs_id=" + v, '=') == Some(Pair("crs_id", v))
  {
    assert "crs_id=" + v == "crs_id" + ['='] + v;
    SplitOnceAt("crs_id", v, '=');
  }

  lemma CrsDigestPart(v: string)
    ensures SplitOnce("digest=" + v, '=') == Some(Pair("digest", v))
  {
    assert "digest=" + v == "digest" + ['='] + v;
    SplitOnceAt("digest", v, '=');
  }

  lemma CrsParts(id: string, digest: string)
    requires ',' !in id
    ensures SplitOnce("crs_id=" + id + ",digest=" + digest, ',') == Some(Pair("crs_id=" + id, "digest=" + digest))
  {
    assert "crs_id=" + id + ",digest=" + digest == ("crs_id=" + id) + [','] + ("digest=" + digest);
    SplitOnceAt("crs_id=" + id, "digest=" + digest, ',');
  }

  /** Parsing undoes printing for every CRS, whatever its digest. */
  lemma CrsRoundTrip(c: Crs)
    ensures ParseCrs(PrintCrs(c)) == Some(c)
  {
    PrintedIdLacks(c.crsId, ',');
    ParsePrint(c.crsId);
    CrsTextParses(PrintCrs(c), Print(c.crsId), c);
  }

  /** The text of a CRS: both fields in this order, where the identifier may be written in any
      way that parses and the digest is everything behind its equals sign. */
  ghost predicate CrsText(s: string, id: string, c: Crs) {
    s == "crs_id=" + id + ",digest=" + c.digest && ',' !in id && Parse(id) == Some(c.crsId)
  }

  lemma Assemble(a: string, b: string, k: string, m: string, id: string, digest: string)
    requires k == a + ['='] && m == [','] + b + ['=']
    ensures (a + ['='] + id) + [','] + (b + ['='] + digest) == k + id + m + digest
  {
  }

  lemma CrsNames()
    ensures "crs_id=" == "crs_id" + ['='] && ",digest=" == [','] + "digest" + ['=']
  {
  }

  lemma ParsedCrsText(s: string) returns (id: string)
    requires ParseCrs(s).Some?
    ensures CrsText(s, id, ParseCrs(s).value)
  {
    var parts := SplitOnce(s, ',').value;
    var first, second := SplitOnce(parts.key, '=').value, SplitOnce(parts.value, '=').value;
    id := first.value;
    CrsNames();
    Assemble("crs_id", "digest", "crs_id=", ",digest=", id, second.value);
    SplitOnceLacks(parts.key, '=', ',');
  }

  lemma CrsTextParses(s: string, id: string, c: Crs)
    requires CrsText(s, id, c)
    ensures ParseCrs(s) == Some(c)
  {
    CrsParts(id, c.digest);
    CrsIdPart(id);
    CrsDigestPart(c.digest);
  }

  /** A text parses to a CRS exactly when it is a text of this CRS. */
  lemma CrsParsesIff(s: string, c: Crs)
    ensures ParseCrs(s) == Some(c) <==> exists id :: CrsText(s, id, c)
  {
    if ParseCrs(s) == Some(c) {
      var id := ParsedCrsText(s);
    }
    forall id | CrsText(s, id, c) ensures ParseCrs(s) == Some(c) {
      CrsTextParses(s, id, c);
    }
  }

  lemma ParsedCrsLacks(s: string, c: char)
    requires ParseCrs(s).Some? && c !in s
    ensures c !in ParseCrs(s).value.digest
  {
    SplitOnceLacks(s, ',', c);
    SplitOnceLacks(SplitOnce(s, ',').value.value, '=', c);
  }

  // -------------------------------------------------------------------------
  // Lists
  // -------------------------------------------------------------------------

  lemma {:induction false} TakeMoreClosed(items: seq<string>, rest: seq<string>)
    requires items != [] && NoEarlyBracket(items)
    ensures TakeMore(Closed(items) + rest) == Taken(items, rest)
  {
    var segments := Closed(items) + rest;
    if |items| == 1 {
      assert segments[0] == items[0] + "]" && segments[1..] == rest;
      assert segments[0][..|segments[0]| - 1] == items[0];
    } else {
      TakeMoreClosed(items[1..], rest);
      assert Closed(items)[1..] == Closed(items[1..]);
      assert segments[1..] == Closed(items[1..]) + rest;
      assert segments[0] == items[0];
      assert [items[0]] + items[1..] == items;
    }
  }

  lemma TakeListClosed(items: seq<string>, rest: seq<string>)
    requires items != [] && NoEarlyBracket(items)
    ensures TakeList(Closed(items)[0], Closed(items)[1..] + rest) == Taken(items, rest)
  {
    if |items| == 1 {
      assert Closed(items)[0] == items[0] + "]";
      assert Closed(items)[1..] + rest == rest;
      assert Closed(items)[0][..|items[0]|] == items[0];
    } else {
      assert Closed(items)[0] == items[0];
      assert Closed(items)[1..] == Closed(items[1..]);
      TakeMoreClosed(items[1..], rest);
      assert [items[0]] + items[1..] == items;
    }
  }

  /** The first segment of a list field. */
  lemma ListHead(name: string, text: string)
    requires ':' !in name
    ensures SplitOnce(name + ":[" + text, ':') == Some(Pair(name, "[" + text))
  {
    assert name + ":[" + text == name + [':'] + ("[" + text);
    SplitOnceAt(name, "[" + text, ':');
  }

  lemma ListShape(name: string, items: seq<string>, rest: seq<string>)
    requires items != []
    ensures var segments := ListSegments(name, items) + rest;
            && segments != [] && segments[0] == name + ":[" + Closed(items)[0]
            && segments[1..] == Closed(items)[1..] + rest
  {
  }

  /** A printed list is read back as one field with the same entries. */
  lemma ListFieldParses(name: string, kind: Kind, items: seq<string>, rest: seq<string>)
    requires items != [] && NoEarlyBracket(items) && ':' !in name
    requires KindNamed(name) == Some(kind) && (kind == KeysKind || kind == CrsKind)
    ensures ListSegments(name, items) + rest != []
    ensures FirstField(ListSegments(name, items) + rest) == Some(Step(ListField(kind, items), rest))
  {
    ListShape(name, items, rest);
    ListHead(name, Closed(items)[0]);
    TakeListClosed(items, rest);
    ListFieldFrom(ListSegments(name, items) + rest, name, kind, Closed(items)[0]);
  }

  lemma PrintedKeysParse(keys: seq<KeyInfo.Info>)
    requires CleanKeys(keys)
    ensures ParseKeys(PrintKeys(keys)) == Some(keys)
  {
    forall i | 0 <= i < |keys| ensures KeyInfo.ParseInfo(PrintKeys(keys)[i]) == Some(keys[i]) {
      KeyRoundTrip(keys[i]);
    }
    ParseAllPointwise(KeyInfo.ParseInfo, PrintKeys(keys), keys);
  }

  lemma PrintedCrsesParse(crses: seq<Crs>)
    ensures ParseCrses(PrintCrses(crses)) == Some(crses)
  {
    forall i | 0 <= i < |crses| ensures ParseCrs(PrintCrses(crses)[i]) == Some(crses[i]) {
      CrsRoundTrip(crses[i]);
    }
    ParseAllPointwise(ParseCrs, PrintCrses(crses), crses);
  }

  // -------------------------------------------------------------------------
  // Reading the printed segments
  // -------------------------------------------------------------------------

  lemma ScalarHead(name: string, value: string)
    requires ':' !in name
    ensures SplitOnce(name + ":" + value, ':') == Some(Pair(name, value))
  {
    assert name + ":" + value == name + [':'] + value;
    SplitOnceAt(name, value, ':');
  }

  function ScalarField(kind: Kind, value: string): Field
    requires kind == ContextKind || kind == EpochKind
  {
    if kind == ContextKind then Context(value) else EpochId(value)
  }

  lemma ScalarStep(d: Draft, next: Draft, name: string, kind: Kind, value: string, rest: seq<string>)
    requires KindNamed(name) == Some(kind) && (kind == ContextKind || kind == EpochKind) && ':' !in name
    requires Apply(d, ScalarField(kind, value)) == Some(next)
    ensures ParseFrom(d, [name + ":" + value] + rest) == ParseFrom(next, rest)
  {
    var segments := [name + ":" + value] + rest;
    ScalarHead(name, value);
    assert segments[1..] == rest;
    ParseFromStep(d, segments);
  }

  lemma ScalarNames()
    ensures KindNamed("context_id") == Some(ContextKind) && ':' !in "context_id"
    ensures KindNamed("epoch_id") == Some(EpochKind) && ':' !in "epoch_id"
  {
  }

  lemma ApplyPrintedId(d: Draft, id: Id)
    ensures Apply(d, Context(Print(id))) == Some(d.(contextId := Some(id)))
    ensures Apply(d, EpochId(Print(id))) == Some(d.(epochId := Some(id)))
  {
    ParsePrint(id);
  }

  lemma ScalarsParse(e: Epoch, rest: seq<string>)
    ensures ParseFrom(Blank, ScalarSegments(e) + rest)
         == ParseFrom(Draft(Some(e.contextId), Some(e.epochId), [], []), rest)
  {
    var a, b := "context_id" + ":" + Print(e.contextId), "epoch_id" + ":" + Print(e.epochId);
    var d := Blank.(contextId := Some(e.contextId));
    ScalarNames();
    ApplyPrintedId(Blank, e.contextId);
    ApplyPrintedId(d, e.epochId);
    ScalarStep(Blank, d, "context_id", ContextKind, Print(e.contextId), [b] + rest);
    ScalarStep(d, d.(epochId := Some(e.epochId)), "epoch_id", EpochKind, Print(e.epochId), rest);
    PairPrefix(a, b, rest);
  }

  lemma ListStep(d: Draft, next: Draft, name: string, kind: Kind, items: seq<string>, rest: seq<string>)
    requires items != [] && NoEarlyBracket(items) && ':' !in name
    requires KindNamed(name) == Some(kind) && (kind == KeysKind || kind == CrsKind)
    requires Apply(d, ListField(kind, items)) == Some(next)
    ensures ParseFrom(d, ListSegments(name, items) + rest) == ParseFrom(next, rest)
  {
    ListFieldParses(name, kind, items, rest);
    ParseFromStep(d, ListSegments(name, items) + rest);
  }

  lemma NoListParses(d: Draft, name: string, rest: seq<string>)
    ensures ParseFrom(d, ListSegments(name, []) + rest) == ParseFrom(d, rest)
  {
    assert ListSegments(name, []) + rest == rest;
  }

  lemma ApplyKeys(d: Draft, items: seq<string>, keys: seq<KeyInfo.Info>)
    requires ParseKeys(items) == Some(keys)
    ensures Apply(d, Keys(items)) == Some(d.(keys := d.keys + keys))
  {
  }

  lemma ApplyCrses(d: Draft, items: seq<string>, crses: seq<Crs>)
    requires ParseCrses(items) == Some(crses)
    ensures Apply(d, Crses(items)) == Some(d.(crses := d.crses + crses))
  {
  }

  lemma KeysListParses(name: string, d: Draft, keys: seq<KeyInfo.Info>, rest: seq<string>)
    requires KindNamed(name) == Some(KeysKind) && ':' !in name
    requires keys != [] && CleanKeys(keys) && NoEarlyBracket(PrintKeys(keys))
    ensures ParseFrom(d, ListSegments(name, PrintKeys(keys)) + rest) == ParseFrom(d.(keys := d.keys + keys), rest)
  {
    PrintedKeysParse(keys);
    ApplyKeys(d, PrintKeys(keys), keys);
    ListStep(d, d.(keys := d.keys + keys), name, KeysKind, PrintKeys(keys), rest);
  }

  lemma CrsListParses(name: string, d: Draft, crses: seq<Crs>, rest: seq<string>)
    requires KindNamed(name) == Some(CrsKind) && ':' !in name
    requires crses != [] && NoEarlyBracket(PrintCrses(crses))
    ensures ParseFrom(d, ListSegments(name, PrintCrses(crses)) + rest) == ParseFrom(d.(crses := d.crses + crses), rest)
  {
    PrintedCrsesParse(crses);
    ApplyCrses(d, PrintCrses(crses), crses);
    ListStep(d, d.(crses := d.crses + crses), name, CrsKind, PrintCrses(crses), rest);
  }

  lemma ListNames()
    ensures KindNamed("previous_keys") == Some(KeysKind) && ':' !in "previous_keys"
    ensures KindNamed("previous_crs") == Some(CrsKind) && ':' !in "previous_crs"
  {
  }

  lemma AnyKeysListParses(d: Draft, keys: seq<KeyInfo.Info>, rest: seq<string>)
    requires CleanKeys(keys) && NoEarlyBracket(PrintKeys(keys))
    ensures ParseFrom(d, ListSegments("previous_keys", PrintKeys(keys)) + rest)
         == ParseFrom(d.(keys := d.keys + keys), rest)
  {
    ListNames();
    if keys == [] {
      assert PrintKeys(keys) == [] && d.keys + keys == d.keys;
      NoListParses(d, "previous_keys", rest);
    } else {
      KeysListParses("previous_keys", d, keys, rest);
    }
  }

  lemma AnyCrsListParses(d: Draft, crses: seq<Crs>, rest: seq<string>)
    requires NoEarlyBracket(PrintCrses(crses))
    ensures ParseFrom(d, ListSegments("previous_crs", PrintCrses(crses)) + rest)
         == ParseFrom(d.(crses := d.crses + crses), rest)
  {
    ListNames();
    if crses == [] {
      assert PrintCrses(crses) == [] && d.crses + crses == d.crses;
      NoListParses(d, "previous_crs", rest);
    } else {
      CrsListParses("previous_crs", d, crses, rest);
    }
  }

  lemma ThreeSteps(d0: Draft, d1: Draft, d2: Draft, d3: Draft, a: seq<string>, b: seq<string>, c: seq<string>)
    requires ParseFrom(d0, a + (b + c)) == ParseFrom(d1, b + c)
    requires ParseFrom(d1, b + c) == ParseFrom(d2, c)
    requires ParseFrom(d2, c + []) == ParseFrom(d3, [])
    ensures ParseFrom(d0, a + (b + c)) == Complete(d3)
  {
    assert c + [] == c;
  }

  lemma SegmentsParse(e: Epoch)
    requires CleanKeys(e.keys) && NoEarlyBracket(PrintKeys(e.keys)) && NoEarlyBracket(PrintCrses(e.crses))
    ensures ParseFrom(Blank, Segments(e)) == Some(e)
  {
    var a := ScalarSegments(e);
    var b := ListSegments("previous_keys", PrintKeys(e.keys));
    var c := ListSegments("previous_crs", PrintCrses(e.crses));
    var d1 := Draft(Some(e.contextId), Some(e.epochId), [], []);
    var d2 := d1.(keys := d1.keys + e.keys);
    var d3 := d2.(crses := d2.crses + e.crses);
    ScalarsParse(e, b + c);
    AnyKeysListParses(d1, e.keys, c);
    AnyCrsListParses(d2, e.crses, []);
    ThreeSteps(Blank, d1, d2, d3, a, b, c);
    assert [] + e.keys == e.keys && [] + e.crses == e.crses;
  }

  // -------------------------------------------------------------------------
  // Splitting the printed text
  // -------------------------------------------------------------------------

  lemma PrintedKeyLacks(k: KeyInfo.Info)
    requires DigestLacks(k.digest, ';')
    ensures ';' !in PrintKey(k)
  {
    KeyPiecesLack(k, ';');
    JoinLacks(KeyPieces(k), ',', ';');
  }

  lemma PrintedCrsLacks(c: Crs)
    requires ';' !in c.digest
    ensures ';' !in PrintCrs(c)
  {
    PrintedIdLacks(c.crsId, ';');
  }

  ghost predicate NoneContains(texts: seq<string>, c: char) {
    forall i :: 0 <= i < |texts| ==> c !in texts[i]
  }

  lemma ListSegmentsLack(name: string, items: seq<string>)
    requires ';' !in name && NoneContains(items, ';')
    ensures NoneContains(ListSegments(name, items), ';')
  {
  }

  lemma ScalarSegmentsLack(e: Epoch)
    ensures NoneContains(ScalarSegments(e), ';')
  {
    PrintedIdLacks(e.contextId, ';');
    PrintedIdLacks(e.epochId, ';');
  }

  lemma KeySegmentsLack(keys: seq<KeyInfo.Info>)
    requires CleanKeys(keys)
    ensures NoneContains(ListSegments("previous_keys", PrintKeys(keys)), ';')
  {
    forall i | 0 <= i < |keys| ensures ';' !in PrintKeys(keys)[i] {
      PrintedKeyLacks(keys[i]);
    }
    ListSegmentsLack("previous_keys", PrintKeys(keys));
  }

  lemma CrsSegmentsLack(crses: seq<Crs>)
    requires CleanCrses(crses)
    ensures NoneContains(ListSegments("previous_crs", PrintCrses(crses)), ';')
  {
    forall i | 0 <= i < |crses| ensures ';' !in PrintCrses(crses)[i] {
      PrintedCrsLacks(crses[i]);
    }
    ListSegmentsLack("previous_crs", PrintCrses(crses));
  }

  lemma NoneInAppend(a: seq<string>, b: seq<string>, c: char)
    requires NoneContains(a, c) && NoneContains(b, c)
    ensures NoneContains(a + b, c)
  {
  }

  lemma SegmentsLack(e: Epoch)
    requires Clean(e)
    ensures NoneContains(Segments(e), ';')
  {
    ScalarSegmentsLack(e);
    KeySegmentsLack(e.keys);
    CrsSegmentsLack(e.crses);
    var keys := ListSegments("previous_keys", PrintKeys(e.keys));
    var crses := ListSegments("previous_crs", PrintCrses(e.crses));
    NoneInAppend(keys, crses, ';');
    NoneInAppend(ScalarSegments(e), keys + crses, ';');
  }

  /** Parsing undoes printing for every clean record whose lists close only at their end. */
  lemma EpochRoundTrip(e: Epoch)
    requires Clean(e) && NoEarlyBracket(PrintKeys(e.keys)) && NoEarlyBracket(PrintCrses(e.crses))
    ensures ParseEpoch(PrintEpoch(e)) == Some(e)
  {
    SegmentsLack(e);
    SplitJoin(Segments(e), ';');
    SegmentsParse(e);
  }
}
