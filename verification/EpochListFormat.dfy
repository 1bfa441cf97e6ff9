/** Exactly which previous-epoch records survive the documented list format. */
module EpochListFormat {
  import opened Wrappers
  import opened Text
  import opened Identifiers
  import opened PreviousEpoch
  import KeyInfo
  import opened KeyPrinter
  import opened EpochPrinter
  import opened EpochImage

  // -------------------------------------------------------------------------
  // A list that closes early
  // -------------------------------------------------------------------------

  lemma {:induction false} TakeMoreEarly(items: seq<string>, rest: seq<string>) returns (j: nat)
    requires !NoEarlyBracket(items)
    ensures 0 < j < |items| && TakeMore(Closed(items) + rest).rest == Closed(items)[j..] + rest
  {
    var segments := Closed(items) + rest;
    assert segments[0] == items[0];
    if EndsWith(items[0], ']') {
      j := 1;
      assert segments[1..] == Closed(items)[1..] + rest;
    } else {
      var k := TakeMoreEarly(items[1..], rest);
      j := k + 1;
      assert Closed(items)[1..] == Closed(items[1..]);
      assert segments[1..] == Closed(items[1..]) + rest;
      assert Closed(items[1..])[k..] == Closed(items)[j..];
    }
  }

  /** The list ends at the first entry with a bracket, and the entries behind it are left over. */
  lemma TakeListEarly(items: seq<string>, rest: seq<string>) returns (j: nat)
    requires !NoEarlyBracket(items)
    ensures 0 < j < |items| && TakeList(Closed(items)[0], Closed(items)[1..] + rest).rest == Closed(items)[j..] + rest
  {
    assert Closed(items)[0] == items[0];
    if EndsWith(items[0], ']') {
      j := 1;
    } else {
      var k := TakeMoreEarly(items[1..], rest);
      j := k + 1;
      assert Closed(items)[1..] == Closed(items[1..]);
      assert Closed(items[1..])[k..] == Closed(items)[j..];
    }
  }

  /** The text starts as an entry does, with `k` or `cr`, and so as no field does. */
  ghost predicate EntryLike(x: string) {
    |x| >= 2 && (x[0] == 'k' || (x[0] == 'c' && x[1] == 'r'))
  }

  lemma NoFieldNameStarts(key: string, x: string)
    requires EntryLike(x) && key <= x
    ensures KindNamed(key).None?
  {
    if |key| >= 2 {
      assert key[0] == x[0] && key[1] == x[1];
    }
  }

  lemma NoFieldStarts(segments: seq<string>)
    requires segments != [] && EntryLike(segments[0])
    ensures FirstField(segments).None?
  {
    var x := segments[0];
    if SplitOnce(x, ':').Some? {
      NoFieldNameStarts(SplitOnce(x, ':').value.key, x);
    }
  }

  lemma EarlyBracketFails(d: Draft, name: string, kind: Kind, items: seq<string>, rest: seq<string>)
    requires ':' !in name && KindNamed(name) == Some(kind) && (kind == KeysKind || kind == CrsKind)
    requires !NoEarlyBracket(items) && forall i :: 0 <= i < |items| ==> EntryLike(items[i])
    ensures ParseFrom(d, ListSegments(name, items) + rest).None?
  {
    var segments := ListSegments(name, items) + rest;
    ListShape(name, items, rest);
    ListHead(name, Closed(items)[0]);
    ListFieldFrom(segments, name, kind, Closed(items)[0]);
    var j := TakeListEarly(items, rest);
    ParseFromStep(d, segments);
    var left := FirstField(segments).value.rest;
    assert EntryLike(left[0]);
    NoFieldStarts(left);
    forall next: Draft ensures ParseFrom(next, left).None? {
      ParseFromStep(next, left);
    }
  }

  lemma KeysAreEntryLike(keys: seq<KeyInfo.Info>)
    ensures forall i :: 0 <= i < |keys| ==> EntryLike(PrintKeys(keys)[i])
  {
    forall i | 0 <= i < |keys| ensures EntryLike(PrintKeys(keys)[i]) {
      var first := KeyPieces(keys[i])[0];
      assert first[0] == 'k' && |first| >= 2;
    }
  }

  lemma CrsesAreEntryLike(crses: seq<Crs>)
    ensures forall i :: 0 <= i < |crses| ==> EntryLike(PrintCrses(crses)[i])
  {
  }

  lemma EarlyKeyFails(e: Epoch)
    requires !NoEarlyBracket(PrintKeys(e.keys))
    ensures ParseFrom(Blank, Segments(e)).None?
  {
    var c := ListSegments("previous_crs", PrintCrses(e.crses));
    ListNames();
    KeysAreEntryLike(e.keys);
    ScalarsParse(e, ListSegments("previous_keys", PrintKeys(e.keys)) + c);
    EarlyBracketFails(Draft(Some(e.contextId), Some(e.epochId), [], []), "previous_keys", KeysKind,
                      PrintKeys(e.keys), c);
  }

  lemma EarlyCrsFails(e: Epoch)
    requires CleanKeys(e.keys) && NoEarlyBracket(PrintKeys(e.keys)) && !NoEarlyBracket(PrintCrses(e.crses))
    ensures ParseFrom(Blank, Segments(e)).None?
  {
    var c := ListSegments("previous_crs", PrintCrses(e.crses));
    var d := Draft(Some(e.contextId), Some(e.epochId), [], []);
    ListNames();
    CrsesAreEntryLike(e.crses);
    ScalarsParse(e, ListSegments("previous_keys", PrintKeys(e.keys)) + c);
    AnyKeysListParses(d, e.keys, c);
    EarlyBracketFails(d.(keys := d.keys + e.keys), "previous_crs", CrsKind, PrintCrses(e.crses), []);
    assert c + [] == c;
  }

  // -------------------------------------------------------------------------
  // The exact condition
  // -------------------------------------------------------------------------

  /** The digest that a printed key ends with. */
  function LastDigest(d: KeyInfo.Digest): string {
    match d
    case Compressed(xof) => xof
    case Uncompressed(server, public) => public
  }

  /** No entry of a list but the last one has a digest that ends with a bracket. */
  ghost predicate BracketsLast(e: Epoch) {
    && (forall i :: 0 <= i < |e.keys| - 1 ==> !EndsWith(LastDigest(e.keys[i].digest), ']'))
    && (forall i :: 0 <= i < |e.crses| - 1 ==> !EndsWith(e.crses[i].digest, ']'))
  }

  lemma {:induction false} JoinEnds(parts: seq<string>, c: char)
    requires parts != [] && parts[|parts| - 1] != []
    ensures Join(parts, c) != [] && Join(parts, c)[|Join(parts, c)| - 1] == parts[|parts| - 1][|parts[|parts| - 1]| - 1]
  {
    if |parts| > 1 {
      JoinEnds(parts[1..], c);
    }
  }

  lemma KeyEnds(k: KeyInfo.Info)
    ensures EndsWith(PrintKey(k), ']') <==> EndsWith(LastDigest(k.digest), ']')
  {
    JoinEnds(KeyPieces(k), ',');
  }

  lemma CrsEnds(c: Crs)
    ensures EndsWith(PrintCrs(c), ']') <==> EndsWith(c.digest, ']')
  {
  }

  lemma BracketsLastMeans(e: Epoch)
    ensures BracketsLast(e) <==> NoEarlyBracket(PrintKeys(e.keys)) && NoEarlyBracket(PrintCrses(e.crses))
  {
    forall i | 0 <= i < |e.keys| - 1
      ensures EndsWith(PrintKeys(e.keys)[i], ']') <==> EndsWith(LastDigest(e.keys[i].digest), ']')
    {
      KeyEnds(e.keys[i]);
    }
    forall i | 0 <= i < |e.crses| - 1
      ensures EndsWith(PrintCrses(e.crses)[i], ']') <==> EndsWith(e.crses[i].digest, ']')
    {
      CrsEnds(e.crses[i]);
    }
  }

  lemma RoundTripNeedsBracketsLast(e: Epoch)
    requires Clean(e) && ParseEpoch(PrintEpoch(e)) == Some(e)
    ensures BracketsLast(e)
  {
    SegmentsLack(e);
    SplitJoin(Segments(e), ';');
    if !NoEarlyBracket(PrintKeys(e.keys)) {
      EarlyKeyFails(e);
    } else if !NoEarlyBracket(PrintCrses(e.crses)) {
      EarlyCrsFails(e);
    }
    BracketsLastMeans(e);
  }

  /** Parsing undoes printing in the documented format exactly when no digest holds a separator
      and no digest but the last of its list ends with the closing bracket. */
  lemma EpochRoundTripIff(e: Epoch)
    ensures ParseEpoch(PrintEpoch(e)) == Some(e) <==> Clean(e) && BracketsLast(e)
  {
    if ParseEpoch(PrintEpoch(e)) == Some(e) {
      ParsedIsClean(PrintEpoch(e));
      RoundTripNeedsBracketsLast(e);
    } else if Clean(e) && BracketsLast(e) {
      BracketsLastMeans(e);
      EpochRoundTrip(e);
    }
  }

  /** Two CRS entries, the first with a digest that ends with a bracket: such a record is
      denotable, but not in the documented list format. */
  lemma BracketBreaksListFormat(a: Id, b: Id)
    ensures var e := Epoch(a, b, [], [Crs(a, "]"), Crs(b, "")]);
            && ParseEpoch(PrintEpoch(e)) != Some(e)
            && ParseEpoch(PrintSeparately(e)) == Some(e)
  {
    var e := Epoch(a, b, [], [Crs(a, "]"), Crs(b, "")]);
    assert Clean(e);
    assert EndsWith(e.crses[0].digest, ']');
    EpochRoundTripIff(e);
    SeparateRoundTrip(e);
  }
}
