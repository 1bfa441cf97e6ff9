/** Exactly which previous-epoch records the parser can return. */
module EpochImage {
  import opened Wrappers
  import opened Sequences
  import opened Text
  import opened PreviousEpoch
  import KeyInfo
  import opened KeyPrinter
  import opened EpochPrinter

  // -------------------------------------------------------------------------
  // Whatever is parsed is clean
  // -------------------------------------------------------------------------

  lemma {:induction false} TakeMoreLacks(segments: seq<string>, c: char)
    requires NoneContains(segments, c)
    ensures NoneContains(TakeMore(segments).values, c) && NoneContains(TakeMore(segments).rest, c)
  {
    if segments != [] && !EndsWith(segments[0], ']') {
      TakeMoreLacks(segments[1..], c);
    }
  }

  lemma TakeListLacks(first: string, segments: seq<string>, c: char)
    requires c !in first && NoneContains(segments, c)
    ensures NoneContains(TakeList(first, segments).values, c) && NoneContains(TakeList(first, segments).rest, c)
  {
    TakeMoreLacks(segments, c);
  }

  /** The text of a field has no character `c`. */
  ghost predicate FieldLacks(f: Field, c: char) {
    match f
    case Keys(values) => NoneContains(values, c)
    case Crses(values) => NoneContains(values, c)
    case _ => true
  }

  lemma FirstFieldLacks(segments: seq<string>, c: char)
    requires segments != [] && NoneContains(segments, c) && FirstField(segments).Some?
    ensures FieldLacks(FirstField(segments).value.field, c) && NoneContains(FirstField(segments).value.rest, c)
  {
    SplitOnceLacks(segments[0], ':', c);
    var p := SplitOnce(segments[0], ':').value;
    assert NoneContains(segments[1..], c);
    if StartsWith(p.value, "[") {
      TakeListLacks(p.value[1..], segments[1..], c);
    }
  }

  lemma ParsedKeysAreClean(values: seq<string>)
    requires NoneContains(values, ';') && ParseKeys(values).Some?
    ensures CleanKeys(ParseKeys(values).value)
  {
    ParseAllResults(KeyInfo.ParseInfo, values);
    var keys := ParseKeys(values).value;
    forall i | 0 <= i < |keys| ensures DigestLacks(keys[i].digest, ',') && DigestLacks(keys[i].digest, ';') {
      ParsedKeyLacks(values[i], ',');
      ParsedKeyLacks(values[i], ';');
    }
  }

  lemma ParsedCrsesAreClean(values: seq<string>)
    requires NoneContains(values, ';') && ParseCrses(values).Some?
    ensures CleanCrses(ParseCrses(values).value)
  {
    ParseAllResults(ParseCrs, values);
    var crses := ParseCrses(values).value;
    forall i | 0 <= i < |crses| ensures ';' !in crses[i].digest {
      ParsedCrsLacks(values[i], ';');
    }
  }

  lemma ApplyKeepsClean(d: Draft, f: Field)
    requires CleanKeys(d.keys) && CleanCrses(d.crses) && FieldLacks(f, ';') && Apply(d, f).Some?
    ensures CleanKeys(Apply(d, f).value.keys) && CleanCrses(Apply(d, f).value.crses)
  {
    match f
    case Context(v) =>
    case EpochId(v) =>
    case Keys(values) => ParsedKeysAreClean(values);
    case Crses(values) => ParsedCrsesAreClean(values);
  }

  lemma {:induction false} ParseFromIsClean(d: Draft, segments: seq<string>)
    requires CleanKeys(d.keys) && CleanCrses(d.crses) && NoneContains(segments, ';')
    requires ParseFrom(d, segments).Some?
    ensures Clean(ParseFrom(d, segments).value)
    decreases |segments|
  {
    if segments != [] {
      ParseFromStep(d, segments);
      var step := FirstField(segments).value;
      FirstFieldLacks(segments, ';');
      ApplyKeepsClean(d, step.field);
      ParseFromIsClean(Apply(d, step.field).value, step.rest);
    }
  }

  /** Every parsed record is clean. */
  lemma ParsedIsClean(s: string)
    requires ParseEpoch(s).Some?
    ensures Clean(ParseEpoch(s).value)
  {
    PiecesLackSeparator(s, ';');
    ParseFromIsClean(Blank, Split(s, ';'));
  }

  // -------------------------------------------------------------------------
  // Every clean record can be written
  // -------------------------------------------------------------------------

  /** Each entry in a list field of its own. */
  function Singles(name: string, items: seq<string>): seq<string> {
    if items == [] then [] else ListSegments(name, [items[0]]) + Singles(name, items[1..])
  }

  function SeparateSegments(e: Epoch): seq<string> {
    ScalarSegments(e) + (Singles("previous_keys", PrintKeys(e.keys)) + Singles("previous_crs", PrintCrses(e.crses)))
  }

  function PrintSeparately(e: Epoch): string {
    Join(SeparateSegments(e), ';')
  }

  lemma SingleKey(k: KeyInfo.Info)
    ensures PrintKeys([k]) == [PrintKey(k)] && NoEarlyBracket(PrintKeys([k]))
  {
  }

  lemma {:induction false} KeySinglesParse(name: string, d: Draft, keys: seq<KeyInfo.Info>, rest: seq<string>)
    requires KindNamed(name) == Some(KeysKind) && ':' !in name && CleanKeys(keys)
    ensures ParseFrom(d, Singles(name, PrintKeys(keys)) + rest) == ParseFrom(d.(keys := d.keys + keys), rest)
    decreases |keys|
  {
    if keys == [] {
      assert Singles(name, PrintKeys(keys)) + rest == rest && d.keys + keys == d.keys;
    } else {
      var k, others := keys[0], keys[1..];
      var tail := Singles(name, PrintKeys(others));
      assert PrintKeys(keys)[0] == PrintKey(k) && PrintKeys(keys)[1..] == PrintKeys(others);
      SingleKey(k);
      Regroup(ListSegments(name, [PrintKey(k)]), tail, rest);
      KeysListParses(name, d, [k], tail + rest);
      KeySinglesParse(name, d.(keys := d.keys + [k]), others, rest);
      Peel(d.keys, keys);
    }
  }

  lemma SingleCrs(c: Crs)
    ensures PrintCrses([c]) == [PrintCrs(c)] && NoEarlyBracket(PrintCrses([c]))
  {
  }

  lemma {:induction false} CrsSinglesParse(name: string, d: Draft, crses: seq<Crs>, rest: seq<string>)
    requires KindNamed(name) == Some(CrsKind) && ':' !in name
    ensures ParseFrom(d, Singles(name, PrintCrses(crses)) + rest) == ParseFrom(d.(crses := d.crses + crses), rest)
    decreases |crses|
  {
    if crses == [] {
      assert Singles(name, PrintCrses(crses)) + rest == rest && d.crses + crses == d.crses;
    } else {
      var c, others := crses[0], crses[1..];
      var tail := Singles(name, PrintCrses(others));
      assert PrintCrses(crses)[0] == PrintCrs(c) && PrintCrses(crses)[1..] == PrintCrses(others);
      SingleCrs(c);
      Regroup(ListSegments(name, [PrintCrs(c)]), tail, rest);
      CrsListParses(name, d, [c], tail + rest);
      CrsSinglesParse(name, d.(crses := d.crses + [c]), others, rest);
      Peel(d.crses, crses);
    }
  }

  lemma {:induction false} SinglesLack(name: string, items: seq<string>)
    requires ';' !in name && NoneContains(items, ';')
    ensures NoneContains(Singles(name, items), ';')
  {
    if items != [] {
      SinglesLack(name, items[1..]);
      ListSegmentsLack(name, [items[0]]);
      NoneInAppend(ListSegments(name, [items[0]]), Singles(name, items[1..]), ';');
    }
  }

  lemma KeySinglesLack(name: string, keys: seq<KeyInfo.Info>)
    requires ';' !in name && CleanKeys(keys)
    ensures NoneContains(Singles(name, PrintKeys(keys)), ';')
  {
    forall i | 0 <= i < |keys| ensures ';' !in PrintKeys(keys)[i] {
      PrintedKeyLacks(keys[i]);
    }
    SinglesLack(name, PrintKeys(keys));
  }

  lemma CrsSinglesLack(name: string, crses: seq<Crs>)
    requires ';' !in name && CleanCrses(crses)
    ensures NoneContains(Singles(name, PrintCrses(crses)), ';')
  {
    forall i | 0 <= i < |crses| ensures ';' !in PrintCrses(crses)[i] {
      PrintedCrsLacks(crses[i]);
    }
    SinglesLack(name, PrintCrses(crses));
  }

  lemma SeparateSegmentsLack(e: Epoch)
    requires Clean(e)
    ensures NoneContains(SeparateSegments(e), ';')
  {
    ScalarSegmentsLack(e);
    KeySinglesLack("previous_keys", e.keys);
    CrsSinglesLack("previous_crs", e.crses);
    NoneInAppend(Singles("previous_keys", PrintKeys(e.keys)), Singles("previous_crs", PrintCrses(e.crses)), ';');
    NoneInAppend(ScalarSegments(e),
                 Singles("previous_keys", PrintKeys(e.keys)) + Singles("previous_crs", PrintCrses(e.crses)), ';');
  }

  lemma SeparateSegmentsParse(e: Epoch)
    requires CleanKeys(e.keys)
    ensures ParseFrom(Blank, SeparateSegments(e)) == Some(e)
  {
    var a := ScalarSegments(e);
    var b := Singles("previous_keys", PrintKeys(e.keys));
    var c := Singles("previous_crs", PrintCrses(e.crses));
    var d1 := Draft(Some(e.contextId), Some(e.epochId), [], []);
    var d2 := d1.(keys := d1.keys + e.keys);
    var d3 := d2.(crses := d2.crses + e.crses);
    ListNames();
    ScalarsParse(e, b + c);
    KeySinglesParse("previous_keys", d1, e.keys, c);
    CrsSinglesParse("previous_crs", d2, e.crses, []);
    ThreeSteps(Blank, d1, d2, d3, a, b, c);
    assert [] + e.keys == e.keys && [] + e.crses == e.crses;
  }

  /** With one list field per entry, parsing undoes printing for every clean record. */
  lemma SeparateRoundTrip(e: Epoch)
    requires Clean(e)
    ensures ParseEpoch(PrintSeparately(e)) == Some(e)
  {
    SeparateSegmentsLack(e);
    SplitJoin(SeparateSegments(e), ';');
    SeparateSegmentsParse(e);
  }

  /** The records that some text denotes are exactly the clean ones. */
  lemma DenotableIff(e: Epoch)
    ensures (exists s :: ParseEpoch(s) == Some(e)) <==> Clean(e)
  {
    if Clean(e) {
      SeparateRoundTrip(e);
    }
    forall s | ParseEpoch(s) == Some(e) ensures Clean(e) {
      ParsedIsClean(s);
    }
  }

  /** Parsing, printing and parsing again changes nothing. */
  lemma ReparseIsStable(s: string)
    requires ParseEpoch(s).Some?
    ensures ParseEpoch(PrintSeparately(ParseEpoch(s).value)) == ParseEpoch(s)
  {
    ParsedIsClean(s);
    SeparateRoundTrip(ParseEpoch(s).value);
  }
}
