/** Exactly which texts are previous-epoch parameters, and what they mean. */
module EpochGrammar {
  import opened Wrappers
  import opened Sequences
  import opened Text
  import opened Identifiers
  import opened PreviousEpoch
  import KeyInfo
  import opened EpochPrinter

  // -------------------------------------------------------------------------
  // The segments of a field
  // -------------------------------------------------------------------------

  /** A list that the end of the text ends, without a closing bracket. */
  function OpenSegments(name: string, items: seq<string>): seq<string>
    requires items != []
  {
    [name + ":[" + items[0]] + items[1..]
  }

  ghost predicate NoBracket(items: seq<string>) {
    forall i :: 0 <= i < |items| ==> !EndsWith(items[i], ']')
  }

  /** A list has entries, and none of them ends with a bracket that would close it early; the
      last entry of a closed list may. */
  ghost predicate WellFormedList(items: seq<string>, open: bool) {
    items != [] && if open then NoBracket(items) else NoEarlyBracket(items)
  }

  ghost predicate WellFormed(f: Field, open: bool) {
    match f
    case Keys(values) => WellFormedList(values, open)
    case Crses(values) => WellFormedList(values, open)
    case _ => !open
  }

  function ListText(name: string, items: seq<string>, open: bool): seq<string>
    requires items != []
  {
    if open then OpenSegments(name, items) else ListSegments(name, items)
  }

  function FieldText(f: Field, open: bool): seq<string>
    requires WellFormed(f, open)
  {
    match f
    case Context(v) => ["context_id" + ":" + v]
    case EpochId(v) => ["epoch_id" + ":" + v]
    case Keys(values) => ListText("previous_keys", values, open)
    case Crses(values) => ListText("previous_crs", values, open)
  }

  /** The segments spell out the fields one after the other; only the last field may be open. */
  ghost predicate Spells(segments: seq<string>, fields: seq<Field>, open: bool)
    decreases |fields|
  {
    if fields == [] then segments == []
    else
      var o := open && |fields| == 1;
      && WellFormed(fields[0], o) && FieldText(fields[0], o) <= segments
      && Spells(segments[|FieldText(fields[0], o)|..], fields[1..], open)
  }

  // -------------------------------------------------------------------------
  // Lists
  // -------------------------------------------------------------------------

  /** The segments are a closed list and what follows it. */
  ghost predicate ClosedShape(segments: seq<string>, t: Taken) {
    t.values != [] && NoEarlyBracket(t.values) && segments == Closed(t.values) + t.rest
  }

  /** The segments are a list to their end. */
  ghost predicate OpenShape(segments: seq<string>, t: Taken) {
    t.rest == [] && segments == t.values && NoBracket(t.values)
  }

  lemma ClosedCons(x: string, segments: seq<string>, t: Taken)
    requires !EndsWith(x, ']') && ClosedShape(segments, t)
    ensures ClosedShape([x] + segments, Taken([x] + t.values, t.rest))
  {
    assert Closed([x] + t.values) == [x] + Closed(t.values);
  }

  lemma OpenCons(x: string, segments: seq<string>, t: Taken)
    requires !EndsWith(x, ']') && OpenShape(segments, t)
    ensures OpenShape([x] + segments, Taken([x] + t.values, t.rest))
  {
  }

  lemma ClosedOne(x: string, segments: seq<string>)
    requires EndsWith(x, ']')
    ensures ClosedShape([x] + segments, Taken([x[..|x| - 1]], segments))
  {
    assert x == x[..|x| - 1] + "]";
  }

  /** What is taken from the segments is the rest of a list: closed, or open to the end. */
  lemma {:induction false} TakeMoreShape(segments: seq<string>)
    ensures ClosedShape(segments, TakeMore(segments)) || OpenShape(segments, TakeMore(segments))
  {
    if segments != [] {
      var x, more := segments[0], segments[1..];
      assert [x] + more == segments;
      if EndsWith(x, ']') {
        ClosedOne(x, more);
      } else {
        TakeMoreShape(more);
        if ClosedShape(more, TakeMore(more)) {
          ClosedCons(x, more, TakeMore(more));
        } else {
          OpenCons(x, more, TakeMore(more));
        }
      }
    }
  }

  lemma TakeListShape(first: string, segments: seq<string>)
    ensures var t := TakeList(first, segments);
            t.values != [] && (ClosedShape([first] + segments, t) || OpenShape([first] + segments, t))
  {
    if EndsWith(first, ']') {
      ClosedOne(first, segments);
    } else {
      TakeMoreShape(segments);
      if ClosedShape(segments, TakeMore(segments)) {
        ClosedCons(first, segments, TakeMore(segments));
      } else {
        OpenCons(first, segments, TakeMore(segments));
      }
    }
  }

  lemma {:induction false} TakeMoreOpen(items: seq<string>)
    requires NoBracket(items)
    ensures TakeMore(items) == Taken(items, [])
  {
    if items != [] {
      TakeMoreOpen(items[1..]);
      assert [items[0]] + items[1..] == items;
    }
  }

  lemma TakeListOpen(items: seq<string>)
    requires items != [] && NoBracket(items)
    ensures TakeList(items[0], items[1..]) == Taken(items, [])
  {
    TakeMoreOpen(items[1..]);
    assert [items[0]] + items[1..] == items;
  }

  // -------------------------------------------------------------------------
  // One field
  // -------------------------------------------------------------------------

  function KindName(kind: Kind): string {
    match kind
    case ContextKind => "context_id"
    case EpochKind => "epoch_id"
    case KeysKind => "previous_keys"
    case CrsKind => "previous_crs"
  }

  lemma NamedKind(name: string, kind: Kind)
    ensures KindNamed(name) == Some(kind) <==> name == KindName(kind)
  {
  }

  /** The list text that was split off is the text of the list. */
  lemma ListTextShape(name: string, text: string, more: seq<string>, t: Taken)
    requires t.values != [] && (ClosedShape([text] + more, t) || OpenShape([text] + more, t))
    ensures var open := !ClosedShape([text] + more, t);
            && WellFormedList(t.values, open) && (open ==> t.rest == [])
            && [name + ":[" + text] + more == ListText(name, t.values, open) + t.rest
  {
    var all := [text] + more;
    assert all[0] == text && all[1..] == more;
    if ClosedShape(all, t) {
      var c := Closed(t.values);
      assert (c + t.rest)[0] == c[0] && (c + t.rest)[1..] == c[1..] + t.rest;
    }
  }

  /** The field `f` was read from the segments and left `rest`. */
  ghost predicate ReadFrom(segments: seq<string>, f: Field, open: bool, rest: seq<string>) {
    WellFormed(f, open) && (open ==> rest == []) && segments == FieldText(f, open) + rest
  }

  lemma ScalarFrom(name: string, segments: seq<string>, v: string)
    requires segments != [] && segments[0] == name + [':'] + v
    ensures segments == [name + ":" + v] + segments[1..]
  {
  }

  lemma ListFrom(segments: seq<string>, name: string, value: string) returns (open: bool)
    requires segments != [] && segments[0] == name + [':'] + value && StartsWith(value, "[")
    ensures var t := TakeList(value[1..], segments[1..]);
            && WellFormedList(t.values, open) && (open ==> t.rest == [])
            && segments == ListText(name, t.values, open) + t.rest
  {
    var text, more := value[1..], segments[1..];
    var t := TakeList(text, more);
    assert value == "[" + text;
    assert segments[0] == name + ":[" + text;
    assert segments == [name + ":[" + text] + more;
    TakeListShape(text, more);
    ListTextShape(name, text, more, t);
    open := !ClosedShape([text] + more, t);
  }

  lemma FirstFieldIsSpelled(segments: seq<string>) returns (open: bool)
    requires segments != [] && FirstField(segments).Some?
    ensures ReadFrom(segments, FirstField(segments).value.field, open, FirstField(segments).value.rest)
  {
    var p := SplitOnce(segments[0], ':').value;
    var kind := KindNamed(p.key).value;
    NamedKind(p.key, kind);
    open := false;
    match kind
    case ContextKind => ScalarFrom("context_id", segments, p.value);
    case EpochKind => ScalarFrom("epoch_id", segments, p.value);
    case KeysKind => open := ListFrom(segments, "previous_keys", p.value);
    case CrsKind => open := ListFrom(segments, "previous_crs", p.value);
  }

  lemma OpenListParses(name: string, kind: Kind, items: seq<string>)
    requires items != [] && NoBracket(items) && ':' !in name
    requires KindNamed(name) == Some(kind) && (kind == KeysKind || kind == CrsKind)
    ensures FirstField(OpenSegments(name, items)) == Some(Step(ListField(kind, items), []))
  {
    var segments := OpenSegments(name, items);
    ListHead(name, items[0]);
    assert segments[1..] == items[1..];
    TakeListOpen(items);
    ListFieldFrom(segments, name, kind, items[0]);
  }

  lemma ListTextParses(name: string, kind: Kind, items: seq<string>, open: bool, rest: seq<string>)
    requires WellFormedList(items, open) && ':' !in name && (open ==> rest == [])
    requires KindNamed(name) == Some(kind) && (kind == KeysKind || kind == CrsKind)
    ensures ListText(name, items, open) + rest != []
    ensures FirstField(ListText(name, items, open) + rest) == Some(Step(ListField(kind, items), rest))
  {
    if open {
      OpenListParses(name, kind, items);
      assert ListText(name, items, open) + rest == OpenSegments(name, items);
    } else {
      ListFieldParses(name, kind, items, rest);
    }
  }

  lemma ScalarTextParses(name: string, kind: Kind, v: string, rest: seq<string>)
    requires KindNamed(name) == Some(kind) && ':' !in name && (kind == ContextKind || kind == EpochKind)
    ensures FirstField([name + ":" + v] + rest)
         == Some(Step(if kind == ContextKind then Context(v) else EpochId(v), rest))
  {
    ScalarHead(name, v);
    assert ([name + ":" + v] + rest)[1..] == rest;
  }

  lemma SpelledFieldIsFirst(f: Field, open: bool, rest: seq<string>)
    requires WellFormed(f, open) && (open ==> rest == [])
    ensures FieldText(f, open) + rest != []
    ensures FirstField(FieldText(f, open) + rest) == Some(Step(f, rest))
  {
    ScalarNames();
    ListNames();
    match f
    case Context(v) => ScalarTextParses("context_id", ContextKind, v, rest);
    case EpochId(v) => ScalarTextParses("epoch_id", EpochKind, v, rest);
    case Keys(values) => ListTextParses("previous_keys", KeysKind, values, open, rest);
    case Crses(values) => ListTextParses("previous_crs", CrsKind, values, open, rest);
  }

  // -------------------------------------------------------------------------
  // All fields
  // -------------------------------------------------------------------------

  lemma SpellsCons(segments: seq<string>, fields: seq<Field>, open: bool, rest: seq<string>)
    requires fields != [] && ReadFrom(segments, fields[0], open && |fields| == 1, rest)
    ensures Spells(segments, fields, open) <==> Spells(rest, fields[1..], open)
  {
    var text := FieldText(fields[0], open && |fields| == 1);
    assert segments[|text|..] == rest && text <= segments;
  }

  lemma {:induction false} GroupedIsSpelled(segments: seq<string>) returns (open: bool)
    requires Group(segments).Some?
    ensures Spells(segments, Group(segments).value, open)
    decreases |segments|
  {
    if segments == [] {
      open := false;
    } else {
      var step := FirstField(segments).value;
      var o := FirstFieldIsSpelled(segments);
      var rest := GroupedIsSpelled(step.rest);
      var fields := Group(segments).value;
      assert fields[1..] == Group(step.rest).value;
      open := if step.rest == [] then o else rest;
      SpellsCons(segments, fields, open, step.rest);
    }
  }

  lemma GroupNext(f: Field, text: seq<string>, rest: seq<string>, fields: seq<Field>)
    requires text + rest != [] && FirstField(text + rest) == Some(Step(f, rest)) && Group(rest) == Some(fields)
    ensures Group(text + rest) == Some([f] + fields)
  {
  }

  lemma SpellsSplit(segments: seq<string>, fields: seq<Field>, open: bool) returns (rest: seq<string>)
    requires fields != [] && Spells(segments, fields, open)
    ensures ReadFrom(segments, fields[0], open && |fields| == 1, rest) && Spells(rest, fields[1..], open)
  {
    var text := FieldText(fields[0], open && |fields| == 1);
    PrefixAndRest(text, segments);
    rest := segments[|text|..];
  }

  lemma {:induction false} SpelledIsGrouped(segments: seq<string>, fields: seq<Field>, open: bool)
    requires Spells(segments, fields, open)
    ensures Group(segments) == Some(fields)
    decreases |fields|
  {
    if fields != [] {
      var o := open && |fields| == 1;
      var rest := SpellsSplit(segments, fields, open);
      SpelledIsGrouped(rest, fields[1..], open);
      SpelledFieldIsFirst(fields[0], o, rest);
      GroupNext(fields[0], FieldText(fields[0], o), rest, fields[1..]);
      FirstAndRest(fields);
    }
  }

  /** The segments fall into fields exactly when they spell these fields out, with the last one
      closed or open. */
  lemma GroupsIff(segments: seq<string>, fields: seq<Field>)
    ensures Group(segments) == Some(fields) <==> Spells(segments, fields, false) || Spells(segments, fields, true)
  {
    if Group(segments) == Some(fields) {
      var open := GroupedIsSpelled(segments);
      assert open == false || open == true;
    } else if Spells(segments, fields, false) {
      SpelledIsGrouped(segments, fields, false);
    } else if Spells(segments, fields, true) {
      SpelledIsGrouped(segments, fields, true);
    }
  }

  // -------------------------------------------------------------------------
  // The meaning of the fields
  // -------------------------------------------------------------------------

  function LastContext(fields: seq<Field>): Option<string> {
    if fields == [] then None
    else if LastContext(fields[1..]).Some? then LastContext(fields[1..])
    else if fields[0].Context? then Some(fields[0].value) else None
  }

  function LastEpochId(fields: seq<Field>): Option<string> {
    if fields == [] then None
    else if LastEpochId(fields[1..]).Some? then LastEpochId(fields[1..])
    else if fields[0].EpochId? then Some(fields[0].value) else None
  }

  /** The entries of all key lists, one after the other. */
  function KeyTexts(fields: seq<Field>): seq<string> {
    if fields == [] then []
    else (if fields[0].Keys? then fields[0].values else []) + KeyTexts(fields[1..])
  }

  function CrsTexts(fields: seq<Field>): seq<string> {
    if fields == [] then []
    else (if fields[0].Crses? then fields[0].values else []) + CrsTexts(fields[1..])
  }

  predicate IdsParse(fields: seq<Field>) {
    if fields == [] then true
    else (fields[0].Context? || fields[0].EpochId? ==> Parse(fields[0].value).Some?) && IdsParse(fields[1..])
  }

  function Override(id: Option<Id>, text: Option<string>): Option<Id> {
    match text
    case None => id
    case Some(v) => Parse(v)
  }

  /** What matters about the fields: whether all identifiers parse, the last scalar of each kind,
      and the entries of all lists of each kind. */
  datatype Summary = Summary(
    idsParse: bool, context: Option<string>, epochId: Option<string>, keys: seq<string>, crses: seq<string>)

  function Summarise(fields: seq<Field>): Summary {
    Summary(IdsParse(fields), LastContext(fields), LastEpochId(fields), KeyTexts(fields), CrsTexts(fields))
  }

  /** What these fields make of a draft. */
  function Meaning(d: Draft, m: Summary): Option<Draft> {
    if !m.idsParse then None
    else
      var keys :- ParseKeys(m.keys);
      var crses :- ParseCrses(m.crses);
      Some(Draft(Override(d.contextId, m.context), Override(d.epochId, m.epochId), d.keys + keys, d.crses + crses))
  }

  lemma {:induction false} ParseAllAppend<T>(parse: string -> Option<T>, a: seq<string>, b: seq<string>)
    ensures ParseAll(parse, a + b)
         == if ParseAll(parse, a).Some? && ParseAll(parse, b).Some?
            then Some(ParseAll(parse, a).value + ParseAll(parse, b).value) else None
  {
    if b == [] {
      assert a + b == a;
      if ParseAll(parse, a).Some? {
        assert ParseAll(parse, a).value + [] == ParseAll(parse, a).value;
      }
    } else {
      var init := b[..|b| - 1];
      ParseAllAppend(parse, a, init);
      assert (a + b)[..|a + b| - 1] == a + init && (a + b)[|a + b| - 1] == b[|b| - 1];
      if ParseAll(parse, a).Some? && ParseAll(parse, b).Some? {
        Regroup(ParseAll(parse, a).value, ParseAll(parse, init).value, [parse(b[|b| - 1]).value]);
      }
    }
  }

  /** One more field in front. */
  function AddFirst(f: Field, m: Summary): Summary {
    match f
    case Context(v) =>
      m.(idsParse := Parse(v).Some? && m.idsParse, context := if m.context.Some? then m.context else Some(v))
    case EpochId(v) =>
      m.(idsParse := Parse(v).Some? && m.idsParse, epochId := if m.epochId.Some? then m.epochId else Some(v))
    case Keys(values) => m.(keys := values + m.keys)
    case Crses(values) => m.(crses := values + m.crses)
  }

  lemma SummaryStep(fields: seq<Field>)
    requires fields != []
    ensures Summarise(fields) == AddFirst(fields[0], Summarise(fields[1..]))
  {
    NothingBefore(KeyTexts(fields[1..]));
    NothingBefore(CrsTexts(fields[1..]));
  }

  lemma ScalarMeaning(d: Draft, f: Field, m: Summary)
    requires f.Context? || f.EpochId?
    ensures Meaning(d, AddFirst(f, m)) == if Apply(d, f).Some? then Meaning(Apply(d, f).value, m) else None
  {
  }

  lemma KeysMeaning(d: Draft, values: seq<string>, m: Summary)
    ensures Meaning(d, AddFirst(Keys(values), m))
         == if Apply(d, Keys(values)).Some? then Meaning(Apply(d, Keys(values)).value, m) else None
  {
    ParseAllAppend(KeyInfo.ParseInfo, values, m.keys);
    if ParseKeys(values).Some? && ParseKeys(m.keys).Some? {
      Regroup(d.keys, ParseKeys(values).value, ParseKeys(m.keys).value);
    }
  }

  lemma CrsesMeaning(d: Draft, values: seq<string>, m: Summary)
    ensures Meaning(d, AddFirst(Crses(values), m))
         == if Apply(d, Crses(values)).Some? then Meaning(Apply(d, Crses(values)).value, m) else None
  {
    ParseAllAppend(ParseCrs, values, m.crses);
    if ParseCrses(values).Some? && ParseCrses(m.crses).Some? {
      Regroup(d.crses, ParseCrses(values).value, ParseCrses(m.crses).value);
    }
  }

  lemma FirstFieldMeans(d: Draft, f: Field, m: Summary)
    ensures Meaning(d, AddFirst(f, m)) == if Apply(d, f).Some? then Meaning(Apply(d, f).value, m) else None
  {
    match f
    case Keys(values) => KeysMeaning(d, values, m);
    case Crses(values) => CrsesMeaning(d, values, m);
    case _ => ScalarMeaning(d, f, m);
  }

  lemma NoFieldMeans(d: Draft)
    ensures Meaning(d, Summarise([])) == Some(d)
  {
    assert d.keys + [] == d.keys && d.crses + [] == d.crses;
  }

  /** Applying the fields one by one gives what they mean together. */
  lemma {:induction false} ApplyAllMeans(d: Draft, fields: seq<Field>)
    ensures ApplyAll(d, fields) == Meaning(d, Summarise(fields))
    decreases |fields|
  {
    if fields == [] {
      NoFieldMeans(d);
    } else {
      if Apply(d, fields[0]).Some? {
        ApplyAllMeans(Apply(d, fields[0]).value, fields[1..]);
      }
      SummaryStep(fields);
      FirstFieldMeans(d, fields[0], Summarise(fields[1..]));
    }
  }

  // -------------------------------------------------------------------------
  // Texts and records
  // -------------------------------------------------------------------------

  /** The fields denote the record: all identifiers parse, the last context and the last epoch
      count, and the entries of the lists parse to the keys and CRSs in order. */
  ghost predicate Denote(fields: seq<Field>, e: Epoch) {
    && IdsParse(fields)
    && LastContext(fields).Some? && Parse(LastContext(fields).value) == Some(e.contextId)
    && LastEpochId(fields).Some? && Parse(LastEpochId(fields).value) == Some(e.epochId)
    && ParseKeys(KeyTexts(fields)) == Some(e.keys) && ParseCrses(CrsTexts(fields)) == Some(e.crses)
  }

  ghost predicate IsSpelledBy(s: string, fields: seq<Field>) {
    Spells(Split(s, ';'), fields, false) || Spells(Split(s, ';'), fields, true)
  }

  lemma {:induction false} LastIdsParse(fields: seq<Field>)
    requires IdsParse(fields)
    ensures LastContext(fields).Some? ==> Parse(LastContext(fields).value).Some?
    ensures LastEpochId(fields).Some? ==> Parse(LastEpochId(fields).value).Some?
  {
    if fields != [] {
      LastIdsParse(fields[1..]);
    }
  }

  lemma MeaningDenotes(fields: seq<Field>, e: Epoch)
    ensures var d := Meaning(Blank, Summarise(fields));
            d.Some? && Complete(d.value) == Some(e) <==> Denote(fields, e)
  {
    if IdsParse(fields) && ParseKeys(KeyTexts(fields)).Some? && ParseCrses(CrsTexts(fields)).Some? {
      LastIdsParse(fields);
      NothingBefore(ParseKeys(KeyTexts(fields)).value);
      NothingBefore(ParseCrses(CrsTexts(fields)).value);
    }
  }

  lemma FieldsDenote(s: string, fields: seq<Field>, e: Epoch)
    requires Group(Split(s, ';')) == Some(fields)
    ensures ParseEpoch(s) == Some(e) <==> Denote(fields, e)
  {
    ApplyAllMeans(Blank, fields);
    MeaningDenotes(fields, e);
  }

  /** A text parses to a record exactly when it spells out fields that denote the record. */
  lemma EpochParsesIff(s: string, e: Epoch)
    ensures ParseEpoch(s) == Some(e) <==> exists fields :: IsSpelledBy(s, fields) && Denote(fields, e)
  {
    if ParseEpoch(s) == Some(e) {
      var fields := Group(Split(s, ';')).value;
      GroupsIff(Split(s, ';'), fields);
      FieldsDenote(s, fields, e);
      assert IsSpelledBy(s, fields) && Denote(fields, e);
    }
    forall fields | IsSpelledBy(s, fields) && Denote(fields, e) ensures ParseEpoch(s) == Some(e) {
      GroupsIff(Split(s, ';'), fields);
      FieldsDenote(s, fields, e);
    }
  }
}
