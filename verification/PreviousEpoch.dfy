/** The previous-epoch parameter: fields separated by semicolons, two of which are lists whose
    entries are separated by semicolons as well. */
module PreviousEpoch {
  import opened Wrappers
  import opened Text
  import opened Identifiers
  import KeyInfo

  datatype Crs = Crs(crsId: Id, digest: string)

  datatype Epoch = Epoch(contextId: Id, epochId: Id, keys: seq<KeyInfo.Info>, crses: seq<Crs>)

  // -------------------------------------------------------------------------
  // One CRS
  // -------------------------------------------------------------------------

  /** `PreviousCrsInfo::from_str`: `crs_id=<id>,digest=<digest>`, in this order. */
  function ParseCrs(s: string): Option<Crs> {
    var parts :- SplitOnce(s, ',');
    var id :- SplitOnce(parts.key, '=');
    if id.key != "crs_id" then None
    else
      var crsId :- Parse(id.value);
      var digest :- SplitOnce(parts.value, '=');
      if digest.key != "digest" then None else Some(Crs(crsId, digest.value))
  }

  // -------------------------------------------------------------------------
  // Grouping segments into fields
  // -------------------------------------------------------------------------

  datatype Field =
    | Context(value: string)
    | EpochId(value: string)
    | Keys(values: seq<string>)
    | Crses(values: seq<string>)

  /** The entries of a list field and the segments after it. */
  datatype Taken = Taken(values: seq<string>, rest: seq<string>)

  /** Takes list entries up to the first one that ends with a bracket; the end of the text also
      ends the list. */
  function TakeMore(segments: seq<string>): (t: Taken)
    ensures |t.values| + |t.rest| == |segments|
  {
    if segments == [] then Taken([], [])
    else if EndsWith(segments[0], ']') then Taken([segments[0][..|segments[0]| - 1]], segments[1..])
    else
      var t := TakeMore(segments[1..]);
      Taken([segments[0]] + t.values, t.rest)
  }

  /** The list that starts with `first`, the text behind the opening bracket. */
  function TakeList(first: string, segments: seq<string>): (t: Taken)
    ensures |t.values| + |t.rest| == |segments| + 1
  {
    if EndsWith(first, ']') then Taken([first[..|first| - 1]], segments)
    else
      var t := TakeMore(segments);
      Taken([first] + t.values, t.rest)
  }

  datatype Kind = ContextKind | EpochKind | KeysKind | CrsKind

  function KindNamed(name: string): Option<Kind> {
    if name == "context_id" then Some(ContextKind)
    else if name == "epoch_id" then Some(EpochKind)
    else if name == "previous_keys" then Some(KeysKind)
    else if name == "previous_crs" then Some(CrsKind)
    else None
  }

  /** A field and the segments after it. */
  datatype Step = Step(field: Field, rest: seq<string>)

  /** The field that the first segment starts; a list also takes the segments of its entries. */
  function FirstField(segments: seq<string>): (r: Option<Step>)
    requires segments != []
    ensures r.Some? ==> |r.value.rest| < |segments|
  {
    var field :- SplitOnce(segments[0], ':');
    var kind :- KindNamed(field.key);
    match kind
    case ContextKind => Some(Step(Context(field.value), segments[1..]))
    case EpochKind => Some(Step(EpochId(field.value), segments[1..]))
    case _ =>
      if !StartsWith(field.value, "[") then None
      else
        var t := TakeList(field.value[1..], segments[1..]);
        Some(Step(if kind == KeysKind then Keys(t.values) else Crses(t.values), t.rest))
  }

  function ListField(kind: Kind, values: seq<string>): Field
    requires kind == KeysKind || kind == CrsKind
  {
    if kind == KeysKind then Keys(values) else Crses(values)
  }

  lemma ListFieldFrom(segments: seq<string>, name: string, kind: Kind, text: string)
    requires segments != [] && SplitOnce(segments[0], ':') == Some(Pair(name, "[" + text))
    requires KindNamed(name) == Some(kind) && (kind == KeysKind || kind == CrsKind)
    ensures var t := TakeList(text, segments[1..]);
            FirstField(segments) == Some(Step(ListField(kind, t.values), t.rest))
  {
    assert ("[" + text)[1..] == text && StartsWith("[" + text, "[");
  }

  /** The fields of a text. */
  function Group(segments: seq<string>): Option<seq<Field>>
    decreases |segments|
  {
    if segments == [] then Some([])
    else
      var step :- FirstField(segments);
      var rest :- Group(step.rest);
      Some([step.field] + rest)
  }

  // -------------------------------------------------------------------------
  // Interpreting fields
  // -------------------------------------------------------------------------

  datatype Draft = Draft(contextId: Option<Id>, epochId: Option<Id>, keys: seq<KeyInfo.Info>, crses: seq<Crs>)

  const Blank := Draft(None, None, [], [])

  function ParseKeys(values: seq<string>): Option<seq<KeyInfo.Info>> {
    ParseAll(KeyInfo.ParseInfo, values)
  }

  function ParseCrses(values: seq<string>): Option<seq<Crs>> {
    ParseAll(ParseCrs, values)
  }

  /** A scalar overwrites, a list appends. */
  function Apply(d: Draft, f: Field): Option<Draft> {
    match f
    case Context(v) =>
      var id :- Parse(v);
      Some(d.(contextId := Some(id)))
    case EpochId(v) =>
      var id :- Parse(v);
      Some(d.(epochId := Some(id)))
    case Keys(values) =>
      var keys :- ParseKeys(values);
      Some(d.(keys := d.keys + keys))
    case Crses(values) =>
      var crses :- ParseCrses(values);
      Some(d.(crses := d.crses + crses))
  }

  function ApplyAll(d: Draft, fields: seq<Field>): Option<Draft>
    decreases |fields|
  {
    if fields == [] then Some(d)
    else
      var next :- Apply(d, fields[0]);
      ApplyAll(next, fields[1..])
  }

  function Complete(d: Draft): Option<Epoch> {
    if d.contextId.Some? && d.epochId.Some? then Some(Epoch(d.contextId.value, d.epochId.value, d.keys, d.crses))
    else None
  }

  /** The meaning of the segments that are left when `d` has been read. */
  function ParseFrom(d: Draft, segments: seq<string>): Option<Epoch> {
    var fields :- Group(segments);
    var all :- ApplyAll(d, fields);
    Complete(all)
  }

  /** `PreviousEpochParameters::from_str`: group, interpret, check completeness. */
  function ParseEpoch(s: string): Option<Epoch> {
    ParseFrom(Blank, Split(s, ';'))
  }

  /** Reading the text field by field is the same as grouping it first. */
  lemma ParseFromStep(d: Draft, segments: seq<string>)
    requires segments != []
    ensures ParseFrom(d, segments)
         == match FirstField(segments)
            case None => None
            case Some(step) =>
              match Apply(d, step.field)
              case None => None
              case Some(next) => ParseFrom(next, step.rest)
  {
    if FirstField(segments).Some? {
      var step := FirstField(segments).value;
      if Group(step.rest).Some? {
        var fields := Group(step.rest).value;
        assert ([step.field] + fields)[1..] == fields;
      }
    }
  }

  // -------------------------------------------------------------------------
  // Every segment is accounted for
  // -------------------------------------------------------------------------

  function Scalars(fields: seq<Field>): nat {
    if fields == [] then 0
    else (if fields[0].Context? || fields[0].EpochId? then 1 else 0) + Scalars(fields[1..])
  }

  function KeyEntries(fields: seq<Field>): nat {
    if fields == [] then 0 else (if fields[0].Keys? then |fields[0].values| else 0) + KeyEntries(fields[1..])
  }

  function CrsEntries(fields: seq<Field>): nat {
    if fields == [] then 0 else (if fields[0].Crses? then |fields[0].values| else 0) + CrsEntries(fields[1..])
  }

  /** Grouping uses every segment once, either as a scalar or as one list entry. */
  lemma {:induction false} GroupUsesEachSegment(segments: seq<string>)
    ensures Group(segments).Some? ==>
      var fields := Group(segments).value;
      |segments| == Scalars(fields) + KeyEntries(fields) + CrsEntries(fields)
    decreases |segments|
  {
    if segments != [] && Group(segments).Some? {
      var step := FirstField(segments).value;
      GroupUsesEachSegment(step.rest);
      assert Group(segments).value[1..] == Group(step.rest).value;
    }
  }

  lemma {:induction false} ApplyAllCounts(d: Draft, fields: seq<Field>)
    ensures ApplyAll(d, fields).Some? ==>
      && |ApplyAll(d, fields).value.keys| == |d.keys| + KeyEntries(fields)
      && |ApplyAll(d, fields).value.crses| == |d.crses| + CrsEntries(fields)
    decreases |fields|
  {
    if fields != [] && Apply(d, fields[0]).Some? {
      if fields[0].Keys? || fields[0].Crses? {
        ParseAllResults(KeyInfo.ParseInfo, fields[0].values);
        ParseAllResults(ParseCrs, fields[0].values);
      }
      ApplyAllCounts(Apply(d, fields[0]).value, fields[1..]);
    }
  }

  /** When a text parses, the number of its segments is the number of scalar fields plus the
      parsed keys plus the parsed CRSes: no segment is skipped or read twice. */
  lemma SegmentsAccountedFor(s: string)
    requires ParseEpoch(s).Some?
    ensures var epoch, fields := ParseEpoch(s).value, Group(Split(s, ';')).value;
            |Split(s, ';')| == Scalars(fields) + |epoch.keys| + |epoch.crses|
  {
    var segments := Split(s, ';');
    GroupUsesEachSegment(segments);
    ApplyAllCounts(Blank, Group(segments).value);
  }
}
