/** The client's parser for the previous-epoch parameter: one pass over the segments, in which
    the loops over list entries advance the same position as the outer loop. */
module PreviousEpochParser {
  import opened Wrappers
  import opened Text
  import opened Identifiers
  import opened PreviousEpoch
  import KeyInfo
  import KeyInfoParser

  /** Collects the entries of a list that starts with `first`; `i` is the shared position. */
  method ReadList(first: string, segments: seq<string>, i: nat) returns (values: seq<string>, j: nat)
    requires i <= |segments|
    ensures i <= j <= |segments|
    ensures Taken(values, segments[j..]) == TakeList(first, segments[i..])
  {
    j := i;
    if EndsWith(first, ']') {
      values := [first[..|first| - 1]];
      return;
    }
    values := [first];
    while j < |segments|
      invariant i <= j <= |segments|
      invariant TakeList(first, segments[i..])
             == var t := TakeMore(segments[j..]); Taken(values + t.values, t.rest)
    {
      var next := segments[j];
      assert segments[j..][0] == next && segments[j..][1..] == segments[j + 1..];
      j := j + 1;
      if EndsWith(next, ']') {
        values := values + [next[..|next| - 1]];
        return;
      }
      ghost var t := TakeMore(segments[j..]);
      assert values + ([next] + t.values) == (values + [next]) + t.values;
      values := values + [next];
    }
  }

  method ReadKeys(values: seq<string>) returns (r: Option<seq<KeyInfo.Info>>)
    ensures r == ParseKeys(values)
  {
    var keys: seq<KeyInfo.Info> := [];
    for i := 0 to |values|
      invariant ParseKeys(values[..i]) == Some(keys)
    {
      assert values[..i + 1][..i] == values[..i];
      var key := KeyInfoParser.FromStr(values[i]);
      if key.None? {
        ParseAllFailsEarly(KeyInfo.ParseInfo, values, i + 1);
        return None;
      }
      keys := keys + [key.value];
    }
    assert values[..|values|] == values;
    r := Some(keys);
  }

  method ReadCrses(values: seq<string>) returns (r: Option<seq<Crs>>)
    ensures r == ParseCrses(values)
  {
    var crses: seq<Crs> := [];
    for i := 0 to |values|
      invariant ParseCrses(values[..i]) == Some(crses)
    {
      assert values[..i + 1][..i] == values[..i];
      var crs := ParseCrs(values[i]);
      if crs.None? {
        ParseAllFailsEarly(ParseCrs, values, i + 1);
        return None;
      }
      crses := crses + [crs.value];
    }
    assert values[..|values|] == values;
    r := Some(crses);
  }

  /** The field at position `i`, with the entries of its list if it is one. */
  method TakeField(segments: seq<string>, i: nat) returns (f: Option<Field>, j: nat)
    requires i < |segments|
    ensures i < j <= |segments|
    ensures f.Some? <==> FirstField(segments[i..]).Some?
    ensures f.Some? ==> Step(f.value, segments[j..]) == FirstField(segments[i..]).value
  {
    j := i + 1;
    assert segments[i..][0] == segments[i] && segments[i..][1..] == segments[i + 1..];
    var pair := SplitOnce(segments[i], ':');
    if pair.None? {
      return None, j;
    }
    var key, value := pair.value.key, pair.value.value;
    if key == "context_id" {
      return Some(Context(value)), j;
    } else if key == "epoch_id" {
      return Some(EpochId(value)), j;
    } else if key != "previous_keys" && key != "previous_crs" {
      return None, j;
    }
    if !StartsWith(value, "[") {
      return None, j;
    }
    var values;
    values, j := ReadList(value[1..], segments, i + 1);
    return Some(if key == "previous_keys" then Keys(values) else Crses(values)), j;
  }

  /** Parses the text of a field into the variables of the loop. */
  method ApplyField(d: Draft, f: Field) returns (r: Option<Draft>)
    ensures r == Apply(d, f)
  {
    match f
    case Context(value) =>
      var id := Parse(value);
      r := if id.Some? then Some(d.(contextId := id)) else None;
    case EpochId(value) =>
      var id := Parse(value);
      r := if id.Some? then Some(d.(epochId := id)) else None;
    case Keys(values) =>
      var keys := ReadKeys(values);
      r := if keys.Some? then Some(d.(keys := d.keys + keys.value)) else None;
    case Crses(values) =>
      var crses := ReadCrses(values);
      r := if crses.Some? then Some(d.(crses := d.crses + crses.value)) else None;
  }

  /** `PreviousEpochParameters::from_str`. */
  method FromStr(s: string) returns (r: Option<Epoch>)
    ensures r == ParseEpoch(s)
  {
    var segments := Split(s, ';');
    var d := Blank;
    var i := 0;
    assert segments[0..] == segments;
    while i < |segments|
      invariant 0 <= i <= |segments|
      invariant ParseEpoch(s) == ParseFrom(d, segments[i..])
    {
      ParseFromStep(d, segments[i..]);
      var f, j := TakeField(segments, i);
      if f.None? {
        return None;
      }
      var next := ApplyField(d, f.value);
      if next.None? {
        return None;
      }
      d, i := next.value, j;
    }
    r := Complete(d);
  }
}
