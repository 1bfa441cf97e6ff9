/** Configured metric labels: parsing the environment variable and filtering before registration. */
module MetricLabels {
  import opened Wrappers
  import opened Sequences
  import opened Text

  type Labels = map<string, string>

  // -------------------------------------------------------------------------
  // Acceptable keys
  // -------------------------------------------------------------------------

  const RESERVED: set<string> := {
    "operation_type", "party_id", "tfhe_type", "public_decryption_mode", "user_decryption_mode",
    "operation", "error", "version", "le"
  }

  predicate IsAlphabetic(c: char) {
    'a' <= c <= 'z' || 'A' <= c <= 'Z'
  }

  predicate IsNameChar(c: char) {
    IsAlphabetic(c) || '0' <= c <= '9' || c == '_'
  }

  /** A Prometheus label name that is not reserved for internal use. */
  predicate ValidName(name: string) {
    && !StartsWith(name, "__")
    && name != [] && (IsAlphabetic(name[0]) || name[0] == '_')
    && forall i :: 0 < i < |name| ==> IsNameChar(name[i])
  }

  predicate AcceptableKey(key: string) {
    ValidName(key) && key !in RESERVED
  }

  /** A key is acceptable exactly when it is made of letters, digits and underscores, does not start
      with a digit or with two underscores, and is none of the names that the metrics use. */
  lemma AcceptableKeyIff(key: string)
    ensures AcceptableKey(key) <==>
      && key != "" && !('0' <= key[0] <= '9') && !(|key| >= 2 && key[0] == '_' && key[1] == '_')
      && (forall i :: 0 <= i < |key| ==>
            'A' <= key[i] <= 'Z' || 'a' <= key[i] <= 'z' || '0' <= key[i] <= '9' || key[i] == '_')
      && key !in ["operation_type", "party_id", "tfhe_type", "public_decryption_mode", "user_decryption_mode",
                  "operation", "error", "version", "le"]
  {
    assert StartsWith(key, "__") <==> |key| >= 2 && key[0] == '_' && key[1] == '_';
    ReservedNames(key);
  }

  lemma ReservedNames(key: string)
    ensures key in RESERVED <==>
      key in ["operation_type", "party_id", "tfhe_type", "public_decryption_mode", "user_decryption_mode",
              "operation", "error", "version", "le"]
  {
  }

  /** Values are trimmed, not empty, and cannot hold the separator of entries. */
  predicate AcceptableValue(value: string) {
    Trimmed(value) && value != [] && ',' !in value
  }

  ghost predicate AcceptableKeys(labels: Labels) {
    forall k :: k in labels ==> AcceptableKey(k)
  }

  ghost predicate Acceptable(labels: Labels) {
    forall k :: k in labels ==> AcceptableKey(k) && AcceptableValue(labels[k])
  }

  lemma KeyChars(key: string)
    requires AcceptableKey(key)
    ensures Trimmed(key) && '=' !in key && ',' !in key
  {
    forall i | 0 <= i < |key| ensures IsNameChar(key[i]) {
    }
  }

  // -------------------------------------------------------------------------
  // Parsing
  // -------------------------------------------------------------------------

  /** The label an entry configures, if any. */
  function LabelOf(entry: string): Option<Pair> {
    match SplitOnce(Trim(entry), '=')
    case None => None
    case Some(p) =>
      var key, value := Trim(p.key), Trim(p.value);
      if value == [] || !AcceptableKey(key) then None else Some(Pair(key, value))
  }

  /** The entry is a key and a value with an equals sign between them and whitespace around each. */
  ghost predicate LabelText(entry: string, a: string, key: string, b: string, c: string, value: string, d: string) {
    && entry == a + (key + b + ['='] + (c + value)) + d
    && AllWhitespace(a) && AllWhitespace(b) && AllWhitespace(c) && AllWhitespace(d)
    && AcceptableKey(key) && Trimmed(value) && value != []
  }

  lemma NoEqualsInside(key: string, b: string)
    requires AcceptableKey(key) && AllWhitespace(b)
    ensures '=' !in key + b
  {
    KeyChars(key);
    forall i | 0 <= i < |key + b| ensures (key + b)[i] != '=' {
      assert i < |key| ==> (key + b)[i] == key[i];
      assert i >= |key| ==> (key + b)[i] == b[i - |key|];
    }
  }

  lemma LabelTextConfigures(
      entry: string, a: string, key: string, b: string, c: string, value: string, d: string)
    requires LabelText(entry, a, key, b, c, value, d)
    ensures LabelOf(entry) == Some(Pair(key, value))
  {
    var inner := key + b + ['='] + (c + value);
    InnerIsTrimmed(key, b, c, value);
    TrimSurrounded(a, inner, d);
    NoEqualsInside(key, b);
    SplitOnceAt(key + b, c + value, '=');
    KeyAndValueTrim(key, b, c, value);
  }

  lemma InnerIsTrimmed(key: string, b: string, c: string, value: string)
    requires AcceptableKey(key) && Trimmed(value) && value != []
    ensures Trimmed(key + b + ['='] + (c + value))
  {
    var inner := key + b + ['='] + (c + value);
    KeyChars(key);
    assert inner[0] == key[0] && inner[|inner| - 1] == value[|value| - 1];
  }

  lemma KeyAndValueTrim(key: string, b: string, c: string, value: string)
    requires AcceptableKey(key) && Trimmed(value) && value != [] && AllWhitespace(b) && AllWhitespace(c)
    ensures Trim(key + b) == key && Trim(c + value) == value
  {
    KeyChars(key);
    assert [] + key + b == key + b && c + value + [] == c + value;
    TrimSurrounded([], key, b);
    TrimSurrounded(c, value, []);
  }

  lemma ConfiguredLabelText(entry: string)
    returns (a: string, b: string, c: string, d: string)
    requires LabelOf(entry).Some?
    ensures LabelText(entry, a, LabelOf(entry).value.key, b, c, LabelOf(entry).value.value, d)
  {
    var p := SplitOnce(Trim(entry), '=').value;
    var key, value := Trim(p.key), Trim(p.value);
    var a0, d0 := TrimCuts(entry);
    var a1, b1 := TrimCuts(p.key);
    var c1, d1 := TrimCuts(p.value);
    TrimFixes(p.value);
    a, b, c, d := a0 + a1, b1, c1, d1 + d0;
    Reassemble(a0, a1, key, b1, c1, value, d1, d0);
  }

  lemma Reassemble(a0: string, a1: string, k: string, b: string, c: string, v: string, d1: string, d0: string)
    ensures a0 + ((a1 + k + b) + ['='] + (c + v + d1)) + d0 == (a0 + a1) + (k + b + ['='] + (c + v)) + (d1 + d0)
  {
  }

  /** An entry configures a key with a value exactly when it is such a text. */
  lemma ConfiguresIff(entry: string, key: string, value: string)
    ensures LabelOf(entry) == Some(Pair(key, value))
       <==> exists a, b, c, d :: LabelText(entry, a, key, b, c, value, d)
  {
    if LabelOf(entry) == Some(Pair(key, value)) {
      var a, b, c, d := ConfiguredLabelText(entry);
    }
    forall a, b, c, d | LabelText(entry, a, key, b, c, value, d) ensures LabelOf(entry) == Some(Pair(key, value)) {
      LabelTextConfigures(entry, a, key, b, c, value, d);
    }
  }

  function Added(labels: Labels, entry: string): Labels {
    match LabelOf(entry)
    case None => labels
    case Some(p) => labels[p.key := p.value]
  }

  function AddedAll(entries: seq<string>): Labels {
    if entries == [] then map[] else Added(AddedAll(entries[..|entries| - 1]), entries[|entries| - 1])
  }

  function ParseLabels(raw: Option<string>): Labels {
    match raw
    case None => map[]
    case Some(text) => AddedAll(Split(text, ','))
  }

  /** `parse_metrics_labels`. */
  method ReadLabels(raw: Option<string>) returns (labels: Labels)
    ensures labels == ParseLabels(raw)
  {
    labels := map[];
    if raw.None? {
      return;
    }
    var entries := Split(raw.value, ',');
    for i := 0 to |entries|
      invariant labels == AddedAll(entries[..i])
    {
      assert entries[..i + 1][..i] == entries[..i];
      var entry := Trim(entries[i]);
      if entry == [] {
        continue;
      }
      var p := SplitOnce(entry, '=');
      if p.None? {
        continue;
      }
      var key, value := Trim(p.value.key), Trim(p.value.value);
      if value == [] {
        continue;
      }
      if !AcceptableKey(key) {
        continue;
      }
      labels := labels[key := value];
    }
    assert entries[..|entries|] == entries;
  }

  predicate Configures(entry: string, key: string) {
    LabelOf(entry).Some? && LabelOf(entry).value.key == key
  }

  /** Position `i` is the last entry that configures `key`. */
  ghost predicate LastFor(entries: seq<string>, key: string, i: nat) {
    i < |entries| && Configures(entries[i], key) && NoneFrom(entries, key, i + 1)
  }

  ghost predicate NoneFrom(entries: seq<string>, key: string, i: nat) {
    forall j :: i <= j < |entries| ==> !Configures(entries[j], key)
  }

  lemma NoneFromSkips(entries: seq<string>, key: string, i: nat)
    requires entries != [] && !Configures(entries[|entries| - 1], key)
    ensures NoneFrom(entries, key, i) <==> NoneFrom(entries[..|entries| - 1], key, i)
  {
    var init := entries[..|entries| - 1];
    assert entries == init + [entries[|entries| - 1]];
    if NoneFrom(init, key, i) {
      forall j | i <= j < |entries| ensures !Configures(entries[j], key) {
        assert j < |init| ==> entries[j] == init[j];
      }
    }
  }

  lemma LastForSkips(entries: seq<string>, key: string, i: nat)
    requires entries != [] && !Configures(entries[|entries| - 1], key)
    ensures LastFor(entries, key, i) <==> LastFor(entries[..|entries| - 1], key, i)
  {
    NoneFromSkips(entries, key, i + 1);
    assert i < |entries| - 1 ==> entries[..|entries| - 1][i] == entries[i];
  }

  /** Each key has the value of the last entry that configures it, and is absent if none does. */
  lemma {:induction false} LastEntryWins(entries: seq<string>, key: string, i: nat)
    ensures LastFor(entries, key, i) ==>
      key in AddedAll(entries) && AddedAll(entries)[key] == LabelOf(entries[i]).value.value
    ensures NoneFrom(entries, key, 0) ==> key !in AddedAll(entries)
  {
    if entries != [] {
      var n := |entries| - 1;
      LastEntryWins(entries[..n], key, i);
      if Configures(entries[n], key) {
        assert LastFor(entries, key, i) ==> i == n;
      } else {
        LastForSkips(entries, key, i);
        assert NoneFrom(entries, key, 0) ==> NoneFrom(entries[..n], key, 0);
      }
    }
  }

  // -------------------------------------------------------------------------
  // What is parsed is acceptable
  // -------------------------------------------------------------------------

  lemma {:induction false} TrimStartLacks(s: string, c: char)
    requires c !in s
    ensures c !in TrimStart(s)
  {
    if s != [] && IsWhitespace(s[0]) {
      TrimStartLacks(s[1..], c);
    }
  }

  lemma {:induction false} TrimEndLacks(s: string, c: char)
    requires c !in s
    ensures c !in TrimEnd(s)
  {
    if s != [] && IsWhitespace(s[|s| - 1]) {
      TrimEndLacks(s[..|s| - 1], c);
    }
  }

  lemma TrimLacks(s: string, c: char)
    requires c !in s
    ensures c !in Trim(s)
  {
    TrimStartLacks(s, c);
    TrimEndLacks(TrimStart(s), c);
  }

  lemma LabelIsAcceptable(entry: string)
    requires ',' !in entry && LabelOf(entry).Some?
    ensures AcceptableKey(LabelOf(entry).value.key) && AcceptableValue(LabelOf(entry).value.value)
  {
    TrimLacks(entry, ',');
    SplitOnceLacks(Trim(entry), '=', ',');
    var p := SplitOnce(Trim(entry), '=').value;
    TrimLacks(p.value, ',');
    TrimFixes(p.value);
  }

  lemma {:induction false} AddedAreAcceptable(entries: seq<string>)
    requires forall i :: 0 <= i < |entries| ==> ',' !in entries[i]
    ensures Acceptable(AddedAll(entries))
  {
    if entries != [] {
      var n := |entries| - 1;
      AddedAreAcceptable(entries[..n]);
      if LabelOf(entries[n]).Some? {
        LabelIsAcceptable(entries[n]);
      }
    }
  }

  /** Whatever the variable holds, every parsed key is valid and not reserved, and every parsed
      value is trimmed, not empty and free of commas. */
  lemma ParsedAreAcceptable(raw: Option<string>)
    ensures Acceptable(ParseLabels(raw))
  {
    if raw.Some? {
      PiecesLackSeparator(raw.value, ',');
      AddedAreAcceptable(Split(raw.value, ','));
    }
  }

  // -------------------------------------------------------------------------
  // Printing
  // -------------------------------------------------------------------------

  function PrintLabel(p: Pair): string {
    p.key + "=" + p.value
  }

  function PrintLabels(listing: seq<Pair>): string {
    if listing == [] then "" else Join(Map(PrintLabel, listing), ',')
  }

  /** The listing names every label of the map once, in any order. */
  ghost predicate Lists(listing: seq<Pair>, labels: Labels) {
    && (forall i :: 0 <= i < |listing| ==> listing[i].key in labels && labels[listing[i].key] == listing[i].value)
    && (forall i, j :: 0 <= i < j < |listing| ==> listing[i].key != listing[j].key)
    && (forall k :: k in labels ==> exists i :: 0 <= i < |listing| && listing[i].key == k)
  }

  lemma LabelRoundTrip(p: Pair)
    requires AcceptableKey(p.key) && AcceptableValue(p.value)
    ensures LabelOf(PrintLabel(p)) == Some(p) && ',' !in PrintLabel(p)
  {
    KeyChars(p.key);
    var s := PrintLabel(p);
    assert s == p.key + ['='] + p.value;
    assert s[0] == p.key[0] && s[|s| - 1] == p.value[|p.value| - 1];
    TrimFixes(s);
    SplitOnceAt(p.key, p.value, '=');
    TrimFixes(p.key);
    TrimFixes(p.value);
  }

  /** The map a listing stands for. */
  function MapOf(listing: seq<Pair>): Labels {
    if listing == [] then map[]
    else MapOf(listing[..|listing| - 1])[listing[|listing| - 1].key := listing[|listing| - 1].value]
  }

  ghost predicate AcceptableListing(listing: seq<Pair>) {
    forall i :: 0 <= i < |listing| ==> AcceptableKey(listing[i].key) && AcceptableValue(listing[i].value)
  }

  lemma {:induction false} PrintedAdd(listing: seq<Pair>)
    requires AcceptableListing(listing)
    ensures AddedAll(Map(PrintLabel, listing)) == MapOf(listing)
  {
    if listing != [] {
      var n := |listing| - 1;
      PrintedAdd(listing[..n]);
      assert Map(PrintLabel, listing)[..n] == Map(PrintLabel, listing[..n]);
      LabelRoundTrip(listing[n]);
    }
  }

  lemma {:induction false} MapOfEntries(listing: seq<Pair>)
    requires forall i, j :: 0 <= i < j < |listing| ==> listing[i].key != listing[j].key
    ensures forall i :: 0 <= i < |listing| ==>
      listing[i].key in MapOf(listing) && MapOf(listing)[listing[i].key] == listing[i].value
    ensures forall k :: k in MapOf(listing) ==> exists i :: 0 <= i < |listing| && listing[i].key == k
  {
    if listing != [] {
      var n := |listing| - 1;
      var init := listing[..n];
      MapOfEntries(init);
      forall k | k in MapOf(listing) ensures exists i :: 0 <= i < |listing| && listing[i].key == k {
        if k in MapOf(init) {
          var i :| 0 <= i < |init| && init[i].key == k;
          assert listing[i].key == k;
        } else {
          assert listing[n].key == k;
        }
      }
    }
  }

  lemma ListingDetermines(listing: seq<Pair>, labels: Labels)
    requires Lists(listing, labels)
    ensures MapOf(listing) == labels
  {
    MapOfEntries(listing);
  }

  /** Parsing undoes printing for every acceptable map, in whatever order its labels are listed. */
  lemma LabelsRoundTrip(listing: seq<Pair>, labels: Labels)
    requires Acceptable(labels) && Lists(listing, labels)
    ensures ParseLabels(Some(PrintLabels(listing))) == labels
  {
    ListingDetermines(listing, labels);
    if listing == [] {
      assert Split("", ',') == [""];
      assert LabelOf("").None?;
      assert AddedAll([""]) == AddedAll([]);
    } else {
      var parts := Map(PrintLabel, listing);
      forall i | 0 <= i < |parts| ensures ',' !in parts[i] {
        LabelRoundTrip(listing[i]);
      }
      SplitJoin(parts, ',');
      PrintedAdd(listing);
    }
  }

  lemma ListingExtends(labels: Labels, key: string, init: seq<Pair>)
    requires key in labels && Lists(init, labels - {key})
    ensures Lists(init + [Pair(key, labels[key])], labels)
  {
    var listing := init + [Pair(key, labels[key])];
    forall k | k in labels ensures exists i :: 0 <= i < |listing| && listing[i].key == k {
      if k == key {
        assert listing[|init|].key == k;
      } else {
        assert k in labels - {key};
        var i :| 0 <= i < |init| && init[i].key == k;
        assert listing[i].key == k;
      }
    }
  }

  lemma Smaller(labels: Labels, key: string)
    requires key in labels
    ensures |labels - {key}| < |labels|
  {
    assert (labels - {key}).Keys == labels.Keys - {key};
    assert |labels.Keys| == |labels| && |(labels - {key}).Keys| == |labels - {key}|;
  }

  lemma {:induction false} ListingExists(labels: Labels) returns (listing: seq<Pair>)
    ensures Lists(listing, labels)
    decreases |labels|
  {
    if labels == map[] {
      listing := [];
    } else {
      var key :| key in labels;
      Smaller(labels, key);
      var init := ListingExists(labels - {key});
      ListingExtends(labels, key, init);
      listing := init + [Pair(key, labels[key])];
    }
  }

  /** The maps that some value of the variable denotes are exactly the acceptable ones. */
  lemma ConfigurableIff(labels: Labels)
    ensures (exists raw :: ParseLabels(raw) == labels) <==> Acceptable(labels)
  {
    if Acceptable(labels) {
      var listing := ListingExists(labels);
      LabelsRoundTrip(listing, labels);
    }
    forall raw | ParseLabels(raw) == labels ensures Acceptable(labels) {
      ParsedAreAcceptable(raw);
    }
  }

  // -------------------------------------------------------------------------
  // Filtering
  // -------------------------------------------------------------------------

  function Retained(labels: Labels): Labels {
    map k | k in labels && AcceptableKey(k) :: labels[k]
  }

  /** `filter_metrics_labels`: drops the keys that are not acceptable. */
  method FilterLabels(labels: Labels) returns (kept: Labels)
    ensures kept == Retained(labels)
    ensures forall k :: k in kept <==> k in labels && AcceptableKey(k)
    ensures forall k :: k in kept ==> kept[k] == labels[k]
  {
    kept := labels;
    var todo := labels.Keys;
    while todo != {}
      invariant todo <= labels.Keys
      invariant forall k :: k in kept <==> k in labels && (k in todo || AcceptableKey(k))
      invariant forall k :: k in kept ==> kept[k] == labels[k]
      decreases todo
    {
      var key :| key in todo;
      if !AcceptableKey(key) {
        kept := kept - {key};
      }
      todo := todo - {key};
    }
  }

  /** The filter changes a map exactly when it has a key that is not acceptable. */
  lemma FilterIsNoOpIff(labels: Labels)
    ensures Retained(labels) == labels <==> AcceptableKeys(labels)
  {
    if Retained(labels) == labels {
      forall k | k in labels ensures AcceptableKey(k) {
        assert k in Retained(labels);
      }
    }
  }

  /** Parsed labels pass the filter unchanged, and filtering twice is filtering once. */
  lemma FilterAfterParsing(raw: Option<string>, labels: Labels)
    ensures Retained(ParseLabels(raw)) == ParseLabels(raw)
    ensures Retained(Retained(labels)) == Retained(labels)
  {
    ParsedAreAcceptable(raw);
    FilterIsNoOpIff(ParseLabels(raw));
    FilterIsNoOpIff(Retained(labels));
  }
}
