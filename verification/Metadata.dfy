/** The metadata file of the backward-compatibility generator: every run replaces the entries of
    the versions it writes and leaves the others alone. */
module Metadata {
  import opened Wrappers

  datatype Entry<+T> = Entry(version: string, testcase: T)

  /** The content of the file, if it exists. */
  type File<+T> = Option<seq<Entry<T>>>

  function Versions<T>(batch: seq<Entry<T>>): set<string> {
    set i | 0 <= i < |batch| :: batch[i].version
  }

  /** The entries of other versions, in order. */
  function Without<T>(entries: seq<Entry<T>>, versions: set<string>): seq<Entry<T>> {
    if entries == [] then []
    else
      Without(entries[..|entries| - 1], versions)
      + if entries[|entries| - 1].version in versions then [] else [entries[|entries| - 1]]
  }

  /** The entries of one version, in order. */
  function Of<T>(entries: seq<Entry<T>>, version: string): seq<Entry<T>> {
    if entries == [] then []
    else
      Of(entries[..|entries| - 1], version)
      + if entries[|entries| - 1].version == version then [entries[|entries| - 1]] else []
  }

  function Stored<T>(file: File<T>, batch: seq<Entry<T>>): seq<Entry<T>> {
    match file
    case None => batch
    case Some(existing) => Without(existing, Versions(batch)) + batch
  }

  /** The file after a sequence of runs. */
  function After<T>(file: File<T>, batches: seq<seq<Entry<T>>>): File<T> {
    if batches == [] then file
    else Some(Stored(After(file, batches[..|batches| - 1]), batches[|batches| - 1]))
  }

  class MetadataStore<T> {
    var file: File<T>

    constructor ()
      ensures file == None
    {
      file := None;
    }

    /** One run of the generator. */
    method Store(batch: seq<Entry<T>>)
      modifies this
      ensures file == Some(Stored(old(file), batch))
    {
      if file.None? {
        file := Some(batch);
        return;
      }
      var existing, versions := file.value, Versions(batch);
      var combined: seq<Entry<T>> := [];
      for i := 0 to |existing|
        invariant combined == Without(existing[..i], versions) && file == old(file)
      {
        assert existing[..i + 1][..i] == existing[..i];
        if existing[i].version !in versions {
          combined := combined + [existing[i]];
        }
      }
      assert existing[..|existing|] == existing;
      file := Some(combined + batch);
    }

    method StoreAll(batches: seq<seq<Entry<T>>>)
      modifies this
      ensures file == After(old(file), batches)
    {
      for i := 0 to |batches|
        invariant file == After(old(file), batches[..i])
      {
        assert batches[..i + 1][..i] == batches[..i];
        Store(batches[i]);
      }
      assert batches[..|batches|] == batches;
    }
  }

  // -------------------------------------------------------------------------
  // Selecting entries
  // -------------------------------------------------------------------------

  lemma {:induction false} WithoutAppend<T>(a: seq<Entry<T>>, b: seq<Entry<T>>, versions: set<string>)
    ensures Without(a + b, versions) == Without(a, versions) + Without(b, versions)
  {
    if b == [] {
      assert a + b == a;
    } else {
      var init, last := b[..|b| - 1], b[|b| - 1];
      WithoutAppend(a, init, versions);
      assert (a + b)[..|a + b| - 1] == a + init && (a + b)[|a + b| - 1] == last;
      var kept := if last.version in versions then [] else [last];
      assert Without(a + b, versions) == Without(a + init, versions) + kept;
      assert Without(b, versions) == Without(init, versions) + kept;
    }
  }

  lemma {:induction false} WithoutTwice<T>(entries: seq<Entry<T>>, v: set<string>, w: set<string>)
    ensures Without(Without(entries, v), w) == Without(entries, v + w)
  {
    if entries != [] {
      var init, last := entries[..|entries| - 1], entries[|entries| - 1];
      WithoutTwice(init, v, w);
      WithoutAppend(Without(init, v), if last.version in v then [] else [last], w);
    }
  }

  lemma WithoutAgain<T>(entries: seq<Entry<T>>, v: set<string>)
    ensures Without(Without(entries, v), v) == Without(entries, v)
  {
    WithoutTwice(entries, v, v);
    assert v + v == v;
  }

  lemma VersionsOfPrefix<T>(entries: seq<Entry<T>>, n: nat)
    requires n <= |entries|
    ensures Versions(entries[..n]) <= Versions(entries)
  {
    forall i | 0 <= i < n ensures entries[..n][i].version in Versions(entries) {
      assert entries[..n][i] == entries[i];
    }
  }

  lemma {:induction false} WithoutOwn<T>(entries: seq<Entry<T>>, versions: set<string>)
    requires Versions(entries) <= versions
    ensures Without(entries, versions) == []
  {
    if entries != [] {
      var n := |entries| - 1;
      assert entries[n].version in Versions(entries);
      VersionsOfPrefix(entries, n);
      WithoutOwn(entries[..n], versions);
    }
  }

  lemma {:induction false} OfAppend<T>(a: seq<Entry<T>>, b: seq<Entry<T>>, version: string)
    ensures Of(a + b, version) == Of(a, version) + Of(b, version)
  {
    if b == [] {
      assert a + b == a;
    } else {
      OfAppend(a, b[..|b| - 1], version);
      assert (a + b)[..|a + b| - 1] == a + b[..|b| - 1];
    }
  }

  lemma {:induction false} OfWithout<T>(entries: seq<Entry<T>>, versions: set<string>, version: string)
    ensures Of(Without(entries, versions), version) == if version in versions then [] else Of(entries, version)
  {
    if entries != [] {
      var init, last := entries[..|entries| - 1], entries[|entries| - 1];
      OfWithout(init, versions, version);
      OfAppend(Without(init, versions), if last.version in versions then [] else [last], version);
    }
  }

  lemma {:induction false} OfAbsent<T>(entries: seq<Entry<T>>, version: string)
    requires version !in Versions(entries)
    ensures Of(entries, version) == []
  {
    if entries != [] {
      var n := |entries| - 1;
      assert entries[n].version in Versions(entries);
      VersionsOfPrefix(entries, n);
      OfAbsent(entries[..n], version);
    }
  }

  // -------------------------------------------------------------------------
  // The file over all runs
  // -------------------------------------------------------------------------

  /** Running the same batch again changes nothing, whether or not the file existed before. */
  lemma RerunChangesNothing<T>(file: File<T>, batch: seq<Entry<T>>)
    ensures Stored(Some(Stored(file, batch)), batch) == Stored(file, batch)
  {
    var v := Versions(batch);
    WithoutOwn(batch, v);
    if file.Some? {
      WithoutAppend(Without(file.value, v), batch, v);
      WithoutAgain(file.value, v);
    }
  }

  function Existing<T>(file: File<T>): seq<Entry<T>> {
    match file
    case None => []
    case Some(entries) => entries
  }

  lemma StoredExisting<T>(file: File<T>, batch: seq<Entry<T>>)
    ensures Stored(file, batch) == Without(Existing(file), Versions(batch)) + batch
  {
  }

  /** The entries of a version that a sequence of runs leaves behind. */
  function LastWord<T>(file: File<T>, batches: seq<seq<Entry<T>>>, version: string): seq<Entry<T>> {
    if batches == [] then Of(Existing(file), version)
    else if version in Versions(batches[|batches| - 1]) then Of(batches[|batches| - 1], version)
    else LastWord(file, batches[..|batches| - 1], version)
  }

  /** For every version the file holds exactly the entries of the last batch that mentions it,
      and what was there before the runs if no batch does. */
  lemma {:induction false} LastBatchWins<T>(file: File<T>, batches: seq<seq<Entry<T>>>, version: string)
    ensures Of(Existing(After(file, batches)), version) == LastWord(file, batches, version)
  {
    if batches != [] {
      var init, last := batches[..|batches| - 1], batches[|batches| - 1];
      var before := Existing(After(file, init));
      LastBatchWins(file, init, version);
      StoredExisting(After(file, init), last);
      OfAppend(Without(before, Versions(last)), last, version);
      OfWithout(before, Versions(last), version);
      if version !in Versions(last) {
        OfAbsent(last, version);
      }
    }
  }

  function AllVersions<T>(batches: seq<seq<Entry<T>>>): set<string> {
    if batches == [] then {} else Versions(batches[0]) + AllVersions(batches[1..])
  }

  /** What is left of a sequence of batches: of each batch, the versions no later batch writes. */
  function Survivors<T>(batches: seq<seq<Entry<T>>>): seq<Entry<T>> {
    if batches == [] then []
    else Without(batches[0], AllVersions(batches[1..])) + Survivors(batches[1..])
  }

  lemma {:induction false} AllVersionsAppend<T>(batches: seq<seq<Entry<T>>>, last: seq<Entry<T>>)
    ensures AllVersions(batches + [last]) == AllVersions(batches) + Versions(last)
  {
    if batches == [] {
      assert batches + [last] == [last];
    } else {
      AllVersionsAppend(batches[1..], last);
      assert (batches + [last])[1..] == batches[1..] + [last];
    }
  }

  lemma {:induction false} SurvivorsAppend<T>(batches: seq<seq<Entry<T>>>, last: seq<Entry<T>>)
    ensures Survivors(batches + [last]) == Without(Survivors(batches), Versions(last)) + last
  {
    if batches == [] {
      assert batches + [last] == [last];
      WithoutNone(last);
    } else {
      var first, rest := batches[0], batches[1..];
      assert (batches + [last])[1..] == rest + [last];
      SurvivorsAppend(rest, last);
      AllVersionsAppend(rest, last);
      WithoutTwice(first, AllVersions(rest), Versions(last));
      WithoutAppend(Without(first, AllVersions(rest)), Survivors(rest), Versions(last));
    }
  }

  lemma {:induction false} WithoutNone<T>(entries: seq<Entry<T>>)
    ensures Without(entries, {}) == entries
  {
    if entries != [] {
      WithoutNone(entries[..|entries| - 1]);
    }
  }

  lemma LastBatch<T>(first: seq<Entry<T>>, batches: seq<seq<Entry<T>>>)
    requires batches != []
    ensures [first] + batches == ([first] + batches[..|batches| - 1]) + [batches[|batches| - 1]]
  {
  }

  /** The content after any sequence of runs in closed form: what was there before counts as the
      first batch, and the surviving entries of all batches follow each other in run order. So
      untouched entries keep their place and their relative order. */
  lemma {:induction false} RunsLeaveSurvivors<T>(file: File<T>, batches: seq<seq<Entry<T>>>)
    ensures Existing(After(file, batches)) == Survivors([Existing(file)] + batches)
  {
    if batches == [] {
      assert [Existing(file)] + batches == [Existing(file)];
      WithoutNone(Existing(file));
    } else {
      var init, last := batches[..|batches| - 1], batches[|batches| - 1];
      RunsLeaveSurvivors(file, init);
      StoredExisting(After(file, init), last);
      SurvivorsAppend([Existing(file)] + init, last);
      LastBatch(Existing(file), batches);
    }
  }

  /** Entries of versions that no run writes stay, in order, at the front of the file. */
  lemma UntouchedStayInFront<T>(file: File<T>, batches: seq<seq<Entry<T>>>)
    ensures Without(Existing(file), AllVersions(batches)) <= Existing(After(file, batches))
  {
    RunsLeaveSurvivors(file, batches);
    assert ([Existing(file)] + batches)[1..] == batches;
  }
}
