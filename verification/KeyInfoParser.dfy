/** The client's parser for one previous key: a loop over the pairs that fills five variables. */
module KeyInfoParser {
  import opened Wrappers
  import opened Text
  import opened Identifiers
  import opened KeyInfo

  /** The five variables of the loop. */
  datatype Draft = Draft(
    keyId: Option<Id>, preprocId: Option<Id>, xof: Option<string>, server: Option<string>, public: Option<string>)

  ghost predicate Matches(d: Draft, seen: Seen) {
    && IdentifiersParse(seen)
    && d.keyId == (if KeyId in seen then Parse(seen[KeyId]) else None)
    && d.preprocId == (if PreprocId in seen then Parse(seen[PreprocId]) else None)
    && d.xof == ValueOf(seen, XofDigest) && d.server == ValueOf(seen, ServerDigest)
    && d.public == ValueOf(seen, PublicDigest)
  }

  ghost function ValueOf(seen: Seen, f: Field): Option<string> {
    if f in seen then Some(seen[f]) else None
  }

  /** What one piece does to the fields seen so far. */
  function ReadPiece(seen: Seen, piece: string): Option<Seen> {
    match EntryOf(piece)
    case None => None
    case Some(e) => Read(seen, e)
  }

  function ReadPieces(pieces: seq<string>): Option<Seen> {
    if pieces == [] then Some(map[])
    else
      match ReadPieces(pieces[..|pieces| - 1])
      case None => None
      case Some(seen) => ReadPiece(seen, pieces[|pieces| - 1])
  }

  /** Reading pieces in one pass is the same as collecting all entries first. */
  lemma {:induction false} OnePassSuffices(pieces: seq<string>)
    ensures ReadPieces(pieces)
         == match Entries(pieces) case None => None case Some(entries) => ReadAll(entries)
  {
    if pieces != [] {
      OnePassSuffices(pieces[..|pieces| - 1]);
      if Entries(pieces).Some? {
        var init := Entries(pieces[..|pieces| - 1]).value;
        assert Entries(pieces).value[..|init|] == init;
      }
    }
  }

  lemma {:induction false} FailureIsFinal(pieces: seq<string>, k: nat)
    requires k <= |pieces| && ReadPieces(pieces[..k]).None?
    ensures ReadPieces(pieces).None?
    decreases |pieces|
  {
    if k < |pieces| {
      var init := pieces[..|pieces| - 1];
      assert init[..k] == pieces[..k];
      FailureIsFinal(init, k);
    } else {
      assert pieces[..k] == pieces;
    }
  }

  /** The branches for the digests: no duplicates, and the two kinds exclude each other. */
  method ReadDigest(d: Draft, key: string, value: string, ghost seen: Seen) returns (r: Option<Draft>)
    requires Matches(d, seen) && key != "key_id" && key != "preproc_id"
    ensures r.Some? <==> FieldNamed(key).Some? && Read(seen, Entry(FieldNamed(key).value, value)).Some?
    ensures r.Some? ==> Matches(r.value, Read(seen, Entry(FieldNamed(key).value, value)).value)
  {
    if key == "xof_key_digest" {
      if d.xof.Some? {
        return None;
      }
      if d.server.Some? || d.public.Some? {
        return None;
      }
      return Some(d.(xof := Some(value)));
    } else if key == "server_key_digest" {
      if d.server.Some? {
        return None;
      }
      if d.xof.Some? {
        return None;
      }
      return Some(d.(server := Some(value)));
    } else if key == "public_key_digest" {
      if d.public.Some? {
        return None;
      }
      if d.xof.Some? {
        return None;
      }
      return Some(d.(public := Some(value)));
    } else {
      return None;
    }
  }

  /** The body of the loop: one branch per key, with its checks. */
  method ReadPair(d: Draft, piece: string, ghost seen: Seen) returns (r: Option<Draft>)
    requires Matches(d, seen)
    ensures r.Some? <==> ReadPiece(seen, piece).Some?
    ensures r.Some? ==> Matches(r.value, ReadPiece(seen, piece).value)
  {
    var pair := SplitOnce(piece, '=');
    if pair.None? {
      return None;
    }
    var key, value := pair.value.key, pair.value.value;
    if key == "key_id" {
      if d.keyId.Some? {
        return None;
      }
      var id := Parse(value);
      if id.None? {
        return None;
      }
      return Some(d.(keyId := id));
    } else if key == "preproc_id" {
      if d.preprocId.Some? {
        return None;
      }
      var id := Parse(value);
      if id.None? {
        return None;
      }
      return Some(d.(preprocId := id));
    } else {
      r := ReadDigest(d, key, value, seen);
    }
  }

  /** The checks after the loop. */
  method FinishDraft(d: Draft, ghost seen: Seen) returns (r: Option<Info>)
    requires Matches(d, seen)
    ensures r == Finish(seen)
  {
    if d.server.Some? != d.public.Some? {
      return None;
    }
    var digest;
    if d.xof.Some? {
      digest := Compressed(d.xof.value);
    } else {
      if d.server.None? || d.public.None? {
        return None;
      }
      digest := Uncompressed(d.server.value, d.public.value);
    }
    if d.keyId.None? || d.preprocId.None? {
      return None;
    }
    r := Some(Info(d.keyId.value, d.preprocId.value, digest));
  }

  lemma ParseInfoInOnePass(s: string)
    ensures var seen := ReadPieces(Split(s, ','));
            if seen.None? then ParseInfo(s).None?
            else IdentifiersParse(seen.value) && ParseInfo(s) == Finish(seen.value)
  {
    var pieces := Split(s, ',');
    OnePassSuffices(pieces);
    if Entries(pieces).Some? {
      ReadAllHolds(Entries(pieces).value);
    }
  }

  /** The loop over the pairs. */
  method ReadPairs(pieces: seq<string>) returns (d: Option<Draft>)
    ensures d.Some? <==> ReadPieces(pieces).Some?
    ensures d.Some? ==> Matches(d.value, ReadPieces(pieces).value)
  {
    var draft := Draft(None, None, None, None, None);
    ghost var seen: Seen := map[];
    for i := 0 to |pieces|
      invariant ReadPieces(pieces[..i]) == Some(seen)
      invariant Matches(draft, seen)
    {
      assert pieces[..i + 1][..i] == pieces[..i];
      var next := ReadPair(draft, pieces[i], seen);
      if next.None? {
        FailureIsFinal(pieces, i + 1);
        return None;
      }
      draft := next.value;
      seen := ReadPiece(seen, pieces[i]).value;
    }
    assert pieces[..|pieces|] == pieces;
    d := Some(draft);
  }

  /** `PreviousKeyInfo::from_str`. */
  method FromStr(s: string) returns (r: Option<Info>)
    ensures r == ParseInfo(s)
  {
    ParseInfoInOnePass(s);
    var d := ReadPairs(Split(s, ','));
    if d.None? {
      return None;
    }
    r := FinishDraft(d.value, ReadPieces(Split(s, ',')).value);
  }
}
