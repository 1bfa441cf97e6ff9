/** Turning a previous-epoch record into the message that is sent to the cores. */
module EpochLowering {
  import opened Wrappers
  import opened Text
  import opened Hex
  import opened Identifiers
  import opened PreviousEpoch
  import KeyInfo
  import KeyPrinter
  import EpochPrinter
  import EpochListFormat

  datatype KeyDigest = KeyDigest(keyType: string, digest: seq<Byte>)

  datatype KeyMessage = KeyMessage(keyId: string, preprocId: string, parameters: int, digests: seq<KeyDigest>)

  datatype CrsMessage = CrsMessage(crsId: string, digest: seq<Byte>)

  datatype EpochMessage =
    EpochMessage(contextId: string, epochId: string, keys: seq<KeyMessage>, crses: seq<CrsMessage>)

  // -------------------------------------------------------------------------
  // What a message says
  // -------------------------------------------------------------------------

  /** The key material the digests are of, and their bytes. */
  predicate SaysDigests(d: KeyInfo.Digest, m: seq<KeyDigest>) {
    match d
    case Compressed(xof) =>
      |m| == 1 && m[0].keyType == "CompressedXofKeySet" && Decode(xof) == Some(m[0].digest)
    case Uncompressed(server, public) =>
      && |m| == 2 && m[0].keyType == "ServerKey" && m[1].keyType == "PublicKey"
      && Decode(server) == Some(m[0].digest) && Decode(public) == Some(m[1].digest)
  }

  predicate SaysKey(k: KeyInfo.Info, parameters: int, m: KeyMessage) {
    && m.keyId == Print(k.keyId) && m.preprocId == Print(k.preprocId)
    && m.parameters == parameters && SaysDigests(k.digest, m.digests)
  }

  predicate SaysCrs(c: Crs, m: CrsMessage) {
    m.crsId == Print(c.crsId) && Decode(c.digest) == Some(m.digest)
  }

  /** The message lists the keys and CRSs of the record one by one and in the same order. */
  ghost predicate Says(e: Epoch, parameters: int, m: EpochMessage) {
    && m.contextId == Print(e.contextId) && m.epochId == Print(e.epochId)
    && |m.keys| == |e.keys| && (forall i :: 0 <= i < |e.keys| ==> SaysKey(e.keys[i], parameters, m.keys[i]))
    && |m.crses| == |e.crses| && (forall i :: 0 <= i < |e.crses| ==> SaysCrs(e.crses[i], m.crses[i]))
  }

  predicate IsHex(s: string) {
    |s| % 2 == 0 && AllHex(s)
  }

  predicate HexDigest(d: KeyInfo.Digest) {
    match d
    case Compressed(xof) => IsHex(xof)
    case Uncompressed(server, public) => IsHex(server) && IsHex(public)
  }

  /** Every digest is an even number of hexadecimal digits. */
  ghost predicate HexDigests(e: Epoch) {
    && (forall i :: 0 <= i < |e.keys| ==> HexDigest(e.keys[i].digest))
    && (forall i :: 0 <= i < |e.crses| ==> IsHex(e.crses[i].digest))
  }

  // -------------------------------------------------------------------------
  // convert_to_grpc
  // -------------------------------------------------------------------------

  method ConvertDigest(d: KeyInfo.Digest) returns (r: Option<seq<KeyDigest>>)
    ensures r.Some? <==> HexDigest(d)
    ensures r.Some? ==> SaysDigests(d, r.value)
    ensures r.Some? && d.Compressed? ==>
      |r.value| == 1 && r.value[0].keyType == "CompressedXofKeySet" && Some(r.value[0].digest) == Decode(d.xof)
    ensures r.Some? && d.Uncompressed? ==>
      && |r.value| == 2
      && r.value[0].keyType == "ServerKey" && Some(r.value[0].digest) == Decode(d.server)
      && r.value[1].keyType == "PublicKey" && Some(r.value[1].digest) == Decode(d.public)
  {
    match d
    case Uncompressed(server, public) =>
      DecodesIff(server);
      DecodesIff(public);
      var first := Decode(server);
      if first.None? {
        return None;
      }
      var second := Decode(public);
      if second.None? {
        return None;
      }
      return Some([KeyDigest("ServerKey", first.value), KeyDigest("PublicKey", second.value)]);
    case Compressed(xof) =>
      DecodesIff(xof);
      var only := Decode(xof);
      if only.None? {
        return None;
      }
      return Some([KeyDigest("CompressedXofKeySet", only.value)]);
  }

  method ConvertKeys(keys: seq<KeyInfo.Info>, parameters: int) returns (r: Option<seq<KeyMessage>>)
    ensures r.Some? <==> forall i :: 0 <= i < |keys| ==> HexDigest(keys[i].digest)
    ensures r.Some? ==>
      |r.value| == |keys| && forall i :: 0 <= i < |keys| ==> SaysKey(keys[i], parameters, r.value[i])
    ensures r.Some? ==> forall i :: 0 <= i < |keys| ==>
      && r.value[i].keyId == Print(keys[i].keyId) && r.value[i].preprocId == Print(keys[i].preprocId)
      && r.value[i].parameters == parameters
  {
    var messages: seq<KeyMessage> := [];
    for i := 0 to |keys|
      invariant |messages| == i
      invariant forall j :: 0 <= j < i ==> HexDigest(keys[j].digest) && SaysKey(keys[j], parameters, messages[j])
    {
      var digests := ConvertDigest(keys[i].digest);
      if digests.None? {
        return None;
      }
      messages := messages
                  + [KeyMessage(Print(keys[i].keyId), Print(keys[i].preprocId), parameters, digests.value)];
    }
    return Some(messages);
  }

  method ConvertCrses(crses: seq<Crs>) returns (r: Option<seq<CrsMessage>>)
    ensures r.Some? <==> forall i :: 0 <= i < |crses| ==> IsHex(crses[i].digest)
    ensures r.Some? ==> |r.value| == |crses| && forall i :: 0 <= i < |crses| ==> SaysCrs(crses[i], r.value[i])
    ensures r.Some? ==> forall i :: 0 <= i < |crses| ==>
      r.value[i].crsId == Print(crses[i].crsId) && Some(r.value[i].digest) == Decode(crses[i].digest)
  {
    var messages: seq<CrsMessage> := [];
    for i := 0 to |crses|
      invariant |messages| == i
      invariant forall j :: 0 <= j < i ==> IsHex(crses[j].digest) && SaysCrs(crses[j], messages[j])
    {
      DecodesIff(crses[i].digest);
      var digest := Decode(crses[i].digest);
      if digest.None? {
        return None;
      }
      messages := messages + [CrsMessage(Print(crses[i].crsId), digest.value)];
    }
    return Some(messages);
  }

  /** A record is converted exactly when all its digests are hexadecimal, and the message then
      says what the record says. */
  method ConvertToGrpc(e: Epoch, parameters: int) returns (r: Option<EpochMessage>)
    ensures r.Some? <==> HexDigests(e)
    ensures r.Some? ==> Says(e, parameters, r.value)
  {
    var keys := ConvertKeys(e.keys, parameters);
    if keys.None? {
      return None;
    }
    var crses := ConvertCrses(e.crses);
    if crses.None? {
      return None;
    }
    return Some(EpochMessage(Print(e.contextId), Print(e.epochId), keys.value, crses.value));
  }

  // -------------------------------------------------------------------------
  // What the message determines
  // -------------------------------------------------------------------------

  function LowerDigest(d: KeyInfo.Digest): KeyInfo.Digest {
    match d
    case Compressed(xof) => KeyInfo.Compressed(LowerDigits(xof))
    case Uncompressed(server, public) => KeyInfo.Uncompressed(LowerDigits(server), LowerDigits(public))
  }

  function LowerKey(k: KeyInfo.Info): KeyInfo.Info {
    k.(digest := LowerDigest(k.digest))
  }

  function LowerCrs(c: Crs): Crs {
    c.(digest := LowerDigits(c.digest))
  }

  /** The records differ at most in the case of the digits of their digests. */
  ghost predicate SameUpToCase(a: Epoch, b: Epoch) {
    && a.contextId == b.contextId && a.epochId == b.epochId
    && |a.keys| == |b.keys| && (forall i :: 0 <= i < |a.keys| ==> LowerKey(a.keys[i]) == LowerKey(b.keys[i]))
    && |a.crses| == |b.crses| && (forall i :: 0 <= i < |a.crses| ==> LowerCrs(a.crses[i]) == LowerCrs(b.crses[i]))
  }

  lemma SameBytesIff(s: string, t: string)
    requires Decode(s).Some? && Decode(t).Some?
    ensures Decode(s) == Decode(t) <==> LowerDigits(s) == LowerDigits(t)
  {
    EncodeDecode(s);
    EncodeDecode(t);
    DecodeIgnoresCase(s);
    DecodeIgnoresCase(t);
  }

  lemma SameIdIff(a: Id, b: Id)
    ensures Print(a) == Print(b) <==> a == b
  {
    ParsePrint(a);
    ParsePrint(b);
  }

  lemma SameDigestsIff(a: KeyInfo.Digest, b: KeyInfo.Digest, m: seq<KeyDigest>, n: seq<KeyDigest>)
    requires SaysDigests(a, m) && SaysDigests(b, n)
    ensures m == n <==> LowerDigest(a) == LowerDigest(b)
  {
    match (a, b)
    case (Compressed(x), Compressed(y)) =>
      SameBytesIff(x, y);
      assert m == n <==> m[0] == n[0];
    case (Uncompressed(x, u), Uncompressed(y, v)) =>
      SameBytesIff(x, y);
      SameBytesIff(u, v);
      assert m == n <==> m[0] == n[0] && m[1] == n[1];
    case _ =>
      assert |m| != |n|;
  }

  lemma SameKeyIff(a: KeyInfo.Info, b: KeyInfo.Info, parameters: int, m: KeyMessage, n: KeyMessage)
    requires SaysKey(a, parameters, m) && SaysKey(b, parameters, n)
    ensures m == n <==> LowerKey(a) == LowerKey(b)
  {
    SameIdIff(a.keyId, b.keyId);
    SameIdIff(a.preprocId, b.preprocId);
    SameDigestsIff(a.digest, b.digest, m.digests, n.digests);
  }

  lemma SameCrsIff(a: Crs, b: Crs, m: CrsMessage, n: CrsMessage)
    requires SaysCrs(a, m) && SaysCrs(b, n)
    ensures m == n <==> LowerCrs(a) == LowerCrs(b)
  {
    SameIdIff(a.crsId, b.crsId);
    SameBytesIff(a.digest, b.digest);
  }

  lemma SameKeysIff(a: Epoch, b: Epoch, parameters: int, m: EpochMessage, n: EpochMessage)
    requires Says(a, parameters, m) && Says(b, parameters, n)
    ensures m.keys == n.keys <==>
      |a.keys| == |b.keys| && forall i :: 0 <= i < |a.keys| ==> LowerKey(a.keys[i]) == LowerKey(b.keys[i])
  {
    if |a.keys| == |b.keys| {
      forall i | 0 <= i < |a.keys|
        ensures m.keys[i] == n.keys[i] <==> LowerKey(a.keys[i]) == LowerKey(b.keys[i])
      {
        SameKeyIff(a.keys[i], b.keys[i], parameters, m.keys[i], n.keys[i]);
      }
    }
  }

  lemma SameCrsesIff(a: Epoch, b: Epoch, parameters: int, m: EpochMessage, n: EpochMessage)
    requires Says(a, parameters, m) && Says(b, parameters, n)
    ensures m.crses == n.crses <==>
      |a.crses| == |b.crses| && forall i :: 0 <= i < |a.crses| ==> LowerCrs(a.crses[i]) == LowerCrs(b.crses[i])
  {
    if |a.crses| == |b.crses| {
      forall i | 0 <= i < |a.crses|
        ensures m.crses[i] == n.crses[i] <==> LowerCrs(a.crses[i]) == LowerCrs(b.crses[i])
      {
        SameCrsIff(a.crses[i], b.crses[i], m.crses[i], n.crses[i]);
      }
    }
  }

  /** Conversion loses nothing but the case of the digits: two records become the same message
      exactly when that is all they differ in. */
  lemma SameMessageIff(a: Epoch, b: Epoch, parameters: int, m: EpochMessage, n: EpochMessage)
    requires Says(a, parameters, m) && Says(b, parameters, n)
    ensures m == n <==> SameUpToCase(a, b)
  {
    SameIdIff(a.contextId, b.contextId);
    SameIdIff(a.epochId, b.epochId);
    SameKeysIff(a, b, parameters, m, n);
    SameCrsesIff(a, b, parameters, m, n);
  }

  // -------------------------------------------------------------------------
  // From the command line to the message
  // -------------------------------------------------------------------------

  lemma HexText(s: string)
    requires AllHex(s)
    ensures ',' !in s && ';' !in s && !EndsWith(s, ']')
  {
    HexLacks(s, ',');
    HexLacks(s, ';');
    HexLacks(s, ']');
  }

  lemma HexKeyText(k: KeyInfo.Info)
    requires HexDigest(k.digest)
    ensures KeyPrinter.DigestLacks(k.digest, ',') && KeyPrinter.DigestLacks(k.digest, ';')
    ensures !EndsWith(EpochListFormat.LastDigest(k.digest), ']')
  {
    match k.digest
    case Compressed(xof) => HexText(xof);
    case Uncompressed(server, public) =>
      HexText(server);
      HexText(public);
  }

  lemma ConvertibleIsClean(e: Epoch)
    requires HexDigests(e)
    ensures EpochPrinter.Clean(e)
  {
    forall i | 0 <= i < |e.keys|
      ensures KeyPrinter.DigestLacks(e.keys[i].digest, ',') && KeyPrinter.DigestLacks(e.keys[i].digest, ';')
    {
      HexKeyText(e.keys[i]);
    }
    forall i | 0 <= i < |e.crses| ensures ';' !in e.crses[i].digest {
      HexText(e.crses[i].digest);
    }
  }

  lemma ConvertibleHasNoBrackets(e: Epoch)
    requires HexDigests(e)
    ensures EpochListFormat.BracketsLast(e)
  {
    forall i | 0 <= i < |e.keys| ensures !EndsWith(EpochListFormat.LastDigest(e.keys[i].digest), ']') {
      HexKeyText(e.keys[i]);
    }
    forall i | 0 <= i < |e.crses| ensures !EndsWith(e.crses[i].digest, ']') {
      HexText(e.crses[i].digest);
    }
  }

  /** Every record that can be converted can be given on the command line in the documented
      format: parsing the printed record gives the record back. */
  lemma ConvertibleRoundTrips(e: Epoch)
    requires HexDigests(e)
    ensures ParseEpoch(EpochPrinter.PrintEpoch(e)) == Some(e)
  {
    ConvertibleIsClean(e);
    ConvertibleHasNoBrackets(e);
    EpochListFormat.EpochRoundTripIff(e);
  }
}
