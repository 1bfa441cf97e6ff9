/** From digests as bytes over the command line to the message that is sent. */
module EpochBytes {
  import opened Wrappers
  import opened Hex
  import opened Identifiers
  import opened PreviousEpoch
  import opened EpochPrinter
  import opened EpochLowering
  import KeyInfo
  import PreviousEpochParser

  datatype RawDigest = RawXof(xof: seq<Byte>) | RawPair(server: seq<Byte>, public: seq<Byte>)

  datatype RawKey = RawKey(keyId: Id, preprocId: Id, digest: RawDigest)

  datatype RawCrs = RawCrs(crsId: Id, digest: seq<Byte>)

  /** A previous epoch with its digests as bytes. */
  datatype RawEpoch = RawEpoch(contextId: Id, epochId: Id, keys: seq<RawKey>, crses: seq<RawCrs>)

  // -------------------------------------------------------------------------
  // The record and the message of a raw epoch
  // -------------------------------------------------------------------------

  function HexKey(k: RawKey): KeyInfo.Info {
    KeyInfo.Info(k.keyId, k.preprocId,
                 match k.digest
                 case RawXof(xof) => KeyInfo.Compressed(Encode(xof))
                 case RawPair(server, public) => KeyInfo.Uncompressed(Encode(server), Encode(public)))
  }

  function HexCrs(c: RawCrs): Crs {
    Crs(c.crsId, Encode(c.digest))
  }

  /** The record with its digests written in hex. */
  function HexEpoch(e: RawEpoch): (r: Epoch)
    ensures r.contextId == e.contextId && r.epochId == e.epochId
    ensures |r.keys| == |e.keys| && forall i :: 0 <= i < |e.keys| ==> r.keys[i] == HexKey(e.keys[i])
    ensures |r.crses| == |e.crses| && forall i :: 0 <= i < |e.crses| ==> r.crses[i] == HexCrs(e.crses[i])
  {
    Epoch(e.contextId, e.epochId, seq(|e.keys|, i requires 0 <= i < |e.keys| => HexKey(e.keys[i])),
          seq(|e.crses|, i requires 0 <= i < |e.crses| => HexCrs(e.crses[i])))
  }

  function KeyMessageOf(k: RawKey, parameters: int): KeyMessage {
    KeyMessage(Print(k.keyId), Print(k.preprocId), parameters,
               match k.digest
               case RawXof(xof) => [KeyDigest("CompressedXofKeySet", xof)]
               case RawPair(server, public) => [KeyDigest("ServerKey", server), KeyDigest("PublicKey", public)])
  }

  function CrsMessageOf(c: RawCrs): CrsMessage {
    CrsMessage(Print(c.crsId), c.digest)
  }

  /** The message with exactly these identifiers and bytes, in the same order. */
  function MessageOf(e: RawEpoch, parameters: int): (m: EpochMessage)
    ensures m.contextId == Print(e.contextId) && m.epochId == Print(e.epochId)
    ensures |m.keys| == |e.keys| && forall i :: 0 <= i < |e.keys| ==> m.keys[i] == KeyMessageOf(e.keys[i], parameters)
    ensures |m.crses| == |e.crses| && forall i :: 0 <= i < |e.crses| ==> m.crses[i] == CrsMessageOf(e.crses[i])
  {
    EpochMessage(Print(e.contextId), Print(e.epochId),
                 seq(|e.keys|, i requires 0 <= i < |e.keys| => KeyMessageOf(e.keys[i], parameters)),
                 seq(|e.crses|, i requires 0 <= i < |e.crses| => CrsMessageOf(e.crses[i])))
  }

  // -------------------------------------------------------------------------
  // The record says what the raw epoch holds
  // -------------------------------------------------------------------------

  lemma EncodedIsHex(bytes: seq<Byte>)
    ensures IsHex(Encode(bytes))
  {
    EncodeIsHex(bytes);
  }

  lemma HexKeyIsHex(k: RawKey)
    ensures HexDigest(HexKey(k).digest)
  {
    match k.digest
    case RawXof(xof) => EncodedIsHex(xof);
    case RawPair(server, public) =>
      EncodedIsHex(server);
      EncodedIsHex(public);
  }

  lemma HexEpochIsHex(e: RawEpoch)
    ensures HexDigests(HexEpoch(e))
  {
    forall i | 0 <= i < |e.keys| ensures HexDigest(HexEpoch(e).keys[i].digest) {
      HexKeyIsHex(e.keys[i]);
    }
    forall i | 0 <= i < |e.crses| ensures IsHex(HexEpoch(e).crses[i].digest) {
      EncodedIsHex(e.crses[i].digest);
    }
  }

  lemma OnlyKeyMessage(k: RawKey, parameters: int, m: KeyMessage)
    requires SaysKey(HexKey(k), parameters, m)
    ensures m == KeyMessageOf(k, parameters)
  {
    match k.digest
    case RawXof(xof) =>
      DecodeEncode(xof);
      assert m.digests == [m.digests[0]];
    case RawPair(server, public) =>
      DecodeEncode(server);
      DecodeEncode(public);
      assert m.digests == [m.digests[0], m.digests[1]];
  }

  lemma OnlyCrsMessage(c: RawCrs, m: CrsMessage)
    requires SaysCrs(HexCrs(c), m)
    ensures m == CrsMessageOf(c)
  {
    DecodeEncode(c.digest);
  }

  lemma OnlyMessage(e: RawEpoch, parameters: int, m: EpochMessage)
    requires Says(HexEpoch(e), parameters, m)
    ensures m == MessageOf(e, parameters)
  {
    var record, wanted := HexEpoch(e), MessageOf(e, parameters);
    forall i | 0 <= i < |e.keys| ensures m.keys[i] == wanted.keys[i] {
      assert SaysKey(record.keys[i], parameters, m.keys[i]);
      OnlyKeyMessage(e.keys[i], parameters, m.keys[i]);
    }
    forall i | 0 <= i < |e.crses| ensures m.crses[i] == wanted.crses[i] {
      assert SaysCrs(record.crses[i], m.crses[i]);
      OnlyCrsMessage(e.crses[i], m.crses[i]);
    }
    assert m.keys == wanted.keys && m.crses == wanted.crses;
  }

  // -------------------------------------------------------------------------
  // From the command line to the message
  // -------------------------------------------------------------------------

  /** Parses the command-line text and converts the record. For the text of any record with
      hex digests the message holds exactly the bytes and identifiers, in order. */
  method ParseAndConvert(s: string, parameters: int) returns (r: Option<EpochMessage>)
    ensures r.Some? <==> ParseEpoch(s).Some? && HexDigests(ParseEpoch(s).value)
    ensures r.Some? ==> Says(ParseEpoch(s).value, parameters, r.value)
    ensures forall e :: s == PrintEpoch(HexEpoch(e)) ==> r == Some(MessageOf(e, parameters))
  {
    var record := PreviousEpochParser.FromStr(s);
    if record.None? {
      forall e | s == PrintEpoch(HexEpoch(e)) ensures false {
        BytesArrive(e);
      }
      return None;
    }
    r := ConvertToGrpc(record.value, parameters);
    forall e | s == PrintEpoch(HexEpoch(e)) ensures r == Some(MessageOf(e, parameters)) {
      BytesArrive(e);
      OnlyMessage(e, parameters, r.value);
    }
  }

  /** The text of a record with hex digests parses back to it, and it can be converted. */
  lemma BytesArrive(e: RawEpoch)
    ensures ParseEpoch(PrintEpoch(HexEpoch(e))) == Some(HexEpoch(e)) && HexDigests(HexEpoch(e))
  {
    HexEpochIsHex(e);
    ConvertibleRoundTrips(HexEpoch(e));
  }
}
