/** The 32-byte identifiers of requests, keys, contexts and epochs. */
module Identifiers {
  import opened Wrappers
  import opened Text
  import opened Hex

  const ID_LENGTH: nat := 32

  type Id = b: seq<Byte> | |b| == ID_LENGTH witness seq(ID_LENGTH, _ => 0)

  /** Lower-case hex without a prefix. */
  function Print(id: Id): (s: string)
    ensures |s| == 2 * ID_LENGTH
  {
    Encode(id)
  }

  /** Surrounding whitespace is ignored. The prefix `0x` is removed here and, if it is still
      there, once more by the decoder. */
  function Digits(s: string): string {
    StripPrefix(StripPrefix(Trim(s), "0x"), "0x")
  }

  function Parse(s: string): Option<Id> {
    match Decode(Digits(s))
    case Some(bytes) => if |bytes| == ID_LENGTH then Some(bytes) else None
    case None => None
  }

  lemma DigitsParse(d: string, id: Id)
    ensures Decode(d) == Some(id) <==> LowerDigits(d) == Print(id)
  {
    if Decode(d).Some? {
      EncodeDecode(d);
    }
    DecodeIgnoresCase(d);
    DecodeEncode(id);
  }

  /** The text is the printed identifier in either case, behind up to two prefixes `0x`, with
      whitespace around it. */
  ghost predicate IdText(s: string, a: string, prefix: string, digits: string, b: string, id: Id) {
    && s == a + (prefix + digits) + b && AllWhitespace(a) && AllWhitespace(b)
    && (prefix == "" || prefix == "0x" || prefix == "0x0x") && LowerDigits(digits) == Print(id)
  }

  lemma LowerIsHex(digits: string)
    requires AllHex(LowerDigits(digits))
    ensures AllHex(digits)
  {
    forall i | 0 <= i < |digits| ensures Digit(digits[i]).Some? {
      DigitOfLower(digits[i]);
      assert Digit(LowerDigits(digits)[i]).Some?;
    }
  }

  lemma PrefixesStrip(prefix: string, digits: string)
    requires AllHex(digits) && (prefix == "" || prefix == "0x" || prefix == "0x0x")
    ensures StripPrefix(StripPrefix(prefix + digits, "0x"), "0x") == digits
  {
    NoSuchPrefix(digits, 'x');
    if prefix == "" {
      assert prefix + digits == digits;
    } else if prefix == "0x" {
      assert (prefix + digits)[2..] == digits;
    } else {
      assert prefix + digits == "0x" + ("0x" + digits);
      assert (prefix + digits)[2..] == "0x" + digits && ("0x" + digits)[2..] == digits;
    }
  }

  lemma PrefixedIsTrimmed(prefix: string, digits: string)
    requires AllHex(digits) && digits != [] && (prefix == "" || prefix == "0x" || prefix == "0x0x")
    ensures Trimmed(prefix + digits)
  {
    HexIsTrimmed(digits);
    var s := prefix + digits;
    assert s[|s| - 1] == digits[|digits| - 1];
    assert s[0] == if prefix == "" then digits[0] else '0';
  }

  lemma IdTextParses(s: string, a: string, prefix: string, digits: string, b: string, id: Id)
    requires IdText(s, a, prefix, digits, b, id)
    ensures Parse(s) == Some(id)
  {
    EncodeIsHex(id);
    LowerIsHex(digits);
    PrefixedIsTrimmed(prefix, digits);
    TrimSurrounded(a, prefix + digits, b);
    PrefixesStrip(prefix, digits);
    DigitsParse(digits, id);
  }

  lemma ParsedIdText(s: string, id: Id) returns (a: string, prefix: string, digits: string, b: string)
    requires Parse(s) == Some(id)
    ensures IdText(s, a, prefix, digits, b, id)
  {
    a, b := TrimCuts(s);
    digits := Digits(s);
    prefix := StripTwice(Trim(s), "0x", "0x");
    assert "0x" + "0x" == "0x0x";
    DigitsParse(digits, id);
  }

  /** A text parses to an identifier exactly when it is a text of this identifier. */
  lemma ParseIff(s: string, id: Id)
    ensures Parse(s) == Some(id) <==> exists a, prefix, digits, b :: IdText(s, a, prefix, digits, b, id)
  {
    if Parse(s) == Some(id) {
      var a, prefix, digits, b := ParsedIdText(s, id);
    }
    forall a, prefix, digits, b | IdText(s, a, prefix, digits, b, id) ensures Parse(s) == Some(id) {
      IdTextParses(s, a, prefix, digits, b, id);
    }
  }

  /** Parsing undoes printing for every identifier. */
  lemma ParsePrint(id: Id)
    ensures Parse(Print(id)) == Some(id)
  {
    var s := Print(id);
    EncodeIsHex(id);
    HexIsTrimmed(s);
    TrimFixes(s);
    NoSuchPrefix(s, 'x');
    DecodeEncode(id);
  }

  lemma HexIsTrimmed(s: string)
    requires AllHex(s)
    ensures Trimmed(s)
  {
    if s != [] {
      assert Digit(s[0]).Some? && Digit(s[|s| - 1]).Some?;
    }
  }

  /** Hex digits are none of the characters the surrounding grammar uses. */
  lemma HexLacks(s: string, c: char)
    requires AllHex(s) && Digit(c).None?
    ensures c !in s
  {
  }
}
