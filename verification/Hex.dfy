/** Hexadecimal text (Base16, section 8 of RFC 4648) as the client reads and writes it. */
module Hex {
  import opened Wrappers
  import opened Text

  type Byte = b: int | 0 <= b < 256

  /** The value of a hexadecimal digit of either case. */
  function Digit(c: char): Option<nat> {
    if '0' <= c <= '9' then Some(c as int - '0' as int)
    else if 'a' <= c <= 'f' then Some(c as int - 'a' as int + 10)
    else if 'A' <= c <= 'F' then Some(c as int - 'A' as int + 10)
    else None
  }

  lemma DigitRange(c: char)
    requires Digit(c).Some?
    ensures Digit(c).value < 16
  {
  }

  /** The digits are the sixteen characters from `0` to `f`, with their positions as values, and
      the capital forms of the last six; nothing else is a digit. */
  lemma DigitValues(c: char, i: nat)
    ensures i < 16 ==> Digit("0123456789abcdef"[i]) == Some(i) && Digit("0123456789ABCDEF"[i]) == Some(i)
    ensures Digit(c).Some? <==> c in "0123456789abcdef" || c in "0123456789ABCDEF"
  {
    if Digit(c).Some? {
      DigitRange(c);
      var d := Digit(c).value;
      assert c == "0123456789abcdef"[d] || c == "0123456789ABCDEF"[d];
    }
  }

  predicate AllHex(s: string) {
    forall i :: 0 <= i < |s| ==> Digit(s[i]).Some?
  }

  /** `hex::decode`: two digits per byte; odd lengths and other characters are errors. */
  function Decode(s: string): Option<seq<Byte>> {
    if s == [] then Some([])
    else if |s| == 1 then None
    else
      match (Digit(s[0]), Digit(s[1]), Decode(s[2..]))
      case (Some(hi), Some(lo), Some(rest)) => DigitRange(s[0]); DigitRange(s[1]); Some([16 * hi + lo] + rest)
      case _ => None
  }

  function DigitChar(d: nat): (c: char)
    requires d < 16
    ensures Digit(c) == Some(d) && !IsWhitespace(c)
  {
    if d < 10 then ('0' as int + d) as char else ('a' as int + d - 10) as char
  }

  /** `hex::encode`: lower case. */
  function Encode(bytes: seq<Byte>): (s: string)
    ensures |s| == 2 * |bytes| && |s| % 2 == 0
  {
    if bytes == [] then [] else [DigitChar(bytes[0] / 16), DigitChar(bytes[0] % 16)] + Encode(bytes[1..])
  }

  lemma {:induction false} EncodeIsHex(bytes: seq<Byte>)
    ensures AllHex(Encode(bytes))
  {
    if bytes != [] {
      EncodeIsHex(bytes[1..]);
    }
  }

  /** Decoding undoes encoding. */
  lemma {:induction false} DecodeEncode(bytes: seq<Byte>)
    ensures Decode(Encode(bytes)) == Some(bytes)
  {
    if bytes != [] {
      DecodeEncode(bytes[1..]);
      assert Encode(bytes)[2..] == Encode(bytes[1..]);
      assert [bytes[0]] + bytes[1..] == bytes;
    }
  }

  lemma {:induction false} DecodesIff(s: string)
    ensures Decode(s).Some? <==> |s| % 2 == 0 && AllHex(s)
    ensures Decode(s).Some? ==> |Decode(s).value| == |s| / 2
  {
    if |s| >= 2 {
      DecodesIff(s[2..]);
      if AllHex(s[2..]) && Digit(s[0]).Some? && Digit(s[1]).Some? {
        forall i | 0 <= i < |s| ensures Digit(s[i]).Some? {
          if i >= 2 {
            assert s[i] == s[2..][i - 2];
          }
        }
      }
    }
  }

  /** The digit in lower case. */
  function LowerDigit(c: char): char {
    if 'A' <= c <= 'F' then (c as int - 'A' as int + 'a' as int) as char else c
  }

  function LowerDigits(s: string): (r: string)
    ensures |r| == |s| && forall i :: 0 <= i < |s| ==> r[i] == LowerDigit(s[i])
  {
    seq(|s|, i requires 0 <= i < |s| => LowerDigit(s[i]))
  }

  lemma DigitOfLower(c: char)
    ensures Digit(LowerDigit(c)) == Digit(c)
    ensures Digit(c).Some? ==> Digit(c).value < 16 && DigitChar(Digit(c).value) == LowerDigit(c)
  {
  }

  /** Decoding does not depend on the case of the digits. */
  lemma {:induction false} DecodeIgnoresCase(s: string)
    ensures Decode(LowerDigits(s)) == Decode(s)
    decreases |s|
  {
    if |s| >= 2 {
      DecodeIgnoresCase(s[2..]);
      assert LowerDigits(s)[2..] == LowerDigits(s[2..]);
      DigitOfLower(s[0]);
      DigitOfLower(s[1]);
    }
  }

  lemma EncodePair(b: Byte, hi: nat, lo: nat, rest: seq<Byte>)
    requires hi < 16 && lo < 16 && b / 16 == hi && b % 16 == lo
    ensures Encode([b] + rest) == [DigitChar(hi), DigitChar(lo)] + Encode(rest)
  {
    assert ([b] + rest)[1..] == rest;
  }

  lemma Halves(hi: nat, lo: nat)
    requires hi < 16 && lo < 16
    ensures (16 * hi + lo) / 16 == hi && (16 * hi + lo) % 16 == lo
  {
  }

  /** Encoding what was decoded gives the same digits in lower case. */
  lemma {:induction false} EncodeDecode(s: string)
    requires Decode(s).Some?
    ensures Encode(Decode(s).value) == LowerDigits(s)
    decreases |s|
  {
    if s != [] {
      EncodeDecode(s[2..]);
      DigitOfLower(s[0]);
      DigitOfLower(s[1]);
      var hi, lo := Digit(s[0]).value, Digit(s[1]).value;
      Halves(hi, lo);
      EncodePair(16 * hi + lo, hi, lo, Decode(s[2..]).value);
      assert LowerDigits(s) == [LowerDigit(s[0]), LowerDigit(s[1])] + LowerDigits(s[2..]);
    }
  }

  /** The number written by hexadecimal digits, most significant first. */
  function DigitsValue(s: string): nat
    requires AllHex(s)
  {
    if s == [] then 0 else 16 * DigitsValue(s[..|s| - 1]) + Digit(s[|s| - 1]).value
  }

  /** The number a byte string stands for, most significant first. */
  function BytesValue(bytes: seq<Byte>): nat {
    if bytes == [] then 0 else 256 * BytesValue(bytes[..|bytes| - 1]) + bytes[|bytes| - 1]
  }

  /** The last two digits are the last byte. */
  lemma {:induction false} DecodeLast(s: string)
    requires |s| >= 2 && Decode(s).Some?
    ensures var n := |s| - 2;
            && Decode(s[..n]).Some? && Digit(s[n]).Some? && Digit(s[n + 1]).Some?
            && Digit(s[n]).value < 16 && Digit(s[n + 1]).value < 16
            && Decode(s).value == Decode(s[..n]).value + [16 * Digit(s[n]).value + Digit(s[n + 1]).value]
  {
    if |s| > 3 {
      DecodeLast(s[2..]);
      assert s[2..][..|s| - 4] == s[..|s| - 2][2..];
    } else {
      DecodesIff(s);
    }
  }

  /** Decoding keeps the number. */
  lemma {:induction false} DecodeKeepsValue(s: string)
    requires AllHex(s) && Decode(s).Some?
    ensures BytesValue(Decode(s).value) == DigitsValue(s)
  {
    if s != [] {
      DecodesIff(s);
      DecodeLast(s);
      var n := |s| - 2;
      DecodeKeepsValue(s[..n]);
      var bytes := Decode(s).value;
      assert bytes[..|bytes| - 1] == Decode(s[..n]).value;
      assert s[..n + 1][..n] == s[..n];
      assert DigitsValue(s[..n + 1]) == 16 * DigitsValue(s[..n]) + Digit(s[n]).value;
    }
  }

  // -------------------------------------------------------------------------
  // Command-line hex
  // -------------------------------------------------------------------------

  /** The prefixes are removed one after the other. */
  function Unprefixed(arg: string): string {
    StripPrefix(StripPrefix(arg, "0x"), "0X")
  }

  /** Odd lengths get a leading zero. */
  function Padded(digits: string): string {
    if |digits| % 2 == 1 then "0" + digits else digits
  }

  /** `parse_hex`: optional prefix, padding, decoding. */
  function ParseHex(arg: string): Option<seq<Byte>> {
    Decode(Padded(Unprefixed(arg)))
  }

  lemma {:induction false} LeadingZero(s: string)
    requires AllHex(s)
    ensures AllHex("0" + s) && DigitsValue("0" + s) == DigitsValue(s)
  {
    if s != [] {
      LeadingZero(s[..|s| - 1]);
      assert ("0" + s)[..|s|] == "0" + s[..|s| - 1];
    } else {
      assert "0" + s == ['0'];
      assert DigitsValue(['0'][..0]) == 0;
    }
  }

  lemma PaddingIsHarmless(digits: string)
    ensures |Padded(digits)| % 2 == 0 && |Padded(digits)| / 2 == (|digits| + 1) / 2
    ensures AllHex(Padded(digits)) <==> AllHex(digits)
    ensures AllHex(digits) ==> DigitsValue(Padded(digits)) == DigitsValue(digits)
  {
    var padded := Padded(digits);
    var shift := |padded| - |digits|;
    if AllHex(padded) {
      forall i | 0 <= i < |digits| ensures Digit(digits[i]).Some? {
        assert digits[i] == padded[i + shift];
      }
    }
    if AllHex(digits) {
      LeadingZero(digits);
    }
  }

  /** Exactly the strings of hex digits behind an optional prefix are accepted; the bytes are
      as many as needed and denote the number the digits denote. */
  lemma ParseHexMeaning(arg: string)
    ensures ParseHex(arg).Some? <==> AllHex(Unprefixed(arg))
    ensures ParseHex(arg).Some? ==>
      && |ParseHex(arg).value| == (|Unprefixed(arg)| + 1) / 2
      && BytesValue(ParseHex(arg).value) == DigitsValue(Unprefixed(arg))
  {
    var digits := Unprefixed(arg);
    PaddingIsHarmless(digits);
    DecodesIff(Padded(digits));
    if AllHex(digits) {
      DecodeKeepsValue(Padded(digits));
    }
  }

  lemma NoSuchPrefix(digits: string, x: char)
    requires AllHex(digits) && Digit(x).None?
    ensures !StartsWith(digits, ['0', x])
  {
    if |digits| >= 2 {
      assert Digit(digits[1]).Some?;
    }
  }

  /** With either prefix or without, hex digits read the same. */
  lemma PrefixIsOptional(digits: string)
    requires AllHex(digits)
    ensures Unprefixed(digits) == digits
    ensures Unprefixed("0x" + digits) == digits
    ensures Unprefixed("0X" + digits) == digits
  {
    NoSuchPrefix(digits, 'x');
    NoSuchPrefix(digits, 'X');
    assert ("0X" + digits)[1] == 'X';
  }

  lemma ParseUnpadded(arg: string, digits: string)
    requires Unprefixed(arg) == digits && |digits| % 2 == 0
    ensures ParseHex(arg) == Decode(digits)
  {
  }

  lemma ParseAnyPrefix(digits: string, bytes: seq<Byte>)
    requires AllHex(digits) && |digits| % 2 == 0 && Decode(digits) == Some(bytes)
    ensures ParseHex(digits) == ParseHex("0x" + digits) == ParseHex("0X" + digits) == Some(bytes)
  {
    PrefixIsOptional(digits);
    ParseUnpadded(digits, digits);
    ParseUnpadded("0x" + digits, digits);
    ParseUnpadded("0X" + digits, digits);
  }

  /** `parse_hex` undoes hex encoding of every byte string, with any prefix. */
  lemma ParseHexEncode(bytes: seq<Byte>)
    ensures var s := Encode(bytes);
            ParseHex(s) == ParseHex("0x" + s) == ParseHex("0X" + s) == Some(bytes)
  {
    EncodeIsHex(bytes);
    DecodeEncode(bytes);
    ParseAnyPrefix(Encode(bytes), bytes);
  }

  // -------------------------------------------------------------------------
  // Exactly which texts parse
  // -------------------------------------------------------------------------

  lemma {:induction false} BytesFromValue(a: seq<Byte>, b: seq<Byte>)
    requires |a| == |b| && BytesValue(a) == BytesValue(b)
    ensures a == b
  {
    if a != [] {
      var n := |a| - 1;
      BytesFromValue(a[..n], b[..n]);
      assert a == a[..n] + [a[n]] && b == b[..n] + [b[n]];
    }
  }

  /** A byte is written as its two hexadecimal digits, the high one first, in lower case. */
  lemma ByteText(b: Byte)
    ensures Encode([b]) == ["0123456789abcdef"[b / 16], "0123456789abcdef"[b % 16]]
  {
    DigitText(b / 16);
    DigitText(b % 16);
    assert [b][1..] == [];
  }

  lemma DigitText(d: nat)
    requires d < 16
    ensures DigitChar(d) == "0123456789abcdef"[d]
  {
  }

  /** The text is an optional prefix and hex digits, and the bytes have the value of the digits, two
      digits per byte and one for the first if their number is odd. */
  ghost predicate HexText(arg: string, prefix: string, digits: string, bytes: seq<Byte>) {
    && arg == prefix + digits && (prefix == "" || prefix == "0x" || prefix == "0X" || prefix == "0x0X")
    && AllHex(digits) && |bytes| == (|digits| + 1) / 2 && BytesValue(bytes) == DigitsValue(digits)
  }

  lemma HexPrefix(arg: string) returns (prefix: string)
    ensures arg == prefix + Unprefixed(arg)
    ensures prefix == "" || prefix == "0x" || prefix == "0X" || prefix == "0x0X"
  {
    prefix := StripTwice(arg, "0x", "0X");
    assert "0x" + "0X" == "0x0X";
  }

  lemma UnprefixedBoth(digits: string)
    requires AllHex(digits)
    ensures Unprefixed("0x0X" + digits) == digits
  {
    var s := "0x0X" + digits;
    assert s == "0x" + ("0X" + digits);
    assert s[2..] == "0X" + digits && ("0X" + digits)[2..] == digits;
    assert "0x" <= s && "0X" <= "0X" + digits;
  }

  lemma HexTextDigits(arg: string, prefix: string, digits: string, bytes: seq<Byte>)
    requires HexText(arg, prefix, digits, bytes)
    ensures Unprefixed(arg) == digits
  {
    PrefixIsOptional(digits);
    UnprefixedBoth(digits);
    assert "" + digits == digits;
  }

  /** A text parses to bytes exactly when it is a text of these bytes. */
  lemma ParseHexIff(arg: string, bytes: seq<Byte>)
    ensures ParseHex(arg) == Some(bytes) <==> exists prefix, digits :: HexText(arg, prefix, digits, bytes)
  {
    ParseHexMeaning(arg);
    if ParseHex(arg) == Some(bytes) {
      var prefix := HexPrefix(arg);
      assert HexText(arg, prefix, Unprefixed(arg), bytes);
    }
    forall prefix, digits | HexText(arg, prefix, digits, bytes) ensures ParseHex(arg) == Some(bytes) {
      HexTextDigits(arg, prefix, digits, bytes);
      BytesFromValue(ParseHex(arg).value, bytes);
    }
  }
}
