/** The string operations of the parsers: splitting, joining, trimming, prefixes and suffixes. */
module Text {
  import opened Wrappers

  /** `s.split(c)`: always at least one piece. */
  function Split(s: string, c: char): (r: seq<string>)
    ensures |r| >= 1
  {
    if s == [] then [""]
    else
      var rest := Split(s[1..], c);
      if s[0] == c then [""] + rest else [[s[0]] + rest[0]] + rest[1..]
  }

  function Join(parts: seq<string>, c: char): string
    requires parts != []
  {
    if |parts| == 1 then parts[0] else parts[0] + [c] + Join(parts[1..], c)
  }

  lemma {:induction false} SplitWhole(s: string, c: char)
    requires c !in s
    ensures Split(s, c) == [s]
  {
    if s != [] {
      SplitWhole(s[1..], c);
      assert [s[0]] + s[1..] == s;
    }
  }

  lemma {:induction false} SplitFirst(a: string, rest: string, c: char)
    requires c !in a
    ensures Split(a + [c] + rest, c) == [a] + Split(rest, c)
  {
    if a == [] {
      assert (a + [c] + rest)[1..] == rest;
    } else {
      SplitFirst(a[1..], rest, c);
      assert (a + [c] + rest)[1..] == a[1..] + [c] + rest;
      assert [a[0]] + a[1..] == a;
      assert ([a[1..]] + Split(rest, c))[1..] == Split(rest, c);
    }
  }

  /** Splitting undoes joining, as long as no part contains the separator. */
  lemma {:induction false} SplitJoin(parts: seq<string>, c: char)
    requires parts != [] && forall i :: 0 <= i < |parts| ==> c !in parts[i]
    ensures Split(Join(parts, c), c) == parts
  {
    if |parts| == 1 {
      SplitWhole(parts[0], c);
    } else {
      SplitJoin(parts[1..], c);
      SplitFirst(parts[0], Join(parts[1..], c), c);
    }
  }

  lemma {:induction false} PiecesLackSeparator(s: string, c: char)
    ensures forall i :: 0 <= i < |Split(s, c)| ==> c !in Split(s, c)[i]
  {
    if s != [] {
      PiecesLackSeparator(s[1..], c);
    }
  }

  /** Pieces carry no character that the text did not have. */
  lemma {:induction false} PiecesFromText(s: string, c: char, x: char)
    requires x !in s
    ensures forall i :: 0 <= i < |Split(s, c)| ==> x !in Split(s, c)[i]
  {
    if s != [] {
      PiecesFromText(s[1..], c, x);
    }
  }

  lemma {:induction false} JoinLacks(parts: seq<string>, sep: char, c: char)
    requires parts != [] && c != sep && forall i :: 0 <= i < |parts| ==> c !in parts[i]
    ensures c !in Join(parts, sep)
  {
    if |parts| > 1 {
      JoinLacks(parts[1..], sep, c);
    }
  }

  datatype Pair = Pair(key: string, value: string)

  /** `s.split_once(c)`: at the first occurrence. */
  function SplitOnce(s: string, c: char): (r: Option<Pair>)
    ensures r.Some? ==> s == r.value.key + [c] + r.value.value && c !in r.value.key
    ensures r.None? <==> c !in s
  {
    if s == [] then None
    else if s[0] == c then Some(Pair("", s[1..]))
    else
      match SplitOnce(s[1..], c)
      case None => None
      case Some(p) => Some(Pair([s[0]] + p.key, p.value))
  }

  lemma SplitOnceAt(key: string, value: string, c: char)
    requires c !in key
    ensures SplitOnce(key + [c] + value, c) == Some(Pair(key, value))
  {
    var s := key + [c] + value;
    assert s[|key|] == c;
    var p := SplitOnce(s, c).value;
    SameCut(key, value, p.key, p.value, c);
  }

  lemma SameCut(a: string, b: string, k: string, v: string, c: char)
    requires a + [c] + b == k + [c] + v && c !in a && c !in k
    ensures a == k && b == v
  {
    var s := a + [c] + b;
    assert s[|a|] == c && s[|k|] == (k + [c] + v)[|k|] == c;
    assert forall i :: 0 <= i < |a| ==> s[i] == a[i];
    assert forall i :: 0 <= i < |k| ==> s[i] == k[i];
    assert |a| == |k|;
    assert a == s[..|a|] && k == s[..|k|];
    assert b == s[|a| + 1..] && v == s[|k| + 1..];
  }

  lemma {:induction false} SplitOnceLacks(s: string, sep: char, c: char)
    requires c !in s && SplitOnce(s, sep).Some?
    ensures c !in SplitOnce(s, sep).value.key && c !in SplitOnce(s, sep).value.value
  {
    var p := SplitOnce(s, sep).value;
    forall i | 0 <= i < |p.key| ensures p.key[i] != c {
      assert p.key[i] == s[i];
    }
    forall i | 0 <= i < |p.value| ensures p.value[i] != c {
      assert p.value[i] == s[|p.key| + 1 + i];
    }
  }

  predicate EndsWith(s: string, c: char) {
    s != [] && s[|s| - 1] == c
  }

  predicate StartsWith(s: string, prefix: string) {
    prefix <= s
  }

  /** `s.strip_prefix(prefix).unwrap_or(s)`. */
  function StripPrefix(s: string, prefix: string): string {
    if StartsWith(s, prefix) then s[|prefix|..] else s
  }

  lemma StripSplits(s: string, p: string)
    ensures s == StripPrefix(s, p) || s == p + StripPrefix(s, p)
  {
  }

  lemma StripTwice(s: string, p: string, q: string) returns (prefix: string)
    ensures s == prefix + StripPrefix(StripPrefix(s, p), q)
    ensures prefix == [] || prefix == p || prefix == q || prefix == p + q
  {
    var once := StripPrefix(s, p);
    var twice := StripPrefix(once, q);
    StripSplits(s, p);
    StripSplits(once, q);
    if s == once {
      prefix := if once == twice then [] else q;
    } else if once == twice {
      prefix := p;
    } else {
      prefix := p + q;
      assert p + (q + twice) == (p + q) + twice;
    }
  }

  /** Unicode `White_Space`. */
  predicate IsWhitespace(c: char) {
    || '\U{0009}' <= c <= '\U{000D}' || c == ' ' || c == '\U{0085}' || c == '\U{00A0}' || c == '\U{1680}'
    || '\U{2000}' <= c <= '\U{200A}' || c == '\U{2028}' || c == '\U{2029}' || c == '\U{202F}'
    || c == '\U{205F}' || c == '\U{3000}'
  }

  /** The 25 characters of the property. */
  lemma WhitespaceIff(c: char)
    ensures IsWhitespace(c) <==>
      c as int in {0x9, 0xA, 0xB, 0xC, 0xD, 0x20, 0x85, 0xA0, 0x1680, 0x2000, 0x2001, 0x2002, 0x2003, 0x2004, 0x2005,
                   0x2006, 0x2007, 0x2008, 0x2009, 0x200A, 0x2028, 0x2029, 0x202F, 0x205F, 0x3000}
  {
  }

  function TrimStart(s: string): string {
    if s != [] && IsWhitespace(s[0]) then TrimStart(s[1..]) else s
  }

  function TrimEnd(s: string): string {
    if s != [] && IsWhitespace(s[|s| - 1]) then TrimEnd(s[..|s| - 1]) else s
  }

  function Trim(s: string): string {
    TrimEnd(TrimStart(s))
  }

  predicate Trimmed(s: string) {
    s == [] || (!IsWhitespace(s[0]) && !IsWhitespace(s[|s| - 1]))
  }

  /** Trimming leaves exactly the trimmed strings alone, and always produces one. */
  lemma {:induction false} TrimFixes(s: string)
    ensures Trimmed(Trim(s))
    ensures Trimmed(s) ==> Trim(s) == s
    decreases |s|
  {
    if s != [] && IsWhitespace(s[0]) {
      TrimFixes(s[1..]);
    } else {
      TrimEndKeepsStart(s);
    }
  }

  lemma {:induction false} TrimEndKeepsStart(s: string)
    requires s == [] || !IsWhitespace(s[0])
    ensures Trimmed(TrimEnd(s))
  {
    if s != [] && IsWhitespace(s[|s| - 1]) {
      TrimEndKeepsStart(s[..|s| - 1]);
    }
  }

  ghost predicate AllWhitespace(s: string) {
    forall i :: 0 <= i < |s| ==> IsWhitespace(s[i])
  }

  lemma {:induction false} TrimStartCuts(s: string) returns (a: string)
    ensures AllWhitespace(a) && s == a + TrimStart(s)
  {
    if s != [] && IsWhitespace(s[0]) {
      var rest := TrimStartCuts(s[1..]);
      a := [s[0]] + rest;
    } else {
      a := [];
    }
  }

  lemma {:induction false} TrimEndCuts(s: string) returns (b: string)
    ensures AllWhitespace(b) && s == TrimEnd(s) + b
  {
    if s != [] && IsWhitespace(s[|s| - 1]) {
      var rest := TrimEndCuts(s[..|s| - 1]);
      b := rest + [s[|s| - 1]];
    } else {
      b := [];
    }
  }

  /** Trimming cuts whitespace off both ends. */
  lemma TrimCuts(s: string) returns (a: string, b: string)
    ensures AllWhitespace(a) && AllWhitespace(b) && s == a + Trim(s) + b
  {
    a := TrimStartCuts(s);
    b := TrimEndCuts(TrimStart(s));
  }

  lemma {:induction false} TrimStartBehind(a: string, m: string)
    requires AllWhitespace(a) && m != [] && !IsWhitespace(m[0])
    ensures TrimStart(a + m) == m
  {
    if a == [] {
      assert a + m == m;
    } else {
      TrimStartBehind(a[1..], m);
      assert (a + m)[1..] == a[1..] + m;
    }
  }

  lemma {:induction false} TrimEndBefore(m: string, b: string)
    requires AllWhitespace(b) && m != [] && !IsWhitespace(m[|m| - 1])
    ensures TrimEnd(m + b) == m
  {
    if b == [] {
      assert m + b == m;
    } else {
      TrimEndBefore(m, b[..|b| - 1]);
      assert (m + b)[..|m + b| - 1] == m + b[..|b| - 1];
    }
  }

  /** Whitespace around a trimmed text is cut off, and nothing else. */
  lemma TrimSurrounded(a: string, m: string, b: string)
    requires AllWhitespace(a) && AllWhitespace(b) && Trimmed(m) && m != []
    ensures Trim(a + m + b) == m
  {
    assert a + m + b == a + (m + b);
    TrimStartBehind(a, m + b);
    TrimEndBefore(m, b);
  }

  /** All values parsed; `None` as soon as one of them does not parse. */
  function ParseAll<T>(parse: string -> Option<T>, values: seq<string>): Option<seq<T>> {
    if values == [] then Some([])
    else
      var init :- ParseAll(parse, values[..|values| - 1]);
      var last :- parse(values[|values| - 1]);
      Some(init + [last])
  }

  lemma {:induction false} ParseAllPointwise<T>(parse: string -> Option<T>, values: seq<string>, results: seq<T>)
    requires |values| == |results|
    requires forall i :: 0 <= i < |values| ==> parse(values[i]) == Some(results[i])
    ensures ParseAll(parse, values) == Some(results)
  {
    if values != [] {
      ParseAllPointwise(parse, values[..|values| - 1], results[..|results| - 1]);
      assert results == results[..|results| - 1] + [results[|results| - 1]];
    }
  }

  lemma {:induction false} ParseAllResults<T>(parse: string -> Option<T>, values: seq<string>)
    ensures ParseAll(parse, values).Some? ==>
      && |ParseAll(parse, values).value| == |values|
      && forall i :: 0 <= i < |values| ==> parse(values[i]) == Some(ParseAll(parse, values).value[i])
  {
    if values != [] {
      ParseAllResults(parse, values[..|values| - 1]);
    }
  }

  lemma {:induction false} ParseAllFailsEarly<T>(parse: string -> Option<T>, values: seq<string>, k: nat)
    requires k <= |values| && ParseAll(parse, values[..k]).None?
    ensures ParseAll(parse, values).None?
    decreases |values|
  {
    if k < |values| {
      assert values[..|values| - 1][..k] == values[..k];
      ParseAllFailsEarly(parse, values[..|values| - 1], k);
    } else {
      assert values[..k] == values;
    }
  }
}
