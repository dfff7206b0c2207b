/** Percent encoding and query strings (src/common/string_util.cpp, src/execution/write_executor.cpp). */
module Url {
  import opened Text

  /** HexValue: the value of a hexadecimal digit, -1 for any other character. */
  function HexValue(c: char): (v: int)
    ensures -1 <= v < 16
  {
    if '0' <= c <= '9' then c as int - '0' as int
    else if 'a' <= c <= 'f' then c as int - 'a' as int + 10
    else if 'A' <= c <= 'F' then c as int - 'A' as int + 10
    else -1
  }

  /** A percent sign followed by two hexadecimal digits. */
  predicate StartsEscape(s: string) {
    |s| > 2 && s[0] == '%' && HexValue(s[1]) >= 0 && HexValue(s[2]) >= 0
  }

  function DecodedStep(s: string): (r: (char, nat))
    requires s != ""
    ensures 0 < r.1 <= |s|
  {
    if StartsEscape(s) then ((HexValue(s[1]) * 16 + HexValue(s[2])) as char, 3)
    else (if s[0] == '+' then ' ' else s[0], 1)
  }

  function UrlDecode(s: string): string
    decreases |s|
  {
    if s == "" then "" else [DecodedStep(s).0] + UrlDecode(s[DecodedStep(s).1..])
  }

  function HexDigit(d: nat): char
    requires d < 16
  {
    if d < 10 then (d + '0' as int) as char else (d - 10 + 'A' as int) as char
  }

  predicate IsUnreserved(c: char) {
    IsAlpha(c) || IsDigit(c) || c == '-' || c == '_'
  }

  function EncodeChar(c: char): string
    requires c as int < 256
  {
    if IsUnreserved(c) then [c] else ['%', HexDigit(c as int / 16), HexDigit(c as int % 16)]
  }

  function EncodePath(s: string): string
    requires IsBytes(s)
  {
    if s == "" then "" else EncodeChar(s[0]) + EncodePath(s[1..])
  }

  lemma {:induction false} EncodePathCat(a: string, b: string)
    requires IsBytes(a) && IsBytes(b)
    ensures IsBytes(a + b) && EncodePath(a + b) == EncodePath(a) + EncodePath(b)
  {
    hide EncodeChar;
    if a == "" {
      assert a + b == b;
    } else {
      assert (a + b)[1..] == a[1..] + b && (a + b)[0] == a[0];
      EncodePathCat(a[1..], b);
      var c := EncodeChar(a[0]);
      assert c + (EncodePath(a[1..]) + EncodePath(b)) == c + EncodePath(a[1..]) + EncodePath(b);
    }
  }

  lemma HexDigitValue(d: nat)
    requires d < 16
    ensures HexValue(HexDigit(d)) == d
  {
  }

  lemma DecodedStepOfEncoded(c: char, tail: string)
    requires c as int < 256
    ensures var t := EncodeChar(c) + tail;
            DecodedStep(t) == (c, |EncodeChar(c)|) && t[|EncodeChar(c)|..] == tail
  {
    HexDigitValue(c as int / 16);
    HexDigitValue(c as int % 16);
  }

  /** Decoding undoes encoding, whatever bytes are encoded and whatever follows. */
  lemma {:induction false} DecodeEncoded(s: string, rest: string)
    requires IsBytes(s)
    ensures UrlDecode(EncodePath(s) + rest) == s + UrlDecode(rest)
  {
    hide DecodedStep, EncodeChar;
    if s == "" {
      assert EncodePath(s) + rest == rest;
    } else {
      DecodeEncoded(s[1..], rest);
      var tail := EncodePath(s[1..]) + rest;
      DecodedStepOfEncoded(s[0], tail);
      assert EncodePath(s) + rest == EncodeChar(s[0]) + tail;
      assert [s[0]] + (s[1..] + UrlDecode(rest)) == s + UrlDecode(rest);
    }
  }

  /** No plus sign and no complete escape: decoding leaves the text alone. */
  predicate HasNoEscape(s: string) {
    forall i | 0 <= i < |s| :: s[i] != '+' && !StartsEscape(s[i..])
  }

  lemma UnescapedStep(s: string, rest: string)
    requires HasNoEscape(s) && s != "" && (rest == "" || HexValue(rest[0]) < 0)
    ensures DecodedStep(s + rest) == (s[0], 1)
  {
    var t := s + rest;
    assert s[0..] == s;
    assert forall k | 0 <= k < 3 && k < |s| :: t[k] == s[k];
    assert |s| < |t| ==> t[|s|] == rest[0];
  }

  lemma {:induction false} DecodeUnescaped(s: string, rest: string)
    requires HasNoEscape(s) && (rest == "" || HexValue(rest[0]) < 0)
    ensures UrlDecode(s + rest) == s + UrlDecode(rest)
  {
    hide DecodedStep;
    if s == "" {
      assert s + rest == rest;
    } else {
      forall i | 0 <= i < |s[1..]| ensures s[1..][i] != '+' && !StartsEscape(s[1..][i..]) {
        assert s[1..][i] == s[i + 1] && s[1..][i..] == s[i + 1..];
      }
      DecodeUnescaped(s[1..], rest);
      UnescapedStep(s, rest);
      assert (s + rest)[1..] == s[1..] + rest;
      assert [s[0]] + (s[1..] + UrlDecode(rest)) == s + UrlDecode(rest);
    }
  }

  method Decode(input: string) returns (result: string)
    ensures result == UrlDecode(input)
  {
    hide UrlDecode;
    result := "";
    var i := 0;
    assert input[0..] == input && "" + UrlDecode(input) == UrlDecode(input);
    while i < |input|
      invariant i <= |input|
      invariant UrlDecode(input) == result + UrlDecode(input[i..])
    {
      ghost var s := input[i..];
      var c, step := input[i], 1;
      if c == '%' && i + 2 < |input| {
        var hi, lo := HexValue(input[i + 1]), HexValue(input[i + 2]);
        if hi >= 0 && lo >= 0 {
          c := (hi * 16 + lo) as char;
          step := 3;
        }
      } else if c == '+' {
        c := ' ';
      }
      assert DecodedStep(s) == (c, step) && s[step..] == input[i + step..];
      DecodeStep(s);
      assert result + ([c] + UrlDecode(s[step..])) == result + [c] + UrlDecode(s[step..]);
      result := result + [c];
      i := i + step;
    }
    DecodeEmpty();
    assert input[|input|..] == "" && result + "" == result;
  }

  lemma DecodeStep(s: string)
    requires s != ""
    ensures UrlDecode(s) == [DecodedStep(s).0] + UrlDecode(s[DecodedStep(s).1..])
  {
  }

  method Encode(text: string) returns (out: string)
    requires IsBytes(text)
    ensures out == EncodePath(text)
  {
    out := "";
    for i := 0 to |text|
      invariant out == EncodePath(text[..i])
    {
      assert text[..i + 1] == text[..i] + [text[i]];
      EncodePathCat(text[..i], [text[i]]);
      assert [text[i]][1..] == "" && EncodeChar(text[i]) + "" == EncodeChar(text[i]);
      var c := text[i];
      if IsUnreserved(c) {
        out := out + [c];
      } else {
        out := out + ['%'] + [HexDigit(c as int / 16)] + [HexDigit(c as int % 16)];
      }
    }
    assert text[..|text|] == text;
  }

  // ----- query strings

  predicate NotAmp(c: char) {
    c != '&'
  }

  predicate NotEquals(c: char) {
    c != '='
  }

  function ParsePair(pair: string): (string, string) {
    var eq := Span(NotEquals, pair);
    if eq == |pair| then (UrlDecode(pair), "") else (UrlDecode(pair[..eq]), UrlDecode(pair[eq + 1..]))
  }

  function PairOf(piece: string): seq<(string, string)> {
    if piece == "" then [] else [ParsePair(piece)]
  }

  /** ParseQueryString: pieces between ampersands, empty ones skipped. */
  function ParseQuery(query: string): seq<(string, string)>
    decreases |query|
  {
    var amp := Span(NotAmp, query);
    PairOf(query[..amp]) + (if amp == |query| then [] else ParseQuery(query[amp + 1..]))
  }

  /** Appending a piece after an ampersand appends its pairs, whatever came before. */
  lemma {:induction false} ParseQueryCat(a: string, b: string)
    ensures ParseQuery(a + "&" + b) == ParseQuery(a) + ParseQuery(b)
    decreases |a|
  {
    hide PairOf;
    var s, amp := a + "&" + b, Span(NotAmp, a);
    var head := PairOf(a[..amp]);
    SpanIs(NotAmp, s, amp);
    assert s[..amp] == a[..amp];
    if amp == |a| {
      assert s[amp + 1..] == b;
    } else {
      assert s[amp + 1..] == a[amp + 1..] + "&" + b;
      ParseQueryCat(a[amp + 1..], b);
      assert head + (ParseQuery(a[amp + 1..]) + ParseQuery(b)) == head + ParseQuery(a[amp + 1..]) + ParseQuery(b);
    }
  }

  /** The pairs of a query as a client would write them: encoded, '=' between, '&' between pairs. */
  function FormatPair(p: (string, string)): string
    requires IsBytes(p.0) && IsBytes(p.1)
  {
    EncodePath(p.0) + "=" + EncodePath(p.1)
  }

  predicate BytePairs(ps: seq<(string, string)>) {
    forall i | 0 <= i < |ps| :: IsBytes(ps[i].0) && IsBytes(ps[i].1)
  }

  function FormatQuery(ps: seq<(string, string)>): string
    requires BytePairs(ps)
  {
    if ps == [] then "" else if |ps| == 1 then FormatPair(ps[0]) else FormatPair(ps[0]) + "&" + FormatQuery(ps[1..])
  }

  /** What EncodePath writes: unreserved characters, percent signs and hexadecimal digits. */
  lemma {:induction false} EncodedCharacters(s: string)
    requires IsBytes(s)
    ensures forall i | 0 <= i < |EncodePath(s)| :: IsUnreserved(EncodePath(s)[i]) || EncodePath(s)[i] == '%'
  {
    if s != "" {
      EncodedCharacters(s[1..]);
      var c := EncodeChar(s[0]);
      assert forall i | 0 <= i < |c| :: IsUnreserved(c[i]) || c[i] == '%';
    }
  }

  lemma ParsePairOfFormatted(p: (string, string))
    requires IsBytes(p.0) && IsBytes(p.1)
    ensures ParsePair(FormatPair(p)) == p
  {
    hide UrlDecode, EncodePath;
    var k, v, t := EncodePath(p.0), EncodePath(p.1), FormatPair(p);
    EncodedCharacters(p.0);
    SpanIs(NotEquals, t, |k|);
    DecodeEncoded(p.0, "");
    DecodeEncoded(p.1, "");
    assert UrlDecode("") == "" by { DecodeEmpty(); }
    assert t[..|k|] == k + "" && t[|k| + 1..] == v + "";
    assert p.0 + "" == p.0 && p.1 + "" == p.1;
  }

  lemma DecodeEmpty()
    ensures UrlDecode("") == ""
  {
  }

  lemma ParseFormattedPair(p: (string, string))
    requires IsBytes(p.0) && IsBytes(p.1)
    ensures ParseQuery(FormatPair(p)) == [p]
  {
    hide ParsePair, EncodePath;
    var t := FormatPair(p);
    EncodedCharacters(p.0);
    EncodedCharacters(p.1);
    ParsePairOfFormatted(p);
    SpanIs(NotAmp, t, |t|);
    assert t[..|t|] == t && [p] + [] == [p];
  }

  /** Query string round trip, for every list of byte-string pairs. */
  lemma {:induction false} ParseFormattedQuery(ps: seq<(string, string)>)
    requires BytePairs(ps)
    ensures ParseQuery(FormatQuery(ps)) == ps
  {
    if ps != [] {
      ParseFormattedPair(ps[0]);
      if |ps| == 1 {
        assert [ps[0]] == ps;
      } else {
        ParseFormattedQuery(ps[1..]);
        ParseQueryCat(FormatPair(ps[0]), FormatQuery(ps[1..]));
        assert [ps[0]] + ps[1..] == ps;
      }
    }
  }

  method SplitPair(pair: string) returns (r: (string, string))
    ensures r == ParsePair(pair)
  {
    var eq := FindFrom('=', pair, 0);
    assert pair[0..] == pair;
    SpanToFind(NotEquals, '=', pair, 0, eq);
    if eq == |pair| {
      var key := Decode(pair);
      return (key, "");
    }
    var key := Decode(pair[..eq]);
    var value := Decode(pair[eq + 1..]);
    return (key, value);
  }

  method PairsOf(pair: string) returns (found: seq<(string, string)>)
    ensures found == PairOf(pair)
  {
    found := [];
    if pair != "" {
      var p := SplitPair(pair);
      found := [p];
    }
  }

  lemma ParseEmptyQuery()
    ensures ParseQuery("") == []
  {
  }

  method ParseQueryString(query: string) returns (result: seq<(string, string)>)
    ensures result == ParseQuery(query)
  {
    hide ParseQuery, PairOf;
    result := [];
    if query == "" {
      ParseEmptyQuery();
      return;
    }
    var pos := 0;
    assert query[0..] == query;
    while true
      invariant pos <= |query|
      invariant ParseQuery(query) == result + ParseQuery(query[pos..])
      decreases |query| - pos
    {
      var amp := FindFrom('&', query, pos);
      ParseQueryStep(query, pos, amp);
      var pair := query[pos..amp];
      ghost var before := result;
      var found := PairsOf(pair);
      result := result + found;
      if amp == |query| {
        return;
      }
      assert before + (found + ParseQuery(query[amp + 1..])) == result + ParseQuery(query[amp + 1..]);
      pos := amp + 1;
    }
  }

  lemma ParseQueryStep(query: string, pos: nat, amp: nat)
    requires pos <= amp <= |query| && (amp < |query| ==> query[amp] == '&') && forall k | pos <= k < amp :: query[k] != '&'
    ensures ParseQuery(query[pos..]) ==
            PairOf(query[pos..amp]) + (if amp == |query| then [] else ParseQuery(query[amp + 1..]))
  {
    hide PairOf;
    var s := query[pos..];
    SpanToFind(NotAmp, '&', query, pos, amp);
    assert s[..amp - pos] == query[pos..amp];
    if amp < |query| {
      assert s[amp - pos + 1..] == query[amp + 1..];
    }
  }

  /** std::string::find, with the length standing for npos. */
  method FindFrom(c: char, s: string, start: nat) returns (i: nat)
    requires start <= |s|
    ensures start <= i <= |s| && (i < |s| ==> s[i] == c) && forall k | start <= k < i :: s[k] != c
  {
    i := start;
    while i < |s| && s[i] != c
      invariant start <= i <= |s| && forall k | start <= k < i :: s[k] != c
    {
      i := i + 1;
    }
  }

  lemma SpanToFind(p: char -> bool, c: char, s: string, start: nat, i: nat)
    requires start <= i <= |s| && (i < |s| ==> s[i] == c) && forall k | start <= k < i :: s[k] != c
    requires forall x: char :: p(x) <==> x != c
    ensures Span(p, s[start..]) == i - start
  {
    assert forall k | 0 <= k < i - start :: s[start..][k] == s[start + k];
    SpanIs(p, s[start..], i - start);
  }
}
