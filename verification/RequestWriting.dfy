/** The request heads a client may send and what they say, apart from the head parser, which is then shown to read exactly
    these; with them percent encoding and query strings. */
module RequestWriting {
  import opened Text
  import opened Url
  import opened Http
  import opened OptionWriting

  // ----- percent encoding

  /** `c` is the hexadecimal digit of `d`. */
  predicate IsHex(c: char, d: int) {
    || (0 <= d < 10 && c as int == '0' as int + d)
    || (10 <= d < 16 && (c as int == 'A' as int + d - 10 || c as int == 'a' as int + d - 10))
  }

  ghost predicate IsEscape(s: string, byte: int) {
    |s| > 2 && s[0] == '%' && exists high, low | IsHex(s[1], high) && IsHex(s[2], low) :: byte == 16 * high + low
  }

  /** `text` as `s` spells it: a byte for each complete escape, a space for each plus sign, every other character itself. */
  ghost predicate Spells(s: string, text: string) {
    if s == "" then text == ""
    else if exists byte :: IsEscape(s, byte) then
      text != "" && IsEscape(s, text[0] as int) && Spells(s[3..], text[1..])
    else text != "" && text[0] == (if s[0] == '+' then ' ' else s[0]) && Spells(s[1..], text[1..])
  }

  lemma HexExact(c: char, d: int)
    ensures IsHex(c, d) <==> d >= 0 && HexValue(c) == d
  {
  }

  lemma EscapeExact(s: string, byte: int)
    ensures IsEscape(s, byte) <==> StartsEscape(s) && byte == HexValue(s[1]) * 16 + HexValue(s[2])
  {
    hide IsHex, HexValue;
    if |s| > 2 {
      forall d ensures IsHex(s[1], d) <==> d >= 0 && HexValue(s[1]) == d {
        HexExact(s[1], d);
      }
      forall d ensures IsHex(s[2], d) <==> d >= 0 && HexValue(s[2]) == d {
        HexExact(s[2], d);
      }
      assert StartsEscape(s) ==> IsHex(s[1], HexValue(s[1])) && IsHex(s[2], HexValue(s[2]));
    }
  }

  lemma {:induction false} DecodeExact(s: string, text: string)
    ensures UrlDecode(s) == text <==> Spells(s, text)
    decreases |s|
  {
    hide IsEscape, HexValue;
    if s != "" {
      var (c, step) := DecodedStep(s);
      forall byte ensures IsEscape(s, byte) <==> StartsEscape(s) && byte == HexValue(s[1]) * 16 + HexValue(s[2]) {
        EscapeExact(s, byte);
      }
      assert UrlDecode(s) == [c] + UrlDecode(s[step..]);
      assert StartsEscape(s) ==> IsEscape(s, HexValue(s[1]) * 16 + HexValue(s[2])) && IsEscape(s, c as int);
      if text != "" {
        DecodeExact(s[step..], text[1..]);
        assert text == [text[0]] + text[1..];
        assert UrlDecode(s) == text <==> c == text[0] && UrlDecode(s[step..]) == text[1..] by {
          assert UrlDecode(s)[0] == c && UrlDecode(s)[1..] == UrlDecode(s[step..]);
        }
      }
    }
  }

  // ----- query strings

  /** A piece between ampersands: a name and a value around the first equals sign, or a name alone. */
  ghost predicate PieceSays(piece: string, pair: (string, string)) {
    || ('=' !in piece && Spells(piece, pair.0) && pair.1 == "")
    || exists name, value | piece == name + "=" + value && '=' !in name :: Spells(name, pair.0) && Spells(value, pair.1)
  }

  /** The pairs of the pieces; empty pieces are passed over. */
  ghost predicate PiecesSay(pieces: seq<string>, pairs: seq<(string, string)>) {
    if pieces == [] then pairs == []
    else if pieces[0] == "" then PiecesSay(pieces[1..], pairs)
    else pairs != [] && PieceSays(pieces[0], pairs[0]) && PiecesSay(pieces[1..], pairs[1..])
  }

  predicate IsSplit(query: string, pieces: seq<string>) {
    pieces != [] && Join(pieces, "&") == query && forall i | 0 <= i < |pieces| :: '&' !in pieces[i]
  }

  ghost predicate QuerySays(query: string, pairs: seq<(string, string)>) {
    exists pieces | IsSplit(query, pieces) :: PiecesSay(pieces, pairs)
  }

  lemma PieceExact(piece: string, pair: (string, string))
    ensures ParsePair(piece) == pair <==> PieceSays(piece, pair)
  {
    hide Spells, UrlDecode;
    var n := Span(NotEquals, piece);
    if n == |piece| {
      assert '=' !in piece;
      assert piece[..n] == piece;
      DecodeExact(piece, pair.0);
    } else {
      assert piece == piece[..n] + "=" + piece[n + 1..];
      DecodeExact(piece[..n], pair.0);
      DecodeExact(piece[n + 1..], pair.1);
      forall own, after | piece == own + "=" + after && '=' !in own ensures own == piece[..n] && after == piece[n + 1..] {
        assert forall i | 0 <= i < |own| :: piece[i] == own[i];
        SpanIs(NotEquals, piece, |own|);
      }
    }
  }

  lemma {:induction false} JoinParses(pieces: seq<string>, pairs: seq<(string, string)>)
    requires pieces != [] && forall i | 0 <= i < |pieces| :: '&' !in pieces[i]
    ensures ParseQuery(Join(pieces, "&")) == pairs <==> PiecesSay(pieces, pairs)
  {
    hide PieceSays, ParsePair;
    var query, piece, rest := Join(pieces, "&"), pieces[0], pieces[1..];
    SpanIs(NotAmp, query, |piece|);
    assert query[..|piece|] == piece;
    if pairs != [] {
      PieceExact(piece, pairs[0]);
      assert pairs == [pairs[0]] + pairs[1..];
    }
    if rest != [] {
      assert query[|piece| + 1..] == Join(rest, "&");
      var later := if piece == "" || pairs == [] then pairs else pairs[1..];
      JoinParses(rest, later);
      FirstPair(ParsePair(piece), ParseQuery(Join(rest, "&")), pairs);
      assert [] + ParseQuery(Join(rest, "&")) == ParseQuery(Join(rest, "&"));
    } else {
      FirstPair(ParsePair(piece), [], pairs);
    }
  }

  lemma FirstPair(first: (string, string), rest: seq<(string, string)>, pairs: seq<(string, string)>)
    ensures [first] + rest == pairs <==> pairs != [] && pairs[0] == first && pairs[1..] == rest
  {
    assert ([first] + rest)[0] == first && ([first] + rest)[1..] == rest;
  }

  lemma {:induction false} SplitExists(query: string) returns (pieces: seq<string>)
    ensures IsSplit(query, pieces)
    decreases |query|
  {
    var n := Span(NotAmp, query);
    if n == |query| {
      pieces := [query];
    } else {
      var rest := SplitExists(query[n + 1..]);
      pieces := [query[..n]] + rest;
      assert pieces[1..] == rest && query == query[..n] + "&" + query[n + 1..];
    }
  }

  /** A raw query is read as a list of pairs if and only if it says them. */
  lemma QueryExact(query: string, pairs: seq<(string, string)>)
    ensures ParseQuery(query) == pairs <==> QuerySays(query, pairs)
  {
    hide PiecesSay, ParseQuery;
    var pieces := SplitExists(query);
    JoinParses(pieces, pairs);
    forall other | IsSplit(query, other) ensures ParseQuery(query) == pairs <==> PiecesSay(other, pairs) {
      JoinParses(other, pairs);
    }
  }

  // ----- heads

  /** `line` and, after its end, `rest`. */
  predicate IsLine(s: string, line: string, rest: string) {
    s == line + "\r\n" + rest && forall k | 0 <= k < |line| :: !CrlfAt(s, k)
  }

  /** A name without blanks, a colon, and a value with blanks around it. */
  ghost predicate HeaderSays(line: string, name: string, value: string) {
    && name != "" && ':' !in name && ' ' !in name && '\t' !in name
    && exists after | PaddedBy(IsTabOrSpace, after, value) :: line == name + ":" + after
  }

  /** Header lines up to an empty line, or as far as lines go: names in lower case, a later one overriding an earlier one, and
      Content-Length once. */
  ghost predicate HeadersSay(s: string, before: map<string, string>, after: map<string, string>)
    decreases |s|
  {
    if (forall k | 0 <= k < |s| :: !CrlfAt(s, k)) || CrlfAt(s, 0) then after == before
    else exists line, rest, name, value | IsLine(s, line, rest) && HeaderSays(line, name, value) ::
           && !(ToLower(name) == "content-length" && "content-length" in before)
           && HeadersSay(rest, before[ToLower(name) := value], after)
  }

  predicate IsBlank(s: string) {
    s != "" && AllSpace(s)
  }

  /** Three words with white space between and around them. */
  ghost predicate IsThreeWords(line: string, a: string, b: string, c: string) {
    && IsToken(a) && IsToken(b) && IsToken(c)
    && exists before, gap1, gap2, after | AllSpace(before) && IsBlank(gap1) && IsBlank(gap2) && AllSpace(after) ::
         line == before + a + gap1 + b + gap2 + c + after
  }

  ghost predicate RequestLineSays(line: string, verb: string, target: string) {
    IsThreeWords(line, verb, target, "HTTP/1.1") || IsThreeWords(line, verb, target, "HTTP/1.0")
  }

  /** The path before the first question mark, decoded, and what follows it. */
  ghost predicate TargetSays(target: string, path: string, rawQuery: string) {
    || ('?' !in target && Spells(target, path) && rawQuery == "")
    || exists before | target == before + "?" + rawQuery && '?' !in before :: Spells(before, path)
  }

  ghost predicate HeadSays(head: string, r: HttpRequest) {
    exists line, rest, target | IsLine(head, line, rest) && RequestLineSays(line, r.verb, target) ::
      TargetSays(target, r.path, r.rawQuery) && QuerySays(r.rawQuery, r.query) && HeadersSay(rest, map[], r.headers)
  }

  lemma LineExact(s: string, line: string, rest: string)
    ensures IsLine(s, line, rest) <==>
            LineEnd(s).Some? && line == s[..LineEnd(s).value] && rest == s[LineEnd(s).value + 2..]
  {
    hide LineEnd;
    if LineEnd(s).Some? {
      var n := LineEnd(s).value;
      assert s == s[..n] + "\r\n" + s[n + 2..] by { assert s[n..n + 2] == "\r\n"; }
    }
    if IsLine(s, line, rest) {
      assert s[|line|] == '\r' && s[|line| + 1] == '\n';
      LineEndIs(s, |line|);
    }
  }

  lemma HeaderExact(line: string, headers: map<string, string>, more: map<string, string>)
    ensures AddHeader(line, headers) == Some(more) <==>
            exists name, value | HeaderSays(line, name, value) ::
              !(ToLower(name) == "content-length" && "content-length" in headers) && more == headers[ToLower(name) := value]
  {
    hide TrimWith, PaddedBy;
    var colon := Span(NotColon, line);
    if colon < |line| {
      var after := line[colon + 1..];
      assert line == line[..colon] + ":" + after;
      TrimByExact(IsTabOrSpace, after, TrimWith(IsTabOrSpace, after));
    }
    forall name, value | HeaderSays(line, name, value)
      ensures colon < |line| && name == line[..colon] && value == TrimWith(IsTabOrSpace, line[colon + 1..]) {
      var after :| PaddedBy(IsTabOrSpace, after, value) && line == name + ":" + after;
      assert forall i | 0 <= i < |name| :: line[i] == name[i];
      SpanIs(NotColon, line, |name|);
      assert line[|name| + 1..] == after && line[..|name|] == name;
      TrimByExact(IsTabOrSpace, after, value);
    }
    var name := line[..colon];
    assert Span(IsNotTabOrSpace, name) < |name| <==> ' ' in name || '\t' in name by { NameHasBlank(name); }
    assert AddHeader(line, headers).Some? ==> HeaderSays(line, name, TrimWith(IsTabOrSpace, line[colon + 1..]));
  }

  lemma NameHasBlank(name: string)
    ensures Span(IsNotTabOrSpace, name) < |name| <==> ' ' in name || '\t' in name
  {
    var n := Span(IsNotTabOrSpace, name);
    if n < |name| {
      assert name[n] in name;
    }
  }

  lemma {:induction false} HeadersAreRead(s: string, before: map<string, string>, after: map<string, string>)
    ensures ParseHeaders(s, before) == Some(after) <==> HeadersSay(s, before, after)
    decreases |s|
  {
    hide HeaderSays, AddHeader, LineEnd, IsLine;
    var end := LineEnd(s);
    if end.Some? && end.value > 0 {
      var line, rest := s[..end.value], s[end.value + 2..];
      forall l, r ensures IsLine(s, l, r) <==> l == line && r == rest {
        LineExact(s, l, r);
      }
      forall more ensures AddHeader(line, before) == Some(more) <==>
                          exists name, value | HeaderSays(line, name, value) ::
                            !(ToLower(name) == "content-length" && "content-length" in before) && more == before[ToLower(name) := value] {
        HeaderExact(line, before, more);
      }
      forall name, value | HeaderSays(line, name, value) && !(ToLower(name) == "content-length" && "content-length" in before)
        ensures AddHeader(line, before) == Some(before[ToLower(name) := value]) {
      }
      assert IsLine(s, line, rest) && CrlfAt(s, end.value) && !CrlfAt(s, 0);
      if AddHeader(line, before).Some? {
        var more := AddHeader(line, before).value;
        HeadersAreRead(rest, more, after);
        var name, value :| HeaderSays(line, name, value)
          && !(ToLower(name) == "content-length" && "content-length" in before) && more == before[ToLower(name) := value];
        assert before[ToLower(name) := value] == more;
      }
    }
  }

  // ----- the request line

  /** White space, a word, and a rest that starts with white space if it is not empty. */
  predicate IsFirstWord(s: string, a: string, w: string, rest: string) {
    s == a + w + rest && AllSpace(a) && IsToken(w) && (rest == "" || IsSpace(rest[0]))
  }

  lemma WordsNone(s: string)
    ensures Words(s) == [] <==> AllSpace(s)
  {
    if AllSpace(s) {
      SpanIs(IsSpace, s, |s|);
    }
  }

  lemma FirstWordReads(s: string, a: string, w: string, rest: string)
    requires IsFirstWord(s, a, w, rest)
    ensures Words(s) == [w] + Words(rest)
  {
    SpanIs(IsSpace, s, |a|);
    assert s[|a|..] == w + rest;
    SpanIs(NotSpace, w + rest, |w|);
    assert (w + rest)[..|w|] == w && (w + rest)[|w|..] == rest;
  }

  lemma FirstWordExists(s: string) returns (a: string, w: string, rest: string)
    requires Words(s) != []
    ensures IsFirstWord(s, a, w, rest) && Words(s) == [w] + Words(rest)
  {
    var more;
    a, more := SpanSplits(IsSpace, s);
    w, rest := SpanSplits(NotSpace, more);
    hide Span;
    assert Words(s) == [w] + Words(rest);
    hide Words;
    assert IsToken(w) by { WordIsToken(w, more); }
    Grouped(a, w, rest);
  }

  lemma WordIsToken(w: string, s: string)
    requires s != "" && !IsSpace(s[0]) && |w| == Span(NotSpace, s) && AllOf(NotSpace, w)
    ensures IsToken(w)
  {
  }

  lemma ThreeWordsRead(line: string, a: string, b: string, c: string)
    requires IsThreeWords(line, a, b, c)
    ensures Words(line) == [a, b, c]
  {
    hide Words;
    var before, gap1, gap2, after :| AllSpace(before) && IsBlank(gap1) && IsBlank(gap2) && AllSpace(after)
      && line == before + a + gap1 + b + gap2 + c + after;
    var last := gap2 + c + after;
    var more := gap1 + b + last;
    assert line == before + a + more;
    FirstWordReads(line, before, a, more);
    FirstWordReads(more, gap1, b, last);
    FirstWordReads(last, gap2, c, after);
    WordsNone(after);
    assert [a] + ([b] + ([c] + [])) == [a, b, c];
  }

  lemma ThreeWordsExist(line: string)
    requires |Words(line)| == 3
    ensures IsThreeWords(line, Words(line)[0], Words(line)[1], Words(line)[2])
  {
    hide Words;
    var before, a, more := FirstWordExists(line);
    assert Words(line)[1..] == Words(more);
    var gap1, b, last := FirstWordExists(more);
    assert Words(more)[1..] == Words(last);
    var gap2, c, after := FirstWordExists(last);
    assert Words(last)[1..] == Words(after) == [];
    WordsNone(after);
    assert gap1 != "" && gap2 != "" by { GapNeeded(more, gap1, b, last); GapNeeded(last, gap2, c, after); }
    assert line == before + a + gap1 + b + gap2 + c + after;
    assert Words(line)[0] == a && Words(line)[1] == Words(more)[0] == b && Words(line)[2] == Words(more)[1] == Words(last)[0] == c;
    assert AllSpace(before) && IsBlank(gap1) && IsBlank(gap2) && AllSpace(after);
  }

  lemma GapNeeded(s: string, gap: string, w: string, rest: string)
    requires IsFirstWord(s, gap, w, rest) && s != "" && IsSpace(s[0])
    ensures gap != ""
  {
  }

  lemma RequestLineExact(line: string, verb: string, target: string)
    ensures ParseRequestLine(line) == Some((verb, target)) <==> RequestLineSays(line, verb, target)
  {
    hide Words, IsThreeWords;
    forall a, b, c ensures Words(line) == [a, b, c] <==> IsThreeWords(line, a, b, c) {
      if IsThreeWords(line, a, b, c) {
        ThreeWordsRead(line, a, b, c);
      }
      if Words(line) == [a, b, c] {
        ThreeWordsExist(line);
      }
    }
    var ws := Words(line);
    assert |ws| == 3 ==> ws == [ws[0], ws[1], ws[2]];
  }

  lemma TargetExact(target: string, path: string, rawQuery: string)
    ensures ParseTarget(target) == (path, rawQuery) <==> TargetSays(target, path, rawQuery)
  {
    hide Spells, UrlDecode;
    var q := Span(NotQuestion, target);
    DecodeExact(target[..q], path);
    if q == |target| {
      assert '?' !in target && target[..q] == target;
    } else {
      assert target == target[..q] + "?" + target[q + 1..];
      forall before | target == before + "?" + rawQuery && '?' !in before ensures before == target[..q] && rawQuery == target[q + 1..] {
        assert forall i | 0 <= i < |before| :: target[i] == before[i];
        SpanIs(NotQuestion, target, |before|);
      }
    }
  }

  /** A request head is read as a request if and only if it says it: request line, target, query and headers. */
  lemma RequestExact(head: string, r: HttpRequest)
    ensures ParseRequest(head) == Some(r) <==> HeadSays(head, r)
  {
    hide LineEnd, IsLine, ParseRequestLine, RequestLineSays, ParseTarget, TargetSays, ParseQuery, QuerySays, ParseHeaders, HeadersSay;
    QueryExact(r.rawQuery, r.query);
    forall line, rest ensures IsLine(head, line, rest) <==>
                              LineEnd(head).Some? && line == head[..LineEnd(head).value] && rest == head[LineEnd(head).value + 2..] {
      LineExact(head, line, rest);
    }
    if LineEnd(head).Some? {
      var line, rest := head[..LineEnd(head).value], head[LineEnd(head).value + 2..];
      HeadersAreRead(rest, map[], r.headers);
      forall target ensures ParseRequestLine(line) == Some((r.verb, target)) <==> RequestLineSays(line, r.verb, target) {
        RequestLineExact(line, r.verb, target);
      }
      forall target ensures ParseTarget(target) == (r.path, r.rawQuery) <==> TargetSays(target, r.path, r.rawQuery) {
        TargetExact(target, r.path, r.rawQuery);
      }
      assert IsLine(head, line, rest);
    }
  }
}
