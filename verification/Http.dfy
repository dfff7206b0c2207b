/** HTTP request heads (src/server/http_request.cpp). */
module Http {
  import opened Text
  import opened Url

  datatype HttpRequest = HttpRequest(
    verb: string, path: string, rawQuery: string, query: seq<(string, string)>, headers: map<string, string>)

  predicate NotSpace(c: char) {
    !IsSpace(c)
  }

  predicate NotQuestion(c: char) {
    c != '?'
  }

  predicate NotColon(c: char) {
    c != ':'
  }

  predicate IsTabOrSpace(c: char) {
    c == ' ' || c == '\t'
  }

  /** Reading words from a string stream. */
  function Words(s: string): seq<string>
    decreases |s|
  {
    var start := Span(IsSpace, s);
    if start == |s| then []
    else
      var n := Span(NotSpace, s[start..]);
      [s[start..][..n]] + Words(s[start..][n..])
  }

  /** The method and the target of a request line of exactly three words. */
  function ParseRequestLine(line: string): Option<(string, string)> {
    var ws := Words(line);
    if |ws| == 3 && (ws[2] == "HTTP/1.1" || ws[2] == "HTTP/1.0") then Some((ws[0], ws[1])) else None
  }

  /** Decoded path and raw query of a target: split at the first question mark. */
  function ParseTarget(target: string): (string, string) {
    var q := Span(NotQuestion, target);
    (UrlDecode(target[..q]), if q == |target| then "" else target[q + 1..])
  }

  predicate CrlfAt(s: string, k: nat) {
    k + 1 < |s| && s[k] == '\r' && s[k + 1] == '\n'
  }

  /** Position of the first CRLF. */
  function LineEnd(s: string): (r: Option<nat>)
    ensures r.Some? ==> CrlfAt(s, r.value)
    ensures forall k | 0 <= k < if r.Some? then r.value else |s| :: !CrlfAt(s, k)
  {
    if |s| < 2 then None
    else if CrlfAt(s, 0) then Some(0)
    else
      assert forall k | 0 < k < |s| :: CrlfAt(s, k) == CrlfAt(s[1..], k - 1);
      var r := LineEnd(s[1..]);
      if r.None? then None else Some(r.value + 1)
  }

  lemma LineEndIs(s: string, n: nat)
    requires n <= |s| && (n < |s| ==> CrlfAt(s, n)) && forall k | 0 <= k < n :: !CrlfAt(s, k)
    ensures LineEnd(s) == if n < |s| then Some(n) else None
  {
    hide LineEnd;
    var r := LineEnd(s);
    if r.Some? {
      assert CrlfAt(s, r.value);
    }
  }

  const LENGTH: string := "content-length"

  /** One header line, added to the headers read so far; None when it is malformed or repeats Content-Length. */
  function AddHeader(line: string, headers: map<string, string>): Option<map<string, string>> {
    var colon := Span(NotColon, line);
    var name := line[..colon];
    if colon == |line| || name == "" || Span(IsNotTabOrSpace, name) < |name| then None
    else if ToLower(name) == LENGTH && LENGTH in headers then None
    else Some(headers[ToLower(name) := TrimWith(IsTabOrSpace, line[colon + 1..])])
  }

  predicate IsNotTabOrSpace(c: char) {
    !IsTabOrSpace(c)
  }

  function ParseHeaders(s: string, headers: map<string, string>): Option<map<string, string>>
    decreases |s|
  {
    if LineEnd(s).None? || LineEnd(s).value == 0 then Some(headers)
    else
      var n := LineEnd(s).value;
      match AddHeader(s[..n], headers)
      case None => None
      case Some(more) => ParseHeaders(s[n + 2..], more)
  }

  function ParseRequest(head: string): Option<HttpRequest> {
    if LineEnd(head).None? then None
    else
      var n := LineEnd(head).value;
      match ParseRequestLine(head[..n])
      case None => None
      case Some((verb, target)) =>
        match ParseHeaders(head[n + 2..], map[])
        case None => None
        case Some(headers) =>
          var (path, rawQuery) := ParseTarget(target);
          Some(HttpRequest(verb, path, rawQuery, ParseQuery(rawQuery), headers))
  }

  // ----- the code's own loops

  method FindCrlf(s: string, pos: nat) returns (i: nat)
    requires pos <= |s|
    ensures pos <= i <= |s| && (i < |s| ==> CrlfAt(s, i))
    ensures LineEnd(s[pos..]) == if i < |s| then Some(i - pos) else None
  {
    i := pos;
    while i < |s| && !CrlfAt(s, i)
      invariant pos <= i <= |s|
      invariant forall k | pos <= k < i :: !CrlfAt(s, k)
    {
      i := i + 1;
    }
    assert forall k | 0 <= k < |s| - pos :: CrlfAt(s[pos..], k) == CrlfAt(s, pos + k);
    LineEndIs(s[pos..], i - pos);
  }

  method ReadHeader(line: string, headers: map<string, string>) returns (r: Option<map<string, string>>)
    ensures r == AddHeader(line, headers)
  {
    hide Span, TrimWith;
    var colon := FindFrom(':', line, 0);
    assert line[0..] == line;
    SpanToFind(NotColon, ':', line, 0, colon);
    if colon == |line| {
      return None;
    }
    var name := line[..colon];
    if name == "" || Span(IsNotTabOrSpace, name) < |name| {
      return None;
    }
    var value := TrimText(IsTabOrSpace, line[colon + 1..]);
    var normalized := ToLower(name);
    if normalized == LENGTH && normalized in headers {
      return None;
    }
    return Some(headers[normalized := value]);
  }

  method ParseHttpRequest(head: string) returns (r: Option<HttpRequest>)
    ensures r == ParseRequest(head)
  {
    hide ParseRequestLine, ParseTarget, AddHeader, ParseQuery;
    assert head[0..] == head;
    var lineEnd := FindCrlf(head, 0);
    if lineEnd == |head| {
      return None;
    }
    var line := ParseRequestLine(head[..lineEnd]);
    if line.None? {
      return None;
    }
    var (path, rawQuery) := ParseTarget(line.value.1);
    var query := ParseQueryString(rawQuery);
    var headers := ReadHeaders(head, lineEnd + 2);
    if headers.None? {
      return None;
    }
    return Some(HttpRequest(line.value.0, path, rawQuery, query, headers.value));
  }

  method ReadHeaders(head: string, start: nat) returns (r: Option<map<string, string>>)
    requires start <= |head|
    ensures r == ParseHeaders(head[start..], map[])
  {
    hide AddHeader, LineEnd;
    var pos := start;
    var headers: map<string, string> := map[];
    while pos < |head|
      invariant pos <= |head|
      invariant ParseHeaders(head[start..], map[]) == ParseHeaders(head[pos..], headers)
    {
      var end := FindCrlf(head, pos);
      ghost var s := head[pos..];
      if end == |head| {
        break;
      }
      var line := head[pos..end];
      assert line == s[..end - pos] && s[end - pos + 2..] == head[end + 2..];
      pos := end + 2;
      if line == "" {
        return Some(headers);
      }
      var more := ReadHeader(line, headers);
      if more.None? {
        return None;
      }
      headers := more.value;
    }
    return Some(headers);
  }

  // ----- round trip of a well-formed head

  predicate IsToken(w: string) {
    w != "" && forall i | 0 <= i < |w| :: !IsSpace(w[i])
  }

  predicate ValidHeader(h: (string, string)) {
    && h.0 != "" && (forall i | 0 <= i < |h.0| :: h.0[i] !in {' ', '\t', ':', '\r'})
    && (forall i | 0 <= i < |h.1| :: h.1[i] != '\r')
    && (h.1 != "" ==> !IsTabOrSpace(h.1[0]) && !IsTabOrSpace(h.1[|h.1| - 1]))
  }

  predicate ValidHeaders(hs: seq<(string, string)>) {
    forall i | 0 <= i < |hs| :: ValidHeader(hs[i])
  }

  function HeaderLine(h: (string, string)): string {
    h.0 + ": " + h.1
  }

  function HeaderLines(hs: seq<(string, string)>): string {
    if hs == [] then "\r\n" else HeaderLine(hs[0]) + "\r\n" + HeaderLines(hs[1..])
  }

  function Head(verb: string, target: string, hs: seq<(string, string)>): string {
    (verb + " " + target + " HTTP/1.1") + "\r\n" + HeaderLines(hs)
  }

  /** Header names are case-insensitive; of equal names the last one counts. */
  function HeaderMap(hs: seq<(string, string)>, headers: map<string, string>): map<string, string> {
    if hs == [] then headers else HeaderMap(hs[1..], headers[ToLower(hs[0].0) := hs[0].1])
  }

  /** Content-Length occurs at most once, counting whether it was already seen. */
  predicate LengthOnce(hs: seq<(string, string)>, seen: bool) {
    hs == [] || (if ToLower(hs[0].0) == LENGTH then !seen && LengthOnce(hs[1..], true) else LengthOnce(hs[1..], seen))
  }

  lemma LineEndOf(line: string, rest: string)
    requires forall i | 0 <= i < |line| :: line[i] != '\r'
    ensures LineEnd(line + "\r\n" + rest) == Some(|line|)
    ensures (line + "\r\n" + rest)[..|line|] == line && (line + "\r\n" + rest)[|line| + 2..] == rest
  {
    var s := line + "\r\n" + rest;
    assert s[|line|] == '\r' && s[|line| + 1] == '\n';
    assert forall i | 0 <= i < |line| :: s[i] == line[i];
    LineEndIs(s, |line|);
  }

  lemma AddValidHeader(h: (string, string), headers: map<string, string>)
    requires ValidHeader(h)
    ensures AddHeader(HeaderLine(h), headers) ==
            if ToLower(h.0) == LENGTH && LENGTH in headers then None else Some(headers[ToLower(h.0) := h.1])
  {
    var line := HeaderLine(h);
    SpanIs(NotColon, line, |h.0|);
    assert line[..|h.0|] == h.0;
    SpanIs(IsNotTabOrSpace, h.0, |h.0|);
    assert line[|h.0| + 1..] == " " + h.1;
    TrimAfterSpace(h.1);
  }

  lemma TrimAfterSpace(v: string)
    requires v != "" ==> !IsTabOrSpace(v[0]) && !IsTabOrSpace(v[|v| - 1])
    ensures TrimWith(IsTabOrSpace, " " + v) == v
  {
    SpanIs(IsTabOrSpace, " " + v, 1);
    assert (" " + v)[1..] == v;
  }

  lemma {:induction false} HeadersExact(hs: seq<(string, string)>, headers: map<string, string>)
    requires ValidHeaders(hs)
    ensures ParseHeaders(HeaderLines(hs), headers) ==
            if LengthOnce(hs, LENGTH in headers) then Some(HeaderMap(hs, headers)) else None
  {
    hide AddHeader, LineEnd;
    if hs == [] {
      LineEndOf("", "");
      assert "" + "\r\n" + "" == "\r\n";
    } else {
      var line, rest := HeaderLine(hs[0]), HeaderLines(hs[1..]);
      LineEndOf(line, rest);
      AddValidHeader(hs[0], headers);
      HeadersExact(hs[1..], headers[ToLower(hs[0].0) := hs[0].1]);
    }
  }

  lemma WordsOfOne(w: string, rest: string)
    requires IsToken(w) && (rest == "" || IsSpace(rest[0]))
    ensures Words(w + rest) == [w] + Words(rest)
  {
    var s := w + rest;
    SpanIs(IsSpace, s, 0);
    assert s[0..] == s;
    SpanIs(NotSpace, s, |w|);
    assert s[..|w|] == w && s[|w|..] == rest;
  }

  lemma WordsAfterSpace(s: string)
    requires s == "" || !IsSpace(s[0])
    ensures Words(" " + s) == Words(s)
  {
    var t := " " + s;
    assert t[1..] == s && s[0..] == s;
    SpanIs(IsSpace, t, 1);
    SpanIs(IsSpace, s, 0);
  }

  lemma RequestLineOf(verb: string, target: string)
    requires IsToken(verb) && IsToken(target)
    ensures ParseRequestLine(verb + " " + target + " HTTP/1.1") == Some((verb, target))
  {
    hide Words;
    var v := "HTTP/1.1";
    assert IsToken(v);
    WordsOfOne(verb, " " + (target + (" " + v)));
    WordsAfterSpace(target + (" " + v));
    WordsOfOne(target, " " + v);
    WordsAfterSpace(v);
    assert v + "" == v;
    WordsOfOne(v, "");
    NoWords();
    assert verb + (" " + (target + (" " + v))) == verb + " " + target + " HTTP/1.1";
    assert [verb] + ([target] + ([v] + [])) == [verb, target, v];
  }

  lemma {:induction false} WordsAreTokens(s: string)
    ensures forall i | 0 <= i < |Words(s)| :: IsToken(Words(s)[i])
    decreases |s|
  {
    var start := Span(IsSpace, s);
    if start < |s| {
      var n := Span(NotSpace, s[start..]);
      WordsAreTokens(s[start..][n..]);
    }
  }

  lemma NoWords()
    ensures Words("") == []
  {
  }

  /** Whatever the verb, target and headers, a well-formed head is parsed back to them when Content-Length
      occurs at most once, and is refused otherwise. */
  lemma HeadExact(verb: string, target: string, hs: seq<(string, string)>)
    requires IsToken(verb) && IsToken(target) && ValidHeaders(hs)
    ensures var (path, rawQuery) := ParseTarget(target);
            ParseRequest(Head(verb, target, hs)) ==
            if LengthOnce(hs, false)
            then Some(HttpRequest(verb, path, rawQuery, ParseQuery(rawQuery), HeaderMap(hs, map[]))) else None
  {
    hide ParseRequestLine, ParseTarget, ParseQuery, ParseHeaders, LineEnd;
    var line := verb + " " + target + " HTTP/1.1";
    LineEndOf(line, HeaderLines(hs));
    RequestLineOf(verb, target);
    HeadersExact(hs, map[]);
  }
}
