/** Resource addresses: ParseRoute (src/server/odata_server.cpp) and the Location header of an insert
    (src/execution/write_executor.cpp). */
module Routing {
  import opened Text
  import opened Url
  import opened Http
  import opened Edm
  import opened SqlCompiler

  datatype Route = Route(
    serviceDoc: bool, metadata: bool, health: bool, invalidKey: bool, entity: string, keys: seq<string>, rest: string)

  const NOWHERE: Route := Route(false, false, false, false, "", [], "")

  predicate InEntityName(c: char) {
    c != '(' && c != '/'
  }

  /** The closing parenthesis of a key, from after the opening one: quotes hide parentheses, and inside
      quotes a doubled quote does not end them. */
  function CloseAt(s: string, quoted: bool): (r: Option<nat>)
    ensures r.Some? ==> r.value < |s| && s[r.value] == ')'
    decreases |s|
  {
    if s == "" then None
    else if !quoted && s[0] == ')' then Some(0)
    else
      var step := if quoted && |s| > 1 && s[0] == '\'' && s[1] == '\'' then 2 else 1;
      var r := CloseAt(s[step..], if s[0] == '\'' && step == 1 then !quoted else quoted);
      if r.None? then None else Some(r.value + step)
  }

  /** What follows the base path: entity and key. */
  function ParseEntity(remaining: string): Route {
    var i := Span(InEntityName, remaining);
    var named := NOWHERE.(entity := remaining[..i]);
    if i == |remaining| then named
    else if remaining[i] == '(' then
      var close := CloseAt(remaining[i + 1..], false);
      if close.None? then named.(invalidKey := true)
      else
        var key := remaining[i + 1..][..close.value];
        var rest := remaining[i + 1..][close.value + 1..];
        named.(keys := if key == "" then [] else [Trim(key)], rest := rest, invalidKey := key == "" || rest != "")
    else
      var rest := remaining[i + 1..];
      named.(keys := if rest == "" then [] else [rest], rest := rest)
  }

  /** The path below the base path, "/" when nothing is left; None when the path is not under it. */
  function BelowBase(base: string, path: string): Option<string> {
    if base == "" || base == "/" then Some(path)
    else if !(ToLower(base) <= ToLower(path)) then None
    else if path[|base|..] == "" then Some("/")
    else if path[|base|] != '/' then None
    else Some(path[|base|..])
  }

  function ParseRoute(base: string, path: string): Route {
    if path == "/health" then NOWHERE.(health := true)
    else if path == "/" then NOWHERE.(serviceDoc := true)
    else
      match BelowBase(base, path)
      case None => NOWHERE
      case Some(below) =>
        if below == "/" then NOWHERE.(serviceDoc := true)
        else if below == "/$metadata" then NOWHERE.(metadata := true)
        else if below == "" || below[0] != '/' then NOWHERE
        else ParseEntity(below[1..])
  }

  // ----- the scanning loops

  lemma CloseAtStep(remaining: string, j: nat, quoted: bool)
    requires j < |remaining| && (quoted || remaining[j] != ')')
    ensures var doubled := quoted && j + 1 < |remaining| && remaining[j] == '\'' && remaining[j + 1] == '\'';
            var step := if doubled then 2 else 1;
            CloseAt(remaining[j..], quoted) ==
            match CloseAt(remaining[j + step..], if remaining[j] == '\'' && !doubled then !quoted else quoted)
            case None => None
            case Some(n) => Some(n + step)
  {
    var s := remaining[j..];
    assert s[1..] == remaining[j + 1..];
    assert |s| > 1 ==> s[2..] == remaining[j + 2..];
  }

  lemma CloseAtHere(remaining: string, j: nat)
    requires j < |remaining| && remaining[j] == ')'
    ensures CloseAt(remaining[j..], false) == Some(0)
  {
  }

  lemma CloseAtEnd(remaining: string, quoted: bool)
    ensures CloseAt(remaining[|remaining|..], quoted) == None
  {
  }

  method FindClose(remaining: string, start: nat) returns (close: nat)
    requires start <= |remaining|
    ensures CloseAt(remaining[start..], false) == if close < |remaining| then Some(close - start) else None
    ensures start <= close <= |remaining|
  {
    hide CloseAt;
    var quoted, j := false, start;
    while j < |remaining|
      invariant start <= j <= |remaining|
      invariant CloseAt(remaining[start..], false) ==
        match CloseAt(remaining[j..], quoted) case None => None case Some(n) => Some(j - start + n)
    {
      if remaining[j] == '\'' {
        CloseAtStep(remaining, j, quoted);
        if quoted && j + 1 < |remaining| && remaining[j + 1] == '\'' {
          j := j + 1;
        } else {
          quoted := !quoted;
        }
      } else if !quoted && remaining[j] == ')' {
        CloseAtHere(remaining, j);
        return j;
      } else {
        CloseAtStep(remaining, j, quoted);
      }
      j := j + 1;
    }
    CloseAtEnd(remaining, quoted);
    return |remaining|;
  }

  method SplitEntity(remaining: string) returns (route: Route)
    ensures route == ParseEntity(remaining)
  {
    hide CloseAt, TrimWith, Span;
    var i := 0;
    while i < |remaining| && remaining[i] != '(' && remaining[i] != '/'
      invariant i <= |remaining| && forall k | 0 <= k < i :: InEntityName(remaining[k])
    {
      i := i + 1;
    }
    SpanIs(InEntityName, remaining, i);
    route := NOWHERE.(entity := remaining[..i]);
    if i == |remaining| {
      return;
    }
    if remaining[i] == '(' {
      var close := FindClose(remaining, i + 1);
      if close == |remaining| {
        return route.(invalidKey := true);
      }
      var key, rest := remaining[i + 1..close], remaining[close + 1..];
      assert key == remaining[i + 1..][..close - i - 1] && rest == remaining[i + 1..][close - i..];
      return route.(keys := if key == "" then [] else [Trim(key)], rest := rest, invalidKey := key == "" || rest != "");
    }
    var rest := remaining[i + 1..];
    return route.(keys := if rest == "" then [] else [rest], rest := rest);
  }

  // ----- addresses written by the server

  /** Types whose key literals are quoted in an address. */
  predicate IsQuotedKeyType(t: EdmType) {
    t in {STRING, GUID, DATE, TIME_OF_DAY, DATETIME_OFFSET}
  }

  function AddressLiteral(t: EdmType, value: string): string {
    if IsQuotedKeyType(t) then Quoted('\'', value) else value
  }

  function Location(base: string, entity: string, literal: string): string
    requires IsBytes(entity) && IsBytes(literal)
  {
    base + "/" + EncodePath(entity) + "(" + EncodePath(literal) + ")"
  }

  /** A key that stands unquoted in an address: text of a number or a boolean. */
  predicate IsBareKey(value: string) {
    && value != "" && !IsSpace(value[0]) && !IsSpace(value[|value| - 1])
    && forall i | 0 <= i < |value| :: value[i] != '\'' && value[i] != ')'
  }

  predicate ValidKey(t: EdmType, value: string) {
    IsBytes(value) && (IsQuotedKeyType(t) || IsBareKey(value))
  }

  predicate ValidEntityName(name: string) {
    IsBytes(name) && name != "" && forall i | 0 <= i < |name| :: InEntityName(name[i])
  }

  /** A base path that survives the request line: no escape, plus sign, question mark or white space. */
  predicate IsCleanBase(base: string) {
    HasNoEscape(base) && forall i | 0 <= i < |base| :: base[i] != '?' && !IsSpace(base[i])
  }

  lemma {:induction false} DoubledIsBytes(q: char, s: string)
    requires IsBytes(s) && q as int < 256
    ensures IsBytes(Doubled(q, s))
  {
    if s != "" {
      DoubledIsBytes(q, s[1..]);
    }
  }

  lemma LiteralIsBytes(t: EdmType, value: string)
    requires IsBytes(value)
    ensures IsBytes(AddressLiteral(t, value))
  {
    DoubledIsBytes('\'', value);
  }

  /** One character of a quoted key, doubled if it is a quote, is skipped. */
  lemma CloseAfterOne(c: char, tail: string)
    requires CloseAt(tail, true).Some?
    ensures var d := if c == '\'' then "''" else [c];
            CloseAt(d + tail, true) == Some(|d| + CloseAt(tail, true).value)
  {
    var d := if c == '\'' then "''" else [c];
    assert (d + tail)[|d|..] == tail;
  }

  lemma CloseAfterQuote(rest: string)
    ensures CloseAt("'" + (")" + rest), true) == Some(1)
  {
    assert ("'" + (")" + rest))[1..] == ")" + rest;
  }

  /** The quote-aware scanner finds the parenthesis after a quoted key, whatever is inside the quotes. */
  lemma {:induction false} CloseAfterDoubled(v: string, rest: string)
    ensures CloseAt(Doubled('\'', v) + ("'" + (")" + rest)), true) == Some(|Doubled('\'', v)| + 1)
  {
    hide CloseAt;
    var tail := "'" + (")" + rest);
    if v == "" {
      CloseAfterQuote(rest);
      assert "" + tail == tail;
    } else {
      CloseAfterDoubled(v[1..], rest);
      CloseAfterOne(v[0], Doubled('\'', v[1..]) + tail);
      var d := if v[0] == '\'' then "''" else [v[0]];
      assert Doubled('\'', v) + tail == d + (Doubled('\'', v[1..]) + tail);
    }
  }

  lemma {:induction false} CloseAfterBare(v: string, rest: string)
    requires forall i | 0 <= i < |v| :: v[i] != '\'' && v[i] != ')'
    ensures CloseAt(v + ")" + rest, false) == Some(|v|)
  {
    var s := v + ")" + rest;
    if v != "" {
      CloseAfterBare(v[1..], rest);
      assert s[1..] == v[1..] + ")" + rest && s[0] == v[0];
    }
  }

  lemma CloseAfterLiteral(t: EdmType, value: string)
    requires ValidKey(t, value)
    ensures CloseAt(AddressLiteral(t, value) + ")", false) == Some(|AddressLiteral(t, value)|)
  {
    var literal := AddressLiteral(t, value);
    if IsQuotedKeyType(t) {
      CloseAfterDoubled(value, "");
      var s := literal + ")";
      assert s[1..] == Doubled('\'', value) + ("'" + (")" + ""));
    } else {
      CloseAfterBare(value, "");
      assert literal + ")" + "" == literal + ")";
    }
  }

  lemma LiteralIsTrimmed(t: EdmType, value: string)
    requires ValidKey(t, value)
    ensures AddressLiteral(t, value) != "" && Trim(AddressLiteral(t, value)) == AddressLiteral(t, value)
  {
    TrimKeeps(IsSpace, AddressLiteral(t, value));
  }

  lemma ParseEntityWithKey(name: string, t: EdmType, value: string)
    requires ValidEntityName(name) && ValidKey(t, value)
    ensures ParseEntity(name + "(" + AddressLiteral(t, value) + ")") ==
            NOWHERE.(entity := name, keys := [AddressLiteral(t, value)])
  {
    hide CloseAt, AddressLiteral, Trim, Span;
    var literal := AddressLiteral(t, value);
    var s := name + "(" + literal + ")";
    SpanIs(InEntityName, s, |name|);
    assert s[..|name|] == name && s[|name| + 1..] == literal + ")";
    CloseAfterLiteral(t, value);
    LiteralIsTrimmed(t, value);
    assert (literal + ")")[..|literal|] == literal && (literal + ")")[|literal| + 1..] == "";
  }

  lemma BelowBaseOf(base: string, rest: string)
    requires base != "/" && rest != "" && rest[0] == '/'
    ensures BelowBase(base, base + rest) == Some(rest)
  {
    ToLowerCat(base, rest);
    assert (base + rest)[|base|..] == rest;
  }

  /** The path a server decodes from a Location is base, entity and literal with the encoding undone. */
  lemma DecodedLocation(base: string, name: string, literal: string)
    requires IsCleanBase(base) && IsBytes(name) && IsBytes(literal)
    ensures ParseTarget(Location(base, name, literal)) == (base + ("/" + (name + "(" + literal + ")")), "")
  {
    hide UrlDecode, EncodePath, HasNoEscape;
    var n, l, loc := EncodePath(name), EncodePath(literal), Location(base, name, literal);
    EncodedCharacters(name);
    EncodedCharacters(literal);
    assert forall i | 0 <= i < |loc| :: NotQuestion(loc[i]);
    SpanIs(NotQuestion, loc, |loc|);
    assert loc[..|loc|] == loc;
    assert loc == base + ("/" + (n + ("(" + (l + ")"))));
    DecodeUnescaped(base, "/" + (n + ("(" + (l + ")"))));
    PlainStep('/', n + ("(" + (l + ")")));
    DecodeEncoded(name, "(" + (l + ")"));
    PlainStep('(', l + ")");
    DecodeEncoded(literal, ")");
    PlainStep(')', "");
    DecodeEmpty();
    assert ")" + "" == ")";
    assert base + ("/" + (name + ("(" + (literal + ")")))) == base + ("/" + (name + "(" + literal + ")"));
  }

  lemma PlainStep(c: char, rest: string)
    requires c != '%' && c != '+'
    ensures UrlDecode([c] + rest) == [c] + UrlDecode(rest)
  {
    assert ([c] + rest)[1..] == rest;
  }

  /** The address written in a 201 response leads back to the entity and the key it was written for. */
  ghost predicate LeadsBack(base: string, name: string, t: EdmType, value: string)
    requires IsBytes(name) && IsBytes(value)
  {
    LiteralIsBytes(t, value);
    var literal := AddressLiteral(t, value);
    var location := Location(base, name, literal);
    && ParseRequestLine("GET " + location + " HTTP/1.1") == Some(("GET", location))
    && ParseTarget(location).1 == ""
    && ParseRoute(base, ParseTarget(location).0) == NOWHERE.(entity := name, keys := [literal])
    && KeyValue(literal) == value
  }

  /** Location round trip. For every entity name and every key value (quotes, parentheses, percent and plus signs,
      slashes, any byte), through EncodePath, the request line, the target split, UrlDecode, the quote-aware
      scanner and the key unquoting loop. */
  lemma LocationLeadsBack(base: string, name: string, t: EdmType, value: string)
    requires IsCleanBase(base) && base != "/" && ValidEntityName(name) && ValidKey(t, value)
    ensures LeadsBack(base, name, t, value)
  {
    hide EncodePath, CloseAt, UrlDecode, HasNoEscape, ParseEntity, BelowBase, Words;
    LiteralIsBytes(t, value);
    var literal := AddressLiteral(t, value);
    var location, rest := Location(base, name, literal), "/" + (name + "(" + literal + ")");
    LocationIsToken(base, name, literal);
    RequestLineOf("GET", location);
    assert "GET" + " " + location + " HTTP/1.1" == "GET " + location + " HTTP/1.1";
    DecodedLocation(base, name, literal);
    BelowBaseOf(base, rest);
    ParseEntityWithKey(name, t, value);
    var path := base + rest;
    assert path[|path| - 1] == ')' && rest[|rest| - 1] == ')' && rest[0] == '/';
    assert rest[1..] == name + "(" + literal + ")";
    if IsQuotedKeyType(t) {
      KeyValueOfQuoted(value);
    }
  }

  lemma LocationIsToken(base: string, name: string, literal: string)
    requires IsCleanBase(base) && IsBytes(name) && IsBytes(literal)
    ensures IsToken(Location(base, name, literal))
  {
    EncodedCharacters(name);
    EncodedCharacters(literal);
  }

  // ----- exactly which base paths lead back

  /** Decoding never lengthens, and keeps the length only where nothing but plus signs is decoded. */
  lemma {:induction false} DecodeShrinks(s: string)
    ensures |UrlDecode(s)| <= |s|
    ensures |UrlDecode(s)| == |s| ==> forall i | 0 <= i < |s| :: !StartsEscape(s[i..]) && UrlDecode(s)[i] == if s[i] == '+' then ' ' else s[i]
    decreases |s|
  {
    if s != "" {
      var (c, step) := DecodedStep(s);
      DecodeShrinks(s[step..]);
      if |UrlDecode(s)| == |s| {
        assert step == 1 && s[0..] == s;
        forall i | 0 <= i < |s| ensures !StartsEscape(s[i..]) && UrlDecode(s)[i] == if s[i] == '+' then ' ' else s[i] {
          if i > 0 {
            assert s[1..][i - 1..] == s[i..] && s[1..][i - 1] == s[i];
          }
        }
      }
    }
  }

  /** A route with an entity and one key and nothing more was written with parentheses. */
  lemma KeyedEntityLength(remaining: string)
    requires ParseEntity(remaining).entity == "a" && ParseEntity(remaining).keys == ["1"]
    requires ParseEntity(remaining).rest == "" && !ParseEntity(remaining).invalidKey
    ensures |remaining| >= 4
  {
    hide CloseAt, TrimWith, Span;
    var i := Span(InEntityName, remaining);
    assert i == 1;
    var close := CloseAt(remaining[i + 1..], false);
    if remaining[i] == '(' && close.Some? {
      var key := remaining[i + 1..][..close.value];
      assert key != "";
    }
  }

  /** The address of key 1 of entity `a`: only a clean base path leads back. */
  lemma OnlyCleanBasesLeadBack(base: string)
    requires ValidEntityName("a") && ValidKey(INT32, "1") && LeadsBack(base, "a", INT32, "1") && base != "/"
    ensures IsCleanBase(base)
  {
    hide Words, CloseAt, TrimWith, Span, ParseEntity, UrlDecode, EncodePath;
    var location := Location(base, "a", "1");
    var tail := "/a(1)";
    PlainAddress(base);
    assert location == base + tail;
    WordsAreTokens("GET " + location + " HTTP/1.1");
    assert IsToken(location);
    assert forall i | 0 <= i < |base| :: base[i] == location[i];
    assert location[|location| - 1] == ')';
    WholeTarget(location);
    assert location[..|location|] == location;
    var path := UrlDecode(location);
    RoutedPath(base, path);
    DecodeShrinks(location);
    assert |path| == |location|;
    forall i | 0 <= i < |base| ensures base[i] != '+' && !StartsEscape(base[i..]) {
      assert !StartsEscape(location[i..]);
      assert |base| - i > 2 ==> location[i..][..3] == base[i..][..3];
      assert LowerChar(path[i]) == LowerChar(base[i]) by {
        if base != "" {
          assert ToLower(path)[i] == ToLower(base)[i];
        }
      }
    }
  }

  lemma WholeTarget(target: string)
    requires target != "" && target[|target| - 1] != '?' && ParseTarget(target).1 == ""
    ensures Span(NotQuestion, target) == |target|
  {
    hide UrlDecode;
  }

  lemma PlainAddress(base: string)
    ensures IsBytes("a") && IsBytes("1") && Location(base, "a", "1") == base + "/a(1)"
  {
    assert "a"[1..] == "" && "1"[1..] == "";
    assert EncodePath("a") == "a" && EncodePath("1") == "1";
    assert base + "/" + "a" + "(" + "1" + ")" == base + "/a(1)";
  }

  /** A path routed to key 1 of entity `a` is the base path, in any case, and at least five characters. */
  lemma RoutedPath(base: string, path: string)
    requires ParseRoute(base, path) == NOWHERE.(entity := "a", keys := ["1"]) && base != "/"
    ensures |path| >= |base| + 5 && (base != "" ==> ToLower(base) <= ToLower(path))
  {
    hide ParseEntity;
    var below := BelowBase(base, path).value;
    assert below != "" && below[0] == '/';
    KeyedEntityLength(below[1..]);
  }

  /** For every base path, whatever its characters: each entity name and each key is led back to if and only if the
      base path has no white space, question mark, plus sign or complete escape, and is not "/", under which every
      Location starts with two slashes and its entity name is read as empty. */
  lemma LocationExact(base: string)
    ensures (forall name, t, value | ValidEntityName(name) && ValidKey(t, value) :: LeadsBack(base, name, t, value))
            <==> IsCleanBase(base) && base != "/"
  {
    hide LeadsBack, IsCleanBase;
    if IsCleanBase(base) && base != "/" {
      forall name, t, value | ValidEntityName(name) && ValidKey(t, value) ensures LeadsBack(base, name, t, value) {
        LocationLeadsBack(base, name, t, value);
      }
    } else if base == "/" {
      RootBaseFails();
    } else {
      SmallestAddress();
      if LeadsBack(base, "a", INT32, "1") {
        OnlyCleanBasesLeadBack(base);
      }
    }
  }

  lemma SmallestAddress()
    ensures ValidEntityName("a") && ValidKey(INT32, "1")
  {
  }

  lemma RootBaseFails()
    ensures ValidEntityName("a") && ValidKey(INT32, "1") && !LeadsBack("/", "a", INT32, "1")
  {
    hide EncodePath, UrlDecode, Words, CloseAt;
    DecodedLocation("/", "a", "1");
    var path := "/" + ("/" + ("a" + "(" + "1" + ")"));
    assert path[|path| - 1] == ')';
    assert path[1..][0] == '/';
    SpanIs(InEntityName, path[1..], 0);
    assert ParseRoute("/", path).entity == "";
  }
}
