/** The resource addresses a client may write, apart from the route parser, which is then shown to read exactly these. */
module Addresses {
  import opened Text
  import opened Edm
  import opened OptionWriting
  import opened Routing

  // ----- keys in parentheses

  function Quotes(s: string): nat {
    if s == "" then 0 else (if s[0] == '\'' then 1 else 0) + Quotes(s[1..])
  }

  predicate IsOdd(n: nat) {
    n % 2 == 1
  }

  /** Quotes come in pairs, and every closing parenthesis stands between the two of a pair. */
  predicate IsClosed(key: string) {
    !IsOdd(Quotes(key)) && forall i | 0 <= i < |key| && key[i] == ')' :: IsOdd(Quotes(key[..i]))
  }

  /** From inside a quoted part (`quoted`) or outside, the first closing parenthesis outside is at `n`. */
  predicate ClosesAt(s: string, quoted: bool, n: nat) {
    && n < |s| && s[n] == ')' && IsOdd(Quotes(s[..n])) == quoted
    && forall i | 0 <= i < n && s[i] == ')' :: IsOdd(Quotes(s[..i])) != quoted
  }

  lemma QuotesStep(s: string, i: nat)
    requires 0 < i <= |s|
    ensures Quotes(s[..i]) == (if s[0] == '\'' then 1 else 0) + Quotes(s[1..][..i - 1])
  {
    assert s[..i][1..] == s[1..][..i - 1];
  }

  /** Passing one character moves the place by one and a quote changes sides. */
  lemma ClosesLater(s: string, quoted: bool, n: nat)
    requires s != "" && n > 0 && (s[0] == ')' ==> quoted)
    ensures ClosesAt(s, quoted, n) <==> ClosesAt(s[1..], quoted != (s[0] == '\''), n - 1)
  {
    var rest := s[1..];
    assert forall i | 0 < i < |s| :: s[i] == rest[i - 1];
    forall i | 0 < i <= |s| ensures Quotes(s[..i]) == (if s[0] == '\'' then 1 else 0) + Quotes(rest[..i - 1]) {
      QuotesStep(s, i);
    }
    assert Quotes(s[..0]) == 0;
    assert forall i | 0 <= i < |rest| :: rest[i] == s[i + 1];
  }

  lemma {:induction false} CloseExact(s: string, quoted: bool, n: nat)
    ensures CloseAt(s, quoted) == Some(n) <==> ClosesAt(s, quoted, n)
    decreases |s|
  {
    hide ClosesAt;
    if s == "" || (!quoted && s[0] == ')') {
      CloseAtFirst(s, quoted, n);
    } else if n == 0 {
      NotAtFirst(s, quoted);
    } else {
      ClosesLater(s, quoted, n);
      var flipped := quoted != (s[0] == '\'');
      if quoted && |s| > 1 && s[0] == '\'' && s[1] == '\'' {
        assert s[1..][1..] == s[2..];
        if n == 1 {
          NotAtFirst(s[1..], flipped);
        } else {
          ClosesLater(s[1..], flipped, n - 1);
          CloseExact(s[2..], quoted, n - 2);
        }
      } else {
        CloseExact(s[1..], flipped, n - 1);
      }
    }
  }

  lemma CloseAtFirst(s: string, quoted: bool, n: nat)
    requires s == "" || (!quoted && s[0] == ')')
    ensures ClosesAt(s, quoted, n) <==> s != "" && n == 0
  {
    if s != "" {
      assert Quotes(s[..0]) == 0;
    }
  }

  lemma NotAtFirst(s: string, quoted: bool)
    requires s != "" && (quoted || s[0] != ')')
    ensures !ClosesAt(s, quoted, 0)
  {
    assert Quotes(s[..0]) == 0;
  }

  lemma ClosedExact(key: string, tail: string)
    ensures IsClosed(key) <==> CloseAt(key + ")" + tail, false) == Some(|key|)
  {
    var s := key + ")" + tail;
    CloseExact(s, false, |key|);
    assert s[..|key|] == key;
    assert forall i | 0 <= i < |key| :: s[i] == key[i] && s[..i] == key[..i];
  }

  // ----- entities and keys

  predicate IsName(name: string) {
    '(' !in name && '/' !in name
  }

  /** An entity alone, with a slash and a key, or with a key in parentheses. */
  ghost predicate NamesEntity(text: string, name: string, keys: seq<string>) {
    && IsName(name)
    && (|| (keys == [] && (text == name || text == name + "/"))
        || (|keys| == 1 && keys[0] != "" && text == name + "/" + keys[0])
        || (|keys| == 1 && exists key | key != "" && IsClosed(key) :: Padded(key, keys[0]) && text == name + "(" + key + ")"))
  }

  /** An opened parenthesis that is not closed at the end of the text, or holds nothing. */
  ghost predicate IsBroken(text: string) {
    exists name, tail | IsName(name) && text == name + "(" + tail :: !(exists key | key != "" && IsClosed(key) :: tail == key + ")")
  }

  lemma NameEnds(name: string, after: string)
    requires IsName(name) && (after == "" || after[0] == '(' || after[0] == '/')
    ensures Span(InEntityName, name + after) == |name| && (name + after)[..|name|] == name
  {
    var text := name + after;
    assert forall i | 0 <= i < |name| :: text[i] == name[i];
    SpanIs(InEntityName, text, |name|);
  }

  /** What the parser makes of a name and what follows it. */
  lemma EntityReads(name: string, after: string)
    requires IsName(name) && (after == "" || after[0] == '(' || after[0] == '/')
    ensures var r := ParseEntity(name + after);
            && r.entity == name
            && (after == "" || after == "/" ==> r.keys == [] && !r.invalidKey)
            && (|after| > 1 && after[0] == '/' ==> r.keys == [after[1..]] && !r.invalidKey)
  {
    NameEnds(name, after);
    assert after != "" ==> (name + after)[|name|] == after[0] && (name + after)[|name| + 1..] == after[1..];
  }

  predicate ClosesLast(tail: string) {
    |tail| > 1 && CloseAt(tail, false) == Some(|tail| - 1)
  }

  lemma KeyReads(name: string, tail: string)
    requires IsName(name)
    ensures var r := ParseEntity(name + "(" + tail);
            r.entity == name && (r.invalidKey <==> !ClosesLast(tail)) && (!r.invalidKey ==> r.keys == [Trim(tail[..|tail| - 1])])
  {
    hide CloseAt, Trim, Span;
    NameEnds(name, "(" + tail);
    var text, i := name + "(" + tail, |name|;
    assert name + ("(" + tail) == text && text[i] == '(' && text[i + 1..] == tail;
    var close := CloseAt(tail, false);
    if close.Some? {
      var rest := tail[close.value + 1..];
      assert rest == "" <==> close.value + 1 == |tail|;
      assert tail[..close.value] == "" <==> close.value == 0;
    }
  }

  lemma BrokenExact(tail: string)
    ensures ClosesLast(tail) <==> exists key | key != "" && IsClosed(key) :: tail == key + ")"
  {
    hide CloseAt, IsClosed;
    if ClosesLast(tail) {
      var key := tail[..|tail| - 1];
      assert tail == key + ")" + "" by { CloseEndsHere(tail); }
      ClosedExact(key, "");
      assert key + ")" == tail;
    }
    forall key | key != "" && IsClosed(key) && tail == key + ")" ensures ClosesLast(tail) {
      ClosedExact(key, "");
      assert key + ")" + "" == tail;
    }
  }

  lemma CloseEndsHere(tail: string)
    requires ClosesLast(tail)
    ensures tail == tail[..|tail| - 1] + ")"
  {
  }

  lemma NamesAreRead(text: string, name: string, keys: seq<string>)
    requires NamesEntity(text, name, keys)
    ensures var r := ParseEntity(text); r.entity == name && !r.invalidKey && r.keys == keys
  {
    hide CloseAt, IsClosed, Padded, Trim, ClosesLast, ParseEntity;
    if keys == [] && text == name {
      assert name + "" == text;
      EntityReads(name, "");
    } else if keys == [] && text == name + "/" {
      EntityReads(name, "/");
    } else if keys[0] != "" && text == name + "/" + keys[0] {
      EntityReads(name, "/" + keys[0]);
      assert name + ("/" + keys[0]) == text && ("/" + keys[0])[1..] == keys[0];
    } else {
      var key :| key != "" && IsClosed(key) && Padded(key, keys[0]) && text == name + "(" + key + ")";
      var tail := key + ")";
      assert text == name + "(" + tail && tail[..|tail| - 1] == key;
      KeyReads(name, tail);
      BrokenExact(tail);
      TrimExact(key, keys[0]);
    }
  }

  lemma BrokenIsRead(text: string)
    requires IsBroken(text)
    ensures ParseEntity(text).invalidKey
  {
    hide CloseAt, IsClosed, Trim, ClosesLast, ParseEntity;
    var name, tail :| IsName(name) && text == name + "(" + tail && !(exists key | key != "" && IsClosed(key) :: tail == key + ")");
    KeyReads(name, tail);
    BrokenExact(tail);
  }

  lemma KeyIsNamed(name: string, tail: string)
    requires IsName(name)
    ensures var text := name + "(" + tail;
            var r := ParseEntity(text);
            if r.invalidKey then IsBroken(text) else NamesEntity(text, r.entity, r.keys)
  {
    hide CloseAt, IsClosed, Padded, Trim, ClosesLast, ParseEntity;
    var text := name + "(" + tail;
    KeyReads(name, tail);
    BrokenExact(tail);
    if ClosesLast(tail) {
      var key :| key != "" && IsClosed(key) && tail == key + ")";
      assert tail[..|tail| - 1] == key && text == name + "(" + key + ")";
      TrimExact(key, Trim(key));
    }
  }

  lemma PlainIsNamed(name: string, after: string)
    requires IsName(name) && (after == "" || after[0] == '/')
    ensures var text := name + after;
            var r := ParseEntity(text);
            !r.invalidKey && NamesEntity(text, r.entity, r.keys)
  {
    hide ParseEntity, IsClosed, Padded;
    EntityReads(name, after);
    if |after| > 1 {
      assert after == "/" + after[1..] && name + after == name + "/" + after[1..];
    } else if after != "" {
      assert after == "/";
    } else {
      assert name + "" == name;
    }
  }

  lemma ReadIsNamed(text: string)
    ensures var r := ParseEntity(text); if r.invalidKey then IsBroken(text) else NamesEntity(text, r.entity, r.keys)
  {
    hide ParseEntity, NamesEntity, IsBroken;
    var n := Span(InEntityName, text);
    var name, after := text[..n], text[n..];
    assert text == name + after && IsName(name);
    if n < |text| && text[n] == '(' {
      assert text == name + "(" + after[1..];
      KeyIsNamed(name, after[1..]);
    } else {
      PlainIsNamed(name, after);
    }
  }

  lemma EntityIsPlain(text: string)
    ensures var r := ParseEntity(text); !r.health && !r.serviceDoc && !r.metadata
  {
    hide CloseAt, Trim;
  }

  /** Entity, keys and verdict are those of the text. */
  lemma EntityExact(text: string, name: string, keys: seq<string>)
    ensures var r := ParseEntity(text);
            && (r.entity == name && !r.invalidKey && r.keys == keys <==> NamesEntity(text, name, keys))
            && (r.invalidKey <==> IsBroken(text))
            && !r.health && !r.serviceDoc && !r.metadata
  {
    EntityIsPlain(text);
    hide ParseEntity, NamesEntity, IsBroken;
    ReadIsNamed(text);
    if NamesEntity(text, name, keys) {
      NamesAreRead(text, name, keys);
    }
    if IsBroken(text) {
      BrokenIsRead(text);
    }
  }

  // ----- paths

  /** `below` is what is left of the path under the base path, which is matched without regard to case. */
  ghost predicate IsUnder(base: string, path: string, below: string) {
    if base == "" || base == "/" then below == path
    else exists prefix | SameName(prefix, base) ::
           (path == prefix && below == "/") || (path == prefix + below && below != "" && below[0] == '/')
  }

  lemma UnderExact(base: string, path: string, below: string)
    ensures IsUnder(base, path, below) <==> BelowBase(base, path) == Some(below)
  {
    hide ToLower;
    if base != "" && base != "/" {
      if IsUnder(base, path, below) {
        var prefix :| SameName(prefix, base)
          && ((path == prefix && below == "/") || (path == prefix + below && below != "" && below[0] == '/'));
        var rest := path[|prefix|..];
        assert path == prefix + rest && |prefix| == |base|;
        ToLowerCat(prefix, rest);
      }
      if ToLower(base) <= ToLower(path) {
        var prefix, rest := path[..|base|], path[|base|..];
        assert path == prefix + rest;
        ToLowerCat(prefix, rest);
        assert ToLower(prefix) == ToLower(path)[..|base|] == ToLower(base);
        assert SameName(prefix, base);
      }
    }
  }

  /** Which resource a path addresses: the server's health, the service document, its metadata, an entity, optionally with a
      key, or an entity with a broken key. Anything else is no resource. */
  lemma RouteExact(base: string, path: string, name: string, keys: seq<string>)
    requires name != ""
    ensures var r, fixed := ParseRoute(base, path), path == "/health" || path == "/" || IsUnder(base, path, "/") || IsUnder(base, path, "/$metadata");
            && (r.health <==> path == "/health")
            && (r.serviceDoc <==> path != "/health" && (path == "/" || IsUnder(base, path, "/")))
            && (r.metadata <==> path != "/health" && IsUnder(base, path, "/$metadata"))
            && (r.entity == name && !r.invalidKey && r.keys == keys <==>
                !fixed && exists text | IsUnder(base, path, "/" + text) :: NamesEntity(text, name, keys))
            && (r.invalidKey <==> !fixed && exists text | IsUnder(base, path, "/" + text) :: IsBroken(text))
  {
    hide ParseEntity, NamesEntity, IsBroken, IsUnder, BelowBase;
    assert |"/health"| == 7 && |"/$metadata"| == 10 && |"/"| == 1;
    SlashBelow(base);
    forall below ensures IsUnder(base, path, below) <==> BelowBase(base, path) == Some(below) {
      UnderExact(base, path, below);
    }
    var below := BelowBase(base, path);
    if below.Some? && below.value != "" && below.value[0] == '/' {
      EntityExact(below.value[1..], name, keys);
      assert below.value == "/" + below.value[1..];
    }
    forall text ensures ("/" + text)[1..] == text {
    }
  }

  lemma SlashBelow(base: string)
    ensures BelowBase(base, "/") in {None, Some("/")}
  {
    hide ToLower;
  }
}
