/** Query options: the option loop of HandleODataRequest (src/server/odata_server.cpp) and the option parsers
    (src/parser/odata_parser.cpp). */
module Options {
  import opened Text
  import opened Decimal
  import opened FilterParser
  import opened Url
  import opened SqlCompiler

  // ----- the nesting guard of $filter

  /** FilterWithinDepth: a scan of the raw characters. A quote toggles unless the next character is one too. */
  function DepthFrom(s: string, quoted: bool, depth: nat, max: nat): bool
    decreases |s|
  {
    if s == "" then true
    else if s[0] == '\'' && (|s| == 1 || s[1] != '\'') then DepthFrom(s[1..], !quoted, depth, max)
    else if !quoted && s[0] == '(' then depth + 1 <= max && DepthFrom(s[1..], quoted, depth + 1, max)
    else if !quoted && s[0] == ')' && depth > 0 then DepthFrom(s[1..], quoted, depth - 1, max)
    else DepthFrom(s[1..], quoted, depth, max)
  }

  predicate WithinDepth(filter: string, max: int) {
    max < 0 || DepthFrom(filter, false, 0, max)
  }

  method FilterWithinDepth(filter: string, max: int) returns (ok: bool)
    ensures ok == WithinDepth(filter, max)
  {
    if max < 0 {
      return true;
    }
    var depth, quote := 0, false;
    assert filter[0..] == filter;
    for i := 0 to |filter|
      invariant depth >= 0
      invariant DepthFrom(filter, false, 0, max) == DepthFrom(filter[i..], quote, depth, max)
    {
      ghost var s := filter[i..];
      assert s[1..] == filter[i + 1..] && (i + 1 < |filter| ==> s[1] == filter[i + 1]);
      if filter[i] == '\'' && (i + 1 >= |filter| || filter[i + 1] != '\'') {
        quote := !quote;
      } else if !quote && filter[i] == '(' {
        depth := depth + 1;
        if depth > max {
          return false;
        }
      } else if !quote && filter[i] == ')' && depth > 0 {
        depth := depth - 1;
      }
    }
    return true;
  }

  // ----- option values

  /** std::stoll with every character consumed, then the sign test: white space and a sign may lead. */
  function NonNegativeInt(value: string): Result<nat> {
    var start := Span(IsSpace, value);
    var s := value[start..];
    var signed := s != "" && (s[0] == '+' || s[0] == '-');
    var digits := if signed then s[1..] else s;
    if digits == "" || !AllDigits(digits) then Err(Syntax)
    else if signed && s[0] == '-' && ValueOf(digits) > 0 then Err(Syntax)
    else if ValueOf(digits) > INT64_MAX then Err(Syntax)
    else Ok(ValueOf(digits))
  }

  lemma NonNegativeIntOfShow(n: nat)
    requires n <= INT64_MAX
    ensures NonNegativeInt(Show(n)) == Ok(n)
  {
    var d := Digits(n);
    SpanIs(IsSpace, d, 0);
    assert d[0..] == d && IsDigit(d[0]);
    ValueOfDigits(n);
  }

  function BooleanOption(value: string): Result<bool> {
    var lower := ToLower(value);
    if lower == "true" || lower == "1" then Ok(true)
    else if lower == "false" || lower == "0" then Ok(false)
    else Err(Syntax)
  }

  predicate NotComma(c: char) {
    c != ','
  }

  /** The pieces between commas: always at least one. */
  function Pieces(s: string): (r: seq<string>)
    ensures r != []
    decreases |s|
  {
    var n := Span(NotComma, s);
    if n == |s| then [s] else [s[..n]] + Pieces(s[n + 1..])
  }

  function TrimmedPieces(ps: seq<string>): seq<string> {
    if ps == [] then []
    else (if Trim(ps[0]) == "" then [] else [Trim(ps[0])]) + TrimmedPieces(ps[1..])
  }

  function ParseSelect(value: string): seq<string> {
    TrimmedPieces(Pieces(value))
  }

  predicate NotBlank(c: char) {
    c != ' '
  }

  function OrderTerm(piece: string): Result<OrderByTerm> {
    var term := Trim(piece);
    var n := Span(NotBlank, term);
    if term == "" then Err(Syntax)
    else if n == |term| then Ok(OrderByTerm(term, false))
    else
      var dir := ToLower(Trim(term[n + 1..]));
      if dir == "asc" then Ok(OrderByTerm(term[..n], false))
      else if dir == "desc" then Ok(OrderByTerm(term[..n], true))
      else Err(Syntax)
  }

  function OrderTerms(ps: seq<string>): Result<seq<OrderByTerm>> {
    if ps == [] then Ok([])
    else
      match OrderTerm(ps[0])
      case Err(x) => Err(x)
      case Ok(t) =>
        match OrderTerms(ps[1..])
        case Err(x) => Err(x)
        case Ok(ts) => Ok([t] + ts)
  }

  function ParseOrderBy(value: string): Result<seq<OrderByTerm>> {
    if value == "" then Ok([]) else OrderTerms(Pieces(value))
  }

  lemma PiecesStep(s: string, start: nat, comma: nat)
    requires start <= comma <= |s| && (comma < |s| ==> s[comma] == ',') && forall k | start <= k < comma :: s[k] != ','
    ensures Pieces(s[start..]) == [s[start..comma]] + (if comma == |s| then [] else Pieces(s[comma + 1..]))
  {
    hide Span;
    var rest := s[start..];
    SpanToFind(NotComma, ',', s, start, comma);
    assert rest[..comma - start] == s[start..comma];
    if comma < |s| {
      assert rest[comma - start + 1..] == s[comma + 1..];
    } else {
      assert rest == s[start..comma] && [rest] + [] == [rest];
    }
  }

  method SplitCommas(s: string) returns (parts: seq<string>)
    ensures parts == Pieces(s)
  {
    hide Pieces;
    parts := [];
    var start := 0;
    assert s[0..] == s && [] + Pieces(s) == Pieces(s);
    while true
      invariant start <= |s|
      invariant Pieces(s) == parts + Pieces(s[start..])
      decreases |s| - start
    {
      var comma := FindFrom(',', s, start);
      PiecesStep(s, start, comma);
      ghost var before, rest := parts, if comma == |s| then [] else Pieces(s[comma + 1..]);
      parts := parts + [s[start..comma]];
      assert before + ([s[start..comma]] + rest) == parts + rest;
      if comma == |s| {
        assert parts + [] == parts;
        return;
      }
      start := comma + 1;
    }
  }

  lemma TrimmedPiecesStep(result: seq<string>, parts: seq<string>, i: nat)
    requires i < |parts|
    ensures result + TrimmedPieces(parts[i..]) ==
            (if Trim(parts[i]) == "" then result else result + [Trim(parts[i])]) + TrimmedPieces(parts[i + 1..])
  {
    hide Trim;
    assert parts[i..][1..] == parts[i + 1..];
  }

  method ReadSelectOption(value: string) returns (result: seq<string>)
    ensures result == ParseSelect(value)
  {
    hide TrimmedPieces, Pieces, TrimWith;
    var parts := SplitCommas(value);
    result := [];
    assert parts[0..] == parts && [] + TrimmedPieces(parts) == TrimmedPieces(parts);
    for i := 0 to |parts|
      invariant TrimmedPieces(parts) == result + TrimmedPieces(parts[i..])
    {
      TrimmedPiecesStep(result, parts, i);
      var trimmed := TrimText(IsSpace, parts[i]);
      if trimmed != "" {
        result := result + [trimmed];
      }
    }
    NoPieces();
    assert parts[|parts|..] == [];
  }

  lemma NoPieces()
    ensures TrimmedPieces([]) == []
  {
  }

  method ReadOrderByOption(value: string) returns (r: Result<seq<OrderByTerm>>)
    ensures r == ParseOrderBy(value)
  {
    hide OrderTerm, Pieces;
    if value == "" {
      return Ok([]);
    }
    var parts := SplitCommas(value);
    var result: seq<OrderByTerm> := [];
    assert parts[0..] == parts;
    assert forall ts: seq<OrderByTerm> :: result + ts == ts;
    for i := 0 to |parts|
      invariant OrderTerms(parts) ==
        match OrderTerms(parts[i..]) case Err(x) => Err(x) case Ok(ts) => Ok(result + ts)
    {
      assert parts[i..][1..] == parts[i + 1..];
      var term := OrderTerm(parts[i]);
      if term.Err? {
        return Err(term.error);
      }
      assert forall ts: seq<OrderByTerm> :: result + ([term.value] + ts) == result + [term.value] + ts;
      result := result + [term.value];
    }
    assert result + [] == result;
    return Ok(result);
  }

  // ----- the option loop

  predicate IsSystemOption(name: string) {
    name in {"$select", "$filter", "$orderby", "$top", "$skip", "$count", "$format", "$skiptoken"}
  }

  predicate KnownOption(name: string) {
    name == "" || name[0] != '$' || IsSystemOption(name)
  }

  const NO_OPTIONS: ODataQuery := ODataQuery([], None, [], -1, -1, false)

  /** One pair of the query string applied to the options read so far. */
  function ApplyOption(q: ODataQuery, name: string, value: string, maxDepth: int): Result<ODataQuery> {
    if name == "$select" then Ok(q.(select := ParseSelect(value)))
    else if name == "$filter" then
      if !WithinDepth(value, maxDepth) then Err(Syntax)
      else
        match FilterExpr(value)
        case Err(x) => Err(x)
        case Ok(e) => Ok(q.(filter := Some(e)))
    else if name == "$orderby" then
      match ParseOrderBy(value)
      case Err(x) => Err(x)
      case Ok(ts) => Ok(q.(orderBy := ts))
    else if name == "$top" then
      match NonNegativeInt(value)
      case Err(x) => Err(x)
      case Ok(n) => Ok(q.(top := n))
    else if name == "$skip" || name == "$skiptoken" then
      match NonNegativeInt(value)
      case Err(x) => Err(x)
      case Ok(n) => Ok(q.(skip := n))
    else if name == "$count" then
      match BooleanOption(value)
      case Err(x) => Err(x)
      case Ok(b) => Ok(q.(count := b))
    else Ok(q)
  }

  /** All pairs, in order: a repeated option overrides. */
  function ApplyOptions(q: ODataQuery, pairs: seq<(string, string)>, maxDepth: int): Result<ODataQuery>
    decreases |pairs|
  {
    if pairs == [] then Ok(q)
    else
      match ApplyOption(q, pairs[0].0, pairs[0].1, maxDepth)
      case Err(x) => Err(x)
      case Ok(q') => ApplyOptions(q', pairs[1..], maxDepth)
  }

  function ReadOptions(pairs: seq<(string, string)>, maxDepth: int): Result<ODataQuery> {
    if exists i | 0 <= i < |pairs| :: !KnownOption(pairs[i].0) then Err(Semantic)
    else ApplyOptions(NO_OPTIONS, pairs, maxDepth)
  }

  method ReadQueryOptions(pairs: seq<(string, string)>, maxDepth: int) returns (r: Result<ODataQuery>)
    ensures r == ReadOptions(pairs, maxDepth)
  {
    hide ApplyOption, KnownOption;
    for i := 0 to |pairs|
      invariant forall k | 0 <= k < i :: KnownOption(pairs[k].0)
    {
      if !KnownOption(pairs[i].0) {
        return Err(Semantic);
      }
    }
    var q := NO_OPTIONS;
    assert pairs[0..] == pairs;
    for i := 0 to |pairs|
      invariant ApplyOptions(NO_OPTIONS, pairs, maxDepth) == ApplyOptions(q, pairs[i..], maxDepth)
    {
      assert pairs[i..][1..] == pairs[i + 1..];
      var next := ApplyOption(q, pairs[i].0, pairs[i].1, maxDepth);
      if next.Err? {
        return next;
      }
      q := next.value;
    }
    return Ok(q);
  }

  lemma {:induction false} ApplyOptionsSnoc(q: ODataQuery, pairs: seq<(string, string)>, last: (string, string), maxDepth: int)
    ensures ApplyOptions(q, pairs + [last], maxDepth) ==
            match ApplyOptions(q, pairs, maxDepth)
            case Err(x) => Err(x)
            case Ok(q') => ApplyOption(q', last.0, last.1, maxDepth)
    decreases |pairs|
  {
    hide ApplyOption;
    if pairs == [] {
      assert (pairs + [last])[1..] == [];
    } else {
      assert (pairs + [last])[1..] == pairs[1..] + [last];
      var next := ApplyOption(q, pairs[0].0, pairs[0].1, maxDepth);
      if next.Ok? {
        ApplyOptionsSnoc(next.value, pairs[1..], last, maxDepth);
      }
    }
  }

  /** An appended $skip changes the skip and nothing else: it wins over every earlier $skip and $skiptoken. */
  lemma AppendedSkipWins(pairs: seq<(string, string)>, n: nat, maxDepth: int)
    requires n <= INT64_MAX && ReadOptions(pairs, maxDepth).Ok?
    ensures ReadOptions(pairs + [("$skip", Show(n))], maxDepth) == Ok(ReadOptions(pairs, maxDepth).value.(skip := n))
  {
    var all := pairs + [("$skip", Show(n))];
    ApplyOptionsSnoc(NO_OPTIONS, pairs, ("$skip", Show(n)), maxDepth);
    NonNegativeIntOfShow(n);
    SkipIsSkip();
    assert forall i | 0 <= i < |pairs| :: all[i] == pairs[i];
  }

  lemma SkipIsSkip()
    ensures "$skip" != "$select" && "$skip" != "$filter" && "$skip" != "$orderby" && "$skip" != "$top"
  {
    assert "$skip"[2] == 'k' && |"$skip"| == 5;
  }
}
