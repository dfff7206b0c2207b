/** The query options a client may write and what they ask for, apart from the option parsers, which are then shown to
    accept exactly these. */
module OptionWriting {
  import opened Text
  import opened Decimal
  import opened FilterParser
  import opened FilterWriting
  import opened SqlCompiler
  import opened Options

  // ----- values

  predicate AllOf(p: char -> bool, s: string) {
    forall i | 0 <= i < |s| :: p(s[i])
  }

  predicate AllSpace(s: string) {
    AllOf(IsSpace, s)
  }

  /** `core` with blanks of the given kind around it; blanks at the edges of `core` itself are not allowed. */
  ghost predicate PaddedBy(p: char -> bool, piece: string, core: string) {
    && (core != "" ==> !p(core[0]) && !p(core[|core| - 1]))
    && exists a, b | AllOf(p, a) && AllOf(p, b) :: piece == a + core + b
  }

  ghost predicate Padded(piece: string, core: string) {
    PaddedBy(IsSpace, piece, core)
  }

  /** The parts of a list between commas. */
  predicate IsList(value: string, parts: seq<string>) {
    parts != [] && Join(parts, ",") == value && forall i | 0 <= i < |parts| :: ',' !in parts[i]
  }

  /** Names with white space around them; blank parts are passed over. */
  ghost predicate NamesOf(parts: seq<string>, names: seq<string>) {
    if parts == [] then names == []
    else if Padded(parts[0], "") then NamesOf(parts[1..], names)
    else names != [] && Padded(parts[0], names[0]) && NamesOf(parts[1..], names[1..])
  }

  ghost predicate WritesNames(value: string, names: seq<string>) {
    exists parts | IsList(value, parts) :: NamesOf(parts, names)
  }

  /** `asc` or `desc` in any case. */
  ghost predicate DirectionSays(tail: string, descending: bool) {
    exists dir | Padded(tail, dir) :: IsCasing(dir, if descending then "desc" else "asc")
  }

  /** A property, alone or followed by a space and a direction. */
  ghost predicate TermSays(term: string, t: OrderByTerm) {
    && term != "" && ' ' !in t.property
    && ((term == t.property && !t.descending)
        || exists tail | DirectionSays(tail, t.descending) :: term == t.property + " " + tail)
  }

  ghost predicate WritesTerm(part: string, t: OrderByTerm) {
    exists term | Padded(part, term) :: TermSays(term, t)
  }

  ghost predicate WritesOrder(value: string, ts: seq<OrderByTerm>) {
    if value == "" then ts == []
    else exists parts | IsList(value, parts) :: |parts| == |ts| && forall i | 0 <= i < |ts| :: WritesTerm(parts[i], ts[i])
  }

  predicate IsNumberText(value: string, a: string, sign: string, digits: string, n: int) {
    && value == a + sign + digits && AllSpace(a) && AllDigits(digits) && digits != ""
    && ValueOf(digits) == n && (sign == "" || sign == "+" || (sign == "-" && n == 0))
  }

  /** White space, a sign, digits: at most 2^63 - 1, and a minus for zero only. */
  ghost predicate WritesNumber(value: string, n: int) {
    n <= INT64_MAX && exists a, sign, digits :: IsNumberText(value, a, sign, digits, n)
  }

  predicate WritesBoolean(value: string, b: bool) {
    if b then IsCasing(value, "true") || value == "1" else IsCasing(value, "false") || value == "0"
  }

  // ----- options

  /** A pair turns the query `q`, as asked for so far, into `r`. */
  ghost predicate OptionSays(q: ODataQuery, name: string, value: string, r: ODataQuery, maxDepth: int) {
    if name == "$select" then r == q.(select := r.select) && WritesNames(value, r.select)
    else if name == "$filter" then
      r.filter.Some? && r == q.(filter := r.filter) && Writes(value, r.filter.value) && WithinDepth(value, maxDepth)
    else if name == "$orderby" then r == q.(orderBy := r.orderBy) && WritesOrder(value, r.orderBy)
    else if name == "$top" then r == q.(top := r.top) && WritesNumber(value, r.top)
    else if name == "$skip" || name == "$skiptoken" then r == q.(skip := r.skip) && WritesNumber(value, r.skip)
    else if name == "$count" then r == q.(count := r.count) && WritesBoolean(value, r.count)
    else r == q && (name != "" && name[0] == '$' ==> name == "$format")
  }

  /** The pairs in order, a later one overriding an earlier one of its kind. */
  ghost predicate OptionsSay(q: ODataQuery, pairs: seq<(string, string)>, r: ODataQuery, maxDepth: int)
    decreases |pairs|
  {
    if pairs == [] then r == q
    else exists m | OptionSays(q, pairs[0].0, pairs[0].1, m, maxDepth) :: OptionsSay(m, pairs[1..], r, maxDepth)
  }

  // ----- trimming and lists

  lemma TrimExact(piece: string, core: string)
    ensures Trim(piece) == core <==> Padded(piece, core)
  {
    TrimByExact(IsSpace, piece, core);
  }

  lemma TrimByExact(p: char -> bool, piece: string, core: string)
    ensures TrimWith(p, piece) == core <==> PaddedBy(p, piece, core)
  {
    TrimPads(p, piece);
    if PaddedBy(p, piece, core) {
      var a, b :| AllOf(p, a) && AllOf(p, b) && piece == a + core + b;
      PaddingTrims(p, a, core, b);
    }
  }

  lemma Grouped(a: string, b: string, c: string)
    ensures a + (b + c) == a + b + c
  {
  }

  lemma SpanSplits(p: char -> bool, s: string) returns (head: string, rest: string)
    ensures s == head + rest && AllOf(p, head) && (rest == "" || !p(rest[0]))
    ensures |head| == Span(p, s) && head == s[..|head|] && rest == s[|head|..]
  {
    head, rest := s[..Span(p, s)], s[Span(p, s)..];
  }

  lemma EndSplits(p: char -> bool, s: string) returns (b: string)
    ensures s == TrimEnd(p, s) + b && AllOf(p, b)
  {
    b := s[|TrimEnd(p, s)|..];
  }

  lemma TrimPads(p: char -> bool, piece: string)
    ensures PaddedBy(p, piece, TrimWith(p, piece))
  {
    var a, rest := SpanSplits(p, piece);
    var b := EndSplits(p, rest);
    var core := TrimEnd(p, rest);
    assert core == TrimWith(p, piece) && (core != "" ==> core[0] == rest[0] && !p(core[|core| - 1]));
    hide Span, TrimEnd, TrimWith, AllOf;
    Grouped(a, core, b);
  }

  lemma PaddingTrims(p: char -> bool, a: string, core: string, b: string)
    requires AllOf(p, a) && AllOf(p, b) && (core != "" ==> !p(core[0]) && !p(core[|core| - 1]))
    ensures TrimWith(p, a + core + b) == core
  {
    var s := a + core + b;
    if core == "" {
      SpanIs(p, s, |s|);
    } else {
      SpanIs(p, s, |a|);
      assert s[|a|..] == core + b;
      EndTrims(p, core, b);
    }
  }

  lemma {:induction false} EndTrims(p: char -> bool, core: string, b: string)
    requires AllOf(p, b) && core != "" && !p(core[|core| - 1])
    ensures TrimEnd(p, core + b) == core
  {
    var s := core + b;
    if b == "" {
      assert s == core;
    } else {
      assert s[..|s| - 1] == core + b[..|b| - 1];
      EndTrims(p, core, b[..|b| - 1]);
    }
  }

  lemma {:induction false} PiecesOfJoin(ps: seq<string>)
    requires ps != [] && forall i | 0 <= i < |ps| :: ',' !in ps[i]
    ensures Pieces(Join(ps, ",")) == ps
  {
    var s := Join(ps, ",");
    SpanIs(NotComma, s, |ps[0]|);
    assert s[..|ps[0]|] == ps[0];
    if |ps| == 1 {
      assert [s] == ps;
    } else {
      PiecesOfJoin(ps[1..]);
      assert s[|ps[0]| + 1..] == Join(ps[1..], ",");
      assert [ps[0]] + ps[1..] == ps;
    }
  }

  lemma {:induction false} PiecesAreList(s: string)
    ensures IsList(s, Pieces(s))
    decreases |s|
  {
    var n := Span(NotComma, s);
    if n < |s| {
      var rest := Pieces(s[n + 1..]);
      PiecesAreList(s[n + 1..]);
      assert Pieces(s)[1..] == rest;
      assert s == s[..n] + "," + s[n + 1..];
    }
  }

  lemma ListExact(value: string, parts: seq<string>)
    ensures IsList(value, parts) <==> Pieces(value) == parts
  {
    PiecesAreList(value);
    if IsList(value, parts) {
      PiecesOfJoin(parts);
    }
  }

  lemma {:induction false} NamesExact(parts: seq<string>, names: seq<string>)
    ensures NamesOf(parts, names) <==> TrimmedPieces(parts) == names
  {
    hide Padded, Trim;
    if parts != [] {
      var name := Trim(parts[0]);
      TrimExact(parts[0], "");
      if name == "" {
        NamesExact(parts[1..], names);
      } else if names != [] {
        TrimExact(parts[0], names[0]);
        NamesExact(parts[1..], names[1..]);
        assert names == [names[0]] + names[1..];
        assert TrimmedPieces(parts)[0] == name && TrimmedPieces(parts)[1..] == TrimmedPieces(parts[1..]);
      }
    }
  }

  lemma SelectExact(value: string, names: seq<string>)
    ensures WritesNames(value, names) <==> ParseSelect(value) == names
  {
    hide IsList, NamesOf, Pieces, TrimmedPieces;
    ListExact(value, Pieces(value));
    NamesExact(Pieces(value), names);
    if WritesNames(value, names) {
      var parts :| IsList(value, parts) && NamesOf(parts, names);
      ListExact(value, parts);
    }
  }

  // ----- the other values

  lemma BooleanExact(value: string, b: bool)
    ensures WritesBoolean(value, b) <==> BooleanOption(value) == Ok(b)
  {
    CasingIsLower(value, "true");
    CasingIsLower(value, "false");
    DigitIsLower(value, '0');
    DigitIsLower(value, '1');
    assert |"true"| == 4 && |"false"| == 5 && |"1"| == |"0"| == 1 && "1"[0] == '1';
    hide IsCasing, ToLower;
  }

  lemma DigitIsLower(value: string, c: char)
    requires IsDigit(c)
    ensures ToLower(value) == [c] <==> value == [c]
  {
    if ToLower(value) == [c] {
      assert LowerChar(value[0]) == c;
      assert value[0] == c;
    }
  }

  lemma NumberExact(value: string, n: int)
    ensures WritesNumber(value, n) <==> n >= 0 && NonNegativeInt(value) == Ok(n)
  {
    if WritesNumber(value, n) {
      var a, sign, digits :| IsNumberText(value, a, sign, digits, n);
      NumberReads(value, a, sign, digits, n);
    }
    if n >= 0 && NonNegativeInt(value) == Ok(n) {
      NumberWrites(value);
    }
  }

  lemma NumberReads(value: string, a: string, sign: string, digits: string, n: int)
    requires IsNumberText(value, a, sign, digits, n) && n <= INT64_MAX
    ensures NonNegativeInt(value) == Ok(n)
  {
    hide ValueOf;
    assert value[|a|] == (sign + digits)[0];
    assert IsDigit(digits[0]);
    SpanIs(IsSpace, value, |a|);
    assert value[|a|..] == sign + digits && (sign + digits)[|sign|..] == digits;
  }

  lemma NumberWrites(value: string)
    requires NonNegativeInt(value).Ok?
    ensures WritesNumber(value, NonNegativeInt(value).value)
  {
    hide Span, ValueOf;
    var start := Span(IsSpace, value);
    var a, s := value[..start], value[start..];
    assert AllSpace(a) && value == a + s;
    if s[0] == '+' || s[0] == '-' {
      NumberIsText(value, a, s, [s[0]], s[1..], NonNegativeInt(value).value);
    } else {
      NumberIsText(value, a, s, "", s, NonNegativeInt(value).value);
    }
  }

  lemma NumberIsText(value: string, a: string, s: string, sign: string, digits: string, n: int)
    requires value == a + s && s == sign + digits && AllSpace(a) && AllDigits(digits) && digits != ""
    requires ValueOf(digits) == n && n <= INT64_MAX && (sign == "" || sign == "+" || (sign == "-" && n == 0))
    ensures WritesNumber(value, n)
  {
    hide ValueOf, AllSpace;
    assert value == a + sign + digits;
    assert IsNumberText(value, a, sign, digits, n);
  }

  lemma DirectionExact(tail: string, descending: bool)
    ensures DirectionSays(tail, descending) <==> ToLower(Trim(tail)) == if descending then "desc" else "asc"
  {
    hide Padded, Trim;
    var word := if descending then "desc" else "asc";
    TrimExact(tail, Trim(tail));
    CasingIsLower(Trim(tail), word);
    if DirectionSays(tail, descending) {
      var dir :| Padded(tail, dir) && IsCasing(dir, word);
      TrimExact(tail, dir);
    }
  }

  /** What OrderTerm makes of a trimmed term. */
  predicate ReadsTerm(term: string, t: OrderByTerm) {
    var n := Span(NotBlank, term);
    && term != "" && t.property == term[..n]
    && (if n == |term| then !t.descending
        else ToLower(Trim(term[n + 1..])) == if t.descending then "desc" else "asc")
  }

  lemma OrderTermReads(part: string, t: OrderByTerm)
    ensures OrderTerm(part) == Ok(t) <==> ReadsTerm(Trim(part), t)
  {
    hide Trim, Span, ToLower;
    var term := Trim(part);
    assert term[..|term|] == term;
    assert |"desc"| == 4 && |"asc"| == 3;
  }

  lemma TermExact(term: string, t: OrderByTerm)
    ensures TermSays(term, t) <==> ReadsTerm(term, t)
  {
    hide DirectionSays, Trim, ToLower;
    var n := Span(NotBlank, term);
    if n < |term| {
      DirectionExact(term[n + 1..], t.descending);
      assert term == term[..n] + " " + term[n + 1..];
    } else {
      assert term[..n] == term;
    }
    if TermSays(term, t) {
      TermSplits(term, t);
    }
  }

  lemma TermSplits(term: string, t: OrderByTerm)
    requires TermSays(term, t)
    ensures ReadsTerm(term, t)
  {
    hide DirectionSays, Trim, ToLower;
    if term == t.property && !t.descending {
      SpanIs(NotBlank, term, |term|);
    } else {
      var tail :| DirectionSays(tail, t.descending) && term == t.property + " " + tail;
      DirectionExact(tail, t.descending);
      SpanIs(NotBlank, term, |t.property|);
      assert term[|t.property| + 1..] == tail && term[..|t.property|] == t.property;
    }
  }

  lemma OrderTermExact(part: string, t: OrderByTerm)
    ensures WritesTerm(part, t) <==> OrderTerm(part) == Ok(t)
  {
    hide Padded, TermSays, ReadsTerm, Trim;
    TrimExact(part, Trim(part));
    TermExact(Trim(part), t);
    OrderTermReads(part, t);
    if WritesTerm(part, t) {
      var term :| Padded(part, term) && TermSays(term, t);
      TrimExact(part, term);
    }
  }

  lemma {:induction false} TermsExact(parts: seq<string>, ts: seq<OrderByTerm>)
    ensures OrderTerms(parts) == Ok(ts) <==> |parts| == |ts| && forall i | 0 <= i < |ts| :: WritesTerm(parts[i], ts[i])
  {
    hide WritesTerm, OrderTerm;
    if parts != [] && ts != [] {
      OrderTermExact(parts[0], ts[0]);
      TermsExact(parts[1..], ts[1..]);
      assert ts == [ts[0]] + ts[1..];
      assert forall i | 1 <= i < |ts| && i < |parts| :: parts[i] == parts[1..][i - 1] && ts[i] == ts[1..][i - 1];
      assert forall i | 0 <= i < |ts| - 1 && i < |parts| - 1 :: parts[1..][i] == parts[i + 1] && ts[1..][i] == ts[i + 1];
    }
  }

  lemma OrderExact(value: string, ts: seq<OrderByTerm>)
    ensures WritesOrder(value, ts) <==> ParseOrderBy(value) == Ok(ts)
  {
    hide IsList, WritesTerm, Pieces, OrderTerms;
    ListExact(value, Pieces(value));
    TermsExact(Pieces(value), ts);
    if value != "" && WritesOrder(value, ts) {
      var parts :| IsList(value, parts) && |parts| == |ts| && forall i | 0 <= i < |ts| :: WritesTerm(parts[i], ts[i]);
      ListExact(value, parts);
    }
  }

  // ----- options

  lemma OptionExact(q: ODataQuery, name: string, value: string, r: ODataQuery, maxDepth: int)
    ensures OptionSays(q, name, value, r, maxDepth) <==> KnownOption(name) && ApplyOption(q, name, value, maxDepth) == Ok(r)
  {
    hide WritesNames, WritesOrder, WritesNumber, WritesBoolean, Writes, WithinDepth, ParseSelect, ParseOrderBy, NonNegativeInt,
         BooleanOption, FilterExpr;
    SelectExact(value, r.select);
    if r.filter.Some? {
      FilterExact(value, r.filter.value);
    }
    OrderExact(value, r.orderBy);
    NumberExact(value, r.top);
    NumberExact(value, r.skip);
    BooleanExact(value, r.count);
  }

  lemma {:induction false} OptionsApply(q: ODataQuery, pairs: seq<(string, string)>, r: ODataQuery, maxDepth: int)
    ensures OptionsSay(q, pairs, r, maxDepth) <==>
            (forall i | 0 <= i < |pairs| :: KnownOption(pairs[i].0)) && ApplyOptions(q, pairs, maxDepth) == Ok(r)
    decreases |pairs|
  {
    hide OptionSays, ApplyOption, KnownOption;
    if pairs != [] {
      var (name, value) := pairs[0];
      assert (forall i | 0 <= i < |pairs| :: KnownOption(pairs[i].0)) <==>
             KnownOption(name) && forall i | 0 <= i < |pairs[1..]| :: KnownOption(pairs[1..][i].0) by {
        assert forall i | 1 <= i < |pairs| :: pairs[i] == pairs[1..][i - 1];
      }
      forall m ensures OptionSays(q, name, value, m, maxDepth) <==> KnownOption(name) && ApplyOption(q, name, value, maxDepth) == Ok(m) {
        OptionExact(q, name, value, m, maxDepth);
      }
      if ApplyOption(q, name, value, maxDepth).Ok? {
        OptionsApply(ApplyOption(q, name, value, maxDepth).value, pairs[1..], r, maxDepth);
      }
    }
  }

  /** The options of a request are read as a query if and only if, one after the other, they ask for it. */
  lemma OptionsExact(pairs: seq<(string, string)>, q: ODataQuery, maxDepth: int)
    ensures ReadOptions(pairs, maxDepth) == Ok(q) <==> OptionsSay(ODataQuery([], None, [], -1, -1, false), pairs, q, maxDepth)
  {
    hide OptionsSay, ApplyOptions, KnownOption;
    OptionsApply(NO_OPTIONS, pairs, q, maxDepth);
  }
}
