/** Query options as a client writes them, and the round trip through the option loop and the raw query string. */
module OptionPrinter {
  import opened Text
  import opened Decimal
  import opened FilterParser
  import opened FilterPrinter
  import opened Url
  import opened SqlCompiler
  import opened Options
  import opened OptionWriting

  /** A name in a list: not empty, no comma, no white space around it; in an order term no space inside it. */
  predicate IsListName(name: string) {
    && name != "" && !IsSpace(name[0]) && !IsSpace(name[|name| - 1])
    && forall i | 0 <= i < |name| :: name[i] != ','
  }

  predicate IsOrderName(name: string) {
    IsListName(name) && forall i | 0 <= i < |name| :: name[i] != ' '
  }

  ghost predicate Writable(q: ODataQuery) {
    && (forall i | 0 <= i < |q.select| :: IsListName(q.select[i]))
    && (q.filter.Some? ==> Printable(q.filter.value))
    && (forall i | 0 <= i < |q.orderBy| :: IsOrderName(q.orderBy[i].property))
    && -1 <= q.top <= INT64_MAX && -1 <= q.skip <= INT64_MAX
  }

  function OrderSpelling(t: OrderByTerm): string {
    t.property + if t.descending then " desc" else ""
  }

  function OrderSpellings(ts: seq<OrderByTerm>): seq<string> {
    seq(|ts|, i requires 0 <= i < |ts| => OrderSpelling(ts[i]))
  }

  /** An option only when it says something. */
  function OptionIf(present: bool, name: string, value: string): seq<(string, string)> {
    if present then [(name, value)] else []
  }

  function BoundPairs(q: ODataQuery): seq<(string, string)> {
    OptionIf(q.top >= 0, "$top", Show(q.top)) +
    (OptionIf(q.skip >= 0, "$skip", Show(q.skip)) +
     OptionIf(q.count, "$count", "true"))
  }

  function OptionPairs(q: ODataQuery): seq<(string, string)>
    requires Writable(q)
  {
    OptionIf(q.select != [], "$select", Join(q.select, ",")) +
    (OptionIf(q.filter.Some?, "$filter", if q.filter.Some? then Print(q.filter.value) else "") +
     (OptionIf(q.orderBy != [], "$orderby", Join(OrderSpellings(q.orderBy), ",")) + BoundPairs(q)))
  }

  // ----- lists

  lemma {:induction false} TrimmedStay(ps: seq<string>)
    requires forall i | 0 <= i < |ps| :: IsListName(ps[i])
    ensures TrimmedPieces(ps) == ps
  {
    if ps != [] {
      TrimKeeps(IsSpace, ps[0]);
      TrimmedStay(ps[1..]);
      assert [ps[0]] + ps[1..] == ps;
    }
  }

  lemma SelectRoundTrip(names: seq<string>)
    requires names != [] && forall i | 0 <= i < |names| :: IsListName(names[i])
    ensures ParseSelect(Join(names, ",")) == names
  {
    hide Join, Pieces, TrimmedPieces;
    PiecesOfJoin(names);
    TrimmedStay(names);
  }

  lemma OrderTermRoundTrip(t: OrderByTerm)
    requires IsOrderName(t.property)
    ensures OrderTerm(OrderSpelling(t)) == Ok(t) && OrderSpelling(t) != "" && ',' !in OrderSpelling(t)
  {
    hide Span, TrimWith, ToLower;
    var s, n := OrderSpelling(t), |t.property|;
    assert s[0] == t.property[0];
    assert s[|s| - 1] == if t.descending then 'c' else t.property[n - 1];
    TrimKeeps(IsSpace, s);
    assert t.descending ==> s[n] == ' ';
    SpanIs(NotBlank, s, n);
    assert s[..n] == t.property && (!t.descending ==> s == t.property);
    if t.descending {
      assert s[n + 1..] == "desc";
      TrimKeeps(IsSpace, "desc");
      LowerWord("desc");
      DescIsNotAsc();
    }
  }

  lemma LowerWord(w: string)
    requires forall i | 0 <= i < |w| :: !('A' <= w[i] <= 'Z')
    ensures ToLower(w) == w
  {
  }

  lemma DescIsNotAsc()
    ensures "desc" != "asc"
  {
    assert |"desc"| == 4;
  }

  lemma {:induction false} OrderTermsRoundTrip(ts: seq<OrderByTerm>)
    requires forall i | 0 <= i < |ts| :: IsOrderName(ts[i].property)
    ensures OrderTerms(OrderSpellings(ts)) == Ok(ts)
  {
    hide OrderTerm, OrderSpelling, IsOrderName;
    if ts != [] {
      OrderTermRoundTrip(ts[0]);
      OrderTermsRoundTrip(ts[1..]);
      assert OrderSpellings(ts)[1..] == OrderSpellings(ts[1..]);
      assert [ts[0]] + ts[1..] == ts;
    }
  }

  lemma OrderByRoundTrip(ts: seq<OrderByTerm>)
    requires ts != [] && forall i | 0 <= i < |ts| :: IsOrderName(ts[i].property)
    ensures ParseOrderBy(Join(OrderSpellings(ts), ",")) == Ok(ts)
  {
    hide Pieces, OrderTerms, OrderSpelling, IsOrderName;
    forall i | 0 <= i < |ts| ensures ',' !in OrderSpellings(ts)[i] {
      OrderTermRoundTrip(ts[i]);
    }
    OrderTermRoundTrip(ts[0]);
    PiecesOfJoin(OrderSpellings(ts));
    OrderTermsRoundTrip(ts);
    assert Join(OrderSpellings(ts), ",") != "";
  }

  // ----- the option loop

  lemma ApplyMore(q: ODataQuery, first: seq<(string, string)>, r: ODataQuery, rest: seq<(string, string)>, maxDepth: int)
    requires |first| <= 1
    requires if first == [] then r == q else ApplyOption(q, first[0].0, first[0].1, maxDepth) == Ok(r)
    ensures ApplyOptions(q, first + rest, maxDepth) == ApplyOptions(r, rest, maxDepth)
  {
    hide ApplyOption;
    if first == [] {
      assert first + rest == rest;
    } else {
      assert (first + rest)[1..] == rest;
    }
  }

  lemma OptionNames()
    ensures "$filter" != "$select" && "$orderby" !in {"$select", "$filter"}
    ensures "$top" !in {"$select", "$filter", "$orderby"} && "$skip" !in {"$select", "$filter", "$orderby", "$top"}
    ensures "$count" !in {"$select", "$filter", "$orderby", "$top", "$skip", "$skiptoken"}
  {
    assert |"$select"| == |"$filter"| == 7 && "$select"[1] == 's' && "$filter"[1] == 'f';
    assert |"$orderby"| == 8 && |"$top"| == 4 && |"$skip"| == 5 && |"$count"| == 6 && |"$skiptoken"| == 10;
  }

  lemma ApplySelect(q: ODataQuery, names: seq<string>, maxDepth: int)
    requires names != [] && forall i | 0 <= i < |names| :: IsListName(names[i])
    ensures ApplyOption(q, "$select", Join(names, ","), maxDepth) == Ok(q.(select := names))
  {
    hide Join, ParseSelect;
    SelectRoundTrip(names);
  }

  lemma ApplyFilter(q: ODataQuery, text: string, maxDepth: int)
    requires WithinDepth(text, maxDepth) && FilterExpr(text).Ok?
    ensures ApplyOption(q, "$filter", text, maxDepth) == Ok(q.(filter := Some(FilterExpr(text).value)))
  {
    hide FilterExpr, WithinDepth;
    OptionNames();
  }

  lemma ApplyOrderBy(q: ODataQuery, ts: seq<OrderByTerm>, maxDepth: int)
    requires ts != [] && forall i | 0 <= i < |ts| :: IsOrderName(ts[i].property)
    ensures ApplyOption(q, "$orderby", Join(OrderSpellings(ts), ","), maxDepth) == Ok(q.(orderBy := ts))
  {
    hide Join, ParseOrderBy;
    OptionNames();
    OrderByRoundTrip(ts);
  }

  lemma ApplyNumber(q: ODataQuery, n: nat, maxDepth: int)
    requires n <= INT64_MAX
    ensures ApplyOption(q, "$top", Show(n), maxDepth) == Ok(q.(top := n))
    ensures ApplyOption(q, "$skip", Show(n), maxDepth) == Ok(q.(skip := n))
  {
    hide NonNegativeInt, Show;
    OptionNames();
    NonNegativeIntOfShow(n);
  }

  lemma ApplyCount(q: ODataQuery, maxDepth: int)
    ensures ApplyOption(q, "$count", "true", maxDepth) == Ok(q.(count := true))
  {
    OptionNames();
    LowerWord("true");
  }

  predicate AllKnown(pairs: seq<(string, string)>) {
    forall i | 0 <= i < |pairs| :: KnownOption(pairs[i].0)
  }

  lemma KnownMore(present: bool, name: string, value: string, rest: seq<(string, string)>)
    requires IsSystemOption(name) && AllKnown(rest)
    ensures AllKnown(OptionIf(present, name, value) + rest)
  {
  }

  lemma OptionsKnown(q: ODataQuery)
    requires Writable(q)
    ensures AllKnown(OptionPairs(q))
  {
    hide Join, Print, OrderSpellings, Show, AllKnown, OptionIf;
    var count := OptionIf(q.count, "$count", "true");
    var skip := OptionIf(q.skip >= 0, "$skip", Show(q.skip)) + count;
    var orderBy := OptionIf(q.orderBy != [], "$orderby", Join(OrderSpellings(q.orderBy), ",")) + BoundPairs(q);
    assert AllKnown([]) by { NoneUnknown(); }
    KnownMore(q.count, "$count", "true", []);
    assert count + [] == count;
    KnownMore(q.skip >= 0, "$skip", Show(q.skip), count);
    KnownMore(q.top >= 0, "$top", Show(q.top), skip);
    KnownMore(q.orderBy != [], "$orderby", Join(OrderSpellings(q.orderBy), ","), BoundPairs(q));
    var filter := if q.filter.Some? then Print(q.filter.value) else "";
    KnownMore(q.filter.Some?, "$filter", filter, orderBy);
    KnownMore(q.select != [], "$select", Join(q.select, ","), OptionIf(q.filter.Some?, "$filter", filter) + orderBy);
  }

  lemma NoneUnknown()
    ensures AllKnown([])
  {
  }

  lemma BoundsRoundTrip(r: ODataQuery, q: ODataQuery, maxDepth: int)
    requires -1 <= q.top <= INT64_MAX && -1 <= q.skip <= INT64_MAX && r.top == -1 && r.skip == -1 && !r.count
    ensures ApplyOptions(r, BoundPairs(q), maxDepth) == Ok(r.(top := q.top, skip := q.skip, count := q.count))
  {
    hide ApplyOption, Show;
    var r1 := r.(top := q.top);
    var r2 := r1.(skip := q.skip);
    var count := OptionIf(q.count, "$count", "true");
    var skip := OptionIf(q.skip >= 0, "$skip", Show(q.skip));
    if q.top >= 0 {
      ApplyNumber(r, q.top, maxDepth);
    }
    ApplyMore(r, OptionIf(q.top >= 0, "$top", Show(q.top)), r1, skip + count, maxDepth);
    if q.skip >= 0 {
      ApplyNumber(r1, q.skip, maxDepth);
    }
    ApplyMore(r1, skip, r2, count, maxDepth);
    ApplyCount(r2, maxDepth);
    ApplyMore(r2, count, r2.(count := q.count), [], maxDepth);
    assert count + [] == count;
  }

  /** Option round trip: what a client writes for a query is read as exactly that query, when the nesting guard lets
      its filter through. */
  lemma OptionsRoundTrip(q: ODataQuery, maxDepth: int)
    requires Writable(q) && (q.filter.Some? ==> WithinDepth(Print(q.filter.value), maxDepth))
    ensures ReadOptions(OptionPairs(q), maxDepth) == Ok(q)
  {
    hide ApplyOption, ApplyOptions, Join, OrderSpellings, Print, Show, FilterExpr, WithinDepth, IsListName, IsOrderName, Printable, KnownOption, BoundPairs;
    OptionsKnown(q);
    var q1 := NO_OPTIONS.(select := q.select);
    var q2 := q1.(filter := q.filter);
    var q3 := q2.(orderBy := q.orderBy);
    var text := if q.filter.Some? then Print(q.filter.value) else "";
    var filter, orderBy := OptionIf(q.filter.Some?, "$filter", text), OptionIf(q.orderBy != [], "$orderby", Join(OrderSpellings(q.orderBy), ","));
    if q.select != [] {
      ApplySelect(NO_OPTIONS, q.select, maxDepth);
    }
    ApplyMore(NO_OPTIONS, OptionIf(q.select != [], "$select", Join(q.select, ",")), q1, filter + (orderBy + BoundPairs(q)), maxDepth);
    if q.filter.Some? {
      PrintThenParse(q.filter.value);
      ApplyFilter(q1, text, maxDepth);
    }
    ApplyMore(q1, filter, q2, orderBy + BoundPairs(q), maxDepth);
    if q.orderBy != [] {
      ApplyOrderBy(q2, q.orderBy, maxDepth);
    }
    ApplyMore(q2, orderBy, q3, BoundPairs(q), maxDepth);
    BoundsRoundTrip(q3, q, maxDepth);
  }

  /** The same from the raw query string: percent-encode every name and value, join them, and the server reads the
      query that was meant. */
  lemma RawQueryRoundTrip(q: ODataQuery, maxDepth: int)
    requires Writable(q) && (q.filter.Some? ==> WithinDepth(Print(q.filter.value), maxDepth))
    requires BytePairs(OptionPairs(q))
    ensures ReadOptions(ParseQuery(FormatQuery(OptionPairs(q))), maxDepth) == Ok(q)
  {
    hide OptionPairs, ReadOptions, ParseQuery, FormatQuery, Writable;
    ParseFormattedQuery(OptionPairs(q));
    OptionsRoundTrip(q, maxDepth);
  }
}
