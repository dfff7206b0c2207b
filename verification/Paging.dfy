/** Server-driven paging: the collection branch of HandleODataRequest and NextLink (src/server/odata_server.cpp). */
module Paging {
  import opened Text
  import opened Decimal
  import opened ExprCompiler
  import opened ExprMeaning
  import opened ExprSemantics
  import opened SqlCompiler
  import opened SqlStatement
  import opened StatementMeaning
  import opened Relational
  import opened ODataMeaning
  import opened ColumnPolicy
  import opened Url
  import opened Http
  import opened Options

  /** The limits a collection request is served under. Non-positive or negative values switch a limit off. */
  datatype Server = Server(pageSize: int, maxTop: int, maxDepth: int)

  /** Refused is a status 400 (500 for OutOfRange), Broken a status 500. */
  datatype Reply = Refused(error: Error) | Broken | Page(rows: seq<OutRow>, count: Option<nat>, next: Option<string>)

  function Skip(q: ODataQuery): nat {
    if q.skip < 0 then 0 else q.skip
  }

  function NextQuery(rawQuery: string, skip: nat): string {
    (if rawQuery == "" then "" else rawQuery + "&") + "$skip=" + Show(skip)
  }

  function NextLink(path: string, rawQuery: string, skip: nat): string {
    path + "?" + NextQuery(rawQuery, skip)
  }

  predicate IsPaged(server: Server, q: ODataQuery) {
    server.pageSize > 0 && q.top < 0
  }

  function Limited(server: Server, q: ODataQuery): ODataQuery {
    if IsPaged(server, q) then q.(top := server.pageSize) else q
  }

  function ServeQuery(w: World, s: Schema, server: Server, path: string, rawQuery: string, q: ODataQuery, db: Store): Reply {
    match (Collection(s, Limited(server, q), server.maxTop), Count(s, q))
    case (Err(x), _) => Refused(x)
    case (_, Err(x)) => Refused(x)
    case (Ok(text), Ok(countText)) =>
      var counted, answer := Run(w, countText, db), Run(w, text, db);
      if q.count && !counted.Counted? then Broken
      else if !answer.Rows? then Broken
      else if !IsPaged(server, q) || |answer.rows| != server.pageSize then
        Page(answer.rows, if q.count then Some(counted.n) else None, None)
      else if !counted.Counted? then Broken
      else
        var next := Skip(q) + |answer.rows|;
        Page(answer.rows, if q.count then Some(counted.n) else None,
             if counted.n > next then Some(NextLink(path, rawQuery, next)) else None)
  }

  /** A GET of the collection: the decoded path, the raw query and the database determine the reply. */
  function Serve(w: World, s: Schema, server: Server, path: string, rawQuery: string, db: Store): Reply {
    match ReadOptions(ParseQuery(rawQuery), server.maxDepth)
    case Err(x) => Refused(x)
    case Ok(q) => ServeQuery(w, s, server, path, rawQuery, q, db)
  }

  method HandleCollection(w: World, s: Schema, server: Server, path: string, rawQuery: string, db: Store)
    returns (reply: Reply)
    ensures reply == Serve(w, s, server, path, rawQuery, db)
  {
    hide Collection, Count, Run, ReadOptions, ParseQuery, NextLink;
    var pairs := ParseQueryString(rawQuery);
    var options := ReadQueryOptions(pairs, server.maxDepth);
    if options.Err? {
      return Refused(options.error);
    }
    var query, serverPaged := options.value, false;
    if server.pageSize > 0 && query.top < 0 {
      query, serverPaged := query.(top := server.pageSize), true;
    }
    var text := CompileCollection(s, query, server.maxTop);
    if text.Err? {
      return Refused(text.error);
    }
    CountIgnoresBounds(s, options.value, query);
    CollectionMeansCount(s, query, server.maxTop);
    var countText := CompileCount(s, query);
    var count: Option<nat> := None;
    if query.count {
      var counted := Run(w, countText.value, db);
      if !counted.Counted? {
        return Broken;
      }
      count := Some(counted.n);
    }
    var answer := Run(w, text.value, db);
    if !answer.Rows? {
      return Broken;
    }
    var next: Option<string> := None;
    if serverPaged && |answer.rows| == query.top {
      var total := count;
      if total.None? {
        var counted := Run(w, countText.value, db);
        if !counted.Counted? {
          return Broken;
        }
        total := Some(counted.n);
      }
      if total.value > Skip(query) + |answer.rows| {
        next := Some(NextLink(path, rawQuery, Skip(query) + |answer.rows|));
      }
    }
    return Page(answer.rows, count, next);
  }

  lemma CountIgnoresBounds(s: Schema, q: ODataQuery, r: ODataQuery)
    requires q.filter == r.filter
    ensures Count(s, q) == Count(s, r)
  {
    hide Compile;
  }

  lemma CollectionMeansCount(s: Schema, q: ODataQuery, maxTop: int)
    requires Collection(s, q, maxTop).Ok?
    ensures Count(s, q).Ok?
  {
    hide Compile, Projected, KnownTerms;
  }

  // ----- hidden columns

  /** Rows, count and nextLink alike depend on the exposed columns only. */
  lemma PagesHideColumns(w: World, s: Schema, server: Server, path: string, rawQuery: string, t: Store, u: Store)
    requires ValidSchema(s) && PlainTypes(s) && s.entity.properties != []
    requires StoresAgree(s.entity, t, u)
    ensures Serve(w, s, server, path, rawQuery, t) == Serve(w, s, server, path, rawQuery, u)
  {
    hide ValidSchema, PlainTypes, StoresAgree, Collection, Count, Run, ReadOptions, ParseQuery;
    var options := ReadOptions(ParseQuery(rawQuery), server.maxDepth);
    if options.Ok? {
      HiddenColumnsDoNotMatter(w, s, Collect(Limited(server, options.value), server.maxTop), t, u);
      HiddenColumnsDoNotMatter(w, s, CountAll(options.value), t, u);
    }
  }

  // ----- the rows a request asks for, and the pages it should be given

  /** Filtered, sorted, projected, after the request's own skip: what one page without a limit would hold. */
  function Wanted(w: World, s: Schema, q: ODataQuery, table: seq<Row>): seq<OutRow>
    requires Collection(s, q, -1).Ok?
  {
    CollectionCompiles(s, q, -1);
    Drop(Output(MeantProjection(Projected(q, s.entity).value),
                Sorted(w, MeantKeys(q.orderBy), Filtered(w, MeantFilter(s, q), table))), Skip(q))
  }

  function CountShown(w: World, s: Schema, q: ODataQuery, table: seq<Row>): Option<nat>
    requires Collection(s, q, -1).Ok?
  {
    CollectionCompiles(s, q, -1);
    if q.count then Some(|Filtered(w, MeantFilter(s, q), table)|) else None
  }

  /** The pages of `rows`, `size` rows each, with the links between them. */
  function Pages(path: string, rawQuery: string, rows: seq<OutRow>, skip: nat, size: nat, count: Option<nat>): (r: seq<Reply>)
    requires size > 0
    ensures forall i | 0 <= i < |r| :: r[i].Page?
    decreases |rows|
  {
    if |rows| <= size then [Page(rows, count, None)]
    else
      [Page(rows[..size], count, Some(NextLink(path, rawQuery, skip + size)))] +
      Pages(path, NextQuery(rawQuery, skip + size), rows[size..], skip + size, size, count)
  }

  function AllRows(pages: seq<Reply>): seq<OutRow>
    requires forall i | 0 <= i < |pages| :: pages[i].Page?
  {
    if pages == [] then [] else pages[0].rows + AllRows(pages[1..])
  }

  /** The fewest pages of `size` rows, and one page when there is no row. */
  function PageCount(rows: nat, size: nat): nat
    requires size > 0
  {
    if rows <= size then 1 else (rows + size - 1) / size
  }

  lemma {:induction false} PagesCover(path: string, rawQuery: string, rows: seq<OutRow>, skip: nat, size: nat, count: Option<nat>)
    requires size > 0
    ensures AllRows(Pages(path, rawQuery, rows, skip, size, count)) == rows
    ensures |Pages(path, rawQuery, rows, skip, size, count)| == PageCount(|rows|, size)
    decreases |rows|
  {
    hide NextQuery, NextLink, PageCount, AllRows;
    if |rows| <= size {
      AllRowsStep(Page(rows, count, None), []);
      assert rows + [] == rows;
      OnlyPage(|rows|, size);
    } else {
      var later := Pages(path, NextQuery(rawQuery, skip + size), rows[size..], skip + size, size, count);
      PagesCover(path, NextQuery(rawQuery, skip + size), rows[size..], skip + size, size, count);
      AllRowsStep(Page(rows[..size], count, Some(NextLink(path, rawQuery, skip + size))), later);
      assert rows[..size] + rows[size..] == rows;
      OneMorePage(|rows|, size);
    }
  }

  lemma AllRowsStep(page: Reply, pages: seq<Reply>)
    requires page.Page? && forall i | 0 <= i < |pages| :: pages[i].Page?
    ensures AllRows([page] + pages) == page.rows + AllRows(pages) && AllRows([]) == []
    ensures pages == [] ==> [page] + pages == [page]
  {
    assert ([page] + pages)[1..] == pages;
  }

  lemma OnlyPage(rows: nat, size: nat)
    requires size > 0 && rows <= size
    ensures PageCount(rows, size) == 1
  {
  }

  lemma OneMorePage(rows: nat, size: nat)
    requires 0 < size < rows
    ensures PageCount(rows, size) == 1 + PageCount(rows - size, size)
  {
    var k := rows - size;
    if k <= size {
      assert rows + size - 1 == 2 * size + (k - 1);
      assert (2 * size + (k - 1)) / size == 2 by { Quotient(2, k - 1, size); }
    } else {
      var q, m := (k + size - 1) / size, (k + size - 1) % size;
      assert rows + size - 1 == (q + 1) * size + m;
      Quotient(q + 1, m, size);
    }
  }

  lemma Quotient(q: nat, m: nat, d: nat)
    requires m < d
    ensures (q * d + m) / d == q
  {
    var x := q * d + m;
    Multiple(d, q - x / d);
    assert d * (q - x / d) == d * q - d * (x / d) == x % d - m;
  }

  lemma Multiple(d: nat, e: int)
    ensures (e >= 1 ==> d * e >= d) && (e <= -1 ==> d * e + d <= 0)
  {
    if e >= 1 {
      assert d * e == d * (e - 1) + d;
    } else if e <= -1 {
      assert d * e == d * (e + 1) - d;
    }
  }

  // ----- the link

  predicate IsPlainPath(path: string) {
    HasNoEscape(path) && forall i | 0 <= i < |path| :: path[i] != '?' && !IsSpace(path[i])
  }

  /** A raw query as it arrives in a request line. */
  predicate IsRawQuery(rawQuery: string) {
    forall i | 0 <= i < |rawQuery| :: !IsSpace(rawQuery[i])
  }

  lemma {:induction false} DecodeKeepsOnlyUnescaped(s: string)
    ensures |UrlDecode(s)| <= |s|
    ensures UrlDecode(s) == s <==> HasNoEscape(s)
    decreases |s|
  {
    if s != "" {
      var (c, step) := DecodedStep(s);
      DecodeKeepsOnlyUnescaped(s[step..]);
      assert s[0..] == s;
      if step == 1 {
        assert UrlDecode(s) == [c] + UrlDecode(s[1..]);
        assert UrlDecode(s) == s <==> c == s[0] && UrlDecode(s[1..]) == s[1..] by {
          assert s == [s[0]] + s[1..];
          if UrlDecode(s) == s {
            assert UrlDecode(s)[1..] == s[1..] && UrlDecode(s)[0] == s[0];
          }
        }
        UnescapedTail(s);
      }
    }
  }

  lemma UnescapedTail(s: string)
    requires s != ""
    ensures HasNoEscape(s) <==> s[0] != '+' && !StartsEscape(s) && HasNoEscape(s[1..])
  {
    assert s[0..] == s;
    assert forall i | 0 <= i < |s| - 1 :: s[1..][i] == s[i + 1] && s[1..][i..] == s[i + 1..];
    if s[0] != '+' && !StartsEscape(s) && HasNoEscape(s[1..]) {
      forall i | 0 <= i < |s| ensures s[i] != '+' && !StartsEscape(s[i..]) {
        if i > 0 {
          assert s[1..][i - 1] == s[i] && s[1..][i - 1..] == s[i..];
        }
      }
    } else if HasNoEscape(s) {
      forall i | 0 <= i < |s[1..]| ensures s[1..][i] != '+' && !StartsEscape(s[1..][i..]) {
        assert s[1..][i] == s[i + 1] && s[1..][i..] == s[i + 1..];
      }
    }
  }

  lemma ShowHasNoSpace(n: nat)
    ensures forall i | 0 <= i < |Show(n)| :: IsDigit(Show(n)[i])
  {
  }

  lemma NextQueryIsRaw(rawQuery: string, n: nat)
    requires IsRawQuery(rawQuery)
    ensures IsRawQuery(NextQuery(rawQuery, n))
  {
    hide Show;
    ShowHasNoSpace(n);
    var head := if rawQuery == "" then "" else rawQuery + "&";
    assert IsRawQuery(head) && IsRawQuery("$skip=");
  }

  /** A client that follows the link: the request line it sends, and what the server makes of its target. */
  ghost predicate LinkWorks(path: string, rawQuery: string, n: nat) {
    var link := NextLink(path, rawQuery, n);
    && ParseRequestLine("GET " + link + " HTTP/1.1") == Some(("GET", link))
    && ParseTarget(link) == (path, NextQuery(rawQuery, n))
  }

  /** The link repeats the decoded path without encoding it, so it leads back to that path only when the path
      has no white space, question mark, plus sign or complete percent escape left in it. */
  lemma LinkExact(path: string, rawQuery: string, n: nat)
    requires IsRawQuery(rawQuery)
    ensures LinkWorks(path, rawQuery, n) <==> IsPlainPath(path)
  {
    hide Words, UrlDecode, HasNoEscape, NextQuery;
    var query, link := NextQuery(rawQuery, n), NextLink(path, rawQuery, n);
    var k := Span(NotQuestion, path);
    NextQueryIsRaw(rawQuery, n);
    SpanIs(NotQuestion, link, k);
    DecodeKeepsOnlyUnescaped(path[..k]);
    assert link[..k] == path[..k] && (k == |path| ==> path[..k] == path && link[k + 1..] == query);
    if LinkWorks(path, rawQuery, n) {
      WordsAreTokens("GET " + link + " HTTP/1.1");
      assert IsToken(link);
      assert forall i | 0 <= i < |path| :: path[i] == link[i];
    }
    if IsPlainPath(path) {
      assert IsToken(link);
      RequestLineOf("GET", link);
      assert "GET" + " " + link + " HTTP/1.1" == "GET " + link + " HTTP/1.1";
    }
  }

  lemma NextPair(n: nat)
    ensures ParseQuery("$skip=" + Show(n)) == [("$skip", Show(n))]
  {
    hide Show, UrlDecode, HasNoEscape;
    var name, value := "$skip", Show(n);
    var t := "$skip=" + value;
    ShowHasNoSpace(n);
    SpanIs(NotEquals, t, 5);
    SpanIs(NotAmp, t, |t|);
    assert t[..5] == name && t[6..] == value && t[..|t|] == t;
    Verbatim(name);
    Verbatim(value);
    assert [("$skip", value)] + [] == [("$skip", value)];
  }

  lemma Verbatim(s: string)
    requires forall i | 0 <= i < |s| :: s[i] != '+' && s[i] != '%'
    ensures UrlDecode(s) == s
  {
    hide UrlDecode;
    DecodeKeepsOnlyUnescaped(s);
  }

  /** The link's query asks for the same rows from `n` on. */
  lemma NextOptions(rawQuery: string, maxDepth: int, n: nat)
    requires n <= INT64_MAX && ReadOptions(ParseQuery(rawQuery), maxDepth).Ok?
    ensures ReadOptions(ParseQuery(NextQuery(rawQuery, n)), maxDepth)
            == Ok(ReadOptions(ParseQuery(rawQuery), maxDepth).value.(skip := n))
  {
    hide ReadOptions, Show, ParseQuery;
    var last := "$skip=" + Show(n);
    NextPair(n);
    AppendedSkipWins(ParseQuery(rawQuery), n, maxDepth);
    if rawQuery == "" {
      ParseEmptyQuery();
      assert "" + "$skip=" + Show(n) == last && [] + [("$skip", Show(n))] == [("$skip", Show(n))];
    } else {
      ParseQueryCat(rawQuery, last);
      assert rawQuery + "&" + "$skip=" + Show(n) == rawQuery + "&" + last;
    }
  }

  // ----- following the links

  function PageLimit(server: Server): nat
    requires server.pageSize > 0
  {
    if 0 <= server.maxTop < server.pageSize then server.maxTop else server.pageSize
  }

  /** A request the server pages: it has a page size and no $top. */
  ghost predicate Pageable(s: Schema, server: Server, rawQuery: string) {
    var options := ReadOptions(ParseQuery(rawQuery), server.maxDepth);
    && ValidSchema(s) && options.Ok? && server.pageSize > 0 && options.value.top < 0
    && Collection(s, options.value, -1).Ok? && FilterFlat(options.value)
  }

  lemma CollectionIgnoresBounds(s: Schema, q: ODataQuery, top: int, skip: int, maxTop: int)
    requires Collection(s, q, -1).Ok?
    ensures Collection(s, q.(top := top, skip := skip), maxTop).Ok?
  {
    hide Compile, SelectList, OrderText, QuotedTable, SelectedNames, BoundText;
  }

  lemma OutputBounded(p: Projection, rows: seq<Row>, q: ODataQuery, maxTop: int)
    ensures var rest := Drop(Output(p, rows), Skip(q));
            Output(p, Sliced(rows, EffectiveTop(q, maxTop), Offset(q)))
            == if q.top < 0 then rest else Take(rest, if 0 <= maxTop < q.top then maxTop else q.top)
  {
    hide OutputRow;
    assert Drop(Output(p, rows), 0) == Output(p, rows);
  }

  /** What the two statements of a request return, whatever `top` it is sent with. */
  lemma Answers(w: World, s: Schema, q: ODataQuery, top: int, maxTop: int, db: Store, table: seq<Row>)
    requires ValidSchema(s) && Collection(s, q, -1).Ok? && FilterFlat(q) && TableOf(db, s.entity) == Some(table)
    ensures var sent := Collection(s, q.(top := top), maxTop);
            && sent.Ok? && Run(w, sent.value, db) ==
               Rows(if top < 0 then Wanted(w, s, q, table) else Take(Wanted(w, s, q, table), if 0 <= maxTop < top then maxTop else top))
    ensures Count(s, q).Ok? && Run(w, Count(s, q).value, db).Counted?
    ensures CountShown(w, s, q, table) == if q.count then Some(Run(w, Count(s, q).value, db).n) else None
    ensures Run(w, Count(s, q).value, db).n == Skip(q) + |Wanted(w, s, q, table)| || Wanted(w, s, q, table) == []
    ensures Run(w, Count(s, q).value, db).n <= Skip(q) || Wanted(w, s, q, table) != []
  {
    hide Collection, Count, ReadSelect, MeantFilter, Sorted, Filtered, Projected, ValidSchema, OutputRow, Compile, TableOf, Fetch;
    var limited := q.(top := top);
    assert limited == q.(top := top, skip := q.skip);
    CollectionIgnoresBounds(s, q, top, q.skip, maxTop);
    PartsNameTable(db, s.entity);
    CollectionExact(s, limited, maxTop);
    CollectionMeansCount(s, q, -1);
    CollectionProjects(s, q);
    CountExact(s, q);
    CollectionCompiles(s, q, -1);
    assert MeantFilter(s, limited) == MeantFilter(s, q) by { SameMeantFilter(s, q, limited); }
    assert Projected(limited, s.entity) == Projected(q, s.entity) by { SameProjected(s, q, limited); }
    var all := Sorted(w, MeantKeys(q.orderBy), Filtered(w, MeantFilter(s, q), table));
    OutputBounded(MeantProjection(Projected(q, s.entity).value), all, limited, maxTop);
  }

  /** One page: the first rows wanted, up to the limit, and a link exactly when more are wanted than a full page. */
  lemma OnePage(w: World, s: Schema, server: Server, path: string, rawQuery: string, db: Store, table: seq<Row>)
    requires Pageable(s, server, rawQuery) && TableOf(db, s.entity) == Some(table)
    ensures var q := ReadOptions(ParseQuery(rawQuery), server.maxDepth).value;
            var want := Wanted(w, s, q, table);
            Serve(w, s, server, path, rawQuery, db) ==
            Page(Take(want, PageLimit(server)), CountShown(w, s, q, table),
                 if PageLimit(server) == server.pageSize && |want| > server.pageSize
                 then Some(NextLink(path, rawQuery, Skip(q) + server.pageSize)) else None)
  {
    hide ReadOptions, ParseQuery, NextLink, Collection, Count, Run, ValidSchema, Wanted, CountShown, TableOf;
    var q := ReadOptions(ParseQuery(rawQuery), server.maxDepth).value;
    Answers(w, s, q, server.pageSize, server.maxTop, db, table);
  }

  /** The request is refused if and only if its options are not accepted or it names something unknown, whatever the database. */
  lemma RefusedExactly(w: World, s: Schema, server: Server, path: string, rawQuery: string, db: Store)
    ensures var options := ReadOptions(ParseQuery(rawQuery), server.maxDepth);
            Serve(w, s, server, path, rawQuery, db).Refused? <==> options.Err? || !Resolves(s.entity.properties, options.value)
  {
    hide ReadOptions, ParseQuery, Collection, Count, Run, Resolves;
    var options := ReadOptions(ParseQuery(rawQuery), server.maxDepth);
    if options.Ok? {
      var q := options.value;
      CollectionResolves(s, Limited(server, q), server.maxTop);
      CollectionResolves(s, q, server.maxTop);
      ResolvesWithoutBounds(s, q, server.pageSize);
      if Collection(s, q, server.maxTop).Ok? {
        CollectionMeansCount(s, q, server.maxTop);
      }
    }
  }

  lemma ResolvesWithoutBounds(s: Schema, q: ODataQuery, top: int)
    ensures Resolves(s.entity.properties, q.(top := top)) <==> Resolves(s.entity.properties, q)
  {
    hide IsProperty;
  }

  /** Options that are accepted, names that are known, a flat filter, and a table to read. */
  ghost predicate Answerable(s: Schema, server: Server, rawQuery: string, db: Store) {
    var options := ReadOptions(ParseQuery(rawQuery), server.maxDepth);
    && ValidSchema(s) && options.Ok? && Resolves(s.entity.properties, options.value) && FilterFlat(options.value)
    && TableOf(db, s.entity).Some?
  }

  lemma AnswerableCompiles(s: Schema, q: ODataQuery)
    requires Resolves(s.entity.properties, q)
    ensures Collection(s, q, -1).Ok?
  {
    hide Collection, Resolves;
    CollectionResolves(s, q, -1);
  }

  /** Without server paging the reply is every wanted row, or the first min($top, max_top) of them, and no link. */
  lemma WholeReply(w: World, s: Schema, server: Server, path: string, rawQuery: string, db: Store)
    requires Answerable(s, server, rawQuery, db)
    requires var q := ReadOptions(ParseQuery(rawQuery), server.maxDepth).value; server.pageSize <= 0 || q.top >= 0
    ensures var q, table := ReadOptions(ParseQuery(rawQuery), server.maxDepth).value, TableOf(db, s.entity).value;
            && Collection(s, q, -1).Ok?
            && Serve(w, s, server, path, rawQuery, db) ==
               Page(if q.top < 0 then Wanted(w, s, q, table)
                    else Take(Wanted(w, s, q, table), if 0 <= server.maxTop < q.top then server.maxTop else q.top),
                    CountShown(w, s, q, table), None)
  {
    hide ReadOptions, ParseQuery, Collection, Count, Run, ValidSchema, Wanted, CountShown, Resolves, TableOf;
    var q, table := ReadOptions(ParseQuery(rawQuery), server.maxDepth).value, TableOf(db, s.entity).value;
    AnswerableCompiles(s, q);
    Answers(w, s, q, q.top, server.maxTop, db, table);
    assert q.(top := q.top) == q;
  }

  /** Without its table the request fails. */
  lemma NoTableFails(w: World, s: Schema, server: Server, path: string, rawQuery: string, db: Store)
    requires ValidSchema(s) && TableOf(db, s.entity).None?
    requires var options := ReadOptions(ParseQuery(rawQuery), server.maxDepth);
             options.Ok? && Resolves(s.entity.properties, options.value) && FilterFlat(options.value)
    ensures Serve(w, s, server, path, rawQuery, db) == Broken
  {
    hide ReadOptions, ParseQuery, Collection, Count, ReadSelect, ValidSchema, Resolves, TableOf, Fetch, MeantCollection, MeantCount;
    var q := ReadOptions(ParseQuery(rawQuery), server.maxDepth).value;
    var limited := Limited(server, q);
    AnswerableCompiles(s, q);
    assert limited == q.(top := limited.top, skip := q.skip);
    CollectionIgnoresBounds(s, q, limited.top, q.skip, server.maxTop);
    CollectionMeansCount(s, q, -1);
    CollectionExact(s, limited, server.maxTop);
    CountExact(s, q);
    PartsNameTable(db, s.entity);
    assert MeantCollection(s, limited, server.maxTop).table == TableParts(s.entity) && MeantCount(s, q).table == TableParts(s.entity) by {
      SameTable(s, limited, q, server.maxTop);
    }
  }

  lemma SameTable(s: Schema, limited: ODataQuery, q: ODataQuery, maxTop: int)
    requires Collection(s, limited, maxTop).Ok? && Count(s, q).Ok?
    ensures MeantCollection(s, limited, maxTop).table == TableParts(s.entity) && MeantCount(s, q).table == TableParts(s.entity)
  {
  }

  /** The wanted rows in OData's own terms: the columns asked for of the rows that satisfy the filter, ordered, after $skip. */
  lemma WantedIsOData(w: World, s: Schema, q: ODataQuery, table: seq<Row>)
    requires ValidSchema(s) && FromCatalog(s) && Collection(s, q, -1).Ok? && FilterFlat(q) && FilterTyped(w, q)
    requires ComparesEverywhere(w, s, q.filter, table)
    ensures Projected(q, s.entity).Ok? && AreColumns(s.entity.properties, q.select, Projected(q, s.entity).value)
    ensures Wanted(w, s, q, table) ==
            Drop(Output(MeantProjection(Projected(q, s.entity).value),
                        Sorted(w, MeantKeys(q.orderBy), Satisfying(w, s, q.filter, table))), Skip(q))
    ensures CountShown(w, s, q, table) == if q.count then Some(|Satisfying(w, s, q.filter, table)|) else None
  {
    hide Collection, Filtered, Sorted, Satisfying, MeantFilter, Output, Projected, AreColumns, FilterTyped, FilterFlat, ValidSchema, FromCatalog;
    CollectionCompiles(s, q, -1);
    CollectionProjects(s, q);
    ProjectionExact(q, s.entity);
    FilteredIsSatisfying(w, s, q, table);
  }

  lemma CollectionProjects(s: Schema, q: ODataQuery)
    requires Collection(s, q, -1).Ok?
    ensures Projected(q, s.entity).Ok?
  {
    hide Projected, Compile;
  }

  lemma SameMeantFilter(s: Schema, q: ODataQuery, r: ODataQuery)
    requires q.filter == r.filter && FilterCompiles(s, q)
    ensures MeantFilter(s, q) == MeantFilter(s, r)
  {
    hide Meant;
  }

  lemma SameProjected(s: Schema, q: ODataQuery, r: ODataQuery)
    requires q.select == r.select
    ensures Projected(q, s.entity) == Projected(r, s.entity)
  {
  }

  /** The replies a client collects: it asks once, then follows every link it is given, to the end. */
  predicate Walk(w: World, s: Schema, server: Server, path: string, rawQuery: string, db: Store, replies: seq<Reply>)
    decreases |replies|
  {
    && replies != [] && replies[0] == Serve(w, s, server, path, rawQuery, db)
    && if replies[0].Page? && replies[0].next.Some? then
         var (path', rawQuery') := ParseTarget(replies[0].next.value);
         Walk(w, s, server, path', rawQuery', db, replies[1..])
       else |replies| == 1
  }

  /** What the walk is meant to be: pages of full size covering every wanted row, or, under a limit smaller than
      the page size, a single page. */
  function Expected(w: World, s: Schema, server: Server, path: string, rawQuery: string, q: ODataQuery, table: seq<Row>): (r: seq<Reply>)
    requires server.pageSize > 0 && Collection(s, q, -1).Ok?
    ensures forall i | 0 <= i < |r| :: r[i].Page?
  {
    var want, count := Wanted(w, s, q, table), CountShown(w, s, q, table);
    if PageLimit(server) < server.pageSize then [Page(Take(want, PageLimit(server)), count, None)]
    else Pages(path, rawQuery, want, Skip(q), server.pageSize, count)
  }

  lemma WantedLater(w: World, s: Schema, q: ODataQuery, table: seq<Row>, size: nat)
    requires Collection(s, q, -1).Ok? && size < |Wanted(w, s, q, table)|
    ensures var later := q.(skip := Skip(q) + size);
            && Collection(s, later, -1).Ok?
            && Wanted(w, s, later, table) == Wanted(w, s, q, table)[size..]
            && CountShown(w, s, later, table) == CountShown(w, s, q, table)
            && Skip(q) + size < |table|
  {
    hide Collection, MeantFilter, Sorted, Filtered, Projected, OutputRow;
    var later := q.(skip := Skip(q) + size);
    assert later == q.(top := q.top, skip := Skip(q) + size);
    CollectionIgnoresBounds(s, q, q.top, Skip(q) + size, -1);
    CollectionCompiles(s, q, -1);
    CollectionProjects(s, q);
    assert MeantFilter(s, later) == MeantFilter(s, q) by { SameMeantFilter(s, q, later); }
    assert Projected(later, s.entity) == Projected(q, s.entity) by { SameProjected(s, q, later); }
  }

  /** The links name the pages: a list of replies is a complete walk exactly when it is the expected one. */
  lemma {:induction false} WalkExact(w: World, s: Schema, server: Server, path: string, rawQuery: string, db: Store, table: seq<Row>, replies: seq<Reply>)
    requires Pageable(s, server, rawQuery) && IsPlainPath(path) && IsRawQuery(rawQuery) && |table| <= INT64_MAX && TableOf(db, s.entity) == Some(table)
    ensures Walk(w, s, server, path, rawQuery, db, replies) <==>
            replies == Expected(w, s, server, path, rawQuery, ReadOptions(ParseQuery(rawQuery), server.maxDepth).value, table)
    decreases |replies|
  {
    hide ReadOptions, ParseQuery, NextLink, NextQuery, Collection, Wanted, CountShown, Serve, IsPlainPath, IsRawQuery, FilterFlat, ValidSchema, ParseTarget;
    var q := ReadOptions(ParseQuery(rawQuery), server.maxDepth).value;
    var want, size := Wanted(w, s, q, table), server.pageSize;
    OnePage(w, s, server, path, rawQuery, db, table);
    if PageLimit(server) == size && |want| > size {
      var next := Skip(q) + size;
      WantedLater(w, s, q, table, size);
      NextOptions(rawQuery, server.maxDepth, next);
      LinkExact(path, rawQuery, next);
      NextQueryIsRaw(rawQuery, next);
      assert FilterFlat(q.(skip := next)) by { SameFlat(q, next); }
      if replies != [] {
        WalkExact(w, s, server, path, NextQuery(rawQuery, next), db, table, replies[1..]);
        assert replies == [replies[0]] + replies[1..];
      }
    }
  }

  lemma SameFlat(q: ODataQuery, skip: int)
    requires FilterFlat(q)
    ensures FilterFlat(q.(skip := skip))
  {
  }

  /** Paging completeness. The client that follows every link gets each wanted row once, in order, in the fewest
      pages of the page size, if and only if the row limit does not cut the pages short. */
  lemma PagingExact(w: World, s: Schema, server: Server, path: string, rawQuery: string, db: Store, table: seq<Row>, replies: seq<Reply>)
    requires Pageable(s, server, rawQuery) && IsPlainPath(path) && IsRawQuery(rawQuery) && |table| <= INT64_MAX && TableOf(db, s.entity) == Some(table)
    requires Walk(w, s, server, path, rawQuery, db, replies)
    ensures forall i | 0 <= i < |replies| :: replies[i].Page?
    ensures var want := Wanted(w, s, ReadOptions(ParseQuery(rawQuery), server.maxDepth).value, table);
            && (AllRows(replies) == want <==> server.maxTop < 0 || server.maxTop >= server.pageSize || |want| <= server.maxTop)
            && (AllRows(replies) == want ==> |replies| == PageCount(|want|, server.pageSize))
  {
    hide ReadOptions, ParseQuery, Collection, Wanted, CountShown, Walk, IsPlainPath, IsRawQuery, ValidSchema, FilterFlat, Pages;
    var q := ReadOptions(ParseQuery(rawQuery), server.maxDepth).value;
    var want := Wanted(w, s, q, table);
    WalkExact(w, s, server, path, rawQuery, db, table, replies);
    if PageLimit(server) < server.pageSize {
      assert replies[1..] == [] && AllRows([]) == [];
      assert AllRows(replies) == replies[0].rows + [] == Take(want, PageLimit(server));
    } else {
      PagesCover(path, rawQuery, want, Skip(q), server.pageSize, CountShown(w, s, q, table));
    }
  }
}
