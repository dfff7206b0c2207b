/** The statements' text is read back as exactly the clauses that were meant. */
module StatementMeaning {
  import opened Text
  import opened Decimal
  import opened Edm
  import opened FilterGrammar
  import opened SqlLexer
  import opened ExprCompiler
  import opened ExprMeaning
  import opened SqlCompiler
  import opened SqlStatement
  import G = SqlGrammar

  function MeantProjection(names: seq<string>): Projection {
    if names == [] then AllColumns else Columns(names)
  }

  function MeantFilter(s: Schema, q: ODataQuery): Option<G.Sql>
    requires q.filter.Some? ==> Compilable(s, q.filter.value)
  {
    if q.filter.None? then None else Some(Meant(s, q.filter.value))
  }

  function MeantKeys(terms: seq<OrderByTerm>): seq<OrderKey> {
    seq(|terms|, i requires 0 <= i < |terms| => OrderKey(terms[i].property, terms[i].descending))
  }

  predicate FilterCompiles(s: Schema, q: ODataQuery) {
    q.filter.Some? ==> Compilable(s, q.filter.value)
  }

  predicate FilterFlat(q: ODataQuery) {
    q.filter.Some? ==> Flat(q.filter.value)
  }

  /** The statement a collection query is meant to become. */
  function MeantCollection(s: Schema, q: ODataQuery, maxTop: int): Select
    requires Collection(s, q, maxTop).Ok?
  {
    CollectionCompiles(s, q, maxTop);
    Select(MeantProjection(Projected(q, s.entity).value), TableParts(s.entity),
           Tail(MeantFilter(s, q), MeantKeys(q.orderBy), EffectiveTop(q, maxTop), Offset(q)))
  }

  function MeantCount(s: Schema, q: ODataQuery): Select
    requires Count(s, q).Ok?
  {
    CountCompiles(s, q);
    Select(CountRows("__odata_count"), TableParts(s.entity), Tail(MeantFilter(s, q), [], None, None))
  }

  lemma CollectionCompiles(s: Schema, q: ODataQuery, maxTop: int)
    requires Collection(s, q, maxTop).Ok?
    ensures FilterCompiles(s, q)
  {
    if q.filter.Some? {
      CompileSucceeds(s, q.filter.value);
    }
  }

  lemma CountCompiles(s: Schema, q: ODataQuery)
    requires Count(s, q).Ok?
    ensures FilterCompiles(s, q)
  {
    if q.filter.Some? {
      CompileSucceeds(s, q.filter.value);
    }
  }

  // ----- lexing the pieces

  predicate IsSeparator(sep: string, tok: Tok) {
    (tok == Sep && (sep == ", " || sep == ",")) || (tok == Dot && sep == ".")
  }

  lemma {:induction false} NamesLex(names: seq<string>, sep: string, tok: Tok)
    requires names != [] && IsSeparator(sep, tok)
    ensures Lexes(Join(QuotedNames(names), sep), YieldNames(tok, names))
    ensures Join(QuotedNames(names), sep)[0] == '"'
  {
    hide Lexes;
    var qs := QuotedNames(names);
    LexQuotedName(names[0]);
    if |names| > 1 {
      assert qs[1..] == QuotedNames(names[1..]);
      NamesLex(names[1..], sep, tok);
      SeparatorLexes(sep, tok);
      var rest := Join(qs[1..], sep);
      LexCat(sep, [tok], rest, YieldNames(tok, names[1..]));
      LexCat(qs[0], [Name(names[0])], sep + rest, [tok] + YieldNames(tok, names[1..]));
      assert qs[0] + (sep + rest) == qs[0] + sep + rest;
      assert [Name(names[0])] + ([tok] + YieldNames(tok, names[1..])) == YieldNames(tok, names);
    }
  }

  lemma SeparatorLexes(sep: string, tok: Tok)
    requires IsSeparator(sep, tok)
    ensures Lexes(sep, [tok])
  {
    hide Lexes;
    LexSymbol(',');
    LexSymbol('.');
    LexSpaceAfter(",", [Sep]);
    assert "," + " " == ", ";
  }

  /** A keyword after a space, before a space and more text. */
  lemma KeywordThen(k: Keyword, text: string, ts: seq<Tok>)
    requires Lexes(text, ts)
    ensures Lexes(" " + KeywordText(k) + " " + text, [Kw(k)] + ts)
  {
    hide Lexes;
    LexInfixKeyword(k);
    LexCat(" " + KeywordText(k) + " ", [Kw(k)], text, ts);
  }

  lemma BoundLexes(k: Keyword, n: Option<nat>)
    ensures Lexes(BoundText(KeywordText(k), n), YieldBound(k, n))
  {
    hide Lexes;
    if n.None? {
      LexEmpty();
    } else {
      LexNumber(Digits(n.value));
      KeywordThen(k, Digits(n.value), [Num(Digits(n.value))]);
      assert [Kw(k)] + [Num(Digits(n.value))] == YieldBound(k, n);
    }
  }

  lemma TermLexes(t: OrderByTerm)
    ensures Lexes(TermText(t), YieldKey(OrderKey(t.property, t.descending)))
  {
    hide Lexes;
    var k := if t.descending then DESC else ASC;
    LexQuotedName(t.property);
    LexKeyword(k);
    LexSpaceBefore(KeywordText(k), [Kw(k)]);
    LexCat(QuotedName(t.property), [Name(t.property)], " " + KeywordText(k), [Kw(k)]);
    assert " " + KeywordText(k) == (if t.descending then " DESC" else " ASC");
    assert [Name(t.property)] + [Kw(k)] == [Name(t.property), Kw(k)];
  }

  lemma {:induction false} TermsLex(terms: seq<OrderByTerm>)
    requires terms != []
    ensures Lexes(Join(TermTexts(terms), ", "), YieldKeys(MeantKeys(terms)))
  {
    hide Lexes, YieldKey;
    var ts, ks := TermTexts(terms), MeantKeys(terms);
    TermLexes(terms[0]);
    if |terms| > 1 {
      assert ts[1..] == TermTexts(terms[1..]) && ks[1..] == MeantKeys(terms[1..]);
      TermsLex(terms[1..]);
      SeparatorLexes(", ", Sep);
      LexCat(ts[0], YieldKey(ks[0]), ", ", [Sep]);
      LexCat(ts[0] + ", ", YieldKey(ks[0]) + [Sep], Join(ts[1..], ", "), YieldKeys(ks[1..]));
    }
  }

  lemma OrderLexes(terms: seq<OrderByTerm>)
    ensures Lexes(OrderText(terms), YieldOrder(MeantKeys(terms)))
  {
    hide Lexes;
    if terms == [] {
      LexEmpty();
    } else {
      var list := Join(TermTexts(terms), ", ");
      TermsLex(terms);
      LexInfixKeyword(ORDER);
      LexKeyword(BY);
      LexSpaceAfter(KeywordText(BY), [Kw(BY)]);
      LexCat(" " + KeywordText(ORDER) + " ", [Kw(ORDER)], KeywordText(BY) + " ", [Kw(BY)]);
      var orderBy := " " + KeywordText(ORDER) + " " + (KeywordText(BY) + " ");
      assert orderBy == " ORDER BY ";
      LexCat(orderBy, [Kw(ORDER)] + [Kw(BY)], list, YieldKeys(MeantKeys(terms)));
      assert [Kw(ORDER)] + [Kw(BY)] == [Kw(ORDER), Kw(BY)];
    }
  }

  lemma WhereLexes(s: Schema, q: ODataQuery)
    requires ValidSchema(s) && FilterCompiles(s, q) && FilterText(s, q).Ok?
    ensures Lexes(WhereText(FilterText(s, q).value), YieldWhere(MeantFilter(s, q)))
  {
    hide Lexes, Compile, Meant, ValidSchema, Compilable;
    LexEmpty();
    if q.filter.Some? {
      var e := q.filter.value;
      CompileLexes(s, e);
      NonEmptyText(Compile(s, e).value, G.Yield(Meant(s, e)));
      KeywordThen(WHERE, Compile(s, e).value, G.Yield(Meant(s, e)));
      assert " " + KeywordText(WHERE) + " " == " WHERE ";
    }
  }

  lemma NonEmptyText(text: string, ts: seq<Tok>)
    requires Lexes(text, ts) && ts != []
    ensures text != ""
  {
  }

  lemma ProjectionLexes(names: seq<string>)
    ensures Lexes(SelectList(names), YieldProjection(MeantProjection(names)))
  {
    hide Lexes;
    if names == [] {
      LexSymbol('*');
    } else {
      NamesLex(names, ", ", Sep);
    }
  }

  lemma HeadLexes(list: string, p: Projection, e: EdmEntity)
    requires Lexes(list, YieldProjection(p))
    ensures Lexes("SELECT " + list + " FROM " + QuotedTable(e), YieldHead(p, TableParts(e)))
  {
    hide Lexes, YieldProjection, YieldNames, TableParts;
    LexKeyword(SELECT);
    LexSpaceAfter(KeywordText(SELECT), [Kw(SELECT)]);
    LexCat(KeywordText(SELECT) + " ", [Kw(SELECT)], list, YieldProjection(p));
    NamesLex(TableParts(e), ".", Dot);
    KeywordThen(FROM, QuotedTable(e), YieldNames(Dot, TableParts(e)));
    LexCat(KeywordText(SELECT) + " " + list, [Kw(SELECT)] + YieldProjection(p),
           " " + KeywordText(FROM) + " " + QuotedTable(e), [Kw(FROM)] + YieldNames(Dot, TableParts(e)));
    assert KeywordText(SELECT) + " " == "SELECT " && " " + KeywordText(FROM) + " " == " FROM ";
    assert "SELECT " + list + (" FROM " + QuotedTable(e)) == "SELECT " + list + " FROM " + QuotedTable(e);
    assert [Kw(SELECT)] + YieldProjection(p) + ([Kw(FROM)] + YieldNames(Dot, TableParts(e)))
        == YieldHead(p, TableParts(e));
  }

  /** Texts that are empty or start with a space can be appended to anything. */
  lemma AppendClause(a: string, ta: seq<Tok>, b: string, tb: seq<Tok>)
    requires Lexes(a, ta) && Lexes(b, tb) && (b == "" || b[0] == ' ')
    ensures Lexes(a + b, ta + tb)
  {
    hide Lexes;
    LexCat(a, ta, b, tb);
  }

  lemma CollectionLexes(s: Schema, q: ODataQuery, maxTop: int)
    requires ValidSchema(s) && Collection(s, q, maxTop).Ok?
    ensures var m := MeantCollection(s, q, maxTop);
            Lexes(Collection(s, q, maxTop).value, YieldHead(m.projection, m.table) + YieldTail(m.tail))
  {
    hide Lexes, YieldHead, YieldTail, WhereText, OrderText, BoundText, Projected, Compilable, Compile, KnownTerms;
    CollectionCompiles(s, q, maxTop);
    var names := Projected(q, s.entity).value;
    var m := MeantCollection(s, q, maxTop);
    ProjectionLexes(names);
    HeadLexes(SelectList(names), m.projection, s.entity);
    WhereLexes(s, q);
    OrderLexes(q.orderBy);
    BoundLexes(LIMIT, EffectiveTop(q, maxTop));
    BoundLexes(OFFSET, Offset(q));
    ClausesLex("SELECT " + SelectList(names) + " FROM " + QuotedTable(s.entity),
               YieldHead(m.projection, m.table), WhereText(FilterText(s, q).value), OrderText(q.orderBy),
               BoundText("LIMIT", EffectiveTop(q, maxTop)), BoundText("OFFSET", Offset(q)), m.tail);
  }

  lemma ClausesLex(head: string, ts: seq<Tok>, where: string, order: string, limit: string, offset: string, tail: Tail)
    requires Lexes(head, ts)
    requires Lexes(where, YieldWhere(tail.filter)) && Lexes(order, YieldOrder(tail.order))
    requires Lexes(limit, YieldBound(LIMIT, tail.limit)) && Lexes(offset, YieldBound(OFFSET, tail.offset))
    requires (where == "" || where[0] == ' ') && (order == "" || order[0] == ' ')
    requires (limit == "" || limit[0] == ' ') && (offset == "" || offset[0] == ' ')
    ensures Lexes(head + where + order + limit + offset, ts + YieldTail(tail))
  {
    hide Lexes, YieldWhere, YieldOrder, YieldBound;
    var w, o, l, f := YieldWhere(tail.filter), YieldOrder(tail.order), YieldBound(LIMIT, tail.limit), YieldBound(OFFSET, tail.offset);
    AppendClause(head, ts, where, w);
    AppendClause(head + where, ts + w, order, o);
    AppendClause(head + where + order, ts + w + o, limit, l);
    AppendClause(head + where + order + limit, ts + w + o + l, offset, f);
    assert ts + w + o + l + f == ts + (w + (o + (l + f)));
  }

  lemma FilterWellFormed(s: Schema, q: ODataQuery)
    requires ValidSchema(s) && FilterCompiles(s, q)
    ensures (MeantFilter(s, q).Some? ==> G.WellFormed(MeantFilter(s, q).value)) <==> FilterFlat(q)
  {
    if q.filter.Some? {
      FlatIsWellFormed(s, q.filter.value);
    }
  }

  /** Collection statement round trip: whatever the bytes of column, table and literal names, the emitted text
      is read as the intended select list, table, filter tree, order list, LIMIT min(top, max_top) and OFFSET,
      if and only if the filter is flat. */
  lemma CollectionExact(s: Schema, q: ODataQuery, maxTop: int)
    requires ValidSchema(s) && Collection(s, q, maxTop).Ok?
    ensures ReadSelect(Collection(s, q, maxTop).value) == Some(MeantCollection(s, q, maxTop)) <==> FilterFlat(q)
  {
    CollectionCompiles(s, q, maxTop);
    CollectionLexes(s, q, maxTop);
    FilterWellFormed(s, q);
    SelectExact(Collection(s, q, maxTop).value, MeantCollection(s, q, maxTop));
  }

  lemma CountHeadLexes(e: EdmEntity)
    ensures Lexes("SELECT COUNT(*) AS __odata_count FROM " + QuotedTable(e),
                  YieldHead(CountRows("__odata_count"), TableParts(e)))
  {
    hide Lexes, TableParts, YieldNames;
    var count := "COUNT(*) AS __odata_count";
    CountColumnLexes();
    HeadLexes(count, CountRows("__odata_count"), e);
    assert "SELECT " + count + " FROM " == "SELECT COUNT(*) AS __odata_count FROM ";
    assert "SELECT " + count + " FROM " + QuotedTable(e) == "SELECT COUNT(*) AS __odata_count FROM " + QuotedTable(e);
  }

  lemma CountStarLexes()
    ensures Lexes("COUNT(*)", [Word("COUNT"), LP, Star, RP])
  {
    hide Lexes, WordTok;
    LexWord("COUNT");
    CountIsWord();
    LexSymbol('*');
    ParenLexes("*", [Star]);
    LexCat("COUNT", [Word("COUNT")], "(" + "*" + ")", [LP] + [Star] + [RP]);
    assert "COUNT" + ("(" + "*" + ")") == "COUNT(*)";
    assert [Word("COUNT")] + ([LP] + [Star] + [RP]) == [Word("COUNT"), LP, Star, RP];
  }

  lemma CountColumnLexes()
    ensures Lexes("COUNT(*) AS __odata_count", YieldProjection(CountRows("__odata_count")))
  {
    hide Lexes, WordTok;
    CountStarLexes();
    LexWord("__odata_count");
    CountAliasIsWord();
    KeywordThen(AS, "__odata_count", [Word("__odata_count")]);
    LexCat("COUNT(*)", [Word("COUNT"), LP, Star, RP],
           " " + KeywordText(AS) + " " + "__odata_count", [Kw(AS)] + [Word("__odata_count")]);
    assert "COUNT(*)" + (" " + KeywordText(AS) + " " + "__odata_count") == "COUNT(*) AS __odata_count";
    assert [Word("COUNT"), LP, Star, RP] + ([Kw(AS)] + [Word("__odata_count")])
        == YieldProjection(CountRows("__odata_count"));
  }

  lemma CountIsWord()
    ensures WordTok("COUNT") == Word("COUNT")
  {
    assert "COUNT"[0] == 'C';
  }

  lemma CountAliasIsWord()
    ensures WordTok("__odata_count") == Word("__odata_count")
  {
    assert |"__odata_count"| == 13;
  }

  lemma CountExact(s: Schema, q: ODataQuery)
    requires ValidSchema(s) && Count(s, q).Ok?
    ensures ReadSelect(Count(s, q).value) == Some(MeantCount(s, q)) <==> FilterFlat(q)
  {
    CountLexes(s, q);
    CountCompiles(s, q);
    FilterWellFormed(s, q);
    SelectExact(Count(s, q).value, MeantCount(s, q));
  }

  lemma CountLexes(s: Schema, q: ODataQuery)
    requires ValidSchema(s) && Count(s, q).Ok?
    ensures var m := MeantCount(s, q);
            Lexes(Count(s, q).value, YieldHead(m.projection, m.table) + YieldTail(m.tail))
  {
    CountCompiles(s, q);
    var m := MeantCount(s, q);
    CountHeadLexes(s.entity);
    WhereLexes(s, q);
    LexEmpty();
    var head, where := "SELECT COUNT(*) AS __odata_count FROM " + QuotedTable(s.entity), WhereText(FilterText(s, q).value);
    ClausesLex(head, YieldHead(m.projection, m.table), where, "", "", "", m.tail);
    assert head + where + "" + "" + "" == head + where;
  }

  // ----- key lookup

  function MeantKeyLiteral(p: EdmProperty, raw: string): G.Sql {
    var value := G.Atom(Chars(KeyValue(raw)));
    if IsTextKey(p) then value else G.CastTo(value, TypeTokens(p.duckdbType))
  }

  function MeantKeyTest(p: EdmProperty, raw: string): G.Sql {
    G.Comparison(FilterLexer.EQ, G.Atom(Name(p.name)), MeantKeyLiteral(p, raw))
  }

  /** The conjunction of all key tests, grouped to the left as SQL reads it. */
  function MeantKeyFilter(keys: seq<EdmProperty>, values: seq<string>): G.Sql
    requires |keys| == |values| && keys != []
  {
    var n := |keys| - 1;
    if n == 0 then MeantKeyTest(keys[0], values[0])
    else G.Conj(MeantKeyFilter(keys[..n], values[..n]), MeantKeyTest(keys[n], values[n]))
  }

  function MeantByKey(s: Schema, q: ODataQuery, values: seq<string>): Select
    requires ByKey(s, q, values).Ok?
  {
    Select(MeantProjection(Projected(q, s.entity).value), TableParts(s.entity),
           Tail(Some(MeantKeyFilter(Keys(s.entity.properties), values)), [], Some(1), None))
  }

  lemma KeyLiteralLexes(p: EdmProperty, raw: string)
    requires IsTypeText(p.duckdbType)
    ensures Lexes(KeyLiteralSql(p, raw), G.Yield(MeantKeyLiteral(p, raw)))
    ensures G.WellFormed(MeantKeyLiteral(p, raw)) && G.Level(MeantKeyLiteral(p, raw)) == 4
  {
    hide Lexes, KeyValue, G.IsTypeName;
    LexQuotedChars(KeyValue(raw));
    CastLexes(KeyValue(raw), p.duckdbType);
  }

  lemma KeyTextLexes(p: EdmProperty, raw: string)
    requires IsTypeText(p.duckdbType)
    ensures Lexes(KeyText(p, raw), G.Yield(MeantKeyTest(p, raw)))
    ensures G.WellFormed(MeantKeyTest(p, raw))
  {
    hide Lexes, IsTypeText, KeyLiteralSql, MeantKeyLiteral;
    var op := Cmp(FilterLexer.EQ);
    LexQuotedName(p.name);
    KeyLiteralLexes(p, raw);
    InfixLexes(QuotedName(p.name), [Name(p.name)], op, KeyLiteralSql(p, raw), G.Yield(MeantKeyLiteral(p, raw)));
    assert QuotedName(p.name) + " " + OpText(op) + " " == QuotedName(p.name) + " = ";
  }

  lemma {:induction false} KeysLex(keys: seq<EdmProperty>, values: seq<string>)
    requires |keys| == |values| && keys != [] && forall k | k in keys :: IsTypeText(k.duckdbType)
    ensures Lexes(Join(KeyTexts(keys, values), " AND "), G.Yield(MeantKeyFilter(keys, values)))
    ensures G.WellFormed(MeantKeyFilter(keys, values)) && G.Level(MeantKeyFilter(keys, values)) >= 1
  {
    hide Lexes, IsTypeText, KeyText, MeantKeyTest;
    var n := |keys| - 1;
    KeyTextLexes(keys[n], values[n]);
    KeyTestLevel(keys[n], values[n]);
    if n > 0 {
      KeysLex(keys[..n], values[..n]);
      var before, last := KeyTexts(keys[..n], values[..n]), KeyText(keys[n], values[n]);
      assert KeyTexts(keys, values) == before + [last];
      JoinSnoc(before, " AND ", last);
      InfixLexes(Join(before, " AND "), G.Yield(MeantKeyFilter(keys[..n], values[..n])), BinaryOp.AND,
                 last, G.Yield(MeantKeyTest(keys[n], values[n])));
      assert " " + OpText(BinaryOp.AND) + " " == " AND ";
      assert Join(before, " AND ") + " " + OpText(BinaryOp.AND) + " " == Join(before, " AND ") + " AND ";
    }
  }

  lemma KeyTestLevel(p: EdmProperty, raw: string)
    ensures G.Level(MeantKeyTest(p, raw)) == 3
  {
  }

  lemma ByKeyLexes(s: Schema, q: ODataQuery, values: seq<string>)
    requires ValidSchema(s) && ByKey(s, q, values).Ok?
    ensures var m := MeantByKey(s, q, values);
            Lexes(ByKey(s, q, values).value, YieldHead(m.projection, m.table) + YieldTail(m.tail))
  {
    hide Lexes, YieldHead, YieldTail, MeantKeyFilter, Projected, KeyTexts, Join, Keys, QuotedTable, SelectList, BoundText, Show, G.Yield;
    var names, keys := Projected(q, s.entity).value, Keys(s.entity.properties);
    var m := MeantByKey(s, q, values);
    ProjectionLexes(names);
    HeadLexes(SelectList(names), m.projection, s.entity);
    KeysLex(keys, values);
    var where := Join(KeyTexts(keys, values), " AND ");
    KeywordThen(WHERE, where, G.Yield(m.tail.filter.value));
    assert " " + KeywordText(WHERE) + " " + where == " WHERE " + where;
    BoundLexes(LIMIT, Some(1));
    LexEmpty();
    var head, limit := "SELECT " + SelectList(names) + " FROM " + QuotedTable(s.entity), BoundText("LIMIT", Some(1));
    ClausesLex(head, YieldHead(m.projection, m.table), " WHERE " + where, "", limit, "", m.tail);
    OneRow();
    assert head + (" WHERE " + where) + "" + limit + "" == head + " WHERE " + where + " LIMIT 1";
  }

  lemma OneRow()
    ensures BoundText("LIMIT", Some(1)) == " LIMIT 1"
  {
    assert " " + "LIMIT" + " " == " LIMIT ";
  }

  /** Key lookup round trip, for any number of keys and any key bytes: always exact. */
  lemma ByKeyExact(s: Schema, q: ODataQuery, values: seq<string>)
    requires ValidSchema(s) && ByKey(s, q, values).Ok?
    ensures ReadSelect(ByKey(s, q, values).value) == Some(MeantByKey(s, q, values))
  {
    ByKeyLexes(s, q, values);
    KeysLex(Keys(s.entity.properties), values);
    SelectExact(ByKey(s, q, values).value, MeantByKey(s, q, values));
  }
}
