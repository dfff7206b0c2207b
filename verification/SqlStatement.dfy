/** SELECT statements: syntax, a reference parser, and the parser's completeness. */
module SqlStatement {
  import opened Text
  import opened Decimal
  import opened SqlLexer
  import opened SqlGrammar
  import P = SqlParsing

  datatype Projection = AllColumns | Columns(names: seq<string>) | CountRows(alias: string)

  datatype OrderKey = OrderKey(column: string, descending: bool)

  /** What follows the table: WHERE, ORDER BY, LIMIT, OFFSET. */
  datatype Tail = Tail(filter: Option<Sql>, order: seq<OrderKey>, limit: Option<nat>, offset: Option<nat>)

  datatype Select = Select(projection: Projection, table: seq<string>, tail: Tail)

  // ----- syntax

  function YieldNames(sep: Tok, names: seq<string>): seq<Tok> {
    if names == [] then []
    else if |names| == 1 then [Name(names[0])]
    else [Name(names[0]), sep] + YieldNames(sep, names[1..])
  }

  function YieldKey(key: OrderKey): seq<Tok> {
    [Name(key.column), Kw(if key.descending then DESC else ASC)]
  }

  function YieldKeys(keys: seq<OrderKey>): seq<Tok> {
    if keys == [] then []
    else if |keys| == 1 then YieldKey(keys[0])
    else YieldKey(keys[0]) + [Sep] + YieldKeys(keys[1..])
  }

  function YieldProjection(p: Projection): seq<Tok> {
    match p
    case AllColumns => [Star]
    case Columns(names) => YieldNames(Sep, names)
    case CountRows(alias) => [Word("COUNT"), LP, Star, RP, Kw(AS), Word(alias)]
  }

  function YieldWhere(filter: Option<Sql>): seq<Tok> {
    if filter.Some? then [Kw(WHERE)] + Yield(filter.value) else []
  }

  function YieldOrder(order: seq<OrderKey>): seq<Tok> {
    if order == [] then [] else [Kw(ORDER), Kw(BY)] + YieldKeys(order)
  }

  function YieldBound(k: Keyword, n: Option<nat>): seq<Tok> {
    if n.Some? then [Kw(k), Num(Digits(n.value))] else []
  }

  function YieldTail(t: Tail): seq<Tok> {
    YieldWhere(t.filter) + (YieldOrder(t.order) + (YieldBound(LIMIT, t.limit) + YieldBound(OFFSET, t.offset)))
  }

  function YieldHead(p: Projection, table: seq<string>): seq<Tok> {
    [Kw(SELECT)] + YieldProjection(p) + [Kw(FROM)] + YieldNames(Dot, table)
  }

  // ----- reference parser

  function ParseNames(sep: Tok, ts: seq<Tok>): Option<(seq<string>, seq<Tok>)> {
    if ts == [] || !ts[0].Name? then None
    else if |ts| > 1 && ts[1] == sep then
      match ParseNames(sep, ts[2..])
      case None => None
      case Some((names, rest)) => Some(([ts[0].s] + names, rest))
    else Some(([ts[0].s], ts[1..]))
  }

  function ParseProjection(ts: seq<Tok>): Option<(Projection, seq<Tok>)> {
    if ts == [] then None
    else if ts[0] == Star then Some((AllColumns, ts[1..]))
    else if |ts| >= 6 && ts[0].Word? && ts[..5] == [Word("COUNT"), LP, Star, RP, Kw(AS)] && ts[5].Word? then
      Some((CountRows(ts[5].w), ts[6..]))
    else
      match ParseNames(Sep, ts)
      case None => None
      case Some((names, rest)) => Some((Columns(names), rest))
  }

  function ParseKeys(ts: seq<Tok>): Option<(seq<OrderKey>, seq<Tok>)> {
    if |ts| < 2 || !ts[0].Name? || (ts[1] != Kw(ASC) && ts[1] != Kw(DESC)) then None
    else
      var key := OrderKey(ts[0].s, ts[1] == Kw(DESC));
      if |ts| > 2 && ts[2] == Sep then
        match ParseKeys(ts[3..])
        case None => None
        case Some((keys, rest)) => Some(([key] + keys, rest))
      else Some(([key], ts[2..]))
  }

  function ParseWhere(ts: seq<Tok>): Option<(Option<Sql>, seq<Tok>)> {
    if ts == [] || ts[0] != Kw(WHERE) then Some((None, ts))
    else
      match P.OrExpr(ts[1..])
      case Fail => None
      case Got(e, rest) => Some((Some(e), rest))
  }

  function ParseOrder(ts: seq<Tok>): Option<(seq<OrderKey>, seq<Tok>)> {
    if ts == [] || ts[0] != Kw(ORDER) then Some(([], ts))
    else if |ts| > 1 && ts[1] == Kw(BY) then ParseKeys(ts[2..])
    else None
  }

  function ParseBound(k: Keyword, ts: seq<Tok>): Option<(Option<nat>, seq<Tok>)> {
    if ts == [] || ts[0] != Kw(k) then Some((None, ts))
    else if |ts| > 1 && ts[1].Num? && AllDigits(ts[1].text) then Some((Some(ValueOf(ts[1].text)), ts[2..]))
    else None
  }

  function ParseTail(ts: seq<Tok>): Option<Tail> {
    match ParseWhere(ts)
    case None => None
    case Some((filter, ts1)) =>
      match ParseOrder(ts1)
      case None => None
      case Some((order, ts2)) =>
        match ParseBound(LIMIT, ts2)
        case None => None
        case Some((limit, ts3)) =>
          match ParseBound(OFFSET, ts3)
          case None => None
          case Some((offset, ts4)) => if ts4 == [] then Some(Tail(filter, order, limit, offset)) else None
  }

  function ParseHead(ts: seq<Tok>): Option<((Projection, seq<string>), seq<Tok>)> {
    if ts == [] || ts[0] != Kw(SELECT) then None
    else
      match ParseProjection(ts[1..])
      case None => None
      case Some((p, rest)) =>
        if rest == [] || rest[0] != Kw(FROM) then None
        else
          match ParseNames(Dot, rest[1..])
          case None => None
          case Some((table, tail)) => Some(((p, table), tail))
  }

  function ParseSelect(ts: seq<Tok>): Option<Select> {
    match ParseHead(ts)
    case None => None
    case Some(((p, table), rest)) =>
      match ParseTail(rest)
      case None => None
      case Some(tail) => Some(Select(p, table, tail))
  }

  /** What SQL text means as a statement. */
  function ReadSelect(text: string): Option<Select> {
    match LexSql(text)
    case None => None
    case Some(ts) => ParseSelect(ts)
  }

  // ----- completeness

  lemma ParseNamesMore(sep: Tok, name: string, rest: seq<Tok>)
    requires ParseNames(sep, rest).Some?
    ensures ParseNames(sep, [Name(name), sep] + rest) ==
            Some(([name] + ParseNames(sep, rest).value.0, ParseNames(sep, rest).value.1))
  {
    assert ([Name(name), sep] + rest)[2..] == rest;
  }

  lemma {:induction false} NamesComplete(sep: Tok, names: seq<string>, rest: seq<Tok>)
    requires names != [] && !sep.Name? && (rest == [] || rest[0] != sep)
    ensures ParseNames(sep, YieldNames(sep, names) + rest) == Some((names, rest))
  {
    if |names| == 1 {
      assert (YieldNames(sep, names) + rest)[1..] == rest && [names[0]] == names;
    } else {
      hide ParseNames;
      NamesComplete(sep, names[1..], rest);
      ParseNamesMore(sep, names[0], YieldNames(sep, names[1..]) + rest);
      assert YieldNames(sep, names) + rest == [Name(names[0]), sep] + (YieldNames(sep, names[1..]) + rest);
      assert [names[0]] + names[1..] == names;
    }
  }

  lemma ParseKeysLast(key: OrderKey, rest: seq<Tok>)
    requires rest == [] || rest[0] != Sep
    ensures ParseKeys(YieldKey(key) + rest) == Some(([key], rest))
  {
    var ts := YieldKey(key) + rest;
    assert ts[0] == Name(key.column) && ts[2..] == rest;
  }

  lemma ParseKeysMore(key: OrderKey, rest: seq<Tok>)
    requires ParseKeys(rest).Some?
    ensures ParseKeys(YieldKey(key) + ([Sep] + rest)) == Some(([key] + ParseKeys(rest).value.0, ParseKeys(rest).value.1))
  {
    var ts := YieldKey(key) + ([Sep] + rest);
    assert ts[0] == Name(key.column) && ts[2] == Sep && ts[3..] == rest;
  }

  lemma {:induction false} KeysComplete(keys: seq<OrderKey>, rest: seq<Tok>)
    requires keys != [] && (rest == [] || rest[0] != Sep)
    ensures ParseKeys(YieldKeys(keys) + rest) == Some((keys, rest))
  {
    hide ParseKeys, YieldKey;
    if |keys| == 1 {
      ParseKeysLast(keys[0], rest);
      assert [keys[0]] == keys;
    } else {
      KeysComplete(keys[1..], rest);
      ParseKeysMore(keys[0], YieldKeys(keys[1..]) + rest);
      assert YieldKeys(keys) + rest == YieldKey(keys[0]) + ([Sep] + (YieldKeys(keys[1..]) + rest));
      assert [keys[0]] + keys[1..] == keys;
    }
  }

  predicate ValidProjection(p: Projection) {
    p.Columns? ==> p.names != []
  }

  lemma ProjectionComplete(p: Projection, rest: seq<Tok>)
    requires ValidProjection(p) && (rest == [] || rest[0] != Sep)
    ensures ParseProjection(YieldProjection(p) + rest) == Some((p, rest))
  {
    var ts := YieldProjection(p) + rest;
    match p
    case AllColumns => assert ts[1..] == rest;
    case CountRows(alias) =>
      assert ts[..5] == [Word("COUNT"), LP, Star, RP, Kw(AS)] && ts[6..] == rest;
    case Columns(names) =>
      NamesComplete(Sep, names, rest);
      assert ts[0].Name?;
  }

  /** A clause that may follow the table does not continue a name list or an expression. */
  predicate StartsClause(ts: seq<Tok>) {
    ts == [] || ts[0] in {Kw(WHERE), Kw(ORDER), Kw(LIMIT), Kw(OFFSET)}
  }

  lemma BoundComplete(k: Keyword, n: Option<nat>, rest: seq<Tok>)
    requires rest == [] || rest[0] != Kw(k)
    ensures ParseBound(k, YieldBound(k, n) + rest) == Some((n, rest))
  {
    var ts := YieldBound(k, n) + rest;
    if n.Some? {
      ValueOfDigits(n.value);
      assert ts[2..] == rest;
    } else {
      assert ts == rest;
    }
  }

  lemma OrderComplete(order: seq<OrderKey>, rest: seq<Tok>)
    requires rest == [] || (rest[0] != Kw(ORDER) && rest[0] != Sep)
    ensures ParseOrder(YieldOrder(order) + rest) == Some((order, rest))
  {
    hide ParseKeys, YieldKeys;
    var ts := YieldOrder(order) + rest;
    if order == [] {
      assert ts == rest;
    } else {
      assert ts[2..] == YieldKeys(order) + rest;
      KeysComplete(order, rest);
    }
  }

  lemma WhereComplete(filter: Option<Sql>, rest: seq<Tok>)
    requires filter.Some? ==> WellFormed(filter.value)
    requires StartsClause(rest) && (rest != [] ==> rest[0] != Kw(WHERE))
    ensures ParseWhere(YieldWhere(filter) + rest) == Some((filter, rest))
  {
    hide P.OrExpr, P.AndExpr, P.NotExpr, P.ChainExpr, P.Primary, Yield;
    var ts := YieldWhere(filter) + rest;
    if filter.None? {
      assert ts == rest;
    } else {
      assert ts[1..] == Yield(filter.value) + rest;
      P.Complete(filter.value, 0, rest);
    }
  }

  lemma TailComplete(t: Tail)
    requires t.filter.Some? ==> WellFormed(t.filter.value)
    ensures ParseTail(YieldTail(t)) == Some(t)
  {
    hide ParseWhere, ParseOrder, ParseBound, WellFormed, Yield, YieldKeys, Digits;
    var offset := YieldBound(OFFSET, t.offset);
    assert offset + [] == offset;
    BoundComplete(OFFSET, t.offset, []);
    var limit := YieldBound(LIMIT, t.limit) + offset;
    BoundComplete(LIMIT, t.limit, offset);
    OrderComplete(t.order, limit);
    WhereComplete(t.filter, YieldOrder(t.order) + limit);
  }

  lemma TailStartsClause(t: Tail)
    ensures StartsClause(YieldTail(t))
  {
  }

  lemma HeadComplete(p: Projection, table: seq<string>, rest: seq<Tok>)
    requires ValidProjection(p) && table != [] && StartsClause(rest)
    ensures ParseHead(YieldHead(p, table) + rest) == Some(((p, table), rest))
  {
    hide ParseProjection, ParseNames;
    var from := [Kw(FROM)] + (YieldNames(Dot, table) + rest);
    assert (YieldHead(p, table) + rest)[1..] == YieldProjection(p) + from;
    ProjectionComplete(p, from);
    assert from[1..] == YieldNames(Dot, table) + rest;
    NamesComplete(Dot, table, rest);
  }

  /** Text that lexes to the tokens of a statement is read as a statement with that head, and with that
      tail exactly when the WHERE tree is one the grammar derives. */
  lemma SelectExact(text: string, s: Select)
    requires Lexes(text, YieldHead(s.projection, s.table) + YieldTail(s.tail))
    requires ValidProjection(s.projection) && s.table != []
    ensures ReadSelect(text) == Some(s) <==> (s.tail.filter.Some? ==> WellFormed(s.tail.filter.value))
  {
    hide ParseHead, ParseTail, YieldHead, YieldTail, LexSql;
    TailStartsClause(s.tail);
    HeadComplete(s.projection, s.table, YieldTail(s.tail));
    if s.tail.filter.Some? ==> WellFormed(s.tail.filter.value) {
      TailComplete(s.tail);
    }
    TailWellFormed(YieldTail(s.tail));
  }

  lemma TailWellFormed(ts: seq<Tok>)
    ensures ParseTail(ts).Some? && ParseTail(ts).value.filter.Some? ==> WellFormed(ParseTail(ts).value.filter.value)
  {
    hide ParseOrder, ParseBound;
    if ts != [] && ts[0] == Kw(WHERE) {
      P.OrSound(ts[1..]);
    }
  }
}
