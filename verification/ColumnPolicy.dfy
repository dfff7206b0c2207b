/** The column allow-list (src/server/odata_server.cpp, ApplyColumnPolicy) and what it guarantees. */
module ColumnPolicy {
  import opened Text
  import opened Edm
  import opened FilterGrammar
  import opened SqlLexer
  import opened ExprCompiler
  import opened ExprMeaning
  import opened ExprSemantics
  import opened SqlCompiler
  import opened SqlStatement
  import opened StatementMeaning
  import opened Relational
  import G = SqlGrammar
  import P = SqlParsing

  predicate Listed(columns: seq<string>, name: string) {
    exists i | 0 <= i < |columns| :: SameName(name, columns[i])
  }

  function Allowed(properties: seq<EdmProperty>, columns: seq<string>): (r: seq<EdmProperty>)
    ensures forall p | p in r :: p in properties && Listed(columns, p.name)
    ensures r == [] <==> forall p | p in properties :: !Listed(columns, p.name)
  {
    if properties == [] then []
    else
      assert forall p | p in properties :: p == properties[0] || p in properties[1..];
      (if Listed(columns, properties[0].name) then [properties[0]] else []) + Allowed(properties[1..], columns)
  }

  predicate AnyKey(properties: seq<EdmProperty>) {
    exists i | 0 <= i < |properties| :: properties[i].isKey
  }

  /** An empty list means no restriction. */
  function Policy(e: EdmEntity, columns: seq<string>): EdmEntity {
    if columns == [] then e
    else
      var allowed := Allowed(e.properties, columns);
      e.(properties := allowed, hasKey := AnyKey(allowed))
  }

  lemma AllowedCons(p: EdmProperty, rest: seq<EdmProperty>, columns: seq<string>)
    ensures Allowed([p] + rest, columns) == (if Listed(columns, p.name) then [p] else []) + Allowed(rest, columns)
    ensures Allowed([], columns) == []
  {
    hide Listed;
    assert ([p] + rest)[1..] == rest;
  }

  lemma {:induction false} AllowedSnoc(properties: seq<EdmProperty>, p: EdmProperty, columns: seq<string>)
    ensures Allowed(properties + [p], columns) ==
            Allowed(properties, columns) + (if Listed(columns, p.name) then [p] else [])
  {
    hide Listed, Allowed;
    if properties == [] {
      AllowedCons(p, [], columns);
      assert [] + [p] == [p] + [];
    } else {
      var first, rest := properties[0], properties[1..];
      AllowedSnoc(rest, p, columns);
      AllowedCons(first, rest, columns);
      AllowedCons(first, rest + [p], columns);
      assert properties == [first] + rest && properties + [p] == [first] + (rest + [p]);
    }
  }

  lemma {:induction false} AllowedAreListed(properties: seq<EdmProperty>, columns: seq<string>)
    ensures forall p :: p in Allowed(properties, columns) <==> p in properties && Listed(columns, p.name)
  {
    hide Listed;
    if properties != [] {
      AllowedAreListed(properties[1..], columns);
      assert forall p | p in properties :: p == properties[0] || p in properties[1..];
    }
  }

  /** Under a non-empty list the entity keeps its name, its table and exactly the listed properties, and has a key when one of
      them is one; an empty list changes nothing. */
  lemma PolicyKeeps(e: EdmEntity, columns: seq<string>)
    ensures columns == [] ==> Policy(e, columns) == e
    ensures columns != [] ==>
              var r := Policy(e, columns);
              && (forall p :: p in r.properties <==> p in e.properties && exists i | 0 <= i < |columns| :: SameName(p.name, columns[i]))
              && (r.hasKey <==> exists p | p in r.properties :: p.isKey)
              && r.name == e.name && r.catalog == e.catalog && r.schema == e.schema && r.table == e.table
  {
    hide Allowed;
    AllowedAreListed(e.properties, columns);
  }

  method IsListed(columns: seq<string>, name: string) returns (found: bool)
    ensures found == Listed(columns, name)
  {
    for i := 0 to |columns|
      invariant forall k | 0 <= k < i :: !SameName(name, columns[k])
    {
      if SameName(name, columns[i]) {
        return true;
      }
    }
    return false;
  }

  method HasAnyKey(properties: seq<EdmProperty>) returns (found: bool)
    ensures found == AnyKey(properties)
  {
    for i := 0 to |properties|
      invariant forall k | 0 <= k < i :: !properties[k].isKey
    {
      if properties[i].isKey {
        return true;
      }
    }
    return false;
  }

  method ApplyColumnPolicy(e: EdmEntity, columns: seq<string>) returns (r: EdmEntity)
    ensures r == Policy(e, columns)
  {
    hide Listed, AnyKey;
    if columns == [] {
      return e;
    }
    var allowed: seq<EdmProperty> := [];
    for i := 0 to |e.properties|
      invariant allowed == Allowed(e.properties[..i], columns)
    {
      assert e.properties[..i + 1] == e.properties[..i] + [e.properties[i]];
      AllowedSnoc(e.properties[..i], e.properties[i], columns);
      var found := IsListed(columns, e.properties[i].name);
      if found {
        allowed := allowed + [e.properties[i]];
      }
    }
    assert e.properties[..|e.properties|] == e.properties;
    var hasKey := HasAnyKey(allowed);
    r := e.(properties := allowed, hasKey := hasKey);
  }

  // ----- what a request can observe

  /** A read request once its options are parsed. */
  datatype Request = Collect(q: ODataQuery, maxTop: int) | CountAll(q: ODataQuery) | Find(q: ODataQuery, key: seq<string>)

  function RequestText(s: Schema, r: Request): Result<string> {
    match r
    case Collect(q, maxTop) => Collection(s, q, maxTop)
    case CountAll(q) => Count(s, q)
    case Find(q, key) => ByKey(s, q, key)
  }

  function Respond(w: World, s: Schema, r: Request, db: Store): Answer {
    match RequestText(s, r)
    case Err(_) => Failed
    case Ok(text) => Run(w, text, db)
  }

  /** The two rows hold the same values in every exposed column. */
  predicate SameExposed(properties: seq<EdmProperty>, a: Row, b: Row) {
    forall p | p in properties :: Lookup(a, p.name) == Lookup(b, p.name)
  }

  predicate TablesAgree(properties: seq<EdmProperty>, t: seq<Row>, u: seq<Row>) {
    |t| == |u| && forall i | 0 <= i < |t| :: SameExposed(properties, t[i], u[i])
  }

  /** The entity's table is missing from both databases, or holds rows that agree in both; other tables are arbitrary. */
  predicate StoresAgree(e: EdmEntity, t: Store, u: Store) {
    match (TableOf(t, e), TableOf(u, e))
    case (Some(a), Some(b)) => TablesAgree(e.properties, a, b)
    case (a, b) => a == b
  }

  predicate Exposed(properties: seq<EdmProperty>, name: string) {
    exists p | p in properties :: SameName(p.name, name)
  }

  lemma ExposedLookup(properties: seq<EdmProperty>, a: Row, b: Row, name: string)
    requires SameExposed(properties, a, b) && Exposed(properties, name)
    ensures Lookup(a, name) == Lookup(b, name)
  {
  }

  predicate AllExposed(properties: seq<EdmProperty>, ts: seq<Tok>) {
    forall i | 0 <= i < |ts| && ts[i].Name? :: Exposed(properties, ts[i].s)
  }

  lemma AllExposedCat(properties: seq<EdmProperty>, a: seq<Tok>, b: seq<Tok>)
    ensures AllExposed(properties, a + b) <==> AllExposed(properties, a) && AllExposed(properties, b)
  {
    assert forall i | 0 <= i < |a| :: (a + b)[i] == a[i];
    assert forall i | 0 <= i < |b| :: (a + b)[|a| + i] == b[i];
  }

  predicate UsesExposed(properties: seq<EdmProperty>, e: G.Sql) {
    match e
    case Atom(t) => t.Name? ==> Exposed(properties, t.s)
    case Negative(_) => true
    case CastTo(a, _) => UsesExposed(properties, a)
    case Invoke(_, args) => forall i | 0 <= i < |args| :: UsesExposed(properties, args[i])
    case Paren(inner) => UsesExposed(properties, inner)
    case Comparison(_, l, r) => UsesExposed(properties, l) && UsesExposed(properties, r)
    case NullTest(a, _) => UsesExposed(properties, a)
    case Negation(c) => UsesExposed(properties, c)
    case Conj(l, r) => UsesExposed(properties, l) && UsesExposed(properties, r)
    case Disj(l, r) => UsesExposed(properties, l) && UsesExposed(properties, r)
  }

  lemma {:induction false} EvalSame(w: World, properties: seq<EdmProperty>, e: G.Sql, a: Row, b: Row)
    requires UsesExposed(properties, e) && SameExposed(properties, a, b)
    ensures EvalSql(w, e, a) == EvalSql(w, e, b)
  {
    match e
    case Atom(t) => if t.Name? { ExposedLookup(properties, a, b, t.s); }
    case Negative(_) =>
    case CastTo(x, _) => EvalSame(w, properties, x, a, b);
    case Invoke(f, args) =>
      forall i | 0 <= i < |args| ensures EvalSql(w, args[i], a) == EvalSql(w, args[i], b) {
        EvalSame(w, properties, args[i], a, b);
      }
      var us := seq(|args|, i requires 0 <= i < |args| => EvalSql(w, args[i], a));
      var vs := seq(|args|, i requires 0 <= i < |args| => EvalSql(w, args[i], b));
      assert us == vs;
    case Paren(inner) => EvalSame(w, properties, inner, a, b);
    case Comparison(_, l, r) => EvalSame(w, properties, l, a, b); EvalSame(w, properties, r, a, b);
    case NullTest(x, _) => EvalSame(w, properties, x, a, b);
    case Negation(c) => EvalSame(w, properties, c, a, b);
    case Conj(l, r) => EvalSame(w, properties, l, a, b); EvalSame(w, properties, r, a, b);
    case Disj(l, r) => EvalSame(w, properties, l, a, b); EvalSame(w, properties, r, a, b);
  }

  predicate TailUsesExposed(properties: seq<EdmProperty>, t: Tail) {
    && (t.filter.Some? ==> UsesExposed(properties, t.filter.value))
    && forall k | k in t.order :: Exposed(properties, k.column)
  }

  lemma {:induction false} FilteredSame(w: World, properties: seq<EdmProperty>, filter: Option<G.Sql>, t: seq<Row>, u: seq<Row>)
    requires TablesAgree(properties, t, u) && (filter.Some? ==> UsesExposed(properties, filter.value))
    ensures TablesAgree(properties, Filtered(w, filter, t), Filtered(w, filter, u))
  {
    if t != [] {
      if filter.Some? {
        EvalSame(w, properties, filter.value, t[0], u[0]);
      }
      FilteredSame(w, properties, filter, t[1..], u[1..]);
    }
  }

  lemma {:induction false} PrecedesSame(w: World, properties: seq<EdmProperty>, order: seq<OrderKey>, a: Row, b: Row, c: Row, d: Row)
    requires SameExposed(properties, a, c) && SameExposed(properties, b, d)
    requires forall k | k in order :: Exposed(properties, k.column)
    ensures Precedes(w, order, a, b) == Precedes(w, order, c, d)
  {
    if order != [] {
      assert order[0] in order;
      ExposedLookup(properties, a, c, order[0].column);
      ExposedLookup(properties, b, d, order[0].column);
      PrecedesSame(w, properties, order[1..], a, b, c, d);
    }
  }

  lemma {:induction false} InsertSame(w: World, properties: seq<EdmProperty>, order: seq<OrderKey>, a: Row, t: seq<Row>, b: Row, u: seq<Row>)
    requires SameExposed(properties, a, b) && TablesAgree(properties, t, u)
    requires forall k | k in order :: Exposed(properties, k.column)
    ensures TablesAgree(properties, Insert(w, order, a, t), Insert(w, order, b, u))
  {
    if t != [] {
      PrecedesSame(w, properties, order, t[0], a, u[0], b);
      InsertSame(w, properties, order, a, t[1..], b, u[1..]);
    }
  }

  lemma {:induction false} SortedSame(w: World, properties: seq<EdmProperty>, order: seq<OrderKey>, t: seq<Row>, u: seq<Row>)
    requires TablesAgree(properties, t, u) && forall k | k in order :: Exposed(properties, k.column)
    ensures TablesAgree(properties, Sorted(w, order, t), Sorted(w, order, u))
  {
    if t != [] {
      SortedSame(w, properties, order, t[1..], u[1..]);
      InsertSame(w, properties, order, t[0], Sorted(w, order, t[1..]), u[0], Sorted(w, order, u[1..]));
    }
  }

  predicate ProjectionExposed(properties: seq<EdmProperty>, p: Projection) {
    match p
    case AllColumns => false
    case CountRows(_) => true
    case Columns(names) => forall i | 0 <= i < |names| :: Exposed(properties, names[i])
  }

  lemma OutputSame(properties: seq<EdmProperty>, p: Projection, t: seq<Row>, u: seq<Row>)
    requires TablesAgree(properties, t, u) && p.Columns? && ProjectionExposed(properties, p)
    ensures Output(p, t) == Output(p, u)
  {
    forall i | 0 <= i < |t| ensures OutputRow(p, t[i]) == OutputRow(p, u[i]) {
      forall k | 0 <= k < |p.names| ensures Lookup(t[i], p.names[k]) == Lookup(u[i], p.names[k]) {
        ExposedLookup(properties, t[i], u[i], p.names[k]);
      }
      assert OutputRow(p, t[i]).cells == OutputRow(p, u[i]).cells;
    }
  }

  lemma EvaluateSame(w: World, properties: seq<EdmProperty>, s: Select, t: seq<Row>, u: seq<Row>)
    requires TablesAgree(properties, t, u)
    requires ProjectionExposed(properties, s.projection) && TailUsesExposed(properties, s.tail)
    ensures Evaluate(w, s, t) == Evaluate(w, s, u)
  {
    var ft, fu := Filtered(w, s.tail.filter, t), Filtered(w, s.tail.filter, u);
    FilteredSame(w, properties, s.tail.filter, t, u);
    if s.projection.Columns? {
      SortedSame(w, properties, s.tail.order, ft, fu);
      OutputSame(properties, s.projection, Selected(w, s.tail, t), Selected(w, s.tail, u));
    }
  }

  // ----- whatever SQL makes of the text, only exposed names occur where columns are read

  lemma InfixTokens(properties: seq<EdmProperty>, a: seq<Tok>, t: Tok, b: seq<Tok>)
    requires AllExposed(properties, a + [t] + b)
    ensures AllExposed(properties, a) && AllExposed(properties, b)
  {
    AllExposedCat(properties, a + [t], b);
    AllExposedCat(properties, a, [t]);
  }

  lemma {:induction false} UsesFromTokens(properties: seq<EdmProperty>, e: G.Sql)
    requires AllExposed(properties, G.Yield(e))
    ensures UsesExposed(properties, e)
  {
    match e
    case Atom(t) => assert G.Yield(e)[0] == t;
    case Negative(_) =>
    case CastTo(a, ty) =>
      AllExposedCat(properties, [Kw(CAST), LP] + G.Yield(a) + [Kw(AS)] + ty, [RP]);
      AllExposedCat(properties, [Kw(CAST), LP] + G.Yield(a) + [Kw(AS)], ty);
      AllExposedCat(properties, [Kw(CAST), LP] + G.Yield(a), [Kw(AS)]);
      AllExposedCat(properties, [Kw(CAST), LP], G.Yield(a));
      UsesFromTokens(properties, a);
    case Invoke(f, args) =>
      AllExposedCat(properties, [Word(f), LP], G.YieldArgs(args));
      ArgsFromTokens(properties, args);
    case Paren(inner) =>
      AllExposedCat(properties, [LP] + G.Yield(inner), [RP]);
      AllExposedCat(properties, [LP], G.Yield(inner));
      UsesFromTokens(properties, inner);
    case Comparison(op, l, r) =>
      InfixTokens(properties, G.Yield(l), Op(op), G.Yield(r));
      UsesFromTokens(properties, l);
      UsesFromTokens(properties, r);
    case Conj(l, r) =>
      InfixTokens(properties, G.Yield(l), Kw(SqlLexer.AND), G.Yield(r));
      UsesFromTokens(properties, l);
      UsesFromTokens(properties, r);
    case Disj(l, r) =>
      InfixTokens(properties, G.Yield(l), Kw(SqlLexer.OR), G.Yield(r));
      UsesFromTokens(properties, l);
      UsesFromTokens(properties, r);
    case NullTest(a, negated) =>
      AllExposedCat(properties, G.Yield(a), if negated then [Kw(IS), Kw(NOT), Kw(NULL)] else [Kw(IS), Kw(NULL)]);
      UsesFromTokens(properties, a);
    case Negation(c) =>
      AllExposedCat(properties, [Kw(NOT)], G.Yield(c));
      UsesFromTokens(properties, c);
  }

  lemma {:induction false} ArgsFromTokens(properties: seq<EdmProperty>, args: seq<G.Sql>)
    requires AllExposed(properties, G.YieldArgs(args))
    ensures forall i | 0 <= i < |args| :: UsesExposed(properties, args[i])
  {
    if args != [] {
      if |args| == 1 {
        AllExposedCat(properties, G.Yield(args[0]), [RP]);
      } else {
        AllExposedCat(properties, G.Yield(args[0]) + [Sep], G.YieldArgs(args[1..]));
        AllExposedCat(properties, G.Yield(args[0]), [Sep]);
        ArgsFromTokens(properties, args[1..]);
      }
      UsesFromTokens(properties, args[0]);
    }
  }

  lemma {:induction false} KeysFromTokens(properties: seq<EdmProperty>, ts: seq<Tok>)
    requires AllExposed(properties, ts) && ParseKeys(ts).Some?
    ensures forall k | k in ParseKeys(ts).value.0 :: Exposed(properties, k.column)
  {
    assert Exposed(properties, ts[0].s);
    if |ts| > 2 && ts[2] == Sep {
      AllExposedDrop(properties, ts, 3);
      KeysFromTokens(properties, ts[3..]);
    }
  }

  lemma AllExposedDrop(properties: seq<EdmProperty>, ts: seq<Tok>, n: nat)
    requires AllExposed(properties, ts) && n <= |ts|
    ensures AllExposed(properties, ts[n..])
  {
    assert ts == ts[..n] + ts[n..];
    AllExposedCat(properties, ts[..n], ts[n..]);
  }

  /** However the tokens after the table are read, the statement reads only exposed columns. */
  lemma TailFromTokens(properties: seq<EdmProperty>, ts: seq<Tok>)
    requires AllExposed(properties, ts) && ParseTail(ts).Some?
    ensures TailUsesExposed(properties, ParseTail(ts).value)
  {
    hide ParseBound, ParseKeys, Exposed;
    var rest := ts;
    if ts != [] && ts[0] == Kw(WHERE) {
      P.OrSound(ts[1..]);
      AllExposedDrop(properties, ts, 1);
      var e := P.OrExpr(ts[1..]);
      AllExposedCat(properties, G.Yield(e.e), e.rest);
      UsesFromTokens(properties, e.e);
      rest := e.rest;
    }
    if rest != [] && rest[0] == Kw(ORDER) {
      AllExposedDrop(properties, rest, 2);
      KeysFromTokens(properties, rest[2..]);
    }
  }

  // ----- the compilers emit exposed names only

  /** Types that map to an EDM type are spelled with words, numbers and punctuation, never with quoted names. */
  predicate PlainTypes(s: Schema) {
    forall p | p in s.entity.properties && p.edmType != UNSUPPORTED ::
      forall i | 0 <= i < |TypeTokens(p.duckdbType)| :: !TypeTokens(p.duckdbType)[i].Name?
  }

  lemma LiteralTypeIsPlain(s: Schema, other: Expr)
    requires PlainTypes(s)
    ensures AllExposed(s.entity.properties, TypeTokens(LiteralType(s, other)))
  {
    hide Exposed, LexSql;
    EmptyTypeIsPlain(s.entity.properties);
    WordTypeIsPlain(s.entity.properties, "BIGINT");
    WordTypeIsPlain(s.entity.properties, "VARCHAR");
    WordTypeIsPlain(s.entity.properties, "BOOLEAN");
  }

  lemma WordTypeIsPlain(properties: seq<EdmProperty>, t: string)
    requires t != "" && IsWordStart(t[0]) && forall i | 0 <= i < |t| :: IsWordChar(t[i])
    ensures AllExposed(properties, TypeTokens(t))
  {
    hide LexSql, Exposed;
    LexWord(t);
    assert TypeTokens(t) == [WordTok(t)];
    assert !WordTok(t).Name?;
  }

  lemma LiteralNames(properties: seq<EdmProperty>, s: Schema, v: Literal, facing: string)
    requires AllExposed(properties, TypeTokens(facing))
    ensures AllExposed(properties, G.Yield(LiteralTree(s, v, facing)))
  {
    var t := LiteralTree(s, v, facing);
    if t.CastTo? {
      var ty := TypeTokens(facing);
      assert G.Yield(t) == [Kw(CAST), LP] + G.Yield(t.arg) + [Kw(AS)] + ty + [RP];
      AllExposedCat(properties, [Kw(CAST), LP] + G.Yield(t.arg) + [Kw(AS)] + ty, [RP]);
      AllExposedCat(properties, [Kw(CAST), LP] + G.Yield(t.arg) + [Kw(AS)], ty);
    }
  }

  lemma {:induction false} MeantNames(s: Schema, e: Expr)
    requires PlainTypes(s) && Compilable(s, e)
    ensures AllExposed(s.entity.properties, G.Yield(Meant(s, e)))
    decreases e, 1
  {
    hide Exposed, FindFunction, LiteralTree, LiteralType;
    var ps := s.entity.properties;
    match e
    case Property(name) => PropertyIsExposed(s, name);
    case Lit(v) => EmptyTypeIsPlain(ps); LiteralNames(ps, s, v, "");
    case Unary(c) =>
      MeantNames(s, c);
      var n := [Kw(NOT)] + G.Yield(Meant(s, c));
      AllExposedCat(ps, [Kw(NOT)], G.Yield(Meant(s, c)));
      AllExposedCat(ps, [LP], n);
      AllExposedCat(ps, [LP] + n, [RP]);
    case Binary(op, l, r) =>
      if NullTested(e).Some? {
        var x := NullTested(e).value;
        MeantNames(s, x);
        AllExposedCat(ps, G.Yield(Meant(s, x)),
                      if op == Cmp(FilterLexer.NE) then [Kw(IS), Kw(NOT), Kw(NULL)] else [Kw(IS), Kw(NULL)]);
      } else {
        OperandNames(s, l, r);
        OperandNames(s, r, l);
        BinaryNames(ps, op, MeantOperand(s, l, r), MeantOperand(s, r, l));
      }
    case FunctionCall(name, args) =>
      ArgumentNames(s, args);
      var f := FindFunction(name, |args|).value;
      assert Meant(s, e) == G.Invoke(f, MeantArgs(s, args));
      AllExposedCat(ps, [Word(f), LP], G.YieldArgs(MeantArgs(s, args)));
  }

  lemma EmptyTypeIsPlain(properties: seq<EdmProperty>)
    ensures AllExposed(properties, TypeTokens(""))
  {
    LexEmpty();
  }

  lemma PropertyIsExposed(s: Schema, name: string)
    requires FindProperty(s, name).Some?
    ensures Exposed(s.entity.properties, FindProperty(s, name).value.name)
  {
  }

  lemma BinaryNames(properties: seq<EdmProperty>, op: BinaryOp, l: G.Sql, r: G.Sql)
    requires AllExposed(properties, G.Yield(l)) && AllExposed(properties, G.Yield(r))
    ensures AllExposed(properties, G.Yield(BinaryTree(op, l, r)))
  {
    hide Exposed;
    var t := OpTok(op);
    AllExposedCat(properties, G.Yield(l), [t]);
    AllExposedCat(properties, G.Yield(l) + [t], G.Yield(r));
    var inner := G.Yield(l) + [t] + G.Yield(r);
    AllExposedCat(properties, [LP], inner);
    AllExposedCat(properties, [LP] + inner, [RP]);
  }

  lemma {:induction false} OperandNames(s: Schema, e: Expr, other: Expr)
    requires PlainTypes(s) && Compilable(s, e)
    ensures AllExposed(s.entity.properties, G.Yield(MeantOperand(s, e, other)))
    decreases e, 2
  {
    if e.Lit? && !other.Lit? {
      LiteralTypeIsPlain(s, other);
      LiteralNames(s.entity.properties, s, e.value, LiteralType(s, other));
    } else {
      MeantNames(s, e);
    }
  }

  lemma {:induction false} ArgumentNames(s: Schema, args: seq<Expr>)
    requires PlainTypes(s) && forall i | 0 <= i < |args| :: Compilable(s, args[i])
    ensures AllExposed(s.entity.properties, G.YieldArgs(MeantArgs(s, args)))
    decreases args, 0
  {
    hide Exposed;
    var ps, ms := s.entity.properties, MeantArgs(s, args);
    if args != [] {
      MeantNames(s, args[0]);
      if |args| == 1 {
        AllExposedCat(ps, G.Yield(ms[0]), [RP]);
      } else {
        ArgumentNames(s, args[1..]);
        assert ms[1..] == MeantArgs(s, args[1..]);
        AllExposedCat(ps, G.Yield(ms[0]), [Sep]);
        AllExposedCat(ps, G.Yield(ms[0]) + [Sep], G.YieldArgs(ms[1..]));
      }
    }
  }

  lemma {:induction false} KeyTokensExposed(properties: seq<EdmProperty>, keys: seq<OrderKey>)
    requires forall k | k in keys :: Exposed(properties, k.column)
    ensures AllExposed(properties, YieldKeys(keys))
  {
    hide Exposed;
    if keys != [] {
      assert keys[0] in keys;
      if |keys| > 1 {
        KeyTokensExposed(properties, keys[1..]);
        AllExposedCat(properties, YieldKey(keys[0]), [Sep]);
        AllExposedCat(properties, YieldKey(keys[0]) + [Sep], YieldKeys(keys[1..]));
      }
    }
  }

  lemma TailTokensExposed(properties: seq<EdmProperty>, t: Tail)
    requires t.filter.Some? ==> AllExposed(properties, G.Yield(t.filter.value))
    requires forall k | k in t.order :: Exposed(properties, k.column)
    ensures AllExposed(properties, YieldTail(t))
  {
    hide Exposed;
    var l, o := YieldBound(LIMIT, t.limit), YieldBound(OFFSET, t.offset);
    AllExposedCat(properties, l, o);
    KeyTokensExposed(properties, t.order);
    AllExposedCat(properties, [Kw(ORDER), Kw(BY)], YieldKeys(t.order));
    AllExposedCat(properties, YieldOrder(t.order), l + o);
    if t.filter.Some? {
      AllExposedCat(properties, [Kw(WHERE)], G.Yield(t.filter.value));
    }
    AllExposedCat(properties, YieldWhere(t.filter), YieldOrder(t.order) + (l + o));
  }

  lemma ProjectedNamesExposed(q: ODataQuery, e: EdmEntity)
    requires Projected(q, e).Ok?
    ensures forall i | 0 <= i < |Projected(q, e).value| :: Exposed(e.properties, Projected(q, e).value[i])
    ensures Projected(q, e).value == [] ==> e.properties == []
  {
    if q.select == [] {
      assert forall i | 0 <= i < |e.properties| :: e.properties[i] in e.properties;
      assert |Names(e.properties)| == |e.properties|;
    } else {
      SelectedNamesExposed(e.properties, q.select);
    }
  }

  lemma {:induction false} SelectedNamesExposed(properties: seq<EdmProperty>, select: seq<string>)
    requires SelectedNames(properties, select).Ok?
    ensures forall i | 0 <= i < |select| :: Exposed(properties, SelectedNames(properties, select).value[i])
  {
    if select != [] {
      SelectedNamesExposed(properties, select[1..]);
    }
  }

  lemma OrderExposed(properties: seq<EdmProperty>, terms: seq<OrderByTerm>)
    requires KnownTerms(properties, terms)
    ensures forall k | k in MeantKeys(terms) :: Exposed(properties, k.column)
  {
  }

  /** Text with an exposed head and exposed tokens after it gives the same answer on tables that agree. */
  lemma TextSame(w: World, e: EdmEntity, text: string, m: Select, t: Store, u: Store)
    requires StoresAgree(e, t, u) && m.table == TableParts(e)
    requires Lexes(text, YieldHead(m.projection, m.table) + YieldTail(m.tail))
    requires ValidProjection(m.projection) && ProjectionExposed(e.properties, m.projection)
    requires AllExposed(e.properties, YieldTail(m.tail))
    ensures Run(w, text, t) == Run(w, text, u)
  {
    hide ParseHead, ParseTail, YieldHead, YieldTail, LexSql, AllExposed, ProjectionExposed, TailUsesExposed, TableOf, Evaluate, TableParts;
    TailStartsClause(m.tail);
    HeadComplete(m.projection, m.table, YieldTail(m.tail));
    var tail := ParseTail(YieldTail(m.tail));
    if tail.Some? {
      TailFromTokens(e.properties, YieldTail(m.tail));
      StoresSame(w, e, Select(m.projection, m.table, tail.value), t, u);
    }
  }

  lemma StoresSame(w: World, e: EdmEntity, s: Select, t: Store, u: Store)
    requires StoresAgree(e, t, u) && s.table == TableParts(e)
    requires ProjectionExposed(e.properties, s.projection) && TailUsesExposed(e.properties, s.tail)
    ensures Fetch(t, s.table).Some? <==> Fetch(u, s.table).Some?
    ensures Fetch(t, s.table).Some? ==> Evaluate(w, s, Fetch(t, s.table).value) == Evaluate(w, s, Fetch(u, s.table).value)
  {
    hide Evaluate, ProjectionExposed, TailUsesExposed, TablesAgree, TableOf, Fetch;
    PartsNameTable(t, e);
    PartsNameTable(u, e);
    if TableOf(t, e).Some? {
      EvaluateSame(w, e.properties, s, TableOf(t, e).value, TableOf(u, e).value);
    }
  }

  lemma CollectionSame(w: World, s: Schema, q: ODataQuery, maxTop: int, t: Store, u: Store)
    requires ValidSchema(s) && PlainTypes(s) && s.entity.properties != []
    requires StoresAgree(s.entity, t, u) && Collection(s, q, maxTop).Ok?
    ensures Run(w, Collection(s, q, maxTop).value, t) == Run(w, Collection(s, q, maxTop).value, u)
  {
    CollectionCompiles(s, q, maxTop);
    CollectionLexes(s, q, maxTop);
    ProjectedNamesExposed(q, s.entity);
    OrderExposed(s.entity.properties, q.orderBy);
    var m := MeantCollection(s, q, maxTop);
    if q.filter.Some? {
      MeantNames(s, q.filter.value);
    }
    TailTokensExposed(s.entity.properties, m.tail);
    hide AllExposed, Exposed, StoresAgree, Run, Lexes, Projected, YieldHead, YieldTail, Collection;
    TextSame(w, s.entity, Collection(s, q, maxTop).value, m, t, u);
  }

  lemma CountSame(w: World, s: Schema, q: ODataQuery, t: Store, u: Store)
    requires ValidSchema(s) && PlainTypes(s)
    requires StoresAgree(s.entity, t, u) && Count(s, q).Ok?
    ensures Run(w, Count(s, q).value, t) == Run(w, Count(s, q).value, u)
  {
    CountCompiles(s, q);
    CountLexes(s, q);
    var m := MeantCount(s, q);
    if q.filter.Some? {
      MeantNames(s, q.filter.value);
    }
    TailTokensExposed(s.entity.properties, m.tail);
    hide AllExposed, Exposed, StoresAgree, Run, Lexes, YieldHead, YieldTail, Count;
    TextSame(w, s.entity, Count(s, q).value, m, t, u);
  }

  lemma KeyTestExposed(properties: seq<EdmProperty>, p: EdmProperty, raw: string)
    requires Exposed(properties, p.name)
    ensures UsesExposed(properties, MeantKeyTest(p, raw))
  {
    hide KeyValue, TypeTokens;
    assert UsesExposed(properties, MeantKeyLiteral(p, raw));
  }

  lemma {:induction false} KeyFilterExposed(properties: seq<EdmProperty>, keys: seq<EdmProperty>, values: seq<string>)
    requires |keys| == |values| && keys != [] && forall k | k in keys :: k in properties
    ensures UsesExposed(properties, MeantKeyFilter(keys, values))
  {
    var n := |keys| - 1;
    assert keys[n] in properties && Exposed(properties, keys[n].name);
    KeyTestExposed(properties, keys[n], values[n]);
    if n > 0 {
      KeyFilterExposed(properties, keys[..n], values[..n]);
    }
  }

  lemma ByKeySame(w: World, s: Schema, q: ODataQuery, key: seq<string>, t: Store, u: Store)
    requires ValidSchema(s)
    requires StoresAgree(s.entity, t, u) && ByKey(s, q, key).Ok?
    ensures Run(w, ByKey(s, q, key).value, t) == Run(w, ByKey(s, q, key).value, u)
  {
    hide ValidSchema, StoresAgree, Evaluate, ReadSelect, TypeTokens, TableOf, Fetch;
    ByKeyExact(s, q, key);
    ProjectedNamesExposed(q, s.entity);
    var keys := Keys(s.entity.properties);
    assert keys[0] in s.entity.properties;
    KeyFilterExposed(s.entity.properties, keys, key);
    hide Exposed, MeantKeyFilter, UsesExposed, Projected, ByKey;
    StoresSame(w, s.entity, MeantByKey(s, q, key), t, u);
  }

  /** Hidden columns cannot influence any response: with at least one exposed property, two databases in which
      the entity's tables are equal on the exposed columns answer every request alike, whatever its $select, $filter (nested calls and badly grouped
      comparisons included), $orderby, bounds or key. */
  lemma HiddenColumnsDoNotMatter(w: World, s: Schema, r: Request, t: Store, u: Store)
    requires ValidSchema(s) && PlainTypes(s) && s.entity.properties != []
    requires StoresAgree(s.entity, t, u)
    ensures Respond(w, s, r, t) == Respond(w, s, r, u)
  {
    if RequestText(s, r).Ok? {
      match r
      case Collect(q, maxTop) => CollectionSame(w, s, q, maxTop, t, u);
      case CountAll(q) => CountSame(w, s, q, t, u);
      case Find(q, key) => ByKeySame(w, s, q, key, t, u);
    }
  }

  // ----- and exactly when that holds

  const PLAIN: ODataQuery := ODataQuery([], None, [], -1, -1, false)

  /** With nothing exposed, the plain query is `SELECT *`: it returns the whole hidden row. */
  lemma NothingExposedLeaks(w: World, s: Schema, db: Store, row: Row)
    requires ValidSchema(s) && s.entity.properties == [] && TableOf(db, s.entity) == Some([row])
    ensures Respond(w, s, Collect(PLAIN, -1), db) == Rows([Everything(row)])
  {
    PartsNameTable(db, s.entity);
    assert Names(s.entity.properties) == [];
    CollectionExact(s, PLAIN, -1);
    var m := MeantCollection(s, PLAIN, -1);
    assert MeantKeys([]) == [];
    assert m == Select(AllColumns, TableParts(s.entity), Tail(None, [], None, None));
    hide ReadSelect, Collection, MeantCollection, TableOf, Fetch;
    PlainEvaluation(w, m.table, row);
  }

  lemma PlainEvaluation(w: World, table: seq<string>, row: Row)
    ensures Evaluate(w, Select(AllColumns, table, Tail(None, [], None, None)), [row]) == Rows([Everything(row)])
  {
    assert [row][1..] == [];
    assert Filtered(w, None, [row]) == [row];
    assert Sorted(w, [], [row]) == [row];
  }

  /** The schema of an exposed entity under a non-empty allow-list. */
  function Restricted(s: Schema, columns: seq<string>): Schema {
    s.(entity := Policy(s.entity, columns))
  }

  ghost predicate HidesOthers(w: World, s: Schema) {
    forall r, t, u | StoresAgree(s.entity, t, u) :: Respond(w, s, r, t) == Respond(w, s, r, u)
  }

  /** A non-empty allow-list hides every other column if and only if it names at least one column of the table. */
  lemma PolicyExact(w: World, s: Schema, columns: seq<string>)
    requires ValidSchema(s) && PlainTypes(s) && columns != []
    ensures HidesOthers(w, Restricted(s, columns)) <==> exists p | p in s.entity.properties :: Listed(columns, p.name)
  {
    hide ValidSchema, PlainTypes, Respond, Listed;
    var restricted := Restricted(s, columns);
    RestrictedIsValid(s, columns);
    if restricted.entity.properties != [] {
      forall r, t, u | StoresAgree(restricted.entity, t, u)
        ensures Respond(w, restricted, r, t) == Respond(w, restricted, r, u) {
        HiddenColumnsDoNotMatter(w, restricted, r, t, u);
      }
    } else {
      var a: Row, b: Row := map["c" := Whole(0)], map["c" := Whole(1)];
      var t, u := Holding(restricted.entity, [a]), Holding(restricted.entity, [b]);
      NothingExposedLeaks(w, restricted, t, a);
      NothingExposedLeaks(w, restricted, u, b);
      assert a["c"] != b["c"];
      assert StoresAgree(restricted.entity, t, u);
      assert Respond(w, restricted, Collect(PLAIN, -1), t) != Respond(w, restricted, Collect(PLAIN, -1), u);
    }
  }

  /** A database with nothing but the entity's table. */
  function Holding(e: EdmEntity, rows: seq<Row>): (db: Store)
    ensures TableOf(db, e) == Some(rows)
  {
    var catalog := if e.schema == "" then "" else e.catalog;
    Store(map[Place(ToLower(catalog), ToLower(e.schema), ToLower(e.table)) := rows], "", "")
  }

  lemma RestrictedIsValid(s: Schema, columns: seq<string>)
    requires ValidSchema(s) && PlainTypes(s)
    ensures ValidSchema(Restricted(s, columns)) && PlainTypes(Restricted(s, columns))
  {
    hide IsTypeText, IsFixedPoint, Listed;
  }
}
