/** The text of INSERT, UPDATE and DELETE statements (src/execution/write_executor.cpp), and its reading. */
module WriteStatement {
  import opened Text
  import opened Edm
  import opened SqlLexer
  import opened ExprMeaning
  import opened SqlCompiler
  import opened SqlStatement
  import opened StatementMeaning
  import FilterLexer
  import G = SqlGrammar

  // ----- the text

  function HoleText(p: EdmProperty): string {
    "CAST(? AS " + p.duckdbType + ")"
  }

  function HoleTexts(ps: seq<EdmProperty>): seq<string> {
    seq(|ps|, i requires 0 <= i < |ps| => HoleText(ps[i]))
  }

  function AssignText(p: EdmProperty): string {
    QuotedName(p.name) + "=" + HoleText(p)
  }

  function AssignTexts(ps: seq<EdmProperty>): seq<string> {
    seq(|ps|, i requires 0 <= i < |ps| => AssignText(ps[i]))
  }

  /** Unlike the queries' table name, always of three parts. */
  function FullName(e: EdmEntity): seq<string> {
    [e.catalog, e.schema, e.table]
  }

  function TargetText(e: EdmEntity): string {
    Join(QuotedNames(FullName(e)), ".")
  }

  function KeyWhereText(key: EdmProperty): string {
    " WHERE " + (QuotedName(key.name) + (" = " + HoleText(key)))
  }

  function ReturningText(e: EdmEntity): string {
    " RETURNING " + Join(QuotedNames(Names(e.properties)), ",")
  }

  function InsertText(e: EdmEntity, ps: seq<EdmProperty>): string {
    "INSERT INTO " + TargetText(e)
    + (if ps == [] then " DEFAULT VALUES"
       else " (" + Join(QuotedNames(Names(ps)), ",") + ") VALUES (" + Join(HoleTexts(ps), ",") + ")")
    + ReturningText(e)
  }

  function UpdateText(e: EdmEntity, ps: seq<EdmProperty>, key: EdmProperty): string {
    "UPDATE " + TargetText(e) + " SET " + Join(AssignTexts(ps), ",") + KeyWhereText(key) + ReturningText(e)
  }

  function DeleteText(e: EdmEntity, key: EdmProperty): string {
    "DELETE FROM " + TargetText(e) + KeyWhereText(key) + ReturningText(e)
  }

  // ----- statements, their tokens, and an independent reading of tokens

  /** A cast is the type a placeholder is cast to. Placeholders are numbered from left to right. */
  datatype Write =
    | InsertRow(table: seq<string>, columns: seq<string>, casts: seq<seq<Tok>>, returning: seq<string>)
    | InsertDefaults(table: seq<string>, returning: seq<string>)
    | UpdateRows(table: seq<string>, columns: seq<string>, casts: seq<seq<Tok>>, key: string, keyCast: seq<Tok>, returning: seq<string>)
    | DeleteRows(table: seq<string>, key: string, keyCast: seq<Tok>, returning: seq<string>)

  function YieldHole(ty: seq<Tok>): seq<Tok> {
    [Kw(CAST), LP, Hole, Kw(AS)] + ty + [RP]
  }

  function YieldHoles(tys: seq<seq<Tok>>): seq<Tok> {
    if tys == [] then [] else if |tys| == 1 then YieldHole(tys[0]) else YieldHole(tys[0]) + [Sep] + YieldHoles(tys[1..])
  }

  function YieldAssign(name: string, ty: seq<Tok>): seq<Tok> {
    [Name(name), Op(FilterLexer.EQ)] + YieldHole(ty)
  }

  function YieldAssigns(names: seq<string>, tys: seq<seq<Tok>>): seq<Tok>
    requires |names| == |tys|
  {
    if names == [] then []
    else if |names| == 1 then YieldAssign(names[0], tys[0])
    else YieldAssign(names[0], tys[0]) + [Sep] + YieldAssigns(names[1..], tys[1..])
  }

  function YieldKeyWhere(key: string, ty: seq<Tok>): seq<Tok> {
    [Kw(WHERE)] + YieldAssign(key, ty)
  }

  function YieldReturning(names: seq<string>): seq<Tok> {
    [Kw(RETURNING)] + YieldNames(Sep, names)
  }

  predicate ValidWrite(w: Write) {
    && w.table != [] && w.returning != []
    && (w.InsertRow? || w.UpdateRows? ==> w.columns != [] && |w.columns| == |w.casts| && forall i | 0 <= i < |w.casts| :: G.IsTypeName(w.casts[i]))
    && (w.UpdateRows? || w.DeleteRows? ==> G.IsTypeName(w.keyCast))
  }

  /** The tokens after the table name. */
  function YieldRest(w: Write): seq<Tok>
    requires ValidWrite(w)
  {
    match w
    case InsertRow(_, columns, casts, returning) =>
      [LP] + (YieldNames(Sep, columns) + ([RP, Kw(VALUES), LP] + (YieldHoles(casts) + ([RP] + YieldReturning(returning)))))
    case InsertDefaults(_, returning) => [Kw(DEFAULT), Kw(VALUES)] + YieldReturning(returning)
    case UpdateRows(_, columns, casts, key, keyCast, returning) =>
      [Kw(SET)] + (YieldAssigns(columns, casts) + (YieldKeyWhere(key, keyCast) + YieldReturning(returning)))
    case DeleteRows(_, key, keyCast, returning) => YieldKeyWhere(key, keyCast) + YieldReturning(returning)
  }

  function YieldVerb(w: Write): seq<Tok> {
    if w.UpdateRows? then [Kw(UPDATE)] else if w.DeleteRows? then [Kw(DELETE), Kw(FROM)] else [Kw(INSERT), Kw(INTO)]
  }

  function YieldWrite(w: Write): seq<Tok>
    requires ValidWrite(w)
  {
    YieldVerb(w) + (YieldNames(Dot, w.table) + YieldRest(w))
  }

  function ParseHole(ts: seq<Tok>): (r: Option<(seq<Tok>, seq<Tok>)>)
    ensures r.Some? ==> |r.value.1| < |ts|
  {
    if |ts| < 4 || ts[..4] != [Kw(CAST), LP, Hole, Kw(AS)] || G.ScanType(ts[4..], 0).None? then None
    else
      var (ty, rest) := G.ScanType(ts[4..], 0).value;
      G.ScanTypeSplits(ts[4..], 0);
      if ty == [] then None else Some((ty, rest[1..]))
  }

  function ParseHoles(ts: seq<Tok>): Option<(seq<seq<Tok>>, seq<Tok>)>
    decreases |ts|
  {
    match ParseHole(ts)
    case None => None
    case Some((ty, rest)) =>
      if rest != [] && rest[0] == Sep then
        match ParseHoles(rest[1..])
        case None => None
        case Some((tys, after)) => Some(([ty] + tys, after))
      else Some(([ty], rest))
  }

  function ParseAssign(ts: seq<Tok>): (r: Option<((string, seq<Tok>), seq<Tok>)>)
    ensures r.Some? ==> |r.value.1| < |ts|
  {
    if |ts| < 2 || !ts[0].Name? || ts[1] != Op(FilterLexer.EQ) then None
    else
      match ParseHole(ts[2..])
      case None => None
      case Some((ty, rest)) => Some(((ts[0].s, ty), rest))
  }

  function ParseAssigns(ts: seq<Tok>): (r: Option<((seq<string>, seq<seq<Tok>>), seq<Tok>)>)
    ensures r.Some? ==> |r.value.0.0| == |r.value.0.1|
    decreases |ts|
  {
    match ParseAssign(ts)
    case None => None
    case Some(((name, ty), rest)) =>
      if rest != [] && rest[0] == Sep then
        match ParseAssigns(rest[1..])
        case None => None
        case Some(((names, tys), after)) => Some((([name] + names, [ty] + tys), after))
      else Some((([name], [ty]), rest))
  }

  /** RETURNING and its columns, to the end. */
  function ParseReturning(ts: seq<Tok>): Option<seq<string>> {
    if ts == [] || ts[0] != Kw(RETURNING) then None
    else
      match ParseNames(Sep, ts[1..])
      case None => None
      case Some((names, rest)) => if rest == [] then Some(names) else None
  }

  /** WHERE on the key and RETURNING, to the end. */
  function ParseKeyWhere(ts: seq<Tok>): Option<((string, seq<Tok>), seq<string>)> {
    if ts == [] || ts[0] != Kw(WHERE) then None
    else
      match ParseAssign(ts[1..])
      case None => None
      case Some((key, rest)) =>
        match ParseReturning(rest)
        case None => None
        case Some(names) => Some((key, names))
  }

  function ParseInsert(table: seq<string>, ts: seq<Tok>): Option<Write> {
    if |ts| >= 2 && ts[..2] == [Kw(DEFAULT), Kw(VALUES)] then
      match ParseReturning(ts[2..])
      case None => None
      case Some(returning) => Some(InsertDefaults(table, returning))
    else if ts == [] || ts[0] != LP then None
    else
      match ParseNames(Sep, ts[1..])
      case None => None
      case Some((columns, rest)) =>
        if |rest| < 3 || rest[..3] != [RP, Kw(VALUES), LP] then None
        else
          match ParseHoles(rest[3..])
          case None => None
          case Some((casts, after)) =>
            if after == [] || after[0] != RP || ParseReturning(after[1..]).None? then None
            else Some(InsertRow(table, columns, casts, ParseReturning(after[1..]).value))
  }

  function ParseUpdate(table: seq<string>, ts: seq<Tok>): Option<Write> {
    if ts == [] || ts[0] != Kw(SET) then None
    else
      match ParseAssigns(ts[1..])
      case None => None
      case Some(((columns, casts), rest)) =>
        match ParseKeyWhere(rest)
        case None => None
        case Some(((key, ty), returning)) => Some(UpdateRows(table, columns, casts, key, ty, returning))
  }

  function ParseWrite(ts: seq<Tok>): Option<Write> {
    if ts == [] then None
    else if ts[0] == Kw(UPDATE) then
      match ParseNames(Dot, ts[1..])
      case None => None
      case Some((table, rest)) => ParseUpdate(table, rest)
    else if |ts| >= 2 && ts[..2] == [Kw(INSERT), Kw(INTO)] then
      match ParseNames(Dot, ts[2..])
      case None => None
      case Some((table, rest)) => ParseInsert(table, rest)
    else if |ts| >= 2 && ts[..2] == [Kw(DELETE), Kw(FROM)] then
      match ParseNames(Dot, ts[2..])
      case None => None
      case Some((table, rest)) =>
        match ParseKeyWhere(rest)
        case None => None
        case Some(((key, ty), returning)) => Some(DeleteRows(table, key, ty, returning))
    else None
  }

  function ReadWrite(text: string): Option<Write> {
    match LexSql(text)
    case None => None
    case Some(ts) => ParseWrite(ts)
  }

  // ----- reading gives back what was written

  lemma HoleComplete(ty: seq<Tok>, rest: seq<Tok>)
    requires G.IsTypeName(ty)
    ensures ParseHole(YieldHole(ty) + rest) == Some((ty, rest))
  {
    var ts := YieldHole(ty) + rest;
    assert ts[..4] == [Kw(CAST), LP, Hole, Kw(AS)] && ts[4..] == ty + [RP] + rest;
    G.ScanTypeName(ty, rest);
    assert ([RP] + rest)[1..] == rest;
  }

  lemma {:induction false} HolesComplete(tys: seq<seq<Tok>>, rest: seq<Tok>)
    requires tys != [] && (forall i | 0 <= i < |tys| :: G.IsTypeName(tys[i])) && (rest == [] || rest[0] != Sep)
    ensures ParseHoles(YieldHoles(tys) + rest) == Some((tys, rest))
  {
    hide ParseHole, YieldHole, G.IsTypeName;
    if |tys| == 1 {
      HoleComplete(tys[0], rest);
      assert [tys[0]] == tys;
    } else {
      var more := [Sep] + (YieldHoles(tys[1..]) + rest);
      HolesComplete(tys[1..], rest);
      HoleComplete(tys[0], more);
      assert YieldHoles(tys) + rest == YieldHole(tys[0]) + more && more[1..] == YieldHoles(tys[1..]) + rest;
      assert [tys[0]] + tys[1..] == tys;
    }
  }

  lemma AssignComplete(name: string, ty: seq<Tok>, rest: seq<Tok>)
    requires G.IsTypeName(ty)
    ensures ParseAssign(YieldAssign(name, ty) + rest) == Some(((name, ty), rest))
  {
    hide ParseHole, YieldHole;
    HoleComplete(ty, rest);
    assert (YieldAssign(name, ty) + rest)[2..] == YieldHole(ty) + rest;
  }

  lemma AssignsMore(name: string, ty: seq<Tok>, rest: seq<Tok>)
    requires G.IsTypeName(ty) && ParseAssigns(rest).Some?
    ensures var ((names, tys), after) := ParseAssigns(rest).value;
            ParseAssigns(YieldAssign(name, ty) + ([Sep] + rest)) == Some((([name] + names, [ty] + tys), after))
  {
    hide ParseAssign, YieldAssign, G.IsTypeName;
    AssignComplete(name, ty, [Sep] + rest);
    assert ([Sep] + rest)[1..] == rest;
  }

  lemma {:induction false} AssignsComplete(names: seq<string>, tys: seq<seq<Tok>>, rest: seq<Tok>)
    requires names != [] && |names| == |tys| && (forall i | 0 <= i < |tys| :: G.IsTypeName(tys[i])) && (rest == [] || rest[0] != Sep)
    ensures ParseAssigns(YieldAssigns(names, tys) + rest) == Some(((names, tys), rest))
  {
    hide ParseAssign, YieldAssign, G.IsTypeName;
    if |names| == 1 {
      AssignComplete(names[0], tys[0], rest);
      assert [names[0]] == names && [tys[0]] == tys;
    } else {
      hide ParseAssigns;
      var more := YieldAssigns(names[1..], tys[1..]) + rest;
      AssignsComplete(names[1..], tys[1..], rest);
      AssignsMore(names[0], tys[0], more);
      assert YieldAssigns(names, tys) + rest == YieldAssign(names[0], tys[0]) + ([Sep] + more);
      assert [names[0]] + names[1..] == names && [tys[0]] + tys[1..] == tys;
    }
  }

  lemma ReturningComplete(names: seq<string>)
    requires names != []
    ensures ParseReturning(YieldReturning(names)) == Some(names)
  {
    hide ParseNames, YieldNames;
    NamesComplete(Sep, names, []);
    assert YieldReturning(names)[1..] == YieldNames(Sep, names) + [];
  }

  lemma KeyWhereComplete(key: string, ty: seq<Tok>, names: seq<string>)
    requires names != [] && G.IsTypeName(ty)
    ensures ParseKeyWhere(YieldKeyWhere(key, ty) + YieldReturning(names)) == Some(((key, ty), names))
  {
    hide ParseAssign, YieldAssign, ParseReturning, YieldReturning;
    AssignComplete(key, ty, YieldReturning(names));
    ReturningComplete(names);
    assert (YieldKeyWhere(key, ty) + YieldReturning(names))[1..] == YieldAssign(key, ty) + YieldReturning(names);
  }

  lemma InsertComplete(w: Write)
    requires ValidWrite(w) && w.InsertRow?
    ensures ParseInsert(w.table, YieldRest(w)) == Some(w)
  {
    hide ParseHoles, YieldHoles, ParseReturning, YieldReturning, ParseNames, YieldNames, G.IsTypeName;
    var end := [RP] + YieldReturning(w.returning);
    var rest := [RP, Kw(VALUES), LP] + (YieldHoles(w.casts) + end);
    NamesComplete(Sep, w.columns, rest);
    HolesComplete(w.casts, end);
    ReturningComplete(w.returning);
    var ts := YieldRest(w);
    assert ts[0] == LP && ts[..2][0] == LP && ts[1..] == YieldNames(Sep, w.columns) + rest;
    assert rest[..3] == [RP, Kw(VALUES), LP] && rest[3..] == YieldHoles(w.casts) + end;
    assert end[0] == RP && end[1..] == YieldReturning(w.returning);
  }

  lemma DefaultsComplete(w: Write)
    requires ValidWrite(w) && w.InsertDefaults?
    ensures ParseInsert(w.table, YieldRest(w)) == Some(w)
  {
    hide ParseReturning, YieldReturning;
    ReturningComplete(w.returning);
    var ts := YieldRest(w);
    assert ts[..2] == [Kw(DEFAULT), Kw(VALUES)] && ts[2..] == YieldReturning(w.returning);
  }

  lemma UpdateComplete(w: Write)
    requires ValidWrite(w) && w.UpdateRows?
    ensures ParseUpdate(w.table, YieldRest(w)) == Some(w)
  {
    hide ParseAssigns, YieldAssigns, ParseKeyWhere, YieldAssign, YieldReturning, G.IsTypeName;
    var rest := YieldKeyWhere(w.key, w.keyCast) + YieldReturning(w.returning);
    AssignsComplete(w.columns, w.casts, rest);
    KeyWhereComplete(w.key, w.keyCast, w.returning);
    assert YieldRest(w)[1..] == YieldAssigns(w.columns, w.casts) + rest;
  }

  lemma RestStarts(w: Write)
    requires ValidWrite(w)
    ensures YieldRest(w) != [] && YieldRest(w)[0] != Dot
  {
    hide YieldNames, YieldHoles, YieldAssigns, YieldAssign, YieldReturning, G.IsTypeName;
  }

  /** Every statement is read back from its tokens. */
  lemma WriteComplete(w: Write)
    requires ValidWrite(w)
    ensures ParseWrite(YieldWrite(w)) == Some(w)
  {
    hide ParseNames, YieldNames, ParseInsert, ParseUpdate, ParseKeyWhere, YieldRest, YieldAssign, YieldReturning, G.IsTypeName;
    var ts, verb := YieldWrite(w), YieldVerb(w);
    RestStarts(w);
    NamesComplete(Dot, w.table, YieldRest(w));
    assert ts[..|verb|] == verb && ts[|verb|..] == YieldNames(Dot, w.table) + YieldRest(w) && ts[0] == verb[0];
    if w.InsertRow? {
      InsertComplete(w);
    } else if w.InsertDefaults? {
      DefaultsComplete(w);
    } else if w.UpdateRows? {
      UpdateComplete(w);
    } else {
      assert ts[..2][0] == Kw(DELETE);
      KeyWhereComplete(w.key, w.keyCast, w.returning);
      DeleteRest(w);
    }
  }

  lemma DeleteRest(w: Write)
    requires ValidWrite(w) && w.DeleteRows?
    ensures YieldRest(w) == YieldKeyWhere(w.key, w.keyCast) + YieldReturning(w.returning)
  {
  }

  // ----- the emitted text is read as the statement that was meant

  function Types(ps: seq<EdmProperty>): seq<seq<Tok>> {
    seq(|ps|, i requires 0 <= i < |ps| => TypeTokens(ps[i].duckdbType))
  }

  function MeantInsert(e: EdmEntity, ps: seq<EdmProperty>): Write {
    if ps == [] then InsertDefaults(FullName(e), Names(e.properties))
    else InsertRow(FullName(e), Names(ps), Types(ps), Names(e.properties))
  }

  function MeantUpdate(e: EdmEntity, ps: seq<EdmProperty>, key: EdmProperty): Write {
    UpdateRows(FullName(e), Names(ps), Types(ps), key.name, TypeTokens(key.duckdbType), Names(e.properties))
  }

  function MeantDelete(e: EdmEntity, key: EdmProperty): Write {
    DeleteRows(FullName(e), key.name, TypeTokens(key.duckdbType), Names(e.properties))
  }

  predicate TypesLex(ps: seq<EdmProperty>) {
    forall i | 0 <= i < |ps| :: IsTypeText(ps[i].duckdbType)
  }

  lemma TypesAreNames(ps: seq<EdmProperty>)
    requires TypesLex(ps)
    ensures forall i | 0 <= i < |ps| :: G.IsTypeName(Types(ps)[i])
  {
    hide G.IsTypeName, LexSql;
  }

  lemma HoleLexes(p: EdmProperty)
    requires IsTypeText(p.duckdbType)
    ensures Lexes(HoleText(p), YieldHole(TypeTokens(p.duckdbType)))
  {
    hide Lexes, IsTypeText, TypeTokens;
    LexSymbol('?');
    CastOfLexes("?", [Hole], p.duckdbType);
    assert "CAST(" + "?" + " AS " == "CAST(? AS ";
    assert [Kw(CAST), LP] + [Hole] + [Kw(AS)] == [Kw(CAST), LP, Hole, Kw(AS)];
  }

  lemma CommaThen(a: string, ta: seq<Tok>, b: string, tb: seq<Tok>)
    requires Lexes(a, ta) && Lexes(b, tb)
    ensures Lexes(a + "," + b, ta + [Sep] + tb)
  {
    hide Lexes;
    LexSymbol(',');
    LexCat(a, ta, ",", [Sep]);
    LexCat(a + ",", ta + [Sep], b, tb);
  }

  lemma {:induction false} HolesLex(ps: seq<EdmProperty>)
    requires ps != [] && TypesLex(ps)
    ensures Lexes(Join(HoleTexts(ps), ","), YieldHoles(Types(ps)))
  {
    hide Lexes, HoleText, YieldHole, IsTypeText, TypeTokens;
    HoleLexes(ps[0]);
    if |ps| > 1 {
      assert HoleTexts(ps)[1..] == HoleTexts(ps[1..]) && Types(ps)[1..] == Types(ps[1..]);
      HolesLex(ps[1..]);
      CommaThen(HoleText(ps[0]), YieldHole(Types(ps)[0]), Join(HoleTexts(ps[1..]), ","), YieldHoles(Types(ps[1..])));
    }
  }

  lemma EqualsLexes(p: EdmProperty, spaced: bool)
    requires IsTypeText(p.duckdbType)
    ensures Lexes(QuotedName(p.name) + ((if spaced then " = " else "=") + HoleText(p)), YieldAssign(p.name, TypeTokens(p.duckdbType)))
  {
    hide Lexes, HoleText, YieldHole, IsTypeText, TypeTokens;
    var eq, hole, ty := if spaced then " = " else "=", HoleText(p), YieldHole(TypeTokens(p.duckdbType));
    LexQuotedName(p.name);
    HoleLexes(p);
    LexSymbol('=');
    LexSpaceBefore("=", [Op(FilterLexer.EQ)]);
    LexSpaceAfter(" " + "=", [Op(FilterLexer.EQ)]);
    assert " " + "=" + " " == " = ";
    LexCat(eq, [Op(FilterLexer.EQ)], hole, ty);
    LexCat(QuotedName(p.name), [Name(p.name)], eq + hole, [Op(FilterLexer.EQ)] + ty);
    assert [Name(p.name)] + ([Op(FilterLexer.EQ)] + ty) == YieldAssign(p.name, TypeTokens(p.duckdbType));
  }

  lemma {:induction false} AssignsLex(ps: seq<EdmProperty>)
    requires ps != [] && TypesLex(ps)
    ensures Lexes(Join(AssignTexts(ps), ","), YieldAssigns(Names(ps), Types(ps)))
  {
    hide Lexes, HoleText, YieldAssign, IsTypeText, TypeTokens;
    EqualsLexes(ps[0], false);
    assert AssignText(ps[0]) == QuotedName(ps[0].name) + ("=" + HoleText(ps[0]));
    if |ps| > 1 {
      assert AssignTexts(ps)[1..] == AssignTexts(ps[1..]) && Types(ps)[1..] == Types(ps[1..]) && Names(ps)[1..] == Names(ps[1..]);
      AssignsLex(ps[1..]);
      CommaThen(AssignText(ps[0]), YieldAssign(ps[0].name, Types(ps)[0]), Join(AssignTexts(ps[1..]), ","), YieldAssigns(Names(ps[1..]), Types(ps[1..])));
    }
  }

  lemma KeyWhereLexes(key: EdmProperty)
    requires IsTypeText(key.duckdbType)
    ensures Lexes(KeyWhereText(key), YieldKeyWhere(key.name, TypeTokens(key.duckdbType)))
  {
    hide Lexes, HoleText, YieldAssign, IsTypeText, TypeTokens;
    EqualsLexes(key, true);
    KeywordThen(WHERE, QuotedName(key.name) + (" = " + HoleText(key)), YieldAssign(key.name, TypeTokens(key.duckdbType)));
    assert " " + KeywordText(WHERE) + " " == " WHERE ";
  }

  lemma ReturningLexes(e: EdmEntity)
    requires e.properties != []
    ensures Lexes(ReturningText(e), YieldReturning(Names(e.properties)))
  {
    hide Lexes;
    var names := Names(e.properties);
    NamesLex(names, ",", Sep);
    KeywordThen(RETURNING, Join(QuotedNames(names), ","), YieldNames(Sep, names));
    assert " " + KeywordText(RETURNING) + " " == " RETURNING ";
  }

  /** Two keywords with a space after each. */
  lemma TwoKeywords(a: Keyword, b: Keyword)
    ensures Lexes(KeywordText(a) + " " + (KeywordText(b) + " "), [Kw(a), Kw(b)])
  {
    hide Lexes, KeywordText;
    LexKeyword(a);
    LexKeyword(b);
    LexSpaceAfter(KeywordText(a), [Kw(a)]);
    LexSpaceAfter(KeywordText(b), [Kw(b)]);
    LexCat(KeywordText(a) + " ", [Kw(a)], KeywordText(b) + " ", [Kw(b)]);
    assert [Kw(a)] + [Kw(b)] == [Kw(a), Kw(b)];
  }

  lemma InsertHeadLexes(e: EdmEntity)
    ensures Lexes("INSERT INTO " + TargetText(e), [Kw(INSERT), Kw(INTO)] + YieldNames(Dot, FullName(e)))
  {
    hide Lexes, YieldNames;
    TwoKeywords(INSERT, INTO);
    assert KeywordText(INSERT) + " " + (KeywordText(INTO) + " ") == "INSERT INTO ";
    NamesLex(FullName(e), ".", Dot);
    LexCat("INSERT INTO ", [Kw(INSERT), Kw(INTO)], TargetText(e), YieldNames(Dot, FullName(e)));
  }

  lemma DeleteHeadLexes(e: EdmEntity)
    ensures Lexes("DELETE FROM " + TargetText(e), [Kw(DELETE), Kw(FROM)] + YieldNames(Dot, FullName(e)))
  {
    hide Lexes, YieldNames;
    TwoKeywords(DELETE, FROM);
    assert KeywordText(DELETE) + " " + (KeywordText(FROM) + " ") == "DELETE FROM ";
    NamesLex(FullName(e), ".", Dot);
    LexCat("DELETE FROM ", [Kw(DELETE), Kw(FROM)], TargetText(e), YieldNames(Dot, FullName(e)));
  }

  lemma UpdateHeadLexes(e: EdmEntity)
    ensures Lexes("UPDATE " + TargetText(e) + " SET ", [Kw(UPDATE)] + YieldNames(Dot, FullName(e)) + [Kw(SET)])
  {
    hide Lexes, YieldNames;
    LexKeyword(UPDATE);
    LexSpaceAfter("UPDATE", [Kw(UPDATE)]);
    assert "UPDATE" + " " == "UPDATE ";
    NamesLex(FullName(e), ".", Dot);
    LexCat("UPDATE ", [Kw(UPDATE)], TargetText(e), YieldNames(Dot, FullName(e)));
    LexInfixKeyword(SET);
    assert " " + KeywordText(SET) + " " == " SET ";
    LexCat("UPDATE " + TargetText(e), [Kw(UPDATE)] + YieldNames(Dot, FullName(e)), " SET ", [Kw(SET)]);
  }

  lemma ValuesLexes()
    ensures Lexes(") VALUES (", [RP, Kw(VALUES), LP])
  {
    hide Lexes;
    LexInfixKeyword(VALUES);
    assert " " + KeywordText(VALUES) + " " == " VALUES ";
    LexSymbol('(');
    LexSymbol(')');
    LexCat(" VALUES ", [Kw(VALUES)], "(", [LP]);
    LexCat(")", [RP], " VALUES " + "(", [Kw(VALUES)] + [LP]);
    assert ")" + (" VALUES " + "(") == ") VALUES (" && [RP] + ([Kw(VALUES)] + [LP]) == [RP, Kw(VALUES), LP];
  }

  lemma DefaultValuesLexes()
    ensures Lexes(" DEFAULT VALUES", [Kw(DEFAULT), Kw(VALUES)])
  {
    hide Lexes;
    LexInfixKeyword(DEFAULT);
    LexKeyword(VALUES);
    assert " " + KeywordText(DEFAULT) + " " == " DEFAULT ";
    LexCat(" DEFAULT ", [Kw(DEFAULT)], "VALUES", [Kw(VALUES)]);
    assert " DEFAULT " + "VALUES" == " DEFAULT VALUES" && [Kw(DEFAULT)] + [Kw(VALUES)] == [Kw(DEFAULT), Kw(VALUES)];
  }

  function RowText(ps: seq<EdmProperty>): (r: string)
    ensures r != "" && r[0] == ' '
  {
    " (" + Join(QuotedNames(Names(ps)), ",") + ") VALUES (" + Join(HoleTexts(ps), ",") + ")"
  }

  function YieldRow(columns: seq<string>, casts: seq<seq<Tok>>): seq<Tok> {
    [LP] + (YieldNames(Sep, columns) + ([RP, Kw(VALUES), LP] + (YieldHoles(casts) + [RP])))
  }

  lemma RowLexes(ps: seq<EdmProperty>)
    requires ps != [] && TypesLex(ps)
    ensures Lexes(RowText(ps), YieldRow(Names(ps), Types(ps)))
  {
    hide Lexes, TypesLex, YieldNames, YieldHoles, Join;
    var columns, holes := Join(QuotedNames(Names(ps)), ","), Join(HoleTexts(ps), ",");
    var c, h := YieldNames(Sep, Names(ps)), YieldHoles(Types(ps));
    LexSymbol('(');
    LexSpaceBefore("(", [LP]);
    assert " " + "(" == " (";
    NamesLex(Names(ps), ",", Sep);
    HolesLex(ps);
    ValuesLexes();
    LexSymbol(')');
    LexCat(" (", [LP], columns, c);
    LexCat(" (" + columns, [LP] + c, ") VALUES (", [RP, Kw(VALUES), LP]);
    LexCat(" (" + columns + ") VALUES (", [LP] + c + [RP, Kw(VALUES), LP], holes, h);
    LexCat(" (" + columns + ") VALUES (" + holes, [LP] + c + [RP, Kw(VALUES), LP] + h, ")", [RP]);
    assert [LP] + c + [RP, Kw(VALUES), LP] + h + [RP] == [LP] + (c + ([RP, Kw(VALUES), LP] + (h + [RP])));
  }

  lemma ReadMeant(text: string, w: Write)
    requires ValidWrite(w) && Lexes(text, YieldWrite(w))
    ensures ReadWrite(text) == Some(w)
  {
    WriteComplete(w);
  }

  /** Statement round trips, whatever the bytes of the names: the text of a write is read as the statement with
      the entity's table, the given columns each with the cast of its own type, the key test and RETURNING. */
  lemma InsertReadBack(e: EdmEntity, ps: seq<EdmProperty>)
    requires e.properties != [] && TypesLex(ps)
    ensures ReadWrite(InsertText(e, ps)) == Some(MeantInsert(e, ps))
  {
    hide Lexes, TypesLex, ReadWrite, TargetText, ReturningText, Join, G.IsTypeName, YieldRest;
    var w := MeantInsert(e, ps);
    TypesAreNames(ps);
    if ps == [] {
      DefaultValuesLexes();
      InsertLexes(e, " DEFAULT VALUES", [Kw(DEFAULT), Kw(VALUES)]);
      DefaultsRest(w);
    } else {
      RowLexes(ps);
      InsertLexes(e, RowText(ps), YieldRow(Names(ps), Types(ps)));
      RowRest(w);
    }
    ReadMeant(InsertText(e, ps), w);
  }

  /** An INSERT around the text of its row. */
  lemma InsertLexes(e: EdmEntity, row: string, ts: seq<Tok>)
    requires e.properties != [] && Lexes(row, ts) && row != "" && row[0] == ' '
    ensures Lexes("INSERT INTO " + TargetText(e) + row + ReturningText(e),
                  [Kw(INSERT), Kw(INTO)] + (YieldNames(Dot, FullName(e)) + (ts + YieldReturning(Names(e.properties)))))
  {
    hide Lexes, YieldNames, YieldReturning, TargetText, ReturningText;
    var head, target, returning := "INSERT INTO " + TargetText(e), YieldNames(Dot, FullName(e)), YieldReturning(Names(e.properties));
    var verb := [Kw(INSERT), Kw(INTO)];
    InsertHeadLexes(e);
    ReturningLexes(e);
    ReturningStarts(e);
    AppendClause(head, verb + target, row, ts);
    AppendClause(head + row, verb + target + ts, ReturningText(e), returning);
    assert verb + target + ts + returning == verb + (target + (ts + returning));
  }

  lemma DefaultsRest(w: Write)
    requires ValidWrite(w) && w.InsertDefaults?
    ensures YieldRest(w) == [Kw(DEFAULT), Kw(VALUES)] + YieldReturning(w.returning)
  {
  }

  lemma RowRest(w: Write)
    requires ValidWrite(w) && w.InsertRow?
    ensures YieldRest(w) == YieldRow(w.columns, w.casts) + YieldReturning(w.returning)
  {
    hide YieldNames, YieldHoles, YieldReturning, G.IsTypeName;
    var c, h, r := YieldNames(Sep, w.columns), YieldHoles(w.casts), YieldReturning(w.returning);
    assert [LP] + (c + ([RP, Kw(VALUES), LP] + (h + [RP]))) + r == [LP] + (c + ([RP, Kw(VALUES), LP] + (h + ([RP] + r))));
  }

  lemma ReturningStarts(e: EdmEntity)
    ensures ReturningText(e) != "" && ReturningText(e)[0] == ' '
  {
  }

  lemma UpdateReadBack(e: EdmEntity, ps: seq<EdmProperty>, key: EdmProperty)
    requires e.properties != [] && ps != [] && TypesLex(ps) && IsTypeText(key.duckdbType)
    ensures ReadWrite(UpdateText(e, ps, key)) == Some(MeantUpdate(e, ps, key))
  {
    hide Lexes, TypesLex, YieldNames, YieldAssigns, YieldKeyWhere, YieldReturning, ReadWrite, TargetText, ReturningText, HoleText, Join, G.IsTypeName;
    var w, target, returning := MeantUpdate(e, ps, key), YieldNames(Dot, FullName(e)), YieldReturning(Names(e.properties));
    var a, k := YieldAssigns(Names(ps), Types(ps)), YieldKeyWhere(key.name, TypeTokens(key.duckdbType));
    var head, assigns := "UPDATE " + TargetText(e) + " SET ", Join(AssignTexts(ps), ",");
    var ts := [Kw(UPDATE)] + target + [Kw(SET)];
    UpdateHeadLexes(e);
    AssignsLex(ps);
    KeyWhereLexes(key);
    ReturningLexes(e);
    TypesAreNames(ps);
    ReturningStarts(e);
    LexCat(head, ts, assigns, a);
    AppendClause(head + assigns, ts + a, KeyWhereText(key), k);
    AppendClause(head + assigns + KeyWhereText(key), ts + a + k, ReturningText(e), returning);
    assert ts + a + k + returning == YieldWrite(w);
    ReadMeant(UpdateText(e, ps, key), w);
  }

  lemma DeleteReadBack(e: EdmEntity, key: EdmProperty)
    requires e.properties != [] && IsTypeText(key.duckdbType)
    ensures ReadWrite(DeleteText(e, key)) == Some(MeantDelete(e, key))
  {
    hide Lexes, YieldNames, YieldKeyWhere, YieldReturning, ReadWrite, TargetText, ReturningText, HoleText, G.IsTypeName;
    var w, target, returning := MeantDelete(e, key), YieldNames(Dot, FullName(e)), YieldReturning(Names(e.properties));
    var head, k := "DELETE FROM " + TargetText(e), YieldKeyWhere(key.name, TypeTokens(key.duckdbType));
    DeleteHeadLexes(e);
    KeyWhereLexes(key);
    ReturningLexes(e);
    ReturningStarts(e);
    AppendClause(head, YieldVerb(w) + target, KeyWhereText(key), k);
    AppendClause(head + KeyWhereText(key), YieldVerb(w) + target + k, ReturningText(e), returning);
    assert YieldVerb(w) + target + k + returning == YieldWrite(w);
    ReadMeant(DeleteText(e, key), w);
  }
}
