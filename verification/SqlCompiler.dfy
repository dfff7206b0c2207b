/** The normalized query (src/parser/ast.hpp) and the statement compiler (src/compiler/sql_compiler.cpp). */
module SqlCompiler {
  import opened Text
  import opened Decimal
  import opened Edm
  import opened FilterGrammar
  import opened ExprCompiler

  datatype OrderByTerm = OrderByTerm(property: string, descending: bool)

  /** -1 in `top` and `skip` means not specified. */
  datatype ODataQuery = ODataQuery(
    select: seq<string>, filter: Option<Expr>, orderBy: seq<OrderByTerm>, top: int, skip: int, count: bool)

  function QuotedName(name: string): string {
    Quoted('"', name)
  }

  function QuotedNames(names: seq<string>): seq<string> {
    seq(|names|, i requires 0 <= i < |names| => QuotedName(names[i]))
  }

  /** The parts of the table name: catalog and schema when both are known, schema alone, or neither. */
  function TableParts(e: EdmEntity): (parts: seq<string>)
    ensures parts != []
  {
    if e.catalog != "" && e.schema != "" then [e.catalog, e.schema, e.table]
    else if e.schema != "" then [e.schema, e.table]
    else [e.table]
  }

  function QuotedTable(e: EdmEntity): string {
    Join(QuotedNames(TableParts(e)), ".")
  }

  /** The first property of that name, case-insensitively. */
  function FindFirst(properties: seq<EdmProperty>, name: string): (r: Option<EdmProperty>)
    ensures r.Some? ==> r.value in properties && SameName(r.value.name, name)
    ensures r.None? <==> forall p | p in properties :: !SameName(p.name, name)
  {
    if properties == [] then None
    else if SameName(properties[0].name, name) then Some(properties[0])
    else FindFirst(properties[1..], name)
  }

  /** The canonical names of the selected properties, in $select order. */
  function SelectedNames(properties: seq<EdmProperty>, select: seq<string>): (r: Result<seq<string>>)
    ensures r.Ok? ==> |r.value| == |select|
    ensures r.Ok? ==> forall i | 0 <= i < |select| :: SameName(r.value[i], select[i])
  {
    if select == [] then Ok([])
    else
      match FindFirst(properties, select[0])
      case None => Err(Semantic)
      case Some(p) =>
        match SelectedNames(properties, select[1..])
        case Err(x) => Err(x)
        case Ok(names) => Ok([p.name] + names)
  }

  function Names(properties: seq<EdmProperty>): seq<string> {
    seq(|properties|, i requires 0 <= i < |properties| => properties[i].name)
  }

  function Projected(q: ODataQuery, e: EdmEntity): Result<seq<string>> {
    if q.select == [] then Ok(Names(e.properties)) else SelectedNames(e.properties, q.select)
  }

  /** CompileSelectList: no column at all falls back to a star. */
  function SelectList(names: seq<string>): string {
    if names == [] then "*" else Join(QuotedNames(names), ", ")
  }

  function FilterText(s: Schema, q: ODataQuery): Result<string> {
    match q.filter
    case None => Ok("")
    case Some(e) => Compile(s, e)
  }

  function WhereText(filter: string): (r: string)
    ensures r == "" || r[0] == ' '
  {
    if filter == "" then "" else " WHERE " + filter
  }

  predicate KnownTerms(properties: seq<EdmProperty>, terms: seq<OrderByTerm>) {
    forall i | 0 <= i < |terms| :: FindFirst(properties, terms[i].property).Some?
  }

  function TermText(t: OrderByTerm): string {
    QuotedName(t.property) + (if t.descending then " DESC" else " ASC")
  }

  function TermTexts(terms: seq<OrderByTerm>): seq<string> {
    seq(|terms|, i requires 0 <= i < |terms| => TermText(terms[i]))
  }

  function OrderText(terms: seq<OrderByTerm>): (r: string)
    ensures r == "" || r[0] == ' '
  {
    if terms == [] then "" else " ORDER BY " + Join(TermTexts(terms), ", ")
  }

  /** $top, capped by a non-negative server limit; None when $top was not given. */
  function EffectiveTop(q: ODataQuery, maxTop: int): Option<nat> {
    if q.top < 0 then None else if 0 <= maxTop < q.top then Some(maxTop) else Some(q.top)
  }

  function Offset(q: ODataQuery): Option<nat> {
    if q.skip < 0 then None else Some(q.skip)
  }

  function BoundText(keyword: string, n: Option<nat>): (r: string)
    ensures r == "" || r[0] == ' '
  {
    if n.None? then "" else " " + keyword + " " + Show(n.value)
  }

  function Collection(s: Schema, q: ODataQuery, maxTop: int): Result<string> {
    var names := Projected(q, s.entity);
    var filter := FilterText(s, q);
    if names.Err? then Err(names.error)
    else if filter.Err? then Err(filter.error)
    else if !KnownTerms(s.entity.properties, q.orderBy) then Err(Semantic)
    else Ok("SELECT " + SelectList(names.value) + " FROM " + QuotedTable(s.entity) + WhereText(filter.value)
            + OrderText(q.orderBy) + BoundText("LIMIT", EffectiveTop(q, maxTop)) + BoundText("OFFSET", Offset(q)))
  }

  function Count(s: Schema, q: ODataQuery): Result<string> {
    var filter := FilterText(s, q);
    if filter.Err? then Err(filter.error)
    else Ok("SELECT COUNT(*) AS __odata_count FROM " + QuotedTable(s.entity) + WhereText(filter.value))
  }

  // ----- key lookup

  /** The loop that undoes doubled single quotes in a key. */
  function Undoubled(s: string): string
    decreases |s|
  {
    if s == "" then ""
    else [s[0]] + Undoubled(s[if s[0] == '\'' && |s| > 1 && s[1] == '\'' then 2 else 1..])
  }

  /** A key as it stands in the address: quoted, or bare. */
  function KeyValue(raw: string): string {
    if |raw| >= 2 && raw[0] == '\'' && raw[|raw| - 1] == '\'' then Undoubled(raw[1..|raw| - 1]) else raw
  }

  lemma {:induction false} UndoubledDoubled(v: string)
    ensures Undoubled(Doubled('\'', v)) == v
  {
    var d := Doubled('\'', v);
    if v != "" {
      UndoubledDoubled(v[1..]);
      assert d[if v[0] == '\'' then 2 else 1..] == Doubled('\'', v[1..]);
      assert [v[0]] + v[1..] == v;
      if v[0] != '\'' {
        assert d[0] == v[0];
      }
    }
  }

  /** Quoting a key and reading it back is the identity, quotes inside included. */
  lemma KeyValueOfQuoted(v: string)
    ensures KeyValue(Quoted('\'', v)) == v
  {
    var q := Quoted('\'', v);
    assert q[1..|q| - 1] == Doubled('\'', v);
    UndoubledDoubled(v);
  }

  predicate IsTextKey(p: EdmProperty) {
    p.edmType == STRING || p.edmType == GUID || p.edmType == BINARY
  }

  function KeyLiteralSql(p: EdmProperty, raw: string): string {
    var value := Quoted('\'', KeyValue(raw));
    if IsTextKey(p) then value else "CAST(" + value + " AS " + p.duckdbType + ")"
  }

  function Keys(properties: seq<EdmProperty>): (ks: seq<EdmProperty>)
    ensures forall k | k in ks :: k in properties && k.isKey
  {
    if properties == [] then []
    else (if properties[0].isKey then [properties[0]] else []) + Keys(properties[1..])
  }

  function KeyText(p: EdmProperty, raw: string): string {
    QuotedName(p.name) + " = " + KeyLiteralSql(p, raw)
  }

  function KeyTexts(keys: seq<EdmProperty>, values: seq<string>): seq<string>
    requires |keys| == |values|
  {
    seq(|keys|, i requires 0 <= i < |keys| => KeyText(keys[i], values[i]))
  }

  function ByKey(s: Schema, q: ODataQuery, values: seq<string>): Result<string> {
    var keys := Keys(s.entity.properties);
    var names := Projected(q, s.entity);
    if keys == [] || |values| != |keys| then Err(Semantic)
    else if names.Err? then Err(names.error)
    else Ok("SELECT " + SelectList(names.value) + " FROM " + QuotedTable(s.entity) + " WHERE "
            + Join(KeyTexts(keys, values), " AND ") + " LIMIT 1")
  }

  // ----- the compiler's own loops

  method SelectNames(properties: seq<EdmProperty>, select: seq<string>) returns (r: Result<seq<string>>)
    ensures r == SelectedNames(properties, select)
  {
    var selected: seq<string> := [];
    assert select[0..] == select;
    assert forall names: seq<string> :: selected + names == names;
    for i := 0 to |select|
      invariant SelectedNames(properties, select) ==
        match SelectedNames(properties, select[i..]) case Err(x) => Err(x) case Ok(names) => Ok(selected + names)
    {
      assert select[i..][1..] == select[i + 1..];
      var p := FindFirst(properties, select[i]);
      if p.None? {
        return Err(Semantic);
      }
      assert forall names: seq<string> :: selected + ([p.value.name] + names) == selected + [p.value.name] + names;
      selected := selected + [p.value.name];
    }
    assert selected + [] == selected;
    return Ok(selected);
  }

  method JoinQuoted(selected: seq<string>) returns (sql: string)
    ensures sql == Join(QuotedNames(selected), ", ")
  {
    hide Join;
    JoinFew("", ", ");
    sql := "";
    assert QuotedNames(selected[..0]) == [];
    for i := 0 to |selected|
      invariant sql == Join(QuotedNames(selected[..i]), ", ")
    {
      var name := Quote('"', selected[i]);
      assert QuotedNames(selected[..i + 1]) == QuotedNames(selected[..i]) + [name];
      if i > 0 {
        JoinSnoc(QuotedNames(selected[..i]), ", ", name);
        sql := sql + ", ";
      } else {
        JoinFew(name, ", ");
        assert [] + [name] == [name];
      }
      sql := sql + name;
    }
    assert selected[..|selected|] == selected;
  }

  method CompileSelectList(q: ODataQuery, e: EdmEntity) returns (r: Result<string>)
    ensures r == match Projected(q, e) case Err(x) => Err(x) case Ok(names) => Ok(SelectList(names))
  {
    hide SelectedNames, Join;
    var selected := Ok(Names(e.properties));
    if q.select != [] {
      selected := SelectNames(e.properties, q.select);
    }
    if selected.Err? {
      return Err(selected.error);
    }
    var sql := JoinQuoted(selected.value);
    if selected.value == [] {
      sql := "*";
    }
    return Ok(sql);
  }

  method CompileOrderBy(e: EdmEntity, terms: seq<OrderByTerm>) returns (r: Result<string>)
    ensures r == if KnownTerms(e.properties, terms) then Ok(OrderText(terms)) else Err(Semantic)
  {
    hide Join, FindFirst, Doubled;
    JoinFew("", ", ");
    assert TermTexts(terms[..0]) == [];
    if terms == [] {
      return Ok("");
    }
    var order := "";
    for i := 0 to |terms|
      invariant KnownTerms(e.properties, terms[..i])
      invariant order == Join(TermTexts(terms[..i]), ", ")
      invariant order == "" <==> i == 0
    {
      assert terms[..i + 1] == terms[..i] + [terms[i]];
      if FindFirst(e.properties, terms[i].property).None? {
        return Err(Semantic);
      }
      ghost var before := TermTexts(terms[..i]);
      var name := Quote('"', terms[i].property);
      assert TermTexts(terms[..i + 1]) == before + [TermText(terms[i])];
      if order != "" {
        JoinSnoc(before, ", ", TermText(terms[i]));
        order := order + ", ";
      } else {
        JoinFew(TermText(terms[i]), ", ");
        assert [] + [TermText(terms[i])] == [TermText(terms[i])];
      }
      order := order + (name + (if terms[i].descending then " DESC" else " ASC"));
    }
    assert terms[..|terms|] == terms;
    return Ok(" ORDER BY " + order);
  }

  method CompileCollection(s: Schema, q: ODataQuery, maxTop: int) returns (r: Result<string>)
    ensures r == Collection(s, q, maxTop)
  {
    hide Compile, Projected, SelectList, QuotedTable, KnownTerms, OrderText, Show;
    var list := CompileSelectList(q, s.entity);
    if list.Err? {
      return list;
    }
    var sql := "SELECT " + list.value + " FROM " + QuotedTable(s.entity);
    var filter: Result<string> := Ok("");
    if q.filter.Some? {
      var compiler := new ExpressionCompiler(s);
      filter := compiler.CompileExpr(q.filter.value);
    }
    if filter.Err? {
      return filter;
    }
    if filter.value != "" {
      sql := sql + (" WHERE " + filter.value);
    } else {
      assert sql + "" == sql;
    }
    var order := CompileOrderBy(s.entity, q.orderBy);
    if order.Err? {
      return order;
    }
    sql := sql + order.value;
    r := Ok(AppendBounds(sql, q, maxTop));
  }

  method CompileCount(s: Schema, q: ODataQuery) returns (r: Result<string>)
    ensures r == Count(s, q)
  {
    hide Compile, QuotedTable;
    var sql := "SELECT COUNT(*) AS __odata_count FROM " + QuotedTable(s.entity);
    var filter: Result<string> := Ok("");
    if q.filter.Some? {
      var compiler := new ExpressionCompiler(s);
      filter := compiler.CompileExpr(q.filter.value);
    }
    if filter.Err? {
      return filter;
    }
    if filter.value != "" {
      sql := sql + (" WHERE " + filter.value);
    } else {
      assert sql + "" == sql;
    }
    return Ok(sql);
  }

  /** The last clauses, appended one after the other. */
  function AppendBounds(sql: string, q: ODataQuery, maxTop: int): (r: string)
    ensures r == sql + BoundText("LIMIT", EffectiveTop(q, maxTop)) + BoundText("OFFSET", Offset(q))
  {
    var capped := if q.top >= 0 && maxTop >= 0 && q.top > maxTop then maxTop else q.top;
    var limited := if q.top >= 0 && capped >= 0 then sql + (" " + "LIMIT" + " " + Show(capped)) else sql;
    assert sql + "" == sql && limited + "" == limited;
    if q.skip >= 0 then limited + (" " + "OFFSET" + " " + Show(q.skip)) else limited
  }

  method CompileByKey(s: Schema, q: ODataQuery, values: seq<string>) returns (r: Result<string>)
    ensures r == ByKey(s, q, values)
  {
    hide Projected, SelectList, QuotedTable, KeyLiteralSql, Keys;
    var keys := Keys(s.entity.properties);
    if keys == [] || |values| != |keys| {
      return Err(Semantic);
    }
    var list := CompileSelectList(q, s.entity);
    if list.Err? {
      return list;
    }
    var where := "";
    for i := 0 to |keys|
      invariant where == Join(KeyTexts(keys[..i], values[..i]), " AND ")
    {
      var literal := CompileKeyLiteral(keys[i], values[i]);
      var name := Quote('"', keys[i].name);
      ghost var before := KeyTexts(keys[..i], values[..i]);
      assert KeyTexts(keys[..i + 1], values[..i + 1]) == before + [KeyText(keys[i], values[i])];
      if i > 0 {
        JoinSnoc(before, " AND ", KeyText(keys[i], values[i]));
        where := where + " AND ";
      }
      where := where + (name + " = " + literal);
    }
    assert keys[..|keys|] == keys && values[..|values|] == values;
    return Ok("SELECT " + list.value + " FROM " + QuotedTable(s.entity) + " WHERE " + where + " LIMIT 1");
  }

  /** KeyLiteralSql with its unquoting loop. */
  method CompileKeyLiteral(p: EdmProperty, raw: string) returns (text: string)
    ensures text == KeyLiteralSql(p, raw)
  {
    var value := raw;
    if |value| >= 2 && value[0] == '\'' && value[|value| - 1] == '\'' {
      value := UnquoteKey(value[1..|value| - 1]);
    }
    text := Quote('\'', value);
    if !IsTextKey(p) {
      text := "CAST(" + text + " AS " + p.duckdbType + ")";
    }
  }

  method UnquoteKey(value: string) returns (decoded: string)
    ensures decoded == Undoubled(value)
  {
    hide Undoubled;
    decoded := "";
    var i := 0;
    assert value[0..] == value && "" + Undoubled(value) == Undoubled(value);
    while i < |value|
      invariant i <= |value|
      invariant Undoubled(value) == decoded + Undoubled(value[i..])
    {
      var step := if value[i] == '\'' && i + 1 < |value| && value[i + 1] == '\'' then 2 else 1;
      UndoubledStep(value, i);
      assert decoded + ([value[i]] + Undoubled(value[i + step..])) == decoded + [value[i]] + Undoubled(value[i + step..]);
      decoded := decoded + [value[i]];
      i := i + step;
    }
    UndoubledNothing();
    assert value[|value|..] == "" && decoded + "" == decoded;
  }

  lemma UndoubledStep(value: string, i: nat)
    requires i < |value|
    ensures Undoubled(value[i..]) ==
            [value[i]] + Undoubled(value[if value[i] == '\'' && i + 1 < |value| && value[i + 1] == '\'' then i + 2 else i + 1..])
  {
    assert value[i..][1..] == value[i + 1..];
    assert i + 1 < |value| ==> value[i..][2..] == value[i + 2..];
  }

  lemma UndoubledNothing()
    ensures Undoubled("") == ""
  {
  }
}
