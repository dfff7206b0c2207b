/** The write transaction (ExecuteWrite, src/execution/write_executor.cpp). */
module WriteTransaction {
  import opened Text
  import opened Edm
  import opened SqlLexer
  import opened ExprMeaning
  import opened ExprSemantics
  import opened SqlCompiler
  import opened Relational
  import opened Http
  import opened Framing
  import opened Routing
  import opened WriteStatement

  // ----- the database

  /** What is left to the database: the table's name and column defaults, casts, equality of key values, constraints,
      the text of a value, the JSON reader, and whether transactions begin and commit. */
  datatype Database = Database(
    name: seq<string>, defaults: Row,
    cast: (seq<Tok>, Value) -> Option<Value>,
    same: (Value, Value) -> bool,
    accepts: (seq<Row>, seq<Row>) -> bool,
    text: Value -> string,
    json: string -> Option<seq<(string, Json)>>,
    begins: bool, commits: bool)

  /** A member value of a request body: numbers are kept as their text. */
  datatype Json = JsonNull | JsonString(s: string) | JsonNumber(text: string) | JsonBool(b: bool) | JsonNested

  /** Invalid: not prepared. Aborted: not executed, for a constraint or for another reason. */
  datatype Executed = Invalid | Aborted(conflict: bool) | Done(table: seq<Row>, returned: seq<Row>)

  function CastAll(db: Database, types: seq<seq<Tok>>, values: seq<Value>): (r: Option<seq<Value>>)
    requires |types| == |values|
    ensures r.Some? ==> |r.value| == |types|
    ensures r.Some? ==> forall i | 0 <= i < |types| :: db.cast(types[i], values[i]) == Some(r.value[i])
  {
    if types == [] then Some([])
    else
      match db.cast(types[0], values[0])
      case None => None
      case Some(v) =>
        match CastAll(db, types[1..], values[1..])
        case None => None
        case Some(vs) => Some([v] + vs)
  }

  /** A row with the named columns set. */
  function Overlay(row: Row, names: seq<string>, values: seq<Value>): Row
    requires |names| == |values|
    decreases |names|
  {
    if names == [] then row else Overlay(row[ToLower(names[0]) := values[0]], names[1..], values[1..])
  }

  predicate Hit(db: Database, key: string, k: Value, row: Row) {
    k != Missing && Lookup(row, key) != Missing && db.same(Lookup(row, key), k)
  }

  function Hits(db: Database, key: string, k: Value, rows: seq<Row>): seq<Row> {
    if rows == [] then [] else (if Hit(db, key, k, rows[0]) then [rows[0]] else []) + Hits(db, key, k, rows[1..])
  }

  function Others(db: Database, key: string, k: Value, rows: seq<Row>): seq<Row> {
    if rows == [] then [] else (if Hit(db, key, k, rows[0]) then [] else [rows[0]]) + Others(db, key, k, rows[1..])
  }

  function Updated(db: Database, key: string, k: Value, names: seq<string>, values: seq<Value>, rows: seq<Row>): seq<Row>
    requires |names| == |values|
  {
    seq(|rows|, i requires 0 <= i < |rows| => if Hit(db, key, k, rows[i]) then Overlay(rows[i], names, values) else rows[i])
  }

  function Overlays(rows: seq<Row>, names: seq<string>, values: seq<Value>): seq<Row>
    requires |names| == |values|
  {
    seq(|rows|, i requires 0 <= i < |rows| => Overlay(rows[i], names, values))
  }

  predicate Knows(db: Database, names: seq<string>) {
    forall i | 0 <= i < |names| :: ToLower(names[i]) in db.defaults
  }

  predicate Prepares(db: Database, w: Write) {
    && w.table == db.name && Knows(db, w.returning)
    && (w.InsertRow? || w.UpdateRows? ==> |w.columns| == |w.casts| && Knows(db, w.columns))
    && (w.UpdateRows? || w.DeleteRows? ==> Knows(db, [w.key]))
  }

  function Change(db: Database, rows: seq<Row>, table: seq<Row>, returned: seq<Row>): Executed {
    if db.accepts(rows, table) then Done(table, returned) else Aborted(true)
  }

  /** Executing a prepared statement with its bound values. */
  function Apply(db: Database, w: Write, values: seq<Value>, rows: seq<Row>): Executed {
    if !Prepares(db, w) then Invalid
    else
      match w
      case InsertDefaults(_, _) => if values == [] then Change(db, rows, rows + [db.defaults], [db.defaults]) else Aborted(false)
      case InsertRow(_, columns, casts, _) =>
        if |values| != |casts| || CastAll(db, casts, values).None? then Aborted(false)
        else
          var row := Overlay(db.defaults, columns, CastAll(db, casts, values).value);
          Change(db, rows, rows + [row], [row])
      case UpdateRows(_, columns, casts, key, keyCast, _) =>
        if |values| != |casts| + 1 || CastAll(db, casts + [keyCast], values).None? then Aborted(false)
        else
          var vs := CastAll(db, casts + [keyCast], values).value;
          var k, news := vs[|casts|], vs[..|casts|];
          Change(db, rows, Updated(db, key, k, columns, news, rows), Overlays(Hits(db, key, k, rows), columns, news))
      case DeleteRows(_, key, keyCast, _) =>
        if |values| != 1 || db.cast(keyCast, values[0]).None? then Aborted(false)
        else
          var k := db.cast(keyCast, values[0]).value;
          Change(db, rows, Others(db, key, k, rows), Hits(db, key, k, rows))
  }

  /** A connection: the committed table and, inside a transaction, the working one. */
  class Connection {
    const db: Database
    var committed: seq<Row>
    var working: Option<seq<Row>>

    constructor (db: Database, rows: seq<Row>)
      ensures this.db == db && committed == rows && working == None
    {
      this.db := db;
      committed := rows;
      working := None;
    }

    method Begin() returns (ok: bool)
      requires working.None?
      modifies this`working
      ensures ok == db.begins && working == if ok then Some(committed) else None
    {
      ok := db.begins;
      if ok {
        working := Some(committed);
      }
    }

    /** Prepare and execute: the text is read as SQL reads it. */
    method Execute(sql: string, values: seq<Value>) returns (r: Executed)
      requires working.Some?
      modifies this`working
      ensures r == match ReadWrite(sql) case None => Invalid case Some(w) => Apply(db, w, values, old(working).value)
      ensures working == if r.Done? then Some(r.table) else old(working)
    {
      var w := ReadWrite(sql);
      r := if w.None? then Invalid else Apply(db, w.value, values, working.value);
      if r.Done? {
        working := Some(r.table);
      }
    }

    method Commit() returns (ok: bool)
      requires working.Some?
      modifies this
      ensures ok == db.commits && working == None
      ensures committed == if ok then old(working).value else old(committed)
    {
      ok := db.commits;
      if ok {
        committed := working.value;
      }
      working := None;
    }

    method Rollback()
      modifies this`working
      ensures working == None
    {
      working := None;
    }
  }

  // ----- what a request asks for

  function Parameter(j: Json): Value
    requires !j.JsonNested?
  {
    match j
    case JsonNull => Missing
    case JsonString(s) => Characters(s)
    case JsonNumber(t) => Characters(t)
    case JsonBool(b) => Truth(b)
  }

  /** The last property of that name, case-insensitively. */
  function FindLast(properties: seq<EdmProperty>, name: string): (r: Option<EdmProperty>)
    ensures r.Some? ==> r.value in properties && SameName(r.value.name, name)
    ensures r.None? <==> forall p | p in properties :: !SameName(p.name, name)
  {
    if properties == [] then None
    else
      var last := properties[|properties| - 1];
      assert forall p | p in properties :: p == last || p in properties[..|properties| - 1];
      if SameName(last.name, name) then Some(last) else FindLast(properties[..|properties| - 1], name)
  }

  predicate Writable(p: EdmProperty) {
    p.serializable && p.edmType != BINARY
  }

  /** One member of the body: its property and the value bound for it. */
  function BindMember(e: EdmEntity, update: bool, member: (string, Json)): Option<(EdmProperty, Value)> {
    match FindLast(e.properties, member.0)
    case None => None
    case Some(p) =>
      if !Writable(p) || (update && p.isKey) || member.1.JsonNested? then None
      else if member.1.JsonNull? && (!p.nullable || p.isKey) then None
      else Some((p, Parameter(member.1)))
  }

  function BindMembers(e: EdmEntity, update: bool, seen: set<string>, members: seq<(string, Json)>): Option<seq<(EdmProperty, Value)>>
    decreases |members|
  {
    if members == [] then Some([])
    else if ToLower(members[0].0) in seen then None
    else
      match BindMember(e, update, members[0])
      case None => None
      case Some(b) =>
        match BindMembers(e, update, seen + {ToLower(members[0].0)}, members[1..])
        case None => None
        case Some(bs) => Some([b] + bs)
  }

  function Bound(bs: seq<(EdmProperty, Value)>): seq<EdmProperty> {
    seq(|bs|, i requires 0 <= i < |bs| => bs[i].0)
  }

  function Values(bs: seq<(EdmProperty, Value)>): seq<Value> {
    seq(|bs|, i requires 0 <= i < |bs| => bs[i].1)
  }

  predicate NotSemicolon(c: char) {
    c != ';'
  }

  function MediaType(contentType: string): string {
    ToLower(Trim(contentType[..Span(NotSemicolon, contentType)]))
  }

  /** Refused with a status before the database is touched, or accepted with the key and the bound members. */
  datatype Plan = Refuse(status: nat) | Accept(key: EdmProperty, bound: seq<(EdmProperty, Value)>)

  function PlanWrite(db: Database, request: HttpRequest, body: string, e: EdmEntity, keys: seq<string>): Plan {
    var insert, update := request.verb == "POST", request.verb == "PATCH";
    var found := Keys(e.properties);
    if request.query != [] || "if-match" in request.headers || "if-none-match" in request.headers then Refuse(400)
    else if |keys| != (if insert then 0 else 1) then Refuse(400)
    else if |found| != 1 || !Writable(found[0]) then Refuse(400)
    else if !insert && !update then (if body != "" then Refuse(400) else Accept(found[0], []))
    else if MediaType(HeaderValue(request, "content-type")) != "application/json" then Refuse(415)
    else
      match db.json(body)
      case None => Refuse(400)
      case Some(members) =>
        match BindMembers(e, update, {}, members)
        case None => Refuse(400)
        case Some(bound) => if update && bound == [] then Refuse(400) else Accept(found[0], bound)
  }

  function MeantWrite(verb: string, e: EdmEntity, key: EdmProperty, bound: seq<EdmProperty>): Write {
    if verb == "POST" then MeantInsert(e, bound)
    else if verb == "PATCH" then MeantUpdate(e, bound, key)
    else MeantDelete(e, key)
  }

  function WriteText(verb: string, e: EdmEntity, key: EdmProperty, bound: seq<EdmProperty>): string {
    if verb == "POST" then InsertText(e, bound)
    else if verb == "PATCH" then UpdateText(e, bound, key)
    else DeleteText(e, key)
  }

  function BoundValues(verb: string, bound: seq<(EdmProperty, Value)>, keys: seq<string>): seq<Value>
    requires verb != "POST" ==> |keys| == 1
  {
    Values(bound) + (if verb == "POST" then [] else [Characters(KeyValue(keys[0]))])
  }

  // ----- the response

  datatype Response = Response(status: nat, location: Option<string>, cells: seq<(string, Value)>)

  function Problem(status: nat): Response {
    Response(status, None, [])
  }

  function Cells(e: EdmEntity, row: Row): seq<(string, Value)> {
    seq(|e.properties|, i requires 0 <= i < |e.properties| => (e.properties[i].name, Lookup(row, e.properties[i].name)))
  }

  /** Names and key texts are byte strings, types as the catalog reports them. */
  ghost predicate ValidSetting(db: Database, e: EdmEntity) {
    IsBytes(e.name) && (forall v :: IsBytes(db.text(v))) && TypesLex(e.properties)
  }

  ghost function Created(db: Database, e: EdmEntity, key: EdmProperty, base: string, row: Row): Response
    requires ValidSetting(db, e)
  {
    var value := db.text(Lookup(row, key.name));
    LiteralIsBytes(key.edmType, value);
    Response(201, Some(Location(base, e.name, AddressLiteral(key.edmType, value))), Cells(e, row))
  }

  /** What becomes of a transaction whose statement was executed with result `r`: exactly one returned row, with a
      key, is committed, anything else rolled back. */
  ghost function Conclude(db: Database, verb: string, e: EdmEntity, key: EdmProperty, base: string, r: Executed, rows: seq<Row>)
    : (Response, seq<Row>)
    requires ValidSetting(db, e)
  {
    match r
    case Invalid => (Problem(400), rows)
    case Aborted(conflict) => (Problem(if conflict then 409 else 400), rows)
    case Done(table, returned) =>
      if returned == [] then (Problem(404), rows)
      else if |returned| != 1 then (Problem(409), rows)
      else if verb == "POST" && Lookup(returned[0], key.name) == Missing then (Problem(409), rows)
      else if !db.commits then (Problem(409), rows)
      else (if verb == "POST" then Created(db, e, key, base, returned[0]) else Problem(204), table)
  }

  /** The response and the committed table after it. */
  ghost function Outcome(db: Database, request: HttpRequest, body: string, e: EdmEntity, keys: seq<string>, base: string, rows: seq<Row>)
    : (Response, seq<Row>)
    requires ValidSetting(db, e)
  {
    match PlanWrite(db, request, body, e, keys)
    case Refuse(status) => (Problem(status), rows)
    case Accept(key, bound) =>
      if !db.begins then (Problem(500), rows)
      else
        var r := Apply(db, MeantWrite(request.verb, e, key, Bound(bound)), BoundValues(request.verb, bound, keys), rows);
        Conclude(db, request.verb, e, key, base, r, rows)
  }

  // ----- the code's own loops

  lemma {:induction false} KeysCat(a: seq<EdmProperty>, b: seq<EdmProperty>)
    ensures Keys(a + b) == Keys(a) + Keys(b)
  {
    if a == [] {
      assert a + b == b;
    } else {
      assert (a + b)[1..] == a[1..] + b;
      KeysCat(a[1..], b);
    }
  }

  lemma KeysMore(before: seq<EdmProperty>, p: EdmProperty, after: seq<EdmProperty>)
    ensures Keys(before + [p]) == Keys(before) + (if p.isKey then [p] else [])
    ensures Keys(before + [p] + after) == Keys(before + [p]) + Keys(after)
  {
    hide Keys;
    KeysCat(before, [p]);
    KeysCat(before + [p], after);
    KeysOfOne(p);
  }

  lemma KeysOfOne(p: EdmProperty)
    ensures Keys([p]) == if p.isKey then [p] else []
  {
    assert [p][1..] == [] && Keys([]) == [];
  }

  /** The search for the key: stops at a second one. */
  method FindKey(properties: seq<EdmProperty>) returns (key: Option<EdmProperty>)
    ensures key == if |Keys(properties)| == 1 then Some(Keys(properties)[0]) else None
  {
    key := None;
    assert Keys([]) == [] && properties[..0] == [];
    hide Keys;
    for i := 0 to |properties|
      invariant Keys(properties[..i]) == if key.Some? then [key.value] else []
    {
      KeysMore(properties[..i], properties[i], properties[i + 1..]);
      assert properties[..i] + [properties[i]] == properties[..i + 1];
      assert properties[..i + 1] + properties[i + 1..] == properties;
      if properties[i].isKey {
        if key.Some? {
          return None;
        }
        key := Some(properties[i]);
      }
    }
    assert properties[..|properties|] == properties;
  }

  method FindField(properties: seq<EdmProperty>, field: string) returns (p: Option<EdmProperty>)
    ensures p == FindLast(properties, field)
  {
    p := None;
    for i := 0 to |properties|
      invariant p == FindLast(properties[..i], field)
    {
      assert properties[..i + 1][..i] == properties[..i] && properties[..i + 1][i] == properties[i];
      if SameName(properties[i].name, field) {
        p := Some(properties[i]);
      }
    }
    assert properties[..|properties|] == properties;
  }

  method ReadMember(e: EdmEntity, update: bool, member: (string, Json)) returns (b: Option<(EdmProperty, Value)>)
    ensures b == BindMember(e, update, member)
  {
    hide FindLast;
    var property := FindField(e.properties, member.0);
    if property.None? || !Writable(property.value) || (update && property.value.isKey) {
      return None;
    }
    var parameter := Missing;
    if member.1.JsonNull? {
      if !property.value.nullable || property.value.isKey {
        return None;
      }
    } else if member.1.JsonString? {
      parameter := Characters(member.1.s);
    } else if member.1.JsonNumber? {
      parameter := Characters(member.1.text);
    } else if member.1.JsonBool? {
      parameter := Truth(member.1.b);
    } else {
      return None;
    }
    return Some((property.value, parameter));
  }

  /** Columns, placeholders and assignments of the same bound members, in the same order. */
  ghost predicate Aligned(ps: seq<EdmProperty>, columns: string, placeholders: string, assignments: string) {
    && columns == Join(QuotedNames(Names(ps)), ",")
    && placeholders == Join(HoleTexts(ps), ",")
    && assignments == Join(AssignTexts(ps), ",")
  }

  lemma AlignedMore(ps: seq<EdmProperty>, p: EdmProperty, columns: string, placeholders: string, assignments: string)
    requires Aligned(ps, columns, placeholders, assignments)
    ensures var sep := if ps == [] then "" else ",";
            Aligned(ps + [p], columns + sep + QuotedName(p.name), placeholders + sep + HoleText(p), assignments + sep + (QuotedName(p.name) + "=" + HoleText(p)))
  {
    hide QuotedName, HoleText, Join;
    assert QuotedNames(Names(ps + [p])) == QuotedNames(Names(ps)) + [QuotedName(p.name)];
    assert HoleTexts(ps + [p]) == HoleTexts(ps) + [HoleText(p)];
    assert AssignTexts(ps + [p]) == AssignTexts(ps) + [AssignText(p)];
    assert AssignText(p) == QuotedName(p.name) + "=" + HoleText(p) by { AssignShape(p); }
    if ps == [] {
      JoinFew(QuotedName(p.name), ",");
      JoinFew(HoleText(p), ",");
      JoinFew(AssignText(p), ",");
      assert QuotedNames(Names(ps)) == [] && HoleTexts(ps) == [] && AssignTexts(ps) == [];
    } else {
      JoinSnoc(QuotedNames(Names(ps)), ",", QuotedName(p.name));
      JoinSnoc(HoleTexts(ps), ",", HoleText(p));
      JoinSnoc(AssignTexts(ps), ",", AssignText(p));
    }
  }

  lemma AssignShape(p: EdmProperty)
    ensures AssignText(p) == QuotedName(p.name) + "=" + HoleText(p)
  {
  }

  lemma {:induction false} ColumnsShown(ps: seq<EdmProperty>)
    ensures Join(QuotedNames(Names(ps)), ",") == "" <==> ps == []
  {
    hide Doubled;
    if ps != [] {
      assert QuotedNames(Names(ps))[0] == QuotedName(ps[0].name);
    }
  }

  lemma BindStep(e: EdmEntity, update: bool, seen: set<string>, members: seq<(string, Json)>, i: nat, bound: seq<(EdmProperty, Value)>)
    requires i < |members|
    ensures var m := members[i];
            Prefixed(bound, BindMembers(e, update, seen, members[i..])) ==
            if ToLower(m.0) in seen || BindMember(e, update, m).None? then None
            else Prefixed(bound + [BindMember(e, update, m).value], BindMembers(e, update, seen + {ToLower(m.0)}, members[i + 1..]))
  {
    hide BindMember;
    assert members[i..][1..] == members[i + 1..];
    var rest := BindMembers(e, update, seen + {ToLower(members[i].0)}, members[i + 1..]);
    var b := BindMember(e, update, members[i]);
    if b.Some? && rest.Some? {
      assert bound + ([b.value] + rest.value) == bound + [b.value] + rest.value;
    }
  }

  function Prefixed<T>(bound: seq<T>, r: Option<seq<T>>): Option<seq<T>> {
    if r.None? then None else Some(bound + r.value)
  }

  /** The loop over the members of the body. */
  method ReadMembers(e: EdmEntity, update: bool, members: seq<(string, Json)>)
    returns (ok: bool, columns: string, placeholders: string, assignments: string, values: seq<Value>)
    ensures ok == BindMembers(e, update, {}, members).Some?
    ensures ok ==> var bound := BindMembers(e, update, {}, members).value;
                   Aligned(Bound(bound), columns, placeholders, assignments) && values == Values(bound)
  {
    hide BindMember, BindMembers, Aligned, QuotedName, HoleText;
    ok, columns, placeholders, assignments, values := false, "", "", "", [];
    var seen: set<string> := {};
    ghost var bound: seq<(EdmProperty, Value)> := [];
    NothingBound();
    assert members[0..] == members;
    assert Prefixed(bound, BindMembers(e, update, {}, members)) == BindMembers(e, update, {}, members) by {
      assert forall bs: seq<(EdmProperty, Value)> :: [] + bs == bs;
    }
    for i := 0 to |members|
      invariant BindMembers(e, update, {}, members) == Prefixed(bound, BindMembers(e, update, seen, members[i..]))
      invariant Aligned(Bound(bound), columns, placeholders, assignments) && values == Values(bound)
    {
      BindStep(e, update, seen, members, i, bound);
      var field := members[i].0;
      if ToLower(field) in seen {
        return;
      }
      seen := seen + {ToLower(field)};
      var b := ReadMember(e, update, members[i]);
      if b.None? {
        return;
      }
      var (property, parameter) := b.value;
      AlignedMore(Bound(bound), property, columns, placeholders, assignments);
      assert columns == "" <==> bound == [] by { AlignedColumns(Bound(bound), columns, placeholders, assignments); }
      ghost var before := bound;
      bound := bound + [b.value];
      assert Bound(bound) == Bound(before) + [property] && Values(bound) == Values(before) + [parameter];
      if columns != "" {
        columns := columns + ",";
        placeholders := placeholders + ",";
        assignments := assignments + ",";
      } else {
        assert columns + "" == columns && placeholders + "" == placeholders && assignments + "" == assignments;
      }
      columns := columns + QuotedName(property.name);
      var cast := HoleText(property);
      placeholders := placeholders + cast;
      assignments := assignments + (QuotedName(property.name) + "=" + cast);
      values := values + [parameter];
    }
    NoMoreMembers(e, update, seen, members);
    assert bound + [] == bound;
    ok := true;
  }

  lemma NothingBound()
    ensures Aligned([], "", "", "") && Values([]) == [] && Bound([]) == []
  {
    assert QuotedNames(Names([])) == [] && HoleTexts([]) == [] && AssignTexts([]) == [];
  }

  lemma AlignedColumns(ps: seq<EdmProperty>, columns: string, placeholders: string, assignments: string)
    requires Aligned(ps, columns, placeholders, assignments)
    ensures columns == "" <==> ps == []
  {
    ColumnsShown(ps);
  }

  lemma NoMoreMembers(e: EdmEntity, update: bool, seen: set<string>, members: seq<(string, Json)>)
    ensures BindMembers(e, update, seen, members[|members|..]) == Some([])
  {
  }

  lemma MeantIsRead(verb: string, e: EdmEntity, key: EdmProperty, ps: seq<EdmProperty>)
    requires TypesLex(e.properties) && key in e.properties && (forall i | 0 <= i < |ps| :: ps[i] in e.properties)
    requires verb == "PATCH" ==> ps != []
    ensures ReadWrite(WriteText(verb, e, key, ps)) == Some(MeantWrite(verb, e, key, ps))
  {
    hide IsTypeText, ReadWrite, InsertText, UpdateText, DeleteText, MeantInsert, MeantUpdate, MeantDelete;
    if verb == "POST" {
      InsertReadBack(e, ps);
    } else if verb == "PATCH" {
      UpdateReadBack(e, ps, key);
    } else {
      DeleteReadBack(e, key);
    }
  }

  /** Binding keeps members, properties and values side by side, and names no property twice. */
  lemma {:induction false} BindsEach(e: EdmEntity, update: bool, seen: set<string>, members: seq<(string, Json)>)
    requires BindMembers(e, update, seen, members).Some?
    ensures var bs := BindMembers(e, update, seen, members).value;
            && |bs| == |members|
            && (forall k | 0 <= k < |members| :: BindMember(e, update, members[k]) == Some(bs[k]))
    ensures forall k | 0 <= k < |members| :: ToLower(members[k].0) !in seen
    ensures forall i, k | 0 <= i < k < |members| :: !SameName(members[i].0, members[k].0)
    decreases |members|
  {
    hide BindMember;
    if members != [] {
      var rest := seen + {ToLower(members[0].0)};
      BindsEach(e, update, rest, members[1..]);
      var bs := BindMembers(e, update, rest, members[1..]).value;
      assert BindMembers(e, update, seen, members).value[1..] == bs;
      assert forall k | 0 < k < |members| :: members[k] == members[1..][k - 1];
      assert forall k | 0 < k < |members| :: ToLower(members[k].0) !in rest;
    }
  }

  lemma BoundInEntity(e: EdmEntity, update: bool, members: seq<(string, Json)>)
    requires BindMembers(e, update, {}, members).Some?
    ensures var ps := Bound(BindMembers(e, update, {}, members).value);
            |ps| == |members| && forall i | 0 <= i < |ps| :: ps[i] in e.properties
  {
    hide BindMembers;
    BindsEach(e, update, {}, members);
  }

  /** The texts for `bound`, as the member loop leaves them. */
  ghost predicate Readied(plan: Plan, columns: string, placeholders: string, assignments: string, values: seq<Value>) {
    plan.Accept? ==> Aligned(Bound(plan.bound), columns, placeholders, assignments) && values == Values(plan.bound)
  }

  /** The checks before the transaction, in the order of the code. */
  method CheckRequest(db: Database, request: HttpRequest, body: string, e: EdmEntity, keys: seq<string>)
    returns (plan: Plan, columns: string, placeholders: string, assignments: string, values: seq<Value>)
    ensures plan.Refuse? <==> PlanWrite(db, request, body, e, keys).Refuse?
    ensures plan.Refuse? ==> plan == PlanWrite(db, request, body, e, keys)
    ensures plan.Accept? ==> plan.key == PlanWrite(db, request, body, e, keys).key
    ensures plan.Accept? ==> Readied(PlanWrite(db, request, body, e, keys), columns, placeholders, assignments, values)
  {
    hide Keys, BindMembers, Aligned, MediaType;
    columns, placeholders, assignments, values := "", "", "", [];
    var insert, update := request.verb == "POST", request.verb == "PATCH";
    if request.query != [] {
      return Refuse(400), columns, placeholders, assignments, values;
    }
    if "if-match" in request.headers || "if-none-match" in request.headers {
      return Refuse(400), columns, placeholders, assignments, values;
    }
    if (insert && keys != []) || (!insert && |keys| != 1) {
      return Refuse(400), columns, placeholders, assignments, values;
    }
    var key := FindKey(e.properties);
    if key.None? || !Writable(key.value) {
      return Refuse(400), columns, placeholders, assignments, values;
    }
    if insert || update {
      if MediaType(HeaderValue(request, "content-type")) != "application/json" {
        return Refuse(415), columns, placeholders, assignments, values;
      }
      var members := db.json(body);
      if members.None? {
        return Refuse(400), columns, placeholders, assignments, values;
      }
      var ok;
      ok, columns, placeholders, assignments, values := ReadMembers(e, update, members.value);
      if !ok || (update && values == []) {
        return Refuse(400), columns, placeholders, assignments, values;
      }
    } else {
      NothingBound();
      if body != "" {
        return Refuse(400), columns, placeholders, assignments, values;
      }
    }
    return Accept(key.value, []), columns, placeholders, assignments, values;
  }

  /** The statement, put together from the table, the loop's texts and the key. */
  method BuildStatement(verb: string, e: EdmEntity, key: EdmProperty, ghost bound: seq<(EdmProperty, Value)>, keys: seq<string>,
                        columns: string, placeholders: string, assignments: string, values: seq<Value>)
    returns (sql: string, all: seq<Value>)
    requires Aligned(Bound(bound), columns, placeholders, assignments) && values == Values(bound)
    requires verb != "POST" ==> |keys| == 1
    ensures sql == WriteText(verb, e, key, Bound(bound)) && all == BoundValues(verb, bound, keys)
  {
    hide QuotedName, HoleTexts, AssignTexts, HoleText, KeyValue, ReturningText;
    all := values;
    var table := TargetText(e);
    if verb == "POST" {
      sql := "INSERT INTO " + table;
      if values == [] {
        sql := sql + " DEFAULT VALUES";
      } else {
        sql := sql + (" (" + columns + ") VALUES (" + placeholders + ")");
      }
      assert all + [] == all;
    } else {
      var raw := keys[0];
      if |raw| >= 2 && raw[0] == '\'' && raw[|raw| - 1] == '\'' {
        raw := UnquoteKey(raw[1..|raw| - 1]);
      }
      assert raw == KeyValue(keys[0]) by { KeyValueShape(keys[0]); }
      all := all + [Characters(raw)];
      sql := if verb == "PATCH" then "UPDATE " + table + " SET " + assignments else "DELETE FROM " + table;
      sql := sql + (" WHERE " + (QuotedName(key.name) + (" = " + HoleText(key))));
    }
    var returning := JoinNames(e.properties);
    assert ReturningText(e) == " RETURNING " + returning by { ReturningShape(e); }
    sql := sql + (" RETURNING " + returning);
  }

  lemma KeyValueShape(raw: string)
    ensures KeyValue(raw) == if |raw| >= 2 && raw[0] == '\'' && raw[|raw| - 1] == '\'' then Undoubled(raw[1..|raw| - 1]) else raw
  {
  }

  lemma ReturningShape(e: EdmEntity)
    ensures ReturningText(e) == " RETURNING " + Join(QuotedNames(Names(e.properties)), ",")
  {
  }

  method JoinNames(properties: seq<EdmProperty>) returns (sql: string)
    ensures sql == Join(QuotedNames(Names(properties)), ",")
  {
    hide QuotedName, Join;
    sql := "";
    assert QuotedNames(Names(properties[..0])) == [];
    JoinFew("", ",");
    for i := 0 to |properties|
      invariant sql == Join(QuotedNames(Names(properties[..i])), ",")
    {
      var name := QuotedName(properties[i].name);
      var before := QuotedNames(Names(properties[..i]));
      assert QuotedNames(Names(properties[..i + 1])) == before + [name];
      if i > 0 {
        JoinSnoc(before, ",", name);
        sql := sql + ",";
      } else {
        JoinFew(name, ",");
      }
      sql := sql + name;
    }
    assert properties[..|properties|] == properties;
  }

  /** The loop over the properties of the returned row: members of the body and, at the key, the Location. */
  method BuildCreated(db: Database, e: EdmEntity, key: EdmProperty, base: string, row: Row) returns (ok: bool, response: Response)
    requires ValidSetting(db, e) && Keys(e.properties) == [key]
    ensures ok == (Lookup(row, key.name) != Missing)
    ensures ok ==> response == Created(db, e, key, base, row)
  {
    hide Keys, TypesLex, Location, Lookup, AddressLiteral;
    response := Response(201, None, []);
    assert e.properties[..0] == [];
    KeysMore([], key, []);
    NoKeys();
    LiteralIsBytes(key.edmType, db.text(Lookup(row, key.name)));
    ghost var here := Location(base, e.name, AddressLiteral(key.edmType, db.text(Lookup(row, key.name))));
    for i := 0 to |e.properties|
      invariant response.status == 201 && response.cells == Cells(e, row)[..i]
      invariant Keys(e.properties[..i]) == [] ==> response.location == None
      invariant Keys(e.properties[..i]) != [] ==> response.location == Some(here) && Lookup(row, key.name) != Missing
    {
      var p := e.properties[i];
      KeysMore(e.properties[..i], p, e.properties[i + 1..]);
      assert e.properties[..i] + [p] == e.properties[..i + 1] && e.properties[..i + 1] + e.properties[i + 1..] == e.properties;
      var value := Lookup(row, p.name);
      response := response.(cells := response.cells + [(p.name, value)]);
      if p.isKey {
        OneKeyOnly(Keys(e.properties[..i]), p, Keys(e.properties[i + 1..]), key);
        if value == Missing {
          return false, response;
        }
        var literal := AddressLiteral(key.edmType, db.text(value));
        response := response.(location := Some(Location(base, e.name, literal)));
      }
    }
    assert e.properties[..|e.properties|] == e.properties && Cells(e, row)[..|e.properties|] == Cells(e, row);
    ok := true;
  }

  lemma KeysBelong(properties: seq<EdmProperty>)
    ensures forall k | k in Keys(properties) :: k in properties
  {
  }

  lemma NoKeys()
    ensures Keys([]) == []
  {
  }

  lemma OneKeyOnly(a: seq<EdmProperty>, p: EdmProperty, b: seq<EdmProperty>, key: EdmProperty)
    requires a + [p] + b == [key]
    ensures p == key && a == []
  {
    assert (a + [p] + b)[|a|] == p;
  }

  const VECTOR_SIZE: nat := 2048

  /** From Prepare to COMMIT, inside the transaction. */
  method RunTransaction(con: Connection, verb: string, sql: string, values: seq<Value>, e: EdmEntity, key: EdmProperty, base: string)
    returns (response: Response, committed: bool)
    requires ValidSetting(con.db, e) && Keys(e.properties) == [key] && con.working == Some(con.committed)
    modifies con
    ensures committed ==> con.working.None?
    ensures var r := match ReadWrite(sql) case None => Invalid case Some(w) => Apply(con.db, w, values, old(con.committed));
            (response, con.committed) == Conclude(con.db, verb, e, key, base, r, old(con.committed))
  {
    hide ReadWrite, Apply, ValidSetting, Keys, Created, Lookup;
    var result := con.Execute(sql, values);
    if result.Invalid? {
      return Problem(400), false;
    }
    if result.Aborted? {
      return Problem(if result.conflict then 409 else 400), false;
    }
    var chunk := Take(result.returned, VECTOR_SIZE);
    if chunk == [] {
      return Problem(404), false;
    }
    var extra := Take(Drop(result.returned, VECTOR_SIZE), VECTOR_SIZE);
    if |chunk| != 1 || extra != [] {
      return Problem(409), false;
    }
    response := Problem(204);
    if verb == "POST" {
      var ok;
      ok, response := BuildCreated(con.db, e, key, base, chunk[0]);
      if !ok {
        return Problem(409), false;
      }
    }
    var done := con.Commit();
    if !done {
      return Problem(409), false;
    }
    committed := true;
  }

  /** ExecuteWrite. The guard's destructor is the rollback at the end. */
  method ExecuteWrite(con: Connection, request: HttpRequest, body: string, e: EdmEntity, keys: seq<string>, base: string)
    returns (response: Response)
    requires con.working.None? && ValidSetting(con.db, e)
    modifies con
    ensures con.working.None?
    ensures (response, con.committed) == Outcome(con.db, request, body, e, keys, base, old(con.committed))
  {
    hide ReadWrite, Apply, Keys, Conclude, Aligned, MeantWrite, WriteText, TypesLex, BindMembers, MediaType;
    var plan, columns, placeholders, assignments, values := CheckRequest(con.db, request, body, e, keys);
    if plan.Refuse? {
      return Problem(plan.status);
    }
    ghost var bound := PlanWrite(con.db, request, body, e, keys).bound;
    PlanNames(con.db, request, body, e, keys);
    var sql, all := BuildStatement(request.verb, e, plan.key, bound, keys, columns, placeholders, assignments, values);
    MeantIsRead(request.verb, e, plan.key, Bound(bound));
    var begun := con.Begin();
    if !begun {
      return Problem(500);
    }
    var committed;
    response, committed := RunTransaction(con, request.verb, sql, all, e, plan.key, base);
    if !committed {
      con.Rollback();
    }
  }

  /** An accepted request has the one key of the entity, and binds properties of the entity. */
  lemma PlanNames(db: Database, request: HttpRequest, body: string, e: EdmEntity, keys: seq<string>)
    requires PlanWrite(db, request, body, e, keys).Accept?
    ensures var plan := PlanWrite(db, request, body, e, keys);
            && Keys(e.properties) == [plan.key] && plan.key in e.properties
            && (forall i | 0 <= i < |Bound(plan.bound)| :: Bound(plan.bound)[i] in e.properties)
            && (request.verb != "POST" ==> |keys| == 1) && (request.verb == "PATCH" ==> Bound(plan.bound) != [])
  {
    hide Keys, BindMembers, MediaType;
    assert Keys(e.properties)[0] in Keys(e.properties);
    KeysBelong(e.properties);
    if request.verb == "POST" || request.verb == "PATCH" {
      BoundInEntity(e, request.verb == "PATCH", db.json(body).value);
    }
  }
}
