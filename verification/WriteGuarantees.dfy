/** What the write transaction guarantees: nothing or exactly one row, with the columns and values of the request. */
module WriteGuarantees {
  import opened Text
  import opened Edm
  import opened SqlLexer
  import opened ExprMeaning
  import opened ExprSemantics
  import opened SqlCompiler
  import opened Http
  import opened Routing
  import opened WriteStatement
  import opened WriteTransaction

  /** All or nothing: any status but 201 and 204 leaves the committed table as it was. */
  lemma FailureChangesNothing(db: Database, request: HttpRequest, body: string, e: EdmEntity, keys: seq<string>, base: string, rows: seq<Row>)
    requires ValidSetting(db, e)
    ensures var (response, after) := Outcome(db, request, body, e, keys, base, rows);
            && response.status in {201, 204, 400, 404, 409, 415, 500}
            && (response.status == 201 ==> request.verb == "POST") && (response.status == 204 ==> request.verb != "POST")
            && (response.status !in {201, 204} ==> after == rows)
  {
    hide Apply, MeantWrite, BindMembers, Keys, MediaType, ValidSetting, BoundValues;
  }

  // ----- one row from the members of a body

  /** What a column of `p` holds once a member is written to it: texts and numbers are cast from their characters, booleans
      and nulls from themselves; objects and arrays cannot be written. */
  predicate StoredAs(db: Database, p: EdmProperty, member: Json, stored: Value) {
    match member
    case JsonString(s) => db.cast(TypeTokens(p.duckdbType), Characters(s)) == Some(stored)
    case JsonNumber(text) => db.cast(TypeTokens(p.duckdbType), Characters(text)) == Some(stored)
    case JsonBool(b) => db.cast(TypeTokens(p.duckdbType), Truth(b)) == Some(stored)
    case JsonNull => db.cast(TypeTokens(p.duckdbType), Missing) == Some(stored)
    case JsonNested => false
  }

  predicate StoredFor(db: Database, e: EdmEntity, member: (string, Json), stored: Value) {
    exists p | p in e.properties && SameName(p.name, member.0) :: StoredAs(db, p, member.1, stored)
  }

  predicate NamesColumn(members: seq<(string, Json)>, column: string) {
    exists k | 0 <= k < |members| :: ToLower(members[k].0) == column
  }

  /** `after` is `before` with the column of every member set to the member's value and no other column changed. */
  predicate RowFrom(db: Database, e: EdmEntity, members: seq<(string, Json)>, before: Row, after: Row) {
    && (forall k | 0 <= k < |members| ::
          ToLower(members[k].0) in after && StoredFor(db, e, members[k], after[ToLower(members[k].0)]))
    && (forall c | c in after :: c in before || NamesColumn(members, c))
    && (forall c | c in before :: c in after && (after[c] == before[c] || NamesColumn(members, c)))
  }

  lemma RowFromKeeps(db: Database, e: EdmEntity, members: seq<(string, Json)>, before: Row, after: Row, name: string)
    requires RowFrom(db, e, members, before, after) && forall k | 0 <= k < |members| :: !SameName(members[k].0, name)
    ensures Lookup(after, name) == Lookup(before, name)
  {
    hide StoredFor;
    assert !NamesColumn(members, ToLower(name));
  }

  predicate IsAmong(names: seq<string>, column: string) {
    exists k | 0 <= k < |names| :: ToLower(names[k]) == column
  }

  lemma {:induction false} OverlayExact(row: Row, names: seq<string>, values: seq<Value>)
    requires |names| == |values| && forall i, j | 0 <= i < j < |names| :: !SameName(names[i], names[j])
    ensures var after := Overlay(row, names, values);
            && (forall k | 0 <= k < |names| :: ToLower(names[k]) in after && after[ToLower(names[k])] == values[k])
            && (forall c | c in after :: c in row || IsAmong(names, c))
            && (forall c | c in row :: c in after && (after[c] == row[c] || IsAmong(names, c)))
    decreases |names|
  {
    if names != [] {
      var first := row[ToLower(names[0]) := values[0]];
      OverlayExact(first, names[1..], values[1..]);
      var after := Overlay(row, names, values);
      assert forall k | 0 < k < |names| :: names[k] == names[1..][k - 1] && values[k] == values[1..][k - 1];
      assert forall k | 0 <= k < |names[1..]| :: names[1..][k] == names[k + 1] && ToLower(names[k + 1]) != ToLower(names[0]);
    }
  }

  /** The property a member is bound to has the member's name. */
  lemma MemberNames(e: EdmEntity, update: bool, members: seq<(string, Json)>)
    requires BindMembers(e, update, {}, members).Some?
    ensures var ps := Bound(BindMembers(e, update, {}, members).value);
            && |ps| == |members|
            && (forall k | 0 <= k < |ps| :: SameName(ps[k].name, members[k].0))
            && (forall i, j | 0 <= i < j < |ps| :: !SameName(ps[i].name, ps[j].name))
  {
    hide BindMembers, FindLast;
    BindsEach(e, update, {}, members);
    var bs := BindMembers(e, update, {}, members).value;
    forall k | 0 <= k < |members| ensures SameName(bs[k].0.name, members[k].0) {
      assert BindMember(e, update, members[k]) == Some(bs[k]);
    }
  }

  /** Columns and values stay aligned through the loop, the placeholders and the casts. */
  lemma BoundRow(db: Database, e: EdmEntity, update: bool, members: seq<(string, Json)>, before: Row, values: seq<Value>)
    requires BindMembers(e, update, {}, members).Some?
    requires var bs := BindMembers(e, update, {}, members).value;
             |values| == |bs| && forall k | 0 <= k < |bs| :: db.cast(Types(Bound(bs))[k], Values(bs)[k]) == Some(values[k])
    ensures var bs := BindMembers(e, update, {}, members).value;
            RowFrom(db, e, members, before, Overlay(before, Names(Bound(bs)), values))
  {
    hide BindMembers, BindMember, Overlay, RowFrom, StoredFor, TypeTokens, SameName;
    var bs := BindMembers(e, update, {}, members).value;
    BindsEach(e, update, {}, members);
    MemberNames(e, update, members);
    forall k | 0 <= k < |members| ensures StoredFor(db, e, members[k], values[k]) {
      assert Types(Bound(bs))[k] == TypeTokens(bs[k].0.duckdbType) && Values(bs)[k] == bs[k].1;
      MemberStored(db, e, update, members[k], values[k]);
    }
    OverlayIsRowFrom(db, e, members, before, Names(Bound(bs)), values);
  }

  lemma OverlayIsRowFrom(db: Database, e: EdmEntity, members: seq<(string, Json)>, before: Row, names: seq<string>, values: seq<Value>)
    requires |names| == |values| == |members| && forall i, j | 0 <= i < j < |names| :: !SameName(names[i], names[j])
    requires forall k | 0 <= k < |names| :: SameName(names[k], members[k].0) && StoredFor(db, e, members[k], values[k])
    ensures RowFrom(db, e, members, before, Overlay(before, names, values))
  {
    hide Overlay, StoredFor, NamesColumn, IsAmong;
    OverlayExact(before, names, values);
    forall c ensures IsAmong(names, c) <==> NamesColumn(members, c) {
      AmongMembers(members, names, c);
    }
    assert forall k | 0 <= k < |names| :: ToLower(names[k]) == ToLower(members[k].0);
  }

  lemma AmongMembers(members: seq<(string, Json)>, names: seq<string>, c: string)
    requires |names| == |members| && forall k | 0 <= k < |names| :: SameName(names[k], members[k].0)
    ensures IsAmong(names, c) <==> NamesColumn(members, c)
  {
    assert forall k | 0 <= k < |names| :: ToLower(names[k]) == ToLower(members[k].0);
  }

  /** What a member binds, cast to the type of its column, is what is to be stored for it. */
  lemma MemberStored(db: Database, e: EdmEntity, update: bool, member: (string, Json), stored: Value)
    requires BindMember(e, update, member).Some?
    requires var (p, v) := BindMember(e, update, member).value; db.cast(TypeTokens(p.duckdbType), v) == Some(stored)
    ensures StoredFor(db, e, member, stored)
  {
    hide LexSql;
    var p := BindMember(e, update, member).value.0;
    assert StoredAs(db, p, member.1, stored);
  }

  // ----- 201

  lemma InsertedRow(db: Database, e: EdmEntity, members: seq<(string, Json)>, rows: seq<Row>)
    requires BindMembers(e, false, {}, members).Some?
    requires var bs := BindMembers(e, false, {}, members).value; Apply(db, MeantInsert(e, Bound(bs)), Values(bs), rows).Done?
    ensures var bs := BindMembers(e, false, {}, members).value;
            var r := Apply(db, MeantInsert(e, Bound(bs)), Values(bs), rows);
            |r.returned| == 1 && r.table == rows + r.returned && RowFrom(db, e, members, db.defaults, r.returned[0])
  {
    hide BindMembers, FindLast, Overlay, Lookup, LexSql, SameName, RowFrom, StoredFor;
    var bs := BindMembers(e, false, {}, members).value;
    BindsEach(e, false, {}, members);
    if bs == [] {
      EmptyBody(db, e, members, db.defaults);
    } else {
      BoundRow(db, e, false, members, db.defaults, CastAll(db, Types(Bound(bs)), Values(bs)).value);
    }
  }

  lemma EmptyBody(db: Database, e: EdmEntity, members: seq<(string, Json)>, row: Row)
    requires members == []
    ensures RowFrom(db, e, members, row, row)
  {
  }

  /** 201: exactly one row is added, with the supplied members cast to their columns' types, the defaults elsewhere
      and a key that is not null; the Location names that key. */
  lemma InsertAddsOneRow(db: Database, request: HttpRequest, body: string, e: EdmEntity, keys: seq<string>, base: string, rows: seq<Row>)
    requires ValidSetting(db, e) && Outcome(db, request, body, e, keys, base, rows).0.status == 201
    ensures var (response, after) := Outcome(db, request, body, e, keys, base, rows);
            && db.json(body).Some? && |after| == |rows| + 1 && after[..|rows|] == rows
            && RowFrom(db, e, db.json(body).value, db.defaults, after[|rows|])
            && Keys(e.properties) != [] && Lookup(after[|rows|], Keys(e.properties)[0].name) != Missing
            && response == Created(db, e, Keys(e.properties)[0], base, after[|rows|])
            && |response.cells| == |e.properties|
            && forall i | 0 <= i < |e.properties| ::
                 response.cells[i] == (e.properties[i].name, Lookup(after[|rows|], e.properties[i].name))
  {
    hide Apply, BindMembers, Keys, MediaType, ValidSetting, RowFrom, MeantInsert, Created;
    var plan := PlanWrite(db, request, body, e, keys);
    FailureChangesNothing(db, request, body, e, keys, base, rows);
    assert plan.Accept? && request.verb == "POST";
    assert Values(plan.bound) + [] == Values(plan.bound);
    InsertedRow(db, e, db.json(body).value, rows);
    CreatedShows(db, e, plan.key, base, Outcome(db, request, body, e, keys, base, rows).1[|rows|]);
  }

  lemma CreatedShows(db: Database, e: EdmEntity, key: EdmProperty, base: string, row: Row)
    requires ValidSetting(db, e)
    ensures var cells := Created(db, e, key, base, row).cells;
            && |cells| == |e.properties|
            && forall i | 0 <= i < |e.properties| :: cells[i] == (e.properties[i].name, Lookup(row, e.properties[i].name))
  {
    hide ValidSetting;
  }

  // ----- 204

  lemma {:induction false} OneHit(db: Database, key: string, k: Value, rows: seq<Row>) returns (i: nat)
    requires |Hits(db, key, k, rows)| == 1
    ensures i < |rows| && Hit(db, key, k, rows[i]) && forall j | 0 <= j < |rows| && j != i :: !Hit(db, key, k, rows[j])
    ensures Hits(db, key, k, rows) == [rows[i]] && Others(db, key, k, rows) == rows[..i] + rows[i + 1..]
  {
    hide Hit;
    var first, rest := rows[0], rows[1..];
    var hits, others := Hits(db, key, k, rest), Others(db, key, k, rest);
    assert rows == [first] + rest;
    hide Hits, Others;
    if Hit(db, key, k, first) {
      i := 0;
      assert |[first] + hits| == 1;
      NoHit(db, key, k, rest);
    } else {
      assert [] + hits == hits;
      var n := OneHit(db, key, k, rest);
      i := n + 1;
      Around(first, rest, n);
    }
  }

  lemma Around<T>(first: T, rest: seq<T>, n: nat)
    requires n < |rest|
    ensures var s := [first] + rest; s[..n + 1] + s[n + 2..] == [first] + (rest[..n] + rest[n + 1..])
  {
  }

  lemma {:induction false} NoHit(db: Database, key: string, k: Value, rows: seq<Row>)
    requires Hits(db, key, k, rows) == []
    ensures Others(db, key, k, rows) == rows && forall j | 0 <= j < |rows| :: !Hit(db, key, k, rows[j])
  {
    hide Hit;
    if rows != [] {
      NoHit(db, key, k, rows[1..]);
      assert [rows[0]] + rows[1..] == rows;
      assert forall j | 0 < j < |rows| :: rows[j] == rows[1..][j - 1];
    }
  }

  /** The key value of the address, as the statement compares it. */
  function AddressedKey(db: Database, e: EdmEntity, keys: seq<string>): Option<Value>
    requires |keys| == 1 && Keys(e.properties) != []
  {
    db.cast(TypeTokens(Keys(e.properties)[0].duckdbType), Characters(KeyValue(keys[0])))
  }

  /** Row `i`, and no other, has the addressed key. */
  ghost predicate OnlyMatch(db: Database, e: EdmEntity, keys: seq<string>, rows: seq<Row>, i: nat)
    requires |keys| == 1 && Keys(e.properties) != []
  {
    && i < |rows| && AddressedKey(db, e, keys).Some?
    && forall j | 0 <= j < |rows| :: Hit(db, Keys(e.properties)[0].name, AddressedKey(db, e, keys).value, rows[j]) <==> j == i
  }

  predicate DistinctNames(properties: seq<EdmProperty>) {
    forall i, j | 0 <= i < j < |properties| :: !SameName(properties[i].name, properties[j].name)
  }

  lemma PatchedRow(db: Database, e: EdmEntity, key: EdmProperty, members: seq<(string, Json)>, k: Value, rows: seq<Row>)
    requires BindMembers(e, true, {}, members).Some?
    requires var bs := BindMembers(e, true, {}, members).value;
             var r := Apply(db, MeantUpdate(e, Bound(bs), key), Values(bs) + [k], rows); r.Done? && |r.returned| == 1
    ensures var bs := BindMembers(e, true, {}, members).value;
            var r := Apply(db, MeantUpdate(e, Bound(bs), key), Values(bs) + [k], rows);
            var kv := db.cast(TypeTokens(key.duckdbType), k);
            && kv.Some? && |Hits(db, key.name, kv.value, rows)| == 1 && |r.table| == |rows|
            && forall j | 0 <= j < |rows| ::
                 if Hit(db, key.name, kv.value, rows[j]) then RowFrom(db, e, members, rows[j], r.table[j]) else r.table[j] == rows[j]
  {
    hide BindMembers, FindLast, Overlay, Lookup, LexSql, SameName, RowFrom, StoredFor, Hit, Hits, CastAll;
    var bs := BindMembers(e, true, {}, members).value;
    BindsEach(e, true, {}, members);
    var r := Apply(db, MeantUpdate(e, Bound(bs), key), Values(bs) + [k], rows);
    var types := Types(Bound(bs)) + [TypeTokens(key.duckdbType)];
    var vs := CastAll(db, types, Values(bs) + [k]).value;
    var news := vs[..|bs|];
    assert types[|bs|] == TypeTokens(key.duckdbType) && (Values(bs) + [k])[|bs|] == k;
    assert forall i | 0 <= i < |bs| :: types[i] == Types(Bound(bs))[i] && (Values(bs) + [k])[i] == Values(bs)[i] && news[i] == vs[i];
    forall j | 0 <= j < |rows| && Hit(db, key.name, vs[|bs|], rows[j]) ensures RowFrom(db, e, members, rows[j], r.table[j]) {
      BoundRow(db, e, true, members, rows[j], news);
    }
  }

  /** A PATCH names no key: the key column of a patched row stays. */
  lemma KeyIsNotNamed(e: EdmEntity, key: EdmProperty, members: seq<(string, Json)>)
    requires BindMembers(e, true, {}, members).Some? && key in e.properties && key.isKey && DistinctNames(e.properties)
    ensures forall k | 0 <= k < |members| :: !SameName(members[k].0, key.name)
  {
    hide BindMembers;
    BindsEach(e, true, {}, members);
    forall k | 0 <= k < |members| ensures !SameName(members[k].0, key.name) {
      assert BindMember(e, true, members[k]).Some?;
      var p := FindLast(e.properties, members[k].0).value;
      var i :| 0 <= i < |e.properties| && e.properties[i] == p;
      var j :| 0 <= j < |e.properties| && e.properties[j] == key;
      assert i != j;
    }
  }

  /** 204 to PATCH: exactly one row matches the key, and in that row exactly the named columns change, never the key. */
  lemma PatchChangesOneRow(db: Database, request: HttpRequest, body: string, e: EdmEntity, keys: seq<string>, base: string, rows: seq<Row>)
    returns (i: nat)
    requires ValidSetting(db, e) && DistinctNames(e.properties) && request.verb == "PATCH"
    requires Outcome(db, request, body, e, keys, base, rows).0.status == 204
    ensures var after := Outcome(db, request, body, e, keys, base, rows).1;
            && |keys| == 1 && Keys(e.properties) != [] && OnlyMatch(db, e, keys, rows, i)
            && |after| == |rows| && (forall j | 0 <= j < |rows| && j != i :: after[j] == rows[j])
            && db.json(body).Some? && RowFrom(db, e, db.json(body).value, rows[i], after[i])
            && Lookup(after[i], Keys(e.properties)[0].name) == Lookup(rows[i], Keys(e.properties)[0].name)
  {
    hide Apply, BindMembers, Keys, MediaType, ValidSetting, MeantUpdate, Hits, KeyValue, TypeTokens, DistinctNames, RowFrom;
    var plan := PlanWrite(db, request, body, e, keys);
    PlanNames(db, request, body, e, keys);
    assert plan.Accept?;
    var members, k := db.json(body).value, Characters(KeyValue(keys[0]));
    PatchedRow(db, e, plan.key, members, k, rows);
    var kv := db.cast(TypeTokens(plan.key.duckdbType), k).value;
    i := OneHit(db, plan.key.name, kv, rows);
    KeyIsKey(e.properties);
    KeyIsNotNamed(e, plan.key, members);
    RowFromKeeps(db, e, members, rows[i], Outcome(db, request, body, e, keys, base, rows).1[i], plan.key.name);
  }

  lemma KeyIsKey(properties: seq<EdmProperty>)
    ensures forall k | k in Keys(properties) :: k.isKey
  {
  }

  /** 204 to DELETE: exactly one row matches the key, and exactly that row goes. */
  lemma DeleteRemovesOneRow(db: Database, request: HttpRequest, body: string, e: EdmEntity, keys: seq<string>, base: string, rows: seq<Row>)
    returns (i: nat)
    requires ValidSetting(db, e) && request.verb !in {"POST", "PATCH"}
    requires Outcome(db, request, body, e, keys, base, rows).0.status == 204
    ensures |keys| == 1 && Keys(e.properties) != [] && OnlyMatch(db, e, keys, rows, i)
    ensures Outcome(db, request, body, e, keys, base, rows).1 == rows[..i] + rows[i + 1..]
  {
    hide BindMembers, Keys, MediaType, ValidSetting, Hits, Others, KeyValue, TypeTokens;
    var plan := PlanWrite(db, request, body, e, keys);
    PlanNames(db, request, body, e, keys);
    assert plan.Accept? && plan.bound == [];
    var k := Characters(KeyValue(keys[0]));
    assert Values(plan.bound) + [k] == [k];
    var kv := db.cast(TypeTokens(plan.key.duckdbType), k).value;
    i := OneHit(db, plan.key.name, kv, rows);
  }

  // ----- a delete at the Location undoes an insert

  predicate PlainDelete(request: HttpRequest) {
    request.verb == "DELETE" && request.query == [] && "if-match" !in request.headers && "if-none-match" !in request.headers
  }

  lemma {:induction false} HitsOfNone(db: Database, key: string, k: Value, rows: seq<Row>, row: Row)
    requires (forall i | 0 <= i < |rows| :: !Hit(db, key, k, rows[i])) && Hit(db, key, k, row)
    ensures Hits(db, key, k, rows + [row]) == [row] && Others(db, key, k, rows + [row]) == rows
  {
    hide Hit;
    var all := rows + [row];
    if rows == [] {
      assert all[1..] == [] && all[0] == row;
    } else {
      assert all[1..] == rows[1..] + [row] && [rows[0]] + rows[1..] == rows;
      HitsOfNone(db, key, k, rows[1..], row);
    }
  }

  /** What a 201 shows about the database and the entity. */
  lemma InsertFacts(db: Database, request: HttpRequest, body: string, e: EdmEntity, keys: seq<string>, base: string, rows: seq<Row>)
    requires ValidSetting(db, e) && Outcome(db, request, body, e, keys, base, rows).0.status == 201
    ensures db.begins && db.commits && db.name == FullName(e) && Knows(db, Names(e.properties))
    ensures |Keys(e.properties)| == 1 && Writable(Keys(e.properties)[0]) && Keys(e.properties)[0] in e.properties
  {
    hide BindMembers, Keys, MediaType, ValidSetting, Created, CastAll, Overlay;
    FailureChangesNothing(db, request, body, e, keys, base, rows);
    PlanNames(db, request, body, e, keys);
  }

  lemma NamedKey(e: EdmEntity, key: EdmProperty, db: Database)
    requires key in e.properties && Knows(db, Names(e.properties))
    ensures Knows(db, [key.name])
  {
    var i :| 0 <= i < |e.properties| && e.properties[i] == key;
    assert Names(e.properties)[i] == key.name;
  }

  lemma PlainDeletePlan(db: Database, del: HttpRequest, e: EdmEntity, keys: seq<string>)
    requires PlainDelete(del) && |keys| == 1 && |Keys(e.properties)| == 1 && Writable(Keys(e.properties)[0])
    ensures PlanWrite(db, del, "", e, keys) == Accept(Keys(e.properties)[0], [])
  {
    hide Keys;
  }

  /** A delete that matches exactly the last row. */
  lemma DeleteLast(db: Database, del: HttpRequest, e: EdmEntity, keys: seq<string>, base: string, rows: seq<Row>, row: Row, v: Value)
    requires ValidSetting(db, e) && PlainDelete(del) && |keys| == 1
    requires db.begins && db.commits && db.name == FullName(e) && Knows(db, Names(e.properties))
    requires |Keys(e.properties)| == 1 && Writable(Keys(e.properties)[0]) && Keys(e.properties)[0] in e.properties
    requires AddressedKey(db, e, keys) == Some(v) && Hit(db, Keys(e.properties)[0].name, v, row)
    requires forall i | 0 <= i < |rows| :: !Hit(db, Keys(e.properties)[0].name, v, rows[i])
    requires db.accepts(rows + [row], rows)
    ensures Outcome(db, del, "", e, keys, base, rows + [row]) == (Problem(204), rows)
  {
    hide Keys, ValidSetting, Hit, Hits, Others, KeyValue, TypeTokens, PlanWrite, Knows;
    var key := Keys(e.properties)[0];
    PlainDeletePlan(db, del, e, keys);
    NamedKey(e, key, db);
    HitsOfNone(db, key.name, v, rows, row);
    assert Values([]) + [Characters(KeyValue(keys[0]))] == [Characters(KeyValue(keys[0]))];
  }

  /** The database reads the text of the key back, no earlier row has it, and constraints let the new row go. */
  ghost predicate Deletable(db: Database, key: EdmProperty, rows: seq<Row>, row: Row) {
    var v := Lookup(row, key.name);
    && ValidKey(key.edmType, db.text(v)) && db.cast(TypeTokens(key.duckdbType), Characters(db.text(v))) == Some(v)
    && db.same(v, v) && (forall i | 0 <= i < |rows| :: !Hit(db, key.name, v, rows[i]))
    && db.accepts(rows + [row], rows)
  }

  /** A DELETE sent to the Location of a 201 restores the table. */
  lemma DeleteUndoesInsert(db: Database, request: HttpRequest, body: string, e: EdmEntity, base: string, rows: seq<Row>, row: Row, del: HttpRequest)
    requires ValidSetting(db, e) && PlainDelete(del)
    requires Outcome(db, request, body, e, [], base, rows).0.status == 201
    requires Outcome(db, request, body, e, [], base, rows).1 == rows + [row]
    requires |Keys(e.properties)| == 1 && Deletable(db, Keys(e.properties)[0], rows, row)
    requires IsCleanBase(base) && base != "/" && ValidEntityName(e.name)
    ensures var location := Outcome(db, request, body, e, [], base, rows).0.location;
            && location.Some?
            && var route := ParseRoute(base, ParseTarget(location.value).0);
            route.entity == e.name && Outcome(db, del, "", e, route.keys, base, rows + [row]) == (Problem(204), rows)
  {
    hide Keys, ValidSetting, Hit, KeyValue, TypeTokens, Outcome, ParseRoute, ParseTarget, RowFrom, ValidKey, IsCleanBase, ValidEntityName, Location, AddressLiteral, Knows, Writable;
    var key, v := Keys(e.properties)[0], Lookup(row, Keys(e.properties)[0].name);
    InsertFacts(db, request, body, e, [], base, rows);
    InsertAddsOneRow(db, request, body, e, [], base, rows);
    assert (rows + [row])[|rows|] == row;
    LocationLeadsBack(base, e.name, key.edmType, db.text(v));
    var keys := [AddressLiteral(key.edmType, db.text(v))];
    assert Hit(db, key.name, v, row) by { KeyHits(db, key.name, row); }
    DeleteLast(db, del, e, keys, base, rows, row, v);
  }

  lemma KeyHits(db: Database, key: string, row: Row)
    requires Lookup(row, key) != Missing && db.same(Lookup(row, key), Lookup(row, key))
    ensures Hit(db, key, Lookup(row, key), row)
  {
  }
}
