/** When a write succeeds, in terms of the request, the body and the table: exact conditions for 201 and 204, and the
    status of everything else. */
module WriteExactness {
  import opened Text
  import opened Edm
  import opened SqlLexer
  import opened ExprMeaning
  import opened ExprSemantics
  import opened SqlCompiler
  import opened FilterWriting
  import opened OptionWriting
  import opened Http
  import Framing
  import opened WriteStatement
  import opened WriteTransaction
  import opened WriteGuarantees

  // ----- the request

  /** What a member may be written to. */
  predicate Fits(p: EdmProperty, update: bool, member: Json) {
    && p.serializable && p.edmType != BINARY && !(update && p.isKey)
    && !member.JsonNested? && (member.JsonNull? ==> p.nullable && !p.isKey)
  }

  predicate FitsSome(e: EdmEntity, update: bool, member: (string, Json)) {
    exists p | p in e.properties && SameName(p.name, member.0) :: Fits(p, update, member.1)
  }

  /** No member twice, and a property for each. */
  predicate FitAll(e: EdmEntity, update: bool, members: seq<(string, Json)>) {
    && (forall i, j | 0 <= i < j < |members| :: !SameName(members[i].0, members[j].0))
    && (forall k | 0 <= k < |members| :: FitsSome(e, update, members[k]))
  }

  predicate IsKeyAt(properties: seq<EdmProperty>, key: EdmProperty, i: int) {
    && 0 <= i < |properties| && properties[i] == key
    && forall j | 0 <= j < |properties| :: properties[j].isKey <==> i == j
  }

  predicate IsOnlyKey(properties: seq<EdmProperty>, key: EdmProperty) {
    exists i | 0 <= i < |properties| :: IsKeyAt(properties, key, i)
  }

  /** `application/json` in any case, parameters after a semicolon, white space around it. */
  ghost predicate IsJson(contentType: string) {
    exists n: nat | n <= |contentType| && (n < |contentType| ==> contentType[n] == ';') && ';' !in contentType[..n] ::
      MeansJson(contentType[..n])
  }

  ghost predicate MeansJson(media: string) {
    exists word | Padded(media, word) :: IsCasing(word, "application/json")
  }

  predicate Carries(request: HttpRequest) {
    request.verb == "POST" || request.verb == "PATCH"
  }

  /** No options, no conditions, a collection for POST and one key for the others, and a single key column to write by. */
  predicate HeadFits(request: HttpRequest, e: EdmEntity, keys: seq<string>) {
    && request.query == [] && "if-match" !in request.headers && "if-none-match" !in request.headers
    && |keys| == (if request.verb == "POST" then 0 else 1)
    && exists key | key in e.properties :: IsOnlyKey(e.properties, key) && key.serializable && key.edmType != BINARY
  }

  predicate BodyFits(db: Database, request: HttpRequest, body: string, e: EdmEntity) {
    if Carries(request) then
      && db.json(body).Some? && FitAll(e, request.verb == "PATCH", db.json(body).value)
      && (request.verb == "PATCH" ==> db.json(body).value != [])
    else body == ""
  }

  ghost predicate MediaFits(request: HttpRequest) {
    Carries(request) ==> "content-type" in request.headers && IsJson(request.headers["content-type"])
  }

  // ----- the checks accept exactly these

  lemma MediaExact(contentType: string)
    ensures MediaType(contentType) == "application/json" <==> IsJson(contentType)
  {
    hide Trim;
    var n := Span(NotSemicolon, contentType);
    var media := contentType[..n];
    assert ';' !in media;
    JsonExact(media);
    assert MediaType(contentType) == ToLower(Trim(media));
    if IsJson(contentType) {
      var m: nat :| m <= |contentType| && (m < |contentType| ==> contentType[m] == ';') && ';' !in contentType[..m]
        && MeansJson(contentType[..m]);
      assert forall k | 0 <= k < m :: contentType[..m][k] == contentType[k];
      SpanIs(NotSemicolon, contentType, m);
    }
  }

  lemma JsonExact(media: string)
    ensures MeansJson(media) <==> ToLower(Trim(media)) == "application/json"
  {
    hide Padded, Trim, IsCasing;
    TrimExact(media, Trim(media));
    CasingIsLower(Trim(media), "application/json");
    if MeansJson(media) {
      var word :| Padded(media, word) && IsCasing(word, "application/json");
      TrimExact(media, word);
    }
  }

  lemma {:induction false} NoKeyExact(properties: seq<EdmProperty>)
    ensures Keys(properties) == [] <==> forall j | 0 <= j < |properties| :: !properties[j].isKey
  {
    if properties != [] {
      NoKeyExact(properties[1..]);
      assert forall j | 1 <= j < |properties| :: properties[j] == properties[1..][j - 1];
      assert forall j | 0 <= j < |properties[1..]| :: properties[1..][j] == properties[j + 1];
    }
  }

  lemma FirstIsKey(properties: seq<EdmProperty>, key: EdmProperty)
    requires properties != [] && properties[0].isKey
    ensures IsOnlyKey(properties, key) <==> properties[0] == key && forall j | 0 <= j < |properties[1..]| :: !properties[1..][j].isKey
  {
    assert forall j | 1 <= j < |properties| :: properties[j] == properties[1..][j - 1];
    assert IsKeyAt(properties, key, 0) <==> properties[0] == key && forall j | 1 <= j < |properties| :: !properties[j].isKey;
  }

  lemma FirstIsNoKey(properties: seq<EdmProperty>, key: EdmProperty, i: int)
    requires properties != [] && !properties[0].isKey
    ensures IsKeyAt(properties, key, i) <==> IsKeyAt(properties[1..], key, i - 1)
  {
    var rest := properties[1..];
    assert forall j | 1 <= j < |properties| :: properties[j] == rest[j - 1];
    assert forall j | 0 <= j < |rest| :: rest[j] == properties[j + 1];
  }

  lemma {:induction false} OnlyKeyExact(properties: seq<EdmProperty>, key: EdmProperty)
    ensures Keys(properties) == [key] <==> IsOnlyKey(properties, key)
  {
    hide IsKeyAt;
    if properties != [] {
      var rest := properties[1..];
      NoKeyExact(rest);
      OnlyKeyExact(rest, key);
      if properties[0].isKey {
        hide IsOnlyKey;
        FirstIsKey(properties, key);
        assert Keys(properties) == [properties[0]] + Keys(rest);
        assert Keys(properties) == [key] <==> properties[0] == key && Keys(rest) == [];
      } else {
        assert Keys(properties) == [] + Keys(rest) == Keys(rest);
        forall i ensures IsKeyAt(properties, key, i) <==> IsKeyAt(rest, key, i - 1) {
          FirstIsNoKey(properties, key, i);
        }
        KeysShift(properties, rest, key);
      }
    }
  }

  lemma KeysShift(properties: seq<EdmProperty>, rest: seq<EdmProperty>, key: EdmProperty)
    requires forall i :: IsKeyAt(properties, key, i) <==> IsKeyAt(rest, key, i - 1)
    ensures IsOnlyKey(properties, key) <==> IsOnlyKey(rest, key)
  {
    if IsOnlyKey(rest, key) {
      var i :| IsKeyAt(rest, key, i);
      assert IsKeyAt(properties, key, i + 1);
    }
  }

  lemma OneOfTheName(properties: seq<EdmProperty>, name: string, p: EdmProperty)
    requires DistinctNames(properties) && p in properties && SameName(p.name, name)
    ensures FindLast(properties, name) == Some(p)
  {
    var q := FindLast(properties, name).value;
    var i :| 0 <= i < |properties| && properties[i] == p;
    var j :| 0 <= j < |properties| && properties[j] == q;
    assert SameName(p.name, q.name);
    assert i == j;
  }

  lemma MemberExact(e: EdmEntity, update: bool, member: (string, Json))
    requires DistinctNames(e.properties)
    ensures BindMember(e, update, member).Some? <==> FitsSome(e, update, member)
  {
    hide FindLast, DistinctNames;
    if FitsSome(e, update, member) {
      var p :| p in e.properties && SameName(p.name, member.0) && Fits(p, update, member.1);
      OneOfTheName(e.properties, member.0, p);
    }
    if BindMember(e, update, member).Some? {
      assert Fits(FindLast(e.properties, member.0).value, update, member.1);
    }
  }

  lemma {:induction false} MembersExact(e: EdmEntity, update: bool, seen: set<string>, members: seq<(string, Json)>)
    requires DistinctNames(e.properties)
    ensures BindMembers(e, update, seen, members).Some? <==>
            FitAll(e, update, members) && forall k | 0 <= k < |members| :: ToLower(members[k].0) !in seen
    decreases |members|
  {
    hide BindMember, FitsSome, DistinctNames;
    if members != [] {
      var rest, more := members[1..], seen + {ToLower(members[0].0)};
      MemberExact(e, update, members[0]);
      MembersExact(e, update, more, rest);
      assert forall k | 1 <= k < |members| :: members[k] == rest[k - 1];
      assert forall k | 0 <= k < |rest| :: rest[k] == members[k + 1];
    }
  }

  /** The checks before the transaction: accepted exactly when head, media type and body fit, refused with 415 exactly when
      the head fits and the media type does not, with 400 otherwise. */
  lemma PlanExact(db: Database, request: HttpRequest, body: string, e: EdmEntity, keys: seq<string>)
    requires DistinctNames(e.properties)
    ensures var plan := PlanWrite(db, request, body, e, keys);
            && (plan.Accept? <==> HeadFits(request, e, keys) && MediaFits(request) && BodyFits(db, request, body, e))
            && (plan.Refuse? ==> plan.status == if HeadFits(request, e, keys) && !MediaFits(request) then 415 else 400)
  {
    hide Keys, MediaType, IsJson, IsOnlyKey, FitAll, BindMembers, DistinctNames;
    MediaExact(Framing.HeaderValue(request, "content-type"));
    NoMedia();
    if db.json(body).Some? {
      MembersExact(e, request.verb == "PATCH", {}, db.json(body).value);
      NothingBoundOnlyWhenEmpty(e, request.verb == "PATCH", db.json(body).value);
    }
    HeadKeyExact(e.properties);
  }

  lemma NoMedia()
    ensures MediaType("") != "application/json"
  {
    assert ""[..0] == "";
    SpanIs(NotSemicolon, "", 0);
    TrimKeeps(IsSpace, "");
  }

  lemma NothingBoundOnlyWhenEmpty(e: EdmEntity, update: bool, members: seq<(string, Json)>)
    ensures BindMembers(e, update, {}, members).Some? ==> (BindMembers(e, update, {}, members).value == [] <==> members == [])
  {
    hide BindMembers;
    if BindMembers(e, update, {}, members).Some? {
      BindsEach(e, update, {}, members);
    }
  }

  lemma HeadKeyExact(properties: seq<EdmProperty>)
    ensures |Keys(properties)| == 1 && Writable(Keys(properties)[0]) <==>
            exists key | key in properties :: IsOnlyKey(properties, key) && key.serializable && key.edmType != BINARY
  {
    hide Keys, IsOnlyKey;
    if |Keys(properties)| == 1 && Writable(Keys(properties)[0]) {
      var key := Keys(properties)[0];
      assert Keys(properties) == [key] && key in Keys(properties);
      KeysBelong(properties);
      OnlyKeyExact(properties, key);
    }
    forall key | key in properties && IsOnlyKey(properties, key) ensures Keys(properties) == [key] {
      OnlyKeyExact(properties, key);
    }
  }

  // ----- the row

  lemma {:induction false} CastAllExact(db: Database, types: seq<seq<Tok>>, values: seq<Value>)
    requires |types| == |values|
    ensures CastAll(db, types, values).Some? <==> forall i | 0 <= i < |types| :: db.cast(types[i], values[i]).Some?
  {
    if types != [] {
      CastAllExact(db, types[1..], values[1..]);
      assert forall i | 1 <= i < |types| :: types[i] == types[1..][i - 1] && values[i] == values[1..][i - 1];
      assert forall i | 0 <= i < |types[1..]| :: types[1..][i] == types[i + 1] && values[1..][i] == values[i + 1];
    }
  }

  lemma StoredExactly(db: Database, e: EdmEntity, update: bool, member: (string, Json), stored: Value)
    requires DistinctNames(e.properties) && BindMember(e, update, member).Some?
    ensures var (p, v) := BindMember(e, update, member).value;
            StoredFor(db, e, member, stored) <==> db.cast(TypeTokens(p.duckdbType), v) == Some(stored)
  {
    hide FindLast, DistinctNames, TypeTokens;
    if StoredFor(db, e, member, stored) {
      var p :| p in e.properties && SameName(p.name, member.0) && StoredAs(db, p, member.1, stored);
      OneOfTheName(e.properties, member.0, p);
    } else {
      var (p, v) := BindMember(e, update, member).value;
      if db.cast(TypeTokens(p.duckdbType), v) == Some(stored) {
        MemberStored(db, e, update, member, stored);
      }
    }
  }

  /** The row of a body: there is one exactly when every value can be cast, and then it is the one the statement makes. */
  lemma RowExact(db: Database, e: EdmEntity, update: bool, members: seq<(string, Json)>, before: Row, row: Row)
    requires DistinctNames(e.properties) && BindMembers(e, update, {}, members).Some?
    ensures var bs := BindMembers(e, update, {}, members).value;
            RowFrom(db, e, members, before, row) <==>
            var values := CastAll(db, Types(Bound(bs)), Values(bs));
            values.Some? && row == Overlay(before, Names(Bound(bs)), values.value)
  {
    hide BindMembers, BindMember, Overlay, TypeTokens, DistinctNames, RowFrom;
    if RowFrom(db, e, members, before, row) {
      RowIsMade(db, e, update, members, before, row);
    }
    var bs := BindMembers(e, update, {}, members).value;
    if CastAll(db, Types(Bound(bs)), Values(bs)).Some? {
      BoundRow(db, e, update, members, before, CastAll(db, Types(Bound(bs)), Values(bs)).value);
    }
  }

  lemma RowIsMade(db: Database, e: EdmEntity, update: bool, members: seq<(string, Json)>, before: Row, row: Row)
    requires DistinctNames(e.properties) && BindMembers(e, update, {}, members).Some? && RowFrom(db, e, members, before, row)
    ensures var bs := BindMembers(e, update, {}, members).value;
            var values := CastAll(db, Types(Bound(bs)), Values(bs));
            values.Some? && row == Overlay(before, Names(Bound(bs)), values.value)
  {
    hide BindMembers, BindMember, Overlay, TypeTokens, DistinctNames, RowFrom, StoredFor, SameName;
    var bs := BindMembers(e, update, {}, members).value;
    BindsEach(e, update, {}, members);
    MemberNames(e, update, members);
    RowStores(db, e, members, before, row);
    forall k | 0 <= k < |bs| ensures db.cast(Types(Bound(bs))[k], Values(bs)[k]) == Some(row[ToLower(members[k].0)]) {
      StoredExactly(db, e, update, members[k], row[ToLower(members[k].0)]);
      assert Types(Bound(bs))[k] == TypeTokens(bs[k].0.duckdbType) && Values(bs)[k] == bs[k].1;
    }
    CastAllExact(db, Types(Bound(bs)), Values(bs));
    RowIsOverlay(db, e, members, before, row, Names(Bound(bs)), CastAll(db, Types(Bound(bs)), Values(bs)).value);
  }

  lemma RowStores(db: Database, e: EdmEntity, members: seq<(string, Json)>, before: Row, row: Row)
    requires RowFrom(db, e, members, before, row)
    ensures forall k | 0 <= k < |members| ::
              ToLower(members[k].0) in row && StoredFor(db, e, members[k], row[ToLower(members[k].0)])
  {
    hide StoredFor;
  }

  lemma RowIsOverlay(db: Database, e: EdmEntity, members: seq<(string, Json)>, before: Row, row: Row, names: seq<string>, values: seq<Value>)
    requires |names| == |values| == |members| && forall i, j | 0 <= i < j < |names| :: !SameName(names[i], names[j])
    requires RowFrom(db, e, members, before, row)
    requires forall k | 0 <= k < |names| :: SameName(names[k], members[k].0) && ToLower(members[k].0) in row && values[k] == row[ToLower(members[k].0)]
    ensures row == Overlay(before, names, values)
  {
    hide Overlay, StoredFor, NamesColumn, IsAmong;
    OverlayExact(before, names, values);
    forall c ensures IsAmong(names, c) <==> NamesColumn(members, c) {
      AmongMembers(members, names, c);
    }
    var after := Overlay(before, names, values);
    forall c | NamesColumn(members, c) ensures c in row && c in after && row[c] == after[c] {
      NamedColumn(members, c);
    }
    assert forall c :: c in row <==> c in after;
    assert forall c | c in row :: row[c] == after[c];
  }

  lemma NamedColumn(members: seq<(string, Json)>, c: string)
    requires NamesColumn(members, c)
    ensures exists k | 0 <= k < |members| :: ToLower(members[k].0) == c
  {
  }

  // ----- the statement

  /** The database has the entity's table, with a column for each property. */
  predicate HoldsTable(db: Database, e: EdmEntity) {
    && db.name == [e.catalog, e.schema, e.table]
    && forall p | p in e.properties :: ToLower(p.name) in db.defaults
  }

  lemma ColumnsKnown(db: Database, e: EdmEntity)
    ensures HoldsTable(db, e) <==> db.name == FullName(e) && Knows(db, Names(e.properties))
  {
    assert forall i | 0 <= i < |e.properties| :: Names(e.properties)[i] == e.properties[i].name && e.properties[i] in e.properties;
    if db.name == FullName(e) && Knows(db, Names(e.properties)) {
      forall p | p in e.properties ensures ToLower(p.name) in db.defaults {
        var i :| 0 <= i < |e.properties| && e.properties[i] == p;
        assert ToLower(Names(e.properties)[i]) in db.defaults;
      }
    }
  }

  lemma SomeKnown(db: Database, e: EdmEntity, ps: seq<EdmProperty>)
    requires HoldsTable(db, e) && forall i | 0 <= i < |ps| :: ps[i] in e.properties
    ensures Knows(db, Names(ps))
  {
  }

  /** The row of the body goes in: constraints accept it. */
  predicate GoesIn(db: Database, e: EdmEntity, members: seq<(string, Json)>, rows: seq<Row>, row: Row) {
    RowFrom(db, e, members, db.defaults, row) && db.accepts(rows, rows + [row])
  }

  lemma InsertDone(db: Database, e: EdmEntity, members: seq<(string, Json)>, rows: seq<Row>, row: Row)
    requires DistinctNames(e.properties) && BindMembers(e, false, {}, members).Some?
    ensures var bs := BindMembers(e, false, {}, members).value;
            Apply(db, MeantInsert(e, Bound(bs)), Values(bs), rows) == Done(rows + [row], [row]) <==>
            HoldsTable(db, e) && GoesIn(db, e, members, rows, row)
  {
    hide BindMembers, DistinctNames, RowFrom, Overlay, TypeTokens, HoldsTable, Knows;
    var bs := BindMembers(e, false, {}, members).value;
    RowExact(db, e, false, members, db.defaults, row);
    ColumnsKnown(db, e);
    BoundInEntity(e, false, members);
    if HoldsTable(db, e) {
      SomeKnown(db, e, Bound(bs));
    }
    if bs == [] {
      NothingToSet(db, bs);
    }
    OneMore(rows, row, if bs == [] then db.defaults else if CastAll(db, Types(Bound(bs)), Values(bs)).None? then row
                       else Overlay(db.defaults, Names(Bound(bs)), CastAll(db, Types(Bound(bs)), Values(bs)).value));
  }

  lemma NothingToSet(db: Database, bs: seq<(EdmProperty, Value)>)
    requires bs == []
    ensures CastAll(db, Types(Bound(bs)), Values(bs)) == Some([]) && Overlay(db.defaults, Names(Bound(bs)), []) == db.defaults
  {
  }

  lemma OneMore(rows: seq<Row>, a: Row, b: Row)
    ensures rows + [a] == rows + [b] <==> a == b
    ensures [a] == [b] <==> a == b
  {
    assert (rows + [a])[|rows|] == a && (rows + [b])[|rows|] == b && [a][0] == a && [b][0] == b;
  }

  // ----- 201

  predicate HasKeyValue(e: EdmEntity, row: Row) {
    forall key | key in e.properties && key.isKey :: Lookup(row, key.name) != Missing
  }

  /** A POST succeeds exactly when the request fits, the table is there, every value can be cast, the row has a key,
      constraints accept it and the transaction can begin and commit. */
  lemma InsertExact(db: Database, request: HttpRequest, body: string, e: EdmEntity, keys: seq<string>, base: string, rows: seq<Row>)
    requires ValidSetting(db, e) && DistinctNames(e.properties) && request.verb == "POST"
    ensures Outcome(db, request, body, e, keys, base, rows).0.status == 201 <==>
            && HeadFits(request, e, keys) && MediaFits(request) && BodyFits(db, request, body, e)
            && db.begins && db.commits && HoldsTable(db, e)
            && exists row | GoesIn(db, e, db.json(body).value, rows, row) :: HasKeyValue(e, row)
  {
    hide Apply, HeadFits, MediaFits, BodyFits, ValidSetting, DistinctNames, Keys, MediaType, BindMembers, HoldsTable, GoesIn, HasKeyValue, MeantInsert, Lookup;
    PlanExact(db, request, body, e, keys);
    var plan := PlanWrite(db, request, body, e, keys);
    if plan.Accept? {
      var members := db.json(body).value;
      assert BindMembers(e, false, {}, members) == Some(plan.bound);
      PlanNames(db, request, body, e, keys);
      assert Values(plan.bound) + [] == Values(plan.bound);
      var r := Apply(db, MeantInsert(e, Bound(plan.bound)), Values(plan.bound), rows);
      if r.Done? {
        InsertedRow(db, e, members, rows);
        assert r.returned == [r.returned[0]];
      }
      forall row ensures r == Done(rows + [row], [row]) <==> HoldsTable(db, e) && GoesIn(db, e, members, rows, row) {
        InsertDone(db, e, members, rows, row);
      }
      forall row ensures HasKeyValue(e, row) <==> Lookup(row, plan.key.name) != Missing {
        KeyValueExact(e, plan.key, row);
      }
    }
  }

  lemma KeyValueExact(e: EdmEntity, key: EdmProperty, row: Row)
    requires Keys(e.properties) == [key]
    ensures HasKeyValue(e, row) <==> Lookup(row, key.name) != Missing
  {
    hide Lookup;
    OnlyKeyExact(e.properties, key);
    var i :| 0 <= i < |e.properties| && IsKeyAt(e.properties, key, i);
    assert key in e.properties && key.isKey;
    forall p | p in e.properties && p.isKey ensures p == key {
      var j :| 0 <= j < |e.properties| && e.properties[j] == p;
    }
  }

  // ----- 204

  /** The key the address gives, cast to the type of the key column. */
  function KeyFor(db: Database, key: EdmProperty, keys: seq<string>): Option<Value> {
    if |keys| == 1 then db.cast(TypeTokens(key.duckdbType), Characters(KeyValue(keys[0]))) else None
  }

  /** Row `i`, and no other, has that key. */
  predicate OnlyHit(db: Database, key: EdmProperty, k: Option<Value>, rows: seq<Row>, i: int) {
    k.Some? && 0 <= i < |rows| && forall j | 0 <= j < |rows| :: Hit(db, key.name, k.value, rows[j]) <==> j == i
  }

  lemma {:induction false} HitsOfOnly(db: Database, key: string, k: Value, rows: seq<Row>, i: nat)
    requires i < |rows| && forall j | 0 <= j < |rows| :: Hit(db, key, k, rows[j]) <==> j == i
    ensures Hits(db, key, k, rows) == [rows[i]] && Others(db, key, k, rows) == rows[..i] + rows[i + 1..]
  {
    hide Hit;
    var rest := rows[1..];
    assert forall j | 0 < j < |rows| :: rows[j] == rest[j - 1];
    assert forall j | 0 <= j < |rest| :: rest[j] == rows[j + 1];
    if i == 0 {
      NoneHit(db, key, k, rest);
      assert [rows[0]] + [] == [rows[0]] && rows[..0] + rows[1..] == rest;
    } else {
      HitsOfOnly(db, key, k, rest, i - 1);
      Around(rows[0], rest, i - 1);
      assert [rows[0]] + rest == rows;
    }
  }

  lemma {:induction false} NoneHit(db: Database, key: string, k: Value, rows: seq<Row>)
    requires forall j | 0 <= j < |rows| :: !Hit(db, key, k, rows[j])
    ensures Hits(db, key, k, rows) == [] && Others(db, key, k, rows) == rows
  {
    hide Hit;
    if rows != [] {
      NoneHit(db, key, k, rows[1..]);
      assert [rows[0]] + rows[1..] == rows;
    }
  }

  lemma KeyKnown(db: Database, e: EdmEntity, key: EdmProperty)
    requires HoldsTable(db, e) && key in e.properties
    ensures Knows(db, [key.name])
  {
  }

  lemma DeleteDone(db: Database, e: EdmEntity, key: EdmProperty, keys: seq<string>, rows: seq<Row>)
    requires key in e.properties && |keys| == 1
    ensures var r := Apply(db, MeantDelete(e, key), [Characters(KeyValue(keys[0]))], rows);
            r.Done? && |r.returned| == 1 <==>
            HoldsTable(db, e) && exists i | OnlyHit(db, key, KeyFor(db, key, keys), rows, i) :: db.accepts(rows, rows[..i] + rows[i + 1..])
  {
    hide HoldsTable, Knows, KeyValue, TypeTokens, Hit, Hits, Others;
    ColumnsKnown(db, e);
    if HoldsTable(db, e) {
      KeyKnown(db, e, key);
    }
    var k := KeyFor(db, key, keys);
    forall i | OnlyHit(db, key, k, rows, i)
      ensures Hits(db, key.name, k.value, rows) == [rows[i]] && Others(db, key.name, k.value, rows) == rows[..i] + rows[i + 1..] {
      HitsOfOnly(db, key.name, k.value, rows, i);
    }
    if k.Some? && |Hits(db, key.name, k.value, rows)| == 1 {
      var i := OneHit(db, key.name, k.value, rows);
      assert OnlyHit(db, key, k, rows, i);
    }
  }

  /** A DELETE succeeds exactly when the request fits, the table is there, one row alone has the key, constraints let it go and
      the transaction can begin and commit. */
  lemma DeleteExact(db: Database, request: HttpRequest, body: string, e: EdmEntity, keys: seq<string>, base: string, rows: seq<Row>)
    requires ValidSetting(db, e) && DistinctNames(e.properties) && !Carries(request)
    ensures Outcome(db, request, body, e, keys, base, rows).0.status == 204 <==>
            && HeadFits(request, e, keys) && BodyFits(db, request, body, e) && db.begins && db.commits && HoldsTable(db, e)
            && exists key, i | IsOnlyKey(e.properties, key) && OnlyHit(db, key, KeyFor(db, key, keys), rows, i) ::
                 db.accepts(rows, rows[..i] + rows[i + 1..])
  {
    hide Apply, HeadFits, BodyFits, ValidSetting, DistinctNames, Keys, MediaType, BindMembers, HoldsTable, OnlyHit, KeyFor, MeantDelete, IsOnlyKey;
    PlanExact(db, request, body, e, keys);
    var plan := PlanWrite(db, request, body, e, keys);
    if plan.Accept? {
      PlanNames(db, request, body, e, keys);
      assert plan.bound == [];
      var k := Characters(KeyValue(keys[0]));
      assert BoundValues(request.verb, [], keys) == [k];
      DeleteDone(db, e, plan.key, keys, rows);
      forall key ensures IsOnlyKey(e.properties, key) <==> key == plan.key {
        OnlyKeyExact(e.properties, key);
      }
    }
  }

  lemma CastAllMore(db: Database, types: seq<seq<Tok>>, values: seq<Value>, type_: seq<Tok>, value: Value)
    requires |types| == |values|
    ensures var all, some, last := CastAll(db, types + [type_], values + [value]), CastAll(db, types, values), db.cast(type_, value);
            && (all.Some? <==> some.Some? && last.Some?)
            && (all.Some? ==> all.value[..|types|] == some.value && all.value[|types|] == last.value)
  {
    var ts, vs := types + [type_], values + [value];
    CastAllExact(db, types, values);
    CastAllExact(db, ts, vs);
    assert forall i | 0 <= i < |types| :: ts[i] == types[i] && vs[i] == values[i];
    assert ts[|types|] == type_ && vs[|types|] == value;
  }

  /** The row with the key changes, and constraints accept it. */
  predicate Changes(db: Database, e: EdmEntity, members: seq<(string, Json)>, rows: seq<Row>, i: int, row: Row)
    requires 0 <= i < |rows|
  {
    RowFrom(db, e, members, rows[i], row) && db.accepts(rows, rows[i := row])
  }

  lemma UpdateDone(db: Database, e: EdmEntity, key: EdmProperty, keys: seq<string>, members: seq<(string, Json)>, rows: seq<Row>)
    requires DistinctNames(e.properties) && BindMembers(e, true, {}, members).Some? && key in e.properties && |keys| == 1
    ensures var bs := BindMembers(e, true, {}, members).value;
            var r := Apply(db, MeantUpdate(e, Bound(bs), key), Values(bs) + [Characters(KeyValue(keys[0]))], rows);
            r.Done? && |r.returned| == 1 <==>
            HoldsTable(db, e) && exists i, row | OnlyHit(db, key, KeyFor(db, key, keys), rows, i) :: Changes(db, e, members, rows, i, row)
  {
    hide HoldsTable, Knows, KeyValue, TypeTokens, Hit, Hits, BindMembers, DistinctNames, RowFrom, Overlay, CastAll;
    var bs := BindMembers(e, true, {}, members).value;
    var k, raw := KeyFor(db, key, keys), Characters(KeyValue(keys[0]));
    ColumnsKnown(db, e);
    BoundInEntity(e, true, members);
    if HoldsTable(db, e) {
      KeyKnown(db, e, key);
      SomeKnown(db, e, Bound(bs));
    }
    CastAllMore(db, Types(Bound(bs)), Values(bs), TypeTokens(key.duckdbType), raw);
    var news := CastAll(db, Types(Bound(bs)), Values(bs));
    forall i, row | OnlyHit(db, key, k, rows, i) && Changes(db, e, members, rows, i, row)
      ensures news.Some? && |Hits(db, key.name, k.value, rows)| == 1
      ensures Updated(db, key.name, k.value, Names(Bound(bs)), news.value, rows) == rows[i := row] {
      HitsOfOnly(db, key.name, k.value, rows, i);
      RowExact(db, e, true, members, rows[i], row);
      OneUpdated(db, key.name, k.value, Names(Bound(bs)), news.value, rows, i);
    }
    if k.Some? && news.Some? && |Hits(db, key.name, k.value, rows)| == 1 {
      var i := OneHit(db, key.name, k.value, rows);
      assert OnlyHit(db, key, k, rows, i);
      var row := Overlay(rows[i], Names(Bound(bs)), news.value);
      RowExact(db, e, true, members, rows[i], row);
      OneUpdated(db, key.name, k.value, Names(Bound(bs)), news.value, rows, i);
      assert Changes(db, e, members, rows, i, row) <==> db.accepts(rows, rows[i := row]);
    }
  }

  lemma OneUpdated(db: Database, key: string, k: Value, names: seq<string>, values: seq<Value>, rows: seq<Row>, i: nat)
    requires |names| == |values| && i < |rows| && forall j | 0 <= j < |rows| :: Hit(db, key, k, rows[j]) <==> j == i
    ensures Updated(db, key, k, names, values, rows) == rows[i := Overlay(rows[i], names, values)]
  {
    hide Hit, Overlay;
  }

  /** A PATCH succeeds exactly when the request fits, the table is there, one row alone has the key, every value can be cast,
      constraints accept the changed row and the transaction can begin and commit. */
  lemma UpdateExact(db: Database, request: HttpRequest, body: string, e: EdmEntity, keys: seq<string>, base: string, rows: seq<Row>)
    requires ValidSetting(db, e) && DistinctNames(e.properties) && request.verb == "PATCH"
    ensures Outcome(db, request, body, e, keys, base, rows).0.status == 204 <==>
            && HeadFits(request, e, keys) && MediaFits(request) && BodyFits(db, request, body, e)
            && db.begins && db.commits && HoldsTable(db, e)
            && exists key, i, row | IsOnlyKey(e.properties, key) && OnlyHit(db, key, KeyFor(db, key, keys), rows, i) ::
                 Changes(db, e, db.json(body).value, rows, i, row)
  {
    hide Apply, HeadFits, MediaFits, BodyFits, ValidSetting, DistinctNames, Keys, MediaType, BindMembers, HoldsTable, OnlyHit, Changes, KeyFor, MeantUpdate, IsOnlyKey;
    PlanExact(db, request, body, e, keys);
    var plan := PlanWrite(db, request, body, e, keys);
    if plan.Accept? {
      PlanNames(db, request, body, e, keys);
      UpdateDone(db, e, plan.key, keys, db.json(body).value, rows);
      forall key ensures IsOnlyKey(e.properties, key) <==> key == plan.key {
        OnlyKeyExact(e.properties, key);
      }
    }
  }

  // ----- every other status

  /** What a failed write answers: 400 or 415 when the request does not fit, 500 when no transaction begins, 404 when the
      statement reaches no row, 409 when a constraint, a second row, a missing key or the commit stands against it, and 400
      when the statement cannot be run. */
  lemma FailureExact(db: Database, request: HttpRequest, body: string, e: EdmEntity, keys: seq<string>, base: string, rows: seq<Row>)
    requires ValidSetting(db, e) && DistinctNames(e.properties)
    ensures var status := Outcome(db, request, body, e, keys, base, rows).0.status;
            var fits := HeadFits(request, e, keys) && MediaFits(request) && BodyFits(db, request, body, e);
            && (!fits ==> status == if HeadFits(request, e, keys) && !MediaFits(request) then 415 else 400)
            && (fits && !db.begins ==> status == 500)
            && (fits && db.begins ==>
                  var r := Executes(db, request, body, e, keys, rows);
                  && (r.Invalid? || (r.Aborted? && !r.conflict) <==> status == 400)
                  && (r.Done? && r.returned == [] <==> status == 404)
                  && ((r.Aborted? && r.conflict) || (r.Done? && r.returned != [] && !Commits(db, request, e, r.returned)) <==> status == 409))
  {
    hide Apply, HeadFits, MediaFits, BodyFits, ValidSetting, DistinctNames, Keys, MediaType, BindMembers, HasKeyValue, MeantWrite, Lookup, IsOnlyKey;
    PlanExact(db, request, body, e, keys);
    var plan := PlanWrite(db, request, body, e, keys);
    if plan.Accept? {
      PlanNames(db, request, body, e, keys);
      forall row ensures HasKeyValue(e, row) <==> Lookup(row, plan.key.name) != Missing {
        KeyValueExact(e, plan.key, row);
      }
    }
  }

  /** The result of the statement of a request that fits. */
  ghost function Executes(db: Database, request: HttpRequest, body: string, e: EdmEntity, keys: seq<string>, rows: seq<Row>): Executed
    requires DistinctNames(e.properties) && HeadFits(request, e, keys) && MediaFits(request) && BodyFits(db, request, body, e)
  {
    PlanExact(db, request, body, e, keys);
    PlanNames(db, request, body, e, keys);
    var plan := PlanWrite(db, request, body, e, keys);
    Apply(db, MeantWrite(request.verb, e, plan.key, Bound(plan.bound)), BoundValues(request.verb, plan.bound, keys), rows)
  }

  predicate Commits(db: Database, request: HttpRequest, e: EdmEntity, returned: seq<Row>) {
    db.commits && |returned| == 1 && (request.verb == "POST" ==> HasKeyValue(e, returned[0]))
  }
}
