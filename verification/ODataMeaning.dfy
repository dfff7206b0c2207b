/** What the text of a read request returns, in OData's own terms: characters of the statement on one side, the filter
    expression, order and key on the other. */
module ODataMeaning {
  import opened Text
  import opened Edm
  import opened FilterGrammar
  import opened SqlLexer
  import opened CanonicalFunctions
  import opened ExprCompiler
  import opened ExprMeaning
  import opened ExprSemantics
  import opened SqlCompiler
  import opened SqlStatement
  import opened StatementMeaning
  import opened Relational
  import FilterLexer
  import G = SqlGrammar

  predicate SatisfiedBy(w: World, s: Schema, filter: Option<Expr>, row: Row) {
    filter.None? || Satisfies(w, s, filter.value, row)
  }

  /** The rows that satisfy a filter expression, in table order. */
  function Satisfying(w: World, s: Schema, filter: Option<Expr>, rows: seq<Row>): seq<Row> {
    if rows == [] then []
    else (if SatisfiedBy(w, s, filter, rows[0]) then [rows[0]] else []) + Satisfying(w, s, filter, rows[1..])
  }

  /** On every row the filter compares non-null values, null tests aside. */
  predicate ComparesEverywhere(w: World, s: Schema, filter: Option<Expr>, rows: seq<Row>) {
    filter.Some? ==> forall i | 0 <= i < |rows| :: ComparesNonNull(w, s, filter.value, rows[i])
  }

  /** No text literal of the filter faces a function taken for a boolean, and the database computes its functions. */
  ghost predicate FilterTyped(w: World, q: ODataQuery) {
    q.filter.Some? ==> IsTyped(q.filter.value) && IsComputed(w, q.filter.value)
  }

  lemma {:induction false} FilteredIsSatisfying(w: World, s: Schema, q: ODataQuery, rows: seq<Row>)
    requires ValidSchema(s) && FromCatalog(s) && FilterCompiles(s, q) && FilterFlat(q) && FilterTyped(w, q)
    requires ComparesEverywhere(w, s, q.filter, rows)
    ensures Filtered(w, MeantFilter(s, q), rows) == Satisfying(w, s, q.filter, rows)
  {
    hide ValidSchema, FromCatalog, Compilable, Flat, IsTyped, IsComputed, ComparesNonNull, Keeps, Satisfies, Meant;
    if rows != [] {
      if q.filter.Some? {
        MeaningPreserved(w, s, q.filter.value, rows[0]);
        MeaningExact(s, q.filter.value);
      }
      FilteredIsSatisfying(w, s, q, rows[1..]);
    }
  }

  // ----- what a request may name

  predicate IsProperty(properties: seq<EdmProperty>, name: string) {
    exists p | p in properties :: SameName(p.name, name)
  }

  /** Every name of `$select`, `$filter` and `$orderby` is known. */
  predicate Resolves(properties: seq<EdmProperty>, q: ODataQuery) {
    && (forall i | 0 <= i < |q.select| :: IsProperty(properties, q.select[i]))
    && (q.filter.Some? ==> IsKnown(properties, q.filter.value))
    && (forall i | 0 <= i < |q.orderBy| :: IsProperty(properties, q.orderBy[i].property))
  }

  /** The columns asked for, under their declared names: all of them without `$select`. */
  ghost predicate AreColumns(properties: seq<EdmProperty>, select: seq<string>, names: seq<string>) {
    if select == [] then |names| == |properties| && forall i | 0 <= i < |names| :: names[i] == properties[i].name
    else |names| == |select| && forall i | 0 <= i < |names| :: Declares(properties, select[i], names[i])
  }

  ghost predicate Declares(properties: seq<EdmProperty>, name: string, declared: string) {
    exists p | p in properties :: p.name == declared && SameName(p.name, name)
  }

  lemma {:induction false} SelectedExactly(properties: seq<EdmProperty>, select: seq<string>)
    ensures SelectedNames(properties, select).Ok? <==> forall i | 0 <= i < |select| :: IsProperty(properties, select[i])
    ensures SelectedNames(properties, select).Ok? ==>
              forall i | 0 <= i < |select| :: Declares(properties, select[i], SelectedNames(properties, select).value[i])
  {
    if select != [] {
      SelectedExactly(properties, select[1..]);
      assert forall i | 1 <= i < |select| :: select[i] == select[1..][i - 1];
      var first := FindFirst(properties, select[0]);
      if first.Some? {
        assert Declares(properties, select[0], first.value.name);
      }
    }
  }

  lemma ProjectionExact(q: ODataQuery, e: EdmEntity)
    ensures Projected(q, e).Ok? <==> forall i | 0 <= i < |q.select| :: IsProperty(e.properties, q.select[i])
    ensures Projected(q, e).Ok? ==> AreColumns(e.properties, q.select, Projected(q, e).value)
  {
    hide IsProperty, Declares, SelectedNames;
    SelectedExactly(e.properties, q.select);
  }

  /** A collection request is refused if and only if it names something unknown. */
  lemma CollectionResolves(s: Schema, q: ODataQuery, maxTop: int)
    ensures Collection(s, q, maxTop).Ok? <==> Resolves(s.entity.properties, q)
  {
    hide Compile, Projected, IsKnown, SelectList, QuotedTable, OrderText, BoundText;
    ProjectionExact(q, s.entity);
    if q.filter.Some? {
      CompilesExactly(s, q.filter.value);
    }
  }

  /** `$skip` rows left out, then at most `$top` rows, or as many as the server allows when that is less. */
  function Bounded<T>(rows: seq<T>, q: ODataQuery, maxTop: int): seq<T> {
    var rest := if q.skip <= 0 then rows else if q.skip < |rows| then rows[q.skip..] else [];
    var limit := if 0 <= maxTop < q.top then maxTop else q.top;
    if q.top < 0 || |rest| <= limit then rest else rest[..limit]
  }

  lemma SlicedIsBounded<T>(rows: seq<T>, q: ODataQuery, maxTop: int)
    ensures Sliced(rows, EffectiveTop(q, maxTop), Offset(q)) == Bounded(rows, q, maxTop)
  {
    assert rows[0..] == rows;
  }

  /** A collection request returns the selected columns of the rows of the entity's table that satisfy the filter, in the requested order,
      after $skip, at most min($top, max_top) of them. */
  lemma CollectionIsOData(w: World, s: Schema, q: ODataQuery, maxTop: int, db: Store, rows: seq<Row>)
    requires TableOf(db, s.entity) == Some(rows)
    requires ValidSchema(s) && FromCatalog(s) && Collection(s, q, maxTop).Ok? && FilterFlat(q) && FilterTyped(w, q)
    requires ComparesEverywhere(w, s, q.filter, rows)
    ensures Projected(q, s.entity).Ok?
    ensures Run(w, Collection(s, q, maxTop).value, db) ==
            Rows(Output(MeantProjection(Projected(q, s.entity).value),
                        Bounded(Sorted(w, MeantKeys(q.orderBy), Satisfying(w, s, q.filter, rows)), q, maxTop)))
  {
    PartsNameTable(db, s.entity);
    hide ValidSchema, FromCatalog, FilterFlat, FilterTyped, ComparesEverywhere, Filtered, Sorted, Satisfying, ReadSelect, MeantFilter, Output;
    CollectionCompiles(s, q, maxTop);
    CollectionExact(s, q, maxTop);
    CollectionNames(s, q, maxTop);
    FilteredIsSatisfying(w, s, q, rows);
    SlicedIsBounded(Sorted(w, MeantKeys(q.orderBy), Satisfying(w, s, q.filter, rows)), q, maxTop);
  }

  lemma CollectionNames(s: Schema, q: ODataQuery, maxTop: int)
    requires Collection(s, q, maxTop).Ok?
    ensures Projected(q, s.entity).Ok?
  {
    hide Compile, Projected;
  }

  /** `$count` is the number of rows that satisfy the filter, whatever the bounds. */
  lemma CountIsOData(w: World, s: Schema, q: ODataQuery, db: Store, rows: seq<Row>)
    requires TableOf(db, s.entity) == Some(rows)
    requires ValidSchema(s) && FromCatalog(s) && Count(s, q).Ok? && FilterFlat(q) && FilterTyped(w, q)
    requires ComparesEverywhere(w, s, q.filter, rows)
    ensures Run(w, Count(s, q).value, db) == Counted(|Satisfying(w, s, q.filter, rows)|)
  {
    PartsNameTable(db, s.entity);
    hide ValidSchema, FromCatalog, FilterFlat, FilterTyped, ComparesEverywhere, Filtered, Satisfying, ReadSelect, MeantFilter, Count;
    CountCompiles(s, q);
    CountExact(s, q);
    FilteredIsSatisfying(w, s, q, rows);
  }

  // ----- tables with nulls

  /** Besides, no comparison stands inside a null test or a function argument. */
  ghost predicate FilterLogical(w: World, q: ODataQuery) {
    FilterTyped(w, q) && (q.filter.Some? ==> IsLogical(q.filter.value))
  }

  /** The filter has the same value in SQL and under OData on this row. */
  predicate DecidedOn(w: World, s: Schema, filter: Option<Expr>, row: Row) {
    filter.Some? ==> IsDecided(w, s, filter.value, row)
  }

  function DecidedRows(w: World, s: Schema, filter: Option<Expr>, rows: seq<Row>): seq<Row> {
    if rows == [] then []
    else (if DecidedOn(w, s, filter, rows[0]) then [rows[0]] else []) + DecidedRows(w, s, filter, rows[1..])
  }

  /** WHERE loses a row that satisfies the filter if and only if the row is not decided, and gains none. */
  lemma RowIsKept(w: World, s: Schema, q: ODataQuery, row: Row)
    requires ValidSchema(s) && FromCatalog(s) && FilterCompiles(s, q) && FilterFlat(q) && FilterLogical(w, q)
    ensures var filter := MeantFilter(s, q);
            (filter.None? || Keeps(w, filter.value, row)) <==> SatisfiedBy(w, s, q.filter, row) && DecidedOn(w, s, q.filter, row)
  {
    hide ValidSchema, FromCatalog, Compilable, Flat, IsLogical, IsTyped, IsComputed, IsDecided, Keeps, Satisfies, Meant;
    if q.filter.Some? {
      FilterExact(w, s, q.filter.value, row);
      MeaningExact(s, q.filter.value);
    }
  }

  lemma {:induction false} FilteredIsDecided(w: World, s: Schema, q: ODataQuery, rows: seq<Row>)
    requires ValidSchema(s) && FromCatalog(s) && FilterCompiles(s, q) && FilterFlat(q) && FilterLogical(w, q)
    ensures Filtered(w, MeantFilter(s, q), rows) == DecidedRows(w, s, q.filter, Satisfying(w, s, q.filter, rows))
  {
    hide ValidSchema, FromCatalog, FilterCompiles, FilterFlat, FilterLogical, MeantFilter, Keeps, Satisfies, SatisfiedBy, DecidedOn;
    if rows != [] {
      RowIsKept(w, s, q, rows[0]);
      FilteredIsDecided(w, s, q, rows[1..]);
      var rest := Satisfying(w, s, q.filter, rows[1..]);
      assert ([rows[0]] + rest)[1..] == rest && [] + rest == rest;
    }
  }

  lemma {:induction false} AllDecidedExactly(w: World, s: Schema, filter: Option<Expr>, rows: seq<Row>)
    ensures |DecidedRows(w, s, filter, rows)| <= |rows|
    ensures |DecidedRows(w, s, filter, rows)| == |rows| <==> forall i | 0 <= i < |rows| :: DecidedOn(w, s, filter, rows[i])
  {
    hide DecidedOn;
    if rows != [] {
      AllDecidedExactly(w, s, filter, rows[1..]);
      assert forall i | 1 <= i < |rows| :: rows[i] == rows[1..][i - 1];
    }
  }

  /** On every table, nulls included, a collection request works on the satisfying rows on which the filter is decided. */
  lemma CollectionOnEveryTable(w: World, s: Schema, q: ODataQuery, maxTop: int, db: Store, rows: seq<Row>)
    requires TableOf(db, s.entity) == Some(rows)
    requires ValidSchema(s) && FromCatalog(s) && Collection(s, q, maxTop).Ok? && FilterFlat(q) && FilterLogical(w, q)
    ensures Projected(q, s.entity).Ok?
    ensures var kept := DecidedRows(w, s, q.filter, Satisfying(w, s, q.filter, rows));
            Run(w, Collection(s, q, maxTop).value, db) ==
            Rows(Output(MeantProjection(Projected(q, s.entity).value),
                        Bounded(Sorted(w, MeantKeys(q.orderBy), kept), q, maxTop)))
  {
    PartsNameTable(db, s.entity);
    hide ValidSchema, FromCatalog, FilterFlat, FilterLogical, Filtered, Sorted, Satisfying, DecidedRows, ReadSelect, MeantFilter, Output;
    CollectionCompiles(s, q, maxTop);
    CollectionExact(s, q, maxTop);
    CollectionNames(s, q, maxTop);
    FilteredIsDecided(w, s, q, rows);
    SlicedIsBounded(Sorted(w, MeantKeys(q.orderBy), DecidedRows(w, s, q.filter, Satisfying(w, s, q.filter, rows))), q, maxTop);
  }

  /** On every table, `$count` is the number of satisfying rows if and only if each of them is decided; it is never more. */
  lemma CountOnEveryTable(w: World, s: Schema, q: ODataQuery, db: Store, rows: seq<Row>)
    requires TableOf(db, s.entity) == Some(rows)
    requires ValidSchema(s) && FromCatalog(s) && Count(s, q).Ok? && FilterFlat(q) && FilterLogical(w, q)
    ensures Run(w, Count(s, q).value, db).Counted? && Run(w, Count(s, q).value, db).n <= |Satisfying(w, s, q.filter, rows)|
    ensures var wanted := Satisfying(w, s, q.filter, rows);
            Run(w, Count(s, q).value, db).n == |wanted| <==> forall i | 0 <= i < |wanted| :: DecidedOn(w, s, q.filter, wanted[i])
  {
    PartsNameTable(db, s.entity);
    hide ValidSchema, FromCatalog, FilterFlat, FilterLogical, Filtered, Satisfying, DecidedRows, DecidedOn, ReadSelect, MeantFilter, Count;
    CountCompiles(s, q);
    CountExact(s, q);
    FilteredIsDecided(w, s, q, rows);
    AllDecidedExactly(w, s, q.filter, Satisfying(w, s, q.filter, rows));
  }

  // ----- key lookup

  /** The value a key of the address stands for. */
  function KeyMeaning(w: World, p: EdmProperty, raw: string): Value {
    var text := Characters(KeyValue(raw));
    if IsTextual(p.edmType) then text else w.cast(TypeTokens(p.duckdbType), text)
  }

  predicate KeyMatches(w: World, p: EdmProperty, raw: string, row: Row) {
    var x, k := Lookup(row, p.name), KeyMeaning(w, p, raw);
    x != Missing && k != Missing && w.compare(FilterLexer.EQ, x, k)
  }

  predicate HasKeys(w: World, keys: seq<EdmProperty>, values: seq<string>, row: Row)
    requires |keys| == |values|
  {
    forall i | 0 <= i < |keys| :: KeyMatches(w, keys[i], values[i], row)
  }

  function WithKeys(w: World, keys: seq<EdmProperty>, values: seq<string>, rows: seq<Row>): seq<Row>
    requires |keys| == |values|
  {
    if rows == [] then []
    else (if HasKeys(w, keys, values, rows[0]) then [rows[0]] else []) + WithKeys(w, keys, values, rows[1..])
  }

  lemma KeyTestMeaning(w: World, p: EdmProperty, raw: string, row: Row)
    ensures Keeps(w, MeantKeyTest(p, raw), row) <==> KeyMatches(w, p, raw, row)
  {
    hide KeyValue, TypeTokens;
    assert EvalSql(w, G.Atom(Chars(KeyValue(raw))), row) == Characters(KeyValue(raw));
    assert EvalSql(w, MeantKeyLiteral(p, raw), row) == KeyMeaning(w, p, raw);
    assert EvalSql(w, G.Atom(Name(p.name)), row) == Lookup(row, p.name);
  }

  lemma ConjKeeps(w: World, a: G.Sql, b: G.Sql, row: Row)
    ensures Keeps(w, G.Conj(a, b), row) <==> Keeps(w, a, row) && Keeps(w, b, row)
  {
  }

  lemma {:induction false} KeyFilterMeaning(w: World, keys: seq<EdmProperty>, values: seq<string>, row: Row)
    requires |keys| == |values| && keys != []
    ensures Keeps(w, MeantKeyFilter(keys, values), row) <==> HasKeys(w, keys, values, row)
  {
    hide Keeps, KeyMatches, MeantKeyTest;
    var n := |keys| - 1;
    KeyTestMeaning(w, keys[n], values[n], row);
    if n > 0 {
      KeyFilterMeaning(w, keys[..n], values[..n], row);
      ConjKeeps(w, MeantKeyFilter(keys[..n], values[..n]), MeantKeyTest(keys[n], values[n]), row);
      assert HasKeys(w, keys, values, row) <==> HasKeys(w, keys[..n], values[..n], row) && KeyMatches(w, keys[n], values[n], row);
    }
  }

  lemma {:induction false} KeyRows(w: World, keys: seq<EdmProperty>, values: seq<string>, rows: seq<Row>)
    requires |keys| == |values| && keys != []
    ensures Filtered(w, Some(MeantKeyFilter(keys, values)), rows) == WithKeys(w, keys, values, rows)
  {
    hide Keeps, HasKeys, MeantKeyFilter;
    if rows != [] {
      KeyFilterMeaning(w, keys, values, rows[0]);
      KeyRows(w, keys, values, rows[1..]);
    }
  }

  lemma {:induction false} UnsortedStays(w: World, rows: seq<Row>)
    ensures Sorted(w, [], rows) == rows
  {
    if rows != [] {
      UnsortedStays(w, rows[1..]);
      assert [rows[0]] + rows[1..] == rows;
    }
  }

  /** A key lookup is refused if and only if there is no key, the number of values is another, or `$select` names something
      unknown. */
  lemma ByKeyResolves(s: Schema, q: ODataQuery, values: seq<string>)
    ensures ByKey(s, q, values).Ok? <==>
            && (exists p | p in s.entity.properties :: p.isKey) && |values| == |Keys(s.entity.properties)|
            && forall i | 0 <= i < |q.select| :: IsProperty(s.entity.properties, q.select[i])
  {
    hide Projected, IsProperty, KeyTexts, SelectList, QuotedTable;
    ProjectionExact(q, s.entity);
    KeysExist(s.entity.properties);
  }

  lemma {:induction false} KeysExist(properties: seq<EdmProperty>)
    ensures Keys(properties) != [] <==> exists p | p in properties :: p.isKey
  {
    if properties != [] {
      KeysExist(properties[1..]);
      assert forall p | p in properties :: p == properties[0] || p in properties[1..];
    }
  }

  /** A key lookup returns the selected columns of the first row whose key columns equal the address's keys, if any. */
  lemma ByKeyIsOData(w: World, s: Schema, q: ODataQuery, values: seq<string>, db: Store, rows: seq<Row>)
    requires TableOf(db, s.entity) == Some(rows)
    requires ValidSchema(s) && ByKey(s, q, values).Ok?
    ensures Projected(q, s.entity).Ok? && |Keys(s.entity.properties)| == |values|
    ensures Run(w, ByKey(s, q, values).value, db) ==
            Rows(Output(MeantProjection(Projected(q, s.entity).value),
                        Take(WithKeys(w, Keys(s.entity.properties), values, rows), 1)))
  {
    PartsNameTable(db, s.entity);
    hide ValidSchema, Filtered, Sorted, WithKeys, ReadSelect, MeantKeyFilter, Output, Keys, Projected;
    ByKeyExact(s, q, values);
    KeyRows(w, Keys(s.entity.properties), values, rows);
    UnsortedStays(w, WithKeys(w, Keys(s.entity.properties), values, rows));
  }
}
