/** Evaluation of SELECT statements over the tables of a database. */
module Relational {
  import opened Text
  import opened Edm
  import opened ExprSemantics
  import opened SqlCompiler
  import opened SqlStatement
  import G = SqlGrammar

  datatype OutRow = Cells(cells: seq<(string, Value)>) | Everything(row: Row)

  datatype Answer = Failed | Rows(rows: seq<OutRow>) | Counted(n: nat)

  function Filtered(w: World, filter: Option<G.Sql>, rows: seq<Row>): (r: seq<Row>)
    ensures |r| <= |rows|
  {
    if rows == [] then []
    else (if filter.None? || Keeps(w, filter.value, rows[0]) then [rows[0]] else []) + Filtered(w, filter, rows[1..])
  }

  /** `a` sorts strictly before `b`: the first key on which they differ decides. */
  function Precedes(w: World, order: seq<OrderKey>, a: Row, b: Row): bool {
    if order == [] then false
    else
      var x, y := Lookup(a, order[0].column), Lookup(b, order[0].column);
      if (if order[0].descending then w.before(y, x) else w.before(x, y)) then true
      else if (if order[0].descending then w.before(x, y) else w.before(y, x)) then false
      else Precedes(w, order[1..], a, b)
  }

  function Insert(w: World, order: seq<OrderKey>, row: Row, rows: seq<Row>): (r: seq<Row>)
    ensures |r| == |rows| + 1
  {
    if rows == [] || !Precedes(w, order, rows[0], row) then [row] + rows
    else [rows[0]] + Insert(w, order, row, rows[1..])
  }

  /** A stable sort: rows that no key separates keep their order. */
  function Sorted(w: World, order: seq<OrderKey>, rows: seq<Row>): (r: seq<Row>)
    ensures |r| == |rows|
  {
    if rows == [] then [] else Insert(w, order, rows[0], Sorted(w, order, rows[1..]))
  }

  function Drop<T>(rows: seq<T>, n: nat): seq<T> {
    if n < |rows| then rows[n..] else []
  }

  function Take<T>(rows: seq<T>, n: nat): seq<T> {
    if n < |rows| then rows[..n] else rows
  }

  function Sliced<T>(rows: seq<T>, limit: Option<nat>, offset: Option<nat>): seq<T> {
    var rest := if offset.Some? then Drop(rows, offset.value) else rows;
    if limit.Some? then Take(rest, limit.value) else rest
  }

  function OutputRow(p: Projection, row: Row): OutRow {
    match p
    case Columns(names) => Cells(seq(|names|, i requires 0 <= i < |names| => (names[i], Lookup(row, names[i]))))
    case _ => Everything(row)
  }

  function Output(p: Projection, rows: seq<Row>): seq<OutRow> {
    seq(|rows|, i requires 0 <= i < |rows| => OutputRow(p, rows[i]))
  }

  /** The rows a statement selects, before projection. */
  function Selected(w: World, t: Tail, rows: seq<Row>): seq<Row> {
    Sliced(Sorted(w, t.order, Filtered(w, t.filter, rows)), t.limit, t.offset)
  }

  function Evaluate(w: World, s: Select, rows: seq<Row>): Answer {
    if s.projection.CountRows? then Counted(|Filtered(w, s.tail.filter, rows)|)
    else Rows(Output(s.projection, Selected(w, s.tail, rows)))
  }

  // ----- the database

  /** Where a table is. Identifiers are case-insensitive: all parts are in lower case. */
  datatype Place = Place(catalog: string, schema: string, name: string)

  /** The tables of a database, and the catalog and schema that names without them are looked up in. */
  datatype Store = Store(tables: map<Place, seq<Row>>, catalog: string, schema: string)

  function At(db: Store, catalog: string, schema: string, name: string): Option<seq<Row>> {
    var place := Place(ToLower(catalog), ToLower(schema), ToLower(name));
    if place in db.tables then Some(db.tables[place]) else None
  }

  /** The table a dotted name stands for. */
  function Fetch(db: Store, name: seq<string>): Option<seq<Row>> {
    if |name| == 3 then At(db, name[0], name[1], name[2])
    else if |name| == 2 then At(db, db.catalog, name[0], name[1])
    else if |name| == 1 then At(db, db.catalog, db.schema, name[0])
    else None
  }

  /** The table an entity exposes. Without a schema its catalog says nothing. */
  function TableOf(db: Store, e: EdmEntity): Option<seq<Row>> {
    var schema := if e.schema == "" then db.schema else e.schema;
    var catalog := if e.schema == "" || e.catalog == "" then db.catalog else e.catalog;
    At(db, catalog, schema, e.table)
  }

  lemma PartsNameTable(db: Store, e: EdmEntity)
    ensures Fetch(db, TableParts(e)) == TableOf(db, e)
  {
  }

  /** What running SQL text against the database returns. */
  function Run(w: World, text: string, db: Store): Answer {
    match ReadSelect(text)
    case None => Failed
    case Some(s) =>
      match Fetch(db, s.table)
      case None => Failed
      case Some(rows) => Evaluate(w, s, rows)
  }
}
