/** Row-by-row meaning of filters: SQL's three-valued evaluation of the emitted text against
    OData 4.0 Part 2 (URL Conventions), section 5.1.1.1, on the filter expression. */
module ExprSemantics {
  import opened Text
  import opened Decimal
  import opened FilterLexer
  import opened FilterGrammar
  import opened Edm
  import opened ExprCompiler
  import opened CanonicalFunctions
  import opened SqlLexer
  import opened ExprMeaning
  import G = SqlGrammar
  import P = SqlParsing

  datatype Value = Missing | Truth(b: bool) | Whole(n: int) | Characters(s: string) | Other(id: int)

  /** What is left to the database: comparison of non-null values, sort order, functions, casts, decimals, and the truth of a
      non-boolean; and to OData: the values of its canonical functions. */
  datatype World = World(
    compare: (CompareOp, Value, Value) -> bool,
    before: (Value, Value) -> bool,
    call: (string, seq<Value>) -> Value,
    cast: (seq<Tok>, Value) -> Value,
    decimal: string -> Value,
    truthOf: Value -> bool,
    canonical: (string, seq<Value>) -> Value)

  /** A row: lower-cased column name to value. Column names are case-insensitive. */
  type Row = map<string, Value>

  function Lookup(row: Row, name: string): Value {
    if ToLower(name) in row then row[ToLower(name)] else Missing
  }

  // ----- three-valued logic, common to SQL and to OData's and/or/not

  function Condition(w: World, v: Value): Value {
    match v
    case Missing => Missing
    case Truth(_) => v
    case _ => Truth(w.truthOf(v))
  }

  function Not3(a: Value): Value {
    match a
    case Truth(b) => Truth(!b)
    case _ => Missing
  }

  function And3(a: Value, b: Value): Value {
    if a == Truth(false) || b == Truth(false) then Truth(false)
    else if a == Truth(true) && b == Truth(true) then Truth(true)
    else Missing
  }

  function Or3(a: Value, b: Value): Value {
    if a == Truth(true) || b == Truth(true) then Truth(true)
    else if a == Truth(false) && b == Truth(false) then Truth(false)
    else Missing
  }

  // ----- SQL

  function NumberMeaning(w: World, text: string, negative: bool): Value {
    if AllDigits(text) then Whole(if negative then 0 - ValueOf(text) else ValueOf(text))
    else w.decimal(if negative then "-" + text else text)
  }

  function EvalSql(w: World, e: G.Sql, row: Row): Value {
    match e
    case Atom(Name(n)) => Lookup(row, n)
    case Atom(Chars(s)) => Characters(s)
    case Atom(Num(text)) => NumberMeaning(w, text, false)
    case Atom(Kw(TRUE)) => Truth(true)
    case Atom(Kw(FALSE)) => Truth(false)
    case Atom(_) => Missing
    case Negative(text) => NumberMeaning(w, text, true)
    case CastTo(a, ty) => w.cast(ty, EvalSql(w, a, row))
    case Invoke(f, args) => w.call(f, seq(|args|, i requires 0 <= i < |args| => EvalSql(w, args[i], row)))
    case Paren(inner) => EvalSql(w, inner, row)
    case Comparison(op, l, r) =>
      var x, y := EvalSql(w, l, row), EvalSql(w, r, row);
      if x == Missing || y == Missing then Missing else Truth(w.compare(op, x, y))
    case NullTest(a, negated) => Truth((EvalSql(w, a, row) == Missing) != negated)
    case Negation(c) => Not3(Condition(w, EvalSql(w, c, row)))
    case Conj(l, r) => And3(Condition(w, EvalSql(w, l, row)), Condition(w, EvalSql(w, r, row)))
    case Disj(l, r) => Or3(Condition(w, EvalSql(w, l, row)), Condition(w, EvalSql(w, r, row)))
  }

  /** WHERE keeps a row when its condition is true, not when it is false or unknown. */
  predicate Keeps(w: World, e: G.Sql, row: Row) {
    Condition(w, EvalSql(w, e, row)) == Truth(true)
  }

  // ----- OData

  /** Comparison operators of section 5.1.1.1: null equals null and nothing else. */
  function CompareOData(w: World, op: CompareOp, x: Value, y: Value): bool {
    if x == Missing && y == Missing then op == EQ || op == GE || op == LE
    else if x == Missing || y == Missing then op == NE
    else w.compare(op, x, y)
  }

  /** Values of these types are written, and compared, as text. */
  predicate IsTextual(t: EdmType) {
    t == STRING || t == GUID || t == BINARY
  }

  /** The type that text facing an operand is read as a value of: a column's own, a function's result type; none when the
      operand has no type or is text itself. */
  function OperandType(s: Schema, e: Expr): Option<string> {
    match e
    case Property(name) =>
      var p := FindProperty(s, name);
      if p.Some? && p.value.edmType != UNSUPPORTED && !IsTextual(p.value.edmType) then Some(p.value.duckdbType) else None
    case FunctionCall(name, _) =>
      var t := ResultType(ToLower(name));
      if t == "VARCHAR" then None else Some(t)
    case _ => None
  }

  function LiteralMeaning(w: World, s: Schema, v: Literal, facing: Option<string>): Value {
    match v
    case Null => Missing
    case Boolean(b) => Truth(b)
    case Integer(n) => Whole(n)
    case Float(lexeme) => w.decimal(s.floatText(lexeme))
    case Str(str) => if facing.Some? then w.cast(TypeTokens(facing.value), Characters(str)) else Characters(str)
  }

  function EvalOData(w: World, s: Schema, e: Expr, row: Row): Value
    decreases e, 1
  {
    match e
    case Property(name) => Lookup(row, name)
    case Lit(v) => LiteralMeaning(w, s, v, None)
    case Unary(c) => Not3(Condition(w, EvalOData(w, s, c, row)))
    case Binary(Cmp(op), l, r) => Truth(CompareOData(w, op, EvalOperand(w, s, l, r, row), EvalOperand(w, s, r, l, row)))
    case Binary(AND, l, r) =>
      And3(Condition(w, EvalOperand(w, s, l, r, row)), Condition(w, EvalOperand(w, s, r, l, row)))
    case Binary(OR, l, r) =>
      Or3(Condition(w, EvalOperand(w, s, l, r, row)), Condition(w, EvalOperand(w, s, r, l, row)))
    case FunctionCall(name, args) =>
      w.canonical(ToLower(name), seq(|args|, i requires 0 <= i < |args| => EvalOData(w, s, args[i], row)))
  }

  /** An operand; a literal is read as a value of the other side's type. */
  function EvalOperand(w: World, s: Schema, e: Expr, other: Expr, row: Row): Value
    decreases e, 2
  {
    if e.Lit? && !other.Lit? then LiteralMeaning(w, s, e.value, OperandType(s, other)) else EvalOData(w, s, e, row)
  }

  predicate Satisfies(w: World, s: Schema, e: Expr, row: Row) {
    Condition(w, EvalOData(w, s, e, row)) == Truth(true)
  }

  /** Every comparison in `e`, null tests aside, compares two non-null values on this row. */
  predicate ComparesNonNull(w: World, s: Schema, e: Expr, row: Row) {
    match e
    case Unary(c) => ComparesNonNull(w, s, c, row)
    case Binary(op, l, r) =>
      && ComparesNonNull(w, s, l, row) && ComparesNonNull(w, s, r, row)
      && (op.Cmp? && NullTested(e).None? ==>
            EvalOperand(w, s, l, r, row) != Missing && EvalOperand(w, s, r, l, row) != Missing)
    case FunctionCall(_, args) => forall i | 0 <= i < |args| :: ComparesNonNull(w, s, args[i], row)
    case _ => true
  }

  // ----- the two meanings agree

  lemma NumberTreeMeaning(w: World, text: string, row: Row)
    requires IsFixedPoint(text)
    ensures EvalSql(w, NumberTree(text), row) == NumberMeaning(w, Unsigned(text), text[0] == '-')
    ensures !AllDigits(Unsigned(text)) ==> EvalSql(w, NumberTree(text), row) == w.decimal(text)
  {
    if text[0] == '-' {
      assert "-" + text[1..] == text;
    }
  }

  lemma IntegerMeaning(w: World, n: int, row: Row)
    ensures EvalSql(w, NumberTree(Show(n)), row) == Whole(n)
  {
    ShowIsFixedPoint(n);
    NumberTreeMeaning(w, Show(n), row);
    ValueOfDigits(if n < 0 then -n else n);
    if n < 0 {
      assert Show(n)[1..] == Digits(-n);
    } else {
      assert Digits(n)[0] != '-';
    }
  }

  /** As the catalog reports a table: types mapped by name, binary columns under their canonical names. A decimal point keeps
      a float's text from being read as a whole number. */
  ghost predicate FromCatalog(s: Schema) {
    && (forall p | p in s.entity.properties ::
          p.edmType == EdmTypeOf(p.duckdbType) && BaseTypeOf(p.duckdbType) !in {"bytea", "binary", "varbinary"})
    && (forall lexeme :: !AllDigits(Unsigned(s.floatText(lexeme))))
  }

  /** The type a literal compiled for `facing` is cast to. */
  function CompiledType(facing: string): Option<string> {
    var base := BaseTypeOf(facing);
    if base == "" || IsStringBase(base) then None else Some(facing)
  }

  lemma LiteralsAgree(w: World, s: Schema, v: Literal, facing: string, row: Row)
    requires ValidSchema(s) && FromCatalog(s)
    ensures EvalSql(w, LiteralTree(s, v, facing), row) == LiteralMeaning(w, s, v, CompiledType(facing))
  {
    hide BaseTypeOf, IsStringBase;
    match v
    case Integer(n) => IntegerMeaning(w, n, row);
    case Float(lexeme) => NumberTreeMeaning(w, s.floatText(lexeme), row);
    case _ =>
  }

  // ----- functions

  /** In this database the counterpart of the function computes it. */
  ghost predicate Computes(w: World, name: string, n: nat) {
    forall args: seq<Value> | |args| == n :: w.canonical(ToLower(name), args) == w.call(Counterpart(ToLower(name)), args)
  }

  /** The counterparts of the functions that `e` calls compute them. */
  ghost predicate IsComputed(w: World, e: Expr) {
    match e
    case Unary(c) => IsComputed(w, c)
    case Binary(_, l, r) => IsComputed(w, l) && IsComputed(w, r)
    case FunctionCall(name, args) => Computes(w, name, |args|) && forall i | 0 <= i < |args| :: IsComputed(w, args[i])
    case _ => true
  }

  // ----- the type a literal is read with

  /** Functions whose result the compiler takes for a boolean although it is none: of the functions it knows, `now`,
      `round`, `floor`, `ceiling` and `abs`. */
  predicate IsTakenForBoolean(lower: string) {
    ResultType(lower) == "TIMESTAMP WITH TIME ZONE" || ResultType(lower) == "DOUBLE"
  }

  /** A text literal facing the result of such a function. */
  predicate IsMistyped(e: Expr, other: Expr) {
    e.Lit? && e.value.Str? && other.FunctionCall? && IsTakenForBoolean(ToLower(other.name))
  }

  /** No text literal faces such a function. */
  predicate IsTyped(e: Expr) {
    match e
    case Unary(c) => IsTyped(c)
    case Binary(_, l, r) => IsTyped(l) && IsTyped(r) && !IsMistyped(l, r) && !IsMistyped(r, l)
    case FunctionCall(_, args) => forall i | 0 <= i < |args| :: IsTyped(args[i])
    case _ => true
  }

  lemma TypesDiffer()
    ensures "BOOLEAN" !in {"TIMESTAMP WITH TIME ZONE", "DOUBLE", "BIGINT", "VARCHAR"}
    ensures "BIGINT" !in {"TIMESTAMP WITH TIME ZONE", "DOUBLE"} && "VARCHAR" !in {"TIMESTAMP WITH TIME ZONE", "DOUBLE"}
  {
    assert |"BOOLEAN"| == |"VARCHAR"| == 7 && |"DOUBLE"| == |"BIGINT"| == 6 && |"TIMESTAMP WITH TIME ZONE"| == 24;
    assert "BOOLEAN"[0] == 'B' && "VARCHAR"[0] == 'V' && "DOUBLE"[0] == 'D' && "BIGINT"[0] == 'B';
  }

  lemma UnparenthesizedBase(t: string)
    requires t != "" && IsAlpha(t[0]) && IsAlpha(t[|t| - 1]) && '(' !in t
    ensures BaseTypeOf(t) == ToLower(t)
  {
    var lower := ToLower(t);
    forall i | 0 <= i < |lower| ensures NotParen(lower[i]) {
      assert t[i] in t;
    }
    SpanIs(NotParen, lower, |lower|);
    assert lower[..|lower|] == lower;
    TrimKeeps(IsSpace, lower);
  }

  lemma IsNoTextType(t: string)
    requires t in {"TIMESTAMP WITH TIME ZONE", "DOUBLE", "BOOLEAN", "BIGINT"}
    ensures CompiledType(t) == Some(t)
  {
    hide BaseTypeOf;
    UnparenthesizedBase(t);
    assert |BaseTypeOf(t)| in {24, 6, 7};
    assert BaseTypeOf(t)[0] == LowerChar(t[0]);
  }

  lemma IsTextType()
    ensures CompiledType("VARCHAR").None?
  {
    hide BaseTypeOf;
    UnparenthesizedBase("VARCHAR");
    assert ToLower("VARCHAR") == "varchar";
  }

  /** Literals facing a column of a mapped type are left uncast exactly when the type is textual, but for three spellings of
      binary types that the catalog does not use. */
  lemma TextualExact(t: string)
    requires EdmTypeOf(t) != UNSUPPORTED
    ensures (CompiledType(t).None? <==> IsTextual(EdmTypeOf(t))) <==> BaseTypeOf(t) !in {"bytea", "binary", "varbinary"}
  {
    hide BaseTypeOf;
    var b := BaseTypeOf(t);
    assert |b| >= 3;
    var c0, c1, c2 := b[0], b[1], b[2];
  }

  lemma TypesAgree(s: Schema, other: Expr)
    requires FromCatalog(s)
    ensures CompiledType(LiteralType(s, other)) == OperandType(s, other) <==>
            !(other.FunctionCall? && IsTakenForBoolean(ToLower(other.name)))
  {
    hide FindProperty, ToLower, BaseTypeOf, IsStringBase, EdmTypeOf;
    match other
    case Property(name) =>
      var p := FindProperty(s, name);
      if p.Some? && p.value.edmType != UNSUPPORTED {
        TextualExact(p.value.duckdbType);
      }
      NoType();
    case FunctionCall(_, _) =>
      TypesDiffer();
      FunctionTypes();
    case _ => NoType();
  }

  lemma NoType()
    ensures CompiledType("").None?
  {
    SpanIs(NotParen, "", 0);
    TrimKeeps(IsSpace, "");
  }

  lemma FunctionTypes()
    ensures CompiledType("VARCHAR").None? && CompiledType("BIGINT") == Some("BIGINT") && CompiledType("BOOLEAN") == Some("BOOLEAN")
  {
    hide BaseTypeOf, IsStringBase;
    IsNoTextType("BIGINT");
    IsNoTextType("BOOLEAN");
    IsTextType();
  }

  lemma TypedLiteral(w: World, s: Schema, v: Literal, other: Expr)
    requires FromCatalog(s) && !IsMistyped(Lit(v), other)
    ensures LiteralMeaning(w, s, v, CompiledType(LiteralType(s, other))) == LiteralMeaning(w, s, v, OperandType(s, other))
  {
    hide LiteralType, OperandType, IsTakenForBoolean, BaseTypeOf, FromCatalog;
    TypesAgree(s, other);
  }

  lemma {:induction false} OperandsAgree(w: World, s: Schema, e: Expr, other: Expr, row: Row)
    requires ValidSchema(s) && FromCatalog(s) && Compilable(s, e) && ComparesNonNull(w, s, e, row)
    requires IsTyped(e) && !IsMistyped(e, other) && IsComputed(w, e)
    ensures EvalSql(w, MeantOperand(s, e, other), row) == EvalOperand(w, s, e, other, row)
    decreases e, 2
  {
    hide IsMistyped, LiteralType, OperandType, LiteralTree, LiteralMeaning;
    if e.Lit? && !other.Lit? {
      LiteralsAgree(w, s, e.value, LiteralType(s, other), row);
      TypedLiteral(w, s, e.value, other);
    } else {
      ValuesAgree(w, s, e, row);
    }
  }

  lemma {:induction false} ValuesAgree(w: World, s: Schema, e: Expr, row: Row)
    requires ValidSchema(s) && FromCatalog(s) && Compilable(s, e) && ComparesNonNull(w, s, e, row)
    requires IsTyped(e) && IsComputed(w, e)
    ensures EvalSql(w, Meant(s, e), row) == EvalOData(w, s, e, row)
    decreases e, 1
  {
    hide ValidSchema, FromCatalog, EvalSql, EvalOData, Meant;
    match e
    case Property(_) => PlainAgrees(w, s, e, row);
    case Lit(v) =>
      LiteralsAgree(w, s, v, "", row);
      PlainAgrees(w, s, e, row);
    case Unary(c) =>
      ValuesAgree(w, s, c, row);
      NegationValues(w, s, e, row);
    case Binary(_, _, _) => BinaryValuesAgree(w, s, e, row);
    case FunctionCall(_, _) => CallValuesAgree(w, s, e, row);
  }

  lemma PlainAgrees(w: World, s: Schema, e: Expr, row: Row)
    requires Compilable(s, e) && (e.Property? || e.Lit?)
    requires e.Lit? ==> EvalSql(w, LiteralTree(s, e.value, ""), row) == LiteralMeaning(w, s, e.value, CompiledType(""))
    ensures EvalSql(w, Meant(s, e), row) == EvalOData(w, s, e, row)
  {
    hide LiteralTree, LiteralMeaning, CompiledType;
    NoType();
  }

  lemma NegationValues(w: World, s: Schema, e: Expr, row: Row)
    requires Compilable(s, e) && e.Unary?
    ensures EvalSql(w, Meant(s, e), row) == Not3(Condition(w, EvalSql(w, Meant(s, e.child), row)))
    ensures EvalOData(w, s, e, row) == Not3(Condition(w, EvalOData(w, s, e.child, row)))
  {
    hide EvalSql, Condition, Not3, LiteralTree, BinaryTree, MeantOperand, NullTested, FindFunction, FindProperty, LiteralMeaning;
    var m := Meant(s, e.child);
    assert Meant(s, e) == G.Paren(G.Negation(m));
    NegatedValue(w, m, row);
    hide Meant;
  }

  lemma NegatedValue(w: World, m: G.Sql, row: Row)
    ensures EvalSql(w, G.Paren(G.Negation(m)), row) == Not3(Condition(w, EvalSql(w, m, row)))
  {
    hide Condition, Not3;
    assert EvalSql(w, G.Negation(m), row) == Not3(Condition(w, EvalSql(w, m, row)));
  }

  lemma {:induction false} CallValuesAgree(w: World, s: Schema, e: Expr, row: Row)
    requires ValidSchema(s) && FromCatalog(s) && Compilable(s, e) && ComparesNonNull(w, s, e, row) && e.FunctionCall?
    requires IsTyped(e) && IsComputed(w, e)
    ensures EvalSql(w, Meant(s, e), row) == EvalOData(w, s, e, row)
    decreases e, 0
  {
    hide ValidSchema, FromCatalog, EvalSql, EvalOData, Meant;
    forall i | 0 <= i < |e.args| ensures EvalSql(w, Meant(s, e.args[i]), row) == EvalOData(w, s, e.args[i], row) {
      ValuesAgree(w, s, e.args[i], row);
    }
    CallsAgree(w, s, e, row);
  }

  lemma CallsAgree(w: World, s: Schema, e: Expr, row: Row)
    requires Compilable(s, e) && e.FunctionCall? && Computes(w, e.name, |e.args|)
    requires forall i | 0 <= i < |e.args| :: EvalSql(w, Meant(s, e.args[i]), row) == EvalOData(w, s, e.args[i], row)
    ensures EvalSql(w, Meant(s, e), row) == EvalOData(w, s, e, row)
  {
    hide FindFunction;
    var ms := Meant(s, e).args;
    var vs := seq(|ms|, i requires 0 <= i < |ms| => EvalSql(w, ms[i], row));
    var us := seq(|e.args|, i requires 0 <= i < |e.args| => EvalOData(w, s, e.args[i], row));
    assert |vs| == |us| && forall i | 0 <= i < |us| :: vs[i] == us[i];
    assert vs == us;
    FunctionExact(e.name, |e.args|);
  }

  lemma NullTestAgrees(w: World, s: Schema, e: Expr, row: Row)
    requires e.Binary? && Compilable(s, e) && NullTested(e).Some?
    requires EvalSql(w, Meant(s, NullTested(e).value), row) == EvalOData(w, s, NullTested(e).value, row)
    ensures EvalSql(w, Meant(s, e), row) == EvalOData(w, s, e, row)
  {
    hide LiteralType, OperandType, FindFunction;
  }

  lemma {:induction false} BinaryValuesAgree(w: World, s: Schema, e: Expr, row: Row)
    requires ValidSchema(s) && FromCatalog(s) && Compilable(s, e) && ComparesNonNull(w, s, e, row) && e.Binary?
    requires IsTyped(e) && IsComputed(w, e)
    ensures EvalSql(w, Meant(s, e), row) == EvalOData(w, s, e, row)
    decreases e, 0
  {
    hide ValidSchema, FromCatalog, EvalSql, EvalOData, EvalOperand, Meant, MeantOperand, IsTyped, IsMistyped;
    TypedOperands(e);
    if NullTested(e).Some? {
      ValuesAgree(w, s, NullTested(e).value, row);
      NullTestAgrees(w, s, e, row);
    } else {
      OperandsAgree(w, s, e.left, e.right, row);
      OperandsAgree(w, s, e.right, e.left, row);
      if e.op.Cmp? {
        ComparisonValues(w, s, e, row);
      } else {
        ConnectiveValues(w, s, e, row);
      }
    }
  }

  lemma ComparisonValues(w: World, s: Schema, e: Expr, row: Row)
    requires Compilable(s, e) && IsComparison(e) && NullTested(e).None?
    ensures
      var (x, y) := (EvalSql(w, MeantOperand(s, e.left, e.right), row), EvalSql(w, MeantOperand(s, e.right, e.left), row));
      EvalSql(w, Meant(s, e), row) == if x == Missing || y == Missing then Missing else Truth(w.compare(e.op.op, x, y))
    ensures
      EvalOData(w, s, e, row) ==
      Truth(CompareOData(w, e.op.op, EvalOperand(w, s, e.left, e.right, row), EvalOperand(w, s, e.right, e.left, row)))
  {
    hide LiteralType, OperandType, FindFunction, LiteralTree, LiteralMeaning, MeantOperand, EvalOperand, CompareOData;
  }

  lemma ConnectiveValues(w: World, s: Schema, e: Expr, row: Row)
    requires Compilable(s, e) && e.Binary? && !e.op.Cmp?
    ensures
      var (a, b) := (Condition(w, EvalSql(w, MeantOperand(s, e.left, e.right), row)),
                     Condition(w, EvalSql(w, MeantOperand(s, e.right, e.left), row)));
      EvalSql(w, Meant(s, e), row) == if e.op.AND? then And3(a, b) else Or3(a, b)
    ensures
      var (a, b) := (Condition(w, EvalOperand(w, s, e.left, e.right, row)),
                     Condition(w, EvalOperand(w, s, e.right, e.left, row)));
      EvalOData(w, s, e, row) == if e.op.AND? then And3(a, b) else Or3(a, b)
  {
    hide LiteralType, OperandType, FindFunction, LiteralTree, LiteralMeaning, Condition, And3, Or3, MeantOperand, EvalOperand;
  }

  lemma TypedOperands(e: Expr)
    requires e.Binary? && IsTyped(e)
    ensures IsTyped(e.left) && IsTyped(e.right) && !IsMistyped(e.left, e.right) && !IsMistyped(e.right, e.left)
  {
  }

  /** Meaning preservation. For a flat filter and every row on which it compares non-null values, the
      emitted characters, lexed and parsed as SQL, have the value the filter has under OData; so WHERE keeps
      the row exactly when the filter is true of it. Null tests, and nulls under and/or/not, are included. */
  lemma MeaningPreserved(w: World, s: Schema, e: Expr, row: Row)
    requires ValidSchema(s) && FromCatalog(s) && Compilable(s, e) && Flat(e)
    requires ComparesNonNull(w, s, e, row) && IsTyped(e) && IsComputed(w, e)
    ensures Compile(s, e).Ok?
    ensures var sql := P.Meaning(Compile(s, e).value);
            && sql.Some? && EvalSql(w, sql.value, row) == EvalOData(w, s, e, row)
            && (Keeps(w, sql.value, row) <==> Satisfies(w, s, e, row))
  {
    MeaningExact(s, e);
    ValuesAgree(w, s, e, row);
  }

  /** The condition on rows is exact, comparison by comparison: where the operands' own values agree, a comparison
      has its OData value if and only if neither operand is null. */
  lemma ComparisonAgreesIffNonNull(w: World, s: Schema, e: Expr, row: Row)
    requires ValidSchema(s) && FromCatalog(s) && Compilable(s, e)
    requires IsComparison(e) && NullTested(e).None? && IsTyped(e) && IsComputed(w, e)
    requires ComparesNonNull(w, s, e.left, row) && ComparesNonNull(w, s, e.right, row)
    ensures EvalSql(w, Meant(s, e), row) == EvalOData(w, s, e, row) <==> ComparesNonNull(w, s, e, row)
  {
    hide ValidSchema, FromCatalog, EvalSql, EvalOData, EvalOperand, Meant, MeantOperand, IsTyped, IsMistyped;
    TypedOperands(e);
    ComparisonValues(w, s, e, row);
    OperandsAgree(w, s, e.left, e.right, row);
    OperandsAgree(w, s, e.right, e.left, row);
  }

  /** Property, literal, or function of such: no comparison, connective or negation inside. */
  predicate IsPlainValue(e: Expr) {
    match e
    case Unary(_) => false
    case Binary(_, _, _) => false
    case FunctionCall(_, args) => forall i | 0 <= i < |args| :: IsPlainValue(args[i])
    case _ => true
  }

  lemma {:induction false} PlainValuesCompareNothing(w: World, s: Schema, e: Expr, row: Row)
    requires IsPlainValue(e)
    ensures ComparesNonNull(w, s, e, row)
  {
    if e.FunctionCall? {
      forall i | 0 <= i < |e.args| ensures ComparesNonNull(w, s, e.args[i], row) {
        PlainValuesCompareNothing(w, s, e.args[i], row);
      }
    }
  }

  lemma {:induction false} PlainValuesAreTyped(e: Expr)
    requires IsPlainValue(e)
    ensures IsTyped(e)
  {
    if e.FunctionCall? {
      forall i | 0 <= i < |e.args| ensures IsTyped(e.args[i]) {
        PlainValuesAreTyped(e.args[i]);
      }
    }
  }

  /** A world in which a cast shows its type: to BOOLEAN it gives true, otherwise an unordered value. */
  function CastsApart(): World {
    World(
      (_, x, y) => x == Truth(true) || y == Truth(true),
      (_, _) => false,
      (_, _) => Other(0),
      (type_, _) => if type_ == TypeTokens("BOOLEAN") then Truth(true) else Other(1),
      _ => Other(2),
      _ => false,
      (_, _) => Other(0))
  }

  lemma {:induction false} CastsCompute(e: Expr)
    ensures IsComputed(CastsApart(), e)
  {
    match e
    case Unary(c) => CastsCompute(c);
    case Binary(_, l, r) => CastsCompute(l); CastsCompute(r);
    case FunctionCall(_, args) =>
      forall i | 0 <= i < |args| ensures IsComputed(CastsApart(), args[i]) {
        CastsCompute(args[i]);
      }
    case _ =>
  }

  lemma FirstWord(t: string, n: nat)
    requires 0 < n <= |t| && (forall i | 0 <= i < n :: IsAlpha(t[i])) && (n < |t| ==> t[n] == ' ')
    ensures n == |t| ==> TypeTokens(t) == [WordTok(t)]
    ensures TypeTokens(t) == [] || TypeTokens(t)[0] == WordTok(t[..n])
  {
    hide WordTok;
    SpanIs(IsWordChar, t, n);
    assert HeadTok(t) == Some((WordTok(t[..n]), t[n..]));
    assert !IsSpace(t[0]);
    if n == |t| {
      assert t[..n] == t && t[n..] == "";
      assert LexSql(t[n..]) == Some([]);
      assert LexSql(t) == Some([WordTok(t)] + []);
      assert [WordTok(t)] + [] == [WordTok(t)];
    } else if LexSql(t[n..]).Some? {
      assert LexSql(t) == Some([WordTok(t[..n])] + LexSql(t[n..]).value);
    }
  }

  lemma CastsToBooleanApart(facing: string)
    requires facing in {"TIMESTAMP WITH TIME ZONE", "DOUBLE"}
    ensures TypeTokens(facing) != TypeTokens("BOOLEAN")
  {
    hide TypeTokens;
    FirstWord("BOOLEAN", 7);
    if facing == "DOUBLE" {
      FirstWord(facing, 6);
      assert WordTok("DOUBLE") == Word("DOUBLE");
    } else {
      FirstWord(facing, 9);
      assert facing[..9] == "TIMESTAMP";
    }
    assert |"TIMESTAMP"| == 9 && |"DOUBLE"| == 6 && |"BOOLEAN"| == 7;
  }

  /** Facing such a call, a text literal is a boolean to the text and a value of the call's type under OData. */
  lemma MistypedDiffers(s: Schema, v: Literal, call: Expr)
    requires IsMistyped(Lit(v), call)
    ensures LiteralMeaning(CastsApart(), s, v, CompiledType(LiteralType(s, call))) == Truth(true)
    ensures LiteralMeaning(CastsApart(), s, v, OperandType(s, call)) == Other(1)
  {
    hide CompiledType, TypeTokens, ToLower;
    TypesDiffer();
    FunctionTypes();
    CastsToBooleanApart(OperandType(s, call).value);
  }
  lemma MistypedOperands(s: Schema, e: Expr, call: Expr, row: Row)
    requires ValidSchema(s) && FromCatalog(s) && Compilable(s, call) && IsMistyped(e, call)
    ensures EvalSql(CastsApart(), MeantOperand(s, e, call), row) == Truth(true) && EvalOperand(CastsApart(), s, e, call, row) == Other(1)
    ensures EvalSql(CastsApart(), MeantOperand(s, call, e), row) == EvalOperand(CastsApart(), s, call, e, row) == Other(0)
  {
    hide LiteralType, OperandType, LiteralMeaning, LiteralTree, FindFunction, IsTakenForBoolean, ValidSchema, FromCatalog;
    MistypedDiffers(s, e.value, call);
    LiteralsAgree(CastsApart(), s, e.value, LiteralType(s, call), row);
  }

  /** Such a comparison holds in the text and fails under OData. */
  lemma MistypedComparisonDiffers(s: Schema, e: Expr, row: Row)
    requires ValidSchema(s) && FromCatalog(s) && Compilable(s, e) && IsComparison(e) && NullTested(e).None?
    requires IsMistyped(e.left, e.right) || IsMistyped(e.right, e.left)
    ensures EvalSql(CastsApart(), Meant(s, e), row) == Truth(true) && EvalOData(CastsApart(), s, e, row) == Truth(false)
    ensures EvalOperand(CastsApart(), s, e.left, e.right, row) != Missing && EvalOperand(CastsApart(), s, e.right, e.left, row) != Missing
  {
    hide EvalSql, EvalOData, EvalOperand, Meant, MeantOperand, IsMistyped, ValidSchema, FromCatalog;
    if IsMistyped(e.left, e.right) {
      MistypedOperands(s, e.left, e.right, row);
    } else {
      MistypedOperands(s, e.right, e.left, row);
    }
    ComparisonValues(CastsApart(), s, e, row);
  }

  /** The condition on types is exact, too, comparison by comparison: on all rows where its operands are non-null, a comparison
      of plain values has its OData value if and only if no text literal faces a function taken for a boolean. */
  lemma ComparisonAgreesIffTyped(s: Schema, e: Expr)
    requires ValidSchema(s) && FromCatalog(s) && Compilable(s, e) && IsComparison(e) && NullTested(e).None?
    requires IsPlainValue(e.left) && IsPlainValue(e.right)
    ensures (forall w, row | IsComputed(w, e) && ComparesNonNull(w, s, e, row) :: EvalSql(w, Meant(s, e), row) == EvalOData(w, s, e, row)) <==> IsTyped(e)
  {
    hide ValidSchema, FromCatalog, EvalSql, EvalOData, EvalOperand, Meant, IsMistyped, CastsApart, IsComputed;
    PlainValuesAreTyped(e.left);
    PlainValuesAreTyped(e.right);
    if IsTyped(e) {
      forall w, row | IsComputed(w, e) && ComparesNonNull(w, s, e, row) ensures EvalSql(w, Meant(s, e), row) == EvalOData(w, s, e, row) {
        ValuesAgree(w, s, e, row);
      }
    } else {
      MistypedComparisonDiffers(s, e, map[]);
      PlainValuesCompareNothing(CastsApart(), s, e.left, map[]);
      PlainValuesCompareNothing(CastsApart(), s, e.right, map[]);
      CastsCompute(e);
      assert ComparesNonNull(CastsApart(), s, e, map[]);
    }
  }

  // ----- every row, nulls included

  /** No comparison, connective or negation inside a null test or a function argument. */
  predicate IsLogical(e: Expr) {
    match e
    case Unary(c) => IsLogical(c)
    case Binary(_, l, r) => if NullTested(e).Some? then IsPlainValue(NullTested(e).value) else IsLogical(l) && IsLogical(r)
    case _ => IsPlainValue(e)
  }

  /** What a known operand of a connective makes of an unknown one: the value that decides the connective, or null
      where the other's OData value leaves it null. */
  predicate Absorbs(op: BinaryOp, known: Value, unknown: Value) {
    known == Truth(op.OR?) || (known == Missing && unknown == Truth(op.AND?))
  }

  /** SQL and OData agree on this row: no comparison of a null, or each absorbed by the other operand of a connective. */
  predicate IsDecided(w: World, s: Schema, e: Expr, row: Row) {
    match e
    case Unary(c) => IsDecided(w, s, c, row)
    case Binary(op, l, r) =>
      var x, y := EvalOperand(w, s, l, r, row), EvalOperand(w, s, r, l, row);
      var a, b := IsDecided(w, s, l, row), IsDecided(w, s, r, row);
      if op.Cmp? then NullTested(e).Some? || (a && b && x != Missing && y != Missing)
      else (a || Absorbs(op, Condition(w, y), Condition(w, x))) && (b || Absorbs(op, Condition(w, x), Condition(w, y))) && (a || b)
    case _ => true
  }

  /** The two values of an expression: equal where it is decided; elsewhere unknown in SQL and known under OData. */
  ghost predicate Split(decided: bool, sql: Value, odata: Value) {
    if decided then sql == odata else sql == Missing && odata.Truth?
  }

  lemma {:induction false} TreeExact(w: World, s: Schema, e: Expr, row: Row)
    requires ValidSchema(s) && FromCatalog(s) && Compilable(s, e) && IsLogical(e) && IsTyped(e) && IsComputed(w, e)
    ensures Split(IsDecided(w, s, e, row), EvalSql(w, Meant(s, e), row), EvalOData(w, s, e, row))
    decreases e, 1
  {
    if e.Binary? {
      BinaryExact(w, s, e, row);
    } else if e.Unary? {
      hide ValidSchema, FromCatalog, EvalSql, EvalOData, Meant, IsDecided;
      TreeExact(w, s, e.child, row);
      NegationSplits(w, s, e, row);
    } else {
      hide ValidSchema, FromCatalog, EvalSql, EvalOData, Meant;
      PlainValuesCompareNothing(w, s, e, row);
      ValuesAgree(w, s, e, row);
    }
  }

  lemma {:induction false} BinaryExact(w: World, s: Schema, e: Expr, row: Row)
    requires ValidSchema(s) && FromCatalog(s) && Compilable(s, e) && e.Binary? && IsLogical(e) && IsTyped(e) && IsComputed(w, e)
    ensures Split(IsDecided(w, s, e, row), EvalSql(w, Meant(s, e), row), EvalOData(w, s, e, row))
    decreases e, 0
  {
    hide ValidSchema, FromCatalog, EvalSql, EvalOData, EvalOperand, Meant, MeantOperand, IsTyped, IsMistyped;
    TypedOperands(e);
    if NullTested(e).Some? {
      PlainValuesCompareNothing(w, s, NullTested(e).value, row);
      ValuesAgree(w, s, NullTested(e).value, row);
      NullTestAgrees(w, s, e, row);
    } else {
      hide IsDecided;
      OperandExact(w, s, e.left, e.right, row);
      OperandExact(w, s, e.right, e.left, row);
      if e.op.Cmp? {
        ComparisonSplits(w, s, e, row);
      } else {
        ConnectiveSplits(w, s, e, row);
      }
    }
  }

  lemma {:induction false} OperandExact(w: World, s: Schema, e: Expr, other: Expr, row: Row)
    requires ValidSchema(s) && FromCatalog(s) && Compilable(s, e) && IsLogical(e)
    requires IsTyped(e) && !IsMistyped(e, other) && IsComputed(w, e)
    ensures Split(IsDecided(w, s, e, row), EvalSql(w, MeantOperand(s, e, other), row), EvalOperand(w, s, e, other, row))
    decreases e, 2
  {
    hide IsMistyped, LiteralType, OperandType, LiteralTree, LiteralMeaning, ValidSchema, FromCatalog, Meant;
    if e.Lit? && !other.Lit? {
      LiteralsAgree(w, s, e.value, LiteralType(s, other), row);
      TypedLiteral(w, s, e.value, other);
    } else {
      TreeExact(w, s, e, row);
    }
  }

  lemma NegationSplits(w: World, s: Schema, e: Expr, row: Row)
    requires Compilable(s, e) && e.Unary?
    requires Split(IsDecided(w, s, e.child, row), EvalSql(w, Meant(s, e.child), row), EvalOData(w, s, e.child, row))
    ensures Split(IsDecided(w, s, e, row), EvalSql(w, Meant(s, e), row), EvalOData(w, s, e, row))
  {
    hide EvalSql, EvalOData, Meant;
    NegationValues(w, s, e, row);
  }

  lemma ComparisonSplits(w: World, s: Schema, e: Expr, row: Row)
    requires Compilable(s, e) && IsComparison(e) && NullTested(e).None?
    requires Split(IsDecided(w, s, e.left, row), EvalSql(w, MeantOperand(s, e.left, e.right), row), EvalOperand(w, s, e.left, e.right, row))
    requires Split(IsDecided(w, s, e.right, row), EvalSql(w, MeantOperand(s, e.right, e.left), row), EvalOperand(w, s, e.right, e.left, row))
    ensures Split(IsDecided(w, s, e, row), EvalSql(w, Meant(s, e), row), EvalOData(w, s, e, row))
  {
    hide EvalSql, EvalOData, Meant, MeantOperand, EvalOperand;
    ComparisonValues(w, s, e, row);
  }

  lemma ConnectiveSplits(w: World, s: Schema, e: Expr, row: Row)
    requires Compilable(s, e) && e.Binary? && !e.op.Cmp?
    requires Split(IsDecided(w, s, e.left, row), EvalSql(w, MeantOperand(s, e.left, e.right), row), EvalOperand(w, s, e.left, e.right, row))
    requires Split(IsDecided(w, s, e.right, row), EvalSql(w, MeantOperand(s, e.right, e.left), row), EvalOperand(w, s, e.right, e.left, row))
    ensures Split(IsDecided(w, s, e, row), EvalSql(w, Meant(s, e), row), EvalOData(w, s, e, row))
  {
    hide EvalSql, EvalOData, Meant, MeantOperand, EvalOperand;
    ConnectiveValues(w, s, e, row);
  }

  /** Every row, nulls included: for a flat logical filter the emitted text has its OData value on exactly the decided
      rows, and WHERE keeps exactly the rows that satisfy the filter and are decided. */
  lemma FilterExact(w: World, s: Schema, e: Expr, row: Row)
    requires ValidSchema(s) && FromCatalog(s) && Compilable(s, e) && Flat(e) && IsLogical(e) && IsTyped(e) && IsComputed(w, e)
    ensures Compile(s, e).Ok?
    ensures var sql := P.Meaning(Compile(s, e).value);
            && sql.Some?
            && (EvalSql(w, sql.value, row) == EvalOData(w, s, e, row) <==> IsDecided(w, s, e, row))
            && (Keeps(w, sql.value, row) <==> Satisfies(w, s, e, row) && IsDecided(w, s, e, row))
  {
    hide ValidSchema, FromCatalog, IsDecided, EvalSql, EvalOData, Meant, Flat, IsLogical, IsTyped, P.Meaning, Compile;
    MeaningExact(s, e);
    TreeExact(w, s, e, row);
  }

  /** With `not` they keep rows away: where the column is null, `not (name eq 1)` is true under OData
      and unknown in SQL. */
  lemma NullUnderNotDiffers(w: World, s: Schema, name: string, row: Row)
    requires FindProperty(s, name).Some? && Lookup(row, name) == Missing
    ensures var e := Unary(Binary(Cmp(EQ), Property(name), Lit(Integer(1))));
            Compilable(s, e) && Satisfies(w, s, e, row) && !Keeps(w, Meant(s, e), row)
  {
    var p, one := Property(name), Lit(Integer(1));
    var eq := Binary(Cmp(EQ), p, one);
    hide EvalSql, EvalOData, EvalOperand, Meant, MeantOperand;
    assert Compilable(s, p) && Compilable(s, one);
    assert Compilable(s, eq);
    assert Compilable(s, Unary(eq));
    NegationValues(w, s, Unary(eq), row);
    ComparisonValues(w, s, eq, row);
    NullOperand(w, s, name, row);
  }

  lemma NullOperand(w: World, s: Schema, name: string, row: Row)
    requires FindProperty(s, name).Some? && Lookup(row, name) == Missing
    ensures EvalSql(w, MeantOperand(s, Property(name), Lit(Integer(1))), row) == Missing
    ensures EvalOperand(w, s, Property(name), Lit(Integer(1)), row) == Missing
    ensures EvalOperand(w, s, Lit(Integer(1)), Property(name), row) == Whole(1)
  {
    hide LiteralType, OperandType, FindProperty;
    var column := FindProperty(s, name).value.name;
    assert Meant(s, Property(name)) == G.Atom(Name(column)) && Lookup(row, column) == Missing;
    assert EvalSql(w, Meant(s, Property(name)), row) == Missing;
  }

  /** Where the hypothesis on functions fails: `indexof` counts from 0 and its counterpart from 1, so comparing it with a number
      tests for the place before. */
  lemma IndexOfIsOffByOne(w: World, s: Schema, a: Expr, b: Expr, place: nat, k: int, row: Row)
    requires ValidSchema(s) && FromCatalog(s)
    requires Compilable(s, a) && IsPlainValue(a) && IsComputed(w, a) && Compilable(s, b) && IsPlainValue(b) && IsComputed(w, b)
    requires var args := [EvalOData(w, s, a, row), EvalOData(w, s, b, row)];
             w.canonical("indexof", args) == Whole(place) && w.call("strpos", args) == Whole(place + 1)
    requires forall m, n :: w.compare(EQ, Whole(m), Whole(n)) <==> m == n
    ensures var e := Binary(Cmp(EQ), FunctionCall("indexof", [a, b]), Lit(Integer(k)));
            && Compilable(s, e) && EvalSql(w, Meant(s, e), row) == Truth(k == place + 1)
            && EvalOData(w, s, e, row) == Truth(k == place)
  {
    hide EvalSql, EvalOData, EvalOperand, Meant, MeantOperand, FindFunction, ValidSchema, FromCatalog, IsPlainValue, IsComputed, Compilable;
    var call := FunctionCall("indexof", [a, b]);
    IndexOfIsStrpos();
    PlainOperandAgrees(w, s, a, row);
    PlainOperandAgrees(w, s, b, row);
    IndexOfIsKnown(s, a, b, k);
    CallOfTwo(w, s, call, row);
    IntegerMeaning(w, k, row);
    NumberOperand(w, s, k, call, row);
    ComparisonValues(w, s, Binary(Cmp(EQ), call, Lit(Integer(k))), row);
  }

  lemma IndexOfIsKnown(s: Schema, a: Expr, b: Expr, k: int)
    requires Compilable(s, a) && Compilable(s, b)
    ensures var call := FunctionCall("indexof", [a, b]);
            && Compilable(s, call) && Compilable(s, Lit(Integer(k))) && Compilable(s, Binary(Cmp(EQ), call, Lit(Integer(k))))
  {
    hide FindFunction;
    IndexOfIsStrpos();
    assert Compilable(s, FunctionCall("indexof", [a, b]));
  }

  lemma PlainOperandAgrees(w: World, s: Schema, e: Expr, row: Row)
    requires ValidSchema(s) && FromCatalog(s) && Compilable(s, e) && IsPlainValue(e) && IsComputed(w, e)
    ensures EvalSql(w, Meant(s, e), row) == EvalOData(w, s, e, row)
  {
    hide EvalSql, EvalOData, Meant, ValidSchema, FromCatalog;
    PlainValuesAreTyped(e);
    PlainValuesCompareNothing(w, s, e, row);
    ValuesAgree(w, s, e, row);
  }

  lemma IndexOfIsStrpos()
    ensures FindFunction("indexof", 2) == Some("strpos") && ToLower("indexof") == "indexof"
  {
    hide FindFunction;
    assert ToLower("indexof") == "indexof" && |"indexof"| == 7;
    FunctionExact("indexof", 2);
  }

  lemma CallOfTwo(w: World, s: Schema, call: Expr, row: Row)
    requires call.FunctionCall? && |call.args| == 2 && Compilable(s, call)
    ensures EvalSql(w, Meant(s, call), row) ==
            w.call(FindFunction(call.name, 2).value, [EvalSql(w, Meant(s, call.args[0]), row), EvalSql(w, Meant(s, call.args[1]), row)])
    ensures EvalOData(w, s, call, row) ==
            w.canonical(ToLower(call.name), [EvalOData(w, s, call.args[0], row), EvalOData(w, s, call.args[1], row)])
  {
    hide FindFunction;
    var ms := Meant(s, call).args;
    var vs := seq(|ms|, i requires 0 <= i < |ms| => EvalSql(w, ms[i], row));
    assert vs == [EvalSql(w, Meant(s, call.args[0]), row), EvalSql(w, Meant(s, call.args[1]), row)];
    var us := seq(2, i requires 0 <= i < 2 => EvalOData(w, s, call.args[i], row));
    assert us == [EvalOData(w, s, call.args[0], row), EvalOData(w, s, call.args[1], row)];
  }

  lemma NumberOperand(w: World, s: Schema, k: int, call: Expr, row: Row)
    requires call.FunctionCall? && Compilable(s, call)
    ensures MeantOperand(s, Lit(Integer(k)), call) == NumberTree(Show(k)) && MeantOperand(s, call, Lit(Integer(k))) == Meant(s, call)
    ensures EvalOperand(w, s, Lit(Integer(k)), call, row) == Whole(k)
    ensures EvalOperand(w, s, call, Lit(Integer(k)), row) == EvalOData(w, s, call, row)
  {
    hide LiteralType, OperandType, Meant, EvalOData;
  }
}
