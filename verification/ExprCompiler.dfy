/** The expression compiler: filter expressions to SQL text (src/compiler/expression_compiler.cpp). */
module ExprCompiler {
  import opened Text
  import opened Decimal
  import opened FilterLexer
  import opened FilterGrammar
  import opened Edm

  datatype FunctionEntry = FunctionEntry(odata: string, duckdb: string, minArgs: nat, maxArgs: nat)

  const FUNCTIONS: seq<FunctionEntry> := [
    FunctionEntry("contains", "contains", 2, 2), FunctionEntry("startswith", "starts_with", 2, 2),
    FunctionEntry("endswith", "ends_with", 2, 2), FunctionEntry("tolower", "lower", 1, 1),
    FunctionEntry("toupper", "upper", 1, 1), FunctionEntry("length", "length", 1, 1),
    FunctionEntry("substring", "substring", 2, 3), FunctionEntry("concat", "concat", 2, 2),
    FunctionEntry("indexof", "strpos", 2, 2), FunctionEntry("trim", "trim", 1, 1),
    FunctionEntry("year", "year", 1, 1), FunctionEntry("month", "month", 1, 1),
    FunctionEntry("day", "day", 1, 1), FunctionEntry("hour", "hour", 1, 1),
    FunctionEntry("minute", "minute", 1, 1), FunctionEntry("second", "second", 1, 1),
    FunctionEntry("now", "now", 0, 0), FunctionEntry("round", "round", 2, 2),
    FunctionEntry("floor", "floor", 1, 1), FunctionEntry("ceiling", "ceil", 1, 1),
    FunctionEntry("abs", "abs", 1, 1)]

  function FindEntry(entries: seq<FunctionEntry>, lower: string): (r: Option<FunctionEntry>)
    ensures r.Some? ==> r.value in entries && r.value.odata == lower
    ensures r.None? ==> forall f | f in entries :: f.odata != lower
  {
    if entries == [] then None
    else if entries[0].odata == lower then Some(entries[0])
    else FindEntry(entries[1..], lower)
  }

  /** The table lookup of CompileFunction, argument count included. */
  function FindFunction(name: string, argCount: nat): (r: Option<string>) {
    var entry := FindEntry(FUNCTIONS, ToLower(name));
    if entry.Some? && entry.value.minArgs <= argCount <= entry.value.maxArgs then Some(entry.value.duckdb) else None
  }

  /** What the compiler knows: the entity, and how std::to_string renders a float literal (opaque here). */
  datatype Schema = Schema(entity: EdmEntity, floatText: string -> string)

  /** The constructor's index: lower-cased name to property, later properties winning. */
  function PropertyIndex(properties: seq<EdmProperty>): (m: map<string, EdmProperty>)
    ensures forall k | k in m :: m[k] in properties && ToLower(m[k].name) == k
    ensures forall p | p in properties :: ToLower(p.name) in m
  {
    if properties == [] then map[]
    else
      var last := properties[|properties| - 1];
      PropertyIndex(properties[..|properties| - 1])[ToLower(last.name) := last]
  }

  function FindProperty(s: Schema, name: string): (r: Option<EdmProperty>)
    ensures r.Some? ==> r.value in s.entity.properties && SameName(r.value.name, name)
    ensures r.None? <==> forall p | p in s.entity.properties :: !SameName(p.name, name)
  {
    var index := PropertyIndex(s.entity.properties);
    if ToLower(name) in index then Some(index[ToLower(name)]) else None
  }

  predicate IsStringBase(lower: string) {
    lower in {"varchar", "text", "string", "char", "bpchar", "uuid", "blob", "json", "bit", "bitstring"}
  }

  predicate IsNullLit(e: Expr) {
    e == Lit(Null)
  }

  /** ResolveLiteralType: the DuckDB type a literal compared with `other` is written for; "" when unknown. */
  function LiteralType(s: Schema, other: Expr): string {
    match other
    case Property(name) =>
      var p := FindProperty(s, name);
      if p.Some? && p.value.edmType != UNSUPPORTED then p.value.duckdbType else ""
    case FunctionCall(name, _) =>
      var lower := ToLower(name);
      if lower in {"year", "month", "day", "hour", "minute", "second", "length", "indexof"} then "BIGINT"
      else if lower in {"tolower", "toupper", "trim", "substring", "concat"} then "VARCHAR"
      else "BOOLEAN"
    case _ => ""
  }

  function CompileLiteral(s: Schema, v: Literal, targetType: string): string {
    match v
    case Null => "NULL"
    case Boolean(b) => if b then "TRUE" else "FALSE"
    case Integer(n) => Show(n)
    case Float(lexeme) => s.floatText(lexeme)
    case Str(str) =>
      var base := BaseTypeOf(targetType);
      if base == "" || IsStringBase(base) then Quoted('\'', str)
      else "CAST(" + Quoted('\'', str) + " AS " + targetType + ")"
  }

  function OpText(op: BinaryOp): string {
    match op
    case Cmp(EQ) => "="
    case Cmp(NE) => "<>"
    case Cmp(GT) => ">"
    case Cmp(GE) => ">="
    case Cmp(LT) => "<"
    case Cmp(LE) => "<="
    case AND => "AND"
    case OR => "OR"
  }

  predicate IsEquality(op: BinaryOp) {
    op == Cmp(EQ) || op == Cmp(NE)
  }

  /** `x eq null`, `x ne null` and their mirror images, x not itself a literal: the operand tested. */
  function NullTested(e: Expr): Option<Expr>
    requires e.Binary?
  {
    if IsNullLit(e.left) && !e.right.Lit? && IsEquality(e.op) then Some(e.right)
    else if IsNullLit(e.right) && !e.left.Lit? && IsEquality(e.op) then Some(e.left)
    else None
  }

  /** SQL text of an expression, or a semantic error. */
  function Compile(s: Schema, e: Expr): Result<string>
    decreases e, 1
  {
    match e
    case Property(name) =>
      var p := FindProperty(s, name);
      if p.Some? then Ok(Quoted('"', p.value.name)) else Err(Semantic)
    case Lit(v) => Ok(CompileLiteral(s, v, ""))
    case Unary(c) =>
      (match Compile(s, c)
       case Err(x) => Err(x)
       case Ok(t) => Ok("(NOT " + t + ")"))
    case Binary(op, l, r) =>
      (match NullTested(e)
       case Some(x) =>
         (match Compile(s, x)
          case Err(x) => Err(x)
          case Ok(t) => Ok(t + (if op == Cmp(EQ) then " IS NULL" else " IS NOT NULL")))
       case None =>
         (match CompileOperand(s, l, r)
          case Err(x) => Err(x)
          case Ok(lhs) =>
            match CompileOperand(s, r, l)
            case Err(x) => Err(x)
            case Ok(rhs) =>
              if op.Cmp? then Ok(lhs + " " + OpText(op) + " " + rhs)
              else Ok("(" + lhs + " " + OpText(op) + " " + rhs + ")")))
    case FunctionCall(name, args) =>
      var f := FindFunction(name, |args|);
      if f.None? then Err(Semantic)
      else
        match CompileArgs(s, args)
        case Err(x) => Err(x)
        case Ok(t) => Ok(f.value + "(" + t + ")")
  }

  /** A literal facing a non-literal is written for the other side's type. */
  function CompileOperand(s: Schema, e: Expr, other: Expr): Result<string>
    decreases e, 2
  {
    if e.Lit? && !other.Lit? then Ok(CompileLiteral(s, e.value, LiteralType(s, other))) else Compile(s, e)
  }

  function CompileArgs(s: Schema, args: seq<Expr>): Result<string>
    decreases args, 0
  {
    if args == [] then Ok("")
    else
      match Compile(s, args[0])
      case Err(x) => Err(x)
      case Ok(t) =>
        match CompileArgs(s, args[1..])
        case Err(x) => Err(x)
        case Ok(ts) => Ok(if |args| == 1 then t else t + ", " + ts)
  }

  /** The compiler object: its constructor fills the index, its methods return text. */
  class ExpressionCompiler {
    const schema: Schema
    var index: map<string, EdmProperty>

    ghost predicate Valid()
      reads this
    {
      index == PropertyIndex(schema.entity.properties)
    }

    constructor (schema: Schema)
      ensures Valid() && this.schema == schema
    {
      this.schema := schema;
      index := map[];
      new;
      var properties := schema.entity.properties;
      for i := 0 to |properties|
        invariant index == PropertyIndex(properties[..i])
      {
        assert properties[..i + 1][..i] == properties[..i];
        index := index[ToLower(properties[i].name) := properties[i]];
      }
      assert properties[..|properties|] == properties;
    }

    method CompileExpr(e: Expr) returns (r: Result<string>)
      requires Valid()
      ensures r == Compile(schema, e)
      decreases e, 2
    {
      match e
      case Property(name) =>
        if ToLower(name) !in index {
          return Err(Semantic);
        }
        var text := Quote('"', index[ToLower(name)].name);
        return Ok(text);
      case Lit(v) =>
        return Ok(CompileLiteral(schema, v, ""));
      case Unary(c) =>
        var child := CompileExpr(c);
        return if child.Ok? then Ok("(NOT " + child.value + ")") else child;
      case Binary(_, _, _) =>
        r := CompileBinary(e);
      case FunctionCall(_, _) =>
        r := CompileFunction(e);
    }

    method CompileBinary(e: Expr) returns (r: Result<string>)
      requires Valid() && e.Binary?
      ensures r == Compile(schema, e)
      decreases e, 1
    {
      var tested := NullTested(e);
      if tested.Some? {
        var text := CompileExpr(tested.value);
        if text.Err? {
          return text;
        }
        return Ok(text.value + (if e.op == Cmp(EQ) then " IS NULL" else " IS NOT NULL"));
      }
      var lhs: Result<string>, rhs: Result<string>;
      if e.left.Lit? && !e.right.Lit? {
        lhs := Ok(CompileLiteral(schema, e.left.value, LiteralType(schema, e.right)));
      } else {
        lhs := CompileExpr(e.left);
      }
      if lhs.Err? {
        return lhs;
      }
      if e.right.Lit? && !e.left.Lit? {
        rhs := Ok(CompileLiteral(schema, e.right.value, LiteralType(schema, e.left)));
      } else {
        rhs := CompileExpr(e.right);
      }
      if rhs.Err? {
        return rhs;
      }
      if e.op.Cmp? {
        return Ok(lhs.value + " " + OpText(e.op) + " " + rhs.value);
      }
      return Ok("(" + lhs.value + " " + OpText(e.op) + " " + rhs.value + ")");
    }

    method CompileFunction(e: Expr) returns (r: Result<string>)
      requires Valid() && e.FunctionCall?
      ensures r == Compile(schema, e)
      decreases e, 1
    {
      hide FindFunction;
      var f := FindFunction(e.name, |e.args|);
      if f.None? {
        return Err(Semantic);
      }
      var text, first := f.value + "(", true;
      ghost var all := CompileArgs(schema, e.args);
      assert e.args[0..] == e.args;
      for i := 0 to |e.args|
        invariant first <==> i == 0
        invariant ArgsFrom(schema, text, e.args, i) == if all.Err? then all else Ok(f.value + "(" + all.value)
      {
        ArgsFromStep(schema, text, e.args, i);
        if !first {
          text := text + ", ";
        }
        first := false;
        var arg := CompileExpr(e.args[i]);
        if arg.Err? {
          return arg;
        }
        text := text + arg.value;
      }
      assert text + "" == text;
      return Ok(text + ")");
    }
  }

  /** The argument text once the first `i` arguments have been appended to `text`. */
  ghost function ArgsFrom(s: Schema, text: string, args: seq<Expr>, i: nat): Result<string>
    requires i <= |args|
  {
    match CompileArgs(s, args[i..])
    case Err(x) => Err(x)
    case Ok(t) => Ok(if i == 0 || i == |args| then text + t else text + ", " + t)
  }

  lemma ArgsFromStep(s: Schema, text: string, args: seq<Expr>, i: nat)
    requires i < |args|
    ensures ArgsFrom(s, text, args, i) ==
      match Compile(s, args[i])
      case Err(x) => Err(x)
      case Ok(t) => ArgsFrom(s, (if i == 0 then text else text + ", ") + t, args, i + 1)
  {
    assert args[i..][1..] == args[i + 1..];
    var first, rest := Compile(s, args[i]), CompileArgs(s, args[i + 1..]);
    if first.Ok? && rest.Ok? {
      var prefix := if i == 0 then text else text + ", ";
      assert prefix + (first.value + ", " + rest.value) == prefix + first.value + ", " + rest.value;
      assert prefix + first.value + "" == prefix + first.value;
    }
  }
}
