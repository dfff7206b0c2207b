/** The canonical functions of OData 4.0 Part 2 (URL Conventions), sections 5.1.1.4 to 5.1.1.8, and what the function table of
    the expression compiler makes of them. */
module CanonicalFunctions {
  import opened Text
  import opened Edm
  import opened FilterGrammar
  import opened ExprCompiler
  import opened ExprMeaning

  /** Fewest and most arguments. */
  function Arity(lower: string): Option<(nat, nat)> {
    if lower == "now" then Some((0, 0))
    else if lower in {"contains", "startswith", "endswith", "concat", "indexof"} then Some((2, 2))
    else if lower == "substring" then Some((2, 3))
    else if lower in {"tolower", "toupper", "trim", "length", "year", "month", "day", "hour", "minute", "second"} then Some((1, 1))
    else if lower in {"round", "floor", "ceiling", "abs"} then Some((1, 1))
    else None
  }

  predicate Takes(lower: string, n: nat) {
    Arity(lower).Some? && Arity(lower).value.0 <= n <= Arity(lower).value.1
  }

  /** The database function a canonical function is rendered as. */
  function Counterpart(lower: string): string {
    if lower == "startswith" then "starts_with"
    else if lower == "endswith" then "ends_with"
    else if lower == "tolower" then "lower"
    else if lower == "toupper" then "upper"
    else if lower == "indexof" then "strpos"
    else if lower == "ceiling" then "ceil"
    else lower
  }

  /** Result types, in the database's spelling. */
  function ResultType(lower: string): string {
    if lower in {"contains", "startswith", "endswith"} then "BOOLEAN"
    else if lower in {"length", "indexof", "year", "month", "day", "hour", "minute", "second"} then "BIGINT"
    else if lower in {"tolower", "toupper", "trim", "substring", "concat"} then "VARCHAR"
    else if lower == "now" then "TIMESTAMP WITH TIME ZONE"
    else "DOUBLE"
  }

  // ----- the compiler's table

  predicate IsListed(f: FunctionEntry) {
    && f.duckdb == Counterpart(f.odata)
    && (if f.odata == "round" then f.minArgs == f.maxArgs == 2 else Arity(f.odata) == Some((f.minArgs, f.maxArgs)))
  }

  lemma TextFunctionsListed()
    ensures forall i | 0 <= i < 10 :: IsListed(FUNCTIONS[i])
  {
    assert |"contains"| == 8 && |"startswith"| == 10 && |"endswith"| == 8 && |"tolower"| == |"toupper"| == 7;
    assert |"length"| == 6 && |"substring"| == 9 && |"concat"| == 6 && |"indexof"| == 7 && |"trim"| == 4;
  }

  lemma TimeAndNumberFunctionsListed()
    ensures forall i | 10 <= i < 21 :: IsListed(FUNCTIONS[i])
  {
    assert |"year"| == 4 && |"month"| == 5 && |"day"| == 3 && |"hour"| == 4 && |"minute"| == |"second"| == 6;
    assert |"now"| == 3 && |"round"| == |"floor"| == 5 && |"ceiling"| == 7 && |"abs"| == 3;
  }

  /** The table is exact: a canonical function is known, with its counterpart, for its own argument counts, and no other name
      is known; only `round`, which has one argument, is known with two. */
  lemma FunctionExact(name: string, n: nat)
    ensures var lower := ToLower(name);
            FindFunction(name, n) ==
            if (if lower == "round" then n == 2 else Takes(lower, n)) then Some(Counterpart(lower)) else None
  {
    hide Arity, Counterpart;
    var lower := ToLower(name);
    TextFunctionsListed();
    TimeAndNumberFunctionsListed();
    var entry := FindEntry(FUNCTIONS, lower);
    if entry.Some? {
      assert IsListed(entry.value);
    } else {
      assert forall i | 0 <= i < 21 :: FUNCTIONS[i] in FUNCTIONS && FUNCTIONS[i].odata != lower;
      UnlistedIsUnknown(lower);
    }
  }

  lemma UnlistedIsUnknown(lower: string)
    requires forall i | 0 <= i < 21 :: FUNCTIONS[i].odata != lower
    ensures Arity(lower).None? && lower != "round"
  {
    assert FUNCTIONS[0].odata != lower && FUNCTIONS[1].odata != lower && FUNCTIONS[2].odata != lower && FUNCTIONS[3].odata != lower;
    assert FUNCTIONS[4].odata != lower && FUNCTIONS[5].odata != lower && FUNCTIONS[6].odata != lower && FUNCTIONS[7].odata != lower;
    assert FUNCTIONS[8].odata != lower && FUNCTIONS[9].odata != lower && FUNCTIONS[10].odata != lower && FUNCTIONS[11].odata != lower;
    assert FUNCTIONS[12].odata != lower && FUNCTIONS[13].odata != lower && FUNCTIONS[14].odata != lower && FUNCTIONS[15].odata != lower;
    assert FUNCTIONS[16].odata != lower && FUNCTIONS[17].odata != lower && FUNCTIONS[18].odata != lower && FUNCTIONS[19].odata != lower;
    assert FUNCTIONS[20].odata != lower;
  }

  /** The call of OData 4.0, and the one known instead. */
  lemma RoundTakesTwo(name: string)
    requires ToLower(name) == "round"
    ensures Takes("round", 1) && FindFunction(name, 1).None? && FindFunction(name, 2) == Some("round")
  {
    hide FindFunction;
    FunctionExact(name, 1);
    FunctionExact(name, 2);
    assert |"round"| == 5;
  }

  // ----- what a filter may name

  /** Every property is one of the table, in any case, and every call is one the table of functions allows. */
  predicate IsKnown(properties: seq<EdmProperty>, e: Expr) {
    match e
    case Property(name) => exists p | p in properties :: SameName(p.name, name)
    case Lit(_) => true
    case Unary(c) => IsKnown(properties, c)
    case Binary(_, l, r) => IsKnown(properties, l) && IsKnown(properties, r)
    case FunctionCall(name, args) =>
      && (if ToLower(name) == "round" then |args| == 2 else Takes(ToLower(name), |args|))
      && forall i | 0 <= i < |args| :: IsKnown(properties, args[i])
  }

  lemma {:induction false} KnownIsCompilable(s: Schema, e: Expr)
    ensures Compilable(s, e) <==> IsKnown(s.entity.properties, e)
  {
    hide FindFunction, Takes;
    match e
    case Property(_) =>
    case Lit(_) =>
    case Unary(c) => KnownIsCompilable(s, c);
    case Binary(_, l, r) => KnownIsCompilable(s, l); KnownIsCompilable(s, r);
    case FunctionCall(name, args) =>
      FunctionExact(name, |args|);
      forall i | 0 <= i < |args| ensures Compilable(s, args[i]) <==> IsKnown(s.entity.properties, args[i]) {
        KnownIsCompilable(s, args[i]);
      }
  }

  /** A filter compiles if and only if every name in it is known. */
  lemma CompilesExactly(s: Schema, e: Expr)
    ensures Compile(s, e).Ok? <==> IsKnown(s.entity.properties, e)
  {
    KnownIsCompilable(s, e);
    CompileSucceeds(s, e);
  }
}
