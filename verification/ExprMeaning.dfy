/** What the expression compiler's text is, token by token, and when SQL reads it as the tree that was meant. */
module ExprMeaning {
  import opened Text
  import opened Decimal
  import opened FilterLexer
  import opened FilterGrammar
  import opened Edm
  import opened ExprCompiler
  import opened SqlLexer
  import G = SqlGrammar
  import P = SqlParsing

  // ----- assumptions on what the catalog and std::to_string supply

  /** A type name as the catalog reports it lexes to tokens with balanced parentheses. */
  predicate IsTypeText(t: string) {
    LexSql(t).Some? && G.IsTypeName(LexSql(t).value)
  }

  /** Optional sign, digits, a point, digits: what std::to_string(double) writes. */
  predicate IsFixedPoint(t: string) {
    var u := Unsigned(t);
    u != "" && IsDigit(u[0]) && forall i | 0 <= i < |u| :: IsNumberChar(u[i])
  }

  function Unsigned(t: string): string {
    if t != "" && t[0] == '-' then t[1..] else t
  }

  ghost predicate ValidSchema(s: Schema) {
    && (forall p | p in s.entity.properties :: IsTypeText(p.duckdbType))
    && (forall lexeme :: IsFixedPoint(s.floatText(lexeme)))
  }

  // ----- the tree that is meant

  /** Every property and function of the expression is known: exactly what Compile accepts. */
  predicate Compilable(s: Schema, e: Expr) {
    match e
    case Property(name) => FindProperty(s, name).Some?
    case Lit(_) => true
    case Unary(c) => Compilable(s, c)
    case Binary(_, l, r) => Compilable(s, l) && Compilable(s, r)
    case FunctionCall(name, args) =>
      FindFunction(name, |args|).Some? && forall i | 0 <= i < |args| :: Compilable(s, args[i])
  }

  function TypeTokens(t: string): seq<Tok> {
    if LexSql(t).Some? then LexSql(t).value else []
  }

  function NumberTree(text: string): G.Sql {
    if text != "" && text[0] == '-' then G.Negative(text[1..]) else G.Atom(Num(text))
  }

  function LiteralTree(s: Schema, v: Literal, targetType: string): G.Sql {
    match v
    case Null => G.Atom(Kw(NULL))
    case Boolean(b) => G.Atom(Kw(if b then TRUE else FALSE))
    case Integer(n) => NumberTree(Show(n))
    case Float(lexeme) => NumberTree(s.floatText(lexeme))
    case Str(str) =>
      var base := BaseTypeOf(targetType);
      if base == "" || IsStringBase(base) then G.Atom(Chars(str)) else G.CastTo(G.Atom(Chars(str)), TypeTokens(targetType))
  }

  /** The node of a binary operator around two operand trees, parenthesized as the compiler does it. */
  function BinaryTree(op: BinaryOp, l: G.Sql, r: G.Sql): G.Sql {
    match op
    case Cmp(c) => G.Comparison(c, l, r)
    case AND => G.Paren(G.Conj(l, r))
    case OR => G.Paren(G.Disj(l, r))
  }

  /** The SQL tree a filter expression is meant to become, the parentheses the compiler writes included. */
  function Meant(s: Schema, e: Expr): G.Sql
    requires Compilable(s, e)
    decreases e, 1
  {
    match e
    case Property(name) => G.Atom(Name(FindProperty(s, name).value.name))
    case Lit(v) => LiteralTree(s, v, "")
    case Unary(c) => G.Paren(G.Negation(Meant(s, c)))
    case Binary(op, l, r) =>
      if NullTested(e).Some? then G.NullTest(Meant(s, if IsNullLit(l) then r else l), op == Cmp(NE))
      else BinaryTree(op, MeantOperand(s, l, r), MeantOperand(s, r, l))
    case FunctionCall(name, args) =>
      G.Invoke(FindFunction(name, |args|).value, seq(|args|, i requires 0 <= i < |args| => Meant(s, args[i])))
  }

  function MeantOperand(s: Schema, e: Expr, other: Expr): G.Sql
    requires Compilable(s, e)
    decreases e, 2
  {
    if e.Lit? && !other.Lit? then LiteralTree(s, e.value, LiteralType(s, other)) else Meant(s, e)
  }

  lemma {:induction false} CompileSucceeds(s: Schema, e: Expr)
    ensures Compile(s, e).Ok? <==> Compilable(s, e)
    ensures Compile(s, e).Err? ==> Compile(s, e) == Err(Semantic)
    decreases e, 1
  {
    hide FindFunction, FindProperty;
    match e
    case Unary(c) => CompileSucceeds(s, c);
    case Binary(_, l, r) => CompileSucceeds(s, l); CompileSucceeds(s, r);
    case FunctionCall(name, args) => CompileArgsSucceeds(s, args);
    case _ =>
  }

  lemma {:induction false} CompileArgsSucceeds(s: Schema, args: seq<Expr>)
    ensures CompileArgs(s, args).Ok? <==> forall i | 0 <= i < |args| :: Compilable(s, args[i])
    ensures CompileArgs(s, args).Err? ==> CompileArgs(s, args) == Err(Semantic)
    decreases args, 0
  {
    if args != [] {
      CompileSucceeds(s, args[0]);
      CompileArgsSucceeds(s, args[1..]);
      assert forall i | 0 < i < |args| :: args[i] == args[1..][i - 1];
    }
  }

  // ----- the emitted text lexes to the tokens of that tree

  lemma LexNot()
    ensures Lexes("(NOT ", [LP, Kw(NOT)])
  {
    hide Lexes;
    LexSymbol('(');
    LexKeyword(NOT);
    LexCat("(", [LP], "NOT", [Kw(NOT)]);
    assert "(" + "NOT" == "(NOT" && [LP] + [Kw(NOT)] == [LP, Kw(NOT)];
    LexSpaceAfter("(NOT", [LP, Kw(NOT)]);
    assert "(NOT" + " " == "(NOT ";
  }

  lemma LexCast()
    ensures Lexes("CAST(", [Kw(CAST), LP])
  {
    hide Lexes;
    LexKeyword(CAST);
    LexSymbol('(');
    LexCat("CAST", [Kw(CAST)], "(", [LP]);
    assert "CAST" + "(" == "CAST(" && [Kw(CAST)] + [LP] == [Kw(CAST), LP];
  }

  /** A keyword with a space on both sides. */
  lemma LexInfixKeyword(k: Keyword)
    ensures Lexes(" " + KeywordText(k) + " ", [Kw(k)])
  {
    hide Lexes;
    LexKeyword(k);
    LexSpaceBefore(KeywordText(k), [Kw(k)]);
    LexSpaceAfter(" " + KeywordText(k), [Kw(k)]);
  }

  lemma LexIsNull(negated: bool)
    ensures Lexes(if negated then " IS NOT NULL" else " IS NULL",
                  if negated then [Kw(IS), Kw(NOT), Kw(NULL)] else [Kw(IS), Kw(NULL)])
  {
    hide Lexes;
    LexInfixKeyword(IS);
    LexKeyword(NULL);
    if negated {
      LexKeyword(NOT);
      LexCat(" " + KeywordText(IS) + " ", [Kw(IS)], "NOT", [Kw(NOT)]);
      LexSpaceBefore("NULL", [Kw(NULL)]);
      LexCat(" " + KeywordText(IS) + " " + "NOT", [Kw(IS)] + [Kw(NOT)], " " + "NULL", [Kw(NULL)]);
      assert " " + KeywordText(IS) + " " + "NOT" + (" " + "NULL") == " IS NOT NULL";
      assert [Kw(IS)] + [Kw(NOT)] + [Kw(NULL)] == [Kw(IS), Kw(NOT), Kw(NULL)];
    } else {
      LexCat(" " + KeywordText(IS) + " ", [Kw(IS)], "NULL", [Kw(NULL)]);
      assert " " + KeywordText(IS) + " " + "NULL" == " IS NULL";
      assert [Kw(IS)] + [Kw(NULL)] == [Kw(IS), Kw(NULL)];
    }
  }

  function OpTok(op: BinaryOp): Tok {
    match op
    case Cmp(c) => Op(c)
    case AND => Kw(SqlLexer.AND)
    case OR => Kw(SqlLexer.OR)
  }

  lemma LexOp(op: BinaryOp)
    ensures Lexes(" " + OpText(op) + " ", [OpTok(op)])
  {
    var t := OpText(op);
    match op
    case AND => LexInfixKeyword(SqlLexer.AND);
    case OR => LexInfixKeyword(SqlLexer.OR);
    case Cmp(c) =>
      assert t[|t|..] == "" && t[1..] == (if |t| == 1 then "" else t[1..]);
      LexOne(t, Op(c));
      LexSpaceBefore(t, [Op(c)]);
      LexSpaceAfter(" " + t, [Op(c)]);
  }

  lemma LexNumberText(t: string)
    requires IsFixedPoint(t)
    ensures Lexes(t, G.Yield(NumberTree(t)))
  {
    if t[0] == '-' {
      LexNumber(t[1..]);
      assert t[1] == t[1..][0];
      assert HeadTok(t) == Some((Minus, t[1..]));
      assert [Minus] + [Num(t[1..])] == [Minus, Num(t[1..])];
    } else {
      LexNumber(t);
    }
  }

  lemma ShowIsFixedPoint(n: int)
    ensures IsFixedPoint(Show(n))
  {
    if n < 0 {
      assert Show(n)[1..] == Digits(-n);
    } else {
      assert IsDigit(Digits(n)[0]);
    }
  }

  lemma LiteralLexes(s: Schema, v: Literal, targetType: string)
    requires ValidSchema(s) && (targetType == "" || IsTypeText(targetType))
    ensures Lexes(CompileLiteral(s, v, targetType), G.Yield(LiteralTree(s, v, targetType)))
  {
    hide BaseTypeOf, IsStringBase;
    match v
    case Null => LexKeyword(NULL);
    case Boolean(b) => LexKeyword(if b then TRUE else FALSE);
    case Integer(n) => ShowIsFixedPoint(n); LexNumberText(Show(n));
    case Float(lexeme) => LexNumberText(s.floatText(lexeme));
    case Str(str) => TextLiteralLexes(s, str, targetType);
  }

  lemma TextLiteralLexes(s: Schema, str: string, targetType: string)
    requires targetType == "" || IsTypeText(targetType)
    ensures Lexes(CompileLiteral(s, Str(str), targetType), G.Yield(LiteralTree(s, Str(str), targetType)))
  {
    hide BaseTypeOf, IsStringBase, Lexes, IsTypeText;
    LexQuotedChars(str);
    if targetType == "" {
      EmptyBase();
    } else {
      CastLexes(str, targetType);
    }
  }

  lemma EmptyBase()
    ensures BaseTypeOf("") == ""
  {
    TrimKeeps(IsSpace, "");
  }

  lemma TypeLexes(t: string)
    requires IsTypeText(t)
    ensures Lexes(t, TypeTokens(t))
  {
  }

  lemma CastLexes(str: string, targetType: string)
    requires IsTypeText(targetType)
    ensures Lexes("CAST(" + Quoted('\'', str) + " AS " + targetType + ")",
                  G.Yield(G.CastTo(G.Atom(Chars(str)), TypeTokens(targetType))))
  {
    LexQuotedChars(str);
    CastOfLexes(Quoted('\'', str), [Chars(str)], targetType);
  }

  /** A cast of any text to a type. */
  lemma CastOfLexes(arg: string, ts: seq<Tok>, t: string)
    requires Lexes(arg, ts) && IsTypeText(t)
    ensures Lexes("CAST(" + arg + " AS " + t + ")", [Kw(CAST), LP] + ts + [Kw(AS)] + TypeTokens(t) + [RP])
  {
    TypeLexes(t);
    hide Lexes, IsTypeText, TypeTokens, Boundary;
    var ty := TypeTokens(t);
    CastAsLexes(arg, ts);
    TypeCloses(t, ty);
    SpaceEnds("CAST(" + arg + " AS", t + ")");
    assert "CAST(" + arg + " AS" + " " == "CAST(" + arg + " AS ";
    LexCat("CAST(" + arg + " AS ", [Kw(CAST), LP] + ts + [Kw(AS)], t + ")", ty + [RP]);
    assert "CAST(" + arg + " AS " + (t + ")") == "CAST(" + arg + " AS " + t + ")";
    assert [Kw(CAST), LP] + ts + [Kw(AS)] + (ty + [RP]) == [Kw(CAST), LP] + ts + [Kw(AS)] + ty + [RP];
  }

  lemma SpaceEnds(a: string, b: string)
    ensures Boundary(a + " ", b)
  {
    assert (a + " ")[|a|] == ' ';
  }

  /** The head of a cast, up to the space before the type. */
  lemma CastAsLexes(arg: string, ts: seq<Tok>)
    requires Lexes(arg, ts)
    ensures Lexes("CAST(" + arg + " AS ", [Kw(CAST), LP] + ts + [Kw(AS)])
  {
    hide Lexes;
    LexCast();
    LexCat("CAST(", [Kw(CAST), LP], arg, ts);
    LexInfixKeyword(AS);
    assert " " + KeywordText(AS) + " " == " AS ";
    LexCat("CAST(" + arg, [Kw(CAST), LP] + ts, " AS ", [Kw(AS)]);
  }

  lemma TypeCloses(t: string, ty: seq<Tok>)
    requires Lexes(t, ty)
    ensures Lexes(t + ")", ty + [RP])
  {
    hide Lexes;
    LexSymbol(')');
    LexCat(t, ty, ")", [RP]);
  }

  lemma FunctionNamesAreWords()
    ensures forall f | f in FUNCTIONS :: IsFunctionWord(f.duckdb)
  {
    forall i | 0 <= i < |FUNCTIONS| ensures IsFunctionWord(FUNCTIONS[i].duckdb) {
      FunctionNameIsWord(i);
    }
  }

  predicate IsFunctionWord(w: string) {
    w != "" && 'a' <= w[0] <= 'z' && forall i | 0 <= i < |w| :: IsWordChar(w[i])
  }

  lemma FunctionNameIsWord(i: nat)
    requires i < |FUNCTIONS|
    ensures IsFunctionWord(FUNCTIONS[i].duckdb)
  {
  }

  lemma TypeOfLiteralIsText(s: Schema, other: Expr)
    requires ValidSchema(s)
    ensures LiteralType(s, other) == "" || IsTypeText(LiteralType(s, other))
  {
    ConstantTypes();
  }

  lemma ConstantTypes()
    ensures IsTypeText("BIGINT") && IsTypeText("VARCHAR") && IsTypeText("BOOLEAN")
  {
    hide IsTypeText;
    ConstantType("BIGINT");
    ConstantType("VARCHAR");
    ConstantType("BOOLEAN");
  }

  lemma ConstantType(t: string)
    requires |t| >= 6 && IsWordStart(t[0]) && (forall i | 0 <= i < |t| :: IsWordChar(t[i]))
    ensures IsTypeText(t)
  {
    LexWord(t);
    WordIsTypeName(WordTok(t));
  }

  lemma WordIsTypeName(t: Tok)
    requires t != LP && t != RP
    ensures G.IsTypeName([t])
  {
    assert ([t] + [RP])[1..] == [RP];
    assert G.ScanType([RP], 0) == Some(([], [RP]));
    assert [t] + [] == [t];
  }

  lemma InfixLexes(a: string, ta: seq<Tok>, op: BinaryOp, b: string, tb: seq<Tok>)
    requires Lexes(a, ta) && Lexes(b, tb)
    ensures Lexes(a + " " + OpText(op) + " " + b, ta + [OpTok(op)] + tb)
  {
    hide Lexes;
    LexOp(op);
    LexCat(a, ta, " " + OpText(op) + " ", [OpTok(op)]);
    LexCat(a + (" " + OpText(op) + " "), ta + [OpTok(op)], b, tb);
    assert a + (" " + OpText(op) + " ") + b == a + " " + OpText(op) + " " + b;
  }

  lemma ParenLexes(a: string, ta: seq<Tok>)
    requires Lexes(a, ta)
    ensures Lexes("(" + a + ")", [LP] + ta + [RP])
  {
    hide Lexes;
    LexSymbol('(');
    LexSymbol(')');
    LexCat("(", [LP], a, ta);
    LexCat("(" + a, [LP] + ta, ")", [RP]);
  }

  /** The text of every compilable expression lexes to exactly the tokens of the tree that was meant:
      no name or literal, whatever its bytes, bleeds into what surrounds it. */
  lemma {:induction false} CompileLexes(s: Schema, e: Expr)
    requires ValidSchema(s) && Compilable(s, e) && Compile(s, e).Ok?
    ensures Lexes(Compile(s, e).value, G.Yield(Meant(s, e)))
    decreases e, 1
  {
    hide FindFunction, FindProperty, CompileLiteral, LiteralTree, LiteralType, LexSql;
    match e
    case Property(name) => LexQuotedName(FindProperty(s, name).value.name);
    case Lit(v) => LiteralLexes(s, v, "");
    case Unary(c) =>
      CompileLexes(s, c);
      NotLexes(Compile(s, c).value, Meant(s, c));
    case Binary(_, _, _) =>
      if NullTested(e).Some? {
        NullTestLexes(s, e);
      } else {
        BinaryLexes(s, e);
      }
    case FunctionCall(_, _) => FunctionLexes(s, e);
  }

  lemma NotLexes(t: string, e: G.Sql)
    requires Lexes(t, G.Yield(e))
    ensures Lexes("(NOT " + t + ")", G.Yield(G.Paren(G.Negation(e))))
  {
    hide Lexes;
    LexNot();
    LexSymbol(')');
    LexCat("(NOT ", [LP, Kw(NOT)], t, G.Yield(e));
    LexCat("(NOT " + t, [LP, Kw(NOT)] + G.Yield(e), ")", [RP]);
    assert [LP] + ([Kw(NOT)] + G.Yield(e)) + [RP] == [LP, Kw(NOT)] + G.Yield(e) + [RP];
  }

  lemma {:induction false} NullTestLexes(s: Schema, e: Expr)
    requires ValidSchema(s) && Compilable(s, e) && Compile(s, e).Ok?
    requires e.Binary? && NullTested(e).Some?
    ensures Lexes(Compile(s, e).value, G.Yield(Meant(s, e)))
    decreases e, 0
  {
    hide Lexes, FindFunction, FindProperty;
    var x := NullTested(e).value;
    CompileLexes(s, x);
    LexIsNull(e.op == Cmp(NE));
    LexCat(Compile(s, x).value, G.Yield(Meant(s, x)), if e.op == Cmp(NE) then " IS NOT NULL" else " IS NULL",
           if e.op == Cmp(NE) then [Kw(IS), Kw(NOT), Kw(NULL)] else [Kw(IS), Kw(NULL)]);
  }

  lemma {:induction false} OperandLexes(s: Schema, e: Expr, other: Expr)
    requires ValidSchema(s) && Compilable(s, e) && CompileOperand(s, e, other).Ok?
    ensures Lexes(CompileOperand(s, e, other).value, G.Yield(MeantOperand(s, e, other)))
    decreases e, 2
  {
    if e.Lit? && !other.Lit? {
      TypeOfLiteralIsText(s, other);
      LiteralLexes(s, e.value, LiteralType(s, other));
    } else {
      CompileLexes(s, e);
    }
  }

  lemma BinaryTreeLexes(op: BinaryOp, a: string, l: G.Sql, b: string, r: G.Sql)
    requires Lexes(a, G.Yield(l)) && Lexes(b, G.Yield(r))
    ensures var t := a + " " + OpText(op) + " " + b;
            Lexes(if op.Cmp? then t else "(" + t + ")", G.Yield(BinaryTree(op, l, r)))
  {
    hide Lexes, OpText;
    InfixLexes(a, G.Yield(l), op, b, G.Yield(r));
    ParenLexes(a + " " + OpText(op) + " " + b, G.Yield(l) + [OpTok(op)] + G.Yield(r));
  }

  lemma {:induction false} BinaryLexes(s: Schema, e: Expr)
    requires ValidSchema(s) && Compilable(s, e) && Compile(s, e).Ok?
    requires e.Binary? && NullTested(e).None?
    ensures Lexes(Compile(s, e).value, G.Yield(Meant(s, e)))
    decreases e, 0
  {
    hide Lexes, OpText, CompileOperand, MeantOperand, BinaryTree, ValidSchema;
    OperandLexes(s, e.left, e.right);
    OperandLexes(s, e.right, e.left);
    var l, r := CompileOperand(s, e.left, e.right).value, CompileOperand(s, e.right, e.left).value;
    BinaryTreeLexes(e.op, l, MeantOperand(s, e.left, e.right), r, MeantOperand(s, e.right, e.left));
    assert "(" + (l + " " + OpText(e.op) + " " + r) + ")" == "(" + l + " " + OpText(e.op) + " " + r + ")";
  }

  function MeantArgs(s: Schema, args: seq<Expr>): seq<G.Sql>
    requires forall i | 0 <= i < |args| :: Compilable(s, args[i])
  {
    seq(|args|, i requires 0 <= i < |args| => Meant(s, args[i]))
  }

  lemma {:induction false} FunctionLexes(s: Schema, e: Expr)
    requires ValidSchema(s) && Compilable(s, e) && Compile(s, e).Ok?
    requires e.FunctionCall?
    ensures Lexes(Compile(s, e).value, G.Yield(Meant(s, e)))
    decreases e, 0
  {
    hide Lexes, FindEntry, CompileArgs;
    var f := FindFunction(e.name, |e.args|).value;
    FunctionNamesAreWords();
    ArgsLex(s, e.args);
    assert Meant(s, e) == G.Invoke(f, MeantArgs(s, e.args));
    InvokeLexes(f, CompileArgs(s, e.args).value, MeantArgs(s, e.args));
  }

  lemma InvokeLexes(f: string, t: string, args: seq<G.Sql>)
    requires IsFunctionWord(f) && Lexes(t + ")", G.YieldArgs(args))
    ensures Lexes(f + "(" + t + ")", G.Yield(G.Invoke(f, args)))
  {
    hide Lexes;
    LexWord(f);
    WordTokLower(f);
    LexSymbol('(');
    LexCat(f, [Word(f)], "(", [LP]);
    LexCat(f + "(", [Word(f)] + [LP], t + ")", G.YieldArgs(args));
    assert f + "(" + (t + ")") == f + "(" + t + ")";
    assert [Word(f)] + [LP] == [Word(f), LP];
  }

  lemma {:induction false} ArgsLex(s: Schema, args: seq<Expr>)
    requires ValidSchema(s) && (forall i | 0 <= i < |args| :: Compilable(s, args[i])) && CompileArgs(s, args).Ok?
    ensures Lexes(CompileArgs(s, args).value + ")", G.YieldArgs(MeantArgs(s, args)))
    decreases args, 0
  {
    hide Lexes, FindFunction, FindProperty;
    LexSymbol(')');
    if args == [] {
      assert "" + ")" == ")";
    } else {
      var first, ms := Compile(s, args[0]).value, MeantArgs(s, args);
      CompileLexes(s, args[0]);
      if |args| == 1 {
        LexCat(first, G.Yield(ms[0]), ")", [RP]);
      } else {
        ArgsLex(s, args[1..]);
        assert ms[1..] == MeantArgs(s, args[1..]);
        CommaLexes(first, G.Yield(ms[0]), CompileArgs(s, args[1..]).value, G.YieldArgs(ms[1..]));
      }
    }
  }

  lemma CommaLexes(a: string, ta: seq<Tok>, b: string, tb: seq<Tok>)
    requires Lexes(a, ta) && Lexes(b + ")", tb)
    ensures Lexes(a + ", " + b + ")", ta + [Sep] + tb)
  {
    hide Lexes;
    LexSymbol(',');
    LexSpaceAfter(",", [Sep]);
    assert "," + " " == ", ";
    LexCat(a, ta, ", ", [Sep]);
    LexCat(a + ", ", ta + [Sep], b + ")", tb);
    assert a + ", " + (b + ")") == a + ", " + b + ")";
  }

  // ----- exactly when SQL reads the text back as that tree

  predicate IsComparison(e: Expr) {
    e.Binary? && e.op.Cmp?
  }

  /** No comparison other than a null test has a comparison on its left, nor any comparison on its right:
      comparisons are written without parentheses. */
  predicate Flat(e: Expr) {
    match e
    case Unary(c) => Flat(c)
    case Binary(op, l, r) =>
      && Flat(l) && Flat(r)
      && (IsComparison(e) && NullTested(e).None? ==>
            !IsComparison(r) && (IsComparison(l) ==> NullTested(l).Some?))
    case FunctionCall(_, args) => forall i | 0 <= i < |args| :: Flat(args[i])
    case _ => true
  }

  lemma LiteralTreeIsPrimary(s: Schema, v: Literal, targetType: string)
    requires targetType == "" || IsTypeText(targetType)
    ensures G.WellFormed(LiteralTree(s, v, targetType)) && G.Level(LiteralTree(s, v, targetType)) == 4
  {
    EmptyBase();
  }

  lemma MeantLevel(s: Schema, e: Expr)
    requires ValidSchema(s) && Compilable(s, e)
    ensures G.Level(Meant(s, e)) == if IsComparison(e) then 3 else 4
    ensures Meant(s, e).NullTest? <==> IsComparison(e) && NullTested(e).Some?
  {
    hide FindProperty, FindFunction, LiteralType, IsStringBase, BaseTypeOf;
    if e.Lit? {
      LiteralTreeIsPrimary(s, e.value, "");
    }
  }

  lemma {:induction false} FlatIsWellFormed(s: Schema, e: Expr)
    requires ValidSchema(s) && Compilable(s, e)
    ensures G.WellFormed(Meant(s, e)) <==> Flat(e)
    decreases e, 1
  {
    hide FindProperty, FindFunction, LiteralType, LiteralTree;
    match e
    case Property(_) =>
    case Lit(v) => LiteralTreeIsPrimary(s, v, "");
    case Unary(c) => FlatIsWellFormed(s, c); MeantLevel(s, c);
    case Binary(_, l, r) =>
      FlatIsWellFormed(s, l);
      FlatIsWellFormed(s, r);
      BinaryWellFormed(s, e);
    case FunctionCall(_, args) =>
      forall i | 0 <= i < |args| ensures G.WellFormed(Meant(s, args[i])) <==> Flat(args[i]) {
        FlatIsWellFormed(s, args[i]);
      }
      assert forall i | 0 <= i < |args| :: Meant(s, e).args[i] == Meant(s, args[i]);
  }

  lemma BinaryTreeWellFormed(op: BinaryOp, l: G.Sql, r: G.Sql)
    requires G.Level(l) >= 3 && G.Level(r) >= 3
    ensures G.WellFormed(BinaryTree(op, l, r)) <==>
      G.WellFormed(l) && G.WellFormed(r) && (op.Cmp? ==> G.Level(r) == 4 && (G.Level(l) == 4 || l.NullTest?))
  {
  }

  lemma BinaryWellFormed(s: Schema, e: Expr)
    requires ValidSchema(s) && Compilable(s, e) && e.Binary?
    requires G.WellFormed(Meant(s, e.left)) <==> Flat(e.left)
    requires G.WellFormed(Meant(s, e.right)) <==> Flat(e.right)
    ensures G.WellFormed(Meant(s, e)) <==> Flat(e)
  {
    hide FindProperty, FindFunction, LiteralType, LiteralTree, MeantOperand, BinaryTree;
    var l, r := e.left, e.right;
    MeantLevel(s, l);
    MeantLevel(s, r);
    if NullTested(e).None? {
      hide G.WellFormed;
      OperandWellFormed(s, l, r);
      OperandWellFormed(s, r, l);
      BinaryTreeWellFormed(e.op, MeantOperand(s, l, r), MeantOperand(s, r, l));
    }
  }

  lemma OperandWellFormed(s: Schema, e: Expr, other: Expr)
    requires ValidSchema(s) && Compilable(s, e)
    ensures G.WellFormed(MeantOperand(s, e, other)) <==> G.WellFormed(Meant(s, e))
    ensures G.Level(MeantOperand(s, e, other)) == G.Level(Meant(s, e))
    ensures MeantOperand(s, e, other).NullTest? <==> Meant(s, e).NullTest?
  {
    if e.Lit? && !other.Lit? {
      TypeOfLiteralIsText(s, other);
      LiteralTreeIsPrimary(s, e.value, LiteralType(s, other));
      LiteralTreeIsPrimary(s, e.value, "");
    }
  }

  /** The emitted text means the intended tree if and only if the expression is flat. */
  lemma MeaningExact(s: Schema, e: Expr)
    requires ValidSchema(s) && Compilable(s, e)
    ensures Compile(s, e).Ok?
    ensures P.Meaning(Compile(s, e).value) == Some(Meant(s, e)) <==> Flat(e)
  {
    CompileSucceeds(s, e);
    CompileLexes(s, e);
    P.ParserMatchesGrammar(G.Yield(Meant(s, e)), Meant(s, e));
    FlatIsWellFormed(s, e);
  }

  lemma MeaningOfTokens(text: string, t: G.Sql)
    requires Lexes(text, G.Yield(t)) && G.WellFormed(t)
    ensures P.Meaning(text) == Some(t)
  {
    P.ParserMatchesGrammar(G.Yield(t), t);
  }

  /** What goes wrong otherwise: `z op (x eq null)` is silently read as `(z op x) eq null`. */
  lemma NullTestOnTheRightIsRegrouped(s: Schema, op: CompareOp, z: Expr, x: Expr)
    requires ValidSchema(s) && z.Property? && x.Property? && Compilable(s, z) && Compilable(s, x)
    ensures var e := Binary(Cmp(op), z, Binary(Cmp(EQ), x, Lit(Null)));
            && Compilable(s, e) && Compile(s, e).Ok?
            && P.Meaning(Compile(s, e).value) == Some(G.NullTest(G.Comparison(op, Meant(s, z), Meant(s, x)), false))
            && P.Meaning(Compile(s, e).value) != Some(Meant(s, e))
  {
    hide FindProperty, Lexes, Compile, LiteralTree, LiteralType, FindFunction, ValidSchema, P.Meaning;
    var test := Binary(Cmp(EQ), x, Lit(Null));
    var e := Binary(Cmp(op), z, test);
    assert Compilable(s, Lit(Null));
    assert Compilable(s, test);
    assert Compilable(s, e);
    CompileSucceeds(s, e);
    CompileLexes(s, e);
    var regrouped := G.NullTest(G.Comparison(op, Meant(s, z), Meant(s, x)), false);
    assert NullTested(e).None? && NullTested(test) == Some(x);
    assert Meant(s, test) == G.NullTest(Meant(s, x), false);
    assert MeantOperand(s, z, test) == Meant(s, z) && MeantOperand(s, test, z) == Meant(s, test);
    assert Meant(s, e) == G.Comparison(op, Meant(s, z), Meant(s, test));
    assert G.Yield(regrouped) == G.Yield(Meant(s, e));
    hide G.Yield, Meant, MeantOperand;
    MeaningOfTokens(Compile(s, e).value, regrouped);
  }
}
