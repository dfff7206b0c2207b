/** A printer for filter expressions, minimal in parentheses, and the character-level round trip
    through the tokenizer and the parser. */
module FilterPrinter {
  import opened Text
  import opened Decimal
  import opened FilterLexer
  import opened FilterGrammar
  import opened FilterParsing
  import opened FilterParser
  import opened FilterWriting

  /** Names are identifiers that are not keywords, integers fit in 64 bits, floats are spelled as numbers. */
  ghost predicate Printable(e: Expr) {
    match e
    case Property(name) => IsName(name)
    case Lit(Integer(n)) => IsInt64(n)
    case Lit(Float(lexeme)) => IsFloat(lexeme, "")
    case Lit(_) => true
    case Unary(c) => Printable(c)
    case Binary(_, l, r) => Printable(l) && Printable(r)
    case FunctionCall(name, args) => IsName(name) && forall i | 0 <= i < |args| :: Printable(args[i])
  }

  /** A derivation of `e` usable at the given level, with parentheses only where the level needs them. */
  function Derive(e: Expr, level: nat): Tree
    requires Printable(e)
    decreases e, 1
  {
    var t := Bare(e);
    if level <= Level(t) then t else Group(t)
  }

  function Bare(e: Expr): Tree
    requires Printable(e)
    decreases e, 0
  {
    match e
    case Property(name) => Prop(name)
    case Lit(Integer(n)) => Leaf(IntegerLit(n))
    case Lit(Float(lexeme)) => Leaf(FloatLit(lexeme))
    case Lit(Str(s)) => Leaf(StringLit(s))
    case Lit(Boolean(b)) => Leaf(BooleanLit(if b then "true" else "false"))
    case Lit(_) => Leaf(NullLit)
    case Unary(c) => Negation(Derive(c, 2))
    case Binary(AND, l, r) => Conj(Derive(l, 1), Derive(r, 2))
    case Binary(OR, l, r) => Disj(Derive(l, 0), Derive(r, 1))
    case Binary(Cmp(op), l, r) => Comparison(op, Derive(l, 4), Derive(r, 4))
    case FunctionCall(name, args) =>
      Apply(name, seq(|args|, i requires 0 <= i < |args| => Derive(args[i], 0)))
  }

  lemma LiteralDerivation(e: Expr)
    requires Printable(e) && e.Lit?
    ensures Derivation(Bare(e)) && Ast(Bare(e)) == e
  {
    assert ToLower("true") == "true";
    assert ToLower("false")[0] == 'f';
  }

  lemma {:induction false} DeriveIsDerivation(e: Expr, level: nat)
    requires Printable(e) && level <= 4
    ensures Derivation(Derive(e, level)) && level <= Level(Derive(e, level)) && Ast(Derive(e, level)) == e
    decreases e, 1
  {
    hide Bare, Printable;
    BareIsDerivation(e);
  }

  lemma {:induction false} BareIsDerivation(e: Expr)
    requires Printable(e)
    ensures Derivation(Bare(e)) && Ast(Bare(e)) == e
    decreases e, 0
  {
    hide Derive;
    match e
    case Property(_) =>
    case Lit(_) => LiteralDerivation(e);
    case Unary(c) => DeriveIsDerivation(c, 2);
    case Binary(AND, l, r) => DeriveIsDerivation(l, 1); DeriveIsDerivation(r, 2);
    case Binary(OR, l, r) => DeriveIsDerivation(l, 0); DeriveIsDerivation(r, 1);
    case Binary(Cmp(_), l, r) => DeriveIsDerivation(l, 4); DeriveIsDerivation(r, 4);
    case FunctionCall(name, args) =>
      forall i | 0 <= i < |args| {
        DeriveIsDerivation(args[i], 0);
      }
      CallDerivation(e);
  }

  lemma CallDerivation(e: Expr)
    requires Printable(e) && e.FunctionCall?
    requires forall i | 0 <= i < |e.args| :: Derivation(Derive(e.args[i], 0)) && Ast(Derive(e.args[i], 0)) == e.args[i]
    ensures Derivation(Bare(e)) && Ast(Bare(e)) == e
  {
    assert Ast(Bare(e)).args == e.args;
  }

  /** No derivation of the same expression at that level is shorter: no parenthesis can be dropped. */
  lemma {:induction false} DeriveIsMinimal(e: Expr, level: nat, t: Tree)
    requires Printable(e) && level <= 4 && Derivation(t) && level <= Level(t) && Ast(t) == e
    ensures |Yield(Derive(e, level))| <= |Yield(t)|
    decreases t, 1
  {
    hide YieldArgs, IsLiteralToken, LiteralOf;
    match t
    case Group(inner) => DeriveIsMinimal(e, 0, inner);
    case Negation(c) => DeriveIsMinimal(e.child, 2, c);
    case Conj(l, r) => DeriveIsMinimal(e.left, 1, l); DeriveIsMinimal(e.right, 2, r);
    case Disj(l, r) => DeriveIsMinimal(e.left, 0, l); DeriveIsMinimal(e.right, 1, r);
    case Comparison(_, l, r) => DeriveIsMinimal(e.left, 4, l); DeriveIsMinimal(e.right, 4, r);
    case Apply(_, args) => CallIsMinimal(e, t);
    case _ =>
  }

  lemma {:induction false} CallIsMinimal(e: Expr, t: Tree)
    requires Printable(e) && Derivation(t) && Ast(t) == e && t.Apply?
    ensures |Yield(Bare(e))| <= |Yield(t)|
    decreases t, 0
  {
    var ds := Bare(e).args;
    forall i | 0 <= i < |t.args| ensures |Yield(ds[i])| <= |Yield(t.args[i])| {
      DeriveIsMinimal(e.args[i], 0, t.args[i]);
    }
    YieldArgsMonotone(ds, t.args);
  }

  lemma {:induction false} YieldArgsMonotone(a: seq<Tree>, b: seq<Tree>)
    requires |a| == |b| && forall i | 0 <= i < |a| :: |Yield(a[i])| <= |Yield(b[i])|
    ensures |YieldArgs(a)| <= |YieldArgs(b)|
  {
    if |a| > 1 {
      YieldArgsMonotone(a[1..], b[1..]);
    }
  }

  ghost predicate PrintableToken(t: Token) {
    match t
    case Identifier(name) => IsName(name)
    case IntegerLit(n) => IsInt64(n)
    case BooleanLit(word) => IsCasing(word, "true") || IsCasing(word, "false")
    case FloatLit(lexeme) => IsFloat(lexeme, "")
    case End => false
    case _ => true
  }

  function Lexeme(t: Token): string
    requires PrintableToken(t)
  {
    match t
    case Identifier(name) => name
    case StringLit(s) => Quoted('\'', s)
    case IntegerLit(n) => Show(n)
    case FloatLit(lexeme) => lexeme
    case BooleanLit(word) => word
    case NullLit => "null"
    case Compare(op) => CompareWord(op)
    case AndKw => "and"
    case OrKw => "or"
    case NotKw => "not"
    case LParen => "("
    case RParen => ")"
    case Comma => ","
    case Colon => ":"
  }

  /** Lexemes separated by single spaces. */
  function Spell(ts: seq<Token>): string
    requires forall i | 0 <= i < |ts| :: PrintableToken(ts[i])
  {
    if ts == [] then "" else if |ts| == 1 then Lexeme(ts[0]) else Lexeme(ts[0]) + " " + Spell(ts[1..])
  }

  function Print(e: Expr): string
    requires Printable(e)
  {
    DeriveIsDerivation(e, 0);
    YieldPrintable(Derive(e, 0), e);
    Spell(Yield(Derive(e, 0)))
  }

  ghost predicate AllPrintable(ts: seq<Token>) {
    forall i | 0 <= i < |ts| :: PrintableToken(ts[i])
  }

  lemma {:induction false} YieldPrintable(t: Tree, e: Expr)
    requires Printable(e) && (t == Bare(e) || t == Group(Bare(e)))
    ensures AllPrintable(Yield(t))
    decreases e, if t == Group(Bare(e)) then 2 else 1
  {
    if t == Group(Bare(e)) {
      YieldPrintable(Bare(e), e);
      return;
    }
    match e
    case Unary(c) => YieldPrintable(t.child, c);
    case Binary(_, l, r) => BinaryPrintable(t, e);
    case FunctionCall(name, args) => CallPrintable(t, e);
    case _ =>
  }

  lemma {:induction false} BinaryPrintable(t: Tree, e: Expr)
    requires Printable(e) && e.Binary? && t == Bare(e)
    ensures AllPrintable(Yield(t))
    decreases e, 0
  {
    YieldPrintable(t.left, e.left);
    YieldPrintable(t.right, e.right);
  }

  lemma {:induction false} CallPrintable(t: Tree, e: Expr)
    requires Printable(e) && e.FunctionCall? && t == Bare(e)
    ensures AllPrintable(Yield(t))
    decreases e, 0
  {
    hide PrintableToken;
    forall i | 0 <= i < |e.args| ensures AllPrintable(Yield(t.args[i])) {
      YieldPrintable(t.args[i], e.args[i]);
    }
    YieldArgsPrintable(t.args);
    assert PrintableToken(Identifier(e.name)) && PrintableToken(LParen) by { CallTokens(e); }
  }

  lemma CallTokens(e: Expr)
    requires Printable(e) && e.FunctionCall?
    ensures PrintableToken(Identifier(e.name)) && PrintableToken(LParen)
  {
  }

  lemma {:induction false} YieldArgsPrintable(ts: seq<Tree>)
    requires forall i | 0 <= i < |ts| :: AllPrintable(Yield(ts[i]))
    ensures AllPrintable(YieldArgs(ts))
  {
    if |ts| > 1 {
      YieldArgsPrintable(ts[1..]);
    }
  }

  // ----- the printed text is a way of writing the expression

  lemma LexemeIsLexeme(t: Token, rest: string)
    requires PrintableToken(t) && (rest == "" || rest[0] == ' ')
    ensures IsLexeme(t, Lexeme(t), rest)
  {
    match t
    case IntegerLit(n) => SignedShow(n);
    case StringLit(s) => assert '\'' in {'\'', '"'};
    case _ =>
  }

  lemma {:induction false} SpellIsSpelling(ts: seq<Token>)
    requires AllPrintable(ts)
    ensures Spelling(ts, Spell(ts))
  {
    hide IsLexeme, PrintableToken;
    if ts != [] {
      var rest := if |ts| == 1 then "" else " " + Spell(ts[1..]);
      LexemeIsLexeme(ts[0], rest);
      SpellIsSpelling(ts[1..]);
      if |ts| > 1 {
        BlankThen(ts[1..], ' ', Spell(ts[1..]));
      }
      assert AllBlank("") && Spell(ts) == "" + Lexeme(ts[0]) + rest;
    }
  }

  lemma LexSpell(ts: seq<Token>)
    requires AllPrintable(ts)
    ensures Lex(Spell(ts)) == Ok(ts)
  {
    SpellIsSpelling(ts);
    LexExact(Spell(ts), ts);
  }

  /** Printing and parsing again gives the same expression, from characters to characters. */
  lemma PrintThenParse(e: Expr)
    requires Printable(e)
    ensures FilterExpr(Print(e)) == Ok(e)
  {
    var t := Derive(e, 0);
    DeriveIsDerivation(e, 0);
    YieldPrintable(t, e);
    LexSpell(Yield(t));
    ParserMatchesGrammar(Yield(t), t);
  }
}
