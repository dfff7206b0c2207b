/** The documented `$filter` grammar (src/parser/odata_parser.cpp, lines 10-17) as derivation trees,
    and the expression tree each derivation stands for (src/parser/ast.hpp). */
module FilterGrammar {
  import opened Text
  import opened FilterLexer

  datatype BinaryOp = Cmp(op: CompareOp) | AND | OR

  datatype Literal = Integer(n: int) | Float(lexeme: string) | Str(s: string) | Boolean(b: bool) | Null

  datatype Expr =
    | Property(name: string)
    | Lit(value: Literal)
    | Unary(child: Expr)
    | Binary(op: BinaryOp, left: Expr, right: Expr)
    | FunctionCall(name: string, args: seq<Expr>)

  /** A derivation: its leaves are tokens, its nodes the rules used. */
  datatype Tree =
    | Leaf(token: Token)
    | Prop(name: string)
    | Apply(name: string, args: seq<Tree>)
    | Group(inner: Tree)
    | Comparison(op: CompareOp, left: Tree, right: Tree)
    | Negation(child: Tree)
    | Conj(left: Tree, right: Tree)
    | Disj(left: Tree, right: Tree)

  predicate IsLiteralToken(t: Token) {
    t.StringLit? || t.IntegerLit? || t.FloatLit? || t.BooleanLit? || t.NullLit?
  }

  /** orExpr 0, andExpr 1, notExpr 2, comparison 3, primary 4. */
  function Level(t: Tree): nat {
    match t
    case Disj(_, _) => 0
    case Conj(_, _) => 1
    case Negation(_) => 2
    case Comparison(_, _, _) => 3
    case _ => 4
  }

  /** `t` uses the grammar rules as documented: `or` and `and` group to the left, a comparison has
      primaries on both sides, call arguments are or-expressions. */
  predicate Derivation(t: Tree) {
    match t
    case Leaf(token) => IsLiteralToken(token)
    case Prop(_) => true
    case Apply(_, args) => forall i | 0 <= i < |args| :: Derivation(args[i])
    case Group(inner) => Derivation(inner)
    case Comparison(_, l, r) => Derivation(l) && Derivation(r) && Level(l) == 4 && Level(r) == 4
    case Negation(c) => Derivation(c) && Level(c) >= 2
    case Conj(l, r) => Derivation(l) && Derivation(r) && Level(l) >= 1 && Level(r) >= 2
    case Disj(l, r) => Derivation(l) && Derivation(r) && Level(r) >= 1
  }

  /** The tokens a derivation derives. */
  function Yield(t: Tree): (ts: seq<Token>)
    ensures ts != []
    decreases t, 1
  {
    match t
    case Leaf(token) => [token]
    case Prop(name) => [Identifier(name)]
    case Apply(name, args) => [Identifier(name), LParen] + YieldArgs(args)
    case Group(inner) => [LParen] + Yield(inner) + [RParen]
    case Comparison(op, l, r) => Yield(l) + [Compare(op)] + Yield(r)
    case Negation(c) => [NotKw] + Yield(c)
    case Conj(l, r) => Yield(l) + [AndKw] + Yield(r)
    case Disj(l, r) => Yield(l) + [OrKw] + Yield(r)
  }

  /** Call arguments, separated by commas, with the closing parenthesis. */
  function YieldArgs(args: seq<Tree>): (ts: seq<Token>)
    ensures ts != []
    decreases args, 0
  {
    if args == [] then [RParen]
    else if |args| == 1 then Yield(args[0]) + [RParen]
    else Yield(args[0]) + [Comma] + YieldArgs(args[1..])
  }

  function LiteralOf(t: Token): Literal
    requires IsLiteralToken(t)
  {
    match t
    case StringLit(s) => Str(s)
    case IntegerLit(n) => Integer(n)
    case FloatLit(lexeme) => Float(lexeme)
    case BooleanLit(word) => Boolean(ToLower(word) == "true")
    case NullLit => Null
  }

  /** The expression a derivation stands for: grouping parentheses disappear. */
  function Ast(t: Tree): Expr
    requires Derivation(t)
  {
    match t
    case Leaf(token) => Lit(LiteralOf(token))
    case Prop(name) => Property(name)
    case Apply(name, args) => FunctionCall(name, seq(|args|, i requires 0 <= i < |args| => Ast(args[i])))
    case Group(inner) => Ast(inner)
    case Comparison(op, l, r) => Binary(Cmp(op), Ast(l), Ast(r))
    case Negation(c) => Unary(Ast(c))
    case Conj(l, r) => Binary(AND, Ast(l), Ast(r))
    case Disj(l, r) => Binary(OR, Ast(l), Ast(r))
  }
}

/** Reference parser for the grammar: sound, complete and hence unambiguous. */
module FilterParsing {
  import opened Text
  import opened FilterLexer
  import opened FilterGrammar

  /** A derivation of a prefix of the tokens, and the tokens after it. */
  datatype Parsed = Fail | Got(tree: Tree, rest: seq<Token>)

  function Primary(ts: seq<Token>): (r: Parsed)
    ensures r.Got? ==> |r.rest| < |ts|
    decreases |ts|, 0
  {
    if ts == [] then Fail
    else if IsLiteralToken(ts[0]) then Got(Leaf(ts[0]), ts[1..])
    else if ts[0] == LParen then
      match OrExpr(ts[1..])
      case Fail => Fail
      case Got(t, rest) => if rest != [] && rest[0] == RParen then Got(Group(t), rest[1..]) else Fail
    else if ts[0].Identifier? then
      if |ts| > 1 && ts[1] == LParen then
        if |ts| > 2 && ts[2] == RParen then Got(Apply(ts[0].name, []), ts[3..])
        else CallArgs(ts[0].name, [], ts[2..])
      else Got(Prop(ts[0].name), ts[1..])
    else Fail
  }

  function CallArgs(name: string, args: seq<Tree>, ts: seq<Token>): (r: Parsed)
    ensures r.Got? ==> |r.rest| < |ts|
    decreases |ts|, 7
  {
    match OrExpr(ts)
    case Fail => Fail
    case Got(t, rest) =>
      if rest != [] && rest[0] == RParen then Got(Apply(name, args + [t]), rest[1..])
      else if rest != [] && rest[0] == Comma then CallArgs(name, args + [t], rest[1..])
      else Fail
  }

  function ComparisonExpr(ts: seq<Token>): (r: Parsed)
    ensures r.Got? ==> |r.rest| < |ts|
    decreases |ts|, 1
  {
    match Primary(ts)
    case Fail => Fail
    case Got(l, rest) =>
      if rest != [] && rest[0].Compare? then
        match Primary(rest[1..])
        case Fail => Fail
        case Got(r, rest') => Got(Comparison(rest[0].op, l, r), rest')
      else Got(l, rest)
  }

  function NotExpr(ts: seq<Token>): (r: Parsed)
    ensures r.Got? ==> |r.rest| < |ts|
    decreases |ts|, 2
  {
    if ts != [] && ts[0] == NotKw then
      match NotExpr(ts[1..])
      case Fail => Fail
      case Got(c, rest) => Got(Negation(c), rest)
    else ComparisonExpr(ts)
  }

  function AndExpr(ts: seq<Token>): (r: Parsed)
    ensures r.Got? ==> |r.rest| < |ts|
    decreases |ts|, 4
  {
    match NotExpr(ts)
    case Fail => Fail
    case Got(l, rest) => AndTail(l, rest)
  }

  function AndTail(left: Tree, ts: seq<Token>): (r: Parsed)
    ensures r.Got? ==> |r.rest| <= |ts|
    decreases |ts|, 3
  {
    if ts == [] || ts[0] != AndKw then Got(left, ts)
    else
      match NotExpr(ts[1..])
      case Fail => Fail
      case Got(r, rest) => AndTail(Conj(left, r), rest)
  }

  function OrExpr(ts: seq<Token>): (r: Parsed)
    ensures r.Got? ==> |r.rest| < |ts|
    decreases |ts|, 6
  {
    match AndExpr(ts)
    case Fail => Fail
    case Got(l, rest) => OrTail(l, rest)
  }

  function OrTail(left: Tree, ts: seq<Token>): (r: Parsed)
    ensures r.Got? ==> |r.rest| <= |ts|
    decreases |ts|, 5
  {
    if ts == [] || ts[0] != OrKw then Got(left, ts)
    else
      match AndExpr(ts[1..])
      case Fail => Fail
      case Got(r, rest) => OrTail(Disj(left, r), rest)
  }

  // ----- soundness: what the parser returns is a derivation of exactly the tokens it consumed

  ghost predicate Sound(r: Parsed, level: nat, ts: seq<Token>) {
    r.Got? ==> Derivation(r.tree) && Level(r.tree) >= level && Yield(r.tree) + r.rest == ts
  }

  lemma {:induction false} PrimarySound(ts: seq<Token>)
    ensures Sound(Primary(ts), 4, ts)
    decreases |ts|, 0
  {
    hide CallArgs, OrExpr;
    if ts == [] {
    } else if IsLiteralToken(ts[0]) {
    } else if ts[0] == LParen {
      OrSound(ts[1..]);
      var inner := OrExpr(ts[1..]);
      if inner.Got? && inner.rest != [] && inner.rest[0] == RParen {
        assert [LParen] + Yield(inner.tree) + [RParen] + inner.rest[1..] == ts;
      }
    } else if ts[0].Identifier? && |ts| > 1 && ts[1] == LParen {
      if |ts| > 2 && ts[2] == RParen {
        assert YieldArgs([]) == [RParen];
      } else {
        CallArgsSound(ts[0].name, [], ts[2..]);
        var r := Primary(ts);
        if r.Got? {
          assert r.tree.args[0..] == r.tree.args;
          assert [ts[0], LParen] + YieldArgs(r.tree.args) + r.rest == ts;
        }
      }
    }
  }

  lemma {:induction false} CallArgsSound(name: string, args: seq<Tree>, ts: seq<Token>)
    requires forall i | 0 <= i < |args| :: Derivation(args[i])
    ensures var r := CallArgs(name, args, ts);
            r.Got? ==> r.tree.Apply? && r.tree.name == name && Derivation(r.tree) && |args| < |r.tree.args|
                       && r.tree.args[..|args|] == args && YieldArgs(r.tree.args[|args|..]) + r.rest == ts
    decreases |ts|, 7
  {
    hide OrExpr;
    OrSound(ts);
    var first := OrExpr(ts);
    if first.Got? && first.rest != [] {
      var t, rest := first.tree, first.rest;
      if rest[0] == RParen {
        assert (args + [t])[|args|..] == [t];
        assert Yield(t) + [RParen] + rest[1..] == ts;
      } else if rest[0] == Comma {
        CallArgsSound(name, args + [t], rest[1..]);
        var r := CallArgs(name, args + [t], rest[1..]);
        if r.Got? {
          var tail := r.tree.args[|args|..];
          assert tail[0] == r.tree.args[..|args| + 1][|args|] == t;
          assert tail[1..] == r.tree.args[|args| + 1..];
          assert r.tree.args[..|args|] == r.tree.args[..|args| + 1][..|args|];
          Infix(Yield(t), rest, YieldArgs(tail[1..]), r.rest);
        }
      }
    }
  }

  lemma {:induction false} ComparisonSound(ts: seq<Token>)
    ensures Sound(ComparisonExpr(ts), 3, ts)
    decreases |ts|, 1
  {
    hide Primary;
    PrimarySound(ts);
    var l := Primary(ts);
    if l.Got? && l.rest != [] && l.rest[0].Compare? {
      PrimarySound(l.rest[1..]);
      var r := Primary(l.rest[1..]);
      if r.Got? {
        Infix(Yield(l.tree), l.rest, Yield(r.tree), r.rest);
      }
    }
  }

  lemma {:induction false} NotSound(ts: seq<Token>)
    ensures Sound(NotExpr(ts), 2, ts)
    decreases |ts|, 2
  {
    if ts != [] && ts[0] == NotKw {
      NotSound(ts[1..]);
      var c := NotExpr(ts[1..]);
      if c.Got? {
        assert [NotKw] + Yield(c.tree) + c.rest == ts;
      }
    } else {
      ComparisonSound(ts);
    }
  }

  lemma {:induction false} AndTailSound(left: Tree, ts: seq<Token>)
    requires Derivation(left) && Level(left) >= 1
    ensures Sound(AndTail(left, ts), 1, Yield(left) + ts)
    decreases |ts|, 3
  {
    hide NotExpr;
    if ts != [] && ts[0] == AndKw {
      NotSound(ts[1..]);
      var r := NotExpr(ts[1..]);
      if r.Got? {
        AndTailSound(Conj(left, r.tree), r.rest);
        Infix(Yield(left), ts, Yield(r.tree), r.rest);
      }
    }
  }

  lemma {:induction false} AndSound(ts: seq<Token>)
    ensures Sound(AndExpr(ts), 1, ts)
    decreases |ts|, 4
  {
    hide NotExpr;
    NotSound(ts);
    var l := NotExpr(ts);
    if l.Got? {
      AndTailSound(l.tree, l.rest);
    }
  }

  lemma {:induction false} OrTailSound(left: Tree, ts: seq<Token>)
    requires Derivation(left)
    ensures Sound(OrTail(left, ts), 0, Yield(left) + ts)
    decreases |ts|, 5
  {
    hide AndExpr;
    if ts != [] && ts[0] == OrKw {
      AndSound(ts[1..]);
      var r := AndExpr(ts[1..]);
      if r.Got? {
        OrTailSound(Disj(left, r.tree), r.rest);
        Infix(Yield(left), ts, Yield(r.tree), r.rest);
      }
    }
  }

  lemma {:induction false} OrSound(ts: seq<Token>)
    ensures Sound(OrExpr(ts), 0, ts)
    decreases |ts|, 6
  {
    hide AndExpr;
    AndSound(ts);
    var l := AndExpr(ts);
    if l.Got? {
      OrTailSound(l.tree, l.rest);
    }
  }

  // ----- completeness: every derivation is found, whatever tokens follow that do not continue it

  /** `rest` cannot continue an expression of the given level. */
  predicate Stops(level: nat, rest: seq<Token>) {
    rest != [] ==>
      && (rest[0] != LParen)
      && (level <= 3 ==> !rest[0].Compare?)
      && (level <= 1 ==> rest[0] != AndKw)
      && (level == 0 ==> rest[0] != OrKw)
  }

  function ParserOf(level: nat, ts: seq<Token>): Parsed {
    if level == 0 then OrExpr(ts)
    else if level == 1 then AndExpr(ts)
    else if level == 2 then NotExpr(ts)
    else if level == 3 then ComparisonExpr(ts)
    else Primary(ts)
  }

  /** A derivation of level at least `level` is parsed by that level's function. */
  lemma {:induction false} ComparisonComplete(t: Tree, rest: seq<Token>)
    requires Derivation(t) && t.Comparison? && Stops(3, rest)
    ensures ComparisonExpr(Yield(t) + rest) == Got(t, rest)
    decreases t, 0
  {
    hide OrExpr, AndExpr, Primary, CallArgs;
    var tail := [Compare(t.op)] + (Yield(t.right) + rest);
    assert Yield(t) + rest == Yield(t.left) + tail && tail[1..] == Yield(t.right) + rest;
    Complete(t.left, 4, tail);
    Complete(t.right, 4, rest);
  }

  lemma {:induction false} Complete(t: Tree, level: nat, rest: seq<Token>)
    requires Derivation(t) && level <= Level(t) && Stops(level, rest)
    ensures ParserOf(level, Yield(t) + rest) == Got(t, rest)
    decreases t, 20 - 2 * level
  {
    hide OrExpr, AndExpr, Primary, CallArgs;
    if level == 0 {
      OrSpine(t, rest);
    } else if level == 1 {
      AndSpine(t, rest);
    } else if level < Level(t) {
      Complete(t, level + 1, rest);
      if level == 2 {
        FirstTokenIsNotNot(t, rest);
      }
    } else if level == 4 {
      PrimaryComplete(t, rest);
    } else if level == 3 {
      ComparisonComplete(t, rest);
    } else {
      assert (Yield(t) + rest)[1..] == Yield(t.child) + rest;
      Complete(t.child, 2, rest);
    }
  }

  lemma {:induction false} FirstTokenIsNotNot(t: Tree, rest: seq<Token>)
    requires Derivation(t) && Level(t) >= 3
    ensures (Yield(t) + rest)[0] != NotKw
  {
    if t.Comparison? {
      FirstTokenIsNotNot(t.left, [Compare(t.op)] + Yield(t.right) + rest);
      assert Yield(t) + rest == Yield(t.left) + ([Compare(t.op)] + Yield(t.right) + rest);
    }
  }

  /** A derivation is parsed as the left operand of whatever `or` tail follows it. */
  lemma {:induction false} OrSpine(t: Tree, rest: seq<Token>)
    requires Derivation(t) && Stops(1, rest)
    ensures OrExpr(Yield(t) + rest) == OrTail(t, rest)
    decreases t, 19
  {
    hide AndExpr, NotExpr, ComparisonExpr, Primary;
    if t.Disj? {
      var tail := [OrKw] + (Yield(t.right) + rest);
      assert Yield(t) + rest == Yield(t.left) + tail;
      OrSpine(t.left, tail);
      Complete(t.right, 1, rest);
      assert tail[1..] == Yield(t.right) + rest;
    } else {
      Complete(t, 1, rest);
    }
  }

  lemma {:induction false} AndSpine(t: Tree, rest: seq<Token>)
    requires Derivation(t) && Level(t) >= 1 && Stops(2, rest)
    ensures AndExpr(Yield(t) + rest) == AndTail(t, rest)
    decreases t, 17
  {
    hide OrExpr, NotExpr, ComparisonExpr, Primary;
    if t.Conj? {
      var tail := [AndKw] + (Yield(t.right) + rest);
      assert Yield(t) + rest == Yield(t.left) + tail;
      AndSpine(t.left, tail);
      Complete(t.right, 2, rest);
      assert tail[1..] == Yield(t.right) + rest;
    } else {
      Complete(t, 2, rest);
    }
  }

  lemma {:induction false} PrimaryComplete(t: Tree, rest: seq<Token>)
    requires Derivation(t) && Level(t) == 4 && Stops(4, rest)
    ensures Primary(Yield(t) + rest) == Got(t, rest)
    decreases t, 10
  {
    hide CallArgs, OrExpr;
    var ts := Yield(t) + rest;
    match t
    case Leaf(_) =>
    case Prop(_) =>
    case Group(inner) =>
      assert ts[1..] == Yield(inner) + ([RParen] + rest);
      Complete(inner, 0, [RParen] + rest);
    case Apply(name, args) =>
      assert ts[2..] == YieldArgs(args) + rest;
      if args == [] {
        assert ts[3..] == rest;
      } else {
        FirstTokenIsNotClose(args[0]);
        CallArgsComplete(t, 0, rest);
        assert args[..0] == [] && args[0..] == args;
      }
  }

  lemma {:induction false} FirstTokenIsNotClose(t: Tree)
    requires Derivation(t)
    ensures Yield(t)[0] != RParen
  {
    match t
    case Comparison(_, l, _) => FirstTokenIsNotClose(l);
    case Conj(l, _) => FirstTokenIsNotClose(l);
    case Disj(l, _) => FirstTokenIsNotClose(l);
    case _ =>
  }

  lemma {:induction false} CallArgsComplete(t: Tree, k: nat, rest: seq<Token>)
    requires t.Apply? && Derivation(t) && k < |t.args|
    ensures CallArgs(t.name, t.args[..k], YieldArgs(t.args[k..]) + rest) == Got(t, rest)
    decreases t, 9, |t.args| - k
  {
    hide OrExpr;
    var arg, ts := t.args[k], YieldArgs(t.args[k..]) + rest;
    assert t.args[..k] + [arg] == t.args[..k + 1];
    if k + 1 == |t.args| {
      assert ts == Yield(arg) + ([RParen] + rest);
      Complete(arg, 0, [RParen] + rest);
      assert t.args[..k + 1] == t.args;
    } else {
      assert t.args[k..][1..] == t.args[k + 1..];
      var tail := [Comma] + (YieldArgs(t.args[k + 1..]) + rest);
      assert ts == Yield(arg) + tail;
      Complete(arg, 0, tail);
      assert tail[1..] == YieldArgs(t.args[k + 1..]) + rest;
      CallArgsComplete(t, k + 1, rest);
    }
  }

  // ----- the whole token list

  /** FilterParser::Parse on the tokens before END. */
  function ParseTree(ts: seq<Token>): Option<Tree> {
    match OrExpr(ts)
    case Fail => None
    case Got(t, rest) => if rest == [] then Some(t) else None
  }

  /** The parser accepts exactly the token lists the grammar derives, and returns their one derivation. */
  lemma ParserMatchesGrammar(ts: seq<Token>, t: Tree)
    ensures ParseTree(ts) == Some(t) <==> Derivation(t) && Yield(t) == ts
  {
    OrSound(ts);
    if Derivation(t) && Yield(t) == ts {
      Complete(t, 0, []);
      assert Yield(t) + [] == ts;
    }
  }

  lemma Unambiguous(s: Tree, t: Tree)
    requires Derivation(s) && Derivation(t) && Yield(s) == Yield(t)
    ensures s == t
  {
    ParserMatchesGrammar(Yield(s), s);
    ParserMatchesGrammar(Yield(s), t);
  }
}
