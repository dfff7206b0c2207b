/** The recursive-descent `$filter` parser, as an object that advances `pos` (src/parser/odata_parser.cpp). */
module FilterParser {
  import opened Text
  import opened FilterLexer
  import opened FilterGrammar
  import opened FilterParsing

  function Asts(ts: seq<Tree>): seq<Expr>
    requires forall i | 0 <= i < |ts| :: Derivation(ts[i])
  {
    seq(|ts|, i requires 0 <= i < |ts| => Ast(ts[i]))
  }

  /** The expression returned for what the reference parser returns, the state after it being `rest`. */
  ghost predicate Matches(p: Parsed, r: Result<Expr>, rest: seq<Token>) {
    match p
    case Fail => r == Err(Syntax)
    case Got(t, after) => Derivation(t) && r == Ok(Ast(t)) && rest == after
  }

  lemma PrimaryCall(name: string, rest: seq<Token>)
    ensures Primary([Identifier(name), LParen] + rest) ==
            if rest != [] && rest[0] == RParen then Got(Apply(name, []), rest[1..]) else CallArgs(name, [], rest)
  {
    hide CallArgs;
    var ts := [Identifier(name), LParen] + rest;
    assert ts[2..] == rest;
    assert rest != [] ==> ts[2] == rest[0] && ts[3..] == rest[1..];
  }

  class FilterParser {
    const tokens: seq<Token>
    var pos: nat

    ghost predicate Valid()
      reads this
    {
      pos < |tokens| && tokens[|tokens| - 1] == End && End !in tokens[..|tokens| - 1]
    }

    /** The tokens still to be read, END excluded. */
    ghost function Rest(): seq<Token>
      requires Valid()
      reads this
    {
      tokens[pos..|tokens| - 1]
    }

    constructor (tokens: seq<Token>)
      requires tokens != [] && tokens[|tokens| - 1] == End && End !in tokens[..|tokens| - 1]
      ensures Valid() && Rest() == tokens[..|tokens| - 1]
    {
      this.tokens := tokens;
      pos := 0;
    }

    function Peek(): (t: Token)
      requires Valid()
      reads this
      ensures Rest() == [] <==> t == End
      ensures Rest() != [] ==> t == Rest()[0]
    {
      assert pos < |tokens| - 1 ==> tokens[pos] in tokens[..|tokens| - 1];
      tokens[pos]
    }

    method Skip()
      requires Valid() && Peek() != End
      modifies this`pos
      ensures Valid() && Rest() == old(Rest())[1..] && pos == old(pos) + 1
    {
      pos := pos + 1;
    }

    method Match(t: Token) returns (found: bool)
      requires Valid() && t != End
      modifies this`pos
      ensures Valid() && found == (old(Peek()) == t)
      ensures if found then Rest() == old(Rest())[1..] && pos == old(pos) + 1 else pos == old(pos)
    {
      found := Peek() == t;
      if found {
        Skip();
      }
    }

    method ParseOr() returns (r: Result<Expr>)
      requires Valid()
      modifies this`pos
      ensures Valid() && old(pos) <= pos && (r.Ok? ==> old(pos) < pos)
      ensures Matches(OrExpr(old(Rest())), r, Rest())
      decreases |tokens| - pos, 6
    {
      hide Yield, YieldArgs, AndExpr;
      OrSound(Rest());
      AndSound(Rest());
      r := ParseAnd();
      if r.Err? {
        return;
      }
      ghost var left := AndExpr(old(Rest())).tree;
      while true
        invariant Valid() && old(pos) < pos && r.Ok?
        invariant Derivation(left) && r == Ok(Ast(left))
        invariant OrExpr(old(Rest())) == OrTail(left, Rest())
        decreases |tokens| - pos
      {
        var more := Match(OrKw);
        if !more {
          break;
        }
        AndSound(Rest());
        ghost var right := AndExpr(Rest());
        var next := ParseAnd();
        if next.Err? {
          return Err(Syntax);
        }
        left := Disj(left, right.tree);
        r := Ok(Binary(OR, r.value, next.value));
      }
    }

    method ParseAnd() returns (r: Result<Expr>)
      requires Valid()
      modifies this`pos
      ensures Valid() && old(pos) <= pos && (r.Ok? ==> old(pos) < pos)
      ensures Matches(AndExpr(old(Rest())), r, Rest())
      decreases |tokens| - pos, 5
    {
      hide Yield, YieldArgs, NotExpr;
      AndSound(Rest());
      NotSound(Rest());
      r := ParseNot();
      if r.Err? {
        return;
      }
      ghost var left := NotExpr(old(Rest())).tree;
      while true
        invariant Valid() && old(pos) < pos && r.Ok?
        invariant Derivation(left) && Level(left) >= 1 && r == Ok(Ast(left))
        invariant AndExpr(old(Rest())) == AndTail(left, Rest())
        decreases |tokens| - pos
      {
        var more := Match(AndKw);
        if !more {
          break;
        }
        NotSound(Rest());
        ghost var right := NotExpr(Rest());
        var next := ParseNot();
        if next.Err? {
          return Err(Syntax);
        }
        left := Conj(left, right.tree);
        r := Ok(Binary(AND, r.value, next.value));
      }
    }

    method ParseNot() returns (r: Result<Expr>)
      requires Valid()
      modifies this`pos
      ensures Valid() && old(pos) <= pos && (r.Ok? ==> old(pos) < pos)
      ensures Matches(NotExpr(old(Rest())), r, Rest())
      decreases |tokens| - pos, 4
    {
      hide Yield, YieldArgs, ComparisonExpr;
      NotSound(Rest());
      var negated := Match(NotKw);
      if negated {
        var child := ParseNot();
        return if child.Ok? then Ok(Unary(child.value)) else Err(Syntax);
      }
      r := ParseComparison();
    }

    method ParseComparison() returns (r: Result<Expr>)
      requires Valid()
      modifies this`pos
      ensures Valid() && old(pos) <= pos && (r.Ok? ==> old(pos) < pos)
      ensures Matches(ComparisonExpr(old(Rest())), r, Rest())
      decreases |tokens| - pos, 3
    {
      hide Yield, YieldArgs, Primary;
      ComparisonSound(Rest());
      PrimarySound(Rest());
      var left := ParsePrimary();
      if left.Err? {
        return Err(Syntax);
      }
      if !Peek().Compare? {
        return left;
      }
      var op := Peek().op;
      Skip();
      PrimarySound(Rest());
      var right := ParsePrimary();
      return if right.Ok? then Ok(Binary(Cmp(op), left.value, right.value)) else Err(Syntax);
    }

    method ParsePrimary() returns (r: Result<Expr>)
      requires Valid()
      modifies this`pos
      ensures Valid() && old(pos) <= pos && (r.Ok? ==> old(pos) < pos)
      ensures Matches(Primary(old(Rest())), r, Rest())
      decreases |tokens| - pos, 2
    {
      hide Yield, YieldArgs, OrExpr, CallArgs;
      PrimarySound(Rest());
      var tok := Peek();
      if IsLiteralToken(tok) {
        Skip();
        return Ok(Lit(LiteralOf(tok)));
      }
      match tok
      case LParen =>
        r := ParseGroup();
      case Identifier(name) =>
        Skip();
        var call := Match(LParen);
        if call {
          r := ParseArguments(name);
        } else {
          r := Ok(Property(name));
        }
      case _ =>
        r := Err(Syntax);
    }

    method ParseGroup() returns (r: Result<Expr>)
      requires Valid() && Peek() == LParen
      modifies this`pos
      ensures Valid() && old(pos) <= pos && (r.Ok? ==> old(pos) < pos)
      ensures Matches(Primary(old(Rest())), r, Rest())
      decreases |tokens| - pos, 1
    {
      hide Yield, YieldArgs, OrExpr, CallArgs;
      Skip();
      OrSound(Rest());
      r := ParseOr();
      if r.Ok? {
        var closed := Match(RParen);
        if !closed {
          r := Err(Syntax);
        }
      }
    }

    /** The arguments of a call, from after its opening parenthesis. */
    method ParseArguments(name: string) returns (r: Result<Expr>)
      requires Valid()
      modifies this`pos
      ensures Valid() && old(pos) <= pos && (r.Ok? ==> old(pos) < pos)
      ensures Matches(Primary([Identifier(name), LParen] + old(Rest())), r, Rest())
      decreases |tokens| - pos, 7
    {
      hide Yield, YieldArgs, OrExpr, Primary;
      ghost var ts := [Identifier(name), LParen] + Rest();
      PrimaryCall(name, Rest());
      var empty := Match(RParen);
      if empty {
        assert Ast(Apply(name, [])).args == [];
        return Ok(FunctionCall(name, []));
      }
      var args: seq<Expr> := [];
      ghost var trees: seq<Tree> := [];
      while true
        invariant Valid() && old(pos) <= pos
        invariant forall i | 0 <= i < |trees| :: Derivation(trees[i])
        invariant args == Asts(trees)
        invariant Primary(ts) == CallArgs(name, trees, Rest())
        decreases |tokens| - pos
      {
        OrSound(Rest());
        ghost var first := OrExpr(Rest());
        var arg := ParseOr();
        if arg.Err? {
          return Err(Syntax);
        }
        trees, args := trees + [first.tree], args + [arg.value];
        var closed := Match(RParen);
        if closed {
          assert Ast(Apply(name, trees)).args == args;
          return Ok(FunctionCall(name, args));
        }
        var comma := Match(Comma);
        if !comma {
          return Err(Syntax);
        }
      }
    }

    method Parse() returns (r: Result<Expr>)
      requires Valid()
      modifies this`pos
      ensures Valid()
      ensures match ParseTree(old(Rest()))
              case None => r == Err(Syntax)
              case Some(t) => Derivation(t) && r == Ok(Ast(t))
    {
      hide Yield, YieldArgs, OrExpr;
      OrSound(Rest());
      if Peek() == End {
        return Err(Syntax);
      }
      r := ParseOr();
      if r.Ok? && Peek() != End {
        r := Err(Syntax);
      }
    }
  }

  lemma HeadIsNotEnd(s: string)
    requires s != "" && Head(s).Ok?
    ensures Head(s).value.0 != End
  {
    hide NumberEnd, WholeEnd, Span, ScanQuoted;
  }

  lemma {:induction false} LexHasNoEnd(s: string)
    ensures Lex(s).Ok? ==> End !in Lex(s).value
    decreases |s|
  {
    hide Head;
    if s != "" {
      if IsBlank(s[0]) {
        LexHasNoEnd(s[1..]);
      } else if Head(s).Ok? {
        HeadIsNotEnd(s);
        LexHasNoEnd(Head(s).value.1);
      }
    }
  }

  /** ParseFilter: from the characters of a `$filter` to its expression. */
  function FilterExpr(filter: string): Result<Expr> {
    match Lex(filter)
    case Err(e) => Err(e)
    case Ok(ts) =>
      match ParseTree(ts)
      case None => Err(Syntax)
      case Some(t) => ParserMatchesGrammar(ts, t); Ok(Ast(t))
  }

  method ParseFilter(filter: string) returns (r: Result<Expr>)
    ensures r == FilterExpr(filter)
  {
    LexHasNoEnd(filter);
    var tokens := Tokenize(filter);
    if tokens.Err? {
      return Err(tokens.error);
    }
    assert tokens.value[..|tokens.value| - 1] == Lex(filter).value;
    var parser := new FilterParser(tokens.value);
    r := parser.Parse();
  }
}
