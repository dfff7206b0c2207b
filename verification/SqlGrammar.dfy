/** SQL expressions, their precedence grammar and a reference parser.
    Precedence: OR < AND < NOT < IS NULL < comparison < primary. A comparison does not associate with
    another; IS [NOT] NULL is postfix and may be applied to its own result or be compared further. */
module SqlGrammar {
  import opened Text
  import opened FilterLexer
  import opened SqlLexer

  datatype Sql =
    | Atom(tok: Tok)
    | Negative(text: string)
    | CastTo(arg: Sql, typeName: seq<Tok>)
    | Invoke(name: string, args: seq<Sql>)
    | Paren(inner: Sql)
    | Comparison(op: CompareOp, left: Sql, right: Sql)
    | NullTest(arg: Sql, negated: bool)
    | Negation(child: Sql)
    | Conj(left: Sql, right: Sql)
    | Disj(left: Sql, right: Sql)

  /** Tokens that are operands by themselves: columns, literals and parameters. */
  predicate IsAtom(t: Tok) {
    t.Name? || t.Chars? || t.Num? || t == Hole || t == Kw(NULL) || t == Kw(TRUE) || t == Kw(FALSE)
  }

  function Level(e: Sql): nat {
    match e
    case Disj(_, _) => 0
    case Conj(_, _) => 1
    case Negation(_) => 2
    case Comparison(_, _, _) => 3
    case NullTest(_, _) => 3
    case _ => 4
  }

  /** The tokens up to the parenthesis that closes the enclosing one, `depth` more being open. */
  function ScanType(ts: seq<Tok>, depth: nat): Option<(seq<Tok>, seq<Tok>)> {
    if ts == [] then None
    else if ts[0] == RP && depth == 0 then Some(([], ts))
    else
      match ScanType(ts[1..], if ts[0] == LP then depth + 1 else if ts[0] == RP then depth - 1 else depth)
      case None => None
      case Some((ty, rest)) => Some(([ts[0]] + ty, rest))
  }

  /** A type name: tokens with balanced parentheses. */
  predicate IsTypeName(ty: seq<Tok>) {
    ty != [] && ScanType(ty + [RP], 0) == Some((ty, [RP]))
  }

  predicate WellFormed(e: Sql) {
    match e
    case Atom(t) => IsAtom(t)
    case Negative(_) => true
    case CastTo(a, ty) => WellFormed(a) && IsTypeName(ty)
    case Invoke(_, args) => forall i | 0 <= i < |args| :: WellFormed(args[i])
    case Paren(inner) => WellFormed(inner)
    case Comparison(_, l, r) => WellFormed(l) && WellFormed(r) && Level(r) == 4 && (Level(l) == 4 || l.NullTest?)
    case NullTest(a, _) => WellFormed(a) && Level(a) >= 3
    case Negation(c) => WellFormed(c) && Level(c) >= 2
    case Conj(l, r) => WellFormed(l) && WellFormed(r) && Level(l) >= 1 && Level(r) >= 2
    case Disj(l, r) => WellFormed(l) && WellFormed(r) && Level(r) >= 1
  }

  function Yield(e: Sql): (ts: seq<Tok>)
    ensures ts != []
    decreases e, 1
  {
    match e
    case Atom(t) => [t]
    case Negative(t) => [Minus, Num(t)]
    case CastTo(a, ty) => [Kw(CAST), LP] + Yield(a) + [Kw(AS)] + ty + [RP]
    case Invoke(f, args) => [Word(f), LP] + YieldArgs(args)
    case Paren(inner) => [LP] + Yield(inner) + [RP]
    case Comparison(op, l, r) => Yield(l) + [Op(op)] + Yield(r)
    case NullTest(a, negated) => Yield(a) + (if negated then [Kw(IS), Kw(NOT), Kw(NULL)] else [Kw(IS), Kw(NULL)])
    case Negation(c) => [Kw(NOT)] + Yield(c)
    case Conj(l, r) => Yield(l) + [Kw(AND)] + Yield(r)
    case Disj(l, r) => Yield(l) + [Kw(OR)] + Yield(r)
  }

  function YieldArgs(args: seq<Sql>): (ts: seq<Tok>)
    ensures ts != []
    decreases args, 0
  {
    if args == [] then [RP]
    else if |args| == 1 then Yield(args[0]) + [RP]
    else Yield(args[0]) + [Sep] + YieldArgs(args[1..])
  }

  lemma {:induction false} ScanTypeCat(ts: seq<Tok>, depth: nat, more: seq<Tok>)
    requires ScanType(ts, depth).Some?
    ensures ScanType(ts + more, depth) == Some((ScanType(ts, depth).value.0, ScanType(ts, depth).value.1 + more))
  {
    if !(ts[0] == RP && depth == 0) {
      assert (ts + more)[1..] == ts[1..] + more;
      ScanTypeCat(ts[1..], if ts[0] == LP then depth + 1 else if ts[0] == RP then depth - 1 else depth, more);
    }
  }

  lemma ScanTypeName(ty: seq<Tok>, rest: seq<Tok>)
    requires IsTypeName(ty)
    ensures ScanType(ty + [RP] + rest, 0) == Some((ty, [RP] + rest))
  {
    ScanTypeCat(ty + [RP], 0, rest);
  }

  lemma {:induction false} ScanTypeSplits(ts: seq<Tok>, depth: nat)
    requires ScanType(ts, depth).Some?
    ensures var (ty, rest) := ScanType(ts, depth).value;
            ts == ty + rest && rest != [] && rest[0] == RP && ScanType(ty + [RP], depth) == Some((ty, [RP]))
  {
    if ts[0] == RP && depth == 0 {
      assert [] + ts == ts && [] + [RP] == [RP];
    } else {
      var d := if ts[0] == LP then depth + 1 else if ts[0] == RP then depth - 1 else depth;
      ScanTypeSplits(ts[1..], d);
      var (ty, rest) := ScanType(ts[1..], d).value;
      assert [ts[0]] + ty + [RP] == [ts[0]] + (ty + [RP]);
    }
  }
}

module SqlParsing {
  import opened Text
  import opened SqlLexer
  import opened SqlGrammar

  datatype Parsed = Fail | Got(e: Sql, rest: seq<Tok>)

  function Primary(ts: seq<Tok>): (r: Parsed)
    ensures r.Got? ==> |r.rest| < |ts|
    decreases |ts|, 0
  {
    if ts == [] then Fail
    else if IsAtom(ts[0]) then Got(Atom(ts[0]), ts[1..])
    else if ts[0] == LP then
      match OrExpr(ts[1..])
      case Fail => Fail
      case Got(e, rest) => if rest != [] && rest[0] == RP then Got(Paren(e), rest[1..]) else Fail
    else if |ts| == 1 then Fail
    else if ts[0] == Minus then
      if ts[1].Num? then Got(Negative(ts[1].text), ts[2..]) else Fail
    else if ts[1] != LP then Fail
    else if ts[0] == Kw(CAST) then CastRest(ts[2..])
    else if ts[0].Word? then
      if |ts| > 2 && ts[2] == RP then Got(Invoke(ts[0].w, []), ts[3..]) else CallArgs(ts[0].w, [], ts[2..])
    else Fail
  }

  /** What follows `CAST(`. */
  function CastRest(ts: seq<Tok>): (r: Parsed)
    ensures r.Got? ==> |r.rest| < |ts|
    decreases |ts|, 7
  {
    match OrExpr(ts)
    case Fail => Fail
    case Got(e, rest) =>
      if rest == [] || rest[0] != Kw(AS) || ScanType(rest[1..], 0).None? then Fail
      else
        var (ty, after) := ScanType(rest[1..], 0).value;
        ScanTypeSplits(rest[1..], 0);
        if ty == [] then Fail else Got(CastTo(e, ty), after[1..])
  }

  function CallArgs(f: string, args: seq<Sql>, ts: seq<Tok>): (r: Parsed)
    ensures r.Got? ==> |r.rest| < |ts|
    decreases |ts|, 7
  {
    match OrExpr(ts)
    case Fail => Fail
    case Got(e, rest) =>
      if rest != [] && rest[0] == RP then Got(Invoke(f, args + [e]), rest[1..])
      else if rest != [] && rest[0] == Sep then CallArgs(f, args + [e], rest[1..])
      else Fail
  }

  function ChainExpr(ts: seq<Tok>): (r: Parsed)
    ensures r.Got? ==> |r.rest| < |ts|
    decreases |ts|, 1
  {
    match Primary(ts)
    case Fail => Fail
    case Got(l, rest) => ChainTail(l, rest)
  }

  /** Comparisons and null tests after an operand, taken from left to right. */
  function ChainTail(left: Sql, ts: seq<Tok>): (r: Parsed)
    ensures r.Got? ==> |r.rest| <= |ts|
    decreases |ts|, 0
  {
    if ts != [] && ts[0].Op? then
      if left.Comparison? then Fail
      else
        match Primary(ts[1..])
        case Fail => Fail
        case Got(r, rest) => ChainTail(Comparison(ts[0].op, left, r), rest)
    else if ts != [] && ts[0] == Kw(IS) then
      if |ts| > 1 && ts[1] == Kw(NULL) then ChainTail(NullTest(left, false), ts[2..])
      else if |ts| > 2 && ts[1] == Kw(NOT) && ts[2] == Kw(NULL) then ChainTail(NullTest(left, true), ts[3..])
      else Fail
    else Got(left, ts)
  }

  function NotExpr(ts: seq<Tok>): (r: Parsed)
    ensures r.Got? ==> |r.rest| < |ts|
    decreases |ts|, 2
  {
    if ts != [] && ts[0] == Kw(NOT) then
      match NotExpr(ts[1..])
      case Fail => Fail
      case Got(c, rest) => Got(Negation(c), rest)
    else ChainExpr(ts)
  }

  function AndExpr(ts: seq<Tok>): (r: Parsed)
    ensures r.Got? ==> |r.rest| < |ts|
    decreases |ts|, 4
  {
    match NotExpr(ts)
    case Fail => Fail
    case Got(l, rest) => AndTail(l, rest)
  }

  function AndTail(left: Sql, ts: seq<Tok>): (r: Parsed)
    ensures r.Got? ==> |r.rest| <= |ts|
    decreases |ts|, 3
  {
    if ts == [] || ts[0] != Kw(AND) then Got(left, ts)
    else
      match NotExpr(ts[1..])
      case Fail => Fail
      case Got(r, rest) => AndTail(Conj(left, r), rest)
  }

  function OrExpr(ts: seq<Tok>): (r: Parsed)
    ensures r.Got? ==> |r.rest| < |ts|
    decreases |ts|, 6
  {
    match AndExpr(ts)
    case Fail => Fail
    case Got(l, rest) => OrTail(l, rest)
  }

  function OrTail(left: Sql, ts: seq<Tok>): (r: Parsed)
    ensures r.Got? ==> |r.rest| <= |ts|
    decreases |ts|, 5
  {
    if ts == [] || ts[0] != Kw(OR) then Got(left, ts)
    else
      match AndExpr(ts[1..])
      case Fail => Fail
      case Got(r, rest) => OrTail(Disj(left, r), rest)
  }

  // ----- soundness

  ghost predicate Sound(r: Parsed, level: nat, ts: seq<Tok>) {
    r.Got? ==> WellFormed(r.e) && Level(r.e) >= level && Yield(r.e) + r.rest == ts
  }

  lemma {:induction false} PrimarySound(ts: seq<Tok>)
    ensures Sound(Primary(ts), 4, ts)
    decreases |ts|, 0
  {
    hide CallArgs, OrExpr, CastRest;
    if ts == [] || IsAtom(ts[0]) {
    } else if ts[0] == LP {
      OrSound(ts[1..]);
      var inner := OrExpr(ts[1..]);
      if inner.Got? && inner.rest != [] && inner.rest[0] == RP {
        assert [LP] + Yield(inner.e) + [RP] + inner.rest[1..] == [LP] + (Yield(inner.e) + inner.rest);
      }
    } else if |ts| > 1 && ts[0] == Kw(CAST) && ts[1] == LP {
      CastSound(ts[2..]);
      assert [Kw(CAST), LP] + ts[2..] == ts;
    } else if |ts| > 1 && ts[0].Word? && ts[1] == LP {
      CallSound(ts);
    }
  }

  lemma {:induction false} CallSound(ts: seq<Tok>)
    requires |ts| > 1 && ts[0].Word? && ts[1] == LP
    ensures Sound(Primary(ts), 4, ts)
    decreases |ts| - 1, 8
  {
    hide CallArgs, OrExpr;
    var f := ts[0].w;
    if |ts| > 2 && ts[2] == RP {
      assert YieldArgs([]) == [RP];
    } else {
      CallArgsSound(f, [], ts[2..]);
      var r := Primary(ts);
      if r.Got? {
        assert r.e.args[0..] == r.e.args;
        assert [ts[0], LP] + YieldArgs(r.e.args) + r.rest == ts;
      }
    }
  }

  lemma {:induction false} CastSound(ts: seq<Tok>)
    ensures var r := CastRest(ts);
            r.Got? ==> r.e.CastTo? && WellFormed(r.e) && [Kw(CAST), LP] + ts == Yield(r.e) + r.rest
    decreases |ts|, 7
  {
    hide OrExpr;
    OrSound(ts);
    var r := CastRest(ts);
    if r.Got? {
      var arg, rest := OrExpr(ts).e, OrExpr(ts).rest;
      ScanTypeSplits(rest[1..], 0);
      assert rest[1..] == r.e.typeName + ([RP] + r.rest);
      CastYield(arg, r.e.typeName, rest, r.rest);
    }
  }

  lemma CastYield(arg: Sql, ty: seq<Tok>, rest: seq<Tok>, after: seq<Tok>)
    requires rest != [] && rest[0] == Kw(AS) && rest[1..] == ty + ([RP] + after)
    ensures Yield(CastTo(arg, ty)) + after == [Kw(CAST), LP] + (Yield(arg) + rest)
  {
    Infix(Yield(arg), rest, ty, [RP] + after);
  }

  lemma {:induction false} CallArgsSound(f: string, args: seq<Sql>, ts: seq<Tok>)
    requires forall i | 0 <= i < |args| :: WellFormed(args[i])
    ensures var r := CallArgs(f, args, ts);
            r.Got? ==> r.e.Invoke? && r.e.name == f && WellFormed(r.e) && |args| < |r.e.args|
                       && r.e.args[..|args|] == args && YieldArgs(r.e.args[|args|..]) + r.rest == ts
    decreases |ts|, 7
  {
    hide OrExpr;
    OrSound(ts);
    var first := OrExpr(ts);
    if first.Got? && first.rest != [] {
      var e, rest := first.e, first.rest;
      if rest[0] == RP {
        assert (args + [e])[|args|..] == [e];
        assert Yield(e) + [RP] + rest[1..] == ts;
      } else if rest[0] == Sep {
        CallArgsSound(f, args + [e], rest[1..]);
        var r := CallArgs(f, args + [e], rest[1..]);
        if r.Got? {
          var tail := r.e.args[|args|..];
          assert tail[0] == r.e.args[..|args| + 1][|args|] == e;
          assert tail[1..] == r.e.args[|args| + 1..];
          assert r.e.args[..|args|] == r.e.args[..|args| + 1][..|args|];
          Infix(Yield(e), rest, YieldArgs(tail[1..]), r.rest);
        }
      }
    }
  }

  lemma {:induction false} ChainTailSound(left: Sql, ts: seq<Tok>)
    requires WellFormed(left) && Level(left) >= 3
    ensures Sound(ChainTail(left, ts), 3, Yield(left) + ts)
    decreases |ts|, 0
  {
    hide Primary;
    if ts != [] && ts[0].Op? && !left.Comparison? {
      PrimarySound(ts[1..]);
      var r := Primary(ts[1..]);
      if r.Got? {
        ChainTailSound(Comparison(ts[0].op, left, r.e), r.rest);
        Infix(Yield(left), ts, Yield(r.e), r.rest);
      }
    } else if |ts| > 1 && ts[0] == Kw(IS) && ts[1] == Kw(NULL) {
      NullTestYield(left, false, ts);
      ChainTailSound(NullTest(left, false), ts[2..]);
    } else if |ts| > 2 && ts[0] == Kw(IS) && ts[1] == Kw(NOT) && ts[2] == Kw(NULL) {
      NullTestYield(left, true, ts);
      ChainTailSound(NullTest(left, true), ts[3..]);
    }
  }

  lemma NullTestYield(left: Sql, negated: bool, ts: seq<Tok>)
    requires (if negated then [Kw(IS), Kw(NOT), Kw(NULL)] else [Kw(IS), Kw(NULL)]) <= ts
    ensures Yield(NullTest(left, negated)) + ts[if negated then 3 else 2..] == Yield(left) + ts
  {
  }

  lemma {:induction false} ChainSound(ts: seq<Tok>)
    ensures Sound(ChainExpr(ts), 3, ts)
    decreases |ts|, 1
  {
    hide Primary;
    PrimarySound(ts);
    var l := Primary(ts);
    if l.Got? {
      ChainTailSound(l.e, l.rest);
    }
  }

  lemma {:induction false} NotSound(ts: seq<Tok>)
    ensures Sound(NotExpr(ts), 2, ts)
    decreases |ts|, 2
  {
    if ts != [] && ts[0] == Kw(NOT) {
      NotSound(ts[1..]);
      var c := NotExpr(ts[1..]);
      if c.Got? {
        assert [Kw(NOT)] + Yield(c.e) + c.rest == [Kw(NOT)] + ts[1..];
      }
    } else {
      ChainSound(ts);
    }
  }

  lemma {:induction false} AndTailSound(left: Sql, ts: seq<Tok>)
    requires WellFormed(left) && Level(left) >= 1
    ensures Sound(AndTail(left, ts), 1, Yield(left) + ts)
    decreases |ts|, 3
  {
    hide NotExpr;
    if ts != [] && ts[0] == Kw(AND) {
      NotSound(ts[1..]);
      var r := NotExpr(ts[1..]);
      if r.Got? {
        AndTailSound(Conj(left, r.e), r.rest);
        Infix(Yield(left), ts, Yield(r.e), r.rest);
      }
    }
  }

  lemma {:induction false} AndSound(ts: seq<Tok>)
    ensures Sound(AndExpr(ts), 1, ts)
    decreases |ts|, 4
  {
    hide NotExpr;
    NotSound(ts);
    var l := NotExpr(ts);
    if l.Got? {
      AndTailSound(l.e, l.rest);
    }
  }

  lemma {:induction false} OrTailSound(left: Sql, ts: seq<Tok>)
    requires WellFormed(left)
    ensures Sound(OrTail(left, ts), 0, Yield(left) + ts)
    decreases |ts|, 5
  {
    hide AndExpr;
    if ts != [] && ts[0] == Kw(OR) {
      AndSound(ts[1..]);
      var r := AndExpr(ts[1..]);
      if r.Got? {
        OrTailSound(Disj(left, r.e), r.rest);
        Infix(Yield(left), ts, Yield(r.e), r.rest);
      }
    }
  }

  lemma {:induction false} OrSound(ts: seq<Tok>)
    ensures Sound(OrExpr(ts), 0, ts)
    decreases |ts|, 6
  {
    hide AndExpr;
    AndSound(ts);
    var l := AndExpr(ts);
    if l.Got? {
      OrTailSound(l.e, l.rest);
    }
  }

  // ----- completeness

  predicate Stops(level: nat, rest: seq<Tok>) {
    rest != [] ==>
      && (level <= 3 ==> !rest[0].Op? && rest[0] != Kw(IS))
      && (level <= 1 ==> rest[0] != Kw(AND))
      && (level == 0 ==> rest[0] != Kw(OR))
  }

  function ParserOf(level: nat, ts: seq<Tok>): Parsed {
    if level == 0 then OrExpr(ts)
    else if level == 1 then AndExpr(ts)
    else if level == 2 then NotExpr(ts)
    else if level == 3 then ChainExpr(ts)
    else Primary(ts)
  }

  lemma {:induction false} Complete(e: Sql, level: nat, rest: seq<Tok>)
    requires WellFormed(e) && level <= Level(e) && Stops(level, rest)
    ensures ParserOf(level, Yield(e) + rest) == Got(e, rest)
    decreases e, 20 - 2 * level
  {
    hide OrExpr, AndExpr, Primary, CallArgs, CastRest;
    if level == 0 {
      OrSpine(e, rest);
    } else if level == 1 {
      AndSpine(e, rest);
    } else if level == 3 {
      ChainSpine(e, rest);
    } else if level == 4 {
      PrimaryComplete(e, rest);
    } else if Level(e) > 2 {
      Complete(e, 3, rest);
      FirstTokenIsNotNot(e, rest);
    } else {
      assert (Yield(e) + rest)[1..] == Yield(e.child) + rest;
      Complete(e.child, 2, rest);
    }
  }

  lemma {:induction false} FirstTokenIsNotNot(e: Sql, rest: seq<Tok>)
    requires WellFormed(e) && Level(e) >= 3
    ensures (Yield(e) + rest)[0] != Kw(NOT)
  {
    match e
    case Comparison(_, l, _) => FirstTokenIsNotNot(l, []);
    case NullTest(a, _) => FirstTokenIsNotNot(a, []);
    case _ =>
  }

  lemma {:induction false} OrSpine(e: Sql, rest: seq<Tok>)
    requires WellFormed(e) && Stops(1, rest)
    ensures OrExpr(Yield(e) + rest) == OrTail(e, rest)
    decreases e, 19
  {
    hide AndExpr, NotExpr, ChainExpr, Primary;
    if e.Disj? {
      var tail := [Kw(OR)] + (Yield(e.right) + rest);
      assert Yield(e) + rest == Yield(e.left) + tail;
      OrSpine(e.left, tail);
      Complete(e.right, 1, rest);
      assert tail[1..] == Yield(e.right) + rest;
    } else {
      Complete(e, 1, rest);
    }
  }

  lemma {:induction false} AndSpine(e: Sql, rest: seq<Tok>)
    requires WellFormed(e) && Level(e) >= 1 && Stops(2, rest)
    ensures AndExpr(Yield(e) + rest) == AndTail(e, rest)
    decreases e, 17
  {
    hide OrExpr, NotExpr, ChainExpr, Primary;
    if e.Conj? {
      var tail := [Kw(AND)] + (Yield(e.right) + rest);
      assert Yield(e) + rest == Yield(e.left) + tail;
      AndSpine(e.left, tail);
      Complete(e.right, 2, rest);
      assert tail[1..] == Yield(e.right) + rest;
    } else {
      Complete(e, 2, rest);
    }
  }

  lemma {:induction false} ComparisonSpine(e: Sql, rest: seq<Tok>)
    requires WellFormed(e) && e.Comparison?
    ensures ChainExpr(Yield(e) + rest) == ChainTail(e, rest)
    decreases e, 12
  {
    hide OrExpr, AndExpr, NotExpr, Primary, ChainExpr;
    var tail := [Op(e.op)] + (Yield(e.right) + rest);
    assert Yield(e) + rest == Yield(e.left) + tail && tail[1..] == Yield(e.right) + rest;
    ChainSpine(e.left, tail);
    Complete(e.right, 4, rest);
  }

  lemma {:induction false} ChainSpine(e: Sql, rest: seq<Tok>)
    requires WellFormed(e) && Level(e) >= 3
    ensures ChainExpr(Yield(e) + rest) == ChainTail(e, rest)
    decreases e, 13
  {
    hide OrExpr, AndExpr, NotExpr, Primary;
    if e.Comparison? {
      ComparisonSpine(e, rest);
    } else if e.NullTest? {
      var test := if e.negated then [Kw(IS), Kw(NOT), Kw(NULL)] else [Kw(IS), Kw(NULL)];
      assert Yield(e) + rest == Yield(e.arg) + (test + rest);
      ChainSpine(e.arg, test + rest);
      assert (test + rest)[|test|..] == rest;
    } else {
      Complete(e, 4, rest);
    }
  }

  lemma {:induction false} PrimaryComplete(e: Sql, rest: seq<Tok>)
    requires WellFormed(e) && Level(e) == 4
    ensures Primary(Yield(e) + rest) == Got(e, rest)
    decreases e, 10
  {
    hide CallArgs, OrExpr, CastRest;
    var ts := Yield(e) + rest;
    if e.Atom? {
      assert ts[1..] == rest;
    } else if e.Negative? {
      assert ts[2..] == rest;
    } else if e.Paren? {
      assert ts[1..] == Yield(e.inner) + ([RP] + rest);
      Complete(e.inner, 0, [RP] + rest);
    } else if e.CastTo? {
      CastComplete(e, rest);
      assert ts == [Kw(CAST), LP] + ts[2..];
    } else {
      assert ts[2..] == YieldArgs(e.args) + rest;
      if e.args == [] {
        assert ts[3..] == rest;
      } else {
        FirstTokenIsNotClose(e.args[0]);
        CallArgsComplete(e, 0, rest);
        assert e.args[..0] == [] && e.args[0..] == e.args;
      }
    }
  }

  lemma {:induction false} CastComplete(e: Sql, rest: seq<Tok>)
    requires WellFormed(e) && e.CastTo?
    ensures CastRest((Yield(e) + rest)[2..]) == Got(e, rest)
    decreases e, 9
  {
    hide OrExpr;
    var ty := e.typeName;
    var tail := [Kw(AS)] + (ty + [RP] + rest);
    assert (Yield(e) + rest)[2..] == Yield(e.arg) + tail;
    Complete(e.arg, 0, tail);
    assert tail[1..] == ty + [RP] + rest;
    ScanTypeName(ty, rest);
    assert ([RP] + rest)[1..] == rest;
  }

  lemma {:induction false} FirstTokenIsNotClose(e: Sql)
    requires WellFormed(e)
    ensures Yield(e)[0] != RP
  {
    match e
    case Comparison(_, l, _) => FirstTokenIsNotClose(l);
    case NullTest(a, _) => FirstTokenIsNotClose(a);
    case Conj(l, _) => FirstTokenIsNotClose(l);
    case Disj(l, _) => FirstTokenIsNotClose(l);
    case _ =>
  }

  lemma {:induction false} CallArgsComplete(e: Sql, k: nat, rest: seq<Tok>)
    requires e.Invoke? && WellFormed(e) && k < |e.args|
    ensures CallArgs(e.name, e.args[..k], YieldArgs(e.args[k..]) + rest) == Got(e, rest)
    decreases e, 9, |e.args| - k
  {
    hide OrExpr;
    var arg, ts := e.args[k], YieldArgs(e.args[k..]) + rest;
    assert e.args[..k] + [arg] == e.args[..k + 1];
    if k + 1 == |e.args| {
      assert ts == Yield(arg) + ([RP] + rest);
      Complete(arg, 0, [RP] + rest);
      assert e.args[..k + 1] == e.args;
    } else {
      assert e.args[k..][1..] == e.args[k + 1..];
      var tail := [Sep] + (YieldArgs(e.args[k + 1..]) + rest);
      assert ts == Yield(arg) + tail;
      Complete(arg, 0, tail);
      assert tail[1..] == YieldArgs(e.args[k + 1..]) + rest;
      CallArgsComplete(e, k + 1, rest);
    }
  }

  // ----- whole texts

  function ParseExpr(ts: seq<Tok>): Option<Sql> {
    match OrExpr(ts)
    case Fail => None
    case Got(e, rest) => if rest == [] then Some(e) else None
  }

  /** What SQL text means as an expression. */
  function Meaning(text: string): Option<Sql> {
    match LexSql(text)
    case None => None
    case Some(ts) => ParseExpr(ts)
  }

  lemma ParserMatchesGrammar(ts: seq<Tok>, e: Sql)
    ensures ParseExpr(ts) == Some(e) <==> WellFormed(e) && Yield(e) == ts
  {
    OrSound(ts);
    if WellFormed(e) && Yield(e) == ts {
      Complete(e, 0, []);
      assert Yield(e) + [] == ts;
    }
  }
}
