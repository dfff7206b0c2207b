/** What the nesting guard of `$filter` (FilterWithinDepth, src/server/odata_server.cpp) says about the filters
    the parser accepts: a scan of characters against a recursion over tokens. */
module DepthGuard {
  import opened Text
  import opened FilterLexer
  import opened FilterGrammar
  import opened FilterPrinter
  import opened FilterWriting
  import opened Options

  predicate IsParen(c: char) {
    c == '(' || c == ')'
  }

  // ----- what the guard counts

  /** The guard toggles at the last quote of a run of quotes. */
  predicate Toggles(s: string) {
    s != "" && s[0] == '\'' && (|s| == 1 || s[1] != '\'')
  }

  /** The parentheses the guard counts, true for an opening one. */
  function Counted(s: string, quoted: bool): seq<bool> {
    if s == "" then []
    else (if !quoted && IsParen(s[0]) then [s[0] == '('] else []) + Counted(s[1..], quoted != Toggles(s))
  }

  /** A stray closing parenthesis is ignored. */
  predicate Within(parens: seq<bool>, depth: nat, max: nat) {
    parens == [] ||
    (if parens[0] then depth < max && Within(parens[1..], depth + 1, max)
     else Within(parens[1..], if depth > 0 then depth - 1 else 0, max))
  }

  lemma {:induction false} GuardCounts(s: string, quoted: bool, depth: nat, max: nat)
    ensures DepthFrom(s, quoted, depth, max) <==> Within(Counted(s, quoted), depth, max)
    decreases |s|
  {
    if s != "" {
      var rest := Counted(s[1..], quoted != Toggles(s));
      assert [] + rest == rest && ([s[0] == '('] + rest)[1..] == rest;
      if !Toggles(s) && !quoted && s[0] == '(' {
        if depth < max {
          GuardCounts(s[1..], quoted, depth + 1, max);
        }
      } else if !Toggles(s) && !quoted && s[0] == ')' && depth > 0 {
        GuardCounts(s[1..], quoted, depth - 1, max);
      } else {
        GuardCounts(s[1..], quoted != Toggles(s), depth, max);
      }
    }
  }

  // ----- what the lexer sees

  /** Where a character stands for the lexer: outside literals, or inside one of either quote character. */
  datatype Mode = Outside | Inside(q: char)

  /** A quote opens or closes; doubled inside its own literal it closes and opens again. */
  function Next(mode: Mode, c: char): Mode {
    match mode
    case Outside => if c == '\'' || c == '"' then Inside(c) else Outside
    case Inside(q) => if c == q then Outside else mode
  }

  /** The parentheses outside string literals. */
  function Seen(s: string, mode: Mode): seq<bool> {
    if s == "" then []
    else (if mode == Outside && IsParen(s[0]) then [s[0] == '('] else []) + Seen(s[1..], Next(mode, s[0]))
  }

  function Parens(ts: seq<Token>): seq<bool> {
    if ts == [] then [] else ParenOf(ts[0]) + Parens(ts[1..])
  }

  function ParenOf(t: Token): seq<bool> {
    if t == LParen then [true] else if t == RParen then [false] else []
  }

  lemma {:induction false} ParensCat(a: seq<Token>, b: seq<Token>)
    ensures Parens(a + b) == Parens(a) + Parens(b)
  {
    if a == [] {
      assert a + b == b;
    } else {
      assert (a + b)[1..] == a[1..] + b;
      ParensCat(a[1..], b);
    }
  }

  predicate IsPlain(c: char) {
    c != '\'' && c != '"' && !IsParen(c)
  }

  lemma {:induction false} SeenAfterPlain(s: string, n: nat)
    requires n <= |s| && forall i | 0 <= i < n :: IsPlain(s[i])
    ensures Seen(s, Outside) == Seen(s[n..], Outside)
  {
    if n == 0 {
      assert s[0..] == s;
    } else {
      SeenAfterPlain(s[1..], n - 1);
      assert s[1..][n - 1..] == s[n..];
      assert [] + Seen(s[1..], Outside) == Seen(s[1..], Outside);
    }
  }

  lemma {:induction false} SeenAfterString(q: char, s: string)
    requires (q == '\'' || q == '"') && ScanQuoted(q, s).Some?
    ensures Seen(s, Inside(q)) == Seen(ScanQuoted(q, s).value.1, Outside)
    decreases |s|
  {
    if s[0] != q {
      SeenAfterString(q, s[1..]);
    } else if |s| > 1 && s[1] == q {
      SeenAfterString(q, s[2..]);
      assert s[1..][1..] == s[2..];
    }
  }

  lemma NumberIsPlain(s: string)
    requires StartsNumber(s)
    ensures forall i | 0 <= i < NumberEnd(s) :: IsPlain(s[i])
  {
    hide SkipDigits;
    var whole, fraction := WholeEnd(s), FractionEnd(s);
    DigitsArePlain(s, if s[0] == '-' then 1 else 0);
    if whole < |s| && s[whole] == '.' {
      DigitsArePlain(s, whole + 1);
    }
    if fraction < |s| && (s[fraction] == 'e' || s[fraction] == 'E') {
      DigitsArePlain(s, if fraction + 1 < |s| && (s[fraction + 1] == '+' || s[fraction + 1] == '-') then fraction + 2 else fraction + 1);
    }
  }

  lemma DigitsArePlain(s: string, i: nat)
    requires i <= |s|
    ensures forall k | i <= k < SkipDigits(s, i) :: IsPlain(s[k])
  {
    hide Span;
    forall k | i <= k < SkipDigits(s, i) ensures IsPlain(s[k]) {
      assert IsDigit(s[i..][k - i]);
    }
  }

  lemma HeadSees(s: string)
    requires s != "" && Head(s).Ok?
    ensures Seen(s, Outside) == ParenOf(Head(s).value.0) + Seen(Head(s).value.1, Outside)
  {
    hide SkipDigits, NumberEnd, WholeEnd, FractionEnd, Span, WordToken, ScanQuoted;
    var (t, rest) := Head(s).value;
    assert forall x: seq<bool> :: [] + x == x;
    if s[0] == '\'' || s[0] == '"' {
      SeenAfterString(s[0], s[1..]);
    } else if StartsNumber(s) {
      NumberIsPlain(s);
      SeenAfterPlain(s, NumberEnd(s));
    } else if IsIdentStart(s[0]) {
      SeenAfterPlain(s, Span(IsIdentChar, s));
      WordIsNoParen(s[..Span(IsIdentChar, s)]);
    }
  }

  lemma WordIsNoParen(word: string)
    ensures ParenOf(WordToken(word)) == []
  {
  }

  /** Whatever text the lexer accepts, the parentheses among its tokens are those outside literals. */
  lemma {:induction false} LexSees(s: string)
    requires Lex(s).Ok?
    ensures Parens(Lex(s).value) == Seen(s, Outside)
    decreases |s|
  {
    hide Head, Seen;
    if s == "" {
      SeenNothing();
    } else if IsBlank(s[0]) {
      SeenAfterPlain(s, 1);
      LexSees(s[1..]);
    } else {
      var (t, rest) := Head(s).value;
      LexSees(rest);
      HeadSees(s);
      ParensCat([t], Lex(rest).value);
      assert [t][1..] == [] && ParenOf(t) + [] == ParenOf(t);
    }
  }

  lemma SeenNothing()
    ensures Seen("", Outside) == []
  {
  }

  // ----- where the two agree

  /** At every parenthesis the guard and the lexer agree on whether it is inside a literal. */
  predicate AgreeFrom(s: string, quoted: bool, mode: Mode) {
    s == "" || ((IsParen(s[0]) ==> quoted == mode.Inside?) && AgreeFrom(s[1..], quoted != Toggles(s), Next(mode, s[0])))
  }

  /** The single quotes the guard misjudges: those followed by another one, outside double-quoted literals; those not
      followed by another one, inside them. */
  predicate IsMisjudged(s: string, mode: Mode) {
    s != "" && s[0] == '\'' && ((|s| > 1 && s[1] == '\'') != (mode == Inside('"')))
  }

  /** Every parenthesis outside double-quoted literals follows an even number of misjudged quotes, every one inside
      them an odd number. */
  predicate IsEven(s: string, mode: Mode, odd: bool) {
    s == "" ||
    ((IsParen(s[0]) ==> odd == (mode == Inside('"'))) && IsEven(s[1..], Next(mode, s[0]), odd != IsMisjudged(s, mode)))
  }

  predicate IsQuoteMode(mode: Mode) {
    mode.Inside? ==> mode.q == '\'' || mode.q == '"'
  }

  /** For every text, both quote characters included: guard and lexer agree at every parenthesis if and only if the
      misjudged quotes before it are even in number, odd inside a double-quoted literal. */
  lemma {:induction false} AgreesFromExactly(s: string, quoted: bool, mode: Mode)
    requires IsQuoteMode(mode)
    ensures AgreeFrom(s, quoted, mode) <==> IsEven(s, mode, quoted != (mode == Inside('\'')))
  {
    if s != "" {
      AgreesFromExactly(s[1..], quoted != Toggles(s), Next(mode, s[0]));
    }
  }

  lemma {:induction false} AgreementCounts(s: string, quoted: bool, mode: Mode)
    requires AgreeFrom(s, quoted, mode)
    ensures Counted(s, quoted) == Seen(s, mode)
  {
    if s != "" {
      AgreementCounts(s[1..], quoted != Toggles(s), Next(mode, s[0]));
    }
  }

  /** No double quote, and every string literal is non-empty and holds no quote: no two quotes stand side by side. */
  predicate HasPlainQuotes(s: string) {
    '"' !in s && forall i | 0 <= i < |s| - 1 :: !(s[i] == '\'' && s[i + 1] == '\'')
  }

  lemma {:induction false} PlainQuotesAreEven(s: string, mode: Mode)
    requires HasPlainQuotes(s) && mode != Inside('"')
    ensures IsEven(s, mode, false)
  {
    if s != "" {
      PlainQuotesAreEven(s[1..], Next(mode, s[0]));
    }
  }

  // ----- the depth the guard measures

  /** The deepest point of the parentheses, stray closing ones ignored, from a given depth. */
  function Deepest(parens: seq<bool>, depth: nat): (d: nat)
    ensures d >= depth
  {
    if parens == [] then depth
    else if parens[0] then Deepest(parens[1..], depth + 1)
    else Max(depth, Deepest(parens[1..], if depth > 0 then depth - 1 else 0))
  }

  lemma {:induction false} WithinDeepest(parens: seq<bool>, depth: nat, max: nat)
    requires depth <= max
    ensures Within(parens, depth, max) <==> Deepest(parens, depth) <= max
  {
    if parens != [] {
      if parens[0] {
        if depth < max {
          WithinDeepest(parens[1..], depth + 1, max);
        }
      } else {
        WithinDeepest(parens[1..], if depth > 0 then depth - 1 else 0, max);
      }
    }
  }

  /** What the guard measures, for every text and limit: the deepest point of the parentheses it counts. */
  lemma GuardMeasures(filter: string, max: nat)
    ensures WithinDepth(filter, max) <==> Deepest(Counted(filter, false), 0) <= max
  {
    GuardCounts(filter, false, 0, max);
    WithinDeepest(Counted(filter, false), 0, max);
  }

  // ----- the nesting the parser recurses to

  /** Open parentheses, of groups and of calls, at the deepest point of a derivation. */
  function Nesting(t: Tree): nat
    decreases t, 1
  {
    match t
    case Leaf(_) => 0
    case Prop(_) => 0
    case Apply(_, args) => 1 + DeepestOf(args)
    case Group(inner) => 1 + Nesting(inner)
    case Comparison(_, l, r) => Max(Nesting(l), Nesting(r))
    case Negation(c) => Nesting(c)
    case Conj(l, r) => Max(Nesting(l), Nesting(r))
    case Disj(l, r) => Max(Nesting(l), Nesting(r))
  }

  function DeepestOf(args: seq<Tree>): nat
    decreases args, 0
  {
    if args == [] then 0 else Max(Nesting(args[0]), DeepestOf(args[1..]))
  }

  function Max(a: nat, b: nat): nat {
    if a < b then b else a
  }

  /** The parentheses of a derivation, rule by rule. */
  function TreeParens(t: Tree): seq<bool> {
    match t
    case Leaf(_) => []
    case Prop(_) => []
    case Apply(_, args) => [true] + Parens(YieldArgs(args))
    case Group(inner) => [true] + Parens(Yield(inner)) + [false]
    case Comparison(_, l, r) => Parens(Yield(l)) + Parens(Yield(r))
    case Negation(c) => Parens(Yield(c))
    case Conj(l, r) => Parens(Yield(l)) + Parens(Yield(r))
    case Disj(l, r) => Parens(Yield(l)) + Parens(Yield(r))
  }

  lemma ParensOne(t: Token)
    ensures Parens([t]) == ParenOf(t)
  {
    assert [t][1..] == [] && ParenOf(t) + [] == ParenOf(t);
  }

  lemma ParensInfix(a: seq<Token>, t: Token, b: seq<Token>)
    ensures Parens(a + [t] + b) == Parens(a) + ParenOf(t) + Parens(b)
  {
    hide Parens;
    ParensCat(a + [t], b);
    ParensCat(a, [t]);
    ParensOne(t);
  }

  lemma ParensOfCall(t: Tree)
    requires t.Apply?
    ensures Parens(Yield(t)) == TreeParens(t)
  {
    hide Parens, YieldArgs;
    ParensInfix([Identifier(t.name)], LParen, YieldArgs(t.args));
    ParensOne(Identifier(t.name));
    assert [Identifier(t.name)] + [LParen] + YieldArgs(t.args) == Yield(t);
  }

  lemma ParensOfGroup(t: Tree)
    requires t.Group?
    ensures Parens(Yield(t)) == TreeParens(t)
  {
    hide Parens;
    ParensInfix([LParen] + Yield(t.inner), RParen, []);
    ParensCat([LParen], Yield(t.inner));
    ParensOne(LParen);
    ParensNone();
    assert [LParen] + Yield(t.inner) + [RParen] + [] == Yield(t);
  }

  lemma ParensOfTree(t: Tree)
    requires Derivation(t)
    ensures Parens(Yield(t)) == TreeParens(t)
  {
    hide Parens, YieldArgs, Derivation;
    match t
    case Leaf(token) => ParensOne(token); assert IsLiteralToken(token) by { LeafIsLiteral(t); }
    case Prop(name) => ParensOne(Identifier(name));
    case Apply(_, _) => ParensOfCall(t);
    case Group(_) => ParensOfGroup(t);
    case Comparison(op, l, r) => ParensInfix(Yield(l), Compare(op), Yield(r));
    case Negation(c) => ParensCat([NotKw], Yield(c)); ParensOne(NotKw);
    case Conj(l, r) => ParensInfix(Yield(l), AndKw, Yield(r));
    case Disj(l, r) => ParensInfix(Yield(l), OrKw, Yield(r));
  }

  lemma LeafIsLiteral(t: Tree)
    requires t.Leaf? && Derivation(t)
    ensures IsLiteralToken(t.token)
  {
  }

  lemma ParensNone()
    ensures Parens([]) == []
  {
  }

  /** The parentheses of a derivation are balanced, and stay within a limit exactly when its nesting does. */
  lemma {:induction false} WithinTree(t: Tree, rest: seq<bool>, depth: nat, max: nat)
    requires Derivation(t) && depth <= max
    ensures Within(Parens(Yield(t)) + rest, depth, max) <==> depth + Nesting(t) <= max && Within(rest, depth, max)
    decreases t, 1
  {
    hide Parens, Yield, YieldArgs;
    ParensOfTree(t);
    match t
    case Leaf(token) => assert [] + rest == rest;
    case Prop(name) => assert [] + rest == rest;
    case Apply(name, args) =>
      Opened(Parens(YieldArgs(args)) + rest, depth, max);
      assert TreeParens(t) + rest == [true] + (Parens(YieldArgs(args)) + rest);
      if depth < max {
        WithinArgs(args, rest, depth, max);
      }
    case Group(inner) =>
      Opened(Parens(Yield(inner)) + ([false] + rest), depth, max);
      assert TreeParens(t) + rest == [true] + (Parens(Yield(inner)) + ([false] + rest));
      if depth < max {
        WithinTree(inner, [false] + rest, depth + 1, max);
        Closed(rest, depth, max);
      }
    case Comparison(_, l, r) => WithinBoth(t, l, r, rest, depth, max);
    case Conj(l, r) => WithinBoth(t, l, r, rest, depth, max);
    case Disj(l, r) => WithinBoth(t, l, r, rest, depth, max);
    case Negation(c) => WithinTree(c, rest, depth, max);
  }

  lemma {:induction false} WithinBoth(t: Tree, l: Tree, r: Tree, rest: seq<bool>, depth: nat, max: nat)
    requires l < t && r < t && Derivation(l) && Derivation(r) && depth <= max
    ensures Within(Parens(Yield(l)) + Parens(Yield(r)) + rest, depth, max) <==>
            depth + Max(Nesting(l), Nesting(r)) <= max && Within(rest, depth, max)
    decreases t, 0
  {
    hide Parens, Yield, Within;
    WithinTree(l, Parens(Yield(r)) + rest, depth, max);
    WithinTree(r, rest, depth, max);
    assert Parens(Yield(l)) + Parens(Yield(r)) + rest == Parens(Yield(l)) + (Parens(Yield(r)) + rest);
  }

  lemma Opened(rest: seq<bool>, depth: nat, max: nat)
    ensures Within([true] + rest, depth, max) <==> depth < max && Within(rest, depth + 1, max)
  {
    assert ([true] + rest)[1..] == rest;
  }

  lemma Closed(rest: seq<bool>, depth: nat, max: nat)
    ensures Within([false] + rest, depth + 1, max) <==> Within(rest, depth, max)
  {
    assert ([false] + rest)[1..] == rest;
  }

  lemma {:induction false} WithinArgs(args: seq<Tree>, rest: seq<bool>, depth: nat, max: nat)
    requires depth < max && forall i | 0 <= i < |args| :: Derivation(args[i])
    ensures Within(Parens(YieldArgs(args)) + rest, depth + 1, max) <==>
            depth + 1 + DeepestOf(args) <= max && Within(rest, depth, max)
    decreases args, 0
  {
    hide Parens, Yield, Within;
    Closed(rest, depth, max);
    if args == [] {
      ParensOne(RParen);
    } else if |args| == 1 {
      ParensCat(Yield(args[0]), [RParen]);
      ParensOne(RParen);
      WithinTree(args[0], [false] + rest, depth + 1, max);
      assert Parens(Yield(args[0])) + [false] + rest == Parens(Yield(args[0])) + ([false] + rest);
      assert args[1..] == [];
    } else {
      var later := Parens(YieldArgs(args[1..]));
      ParensInfix(Yield(args[0]), Comma, YieldArgs(args[1..]));
      WithinTree(args[0], later + rest, depth + 1, max);
      WithinArgs(args[1..], rest, depth, max);
      assert Parens(Yield(args[0])) + [] + later + rest == Parens(Yield(args[0])) + (later + rest);
    }
  }

  /** The guard and the parser agree. For every accepted filter with evenly misjudged quotes, the guard lets the
      filter through exactly when the parser never has more than `max` parentheses open. */
  lemma GuardExact(filter: string, t: Tree, max: nat)
    requires Derivation(t) && Lex(filter) == Ok(Yield(t)) && IsEven(filter, Outside, false)
    ensures WithinDepth(filter, max) <==> Nesting(t) <= max
  {
    hide Parens, Yield, Lex, Derivation, Nesting, Counted, Seen, IsEven;
    GuardCounts(filter, false, 0, max);
    AgreesFromExactly(filter, false, Outside);
    AgreementCounts(filter, false, Outside);
    LexSees(filter);
    WithinTree(t, [], 0, max);
    assert Parens(Yield(t)) + [] == Parens(Yield(t));
  }

  /** The verdicts of guard and parser, over all limits, are the same if and only if the parentheses the guard counts
      go as deep as the parser does; both follow when the quotes are evenly misjudged. */
  lemma VerdictsExact(filter: string, t: Tree)
    requires Derivation(t) && Lex(filter) == Ok(Yield(t))
    ensures (forall max: nat :: WithinDepth(filter, max) <==> Nesting(t) <= max) <==> Deepest(Counted(filter, false), 0) == Nesting(t)
    ensures IsEven(filter, Outside, false) ==> Deepest(Counted(filter, false), 0) == Nesting(t)
  {
    hide WithinDepth, Deepest, Counted, Nesting, Lex, Derivation, IsEven;
    var guard, parser := Deepest(Counted(filter, false), 0), Nesting(t);
    forall max: nat ensures WithinDepth(filter, max) <==> guard <= max {
      GuardMeasures(filter, max);
    }
    assert WithinDepth(filter, guard) && (guard > 0 ==> !WithinDepth(filter, guard - 1));
    if IsEven(filter, Outside, false) {
      GuardExact(filter, t, guard);
      if guard > 0 {
        GuardExact(filter, t, guard - 1);
      }
    }
  }

  // ----- without that condition the guard can be wrong both ways

  lemma SpellMore(t: Token, ts: seq<Token>)
    requires PrintableToken(t) && AllPrintable(ts) && ts != []
    ensures AllPrintable([t] + ts) && Spell([t] + ts) == Lexeme(t) + " " + Spell(ts)
  {
    hide Lexeme;
    assert ([t] + ts)[1..] == ts;
  }

  lemma {:induction false} SpellWithoutQuote(ts: seq<Token>)
    requires forall i | 0 <= i < |ts| :: ts[i] in {Compare(EQ), LParen, RParen, Identifier("a")}
    ensures AllPrintable(ts) && '\'' !in Spell(ts)
  {
    if |ts| > 1 {
      SpellWithoutQuote(ts[1..]);
    }
  }

  lemma GuardStep(c: char, rest: string, quoted: bool)
    ensures DepthFrom([c] + rest, quoted, 0, 0) ==
            if Toggles([c] + rest) then DepthFrom(rest, !quoted, 0, 0)
            else (quoted || c != '(') && DepthFrom(rest, quoted, 0, 0)
  {
    assert ([c] + rest)[1..] == rest;
  }

  lemma {:induction false} GuardIdles(s: string)
    requires '\'' !in s
    ensures DepthFrom(s, true, 0, 0)
  {
    if s != "" {
      GuardIdles(s[1..]);
    }
  }

  /** After an empty literal the guard takes the rest of the filter for a literal: `'' eq ( a )` nests once and
      passes a limit of 0. */
  lemma EmptyLiteralHidesNesting()
    ensures var t := Comparison(EQ, Leaf(StringLit("")), Group(Prop("a")));
            && Derivation(t) && AllPrintable(Yield(t)) && Lex(Spell(Yield(t))) == Ok(Yield(t))
            && WithinDepth(Spell(Yield(t)), 0) && Nesting(t) == 1
  {
    hide Lex, Spell, DepthFrom;
    var t := Comparison(EQ, Leaf(StringLit("")), Group(Prop("a")));
    var tail := [Compare(EQ), LParen, Identifier("a"), RParen];
    SpellWithoutQuote(tail);
    SpellMore(StringLit(""), tail);
    assert Yield(t) == [StringLit("")] + tail;
    LexSpell(Yield(t));
    var rest := " " + Spell(tail);
    assert Spell(Yield(t)) == ['\''] + (['\''] + rest);
    GuardStep('\'', ['\''] + rest, false);
    GuardStep('\'', rest, false);
    GuardIdles(rest);
  }

  /** After a doubled quote it takes the rest of the literal for filter: `'b''(' eq a` nests not at all and is
      refused under a limit of 0. */
  lemma DoubledQuoteExposesLiteral()
    ensures var t := Comparison(EQ, Leaf(StringLit("b'(")), Prop("a"));
            && Derivation(t) && AllPrintable(Yield(t)) && Lex(Spell(Yield(t))) == Ok(Yield(t))
            && !WithinDepth(Spell(Yield(t)), 0) && Nesting(t) == 0
  {
    hide Lex, Spell, DepthFrom, Doubled;
    var t := Comparison(EQ, Leaf(StringLit("b'(")), Prop("a"));
    var tail := [Compare(EQ), Identifier("a")];
    SpellWithoutQuote(tail);
    SpellMore(StringLit("b'("), tail);
    assert Yield(t) == [StringLit("b'(")] + tail;
    LexSpell(Yield(t));
    DoubledExample();
    var s0 := "'" + (" " + Spell(tail));
    var s1 := ['('] + s0;
    var s2 := ['\''] + s1;
    var s3 := ['\''] + s2;
    var s4 := ['b'] + s3;
    assert Spell(Yield(t)) == ['\''] + s4;
    GuardStep('\'', s4, false);
    GuardStep('b', s3, true);
    GuardStep('\'', s2, true);
    GuardStep('\'', s1, true);
    GuardStep('(', s0, false);
  }

  lemma DoubledExample()
    ensures Doubled('\'', "b'(") == "b''("
  {
    assert "b'("[1..] == "'(" && "'("[1..] == "(" && "("[1..] == "";
    assert Doubled('\'', "(") == "(";
  }

  /** A double-quoted literal, then more tokens. */
  lemma LexDoubleQuoted(v: string, tail: seq<Token>)
    requires AllPrintable(tail)
    ensures Lex("\"" + Doubled('"', v) + "\"" + (" " + Spell(tail))) == Ok([StringLit(v)] + tail)
  {
    hide Doubled, Spell;
    var rest := " " + Spell(tail);
    var s := "\"" + Doubled('"', v) + "\"" + rest;
    LexSpell(tail);
    assert rest[1..] == Spell(tail) && Lex(rest) == Ok(tail);
    hide Head;
    assert s == Quoted('"', v) + rest && !IsBlank(s[0]);
    HeadOfQuoted('"', v, rest);
  }

  lemma DoubledSingle(v: string)
    requires |v| == 1 && v[0] != '"'
    ensures Doubled('"', v) == v
  {
    assert v[1..] == "" && Doubled('"', "") == "";
  }

  /** The guard does not know double-quoted literals: `"(" eq a` nests not at all and is refused under a limit of 0. */
  lemma DoubleQuotedParenIsCounted()
    ensures var t, filter := Comparison(EQ, Leaf(StringLit("(")), Prop("a")), "\"(\"" + (" " + Spell([Compare(EQ), Identifier("a")]));
            && Derivation(t) && Lex(filter) == Ok(Yield(t))
            && !WithinDepth(filter, 0) && Nesting(t) == 0
  {
    hide Lex, Spell, DepthFrom, Doubled;
    var tail := [Compare(EQ), Identifier("a")];
    SpellWithoutQuote(tail);
    DoubledSingle("(");
    LexDoubleQuoted("(", tail);
    var rest := " " + Spell(tail);
    var s1 := ['('] + (['"'] + rest);
    var filter := "\"(\"" + rest;
    assert "\"" + "(" + "\"" == "\"(\"" && filter == ['"'] + s1;
    assert Yield(Comparison(EQ, Leaf(StringLit("(")), Prop("a"))) == [StringLit("(")] + tail;
    GuardStep('"', s1, false);
    GuardStep('(', ['"'] + rest, false);
  }

  /** Nor single quotes inside them: `"'" eq ( a )` nests once and passes a limit of 0. */
  lemma DoubleQuotedQuoteHidesNesting()
    ensures var t, filter := Comparison(EQ, Leaf(StringLit("'")), Group(Prop("a"))), "\"'\"" + (" " + Spell([Compare(EQ), LParen, Identifier("a"), RParen]));
            && Derivation(t) && Lex(filter) == Ok(Yield(t))
            && WithinDepth(filter, 0) && Nesting(t) == 1
  {
    hide Lex, Spell, DepthFrom, Doubled;
    var tail := [Compare(EQ), LParen, Identifier("a"), RParen];
    SpellWithoutQuote(tail);
    DoubledSingle("'");
    LexDoubleQuoted("'", tail);
    var rest := " " + Spell(tail);
    var s1 := ['\''] + (['"'] + rest);
    var filter := "\"'\"" + rest;
    assert "\"" + "'" + "\"" == "\"'\"" && filter == ['"'] + s1;
    assert Yield(Comparison(EQ, Leaf(StringLit("'")), Group(Prop("a")))) == [StringLit("'")] + tail;
    GuardStep('"', s1, false);
    GuardStep('\'', ['"'] + rest, false);
    GuardIdles(['"'] + rest);
  }
}
