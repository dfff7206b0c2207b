/** An independent lexer for the SQL text the front end emits: the part of DuckDB's lexical syntax it uses. */
module SqlLexer {
  import opened Text
  import opened FilterLexer

  datatype Keyword =
    | AS | BY | OR | IS
    | AND | NOT | ASC | SET
    | FROM | NULL | TRUE | FALSE | CAST | DESC | INTO
    | WHERE | ORDER | LIMIT
    | SELECT | OFFSET | INSERT | VALUES | UPDATE | DELETE
    | DEFAULT | RETURNING

  datatype Tok =
    | Kw(k: Keyword)
    | Word(w: string)
    | Name(s: string)
    | Chars(s: string)
    | Num(text: string)
    | Op(op: CompareOp)
    | LP | RP | LB | RB | Sep | Dot | Star | Hole | Minus

  function KeywordText(k: Keyword): string {
    match k
    case AS => "AS" case BY => "BY" case OR => "OR" case IS => "IS"
    case AND => "AND" case NOT => "NOT" case ASC => "ASC" case SET => "SET"
    case FROM => "FROM" case NULL => "NULL" case TRUE => "TRUE" case FALSE => "FALSE"
    case CAST => "CAST" case DESC => "DESC" case INTO => "INTO"
    case WHERE => "WHERE" case ORDER => "ORDER" case LIMIT => "LIMIT"
    case SELECT => "SELECT" case OFFSET => "OFFSET" case INSERT => "INSERT"
    case VALUES => "VALUES" case UPDATE => "UPDATE" case DELETE => "DELETE"
    case DEFAULT => "DEFAULT" case RETURNING => "RETURNING"
  }

  /** Keywords in the upper-case spelling the compilers emit. */
  function WordTok(w: string): Tok {
    if |w| == 2 then
      if w == "AS" then Kw(AS) else if w == "BY" then Kw(BY) else if w == "OR" then Kw(OR)
      else if w == "IS" then Kw(IS) else Word(w)
    else if |w| == 3 then
      if w == "AND" then Kw(AND) else if w == "NOT" then Kw(NOT) else if w == "ASC" then Kw(ASC)
      else if w == "SET" then Kw(SET) else Word(w)
    else if |w| == 4 then
      if w == "FROM" then Kw(FROM) else if w == "NULL" then Kw(NULL) else if w == "TRUE" then Kw(TRUE)
      else if w == "CAST" then Kw(CAST) else if w == "DESC" then Kw(DESC) else if w == "INTO" then Kw(INTO) else Word(w)
    else if |w| == 5 then
      if w == "WHERE" then Kw(WHERE) else if w == "ORDER" then Kw(ORDER) else if w == "LIMIT" then Kw(LIMIT)
      else if w == "FALSE" then Kw(FALSE) else Word(w)
    else if |w| == 6 then
      if w == "SELECT" then Kw(SELECT) else if w == "OFFSET" then Kw(OFFSET) else if w == "INSERT" then Kw(INSERT)
      else if w == "VALUES" then Kw(VALUES) else if w == "UPDATE" then Kw(UPDATE)
      else if w == "DELETE" then Kw(DELETE) else Word(w)
    else if w == "DEFAULT" then Kw(DEFAULT)
    else if w == "RETURNING" then Kw(RETURNING)
    else Word(w)
  }

  predicate IsWordStart(c: char) {
    IsAlpha(c) || c == '_'
  }

  predicate IsWordChar(c: char) {
    IsAlpha(c) || IsDigit(c) || c == '_'
  }

  predicate IsNumberChar(c: char) {
    IsDigit(c) || c == '.'
  }

  /** The token at the head of `s` and the text after it. A comment opener (`--`) is no token. */
  function HeadTok(s: string): (r: Option<(Tok, string)>)
    requires s != ""
    ensures r.Some? ==> |r.value.1| < |s|
  {
    var c := s[0];
    if c == '"' || c == '\'' then
      match ScanQuoted(c, s[1..])
      case None => None
      case Some((v, rest)) => Some((if c == '"' then Name(v) else Chars(v), rest))
    else if IsDigit(c) then
      var n := Span(IsNumberChar, s);
      Some((Num(s[..n]), s[n..]))
    else if IsWordStart(c) then
      var n := Span(IsWordChar, s);
      Some((WordTok(s[..n]), s[n..]))
    else if c == '<' && |s| > 1 && s[1] == '>' then Some((Op(NE), s[2..]))
    else if c == '<' && |s| > 1 && s[1] == '=' then Some((Op(LE), s[2..]))
    else if c == '>' && |s| > 1 && s[1] == '=' then Some((Op(GE), s[2..]))
    else if c == '-' && |s| > 1 && s[1] == '-' then None
    else
      match SymbolTok(c)
      case None => None
      case Some(t) => Some((t, s[1..]))
  }

  function SymbolTok(c: char): Option<Tok> {
    match c
    case '<' => Some(Op(LT))
    case '>' => Some(Op(GT))
    case '=' => Some(Op(EQ))
    case '(' => Some(LP)
    case ')' => Some(RP)
    case '[' => Some(LB)
    case ']' => Some(RB)
    case ',' => Some(Sep)
    case '.' => Some(Dot)
    case '*' => Some(Star)
    case '?' => Some(Hole)
    case '-' => Some(Minus)
    case _ => None
  }

  function LexSql(s: string): Option<seq<Tok>>
    decreases |s|
  {
    if s == "" then Some([])
    else if IsSpace(s[0]) then LexSql(s[1..])
    else
      match HeadTok(s)
      case None => None
      case Some((t, rest)) =>
        match LexSql(rest)
        case None => None
        case Some(ts) => Some([t] + ts)
  }

  // ----- texts that lex separately lex together

  predicate EndsOpenGap(c: char) {
    c == ' ' || c == '(' || c == ',' || c == '='
  }

  predicate StartsGap(c: char) {
    c == ' ' || c == ')' || c == ',' || c == '('
  }

  /** No token can straddle the place where `a` and `b` meet. */
  predicate Boundary(a: string, b: string) {
    || a == "" || b == ""
    || EndsOpenGap(a[|a| - 1])
    || StartsGap(b[0])
    || (a[|a| - 1] == '"' && b[0] != '"')
    || (a[|a| - 1] == '.' && b[0] == '"')
  }

  /** `a` lexes to `ts`. */
  ghost predicate Lexes(a: string, ts: seq<Tok>) {
    LexSql(a) == Some(ts)
  }

  lemma HeadCat(a: string, b: string)
    requires a != "" && !IsSpace(a[0]) && HeadTok(a).Some?
    requires HeadTok(a).value.1 == "" ==> Boundary(a, b)
    ensures HeadTok(a + b) == Some((HeadTok(a).value.0, HeadTok(a).value.1 + b))
  {
    var c, s := a[0], a + b;
    var r := HeadTok(a).value.1;
    assert s[1..] == a[1..] + b;
    if c == '"' || c == '\'' {
      if r == "" {
        ScanEndsInQuote(c, a[1..]);
      }
      ScanCat(c, a[1..], b);
    } else if IsDigit(c) {
      HeadSpan(IsNumberChar, a, b);
    } else if IsWordStart(c) {
      HeadSpan(IsWordChar, a, b);
    } else if |a| > 1 {
      assert s[2..] == a[2..] + b;
    } else if b != "" {
      assert s[1..] == b && s[1] == b[0];
    }
  }

  lemma HeadSpan(p: char -> bool, a: string, b: string)
    requires Span(p, a) == |a| ==> b == "" || !p(b[0])
    ensures Span(p, a + b) == Span(p, a)
    ensures (a + b)[..Span(p, a)] == a[..Span(p, a)] && (a + b)[Span(p, a)..] == a[Span(p, a)..] + b
  {
    var n := Span(p, a);
    assert forall i | 0 <= i < n :: (a + b)[i] == a[i];
    assert n < |a| ==> (a + b)[n] == a[n];
    assert n == |a| && b != "" ==> (a + b)[n] == b[0];
    SpanIs(p, a + b, n);
    SplitCat(a, b, n);
  }

  lemma SplitCat(a: string, b: string, n: nat)
    requires n <= |a|
    ensures (a + b)[..n] == a[..n] && (a + b)[n..] == a[n..] + b
  {
  }

  lemma {:induction false} ScanEndsInQuote(q: char, a: string)
    requires ScanQuoted(q, a).Some? && ScanQuoted(q, a).value.1 == ""
    ensures a[|a| - 1] == q
  {
    if a[0] != q {
      ScanEndsInQuote(q, a[1..]);
    } else if |a| > 1 && a[1] == q {
      ScanEndsInQuote(q, a[2..]);
    }
  }

  lemma LexHead(a: string)
    requires a != "" && !IsSpace(a[0])
    ensures LexSql(a) ==
            match HeadTok(a)
            case None => None
            case Some((t, r)) => (match LexSql(r) case None => None case Some(ts) => Some([t] + ts))
  {
    hide HeadTok;
  }

  lemma LexBlank(a: string)
    requires a != "" && IsSpace(a[0])
    ensures LexSql(a) == LexSql(a[1..])
  {
  }

  lemma TailBoundary(a: string, b: string)
    requires a != "" && Boundary(a, b)
    ensures Boundary(a[1..], b)
  {
  }

  lemma SuffixBoundary(a: string, b: string)
    requires a != "" && HeadTok(a).Some? && Boundary(a, b)
    ensures Boundary(HeadTok(a).value.1, b)
  {
    hide HeadTok;
    HeadIsSuffix(a);
  }

  lemma {:induction false} LexCat(a: string, ta: seq<Tok>, b: string, tb: seq<Tok>)
    requires Lexes(a, ta) && Lexes(b, tb) && Boundary(a, b)
    ensures Lexes(a + b, ta + tb)
    decreases |a|
  {
    hide HeadTok, LexSql, Boundary;
    if a == "" {
      LexEmpty();
      assert a + b == b && ta + tb == tb;
    } else if IsSpace(a[0]) {
      LexBlank(a);
      LexBlank(a + b);
      assert (a + b)[1..] == a[1..] + b;
      TailBoundary(a, b);
      LexCat(a[1..], ta, b, tb);
    } else {
      LexHead(a);
      var (t, r) := HeadTok(a).value;
      var ts := LexSql(r).value;
      SuffixBoundary(a, b);
      HeadCat(a, b);
      LexCat(r, ts, b, tb);
      LexHead(a + b);
      assert [t] + (ts + tb) == [t] + ts + tb;
    }
  }

  lemma HeadIsSuffix(a: string)
    requires a != "" && HeadTok(a).Some?
    ensures var r := HeadTok(a).value.1; r != "" ==> r[|r| - 1] == a[|a| - 1]
  {
    var c := a[0];
    if c == '"' || c == '\'' {
      ScanIsSuffix(c, a[1..]);
    }
  }

  lemma {:induction false} ScanIsSuffix(q: char, a: string)
    requires ScanQuoted(q, a).Some?
    ensures var r := ScanQuoted(q, a).value.1; r != "" ==> r[|r| - 1] == a[|a| - 1]
  {
    if a[0] != q {
      ScanIsSuffix(q, a[1..]);
    } else if |a| > 1 && a[1] == q {
      ScanIsSuffix(q, a[2..]);
    }
  }

  // ----- the pieces the compilers emit

  lemma LexEmpty()
    ensures Lexes("", [])
  {
  }

  lemma LexOne(s: string, t: Tok)
    requires s != "" && !IsSpace(s[0]) && HeadTok(s) == Some((t, ""))
    ensures Lexes(s, [t])
  {
    assert LexSql("") == Some([]);
    assert [t] + [] == [t];
  }

  lemma LexQuotedName(s: string)
    ensures Lexes(Quoted('"', s), [Name(s)])
  {
    var t := Quoted('"', s);
    assert t[1..] == Doubled('"', s) + ['"'] + "";
    ScanDoubled('"', s, "");
    LexOne(t, Name(s));
  }

  lemma LexQuotedChars(s: string)
    ensures Lexes(Quoted('\'', s), [Chars(s)])
  {
    var t := Quoted('\'', s);
    assert t[1..] == Doubled('\'', s) + ['\''] + "";
    ScanDoubled('\'', s, "");
    LexOne(t, Chars(s));
  }

  lemma LexWord(w: string)
    requires w != "" && IsWordStart(w[0]) && forall i | 0 <= i < |w| :: IsWordChar(w[i])
    ensures Lexes(w, [WordTok(w)])
  {
    SpanIs(IsWordChar, w, |w|);
    assert w[..|w|] == w && w[|w|..] == "";
    LexOne(w, WordTok(w));
  }

  lemma LexNumber(w: string)
    requires w != "" && IsDigit(w[0]) && forall i | 0 <= i < |w| :: IsNumberChar(w[i])
    ensures Lexes(w, [Num(w)])
  {
    SpanIs(IsNumberChar, w, |w|);
    assert w[..|w|] == w && w[|w|..] == "";
    LexOne(w, Num(w));
  }

  lemma LexSymbol(c: char)
    requires SymbolTok(c).Some?
    ensures Lexes([c], [SymbolTok(c).value])
  {
    assert [c][1..] == "";
    LexOne([c], SymbolTok(c).value);
  }

  lemma {:induction false} LexSpaceBefore(a: string, ta: seq<Tok>)
    requires Lexes(a, ta)
    ensures Lexes(" " + a, ta)
  {
    assert (" " + a)[1..] == a;
  }

  lemma LexSpaceAfter(a: string, ta: seq<Tok>)
    requires Lexes(a, ta)
    ensures Lexes(a + " ", ta)
  {
    assert " "[1..] == "";
    LexCat(a, ta, " ", []);
    assert ta + [] == ta;
  }

  lemma WordTokLower(w: string)
    requires w != "" && 'a' <= w[0] <= 'z'
    ensures WordTok(w) == Word(w)
  {
  }

  lemma KeywordIsWord(k: Keyword)
    ensures var w := KeywordText(k); w != "" && forall i | 0 <= i < |w| :: IsWordChar(w[i]) && IsWordStart(w[i])
  {
    forall i | 0 <= i < |KeywordText(k)| ensures 'A' <= KeywordText(k)[i] <= 'Z' {
    }
  }

  lemma WordTokShort(k: Keyword)
    requires |KeywordText(k)| <= 3
    ensures WordTok(KeywordText(k)) == Kw(k)
  {
    var first, second := KeywordText(k)[0], KeywordText(k)[1];
  }

  lemma WordTokMiddle(k: Keyword)
    requires |KeywordText(k)| == 4
    ensures WordTok(KeywordText(k)) == Kw(k)
  {
    var first, second := KeywordText(k)[0], KeywordText(k)[1];
  }

  lemma WordTokLong(k: Keyword)
    requires |KeywordText(k)| >= 5
    ensures WordTok(KeywordText(k)) == Kw(k)
  {
    var first, second := KeywordText(k)[0], KeywordText(k)[1];
  }

  lemma WordTokKeyword(k: Keyword)
    ensures WordTok(KeywordText(k)) == Kw(k)
  {
    if |KeywordText(k)| <= 3 {
      WordTokShort(k);
    } else if |KeywordText(k)| == 4 {
      WordTokMiddle(k);
    } else {
      WordTokLong(k);
    }
  }

  lemma LexKeyword(k: Keyword)
    ensures Lexes(KeywordText(k), [Kw(k)])
  {
    KeywordIsWord(k);
    WordTokKeyword(k);
    LexWord(KeywordText(k));
  }
}
