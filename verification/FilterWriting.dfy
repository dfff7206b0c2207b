/** The texts a `$filter` may be written as: a lexical grammar and the expressions derivations denote, both apart from
    the tokenizer and the parser, which are then shown to accept exactly these texts. */
module FilterWriting {
  import opened Text
  import opened Decimal
  import opened FilterLexer
  import opened FilterGrammar
  import opened FilterParsing
  import opened FilterParser

  // ----- lexemes

  /** `w` is the lower-case `word` in some mixture of upper and lower case. */
  predicate IsCasing(w: string, word: string) {
    |w| == |word| && forall i | 0 <= i < |w| :: w[i] == word[i] || ('A' <= w[i] <= 'Z' && w[i] as int + 32 == word[i] as int)
  }

  predicate IsWord(w: string) {
    w != "" && IsIdentStart(w[0]) && forall i | 0 <= i < |w| :: IsIdentChar(w[i])
  }

  predicate IsKeyword(w: string) {
    || IsCasing(w, "eq") || IsCasing(w, "ne") || IsCasing(w, "gt") || IsCasing(w, "ge") || IsCasing(w, "lt") || IsCasing(w, "le")
    || IsCasing(w, "and") || IsCasing(w, "or") || IsCasing(w, "not")
    || IsCasing(w, "true") || IsCasing(w, "false") || IsCasing(w, "null")
  }

  /** An identifier that is no keyword. */
  predicate IsName(w: string) {
    IsWord(w) && !IsKeyword(w)
  }

  function CompareWord(op: CompareOp): string {
    match op
    case EQ => "eq"
    case NE => "ne"
    case GT => "gt"
    case GE => "ge"
    case LT => "lt"
    case LE => "le"
  }

  predicate DigitsIn(w: string, i: nat, j: nat)
    requires j <= |w|
  {
    forall k | i <= k < j :: IsDigit(w[k])
  }

  predicate IsMark(c: char) {
    c == 'e' || c == 'E'
  }

  predicate IsSign(c: char) {
    c == '+' || c == '-'
  }

  /** Sign and digits up to `i`, a point and digits up to `j`, an exponent to the end. The digits after the point, and
      after the exponent's sign, may be missing. */
  predicate IsNumber(w: string, i: nat, j: nat) {
    && 0 < i <= j <= |w| && w != "-" && DigitsIn(w, if w[0] == '-' then 1 else 0, i) && (w[0] == '-' ==> i > 1)
    && (i < j ==> w[i] == '.' && DigitsIn(w, i + 1, j))
    && (j < |w| ==> IsMark(w[j]) && DigitsIn(w, if j + 1 < |w| && IsSign(w[j + 1]) then j + 2 else j + 1, |w|))
  }

  /** No character of `rest` continues a word. */
  predicate WordStops(rest: string) {
    rest == "" || !IsIdentChar(rest[0])
  }

  /** The number with these parts is not continued in `rest`. */
  predicate NumberStops(w: string, i: nat, j: nat, rest: string) {
    rest == "" ||
    (&& !IsDigit(rest[0])
     && (i == |w| ==> rest[0] != '.')
     && (j == |w| ==> !IsMark(rest[0]))
     && (j + 1 == |w| ==> !IsSign(rest[0])))
  }

  ghost predicate IsFloat(w: string, rest: string) {
    exists i: nat, j: nat | IsNumber(w, i, j) :: NumberStops(w, i, j, rest) && i < |w|
  }

  /** `w`, with `rest` after it, spells the token: keywords in any case, either kind of quotes. */
  ghost predicate IsLexeme(t: Token, w: string, rest: string) {
    match t
    case Identifier(name) => w == name && IsName(w) && WordStops(rest)
    case StringLit(s) => exists q | q in {'\'', '"'} :: w == Quoted(q, s) && (rest == "" || rest[0] != q)
    case IntegerLit(n) => IsSigned(w) && SignedValue(w) == n && IsInt64(n) && NumberStops(w, |w|, |w|, rest)
    case FloatLit(lexeme) => w == lexeme && IsFloat(w, rest)
    case BooleanLit(word) => w == word && (IsCasing(w, "true") || IsCasing(w, "false")) && WordStops(rest)
    case NullLit => IsCasing(w, "null") && WordStops(rest)
    case Compare(op) => IsCasing(w, CompareWord(op)) && WordStops(rest)
    case AndKw => IsCasing(w, "and") && WordStops(rest)
    case OrKw => IsCasing(w, "or") && WordStops(rest)
    case NotKw => IsCasing(w, "not") && WordStops(rest)
    case LParen => w == "("
    case RParen => w == ")"
    case Comma => w == ","
    case Colon => w == ":"
    case End => false
  }

  predicate AllBlank(s: string) {
    forall i | 0 <= i < |s| :: IsBlank(s[i])
  }

  /** `text` spells the tokens, with any blanks before, between and after them. */
  ghost predicate Spelling(ts: seq<Token>, text: string) {
    if ts == [] then AllBlank(text)
    else exists b, w, rest | AllBlank(b) && IsLexeme(ts[0], w, rest) :: text == b + w + rest && Spelling(ts[1..], rest)
  }

  // ----- the tokenizer reads one lexeme

  lemma CasingIsLower(w: string, word: string)
    requires forall i | 0 <= i < |word| :: !('A' <= word[i] <= 'Z')
    ensures IsCasing(w, word) <==> ToLower(w) == word
  {
  }

  lemma KeywordsAreLower(w: string)
    ensures forall word | word in {"eq", "ne", "gt", "ge", "lt", "le", "and", "or", "not", "true", "false", "null"} ::
              IsCasing(w, word) <==> ToLower(w) == word
  {
    forall word | word in {"eq", "ne", "gt", "ge", "lt", "le", "and", "or", "not", "true", "false", "null"}
      ensures IsCasing(w, word) <==> ToLower(w) == word {
      CasingIsLower(w, word);
    }
  }

  predicate IsWordToken(t: Token) {
    t.Identifier? || t.BooleanLit? || t.Compare? || t in {NullLit, AndKw, OrKw, NotKw}
  }

  lemma WordReads(w: string, t: Token, rest: string)
    requires IsWord(w) && WordStops(rest)
    ensures IsLexeme(t, w, rest) <==> WordToken(w) == t
  {
    if IsWordToken(t) {
      WordTokenReads(w, t, rest);
    } else {
      hide WordToken;
      NoWordReads(w, t, rest);
    }
  }

  lemma WordTokenReads(w: string, t: Token, rest: string)
    requires IsWord(w) && WordStops(rest) && IsWordToken(t)
    ensures IsLexeme(t, w, rest) <==> WordToken(w) == t
  {
    KeywordsAreLower(w);
    KeywordsDiffer();
    hide IsCasing, IsWord, WordStops, ToLower;
    if t.Compare? {
      CompareWords(w, t.op);
    }
  }

  lemma CompareWords(w: string, op: CompareOp)
    requires IsWord(w)
    ensures IsCasing(w, CompareWord(op)) <==> WordToken(w) == Compare(op)
  {
    KeywordsAreLower(w);
    KeywordsDiffer();
    hide IsCasing, IsWord, ToLower;
  }

  lemma NoWordReads(w: string, t: Token, rest: string)
    requires IsWord(w) && !IsWordToken(t)
    ensures !IsLexeme(t, w, rest) && WordToken(w) != t
  {
    assert IsWordToken(WordToken(w));
    assert !IsDigit(w[0]) && w[0] != '-' && w[0] != '\'' && w[0] != '"';
    match t
    case StringLit(s) => assert forall q :: Quoted(q, s)[0] == q;
    case _ =>
  }

  lemma KeywordsDiffer()
    ensures "eq" !in {"ne", "gt", "ge", "lt", "le", "and", "or", "not", "true", "false", "null"}
    ensures "ne" !in {"gt", "ge", "lt", "le", "and", "or", "not", "true", "false", "null"}
    ensures "gt" !in {"ge", "lt", "le", "and", "or", "not", "true", "false", "null"}
    ensures "ge" !in {"lt", "le", "and", "or", "not", "true", "false", "null"}
    ensures "lt" !in {"le", "and", "or", "not", "true", "false", "null"}
    ensures "le" !in {"and", "or", "not", "true", "false", "null"}
    ensures "and" !in {"or", "not", "true", "false", "null"}
    ensures "or" !in {"not", "true", "false", "null"}
    ensures "not" !in {"true", "false", "null"}
    ensures "true" !in {"false", "null"} && "false" != "null"
  {
    assert |"eq"| == |"ne"| == |"gt"| == |"ge"| == |"lt"| == |"le"| == |"or"| == 2;
    assert |"and"| == |"not"| == 3 && |"true"| == |"null"| == 4 && |"false"| == 5;
    assert "eq"[0] == 'e' && "ne"[0] == 'n' && "gt" == ['g', 't'] && "ge" == ['g', 'e'] && "lt" == ['l', 't'] && "le" == ['l', 'e'];
    assert "or"[0] == 'o' && "and"[0] == 'a' && "not"[0] == 'n' && "true"[0] == 't' && "null"[0] == 'n';
  }

  lemma DigitsEndAt(s: string, i: nat, j: nat)
    requires i <= j <= |s| && (forall k | i <= k < j :: IsDigit(s[k])) && (j < |s| ==> !IsDigit(s[j]))
    ensures SkipDigits(s, i) == j
  {
    SpanIs(IsDigit, s[i..], j - i);
  }

  /** The end of each part of a number is where the scan stops. */
  lemma NumberReads(w: string, i: nat, j: nat, rest: string)
    requires IsNumber(w, i, j) && NumberStops(w, i, j, rest)
    ensures StartsNumber(w + rest) && WholeEnd(w + rest) == i && NumberEnd(w + rest) == |w|
  {
    hide SkipDigits;
    var s, n := w + rest, |w|;
    assert (forall k | 0 <= k < n :: s[k] == w[k]) && (n < |s| ==> s[n] == rest[0]);
    DigitsEndAt(s, if w[0] == '-' then 1 else 0, i);
    if i < j {
      DigitsEndAt(s, i + 1, j);
    }
    assert FractionEnd(s) == j;
    hide FractionEnd, WholeEnd;
    if j < n {
      DigitsEndAt(s, if j + 1 < n && IsSign(w[j + 1]) then j + 2 else j + 1, n);
    }
  }

  /** A lexeme is read as its token, and reading stops at its end. */
  lemma HeadReads(w: string, t: Token, rest: string)
    requires IsLexeme(t, w, rest)
    ensures w != "" && !IsBlank(w[0]) && Head(w + rest) == Ok((t, rest))
  {
    hide Head, NumberEnd, WholeEnd, IsCasing, WordToken, IsFloat, IsNumber;
    match t
    case StringLit(s) =>
      var q :| q in {'\'', '"'} && w == Quoted(q, s) && (rest == "" || rest[0] != q);
      HeadOfQuoted(q, s, rest);
    case IntegerLit(_) =>
      WholeNumber(w);
      NumberReads(w, |w|, |w|, rest);
      HeadOfDigits(w, |w|, rest);
    case FloatLit(_) => FloatReads(w, rest);
    case LParen => HeadOfSymbol(t, rest);
    case RParen => HeadOfSymbol(t, rest);
    case Comma => HeadOfSymbol(t, rest);
    case Colon => HeadOfSymbol(t, rest);
    case _ =>
      CasingIsWord(w, t, rest);
      HeadOfWord(w, rest);
      WordReads(w, t, rest);
  }

  lemma WholeNumber(w: string)
    ensures IsNumber(w, |w|, |w|) <==> IsSigned(w)
  {
    var sign := if w != "" && w[0] == '-' then 1 else 0;
    assert forall k | sign <= k < |w| :: w[sign..][k - sign] == w[k];
    assert w[sign..] == (if sign == 1 then w[1..] else w);
  }

  lemma FloatReads(w: string, rest: string)
    requires IsFloat(w, rest)
    ensures w != "" && !IsBlank(w[0]) && Head(w + rest) == Ok((FloatLit(w), rest))
  {
    hide Head;
    var i: nat, j: nat :| IsNumber(w, i, j) && NumberStops(w, i, j, rest) && i < |w|;
    hide IsNumber, NumberStops, NumberEnd, WholeEnd, StartsNumber;
    NumberReads(w, i, j, rest);
    HeadOfDigits(w, i, rest);
  }

  lemma HeadOfQuoted(q: char, s: string, rest: string)
    requires q in {'\'', '"'} && (rest == "" || rest[0] != q)
    ensures Head(Quoted(q, s) + rest) == Ok((StringLit(s), rest)) && !IsBlank(Quoted(q, s)[0])
  {
    assert (Quoted(q, s) + rest)[1..] == Doubled(q, s) + [q] + rest;
    ScanDoubled(q, s, rest);
  }

  lemma HeadOfDigits(w: string, whole: nat, rest: string)
    requires StartsNumber(w + rest) && NumberEnd(w + rest) == |w| && WholeEnd(w + rest) == whole
    ensures w != "" && !IsBlank(w[0])
    ensures if whole == |w| then
              IsSigned(w) && Head(w + rest) == (match IntegerToken(w) case Err(e) => Err(e) case Ok(t) => Ok((t, rest)))
            else Head(w + rest) == Ok((FloatLit(w), rest))
  {
    hide Head, NumberEnd, WholeEnd;
    var s := w + rest;
    HeadOfNumber(s);
    assert s[..|w|] == w && s[|w|..] == rest && s[0] == w[0];
  }

  lemma HeadOfSymbol(t: Token, rest: string)
    requires t in {LParen, RParen, Comma, Colon}
    ensures Head((if t == LParen then "(" else if t == RParen then ")" else if t == Comma then "," else ":") + rest) == Ok((t, rest))
  {
    var w := if t == LParen then "(" else if t == RParen then ")" else if t == Comma then "," else ":";
    assert (w + rest)[1..] == rest && |w| == 1;
  }

  lemma HeadOfWord(word: string, rest: string)
    requires IsWord(word) && WordStops(rest)
    ensures Head(word + rest) == Ok((WordToken(word), rest)) && !IsBlank(word[0])
  {
    SpanIs(IsIdentChar, word + rest, |word|);
    assert (word + rest)[..|word|] == word && (word + rest)[|word|..] == rest;
  }

  lemma KeywordIsWord(w: string)
    requires IsKeyword(w)
    ensures IsWord(w)
  {
    var words := {"eq", "ne", "gt", "ge", "lt", "le", "and", "or", "not", "true", "false", "null"};
    var word :| word in words && IsCasing(w, word);
    assert word != "" && forall i | 0 <= i < |word| :: 'a' <= word[i] <= 'z';
  }

  /** The words among the lexemes. */
  lemma CasingIsWord(w: string, t: Token, rest: string)
    requires IsLexeme(t, w, rest) && !t.StringLit? && !t.IntegerLit? && !t.FloatLit? && t !in {LParen, RParen, Comma, Colon}
    ensures IsWord(w) && WordStops(rest)
  {
    hide IsCasing, IsWord;
    if !t.Identifier? {
      KeywordIsWord(w);
    }
  }

  // ----- and every token is read from a lexeme

  lemma {:induction false} ScanWrites(q: char, s: string)
    requires ScanQuoted(q, s).Some?
    ensures var (v, rest) := ScanQuoted(q, s).value; s == Doubled(q, v) + [q] + rest && (rest == "" || rest[0] != q)
  {
    var (v, rest) := ScanQuoted(q, s).value;
    if s[0] != q || (|s| > 1 && s[1] == q) {
      var k := if s[0] != q then 1 else 2;
      ScanWrites(q, s[k..]);
      assert v == [s[0]] + v[1..] && ScanQuoted(q, s[k..]) == Some((v[1..], rest));
      assert s == s[..k] + s[k..];
    }
  }

  lemma SkippedDigits(s: string, i: nat)
    requires i <= |s|
    ensures forall k | i <= k < SkipDigits(s, i) :: IsDigit(s[k])
    ensures SkipDigits(s, i) < |s| ==> !IsDigit(s[SkipDigits(s, i)])
  {
    assert forall k | i <= k < |s| :: s[k] == s[i..][k - i];
  }

  /** The parts a number is scanned in. */
  lemma NumberWrites(s: string)
    requires StartsNumber(s)
    ensures var (i, j, n) := (WholeEnd(s), FractionEnd(s), NumberEnd(s));
            IsNumber(s[..n], i, j) && NumberStops(s[..n], i, j, s[n..])
  {
    hide SkipDigits;
    var i, j, n := WholeEnd(s), FractionEnd(s), NumberEnd(s);
    var w, rest := s[..n], s[n..];
    assert (forall k | 0 <= k < n :: w[k] == s[k]) && (n < |s| ==> rest[0] == s[n]);
    SkippedDigits(s, if s[0] == '-' then 1 else 0);
    if j != i {
      SkippedDigits(s, i + 1);
    }
    if n != j {
      SkippedDigits(s, if j + 1 < |s| && IsSign(s[j + 1]) then j + 2 else j + 1);
    }
  }

  lemma HeadWrites(s: string) returns (w: string)
    requires s != "" && Head(s).Ok?
    ensures s == w + Head(s).value.1 && IsLexeme(Head(s).value.0, w, Head(s).value.1)
  {
    hide WordToken, NumberEnd, WholeEnd, IsNumber, Doubled;
    var (t, rest) := Head(s).value;
    var c := s[0];
    if c == '\'' || c == '"' {
      ScanWrites(c, s[1..]);
      w := Quoted(c, t.value);
      assert s == [c] + s[1..];
    } else if StartsNumber(s) {
      w := NumberLexeme(s);
    } else if IsIdentStart(c) {
      w := s[..Span(IsIdentChar, s)];
      WordReads(w, t, rest);
    } else {
      w := s[..1];
    }
  }

  lemma NumberLexeme(s: string) returns (w: string)
    requires StartsNumber(s) && Head(s).Ok?
    ensures s == w + Head(s).value.1 && IsLexeme(Head(s).value.0, w, Head(s).value.1)
  {
    hide Head, NumberEnd, WholeEnd, FractionEnd, IsSigned, IsNumber, NumberStops, StartsNumber;
    HeadOfNumber(s);
    var n := NumberEnd(s);
    w := s[..n];
    assert w + s[n..] == s && |w| == n;
    NumberWrites(s);
    WholeNumber(w);
  }

  // ----- whole texts

  lemma BlankThen(ts: seq<Token>, c: char, text: string)
    requires IsBlank(c) && Spelling(ts, text)
    ensures Spelling(ts, [c] + text)
  {
    hide IsLexeme;
    if ts != [] {
      var b, w, rest :| AllBlank(b) && IsLexeme(ts[0], w, rest) && text == b + w + rest && Spelling(ts[1..], rest);
      assert AllBlank([c] + b) && [c] + text == [c] + b + w + rest;
    }
  }

  lemma {:induction false} LexWrites(text: string)
    requires Lex(text).Ok?
    ensures Spelling(Lex(text).value, text)
    decreases |text|
  {
    hide Head, IsLexeme;
    if text == "" {
    } else if IsBlank(text[0]) {
      LexWrites(text[1..]);
      BlankThen(Lex(text).value, text[0], text[1..]);
      assert [text[0]] + text[1..] == text;
    } else {
      var (t, rest) := Head(text).value;
      LexWrites(rest);
      var w := HeadWrites(text);
      assert AllBlank("") && text == "" + w + rest;
      assert ([t] + Lex(rest).value)[1..] == Lex(rest).value;
    }
  }

  lemma {:induction false} BlanksSkipped(b: string, s: string)
    requires AllBlank(b)
    ensures Lex(b + s) == Lex(s)
  {
    if b == "" {
      assert b + s == s;
    } else {
      assert (b + s)[1..] == b[1..] + s;
      BlanksSkipped(b[1..], s);
    }
  }

  lemma {:induction false} LexReads(ts: seq<Token>, text: string)
    requires Spelling(ts, text)
    ensures Lex(text) == Ok(ts)
  {
    hide Head, IsLexeme;
    if ts == [] {
      BlanksSkipped(text, "");
      assert text + "" == text;
    } else {
      var b, w, rest :| AllBlank(b) && IsLexeme(ts[0], w, rest) && text == b + w + rest && Spelling(ts[1..], rest);
      HeadReads(w, ts[0], rest);
      LexReads(ts[1..], rest);
      BlanksSkipped(b, w + rest);
      assert b + (w + rest) == text && (w + rest)[0] == w[0];
      assert [ts[0]] + ts[1..] == ts;
    }
  }

  /** The tokenizer is exact: it returns a token list for a text if and only if the text spells it. */
  lemma LexExact(text: string, ts: seq<Token>)
    ensures Lex(text) == Ok(ts) <==> Spelling(ts, text)
  {
    if Spelling(ts, text) {
      LexReads(ts, text);
    }
    if Lex(text).Ok? {
      LexWrites(text);
    }
  }

  // ----- the one refusal of the tokenizer that is no client error

  /** After tokens that are well spelled comes an integer outside 64 bits. */
  ghost predicate Overflows(text: string)
    decreases |text|
  {
    exists b, w, rest | AllBlank(b) && w != "" && text == b + w + rest ::
      || IsTooLarge(w, rest)
      || ((exists t :: IsLexeme(t, w, rest)) && Overflows(rest))
  }

  predicate IsTooLarge(w: string, rest: string) {
    IsSigned(w) && NumberStops(w, |w|, |w|, rest) && !IsInt64(SignedValue(w))
  }

  lemma TooLargeReads(w: string, rest: string)
    requires IsTooLarge(w, rest)
    ensures !IsBlank(w[0]) && Head(w + rest) == Err(OutOfRange)
  {
    hide Head, NumberEnd, WholeEnd, NumberStops, IsNumber;
    WholeNumber(w);
    NumberReads(w, |w|, |w|, rest);
    HeadOfDigits(w, |w|, rest);
  }

  lemma TooLargeWrites(s: string) returns (w: string, rest: string)
    requires s != "" && Head(s) == Err(OutOfRange)
    ensures s == w + rest && w != "" && IsTooLarge(w, rest)
  {
    assert StartsNumber(s) by { OnlyNumbersOverflow(s); }
    hide Head, NumberEnd, WholeEnd, FractionEnd, IsSigned, IsNumber, NumberStops, StartsNumber;
    HeadOfNumber(s);
    var n := NumberEnd(s);
    w, rest := s[..n], s[n..];
    assert w + rest == s && |w| == n;
    NumberWrites(s);
    WholeNumber(w);
  }

  lemma OnlyNumbersOverflow(s: string)
    requires s != "" && Head(s) == Err(OutOfRange)
    ensures StartsNumber(s)
  {
    hide NumberEnd, WholeEnd, WordToken;
  }

  lemma {:induction false} OverflowIsRead(text: string)
    requires Overflows(text)
    ensures Lex(text) == Err(OutOfRange)
    decreases |text|
  {
    hide Head, IsLexeme, IsTooLarge;
    var b, w, rest :| AllBlank(b) && w != "" && text == b + w + rest
      && (IsTooLarge(w, rest) || ((exists t :: IsLexeme(t, w, rest)) && Overflows(rest)));
    BlanksSkipped(b, w + rest);
    assert b + (w + rest) == text && (w + rest)[0] == w[0];
    if IsTooLarge(w, rest) {
      TooLargeReads(w, rest);
    } else {
      var t :| IsLexeme(t, w, rest);
      HeadReads(w, t, rest);
      OverflowIsRead(rest);
    }
  }

  lemma {:induction false} OverflowIsWritten(text: string)
    requires Lex(text) == Err(OutOfRange)
    ensures Overflows(text)
    decreases |text|
  {
    hide Head, IsLexeme, IsTooLarge;
    if IsBlank(text[0]) {
      OverflowIsWritten(text[1..]);
      var b, w, rest :| AllBlank(b) && w != "" && text[1..] == b + w + rest
        && (IsTooLarge(w, rest) || ((exists t :: IsLexeme(t, w, rest)) && Overflows(rest)));
      assert AllBlank([text[0]] + b) && text == [text[0]] + b + w + rest;
    } else if Head(text).Ok? {
      var (t, rest) := Head(text).value;
      OverflowIsWritten(rest);
      var w := HeadWrites(text);
      assert AllBlank("") && text == "" + w + rest && w != "";
    } else {
      var w, rest := TooLargeWrites(text);
      assert AllBlank("") && text == "" + w + rest;
    }
  }

  /** A filter fails as out of range, which the server answers with 500 and not 400, if and only if such an integer comes before
      anything else is wrong. */
  lemma OverflowExact(text: string)
    ensures FilterExpr(text) == Err(OutOfRange) <==> Overflows(text)
  {
    hide Overflows, Lex;
    if Overflows(text) {
      OverflowIsRead(text);
    }
    if Lex(text) == Err(OutOfRange) {
      OverflowIsWritten(text);
    }
  }

  // ----- what a derivation says

  /** The expression `t` is written for. Booleans may be spelled in any case, parentheses may be redundant. */
  predicate Says(t: Tree, e: Expr) {
    match t
    case Leaf(StringLit(s)) => e == Lit(Str(s))
    case Leaf(IntegerLit(n)) => e == Lit(Integer(n))
    case Leaf(FloatLit(lexeme)) => e == Lit(Float(lexeme))
    case Leaf(BooleanLit(word)) => e.Lit? && e.value.Boolean? && (e.value.b <==> IsCasing(word, "true"))
    case Leaf(NullLit) => e == Lit(Null)
    case Leaf(_) => false
    case Prop(name) => e == Property(name)
    case Apply(name, args) =>
      && e.FunctionCall? && e.name == name && |e.args| == |args|
      && forall i | 0 <= i < |args| :: Says(args[i], e.args[i])
    case Group(inner) => Says(inner, e)
    case Comparison(op, l, r) => e.Binary? && e.op == Cmp(op) && Says(l, e.left) && Says(r, e.right)
    case Negation(c) => e.Unary? && Says(c, e.child)
    case Conj(l, r) => e.Binary? && e.op == BinaryOp.AND && Says(l, e.left) && Says(r, e.right)
    case Disj(l, r) => e.Binary? && e.op == BinaryOp.OR && Says(l, e.left) && Says(r, e.right)
  }

  lemma {:induction false} SaysExactly(t: Tree, e: Expr)
    requires Derivation(t)
    ensures Says(t, e) <==> Ast(t) == e
  {
    match t
    case Leaf(token) => if token.BooleanLit? { CasingIsLower(token.word, "true"); }
    case Prop(_) =>
    case Apply(name, args) =>
      if e.FunctionCall? && |e.args| == |args| {
        forall i | 0 <= i < |args| ensures Says(args[i], e.args[i]) <==> Ast(args[i]) == e.args[i] {
          SaysExactly(args[i], e.args[i]);
        }
        assert Ast(t).args == e.args <==> forall i | 0 <= i < |args| :: Ast(args[i]) == e.args[i];
      }
    case Group(inner) => SaysExactly(inner, e);
    case Negation(c) => if e.Unary? { SaysExactly(c, e.child); }
    case Comparison(_, l, r) => if e.Binary? { SaysExactly(l, e.left); SaysExactly(r, e.right); }
    case Conj(l, r) => if e.Binary? { SaysExactly(l, e.left); SaysExactly(r, e.right); }
    case Disj(l, r) => if e.Binary? { SaysExactly(l, e.left); SaysExactly(r, e.right); }
  }

  /** `text` is one way of writing `e`: keywords and booleans in any case, any blanks, any redundant parentheses. */
  ghost predicate Writes(text: string, e: Expr) {
    exists t | Derivation(t) && Says(t, e) :: Spelling(Yield(t), text)
  }

  /** From characters to expressions: a `$filter` is read as an expression if and only if it is a way of writing it. */
  lemma FilterExact(text: string, e: Expr)
    ensures FilterExpr(text) == Ok(e) <==> Writes(text, e)
  {
    hide Lex, Spelling, ParseTree, Derivation, Says, Ast, Yield;
    if Writes(text, e) {
      var t :| Derivation(t) && Says(t, e) && Spelling(Yield(t), text);
      LexExact(text, Yield(t));
      ParserMatchesGrammar(Yield(t), t);
      SaysExactly(t, e);
    }
    if FilterExpr(text) == Ok(e) {
      var ts := Lex(text).value;
      var t := ParseTree(ts).value;
      LexExact(text, ts);
      ParserMatchesGrammar(ts, t);
      SaysExactly(t, e);
    }
  }
}
