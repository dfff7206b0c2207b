/** The `$filter` tokenizer (src/parser/lexer.cpp). */
module FilterLexer {
  import opened Text
  import opened Decimal

  datatype CompareOp = EQ | NE | GT | GE | LT | LE

  /** A token with its decoded payload; the source line, which nothing reads, is dropped. */
  datatype Token =
    | Identifier(name: string)
    | StringLit(value: string)
    | IntegerLit(number: int)
    | FloatLit(lexeme: string)
    | BooleanLit(word: string)
    | NullLit
    | Compare(op: CompareOp)
    | AndKw | OrKw | NotKw
    | LParen | RParen | Comma | Colon
    | End

  predicate IsBlank(c: char) {
    c == ' ' || c == '\t' || c == '\r' || c == '\n'
  }

  predicate IsIdentStart(c: char) {
    IsAlpha(c) || c == '_'
  }

  predicate IsIdentChar(c: char) {
    IsAlpha(c) || IsDigit(c) || c == '_' || c == '.' || c == '/'
  }

  /** The token of an identifier-shaped word: keywords are recognized in any case. */
  function WordToken(word: string): Token {
    var lower := ToLower(word);
    if lower == "eq" then Compare(EQ)
    else if lower == "ne" then Compare(NE)
    else if lower == "gt" then Compare(GT)
    else if lower == "ge" then Compare(GE)
    else if lower == "lt" then Compare(LT)
    else if lower == "le" then Compare(LE)
    else if lower == "and" then AndKw
    else if lower == "or" then OrKw
    else if lower == "not" then NotKw
    else if lower == "true" || lower == "false" then BooleanLit(word)
    else if lower == "null" then NullLit
    else Identifier(word)
  }

  predicate StartsNumber(s: string) {
    s != "" && (IsDigit(s[0]) || (s[0] == '-' && |s| > 1 && IsDigit(s[1])))
  }

  function SkipDigits(s: string, i: nat): (j: nat)
    requires i <= |s|
    ensures i <= j <= |s|
  {
    i + Span(IsDigit, s[i..])
  }

  function WholeEnd(s: string): (j: nat)
    requires StartsNumber(s)
    ensures 0 < j <= |s|
  {
    SkipDigits(s, if s[0] == '-' then 1 else 0)
  }

  function FractionEnd(s: string): (j: nat)
    requires StartsNumber(s)
    ensures WholeEnd(s) <= j <= |s|
  {
    var i := WholeEnd(s);
    if i < |s| && s[i] == '.' then SkipDigits(s, i + 1) else i
  }

  /** Where the number at the head of `s` ends: an integer exactly when that is its WholeEnd. */
  function NumberEnd(s: string): (j: nat)
    requires StartsNumber(s)
    ensures FractionEnd(s) <= j <= |s|
  {
    var i := FractionEnd(s);
    if i < |s| && (s[i] == 'e' || s[i] == 'E') then
      SkipDigits(s, if i + 1 < |s| && (s[i + 1] == '+' || s[i + 1] == '-') then i + 2 else i + 1)
    else i
  }

  lemma WholeNumberIsSigned(s: string)
    requires StartsNumber(s)
    ensures IsSigned(s[..WholeEnd(s)])
  {
    var sign := if s[0] == '-' then 1 else 0;
    var text := s[..WholeEnd(s)];
    forall i | sign <= i < |text|
      ensures IsDigit(text[i])
    {
      assert text[i] == s[sign..][i - sign];
    }
    assert sign == 1 ==> IsDigit(s[1..][0]);
  }

  /** std::stoll on the lexeme of a whole number. */
  function IntegerToken(text: string): Result<Token>
    requires IsSigned(text)
  {
    if IsInt64(SignedValue(text)) then Ok(IntegerLit(SignedValue(text))) else Err(OutOfRange)
  }

  /** The token at the head of a text that starts with no blank, and the text after it. */
  function Head(s: string): (r: Result<(Token, string)>)
    requires s != ""
    ensures r.Ok? ==> |r.value.1| < |s|
  {
    var c := s[0];
    if c == '\'' || c == '"' then
      match ScanQuoted(c, s[1..])
      case None => Err(Lexical)
      case Some((value, rest)) => Ok((StringLit(value), rest))
    else if StartsNumber(s) then
      var n := NumberEnd(s);
      if n != WholeEnd(s) then Ok((FloatLit(s[..n]), s[n..]))
      else
        WholeNumberIsSigned(s);
        match IntegerToken(s[..n])
        case Err(e) => Err(e)
        case Ok(t) => Ok((t, s[n..]))
    else if IsIdentStart(c) then
      var n := Span(IsIdentChar, s);
      Ok((WordToken(s[..n]), s[n..]))
    else if c == '(' then Ok((LParen, s[1..]))
    else if c == ')' then Ok((RParen, s[1..]))
    else if c == ',' then Ok((Comma, s[1..]))
    else if c == ':' then Ok((Colon, s[1..]))
    else Err(Lexical)
  }

  /** Reference lexer: the tokens of a whole text, the closing END token not included. */
  function Lex(s: string): Result<seq<Token>>
    decreases |s|
  {
    if s == "" then Ok([])
    else if IsBlank(s[0]) then Lex(s[1..])
    else
      match Head(s)
      case Err(e) => Err(e)
      case Ok((t, rest)) => Prepend([t], Lex(rest))
  }

  function Prepend<T>(ts: seq<T>, r: Result<seq<T>>): Result<seq<T>> {
    match r
    case Ok(rest) => Ok(ts + rest)
    case Err(e) => Err(e)
  }

  method SkipWhile(p: char -> bool, input: string, start: nat) returns (i: nat)
    requires start <= |input|
    ensures i == start + Span(p, input[start..])
    ensures start <= i <= |input|
  {
    i := start;
    while i < |input| && p(input[i])
      invariant start <= i <= |input|
      invariant forall k | 0 <= k < i - start :: p(input[start..][k])
    {
      i := i + 1;
    }
    SpanIs(p, input[start..], i - start);
  }

  /** The loop over a string literal, from just after its opening quote. */
  method ReadString(quote: char, input: string, start: nat) returns (closed: bool, value: string, i: nat)
    requires start <= |input|
    ensures closed <==> ScanQuoted(quote, input[start..]).Some?
    ensures closed ==> start < i <= |input| && ScanQuoted(quote, input[start..]) == Some((value, input[i..]))
  {
    i, value, closed := start, "", false;
    assert forall v: string :: value + v == v;
    while i < |input|
      invariant start <= i <= |input|
      invariant ScanQuoted(quote, input[start..]) ==
        match ScanQuoted(quote, input[i..]) case None => None case Some((v, rest)) => Some((value + v, rest))
    {
      assert input[i..][1..] == input[i + 1..];
      if input[i] == quote {
        if i + 1 < |input| && input[i + 1] == quote {
          assert input[i..][2..] == input[i + 2..];
          assert forall v: string :: value + [quote] + v == value + ([quote] + v);
          value := value + [quote];
          i := i + 2;
          continue;
        }
        i := i + 1;
        closed := true;
        assert value + "" == value;
        break;
      }
      assert forall v: string :: value + [input[i]] + v == value + ([input[i]] + v);
      value := value + [input[i]];
      i := i + 1;
    }
  }

  /** The digit loops of ReadNumber, `k` characters into the number that starts at `start`. */
  method SkipDigitsAt(input: string, start: nat, k: nat) returns (i: nat)
    requires start + k <= |input|
    ensures i - start == SkipDigits(input[start..], k) && start <= i <= |input|
  {
    i := SkipWhile(IsDigit, input, start + k);
    assert input[start..][k..] == input[start + k..];
  }

  method ReadFraction(input: string, start: nat, whole: nat) returns (i: nat)
    requires start <= |input| && StartsNumber(input[start..]) && whole == start + WholeEnd(input[start..])
    ensures i == start + FractionEnd(input[start..])
  {
    i := whole;
    assert i < |input| ==> input[start..][i - start] == input[i];
    if i < |input| && input[i] == '.' {
      i := SkipDigitsAt(input, start, i + 1 - start);
    }
  }

  method ReadExponent(input: string, start: nat, fraction: nat) returns (i: nat)
    requires start <= |input| && StartsNumber(input[start..]) && fraction == start + FractionEnd(input[start..])
    ensures i == start + NumberEnd(input[start..])
  {
    hide SkipDigits, FractionEnd, Span;
    i := fraction;
    assert i < |input| ==> input[start..][i - start] == input[i];
    if i < |input| && (input[i] == 'e' || input[i] == 'E') {
      i := i + 1;
      assert i < |input| ==> input[start..][i - start] == input[i];
      if i < |input| && (input[i] == '+' || input[i] == '-') {
        i := i + 1;
      }
      i := SkipDigitsAt(input, start, i - start);
    }
  }

  /** The scanning of a number literal: sign and digits, fraction, exponent. */
  method ReadNumber(input: string, start: nat) returns (i: nat, isFloat: bool)
    requires start <= |input| && StartsNumber(input[start..])
    ensures start < i <= |input| && i - start == NumberEnd(input[start..])
    ensures isFloat <==> i - start != WholeEnd(input[start..])
  {
    assert input[start..][0] == input[start];
    var whole := SkipDigitsAt(input, start, if input[start] == '-' then 1 else 0);
    i := ReadFraction(input, start, whole);
    i := ReadExponent(input, start, i);
    isFloat := i != whole;
  }

  lemma Slices(input: string, start: nat, i: nat)
    requires start <= i <= |input|
    ensures input[start..i] == input[start..][..i - start]
    ensures input[i..] == input[start..][i - start..]
  {
  }

  /** What reading a token from position `start` must return: the reference token and the position after it. */
  ghost predicate IsHead(input: string, start: nat, r: Result<Token>, i: nat)
    requires start < |input|
  {
    match Head(input[start..])
    case Err(e) => r == Err(e)
    case Ok((t, rest)) => r == Ok(t) && start < i <= |input| && rest == input[i..]
  }

  lemma HeadOfNumber(s: string)
    requires StartsNumber(s)
    ensures var n := NumberEnd(s);
            if n != WholeEnd(s) then Head(s) == Ok((FloatLit(s[..n]), s[n..]))
            else
              && IsSigned(s[..n])
              && Head(s) == match IntegerToken(s[..n]) case Err(e) => Err(e) case Ok(t) => Ok((t, s[n..]))
  {
    hide NumberEnd, WholeEnd;
    WholeNumberIsSigned(s);
  }

  method ReadNumberToken(input: string, start: nat) returns (r: Result<Token>, i: nat)
    requires start < |input| && StartsNumber(input[start..])
    ensures IsHead(input, start, r, i)
  {
    hide Head, NumberEnd, WholeEnd;
    ghost var s := input[start..];
    var j, isFloat := ReadNumber(input, start);
    i := j;
    Slices(input, start, i);
    HeadOfNumber(s);
    if isFloat {
      r := Ok(FloatLit(input[start..i]));
    } else {
      WholeNumberIsSigned(s);
      r := IntegerToken(input[start..i]);
    }
  }

  method ReadWordToken(input: string, start: nat) returns (r: Result<Token>, i: nat)
    requires start < |input| && IsIdentStart(input[start])
    ensures IsHead(input, start, r, i)
  {
    i := SkipWhile(IsIdentChar, input, start);
    assert IsIdentChar(input[start..][0]);
    Slices(input, start, i);
    r := Ok(WordToken(input[start..i]));
  }

  method ReadStringToken(input: string, start: nat) returns (r: Result<Token>, i: nat)
    requires start < |input| && (input[start] == '\'' || input[start] == '"')
    ensures IsHead(input, start, r, i)
  {
    assert input[start..][1..] == input[start + 1..];
    var closed, value, j := ReadString(input[start], input, start + 1);
    i := j;
    r := if closed then Ok(StringLit(value)) else Err(Lexical);
  }

  /** One token from position `start`, as the body of the main loop reads it. */
  method ReadToken(input: string, start: nat) returns (r: Result<Token>, i: nat)
    requires start < |input|
    ensures IsHead(input, start, r, i)
  {
    var c := input[start];
    assert input[start..][0] == c;
    assert start + 1 < |input| ==> input[start..][1] == input[start + 1];
    if c == '\'' || c == '"' {
      r, i := ReadStringToken(input, start);
    } else if IsDigit(c) || (c == '-' && start + 1 < |input| && IsDigit(input[start + 1])) {
      r, i := ReadNumberToken(input, start);
    } else if IsIdentStart(c) {
      r, i := ReadWordToken(input, start);
    } else {
      i := start + 1;
      Slices(input, start, i);
      match c
      case '(' => r := Ok(LParen);
      case ')' => r := Ok(RParen);
      case ',' => r := Ok(Comma);
      case ':' => r := Ok(Colon);
      case _ => r := Err(Lexical);
    }
  }

  /** Tokenize: one loop moving `i` over the input and pushing tokens, END last. */
  method Tokenize(input: string) returns (r: Result<seq<Token>>)
    ensures match Lex(input) case Err(e) => r == Err(e) case Ok(ts) => r == Ok(ts + [End])
  {
    var tokens: seq<Token> := [];
    var i := 0;
    assert input[0..] == input;
    assert forall ts: seq<Token> :: tokens + ts == ts;
    while i < |input|
      invariant i <= |input|
      invariant Lex(input) == Prepend(tokens, Lex(input[i..]))
    {
      assert input[i..][1..] == input[i + 1..];
      if IsBlank(input[i]) {
        i := i + 1;
        continue;
      }
      var token, next := ReadToken(input, i);
      if token.Err? {
        return Err(token.error);
      }
      assert forall ts: seq<Token> :: tokens + ([token.value] + ts) == tokens + [token.value] + ts;
      tokens := tokens + [token.value];
      i := next;
    }
    assert input[i..] == "";
    assert tokens + [] == tokens;
    return Ok(tokens + [End]);
  }
}
