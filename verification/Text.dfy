/** Character classes, case folding, quoting and decimal text shared by the whole model.
    A C++ `std::string` is a Dafny `string`; where byte values matter, `IsBytes` says that
    every character is below 256. Character classes are those of the "C" locale. */
module Text {
  datatype Option<+T> = None | Some(value: T)

  /** Why an operation of the front end refuses its input.
      Lexical, Syntax and Semantic are ODataParseException (status 400);
      OutOfRange is std::out_of_range thrown by std::stoll (status 500 in the lexer). */
  datatype Error = Lexical | Syntax | Semantic | OutOfRange

  datatype Result<+T> = Ok(value: T) | Err(error: Error)

  /** Re-association of an infix production. */
  lemma Infix<T>(a: seq<T>, rest: seq<T>, b: seq<T>, c: seq<T>)
    requires rest != [] && rest[1..] == b + c
    ensures a + [rest[0]] + b + c == a + rest
  {
    assert rest == [rest[0]] + (b + c);
  }

  predicate IsBytes(s: string) {
    forall i | 0 <= i < |s| :: s[i] as int < 256
  }

  predicate IsDigit(c: char) {
    '0' <= c <= '9'
  }

  predicate IsAlpha(c: char) {
    'a' <= c <= 'z' || 'A' <= c <= 'Z'
  }

  /** std::isspace. */
  predicate IsSpace(c: char) {
    c == ' ' || 9 <= c as int <= 13
  }

  function LowerChar(c: char): char {
    if 'A' <= c <= 'Z' then (c as int + 32) as char else c
  }

  function ToLower(s: string): (r: string)
    ensures |r| == |s|
    ensures forall i | 0 <= i < |s| :: r[i] == LowerChar(s[i])
  {
    seq(|s|, i requires 0 <= i < |s| => LowerChar(s[i]))
  }

  lemma ToLowerCat(a: string, b: string)
    ensures ToLower(a + b) == ToLower(a) + ToLower(b)
  {
  }

  /** The length of the longest prefix of `s` all of whose characters satisfy `p`. */
  function Span(p: char -> bool, s: string): (n: nat)
    ensures n <= |s|
    ensures forall i | 0 <= i < n :: p(s[i])
    ensures n < |s| ==> !p(s[n])
  {
    if s == "" || !p(s[0]) then 0 else 1 + Span(p, s[1..])
  }

  lemma {:induction false} SpanIs(p: char -> bool, s: string, n: nat)
    requires n <= |s|
    requires forall i | 0 <= i < n :: p(s[i])
    requires n < |s| ==> !p(s[n])
    ensures Span(p, s) == n
  {
    if n > 0 {
      SpanIs(p, s[1..], n - 1);
    }
  }

  /** Leading and trailing characters satisfying `p` removed. */
  function TrimWith(p: char -> bool, s: string): string {
    TrimEnd(p, s[Span(p, s)..])
  }

  function TrimEnd(p: char -> bool, s: string): (r: string)
    ensures r <= s
    ensures r != "" ==> !p(r[|r| - 1])
    ensures forall i | |r| <= i < |s| :: p(s[i])
  {
    if s != "" && p(s[|s| - 1]) then TrimEnd(p, s[..|s| - 1]) else s
  }

  function Trim(s: string): string {
    TrimWith(IsSpace, s)
  }

  /** Every occurrence of the quote `q` doubled: the body of QuoteIdentifier and QuoteStringLiteral. */
  function Doubled(q: char, s: string): string {
    if s == "" then "" else (if s[0] == q then [q, q] else [s[0]]) + Doubled(q, s[1..])
  }

  function Quoted(q: char, s: string): string {
    [q] + Doubled(q, s) + [q]
  }

  lemma {:induction false} DoubledCat(q: char, a: string, b: string)
    ensures Doubled(q, a + b) == Doubled(q, a) + Doubled(q, b)
  {
    if a == "" {
      assert a + b == b;
    } else {
      assert (a + b)[1..] == a[1..] + b;
      DoubledCat(q, a[1..], b);
    }
  }

  /** Reads the text after an opening quote up to its closing quote, undoing doubled quotes:
      the value and what follows the closing quote, or None when the quote is never closed. */
  function ScanQuoted(q: char, s: string): (r: Option<(string, string)>)
    ensures r.Some? ==> |r.value.1| < |s|
  {
    if s == "" then None
    else if s[0] != q then
      match ScanQuoted(q, s[1..])
      case None => None
      case Some((v, rest)) => Some(([s[0]] + v, rest))
    else if |s| > 1 && s[1] == q then
      match ScanQuoted(q, s[2..])
      case None => None
      case Some((v, rest)) => Some(([q] + v, rest))
    else Some(("", s[1..]))
  }

  /** Quoting is undone by scanning, whatever follows, unless what follows starts with the quote itself. */
  lemma {:induction false} ScanDoubled(q: char, s: string, rest: string)
    requires rest == "" || rest[0] != q
    ensures ScanQuoted(q, Doubled(q, s) + [q] + rest) == Some((s, rest))
  {
    var t := Doubled(q, s) + [q] + rest;
    assert s != "" ==> s == [s[0]] + s[1..];
    if s == "" {
      assert t == [q] + rest;
    } else if s[0] == q {
      assert t == [q, q] + (Doubled(q, s[1..]) + [q] + rest);
      assert t[2..] == Doubled(q, s[1..]) + [q] + rest;
      ScanDoubled(q, s[1..], rest);
    } else {
      assert t == [s[0]] + (Doubled(q, s[1..]) + [q] + rest);
      assert t[1..] == Doubled(q, s[1..]) + [q] + rest;
      ScanDoubled(q, s[1..], rest);
    }
  }

  /** Scanning is not disturbed by text appended after the closing quote. */
  lemma {:induction false} ScanCat(q: char, a: string, b: string)
    requires ScanQuoted(q, a).Some?
    requires ScanQuoted(q, a).value.1 != "" || b == "" || b[0] != q
    ensures ScanQuoted(q, a + b) == Some((ScanQuoted(q, a).value.0, ScanQuoted(q, a).value.1 + b))
  {
    if a[0] != q {
      assert (a + b)[1..] == a[1..] + b;
      ScanCat(q, a[1..], b);
    } else if |a| > 1 && a[1] == q {
      assert (a + b)[2..] == a[2..] + b;
      ScanCat(q, a[2..], b);
    } else {
      assert (a + b)[1..] == a[1..] + b;
    }
  }

  /** Texts joined by a separator. */
  function Join(parts: seq<string>, sep: string): string {
    if parts == [] then "" else if |parts| == 1 then parts[0] else parts[0] + sep + Join(parts[1..], sep)
  }

  lemma {:induction false} JoinSnoc(parts: seq<string>, sep: string, last: string)
    requires parts != []
    ensures Join(parts + [last], sep) == Join(parts, sep) + sep + last
  {
    if |parts| == 1 {
      assert (parts + [last])[1..] == [last];
    } else {
      assert (parts + [last])[1..] == parts[1..] + [last];
      JoinSnoc(parts[1..], sep, last);
    }
  }

  /** Joining no text and one text. */
  lemma JoinFew(t: string, sep: string)
    ensures Join([], sep) == "" && Join([t], sep) == t == "" + t && [] + [t] == [t]
  {
    assert "" + t == t;
  }

  /** QuoteIdentifier and QuoteStringLiteral: one loop, over the quote character. */
  method Quote(q: char, value: string) returns (result: string)
    ensures result == Quoted(q, value)
  {
    result := [q];
    for i := 0 to |value|
      invariant result == [q] + Doubled(q, value[..i])
    {
      assert value[..i + 1] == value[..i] + [value[i]];
      DoubledCat(q, value[..i], [value[i]]);
      if value[i] == q {
        result := result + [q, q];
      } else {
        result := result + [value[i]];
      }
    }
    assert value[..|value|] == value;
    result := result + [q];
  }

  /** The two loops of Trim. */
  method TrimText(p: char -> bool, input: string) returns (r: string)
    ensures r == TrimWith(p, input)
  {
    var start := 0;
    while start < |input| && p(input[start])
      invariant start <= |input|
      invariant forall i | 0 <= i < start :: p(input[i])
    {
      start := start + 1;
    }
    SpanIs(p, input, start);
    r := input[start..];
    while r != "" && p(r[|r| - 1])
      invariant TrimEnd(p, r) == TrimEnd(p, input[start..])
      decreases |r|
    {
      r := r[..|r| - 1];
    }
  }

  /** A text that neither starts nor ends with a removable character is kept. */
  lemma TrimKeeps(p: char -> bool, s: string)
    requires s == "" || (!p(s[0]) && !p(s[|s| - 1]))
    ensures TrimWith(p, s) == s
  {
    SpanIs(p, s, 0);
    assert s[0..] == s;
  }
}

/** Decimal text of integers, as std::to_string writes it and std::stoll reads it. */
module Decimal {
  import opened Text

  const INT64_MIN: int := -0x8000_0000_0000_0000
  const INT64_MAX: int := 0x7FFF_FFFF_FFFF_FFFF

  predicate IsInt64(n: int) {
    INT64_MIN <= n <= INT64_MAX
  }

  predicate AllDigits(s: string) {
    forall i | 0 <= i < |s| :: IsDigit(s[i])
  }

  function DigitChar(d: nat): (c: char)
    requires d < 10
    ensures IsDigit(c)
  {
    (d + '0' as int) as char
  }

  function Digits(n: nat): (s: string)
    ensures s != "" && AllDigits(s)
  {
    if n < 10 then [DigitChar(n)] else Digits(n / 10) + [DigitChar(n % 10)]
  }

  function ValueOf(s: string): nat
    requires AllDigits(s)
  {
    if s == "" then 0 else 10 * ValueOf(s[..|s| - 1]) + (s[|s| - 1] as int - '0' as int)
  }

  /** std::to_string. */
  function Show(n: int): (s: string)
    ensures s != ""
  {
    if n < 0 then "-" + Digits(-n) else Digits(n)
  }

  lemma {:induction false} ValueOfDigits(n: nat)
    ensures ValueOf(Digits(n)) == n
  {
    if n >= 10 {
      var s := Digits(n);
      assert s[..|s| - 1] == Digits(n / 10);
      ValueOfDigits(n / 10);
    }
  }

  /** A text of a sign and digits, as std::stoll is given it by the lexer. */
  predicate IsSigned(s: string) {
    s != "" && AllDigits(if s[0] == '-' then s[1..] else s) && s != "-"
  }

  function SignedValue(s: string): int
    requires IsSigned(s)
  {
    if s[0] == '-' then 0 - ValueOf(s[1..]) else ValueOf(s)
  }

  lemma SignedShow(n: int)
    ensures IsSigned(Show(n)) && SignedValue(Show(n)) == n
  {
    if n < 0 {
      ValueOfDigits(-n);
      assert Show(n)[1..] == Digits(-n);
    } else {
      ValueOfDigits(n);
    }
  }
}
