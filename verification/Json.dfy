/** JSON rows (src/execution/result_serializer.cpp, JsonEscape in src/common/string_util.cpp) and a parser written
    from RFC 8259. */
module Json {
  import opened Text
  import opened Decimal
  import Base64

  // ----- writing

  /** A value of a result: null, boolean, integer, text, binary. */
  datatype Cell = NullCell | BoolCell(b: bool) | IntCell(n: int) | TextCell(s: string) | BlobCell(data: string)

  function HexLower(d: nat): char
    requires d < 16
  {
    if d < 10 then (d + '0' as int) as char else (d - 10 + 'a' as int) as char
  }

  function EscapeChar(c: char): (e: string)
    ensures e != ""
  {
    if c == '"' then "\\\""
    else if c == '\\' then "\\\\"
    else if c as int == 8 then "\\b"
    else if c as int == 12 then "\\f"
    else if c == '\n' then "\\n"
    else if c == '\r' then "\\r"
    else if c == '\t' then "\\t"
    else if c as int < 32 then "\\u00" + [HexLower(c as int / 16), HexLower(c as int % 16)]
    else [c]
  }

  function JsonEscape(s: string): string {
    if s == "" then "" else EscapeChar(s[0]) + JsonEscape(s[1..])
  }

  predicate ValidCell(c: Cell) {
    c.BlobCell? ==> IsBytes(c.data)
  }

  function StringText(s: string): string {
    "\"" + JsonEscape(s) + "\""
  }

  function ValueToJson(c: Cell): string
    requires ValidCell(c)
  {
    match c
    case NullCell => "null"
    case BoolCell(b) => if b then "true" else "false"
    case IntCell(n) => Show(n)
    case TextCell(s) => StringText(s)
    case BlobCell(data) => "\"" + Base64.Encode(data) + "\""
  }

  /** Rows of a result with these column names. */
  predicate ValidRow(names: seq<string>, row: seq<Cell>) {
    |row| == |names| && forall i | 0 <= i < |row| :: ValidCell(row[i])
  }

  predicate ValidRows(names: seq<string>, rows: seq<seq<Cell>>) {
    forall i | 0 <= i < |rows| :: ValidRow(names, rows[i])
  }

  function MemberText(name: string, c: Cell): string
    requires ValidCell(c)
  {
    StringText(name) + ":" + ValueToJson(c)
  }

  function MemberTexts(names: seq<string>, row: seq<Cell>): seq<string>
    requires ValidRow(names, row)
  {
    seq(|row|, i requires 0 <= i < |row| => MemberText(names[i], row[i]))
  }

  function RowText(names: seq<string>, row: seq<Cell>): string
    requires ValidRow(names, row)
  {
    "{" + Join(MemberTexts(names, row), ",") + "}"
  }

  function RowTexts(names: seq<string>, rows: seq<seq<Cell>>): seq<string>
    requires ValidRows(names, rows)
  {
    seq(|rows|, i requires 0 <= i < |rows| => RowText(names, rows[i]))
  }

  lemma {:induction false} EscapeCat(a: string, b: string)
    ensures JsonEscape(a + b) == JsonEscape(a) + JsonEscape(b)
  {
    hide EscapeChar;
    if a == "" {
      assert a + b == b;
    } else {
      assert (a + b)[1..] == a[1..] + b;
      EscapeCat(a[1..], b);
    }
  }

  method Escape(value: string) returns (result: string)
    ensures result == JsonEscape(value)
  {
    result := "";
    assert value[..0] == "";
    for i := 0 to |value|
      invariant result == JsonEscape(value[..i])
    {
      var c := value[i];
      EscapeCat(value[..i], [c]);
      assert value[..i + 1] == value[..i] + [c] && [c][1..] == "" && EscapeChar(c) + "" == EscapeChar(c);
      result := result + EscapeChar(c);
    }
    assert value[..|value|] == value;
  }

  /** The loop over the columns of a row. */
  method WriteMembers(names: seq<string>, row: seq<Cell>) returns (out: string)
    requires ValidRow(names, row)
    ensures out == Join(MemberTexts(names, row), ",")
  {
    hide MemberText, Join;
    out := "";
    JoinFew("", ",");
    var texts := MemberTexts(names, row);
    assert texts[..0] == [];
    for c := 0 to |row|
      invariant out == Join(texts[..c], ",")
    {
      assert texts[..c + 1] == texts[..c] + [texts[c]];
      if c > 0 {
        JoinSnoc(texts[..c], ",", texts[c]);
        out := out + ",";
      } else {
        JoinFew(texts[c], ",");
      }
      var name := Escape(names[c]);
      assert texts[c] == "\"" + name + "\":" + ValueToJson(row[c]) by { MemberShape(names[c], row[c]); }
      out := out + ("\"" + name + "\":" + ValueToJson(row[c]));
    }
    assert texts[..|row|] == texts;
  }

  lemma MemberShape(name: string, c: Cell)
    requires ValidCell(c)
    ensures MemberText(name, c) == "\"" + JsonEscape(name) + "\":" + ValueToJson(c)
  {
    assert "\"" + JsonEscape(name) + "\"" + ":" == "\"" + JsonEscape(name) + "\":";
  }

  function Rows(chunks: seq<seq<seq<Cell>>>): seq<seq<Cell>> {
    if chunks == [] then [] else chunks[0] + Rows(chunks[1..])
  }

  /** One row appended to the rows written so far. */
  method WriteRow(names: seq<string>, ghost rows: seq<seq<Cell>>, row: seq<Cell>, body: string, count: nat) returns (more: string)
    requires ValidRow(names, row) && ValidRows(names, rows) && body == Join(RowTexts(names, rows), ",") && count == |rows|
    ensures ValidRows(names, rows + [row]) && more == Join(RowTexts(names, rows + [row]), ",")
  {
    hide RowText, Join, ValidRow;
    assert forall i | 0 <= i < |rows + [row]| :: ValidRow(names, (rows + [row])[i]);
    ghost var texts := RowTexts(names, rows);
    assert RowTexts(names, rows + [row]) == texts + [RowText(names, row)];
    more := body;
    if count > 0 {
      JoinSnoc(texts, ",", RowText(names, row));
      more := more + ",";
    } else {
      JoinFew(RowText(names, row), ",");
      assert texts == [];
    }
    var members := WriteMembers(names, row);
    assert RowText(names, row) == "{" + members + "}" by { RowShape(names, row); }
    more := more + ("{" + members + "}");
  }

  lemma RowShape(names: seq<string>, row: seq<Cell>)
    requires ValidRow(names, row)
    ensures RowText(names, row) == "{" + Join(MemberTexts(names, row), ",") + "}"
  {
  }

  /** SerializeRows: the rows of all chunks, whatever the chunks, with their number. */
  method SerializeRows(names: seq<string>, chunks: seq<seq<seq<Cell>>>) returns (body: string, rowsOut: nat)
    requires ValidRows(names, Rows(chunks))
    ensures body == Join(RowTexts(names, Rows(chunks)), ",") && rowsOut == |Rows(chunks)|
  {
    hide RowTexts, Join, ValidRow, Rows;
    body, rowsOut := "", 0;
    ghost var done: seq<seq<Cell>> := [];
    NoRows(names);
    assert chunks[0..] == chunks;
    assert done + Rows(chunks) == Rows(chunks);
    for k := 0 to |chunks|
      invariant Rows(chunks) == done + Rows(chunks[k..]) && ValidRows(names, done)
      invariant body == Join(RowTexts(names, done), ",") && rowsOut == |done|
    {
      var chunk := chunks[k];
      NextChunk(chunks, k);
      ghost var start := done;
      assert start + chunk[..0] == start;
      for r := 0 to |chunk|
        invariant done == start + chunk[..r] && ValidRows(names, done)
        invariant body == Join(RowTexts(names, done), ",") && rowsOut == |done|
      {
        assert Rows(chunks)[|start| + r] == chunk[r];
        body := WriteRow(names, done, chunk[r], body, rowsOut);
        assert start + chunk[..r] + [chunk[r]] == start + chunk[..r + 1];
        done := done + [chunk[r]];
        rowsOut := rowsOut + 1;
      }
      assert chunk[..|chunk|] == chunk;
    }
    assert chunks[|chunks|..] == [] && done + [] == done;
  }

  lemma NoRows(names: seq<string>)
    ensures Rows([]) == [] && ValidRows(names, []) && Join(RowTexts(names, []), ",") == ""
  {
    assert RowTexts(names, []) == [];
  }

  lemma NextChunk(chunks: seq<seq<seq<Cell>>>, k: nat)
    requires k < |chunks|
    ensures Rows(chunks[k..]) == chunks[k] + Rows(chunks[k + 1..])
  {
    assert chunks[k..][1..] == chunks[k + 1..];
  }

  /** SerializeFirstRowMembers: the first row of the first chunk, if that chunk has one. */
  method SerializeFirstRowMembers(names: seq<string>, chunks: seq<seq<seq<Cell>>>, out: string) returns (found: bool, more: string)
    requires chunks != [] ==> ValidRows(names, chunks[0])
    ensures found <==> chunks != [] && chunks[0] != []
    ensures more == if found then out + Join(MemberTexts(names, chunks[0][0]), ",") else out
  {
    if chunks == [] || chunks[0] == [] {
      return false, out;
    }
    var members := WriteMembers(names, chunks[0][0]);
    return true, out + members;
  }
}

/** A parser for the JSON texts of RFC 8259, and the round trip of rows through it. */
module JsonParsing {
  import opened Text
  import opened Decimal
  import opened Json
  import Base64
  import Url

  datatype JValue = JNull | JBool(b: bool) | JNumber(text: string) | JString(s: string) | JArray(items: seq<JValue>) | JObject(members: seq<(string, JValue)>)

  // ----- the parser

  predicate IsWhite(c: char) {
    c == ' ' || c == '\t' || c == '\n' || c == '\r'
  }

  function Skip(s: string): (r: string)
    ensures |r| <= |s|
    ensures s != "" && !IsWhite(s[0]) ==> r == s
  {
    if s != "" && IsWhite(s[0]) then Skip(s[1..]) else s
  }

  /** An escape sequence, section 7: the character and the length. `\u` is read for ASCII characters only. */
  function Unescape(s: string): (r: Option<(char, nat)>)
    requires s != "" && s[0] == '\\'
    ensures r.Some? ==> 0 < r.value.1 <= |s|
  {
    if |s| < 2 then None
    else if s[1] == '"' || s[1] == '\\' || s[1] == '/' then Some((s[1], 2))
    else if s[1] == 'b' then Some((8 as char, 2))
    else if s[1] == 'f' then Some((12 as char, 2))
    else if s[1] == 'n' then Some(('\n', 2))
    else if s[1] == 'r' then Some(('\r', 2))
    else if s[1] == 't' then Some(('\t', 2))
    else if s[1] == 'u' && |s| >= 6 && s[2] == '0' && s[3] == '0' && 0 <= Url.HexValue(s[4]) < 8 && Url.HexValue(s[5]) >= 0 then
      Some(((Url.HexValue(s[4]) * 16 + Url.HexValue(s[5])) as char, 6))
    else None
  }

  /** The characters of a string after its opening quote, and the text after its closing quote. */
  function ParseChars(s: string): (r: Option<(string, string)>)
    ensures r.Some? ==> |r.value.1| < |s|
    decreases |s|
  {
    if s == "" then None
    else if s[0] == '"' then Some(("", s[1..]))
    else if s[0] == '\\' then
      match Unescape(s)
      case None => None
      case Some((c, n)) => Cons(c, ParseChars(s[n..]))
    else if s[0] as int < 32 then None
    else Cons(s[0], ParseChars(s[1..]))
  }

  function Cons(c: char, r: Option<(string, string)>): Option<(string, string)> {
    match r
    case None => None
    case Some((v, rest)) => Some(([c] + v, rest))
  }

  /** Where digits that start at `i` end; None when there is none. */
  function DigitsEnd(s: string, i: nat): (r: Option<nat>)
    requires i <= |s|
    ensures r.Some? ==> i < r.value <= |s|
  {
    var n := Span(IsDigit, s[i..]);
    if n == 0 then None else Some(i + n)
  }

  /** A number, section 6: no leading zero, digits on both sides of the point, digits in the exponent. */
  function NumberEnd(s: string): (r: Option<nat>)
    ensures r.Some? ==> 0 < r.value <= |s|
  {
    var i := if s != "" && s[0] == '-' then 1 else 0;
    if DigitsEnd(s, i).None? then None
    else
      var whole := if s[i] == '0' then i + 1 else DigitsEnd(s, i).value;
      var fraction := if whole < |s| && s[whole] == '.' then DigitsEnd(s, whole + 1) else Some(whole);
      if fraction.None? then None
      else
        var j := fraction.value;
        if j < |s| && (s[j] == 'e' || s[j] == 'E') then
          DigitsEnd(s, if j + 1 < |s| && (s[j + 1] == '+' || s[j + 1] == '-') then j + 2 else j + 1)
        else Some(j)
  }

  predicate Starts(s: string, w: string) {
    |s| >= |w| && s[..|w|] == w
  }

  function ParseValue(s: string): (r: Option<(JValue, string)>)
    ensures r.Some? ==> |r.value.1| < |s|
    decreases |s|, 1
  {
    if s == "" then None
    else if s[0] == '"' then
      match ParseChars(s[1..])
      case None => None
      case Some((v, rest)) => Some((JString(v), rest))
    else if s[0] == '{' then
      var t := Skip(s[1..]);
      if t != "" && t[0] == '}' then Some((JObject([]), t[1..]))
      else
        match ParseMembers(t)
        case None => None
        case Some((ms, rest)) => Some((JObject(ms), rest))
    else if s[0] == '[' then
      var t := Skip(s[1..]);
      if t != "" && t[0] == ']' then Some((JArray([]), t[1..]))
      else
        match ParseItems(t)
        case None => None
        case Some((vs, rest)) => Some((JArray(vs), rest))
    else if Starts(s, "null") then Some((JNull, s[4..]))
    else if Starts(s, "true") then Some((JBool(true), s[4..]))
    else if Starts(s, "false") then Some((JBool(false), s[5..]))
    else
      match NumberEnd(s)
      case None => None
      case Some(n) => Some((JNumber(s[..n]), s[n..]))
  }

  function ParseMember(s: string): (r: Option<((string, JValue), string)>)
    ensures r.Some? ==> |r.value.1| < |s|
    decreases |s|, 2
  {
    if s == "" || s[0] != '"' then None
    else
      match ParseChars(s[1..])
      case None => None
      case Some((name, rest)) =>
        var t := Skip(rest);
        if t == "" || t[0] != ':' then None
        else
          match ParseValue(Skip(t[1..]))
          case None => None
          case Some((v, after)) => Some(((name, v), after))
  }

  function ParseMembers(s: string): (r: Option<(seq<(string, JValue)>, string)>)
    ensures r.Some? ==> |r.value.1| < |s|
    decreases |s|, 3
  {
    match ParseMember(s)
    case None => None
    case Some((m, rest)) =>
      var t := Skip(rest);
      if t == "" then None
      else if t[0] == '}' then Some(([m], t[1..]))
      else if t[0] == ',' then
        match ParseMembers(Skip(t[1..]))
        case None => None
        case Some((ms, after)) => Some(([m] + ms, after))
      else None
  }

  function ParseItems(s: string): (r: Option<(seq<JValue>, string)>)
    ensures r.Some? ==> |r.value.1| < |s|
    decreases |s|, 2
  {
    match ParseValue(s)
    case None => None
    case Some((v, rest)) =>
      var t := Skip(rest);
      if t == "" then None
      else if t[0] == ']' then Some(([v], t[1..]))
      else if t[0] == ',' then
        match ParseItems(Skip(t[1..]))
        case None => None
        case Some((vs, after)) => Some(([v] + vs, after))
      else None
  }

  function ParseJson(s: string): Option<JValue> {
    match ParseValue(Skip(s))
    case None => None
    case Some((v, rest)) => if Skip(rest) == "" then Some(v) else None
  }

  // ----- strings

  lemma UnescapeOfEscaped(c: char, rest: string)
    requires EscapeChar(c) != [c]
    ensures var t := EscapeChar(c) + rest;
            t[0] == '\\' && Unescape(t) == Some((c, |EscapeChar(c)|)) && t[|EscapeChar(c)|..] == rest
  {
    if |EscapeChar(c)| == 6 {
      HexLowerValue(c as int / 16);
      HexLowerValue(c as int % 16);
    }
  }

  lemma HexLowerValue(d: nat)
    requires d < 16
    ensures Url.HexValue(HexLower(d)) == d
  {
  }

  /** Escaping is undone by parsing, whatever bytes are escaped and whatever follows. */
  lemma {:induction false} ParseEscaped(s: string, rest: string)
    ensures ParseChars(JsonEscape(s) + ("\"" + rest)) == Some((s, rest))
  {
    var tail := "\"" + rest;
    if s == "" {
      assert JsonEscape(s) + tail == tail && tail[1..] == rest;
    } else {
      ParseEscaped(s[1..], rest);
      var more := JsonEscape(s[1..]) + tail;
      assert JsonEscape(s) + tail == EscapeChar(s[0]) + more;
      OneEscaped(s[0], more);
      assert [s[0]] + s[1..] == s;
    }
  }

  lemma OneEscaped(c: char, more: string)
    ensures ParseChars(EscapeChar(c) + more) == Cons(c, ParseChars(more))
  {
    hide Unescape;
    var t := EscapeChar(c) + more;
    if EscapeChar(c) == [c] {
      assert t[1..] == more && t[0] == c;
      PlainCharacter(c);
    } else {
      UnescapeOfEscaped(c, more);
    }
  }

  lemma PlainCharacter(c: char)
    requires EscapeChar(c) == [c]
    ensures c != '"' && c != '\\' && c as int >= 32
  {
  }

  // ----- values

  /** What a client must read for a cell: binary as its Base64 text. */
  function JsonOf(c: Cell): JValue
    requires ValidCell(c)
  {
    match c
    case NullCell => JNull
    case BoolCell(b) => JBool(b)
    case IntCell(n) => JNumber(Show(n))
    case TextCell(s) => JString(s)
    case BlobCell(data) => JString(Base64.Encode(data))
  }

  lemma {:induction false} DigitsLead(n: nat)
    ensures n > 0 ==> Digits(n)[0] != '0'
    ensures n == 0 ==> Digits(n) == "0"
  {
    if n >= 10 {
      DigitsLead(n / 10);
    }
  }

  /** A value may be followed by a comma or a closing bracket. */
  predicate Follows(rest: string) {
    rest == "" || rest[0] == ',' || rest[0] == '}' || rest[0] == ']'
  }

  lemma WholeNumberEnd(s: string, sign: nat, k: nat)
    requires s != "" && sign == (if s[0] == '-' then 1 else 0) && sign < |s|
    requires DigitsEnd(s, sign) == Some(k) && (s[sign] == '0' ==> k == sign + 1)
    requires k < |s| ==> s[k] != '.' && s[k] != 'e' && s[k] != 'E'
    ensures NumberEnd(s) == Some(k)
  {
    hide DigitsEnd;
  }

  lemma NumberOfShow(n: int, rest: string)
    requires Follows(rest)
    ensures NumberEnd(Show(n) + rest) == Some(|Show(n)|)
  {
    hide NumberEnd, Span, Digits;
    var m: nat := if n < 0 then -n else n;
    var sign, d, s := if n < 0 then 1 else 0, Digits(m), Show(n) + rest;
    DigitsLead(m);
    SpanIs(IsDigit, d + rest, |d|);
    assert s[sign..] == d + rest && s[sign] == d[0];
    assert sign == 0 ==> s[0] == d[0];
    WholeNumberEnd(s, sign, sign + |d|);
  }

  lemma StartsOfShow(n: int, rest: string)
    ensures var s := Show(n) + rest; s != "" && (s[0] == '-' || IsDigit(s[0]))
  {
  }

  lemma {:induction false} EscapeNothing(s: string)
    requires forall i | 0 <= i < |s| :: EscapeChar(s[i]) == [s[i]]
    ensures JsonEscape(s) == s
  {
    if s != "" {
      EscapeNothing(s[1..]);
      assert [s[0]] + s[1..] == s;
    }
  }

  lemma Base64NeedsNoEscape(data: string)
    requires IsBytes(data)
    ensures JsonEscape(Base64.Encode(data)) == Base64.Encode(data)
  {
    hide Base64.Encode;
    Base64.EncodedShape(data);
    EscapeNothing(Base64.Encode(data));
  }

  lemma StringParses(s: string, rest: string)
    ensures ParseValue(StringText(s) + rest) == Some((JString(s), rest))
  {
    hide ParseChars, JsonEscape;
    ParseEscaped(s, rest);
    assert (StringText(s) + rest)[1..] == JsonEscape(s) + ("\"" + rest);
  }

  lemma WordParses(w: string, rest: string)
    requires w in {"null", "true", "false"}
    ensures ParseValue(w + rest) == Some((if w == "null" then JNull else JBool(w == "true"), rest))
  {
    var s := w + rest;
    assert s[..|w|] == w && s[|w|..] == rest && s[0] == w[0];
    assert |w| == 4 || w == "false";
    assert w == "false" ==> s[..4][0] == 'f';
    assert w == "true" ==> s[..4][0] == 't';
  }

  lemma NumberParses(n: int, rest: string)
    requires Follows(rest)
    ensures ParseValue(Show(n) + rest) == Some((JNumber(Show(n)), rest))
  {
    hide Show, NumberEnd;
    var s := Show(n) + rest;
    NumberOfShow(n, rest);
    StartsOfShow(n, rest);
    assert s[..|Show(n)|] == Show(n) && s[|Show(n)|..] == rest;
    assert |s| >= 4 ==> s[..4][0] == s[0];
    assert |s| >= 5 ==> s[..5][0] == s[0];
  }

  lemma ValueParses(c: Cell, rest: string)
    requires ValidCell(c) && Follows(rest)
    ensures ParseValue(ValueToJson(c) + rest) == Some((JsonOf(c), rest))
    ensures ValueToJson(c) != "" && !IsWhite(ValueToJson(c)[0])
  {
    hide ParseValue, Show, JsonEscape, Base64.Encode;
    match c
    case NullCell => WordParses("null", rest);
    case BoolCell(b) => WordParses(if b then "true" else "false", rest);
    case IntCell(n) => NumberParses(n, rest); StartsOfShow(n, ""); assert Show(n) + "" == Show(n);
    case TextCell(s) => StringParses(s, rest);
    case BlobCell(data) => Base64NeedsNoEscape(data); StringParses(Base64.Encode(data), rest);
  }

  // ----- rows

  function MembersOf(names: seq<string>, row: seq<Cell>): seq<(string, JValue)>
    requires ValidRow(names, row)
  {
    seq(|row|, i requires 0 <= i < |row| => (names[i], JsonOf(row[i])))
  }

  function ObjectsOf(names: seq<string>, rows: seq<seq<Cell>>): seq<JValue>
    requires ValidRows(names, rows)
  {
    seq(|rows|, i requires 0 <= i < |rows| => JObject(MembersOf(names, rows[i])))
  }

  lemma MemberParses(name: string, c: Cell, rest: string)
    requires ValidCell(c) && Follows(rest)
    ensures ParseMember(MemberText(name, c) + rest) == Some(((name, JsonOf(c)), rest))
  {
    hide ParseChars, JsonEscape, ParseValue, ValueToJson, JsonOf;
    var s, value := MemberText(name, c) + rest, ValueToJson(c) + rest;
    var t := ":" + value;
    ParseEscaped(name, t);
    assert s[1..] == JsonEscape(name) + ("\"" + t) && t[1..] == value;
    ValueParses(c, rest);
    assert value[0] == ValueToJson(c)[0];
    assert Skip(t) == t && Skip(value) == value;
  }

  lemma {:induction false} MembersParse(names: seq<string>, row: seq<Cell>, rest: string)
    requires ValidRow(names, row) && row != []
    ensures ParseMembers(Join(MemberTexts(names, row), ",") + ("}" + rest)) == Some((MembersOf(names, row), rest))
    ensures Join(MemberTexts(names, row), ",") != "" && Join(MemberTexts(names, row), ",")[0] == '"'
  {
    hide ParseMember, MemberText, JsonOf, Skip;
    var texts, end := MemberTexts(names, row), "}" + rest;
    MemberStarts(names[0], row[0]);
    if |row| == 1 {
      MemberParses(names[0], row[0], end);
      StaysPut(end);
      assert end[1..] == rest && MembersOf(names, row) == [(names[0], JsonOf(row[0]))];
    } else {
      var later := Join(MemberTexts(names[1..], row[1..]), ",") + end;
      var more := "," + later;
      assert texts[1..] == MemberTexts(names[1..], row[1..]);
      MembersParse(names[1..], row[1..], rest);
      MemberParses(names[0], row[0], more);
      assert later[0] == '"' && more[0] == ',';
      StaysPut(more);
      StaysPut(later);
      assert Join(texts, ",") + end == MemberText(names[0], row[0]) + more && more[1..] == later;
      assert MembersOf(names, row) == [(names[0], JsonOf(row[0]))] + MembersOf(names[1..], row[1..]);
    }
  }

  lemma StaysPut(s: string)
    requires s != "" && !IsWhite(s[0])
    ensures Skip(s) == s
  {
  }

  lemma MemberStarts(name: string, c: Cell)
    requires ValidCell(c)
    ensures MemberText(name, c) != "" && MemberText(name, c)[0] == '"'
  {
  }

  lemma RowParses(names: seq<string>, row: seq<Cell>, rest: string)
    requires ValidRow(names, row)
    ensures ParseValue(RowText(names, row) + rest) == Some((JObject(MembersOf(names, row)), rest))
    ensures RowText(names, row) != "" && RowText(names, row)[0] == '{'
  {
    hide ParseMembers, MemberTexts, Skip, Join;
    var members := Join(MemberTexts(names, row), ",");
    var t := members + ("}" + rest);
    assert (RowText(names, row) + rest)[1..] == t;
    if row == [] {
      NoMembers(names, row);
      assert t == "}" + rest && t[1..] == rest && MembersOf(names, row) == [];
      assert t != "" && t[0] == '}' && !IsWhite(t[0]);
      StaysPut(t);
    } else {
      MembersParse(names, row, rest);
      assert t != "" && t[0] == members[0] && !IsWhite(t[0]);
      StaysPut(t);
    }
  }

  lemma NoMembers(names: seq<string>, row: seq<Cell>)
    requires ValidRow(names, row) && row == []
    ensures Join(MemberTexts(names, row), ",") == ""
  {
    assert MemberTexts(names, row) == [];
  }

  lemma {:induction false} RowsParse(names: seq<string>, rows: seq<seq<Cell>>, rest: string)
    requires ValidRows(names, rows) && rows != []
    ensures ParseItems(Join(RowTexts(names, rows), ",") + ("]" + rest)) == Some((ObjectsOf(names, rows), rest))
    ensures Join(RowTexts(names, rows), ",") != "" && Join(RowTexts(names, rows), ",")[0] == '{'
  {
    hide ParseValue, RowText, MembersOf, Skip, ValidRow;
    var texts, end := RowTexts(names, rows), "]" + rest;
    if |rows| == 1 {
      RowParses(names, rows[0], end);
      StaysPut(end);
      assert end[1..] == rest && ObjectsOf(names, rows) == [JObject(MembersOf(names, rows[0]))];
    } else {
      var later := Join(RowTexts(names, rows[1..]), ",") + end;
      var more := "," + later;
      assert texts[1..] == RowTexts(names, rows[1..]);
      RowsParse(names, rows[1..], rest);
      RowParses(names, rows[0], more);
      assert later[0] == '{' && more[0] == ',';
      StaysPut(more);
      StaysPut(later);
      assert Join(texts, ",") + end == RowText(names, rows[0]) + more && more[1..] == later;
      assert ObjectsOf(names, rows) == [JObject(MembersOf(names, rows[0]))] + ObjectsOf(names, rows[1..]);
    }
  }

  /** JSON row round trip. The array of the rows SerializeRows writes is read back as the same rows in the same order,
      each with the same members in the same order, however the rows were split into chunks. */
  lemma RowsRoundTrip(names: seq<string>, chunks: seq<seq<seq<Cell>>>)
    requires ValidRows(names, Rows(chunks))
    ensures ParseJson("[" + Join(RowTexts(names, Rows(chunks)), ",") + "]") == Some(JArray(ObjectsOf(names, Rows(chunks))))
  {
    hide ParseItems, RowTexts, Skip, Join, ValidRow, Rows;
    var rows := Rows(chunks);
    var body := Join(RowTexts(names, rows), ",");
    var s, t := "[" + body + "]", body + ("]" + "");
    assert s[1..] == t && "]" + "" == "]";
    StaysPut(s);
    SkipNothing();
    if rows == [] {
      NoRows(names);
      assert t == "]" && t[1..] == "" && ObjectsOf(names, rows) == [];
      StaysPut(t);
    } else {
      RowsParse(names, rows, "");
      assert t[0] == body[0];
      StaysPut(t);
    }
  }

  lemma SkipNothing()
    ensures Skip("") == ""
  {
  }

  // ----- nothing is lost: a client recovers every cell

  /** The cell behind a value, when the client knows which columns are binary. */
  function CellOf(v: JValue, binary: bool): Option<Cell> {
    match v
    case JNull => Some(NullCell)
    case JBool(b) => Some(BoolCell(b))
    case JNumber(text) => if IsSigned(text) then Some(IntCell(SignedValue(text))) else None
    case JString(s) =>
      if !binary then Some(TextCell(s))
      else (match Base64.Decode(s) case None => None case Some(data) => Some(BlobCell(data)))
    case JArray(_) => None
    case JObject(_) => None
  }

  lemma CellRecovered(c: Cell)
    requires ValidCell(c)
    ensures CellOf(JsonOf(c), c.BlobCell?) == Some(c)
  {
    match c
    case IntCell(n) => SignedShow(n);
    case BlobCell(data) => Base64.DecodeEncoded(data);
    case NullCell =>
    case BoolCell(_) =>
    case TextCell(_) =>
  }
}
