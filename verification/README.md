# A verified model of the OData front end

The repository puts an OData endpoint in front of a DuckDB database. This project models the parts that carry
meaning from one notation to another, or that have to hold over whole runs, and proves them in Dafny:

* the `$filter` pipeline: characters, tokens, expression tree, SQL text, and what SQL makes of that text;
* the SELECT, INSERT, UPDATE and DELETE statements as flat text, read back by an independent lexer and parser;
* the column allow-list as non-interference over every response;
* addresses: percent encoding, request heads, routes, keys, the `Location` of a created row;
* query options, the nesting guard of `$filter`, and server-driven paging along `@odata.nextLink`;
* the write transaction over a committed and a working table;
* the slot counter of concurrent queries and the timeout watchdog as state machines over every interleaving;
* socket framing, whatever pieces the network delivers;
* the JSON and Base64 serializers against parsers written from RFC 8259 and RFC 4648.

## How it is built

Texts are Dafny strings; `IsBytes` is required where a value must be a byte. Each algorithm that the source runs as a
loop over mutable state is a method or a class with the same loop, branches and error order, proved equal to a
specification function; the properties are lemmas about those functions. Objects with state are classes:
`FilterParser` (its `pos`), `ExpressionCompiler` (its property index), `Connection` (committed and working table),
`Socket` (the pieces still to come). Threads are modelled as state machines whose events are the atomic steps of the
code.

SQL is never trusted to mean what it was written for. `SqlLexer` and `SqlGrammar` define the tokens and the
precedence grammar that DuckDB shares with PostgreSQL (OR < AND < NOT < IS NULL < comparison < primary, comparison
not associative), with a parser proved sound and complete for it. `SqlStatement` and `WriteStatement` read whole
statements, `Relational` runs a SELECT over a database of named tables and `WriteTransaction` runs a write. Every result
about a response goes through the characters of the statement and this reading.

Nor is a parser's own output taken for what a client meant. `FilterWriting`, `OptionWriting`, `RequestWriting` and
`Addresses` say, apart from the code, which texts write a filter, a list of options, a request head or an address, and
what each asks for; the parsers are shown
to accept exactly these texts with exactly that meaning. `CanonicalFunctions` lists the functions of OData with their
arguments and result types, and `ExprSemantics` gives a filter its OData value through that list alone.

| file | what it holds |
|---|---|
| `Text` | character classes, trimming, quoting, joining, decimal numbers |
| `FilterLexer`, `FilterGrammar`, `FilterParser` | tokens, derivations, the recursive-descent parser |
| `FilterWriting`, `FilterPrinter` | the texts that write a filter, and that exactly these are read; a minimal printer |
| `SqlLexer`, `SqlGrammar`, `SqlStatement`, `WriteStatement` | SQL tokens, expressions, SELECT and write statements |
| `Edm`, `ExprCompiler`, `CanonicalFunctions`, `ExprMeaning`, `ExprSemantics` | entity model, expression compiler, OData's functions, the text read back, its meaning row by row |
| `SqlCompiler`, `StatementMeaning`, `Relational`, `ODataMeaning`, `ColumnPolicy` | statement compiler, its text read back, evaluation, what a read returns in OData's terms, hidden columns |
| `Url`, `Http`, `Routing` | percent encoding and query strings, request heads, routes and the server's own addresses |
| `RequestWriting`, `Addresses` | the heads, query strings and addresses a client may write, and that exactly these are read |
| `Options`, `OptionWriting`, `OptionPrinter`, `DepthGuard`, `Paging` | query options, the texts that write them, their round trip, nesting guard, collections whole and in pages |
| `QuerySlots`, `Watchdog`, `Framing` | concurrency gate, timeout protocol, socket framing |
| `WriteTransaction`, `WriteGuarantees`, `WriteExactness` | writes, what they guarantee, and exactly when they succeed |
| `Json`, `Base64` | serializers |

## Where the code falls short of a property

Where a property does not hold of the code for every input, the code is modelled as it is and the project proves when
it does hold.

* A comparison or a null test that is an operand of another comparison is emitted without parentheses; the text is
  then read as the intended tree if and only if the filter is flat (`ExprMeaning.MeaningExact`).
* A comparison of null operands is unknown in SQL and false or true in OData; the two agree on a comparison if and
  only if both operands are non-null (`ExprSemantics.ComparisonAgreesIffNonNull`). A whole filter has its OData value on
  a row if and only if every such comparison is absorbed by a connective around it, and WHERE then keeps exactly the
  satisfying rows of that kind (`ExprSemantics.FilterExact`, `ODataMeaning.CollectionOnEveryTable`).
* `indexof` counts from 0 and is rendered as `strpos`, which counts from 1 (`ExprSemantics.IndexOfIsOffByOne`); `round` is
  known with two arguments, though OData's has one (`CanonicalFunctions.FunctionExact`, `CanonicalFunctions.RoundTakesTwo`).
  For every other function the meaning of a filter is preserved if the database function it is rendered as computes it.
* An integer outside 64 bits in a filter is answered with 500 instead of 400, if and only if everything before it is well
  spelled (`FilterWriting.OverflowExact`).
* A text literal compared with a call of `now`, `round`, `floor`, `ceiling` or `abs` is cast to BOOLEAN, as if the call
  gave one. Such a literal is what makes a comparison differ from OData where nothing is null
  (`ExprSemantics.ComparisonAgreesIffTyped`, `ExprSemantics.MistypedComparisonDiffers`).
* A non-empty allow-list that names no column of the table leaves no property, and the select list falls back to `*`
  (`ColumnPolicy.PolicyExact`).
* A `Location` leads back for all names and keys if and only if the base path is not `/`, where it starts with two
  slashes, and has no white space, question mark, plus sign or escape (`Routing.LocationExact`).
* A row limit below the page size cuts pages short and no link follows (`Paging.PagingExact`); the link repeats the
  decoded path unencoded (`Paging.LinkExact`).
* The nesting guard takes a run of single quotes for one and does not know double-quoted literals. Where it agrees with
  the lexer about each parenthesis is `DepthGuard.AgreesFromExactly`; for which filters its verdict is right under every
  limit is `DepthGuard.VerdictsExact`; four concrete filters get the wrong verdict, two of them through double quotes.
* A restart resets the slot counter whatever is in flight (`QuerySlots.RestartExact`).
* A request is refused although fewer requests run than the limit allows, because refused requests still count: it is
  refused if and only if, when it was counted, the untested and refused ones filled what the running ones left of the
  limit (`QuerySlots.RefusalExact`).
* A head whose empty line starts at offset 65534, 65535 or 65536 is accepted or refused depending on how it was cut
  into reads (`Framing.FragmentationExact`).
* The watchdog may interrupt a query that has completed but not yet set its flag. From a reachable state this can still
  happen if and only if Execute has not yet taken the flag's lock and the watchdog is neither leaving nor gone
  (`Watchdog.LateInterruptExact`).

Comments in the source that its code contradicts were not followed: `$skiptoken` is said to be rejected and is read as
`$skip` (src/server/odata_server.cpp:216 and 470), and `@odata.nextLink` is listed as not yet available
(docs/odata-support.md:36) and is implemented.

## Model

| member | source | states |
|---|---|---|
| Text.Quote | src/common/string_util.cpp:7-31 | the quoting loop, for both quote characters: the value between quotes with every quote doubled |
| Text.ScanDoubled | src/common/string_util.cpp:7-31 | scanning a quoted text recovers exactly the value and what follows it, whatever the value holds |
| Text.TrimText | src/common/string_util.cpp:140-150 | both trimming loops remove exactly the longest removable prefix and suffix |
| Decimal.SignedShow | src/compiler/expression_compiler.cpp:212-213 | the decimal text of every integer is read back as that integer |
| FilterLexer.ReadString | src/parser/lexer.cpp:80-106 | the literal loop returns the undoubled value and the position after the closing quote, or reports a literal never closed |
| FilterLexer.ReadNumber | src/parser/lexer.cpp:108-147 | sign, digits, fraction and exponent are consumed to exactly where the number ends; it is a float exactly when more than sign and digits were read |
| FilterLexer.Tokenize | src/parser/lexer.cpp:61-205 | the tokens of the reference lexer with END after them, or its error, int64 overflow included |
| FilterParsing.ParserMatchesGrammar | src/parser/odata_parser.cpp:10-203 | soundness and completeness: the parser returns a tree if and only if it derives exactly these tokens in the documented grammar |
| FilterParsing.Unambiguous | src/parser/odata_parser.cpp:10-17 | a token list has at most one derivation |
| FilterParser.FilterParser.constructor | src/parser/odata_parser.cpp:26-27 | the parser starts before the first token, with END ahead |
| FilterParser.FilterParser.Match | src/parser/odata_parser.cpp:50-56 | consumes the token if and only if it is the expected one and never passes END |
| FilterParser.FilterParser.ParseOr | src/parser/odata_parser.cpp:64-75 | the loop returns the reference parser's or-expression, grouped to the left, and leaves `pos` where that one stops |
| FilterParser.FilterParser.ParseAnd | src/parser/odata_parser.cpp:77-88 | the same for and-expressions |
| FilterParser.FilterParser.ParseNot | src/parser/odata_parser.cpp:90-98 | the same for negations |
| FilterParser.FilterParser.ParseComparison | src/parser/odata_parser.cpp:100-133 | the same for comparisons: at most one operator |
| FilterParser.FilterParser.ParsePrimary | src/parser/odata_parser.cpp:135-202 | the same for primaries |
| FilterParser.FilterParser.ParseArguments | src/parser/odata_parser.cpp:181-194 | the argument loop collects the or-expressions between commas up to the closing parenthesis |
| FilterParser.FilterParser.Parse | src/parser/odata_parser.cpp:29-38 | succeeds exactly when all tokens form one or-expression |
| FilterParser.ParseFilter | src/parser/odata_parser.cpp:207-211 | characters to expression: by `FilterWriting.FilterExact` exactly the expression the text writes, or the first error |
| FilterWriting.LexExact | src/parser/lexer.cpp:61-205 | the tokenizer returns a token list if and only if the text spells it: keywords and booleans in any case, either quotes, numbers as long as they go, blanks anywhere |
| FilterWriting.FilterExact | src/parser/odata_parser.cpp:207-211 | from characters to expression: a text is read as an expression if and only if it is a way of writing it, in any casing, spacing and redundant parentheses, floats with their lexeme included |
| FilterWriting.OverflowExact | src/parser/lexer.cpp:141-142 | a filter fails with the lexer's `out_of_range` if and only if, after well spelled tokens, an integer outside 64 bits comes first |
| FilterPrinter.DeriveIsMinimal | src/parser/odata_parser.cpp:10-17 | the printed derivation has no more tokens than any derivation of the same expression |
| FilterPrinter.PrintThenParse | src/parser/lexer.cpp:61-205 | character round trip: printing any expression, floats included, with names that are no keywords, and running tokenizer and parser gives it back |
| ExprCompiler.ExpressionCompiler.constructor | src/compiler/expression_compiler.cpp:54-58 | the loop fills the index of lower-cased names, later properties winning |
| ExprCompiler.ExpressionCompiler.CompileExpr | src/compiler/expression_compiler.cpp:60-92 | for every expression the emitted text or error is the one whose meaning `ExprMeaning.MeaningExact` and `ExprSemantics.MeaningPreserved` fix |
| ExprCompiler.ExpressionCompiler.CompileBinary | src/compiler/expression_compiler.cpp:94-197 | the same for binary nodes: null tests, literals typed by the other side, operators |
| ExprCompiler.ExpressionCompiler.CompileFunction | src/compiler/expression_compiler.cpp:235-276 | the same for calls: refused or named as `CanonicalFunctions.FunctionExact` states, all arguments in order |
| CanonicalFunctions.FunctionExact | src/compiler/expression_compiler.cpp:20-36 | a name is known, with its database function and argument counts, exactly when it is a canonical function with its own; only `round` is known with two arguments instead of one |
| CanonicalFunctions.RoundTakesTwo | src/compiler/expression_compiler.cpp:32 | OData's `round` of one argument is refused, and one of two is known |
| CanonicalFunctions.CompilesExactly | src/compiler/expression_compiler.cpp:60-276 | a filter compiles if and only if each property is one of the table, in any case, and each call one of that list |
| ExprMeaning.CompileSucceeds | src/compiler/expression_compiler.cpp:60-276 | compilation succeeds exactly when every property and function with its argument count is known |
| ExprMeaning.CompileLexes | src/compiler/expression_compiler.cpp:94-276 | the emitted characters lex to exactly the tokens of the intended tree, whatever the bytes of names and literals |
| ExprMeaning.MeaningExact | src/compiler/expression_compiler.cpp:94-233 | the emitted text, lexed and parsed with SQL precedence, is the intended tree if and only if the filter is flat |
| ExprMeaning.NullTestOnTheRightIsRegrouped | src/compiler/expression_compiler.cpp:138-146 | a concrete non-flat family: a null test right of a comparison is read as a test of the whole comparison |
| ExprSemantics.MeaningPreserved | src/compiler/expression_compiler.cpp:94-233 | for every flat filter without text literals facing the five functions above, whose functions the database computes, and every row on which it compares non-null values, the text has the OData value, and WHERE keeps the row exactly when the filter is true |
| ExprSemantics.ComparisonAgreesIffNonNull | src/compiler/expression_compiler.cpp:148-196 | a comparison of agreeing operands has its OData value if and only if neither is null |
| ExprSemantics.TypesAgree | src/compiler/expression_compiler.cpp:100-124 | the type a literal is compiled for is the type of the column or of the canonical function's result, if and only if the call is not one taken for a boolean |
| ExprSemantics.MistypedComparisonDiffers | src/compiler/expression_compiler.cpp:122 | every comparison of a text literal with such a call is true in the text and false under OData in one and the same database |
| ExprSemantics.ComparisonAgreesIffTyped | src/compiler/expression_compiler.cpp:94-197 | where operands are non-null, a comparison of plain values has its OData value, whatever the database's casts, comparisons and functions, if and only if no text literal faces such a call |
| ExprSemantics.FilterExact | src/compiler/expression_compiler.cpp:94-233 | for every flat filter without comparisons inside calls and null tests, on every row, nulls included: its text has the OData value if and only if each comparison of a null is absorbed by a connective, and WHERE keeps a row if and only if it satisfies the filter and is so decided; so no wrong row is kept |
| ExprSemantics.NullUnderNotDiffers | src/compiler/expression_compiler.cpp:199-204 | with `not`, a null column drops a row that OData keeps |
| ExprSemantics.IndexOfIsOffByOne | src/compiler/expression_compiler.cpp:27 | for every two operands and every number, `indexof` compared with the number tests for the place before it |
| ExprSemantics.TextualExact | src/compiler/expression_compiler.cpp:38-51 | for a mapped type (src/metadata/edm_model.cpp:7-67) a text literal is left uncast if and only if the type is textual, but for three spellings of binary types |
| SqlCompiler.CompileSelectList | src/compiler/sql_compiler.cpp:57-91 | canonical names in `$select` order, all names without `$select`, a star when there is none, an error for an unknown one |
| SqlCompiler.CompileOrderBy | src/compiler/sql_compiler.cpp:110-132 | the order list in the given order, or an error when a term is unknown |
| SqlCompiler.CompileCollection | src/compiler/sql_compiler.cpp:101-152 | refuses exactly what `ODataMeaning.CollectionResolves` states, otherwise emits the text that `StatementMeaning.CollectionExact` reads back |
| ODataMeaning.CollectionResolves | src/compiler/sql_compiler.cpp:101-152 | a collection compiles if and only if every name of `$select`, `$filter` and `$orderby` is known |
| ODataMeaning.ProjectionExact | src/compiler/sql_compiler.cpp:57-91 | the columns are those asked for, in that order, under their declared names, all without `$select` |
| ODataMeaning.ByKeyResolves | src/compiler/sql_compiler.cpp:166-176 | a key lookup is refused if and only if there is no key, the number of values is another, or `$select` names something unknown |
| Relational.PartsNameTable | src/compiler/sql_compiler.cpp:11-22 | the emitted name stands for the table under the entity's catalog, schema and name; without a catalog, or a schema, for the one in the current ones |
| SqlCompiler.CompileCount | src/compiler/sql_compiler.cpp:154-164 | the filter's errors, or the text that `StatementMeaning.CountExact` reads back |
| SqlCompiler.CompileByKey | src/compiler/sql_compiler.cpp:166-196 | refused without a key or with a wrong number of values, otherwise the text that `StatementMeaning.ByKeyExact` reads back |
| SqlCompiler.CompileKeyLiteral | src/compiler/sql_compiler.cpp:36-53 | the literal stands for the unquoted key value, cast unless the column is text; `SqlCompiler.KeyValueOfQuoted` inverts the unquoting |
| SqlCompiler.KeyValueOfQuoted | src/compiler/sql_compiler.cpp:38-47 | unquoting a quoted key gives back the key, for every key value |
| StatementMeaning.CollectionExact | src/compiler/sql_compiler.cpp:101-152 | the text is read as exactly the intended select list, table, filter, order, LIMIT min(top, max_top) and OFFSET, if and only if the filter is flat |
| StatementMeaning.CountExact | src/compiler/sql_compiler.cpp:154-164 | the same for the count |
| StatementMeaning.ByKeyExact | src/compiler/sql_compiler.cpp:166-196 | the key lookup is always read as the conjunction of its key tests with LIMIT 1 |
| ODataMeaning.CollectionIsOData | src/compiler/sql_compiler.cpp:101-152 | running a collection's text against a database returns, from the table under the entity's catalog, schema and name, the selected columns of exactly the rows that satisfy the filter expression under OData, ordered, after `$skip`, at most min(top, max_top), on tables where it compares no nulls |
| ODataMeaning.CountIsOData | src/compiler/sql_compiler.cpp:154-164 | running the count's text returns the number of those rows, whatever the bounds |
| ODataMeaning.CollectionOnEveryTable | src/compiler/sql_compiler.cpp:101-152 | on every table, nulls included, the same with the satisfying rows on which the filter is decided |
| ODataMeaning.CountOnEveryTable | src/compiler/sql_compiler.cpp:154-164 | on every table the count is at most the number of satisfying rows, and equal if and only if the filter is decided on each of them |
| ODataMeaning.ByKeyIsOData | src/compiler/sql_compiler.cpp:166-196 | running a key lookup returns the first row of that table whose key columns equal the keys of the address, if any |
| ColumnPolicy.ApplyColumnPolicy | src/server/odata_server.cpp:242-264 | the rebuilt property list is exactly the listed properties in table order, with the key flag recomputed |
| ColumnPolicy.PolicyKeeps | src/server/odata_server.cpp:242-264 | exactly the listed properties stay, the key flag says whether one of them is a key, name and table stay, and an empty list changes nothing |
| ColumnPolicy.HiddenColumnsDoNotMatter | src/server/odata_server.cpp:242-264 | two databases in which the entity's tables are equal on the exposed columns, whatever other tables hold, answer every collection, count and key request alike |
| ColumnPolicy.NothingExposedLeaks | src/compiler/sql_compiler.cpp:87-89 | with nothing exposed the plain query returns whole rows |
| ColumnPolicy.PolicyExact | src/server/odata_server.cpp:242-264 | a non-empty allow-list hides every other column if and only if it names some column of the table |
| Url.Decode | src/common/string_util.cpp:85-105 | left to right, each complete escape becomes its byte, each plus sign a space, and everything else, incomplete escapes included, stays; on encoded text this is the inverse of encoding (`Url.DecodeEncoded`) |
| Url.Encode | src/execution/write_executor.cpp:20-33 | the loop's output is the encoding that `Url.DecodeEncoded` shows to be undone by decoding, for every byte string |
| Url.DecodeEncoded | src/execution/write_executor.cpp:20-33 | decoding undoes encoding of every byte string, whatever follows it |
| Url.ParseQueryString | src/common/string_util.cpp:107-130 | the loop returns the decoded pairs of the non-empty pieces in order; `Url.ParseFormattedQuery` shows it inverts formatting |
| Url.ParseQueryCat | src/common/string_util.cpp:107-130 | appending a piece after an ampersand appends its pairs to those of any raw query |
| Url.ParseFormattedQuery | src/common/string_util.cpp:107-130 | every list of byte-string pairs, encoded and joined, is parsed back |
| RequestWriting.DecodeExact | src/common/string_util.cpp:72-105 | for every text: decoding gives exactly the text it spells, with digits of either case and incomplete escapes as they stand |
| RequestWriting.QueryExact | src/common/string_util.cpp:107-130 | for every raw query: read as a list of pairs if and only if its non-empty pieces say them, names without an equals sign included |
| Http.ParseHttpRequest | src/server/http_request.cpp:10-67 | every head is refused or read into verb, decoded path, raw query, pairs and headers; `Http.HeadExact` shows it inverts writing a head |
| Http.HeadersExact | src/server/http_request.cpp:35-65 | any well-formed header lines are read as their case-insensitive map, refused exactly when Content-Length repeats |
| Http.HeadExact | src/server/http_request.cpp:10-67 | a well-formed head is parsed back to verb, target and headers if and only if Content-Length occurs at most once |
| RequestWriting.RequestExact | src/server/http_request.cpp:10-67 | for every head: read as a request if and only if it is three words on a line with a known version, a target with that path and query, and header lines that say those headers; everything else is refused |
| Routing.FindClose | src/server/odata_server.cpp:180-195 | the scanner stops at the first closing parenthesis outside quotes |
| Routing.SplitEntity | src/server/odata_server.cpp:169-212 | entity name up to a slash or parenthesis, at most one trimmed key, and invalid exactly for an unclosed, empty or trailed parenthesis; `Routing.LocationLeadsBack` inverts it |
| Addresses.EntityExact | src/server/odata_server.cpp:168-211 | the text below the base path gives an entity and a key if and only if it names them, alone, after a slash or in parentheses closed outside quotes, and is invalid if and only if a parenthesis is not closed at the end or holds nothing |
| Addresses.RouteExact | src/server/odata_server.cpp:130-212 | for every base and path: health, service document, metadata, entity with key, invalid key and nothing else, each if and only if the path is such an address |
| Routing.LocationLeadsBack | src/execution/write_executor.cpp:165-170 | for every key value the `Location`, sent as a request, yields the entity name and, after unquoting, the key |
| Routing.LocationExact | src/execution/write_executor.cpp:165-170 | for every base path: the chain is the identity for all names and keys if and only if the base is not `/` and has no white space, question mark, plus sign or escape |
| Options.FilterWithinDepth | src/server/odata_server.cpp:222-240 | the scan's verdict is the one compared with the parser's nesting in `DepthGuard.GuardExact`; a negative limit switches it off |
| Options.SplitCommas | src/parser/odata_parser.cpp:217-227 | the pieces between commas, empty ones included |
| Options.ReadSelectOption | src/parser/odata_parser.cpp:213-235 | the trimmed non-empty pieces, in order |
| Options.ReadOrderByOption | src/parser/odata_parser.cpp:237-272 | one term a piece with its direction, or an error for an empty piece or another direction |
| Options.NonNegativeIntOfShow | src/parser/odata_parser.cpp:274-294 | every int64 written by the server is accepted as itself |
| Options.ReadQueryOptions | src/server/odata_server.cpp:438-476 | unknown system options are refused before anything is read, then the pairs apply in order, a repeated option overriding |
| OptionWriting.OptionsExact | src/server/odata_server.cpp:438-476 | for every list of pairs: they are read as a query if and only if, one after the other, they ask for it, in every spelling of lists, directions, numbers and booleans, `$skiptoken` included |
| OptionWriting.OptionExact | src/server/odata_server.cpp:453-473 | the same for one pair |
| Options.AppendedSkipWins | src/server/odata_server.cpp:466-472 | a `$skip` appended to any accepted options changes the skip and nothing else |
| OptionPrinter.OptionsRoundTrip | src/server/odata_server.cpp:453-473 | the options a client writes for a query (select list, printed filter, order list, bounds, count) are read as exactly that query |
| OptionPrinter.RawQueryRoundTrip | src/server/odata_server.cpp:438-473 | the same from the percent-encoded raw query string |
| DepthGuard.LexSees | src/parser/lexer.cpp:61-205 | for every text that lexes, the parentheses among the tokens are those outside single-quoted and double-quoted literals as a scan over quote characters finds them |
| DepthGuard.WithinTree | src/parser/odata_parser.cpp:135-202 | a derivation's parentheses stay within a limit exactly when its groups and calls nest no deeper |
| DepthGuard.AgreesFromExactly | src/server/odata_server.cpp:222-240 | guard and lexer agree at every parenthesis if and only if the single quotes the guard misjudges before it (doubled ones, and lone ones within double quotes) are even in number, or odd within a double-quoted literal |
| DepthGuard.GuardExact | src/server/odata_server.cpp:222-240 | for every accepted filter meeting that condition, double quotes included, the guard passes it exactly when the parser never has more than the limit open |
| DepthGuard.GuardMeasures | src/server/odata_server.cpp:222-240 | for every text and limit the guard passes it if and only if the parentheses it counts go no deeper than the limit |
| DepthGuard.VerdictsExact | src/server/odata_server.cpp:222-240 | the guard's verdict on an accepted filter is right under every limit if and only if the depth it counts is the nesting; the condition on quotes is enough |
| DepthGuard.PlainQuotesAreEven | src/server/odata_server.cpp:222-240 | filters without double quotes or adjacent single quotes meet the condition |
| DepthGuard.EmptyLiteralHidesNesting | src/server/odata_server.cpp:229-230 | a concrete accepted filter whose nesting the guard misses |
| DepthGuard.DoubledQuoteExposesLiteral | src/server/odata_server.cpp:229-234 | a concrete accepted filter without nesting that the guard refuses |
| DepthGuard.DoubleQuotedParenIsCounted | src/server/odata_server.cpp:229-234 | the same with the parenthesis in a double-quoted literal |
| DepthGuard.DoubleQuotedQuoteHidesNesting | src/server/odata_server.cpp:229-230 | a concrete accepted filter whose nesting the guard misses because of a single quote in a double-quoted literal |
| Paging.HandleCollection | src/server/odata_server.cpp:518-590 | for every raw query the reply (refusal, failure, or rows with count and link) that `Paging.RefusedExactly`, `Paging.NoTableFails`, `Paging.WholeReply` and `Paging.OnePage` characterize |
| Paging.RefusedExactly | src/server/odata_server.cpp:438-540 | refused if and only if the options are not accepted or a name is unknown, whatever the database |
| Paging.NoTableFails | src/server/odata_server.cpp:543-566 | an accepted request fails when the table is missing |
| Paging.WholeReply | src/server/odata_server.cpp:524-588 | without page size, or with `$top`, the reply is every wanted row, or the first min(top, max_top), with the count asked for and no link |
| Paging.WantedIsOData | src/server/odata_server.cpp:518-588 | the wanted rows are the columns asked for of the rows that satisfy the filter, ordered, after `$skip`, and the count is their number |
| Paging.PagesHideColumns | src/server/odata_server.cpp:518-590 | rows, count and link depend on the exposed columns only |
| Paging.LinkExact | src/server/odata_server.cpp:266-272 | the link leads back to the path with the extended query if and only if the decoded path has no white space, question mark, plus sign or escape |
| Paging.NextOptions | src/server/odata_server.cpp:266-272 | the link's query asks for the same rows from the given skip on, for every raw query |
| Paging.OnePage | src/server/odata_server.cpp:524-587 | a page is the first wanted rows up to the limit, with a link exactly when more than a full page is wanted |
| Paging.PagesCover | src/server/odata_server.cpp:524-587 | the pages concatenate to the wanted rows and number max(1, ceil(rows / size)) |
| Paging.WalkExact | src/server/odata_server.cpp:518-590 | a list of replies is a complete walk along the links if and only if it is the expected list of pages |
| Paging.PagingExact | src/server/odata_server.cpp:522-587 | the walk gives every wanted row once, in order, in the fewest pages, if and only if the row limit is off, at least the page size, or at least the rows wanted |
| QuerySlots.GateBound | src/server/odata_server.cpp:424-432 | over every interleaving, restarts included: the counter is the number in flight less those in flight at the last restart, and no more run than the limit plus that number |
| QuerySlots.GateHolds | src/server/odata_server.cpp:424-432 | without restarts: counter exact, zero when idle, at most the limit past the gate |
| QuerySlots.RestartExact | src/server/odata_server.cpp:317-322 | a restart keeps the gate in every later run if and only if nothing is in flight |
| QuerySlots.RefusalExact | src/server/odata_server.cpp:424-432 | in every run without restarts a tested request is refused if and only if at least the limit's worth of increments were held at its own, that is, if the untested and refused ones filled what those past the gate left |
| QuerySlots.RefusedWhileIdle | src/server/odata_server.cpp:424-428 | a witness: a request refused while none runs |
| Watchdog.InterruptsAreTimely | src/execution/query_executor.cpp:19-42 | in every run at most one interrupt, past the deadline, with the flag unset and Execute not returned; afterwards the watchdog is gone |
| Watchdog.NoInterruptAfterDone | src/execution/query_executor.cpp:34-39 | once the flag is set no interrupt follows in any run |
| Watchdog.LateInterruptExact | src/execution/query_executor.cpp:19-42 | from any state keeping the invariant, some run interrupts a completed query if and only if the query runs or has just completed and the watchdog is not leaving or gone |
| Watchdog.LateInterruptInRuns | src/execution/query_executor.cpp:19-42 | the same after every run from the start |
| Watchdog.InterruptAfterCompletion | src/execution/query_executor.cpp:28-38 | a witness: a run in which the interrupt lands after completion and before the flag is set |
| Watchdog.SomeThreadCanMove | src/execution/query_executor.cpp:28-41 | no deadlock and no missed wakeup in any reachable state |
| Watchdog.ExecuteReturns | src/execution/query_executor.cpp:19-42 | every run is bounded up to spurious wakeups, and a run that cannot go on has returned |
| Watchdog.HangingQueryIsInterrupted | src/execution/query_executor.cpp:28-33 | a query that does not finish by itself is interrupted |
| Framing.Socket.Read | src/server/http_server.cpp:26-30 | one read of at most so many bytes takes them from the front of the stream and leaves the rest |
| Framing.ReadRequestHead | src/server/http_server.cpp:22-42 | the loop ends with head, bytes read past it and pieces unread exactly as `Framing.HeadFound` describes, or refuses |
| Framing.HeadFound | src/server/http_server.cpp:22-42 | for every cut: an end at or before offset 65533 is found with head and remaining stream, one after 65536 or none is refused |
| Framing.FragmentationExact | src/server/http_server.cpp:22-42 | all cuts of a stream agree if and only if the end does not start at offset 65534, 65535 or 65536 |
| Framing.ReadLength | src/server/http_server.cpp:153-160 | the digit loop: too large exactly when the leading digits exceed 1048576, otherwise exact or malformed, and never above 10485769 |
| Framing.LengthExact | src/server/http_server.cpp:153-163 | every number is read exactly up to the limit and refused as too large above it |
| Framing.BodyExact | src/server/http_server.cpp:165-175 | the body is the first declared bytes of the remaining stream for every cut, or missing exactly when the stream is shorter |
| Framing.HandleConnection | src/server/http_server.cpp:139-180 | the outcome over the delivered pieces, which `Framing.ConnectionExact` reads off the whole stream |
| Framing.ConnectionExact | src/server/http_server.cpp:139-180 | whatever the cut, the outcome is read off the whole stream: head to the empty line, body the Content-Length bytes after it (RFC 9112 section 6.2) |
| Framing.HandledExact | src/server/http_server.cpp:139-180 | the handler is given a request and a body if and only if the head is that request, without Transfer-Encoding, and the bytes after it, as many as its Content-Length declares and at most 1 MiB, are that body |
| WriteStatement.InsertReadBack | src/execution/write_executor.cpp:114-138 | the INSERT text is read as the table, columns, casts and RETURNING list meant |
| WriteStatement.UpdateReadBack | src/execution/write_executor.cpp:131-138 | the UPDATE text is read as its assignments, key test and RETURNING list |
| WriteStatement.DeleteReadBack | src/execution/write_executor.cpp:131-138 | the DELETE text is read as its key test and RETURNING list |
| WriteTransaction.Connection.Commit | src/execution/write_executor.cpp:175-177 | commit makes the working table the committed one, or fails and changes nothing |
| WriteTransaction.FindKey | src/execution/write_executor.cpp:60-67 | the key if there is exactly one |
| WriteTransaction.ReadMember | src/execution/write_executor.cpp:84-100 | one body member: last property of that name, its refusals, its bound value |
| WriteTransaction.ReadMembers | src/execution/write_executor.cpp:80-111 | columns, placeholders, assignments and values stay aligned, and a repeated or refused member refuses the body |
| WriteTransaction.CheckRequest | src/execution/write_executor.cpp:53-113 | refuses with 400 or 415 exactly when the request is conditional, has options, a wrong number of keys, no single writable key, a wrong media type or an unbindable body; otherwise yields the texts of the bound members |
| WriteTransaction.BuildStatement | src/execution/write_executor.cpp:114-138 | the text is the one `WriteStatement` reads back and the values are the members' in order with the unquoted key last, one for every placeholder |
| WriteTransaction.BuildCreated | src/execution/write_executor.cpp:157-174 | the returned members and the Location of the key, refused when the key is null |
| WriteTransaction.RunTransaction | src/execution/write_executor.cpp:139-178 | commits exactly when the statement runs, returns one row (with a key, for an insert) and the commit succeeds; otherwise the committed table stays |
| WriteTransaction.ExecuteWrite | src/execution/write_executor.cpp:50-179 | response and committed table are those that `WriteExactness` characterizes, and no transaction is left open |
| WriteGuarantees.FailureChangesNothing | src/execution/write_executor.cpp:34-47 | any status but 201 and 204 leaves the committed table as it was |
| WriteGuarantees.BoundRow | src/execution/write_executor.cpp:101-110 | each member's column holds that member (text and numbers from their characters, booleans and nulls from themselves) cast to that column's type, and no other column changes |
| WriteGuarantees.InsertAddsOneRow | src/execution/write_executor.cpp:145-179 | 201 adds exactly one row: supplied members cast, defaults elsewhere, key not null, Location naming it, and the response shows its columns in order |
| WriteGuarantees.PatchChangesOneRow | src/execution/write_executor.cpp:145-179 | 204 to PATCH: exactly one row matches, exactly its named columns change, never the key |
| WriteGuarantees.DeleteRemovesOneRow | src/execution/write_executor.cpp:145-179 | 204 to DELETE: exactly one row matches and exactly that row goes |
| WriteGuarantees.DeleteUndoesInsert | src/execution/write_executor.cpp:131-170 | a DELETE sent to the Location of a 201, through request target and route, restores the table |
| WriteExactness.PlanExact | src/execution/write_executor.cpp:53-113 | accepted before the transaction if and only if head, media type and body fit, each written out; refused with 415 exactly for the media type, with 400 otherwise |
| WriteExactness.RowExact | src/execution/write_executor.cpp:80-119 | there is a row for a body if and only if every value can be cast, and it is the one the statement makes |
| WriteExactness.InsertExact | src/execution/write_executor.cpp:50-179 | 201 if and only if the request fits, the entity's own table is there with its columns, every value can be cast, the row has a key, constraints accept it, and the transaction begins and commits |
| WriteExactness.UpdateExact | src/execution/write_executor.cpp:50-179 | the same for 204 to PATCH: one row alone has the key and constraints accept it changed |
| WriteExactness.DeleteExact | src/execution/write_executor.cpp:50-179 | the same for 204 to DELETE: one row alone has the key and constraints let it go |
| WriteExactness.FailureExact | src/execution/write_executor.cpp:139-177 | which failure answers 400, 404, 409, 415 or 500 |
| Base64.Base64Encode | src/execution/result_serializer.cpp:37-64 | the group loop with its two tail cases computes the encoding that `Base64.DecodeExact` shows to be exactly what the decoder inverts |
| Base64.DecodeEncoded | src/execution/result_serializer.cpp:37-64 | a decoder written from RFC 4648 section 4 recovers every byte string |
| Base64.DecodeExact | src/execution/result_serializer.cpp:37-64 | that decoder returns a byte string for a text if and only if the text is its encoding |
| Base64.EncodedShape | src/execution/result_serializer.cpp:40-63 | four characters for every three bytes begun, padding only at the end |
| Json.Escape | src/common/string_util.cpp:33-70 | the loop's output is the escaping that `JsonParsing.ParseEscaped` shows to be undone by a JSON parser, for every text |
| Json.WriteMembers | src/execution/result_serializer.cpp:125-132 | the column loop: members in column order, separated by commas |
| Json.SerializeRows | src/execution/result_serializer.cpp:111-138 | the text of all rows in order however they are chunked, and their number |
| Json.SerializeFirstRowMembers | src/execution/result_serializer.cpp:140-155 | the members of the first row, found exactly when the first chunk has a row |
| JsonParsing.ParseEscaped | src/common/string_util.cpp:33-70 | a parser of RFC 8259 strings (section 7) undoes the escaping of every text |
| JsonParsing.RowsRoundTrip | src/execution/result_serializer.cpp:111-138 | the array of serialized rows is parsed back to the same rows and members in the same order, for every chunking |
| JsonParsing.CellRecovered | src/execution/result_serializer.cpp:68-109 | every null, boolean, integer, text and binary value is recovered from what was parsed |

## Left out

* DuckDB itself: catalogs, prepared statements, function values, casts, collation, constraint checking. They are
  parameters (`World`, `Store`, `Database`); type names are assumed to lex with balanced parentheses, types to be those the
  mapping gives with binary columns reported as BLOB or BIT, and sorting to be stable, so that rows no key separates keep
  their order from page to page. A name of two parts is looked up as schema and table.
* Values of functions, OData's and the database's: that a database function computes the one it stands for is a hypothesis
  for each function of a filter. It fails for `indexof`; `substring`, which OData counts from 0 as well, gets its arguments
  as they are.
* Floating point: the text of a float literal is opaque, a float literal out of range is not refused, and doubles and
  decimals are not among the serialized values.
* OData's order of `not` and comparison differs from the repository's own grammar; the model follows the latter.
* The line number of a token, which nothing reads, and the wording of messages.
* SQL keywords are recognized in the upper-case spelling the compilers emit.
- JsonParsing.ParseEscaped: the parser reads `\u` escapes below 0080 only, which are the ones the serializer writes.
- FilterLexer.Tokenize: a float literal outside the range of a double is an error in the source and a token here.
- ODataMeaning.CollectionIsOData: for flat filters whose text literals are typed and whose functions are computed, on tables where every comparison of the filter has non-null operands.
- ODataMeaning.CollectionOnEveryTable: for flat filters whose text literals are typed and whose functions are computed, with no comparison inside a call or a null test.
- DepthGuard.GuardExact: the condition on quotes is sufficient for the verdict; it is exact parenthesis by parenthesis.
- OptionPrinter.OptionsRoundTrip: names hold no comma and no surrounding white space, order names no space; `OptionWriting.OptionsExact` has no such limits.
- Paging.PagingExact: the table does not change between requests, holds at most 2^63 - 1 rows, and the filter is flat.
- Paging.HandleCollection: the response size limit (413) and the JSON around the rows are not part of its reply.
- WriteTransaction.BuildCreated: cells of the created row stand for the body; their JSON text is the subject of `Json.WriteMembers`.
- WriteGuarantees.PatchChangesOneRow: as in all of `WriteExactness`, property names are distinct without regard to case, as the catalog guarantees.
- Framing.HandleConnection: timeouts and errors of a read count as its end; draining after a 413 is not modelled.
* Bearer tokens, service document, `$metadata`, entity binding and naming, EDMX: lookups.
* Sockets, accept loop, address parsing, starting and stopping beyond the reset of the slot counter.
