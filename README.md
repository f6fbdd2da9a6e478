# Saffron core, modelled in Dafny

Saffron is a command-line HTTP client written in Rust. This project models its core and proves properties of the model.

**The relaxed-JSON reader of `saffron-data`.** It has three layers:

- A `Tokenizer` scans characters into tokens. It tracks line, column and span, decodes escapes in single- or double-quoted strings, and ends the list with one `EndOfFile` token.
- A `TokenStream` is a clamped, replayable cursor over those tokens.
- A recursive-descent builder turns the tokens into a `JsonElement` tree.

**The Insomnia v4 importer.** It reads an export with that JSON reader, checks it, and groups its requests under their workspaces.

**The domain logic of `saffron-core`:**

- environments and `{{name}}` template substitution;
- the collection and folder tree, with search by id;
- the mapping between a request and its stored form;
- the request builder;
- the response queries;
- MIME-type mapping and form URL-encoding.

**A few rules of `saffron-cli`:**

- the `key:value` and `key=value` argument parsers;
- the file-name sanitiser;
- the 100-entry, newest-first history list;
- the 500-byte body preview.

Each mutable Rust object is a Dafny `class` whose methods change its fields under `modifies`:

- `Tokenizer` (`Lexer.Tokenizer`);
- `TokenStream` (`TokenStreams.TokenStream`);
- `Environment` and `EnvironmentSet` (`Environments`);
- `Collection` (`Collections.Collection`).

Every loop of the source is a method with a `while` or `for` loop. Each such method is proved equal to a specification function, and the properties are proved as lemmas about those functions. The loops are:

- the scan loops of the tokenizer;
- the member and element loops of the JSON builder;
- the resource, header and data loops and the two passes of the importer;
- the substitution loop of `resolve_template`;
- the header loop of `to_http_request`.

Values the source builds and passes by value are datatypes: tokens, JSON trees, requests, responses, folders and history entries.

The modules follow the crates:

- **Lexing:** `Tokens`, `LexSpec`, `Lexer`, `LexProps`, `LexConcat`.
- **Token cursor:** `TokenStreams`.
- **JSON:** `JsonSpec`, `Json`, `JsonGrammar`, `JsonProps`.
- **Importers:** `Imported`, `Insomnia`, `Importers`.
- **Domain:** `Request`, `Response`, `RequestBodies`, `Environments`, `Collections`.
- **CLI:** `Cli`, `Storage`, `History`.
- **Shared helpers:** `Strings`, `Utf8`, `Wrappers`, `Machine`.

The main results:

- **JSON grammar.** The builder accepts exactly the token lists that start with the rendering of a grammar text. It returns that text's meaning: duplicate keys resolve to the last value, and trailing tokens are never read (`JsonGrammar.ParseRendered`, `JsonGrammar.ParseAccepted`).
- **Whitespace.** Inserting whitespace between tokens does not change the tree (`JsonProps.BlankIgnored`).
- **Numbers.** Every numeral the tokenizer produces is a number `f64::from_str` accepts (`JsonProps.NumeralFloat`).
- **String literals.** A literal round-trips through its escaped form (`LexProps.StringLiteralRoundTrip`).
- **Templates.** With brace-free names and values, and literal text in which no `{{` starts (single braces, as in a JSON body, are allowed), `resolve_template` fills in exactly the placeholders of defined variables and leaves all others (`Environments.ResolvedFills`, `Environments.JsonBodyTemplate`).
- **Stored requests.** A request and its stored form map back and forth with the losses the source implies (`Collections.StoreRestore`, `Collections.RestoreStore`).
- **History.** The history is always the newest 100 entries (`Storage.RecordedAllNewest`).
- **Importer.** `convert` makes one collection per workspace, holding exactly its requests (`Insomnia.OnePerWorkspace`, `Insomnia.RequestsUnderExactly`).

## Model

| member | source | states |
|---|---|---|
| Tokens.Signatures | crates/saffron-data/src/tokenizer.rs:8-14 | the builder sees of each token only its kind and lexeme, one signature per token, in order |
| LexSpec.StructuralKind | crates/saffron-data/src/tokenizer.rs:111-117 | `[` is LeftBracket, `]` RightBracket, `{` LeftBrace, `}` RightBrace, `,` Comma and `:` Colon, each kind for that char alone |
| LexSpec.Unescape | crates/saffron-data/src/tokenizer.rs:190-201 | `\n`, `\t`, `\r` decode to the control char; any other escaped char stands for itself |
| LexSpec.WordKind | crates/saffron-data/src/tokenizer.rs:234-248 | a word is `Boolean`, `Null` or `Identifier`: `Boolean` exactly for `true` and `false`, `Null` exactly for `null` |
| LexSpec.DigitsEnd | crates/saffron-data/src/tokenizer.rs:151-169 | the digit run from `i` ends at a non-digit or at the end of the text |
| LexSpec.DigitsEndIs | crates/saffron-data/src/tokenizer.rs:151-169 | any run of digits that stops at `j` ends at `DigitsEnd` |
| LexSpec.WordEnd | crates/saffron-data/src/tokenizer.rs:234-248 | the run of ASCII letters and digits ends at a char outside that set or at the end |
| LexSpec.WordEndIs | crates/saffron-data/src/tokenizer.rs:234-248 | any such run that stops at `j` ends at `WordEnd` |
| LexSpec.NumberEnd | crates/saffron-data/src/tokenizer.rs:151-169 | a number's end lies within the text |
| LexSpec.NumberEndAfter | crates/saffron-data/src/tokenizer.rs:155-166 | the fraction is read only when a digit follows the `.`; otherwise the number ends before the `.` |
| LexSpec.ScanString | crates/saffron-data/src/tokenizer.rs:183-232 | a literal ends just after the quote that opened it; its token is a `String` spanning both quotes |
| LexSpec.QuotedStep | crates/saffron-data/src/tokenizer.rs:119-120 | a quote starts a `String` token spanning the literal |
| LexSpec.ScanToken | crates/saffron-data/src/tokenizer.rs:99-149 | one step emits a token spanning the chars it read, never an end-of-file token |
| LexSpec.ScanTokenBasics | crates/saffron-data/src/tokenizer.rs:105-117 | blanks emit nothing and advance by one; a newline moves to the next line at column 1; each structural char is one token, its lexeme that char |
| LexSpec.StepAtNumber | crates/saffron-data/src/tokenizer.rs:122-134 | a digit, or a `-` before a digit, starts a number token up to `NumberEnd` |
| LexSpec.StepAtWord | crates/saffron-data/src/tokenizer.rs:137-139 | a letter starts a word token classified by `WordKind` |
| LexSpec.StepAtQuote | crates/saffron-data/src/tokenizer.rs:119-120 | a single or double quote starts a string literal closed by the same quote |
| Lexer.Tokenizer.constructor | crates/saffron-data/src/tokenizer.rs:73-82 | a new tokenizer is at line 1, column 1, offset 0, with no tokens |
| Lexer.Tokenizer.FreshPending | crates/saffron-data/src/tokenizer.rs:73-92 | a fresh tokenizer still has the whole text's scan pending |
| Lexer.Tokenizer.ScanTokens | crates/saffron-data/src/tokenizer.rs:84-92 | the loop yields exactly the specification's token list (or its error), in a new stream at position 0 |
| Lexer.Tokenizer.PendingAfter | crates/saffron-data/src/tokenizer.rs:84-92 | one step that follows the specification keeps the pending result unchanged; a failed step is the scan's failure |
| Lexer.Tokenizer.SyncCursors | crates/saffron-data/src/tokenizer.rs:94-97 | the next token starts where the last one ended |
| Lexer.Tokenizer.ScanToken | crates/saffron-data/src/tokenizer.rs:99-149 | one call changes the state exactly as the specification's step does |
| Lexer.Tokenizer.TokenAt | crates/saffron-data/src/tokenizer.rs:111-146 | the token arms of `scan_token` follow the specification's step |
| Lexer.Tokenizer.Number | crates/saffron-data/src/tokenizer.rs:151-169 | `number` emits the specification's number token |
| Lexer.Tokenizer.Numeral | crates/saffron-data/src/tokenizer.rs:152-166 | the read stops at `NumberEnd`; the column moves by the chars read |
| Lexer.Tokenizer.AdvanceWhileDigit | crates/saffron-data/src/tokenizer.rs:152-154 | the digit loop stops at `DigitsEnd` |
| Lexer.Tokenizer.StringLiteral | crates/saffron-data/src/tokenizer.rs:183-232 | `string` emits the decoded literal, or fails as the specification does when the input ends first |
| Lexer.Tokenizer.IdentifierOrKeyword | crates/saffron-data/src/tokenizer.rs:234-248 | the token is the longest alphanumeric run, classified by `WordKind` |
| Lexer.Tokenizer.AdvanceWhileAlphaNumeric | crates/saffron-data/src/tokenizer.rs:235-237 | the loop stops at `WordEnd` |
| Lexer.Tokenizer.MakeToken | crates/saffron-data/src/tokenizer.rs:250-255 | appends one token whose lexeme is the raw text read and whose span covers it |
| Lexer.Tokenizer.MakeTokenWithLexeme | crates/saffron-data/src/tokenizer.rs:257-261 | appends one token with the given lexeme at the current span |
| Lexer.Tokenizer.Advance | crates/saffron-data/src/tokenizer.rs:263-272 | at the end nothing moves and no char is returned; otherwise the next char is consumed and the column moves by one |
| Lexer.Tokenizer.Check | crates/saffron-data/src/tokenizer.rs:274-280 | true exactly when input remains and the next char is `c` |
| Lexer.Tokenizer.Peek | crates/saffron-data/src/tokenizer.rs:282-287 | the next char, or `'\0'` at the end |
| Lexer.Tokenizer.PeekNext | crates/saffron-data/src/tokenizer.rs:289-294 | the char after the next, or `'\0'` past the end |
| LexProps.LexFromEndsWithEof | crates/saffron-data/src/tokenizer.rs:84-92 | a successful scan from any point ends with one end-of-file token, and no earlier token is one |
| LexProps.LexEndsWithEof | crates/saffron-data/src/tokenizer.rs:84-92 | on a whole text, the list is non-empty and only its last token is `EndOfFile` |
| LexSpec.LexFrom | crates/saffron-data/src/tokenizer.rs:84-92 | the scan from a position: a successful list is non-empty and ends with the `EndOfFile` token |
| LexSpec.Lex | crates/saffron-data/src/tokenizer.rs:84-92 | the scan of a whole text from line 1, column 1: a successful list ends with `EndOfFile` |
| LexProps.Escape | crates/saffron-data/src/tokenizer.rs:190-201 | the escaped form of a text inside a literal, as a reference for the round trip |
| LexProps.PlainStep | crates/saffron-data/src/tokenizer.rs:203-218 | a plain char of the body is kept as it is |
| LexProps.EscapeStep | crates/saffron-data/src/tokenizer.rs:190-201 | a backslash followed by the quote or a backslash stands for that char |
| LexProps.ScanEscaped | crates/saffron-data/src/tokenizer.rs:183-232 | an escaped body followed by the quote reads back to the original text |
| LexProps.StringLiteralRoundTrip | crates/saffron-data/src/tokenizer.rs:183-232 | a literal holding the escaped form of `v` scans as one `String` token whose lexeme is `v` |
| LexProps.NoClosingQuote | crates/saffron-data/src/tokenizer.rs:220-225 | input with no closing quote ahead fails with the unterminated-string error |
| LexProps.UnclosedTail | crates/saffron-data/src/tokenizer.rs:220-225 | an input that ends inside a literal, even right after a backslash, fails |
| LexProps.UnclosedAfterEscapes | crates/saffron-data/src/tokenizer.rs:183-232 | an escaped body followed by an unclosed tail fails |
| LexProps.UnterminatedStringFails | crates/saffron-data/src/tokenizer.rs:220-225 | a source that opens a literal and never closes it is rejected |
| LexProps.DigitsRun | crates/saffron-data/src/tokenizer.rs:151-154 | every char of the digit run is a digit |
| LexProps.WordRun | crates/saffron-data/src/tokenizer.rs:235-237 | every char of a word run is an ASCII letter or digit |
| LexProps.UnsignedNumeralParts | crates/saffron-data/src/tokenizer.rs:151-169 | digits, then optionally `.` and digits, form an unsigned numeral |
| LexProps.NumberToken | crates/saffron-data/src/tokenizer.rs:122-131 | a number token's lexeme is an optional `-`, digits, and optionally `.` with at least one digit |
| LexProps.WordToken | crates/saffron-data/src/tokenizer.rs:234-248 | a word token is a letter followed by the longest run of letters and digits |
| LexProps.InvalidChar | crates/saffron-data/src/tokenizer.rs:122-146 | a char no token starts with, and a `-` without a digit after it, stop the scan with the invalid-char error |
| LexProps.UnterminatedOnly | crates/saffron-data/src/tokenizer.rs:183-232 | a literal can fail only with the unterminated-string error |
| LexProps.DotIsError | crates/saffron-data/src/tokenizer.rs:141-146 | a `.` never starts a token |
| LexProps.StrayDotFails | crates/saffron-data/src/tokenizer.rs:155-166 | a `.` after a number with no digit after it is left unread, and the scan fails on it |
| LexProps.StrayDotExamples | crates/saffron-data/tests/json_tests.rs:305-309 | `1.` and `123.456.789` are rejected |
| LexConcat.LexFromSuffix | crates/saffron-data/src/tokenizer.rs:84-92 | a scan's outcome and signatures depend only on the text still to be read |
| LexConcat.LexFromPrefix | crates/saffron-data/src/tokenizer.rs:84-92 | a scan of `a` that stops at a token boundary is the start of the scan of `a + c` |
| LexConcat.LexConcat | crates/saffron-data/src/tokenizer.rs:84-92 | when `a` scans on its own and the seam is a token boundary, `a + c` gives `a`'s tokens, then `c`'s |
| LexConcat.LeadingBlank | crates/saffron-data/src/tokenizer.rs:105-110 | a leading blank changes no signature |
| LexConcat.BlankInsertion | crates/saffron-data/src/tokenizer.rs:105-110 | inserting a blank at a token boundary leaves the outcome and the signatures unchanged |
| TokenStreams.TokenStream.constructor | crates/saffron-data/src/token_stream.rs:10-15 | a new stream holds the tokens at position 0 |
| TokenStreams.TokenStream.Current | crates/saffron-data/src/token_stream.rs:35-45 | `tokens[position]`, the last token past the end, the synthetic end-of-file token when empty |
| TokenStreams.TokenStream.Previous | crates/saffron-data/src/token_stream.rs:17-33 | the first token at position 0, `tokens[position-1]` inside, the last token past the end |
| TokenStreams.TokenStream.LookAhead | crates/saffron-data/src/token_stream.rs:52-62 | `tokens[position+k]` or the last token; the synthetic end-of-file token for every `k` when there are no tokens; `LookAhead(0)` is `Current()` |
| TokenStreams.TokenStream.Advance | crates/saffron-data/src/token_stream.rs:47-50 | position up by exactly one; returns the token that was current |
| TokenStreams.TokenStream.Backtrack | crates/saffron-data/src/token_stream.rs:64-66 | needs position > 0; position down by one |
| TokenStreams.TokenStream.AdvanceThenBacktrack | crates/saffron-data/src/token_stream.rs:47-66 | advance then backtrack restores the cursor |
| JsonSpec.Peek | crates/saffron-data/src/token_stream.rs:35-45 | the current token as the builder reads it; with a trailing end-of-file token, any other token has one after it |
| JsonSpec.ParseValue | crates/saffron-data/src/json.rs:23-63 | a success consumes at least one token and stops before the end-of-file token |
| JsonSpec.ParseObject | crates/saffron-data/src/json.rs:65-118 | likewise for objects |
| JsonSpec.ParseMembers | crates/saffron-data/src/json.rs:81-115 | likewise for the member loop |
| JsonSpec.ParseArray | crates/saffron-data/src/json.rs:120-159 | likewise for arrays |
| JsonSpec.ParseElements | crates/saffron-data/src/json.rs:136-156 | likewise for the element loop |
| Json.CurrentIsPeek | crates/saffron-data/src/token_stream.rs:35-45 | the stream's current token has the signature `Peek` reads |
| Json.ParseValue | crates/saffron-data/src/json.rs:23-63 | the method returns the specification's value with the cursor just after it, or its error |
| Json.ParseObject | crates/saffron-data/src/json.rs:65-118 | the member loop agrees with `JsonSpec.ParseObject` |
| Json.ParseMember | crates/saffron-data/src/json.rs:82-95 | the key, colon and value of one turn, or the turn's error |
| Json.MemberTurn | crates/saffron-data/src/json.rs:82-95 | a turn fails on a non-string key, a missing colon, or a failing value |
| Json.MemberAfterValue | crates/saffron-data/src/json.rs:96-114 | after a value, `,` continues with the key set, `}` ends the object, anything else fails |
| Json.ParseArray | crates/saffron-data/src/json.rs:120-159 | the element loop agrees with `JsonSpec.ParseArray` |
| Json.ParseTokens | crates/saffron-data/src/json.rs:22-162 | the first value of the stream, as the specification gives it |
| Json.Parse | crates/saffron-data/src/json.rs:165-171 | `_parse` equals `ParseText`: tokenize, then build |
| JsonSpec.ParseTokens | crates/saffron-data/src/json.rs:161-162 | succeeds exactly when a value parses at position 0, with that value; a failure carries that fault's message |
| JsonSpec.ParseText | crates/saffron-data/src/json.rs:165-171 | a tokenizer error is returned as it is; a success needs a successful scan |
| JsonGrammar.Render | crates/saffron-data/src/json.rs:23-159 | the tokens a grammar text is written as; never empty |
| JsonGrammar.MeaningsInOrder | crates/saffron-data/src/json.rs:136-156 | array elements keep their order |
| JsonGrammar.CollectKeys | crates/saffron-data/src/json.rs:96-97 | an object has exactly one entry per distinct key |
| JsonGrammar.CollectLastWins | crates/saffron-data/src/json.rs:96-97 | for each key, the last member that carries it decides the value |
| JsonGrammar.CollectKeeps | crates/saffron-data/src/json.rs:96-97 | a key no member carries keeps its earlier value |
| JsonGrammar.RenderSize | crates/saffron-data/src/json.rs:23-159 | `Size` counts the rendered tokens |
| JsonGrammar.LaidIsRendered | crates/saffron-data/src/json.rs:23-159 | the rendering of a text lies at `pos` exactly when its layout does |
| JsonGrammar.ArrayEmpty | crates/saffron-data/src/json.rs:131-134 | `[` then `]` is the empty array, two tokens |
| JsonGrammar.ArrayOpens | crates/saffron-data/src/json.rs:131-136 | `[` followed by anything but `]` enters the element loop |
| JsonGrammar.ObjectEmpty | crates/saffron-data/src/json.rs:76-79 | `{` then `}` is the empty object |
| JsonGrammar.ObjectOpens | crates/saffron-data/src/json.rs:76-81 | `{` followed by a string enters the member loop |
| JsonGrammar.ElementsStep | crates/saffron-data/src/json.rs:136-156 | after an element, `,` continues, `]` ends, anything else fails |
| JsonGrammar.MembersStep | crates/saffron-data/src/json.rs:96-114 | after a member, `,` continues with the key set, `}` ends, anything else fails |
| JsonGrammar.ParseLaid | crates/saffron-data/src/json.rs:23-159 | a text laid out at `pos` parses to its meaning and is consumed exactly |
| JsonGrammar.ParseRendered | crates/saffron-data/src/json.rs:23-159 | soundness: wherever a text's tokens appear, `parse_value` consumes exactly them and returns the text's meaning |
| JsonGrammar.ValueSyntax | crates/saffron-data/src/json.rs:23-63 | every value the parser accepts is laid out by some grammar text |
| JsonGrammar.ParseAccepted | crates/saffron-data/src/json.rs:23-159 | completeness: on canonically spelt tokens, every accepted value is the rendering of a text, consumed exactly, with that text's meaning |
| JsonProps.NumeralFloat | crates/saffron-data/src/json.rs:33-40 | every numeral the tokenizer reads is accepted by `f64::from_str` |
| JsonProps.LexedTokens | crates/saffron-data/src/tokenizer.rs:84-92 | a tokenized text's list ends with its end-of-file token and every token is lexical |
| JsonProps.ValueFault | crates/saffron-data/src/json.rs:33-46 | on lexical tokens, the invalid-number and invalid-boolean errors never arise |
| JsonProps.ParseTextFaults | crates/saffron-data/src/json.rs:165-171 | a text that does not tokenize fails with the tokenizer's error; otherwise only grammar errors are possible |
| JsonProps.ParseTextAccepted | crates/saffron-data/src/json.rs:161-171 | every accepted text tokenizes, starts with a grammar text's rendering, and yields its meaning |
| JsonProps.ParseTextRendered | crates/saffron-data/src/json.rs:161-171 | a text whose tokens start with a rendering parses to its meaning, whatever follows |
| JsonProps.TrailingIgnored | crates/saffron-data/src/json.rs:161-162 | tokens after the first value are never inspected |
| JsonProps.BlankIgnored | crates/saffron-data/tests/json_tests.rs:237-249 | whitespace inserted at a token boundary neither makes the parse fail nor changes its tree |
| Imported.Prefix | crates/saffron-data/src/importers/mod.rs:6-22 | each variant has its own fixed prefix |
| Imported.Display | crates/saffron-data/src/importers/mod.rs:6-22 | the text is the variant's prefix, then the payload |
| Imported.DisplayInjective | crates/saffron-data/src/importers/mod.rs:6-22 | two errors that display alike are equal |
| Insomnia.GetOptionalString | crates/saffron-data/src/importers/insomnia.rs:249-254 | `Some(s)` exactly when the field is the string `s` |
| Insomnia.GetString | crates/saffron-data/src/importers/insomnia.rs:240-247 | succeeds exactly when the optional lookup does, with the same text; otherwise `MissingField(key)` |
| Insomnia.FourDenotesFour | crates/saffron-data/src/importers/insomnia.rs:63 | the lexeme `4` is a number whose `f64` value is 4.0 |
| Insomnia.NearFourDenotesFour | crates/saffron-data/src/importers/insomnia.rs:63 | `4.0000000000000001`, which `f64` rounds to 4.0, also counts as 4 |
| Insomnia.BelowFourDenotesFour | crates/saffron-data/src/importers/insomnia.rs:63 | `3.9999999999999998`, within 2^-52 below 4 and so read by `f64` as 4.0, also counts as 4 |
| Insomnia.BelowTieNotFour | crates/saffron-data/src/importers/insomnia.rs:63 | `3.9999999999999997`, past the 4 - 2^-52 midpoint and so read by `f64` as 4 - 2^-51, does not count as 4 |
| Insomnia.VersionText | crates/saffron-data/src/importers/insomnia.rs:60-66 | a number or a string gives a version text, anything else none; the text is `4` exactly for the string `"4"` or a number whose `f64` value is 4.0 |
| Insomnia.Version | crates/saffron-data/src/importers/insomnia.rs:59-67 | a missing `__export_format`, or one that is neither number nor string, is `MissingField("__export_format")`; otherwise its version text |
| Insomnia.VersionIsFour | crates/saffron-data/src/importers/insomnia.rs:60-74 | the version passes exactly for the string `"4"` or a number whose `f64` value is 4.0; a version of another type is a missing field |
| Insomnia.HeaderOf | crates/saffron-data/src/importers/insomnia.rs:119-125 | an entry yields a pair exactly when it is an object with a string `name` and a string `value` |
| Insomnia.BodyText | crates/saffron-data/src/importers/insomnia.rs:131-136 | `Some(t)` exactly when `body` is an object holding the string `text` `t` |
| Insomnia.StringEntries | crates/saffron-data/src/importers/insomnia.rs:146-155 | exactly the string-valued entries, with their texts |
| Insomnia.HeaderPairsConcat | crates/saffron-data/src/importers/insomnia.rs:116-128 | the headers of two runs of entries are those of each, in order |
| Insomnia.HeaderPairsExactly | crates/saffron-data/src/importers/insomnia.rs:116-128 | a pair is kept iff some entry is an object with that string name and value |
| Insomnia.HeaderPairsBound | crates/saffron-data/src/importers/insomnia.rs:116-128 | never more headers than entries |
| Insomnia.ParseEntry | crates/saffron-data/src/importers/insomnia.rs:92-165 | an entry can only fail with a missing field |
| Insomnia.ParseEntries | crates/saffron-data/src/importers/insomnia.rs:92-166 | the loop can only fail with a missing field |
| Insomnia.EntryOutcome | crates/saffron-data/src/importers/insomnia.rs:92-157 | non-objects are skipped; `_id`, `name`, `_type` are required in that order; an unknown type is skipped |
| Insomnia.RequestEntry | crates/saffron-data/src/importers/insomnia.rs:110-145 | a request also needs string `method` and `url`, and keeps its headers and body |
| Insomnia.EntriesFailure | crates/saffron-data/src/importers/insomnia.rs:92-166 | the list fails iff some entry fails, with the first failing entry's error |
| Insomnia.EntriesKept | crates/saffron-data/src/importers/insomnia.rs:92-166 | a resource is listed iff some entry yields it |
| Insomnia.ExportOutcome | crates/saffron-data/src/importers/insomnia.rs:51-88 | JSON the reader rejects is the only `ParseError`; each failed root, version and `resources` check gives its own error |
| Insomnia.CollectHeaders | crates/saffron-data/src/importers/insomnia.rs:116-128 | the header loop yields `HeaderPairs` |
| Insomnia.CollectStrings | crates/saffron-data/src/importers/insomnia.rs:146-155 | the data loop yields `StringEntries` |
| Insomnia.ParseResource | crates/saffron-data/src/importers/insomnia.rs:93-165 | one turn of the resource loop equals `ParseEntry` |
| Insomnia.ParseResources | crates/saffron-data/src/importers/insomnia.rs:90-166 | the resource loop equals `ParseEntries` |
| Insomnia.Parse | crates/saffron-data/src/importers/insomnia.rs:51-169 | `parse` equals `ParseExport` |
| Insomnia.ParseExport | crates/saffron-data/src/importers/insomnia.rs:51-169 | a text the JSON reader rejects is a `ParseError` with that error's text; an accepted export has an object root and version `4` |
| Insomnia.AsImported | crates/saffron-data/src/importers/insomnia.rs:206-224 | a request resource gives one imported request, any other none |
| Insomnia.FiledRequests | crates/saffron-data/src/importers/insomnia.rs:185-225 | the requests filed under an id are the request resources whose parent is that id, in order |
| Insomnia.RequestsUnderExactly | crates/saffron-data/src/importers/insomnia.rs:185-225 | a request lands in a workspace iff it is a request resource whose parent key is that id; groups, their children and environments never do |
| Insomnia.WorkspaceKeys | crates/saffron-data/src/importers/insomnia.rs:177-184 | an id is a workspace key iff some workspace resource carries it |
| Insomnia.Converted | crates/saffron-data/src/importers/insomnia.rs:171-236 | one collection per id of the order, holding that workspace's name, description and the requests under it |
| Insomnia.OnePerWorkspace | crates/saffron-data/src/importers/insomnia.rs:171-236 | one collection per distinct workspace id, each holding the requests under it |
| Insomnia.Convert | crates/saffron-data/src/importers/insomnia.rs:171-236 | the two passes equal `Converted` |
| Insomnia.CanImport | crates/saffron-data/src/importers/insomnia.rs:46-49 | true iff both the quoted `__export_format` and the quoted `resources` occur somewhere in the text, JSON or not |
| Insomnia.CanImportSurrounded | crates/saffron-data/src/importers/insomnia.rs:46-49 | text added around an importable text keeps it importable |
| Importers.Import | crates/saffron-data/src/importers/mod.rs:60-63 | a parse error comes back unchanged; a successful parse gives `Success(Converted(...))` of that export, one collection per workspace id |
| Importers.AutoImport | crates/saffron-data/src/importers/mod.rs:67-81 | the unknown-format error when `can_import` fails; otherwise exactly `Import` |
| Request.HttpMethod.AsStr | crates/saffron-core/src/domain/request.rs:15-25 | each name is upper-case, at least three chars |
| Request.AsStrInjective | crates/saffron-core/src/domain/request.rs:15-25 | no two methods share a name |
| Request.FindHeader | crates/saffron-core/src/domain/request.rs:161-166 | the first header whose name matches ignoring ASCII case; `None` iff none matches |
| Request.HttpRequest.New | crates/saffron-core/src/domain/request.rs:86-95 | no headers, no body, a 30 second timeout, redirects followed |
| Request.HttpRequest.Get | crates/saffron-core/src/domain/request.rs:97-99 | `new` with GET |
| Request.HttpRequest.Post | crates/saffron-core/src/domain/request.rs:101-103 | `new` with POST |
| Request.HttpRequest.Put | crates/saffron-core/src/domain/request.rs:105-107 | `new` with PUT |
| Request.HttpRequest.Patch | crates/saffron-core/src/domain/request.rs:109-111 | `new` with PATCH |
| Request.HttpRequest.Delete | crates/saffron-core/src/domain/request.rs:113-115 | `new` with DELETE |
| Request.HttpRequest.Default | crates/saffron-core/src/domain/request.rs:173-177 | GET with an empty URL and the defaults of `new` |
| Request.HttpRequest.WithHeader | crates/saffron-core/src/domain/request.rs:117-120 | one header appended after the others; nothing else changes |
| Request.HttpRequest.WithHeaders | crates/saffron-core/src/domain/request.rs:122-125 | the headers appended in order; nothing else changes |
| Request.HttpRequest.WithBody | crates/saffron-core/src/domain/request.rs:127-130 | only the body is replaced |
| Request.HttpRequest.WithJsonBody | crates/saffron-core/src/domain/request.rs:132-135 | a JSON body, by `with_body` |
| Request.HttpRequest.WithTextBody | crates/saffron-core/src/domain/request.rs:137-140 | a text body, by `with_body` |
| Request.HttpRequest.WithTimeout | crates/saffron-core/src/domain/request.rs:142-145 | only the timeout is replaced, by `Some(s)` |
| Request.HttpRequest.WithoutTimeout | crates/saffron-core/src/domain/request.rs:147-150 | only the timeout is replaced, by `None` |
| Request.HttpRequest.FollowRedirects | crates/saffron-core/src/domain/request.rs:152-155 | only the flag is replaced |
| Request.HttpRequest.GetHeader | crates/saffron-core/src/domain/request.rs:161-166 | the first header matching ignoring ASCII case; `None` iff none |
| Request.HttpRequest.ContentType | crates/saffron-core/src/domain/request.rs:168-170 | equals `get_header` under any ASCII spelling of `content-type` |
| Request.FindHeaderSpelling | crates/saffron-core/src/domain/request.rs:161-166 | names equal up to ASCII case find the same header |
| Request.FindHeaderAppend | crates/saffron-core/src/domain/request.rs:157-166 | an appended header is found only when no earlier header matches |
| Response.FindEntry | crates/saffron-core/src/domain/response.rs:64-69 | the first entry matching ignoring ASCII case; `None` iff none |
| Response.ParseUsize | crates/saffron-core/src/domain/response.rs:89-92 | a result fits in a `usize` and comes from a non-empty text |
| Response.ParseUsizeDecimal | crates/saffron-core/src/domain/response.rs:89-92 | every `usize` in decimal, with or without `+`, reads back as itself |
| Response.ParseUsizeRejects | crates/saffron-core/src/domain/response.rs:89-92 | a text with a non-digit (other than a leading `+`) is no number |
| Response.HttpResponse.New | crates/saffron-core/src/domain/response.rs:15-31 | every field stored as given |
| Response.HttpResponse.GetHeader | crates/saffron-core/src/domain/response.rs:64-69 | some entry matching ignoring ASCII case; `None` iff none matches |
| Response.HttpResponse.ContentType | crates/saffron-core/src/domain/response.rs:57-62 | the `content-type` lookup under any ASCII spelling; `None` iff no such key |
| Response.HttpResponse.IsJson | crates/saffron-core/src/domain/response.rs:71-75 | the content type holds `application/json`; false without one |
| Response.HttpResponse.IsHtml | crates/saffron-core/src/domain/response.rs:77-81 | the content type holds `text/html`; false without one |
| Response.HttpResponse.IsXml | crates/saffron-core/src/domain/response.rs:83-87 | the content type holds `xml`; false without one |
| Response.HttpResponse.ContentLength | crates/saffron-core/src/domain/response.rs:89-92 | a present header gives its value read as a `usize` (`Some(n)` for a number, `None` otherwise); no header gives `None` |
| Response.HttpResponse.BodyAsStr | crates/saffron-core/src/domain/response.rs:53-55 | `Some(s)` iff the body is the UTF-8 encoding of `s` |
| Response.HttpResponse.BodyAsString | crates/saffron-core/src/domain/response.rs:49-51 | the same test; the bytes come back in the error |
| Response.FindEntrySpelling | crates/saffron-core/src/domain/response.rs:64-69 | names equal up to ASCII case find the same entry |
| Response.HttpResponse.IsSuccess | crates/saffron-core/src/domain/response.rs:33-35 | true iff the status is 2xx |
| Response.HttpResponse.IsRedirect | crates/saffron-core/src/domain/response.rs:37-39 | true iff the status is 3xx |
| Response.HttpResponse.IsClientError | crates/saffron-core/src/domain/response.rs:41-43 | true iff the status is 4xx |
| Response.HttpResponse.IsServerError | crates/saffron-core/src/domain/response.rs:45-47 | true iff the status is 5xx |
| Response.StatusClasses | crates/saffron-core/src/domain/response.rs:33-47 | at most one status class holds, and none outside [200,600) |
| Response.XmlMediaTypes | crates/saffron-core/src/domain/response.rs:83-87 | `application/xml` and `text/xml` both count as XML |
| RequestBodies.ContentType.AsMimeType | crates/saffron-core/src/domain/request_body.rs:15-25 | a custom type gives back its text; a fixed one a non-empty MIME type |
| RequestBodies.FromMimeType | crates/saffron-core/src/domain/request_body.rs:27-37 | JSON iff the lower-cased text holds `application/json`; a custom result keeps the original spelling |
| RequestBodies.FromMimeTypeIgnoresCase | crates/saffron-core/src/domain/request_body.rs:27-37 | recognition ignores ASCII case |
| RequestBodies.MimeTypeRoundTrip | crates/saffron-core/src/domain/request_body.rs:15-37 | `from_mime_type(as_mime_type(c)) == c` for the six fixed types |
| RequestBodies.EscapeChar | crates/saffron-core/src/domain/request_body.rs:54-62 | one char for exactly the unreserved chars and space; otherwise `%` and two upper-case hex digits |
| RequestBodies.Escape | crates/saffron-core/src/domain/request_body.rs:54-62 | 1 to 3 output chars per input char, all unreserved, `+` or `%` |
| RequestBodies.UnescapeEscape | crates/saffron-core/src/domain/request_body.rs:54-62 | decoding the encoding gives each char's low eight bits back |
| RequestBodies.LowBytesLatin1 | crates/saffron-core/src/domain/request_body.rs:59 | chars below U+0100 survive the round trip unchanged |
| RequestBodies.EscapeKeepsLowByte | crates/saffron-core/src/domain/request_body.rs:59 | chars that agree in their low eight bits encode alike |
| RequestBodies.FormPair | crates/saffron-core/src/domain/request_body.rs:48 | an encoded pair holds no `&` |
| RequestBodies.EncodeFormUrlencoded | crates/saffron-core/src/domain/request_body.rs:46-51 | the empty map gives `""`; otherwise splitting the result at `&` gives back the encoded `key=value` pairs, one per key in iteration order, with n-1 separators |
| RequestBodies.FormPairFields | crates/saffron-core/src/domain/request_body.rs:48 | a pair cut at its first `=` decodes to the key and the value (each char's low byte) |
| Environments.Resolved | crates/saffron-core/src/domain/environment.rs:34-43 | `resolve_template` for a key order: every char of the result comes from the template or from a visited value |
| Environments.Placeholder | crates/saffron-core/src/domain/environment.rs:38 | `{{key}}`: two braces, the key, two braces |
| Environments.ResolvedUnchanged | crates/saffron-core/src/domain/environment.rs:34-43 | a template without a defined variable's placeholder comes back unchanged |
| Environments.ReplaceRendered | crates/saffron-core/src/domain/environment.rs:37-40 | one `replace` fills in exactly that variable's placeholders |
| Environments.ResolvedBinds | crates/saffron-core/src/domain/environment.rs:37-40 | after the first `n` keys, exactly their placeholders are filled in |
| Environments.ResolvedFills | crates/saffron-core/src/domain/environment.rs:34-43 | with brace-free names and values and literal text in which no `{{` starts, every defined placeholder is filled and undefined ones stay, in any key order |
| Environments.JsonBodyTemplate | crates/saffron-cli/src/handlers.rs:86-95 | in the JSON body `{"user":"{{name}}"}` the body's own braces stay and the placeholder is filled |
| Environments.FirstNamed | crates/saffron-core/src/domain/environment.rs:72-85 | the position of the first environment with that name; `None` iff none |
| Environments.FirstNamedAppend | crates/saffron-core/src/domain/environment.rs:68-74 | adding at the end never hides an earlier match |
| Environments.Environment.constructor | crates/saffron-core/src/domain/environment.rs:11-16 | the given name, no variables |
| Environments.Environment.Set | crates/saffron-core/src/domain/environment.rs:18-20 | `get(k)` becomes `Some(v)`; every other key is unchanged |
| Environments.Environment.Get | crates/saffron-core/src/domain/environment.rs:22-24 | `Some` iff defined, with its value |
| Environments.Environment.Remove | crates/saffron-core/src/domain/environment.rs:26-28 | returns the old value; the key is gone and the others are unchanged |
| Environments.Environment.Contains | crates/saffron-core/src/domain/environment.rs:30-32 | iff `get` is `Some` |
| Environments.Environment.ResolveTemplate | crates/saffron-core/src/domain/environment.rs:34-43 | the loop equals `Resolved`; without placeholders the template is returned as is; with brace-free variables, for any reading of the template whose literal text starts no `{{`, the result is `Fill` |
| Environments.Environment.ResolveRequestUrl | crates/saffron-core/src/domain/environment.rs:45-47 | the URL resolved as a template |
| Environments.Environment.ResolveHeaderValue | crates/saffron-core/src/domain/environment.rs:49-51 | the value resolved as a template |
| Environments.EnvironmentSet.constructor | crates/saffron-core/src/domain/environment.rs:61-66 | nothing active, no environments |
| Environments.EnvironmentSet.Add | crates/saffron-core/src/domain/environment.rs:68-70 | appended without deduplication; the active name is unchanged |
| Environments.EnvironmentSet.Get | crates/saffron-core/src/domain/environment.rs:72-78 | the first environment with that name; `None` iff none |
| Environments.EnvironmentSet.Remove | crates/saffron-core/src/domain/environment.rs:80-85 | removes and returns the first match; the rest keep their order |
| Environments.EnvironmentSet.SetActive | crates/saffron-core/src/domain/environment.rs:87-89 | records the name without checking it |
| Environments.EnvironmentSet.GetActive | crates/saffron-core/src/domain/environment.rs:91-101 | `None` without an active name; otherwise exactly `Get` of the active name, the first match, present whenever one exists |
| Collections.SerializableRequest.FromRequest | crates/saffron-core/src/domain/collection.rs:121-138 | the method's name, URL, headers in order and timeout; a body only for text or JSON |
| Collections.Restored | crates/saffron-core/src/domain/collection.rs:140-167 | the method from its name, the URL, one header per pair, a text body when one is stored, the stored timeout or 30 s, and redirects followed |
| Collections.SerializableRequest.ToHttpRequest | crates/saffron-core/src/domain/collection.rs:140-167 | the header loop builds exactly `Restored` |
| Collections.HeadersOf | crates/saffron-core/src/domain/collection.rs:154-156 | one header per pair, in order |
| Collections.PairsOf | crates/saffron-core/src/domain/collection.rs:125-129 | one pair per header, in order |
| Collections.HeadersPairs | crates/saffron-core/src/domain/collection.rs:121-167 | headers survive the round trip through pairs |
| Collections.PairsHeaders | crates/saffron-core/src/domain/collection.rs:121-167 | pairs survive the round trip through headers |
| Collections.MethodFromName | crates/saffron-core/src/domain/collection.rs:141-150 | the method whose name is the upper case of the text; GET for anything else |
| Collections.MethodFromNameIgnoresCase | crates/saffron-core/src/domain/collection.rs:141-150 | a method's name in any ASCII case reads back as that method |
| Collections.StoredBody | crates/saffron-core/src/domain/collection.rs:130-134 | storing keeps a text body or nothing |
| Collections.StoreRestore | crates/saffron-core/src/domain/collection.rs:121-167 | a request comes back with its body as stored, a missing timeout as 30 s, and redirects followed |
| Collections.RestoreStore | crates/saffron-core/src/domain/collection.rs:121-167 | a stored request comes back with its method name normalised and a missing timeout as 30 s |
| Collections.SavedRequest.New | crates/saffron-core/src/domain/collection.rs:101-108 | the request in stored form, no description |
| Collections.SavedRequest.WithDescription | crates/saffron-core/src/domain/collection.rs:110-113 | only the description is set |
| Collections.SavedRequest.ToHttpRequest | crates/saffron-core/src/domain/collection.rs:115-117 | the stored request restored |
| Collections.FindIn | crates/saffron-core/src/domain/collection.rs:62 | the first request with the id; `None` iff none has it |
| Collections.FindInAppend | crates/saffron-core/src/domain/collection.rs:61-66 | a search of two lists in turn is a search of their concatenation |
| Collections.Folder.New | crates/saffron-core/src/domain/collection.rs:70-77 | the name, no description, no requests, no folders |
| Collections.Folder.WithDescription | crates/saffron-core/src/domain/collection.rs:79-82 | only the description is set |
| Collections.Folder.AddRequest | crates/saffron-core/src/domain/collection.rs:84-86 | appended last; nothing else changes |
| Collections.Folder.AddFolder | crates/saffron-core/src/domain/collection.rs:88-90 | appended last; nothing else changes |
| Collections.Folder.FindRequest | crates/saffron-core/src/domain/collection.rs:92-97 | the first match depth first: own requests, then each sub-folder in order |
| Collections.FindInFolders | crates/saffron-core/src/domain/collection.rs:64-65 | the first folder's match is the first match among all their requests |
| Collections.Collection.constructor | crates/saffron-core/src/domain/collection.rs:39-46 | the name, no description, no folders, no requests |
| Collections.Collection.WithDescription | crates/saffron-core/src/domain/collection.rs:48-51 | only the description is set |
| Collections.Collection.AddRequest | crates/saffron-core/src/domain/collection.rs:53-55 | appended last; nothing else changes |
| Collections.Collection.AddFolder | crates/saffron-core/src/domain/collection.rs:57-59 | appended last; nothing else changes |
| Collections.Collection.FindRequest | crates/saffron-core/src/domain/collection.rs:61-66 | the first match among own requests, then the folders depth first; `None` iff no request in the tree has the id |
| Collections.FindAfterAdd | crates/saffron-core/src/domain/collection.rs:53-66 | adding a request never changes what an id already found |
| Cli.SplitOnce | crates/saffron-cli/src/cli.rs:200-203 | `None` iff the separator is absent; otherwise the parts around its first occurrence |
| Cli.SplitOnceJoin | crates/saffron-cli/src/cli.rs:200-203 | a separator-free key, the separator and a rest split back into the key and the rest |
| Cli.HeaderFormatError | crates/saffron-cli/src/cli.rs:202 | the message quotes the whole argument at a fixed place |
| Cli.FormFormatError | crates/saffron-cli/src/cli.rs:209 | the message quotes the whole argument at a fixed place |
| Cli.VariableFormatError | crates/saffron-cli/src/cli.rs:216 | the message quotes the whole argument at a fixed place |
| Cli.FormatErrorsDistinct | crates/saffron-cli/src/cli.rs:199-218 | distinct arguments give distinct messages, and the three messages never coincide |
| Cli.ParseHeader | crates/saffron-cli/src/cli.rs:199-204 | fails iff there is no `:`, with its message; otherwise both sides of the first `:`, trimmed |
| Cli.ParseHeaderJoin | crates/saffron-cli/src/cli.rs:199-204 | a trimmed name without `:` and a trimmed value come back from `name:value` |
| Cli.ParseForm | crates/saffron-cli/src/cli.rs:206-211 | fails iff there is no `=`; otherwise `key + "=" + value` is the input and the key has no `=` |
| Cli.ParseEnvVar | crates/saffron-cli/src/cli.rs:213-218 | the same split, with its own message |
| Cli.ParseKeyValueJoin | crates/saffron-cli/src/cli.rs:206-218 | a key without `=` and any value come back from `key=value` |
| Storage.SanitizeFilename | crates/saffron-cli/src/storage.rs:156-163 | same length; each unsafe char becomes `_` and the others stay; no unsafe char remains |
| Storage.SanitizeIdempotent | crates/saffron-cli/src/storage.rs:156-163 | sanitising twice is sanitising once |
| Storage.SanitizeSafe | crates/saffron-cli/src/storage.rs:156-163 | a safe name is unchanged |
| Storage.CollectionFileName | crates/saffron-cli/src/storage.rs:48-58 | the sanitised name plus `.json`, with no unsafe char |
| Storage.CollectionFileNameShared | crates/saffron-cli/src/storage.rs:96-98 | names that differ only in unsafe chars at the same places share a file |
| Storage.Recorded | crates/saffron-cli/src/storage.rs:124-130 | the new entry first, then the old ones in order; length `min(old + 1, 100)` |
| Storage.RecordEntry | crates/saffron-cli/src/storage.rs:126-130 | insert at 0, then truncate; equals `Recorded` |
| Storage.RecordedAllNewest | crates/saffron-cli/src/storage.rs:124-130 | after any number of saves the history is the newest 100 entries seen, newest first |
| Storage.RecordedCut | crates/saffron-cli/src/storage.rs:128-130 | recording onto a cut list equals recording onto the whole list, then cutting |
| Utf8.EncodeChar | crates/saffron-cli/src/history.rs:58 | one to four bytes, a leading byte then continuation bytes |
| Utf8.DecodeEncode | crates/saffron-core/src/domain/response.rs:53-55 | every text is valid UTF-8 once encoded, and decodes back to itself |
| Utf8.EncodeDecode | crates/saffron-core/src/domain/response.rs:53-55 | bytes that decode are the encoding of their text |
| Utf8.SliceTo | crates/saffron-cli/src/history.rs:60 | where `&s[..i]` does not panic, a prefix of exactly `i` bytes |
| Utf8.PrefixWithin | crates/saffron-cli/src/history.rs:60 | the longest prefix whose encoding fits in `n` bytes |
| Utf8.SliceToWithin | crates/saffron-cli/src/history.rs:60 | where slicing does not panic, it yields the longest prefix within that many bytes |
| History.BinaryPreview | crates/saffron-cli/src/history.rs:65 | `<binary data, N bytes>` |
| History.BodyPreviewAsWritten | crates/saffron-cli/src/history.rs:58-66 | binary and short bodies as written; it panics exactly when byte 500 of a longer body is inside a char, and otherwise gives the prefix of the text that encodes to the first 500 bytes, then `...` |
| History.BodyPreview | crates/saffron-cli/src/history.rs:58-66 | a short UTF-8 body whole; a longer one cut to its longest prefix that fits in 500 bytes (`PrefixWithin`, at least 497 bytes), then `...`; otherwise the binary note |
| History.PreviewAgrees | crates/saffron-cli/src/history.rs:58-66 | where the written preview does not panic, it equals the intended one |
| History.PreviewPanics | crates/saffron-cli/src/history.rs:60 | 499 `a`s then `é` (501 bytes, valid UTF-8) make the written preview panic |
| History.SliceToBoundary | crates/saffron-cli/src/history.rs:60 | `&s[..i]` panics exactly when byte `i` is a continuation byte |
| History.PrefixNearlyFull | crates/saffron-cli/src/history.rs:58-66 | the cut leaves at most three of the 500 bytes unused |
| History.FromResponse | crates/saffron-cli/src/history.rs:57-74 | status and status text copied, one pair per header entry, preview by `BodyPreview` |
| Strings.Trim | crates/saffron-cli/src/cli.rs:203 | `str::trim`: a slice of the text with only white space cut from its front and back, and no white space left at either end |
| Strings.TrimKeepsOut | crates/saffron-cli/src/cli.rs:203 | trimming adds no char |
| Strings.Replace | crates/saffron-core/src/domain/environment.rs:39 | `str::replace`: a text without the pattern is unchanged; `ReplaceRendered` ties it to templates |
| Strings.ReplaceChars | crates/saffron-core/src/domain/environment.rs:39 | every char of the result comes from the text or the replacement |
| Strings.NatToStringValue | crates/saffron-cli/src/history.rs:65 | the decimal text of `n` reads back as `n` |
| Strings.EnumeratesCount | crates/saffron-core/src/domain/request_body.rs:46-51 | an enumeration of a map's keys has one entry per key |
| Strings.UpperCaseIgnoresAsciiCase | crates/saffron-core/src/domain/collection.rs:141 | texts equal up to ASCII case upper-case alike |
| Strings.LowerCaseIgnoresAsciiCase | crates/saffron-core/src/domain/request_body.rs:28 | texts equal up to ASCII case lower-case alike |
| Strings.JoinCount | crates/saffron-core/src/domain/request_body.rs:50 | joining k parts without `&` by `&` puts k-1 of them in |
| Strings.SplitJoin | crates/saffron-core/src/domain/request_body.rs:50 | splitting at a one-char separator undoes joining with it, when no part holds it |

## Left out

- **I/O.** Reading and writing files, `serde_json`, the HTTP client, the clock and uuid generation are left out. `Storage` keeps only the file-name rule and the list update inside `save_history_entry`; `History` keeps only `from_response`.
- **`ImportError::IoError`.** It is carried as its message and never arises in the importer.
- **`f64` numbers.** A JSON number is kept as its lexeme. `JsonSpec.FloatSyntax` states which lexemes `lexeme.parse::<f64>()` accepts. The `n.to_string()` of the Insomnia version check is modelled only by whether the number parses to the `f64` 4.0 (`Insomnia.DenotesFour`: decimal lexemes without exponent whose value lies in [4 - 2^-52, 4 + 2^-51], the numbers that round to 4.0 under round-to-nearest, ties-to-even). A number that is not 4.0 keeps its lexeme in the `UnsupportedVersion` message, where `Display` may spell it differently.
- **Parser error messages.** They are the datatype `JsonSpec.Fault`. `JsonSpec.Message` spells their text, but no property about that text is proved.
- **Token columns.** The tokenizer carries line and column, and `LexSpec` computes them as the source does. No property about columns is proved.
- **`HashMap` iteration order.** It is unspecified, so it is a parameter: an `order` that `Strings.Enumerates` the keys, or a header map given as its entries. This covers `resolve_template`, `encode_form_urlencoded`, `convert` and the response header map.
- Response.HttpResponse.GetHeader: it does not say which of several keys that differ only in ASCII case wins. The source leaves that to the map's order; the model uses the first entry.
- **Mutable lookups.** `get_mut` and `get_active_mut` are modelled as `Get` and `GetActive`, which return the environment object itself. The model does not follow updates made through the returned reference.
- **`HttpRequest` and `Folder`.** Both are values, because the source owns and copies them. `add_header` is modelled as `WithHeader`: pushing in place gives the same request as the builder.
- **Unicode case mapping.** `to_uppercase` and `to_lowercase` are modelled only for the chars whose mapping matters when compared with ASCII names (`Strings.UpperChar`, `Strings.LowerChar`).
- **`Response.HttpResponse.elapsed`.** It is a count of nanoseconds instead of a `Duration`.
- **`RequestBodies.Unescape`.** This form decoder is a reference for the round-trip lemma. The source has no such decoder.
- Environments.ResolvedFills: it requires that names and values contain no braces, and that no `{{` starts in the literal text of the template (a `{` in it must be followed by a char other than `{`). This is stronger than the source's caveat that values hold no placeholder: with such braces, one replacement can create or break another, and the result depends on the key order. Single braces, as in a JSON body, are covered. A template such as `{{key}} and {{{{nested}}}}` (crates/saffron-core/tests/environment_tests.rs:199-208) is outside it. `Environments.Environment.ResolveTemplate` states this case only under the same assumption, and otherwise ties its result to `Resolved` for the given order.
- Environments.Environment.ResolveTemplate: its `Fill` clause carries the same assumption as `Environments.ResolvedFills`; without it, the result is tied only to `Resolved` for the given order.
- JsonGrammar.ParseAccepted: it assumes the token list is spelt the way the tokenizer spells tokens (`Canonical`). `JsonProps.LexedTokens` proves that every tokenized text is spelt that way.
- Storage.RecordedAllNewest: it assumes the loaded history holds at most 100 entries, which `save_history_entry` itself guarantees. A longer file, written by something else, is cut on the next save (`Storage.RecordedCut`).

## Findings

| source | as written | input that shows it | evidently intended | confidence | as-written member | corrected member |
|---|---|---|---|---|---|---|
| crates/saffron-cli/src/history.rs:60 | `&body_str[..500]` slices the text at byte 500, which panics when that byte is inside a multi-byte char | a UTF-8 body of 499 `a`s then `é` (501 bytes; byte 500 is the second byte of `é`) | cut at the last char boundary at or before byte 500, then `...` | not executed | History.BodyPreviewAsWritten (History.PreviewPanics) | History.BodyPreview |
