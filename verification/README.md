# Bracket lexer and lookahead window of json-rs, in Dafny

This project models the core of the `json-rs` tokenizer as it is written:

- **Tokens** (`tokens.dfy`, from `src/token.rs`): the closed `TokenType`
  enumeration, the `Token` record with `Token::new`, the generic
  `build_token`, and the keyword table `lookup_keyword`.
- **Lexing** (`lexing.dfy`, from `src/lexer.rs`): the `Lexer` record with the
  four fields of the Rust struct (`input`, `current_position`,
  `next_position`, `ch`), and the pure step functions `New`, `ReadChar`,
  `SkipWhitespace` and `NextToken`. `NextToken` recognises only the four
  bracket characters. It returns None at end of input and on every other
  character. `Tokenize` is the model's own loop: it repeats `NextToken` until
  that returns None. `Calls`/`Emitted` describe the lexer after `n` calls and
  the `n`-th call's result. The `check_lexer` test helper calls `next_token`
  once per expected token and requires each result to be that token.
  `EmittedFollowsTokenize` links those per-call results to `Tokenize`.
  `input_len` is `InputLen`, the buffer length, which `ReadChar` uses.
  `Lexer::build_token` forwards to `Token::new`, so the lexer's tokens are
  built with `Tokens.NewToken` directly.
- **Parsing** (`parsing.dfy`, from `src/parser.rs`): the `Parser` record
  holding the lexer, `current_token` and `peek_token`, `Parser::new`, and the
  private shift `next_token`. The shift is modelled as `Parsing.NextToken`.
- `wrappers.dfy` holds the `Option` type used for Rust's `Option`.

The model never asks callers for more than the Rust code does. The step
functions accept any field values and terminate on the measure `Fuel`, which
counts the characters left to scan. Every lexer built by `New` satisfies
`Valid`: `next_position == current_position + 1`,
`current_position <= |input|`, and `ch` is the character under the cursor
exactly when the cursor is inside the buffer. All positional facts are stated
for valid lexers.

The token stream has an independent reference definition.
`Strip(input)` drops the four whitespace characters. `Brackets(s)` maps the
longest prefix of bracket characters to their tokens. `TokenizeInput` proves
that tokenising any input yields `Brackets(Strip(input))`. The parser lemmas
connect the lookahead window to this same sequence.

The code is an early stage of a JSON tokenizer. Where it falls short of a
complete one, the model follows the code as written:

- There is no end-of-input token. `next_token` returns None at end of input.
- There is no error value either: an unrecognised character also gives None,
  and the cursor stays on that character. `EndAndUnknownLookAlike` shows a
  caller cannot tell the two cases apart.
- Only `{`, `}`, `[` and `]` are scanned. The other `TokenType` variants are
  declared but never produced.
- `lookup_keyword` is never called by the lexer.
- `src/parser.rs:31` applies `.ok()` to the lexer's `Option<Token>`. That does
  not type-check against `src/lexer.rs:31`. The model passes the lexer's
  `Option<Token>` through unchanged.

Machine integers (`usize`) are modelled as `nat`. The `next_position += 1` in
`read_char` cannot overflow, because `read_char` runs only from the
constructor or while `ch` is Some. So positions stay within `|input| + 1`
(`CallsStayValid`).

## Model

| member | source | states |
|---|---|---|
| Tokens.NewToken | src/token.rs:10-15 | the token carries exactly the given kind and literal |
| Tokens.NewTokenInjective | src/token.rs:3-15 | two constructed tokens are equal iff their kinds and literals are equal |
| Tokens.BuildToken | src/token.rs:41-46 | the token has the given kind, and its literal is the value's rendering, with the rendering passed in as `toString` |
| Tokens.BuildTokenFromChar | src/token.rs:41-46 | building from a character with the character rendering gives the one-character token holding that character |
| Tokens.CharToString | src/lexer.rs:35-38 | `ch.to_string()` is the one-character string holding `ch` |
| Tokens.LookupKeyword | src/token.rs:48-55 | the result is Some exactly for `null`, `true` and `false`; it is then `Null`, `True` or `False`, namely the kind the input spells |
| Tokens.LookupKeywordInvertsSpelling | src/token.rs:48-55 | the keyword table and the reverse spelling table agree in both directions |
| Tokens.LookupKeywordDomain | src/token.rs:48-54 | a string has a keyword kind iff it is exactly `null`, `true` or `false` |
| Tokens.KeywordKindsDistinct | src/token.rs:50-52 | the three keywords map to `Null`, `True`, `False`, which are pairwise distinct |
| Tokens.LookupKeywordRejectsNearMisses | src/token.rs:53 | case variants, prefixes, extensions and the empty string are not keywords |
| Lexing.BracketTokenKinds | src/lexer.rs:35-38 | a bracket token has one of the four bracket kinds, each paired with its own character |
| Lexing.FuelOfValid | src/lexer.rs:47-58 | for a valid lexer the termination measure is the number of characters from the cursor to the end |
| Lexing.ReadChar | src/lexer.rs:47-58 | the buffer is unchanged, and a step taken while `ch` is Some leaves fewer characters to scan |
| Lexing.ReadCharSteps | src/lexer.rs:47-58 | the cursor moves to the old next position and the next position stays one ahead; `ch` is Some of the buffer character exactly when the cursor is inside the buffer; validity is kept |
| Lexing.New | src/lexer.rs:13-29 | the new lexer is valid with positions 0 and 1, and `ch` is the first character or None on empty input |
| Lexing.SkipWhitespace | src/lexer.rs:68-75 | the buffer is unchanged and no characters are added to scan |
| Lexing.SkipWhitespaceSkipsOnlyWhitespace | src/lexer.rs:68-75 | afterwards `ch` is None or not whitespace; a lexer already there is unchanged; validity is kept; the cursor only moves forward; every character passed is one of the four whitespace characters |
| Lexing.NextToken | src/lexer.rs:31-45 | the buffer is never modified, and producing a token consumes at least one character |
| Lexing.NextTokenCases | src/lexer.rs:31-45 | after the whitespace skip: end of input gives None; a bracket gives its kind and one-character literal and moves one past it; any other character gives None with the cursor on it |
| Lexing.NextTokenAtEnd | src/lexer.rs:32-34 | at end of input the result is None and the lexer is unchanged |
| Lexing.NextTokenOnlyBrackets | src/lexer.rs:34-39 | every token produced is a bracket kind with its own character as literal |
| Lexing.NextTokenBuildsFromChar | src/lexer.rs:35-38 | every token produced is the `build_token` result for its kind and the character the whitespace skip stopped on |
| Lexing.NextTokenNoneIsStuck | src/lexer.rs:34-39 | after a None result the lexer is at end of input or on a character that is neither whitespace nor a bracket |
| Lexing.NoTokenRepeats | src/lexer.rs:32-39 | after a None result, the next call returns None and changes nothing |
| Lexing.OtherCharacterNotConsumed | src/lexer.rs:39 | on a non-whitespace, non-bracket character the call returns None and leaves the state unchanged |
| Lexing.EndAndUnknownLookAlike | src/lexer.rs:34-39 | empty input and an unrecognised character both give None, one at the end of input and one before it |
| Lexing.NextTokenFollowsReference | src/lexer.rs:31-45 | one call returns None iff the reference sequence of the rest of the input is empty; otherwise it returns that sequence's first token and leaves a valid lexer whose rest yields the remaining tokens |
| Lexing.TokenizeFollowsReference | src/lexer.rs:31-45 | tokenising from any valid state equals the reference token sequence of the rest of the input |
| Lexing.TokenizeInput | src/lexer.rs:13-45 | tokenising a whole input equals `Brackets(Strip(input))` |
| Lexing.WhitespaceInsertionIgnored | src/lexer.rs:32 | inserting whitespace anywhere in the input does not change the token sequence |
| Lexing.CallsStayValid | src/lexer.rs:47-58 | after any number of calls the lexer is valid, the cursor has not moved back or past the end, and the buffer is unchanged |
| Lexing.EmittedFollowsTokenize | src/lexer.rs:100-106 | the result of the (n+1)-th call is the n-th token of the token sequence, or None past its end |
| Lexing.TestTokenizeBraces | src/lexer.rs:84-90 | on `{}` the first two calls yield `LBrace "{"` and then `RBrace "}"` |
| Lexing.TestTokenizeBrackets | src/lexer.rs:91-97 | on `[]` the first two calls yield `LBracket "["` and then `RBracket "]"` |
| Lexing.TestTokenizePair | src/lexer.rs:83-97 | an opening and a closing bracket, with any whitespace between them, tokenise to exactly their two tokens |
| Parsing.NextToken | src/parser.rs:29-32 | the new current token is the old peek token; the new peek token and lexer are the result of exactly one lexer call on the old lexer |
| Parsing.New | src/parser.rs:13-27 | current is the lexer's first result, peek its second, and the lexer has been called exactly twice |
| Parsing.WindowFollowsLexerCalls | src/parser.rs:13-32 | after k shifts past construction, the window holds the (k+1)-th and (k+2)-th lexer results and the lexer has been called k+2 times |
| Parsing.WindowFollowsTokenStream | src/parser.rs:13-32 | after k shifts, current and peek are the k-th and (k+1)-th reference tokens of the input, or None past the end |
| Parsing.ExhaustedLexerStaysExhausted | src/parser.rs:29-32 | once the lexer gives None, every later shift leaves peek None and the lexer still gives None |
| Parsing.ExhaustedWindowEmpties | src/parser.rs:29-32 | once the lexer gives None, two shifts make both slots None and they stay None |
| Parsing.NewOnEmptyInput | src/parser.rs:13-27 | over empty input both slots start as None |
| Parsing.NewOnBraces | src/parser.rs:13-27 | over `{}` the window starts with `LBrace "{"` current and `RBrace "}"` peeked |

## Left out

- `src/main.rs`: command-line plumbing (argument reading, printing, exit codes). It also calls `is_eof` and matches `Ok`/`Err` on `next_token`, and neither exists in `src/lexer.rs`.
- The `.ok()` at `src/parser.rs:31`: it does not type-check on an `Option`, so no error semantics are invented for it; the lexer's result is passed through.
- Numbers, strings, keywords inside the lexer, the colon, comma, period and sign tokens, and any value tree or grammar procedures: the code does not implement them.
- `Debug`/`PartialEq` derivations and `std::fmt` imports: library boilerplate. Token equality is Dafny's structural equality.
- Lexing.ReadChar: its own contract states only that the buffer is kept and the measure shrinks, because the full step is stated in `Lexing.ReadCharSteps`.
- Lexing.SkipWhitespace: its own contract states only what termination needs, because the skipping property is stated in `Lexing.SkipWhitespaceSkipsOnlyWhitespace`.
- Lexing.NextToken: its own contract states only that the buffer is kept and progress is made, because the outcomes are stated in `Lexing.NextTokenCases` and the lemmas after it.
