# purelisp front end in Dafny

This project models the front end of `purelisp`, a small Lisp
interpreter written in Rust. The front end has four parts:

- **Tokenizer.** `str2token` and `tokenize` pad every parenthesis with
  spaces, split the text at whitespace and classify each lexeme as a
  token.
- **Parenthesis check.** `check_paren_balance` counts parentheses and
  reports a missing `(` or `)`.
- **Parser.** The mutually recursive `parse_expr`, `parse_procedure` and
  `parse_list` build a cons-cell tree (`Expr`).
- **Printer.** `Display for Expr` prints the tree.

`main` runs the first three on one built-in program and prints the tree.
Module `Pipeline` models that control flow twice:

- `RunAsWritten` uses the program's own tree-only parser (`Unthreaded`).
- `Run` uses the repaired parser (`Parser`), and it reports an empty
  token list instead of indexing it.

The evaluator is a stub in the program and has no counterpart here.

Modules, in dependency order:

| module | what it holds |
|---|---|
| `Syntax` | `Token`, `Expr` and `ParseError`, plus `Result` (standing in for Rust's `Result` and `?`) and `Parsed`, a tree with the tokens left after it |
| `Decimal` | numerals as `str::parse` reads them and as `{n}` writes them |
| `Lexer` | `str2token`, `tokenize` and the lexical facts about them |
| `Balance` | `check_paren_balance`, and what it decides in terms of prefix depths |
| `Parser` | the three parse functions, returning the tokens they leave (the repaired parser) |
| `Unthreaded` | the three parse functions as the program writes them, without leftover tokens |
| `Printer` | `Display for Expr`, and how printed text tokenizes |
| `Pipeline` | `main` without logging (tokenize, check, parse, print), as written and corrected |

**What is modelled, and how:**

- **`tokens[0]` on an empty slice.** In the program this panics. The
  parse functions require a non-empty slice. When a nested call would get
  an empty slice, the result is `OutOfTokens`, a stand-in for that panic.
- **`parse().unwrap()`.** It panics on an all-digit lexeme that does not
  fit in an `i32`. `Str2Token` and `Tokenize` require that no lexeme does
  so (`LiteralFits`, `Tokenizable`).
- **Whitespace.** `split_whitespace` splits on Rust's `char::is_whitespace`.
  That is the Unicode White_Space property, which `IsWhitespace` lists
  character by character.
- **`parse_list` differs from the documented behaviour.** The source of
  `parse_list` is not valid Rust:
  - its `LParen` and `Num` arms read a `rest` that is never bound;
  - it builds `Pair` tuple-style, although the variant has named fields;
  - its loop never updates `list`, so it always returns `Nil`.

  The model follows its match arms and its documentation comment. A list
  element is read from the token after it, and `)` ends the list. The
  element after a parenthesised one starts where that element ended. This
  needs each parse function to return its leftover tokens, which is the
  repair `Parser` makes. `Unthreaded` keeps the tree-only signatures of
  `parse_expr` and `parse_procedure`. There the tail of a list is re-read
  from the same `rest` (see Findings).

## Model

| member | source | states |
|---|---|---|
| Decimal.IntToString | src/main.rs:22 | a number prints as digits whose value is the number, with a leading `-` exactly when it is negative, and with no leading zero |
| Decimal.ValueOfNatToString | src/main.rs:22 | reading the digits `{n}` writes gives `n` back |
| Decimal.NatToStringOfValue | src/main.rs:73 | writing the value of a digit string without a leading zero gives the same string back |
| Lexer.LexemesFacts | src/main.rs:82-85 | the lexemes are non-empty and free of whitespace. Together they spell the input without its whitespace. Each is a lone parenthesis or holds none. There are exactly as many `(` and `)` lexemes as the input has `(` and `)` characters |
| Lexer.PadAddsOnlyWhitespace | src/main.rs:83-84 | the two `replace` calls add whitespace and nothing else |
| Lexer.SplitKeepsText | src/main.rs:85 | `split_whitespace` keeps every non-whitespace character in order and yields non-empty words without whitespace |
| Lexer.Str2Token | src/main.rs:69-80 | for each arm, the token is that arm's variant exactly when the lexeme matches it: `(`, `)`, all digits (carrying their value), `+`, `-`, `*`, `/`. Otherwise it is `Unimplemented` carrying the lexeme |
| Lexer.Str2TokenOfSpell | src/main.rs:69-80 | spelling a token and classifying the spelling gives the token back. The exception is a negative number, which comes back as an unrecognised lexeme |
| Lexer.Str2TokenSpellRoundTrip | src/main.rs:69-80 | classifying a lexeme and spelling the token gives the lexeme back. The exception is a numeral with a leading zero |
| Lexer.Classify | src/main.rs:86-87 | one token per lexeme, each token being `str2token` of the lexeme at the same position |
| Lexer.TokenizeCountsParens | src/main.rs:81-88 | `tokenize` yields as many `LParen`/`RParen` tokens as the input has `(`/`)` characters |
| Lexer.TokenizeAppend | src/main.rs:81-88 | text cut next to whitespace, next to a parenthesis or at an end tokenizes to the tokens of the two parts, concatenated |
| Lexer.TokenizeWord | src/main.rs:81-88 | a word without whitespace or parentheses is exactly one token, its `str2token` |
| Lexer.TokenizeBlank | src/main.rs:81-88 | text made only of whitespace has no tokens |
| Lexer.TokenizeParenthesised | src/main.rs:83-84 | wrapping text in parentheses wraps its tokens in `LParen` … `RParen` |
| Lexer.TokenizeSpaced | src/main.rs:85 | joining two texts with a space concatenates their tokens |
| Lexer.TokenizeNumberOne | src/main.rs:220 | `tokenize("1")` is `[Num(1)]` |
| Lexer.TokenizeListOfNumbers | src/main.rs:221-224 | `tokenize("(1 2 3)")` is the five tokens the test expects |
| Lexer.TokenizeSum | src/main.rs:225-228 | `tokenize("(+ 2 3)")` is the five tokens the test expects |
| Lexer.TokenizeNestedSum | src/main.rs:229-246 | `tokenize("(+ (+ 2 3) (- 12 3))")` is the thirteen tokens the test expects |
| Balance.ScanDecides | src/main.rs:91-108 | from any non-negative count, the loop passes exactly when no prefix takes the depth below zero and the total depth returns to zero. It reports `MissingLParen` exactly when some prefix goes below zero. It reports `MissingRParen` exactly when none does but the final depth is positive |
| Balance.CheckPassesIffBalanced | src/main.rs:90-109 | `check_paren_balance` returns `Ok` exactly on balanced token lists |
| Balance.CheckMissingLParen | src/main.rs:95-99 | `MissingLParen` exactly when some prefix has more `RParen` than `LParen` |
| Balance.CheckMissingRParen | src/main.rs:104-105 | `MissingRParen` exactly when no prefix closes too much and more `LParen` than `RParen` remain |
| Balance.CheckOutcomes | src/main.rs:90-109 | the only outcomes are `Ok`, `MissingLParen` and `MissingRParen` |
| Balance.DepthCounts | src/main.rs:91-103 | the final count is the number of `LParen` minus the number of `RParen` |
| Balance.CheckIgnoresOthers | src/main.rs:101 | tokens other than parentheses do not affect the outcome |
| Parser.ParseExpr | src/main.rs:111-123 | on success, what remains is a proper suffix of the input |
| Parser.ParseProcedure | src/main.rs:125-144 | on success, what remains is a proper suffix of the input |
| Parser.ParseList | src/main.rs:146-185 | on success, what remains is a suffix of the input, strictly shorter when the input is not empty |
| Parser.ParseExprFirstToken | src/main.rs:115-122 | a number comes exactly from `Num`, `Nil` exactly from `)`, a pair only after `(`, which hands the rest to `parse_procedure`. Anything else fails with `ExpressionFailed` |
| Parser.ParseProcedureFirstToken | src/main.rs:129-143 | `+`/`-` pair the operator with the following list, and a number pairs with the following expression. Failures of those calls propagate unchanged. Any other head, `*` and `/` included, fails with `ProcedureFailed` |
| Parser.ParseListFirstToken | src/main.rs:163-185 | empty input is the empty list and `)` ends the list. A number or a parenthesised procedure heads a pair whose tail is the list after it. A failing element's error, and a failing tail's error, are passed on unchanged. A `(` with nothing after it is the empty-slice panic. Anything else fails with `ListFailed` |
| Parser.ParseExprOfTokens | src/main.rs:111-123 | parsing the spelling of any grammar tree followed by any tokens gives the tree back and leaves exactly those tokens |
| Parser.ParseProcedureOfTokens | src/main.rs:125-144 | the same round trip for procedures |
| Parser.ParseListOfTokens | src/main.rs:146-185 | the same round trip for lists |
| Parser.ParseExprSpells | src/main.rs:111-123 | conversely, every tree `parse_expr` builds is a grammar tree, and the tokens read spell it. When nothing is left, closing parentheses at the end may be missing |
| Parser.ParseProcedureSpells | src/main.rs:125-144 | the same converse for procedures |
| Parser.ParseListSpells | src/main.rs:146-185 | the same converse for lists |
| Parser.ParseListDocExamples | src/main.rs:146-162 | both documented examples, `1 2 3)` and `(+ 1 2) 3)`, give the documented trees |
| Parser.ParseNestedSum | src/main.rs:197-204 | the tokens of the built-in program parse to `(+ (+ 2 3) (- 12 3))` as a tree, with no tokens left |
| Parser.NoPanicExpr | src/main.rs:111-113 | on tokens that close a given open depth without ever dropping below zero, `parse_expr` never indexes an empty slice. What it reads lowers the depth by at most one |
| Parser.NoPanicProc | src/main.rs:125-127 | the same for `parse_procedure` inside at least one open parenthesis |
| Parser.NoPanicList | src/main.rs:163-185 | the same for `parse_list` |
| Parser.BalancedNeverOutOfTokens | src/main.rs:201-204 | non-empty tokens that pass the parenthesis check never make the parser index an empty slice |
| Unthreaded.AgreesOnFlatExpr | src/main.rs:111-123 | without a `(` after the first token, the program's `parse_expr` and the repaired one give the same tree or the same error |
| Unthreaded.AgreesOnFlatProcedure | src/main.rs:125-144 | the same agreement for `parse_procedure` |
| Unthreaded.AgreesOnFlatList | src/main.rs:163-185 | the same agreement for `parse_list` on lists without a parenthesised element |
| Unthreaded.OperatorElementFails | src/main.rs:163-172 | the program's `parse_list` fails on every list whose next element is a parenthesised `+` or `-` procedure. When the element itself parses, the error is `ListFailed` |
| Unthreaded.NestedListsNeedRepair | src/main.rs:163-185 | for every list tree whose first element is a `+` or `-` procedure, the program's `parse_list` fails on its spelling, while the repaired one reads the tree back |
| Unthreaded.NestedListFails | src/main.rs:152-172 | the program's `parse_list` fails on its own second documented example, `(+ 1 2) 3)`, where the repaired parser succeeds |
| Unthreaded.NestedSumFails | src/main.rs:168-172 | the program's parser fails with `ListFailed` on the tokens of the built-in program |
| Printer.ShowLeaf | src/main.rs:22-28 | a leaf prints as a single lexeme. An operator reads back as its operator token and a non-negative number as the same number |
| Printer.ShowTokenizes | src/main.rs:18-31 | tokenizing any printed tree gives its fringe: a pair's halves between `LParen` and `RParen`, a leaf's own token |
| Printer.FringeBalanced | src/main.rs:24 | the token fringe of every tree is balanced |
| Printer.PrintedTreesBalanced | src/main.rs:18-31 | the text of any printed tree tokenizes and passes `check_paren_balance` |
| Pipeline.Run | src/main.rs:194-212 | `main` over the repaired parser, with empty input guarded, never panics, and any tree it prints passes the parenthesis check when read back |
| Pipeline.RunAgreesOnFlatCode | src/main.rs:198-211 | on code with at least one token and no `(` after the first, the corrected run and the program as written report the same thing |
| Pipeline.BlankCodePanics | src/main.rs:198-204 | input made only of whitespace passes the check and then makes `main` as written panic. The corrected `main` reports `ExpressionFailed` instead |
| Pipeline.UnbalancedStopsAtCheck | src/main.rs:201-210 | an unbalanced program stops at the check with the check's error, before any parsing, both as written and corrected |
| Pipeline.CheckNestedSum | src/main.rs:197-201 | the built-in program passes the parenthesis check |
| Pipeline.RunNestedSum | src/main.rs:197-206 | with the repaired parser, the built-in program prints the tree of `(+ (+ 2 3) (- 12 3))` |
| Pipeline.RunAsWrittenNestedSum | src/main.rs:197-207 | as written, the built-in program passes the check and then reports `ExprError` with `ListFailed` instead of a tree |

## Left out

- `eval` is `unimplemented!()` in the program and is not modelled.
- Logging (`env_logger`, `info!`, `debug!`, `error!`) and the environment variable set in `main` are I/O. `Report` records which message would be written, not the text.
- The `Display` strings of `ParseError` and the `Error` impl are not modelled. Errors are compared as values.
- `char::is_numeric` is true for every Unicode numeric character, but `str::parse::<i32>` accepts only ASCII digits. The model treats only ASCII digits as numerals, so a non-ASCII numeric lexeme, which makes the program panic, is not modelled.
- Lexer.Str2Token: a lexeme of ASCII digits that overflows `i32` makes `parse().unwrap()` panic. This is a precondition (`LiteralFits`) rather than a modelled panic.
- Balance.CheckParenBalance: the counter is unbounded rather than a 32-bit integer. Overflow would need more than 2^31 parenthesis tokens.
- The ignored tests `tokenize_failed` and `parser_success` have no bodies that state a property.
- Pipeline.RunNestedSum: states the printed text as `Show` of the tree, not as a string literal.

## Findings

| source | as written | input that shows it | evidently intended | confidence | as-written member | corrected member |
|---|---|---|---|---|---|---|
| src/main.rs:111-144, 168-172 | `parse_expr` and `parse_procedure` return only the tree. So `parse_list` cannot tell where a parenthesised element ended, and reads the rest of the list from the token after that element's `(` | `(+ 1 2) 3)` after the opening `(`: the tail is re-read from `+`, which no list may contain, so the result is `ListFailed`. The built-in program fails the same way | each parse returns the tokens it did not consume, and the list resumes there. The documented result `((+ (1 (2 nil))) (3 nil))` then comes out | not executed; the function as written does not compile | Unthreaded.NestedListsNeedRepair | Parser.ParseListOfTokens |
| src/main.rs:112, 198-204 | `main` calls `parse_expr` on whatever passes `check_paren_balance`. An empty token list passes, and `tokens[0]` then panics | `""` or `"   "`: no tokens, the check returns `Ok`, and `parse_expr(&[])` indexes an empty slice | empty input is reported as a parse error instead of a panic | not executed | Pipeline.BlankCodePanics | Pipeline.Run |
