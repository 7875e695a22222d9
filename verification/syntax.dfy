/** The data model of the front end: lexical tokens, the cons-cell
    expression tree, the parse-error taxonomy and the result wrappers
    that stand in for Rust's `Result` and its `?` operator. */
module Syntax {

  const I32_MIN: int := -0x8000_0000
  const I32_MAX: int := 0x7fff_ffff

  /** Rust's `i32`: integer literals and tree leaves are 32-bit signed. */
  type I32 = n: int | I32_MIN <= n <= I32_MAX

  /** A lexical token. `Unimplemented` keeps the text of a lexeme the
      lexer does not recognise; rejecting it is left to the parser. */
  datatype Token =
    | LParen
    | RParen
    | Num(n: I32)
    | OpAdd
    | OpMul
    | OpSub
    | OpDiv
    | Unimplemented(text: string)

  /** The expression tree. `Pair` is a cons cell that owns both halves;
      the operator variants are leaves that sit in the `car` of a pair. */
  datatype Expr =
    | Number(n: I32)
    | Nil
    | Pair(car: Expr, cdr: Expr)
    | OpAdd
    | OpMul
    | OpSub
    | OpDiv

  /** The parse errors of the program, plus `OutOfTokens`, which stands for
      the index-out-of-bounds panic of `tokens[0]` on an empty slice. */
  datatype ParseError =
    | MissingLParen
    | MissingRParen
    | ExpressionFailed
    | ProcedureFailed
    | ListFailed
    | OutOfTokens

  /** A value or a parse error; failure-compatible, so `:-` plays `?`. */
  datatype Result<+T> = Success(value: T) | Failure(error: ParseError) {
    predicate IsFailure() {
      Failure?
    }

    function PropagateFailure<U>(): Result<U>
      requires Failure?
    {
      Failure(error)
    }

    function Extract(): T
      requires Success?
    {
      value
    }
  }

  /** Rust's `Result<()>`: a check that passes or fails with an error. */
  datatype Outcome = Pass | Fail(error: ParseError)

  /** A parsed subtree together with the tokens left after it. */
  datatype Parsed = Parsed(expr: Expr, rest: seq<Token>)

  /** True when `rest` is what remains of `tokens` after consuming some
      prefix of it. */
  predicate IsSuffix(rest: seq<Token>, tokens: seq<Token>) {
    |rest| <= |tokens| && tokens[|tokens| - |rest|..] == rest
  }

  /** True when `rest` is what remains of `tokens` after consuming a
      non-empty prefix of it. */
  predicate IsProperSuffix(rest: seq<Token>, tokens: seq<Token>) {
    |rest| < |tokens| && tokens[|tokens| - |rest|..] == rest
  }
}
