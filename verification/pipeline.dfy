/** The control flow of `main` without its logging and printing: tokenize
    the code, check the parentheses, parse, and print the tree. The program
    runs this on one built-in string; here the code is a parameter. Two
    runs are modelled: the program's own, over the tree-only parser of
    module `Unthreaded`, and a corrected one over the repaired parser of
    module `Parser` that also reports an empty token list instead of
    indexing it. */
module Pipeline {
  import opened Syntax
  import opened Lexer
  import opened Balance
  import opened Parser
  import opened Printer
  import Unthreaded

  /** How a run ends: the printed tree (`Expr: …`), a parse error
      (`ExprError: …`), a failed parenthesis check (logged as an error), or
      a panic from indexing an empty token slice. */
  datatype Report =
    | Printed(text: string)
    | ExprError(error: ParseError)
    | CheckFailed(error: ParseError)
    | Panicked

  /** The report for a result of the tree-only parser; `OutOfTokens` is
      the panic. */
  function ReportOfTree(r: Result<Expr>): Report {
    match r
    case Success(e) => Printed(Show(e))
    case Failure(OutOfTokens) => Panicked
    case Failure(err) => ExprError(err)
  }

  /** The report for a result of the repaired parser: its leftover tokens
      are dropped, as `main` drops nothing else. */
  function ReportOf(r: Result<Parsed>): Report {
    if r.Success? then Printed(Show(r.value.expr)) else ReportOfTree(Failure(r.error))
  }

  /** `main` as written: whatever passes the parenthesis check goes to the
      program's own `parse_expr`, including an empty token list, on which
      `tokens[0]` panics. */
  function RunAsWritten(code: string): Report
    requires Tokenizable(code)
  {
    var tokens := Tokenize(code);
    match CheckParenBalance(tokens)
    case Fail(err) => CheckFailed(err)
    case Pass => if |tokens| == 0 then Panicked else ReportOfTree(Unthreaded.ParseExpr(tokens))
  }

  /** `main` over the repaired parser, with the empty token list reported
      as a failed expression instead of reaching `tokens[0]`. It never
      panics, and what it prints passes the parenthesis check when read
      back. */
  function Run(code: string): (r: Report)
    requires Tokenizable(code)
    ensures r != Panicked
    ensures r.Printed? ==> Tokenizable(r.text) && CheckParenBalance(Tokenize(r.text)) == Pass
  {
    var tokens := Tokenize(code);
    match CheckParenBalance(tokens)
    case Fail(err) => CheckFailed(err)
    case Pass =>
      if |tokens| == 0 then ExprError(ExpressionFailed)
      else
        CheckPassesIffBalanced(tokens);
        BalancedNeverOutOfTokens(tokens);
        var parsed := ParseExpr(tokens);
        if parsed.Success? then
          PrintedTreesBalanced(parsed.value.expr);
          ReportOf(parsed)
        else
          ReportOf(parsed)
  }

  /** The corrections change nothing on code with at least one token and
      no `(` after its first token: there the two parsers agree. */
  lemma RunAgreesOnFlatCode(code: string)
    requires Tokenizable(code) && |Tokenize(code)| > 0
    requires forall i :: 1 <= i < |Tokenize(code)| ==> Tokenize(code)[i] != LParen
    ensures Run(code) == RunAsWritten(code)
  {
    Unthreaded.AgreesOnFlatExpr(Tokenize(code));
  }

  /** Code without a single token, such as the empty string, passes the
      parenthesis check and then makes `main` panic. */
  lemma BlankCodePanics(code: string)
    requires forall i :: 0 <= i < |code| ==> IsWhitespace(code[i])
    ensures Tokenizable(code) && CheckParenBalance(Tokenize(code)) == Pass
    ensures RunAsWritten(code) == Panicked
    ensures Run(code) == ExprError(ExpressionFailed)
  {
    TokenizeBlank(code);
  }

  /** An unbalanced program is stopped by the check with the error the
      check reports, before any parsing. */
  lemma UnbalancedStopsAtCheck(code: string)
    requires Tokenizable(code) && !Balanced(Tokenize(code))
    ensures CheckParenBalance(Tokenize(code)).Fail?
    ensures Run(code) == CheckFailed(CheckParenBalance(Tokenize(code)).error)
    ensures Run(code) == RunAsWritten(code)
  {
    CheckPassesIffBalanced(Tokenize(code));
  }

  /** Over the repaired parser, the program's built-in input prints its
      tree. */
  lemma RunNestedSum()
    ensures Tokenizable("(+ (+ 2 3) (- 12 3))")
    ensures Run("(+ (+ 2 3) (- 12 3))")
         == Printed(Show(Pair(Expr.OpAdd,
                              Pair(Pair(Expr.OpAdd, Pair(Number(2), Pair(Number(3), Nil))),
                                   Pair(Pair(Expr.OpSub, Pair(Number(12), Pair(Number(3), Nil))),
                                        Nil)))))
  {
    TokenizeNestedSum();
    CheckNestedSum();
    ParseNestedSum();
  }

  /** The program as written does not print its built-in input: the
      tree-only parser fails on it with `ListFailed`. */
  lemma RunAsWrittenNestedSum()
    ensures Tokenizable("(+ (+ 2 3) (- 12 3))")
    ensures RunAsWritten("(+ (+ 2 3) (- 12 3))") == ExprError(ListFailed)
  {
    TokenizeNestedSum();
    CheckNestedSum();
    Unthreaded.NestedSumFails();
  }

  /** A parenthesised group of three plain tokens leaves the depth where
      it found it. */
  lemma ScanGroup(op: Token, x: Token, y: Token, rest: seq<Token>, count: nat)
    requires Step(op) == 0 && Step(x) == 0 && Step(y) == 0
    ensures Scan([LParen, op, x, y, RParen] + rest, count) == Scan(rest, count)
  {
    var g := [LParen, op, x, y, RParen] + rest;
    assert g[1..] == [op, x, y, RParen] + rest;
    assert g[2..] == [x, y, RParen] + rest;
    assert g[3..] == [y, RParen] + rest;
    assert g[4..] == [RParen] + rest;
    assert g[5..] == rest;
    assert Scan(g[4..], count + 1) == Scan(rest, count);
    assert Scan(g[3..], count + 1) == Scan(rest, count);
    assert Scan(g[2..], count + 1) == Scan(rest, count);
    assert Scan(g[1..], count + 1) == Scan(rest, count);
  }

  /** Two groups inside a pair of parentheses: the shape of the built-in
      input. */
  lemma ScanNested(op: Token, first: seq<Token>, second: seq<Token>,
                   op1: Token, x1: Token, y1: Token,
                   op2: Token, x2: Token, y2: Token)
    requires Step(op) == 0
    requires Step(op1) == 0 && Step(x1) == 0 && Step(y1) == 0
    requires Step(op2) == 0 && Step(x2) == 0 && Step(y2) == 0
    requires first == [LParen, op1, x1, y1, RParen]
    requires second == [LParen, op2, x2, y2, RParen]
    ensures CheckParenBalance([LParen, op] + first + second + [RParen]) == Pass
  {
    var close := [RParen];
    ScanGroup(op2, x2, y2, close, 1);
    ScanGroup(op1, x1, y1, second + close, 1);
    var ts := [LParen, op] + first + second + close;
    assert ts[1..] == [op] + (first + (second + close));
    assert ts[2..] == first + (second + close);
    assert close[1..] == [] && Scan(close, 1) == Pass;
    assert Scan(ts[2..], 1) == Pass;
    assert Scan(ts[1..], 1) == Pass;
  }

  /** The built-in input passes the parenthesis check. */
  lemma CheckNestedSum()
    ensures CheckParenBalance([LParen, Token.OpAdd,
                               LParen, Token.OpAdd, Num(2), Num(3), RParen,
                               LParen, Token.OpSub, Num(12), Num(3), RParen,
                               RParen]) == Pass
  {
    var first := [LParen, Token.OpAdd, Num(2), Num(3), RParen];
    var second := [LParen, Token.OpSub, Num(12), Num(3), RParen];
    ScanNested(Token.OpAdd, first, second,
               Token.OpAdd, Num(2), Num(3), Token.OpSub, Num(12), Num(3));
    assert [LParen, Token.OpAdd] + first + second + [RParen]
        == [LParen, Token.OpAdd,
            LParen, Token.OpAdd, Num(2), Num(3), RParen,
            LParen, Token.OpSub, Num(12), Num(3), RParen,
            RParen];
  }
}
