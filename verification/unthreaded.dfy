/** The parser as the program writes it: `parse_expr` and
    `parse_procedure` return only the tree, so `parse_list` has nowhere to
    resume after a parenthesised element and reads the rest of the list
    from the token after its `(`, the `rest` its match arms name. The
    missing leftover tokens are the defect that module `Parser` repairs. */
module Unthreaded {
  import opened Syntax
  import Parser

  /** A result that carries only the tree. */
  function ParseExpr(tokens: seq<Token>): Result<Expr>
    requires |tokens| > 0
    decreases |tokens|
  {
    var rest := tokens[1..];
    match tokens[0]
    case LParen =>
      if |rest| == 0 then Failure(OutOfTokens) else ParseProcedure(rest)
    case RParen => Success(Nil)
    case Num(n) => Success(Number(n))
    case _ => Failure(ExpressionFailed)
  }

  function ParseProcedure(tokens: seq<Token>): Result<Expr>
    requires |tokens| > 0
    decreases |tokens|
  {
    var rest := tokens[1..];
    match tokens[0]
    case OpAdd =>
      var operands :- ParseList(rest);
      Success(Pair(Expr.OpAdd, operands))
    case OpSub =>
      var operands :- ParseList(rest);
      Success(Pair(Expr.OpSub, operands))
    case Num(n) =>
      if |rest| == 0 then Failure(OutOfTokens)
      else
        var operand :- ParseExpr(rest);
        Success(Pair(Number(n), operand))
    case _ => Failure(ProcedureFailed)
  }

  /** After a parenthesised element the tail of the list is parsed from
      the same `rest` as the element itself. */
  function ParseList(tokens: seq<Token>): Result<Expr>
    decreases |tokens|
  {
    if |tokens| == 0 then Success(Nil)
    else
      var rest := tokens[1..];
      match tokens[0]
      case LParen =>
        if |rest| == 0 then Failure(OutOfTokens)
        else
          var head :- ParseProcedure(rest);
          var tail :- ParseList(rest);
          Success(Pair(head, tail))
      case RParen => Success(Nil)
      case Num(n) =>
        var tail :- ParseList(rest);
        Success(Pair(Number(n), tail))
      case _ => Failure(ListFailed)
  }

  /** Without a parenthesised element inside a list the two parsers agree:
      the defect shows only on nested lists. */
  lemma {:induction false} AgreesOnFlatExpr(tokens: seq<Token>)
    requires |tokens| > 0
    requires forall i :: 1 <= i < |tokens| ==> tokens[i] != LParen
    ensures var r := Parser.ParseExpr(tokens);
            ParseExpr(tokens) == if r.Success? then Success(r.value.expr) else Failure(r.error)
    decreases |tokens|
  {
    var rest := tokens[1..];
    if tokens[0] == LParen && |rest| > 0 {
      AgreesOnFlatProcedure(rest);
    }
  }

  lemma {:induction false} AgreesOnFlatProcedure(tokens: seq<Token>)
    requires |tokens| > 0
    requires forall i :: 0 <= i < |tokens| ==> tokens[i] != LParen
    ensures var r := Parser.ParseProcedure(tokens);
            ParseProcedure(tokens) == if r.Success? then Success(r.value.expr) else Failure(r.error)
    decreases |tokens|
  {
    var rest := tokens[1..];
    if tokens[0] == Token.OpAdd || tokens[0] == Token.OpSub {
      AgreesOnFlatList(rest);
    } else if tokens[0].Num? && |rest| > 0 {
      AgreesOnFlatExpr(rest);
    }
  }

  lemma {:induction false} AgreesOnFlatList(tokens: seq<Token>)
    requires forall i :: 0 <= i < |tokens| ==> tokens[i] != LParen
    ensures var r := Parser.ParseList(tokens);
            ParseList(tokens) == if r.Success? then Success(r.value.expr) else Failure(r.error)
    decreases |tokens|
  {
    if |tokens| > 0 && tokens[0].Num? {
      AgreesOnFlatList(tokens[1..]);
    }
  }

  /** Written this way, no list with a parenthesised `+` or `-` element
      can be parsed: the tail is read again from the operator, which a
      list rejects, unless the element itself already failed. */
  lemma OperatorElementFails(tokens: seq<Token>)
    requires |tokens| > 1 && tokens[0] == LParen
    requires tokens[1] == Token.OpAdd || tokens[1] == Token.OpSub
    ensures ParseList(tokens).Failure?
    ensures ParseProcedure(tokens[1..]).Success? ==> ParseList(tokens) == Failure(ListFailed)
  {
    var rest := tokens[1..];
    assert ParseList(rest) == Failure(ListFailed);
  }

  /** For every list whose first element is a parenthesised `+` or `-`
      procedure, the parser as written fails on its spelling while the
      repaired one reads the list back. */
  lemma NestedListsNeedRepair(e: Expr, rest: seq<Token>)
    requires Parser.IsListTree(e) && e.Pair? && e.car.Pair?
    requires e.car.car == Expr.OpAdd || e.car.car == Expr.OpSub
    ensures ParseList(Parser.ListTokens(e) + rest).Failure?
    ensures Parser.ParseList(Parser.ListTokens(e) + rest) == Success(Parsed(e, rest))
  {
    Parser.ParseListOfTokens(e, rest);
    var ts := Parser.ListTokens(e) + rest;
    var proc := Parser.ProcTokens(e.car);
    assert ts == [LParen] + proc + Parser.ListTokens(e.cdr) + rest;
    assert ts[1] == proc[0];
    OperatorElementFails(ts);
  }

  /** The second example in the documentation of `parse_list`,
      `(+ 1 2) 3 )`: written this way the list after `(+ 1 2)` is read again
      from `+`, which no list may contain, so the documented result
      `Pair(Pair(OpAdd, Pair(1, Pair(2, Nil))), Pair(3, Nil))` is never
      produced. */
  lemma NestedListFails()
    ensures ParseList([LParen, Token.OpAdd, Num(1), Num(2), RParen, Num(3), RParen])
         == Failure(ListFailed)
    ensures Parser.ParseList([LParen, Token.OpAdd, Num(1), Num(2), RParen, Num(3), RParen]).Success?
  {
    var tokens := [LParen, Token.OpAdd, Num(1), Num(2), RParen, Num(3), RParen];
    var rest := tokens[1..];
    assert ParseList(rest[3..]) == Success(Nil);
    assert ParseList(rest[2..]) == Success(Pair(Number(2), Nil));
    assert ParseList(rest[1..]) == Success(Pair(Number(1), Pair(Number(2), Nil)));
    assert ParseProcedure(rest).Success?;
    assert ParseList(rest) == Failure(ListFailed);
    Parser.ParseListDocExamples();
  }

  /** The program's built-in input fails the same way: the sum list is
      read again from its `+`. */
  lemma NestedSumFails()
    ensures ParseExpr([LParen, Token.OpAdd,
                       LParen, Token.OpAdd, Num(2), Num(3), RParen,
                       LParen, Token.OpSub, Num(12), Num(3), RParen,
                       RParen])
         == Failure(ListFailed)
  {
    var tokens := [LParen, Token.OpAdd,
                   LParen, Token.OpAdd, Num(2), Num(3), RParen,
                   LParen, Token.OpSub, Num(12), Num(3), RParen,
                   RParen];
    var list := tokens[2..];
    var sum := list[1..];
    assert ParseList(sum[3..]) == Success(Nil);
    assert ParseList(sum[2..]) == Success(Pair(Number(3), Nil));
    assert ParseList(sum[1..]) == Success(Pair(Number(2), Pair(Number(3), Nil)));
    assert ParseProcedure(sum).Success?;
    assert ParseList(sum) == Failure(ListFailed);
    assert ParseList(list) == Failure(ListFailed);
    assert ParseProcedure(tokens[1..]) == Failure(ListFailed);
  }
}
