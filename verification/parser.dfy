/** The recursive-descent parser: `parse_expr`, `parse_procedure` and
    `parse_list`. Each function returns the tree it built together with the
    tokens it did not consume, so that a list can resume after a
    parenthesised element; the program as written drops those tokens (see
    module `Unthreaded`). */
module Parser {
  import opened Syntax
  import opened Balance

  /** `tokens[0]` panics on an empty slice; a call that the program would
      make with an empty slice yields `OutOfTokens` instead. */
  function ParseExpr(tokens: seq<Token>): (r: Result<Parsed>)
    requires |tokens| > 0
    ensures r.Success? ==> IsProperSuffix(r.value.rest, tokens)
    decreases |tokens|
  {
    var rest := tokens[1..];
    match tokens[0]
    case LParen =>
      if |rest| == 0 then Failure(OutOfTokens) else ParseProcedure(rest)
    case RParen => Success(Parsed(Nil, rest))
    case Num(n) => Success(Parsed(Number(n), rest))
    case _ => Failure(ExpressionFailed)
  }

  /** The tokens after a `(`: `+` and `-` take a list of operands, a number
      takes one expression; `*`, `/` and everything else are rejected. */
  function ParseProcedure(tokens: seq<Token>): (r: Result<Parsed>)
    requires |tokens| > 0
    ensures r.Success? ==> IsProperSuffix(r.value.rest, tokens)
    decreases |tokens|
  {
    var rest := tokens[1..];
    match tokens[0]
    case OpAdd =>
      var operands :- ParseList(rest);
      Success(Parsed(Pair(Expr.OpAdd, operands.expr), operands.rest))
    case OpSub =>
      var operands :- ParseList(rest);
      Success(Parsed(Pair(Expr.OpSub, operands.expr), operands.rest))
    case Num(n) =>
      if |rest| == 0 then Failure(OutOfTokens)
      else
        var operand :- ParseExpr(rest);
        Success(Parsed(Pair(Number(n), operand.expr), operand.rest))
    case _ => Failure(ProcedureFailed)
  }

  /** The elements of a list up to and including its `)`, built as a chain
      of pairs ending in `Nil`. Running out of tokens also ends the list. */
  function ParseList(tokens: seq<Token>): (r: Result<Parsed>)
    ensures r.Success? ==> IsSuffix(r.value.rest, tokens)
    ensures r.Success? && |tokens| > 0 ==> |r.value.rest| < |tokens|
    decreases |tokens|
  {
    if |tokens| == 0 then Success(Parsed(Nil, []))
    else
      var rest := tokens[1..];
      match tokens[0]
      case LParen =>
        if |rest| == 0 then Failure(OutOfTokens)
        else
          var head :- ParseProcedure(rest);
          var tail :- ParseList(head.rest);
          Success(Parsed(Pair(head.expr, tail.expr), tail.rest))
      case RParen => Success(Parsed(Nil, rest))
      case Num(n) =>
        var tail :- ParseList(rest);
        Success(Parsed(Pair(Number(n), tail.expr), tail.rest))
      case _ => Failure(ListFailed)
  }

  // ---------------------------------------------------------------------
  // The trees the parser builds, and the tokens that spell them
  // ---------------------------------------------------------------------

  /** A tree `parse_expr` can return: a number, `Nil` (for a lone `)`), or
      a procedure. */
  predicate IsExprTree(e: Expr)
    decreases e, 1
  {
    e.Number? || e.Nil? || IsProcTree(e)
  }

  /** A tree `parse_procedure` can return: `+` or `-` paired with a list of
      operands, or a number paired with one expression. */
  predicate IsProcTree(e: Expr)
    decreases e, 0
  {
    e.Pair? &&
    (if e.car == Expr.OpAdd || e.car == Expr.OpSub then IsListTree(e.cdr)
     else e.car.Number? && IsExprTree(e.cdr))
  }

  /** A tree `parse_list` can return: a chain of pairs whose elements are
      numbers or procedures, ending in `Nil`. */
  predicate IsListTree(e: Expr)
    decreases e, 0
  {
    e.Nil? || (e.Pair? && (e.car.Number? || IsProcTree(e.car)) && IsListTree(e.cdr))
  }

  /** The tokens `parse_expr` reads to build `e`. */
  function ExprTokens(e: Expr): (ts: seq<Token>)
    requires IsExprTree(e)
    ensures |ts| > 0
    decreases e, 1
  {
    if e.Number? then [Num(e.n)]
    else if e.Nil? then [RParen]
    else [LParen] + ProcTokens(e)
  }

  /** The tokens `parse_procedure` reads to build `e`. */
  function ProcTokens(e: Expr): (ts: seq<Token>)
    requires IsProcTree(e)
    ensures |ts| > 0
    decreases e, 0
  {
    if e.car == Expr.OpAdd then [Token.OpAdd] + ListTokens(e.cdr)
    else if e.car == Expr.OpSub then [Token.OpSub] + ListTokens(e.cdr)
    else [Num(e.car.n)] + ExprTokens(e.cdr)
  }

  /** The tokens `parse_list` reads to build `e`, closing `)` included. */
  function ListTokens(e: Expr): (ts: seq<Token>)
    requires IsListTree(e)
    ensures |ts| > 0
    decreases e, 0
  {
    if e.Nil? then [RParen]
    else if e.car.Number? then [Num(e.car.n)] + ListTokens(e.cdr)
    else [LParen] + ProcTokens(e.car) + ListTokens(e.cdr)
  }

  // ---------------------------------------------------------------------
  // Spelling a tree and parsing it back
  // ---------------------------------------------------------------------

  /** Parsing the spelling of a tree gives the tree back and leaves exactly
      the tokens that followed the spelling. */
  lemma {:induction false} ParseExprOfTokens(e: Expr, rest: seq<Token>)
    requires IsExprTree(e)
    ensures ParseExpr(ExprTokens(e) + rest) == Success(Parsed(e, rest))
    decreases e, 1
  {
    var ts := ExprTokens(e) + rest;
    if e.Pair? {
      assert ts[1..] == ProcTokens(e) + rest;
      ParseProcedureOfTokens(e, rest);
    }
  }

  lemma {:induction false} ParseProcedureOfTokens(e: Expr, rest: seq<Token>)
    requires IsProcTree(e)
    ensures ParseProcedure(ProcTokens(e) + rest) == Success(Parsed(e, rest))
    decreases e, 0
  {
    if e.car == Expr.OpAdd {
      ParseListOfTokens(e.cdr, rest);
      ParseHeadThen(Token.OpAdd, ListTokens(e.cdr), rest);
    } else if e.car == Expr.OpSub {
      ParseListOfTokens(e.cdr, rest);
      ParseHeadThen(Token.OpSub, ListTokens(e.cdr), rest);
    } else {
      ParseExprOfTokens(e.cdr, rest);
      ParseHeadThen(Num(e.car.n), ExprTokens(e.cdr), rest);
    }
  }

  /** `parse_procedure` reads its head token and hands the tokens after it
      to the operand parser. */
  lemma ParseHeadThen(head: Token, body: seq<Token>, rest: seq<Token>)
    ensures [head] + body + rest == [head] + (body + rest)
    ensures ([head] + (body + rest))[0] == head && ([head] + (body + rest))[1..] == body + rest
  {
    assert [head] + body + rest == [head] + (body + rest);
  }

  lemma {:induction false} ParseListOfTokens(e: Expr, rest: seq<Token>)
    requires IsListTree(e)
    ensures ParseList(ListTokens(e) + rest) == Success(Parsed(e, rest))
    decreases e, 0
  {
    var ts := ListTokens(e) + rest;
    if e.Pair? {
      if e.car.Number? {
        assert ts[1..] == ListTokens(e.cdr) + rest;
        ParseListOfTokens(e.cdr, rest);
      } else {
        var after := ListTokens(e.cdr) + rest;
        assert ts[1..] == ProcTokens(e.car) + after;
        ParseProcedureOfTokens(e.car, after);
        ParseListOfTokens(e.cdr, rest);
      }
    }
  }

  /** `tokens` spells `rendering` and then `rest`, except that when nothing
      is left over, closing parentheses at the end of `rendering` may be
      missing: a list that runs out of tokens ends as if it were closed. */
  predicate Spells(tokens: seq<Token>, rendering: seq<Token>, rest: seq<Token>) {
    if rest == [] then
      |tokens| <= |rendering| && rendering[..|tokens|] == tokens &&
      forall i :: |tokens| <= i < |rendering| ==> rendering[i] == RParen
    else
      tokens == rendering + rest
  }

  lemma SpellsCons(t: Token, tokens: seq<Token>, rendering: seq<Token>, rest: seq<Token>)
    requires Spells(tokens, rendering, rest)
    ensures Spells([t] + tokens, [t] + rendering, rest)
  {
    if rest == [] {
      assert ([t] + rendering)[..|tokens| + 1] == [t] + rendering[..|tokens|];
    } else {
      assert [t] + (rendering + rest) == [t] + rendering + rest;
    }
  }

  lemma SpellsThen(tokens: seq<Token>, r1: seq<Token>, mid: seq<Token>, r2: seq<Token>, rest: seq<Token>)
    requires Spells(tokens, r1, mid) && Spells(mid, r2, rest)
    ensures Spells(tokens, r1 + r2, rest)
  {
    if mid == [] {
      assert rest == [];
      assert (r1 + r2)[..|tokens|] == r1[..|tokens|];
    } else if rest == [] {
      assert tokens == r1 + mid;
      assert (r1 + r2)[..|tokens|] == r1 + r2[..|mid|];
    } else {
      assert tokens == r1 + (r2 + rest);
    }
  }

  /** Conversely, whatever `parse_expr` builds is a tree of the grammar and
      the tokens it read spell that tree. */
  lemma {:induction false} ParseExprSpells(tokens: seq<Token>)
    requires |tokens| > 0
    ensures var r := ParseExpr(tokens);
            r.Success? ==> IsExprTree(r.value.expr) && Spells(tokens, ExprTokens(r.value.expr), r.value.rest)
    decreases |tokens|, 1
  {
    var rest := tokens[1..];
    assert tokens == [tokens[0]] + rest;
    match tokens[0]
    case LParen =>
      if |rest| > 0 {
        ParseProcedureSpells(rest);
        var r := ParseProcedure(rest);
        if r.Success? {
          SpellsCons(LParen, rest, ProcTokens(r.value.expr), r.value.rest);
        }
      }
    case RParen =>
      SpellsCons(RParen, rest, [], rest);
    case Num(n) =>
      SpellsCons(Num(n), rest, [], rest);
    case _ =>
  }

  lemma {:induction false} ParseProcedureSpells(tokens: seq<Token>)
    requires |tokens| > 0
    ensures var r := ParseProcedure(tokens);
            r.Success? ==> IsProcTree(r.value.expr) && Spells(tokens, ProcTokens(r.value.expr), r.value.rest)
    decreases |tokens|, 1
  {
    var rest := tokens[1..];
    assert tokens == [tokens[0]] + rest;
    match tokens[0]
    case OpAdd =>
      ParseListSpells(rest);
      var r := ParseList(rest);
      if r.Success? {
        SpellsCons(Token.OpAdd, rest, ListTokens(r.value.expr), r.value.rest);
      }
    case OpSub =>
      ParseListSpells(rest);
      var r := ParseList(rest);
      if r.Success? {
        SpellsCons(Token.OpSub, rest, ListTokens(r.value.expr), r.value.rest);
      }
    case Num(n) =>
      if |rest| > 0 {
        ParseExprSpells(rest);
        var r := ParseExpr(rest);
        if r.Success? {
          SpellsCons(Num(n), rest, ExprTokens(r.value.expr), r.value.rest);
        }
      }
    case _ =>
  }

  lemma {:induction false} ParseListSpells(tokens: seq<Token>)
    ensures var r := ParseList(tokens);
            r.Success? ==> IsListTree(r.value.expr) && Spells(tokens, ListTokens(r.value.expr), r.value.rest)
    decreases |tokens|, 0
  {
    if |tokens| > 0 {
      var rest := tokens[1..];
      assert tokens == [tokens[0]] + rest;
      match tokens[0]
      case LParen =>
        if |rest| > 0 {
          ParseProcedureSpells(rest);
          var head := ParseProcedure(rest);
          if head.Success? {
            ParseListSpells(head.value.rest);
            var tail := ParseList(head.value.rest);
            if tail.Success? {
              assert ParseList(tokens) == Success(Parsed(Pair(head.value.expr, tail.value.expr), tail.value.rest));
              NestedElementSpells(tokens, head.value, tail.value);
            }
          }
        }
      case RParen =>
        SpellsCons(RParen, rest, [], rest);
      case Num(n) =>
        ParseListSpells(rest);
        var tail := ParseList(rest);
        if tail.Success? {
          SpellsCons(Num(n), rest, ListTokens(tail.value.expr), tail.value.rest);
        }
      case _ =>
    }
  }

  /** One step of `ParseListSpells`: a parenthesised element whose own
      spelling and the spelling of the list after it are already known. */
  lemma NestedElementSpells(tokens: seq<Token>, h: Parsed, t: Parsed)
    requires |tokens| > 1 && tokens[0] == LParen
    requires IsProcTree(h.expr) && Spells(tokens[1..], ProcTokens(h.expr), h.rest)
    requires IsListTree(t.expr) && Spells(h.rest, ListTokens(t.expr), t.rest)
    ensures IsListTree(Pair(h.expr, t.expr))
    ensures Spells(tokens, ListTokens(Pair(h.expr, t.expr)), t.rest)
  {
    SpellsElement(tokens, ProcTokens(h.expr), h.rest, ListTokens(t.expr), t.rest);
    assert [LParen] + (ProcTokens(h.expr) + ListTokens(t.expr))
        == ListTokens(Pair(h.expr, t.expr));
  }

  /** `(`, then an element spelled up to `mid`, then a list spelled from
      `mid`. */
  lemma SpellsElement(tokens: seq<Token>, r1: seq<Token>, mid: seq<Token>, r2: seq<Token>, rest: seq<Token>)
    requires |tokens| > 0 && tokens[0] == LParen
    requires Spells(tokens[1..], r1, mid) && Spells(mid, r2, rest)
    ensures Spells(tokens, [LParen] + (r1 + r2), rest)
  {
    assert tokens == [LParen] + tokens[1..];
    SpellsThen(tokens[1..], r1, mid, r2, rest);
    SpellsCons(LParen, tokens[1..], r1 + r2, rest);
  }

  // ---------------------------------------------------------------------
  // What each function does with its first token
  // ---------------------------------------------------------------------

  /** The first token decides the kind of tree `parse_expr` builds: a
      number for `Num`, `Nil` for `)`, a procedure after `(`; operators and
      unrecognised lexemes fail with `ExpressionFailed`. */
  lemma ParseExprFirstToken(tokens: seq<Token>)
    requires |tokens| > 0
    ensures var r := ParseExpr(tokens);
            && (r.Success? && r.value.expr.Number? <==> tokens[0].Num?)
            && (tokens[0].Num? ==> r.value == Parsed(Number(tokens[0].n), tokens[1..]))
            && (r.Success? && r.value.expr.Nil? <==> tokens[0] == RParen)
            && (tokens[0] == RParen ==> r.value.rest == tokens[1..])
            && (r.Success? && r.value.expr.Pair? ==> tokens[0] == LParen)
            && (tokens[0] == LParen && |tokens| > 1 ==> r == ParseProcedure(tokens[1..]))
            && (tokens[0] !in {LParen, RParen} && !tokens[0].Num? ==> r == Failure(ExpressionFailed))
  {
    if tokens[0] == LParen && |tokens| > 1 {
      ParseProcedureSpells(tokens[1..]);
    }
  }

  /** `parse_procedure` pairs `+` and `-` with the list that follows and a
      number with the expression that follows; any other head, `*` and `/`
      included, fails with `ProcedureFailed`. A failure of the operand
      parse is passed on unchanged. */
  lemma ParseProcedureFirstToken(tokens: seq<Token>)
    requires |tokens| > 0
    ensures var r := ParseProcedure(tokens);
            var rest := tokens[1..];
            && (tokens[0] == Token.OpAdd || tokens[0] == Token.OpSub ==>
                  var operands := ParseList(rest);
                  && (r.Failure? <==> operands.Failure?)
                  && (r.Failure? ==> r.error == operands.error)
                  && (r.Success? ==>
                        r.value.expr == Pair(if tokens[0] == Token.OpAdd then Expr.OpAdd else Expr.OpSub,
                                             operands.value.expr)
                        && r.value.rest == operands.value.rest))
            && (tokens[0].Num? && |rest| > 0 ==>
                  var operand := ParseExpr(rest);
                  && (r.Failure? <==> operand.Failure?)
                  && (r.Failure? ==> r.error == operand.error)
                  && (r.Success? ==>
                        r.value.expr == Pair(Number(tokens[0].n), operand.value.expr)
                        && r.value.rest == operand.value.rest))
            && (!(tokens[0] in {Token.OpAdd, Token.OpSub} || tokens[0].Num?) ==> r == Failure(ProcedureFailed))
  {
  }

  /** `parse_list`: `)` ends the list, a number or a parenthesised
      procedure becomes the head of a pair whose tail is the rest of the
      list, and an operator or unrecognised lexeme fails with `ListFailed`.
      An empty input is the empty list. A failure of the element or of the
      tail is passed on unchanged; a `(` with nothing after it would make
      `parse_procedure` index an empty slice. */
  lemma ParseListFirstToken(tokens: seq<Token>)
    ensures var r := ParseList(tokens);
            && (|tokens| == 0 ==> r == Success(Parsed(Nil, [])))
            && (|tokens| > 0 && tokens[0] == RParen ==> r == Success(Parsed(Nil, tokens[1..])))
            && (|tokens| > 0 && tokens[0].Num? ==>
                  var tail := ParseList(tokens[1..]);
                  && (r.Failure? <==> tail.Failure?)
                  && (r.Failure? ==> r.error == tail.error)
                  && (r.Success? ==>
                        r.value.expr == Pair(Number(tokens[0].n), tail.value.expr)
                        && r.value.rest == tail.value.rest))
            && (|tokens| > 1 && tokens[0] == LParen && ParseProcedure(tokens[1..]).Failure? ==>
                  r == Failure(ParseProcedure(tokens[1..]).error))
            && (|tokens| > 1 && tokens[0] == LParen && ParseProcedure(tokens[1..]).Success? ==>
                  var head := ParseProcedure(tokens[1..]).value;
                  var tail := ParseList(head.rest);
                  && (r.Failure? <==> tail.Failure?)
                  && (r.Failure? ==> r.error == tail.error)
                  && (r.Success? ==>
                        r.value.expr == Pair(head.expr, tail.value.expr)
                        && r.value.rest == tail.value.rest))
            && (|tokens| == 1 && tokens[0] == LParen ==> r == Failure(OutOfTokens))
            && (|tokens| > 0 && !(tokens[0] in {LParen, RParen} || tokens[0].Num?) ==> r == Failure(ListFailed))
  {
  }

  /** The two examples in the documentation of `parse_list`, read after
      the opening `(`: `1 2 3 )` and `(+ 1 2) 3 )`. */
  lemma ParseListDocExamples()
    ensures ParseList([Num(1), Num(2), Num(3), RParen])
         == Success(Parsed(Pair(Number(1), Pair(Number(2), Pair(Number(3), Nil))), []))
    ensures ParseList([LParen, Token.OpAdd, Num(1), Num(2), RParen, Num(3), RParen])
         == Success(Parsed(Pair(Pair(Expr.OpAdd, Pair(Number(1), Pair(Number(2), Nil))),
                                Pair(Number(3), Nil)), []))
  {
    var numbers := Pair(Number(1), Pair(Number(2), Pair(Number(3), Nil)));
    assert ListTokens(numbers) + [] == [Num(1), Num(2), Num(3), RParen];
    ParseListOfTokens(numbers, []);
    var nested := Pair(Pair(Expr.OpAdd, Pair(Number(1), Pair(Number(2), Nil))), Pair(Number(3), Nil));
    assert ListTokens(nested) + [] == [LParen, Token.OpAdd, Num(1), Num(2), RParen, Num(3), RParen];
    ParseListOfTokens(nested, []);
  }

  /** The program's built-in input, `(+ (+ 2 3) (- 12 3))`, as tokens. */
  lemma ParseNestedSum()
    ensures ParseExpr([LParen, Token.OpAdd,
                       LParen, Token.OpAdd, Num(2), Num(3), RParen,
                       LParen, Token.OpSub, Num(12), Num(3), RParen,
                       RParen])
         == Success(Parsed(Pair(Expr.OpAdd,
                                Pair(Pair(Expr.OpAdd, Pair(Number(2), Pair(Number(3), Nil))),
                                     Pair(Pair(Expr.OpSub, Pair(Number(12), Pair(Number(3), Nil))),
                                          Nil))), []))
  {
    var sum := Pair(Expr.OpAdd, Pair(Number(2), Pair(Number(3), Nil)));
    var difference := Pair(Expr.OpSub, Pair(Number(12), Pair(Number(3), Nil)));
    var e := Pair(Expr.OpAdd, Pair(sum, Pair(difference, Nil)));
    assert ExprTokens(e) + []
        == [LParen, Token.OpAdd,
            LParen, Token.OpAdd, Num(2), Num(3), RParen,
            LParen, Token.OpSub, Num(12), Num(3), RParen,
            RParen];
    ParseExprOfTokens(e, []);
  }

  // ---------------------------------------------------------------------
  // Balanced input never makes the parser index an empty slice
  // ---------------------------------------------------------------------

  /** From depth `d`, `ts` never takes the depth below zero and ends at
      zero: `ts` is what follows depth `d` in a balanced token list. */
  predicate Closes(ts: seq<Token>, d: int) {
    NeverBelow(ts, d) && d + Depth(ts) == 0
  }

  /** The tokens a parse read, given the tokens it left. */
  function Consumed(tokens: seq<Token>, rest: seq<Token>): seq<Token>
    requires |rest| <= |tokens|
  {
    tokens[..|tokens| - |rest|]
  }

  lemma ClosesAfter(ts: seq<Token>, d: int, k: nat)
    requires Closes(ts, d) && k <= |ts|
    ensures Closes(ts[k..], d + Depth(ts[..k]))
  {
    var rest := ts[k..];
    assert ts == ts[..k] + rest;
    DepthAppend(ts[..k], rest);
    forall j | 0 <= j <= |rest|
      ensures d + Depth(ts[..k]) + Depth(rest[..j]) >= 0
    {
      assert ts[..k + j] == ts[..k] + rest[..j];
      DepthAppend(ts[..k], rest[..j]);
      assert d + Depth(ts[..k + j]) >= 0;
    }
  }

  lemma ConsumedThen(ts: seq<Token>, mid: seq<Token>, rest: seq<Token>)
    requires IsSuffix(mid, ts) && IsSuffix(rest, mid)
    ensures IsSuffix(rest, ts)
    ensures Consumed(ts, rest) == Consumed(ts, mid) + Consumed(mid, rest)
  {
    assert ts == Consumed(ts, mid) + mid;
    assert mid == Consumed(mid, rest) + rest;
    assert ts == Consumed(ts, mid) + Consumed(mid, rest) + rest;
  }

  lemma {:induction false} NoPanicExpr(ts: seq<Token>, d: int)
    requires |ts| > 0 && d >= 0 && Closes(ts, d)
    ensures ParseExpr(ts) != Failure(OutOfTokens)
    ensures ParseExpr(ts).Success? ==> Depth(Consumed(ts, ParseExpr(ts).value.rest)) >= -1
    decreases |ts|
  {
    var rest := ts[1..];
    ClosesAfter(ts, d, 1);
    assert ts[..1] == [ts[0]];
    if ts[0] == LParen {
      if |rest| == 0 {
        assert false;
      }
      NoPanicProc(rest, d + 1);
      var r := ParseProcedure(rest);
      if r.Success? {
        ConsumedThen(ts, rest, r.value.rest);
        DepthAppend([LParen], Consumed(rest, r.value.rest));
      }
    }
  }

  lemma {:induction false} NoPanicProc(ts: seq<Token>, d: int)
    requires |ts| > 0 && d >= 1 && Closes(ts, d)
    ensures ParseProcedure(ts) != Failure(OutOfTokens)
    ensures ParseProcedure(ts).Success? ==> Depth(Consumed(ts, ParseProcedure(ts).value.rest)) >= -1
    decreases |ts|
  {
    var rest := ts[1..];
    ClosesAfter(ts, d, 1);
    assert ts[..1] == [ts[0]];
    if ts[0] == Token.OpAdd || ts[0] == Token.OpSub {
      NoPanicList(rest, d);
      var r := ParseList(rest);
      if r.Success? {
        ConsumedThen(ts, rest, r.value.rest);
        DepthAppend([ts[0]], Consumed(rest, r.value.rest));
      }
    } else if ts[0].Num? {
      if |rest| == 0 {
        assert false;
      }
      NoPanicExpr(rest, d);
      var r := ParseExpr(rest);
      if r.Success? {
        ConsumedThen(ts, rest, r.value.rest);
        DepthAppend([ts[0]], Consumed(rest, r.value.rest));
      }
    }
  }

  lemma {:induction false} NoPanicList(ts: seq<Token>, d: int)
    requires d >= 0 && Closes(ts, d)
    ensures ParseList(ts) != Failure(OutOfTokens)
    ensures ParseList(ts).Success? ==> Depth(Consumed(ts, ParseList(ts).value.rest)) >= -1
    decreases |ts|
  {
    if |ts| > 0 {
      var rest := ts[1..];
      ClosesAfter(ts, d, 1);
      assert ts[..1] == [ts[0]];
      if ts[0] == LParen {
        if |rest| == 0 {
          assert false;
        }
        NoPanicProc(rest, d + 1);
        var head := ParseProcedure(rest);
        if head.Success? {
          var h := head.value;
          var k := |rest| - |h.rest|;
          ClosesAfter(rest, d + 1, k);
          assert rest[k..] == h.rest && rest[..k] == Consumed(rest, h.rest);
          NoPanicList(h.rest, d + 1 + Depth(Consumed(rest, h.rest)));
          var tail := ParseList(h.rest);
          if tail.Success? {
            ConsumedThen(rest, h.rest, tail.value.rest);
            ConsumedThen(ts, rest, tail.value.rest);
            DepthAppend(Consumed(rest, h.rest), Consumed(h.rest, tail.value.rest));
            DepthAppend([LParen], Consumed(rest, tail.value.rest));
          }
        }
      } else if ts[0].Num? {
        NoPanicList(rest, d);
        var r := ParseList(rest);
        if r.Success? {
          ConsumedThen(ts, rest, r.value.rest);
          DepthAppend([ts[0]], Consumed(rest, r.value.rest));
        }
      } else if ts[0] == RParen {
        assert Consumed(ts, rest) == [RParen];
      }
    }
  }

  /** On a balanced, non-empty token list `parse_expr` never reaches
      `tokens[0]` on an empty slice: it succeeds or fails with a parse
      error, but does not panic. */
  lemma BalancedNeverOutOfTokens(tokens: seq<Token>)
    requires |tokens| > 0 && Balanced(tokens)
    ensures ParseExpr(tokens) != Failure(OutOfTokens)
  {
    NoPanicExpr(tokens, 0);
  }
}
