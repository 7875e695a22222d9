/** `Display for Expr`: a pair prints as `(car cdr)`, `Nil` as `nil`, a
    number in decimal and an operator as its symbol. Printed text is read
    back here by the tokenizer: its token stream is described independently
    by `Fringe`, and it always passes the parenthesis check. */
module Printer {
  import opened Syntax
  import opened Decimal
  import opened Lexer
  import opened Balance

  function Show(e: Expr): string {
    match e
    case Number(n) => IntToString(n)
    case Nil => "nil"
    case Pair(car, cdr) => "(" + Show(car) + " " + Show(cdr) + ")"
    case OpAdd => "+"
    case OpMul => "*"
    case OpSub => "-"
    case OpDiv => "/"
  }

  /** The tokens of a printed tree: a pair is its two halves between
      parenthesis tokens; a leaf is the token its text denotes. `nil` and a
      negative number are not lexemes the tokenizer recognises. */
  function Fringe(e: Expr): seq<Token> {
    match e
    case Number(n) => if n >= 0 then [Num(n)] else [Unimplemented(IntToString(n))]
    case Nil => [Unimplemented("nil")]
    case Pair(car, cdr) => [LParen] + Fringe(car) + Fringe(cdr) + [RParen]
    case OpAdd => [Token.OpAdd]
    case OpMul => [Token.OpMul]
    case OpSub => [Token.OpSub]
    case OpDiv => [Token.OpDiv]
  }

  /** A number prints as one lexeme; a non-negative one reads back as the
      same number, a negative one as an unrecognised lexeme. */
  lemma ShowNumber(n: I32)
    ensures var s := IntToString(n);
            && |s| > 0 && NoWhitespace(s) && NoParen(s) && LiteralFits(s)
            && Str2Token(s) == if n >= 0 then Num(n) else Unimplemented(s)
  {
    var s := IntToString(n);
    if n < 0 {
      assert s[0] == '-' && AllDigits(s[1..]);
      forall i | 0 <= i < |s|
        ensures !IsWhitespace(s[i]) && !IsParen(s[i])
      {
        if i > 0 {
          assert s[i] == s[1..][i - 1];
        }
      }
      assert !IsDigit(s[0]);
      assert |s| > 1;
    }
  }

  /** A one-character symbol is one lexeme. */
  lemma ShowSymbol(s: string)
    requires |s| == 1 && !IsWhitespace(s[0]) && !IsParen(s[0]) && !IsDigit(s[0])
    ensures |s| > 0 && NoWhitespace(s) && NoParen(s) && LiteralFits(s)
  {
  }

  /** A leaf prints as a single lexeme that reads back as its token: an
      operator as its operator token, a non-negative number as the same
      number. */
  lemma ShowLeaf(e: Expr)
    requires !e.Pair?
    ensures |Show(e)| > 0 && NoWhitespace(Show(e)) && NoParen(Show(e))
    ensures LiteralFits(Show(e)) && [Str2Token(Show(e))] == Fringe(e)
    ensures e.Number? && e.n >= 0 ==> Str2Token(Show(e)) == Num(e.n)
    ensures e == Expr.OpAdd ==> Str2Token(Show(e)) == Token.OpAdd
    ensures e == Expr.OpSub ==> Str2Token(Show(e)) == Token.OpSub
    ensures e == Expr.OpMul ==> Str2Token(Show(e)) == Token.OpMul
    ensures e == Expr.OpDiv ==> Str2Token(Show(e)) == Token.OpDiv
  {
    var s := Show(e);
    match e
    case Number(n) => ShowNumber(n);
    case Nil =>
      assert !IsDigit(s[0]) && s != "-";
      NilLexeme(s);
    case OpAdd => ShowSymbol(s);
    case OpMul => ShowSymbol(s);
    case OpSub => ShowSymbol(s);
    case OpDiv => ShowSymbol(s);
  }

  lemma NilLexeme(s: string)
    requires s == "nil"
    ensures |s| > 0 && NoWhitespace(s) && NoParen(s) && LiteralFits(s)
    ensures Str2Token(s) == Unimplemented(s)
  {
    assert !IsDigit(s[0]);
  }

  /** A leaf is one token. */
  lemma LeafTokenizes(e: Expr)
    requires !e.Pair?
    ensures Tokenizable(Show(e)) && Tokenize(Show(e)) == Fringe(e)
  {
    ShowLeaf(e);
    TokenizeWord(Show(e));
  }

  /** A pair's tokens are its halves' tokens between parenthesis tokens. */
  lemma PairTokenizes(car: Expr, cdr: Expr)
    requires Tokenizable(Show(car)) && Tokenize(Show(car)) == Fringe(car)
    requires Tokenizable(Show(cdr)) && Tokenize(Show(cdr)) == Fringe(cdr)
    ensures Tokenizable(Show(Pair(car, cdr))) && Tokenize(Show(Pair(car, cdr))) == Fringe(Pair(car, cdr))
  {
    TokenizePair(Show(car), Show(cdr));
  }

  /** Tokenizing printed text gives the fringe of the tree. */
  lemma {:induction false} ShowTokenizes(e: Expr)
    ensures Tokenizable(Show(e)) && Tokenize(Show(e)) == Fringe(e)
  {
    match e
    case Pair(car, cdr) =>
      ShowTokenizes(car);
      ShowTokenizes(cdr);
      PairTokenizes(car, cdr);
    case _ =>
      LeafTokenizes(e);
  }

  /** The fringe of every tree is balanced. */
  lemma {:induction false} FringeBalanced(e: Expr)
    ensures Balanced(Fringe(e))
  {
    var ts := Fringe(e);
    match e
    case Pair(car, cdr) =>
      FringeBalanced(car);
      FringeBalanced(cdr);
      BalancedPair(Fringe(car), Fringe(cdr));
    case _ =>
      LeafBalanced(ts[0]);
  }

  lemma LeafBalanced(t: Token)
    requires t != LParen && t != RParen
    ensures Balanced([t])
  {
    assert [t][..0] == [] && [t][..1] == [t];
  }

  /** Printed trees always pass `check_paren_balance`. */
  lemma PrintedTreesBalanced(e: Expr)
    ensures Tokenizable(Show(e))
    ensures CheckParenBalance(Tokenize(Show(e))) == Pass
  {
    ShowTokenizes(e);
    FringeBalanced(e);
    CheckPassesIffBalanced(Fringe(e));
  }
}
