/** `check_paren_balance`: a single left-to-right depth counter over the
    tokens that stops at the first `RParen` taking the depth below zero and
    otherwise reports a positive final depth. Its meaning is stated with
    prefix depths, the usual description of balanced parentheses. */
module Balance {
  import opened Syntax
  import opened Lexer

  /** How a token moves the depth counter. */
  function Step(t: Token): int {
    match t
    case LParen => 1
    case RParen => -1
    case _ => 0
  }

  /** The net depth after reading all of `ts`. */
  function Depth(ts: seq<Token>): int {
    if |ts| == 0 then 0 else Step(ts[0]) + Depth(ts[1..])
  }

  /** Starting at depth `start`, no prefix of `ts` drops below zero. */
  predicate NeverBelow(ts: seq<Token>, start: int) {
    forall k :: 0 <= k <= |ts| ==> start + Depth(ts[..k]) >= 0
  }

  /** Every prefix has at least as many `LParen` as `RParen`, and the
      totals agree. */
  predicate Balanced(ts: seq<Token>) {
    NeverBelow(ts, 0) && Depth(ts) == 0
  }

  /** The loop of `check_paren_balance` from the point where `count` holds
      the depth so far and `ts` is still to be read. */
  function Scan(ts: seq<Token>, count: int): Outcome {
    if |ts| == 0 then
      if count > 0 then Fail(MissingRParen) else Pass
    else
      match ts[0]
      case LParen => Scan(ts[1..], count + 1)
      case RParen => if count - 1 < 0 then Fail(MissingLParen) else Scan(ts[1..], count - 1)
      case _ => Scan(ts[1..], count)
  }

  function CheckParenBalance(tokens: seq<Token>): Outcome {
    Scan(tokens, 0)
  }

  lemma DepthPrefixStep(ts: seq<Token>, k: nat)
    requires 0 < k <= |ts|
    ensures Depth(ts[..k]) == Step(ts[0]) + Depth(ts[1..][..k - 1])
  {
    assert ts[..k][1..] == ts[1..][..k - 1];
  }

  /** Reading one token: the prefixes of `ts` are the empty one and the
      first token followed by the prefixes of the rest. */
  lemma NeverBelowCons(ts: seq<Token>, start: int)
    requires |ts| > 0
    ensures NeverBelow(ts, start) <==> start >= 0 && NeverBelow(ts[1..], start + Step(ts[0]))
  {
    if NeverBelow(ts, start) {
      assert start + Depth(ts[..0]) >= 0;
      forall k | 0 <= k <= |ts[1..]|
        ensures start + Step(ts[0]) + Depth(ts[1..][..k]) >= 0
      {
        DepthPrefixStep(ts, k + 1);
        assert start + Depth(ts[..k + 1]) >= 0;
      }
    }
    if start >= 0 && NeverBelow(ts[1..], start + Step(ts[0])) {
      forall k | 0 <= k <= |ts|
        ensures start + Depth(ts[..k]) >= 0
      {
        if k > 0 {
          DepthPrefixStep(ts, k);
          assert start + Step(ts[0]) + Depth(ts[1..][..k - 1]) >= 0;
        }
      }
    }
  }

  /** What the loop decides, from any non-negative depth: it passes exactly
      when the depth never drops below zero and ends at zero, reports a
      missing `(` exactly when the depth drops below zero somewhere, and
      reports a missing `)` exactly when it never does but ends positive. */
  lemma {:induction false} ScanDecides(ts: seq<Token>, count: int)
    requires count >= 0
    ensures Scan(ts, count) == Pass <==> NeverBelow(ts, count) && count + Depth(ts) == 0
    ensures Scan(ts, count) == Fail(MissingLParen) <==> !NeverBelow(ts, count)
    ensures Scan(ts, count) == Fail(MissingRParen) <==> NeverBelow(ts, count) && count + Depth(ts) > 0
  {
    if |ts| == 0 {
      assert ts[..0] == ts;
    } else {
      NeverBelowCons(ts, count);
      var next := count + Step(ts[0]);
      if next >= 0 {
        ScanDecides(ts[1..], next);
      } else {
        assert !NeverBelow(ts[1..], next) by {
          assert ts[1..][..0] == [];
        }
      }
    }
  }

  /** `check_paren_balance` returns `Ok` exactly on balanced token lists. */
  lemma CheckPassesIffBalanced(tokens: seq<Token>)
    ensures CheckParenBalance(tokens) == Pass <==> Balanced(tokens)
  {
    ScanDecides(tokens, 0);
  }

  /** `MissingLParen` exactly when some prefix closes more than it opened;
      this is decided before the final count is looked at. */
  lemma CheckMissingLParen(tokens: seq<Token>)
    ensures CheckParenBalance(tokens) == Fail(MissingLParen) <==>
            exists k :: 0 <= k <= |tokens| && Depth(tokens[..k]) < 0
  {
    ScanDecides(tokens, 0);
  }

  /** `MissingRParen` exactly when no prefix closes too much but the whole
      list opens more than it closes. */
  lemma CheckMissingRParen(tokens: seq<Token>)
    ensures CheckParenBalance(tokens) == Fail(MissingRParen) <==>
            NeverBelow(tokens, 0) && Depth(tokens) > 0
  {
    ScanDecides(tokens, 0);
  }

  /** The check has no other outcome. */
  lemma CheckOutcomes(tokens: seq<Token>)
    ensures CheckParenBalance(tokens) in {Pass, Fail(MissingLParen), Fail(MissingRParen)}
  {
    ScanDecides(tokens, 0);
    assert tokens[..|tokens|] == tokens;
  }

  /** The net depth is the number of `LParen` minus the number of `RParen`. */
  lemma {:induction false} DepthCounts(ts: seq<Token>)
    ensures Depth(ts) == Count(ts, LParen) - Count(ts, RParen)
  {
    if |ts| > 0 {
      DepthCounts(ts[1..]);
    }
  }

  /** The parenthesis tokens of `ts`, in order. */
  function Parens(ts: seq<Token>): (ps: seq<Token>)
    ensures forall i :: 0 <= i < |ps| ==> ps[i] == LParen || ps[i] == RParen
  {
    if |ts| == 0 then []
    else if ts[0] == LParen || ts[0] == RParen then [ts[0]] + Parens(ts[1..])
    else Parens(ts[1..])
  }

  /** Tokens other than parentheses never affect the result: the check
      gives the same answer on the parentheses alone. */
  lemma {:induction false} ScanIgnoresOthers(ts: seq<Token>, count: int)
    ensures Scan(ts, count) == Scan(Parens(ts), count)
  {
    if |ts| > 0 {
      ScanIgnoresOthers(ts[1..], count);
      ScanIgnoresOthers(ts[1..], count + 1);
      ScanIgnoresOthers(ts[1..], count - 1);
      if ts[0] == LParen || ts[0] == RParen {
        assert Parens(ts)[1..] == Parens(ts[1..]);
      }
    }
  }

  lemma CheckIgnoresOthers(tokens: seq<Token>)
    ensures CheckParenBalance(tokens) == CheckParenBalance(Parens(tokens))
  {
    ScanIgnoresOthers(tokens, 0);
  }

  /** Depth adds up over concatenation. */
  lemma {:induction false} DepthAppend(a: seq<Token>, b: seq<Token>)
    ensures Depth(a + b) == Depth(a) + Depth(b)
  {
    if |a| > 0 {
      assert (a + b)[1..] == a[1..] + b;
      DepthAppend(a[1..], b);
    } else {
      assert a + b == b;
    }
  }

  /** A balanced list wrapped in parentheses, or two balanced lists side by
      side, are balanced: the shapes a printed tree produces. */
  lemma BalancedWrap(ts: seq<Token>)
    requires NeverBelow(ts, 0)
    ensures NeverBelow([LParen] + ts + [RParen], 0)
    ensures Depth([LParen] + ts + [RParen]) == Depth(ts)
  {
    var w := [LParen] + ts + [RParen];
    DepthAppend([LParen], ts);
    DepthAppend([LParen] + ts, [RParen]);
    forall k | 0 <= k <= |w|
      ensures Depth(w[..k]) >= 0
    {
      if 0 < k <= |ts| + 1 {
        assert w[..k] == [LParen] + ts[..k - 1];
        DepthAppend([LParen], ts[..k - 1]);
      } else if k == |w| {
        assert w[..k] == w;
        assert ts[..|ts|] == ts;
      }
    }
  }

  /** Two balanced lists side by side inside one pair of parentheses. */
  lemma BalancedPair(a: seq<Token>, b: seq<Token>)
    requires Balanced(a) && Balanced(b)
    ensures Balanced([LParen] + a + b + [RParen])
  {
    NeverBelowAppend(a, b);
    DepthAppend(a, b);
    BalancedWrap(a + b);
    Assoc([LParen], a, b);
  }

  lemma NeverBelowAppend(a: seq<Token>, b: seq<Token>)
    requires NeverBelow(a, 0) && NeverBelow(b, 0) && Depth(a) >= 0
    ensures NeverBelow(a + b, 0)
  {
    forall k | 0 <= k <= |a + b|
      ensures Depth((a + b)[..k]) >= 0
    {
      if k <= |a| {
        assert (a + b)[..k] == a[..k];
      } else {
        assert (a + b)[..k] == a + b[..k - |a|];
        assert a[..|a|] == a;
        DepthAppend(a, b[..k - |a|]);
      }
    }
  }
}
