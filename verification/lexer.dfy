/** The tokenizer: `str2token` and `tokenize`. The input is padded so that
    every parenthesis stands alone, split into maximal runs of
    non-whitespace characters, and each run is classified into a token. */
module Lexer {
  import opened Syntax
  import opened Decimal

  /** Rust's `char::is_whitespace`: the Unicode White_Space property. */
  predicate IsWhitespace(c: char) {
    || '\U{0009}' <= c <= '\U{000D}'
    || c == ' '
    || c == '\U{0085}'
    || c == '\U{00A0}'
    || c == '\U{1680}'
    || '\U{2000}' <= c <= '\U{200A}'
    || c == '\U{2028}'
    || c == '\U{2029}'
    || c == '\U{202F}'
    || c == '\U{205F}'
    || c == '\U{3000}'
  }

  predicate NoWhitespace(s: string) {
    forall i :: 0 <= i < |s| ==> !IsWhitespace(s[i])
  }

  predicate IsParen(c: char) {
    c == '(' || c == ')'
  }

  predicate NoParen(s: string) {
    forall i :: 0 <= i < |s| ==> !IsParen(s[i])
  }

  /** How many times `x` occurs in `xs`. */
  function Count<T(==)>(xs: seq<T>, x: T): nat {
    if |xs| == 0 then 0 else (if xs[0] == x then 1 else 0) + Count(xs[1..], x)
  }

  lemma {:induction false} CountAppend<T>(a: seq<T>, b: seq<T>, x: T)
    ensures Count(a + b, x) == Count(a, x) + Count(b, x)
  {
    if |a| > 0 {
      assert (a + b)[0] == a[0];
      assert (a + b)[1..] == a[1..] + b;
      CountAppend(a[1..], b, x);
    } else {
      assert a + b == b;
    }
  }

  /** The non-whitespace characters of `s`, in order. */
  function DropWhitespace(s: string): string {
    if |s| == 0 then []
    else if IsWhitespace(s[0]) then DropWhitespace(s[1..])
    else [s[0]] + DropWhitespace(s[1..])
  }

  lemma {:induction false} DropWhitespaceAppend(a: string, b: string)
    ensures DropWhitespace(a + b) == DropWhitespace(a) + DropWhitespace(b)
  {
    if |a| > 0 {
      assert (a + b)[0] == a[0];
      assert (a + b)[1..] == a[1..] + b;
      DropWhitespaceAppend(a[1..], b);
    } else {
      assert a + b == b;
    }
  }

  /** All lexemes run together. */
  function Concat(lexemes: seq<string>): string {
    if |lexemes| == 0 then [] else lexemes[0] + Concat(lexemes[1..])
  }

  lemma {:induction false} ConcatAppend(a: seq<string>, b: seq<string>)
    ensures Concat(a + b) == Concat(a) + Concat(b)
  {
    if |a| > 0 {
      assert (a + b)[0] == a[0];
      assert (a + b)[1..] == a[1..] + b;
      ConcatAppend(a[1..], b);
      calc {
        Concat(a + b);
        a[0] + Concat(a[1..] + b);
        a[0] + (Concat(a[1..]) + Concat(b));
        (a[0] + Concat(a[1..])) + Concat(b);
      }
    } else {
      assert a + b == b;
    }
  }

  // ---------------------------------------------------------------------
  // Padding: `replace("(", " ( ").replace(")", " ) ")`
  // ---------------------------------------------------------------------

  /** What one character becomes after both replacements. The first one
      inserts only spaces and `(`, so every `)` the second one sees comes
      from the input: the two act character by character. */
  function PadChar(c: char): string {
    if c == '(' then " ( " else if c == ')' then " ) " else [c]
  }

  function Pad(s: string): string {
    if |s| == 0 then [] else PadChar(s[0]) + Pad(s[1..])
  }

  lemma {:induction false} PadAppend(a: string, b: string)
    ensures Pad(a + b) == Pad(a) + Pad(b)
  {
    if |a| > 0 {
      assert (a + b)[0] == a[0];
      assert (a + b)[1..] == a[1..] + b;
      PadAppend(a[1..], b);
    } else {
      assert a + b == b;
    }
  }

  /** Padding adds whitespace and nothing else. */
  lemma {:induction false} PadAddsOnlyWhitespace(s: string)
    ensures DropWhitespace(Pad(s)) == DropWhitespace(s)
  {
    if |s| > 0 {
      var c := s[0];
      PadAddsOnlyWhitespace(s[1..]);
      DropWhitespaceAppend(PadChar(c), Pad(s[1..]));
      if IsParen(c) {
        var w := PadChar(c);
        assert w[1..][1..][1..] == [];
        assert DropWhitespace(w[1..][1..]) == [];
        assert DropWhitespace(w[1..]) == [c];
      } else {
        assert PadChar(c) == [c];
        assert [c] + s[1..] == s;
        DropWhitespaceAppend([c], s[1..]);
      }
    }
  }

  lemma {:induction false} PadNoParen(s: string)
    requires NoParen(s)
    ensures Pad(s) == s
  {
    if |s| > 0 {
      assert !IsParen(s[0]);
      PadNoParen(s[1..]);
    }
  }

  // ---------------------------------------------------------------------
  // Splitting: `split_whitespace`
  // ---------------------------------------------------------------------

  /** The lexeme in progress, emitted when it is not empty. */
  function Flush(cur: string): seq<string> {
    if |cur| == 0 then [] else [cur]
  }

  /** `split_whitespace` over `s`, when the characters `cur` of an
      unfinished lexeme precede it. */
  function SplitFrom(s: string, cur: string): seq<string>
    decreases |s|
  {
    if |s| == 0 then Flush(cur)
    else if IsWhitespace(s[0]) then Flush(cur) + SplitFrom(s[1..], [])
    else SplitFrom(s[1..], cur + [s[0]])
  }

  predicate IsWord(lexeme: string) {
    |lexeme| > 0 && NoWhitespace(lexeme)
  }

  predicate AllWords(lexemes: seq<string>) {
    forall i :: 0 <= i < |lexemes| ==> IsWord(lexemes[i])
  }

  /** Splitting keeps every non-whitespace character, in order, and yields
      non-empty lexemes without whitespace. */
  lemma {:induction false} SplitKeepsText(s: string, cur: string)
    requires NoWhitespace(cur)
    ensures AllWords(SplitFrom(s, cur))
    ensures Concat(SplitFrom(s, cur)) == cur + DropWhitespace(s)
    decreases |s|
  {
    if |s| == 0 {
      assert cur + [] == cur;
    } else if IsWhitespace(s[0]) {
      var rest := SplitFrom(s[1..], []);
      SplitKeepsText(s[1..], []);
      ConcatAppend(Flush(cur), rest);
      assert [] + DropWhitespace(s[1..]) == DropWhitespace(s[1..]);
      if |cur| > 0 {
        assert Concat([cur]) == cur;
      }
      assert AllWords(Flush(cur) + rest) by {
        forall i | 0 <= i < |Flush(cur) + rest|
          ensures IsWord((Flush(cur) + rest)[i])
        {
          if i >= |Flush(cur)| {
            assert (Flush(cur) + rest)[i] == rest[i - |Flush(cur)|];
          }
        }
      }
    } else {
      SplitKeepsText(s[1..], cur + [s[0]]);
      assert (cur + [s[0]]) + DropWhitespace(s[1..]) == cur + ([s[0]] + DropWhitespace(s[1..]));
    }
  }

  /** `split_whitespace` splits at any whitespace: text whose second part
      begins with whitespace splits into the lexemes of each part. */
  lemma {:induction false} SplitAppend(x: string, y: string, cur: string)
    requires |y| > 0 && IsWhitespace(y[0])
    ensures SplitFrom(x + y, cur) == SplitFrom(x, cur) + SplitFrom(y, [])
    decreases |x|
  {
    if |x| == 0 {
      assert x + y == y;
    } else {
      assert (x + y)[0] == x[0];
      assert (x + y)[1..] == x[1..] + y;
      if IsWhitespace(x[0]) {
        SplitAppend(x[1..], y, []);
      } else {
        SplitAppend(x[1..], y, cur + [x[0]]);
      }
    }
  }

  /** The mirror image of `SplitAppend`: text whose first part ends with
      whitespace splits into the lexemes of each part. */
  lemma SplitAfterWhitespace(x: string, y: string)
    requires |x| > 0 && IsWhitespace(x[|x| - 1])
    ensures SplitFrom(x + y, []) == SplitFrom(x, []) + SplitFrom(y, [])
  {
    var init, w := x[..|x| - 1], [x[|x| - 1]];
    assert x == init + w;
    assert x + y == init + (w + y);
    SplitAppend(init, w + y, []);
    SplitAppend(init, w, []);
    SplitLeadingWhitespace(w, y);
    var a, b := SplitFrom(init, []), SplitFrom(y, []);
    assert SplitFrom(x + y, []) == a + b;
    assert SplitFrom(x, []) == a + [];
    assert a + [] == a;
  }

  lemma SplitLeadingWhitespace(w: string, y: string)
    requires |w| == 1 && IsWhitespace(w[0])
    ensures SplitFrom(w + y, []) == SplitFrom(y, [])
    ensures SplitFrom(w, []) == []
  {
    assert (w + y)[1..] == y;
    assert w[1..] == [];
  }

  lemma {:induction false} SplitWord(s: string, cur: string)
    requires NoWhitespace(s) && |cur + s| > 0
    ensures SplitFrom(s, cur) == [cur + s]
    decreases |s|
  {
    if |s| == 0 {
      assert cur + s == cur;
    } else {
      assert !IsWhitespace(s[0]);
      assert (cur + [s[0]]) + s[1..] == cur + s;
      SplitWord(s[1..], cur + [s[0]]);
    }
  }

  lemma {:induction false} SplitBlank(s: string)
    requires forall i :: 0 <= i < |s| ==> IsWhitespace(s[i])
    ensures SplitFrom(s, []) == []
  {
    if |s| > 0 {
      SplitBlank(s[1..]);
    }
  }

  /** A padded parenthesis ends the pending lexeme and is a lexeme alone. */
  lemma SplitPaddedParen(c: char, p: string, cur: string)
    requires IsParen(c)
    ensures SplitFrom(PadChar(c) + p, cur) == Flush(cur) + [[c]] + SplitFrom(p, [])
  {
    var w := PadChar(c) + p;
    var none: string := [];
    assert w[0] == ' ';
    assert w[1..][0] == c;
    assert w[1..][1..][0] == ' ';
    assert w[1..][1..][1..] == p;
    assert none + [c] == [c];
    assert SplitFrom(w[1..][1..], [c]) == [[c]] + SplitFrom(p, []);
    assert SplitFrom(w[1..], []) == SplitFrom(w[1..][1..], [c]);
    assert SplitFrom(w, cur) == Flush(cur) + SplitFrom(w[1..], []);
  }

  // ---------------------------------------------------------------------
  // Lexemes: the strings `map(str2token)` is applied to
  // ---------------------------------------------------------------------

  /** The lexemes of `input` after padding, in order. */
  function Lexemes(input: string): seq<string> {
    SplitFrom(Pad(input), [])
  }

  /** A lexeme of the padded input is a lone parenthesis or has none. */
  predicate LexemeShape(lexeme: string) {
    lexeme == "(" || lexeme == ")" || NoParen(lexeme)
  }

  predicate AllShaped(lexemes: seq<string>) {
    forall i :: 0 <= i < |lexemes| ==> LexemeShape(lexemes[i])
  }

  lemma AllShapedAppend(a: seq<string>, b: seq<string>)
    requires AllShaped(a) && AllShaped(b)
    ensures AllShaped(a + b)
  {
    forall i | 0 <= i < |a + b|
      ensures LexemeShape((a + b)[i])
    {
      if i >= |a| {
        assert (a + b)[i] == b[i - |a|];
      }
    }
  }

  /** What the tokenizer's split promises: the lexemes are non-empty and
      free of whitespace, together they spell the input without its
      whitespace, each is a lone parenthesis or holds none, and there is
      one parenthesis lexeme per parenthesis of the input. */
  lemma LexemesFacts(input: string)
    ensures AllWords(Lexemes(input))
    ensures Concat(Lexemes(input)) == DropWhitespace(input)
    ensures AllShaped(Lexemes(input))
    ensures Count(Lexemes(input), "(") == Count(input, '(')
    ensures Count(Lexemes(input), ")") == Count(input, ')')
  {
    SplitKeepsText(Pad(input), []);
    assert [] + DropWhitespace(Pad(input)) == DropWhitespace(Pad(input));
    PadAddsOnlyWhitespace(input);
    PaddedSplit(input, []);
  }

  /** Splitting a padded string: parentheses become lexemes of their own,
      one per parenthesis of the unpadded text, and no other lexeme holds
      a parenthesis. */
  lemma {:induction false} PaddedSplit(s: string, cur: string)
    requires NoParen(cur)
    ensures var ls := SplitFrom(Pad(s), cur);
      && AllShaped(ls)
      && Count(ls, "(") == Count(s, '(')
      && Count(ls, ")") == Count(s, ')')
    decreases |s|
  {
    FlushShape(cur);
    if |s| > 0 {
      var c, p := s[0], Pad(s[1..]);
      assert Pad(s) == PadChar(c) + p;
      if IsParen(c) {
        PaddedSplit(s[1..], []);
        ParenStep(c, p, cur);
      } else if IsWhitespace(c) {
        PaddedSplit(s[1..], []);
        WhitespaceStep(c, p, cur);
      } else {
        PaddedSplit(s[1..], cur + [c]);
        var w := [c] + p;
        assert w[1..] == p;
      }
    }
  }

  /** One step of `PaddedSplit` at a parenthesis. */
  lemma ParenStep(c: char, p: string, cur: string)
    requires IsParen(c) && NoParen(cur)
    requires AllShaped(SplitFrom(p, []))
    ensures var ls := SplitFrom(PadChar(c) + p, cur);
      && AllShaped(ls)
      && Count(ls, "(") == Count([c], '(') + Count(SplitFrom(p, []), "(")
      && Count(ls, ")") == Count([c], ')') + Count(SplitFrom(p, []), ")")
  {
    FlushShape(cur);
    SplitPaddedParen(c, p, cur);
    var ls := SplitFrom(p, []);
    CountAppend(Flush(cur) + [[c]], ls, "(");
    CountAppend(Flush(cur) + [[c]], ls, ")");
    CountAppend(Flush(cur), [[c]], "(");
    CountAppend(Flush(cur), [[c]], ")");
    AllShapedAppend(Flush(cur), [[c]]);
    AllShapedAppend(Flush(cur) + [[c]], ls);
  }

  /** One step of `PaddedSplit` at a whitespace character. */
  lemma WhitespaceStep(c: char, p: string, cur: string)
    requires IsWhitespace(c) && NoParen(cur)
    requires AllShaped(SplitFrom(p, []))
    ensures var ls := SplitFrom(PadChar(c) + p, cur);
      && AllShaped(ls)
      && Count(ls, "(") == Count(SplitFrom(p, []), "(")
      && Count(ls, ")") == Count(SplitFrom(p, []), ")")
  {
    FlushShape(cur);
    var w := [c] + p;
    assert PadChar(c) + p == w;
    assert w[1..] == p;
    var ls := SplitFrom(p, []);
    CountAppend(Flush(cur), ls, "(");
    CountAppend(Flush(cur), ls, ")");
    AllShapedAppend(Flush(cur), ls);
  }

  /** A pending lexeme without parentheses is emitted with the right shape
      and is not a parenthesis lexeme. */
  lemma FlushShape(cur: string)
    requires NoParen(cur)
    ensures AllShaped(Flush(cur))
    ensures Count(Flush(cur), "(") == 0 && Count(Flush(cur), ")") == 0
  {
    if |cur| == 1 {
      assert !IsParen(cur[0]);
    }
  }

  /** A place where the tokenizer always splits: at either end of the
      text, or next to whitespace or a parenthesis. */
  predicate Separated(x: string, y: string) {
    || |x| == 0
    || |y| == 0
    || IsWhitespace(x[|x| - 1])
    || IsParen(x[|x| - 1])
    || IsWhitespace(y[0])
    || IsParen(y[0])
  }

  lemma PadStartsWithWhitespace(y: string)
    requires |y| > 0 && (IsWhitespace(y[0]) || IsParen(y[0]))
    ensures |Pad(y)| > 0 && IsWhitespace(Pad(y)[0])
  {
    assert Pad(y) == PadChar(y[0]) + Pad(y[1..]);
  }

  lemma PadEndsWithWhitespace(x: string)
    requires |x| > 0 && (IsWhitespace(x[|x| - 1]) || IsParen(x[|x| - 1]))
    ensures |Pad(x)| > 0 && IsWhitespace(Pad(x)[|Pad(x)| - 1])
  {
    var init, last := x[..|x| - 1], x[|x| - 1];
    assert x == init + [last];
    PadAppend(init, [last]);
    assert Pad([last]) == PadChar(last) + Pad([]);
  }

  /** Text cut where the tokenizer splits anyway has, as lexemes, the
      lexemes of the first part followed by those of the second. */
  lemma LexemesAppend(x: string, y: string)
    requires Separated(x, y)
    ensures Lexemes(x + y) == Lexemes(x) + Lexemes(y)
  {
    PadAppend(x, y);
    var px, py := Pad(x), Pad(y);
    if |x| == 0 {
      assert x + y == y;
    } else if |y| == 0 {
      assert x + y == x;
    } else if IsWhitespace(y[0]) || IsParen(y[0]) {
      PadStartsWithWhitespace(y);
      SplitAppend(px, py, []);
    } else {
      PadEndsWithWhitespace(x);
      SplitAfterWhitespace(px, py);
    }
  }

  /** A word without whitespace or parentheses is one lexeme. */
  lemma LexemesOfWord(s: string)
    requires |s| > 0 && NoWhitespace(s) && NoParen(s)
    ensures Lexemes(s) == [s]
  {
    PadNoParen(s);
    SplitWord(s, []);
    assert [] + s == s;
  }

  /** Whitespace alone has no lexemes. */
  lemma LexemesOfBlank(s: string)
    requires forall i :: 0 <= i < |s| ==> IsWhitespace(s[i])
    ensures Lexemes(s) == []
  {
    assert NoParen(s) by {
      forall i | 0 <= i < |s| ensures !IsParen(s[i]) {
        assert IsWhitespace(s[i]);
      }
    }
    PadNoParen(s);
    SplitBlank(s);
  }

  /** A lone parenthesis is one lexeme. */
  lemma LexemesOfParen(c: char)
    requires IsParen(c)
    ensures Lexemes([c]) == [[c]]
  {
    assert Pad([c]) == PadChar(c) + Pad([]);
    SplitPaddedParen(c, [], []);
  }

  // ---------------------------------------------------------------------
  // Classification: `str2token`
  // ---------------------------------------------------------------------

  /** The precondition of `str2token`: an all-digit lexeme must parse as an
      `i32`, or `parse().unwrap()` panics. The empty string counts as all
      digits and fails to parse. */
  predicate LiteralFits(code: string) {
    AllDigits(code) ==> |code| > 0 && Value(code) <= I32_MAX
  }

  /** `str2token`: the match arms are tried in order, so a parenthesis wins
      over the digit test and the digit test over the operators. */
  function Str2Token(code: string): (t: Token)
    requires LiteralFits(code)
    ensures t == LParen <==> code == "("
    ensures t == RParen <==> code == ")"
    ensures t.Num? <==> AllDigits(code)
    ensures t.Num? ==> t.n == Value(code)
    ensures t == Token.OpAdd <==> code == "+"
    ensures t == Token.OpSub <==> code == "-"
    ensures t == Token.OpMul <==> code == "*"
    ensures t == Token.OpDiv <==> code == "/"
    ensures t.Unimplemented? ==> t.text == code
  {
    if code == "(" then LParen
    else if code == ")" then RParen
    else if AllDigits(code) then Num(Value(code))
    else if code == "+" then Token.OpAdd
    else if code == "-" then Token.OpSub
    else if code == "*" then Token.OpMul
    else if code == "/" then Token.OpDiv
    else Unimplemented(code)
  }

  /** The lexemes `str2token` gives a token of their own. */
  predicate Reserved(text: string) {
    text in {"(", ")", "+", "-", "*", "/"} || AllDigits(text)
  }

  /** The canonical spelling of a token, the inverse of `Str2Token`. */
  function Spell(t: Token): string {
    match t
    case LParen => "("
    case RParen => ")"
    case Num(n) => IntToString(n)
    case OpAdd => "+"
    case OpMul => "*"
    case OpSub => "-"
    case OpDiv => "/"
    case Unimplemented(text) => text
  }

  /** Token to text and back: every token comes back, except that a
      negative number is spelled with a `-` and so comes back as an
      unrecognised lexeme. */
  lemma Str2TokenOfSpell(t: Token)
    requires t.Unimplemented? ==> !Reserved(t.text)
    ensures LiteralFits(Spell(t))
    ensures Str2Token(Spell(t)) == if t.Num? && t.n < 0 then Unimplemented(Spell(t)) else t
  {
    if t.Num? && t.n < 0 {
      assert !IsDigit(Spell(t)[0]);
    }
  }

  /** Text to token and back: every lexeme comes back, except an all-digit
      one with a leading zero, which is read for its value. */
  lemma Str2TokenSpellRoundTrip(code: string)
    requires LiteralFits(code)
    requires AllDigits(code) && |code| > 1 ==> code[0] != '0'
    ensures Spell(Str2Token(code)) == code
  {
    if AllDigits(code) {
      NatToStringOfValue(code);
    }
  }

  // ---------------------------------------------------------------------
  // `tokenize`
  // ---------------------------------------------------------------------

  predicate AllFit(lexemes: seq<string>) {
    forall i :: 0 <= i < |lexemes| ==> LiteralFits(lexemes[i])
  }

  /** `map(str2token)` over the lexemes. */
  function Classify(lexemes: seq<string>): (tokens: seq<Token>)
    requires AllFit(lexemes)
    ensures |tokens| == |lexemes|
    ensures forall i :: 0 <= i < |tokens| ==> tokens[i] == Str2Token(lexemes[i])
  {
    if |lexemes| == 0 then [] else [Str2Token(lexemes[0])] + Classify(lexemes[1..])
  }

  lemma {:induction false} ClassifyCounts(lexemes: seq<string>)
    requires AllFit(lexemes)
    ensures Count(Classify(lexemes), LParen) == Count(lexemes, "(")
    ensures Count(Classify(lexemes), RParen) == Count(lexemes, ")")
  {
    if |lexemes| > 0 {
      var rest := lexemes[1..];
      ClassifyCounts(rest);
      var tokens := Classify(lexemes);
      assert tokens[1..] == Classify(rest);
    }
  }

  lemma ClassifyAppend(a: seq<string>, b: seq<string>)
    requires AllFit(a) && AllFit(b)
    ensures AllFit(a + b)
    ensures Classify(a + b) == Classify(a) + Classify(b)
  {
    assert forall i :: 0 <= i < |a + b| ==> (a + b)[i] == if i < |a| then a[i] else b[i - |a|];
  }

  /** The precondition of `tokenize`: no lexeme makes `str2token` panic. */
  predicate Tokenizable(input: string) {
    AllFit(Lexemes(input))
  }

  /** `tokenize`: one token per lexeme. */
  function Tokenize(input: string): seq<Token>
    requires Tokenizable(input)
  {
    Classify(Lexemes(input))
  }

  /** Parentheses survive tokenizing: there are exactly as many `LParen`
      tokens as `(` characters in the input, and as many `RParen` tokens
      as `)` characters. */
  lemma TokenizeCountsParens(input: string)
    requires Tokenizable(input)
    ensures Count(Tokenize(input), LParen) == Count(input, '(')
    ensures Count(Tokenize(input), RParen) == Count(input, ')')
  {
    LexemesFacts(input);
    ClassifyCounts(Lexemes(input));
  }

  /** Tokenizing text cut where the tokenizer splits anyway gives the
      tokens of the first part followed by those of the second. */
  lemma TokenizeAppend(x: string, y: string)
    requires Separated(x, y) && Tokenizable(x) && Tokenizable(y)
    ensures Tokenizable(x + y)
    ensures Tokenize(x + y) == Tokenize(x) + Tokenize(y)
  {
    LexemesAppend(x, y);
    ClassifyAppend(Lexemes(x), Lexemes(y));
  }

  /** A word without whitespace or parentheses is one token. */
  lemma TokenizeWord(s: string)
    requires |s| > 0 && NoWhitespace(s) && NoParen(s) && LiteralFits(s)
    ensures Tokenizable(s) && Tokenize(s) == [Str2Token(s)]
  {
    LexemesOfWord(s);
  }

  /** Wrapping text in parentheses wraps its tokens in parenthesis tokens. */
  lemma TokenizeParenthesised(x: string)
    requires Tokenizable(x)
    ensures Tokenizable("(" + x + ")")
    ensures Tokenize("(" + x + ")") == [LParen] + Tokenize(x) + [RParen]
  {
    var open, close := "(", ")";
    TokenizeParen('(');
    TokenizeParen(')');
    var tail := x + close;
    TokenizeAppend(x, close);
    TokenizeAppend(open, tail);
    Assoc(open, x, close);
    Assoc([LParen], Tokenize(x), [RParen]);
  }

  /** A parenthesis on its own is its token. */
  lemma TokenizeParen(c: char)
    requires IsParen(c)
    ensures Tokenizable([c]) && Tokenize([c]) == [if c == '(' then LParen else RParen]
  {
    LexemesOfParen(c);
  }

  /** Joining two texts with a space concatenates their tokens. */
  lemma TokenizeSpaced(x: string, y: string)
    requires Tokenizable(x) && Tokenizable(y)
    ensures Tokenizable(x + " " + y)
    ensures Tokenize(x + " " + y) == Tokenize(x) + Tokenize(y)
  {
    var space := " ";
    LexemesOfBlank(space);
    assert Tokenize(space) == [];
    TokenizeAppend(space, y);
    assert Tokenize(space + y) == Tokenize(y);
    TokenizeAppend(x, space + y);
    Assoc(x, space, y);
  }

  /** Text made of whitespace only has no tokens. */
  lemma TokenizeBlank(s: string)
    requires forall i :: 0 <= i < |s| ==> IsWhitespace(s[i])
    ensures Tokenizable(s) && Tokenize(s) == []
  {
    LexemesOfBlank(s);
  }

  lemma Assoc<T>(a: seq<T>, b: seq<T>, c: seq<T>)
    ensures a + (b + c) == a + b + c
  {
  }

  lemma Regroup<T>(p: seq<T>, a: seq<T>, b: seq<T>, c: seq<T>, q: seq<T>)
    ensures p + (a + (b + c)) + q == p + a + b + c + q
    ensures p + (a + b + c) + q == p + a + b + c + q
    ensures b == [] ==> p + (a + c) + q == p + a + c + q
  {
  }

  /** Two texts joined by a space and wrapped in parentheses: the shape of
      a printed pair. */
  lemma TokenizePair(a: string, b: string)
    requires Tokenizable(a) && Tokenizable(b)
    ensures Tokenizable("(" + a + " " + b + ")")
    ensures Tokenize("(" + a + " " + b + ")") == [LParen] + Tokenize(a) + Tokenize(b) + [RParen]
  {
    var inner := a + " " + b;
    TokenizeSpaced(a, b);
    TokenizeParenthesised(inner);
    Regroup("(", a, " ", b, ")");
    Regroup([LParen], Tokenize(a), [], Tokenize(b), [RParen]);
  }

  /** Three texts joined by spaces and wrapped in parentheses: the shape
      of every form in the test suite. */
  lemma TokenizeGroup(a: string, b: string, c: string)
    requires Tokenizable(a) && Tokenizable(b) && Tokenizable(c)
    ensures Tokenizable("(" + (a + " " + (b + " " + c)) + ")")
    ensures Tokenize("(" + (a + " " + (b + " " + c)) + ")")
         == [LParen] + Tokenize(a) + Tokenize(b) + Tokenize(c) + [RParen]
  {
    var inner := b + " " + c;
    TokenizeSpaced(b, c);
    var whole := a + " " + inner;
    TokenizeSpaced(a, inner);
    TokenizeParenthesised(whole);
    var ta, tb, tc := Tokenize(a), Tokenize(b), Tokenize(c);
    assert Tokenize("(" + whole + ")") == [LParen] + (ta + (tb + tc)) + [RParen];
    Regroup([LParen], ta, tb, tc, [RParen]);
  }

  // ---------------------------------------------------------------------
  // The cases of the `tokenize_success` test (src/main.rs:218-246)
  // ---------------------------------------------------------------------

  /** One lexeme that is a word of its own, with its token. */
  lemma TokenizeLexeme(s: string, t: Token)
    requires |s| > 0 && NoWhitespace(s) && NoParen(s) && LiteralFits(s)
    requires Str2Token(s) == t
    ensures Tokenizable(s) && Tokenize(s) == [t]
  {
    TokenizeWord(s);
  }

  /** A numeral in range is a lexeme of its own that reads as its value. */
  lemma NumeralLexeme(s: string, n: int)
    requires |s| > 0 && AllDigits(s) && Value(s) == n && n <= I32_MAX
    ensures |s| > 0 && NoWhitespace(s) && NoParen(s) && LiteralFits(s) && Str2Token(s) == Num(n)
  {
  }

  // The example lemmas below take their literal lexemes as parameters
  // (`SmallNumerals`, `TwelveNumeral`, `NestedSumText`, `NestedSumTokens`)
  // so that each equality between literals is proved in a small context of
  // its own rather than alongside the tokenizer's facts.

  /** The numerals of the examples. */
  lemma SmallNumerals(one: string, two: string, three: string, twelve: string)
    requires one == "1" && two == "2" && three == "3" && twelve == "12"
    ensures AllDigits(one) && Value(one) == 1
    ensures AllDigits(two) && Value(two) == 2
    ensures AllDigits(three) && Value(three) == 3
    ensures AllDigits(twelve) && Value(twelve) == 12
  {
    TwelveNumeral(twelve);
  }

  lemma TwelveNumeral(twelve: string)
    requires twelve == "12"
    ensures AllDigits(twelve) && Value(twelve) == 12
  {
    assert twelve[..1] == "1" && AllDigits(twelve[..1]) && Value(twelve[..1]) == 1;
  }

  /** A parenthesised group of three lexemes, with their tokens. */
  lemma TokenizeGroupOfLexemes(a: string, b: string, c: string, ta: Token, tb: Token, tc: Token)
    requires |a| > 0 && NoWhitespace(a) && NoParen(a) && LiteralFits(a) && Str2Token(a) == ta
    requires |b| > 0 && NoWhitespace(b) && NoParen(b) && LiteralFits(b) && Str2Token(b) == tb
    requires |c| > 0 && NoWhitespace(c) && NoParen(c) && LiteralFits(c) && Str2Token(c) == tc
    ensures Tokenizable("(" + (a + " " + (b + " " + c)) + ")")
    ensures Tokenize("(" + (a + " " + (b + " " + c)) + ")") == [LParen, ta, tb, tc, RParen]
  {
    TokenizeLexeme(a, ta);
    TokenizeLexeme(b, tb);
    TokenizeLexeme(c, tc);
    TokenizeGroup(a, b, c);
  }

  lemma TokenizeNumberOne()
    ensures Tokenizable("1") && Tokenize("1") == [Num(1)]
  {
    var one := "1";
    SmallNumerals(one, "2", "3", "12");
    NumeralLexeme(one, 1);
    TokenizeLexeme(one, Num(1));
  }

  lemma TokenizeListOfNumbers()
    ensures Tokenizable("(1 2 3)")
    ensures Tokenize("(1 2 3)") == [LParen, Num(1), Num(2), Num(3), RParen]
  {
    var one, two, three := "1", "2", "3";
    SmallNumerals(one, two, three, "12");
    NumeralLexeme(one, 1);
    NumeralLexeme(two, 2);
    NumeralLexeme(three, 3);
    TokenizeGroupOfLexemes(one, two, three, Num(1), Num(2), Num(3));
    assert "(" + (one + " " + (two + " " + three)) + ")" == "(1 2 3)";
  }

  lemma TokenizeSum()
    ensures Tokenizable("(+ 2 3)")
    ensures Tokenize("(+ 2 3)") == [LParen, Token.OpAdd, Num(2), Num(3), RParen]
  {
    var plus, two, three := "+", "2", "3";
    SmallNumerals("1", two, three, "12");
    NumeralLexeme(two, 2);
    NumeralLexeme(three, 3);
    TokenizeGroupOfLexemes(plus, two, three, Token.OpAdd, Num(2), Num(3));
    assert "(" + (plus + " " + (two + " " + three)) + ")" == "(+ 2 3)";
  }

  lemma TokenizeDifference()
    ensures Tokenizable("(- 12 3)")
    ensures Tokenize("(- 12 3)") == [LParen, Token.OpSub, Num(12), Num(3), RParen]
  {
    var minus, twelve, three := "-", "12", "3";
    SmallNumerals("1", "2", three, twelve);
    NumeralLexeme(twelve, 12);
    NumeralLexeme(three, 3);
    TokenizeGroupOfLexemes(minus, twelve, three, Token.OpSub, Num(12), Num(3));
    assert "(" + (minus + " " + (twelve + " " + three)) + ")" == "(- 12 3)";
  }

  /** The operator of a group followed by two parenthesised operands. */
  lemma TokenizeNestedGroup(op: string, x: string, y: string, t: Token, tx: seq<Token>, ty: seq<Token>)
    requires |op| > 0 && NoWhitespace(op) && NoParen(op) && LiteralFits(op) && Str2Token(op) == t
    requires Tokenizable(x) && Tokenize(x) == tx
    requires Tokenizable(y) && Tokenize(y) == ty
    ensures Tokenizable("(" + (op + " " + (x + " " + y)) + ")")
    ensures Tokenize("(" + (op + " " + (x + " " + y)) + ")") == [LParen, t] + tx + ty + [RParen]
  {
    TokenizeLexeme(op, t);
    TokenizeGroup(op, x, y);
  }

  /** `(+ (+ 2 3) (- 12 3))`, built from its lexemes. */
  lemma TokenizeNestedSumParts(plus: string, minus: string, two: string, three: string, twelve: string)
    requires |plus| > 0 && NoWhitespace(plus) && NoParen(plus) && LiteralFits(plus) && Str2Token(plus) == Token.OpAdd
    requires |minus| > 0 && NoWhitespace(minus) && NoParen(minus) && LiteralFits(minus) && Str2Token(minus) == Token.OpSub
    requires |two| > 0 && NoWhitespace(two) && NoParen(two) && LiteralFits(two) && Str2Token(two) == Num(2)
    requires |three| > 0 && NoWhitespace(three) && NoParen(three) && LiteralFits(three) && Str2Token(three) == Num(3)
    requires |twelve| > 0 && NoWhitespace(twelve) && NoParen(twelve) && LiteralFits(twelve) && Str2Token(twelve) == Num(12)
    ensures var sum := "(" + (plus + " " + (two + " " + three)) + ")";
            var difference := "(" + (minus + " " + (twelve + " " + three)) + ")";
            var code := "(" + (plus + " " + (sum + " " + difference)) + ")";
            Tokenizable(code) &&
            Tokenize(code) == [LParen, Token.OpAdd,
                               LParen, Token.OpAdd, Num(2), Num(3), RParen,
                               LParen, Token.OpSub, Num(12), Num(3), RParen,
                               RParen]
  {
    var sum := "(" + (plus + " " + (two + " " + three)) + ")";
    var difference := "(" + (minus + " " + (twelve + " " + three)) + ")";
    TokenizeGroupOfLexemes(plus, two, three, Token.OpAdd, Num(2), Num(3));
    TokenizeGroupOfLexemes(minus, twelve, three, Token.OpSub, Num(12), Num(3));
    var tx := [LParen, Token.OpAdd, Num(2), Num(3), RParen];
    var ty := [LParen, Token.OpSub, Num(12), Num(3), RParen];
    TokenizeNestedGroup(plus, sum, difference, Token.OpAdd, tx, ty);
    NestedSumTokens(tx, ty);
  }

  lemma NestedSumTokens(tx: seq<Token>, ty: seq<Token>)
    requires tx == [LParen, Token.OpAdd, Num(2), Num(3), RParen]
    requires ty == [LParen, Token.OpSub, Num(12), Num(3), RParen]
    ensures [LParen, Token.OpAdd] + tx + ty + [RParen]
         == [LParen, Token.OpAdd,
             LParen, Token.OpAdd, Num(2), Num(3), RParen,
             LParen, Token.OpSub, Num(12), Num(3), RParen,
             RParen]
  {
  }

  lemma NestedSumText(plus: string, minus: string, two: string, three: string, twelve: string)
    requires plus == "+" && minus == "-" && two == "2" && three == "3" && twelve == "12"
    ensures var sum := "(" + (plus + " " + (two + " " + three)) + ")";
            var difference := "(" + (minus + " " + (twelve + " " + three)) + ")";
            "(" + (plus + " " + (sum + " " + difference)) + ")" == "(+ (+ 2 3) (- 12 3))"
  {
  }

  /** The nested sum of the test suite, also the program's built-in input. */
  lemma TokenizeNestedSum()
    ensures Tokenizable("(+ (+ 2 3) (- 12 3))")
    ensures Tokenize("(+ (+ 2 3) (- 12 3))")
         == [LParen, Token.OpAdd,
             LParen, Token.OpAdd, Num(2), Num(3), RParen,
             LParen, Token.OpSub, Num(12), Num(3), RParen,
             RParen]
  {
    var plus, minus, two, three, twelve := "+", "-", "2", "3", "12";
    SmallNumerals("1", two, three, twelve);
    NumeralLexeme(two, 2);
    NumeralLexeme(three, 3);
    NumeralLexeme(twelve, 12);
    TokenizeNestedSumParts(plus, minus, two, three, twelve);
    NestedSumText(plus, minus, two, three, twelve);
  }
}
