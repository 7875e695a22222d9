/** Decimal numerals over ASCII digits: the reading done by `str::parse`
    on an all-digit lexeme and the writing done by `{n}` formatting. */
module Decimal {

  predicate IsDigit(c: char) {
    '0' <= c <= '9'
  }

  predicate AllDigits(s: string) {
    forall i :: 0 <= i < |s| ==> IsDigit(s[i])
  }

  function DigitValue(c: char): nat
    requires IsDigit(c)
  {
    c as int - '0' as int
  }

  function DigitChar(d: nat): (c: char)
    requires d < 10
    ensures IsDigit(c) && DigitValue(c) == d
  {
    ('0' as int + d) as char
  }

  /** The value of a string of decimal digits, most significant first. */
  function Value(s: string): nat
    requires AllDigits(s)
  {
    if |s| == 0 then 0 else Value(s[..|s| - 1]) * 10 + DigitValue(s[|s| - 1])
  }

  /** The shortest decimal spelling of a natural number. */
  function NatToString(n: nat): (s: string)
    ensures |s| > 0 && AllDigits(s)
    ensures |s| > 1 ==> s[0] != '0'
  {
    if n < 10 then [DigitChar(n)] else NatToString(n / 10) + [DigitChar(n % 10)]
  }

  /** Reading back what was written gives the number again. */
  lemma {:induction false} ValueOfNatToString(n: nat)
    ensures Value(NatToString(n)) == n
  {
    if n >= 10 {
      var s := NatToString(n);
      assert s[..|s| - 1] == NatToString(n / 10);
      ValueOfNatToString(n / 10);
    }
  }

  /** Writing what was read gives the text again, provided the text is
      already in shortest form (no leading zero). */
  lemma {:induction false} NatToStringOfValue(s: string)
    requires |s| > 0 && AllDigits(s)
    requires |s| > 1 ==> s[0] != '0'
    ensures NatToString(Value(s)) == s
  {
    if |s| == 1 {
    } else {
      var init := s[..|s| - 1];
      NatToStringOfValue(init);
      ValuePositive(init);
      assert init + [s[|s| - 1]] == s;
    }
  }

  /** A digit string without a leading zero has a positive value. */
  lemma {:induction false} ValuePositive(s: string)
    requires |s| > 0 && AllDigits(s) && s[0] != '0'
    ensures Value(s) > 0
  {
    if |s| > 1 {
      ValuePositive(s[..|s| - 1]);
    }
  }

  /** The decimal spelling of a signed integer, as `{n}` writes an `i32`. */
  function IntToString(n: int): (s: string)
    ensures |s| > 0
    ensures n >= 0 ==> AllDigits(s) && Value(s) == n
    ensures n < 0 ==> s[0] == '-' && AllDigits(s[1..]) && Value(s[1..]) == -n
    ensures var digits := if n < 0 then s[1..] else s; |digits| > 0 && (|digits| > 1 ==> digits[0] != '0')
  {
    if n >= 0 then
      ValueOfNatToString(n);
      NatToString(n)
    else
      ValueOfNatToString(-n);
      var digits := NatToString(-n);
      assert ("-" + digits)[1..] == digits;
      "-" + digits
  }
}
