/** Decimal text of integers, and splitting a text where a class of characters ends. */
module Decimal {
  const DIGITS: string := "0123456789"

  predicate IsDigit(c: char) { '0' <= c <= '9' }

  function Digits(n: nat): string {
    if n < 10 then [DIGITS[n]] else Digits(n / 10) + [DIGITS[n % 10]]
  }

  function Text(n: int): string { if n < 0 then "-" + Digits(-n) else Digits(n) }

  ghost function Value(digits: string): int {
    if digits == "" then 0
    else 10 * Value(digits[..|digits| - 1]) + (digits[|digits| - 1] as int - '0' as int)
  }

  lemma DigitValue(n: nat)
    requires n < 10
    ensures IsDigit(DIGITS[n]) && DIGITS[n] as int - '0' as int == n
  {
  }

  lemma {:induction false} DigitsValue(n: nat)
    ensures Value(Digits(n)) == n
    ensures Digits(n) != "" && forall c :: c in Digits(n) ==> IsDigit(c)
  {
    if n < 10 {
      DigitValue(n);
      assert Digits(n)[..0] == "";
    } else {
      DigitsValue(n / 10);
      DigitValue(n % 10);
      assert Digits(n)[..|Digits(n)| - 1] == Digits(n / 10);
    }
  }

  ghost function ValueOfText(s: string): int {
    if s != "" && s[0] == '-' then -Value(s[1..]) else Value(s)
  }

  ghost predicate Spells(s: string, n: int) {
    && ValueOfText(s) == n
    && s != "" && (s[0] == '-' || IsDigit(s[0]))
    && (s[0] == '-' <==> n < 0)
    && forall c :: c in s ==> IsDigit(c) || c == '-'
  }

  lemma DigitsSpell(digits: string, n: int)
    requires digits != "" && (forall c :: c in digits ==> IsDigit(c)) && Value(digits) == n && n >= 0
    ensures Spells(digits, n)
    ensures n > 0 ==> Spells("-" + digits, -n)
  {
    assert digits[0] in digits;
    assert ("-" + digits)[1..] == digits;
  }

  /** The text of an integer: a minus sign exactly when it is negative, then digits that spell its value. */
  lemma TextFacts(n: int)
    ensures Spells(Text(n), n)
  {
    var size := if n < 0 then -n else n;
    DigitsValue(size);
    DigitsSpell(Digits(size), size);
  }

  lemma NegativeText(n: int)
    requires n < 0
    ensures Text(n) == "-" + Text(-n)
  {
  }

  lemma TextInjective(a: int, b: int)
    requires Text(a) == Text(b)
    ensures a == b
  {
    TextFacts(a);
    TextFacts(b);
  }

  ghost predicate All(s: string, kind: char -> bool) { forall c :: c in s ==> kind(c) }

  ghost predicate Outside(s: string, kind: char -> bool) { s == "" || !kind(s[0]) }

  lemma SplitLength(kind: char -> bool, a: string, r: string, b: string, s: string)
    requires All(b, kind) && Outside(r, kind)
    requires a + r == b + s
    ensures |b| <= |a|
  {
    assert |a| + |r| == |b| + |s|;
    assert |r| > 0 ==> (a + r)[|a|] == r[0];
  }

  /** The longest prefix of characters of one class is determined by the text. */
  lemma SplitUnique(kind: char -> bool, a: string, r: string, b: string, s: string)
    requires All(a, kind) && All(b, kind) && Outside(r, kind) && Outside(s, kind)
    requires a + r == b + s
    ensures a == b && r == s
  {
    SplitLength(kind, a, r, b, s);
    SplitLength(kind, b, s, a, r);
    assert a == (a + r)[..|a|] && b == (b + s)[..|b|];
    assert r == (a + r)[|a|..] && s == (b + s)[|b|..];
  }

  lemma LastSeparatorTail(sep: char, a: string, b: string, c: string, d: string)
    requires sep !in d && a + [sep] + b == c + [sep] + d
    ensures |d| <= |b|
  {
    assert (a + [sep] + b)[|a|] == sep;
    assert |a| + |b| == |c| + |d|;
  }

  /** The text around the last occurrence of a separator is determined by the whole. */
  lemma SplitLast(sep: char, a: string, b: string, c: string, d: string)
    requires sep !in b && sep !in d && a + [sep] + b == c + [sep] + d
    ensures a == c && b == d
  {
    LastSeparatorTail(sep, a, b, c, d);
    LastSeparatorTail(sep, c, d, a, b);
    var whole := a + [sep] + b;
    assert whole[..|a|] == a && whole[..|c|] == c;
    assert whole[|a| + 1..] == b && whole[|c| + 1..] == d;
  }
}
