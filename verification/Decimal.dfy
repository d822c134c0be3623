/** Decimal text (strconv.FormatUint and fmt's %d on unsigned values), and its inverse. */
module Decimal {
  predicate IsDigit(c: char) {
    '0' <= c <= '9'
  }

  function DigitChar(d: nat): char
    requires d < 10
  {
    "0123456789"[d]
  }

  function DigitValue(c: char): nat
    requires IsDigit(c)
  {
    c as int - '0' as int
  }

  function Digits(n: nat): (s: string)
    ensures s != [] && forall c :: c in s ==> IsDigit(c)
  {
    if n < 10 then [DigitChar(n)] else Digits(n / 10) + [DigitChar(n % 10)]
  }

  /** The number a string of digits stands for. */
  function Parse(s: string): nat
    requires forall c :: c in s ==> IsDigit(c)
  {
    if s == [] then 0 else Parse(s[..|s| - 1]) * 10 + DigitValue(s[|s| - 1])
  }

  lemma {:induction false} ParseDigits(n: nat)
    ensures Parse(Digits(n)) == n
  {
    if n >= 10 {
      ParseDigits(n / 10);
      var s := Digits(n);
      assert s[..|s| - 1] == Digits(n / 10);
    } else {
      assert Digits(n)[..0] == [];
    }
  }

  lemma DigitsInjective(m: nat, n: nat)
    requires Digits(m) == Digits(n)
    ensures m == n
  {
    ParseDigits(m);
    ParseDigits(n);
  }

  /** A separator that occurs in neither tail splits a string in one way only. */
  lemma SplitUnique(x: string, y: string, d: string, e: string, sep: char)
    requires sep !in d && sep !in e
    requires x + [sep] + d == y + [sep] + e
    ensures x == y && d == e
  {
    var s := x + [sep] + d;
    assert s[|x|] == sep && (y + [sep] + e)[|y|] == sep;
    assert forall j :: |x| < j < |s| ==> s[j] == d[j - |x| - 1];
    assert forall j :: |y| < j < |s| ==> (y + [sep] + e)[j] == e[j - |y| - 1];
    assert |x| == |y|;
    assert x == s[..|x|] && y == s[..|x|];
    assert d == s[|x| + 1..] && e == s[|x| + 1..];
  }
}
