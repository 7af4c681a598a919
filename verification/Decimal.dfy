/**
 Decimal numerals: `str` and `int` of non-negative integers. Python refuses to convert between text
 and integers beyond 4300 digits, leading zeros included.
 */
module Decimal {
  import opened Common

  const MAX_DIGITS := 4300

  predicate IsDigit(c: char) {
    '0' <= c <= '9'
  }

  predicate AllDigits(s: string) {
    forall c :: c in s ==> IsDigit(c)
  }

  function DigitValue(c: char): (d: nat)
    requires IsDigit(c)
    ensures d < 10
  {
    c as int - '0' as int
  }

  function DigitChar(d: nat): (c: char)
    requires d < 10
    ensures IsDigit(c) && DigitValue(c) == d
  {
    (d + '0' as int) as char
  }

  /** Value of a numeral, most significant digit first. */
  function Number(s: string): nat
    requires AllDigits(s)
  {
    if s == [] then 0 else Number(s[..|s| - 1]) * 10 + DigitValue(s[|s| - 1])
  }

  /** The shortest numeral of a number. */
  function Text(n: nat): (s: string)
    ensures s != [] && AllDigits(s)
  {
    if n < 10 then [DigitChar(n)] else Text(n / 10) + [DigitChar(n % 10)]
  }

  /** Conversion of a run of digits, refused when it is too long. */
  function ParseDigits(s: string): Option<nat>
    requires AllDigits(s)
  {
    if |s| <= MAX_DIGITS then Some(Number(s)) else None
  }

  lemma {:induction false} NumberOfText(n: nat)
    ensures Number(Text(n)) == n
  {
    if n >= 10 {
      NumberOfText(n / 10);
      assert Text(n)[..|Text(n)| - 1] == Text(n / 10);
    }
  }

  lemma TextIsInjective(m: nat, n: nat)
    requires Text(m) == Text(n)
    ensures m == n
  {
    NumberOfText(m);
    NumberOfText(n);
  }

  /** A run of digits ends at the first character that is none, so there is one way to split. */
  lemma SplitIsUnique(a: string, x: char, s: string, b: string, y: char, t: string)
    requires AllDigits(a) && AllDigits(b) && !IsDigit(x) && !IsDigit(y)
    requires a + [x] + s == b + [y] + t
    ensures a == b && x == y && s == t
  {
    var whole := a + [x] + s;
    assert whole[|a|] == x && whole[|b|] == y;
    assert forall i :: 0 <= i < |a| ==> IsDigit(whole[i]);
    assert forall i :: 0 <= i < |b| ==> IsDigit(whole[i]);
    assert a == whole[..|a|] && b == whole[..|b|];
    assert s == whole[|a| + 1..] && t == whole[|b| + 1..];
  }
}
