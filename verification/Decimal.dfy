/** Decimal numerals. */
module Decimal {

  predicate IsDigit(c: char) {
    '0' <= c <= '9'
  }

  /** The last digit of n. */
  function Digit(n: nat): (c: char)
    ensures IsDigit(c)
  {
    ('0' as int + n % 10) as char
  }

  function Pow10(k: nat): nat {
    if k == 0 then 1 else 10 * Pow10(k - 1)
  }

  function Itoa(n: nat): (s: string)
    ensures s != "" && (forall i :: 0 <= i < |s| ==> IsDigit(s[i]))
    ensures forall c :: c in s ==> IsDigit(c)
  {
    if n < 10 then [Digit(n)] else Itoa(n / 10) + [Digit(n)]
  }

  /** The number a text of digits stands for. */
  function Value(s: string): nat
    requires forall c :: c in s ==> IsDigit(c)
  {
    if s == "" then 0
    else
      assert s[|s| - 1] in s && IsDigit(s[|s| - 1]);
      10 * Value(s[..|s| - 1]) + (s[|s| - 1] as int - '0' as int)
  }

  lemma ValueSnoc(s: string, c: char)
    requires (forall d :: d in s ==> IsDigit(d)) && IsDigit(c)
    ensures Value(s + [c]) == 10 * Value(s) + (c as int - '0' as int)
  {
    assert (s + [c])[..|s|] == s;
  }

  lemma LastDigit(s: string, n: nat)
    requires (forall d :: d in s ==> IsDigit(d)) && Value(s) == n / 10
    ensures Value(s + [Digit(n)]) == n
  {
    ValueSnoc(s, Digit(n));
    assert n == 10 * (n / 10) + n % 10;
  }

  /** Rendering and reading a number gives the number back. */
  lemma {:induction false} ValueOfItoa(n: nat)
    ensures Value(Itoa(n)) == n
  {
    if n < 10 {
      ValueSnoc("", Digit(n));
      assert "" + [Digit(n)] == [Digit(n)];
    } else {
      ValueOfItoa(n / 10);
      LastDigit(Itoa(n / 10), n);
    }
  }
}
