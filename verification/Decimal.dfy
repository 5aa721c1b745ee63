/** Decimal numerals, as Go's %d prints them for non-negative integers. */
module Decimal {
  function Digit(d: nat): char
    requires d < 10
  {
    '0' + d as char
  }

  predicate IsDigit(c: char) { '0' <= c <= '9' }

  function Numeral(n: nat): (s: string)
    ensures s != "" && forall i :: 0 <= i < |s| ==> IsDigit(s[i])
  {
    if n < 10 then [Digit(n)] else Numeral(n / 10) + [Digit(n % 10)]
  }

  /** The number a string of digits stands for. */
  function ValueOf(s: string): nat
    requires forall i :: 0 <= i < |s| ==> IsDigit(s[i])
  {
    if s == "" then 0
    else
      var d := s[|s| - 1];
      assert IsDigit(d);
      10 * ValueOf(s[..|s| - 1]) + (d as int - 48)
  }

  /** The numeral stands for the number and has no leading zero. */
  lemma {:induction false} NumeralValue(n: nat)
    ensures ValueOf(Numeral(n)) == n
    ensures n > 0 ==> Numeral(n)[0] != '0'
  {
    var s := Numeral(n);
    if n < 10 {
      assert s[..0] == "";
    } else {
      NumeralValue(n / 10);
      assert s[..|s| - 1] == Numeral(n / 10);
    }
  }

  lemma {:induction false} NumeralInjective(m: nat, n: nat)
    requires Numeral(m) == Numeral(n)
    ensures m == n
  {
    NumeralValue(m);
    NumeralValue(n);
  }

  /** A fixed prefix followed by a numeral determines the number. */
  lemma {:induction false} NumberedInjective(prefix: string, m: nat, n: nat)
    requires prefix + Numeral(m) == prefix + Numeral(n)
    ensures m == n
  {
    assert Numeral(m) == (prefix + Numeral(m))[|prefix|..] == Numeral(n);
    NumeralInjective(m, n);
  }
}
