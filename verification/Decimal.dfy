/** Decimal notation, as template literals print natural numbers. */
module Decimal {
  import opened Text

  const DIGITS := "0123456789"

  function Dec(n: nat): (d: string)
    ensures d != [] && AllDigits(d)
  {
    if n < 10 then [DIGITS[n]] else Dec(n / 10) + [DIGITS[n % 10]]
  }

  lemma {:induction false} DecIsInjective(m: nat, n: nat)
    requires Dec(m) == Dec(n)
    ensures m == n
  {
    var x, y := Dec(m), Dec(n);
    assert DIGITS[m % 10] == x[|x| - 1] == DIGITS[n % 10];
    assert m % 10 == n % 10;
    if m >= 10 && n >= 10 {
      assert Dec(m / 10) == x[..|x| - 1] == Dec(n / 10);
      DecIsInjective(m / 10, n / 10);
    }
  }

  function Pow10(k: nat): (p: nat)
    ensures p > 0
  {
    if k == 0 then 1 else 10 * Pow10(k - 1)
  }

  lemma {:induction false} DecLength(n: nat, k: nat)
    requires k > 0 && n < Pow10(k)
    ensures |Dec(n)| <= k
  {
    if n >= 10 {
      assert Pow10(k) == 10 * Pow10(k - 1);
      assert Pow10(1) == 10;
      DecLength(n / 10, k - 1);
    }
  }

  lemma {:induction false} DecIsLong(n: nat, k: nat)
    requires n >= Pow10(k)
    ensures |Dec(n)| > k
  {
    if k > 0 {
      assert n >= 10 by { assert Pow10(k) == 10 * Pow10(k - 1) && Pow10(k - 1) >= 1; }
      DecIsLong(n / 10, k - 1);
    }
  }
}
