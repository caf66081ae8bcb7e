/** The check-digit validators of the card and BSN patterns, and the mistakes they detect. */
module Checksums {
  import opened Text

  function Digit(c: char): (d: nat)
    requires IsDigit(c)
    ensures d <= 9
  {
    (c - '0') as nat
  }

  predicate IsSeparator(c: char) {
    IsSpace(c) || c == '-'
  }

  lemma DigitsStay(c: char)
    requires IsDigit(c)
    ensures !IsSpace(c) && !IsSeparator(c)
  {
  }

  /** `s` without the characters that `drop` names. */
  function Strip(s: string, drop: char -> bool): (r: string) {
    if s == [] then [] else (if drop(s[0]) then [] else [s[0]]) + Strip(s[1..], drop)
  }

  lemma {:induction false} StripConcat(a: string, b: string, drop: char -> bool)
    ensures Strip(a + b, drop) == Strip(a, drop) + Strip(b, drop)
  {
    if a == [] {
      assert a + b == b;
    } else {
      var first := if drop(a[0]) then [] else [a[0]];
      calc {
        Strip(a + b, drop);
        { assert (a + b)[1..] == a[1..] + b; }
        first + Strip(a[1..] + b, drop);
        { StripConcat(a[1..], b, drop); }
        first + (Strip(a[1..], drop) + Strip(b, drop));
        first + Strip(a[1..], drop) + Strip(b, drop);
      }
    }
  }

  lemma {:induction false} StripNothing(s: string, drop: char -> bool)
    requires forall k :: 0 <= k < |s| ==> drop(s[k])
    ensures Strip(s, drop) == []
  {
    if s != [] { StripNothing(s[1..], drop); }
  }

  lemma {:induction false} StripOne(c: char, b: string, drop: char -> bool)
    requires !drop(c)
    ensures Strip([c] + b, drop) == [c] + Strip(b, drop)
  {
    assert ([c] + b)[1..] == b;
  }

  /** A character that stays is found where the text before it ends once stripped. */
  lemma {:induction false} StripAround(s: string, i: nat, drop: char -> bool)
    requires i < |s| && !drop(s[i])
    ensures Strip(s, drop) == Strip(s[..i], drop) + [s[i]] + Strip(s[i + 1..], drop)
  {
    var a, b := s[..i], s[i + 1..];
    assert s == a + ([s[i]] + b);
    StripConcat(a, [s[i]] + b, drop);
    StripOne(s[i], b, drop);
  }

  /** One character that stays is replaced by another: so is one character of the stripped text. */
  lemma {:induction false} StripUpdate(s: string, i: nat, c: char, drop: char -> bool) returns (k: nat)
    requires i < |s| && !drop(s[i]) && !drop(c)
    ensures k < |Strip(s, drop)| && Strip(s, drop)[k] == s[i]
    ensures Strip(s[i := c], drop) == Strip(s, drop)[k := c]
    ensures k == |Strip(s[..i], drop)|
  {
    var u := s[i := c];
    StripAround(s, i, drop);
    StripAround(u, i, drop);
    assert u[..i] == s[..i] && u[i + 1..] == s[i + 1..];
    k := |Strip(s[..i], drop)|;
  }

  /** The text with the characters at `i` and `j` exchanged. */
  function Swap(s: string, i: nat, j: nat): (r: string)
    requires i < j < |s|
    ensures |r| == |s| && r[i] == s[j] && r[j] == s[i]
    ensures forall k :: 0 <= k < |s| && k != i && k != j ==> r[k] == s[k]
  {
    s[i := s[j]][j := s[i]]
  }

  /** Exchanging two characters that stay exchanges two characters of the stripped text. */
  lemma {:induction false} StripSwap(s: string, i: nat, j: nat, drop: char -> bool) returns (k: nat, m: nat)
    requires i < j < |s| && !drop(s[i]) && !drop(s[j])
    ensures k < m < |Strip(s, drop)| && Strip(s, drop)[k] == s[i] && Strip(s, drop)[m] == s[j]
    ensures Strip(Swap(s, i, j), drop) == Swap(Strip(s, drop), k, m)
    ensures (forall x :: i < x < j ==> drop(s[x])) ==> m == k + 1
  {
    k := StripUpdate(s, i, s[j], drop);
    var u := s[i := s[j]];
    m := StripUpdate(u, j, s[i], drop);
    var p := s[..j];
    StripAround(p, i, drop);
    assert u[..j] == p[i := s[j]] && p[..i] == s[..i];
    var k' := StripUpdate(p, i, s[j], drop);
    var m' := StripUpdate(s, j, s[j], drop);
    if forall x :: i < x < j ==> drop(s[x]) {
      StripNothing(p[i + 1..], drop);
    }
  }

  // ---- Luhn, Annex B of ISO/IEC 7812-1 -----------------------------------------------------------

  /** What one digit adds: the digit, or the digit sum of its double (1 and the units if that has two digits). */
  function LuhnTerm(d: nat, doubled: bool): nat
    requires d <= 9
  {
    if !doubled then d else if 2 * d < 10 then 2 * d else 1 + (2 * d - 10)
  }

  /** From the right, every other digit is doubled; `doubled` says whether the rightmost one is. */
  function LuhnSum(d: string, doubled: bool): nat
    requires AllDigits(d)
  {
    if d == [] then 0
    else LuhnTerm(Digit(d[|d| - 1]), doubled) + LuhnSum(d[..|d| - 1], !doubled)
  }

  predicate LuhnAccepts(value: string) {
    var d := Strip(value, IsSeparator);
    IsLuhn(d)
  }

  predicate IsLuhn(d: string) {
    13 <= |d| <= 19 && AllDigits(d) && LuhnSum(d, false) % 10 == 0
  }

  /** The loop of the card patterns' validator. */
  method LuhnCheck(value: string) returns (ok: bool)
    ensures ok == LuhnAccepts(value)
  {
    var d := Strip(value, IsSeparator);
    if |d| < 13 || |d| > 19 || !AllDigits(d) { return false; }
    var s, a, i := 0, false, |d| - 1;
    assert d[..|d|] == d;
    while i >= 0
      invariant -1 <= i < |d|
      invariant s + LuhnSum(d[..i + 1], a) == LuhnSum(d, false)
    {
      assert d[..i + 1][..i] == d[..i];
      var n := Digit(d[i]);
      if a {
        n := n * 2;
        if n > 9 { n := n - 9; }
      }
      s := s + n;
      a := !a;
      i := i - 1;
    }
    ok := s % 10 == 0;
  }

  /** What the digit at `k` adds: every second one from the right is doubled, less 9 if that has two digits. */
  function Weighed(d: string, k: nat): int
    requires AllDigits(d) && k < |d|
  {
    var x := d[k] as int - '0' as int;
    if (|d| - 1 - k) % 2 == 0 then x else if x > 4 then x * 2 - 9 else x * 2
  }

  function Total(terms: seq<int>): int {
    if terms == [] then 0 else terms[0] + Total(terms[1..])
  }

  function Weights(d: string): (r: seq<int>)
    requires AllDigits(d)
    ensures |r| == |d| && forall k :: 0 <= k < |d| ==> r[k] == Weighed(d, k)
  {
    seq(|d|, k requires 0 <= k < |d| => Weighed(d, k))
  }

  lemma {:induction false} TotalSnoc(terms: seq<int>, x: int)
    ensures Total(terms + [x]) == Total(terms) + x
  {
    if terms == [] {
      assert [] + [x] == [x];
    } else {
      assert (terms + [x])[1..] == terms[1..] + [x];
      TotalSnoc(terms[1..], x);
    }
  }

  /** What is accepted, stated by the places of the digits. */
  lemma {:induction false} LuhnByPlace(value: string)
    ensures var d := Strip(value, IsSeparator);
            LuhnAccepts(value) <==> 13 <= |d| <= 19 && AllDigits(d) && Total(Weights(d)) % 10 == 0
  {
    var d := Strip(value, IsSeparator);
    if AllDigits(d) {
      LuhnSumIs(d, |d|);
      assert d[..|d|] == d && Weights(d)[..|d|] == Weights(d);
    }
  }

  lemma {:induction false} LuhnSumIs(d: string, n: nat)
    requires AllDigits(d) && n <= |d|
    ensures LuhnSum(d[..n], (|d| - n) % 2 == 1) == Total(Weights(d)[..n])
  {
    if n > 0 {
      assert d[..n][..n - 1] == d[..n - 1] && Weights(d)[..n] == Weights(d)[..n - 1] + [Weights(d)[n - 1]];
      LuhnSumIs(d, n - 1);
      TotalSnoc(Weights(d)[..n - 1], Weights(d)[n - 1]);
    }
  }

  /** Is the digit at `k`, counted from the left, one of those that are doubled? */
  predicate IsDoubled(n: nat, k: nat, doubled: bool)
    requires k < n
  {
    doubled != ((n - 1 - k) % 2 == 1)
  }

  lemma {:induction false} LuhnUpdate(d: string, k: nat, c: char, doubled: bool)
    requires AllDigits(d) && k < |d| && IsDigit(c)
    ensures LuhnSum(d[k := c], doubled) + LuhnTerm(Digit(d[k]), IsDoubled(|d|, k, doubled))
         == LuhnSum(d, doubled) + LuhnTerm(Digit(c), IsDoubled(|d|, k, doubled))
  {
    var u := d[k := c];
    var n := |d| - 1;
    if k == n {
      assert u[..n] == d[..n];
    } else {
      var v := d[..n];
      LuhnUpdate(v, k, c, !doubled);
      assert u[..n] == v[k := c];
      assert IsDoubled(|v|, k, !doubled) == IsDoubled(|d|, k, doubled);
    }
  }

  lemma DifferentTerms(x: nat, y: nat, doubled: bool)
    requires x <= 9 && y <= 9 && x != y
    ensures LuhnTerm(x, doubled) != LuhnTerm(y, doubled)
    ensures LuhnTerm(x, doubled) <= 9 && LuhnTerm(y, doubled) <= 9
  {
  }

  lemma DifferentResidues(s: nat, s': nat, x: nat, y: nat)
    requires s % 10 == 0 && s' + x == s + y && x <= 9 && y <= 9 && x != y
    ensures s' % 10 != 0
  {
  }

  lemma LuhnDigitChanged(d: string, k: nat, c: char)
    requires IsLuhn(d) && k < |d| && IsDigit(c) && c != d[k]
    ensures !IsLuhn(d[k := c])
  {
    LuhnUpdate(d, k, c, false);
    var b := IsDoubled(|d|, k, false);
    DifferentTerms(Digit(d[k]), Digit(c), b);
    DifferentResidues(LuhnSum(d, false), LuhnSum(d[k := c], false), LuhnTerm(Digit(d[k]), b), LuhnTerm(Digit(c), b));
  }

  /** Changing one digit of an accepted card number makes it rejected. */
  lemma LuhnDetectsOneDigit(value: string, i: nat, c: char)
    requires LuhnAccepts(value) && i < |value| && IsDigit(value[i]) && IsDigit(c) && c != value[i]
    ensures !LuhnAccepts(value[i := c])
  {
    DigitsStay(value[i]);
    DigitsStay(c);
    var k := StripUpdate(value, i, c, IsSeparator);
    LuhnDigitChanged(Strip(value, IsSeparator), k, c);
  }

  lemma {:induction false} LuhnSwap(d: string, k: nat, doubled: bool)
    requires AllDigits(d) && k + 1 < |d|
    ensures AllDigits(Swap(d, k, k + 1))
    ensures var x, y, b := Digit(d[k]), Digit(d[k + 1]), IsDoubled(|d|, k, doubled); (
              LuhnSum(Swap(d, k, k + 1), doubled) + LuhnTerm(x, b) + LuhnTerm(y, !b)
              == LuhnSum(d, doubled) + LuhnTerm(y, b) + LuhnTerm(x, !b))
  {
    var u := d[k := d[k + 1]];
    assert AllDigits(u) && |u| == |d| && Swap(d, k, k + 1) == u[k + 1 := d[k]];
    LuhnUpdate(d, k, d[k + 1], doubled);
    LuhnUpdate(u, k + 1, d[k], doubled);
    assert IsDoubled(|d|, k + 1, doubled) != IsDoubled(|d|, k, doubled);
  }

  /**
   * Exchanging two digits with nothing but separators between them: an accepted number stays accepted
   * exactly when the digits are equal or one is 0 and the other 9.
   */
  lemma LuhnDetectsTransposition(value: string, i: nat, j: nat)
    requires LuhnAccepts(value) && i < j < |value| && IsDigit(value[i]) && IsDigit(value[j])
    requires forall k :: i < k < j ==> IsSeparator(value[k])
    ensures LuhnAccepts(Swap(value, i, j)) <==> value[i] == value[j] || {value[i], value[j]} == {'0', '9'}
  {
    var d := Strip(value, IsSeparator);
    DigitsStay(value[i]);
    DigitsStay(value[j]);
    var k, m := StripSwap(value, i, j, IsSeparator);
    LuhnSwap(d, k, false);
    SwappedResidue(LuhnSum(d, false), LuhnSum(Swap(d, k, k + 1), false), Digit(value[i]), Digit(value[j]),
                   IsDoubled(|d|, k, false));
    ZeroAndNine(value[i], value[j]);
  }

  lemma ZeroAndNine(a: char, b: char)
    ensures {a, b} == {'0', '9'} <==> (a == '0' && b == '9') || (a == '9' && b == '0')
  {
    if {a, b} == {'0', '9'} {
      assert a in {'0', '9'} && b in {'0', '9'} && '0' in {a, b} && '9' in {a, b};
    }
  }

  /** A multiple of ten stays one when two digits trade places exactly if they are equal or 0 and 9. */
  lemma SwappedResidue(s: nat, s': nat, x: nat, y: nat, b: bool)
    requires x <= 9 && y <= 9 && s % 10 == 0
    requires s' + LuhnTerm(x, b) + LuhnTerm(y, !b) == s + LuhnTerm(y, b) + LuhnTerm(x, !b)
    ensures s' % 10 == 0 <==> x == y || (x == 0 && y == 9) || (x == 9 && y == 0)
  {
    var gap := LuhnTerm(y, b) + LuhnTerm(x, !b) - LuhnTerm(x, b) - LuhnTerm(y, !b);
    assert s' == s + gap && -10 < gap < 10;
    assert gap == 0 <==> x == y || (x == 0 && y == 9) || (x == 9 && y == 0);
  }

  // ---- BSN -------------------------------------------------------------------------------------

  const WEIGHTS: seq<int> := [9, 8, 7, 6, 5, 4, 3, 2, -1]

  function Values(d: string): (v: seq<int>)
    requires AllDigits(d)
    ensures |v| == |d|
  {
    seq(|d|, i requires 0 <= i < |d| => Digit(d[i]))
  }

  function Dot(v: seq<int>, w: seq<int>): int
    requires |v| <= |w|
  {
    if v == [] then 0 else Dot(v[..|v| - 1], w) + v[|v| - 1] * w[|v| - 1]
  }

  predicate BsnAccepts(value: string) {
    IsBsn(Strip(value, IsSpace))
  }

  predicate IsBsn(d: string) {
    |d| == 9 && AllDigits(d) && Dot(Values(d), WEIGHTS) % 11 == 0 && Dot(Values(d), WEIGHTS) > 0
  }

  /** The loop of the BSN pattern's validator. */
  method BsnCheck(value: string) returns (ok: bool)
    ensures ok == BsnAccepts(value)
  {
    var d := Strip(value, IsSpace);
    if |d| != 9 || !AllDigits(d) { return false; }
    ghost var v := Values(d);
    var s := 0;
    for i := 0 to 9
      invariant s == Dot(v[..i], WEIGHTS)
    {
      assert v[..i + 1][..i] == v[..i];
      s := s + Digit(d[i]) * WEIGHTS[i];
    }
    assert v[..9] == v;
    ok := s % 11 == 0 && s > 0;
  }

  /** The value of the digit at `k`. */
  function At(d: string, k: nat): int
    requires k < |d|
  {
    d[k] as int - '0' as int
  }

  /** What is accepted: nine digits whose sum, weighed with 9 down to 2, less the last, is a positive multiple of 11. */
  lemma {:induction false} BsnByPlace(value: string)
    ensures var d := Strip(value, IsSpace);
            BsnAccepts(value) <==>
              && |d| == 9 && AllDigits(d)
              && var s := 9 * At(d, 0) + 8 * At(d, 1) + 7 * At(d, 2) + 6 * At(d, 3) + 5 * At(d, 4) + 4 * At(d, 5)
                          + 3 * At(d, 6) + 2 * At(d, 7) - At(d, 8);
                 s > 0 && s % 11 == 0
  {
    var d := Strip(value, IsSpace);
    if |d| == 9 && AllDigits(d) { NineTerms(Values(d)); }
  }

  lemma {:induction false} DotStep(v: seq<int>, w: seq<int>, n: nat)
    requires 0 < n <= |v| <= |w|
    ensures Dot(v[..n], w) == Dot(v[..n - 1], w) + v[n - 1] * w[n - 1]
  {
    assert v[..n][..n - 1] == v[..n - 1];
  }

  lemma {:induction false} NineTerms(v: seq<int>)
    requires |v| == 9
    ensures Dot(v, WEIGHTS)
            == 9 * v[0] + 8 * v[1] + 7 * v[2] + 6 * v[3] + 5 * v[4] + 4 * v[5] + 3 * v[6] + 2 * v[7] - v[8]
  {
    assert Dot(v[..0], WEIGHTS) == 0;
    DotStep(v, WEIGHTS, 1);
    DotStep(v, WEIGHTS, 2);
    DotStep(v, WEIGHTS, 3);
    DotStep(v, WEIGHTS, 4);
    DotStep(v, WEIGHTS, 5);
    DotStep(v, WEIGHTS, 6);
    DotStep(v, WEIGHTS, 7);
    DotStep(v, WEIGHTS, 8);
    DotStep(v, WEIGHTS, 9);
    assert v[..9] == v;
  }

  lemma {:induction false} DotUpdate(v: seq<int>, w: seq<int>, k: nat, x: int)
    requires k < |v| <= |w|
    ensures Dot(v[k := x], w) == Dot(v, w) + (x - v[k]) * w[k]
  {
    var u, n := v[k := x], |v| - 1;
    if k == n {
      assert u[..n] == v[..n];
      Distribute(x, v[k], w[k]);
    } else {
      DotUpdate(v[..n], w, k, x);
      assert u[..n] == v[..n][k := x];
    }
  }

  lemma Distribute(a: int, b: int, w: int)
    ensures (a - b) * w == a * w - b * w
  {
  }

  lemma DotSwap(v: seq<int>, w: seq<int>, k: nat, m: nat)
    requires k < m < |v| <= |w|
    ensures Dot(v[k := v[m]][m := v[k]], w) == Dot(v, w) + (v[m] - v[k]) * (w[k] - w[m])
  {
    DotUpdate(v, w, k, v[m]);
    DotUpdate(v[k := v[m]], w, m, v[k]);
    Distribute(w[k], w[m], v[m] - v[k]);
    Distribute(v[k], v[m], w[m]);
    Distribute(v[m], v[k], w[m]);
  }

  /** Eleven is prime, and neither factor is a multiple of it. */
  lemma NoMultipleOf11(a: int, b: int)
    requires -10 <= a <= 10 && -10 <= b <= 10 && a != 0 && b != 0
    ensures a * b % 11 != 0
  {
    var n := if b < 0 then -b else b;
    SmallMultiples(a, n);
    assert a * b == a * n || a * b == -(a * n);
  }

  lemma SmallMultiples(a: int, n: nat)
    requires -10 <= a <= 10 && a != 0 && 1 <= n <= 10
    ensures a * n % 11 != 0
  {
    if n == 1 {} else if n == 2 {} else if n == 3 {} else if n == 4 {} else if n == 5 {}
    else if n == 6 {} else if n == 7 {} else if n == 8 {} else if n == 9 {} else {}
  }

  lemma NoLongerMultiple(s: int, a: int, b: int)
    requires s % 11 == 0 && -10 <= a <= 10 && -10 <= b <= 10 && a != 0 && b != 0
    ensures (s + a * b) % 11 != 0
  {
    NoMultipleOf11(a, b);
    SumResidue(s, a * b);
  }

  lemma SumResidue(s: int, x: int)
    requires s % 11 == 0 && x % 11 != 0
    ensures (s + x) % 11 != 0
  {
  }

  lemma ValuesUpdate(d: string, k: nat, c: char)
    requires AllDigits(d) && k < |d| && IsDigit(c)
    ensures Values(d[k := c]) == Values(d)[k := Digit(c)]
  {
  }

  lemma BsnDigitChanged(d: string, k: nat, c: char)
    requires IsBsn(d) && k < |d| && IsDigit(c) && c != d[k]
    ensures !IsBsn(d[k := c])
  {
    ValuesUpdate(d, k, c);
    DotUpdate(Values(d), WEIGHTS, k, Digit(c));
    NoLongerMultiple(Dot(Values(d), WEIGHTS), Digit(c) - Digit(d[k]), WEIGHTS[k]);
  }

  /** Changing one digit of an accepted BSN makes it rejected. */
  lemma BsnDetectsOneDigit(value: string, i: nat, c: char)
    requires BsnAccepts(value) && i < |value| && IsDigit(value[i]) && IsDigit(c) && c != value[i]
    ensures !BsnAccepts(value[i := c])
  {
    DigitsStay(value[i]);
    DigitsStay(c);
    var k := StripUpdate(value, i, c, IsSpace);
    BsnDigitChanged(Strip(value, IsSpace), k, c);
  }

  lemma BsnDigitsSwapped(d: string, k: nat, m: nat)
    requires IsBsn(d) && k < m < |d| && d[k] != d[m]
    ensures !IsBsn(Swap(d, k, m))
  {
    ValuesUpdate(d, k, d[m]);
    ValuesUpdate(d[k := d[m]], m, d[k]);
    DotSwap(Values(d), WEIGHTS, k, m);
    NoLongerMultiple(Dot(Values(d), WEIGHTS), Digit(d[m]) - Digit(d[k]), WEIGHTS[k] - WEIGHTS[m]);
  }

  /** Exchanging any two unequal digits of an accepted BSN makes it rejected. */
  lemma BsnDetectsTransposition(value: string, i: nat, j: nat)
    requires BsnAccepts(value) && i < j < |value| && IsDigit(value[i]) && IsDigit(value[j]) && value[i] != value[j]
    ensures !BsnAccepts(Swap(value, i, j))
  {
    DigitsStay(value[i]);
    DigitsStay(value[j]);
    var k, m := StripSwap(value, i, j, IsSpace);
    BsnDigitsSwapped(Strip(value, IsSpace), k, m);
  }
}
