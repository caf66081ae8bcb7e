/** Tokens `[TYPE_n]`: they are distinct, and no match of a detector touches one with a small number. */
module Tokens {
  import opened Text
  import opened Decimal
  import opened Regex
  import opened PiiPatterns

  function Token(entity: TypeName, n: nat): string {
    "[" + entity + "_" + Dec(n) + "]"
  }

  ghost predicate IsToken(s: string) {
    exists entity: TypeName, n: nat :: s == Token(entity, n)
  }

  /** Fewer than ten digits in the number. */
  const LIMIT := 1_000_000_000

  ghost predicate IsSmallToken(s: string) {
    exists entity: TypeName, n: nat :: n < LIMIT && s == Token(entity, n)
  }

  // ---- Shape -------------------------------------------------------------------------------------

  /** An opening bracket, no bracket, a closing bracket. */
  predicate Bracketed(s: string) {
    |s| >= 2 && s[0] == '[' && s[|s| - 1] == ']' && forall k :: 0 < k < |s| - 1 ==> s[k] != '[' && s[k] != ']'
  }

  lemma TokenShape(entity: TypeName, n: nat)
    ensures var s := Token(entity, n); Bracketed(s) && forall k :: 0 < k < |s| - 1 ==> !IsForeign(s[k])
  {
    var s, d := Token(entity, n), Dec(n);
    forall k | 0 < k < |s| - 1 ensures !IsForeign(s[k]) {
      if k <= |entity| { assert s[k] == entity[k - 1]; }
      else if k > |entity| + 1 { assert s[k] == d[k - |entity| - 2]; }
    }
  }

  // ---- Distinctness ------------------------------------------------------------------------------

  lemma {:induction false} DigitsBehind(entity: TypeName, n: nat)
    ensures var s, x := Token(entity, n), Dec(n);
            |s| >= |x| + 2 && s[|s| - 2 - |x|] == '_' && forall k :: |s| - 1 - |x| <= k < |s| - 1 ==> s[k] != '_'
  {
    var s, x := Token(entity, n), Dec(n);
    forall k | |s| - 1 - |x| <= k < |s| - 1 ensures s[k] != '_' { assert s[k] == x[k - (|s| - 1 - |x|)]; }
  }

  /** Different types or different numbers give different tokens. */
  lemma TokenIsInjective(e: TypeName, m: nat, f: TypeName, n: nat)
    requires Token(e, m) == Token(f, n)
    ensures e == f && m == n
  {
    var s := Token(e, m);
    var x, y := Dec(m), Dec(n);
    DigitsBehind(e, m);
    DigitsBehind(f, n);
    assert |x| == |y|;
    assert x == s[|s| - 1 - |x|..|s| - 1] == y;
    assert e == s[1..|s| - 2 - |x|] == f;
    DecIsInjective(m, n);
  }

  // ---- Digits of a token -------------------------------------------------------------------------

  lemma {:induction false} NoDigits(s: string)
    requires forall k :: 0 <= k < |s| ==> !IsDigit(s[k])
    ensures Count(s, IsDigit) == 0
  {
    if s != [] { NoDigits(s[1..]); }
  }

  lemma {:induction false} CountIsAtMostLength(s: string)
    ensures Count(s, IsDigit) <= |s|
  {
    if s != [] { CountIsAtMostLength(s[1..]); }
  }

  lemma SmallTokenDigits(entity: TypeName, n: nat)
    requires n < LIMIT
    ensures Count(Token(entity, n), IsDigit) < 10
  {
    var head := "[" + entity + "_";
    assert Token(entity, n) == head + Dec(n) + "]";
    CountConcat(head + Dec(n), "]", IsDigit);
    CountConcat(head, Dec(n), IsDigit);
    NoDigits(head);
    NoDigits("]");
    CountIsAtMostLength(Dec(n));
    assert Pow10(9) == LIMIT;
    DecLength(n, 9);
  }

  lemma {:induction false} CountOfPart(s: string, x: nat, y: nat)
    requires x <= y <= |s|
    ensures Count(s[x..y], IsDigit) <= Count(s, IsDigit)
  {
    CountConcat(s[..x], s[x..y], IsDigit);
    assert s[..x] + s[x..y] == s[..y];
    CountConcat(s[..y], s[y..], IsDigit);
    assert s[..y] + s[y..] == s;
  }

  // ---- Detectors and tokens ----------------------------------------------------------------------

  predicate OccursAt(t: string, a: int, s: string) {
    0 <= a && a + |s| <= |t| && t[a..a + |s|] == s
  }

  lemma SliceFree(t: string, i: nat, e: nat)
    requires i <= e <= |t| && DelimiterFree(t[i..e])
    ensures forall k :: i <= k < e ==> !IsDelimiter(t[k])
  {
    forall k | i <= k < e ensures !IsDelimiter(t[k]) { assert t[i..e][k - i] == t[k]; }
  }

  /** A match that overlaps an occurrence of a token lies between its brackets. */
  lemma MatchIsInside(t: string, a: nat, s: string, i: nat, e: nat)
    requires Bracketed(s) && OccursAt(t, a, s) && i < e <= |t| && DelimiterFree(t[i..e])
    ensures e <= a || a + |s| <= i || a < i < e < a + |s|
  {
    assert t[a] == s[0] && t[a + |s| - 1] == s[|s| - 1];
    SliceFree(t, i, e);
  }

  /** Between the brackets, the only word boundaries are next to the brackets. */
  lemma WholeWordIsAll(t: string, a: nat, s: string, i: nat, e: nat)
    requires Bracketed(s) && OccursAt(t, a, s) && forall k :: 0 < k < |s| - 1 ==> !IsForeign(s[k])
    requires a < i < e < a + |s| && IsBoundary(t, i) && IsBoundary(t, e)
    ensures i == a + 1 && e == a + |s| - 1
  {
    forall k | a < k < a + |s| - 1 ensures IsWord(t[k]) { assert t[k] == s[k - a]; }
    assert t[a] == '[' && t[a + |s| - 1] == ']' by { assert t[a..a + |s|][|s| - 1] == t[a + |s| - 1]; }
  }

  lemma PartOfOccurrence(t: string, a: nat, s: string, i: nat, e: nat)
    requires OccursAt(t, a, s) && a <= i <= e <= a + |s|
    ensures t[i..e] == s[i - a..e - a]
  {
    forall k | i <= k < e ensures t[k] == s[k - a] { assert t[a..a + |s|][k - a] == t[k]; }
  }

  lemma MatchIsTooShort(entity: TypeName, n: nat, x: nat, y: nat)
    requires n < LIMIT && 0 < x <= y < |Token(entity, n)|
    ensures var m := Token(entity, n)[x..y]; !HasForeign(m) && Count(m, IsDigit) < 10
  {
    var s := Token(entity, n);
    TokenShape(entity, n);
    SmallTokenDigits(entity, n);
    CountOfPart(s, x, y);
  }

  /** Not even between the brackets. */
  lemma NoMatchInside(entity: TypeName, n: nat, t: string, a: nat, i: nat, e: nat)
    requires n < LIMIT && OccursAt(t, a, Token(entity, n)) && a < i < e < a + |Token(entity, n)|
    ensures !SafeMatch(t, i, e)
  {
    var s := Token(entity, n);
    PartOfOccurrence(t, a, s, i, e);
    MatchIsTooShort(entity, n, i - a, e - a);
    TokenShape(entity, n);
    assert s[1..|s| - 1] == entity + ("_" + Dec(n));
    assert s[1..|s| - 1][|entity|] == '_';
    if SafeMatch(t, i, e) {
      assert WholeWord(t, i, e);
      WholeWordIsAll(t, a, s, i, e);
    }
  }

  /** No match of a detector touches a token with a small number. */
  lemma MatchesMissTokens(t: string, a: nat, s: string, i: nat, e: nat)
    requires IsSmallToken(s) && OccursAt(t, a, s) && SafeMatch(t, i, e)
    ensures e <= a || a + |s| <= i
  {
    var entity: TypeName, n: nat :| n < LIMIT && s == Token(entity, n);
    TokenShape(entity, n);
    MatchIsInside(t, a, s, i, e);
    if a < i < e < a + |s| { NoMatchInside(entity, n, t, a, i, e); }
  }

  const D4 := Cat(Digits(4), Bound)

  const D7 := Cat(Digits(3), Cat(Sep(PHONE_SEP), D4))

  lemma {:induction false} SevenDigitsMatch(t: string, i: nat)
    requires i + 7 <= |t| && IsBoundary(t, i + 7) && forall k :: i <= k < i + 7 ==> IsDigit(t[k])
    ensures i + 7 in Ends(D7, t, i)
  {
    RunThen(DigitFrom('0'), 4, Bound, t, i + 3, i + 7);
    SkipThen(Set(PHONE_SEP), D4, t, i + 3, i + 7);
    RunThen(DigitFrom('0'), 3, Cat(Sep(PHONE_SEP), D4), t, i, i + 7);
  }

  /** `US_PHONE_RE` matches any ten digits that end at a word boundary. */
  lemma {:induction false} TenDigitsMatch(t: string, i: nat)
    requires i + 10 <= |t| && IsBoundary(t, i + 10) && forall k :: i <= k < i + 10 ==> IsDigit(t[k])
    ensures i + 10 in Ends(US_PHONE_RE, t, i)
  {
    var afterArea := Cat(Opt(Lit(')')), Cat(Sep(PHONE_SEP), D7));
    assert i + 10 in Ends(afterArea, t, i + 3) by {
      SevenDigitsMatch(t, i + 3);
      SkipThen(Set(PHONE_SEP), D7, t, i + 3, i + 10);
      SkipThen(Lit(')'), Cat(Sep(PHONE_SEP), D7), t, i + 3, i + 10);
    }
    var number := Cat(Opt(Lit('(')), Cat(Digits(3), afterArea));
    assert i + 10 in Ends(number, t, i) by {
      RunThen(DigitFrom('0'), 3, afterArea, t, i, i + 10);
      SkipThen(Lit('('), Cat(Digits(3), afterArea), t, i, i + 10);
    }
    SkipThen(Cat(Opt(Lit('+')), Cat(Lit('1'), Sep(PHONE_SEP))), number, t, i, i + 10);
  }

  /**
   * The telephone expression, which needs no word boundary in front, matches between the brackets of a
   * token exactly when the number has ten digits or more.
   */
  lemma PhoneTouchesBigTokens(entity: TypeName, n: nat)
    ensures n >= LIMIT <==> exists i, e :: 0 < i < e < |Token(entity, n)| && e in Ends(US_PHONE_RE, Token(entity, n), i)
  {
    var s, d := Token(entity, n), Dec(n);
    if n >= LIMIT {
      assert Pow10(9) == LIMIT;
      DecIsLong(n, 9);
      var i := |s| - 11;
      forall k | i <= k < i + 10 ensures IsDigit(s[k]) { assert s[k] == d[k - |entity| - 2]; }
      TenDigitsMatch(s, i);
    } else if exists i, e :: 0 < i < e < |s| && e in Ends(US_PHONE_RE, s, i) {
      var i, e :| 0 < i < e < |s| && e in Ends(US_PHONE_RE, s, i);
      UsPhoneIsSafe();
      assert SafeMatch(s, i, e);
      assert IsSmallToken(s) && OccursAt(s, 0, s);
      MatchesMissTokens(s, 0, s, i, e);
    }
  }
}
