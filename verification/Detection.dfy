/** What the scrubber is sure to find: documents of a fixed shape, exactly, and every e-mail address. */
module Detection {
  import opened Text
  import opened Regex
  import opened PiiPatterns
  import Checksums
  import Spans
  import Scrubbing

  /** A class for each character. */
  type Shape = seq<Cls>

  ghost predicate Fits(shape: Shape, t: string, i: nat) {
    i + |shape| <= |t| && forall k :: 0 <= k < |shape| ==> In(shape[k], t[i + k])
  }

  ghost function FitEnds(shape: Shape, t: string, i: nat): seq<nat> {
    if Fits(shape, t, i) then [i + |shape|] else []
  }

  ghost predicate SpellsAt(re: Re, shape: Shape, t: string, i: nat) {
    i <= |t| ==> Ends(re, t, i) == FitEnds(shape, t, i)
  }

  /** The expression matches what fits the shape, and nothing else. */
  ghost predicate Spells(re: Re, shape: Shape) {
    forall t: string, i: nat :: SpellsAt(re, shape, t, i)
  }

  function Copies(shape: Shape, n: nat): (r: Shape) {
    if n == 0 then [] else shape + Copies(shape, n - 1)
  }

  function Run(cls: Cls, n: nat): Shape {
    Copies([cls], n)
  }

  lemma FitsBoth(a: Shape, b: Shape, t: string, i: nat)
    ensures Fits(a + b, t, i) <==> Fits(a, t, i) && Fits(b, t, i + |a|)
  {
    if Fits(a + b, t, i) {
      forall k | 0 <= k < |a| ensures In(a[k], t[i + k]) { assert (a + b)[k] == a[k]; }
      forall k | 0 <= k < |b| ensures In(b[k], t[i + |a| + k]) { assert (a + b)[|a| + k] == b[k]; }
    }
  }

  lemma {:induction false} CatOne(a: Re, b: Re, t: string, i: nat, m: nat)
    requires i <= m <= |t| && Ends(a, t, i) == [m]
    ensures Ends(Cat(a, b), t, i) == Ends(b, t, m)
  {
    var starts := Ends(a, t, i);
    assert starts[1..] == [];
    assert EndsFrom(b, t, i, starts) == Ends(b, t, m) + EndsFrom(b, t, i, starts[1..]);
    assert Ends(Cat(a, b), t, i) == EndsFrom(b, t, i, starts);
  }

  lemma {:induction false} CatNone(a: Re, b: Re, t: string, i: nat)
    requires i <= |t| && Ends(a, t, i) == []
    ensures Ends(Cat(a, b), t, i) == []
  {
    var starts := Ends(a, t, i);
    assert Ends(Cat(a, b), t, i) == EndsFrom(b, t, i, starts);
    assert EndsFrom(b, t, i, starts) == [];
  }

  lemma {:induction false} BoundEnds(t: string, i: nat)
    requires i <= |t|
    ensures Ends(Bound, t, i) == if IsBoundary(t, i) then [i] else []
  {
  }

  lemma SetSpells(cls: Cls)
    ensures Spells(Set(cls), [cls])
  {
    forall t: string, i: nat | i <= |t| ensures Ends(Set(cls), t, i) == FitEnds([cls], t, i) {
      if Fits([cls], t, i) { assert In([cls][0], t[i + 0]); }
    }
  }

  lemma CatSpellsAt(a: Re, b: Re, x: Shape, y: Shape, t: string, i: nat)
    requires SpellsAt(a, x, t, i) && SpellsAt(b, y, t, i + |x|)
    ensures SpellsAt(Cat(a, b), x + y, t, i)
  {
    FirstPart(x, y, t, i);
    if i <= |t| {
      if Fits(x, t, i) {
        CatOne(a, b, t, i, i + |x|);
      } else {
        CatNone(a, b, t, i);
      }
    }
  }

  lemma CatSpells(a: Re, b: Re, x: Shape, y: Shape)
    requires Spells(a, x) && Spells(b, y)
    ensures Spells(Cat(a, b), x + y)
  {
    forall t: string, i: nat ensures SpellsAt(Cat(a, b), x + y, t, i) {
      assert SpellsAt(a, x, t, i) && SpellsAt(b, y, t, i + |x|);
      CatSpellsAt(a, b, x, y, t, i);
    }
  }

  lemma {:induction false} RepSpells(re: Re, shape: Shape, n: nat)
    requires Spells(re, shape)
    ensures Spells(Rep(re, n, n), Copies(shape, n))
  {
    forall t: string, i: nat ensures SpellsAt(Rep(re, n, n), Copies(shape, n), t, i) {
      if i <= |t| {
        Rounds(re, shape, n, t, i);
        assert Ends(Rep(re, n, n), t, i) == Greedy(re, n, n, t, i);
      }
    }
  }

  lemma RoundHits(re: Re, n: nat, t: string, i: nat, m: nat)
    requires n > 0 && i <= m <= |t| && Ends(re, t, i) == [m]
    ensures Greedy(re, n, n, t, i) == Greedy(re, n - 1, n - 1, t, m)
  {
    assert [m][1..] == [];
    assert GreedyFrom(re, n, n, t, i, [m]) == Greedy(re, n - 1, n - 1, t, m) + GreedyFrom(re, n, n, t, i, [m][1..]);
  }

  lemma {:induction false} RoundFails(re: Re, n: nat, t: string, i: nat)
    requires n > 0 && i <= |t| && Ends(re, t, i) == []
    ensures Greedy(re, n, n, t, i) == []
  {
  }

  lemma FirstPart(shape: Shape, rest: Shape, t: string, i: nat)
    ensures FitEnds(shape + rest, t, i) == if Fits(shape, t, i) then FitEnds(rest, t, i + |shape|) else []
  {
    FitsBoth(shape, rest, t, i);
  }

  lemma {:induction false} NoRounds(re: Re, shape: Shape, t: string, i: nat)
    requires i <= |t|
    ensures Greedy(re, 0, 0, t, i) == [i] == FitEnds(Copies(shape, 0), t, i)
  {
    assert Copies(shape, 0) == [] && Fits([], t, i);
  }

  lemma NextRound(re: Re, shape: Shape, rest: Shape, n: nat, t: string, i: nat)
    requires n > 0 && i <= |t| && SpellsAt(re, shape, t, i)
    requires i + |shape| <= |t| ==> Greedy(re, n - 1, n - 1, t, i + |shape|) == FitEnds(rest, t, i + |shape|)
    ensures Greedy(re, n, n, t, i) == FitEnds(shape + rest, t, i)
  {
    FirstPart(shape, rest, t, i);
    if Fits(shape, t, i) {
      RoundHits(re, n, t, i, i + |shape|);
    } else {
      RoundFails(re, n, t, i);
    }
  }

  ghost predicate RoundsSpellAt(re: Re, shape: Shape, n: nat, t: string, i: nat) {
    i <= |t| ==> Greedy(re, n, n, t, i) == FitEnds(Copies(shape, n), t, i)
  }

  lemma {:induction false} OneMoreRound(re: Re, shape: Shape, n: nat, t: string, i: nat)
    requires n > 0 && SpellsAt(re, shape, t, i) && RoundsSpellAt(re, shape, n - 1, t, i + |shape|)
    ensures RoundsSpellAt(re, shape, n, t, i)
  {
    if i <= |t| { NextRound(re, shape, Copies(shape, n - 1), n, t, i); }
  }

  lemma {:induction false} Rounds(re: Re, shape: Shape, n: nat, t: string, i: nat)
    requires Spells(re, shape)
    ensures RoundsSpellAt(re, shape, n, t, i)
    decreases n
  {
    if n == 0 {
      if i <= |t| { NoRounds(re, shape, t, i); }
    } else {
      Rounds(re, shape, n - 1, t, i + |shape|);
      assert SpellsAt(re, shape, t, i);
      OneMoreRound(re, shape, n, t, i);
    }
  }

  /** What fits the shape and has a word boundary at both ends. */
  ghost predicate Whole(shape: Shape, t: string, i: nat) {
    Fits(shape, t, i) && IsBoundary(t, i) && IsBoundary(t, i + |shape|)
  }

  lemma {:induction false} InnerSpells(re: Re, shape: Shape, t: string, i: nat)
    requires SpellsAt(re, shape, t, i) && i <= |t|
    ensures Ends(Cat(re, Bound), t, i)
         == if Fits(shape, t, i) && IsBoundary(t, i + |shape|) then [i + |shape|] else []
  {
    if Fits(shape, t, i) {
      CatOne(re, Bound, t, i, i + |shape|);
      BoundEnds(t, i + |shape|);
    } else {
      CatNone(re, Bound, t, i);
    }
  }

  lemma {:induction false} WordSpells(re: Re, shape: Shape, t: string, i: nat)
    requires SpellsAt(re, shape, t, i) && i <= |t|
    ensures Ends(Word(re), t, i) == if Whole(shape, t, i) then [i + |shape|] else []
  {
    InnerSpells(re, shape, t, i);
    BoundEnds(t, i);
    if IsBoundary(t, i) {
      CatOne(Bound, Cat(re, Bound), t, i, i);
    } else {
      CatNone(Bound, Cat(re, Bound), t, i);
    }
  }

  lemma {:induction false} OneFits(cls: Cls, t: string, i: nat)
    ensures Fits([cls], t, i) <==> i < |t| && In(cls, t[i])
  {
    if Fits([cls], t, i) { assert In([cls][0], t[i + 0]); }
  }

  lemma {:induction false} RunFits(cls: Cls, n: nat, t: string, i: nat)
    ensures |Run(cls, n)| == n && (Fits(Run(cls, n), t, i) <==> AllIn(cls, t, i, i + n))
  {
    if n > 0 {
      RunFits(cls, n - 1, t, i + 1);
      FitsBoth([cls], Run(cls, n - 1), t, i);
      OneFits(cls, t, i);
      assert AllIn(cls, t, i, i + n) <==> i < |t| && In(cls, t[i]) && AllIn(cls, t, i + 1, i + n);
    }
  }

  // ---- Whole matches are hits --------------------------------------------------------------------

  /** No other match overlaps the one at `i` from the left. */
  ghost predicate Alone(shape: Shape, t: string, i: nat) {
    forall j: nat :: j < i < j + |shape| ==> !Whole(shape, t, j)
  }

  ghost predicate WordShape(shape: Shape) {
    forall k, c :: 0 <= k < |shape| && In(shape[k], c) ==> IsWord(c)
  }

  lemma NoBoundaryInside(shape: Shape, t: string, j: nat, i: nat)
    requires WordShape(shape) && Fits(shape, t, j) && j < i < j + |shape|
    ensures !IsBoundary(t, i)
  {
    assert In(shape[i - j], t[j + (i - j)]) && In(shape[i - 1 - j], t[j + (i - 1 - j)]);
  }

  lemma WordsAreAlone(shape: Shape, t: string, i: nat)
    requires WordShape(shape) && Whole(shape, t, i)
    ensures Alone(shape, t, i)
  {
    forall j: nat | j < i < j + |shape| ensures !Whole(shape, t, j) {
      if Fits(shape, t, j) { NoBoundaryInside(shape, t, j, i); }
    }
  }

  /** `p` matches what is whole, and nothing else. */
  ghost predicate Reads(p: PatternDef, shape: Shape) {
    forall t: string, i: nat, e: nat :: Preferred(p.re, t, i, e) <==> Whole(shape, t, i) && e == i + |shape|
  }

  lemma WordReads(p: PatternDef, re: Re, shape: Shape)
    requires p.re == Word(re) && Spells(re, shape)
    ensures Reads(p, shape)
  {
    forall t: string, i: nat, e: nat
      ensures Preferred(p.re, t, i, e) <==> Whole(shape, t, i) && e == i + |shape|
    {
      if i <= |t| {
        assert SpellsAt(re, shape, t, i);
        WordSpells(re, shape, t, i);
      }
    }
  }

  /** A whole match that overlaps none before it is a hit as it stands: if valid, what is kept covers its start. */
  lemma {:induction false} WholeIsKept(table: seq<PatternDef>, p: PatternDef, shape: Shape, t: string, i: nat)
    requires SafeExpressions(table) && p in table && Reads(p, shape)
    requires Whole(shape, t, i) && Alone(shape, t, i) && Valid(p, t[i..i + |shape|])
    ensures Spans.Kept(Spans.Select(Candidates(table, t)), i, i + |shape|)
  {
    assert Preferred(p.re, t, i, i + |shape|);
    var start, end := Spans.PositionIsKept(table, p, t, i);
    assert Whole(shape, t, start) && end == start + |shape|;
    assert start == i;
  }

  // ---- The shapes of the tables ------------------------------------------------------------------

  const DIGIT := DigitFrom('0')
  const UPPER_DIGIT := Or(Upper, DIGIT)

  function SsnShape(): Shape {
    Run(DIGIT, 3) + ([Ch('-')] + (Run(DIGIT, 2) + ([Ch('-')] + Run(DIGIT, 4))))
  }

  function PanShape(): Shape {
    Run(Upper, 5) + (Run(DIGIT, 4) + [Upper])
  }

  function IfscShape(): Shape {
    Run(Upper, 4) + ([Ch('0')] + Run(UPPER_DIGIT, 6))
  }

  function SteuerShape(): Shape {
    [DigitFrom('1')] + Run(DIGIT, 10)
  }

  function PassportShape(): Shape {
    [Upper] + Run(DIGIT, 7)
  }

  lemma RunSpells(cls: Cls, n: nat)
    ensures Spells(Rep(Set(cls), n, n), Run(cls, n))
  {
    SetSpells(cls);
    RepSpells(Set(cls), [cls], n);
  }

  lemma DigitsSpell(n: nat)
    ensures Spells(Digits(n), Run(DIGIT, n))
  {
    RunSpells(DIGIT, n);
  }

  lemma SsnSpells()
    ensures exists re :: SSN_RE == Word(re) && Spells(re, SsnShape())
  {
    DigitsSpell(2); DigitsSpell(3); DigitsSpell(4);
    SetSpells(Ch('-'));
    var serial := Cat(Lit('-'), Digits(4));
    var group := Cat(Digits(2), serial);
    CatSpells(Lit('-'), Digits(4), [Ch('-')], Run(DIGIT, 4));
    CatSpells(Digits(2), serial, Run(DIGIT, 2), [Ch('-')] + Run(DIGIT, 4));
    CatSpells(Lit('-'), group, [Ch('-')], Run(DIGIT, 2) + ([Ch('-')] + Run(DIGIT, 4)));
    CatSpells(Digits(3), Cat(Lit('-'), group), Run(DIGIT, 3),
        [Ch('-')] + (Run(DIGIT, 2) + ([Ch('-')] + Run(DIGIT, 4))));
    assert SSN_RE == Word(Cat(Digits(3), Cat(Lit('-'), group)));
  }

  lemma PanSpells()
    ensures Spells(PAN, PanShape())
  {
    RunSpells(Upper, 5);
    DigitsSpell(4);
    SetSpells(Upper);
    CatSpells(Digits(4), UPPER, Run(DIGIT, 4), [Upper]);
    CatSpells(Rep(UPPER, 5, 5), Cat(Digits(4), UPPER), Run(Upper, 5), Run(DIGIT, 4) + [Upper]);
  }

  lemma IfscSpells()
    ensures Spells(IFSC, IfscShape())
  {
    RunSpells(Upper, 4);
    RunSpells(UPPER_DIGIT, 6);
    SetSpells(Ch('0'));
    var branch := Rep(UPPER_OR_DIGIT, 6, 6);
    CatSpells(Lit('0'), branch, [Ch('0')], Run(UPPER_DIGIT, 6));
    CatSpells(Rep(UPPER, 4, 4), Cat(Lit('0'), branch), Run(Upper, 4), [Ch('0')] + Run(UPPER_DIGIT, 6));
  }

  lemma SteuerSpells()
    ensures Spells(STEUER, SteuerShape())
  {
    SetSpells(DigitFrom('1'));
    DigitsSpell(10);
    CatSpells(Set(DigitFrom('1')), Digits(10), [DigitFrom('1')], Run(DIGIT, 10));
  }

  lemma PassportSpells()
    ensures Spells(PASSPORT, PassportShape())
  {
    SetSpells(Upper);
    DigitsSpell(7);
    CatSpells(UPPER, Digits(7), [Upper], Run(DIGIT, 7));
  }

  // ---- In plain terms ----------------------------------------------------------------------------

  predicate DigitsIn(t: string, i: nat, e: nat) {
    e <= |t| && forall k :: i <= k < e ==> '0' <= t[k] <= '9'
  }

  predicate CapitalsIn(t: string, i: nat, e: nat) {
    e <= |t| && forall k :: i <= k < e ==> 'A' <= t[k] <= 'Z'
  }

  predicate CapitalsOrDigitsIn(t: string, i: nat, e: nat) {
    e <= |t| && forall k :: i <= k < e ==> 'A' <= t[k] <= 'Z' || '0' <= t[k] <= '9'
  }

  predicate CharAt(t: string, i: nat, c: char) {
    i < |t| && t[i] == c
  }

  /** Nothing of a word on one side only: `\b` at both ends. */
  predicate WordAt(t: string, i: nat, e: nat) {
    i <= e <= |t| && IsBoundary(t, i) && IsBoundary(t, e)
  }

  /** `123-45-6789` */
  predicate SsnAt(t: string, i: nat) {
    && DigitsIn(t, i, i + 3) && CharAt(t, i + 3, '-') && DigitsIn(t, i + 4, i + 6) && CharAt(t, i + 6, '-')
    && DigitsIn(t, i + 7, i + 11)
  }

  /** `ABCDE1234F` */
  predicate PanAt(t: string, i: nat) {
    CapitalsIn(t, i, i + 5) && DigitsIn(t, i + 5, i + 9) && CapitalsIn(t, i + 9, i + 10)
  }

  /** `ABCD0EF12GH` */
  predicate IfscAt(t: string, i: nat) {
    CapitalsIn(t, i, i + 4) && CharAt(t, i + 4, '0') && CapitalsOrDigitsIn(t, i + 5, i + 11)
  }

  /** Eleven digits, not led by a zero. */
  predicate SteuerAt(t: string, i: nat) {
    DigitsIn(t, i, i + 11) && t[i] != '0'
  }

  /** `A1234567` */
  predicate PassportAt(t: string, i: nat) {
    CapitalsIn(t, i, i + 1) && DigitsIn(t, i + 1, i + 8)
  }

  lemma DigitsFit(n: nat, t: string, i: nat)
    ensures |Run(DIGIT, n)| == n && (Fits(Run(DIGIT, n), t, i) <==> DigitsIn(t, i, i + n))
  {
    RunFits(DIGIT, n, t, i);
  }

  lemma CapitalsFit(n: nat, t: string, i: nat)
    ensures |Run(Upper, n)| == n && (Fits(Run(Upper, n), t, i) <==> CapitalsIn(t, i, i + n))
  {
    RunFits(Upper, n, t, i);
  }

  lemma CapitalFits(t: string, i: nat)
    ensures Fits([Upper], t, i) <==> CapitalsIn(t, i, i + 1)
  {
    OneFits(Upper, t, i);
  }

  lemma CapitalsOrDigitsFit(n: nat, t: string, i: nat)
    ensures |Run(UPPER_DIGIT, n)| == n && (Fits(Run(UPPER_DIGIT, n), t, i) <==> CapitalsOrDigitsIn(t, i, i + n))
  {
    RunFits(UPPER_DIGIT, n, t, i);
    forall c: char ensures In(UPPER_DIGIT, c) <==> 'A' <= c <= 'Z' || '0' <= c <= '9' {
      assert In(UPPER_DIGIT, c) <==> In(Upper, c) || In(DIGIT, c);
    }
  }

  lemma CharFits(c: Plain, t: string, i: nat)
    ensures Fits([Ch(c)], t, i) <==> CharAt(t, i, c)
  {
    OneFits(Ch(c), t, i);
  }

  lemma SsnFits(t: string, i: nat)
    ensures |SsnShape()| == 11 && (Fits(SsnShape(), t, i) <==> SsnAt(t, i))
  {
    DigitsFit(3, t, i);
    DigitsFit(2, t, i + 4);
    DigitsFit(4, t, i + 7);
    CharFits('-', t, i + 3);
    CharFits('-', t, i + 6);
    var serial := [Ch('-')] + Run(DIGIT, 4);
    var group := Run(DIGIT, 2) + serial;
    FitsBoth([Ch('-')], Run(DIGIT, 4), t, i + 6);
    FitsBoth(Run(DIGIT, 2), serial, t, i + 4);
    FitsBoth([Ch('-')], group, t, i + 3);
    FitsBoth(Run(DIGIT, 3), [Ch('-')] + group, t, i);
  }

  lemma PanFits(t: string, i: nat)
    ensures |PanShape()| == 10 && (Fits(PanShape(), t, i) <==> PanAt(t, i))
  {
    CapitalsFit(5, t, i);
    DigitsFit(4, t, i + 5);
    CapitalFits(t, i + 9);
    FitsBoth(Run(DIGIT, 4), [Upper], t, i + 5);
    FitsBoth(Run(Upper, 5), Run(DIGIT, 4) + [Upper], t, i);
  }

  lemma IfscFits(t: string, i: nat)
    ensures |IfscShape()| == 11 && (Fits(IfscShape(), t, i) <==> IfscAt(t, i))
  {
    CapitalsFit(4, t, i);
    CharFits('0', t, i + 4);
    CapitalsOrDigitsFit(6, t, i + 5);
    FitsBoth([Ch('0')], Run(UPPER_DIGIT, 6), t, i + 4);
    FitsBoth(Run(Upper, 4), [Ch('0')] + Run(UPPER_DIGIT, 6), t, i);
  }

  lemma SteuerFits(t: string, i: nat)
    ensures |SteuerShape()| == 11 && (Fits(SteuerShape(), t, i) <==> SteuerAt(t, i))
  {
    OneFits(DigitFrom('1'), t, i);
    DigitsFit(10, t, i + 1);
    assert DigitsIn(t, i, i + 11) <==> i < |t| && IsDigit(t[i]) && DigitsIn(t, i + 1, i + 11);
    assert i < |t| ==> (In(DigitFrom('1'), t[i]) <==> IsDigit(t[i]) && t[i] != '0');
    FitsBoth([DigitFrom('1')], Run(DIGIT, 10), t, i);
  }

  lemma PassportFits(t: string, i: nat)
    ensures |PassportShape()| == 8 && (Fits(PassportShape(), t, i) <==> PassportAt(t, i))
  {
    CapitalFits(t, i);
    DigitsFit(7, t, i + 1);
    FitsBoth([Upper], Run(DIGIT, 7), t, i);
  }

  // ---- So they are replaced ----------------------------------------------------------------------

  lemma SsnIsAlone(t: string, i: nat)
    requires SsnAt(t, i) && IsBoundary(t, i)
    ensures Alone(SsnShape(), t, i)
  {
    forall j: nat | j < i < j + |SsnShape()| ensures !Whole(SsnShape(), t, j) {
      SsnFits(t, j);
      if SsnAt(t, j) { SsnsAreApart(t, i, j); }
    }
  }

  /** An SSN that begins inside another is no word of its own. */
  lemma SsnsAreApart(t: string, i: nat, j: nat)
    requires SsnAt(t, i) && SsnAt(t, j) && j < i < j + 11
    ensures !IsBoundary(t, i)
  {
    var k := i + 3;
    assert t[k] == '-' && IsDigit(t[i]);
    assert k < j + 11 ==> k == j + 6;
    assert i >= j + 8 && IsDigit(t[i - 1]);
  }

  // ---- What the expressions match, exactly -------------------------------------------------------

  lemma SsnReads(t: string, i: nat, e: nat)
    ensures Preferred(SSN_RE, t, i, e) <==> SsnAt(t, i) && e == i + 11 && WordAt(t, i, e)
    ensures Reads(SSN_ENTRY, SsnShape()) && Reads(US_SSN_ENTRY, SsnShape())
  {
    SsnSpells();
    var re :| SSN_RE == Word(re) && Spells(re, SsnShape());
    WordReads(SSN_ENTRY, re, SsnShape());
    WordReads(US_SSN_ENTRY, re, SsnShape());
    SsnFits(t, i);
    assert Preferred(SSN_ENTRY.re, t, i, e) <==> Whole(SsnShape(), t, i) && e == i + 11;
  }

  const SSN_ENTRY := PatternDef(SSN_TYPE, SSN_RE, NoCheck)
  const US_SSN_ENTRY := PatternDef(US_SSN_TYPE, SSN_RE, NoCheck)
  const ACCOUNT_ENTRY := PatternDef(BANK_ACCT_TYPE, Word(Digits(16)), NoCheck)
  const BSN_ENTRY := PatternDef(NL_BSN_TYPE, Word(Digits(9)), Bsn)
  const PAN_ENTRY := PatternDef(PAN_TYPE, Word(PAN), NoCheck)
  const IN_PAN_ENTRY := PatternDef(IN_PAN_TYPE, Word(PAN), NoCheck)
  const IFSC_ENTRY := PatternDef(IFSC_TYPE, Word(IFSC), NoCheck)
  const IN_IFSC_ENTRY := PatternDef(IN_IFSC_TYPE, Word(IFSC), NoCheck)
  const STEUER_ENTRY := PatternDef(DE_STEUER_ID_TYPE, Word(STEUER), NoCheck)
  const PASSPORT_ENTRY := PatternDef(IN_PASSPORT_TYPE, Word(PASSPORT), NoCheck)

  lemma TablesHave()
    ensures SSN_ENTRY in TIER1 && ACCOUNT_ENTRY in TIER1 && PAN_ENTRY in TIER1 && IFSC_ENTRY in TIER1
    ensures US_SSN_ENTRY in TIER2 && BSN_ENTRY in TIER2 && IN_PAN_ENTRY in TIER2 && IN_IFSC_ENTRY in TIER2
    ensures STEUER_ENTRY in TIER2 && PASSPORT_ENTRY in TIER2
  {
    assert SSN_ENTRY == TIER1[3] && ACCOUNT_ENTRY == TIER1[2] && PAN_ENTRY == TIER1[11] && IFSC_ENTRY == TIER1[12];
    assert US_SSN_ENTRY == TIER2[1] && BSN_ENTRY == TIER2[12] && IN_PAN_ENTRY == TIER2[6] && IN_IFSC_ENTRY == TIER2[7];
    assert STEUER_ENTRY == TIER2[10] && PASSPORT_ENTRY == TIER2[14];
  }

  lemma NumbersRead(p: PatternDef, n: nat, t: string, i: nat, e: nat)
    requires p.re == Word(Digits(n))
    ensures Preferred(p.re, t, i, e) <==> DigitsIn(t, i, i + n) && e == i + n && WordAt(t, i, e)
    ensures Reads(p, Run(DIGIT, n))
  {
    DigitsSpell(n);
    WordReads(p, Digits(n), Run(DIGIT, n));
    DigitsFit(n, t, i);
  }

  lemma PansRead(p: PatternDef, t: string, i: nat, e: nat)
    requires p.re == Word(PAN)
    ensures Preferred(p.re, t, i, e) <==> PanAt(t, i) && e == i + 10 && WordAt(t, i, e)
    ensures Reads(p, PanShape())
  {
    PanSpells();
    WordReads(p, PAN, PanShape());
    PanFits(t, i);
  }

  lemma IfscsRead(p: PatternDef, t: string, i: nat, e: nat)
    requires p.re == Word(IFSC)
    ensures Preferred(p.re, t, i, e) <==> IfscAt(t, i) && e == i + 11 && WordAt(t, i, e)
    ensures Reads(p, IfscShape())
  {
    IfscSpells();
    WordReads(p, IFSC, IfscShape());
    IfscFits(t, i);
  }

  lemma SteuerReads(p: PatternDef, t: string, i: nat, e: nat)
    requires p.re == Word(STEUER)
    ensures Preferred(p.re, t, i, e) <==> SteuerAt(t, i) && e == i + 11 && WordAt(t, i, e)
    ensures Reads(p, SteuerShape())
  {
    SteuerSpells();
    WordReads(p, STEUER, SteuerShape());
    SteuerFits(t, i);
  }

  lemma PassportsRead(p: PatternDef, t: string, i: nat, e: nat)
    requires p.re == Word(PASSPORT)
    ensures Preferred(p.re, t, i, e) <==> PassportAt(t, i) && e == i + 8 && WordAt(t, i, e)
    ensures Reads(p, PassportShape())
  {
    PassportSpells();
    WordReads(p, PASSPORT, PassportShape());
    PassportFits(t, i);
  }

  lemma WordsTogether(a: Shape, b: Shape)
    requires WordShape(a) && WordShape(b)
    ensures WordShape(a + b)
  {
  }

  lemma {:induction false} RunsAreWords(cls: Cls, n: nat)
    requires forall c :: In(cls, c) ==> IsWord(c)
    ensures WordShape(Run(cls, n)) && WordShape([cls])
  {
    if n > 0 {
      RunsAreWords(cls, n - 1);
      WordsTogether([cls], Run(cls, n - 1));
    }
  }

  lemma ShapesAreWords()
    ensures WordShape(PanShape()) && WordShape(IfscShape()) && WordShape(SteuerShape()) && WordShape(PassportShape())
    ensures forall n :: WordShape(Run(DIGIT, n))
  {
    forall n ensures WordShape(Run(DIGIT, n)) { RunsAreWords(DIGIT, n); }
    RunsAreWords(Upper, 1); RunsAreWords(Upper, 4); RunsAreWords(Upper, 5);
    RunsAreWords(Ch('0'), 1); RunsAreWords(DigitFrom('1'), 1);
    assert forall c :: In(UPPER_DIGIT, c) ==> IsWord(c) by { assert forall c :: In(DIGIT, c) ==> IsDigit(c); }
    RunsAreWords(UPPER_DIGIT, 6);
    WordsTogether(Run(DIGIT, 4), [Upper]);
    WordsTogether(Run(Upper, 5), Run(DIGIT, 4) + [Upper]);
    WordsTogether([Ch('0')], Run(UPPER_DIGIT, 6));
    WordsTogether(Run(Upper, 4), [Ch('0')] + Run(UPPER_DIGIT, 6));
    WordsTogether([DigitFrom('1')], Run(DIGIT, 10));
    WordsTogether([Upper], Run(DIGIT, 7));
  }

  /** A word of a table's shape begins inside a span that is replaced. */
  lemma {:induction false} WordIsKept(table: seq<PatternDef>, p: PatternDef, shape: Shape, t: string, i: nat, e: nat)
    requires SafeExpressions(table) && p in table && Reads(p, shape) && WordShape(shape)
    requires Preferred(p.re, t, i, e) && Valid(p, t[i..e])
    ensures Spans.Kept(Spans.Select(Candidates(table, t)), i, e)
  {
    WordsAreAlone(shape, t, i);
    WholeIsKept(table, p, shape, t, i);
  }

  /**
   * In the first tier, every SSN, account number, PAN and IFSC code that stands as a word begins inside a span
   * that is replaced, and does not end behind it if both begin together.
   */
  lemma FirstTierReplaces(t: string, i: nat, e: nat)
    requires WordAt(t, i, e)
    requires || (SsnAt(t, i) && e == i + 11) || (DigitsIn(t, i, e) && e == i + 16)
             || (PanAt(t, i) && e == i + 10) || (IfscAt(t, i) && e == i + 11)
    ensures Spans.Kept(Scrubbing.First(t), i, e)
  {
    Tier1IsSafe();
    TablesHave();
    ShapesAreWords();
    if SsnAt(t, i) && e == i + 11 {
      SsnReads(t, i, e);
      SsnFits(t, i);
      SsnIsAlone(t, i);
      WholeIsKept(TIER1, SSN_ENTRY, SsnShape(), t, i);
    } else if DigitsIn(t, i, e) && e == i + 16 {
      NumbersRead(ACCOUNT_ENTRY, 16, t, i, e);
      WordIsKept(TIER1, ACCOUNT_ENTRY, Run(DIGIT, 16), t, i, e);
    } else if PanAt(t, i) && e == i + 10 {
      PansRead(PAN_ENTRY, t, i, e);
      WordIsKept(TIER1, PAN_ENTRY, PanShape(), t, i, e);
    } else {
      IfscsRead(IFSC_ENTRY, t, i, e);
      WordIsKept(TIER1, IFSC_ENTRY, IfscShape(), t, i, e);
    }
  }

  lemma {:induction false} TaxNumberIsKept(m: string, i: nat, e: nat)
    requires WordAt(m, i, e) && SteuerAt(m, i) && e == i + 11
    ensures Spans.Kept(Spans.Select(Candidates(TIER2, m)), i, e)
  {
    Tier2IsSafe();
    TablesHave();
    ShapesAreWords();
    SteuerReads(STEUER_ENTRY, m, i, e);
    WordIsKept(TIER2, STEUER_ENTRY, SteuerShape(), m, i, e);
  }

  lemma {:induction false} PassportIsKept(m: string, i: nat, e: nat)
    requires WordAt(m, i, e) && PassportAt(m, i) && e == i + 8
    ensures Spans.Kept(Spans.Select(Candidates(TIER2, m)), i, e)
  {
    Tier2IsSafe();
    TablesHave();
    ShapesAreWords();
    PassportsRead(PASSPORT_ENTRY, m, i, e);
    WordIsKept(TIER2, PASSPORT_ENTRY, PassportShape(), m, i, e);
  }

  lemma {:induction false} BsnIsKept(m: string, i: nat, e: nat)
    requires WordAt(m, i, e) && DigitsIn(m, i, e) && e == i + 9 && Valid(BSN_ENTRY, m[i..e])
    ensures Spans.Kept(Spans.Select(Candidates(TIER2, m)), i, e)
  {
    Tier2IsSafe();
    TablesHave();
    ShapesAreWords();
    NumbersRead(BSN_ENTRY, 9, m, i, e);
    WordIsKept(TIER2, BSN_ENTRY, Run(DIGIT, 9), m, i, e);
  }

  /**
   * In the second, so does every tax number, passport number and valid BSN of the text that the first
   * has tokenized.
   */
  lemma SecondTierReplaces(t: string, m: string, i: nat, e: nat)
    requires m == Scrubbing.Middle(t) && WordAt(m, i, e)
    requires || (SteuerAt(m, i) && e == i + 11) || (PassportAt(m, i) && e == i + 8)
             || (DigitsIn(m, i, e) && e == i + 9 && Checksums.BsnAccepts(m[i..e]))
    ensures Spans.Kept(Scrubbing.Second(t), i, e)
  {
    if SteuerAt(m, i) && e == i + 11 {
      TaxNumberIsKept(m, i, e);
    } else if PassportAt(m, i) && e == i + 8 {
      PassportIsKept(m, i, e);
    } else {
      BsnIsKept(m, i, e);
    }
  }

  // ---- E-mail addresses --------------------------------------------------------------------------

  lemma OneOfMany(cls: Cls, lo: nat, hi: nat, t: string, i: nat, e: nat)
    requires hi > 0 && i < e <= |t| && In(cls, t[i]) && e in Greedy(Set(cls), Before(lo), hi - 1, t, i + 1)
    ensures e in Greedy(Set(cls), lo, hi, t, i)
  {
    assert i + 1 in Ends(Set(cls), t, i) by { assert Ends(Set(cls), t, i) == [i + 1]; }
    GreedyHas(Set(cls), lo, hi, t, i, i + 1, e);
  }

  ghost predicate Matched(cls: Cls, lo: nat, hi: nat, t: string, i: nat, e: nat) {
    AllIn(cls, t, i, e) ==> e in Greedy(Set(cls), lo, hi, t, i)
  }

  /** A run that is neither too short nor too long is among the matches of a repetition. */
  lemma {:induction false} RunsAreMatched(cls: Cls, n: nat, lo: nat, hi: nat, t: string)
    requires lo <= n <= hi
    ensures forall i: nat, e: nat :: e == i + n ==> Matched(cls, lo, hi, t, i, e)
  {
    if n == 0 {
      forall i: nat ensures Matched(cls, lo, hi, t, i, i) {
        if i <= |t| { StopIsMatched(cls, hi, t, i); }
      }
    } else {
      RunsAreMatched(cls, n - 1, Before(lo), hi - 1, t);
      forall i: nat, e: nat | e == i + n ensures Matched(cls, lo, hi, t, i, e) {
        assert Matched(cls, Before(lo), hi - 1, t, i + 1, e);
        if AllIn(cls, t, i, e) {
          assert AllIn(cls, t, i + 1, e);
          OneOfMany(cls, lo, hi, t, i, e);
        }
      }
    }
  }

  lemma {:induction false} StopIsMatched(cls: Cls, hi: nat, t: string, i: nat)
    requires i <= |t|
    ensures i in Greedy(Set(cls), 0, hi, t, i)
  {
  }

  lemma {:induction false} ManyMatch(cls: Cls, lo: nat, t: string, i: nat, e: nat)
    requires AllIn(cls, t, i, e) && lo <= e - i
    ensures e in Ends(Many(Set(cls), lo), t, i)
  {
    RunsAreMatched(cls, e - i, lo, lo + |t|, t);
    assert Matched(cls, lo, lo + |t|, t, i, e);
    assert Ends(Many(Set(cls), lo), t, i) == Greedy(Set(cls), lo, lo + |t|, t, i);
  }

  predicate IsLetter(c: char) {
    'a' <= c <= 'z' || 'A' <= c <= 'Z'
  }

  predicate InDomain(c: char) {
    IsLetter(c) || IsDigit(c) || c == '.' || c == '-'
  }

  predicate InLocal(c: char) {
    InDomain(c) || c == '_' || c == '%' || c == '+'
  }

  /** `local@domain.tld`, with the `@` at `at` and the last full stop at `dot` */
  predicate EmailAt(t: string, i: nat, at: nat, dot: nat, e: nat) {
    && i < at < dot - 1 && dot + 2 < e <= |t| && t[at] == '@' && t[dot] == '.'
    && (forall k :: i <= k < at ==> InLocal(t[k])) && (forall k :: at < k < dot ==> InDomain(t[k]))
    && (forall k :: dot < k < e ==> IsLetter(t[k]))
  }

  const LOCAL := Or(EMAIL_DOMAIN, Or(Ch('_'), Or(Ch('%'), Ch('+'))))

  lemma {:induction false} ClassesOfEmail(c: char)
    ensures (In(LETTER, c) <==> IsLetter(c)) && (In(EMAIL_DOMAIN, c) <==> InDomain(c)) && (In(LOCAL, c) <==> InLocal(c))
  {
    assert In(LETTER, c) <==> IsLetter(c);
    assert In(ALNUM, c) <==> In(LETTER, c) || In(DigitFrom('0'), c);
    assert In(Or(Ch('.'), Ch('-')), c) <==> c == '.' || c == '-';
    assert In(EMAIL_DOMAIN, c) <==> In(ALNUM, c) || In(Or(Ch('.'), Ch('-')), c);
    assert In(Or(Ch('%'), Ch('+')), c) <==> c == '%' || c == '+';
    assert In(Or(Ch('_'), Or(Ch('%'), Ch('+'))), c) <==> c == '_' || In(Or(Ch('%'), Ch('+')), c);
  }

  const TLD := Many(Set(LETTER), 2)
  const DOMAIN := Many(Set(EMAIL_DOMAIN), 1)

  lemma {:induction false} DomainMatches(t: string, i: nat, dot: nat, e: nat)
    requires i < dot && dot + 2 < e && AllIn(EMAIL_DOMAIN, t, i, dot) && AllIn(LETTER, t, dot + 1, e) && t[dot] == '.'
    ensures e in Ends(Cat(DOMAIN, Cat(Lit('.'), TLD)), t, i)
  {
    ManyMatch(LETTER, 2, t, dot + 1, e);
    CharMatches('.', t, dot);
    CatMatches(Lit('.'), TLD, t, dot, dot + 1, e);
    ManyMatch(EMAIL_DOMAIN, 1, t, i, dot);
    CatMatches(DOMAIN, Cat(Lit('.'), TLD), t, i, dot, e);
  }

  lemma EmailIn(t: string, i: nat, at: nat, dot: nat, e: nat)
    requires EmailAt(t, i, at, dot, e)
    ensures AllIn(LOCAL, t, i, at) && AllIn(EMAIL_DOMAIN, t, at + 1, dot) && AllIn(LETTER, t, dot + 1, e)
  {
    forall k | i <= k < at ensures In(LOCAL, t[k]) { ClassesOfEmail(t[k]); }
    forall k | at < k < dot ensures In(EMAIL_DOMAIN, t[k]) { ClassesOfEmail(t[k]); }
    forall k | dot < k < e ensures In(LETTER, t[k]) { ClassesOfEmail(t[k]); }
  }

  lemma {:induction false} EmailMatches(t: string, i: nat, at: nat, dot: nat, e: nat)
    requires EmailAt(t, i, at, dot, e)
    ensures e in Ends(EMAIL_RE, t, i)
  {
    EmailIn(t, i, at, dot, e);
    DomainMatches(t, at + 1, dot, e);
    var domain := Cat(DOMAIN, Cat(Lit('.'), TLD));
    CharMatches('@', t, at);
    CatMatches(Lit('@'), domain, t, at, at + 1, e);
    ManyMatch(LOCAL, 1, t, i, at);
    CatMatches(Many(Set(LOCAL), 1), Cat(Lit('@'), domain), t, i, at, e);
    assert EMAIL_RE == Cat(Many(Set(LOCAL), 1), Cat(Lit('@'), domain));
  }

  lemma {:induction false} CharMatches(c: Plain, t: string, i: nat)
    requires CharAt(t, i, c)
    ensures i + 1 in Ends(Lit(c), t, i)
  {
    assert Ends(Lit(c), t, i) == [i + 1];
  }

  /** Every e-mail address, whatever stands around it, begins inside a match whose start the first tier replaces. */
  lemma EmailIsDetected(t: string, i: nat, at: nat, dot: nat, e: nat) returns (start: nat, end: nat)
    requires EmailAt(t, i, at, dot, e)
    ensures start <= i < end && Preferred(EMAIL_RE, t, start, end) && Spans.Kept(Scrubbing.First(t), start, end)
  {
    EmailMatches(t, i, at, dot, e);
    assert PatternDef(EMAIL_TYPE, EMAIL_RE, NoCheck) == TIER1[5];
    start, end := Scrubbing.FirstDetects(t, TIER1[5], i);
  }
}
