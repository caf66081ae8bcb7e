/**
 * The fragment of JavaScript regular expressions that the PII tables use, with its backtracking
 * order: `Ends` lists every position at which a match that starts at `i` can end, preferred one first.
 */
module Regex {
  import opened Text

  /** The tables never name a bracket or a dollar sign, nor a range with one in it. */
  type Plain = c: char | !IsDelimiter(c) witness 'a'

  datatype Cls =
    | Ch(c: Plain)
    | DigitFrom(lo: char)  // from `lo` to 9
    | Upper
    | Lower
    | Space
    | Or(l: Cls, r: Cls)

  datatype Re =
    | Set(cls: Cls)
    | OneOf(words: seq<seq<Plain>>)  // an alternation of literal words
    | Bound
    | Cat(first: Re, second: Re)
    | Alt(left: Re, right: Re)
    | Rep(body: Re, min: nat, max: nat)  // greedy {min,max}
    | Many(body: Re, min: nat)           // greedy {min,}

  predicate In(cls: Cls, c: char) {
    match cls
    case Ch(x) => c == x
    case DigitFrom(lo) => IsDigit(c) && lo <= c
    case Upper => 'A' <= c <= 'Z'
    case Lower => 'a' <= c <= 'z'
    case Space => IsSpace(c)
    case Or(l, r) => In(l, c) || In(r, c)
  }

  // ---- What can be read off an expression -------------------------------------------------------

  /** A character that is not in `[A-Z0-9_]`, so not between the brackets of a token. */
  predicate IsForeign(c: char) {
    !('A' <= c <= 'Z' || IsDigit(c) || c == '_')
  }

  predicate IsDelimiter(c: char) {
    c == '[' || c == ']' || c == '$'
  }

  predicate OnlyDigits(cls: Cls) {
    match cls
    case Ch(x) => IsDigit(x)
    case DigitFrom(_) => true
    case Or(l, r) => OnlyDigits(l) && OnlyDigits(r)
    case _ => false
  }

  predicate OnlyForeign(cls: Cls) {
    match cls
    case Ch(x) => IsForeign(x)
    case Lower => true
    case Space => true
    case Or(l, r) => OnlyForeign(l) && OnlyForeign(r)
    case _ => false
  }

  predicate HasUnderscore(cls: Cls) {
    match cls
    case Ch(x) => x == '_'
    case Or(l, r) => HasUnderscore(l) || HasUnderscore(r)
    case _ => false
  }

  function Min(a: nat, b: nat): nat {
    if a < b then a else b
  }

  function Times(n: nat, k: nat): nat {
    if n == 0 then 0 else k + Times(n - 1, k)
  }

  /** Has every match at least one character? */
  predicate NonEmpty(re: Re) {
    match re
    case Set(_) => true
    case OneOf(_) => false
    case Bound => false
    case Cat(a, b) => NonEmpty(a) || NonEmpty(b)
    case Alt(a, b) => NonEmpty(a) && NonEmpty(b)
    case Rep(r, lo, _) => lo > 0 && NonEmpty(r)
    case Many(r, lo) => lo > 0 && NonEmpty(r)
  }

  /** How many digits a match has at least. */
  function DigitCount(re: Re): nat {
    match re
    case Set(cls) => if OnlyDigits(cls) then 1 else 0
    case OneOf(_) => 0
    case Bound => 0
    case Cat(a, b) => DigitCount(a) + DigitCount(b)
    case Alt(a, b) => Min(DigitCount(a), DigitCount(b))
    case Rep(r, lo, _) => Times(lo, DigitCount(r))
    case Many(r, lo) => Times(lo, DigitCount(r))
  }

  /** Has every match a character that no token has between its brackets? */
  predicate NeedsForeign(re: Re) {
    match re
    case Set(cls) => OnlyForeign(cls)
    case OneOf(_) => false
    case Bound => false
    case Cat(a, b) => NeedsForeign(a) || NeedsForeign(b)
    case Alt(a, b) => NeedsForeign(a) && NeedsForeign(b)
    case Rep(r, lo, _) => lo > 0 && NeedsForeign(r)
    case Many(r, lo) => lo > 0 && NeedsForeign(r)
  }

  /** Can no match have an underscore? */
  predicate NoUnderscore(re: Re) {
    match re
    case Set(cls) => !HasUnderscore(cls)
    case OneOf(_) => false
    case Bound => true
    case Cat(a, b) => NoUnderscore(a) && NoUnderscore(b)
    case Alt(a, b) => NoUnderscore(a) && NoUnderscore(b)
    case Rep(r, _, _) => NoUnderscore(r)
    case Many(r, _) => NoUnderscore(r)
  }

  /** Does every match start at a word boundary? */
  predicate Opens(re: Re) {
    match re
    case Bound => true
    case Cat(a, b) => Opens(a)
    case Alt(a, b) => Opens(a) && Opens(b)
    case _ => false
  }

  /** Does every match end at a word boundary? */
  predicate Closes(re: Re) {
    match re
    case Bound => true
    case Cat(a, b) => Closes(b)
    case Alt(a, b) => Closes(a) && Closes(b)
    case _ => false
  }

  function Count(s: string, p: char -> bool): nat {
    if s == [] then 0 else (if p(s[0]) then 1 else 0) + Count(s[1..], p)
  }

  lemma {:induction false} CountConcat(a: string, b: string, p: char -> bool)
    ensures Count(a + b, p) == Count(a, p) + Count(b, p)
  {
    if a == [] {
      assert a + b == b;
    } else {
      assert (a + b)[1..] == a[1..] + b;
      CountConcat(a[1..], b, p);
    }
  }

  // ---- Matching --------------------------------------------------------------------------------

  /** What is known of the matches of an expression. */
  datatype Facts = Facts(nonEmpty: bool, digits: nat, foreign: bool, noUnderscore: bool, opens: bool, closes: bool)

  function Analyse(re: Re): Facts {
    Facts(NonEmpty(re), DigitCount(re), NeedsForeign(re), NoUnderscore(re), Opens(re), Closes(re))
  }

  function Joined(f: Facts, g: Facts): Facts {
    Facts(f.nonEmpty || g.nonEmpty, f.digits + g.digits, f.foreign || g.foreign, f.noUnderscore && g.noUnderscore,
          f.opens, g.closes)
  }

  function Repeated(f: Facts, lo: nat): Facts {
    Facts(lo > 0 && f.nonEmpty, Times(lo, f.digits), lo > 0 && f.foreign, f.noUnderscore, false, false)
  }

  ghost predicate HasForeign(m: string) {
    exists k :: 0 <= k < |m| && IsForeign(m[k])
  }

  predicate DelimiterFree(m: string) {
    forall k :: 0 <= k < |m| ==> !IsDelimiter(m[k])
  }

  /** The matched text `m` has what the facts promise, boundaries aside. */
  ghost predicate Has(f: Facts, m: string) {
    && DelimiterFree(m)
    && (f.nonEmpty ==> m != [])
    && Count(m, IsDigit) >= f.digits
    && (f.foreign ==> HasForeign(m))
    && (f.noUnderscore ==> '_' !in m)
  }

  /** What every match from `i` to `e` of an expression with facts `f` satisfies. */
  ghost predicate Sound(f: Facts, t: string, i: nat, e: nat)
    requires i <= |t|
  {
    && i <= e <= |t|
    && Has(f, t[i..e])
    && (f.opens ==> IsBoundary(t, i))
    && (f.closes ==> IsBoundary(t, e))
  }

  function Ends(re: Re, t: string, i: nat): (r: seq<nat>)
    requires i <= |t|
    ensures forall k :: 0 <= k < |r| ==> i <= r[k] <= |t|
    decreases re, |t|, 0, 0, 0
  {
    match re
    case Set(cls) => if i < |t| && In(cls, t[i]) then [i + 1] else []
    case OneOf(words) => WordEnds(words, t, i)
    case Bound => if IsBoundary(t, i) then [i] else []
    case Cat(a, b) => EndsFrom(b, t, i, Ends(a, t, i))
    case Alt(a, b) => Ends(a, t, i) + Ends(b, t, i)
    case Rep(r, lo, hi) => Greedy(r, lo, hi, t, i)
    case Many(r, lo) => Greedy(r, lo, lo + |t|, t, i)
  }

  function WordEnds(words: seq<seq<Plain>>, t: string, i: nat): (r: seq<nat>)
    requires i <= |t|
    ensures forall k :: 0 <= k < |r| ==> i <= r[k] <= |t|
  {
    if words == [] then []
    else (if words[0] <= t[i..] then [i + |words[0]|] else []) + WordEnds(words[1..], t, i)
  }

  function EndsFrom(re: Re, t: string, i: nat, starts: seq<nat>): (r: seq<nat>)
    requires forall k :: 0 <= k < |starts| ==> i <= starts[k] <= |t|
    ensures forall k :: 0 <= k < |r| ==> i <= r[k] <= |t|
    decreases re, |t|, 0, 1, |starts|
  {
    if starts == [] then [] else Ends(re, t, starts[0]) + EndsFrom(re, t, i, starts[1..])
  }

  function Before(lo: nat): nat {
    if lo == 0 then 0 else lo - 1
  }

  /** Another round of `re` is preferred to stopping; an optional round may not be empty. */
  function Greedy(re: Re, lo: nat, hi: nat, t: string, i: nat): (r: seq<nat>)
    requires i <= |t|
    ensures forall k :: 0 <= k < |r| ==> i <= r[k] <= |t|
    decreases re, |t|, hi, 2, 0
  {
    (if hi == 0 then [] else GreedyFrom(re, lo, hi, t, i, Ends(re, t, i))) + (if lo == 0 then [i] else [])
  }

  function GreedyFrom(re: Re, lo: nat, hi: nat, t: string, i: nat, starts: seq<nat>): (r: seq<nat>)
    requires hi > 0 && i <= |t|
    requires forall k :: 0 <= k < |starts| ==> i <= starts[k] <= |t|
    ensures forall k :: 0 <= k < |r| ==> i <= r[k] <= |t|
    decreases re, |t|, hi, 1, |starts|
  {
    if starts == [] then []
    else
      (if lo == 0 && starts[0] == i then []
       else Greedy(re, Before(lo), hi - 1, t, starts[0]))
      + GreedyFrom(re, lo, hi, t, i, starts[1..])
  }

  lemma {:induction false} EndsFromOrigin(re: Re, t: string, i: nat, starts: seq<nat>, e: nat) returns (m: nat)
    requires forall k :: 0 <= k < |starts| ==> i <= starts[k] <= |t|
    requires e in EndsFrom(re, t, i, starts)
    ensures m in starts && i <= m <= |t| && e in Ends(re, t, m)
  {
    if e in Ends(re, t, starts[0]) {
      m := starts[0];
    } else {
      m := EndsFromOrigin(re, t, i, starts[1..], e);
    }
  }

  lemma {:induction false} GreedyFromOrigin(re: Re, lo: nat, hi: nat, t: string, i: nat, starts: seq<nat>, e: nat)
    returns (m: nat)
    requires hi > 0 && i <= |t|
    requires forall k :: 0 <= k < |starts| ==> i <= starts[k] <= |t|
    requires e in GreedyFrom(re, lo, hi, t, i, starts)
    ensures m in starts && i <= m <= |t| && e in Greedy(re, Before(lo), hi - 1, t, m)
  {
    if !(lo == 0 && starts[0] == i) && e in Greedy(re, Before(lo), hi - 1, t, starts[0]) {
      m := starts[0];
    } else {
      m := GreedyFromOrigin(re, lo, hi, t, i, starts[1..], e);
    }
  }

  lemma {:induction false} ClassHas(cls: Cls, c: char)
    requires In(cls, c)
    ensures !IsDelimiter(c)
    ensures OnlyDigits(cls) ==> IsDigit(c)
    ensures OnlyForeign(cls) ==> IsForeign(c)
    ensures !HasUnderscore(cls) ==> c != '_'
  {
    if cls.Or? {
      if In(cls.l, c) { ClassHas(cls.l, c); } else { ClassHas(cls.r, c); }
    }
  }

  lemma {:induction false} SetIsSound(cls: Cls, t: string, i: nat)
    requires i < |t| && In(cls, t[i])
    ensures Sound(Analyse(Set(cls)), t, i, i + 1)
  {
    ClassHas(cls, t[i]);
    assert t[i..i + 1] == [t[i]];
    assert t[i..i + 1][0] == t[i];
  }

  lemma {:induction false} WordsAreSound(words: seq<seq<Plain>>, t: string, i: nat, e: nat)
    requires i <= |t| && e in WordEnds(words, t, i)
    ensures Sound(Analyse(OneOf(words)), t, i, e)
  {
    if words[0] <= t[i..] && e == i + |words[0]| {
      var w := words[0];
      assert t[i..e] == w;
      forall k | 0 <= k < |t[i..e]| ensures !IsDelimiter(t[i..e][k]) { var c: Plain := w[k]; }
    } else {
      WordsAreSound(words[1..], t, i, e);
    }
  }

  /** Facts of two adjacent matches add up. */
  lemma BothHave(f: Facts, g: Facts, a: string, b: string)
    requires Has(f, a) && Has(g, b)
    ensures Has(Joined(f, g), a + b)
  {
    CountConcat(a, b, IsDigit);
    if f.foreign {
      var k :| 0 <= k < |a| && IsForeign(a[k]);
      assert (a + b)[k] == a[k];
    } else if g.foreign {
      var k :| 0 <= k < |b| && IsForeign(b[k]);
      assert (a + b)[|a| + k] == b[k];
    }
  }

  lemma CatIsSound(f: Facts, g: Facts, t: string, i: nat, m: nat, e: nat)
    requires i <= |t| && m <= |t| && Sound(f, t, i, m) && Sound(g, t, m, e)
    ensures Sound(Joined(f, g), t, i, e)
  {
    BothHave(f, g, t[i..m], t[m..e]);
    assert t[i..m] + t[m..e] == t[i..e];
  }

  lemma NoRounds(f: Facts, t: string, i: nat)
    requires i <= |t|
    ensures Sound(Repeated(f, 0), t, i, i)
  {
  }

  lemma RepeatedOnce(f: Facts, lo: nat)
    ensures lo > 0 ==> Repeated(f, lo) == Joined(f, Repeated(f, lo - 1)).(opens := false)
  {
  }

  lemma OneMoreRound(f: Facts, lo: nat, t: string, i: nat, m: nat, e: nat)
    requires i <= |t| && m <= |t| && Sound(f, t, i, m)
    requires Sound(Repeated(f, Before(lo)), t, m, e)
    ensures Sound(Repeated(f, lo), t, i, e)
  {
    var g := Repeated(f, Before(lo));
    assert Has(Joined(f, g), t[i..e]) by {
      BothHave(f, g, t[i..m], t[m..e]);
      assert t[i..m] + t[m..e] == t[i..e];
    }
    RepeatedOnce(f, lo);
  }

  lemma GreedyOrigin(re: Re, lo: nat, hi: nat, t: string, i: nat, e: nat) returns (m: nat)
    requires i <= |t| && e in Greedy(re, lo, hi, t, i) && !(lo == 0 && e == i)
    ensures hi > 0 && i <= m <= |t| && m in Ends(re, t, i)
    ensures e in Greedy(re, Before(lo), hi - 1, t, m)
  {
    m := GreedyFromOrigin(re, lo, hi, t, i, Ends(re, t, i), e);
  }

  /** Every match of `re` in `t` has the facts `f`. */
  ghost predicate SoundFor(re: Re, f: Facts, t: string) {
    forall i, e :: 0 <= i <= |t| && e in Ends(re, t, i) ==> Sound(f, t, i, e)
  }

  lemma SetIsSoundFor(cls: Cls, t: string)
    ensures SoundFor(Set(cls), Analyse(Set(cls)), t)
  {
    forall i, e | 0 <= i <= |t| && e in Ends(Set(cls), t, i) ensures Sound(Analyse(Set(cls)), t, i, e) {
      SetIsSound(cls, t, i);
    }
  }

  lemma CatIsSoundFor(a: Re, f: Facts, b: Re, g: Facts, t: string)
    requires SoundFor(a, f, t) && SoundFor(b, g, t)
    ensures SoundFor(Cat(a, b), Joined(f, g), t)
  {
    forall i, e | 0 <= i <= |t| && e in Ends(Cat(a, b), t, i) ensures Sound(Joined(f, g), t, i, e) {
      var m := EndsFromOrigin(b, t, i, Ends(a, t, i), e);
      CatIsSound(f, g, t, i, m, e);
    }
  }

  ghost predicate RoundsSoundFor(re: Re, f: Facts, lo: nat, hi: nat, t: string) {
    forall i, e :: 0 <= i <= |t| && e in Greedy(re, lo, hi, t, i) ==> Sound(Repeated(f, lo), t, i, e)
  }

  lemma {:induction false} RoundIsSound(re: Re, f: Facts, lo: nat, hi: nat, t: string, i: nat, e: nat)
    requires SoundFor(re, f, t)
    requires hi > 0 ==> RoundsSoundFor(re, f, Before(lo), hi - 1, t)
    requires i <= |t| && e in Greedy(re, lo, hi, t, i)
    ensures Sound(Repeated(f, lo), t, i, e)
  {
    if lo == 0 && e == i {
      NoRounds(f, t, i);
    } else {
      var m := GreedyOrigin(re, lo, hi, t, i, e);
      OneMoreRound(f, lo, t, i, m, e);
    }
  }

  lemma {:induction false} RoundsAreSound(re: Re, f: Facts, lo: nat, hi: nat, t: string)
    requires SoundFor(re, f, t)
    ensures RoundsSoundFor(re, f, lo, hi, t)
    decreases hi
  {
    if hi > 0 { RoundsAreSound(re, f, Before(lo), hi - 1, t); }
    forall i, e | 0 <= i <= |t| && e in Greedy(re, lo, hi, t, i) ensures Sound(Repeated(f, lo), t, i, e) {
      RoundIsSound(re, f, lo, hi, t, i, e);
    }
  }

  lemma RepIsSoundFor(re: Re, f: Facts, lo: nat, hi: nat, t: string)
    requires SoundFor(re, f, t)
    ensures SoundFor(Rep(re, lo, hi), Repeated(f, lo), t)
  {
    RoundsAreSound(re, f, lo, hi, t);
  }

  lemma ManyIsSoundFor(re: Re, f: Facts, lo: nat, t: string)
    requires SoundFor(re, f, t)
    ensures SoundFor(Many(re, lo), Repeated(f, lo), t)
  {
    RoundsAreSound(re, f, lo, lo + |t|, t);
  }

  /** Whatever the matcher finds has the facts of its expression. */
  lemma {:induction false} EndsAreSound(re: Re, t: string)
    ensures SoundFor(re, Analyse(re), t)
  {
    match re
    case Set(cls) =>
      SetIsSoundFor(cls, t);
    case OneOf(words) =>
      forall i, e | 0 <= i <= |t| && e in Ends(re, t, i) ensures Sound(Analyse(re), t, i, e) {
        WordsAreSound(words, t, i, e);
      }
    case Bound =>
    case Cat(a, b) =>
      EndsAreSound(a, t);
      EndsAreSound(b, t);
      CatIsSoundFor(a, Analyse(a), b, Analyse(b), t);
    case Alt(a, b) =>
      EndsAreSound(a, t);
      EndsAreSound(b, t);
    case Rep(r, lo, hi) =>
      EndsAreSound(r, t);
      RepIsSoundFor(r, Analyse(r), lo, hi, t);
    case Many(r, lo) =>
      EndsAreSound(r, t);
      ManyIsSoundFor(r, Analyse(r), lo, t);
  }

  // ---- exec with the g flag ----------------------------------------------------------------------

  datatype Hit = NoHit | Hit(start: nat, end: nat)

  /** The leftmost match at or after `from`. */
  function Exec(re: Re, t: string, from: nat): (h: Hit)
    requires from <= |t|
    ensures h.Hit? ==> from <= h.start <= h.end <= |t| && Ends(re, t, h.start) != [] && h.end == Ends(re, t, h.start)[0]
    decreases |t| - from
  {
    if Ends(re, t, from) != [] then Hit(from, Ends(re, t, from)[0])
    else if from == |t| then NoHit
    else Exec(re, t, from + 1)
  }

  /** No match starts earlier, and there is none at all if none is found. */
  lemma {:induction false} ExecIsLeftmost(re: Re, t: string, from: nat, i: nat)
    requires from <= i <= |t|
    requires var h := Exec(re, t, from); h.Hit? ==> i < h.start
    ensures Ends(re, t, i) == []
    decreases |t| - from
  {
    if from < i { ExecIsLeftmost(re, t, from + 1, i); }
  }

  // ---- Ways to match -----------------------------------------------------------------------------

  lemma {:induction false} EndsFromHas(re: Re, t: string, i: nat, starts: seq<nat>, m: nat, e: nat)
    requires forall k :: 0 <= k < |starts| ==> i <= starts[k] <= |t|
    requires m in starts && m <= |t| && e in Ends(re, t, m)
    ensures e in EndsFrom(re, t, i, starts)
  {
    if m != starts[0] {
      EndsFromHas(re, t, i, starts[1..], m, e);
    }
  }

  lemma {:induction false} CatMatches(a: Re, b: Re, t: string, i: nat, m: nat, e: nat)
    requires i <= |t| && m in Ends(a, t, i) && m <= |t| && e in Ends(b, t, m)
    ensures e in Ends(Cat(a, b), t, i)
  {
    EndsFromHas(b, t, i, Ends(a, t, i), m, e);
  }

  lemma {:induction false} GreedyFromHas(re: Re, lo: nat, hi: nat, t: string, i: nat, starts: seq<nat>, m: nat, e: nat)
    requires hi > 0 && i <= |t| && forall k :: 0 <= k < |starts| ==> i <= starts[k] <= |t|
    requires m in starts && m <= |t| && m != i && e in Greedy(re, Before(lo), hi - 1, t, m)
    ensures e in GreedyFrom(re, lo, hi, t, i, starts)
  {
    if m != starts[0] {
      GreedyFromHas(re, lo, hi, t, i, starts[1..], m, e);
    }
  }

  lemma GreedyHas(re: Re, lo: nat, hi: nat, t: string, i: nat, m: nat, e: nat)
    requires hi > 0 && i <= |t| && m in Ends(re, t, i) && m != i && m <= |t|
    requires e in Greedy(re, Before(lo), hi - 1, t, m)
    ensures e in Greedy(re, lo, hi, t, i)
  {
    GreedyFromHas(re, lo, hi, t, i, Ends(re, t, i), m, e);
  }

  lemma OneMoreCharacter(cls: Cls, n: nat, t: string, i: nat, e: nat)
    requires n > 0 && i < |t| && In(cls, t[i]) && e in Greedy(Set(cls), n - 1, n - 1, t, i + 1)
    ensures e in Greedy(Set(cls), n, n, t, i)
  {
    assert i + 1 in Ends(Set(cls), t, i) by { assert Ends(Set(cls), t, i) == [i + 1]; }
    GreedyHas(Set(cls), n, n, t, i, i + 1, e);
  }

  predicate AllIn(cls: Cls, t: string, i: int, e: int) {
    0 <= i <= e <= |t| && forall k :: i <= k < e ==> In(cls, t[k])
  }

  lemma {:induction false} RunsMatch(cls: Cls, n: nat, t: string)
    ensures forall i, e :: e == i + n && AllIn(cls, t, i, e) ==> e in Greedy(Set(cls), n, n, t, i)
  {
    if n > 0 {
      RunsMatch(cls, n - 1, t);
      forall i, e | e == i + n && AllIn(cls, t, i, e) ensures e in Greedy(Set(cls), n, n, t, i) {
        assert AllIn(cls, t, i + 1, e);
        OneMoreCharacter(cls, n, t, i, e);
      }
    }
  }

  /** A run of exactly `n` characters of a class, then a match of `rest`. */
  lemma {:induction false} RunThen(cls: Cls, n: nat, rest: Re, t: string, i: nat, e: nat)
    requires i + n <= |t| && forall k :: i <= k < i + n ==> In(cls, t[k])
    requires e in Ends(rest, t, i + n)
    ensures e in Ends(Cat(Rep(Set(cls), n, n), rest), t, i)
  {
    assert i + n in Ends(Rep(Set(cls), n, n), t, i) by {
      RunsMatch(cls, n, t);
      assert AllIn(cls, t, i, i + n);
    }
    CatMatches(Rep(Set(cls), n, n), rest, t, i, i + n, e);
  }

  /** An optional part that is left out. */
  lemma {:induction false} SkipThen(re: Re, rest: Re, t: string, i: nat, e: nat)
    requires i <= |t| && e in Ends(rest, t, i)
    ensures e in Ends(Cat(Rep(re, 0, 1), rest), t, i)
  {
    assert i in Ends(Rep(re, 0, 1), t, i);
    CatMatches(Rep(re, 0, 1), rest, t, i, i, e);
  }
}
