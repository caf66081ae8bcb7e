/**
 * The matcher as ECMA-262 specifies it, with continuations and its abstract operation RepeatMatcher: what
 * `Regex` computes with lists of ends is what it computes.
 */
module RegexMatcher {
  import opened Text
  import opened Regex
  import opened Wrappers

  /** Takes the end of a match and goes on from there; `None` is failure. */
  type Continuation = nat -> Option<nat>

  /** A repetition of fewer rounds at most than at least, which the language rejects, matches nothing. */
  function Match(re: Re, t: string, i: nat, c: Continuation): Option<nat>
    requires i <= |t|
    decreases re, 0, 0
  {
    match re
    case Set(cls) => if i < |t| && In(cls, t[i]) then c(i + 1) else None
    case OneOf(words) => MatchWords(words, t, i, c)
    case Bound => if IsBoundary(t, i) then c(i) else None
    case Cat(a, b) => Match(a, t, i, (j: nat) => if i <= j <= |t| then Match(b, t, j, c) else None)
    case Alt(a, b) =>
      var r := Match(a, t, i, c);
      if r.Some? then r else Match(b, t, i, c)
    case Rep(r, lo, hi) => if lo <= hi then RepeatMatcher(r, lo, Some(hi), t, i, c) else None
    case Many(r, lo) => RepeatMatcher(r, lo, None, t, i, c)
  }

  function MatchWords(words: seq<seq<Plain>>, t: string, i: nat, c: Continuation): Option<nat>
    requires i <= |t|
  {
    if words == [] then None
    else
      var r := if words[0] <= t[i..] then c(i + |words[0]|) else None;
      if r.Some? then r else MatchWords(words[1..], t, i, c)
  }

  /** `max` is `None` for a repetition without limit. */
  function RepeatMatcher(re: Re, min: nat, max: Option<nat>, t: string, i: nat, c: Continuation): Option<nat>
    requires i <= |t|
    decreases re, min + |t| - i, 1
  {
    if max == Some(0) then c(i)
    else
      var r := Match(re, t, i, AnotherRound(re, min, max, t, i, c));
      if min != 0 || r.Some? then r else c(i)
  }

  /** How a repetition goes on after a round: a round that is not required may not be empty. */
  function AnotherRound(re: Re, min: nat, max: Option<nat>, t: string, i: nat, c: Continuation): Continuation
    requires i <= |t| && max != Some(0)
    decreases re, min + |t| - i, 0
  {
    (j: nat) =>
      if !(i <= j <= |t|) || (min == 0 && j == i) then None
      else RepeatMatcher(re, if min == 0 then 0 else min - 1, Fewer(max), t, j, c)
  }

  function Fewer(max: Option<nat>): Option<nat>
    requires max != Some(0)
  {
    if max.None? then None else Some(max.value - 1)
  }

  // ---- Lists of ends -----------------------------------------------------------------------------

  /** The ends are tried in order; the first from which it goes on decides. */
  function TryEach(ends: seq<nat>, c: Continuation): Option<nat> {
    if ends == [] then None
    else
      var r := c(ends[0]);
      if r.Some? then r else TryEach(ends[1..], c)
  }

  lemma {:induction false} TryConcat(a: seq<nat>, b: seq<nat>, c: Continuation)
    ensures TryEach(a + b, c) == if TryEach(a, c).Some? then TryEach(a, c) else TryEach(b, c)
  {
    if a == [] {
      assert a + b == b;
    } else {
      assert (a + b)[1..] == a[1..] + b;
      TryConcat(a[1..], b, c);
    }
  }

  lemma {:induction false} TrySame(ends: seq<nat>, c: Continuation, d: Continuation)
    requires forall k :: 0 <= k < |ends| ==> c(ends[k]) == d(ends[k])
    ensures TryEach(ends, c) == TryEach(ends, d)
  {
    if ends != [] { TrySame(ends[1..], c, d); }
  }

  lemma {:induction false} TryWords(words: seq<seq<Plain>>, t: string, i: nat, c: Continuation)
    requires i <= |t|
    ensures MatchWords(words, t, i, c) == TryEach(WordEnds(words, t, i), c)
  {
    if words != [] {
      var first := if words[0] <= t[i..] then [i + |words[0]|] else [];
      TryWords(words[1..], t, i, c);
      TryConcat(first, WordEnds(words[1..], t, i), c);
      if first != [] { assert first[1..] == []; }
    }
  }

  /** Trying what `re` yields from each start is trying the starts, each going on with `re`. */
  lemma {:induction false} TryEndsFrom(re: Re, t: string, i: nat, starts: seq<nat>, c: Continuation, d: Continuation)
    requires forall k :: 0 <= k < |starts| ==>
               i <= starts[k] <= |t| && d(starts[k]) == TryEach(Ends(re, t, starts[k]), c)
    ensures TryEach(EndsFrom(re, t, i, starts), c) == TryEach(starts, d)
    decreases |starts|
  {
    if starts != [] {
      TryEndsFrom(re, t, i, starts[1..], c, d);
      TryConcat(Ends(re, t, starts[0]), EndsFrom(re, t, i, starts[1..]), c);
    }
  }

  /** The same for another round of a repetition. */
  lemma {:induction false} TryGreedyFrom(re: Re, lo: nat, hi: nat, t: string, i: nat, starts: seq<nat>, c: Continuation,
                                         d: Continuation)
    requires hi > 0 && i <= |t| && forall k :: 0 <= k < |starts| ==> i <= starts[k] <= |t|
    requires forall k :: 0 <= k < |starts| ==>
      d(starts[k])
          == if lo == 0 && starts[k] == i then None else TryEach(Greedy(re, Before(lo), hi - 1, t, starts[k]), c)
    ensures TryEach(GreedyFrom(re, lo, hi, t, i, starts), c) == TryEach(starts, d)
    decreases |starts|
  {
    if starts != [] {
      var first := if lo == 0 && starts[0] == i then [] else Greedy(re, Before(lo), hi - 1, t, starts[0]);
      TryGreedyFrom(re, lo, hi, t, i, starts[1..], c, d);
      TryConcat(first, GreedyFrom(re, lo, hi, t, i, starts[1..]), c);
    }
  }

  // ---- The matcher and the lists -----------------------------------------------------------------

  /** The matcher goes on from the first of the ends from which that succeeds. */
  lemma {:induction false} MatcherTriesEnds(re: Re, t: string, i: nat, c: Continuation)
    requires i <= |t|
    ensures Match(re, t, i, c) == TryEach(Ends(re, t, i), c)
    decreases re, 0, 1
  {
    match re
    case Set(cls) =>
    case OneOf(words) => TryWords(words, t, i, c);
    case Bound =>
    case Cat(a, b) => CatTriesEnds(re, t, i, c);
    case Alt(a, b) => AltTriesEnds(re, t, i, c);
    case Rep(r, lo, hi) => RepTriesEnds(re, t, i, c);
    case Many(r, lo) => RepeatTriesEnds(r, lo, None, lo + |t|, t, i, c);
  }

  lemma {:induction false} AltTriesEnds(re: Re, t: string, i: nat, c: Continuation)
    requires i <= |t| && re.Alt?
    ensures Match(re, t, i, c) == TryEach(Ends(re, t, i), c)
    decreases re, 0, 0
  {
    MatcherTriesEnds(re.left, t, i, c);
    MatcherTriesEnds(re.right, t, i, c);
    TryConcat(Ends(re.left, t, i), Ends(re.right, t, i), c);
  }

  lemma {:induction false} RepTriesEnds(re: Re, t: string, i: nat, c: Continuation)
    requires i <= |t| && re.Rep?
    ensures Match(re, t, i, c) == TryEach(Ends(re, t, i), c)
    decreases re, 0, 0
  {
    if re.min <= re.max {
      RepeatTriesEnds(re.body, re.min, Some(re.max), re.max, t, i, c);
    } else {
      TooFewRounds(re.body, re.min, re.max, t, i);
    }
  }

  lemma {:induction false} CatTriesEnds(re: Re, t: string, i: nat, c: Continuation)
    requires i <= |t| && re.Cat?
    ensures Match(re, t, i, c) == TryEach(Ends(re, t, i), c)
    decreases re, 0, 0
  {
    var d := (j: nat) => if i <= j <= |t| then Match(re.second, t, j, c) else None;
    var starts := Ends(re.first, t, i);
    MatcherTriesEnds(re.first, t, i, d);
    forall k | 0 <= k < |starts| ensures d(starts[k]) == TryEach(Ends(re.second, t, starts[k]), c) {
      MatcherTriesEnds(re.second, t, starts[k], c);
    }
    TryEndsFrom(re.second, t, i, starts, c, d);
  }

  /** A repetition without limit makes no more rounds than are required and the text has characters. */
  predicate Bounds(lo: nat, max: Option<nat>, hi: nat, left: nat) {
    lo <= hi && if max.Some? then max.value == hi else hi >= lo + left
  }

  lemma {:induction false} RepeatTriesEnds(re: Re, lo: nat, max: Option<nat>, hi: nat, t: string, i: nat,
                                           c: Continuation)
    requires i <= |t| && Bounds(lo, max, hi, |t| - i)
    ensures RepeatMatcher(re, lo, max, t, i, c) == TryEach(Greedy(re, lo, hi, t, i), c)
    decreases re, lo + |t| - i, 2
  {
    if hi == 0 {
      if max.None? { MatcherTriesEnds(re, t, i, AnotherRound(re, lo, max, t, i, c)); }
      NoMoreRounds(re, max, t, i, c);
    } else {
      var d, starts := AnotherRound(re, lo, max, t, i, c), Ends(re, t, i);
      MatcherTriesEnds(re, t, i, d);
      forall k | 0 <= k < |starts| ensures RoundTriesEnds(re, lo, hi, t, i, c, d, starts[k]) {
        if !(lo == 0 && starts[k] == i) { RepeatTriesEnds(re, Before(lo), Fewer(max), hi - 1, t, starts[k], c); }
      }
      TryRounds(re, lo, hi, t, i, c, d);
    }
  }

  lemma {:induction false} NoMoreRounds(re: Re, max: Option<nat>, t: string, i: nat, c: Continuation)
    requires i <= |t| && (if max.Some? then max.value == 0 else i == |t|)
    requires max.None? ==> var d := AnotherRound(re, 0, max, t, i, c); Match(re, t, i, d) == TryEach(Ends(re, t, i), d)
    ensures RepeatMatcher(re, 0, max, t, i, c) == TryEach(Greedy(re, 0, 0, t, i), c)
  {
    assert Greedy(re, 0, 0, t, i) == [i];
    if max.None? {
      var d, ends := AnotherRound(re, 0, max, t, i, c), Ends(re, t, i);
      assert d(i) == None;
      forall k | 0 <= k < |ends| ensures d(ends[k]) == None { assert ends[k] == i; }
      TryNone(ends, d);
    }
    assert TryEach([i], c) == c(i);
  }

  /** Going on from `j` is another round there, unless that is an empty one that is not required. */
  ghost predicate RoundTriesEnds(re: Re, lo: nat, hi: nat, t: string, i: nat, c: Continuation, d: Continuation, j: nat)
    requires hi > 0 && j <= |t|
  {
    d(j) == if lo == 0 && j == i then None else TryEach(Greedy(re, Before(lo), hi - 1, t, j), c)
  }

  lemma {:induction false} TryRounds(re: Re, lo: nat, hi: nat, t: string, i: nat, c: Continuation, d: Continuation)
    requires hi > 0 && i <= |t|
    requires forall k :: 0 <= k < |Ends(re, t, i)| ==> RoundTriesEnds(re, lo, hi, t, i, c, d, Ends(re, t, i)[k])
    ensures var r := TryEach(Ends(re, t, i), d);
            TryEach(Greedy(re, lo, hi, t, i), c) == if r.Some? || lo > 0 then r else c(i)
  {
    var starts := Ends(re, t, i);
    forall k | 0 <= k < |starts|
      ensures d(starts[k])
              == if lo == 0 && starts[k] == i then None else TryEach(Greedy(re, Before(lo), hi - 1, t, starts[k]), c)
    {
      assert RoundTriesEnds(re, lo, hi, t, i, c, d, starts[k]);
    }
    TryGreedyFrom(re, lo, hi, t, i, starts, c, d);
    TryOrStop(re, lo, hi, t, i, c);
  }

  lemma {:induction false} TooFewRounds(re: Re, lo: nat, hi: nat, t: string, i: nat)
    requires hi < lo && i <= |t|
    ensures Greedy(re, lo, hi, t, i) == []
    decreases hi, 1, 0
  {
    if hi > 0 { NoRounds(re, lo, hi, t, i, Ends(re, t, i)); }
  }

  lemma {:induction false} NoRounds(re: Re, lo: nat, hi: nat, t: string, i: nat, starts: seq<nat>)
    requires 0 < hi < lo && i <= |t| && forall k :: 0 <= k < |starts| ==> i <= starts[k] <= |t|
    ensures GreedyFrom(re, lo, hi, t, i, starts) == []
    decreases hi, 0, |starts|
  {
    if starts != [] {
      TooFewRounds(re, lo - 1, hi - 1, t, starts[0]);
      NoRounds(re, lo, hi, t, i, starts[1..]);
    }
  }

  lemma {:induction false} TryOrStop(re: Re, lo: nat, hi: nat, t: string, i: nat, c: Continuation)
    requires hi > 0 && i <= |t|
    ensures var r := TryEach(GreedyFrom(re, lo, hi, t, i, Ends(re, t, i)), c);
            TryEach(Greedy(re, lo, hi, t, i), c) == if r.Some? || lo > 0 then r else c(i)
  {
    var stop := if lo == 0 then [i] else [];
    TryConcat(GreedyFrom(re, lo, hi, t, i, Ends(re, t, i)), stop, c);
  }

  lemma {:induction false} TryNone(ends: seq<nat>, c: Continuation)
    requires forall k :: 0 <= k < |ends| ==> c(ends[k]) == None
    ensures TryEach(ends, c) == None
  {
    if ends != [] { TryNone(ends[1..], c); }
  }

  /** Where a match ends if nothing is to follow. */
  function MatchEnd(re: Re, t: string, i: nat): Option<nat>
    requires i <= |t|
  {
    Match(re, t, i, (e: nat) => Some(e))
  }

  lemma {:induction false} MatchEndIs(re: Re, t: string, i: nat)
    requires i <= |t|
    ensures MatchEnd(re, t, i) == if Ends(re, t, i) == [] then None else Some(Ends(re, t, i)[0])
  {
    MatcherTriesEnds(re, t, i, (e: nat) => Some(e));
  }

  /** `exec` finds the first position at which the matcher succeeds, and the end with which it does. */
  lemma {:induction false} ExecIsStandard(re: Re, t: string, from: nat)
    requires from <= |t|
    ensures var h := Exec(re, t, from);
            && (h.Hit? ==> MatchEnd(re, t, h.start) == Some(h.end))
            && forall j :: from <= j <= |t| && (h.Hit? ==> j < h.start) ==> MatchEnd(re, t, j) == None
  {
    var h := Exec(re, t, from);
    if h.Hit? { MatchEndIs(re, t, h.start); }
    forall j | from <= j <= |t| && (h.Hit? ==> j < h.start) ensures MatchEnd(re, t, j) == None {
      MatchEndIs(re, t, j);
      ExecIsLeftmost(re, t, from, j);
    }
  }
}
