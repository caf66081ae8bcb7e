/** `splitSentences` as the source computes it: placeholders for abbreviations, a split, and restoration. */
module SentenceSplitter {
  import opened Text
  import opened Decimal
  import opened Sentences

  // ---- The abbreviation expression ---------------------------------------------------------------

  /** `w`, in any case, then a full stop and a white-space character. */
  predicate MatchesWord(t: string, i: nat, w: Word) {
    i + |w| + 1 < |t| && LowerAll(t[i..i + |w|]) == w && t[i + |w|] == '.' && IsSpace(t[i + |w| + 1])
  }

  /** The length of the match of the first alternative that matches at `i`, or 0. */
  function FirstWord(t: string, i: nat, words: seq<Word>): (m: nat)
    decreases |words|, |t|
  {
    if words == [] then 0
    else if MatchesWord(t, i, words[0]) then |words[0]| + 2
    else FirstWord(t, i, words[1..])
  }

  /** The length of the match of the whole expression at `i`, or 0. */
  function Match(t: string, i: nat): nat
    requires i <= |t|
  {
    if IsBoundary(t, i) then FirstWord(t, i, ABBREVIATIONS) else 0
  }

  /** The match `i..i+m` is a word, a full stop and a white-space character. */
  ghost predicate IsAbbreviation(t: string, i: nat, m: nat) {
    && m > 2 && i + m <= |t| && t[i + m - 2] == '.' && IsSpace(t[i + m - 1])
    && forall k :: i <= k < i + m - 2 ==> IsWord(t[k])
  }

  lemma {:induction false} FirstWordFacts(t: string, i: nat, words: seq<Word>)
    requires FirstWord(t, i, words) > 0
    ensures var m := FirstWord(t, i, words);
            IsAbbreviation(t, i, m) && IsOneOf(LowerAll(t[i..i + m - 2]), words)
    decreases |words|
  {
    var w: Word := words[0];
    if MatchesWord(t, i, w) {
      MatchedWordIsLetters(t, i, w);
    } else {
      FirstWordFacts(t, i, words[1..]);
    }
  }

  /** A match is an abbreviation in the sense of the sentences, and starts where its word starts. */
  lemma {:induction false} MatchFacts(t: string, i: nat)
    requires i <= |t| && Match(t, i) > 0
    ensures var m := Match(t, i);
            IsAbbreviation(t, i, m) && WordStart(t, i + m - 2) == i && AbbreviationEnds(t, i + m - 2)
    ensures i == 0 || !IsWord(t[i - 1])
  {
    FirstWordFacts(t, i, ABBREVIATIONS);
    var d := i + Match(t, i) - 2;
    assert IsWord(t[i]);
    WordStartIs(t, i, d);
  }

  lemma {:induction false} WordStartIs(t: string, i: nat, d: nat)
    requires i <= d <= |t| && (forall k :: i <= k < d ==> IsWord(t[k])) && (i == 0 || !IsWord(t[i - 1]))
    ensures WordStart(t, d) == i
  {
    if i < d { WordStartIs(t, i, d - 1); }
  }

  /** Inside a match no other match starts. */
  lemma NoMatchInside(t: string, i: nat, j: nat)
    requires i < j <= |t| && Match(t, i) > 0 && j < i + Match(t, i)
    ensures Match(t, j) == 0
  {
    MatchFacts(t, i);
    var d := i + Match(t, i) - 2;
    if Match(t, j) > 0 {
      MatchFacts(t, j);
      assert false;
    }
  }

  lemma MatchedWordIsLetters(t: string, i: nat, w: Word)
    requires MatchesWord(t, i, w)
    ensures forall k :: i <= k < i + |w| ==> IsWord(t[k])
  {
    var u := t[i..i + |w|];
    forall k | i <= k < i + |w| ensures IsWord(t[k]) { assert u[k - i] == t[k] && LowerAll(u)[k - i] == w[k - i]; }
  }

  lemma {:induction false} FirstWordFinds(t: string, s: nat, d: nat, words: seq<Word>)
    requires s <= d && d + 1 < |t| && t[d] == '.' && IsSpace(t[d + 1]) && (forall k :: s <= k < d ==> IsWord(t[k]))
    requires IsOneOf(LowerAll(t[s..d]), words)
    ensures FirstWord(t, s, words) == d + 2 - s
    decreases |words|
  {
    var w: Word, u := words[0], t[s..d];
    assert LowerAll(u) == w ==> s + |w| == d;
    if MatchesWord(t, s, w) {
      MatchedWordIsLetters(t, s, w);
      assert t[s + |w|] == '.';
    } else {
      FirstWordFinds(t, s, d, words[1..]);
    }
  }

  /** Every protected white space is the end of a match. */
  lemma {:induction false} ProtectedIsMatched(t: string, d: nat)
    requires d + 1 < |t| && AbbreviationEnds(t, d) && IsSpace(t[d + 1])
    ensures var s := WordStart(t, d); s < d && Match(t, s) == d + 2 - s
  {
    var s := WordStart(t, d);
    FirstWordFinds(t, s, d, ABBREVIATIONS);
    FirstWordFacts(t, s, ABBREVIATIONS);
    assert IsWord(t[s]);
  }

  // ---- Placeholders ------------------------------------------------------------------------------

  function Tag(n: nat): string {
    "ABBR" + Dec(n)
  }

  function Placeholder(n: nat): string {
    "\0" + (Tag(n) + "\0")
  }

  predicate Fits(marks: seq<nat>) {
    forall i :: 0 <= i < |marks| ==> i + marks[i] <= |marks|
  }

  /** At each position of a text the length of the match that starts there, or 0. */
  function Marks(t: string): (marks: seq<nat>)
    ensures |marks| == |t| && forall i :: 0 <= i < |t| ==> marks[i] == Match(t, i)
  {
    seq(|t|, i requires 0 <= i < |t| => Match(t, i))
  }

  lemma MarksFit(t: string)
    ensures Fits(Marks(t))
  {
    forall i | 0 <= i < |t| ensures i + Match(t, i) <= |t| { if Match(t, i) > 0 { MatchFacts(t, i); } }
  }

  /** What stands for the next stretch of text, how far that reaches, and which match it holds. */
  function Chunk(t: string, marks: seq<nat>, stand: nat -> string, i: nat, n: nat): string
    requires i < |t| == |marks|
  {
    if marks[i] > 0 then stand(n) else [t[i]]
  }

  function Next(marks: seq<nat>, i: nat): (j: nat)
    requires i < |marks|
    ensures i < j
  {
    if marks[i] > 0 then i + marks[i] else i + 1
  }

  function Here(t: string, marks: seq<nat>, i: nat): seq<string>
    requires i < |t| == |marks| && Fits(marks)
  {
    if marks[i] > 0 then [t[i..i + marks[i]]] else []
  }

  /** `t[i..j]` with the matches in it, numbered from `n`, replaced by what `stand` makes of their numbers. */
  function Form(t: string, marks: seq<nat>, stand: nat -> string, i: nat, j: nat, n: nat): string
    requires |marks| == |t| && j <= |t| && Fits(marks)
    decreases |t| - i
  {
    if i >= j then []
    else Chunk(t, marks, stand, i, n) + Form(t, marks, stand, Next(marks, i), j, n + |Here(t, marks, i)|)
  }

  /** The matches in `t[i..j]`. */
  function Matches(t: string, marks: seq<nat>, i: nat, j: nat): seq<string>
    requires |marks| == |t| && j <= |t| && Fits(marks)
    decreases |t| - i
  {
    if i >= j then [] else Here(t, marks, i) + Matches(t, marks, Next(marks, i), j)
  }

  /** The end of the match of `(?<=[.!?])\s+` at each position, or 0. */
  function Gaps(s: string): (gaps: seq<nat>)
    ensures |gaps| == |s|
  {
    seq(|s|, q requires 0 <= q < |s| => if q > 0 && IsStop(s[q - 1]) && IsSpace(s[q]) then SkipSpace(s, q) else 0)
  }

  predicate GapsFit(gaps: seq<nat>) {
    forall q :: 0 <= q < |gaps| ==> gaps[q] <= |gaps|
  }

  /** Where the pieces between the gaps lie; one piece starts at `p`, and `q` is where the next gap is sought. */
  function Intervals(gaps: seq<nat>, p: nat, q: nat): (r: seq<(nat, nat)>)
    requires GapsFit(gaps) && p <= q <= |gaps|
    ensures forall x :: x in r ==> x.0 <= x.1 <= |gaps|
    decreases |gaps| - q
  {
    if q == |gaps| then [(p, q)]
    else if gaps[q] > q then [(p, q)] + Intervals(gaps, gaps[q], gaps[q])
    else Intervals(gaps, p, q + 1)
  }

  function Slices(s: string, intervals: seq<(nat, nat)>): seq<string>
    requires forall x :: x in intervals ==> x.0 <= x.1 <= |s|
  {
    if intervals == [] then [] else [s[intervals[0].0..intervals[0].1]] + Slices(s, intervals[1..])
  }

  /** `split(/(?<=[.!?])\s+/)` */
  function Split(s: string): seq<string> {
    Slices(s, Intervals(Gaps(s), 0, 0))
  }

  /** `s.replace(pattern, value)` for strings: the first occurrence. */
  function ReplaceFirst(s: string, pattern: string, value: string): string
    decreases |s|
  {
    if pattern <= s then value + s[|pattern|..]
    else if s == [] then []
    else [s[0]] + ReplaceFirst(s[1..], pattern, value)
  }

  function Restore(part: string, placeholders: seq<string>, i: nat): string
    requires i <= |placeholders|
    decreases |placeholders| - i
  {
    if i == |placeholders| then part
    else Restore(ReplaceFirst(part, Placeholder(i), placeholders[i]), placeholders, i + 1)
  }

  function RestoreEach(parts: seq<string>, placeholders: seq<string>): (r: seq<string>)
    ensures |r| == |parts|
  {
    if parts == [] then [] else [Restore(parts[0], placeholders, 0)] + RestoreEach(parts[1..], placeholders)
  }

  function SplitResult(t: string): seq<string> {
    if AllSpace(t) then []
    else
      var marks := Marks(t);
      MarksFit(t);
      RestoreEach(Filter(Split(Form(t, marks, Placeholder, 0, |t|, 0)), 0, NotBlank), Matches(t, marks, 0, |t|))
  }

  method RestorePart(part: string, placeholders: seq<string>) returns (restored: string)
    ensures restored == Restore(part, placeholders, 0)
  {
    restored := part;
    for i := 0 to |placeholders|
      invariant Restore(restored, placeholders, i) == Restore(part, placeholders, 0)
    {
      restored := ReplaceFirst(restored, Placeholder(i), placeholders[i]);
    }
  }

  method RestoreParts(parts: seq<string>, placeholders: seq<string>) returns (restored: seq<string>)
    ensures restored == RestoreEach(parts, placeholders)
  {
    restored := [];
    for k := 0 to |parts|
      invariant restored + RestoreEach(parts[k..], placeholders) == RestoreEach(parts, placeholders)
    {
      assert parts[k..][1..] == parts[k + 1..];
      var part := RestorePart(parts[k], placeholders);
      restored := restored + [part];
    }
  }

  /** `splitSentences` */
  method SplitSentences(t: string) returns (sentences: seq<string>)
    ensures sentences == SplitResult(t)
  {
    if AllSpace(t) { return []; }
    var marks := Marks(t);
    MarksFit(t);
    sentences := RestoreParts(Filter(Split(Form(t, marks, Placeholder, 0, |t|, 0)), 0, NotBlank),
        Matches(t, marks, 0, |t|));
  }
}
