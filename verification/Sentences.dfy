/** What a sentence is: the positions at which `splitSentences` cuts a text. */
module Sentences {
  import opened Text

  predicate Letters(w: string) {
    w != [] && forall k :: 0 <= k < |w| ==> 'a' <= w[k] <= 'z'
  }

  type Word = w: string | Letters(w) witness "a"

  const TITLES: seq<Word> := ["dr", "mr", "mrs", "ms", "prof", "rev", "gen", "sgt", "lt", "col", "jr", "sr"]
  const OTHERS: seq<Word> :=
    ["st", "inc", "corp", "ltd", "co", "vs", "etc", "approx", "dept", "est", "govt", "org", "univ"]

  /** In the order of the alternatives. */
  const ABBREVIATIONS := TITLES + OTHERS

  predicate IsOneOf(w: string, words: seq<Word>)
    decreases |words|, |w|
  {
    words != [] && (w == words[0] || IsOneOf(w, words[1..]))
  }

  predicate IsStop(c: char) {
    c == '.' || c == '!' || c == '?'
  }

  /** Where the run of word characters that ends before `d` starts. */
  function WordStart(t: string, d: nat): (s: nat)
    requires d <= |t|
    ensures s <= d && (forall k :: s <= k < d ==> IsWord(t[k])) && (s > 0 ==> !IsWord(t[s - 1]))
  {
    if d > 0 && IsWord(t[d - 1]) then WordStart(t, d - 1) else d
  }

  /** The full stop at `d` belongs to an abbreviation. */
  predicate AbbreviationEnds(t: string, d: nat)
    requires d < |t|
  {
    t[d] == '.' && IsOneOf(LowerAll(t[WordStart(t, d)..d]), ABBREVIATIONS)
  }

  /** White space at `k` separates sentences: it follows a stop that ends no abbreviation. */
  predicate Break(t: string, k: nat)
    requires k < |t|
  {
    k > 0 && IsSpace(t[k]) && IsStop(t[k - 1]) && !AbbreviationEnds(t, k - 1)
  }

  /** The pieces of `t` from `p` on, of which `p..q` is known to hold no break. */
  function Cut(t: string, p: nat, q: nat): seq<string>
    requires p <= q <= |t|
    decreases |t| - q
  {
    if q == |t| then [t[p..]]
    else if Break(t, q) then
      var e := SkipSpace(t, q);
      assert e > q;
      [t[p..q]] + Cut(t, e, e)
    else Cut(t, p, q + 1)
  }

  /** `parts.filter(keep)`, where `keep` sees the index, which starts at `i`. */
  function Filter(parts: seq<string>, i: nat, keep: (nat, string) -> bool): (r: seq<string>)
    ensures |r| <= |parts| && forall x :: x in r ==> x in parts
  {
    if parts == [] then []
    else (if keep(i, parts[0]) then [parts[0]] else []) + Filter(parts[1..], i + 1, keep)
  }

  predicate NotBlank(i: nat, s: string) {
    !AllSpace(s)
  }

  function SentencesOf(t: string): seq<string> {
    if AllSpace(t) then [] else Filter(Cut(t, 0, 0), 0, NotBlank)
  }

  // ---- A sentence keeps its shape in another text ------------------------------------------------

  /** `u` is `t` from `p` on, and nothing that ends at `p` could be part of a word. */
  ghost predicate Shifted(t: string, p: nat, u: string) {
    p <= |t| && u == t[p..] && (p > 0 ==> !IsWord(t[p - 1]) && !IsStop(t[p - 1]))
  }

  lemma ShiftedWordStart(t: string, p: nat, u: string, d: nat)
    requires Shifted(t, p, u) && d <= |u|
    ensures WordStart(t, p + d) == p + WordStart(u, d)
  {
    if d > 0 {
      assert t[p + d - 1] == u[d - 1];
      if IsWord(u[d - 1]) { ShiftedWordStart(t, p, u, d - 1); }
    }
  }

  lemma ShiftedAbbreviation(t: string, p: nat, u: string, d: nat)
    requires Shifted(t, p, u) && d < |u|
    ensures AbbreviationEnds(t, p + d) == AbbreviationEnds(u, d)
  {
    ShiftedWordStart(t, p, u, d);
    var s := WordStart(u, d);
    assert t[p + s..p + d] == u[s..d];
  }

  lemma BreakIs(t: string, k: nat)
    requires 0 < k < |t|
    ensures Break(t, k) == (IsSpace(t[k]) && IsStop(t[k - 1]) && !AbbreviationEnds(t, k - 1))
  {
  }

  lemma ShiftedBreak(t: string, p: nat, u: string, k: nat)
    requires Shifted(t, p, u) && k < |u|
    ensures Break(t, p + k) == Break(u, k)
  {
    assert t[p + k] == u[k];
    if k > 0 {
      ShiftedAbbreviation(t, p, u, k - 1);
      assert p + (k - 1) == p + k - 1 && t[p + k - 1] == u[k - 1];
      BreakIs(t, p + k);
      BreakIs(u, k);
    }
  }

  lemma ShiftedSkip(t: string, p: nat, u: string, k: nat)
    requires Shifted(t, p, u) && k <= |u|
    ensures SkipSpace(t, p + k) == p + SkipSpace(u, k)
    decreases |u| - k
  {
    if k < |u| && IsSpace(u[k]) { ShiftedSkip(t, p, u, k + 1); }
  }

  /** Cutting does not see what lies before a position that no word crosses. */
  lemma {:induction false} ShiftedCut(t: string, p: nat, u: string, a: nat, q: nat)
    requires Shifted(t, p, u) && a <= q <= |u|
    ensures Cut(t, p + a, p + q) == Cut(u, a, q)
    decreases |u| - q
  {
    if q < |u| {
      ShiftedBreak(t, p, u, q);
      if Break(u, q) {
        assert t[p + a..p + q] == u[a..q];
        ShiftedSkip(t, p, u, q);
        var e := SkipSpace(u, q);
        ShiftedCut(t, p, u, e, e);
      } else {
        ShiftedCut(t, p, u, a, q + 1);
      }
    } else {
      assert t[p + a..] == u[a..];
    }
  }

  lemma {:induction false} PrefixWordStart(t: string, u: string, d: nat)
    requires d <= |u| && u <= t
    ensures WordStart(t, d) == WordStart(u, d)
  {
    if d > 0 && IsWord(u[d - 1]) { PrefixWordStart(t, u, d - 1); }
  }

  lemma PrefixAbbreviation(t: string, u: string, d: nat)
    requires d < |u| && u <= t
    ensures AbbreviationEnds(t, d) == AbbreviationEnds(u, d)
  {
    PrefixWordStart(t, u, d);
    var s := WordStart(u, d);
    assert t[s..d] == u[s..d];
  }

  /** Whether a position is a break depends on nothing behind it. */
  lemma PrefixBreak(t: string, u: string, k: nat)
    requires k < |u| && u <= t
    ensures Break(t, k) == Break(u, k)
  {
    if k > 0 {
      PrefixAbbreviation(t, u, k - 1);
    }
  }

  // ---- Joining sentences and cutting again -------------------------------------------------------

  /** No break inside. */
  predicate Whole(s: string) {
    forall k :: 0 <= k < |s| ==> !Break(s, k)
  }

  /** White space after `s` is a break. */
  predicate Ends(s: string) {
    s != [] && IsStop(s[|s| - 1]) && !AbbreviationEnds(s, |s| - 1)
  }

  /**
   * What the pieces of a text look like: whole, and separated where they meet. `first` says whether
   * the piece in front may start with white space.
   */
  ghost predicate Pieces(parts: seq<string>, first: bool) {
    && (forall i :: 0 <= i < |parts| ==> Whole(parts[i]))
    && (forall i :: 0 <= i < |parts| - 1 ==> Ends(parts[i]))
    && (forall i :: (if first then 0 else -1) < i < |parts| ==> parts[i] == [] || !IsSpace(parts[i][0]))
  }

  /** Any selection of pieces is a list of pieces. */
  lemma {:induction false} FilterPieces(parts: seq<string>, first: bool, i: nat, keep: (nat, string) -> bool)
    requires Pieces(parts, first)
    ensures Pieces(Filter(parts, i, keep), first)
    decreases |parts|
  {
    if parts != [] {
      var rest, kept := parts[1..], Filter(parts[1..], i + 1, keep);
      assert Pieces(rest, false) by {
        assert forall j :: 0 <= j < |rest| ==> rest[j] == parts[j + 1];
      }
      FilterPieces(rest, false, i + 1, keep);
      var r := Filter(parts, i, keep);
      if keep(i, parts[0]) {
        assert r == [parts[0]] + kept;
        assert kept != [] ==> rest != [] && Ends(parts[0]);
      } else {
        assert r == kept;
      }
    }
  }

  /** Cutting yields pieces. */
  lemma {:induction false} CutPieces(t: string, p: nat, q: nat)
    requires p <= q <= |t| && (forall k :: p <= k < q ==> !Break(t, k))
    requires p > 0 ==> IsSpace(t[p - 1]) && (p < |t| ==> !IsSpace(t[p]))
    ensures Pieces(Cut(t, p, q), p == 0) && Cut(t, p, q) != []
    decreases |t| - q
  {
    if q == |t| {
      CutPiece(t, p, q);
      assert t[p..] == t[p..q];
    } else if Break(t, q) {
      CutPiece(t, p, q);
      var e := SkipSpace(t, q);
      CutPieces(t, e, e);
      EndsAtBreak(t, p, q);
      var rest := Cut(t, e, e);
      assert Cut(t, p, q) == [t[p..q]] + rest;
    } else {
      CutPieces(t, p, q + 1);
    }
  }

  lemma CutPiece(t: string, p: nat, q: nat)
    requires p <= q <= |t| && (forall k :: p <= k < q ==> !Break(t, k)) && (p > 0 ==> IsSpace(t[p - 1]))
    ensures Whole(t[p..q])
  {
    var u, s := t[p..], t[p..q];
    forall k | 0 <= k < |s| ensures !Break(s, k) {
      ShiftedBreak(t, p, u, k);
      PrefixBreak(u, s, k);
    }
  }

  lemma EndsAtBreak(t: string, p: nat, q: nat)
    requires p <= q < |t| && Break(t, q) && (p > 0 ==> IsSpace(t[p - 1])) && (p == q ==> p > 0 && !IsSpace(t[p]))
    ensures Ends(t[p..q])
  {
    var u, s := t[p..], t[p..q];
    ShiftedAbbreviation(t, p, u, q - 1 - p);
    PrefixAbbreviation(u, s, q - 1 - p);
  }

  function Join(parts: seq<string>): string {
    if parts == [] then [] else if |parts| == 1 then parts[0] else parts[0] + (" " + Join(parts[1..]))
  }

  /** Up to a break, cutting walks on. */
  lemma {:induction false} CutWalks(t: string, p: nat, q: nat, r: nat)
    requires p <= q <= r <= |t| && forall k :: q <= k < r ==> !Break(t, k)
    ensures Cut(t, p, q) == Cut(t, p, r)
    decreases r - q
  {
    if q < r { CutWalks(t, p, q + 1, r); }
  }

  /** Cutting takes the first piece off. */
  lemma {:induction false} CutFirst(s: string, c: char, u: string)
    requires Whole(s) && Ends(s) && IsSpace(c) && u != [] && !IsSpace(u[0])
    ensures Cut(s + ([c] + u), 0, 0) == [s] + Cut(u, 0, 0)
  {
    var t, n := s + ([c] + u), |s|;
    forall k | 0 <= k < n ensures !Break(t, k) { PrefixBreak(t, s, k); }
    CutWalks(t, 0, 0, n);
    AfterEnd(s, c, u);
    SkipOne(s, c, u);
    ShiftedByOne(s, c, u);
    ShiftedCut(t, n + 1, u, 0, 0);
    assert t[0..n] == s;
  }

  /** Pieces, joined by single spaces, are the pieces of the result. */
  lemma {:induction false} CutJoin(parts: seq<string>)
    requires parts != [] && Pieces(parts, true) && forall i :: 0 < i < |parts| ==> parts[i] != []
    ensures Cut(Join(parts), 0, 0) == parts
  {
    var t, s := Join(parts), parts[0];
    if |parts| == 1 {
      CutWalks(t, 0, 0, |t|);
    } else {
      var rest := parts[1..];
      assert Pieces(rest, true);
      CutJoin(rest);
      var u, n := Join(rest), |s|;
      assert t == s + (" " + u);
      assert u != [] && !IsSpace(u[0]) by { assert rest[0] == parts[1]; }
      CutFirst(s, ' ', u);
    }
  }

  lemma AfterEnd(s: string, c: char, u: string)
    requires Ends(s) && IsSpace(c)
    ensures Break(s + ([c] + u), |s|)
  {
    PrefixAbbreviation(s + ([c] + u), s, |s| - 1);
  }

  lemma {:induction false} SkipOne(s: string, c: char, u: string)
    requires IsSpace(c) && u != [] && !IsSpace(u[0])
    ensures SkipSpace(s + ([c] + u), |s|) == |s| + 1
  {
    var t := s + ([c] + u);
    assert t[|s|] == c && t[|s| + 1] == u[0];
    assert SkipSpace(t, |s| + 1) == |s| + 1;
  }

  lemma ShiftedByOne(s: string, c: char, u: string)
    requires IsSpace(c)
    ensures Shifted(s + ([c] + u), |s| + 1, u)
  {
    var t := s + ([c] + u);
    assert t[|s|] == c && t[|s| + 1..] == u;
  }

  // ---- Trimming ----------------------------------------------------------------------------------

  lemma {:induction false} SkipSpaceConcat(x: string, y: string, i: nat)
    requires i <= |x| && exists k :: i <= k < |x| && !IsSpace(x[k])
    ensures SkipSpace(x + y, i) == SkipSpace(x, i)
    decreases |x| - i
  {
    assert (x + y)[i] == x[i];
    if IsSpace(x[i]) {
      var k :| i <= k < |x| && !IsSpace(x[k]);
      assert k > i;
      SkipSpaceConcat(x, y, i + 1);
    }
  }

  lemma TrimStartConcat(x: string, y: string)
    requires !AllSpace(x)
    ensures TrimStart(x + y) == TrimStart(x) + y
  {
    var k :| 0 <= k < |x| && !IsSpace(x[k]);
    SkipSpaceConcat(x, y, 0);
  }

  lemma SkipSpaceBackConcat(x: string, y: string, i: nat)
    requires i <= |y| && exists k :: 0 <= k < i && !IsSpace(y[k])
    ensures SkipSpaceBack(x + y, |x| + i) == |x| + SkipSpaceBack(y, i)
  {
    assert (x + y)[|x| + i - 1] == y[i - 1];
    if IsSpace(y[i - 1]) {
      var k :| 0 <= k < i && !IsSpace(y[k]);
      assert k < i - 1;
      SkipSpaceBackConcat(x, y, i - 1);
    }
  }

  lemma TrimEndConcat(x: string, y: string)
    requires !AllSpace(y)
    ensures TrimEnd(x + y) == x + TrimEnd(y)
  {
    var k :| 0 <= k < |y| && !IsSpace(y[k]);
    SkipSpaceBackConcat(x, y, |y|);
  }

  function TrimFirst(parts: seq<string>): (r: seq<string>)
    ensures |r| == |parts|
  {
    if parts == [] then [] else [TrimStart(parts[0])] + parts[1..]
  }

  function TrimLast(parts: seq<string>): (r: seq<string>)
    ensures |r| == |parts|
  {
    if parts == [] then [] else parts[..|parts| - 1] + [TrimEnd(parts[|parts| - 1])]
  }

  /** The outer ends trimmed, as trimming the joined text does. */
  function TrimOuter(parts: seq<string>): (r: seq<string>)
    ensures |r| == |parts|
  {
    TrimLast(TrimFirst(parts))
  }

  predicate NoneBlank(parts: seq<string>) {
    forall i :: 0 <= i < |parts| ==> !AllSpace(parts[i])
  }

  lemma {:induction false} JoinNotBlank(parts: seq<string>)
    requires parts != [] && NoneBlank(parts)
    ensures !AllSpace(Join(parts))
  {
    var s := parts[0];
    var k :| 0 <= k < |s| && !IsSpace(s[k]);
    assert Join(parts)[k] == s[k];
  }

  lemma {:induction false} TrimStartJoin(parts: seq<string>)
    requires NoneBlank(parts)
    ensures TrimStart(Join(parts)) == Join(TrimFirst(parts))
  {
    if |parts| > 1 {
      assert TrimFirst(parts)[1..] == parts[1..];
      TrimStartConcat(parts[0], " " + Join(parts[1..]));
    }
  }

  lemma StillNotBlank(x: string, y: string)
    requires !AllSpace(y)
    ensures !AllSpace(x + y)
  {
    var k :| 0 <= k < |y| && !IsSpace(y[k]);
    assert (x + y)[|x| + k] == y[k];
  }

  lemma {:induction false} TrimEndJoin(parts: seq<string>)
    requires NoneBlank(parts)
    ensures TrimEnd(Join(parts)) == Join(TrimLast(parts))
  {
    if |parts| > 1 {
      var rest := parts[1..];
      TrimEndJoin(rest);
      JoinNotBlank(rest);
      StillNotBlank(" ", Join(rest));
      TrimEndConcat(parts[0], " " + Join(rest));
      TrimEndConcat(" ", Join(rest));
      assert TrimLast(parts)[0] == parts[0] && TrimLast(parts)[1..] == TrimLast(rest);
    }
  }

  lemma TrimStaysNotBlank(s: string)
    requires !AllSpace(s)
    ensures !AllSpace(TrimStart(s)) && !AllSpace(TrimEnd(s))
  {
    var k :| 0 <= k < |s| && !IsSpace(s[k]);
    var d, e := SkipSpace(s, 0), SkipSpaceBack(s, |s|);
    assert TrimStart(s)[k - d] == s[k] && TrimEnd(s)[k] == s[k];
  }

  lemma ShiftedPiece(s: string, d: nat, u: string)
    requires Shifted(s, d, u) && Whole(s)
    ensures Whole(u) && (Ends(s) && u != [] ==> Ends(u))
  {
    forall k | 0 <= k < |u| ensures !Break(u, k) { ShiftedBreak(s, d, u, k); }
    if u != [] { ShiftedAbbreviation(s, d, u, |u| - 1); }
  }

  /** Trimming the front of a piece. */
  lemma TrimStartPiece(s: string)
    requires Whole(s) && !AllSpace(s)
    ensures Whole(TrimStart(s)) && (Ends(s) ==> Ends(TrimStart(s)))
  {
    var d := SkipSpace(s, 0);
    TrimStaysNotBlank(s);
    ShiftedPiece(s, d, s[d..]);
  }

  lemma TrimFirstPieces(parts: seq<string>)
    requires Pieces(parts, true) && NoneBlank(parts)
    ensures Pieces(TrimFirst(parts), true) && NoneBlank(TrimFirst(parts))
  {
    if parts != [] {
      TrimStartPiece(parts[0]);
      TrimStaysNotBlank(parts[0]);
      var r := TrimFirst(parts);
      assert r[0] == TrimStart(parts[0]) && forall i :: 0 < i < |r| ==> r[i] == parts[i];
    }
  }

  lemma TrimLastPieces(parts: seq<string>)
    requires Pieces(parts, true) && NoneBlank(parts)
    ensures Pieces(TrimLast(parts), true) && NoneBlank(TrimLast(parts))
  {
    if parts != [] {
      var s := parts[|parts| - 1];
      var u := TrimEnd(s);
      TrimStaysNotBlank(s);
      forall k | 0 <= k < |u| ensures !Break(u, k) { PrefixBreak(s, u, k); }
    }
  }

  lemma {:induction false} FilterKeepsAll(parts: seq<string>, i: nat, keep: (nat, string) -> bool)
    requires forall k :: 0 <= k < |parts| ==> keep(i + k, parts[k])
    ensures Filter(parts, i, keep) == parts
  {
    if parts != [] {
      forall k | 0 <= k < |parts[1..]| ensures keep(i + 1 + k, parts[1..][k]) {
        assert keep(i + (k + 1), parts[k + 1]);
      }
      assert keep(i + 0, parts[0]);
      FilterKeepsAll(parts[1..], i + 1, keep);
    }
  }

  lemma {:induction false} TrimJoin(parts: seq<string>)
    requires Pieces(parts, true) && NoneBlank(parts)
    ensures Trim(Join(parts)) == Join(TrimOuter(parts)) && Pieces(TrimOuter(parts), true) && NoneBlank(TrimOuter(parts))
  {
    if parts == [] {
      assert TrimOuter(parts) == [];
    } else {
      TrimFirstPieces(parts);
      TrimLastPieces(TrimFirst(parts));
      TrimStartJoin(parts);
      TrimEndJoin(TrimFirst(parts));
    }
  }

  /** Pieces joined by spaces and trimmed are, up to the trimmed ends, the sentences of the result. */
  lemma {:induction false} Resplit(parts: seq<string>)
    requires Pieces(parts, true) && NoneBlank(parts)
    ensures SentencesOf(Trim(Join(parts))) == TrimOuter(parts)
  {
    if parts != [] {
      var r := TrimOuter(parts);
      TrimJoin(parts);
      CutJoin(r);
      JoinNotBlank(r);
      FilterKeepsAll(r, 0, NotBlank);
    }
  }
}
