/** The splitter and the sentences: exactly when it computes them, and a guard under which it does. */
module SplitterCorrectness {
  import opened Text
  import opened Decimal
  import opened Sentences
  import opened SentenceSplitter
  import opened SplitterRefinement
  import opened SplitterRestoration

  // ---- One part ----------------------------------------------------------------------------------

  lemma MatchIsValue(t: string, i: nat)
    requires i <= |t| && Match(t, i) > 0
    ensures i + Match(t, i) <= |t| && IsValue(t[i..i + Match(t, i)])
  {
    MatchFacts(t, i);
    var e := i + Match(t, i);
    var w, v := t[i..e - 2], t[e - 2..e];
    assert v[0] == '.' && Blocked(v);
    BlockedBehind(w, v);
    assert t[i..e] == w + v && t[i..e][0] == t[i] == w[0];
  }

  lemma {:induction false} MatchesAreValues(t: string, marks: seq<nat>, p: nat, q: nat)
    requires marks == Marks(t) && Fits(marks) && q <= |t|
    ensures AllValues(Matches(t, marks, p, q))
    decreases |t| - p
  {
    if p < q {
      MatchesAreValues(t, marks, Next(marks, p), q);
      FormUnfolds(t, marks, Placeholder, p, q, 0);
      if marks[p] > 0 { MatchIsValue(t, p); }
    }
  }

  /** In the part from `p` to `q` each placeholder is replaced as it is meant to be. */
  predicate PartComesBack(t: string, p: nat, q: nat)
    requires p <= q <= |t|
  {
    var marks := Marks(t);
    MarksFit(t);
    UndisturbedFrom(t, marks, p, q, Number(t, marks, p), 0, |Matches(t, marks, 0, |t|)|)
  }

  /** A part of the protected text is restored to the part of the text exactly then. */
  lemma {:induction false} PieceIsRestored(t: string, marks: seq<nat>, p: nat, q: nat)
    requires marks == Marks(t) && Marked(t, marks) && p <= q <= |t| && Between(marks, p) && Between(marks, q)
    ensures Restore(Form(t, marks, Placeholder, p, q, Number(t, marks, p)), Matches(t, marks, 0, |t|), 0) == t[p..q]
            <==> PartComesBack(t, p, q)
  {
    var a, ps := Number(t, marks, p), Matches(t, marks, 0, |t|);
    var b, x := a + |Matches(t, marks, p, q)|, Form(t, marks, Placeholder, p, q, a);
    SliceIsForm(t, marks, Placeholder, p, q);
    BetweenReaches(t, marks, p, q);
    MatchesAreValues(t, marks, 0, |t|);
    assert ps[a..] == Matches(t, marks, p, q) + Matches(t, marks, q, |t|);
    assert t[p..p] + (x + []) == x;
    assert Matches(t, marks, p, p) == [];
    ComesBack(t, marks, p, q, a, b, p, a, x, ps, 0);
  }

  // ---- A guard -----------------------------------------------------------------------------------

  /** Nothing in the text could end a placeholder. */
  ghost predicate TagFree(t: string) {
    forall n: nat, k: nat {:trigger Tag(n), t[k..]} :: k <= |t| ==> !(Tag(n) + "\0" <= t[k..])
  }

  /** Where a form starts with a word character or, behind one, with NUL, the text goes on with that character. */
  lemma FormStart(t: string, marks: seq<nat>, a: nat, q: nat, n: nat)
    requires Marked(t, marks) && a <= |t| && q <= |t| && Form(t, marks, Placeholder, a, q, n) != []
    requires var c := Form(t, marks, Placeholder, a, q, n)[0]; IsWord(c) || (c == '\0' && a > 0 && IsWord(t[a - 1]))
    ensures a < q && Form(t, marks, Placeholder, a, q, n) == [t[a]] + Form(t, marks, Placeholder, a + 1, q, n)
  {
    FormUnfolds(t, marks, Placeholder, a, q, n);
  }

  /** A word and a NUL begin the form only if they begin the text. */
  lemma {:induction false} FormWord(t: string, marks: seq<nat>, a: nat, q: nat, n: nat, w: string)
    requires Marked(t, marks) && a <= |t| && q <= |t| && (forall k :: 0 <= k < |w| ==> IsWord(w[k]))
    requires w == [] ==> a > 0 && IsWord(t[a - 1])
    requires w + "\0" <= Form(t, marks, Placeholder, a, q, n)
    ensures w + "\0" <= t[a..]
    decreases |w|
  {
    var f := Form(t, marks, Placeholder, a, q, n);
    assert f[0] == (w + "\0")[0];
    FormStart(t, marks, a, q, n);
    if w != [] {
      PrefixTail(w, t[a], Form(t, marks, Placeholder, a + 1, q, n));
      FormWord(t, marks, a + 1, q, n, w[1..]);
      PrefixHead(w, t, a);
    }
  }

  lemma PrefixHead(w: string, t: string, a: nat)
    requires w != [] && a < |t| && w[0] == t[a] && w[1..] + "\0" <= t[a + 1..]
    ensures w + "\0" <= t[a..]
  {
    assert w + "\0" == [w[0]] + (w[1..] + "\0") && t[a..] == [t[a]] + t[a + 1..];
  }

  lemma {:induction false} TagCannotBegin(t: string, marks: seq<nat>, a: nat, q: nat, n: nat, i: nat)
    requires Marked(t, marks) && TagFree(t) && a <= |t| && q <= |t|
    ensures !(Tag(i) + "\0" <= Form(t, marks, Placeholder, a, q, n))
  {
    TagIsWord(i);
    if Tag(i) + "\0" <= Form(t, marks, Placeholder, a, q, n) { FormWord(t, marks, a, q, n, Tag(i)); }
  }

  lemma {:induction false} PlaceholderTail(c: char, y: string, i: nat)
    ensures Placeholder(i) <= [c] + y ==> Tag(i) + "\0" <= y
    ensures Occurs([c] + y, Placeholder(i)) ==> Tag(i) + "\0" <= y || Occurs(y, Placeholder(i))
  {
    var z, pattern := [c] + y, Placeholder(i);
    assert z[1..] == y && pattern[1..] == Tag(i) + "\0";
    if pattern <= z { assert pattern[1..] <= z[1..]; }
  }

  lemma {:induction false} AbsentBehind(i: nat, n: nat, y: string)
    requires i != n && !Occurs(y, Placeholder(i)) && !(Tag(i) + "\0" <= y)
    ensures !Occurs(Placeholder(n) + y, Placeholder(i))
  {
    ThroughPlaceholder(i, n, y, []);
    ClosingNul(i, y, []);
  }

  lemma {:induction false} AbsentFromNothing(x: string, i: nat)
    requires x == []
    ensures !Occurs(x, Placeholder(i))
  {
  }

  lemma AbsentFromMore(t: string, marks: seq<nat>, a: nat, q: nat, n: nat, i: nat, y: string)
    requires |marks| == |t| && Fits(marks) && a < q <= |t| && i < n
    requires y == Form(t, marks, Placeholder, Next(marks, a), q, n + |Here(t, marks, a)|)
    requires !Occurs(y, Placeholder(i)) && !(Tag(i) + "\0" <= y)
    ensures !Occurs(Form(t, marks, Placeholder, a, q, n), Placeholder(i))
  {
    FormUnfolds(t, marks, Placeholder, a, q, n);
    if marks[a] > 0 { AbsentBehind(i, n, y); } else { PlaceholderTail(t[a], y, i); }
  }

  /** The placeholders of a form are met in order: an earlier one does not occur in it. */
  lemma {:induction false} EarlierIsAbsent(t: string, marks: seq<nat>, a: nat, q: nat, n: nat, i: nat)
    requires Marked(t, marks) && TagFree(t) && a <= |t| && q <= |t| && i < n
    ensures !Occurs(Form(t, marks, Placeholder, a, q, n), Placeholder(i))
    decreases |t| - a
  {
    if a < q {
      var e, n' := Next(marks, a), n + |Here(t, marks, a)|;
      var y := Form(t, marks, Placeholder, e, q, n');
      TagCannotBegin(t, marks, e, q, n', i);
      EarlierIsAbsent(t, marks, e, q, n', i);
      AbsentFromMore(t, marks, a, q, n, i, y);
    } else {
      AbsentFromNothing(Form(t, marks, Placeholder, a, q, n), i);
    }
  }

  lemma SlicePrefix(w: string, t: string, k: nat, q: nat)
    requires k <= q <= |t| && w <= t[k..q]
    ensures w <= t[k..]
  {
  }

  lemma {:induction false} AbsentFromText(t: string, p: nat, q: nat, i: nat)
    requires TagFree(t) && p <= q <= |t|
    ensures !Occurs(t[p..q], Placeholder(i))
    decreases q - p
  {
    if p < q {
      AbsentFromText(t, p + 1, q, i);
      PlaceholderTail(t[p], t[p + 1..q], i);
      assert [t[p]] + t[p + 1..q] == t[p..q];
      if Tag(i) + "\0" <= t[p + 1..q] { SlicePrefix(Tag(i) + "\0", t, p + 1, q); }
    }
  }

  lemma TagFreeComesBack(t: string, p: nat, q: nat)
    requires TagFree(t) && p <= q <= |t|
    ensures PartComesBack(t, p, q)
  {
    var marks := Marks(t);
    MarksFit(t);
    MarksAreMarked(t);
    var a := Number(t, marks, p);
    forall k | 0 <= k < |Matches(t, marks, 0, |t|)| ensures Undisturbed(t, marks, p, q, a, k) {
      if k < a {
        EarlierIsAbsent(t, marks, p, q, a, k);
      } else if k < a + |Matches(t, marks, p, q)| {
        AbsentFromText(t, p, MatchStart(marks, p, k - a), k);
      } else {
        AbsentFromText(t, p, q, k);
      }
    }
  }

  // ---- All parts ---------------------------------------------------------------------------------

  /** Every part that is not blank comes back. */
  predicate PartsComeBack(t: string, intervals: seq<(nat, nat)>)
    requires forall x :: x in intervals ==> x.0 <= x.1 <= |t|
  {
    intervals == []
    || ((AllSpace(t[intervals[0].0..intervals[0].1]) || PartComesBack(t, intervals[0].0, intervals[0].1))
        && PartsComeBack(t, intervals[1..]))
  }

  lemma {:induction false} FirstRestored(x: string, xs: seq<string>, y: string, ys: seq<string>, i: nat,
                                         ps: seq<string>)
    requires AllSpace(x) == AllSpace(y) && |Filter(xs, i + 1, NotBlank)| == |Filter(ys, i + 1, NotBlank)|
    ensures |Filter([x] + xs, i, NotBlank)| == |Filter([y] + ys, i, NotBlank)|
    ensures RestoreEach(Filter([x] + xs, i, NotBlank), ps) == Filter([y] + ys, i, NotBlank)
            <==> && (AllSpace(y) || Restore(x, ps, 0) == y)
                 && RestoreEach(Filter(xs, i + 1, NotBlank), ps) == Filter(ys, i + 1, NotBlank)
  {
    assert ([x] + xs)[1..] == xs && ([y] + ys)[1..] == ys;
    var kept, meant := Filter(xs, i + 1, NotBlank), Filter(ys, i + 1, NotBlank);
    assert [] + kept == kept && [] + meant == meant;
    if !AllSpace(x) {
      assert ([x] + kept)[1..] == kept;
      assert ([Restore(x, ps, 0)] + RestoreEach(kept, ps))[1..] == RestoreEach(kept, ps) && ([y] + meant)[1..] == meant;
    }
  }

  lemma {:induction false} PiecesAreRestored(t: string, marks: seq<nat>, intervals: seq<(nat, nat)>, i: nat)
    requires marks == Marks(t) && Marked(t, marks) && AllBetween(marks, intervals)
    requires var f, s := PlaceIn(t, marks, Placeholder), Protected(t, marks, Placeholder);
             forall x :: x in Mapped(f, intervals) ==> x.0 <= x.1 <= |s|
    ensures var f, s := PlaceIn(t, marks, Placeholder), Protected(t, marks, Placeholder);
            var parts, meant := Filter(Slices(s, Mapped(f, intervals)), i, NotBlank),
                Filter(Slices(t, intervals), i, NotBlank);
            && |parts| == |meant|
            && (RestoreEach(parts, Matches(t, marks, 0, |t|)) == meant <==> PartsComeBack(t, intervals))
    decreases |intervals|
  {
    if intervals != [] {
      var f, s, ps := PlaceIn(t, marks, Placeholder), Protected(t, marks, Placeholder), Matches(t, marks, 0, |t|);
      var (p, q) := intervals[0];
      var rest := intervals[1..];
      assert Mapped(f, intervals)[1..] == Mapped(f, rest);
      PiecesAreRestored(t, marks, rest, i + 1);
      SliceIsForm(t, marks, Placeholder, p, q);
      PieceIsRestored(t, marks, p, q);
      BetweenReaches(t, marks, p, q);
      PlaceholdersStand();
      FormBlank(t, marks, Placeholder, p, q, Number(t, marks, p));
      FirstRestored(s[f(p)..f(q)], Slices(s, Mapped(f, rest)), t[p..q], Slices(t, rest), i, ps);
    }
  }

  lemma {:induction false} OnePartFails(t: string, intervals: seq<(nat, nat)>, k: nat)
    requires k < |intervals| && forall x :: x in intervals ==> x.0 <= x.1 <= |t|
    requires !AllSpace(t[intervals[k].0..intervals[k].1]) && !PartComesBack(t, intervals[k].0, intervals[k].1)
    ensures !PartsComeBack(t, intervals)
    decreases k
  {
    if k > 0 { OnePartFails(t, intervals[1..], k - 1); }
  }

  /** Every sentence of the text comes back from its placeholders. */
  predicate Restorable(t: string) {
    AllSpace(t) || PartsComeBack(t, Intervals(Breaks(t), 0, 0))
  }

  /** The splitter with its placeholders computes the sentences exactly of the texts that are restorable. */
  lemma SplitterIsSentences(t: string)
    ensures SplitResult(t) == SentencesOf(t) <==> Restorable(t)
  {
    if !AllSpace(t) {
      var marks := Marks(t);
      MarksFit(t);
      MarksAreMarked(t);
      PlaceholdersStand();
      var f, s, breaks := PlaceIn(t, marks, Placeholder), Protected(t, marks, Placeholder), Breaks(t);
      GapsCorrespond(t, marks, Placeholder);
      IntervalsCorrespond(marks, breaks, Gaps(s), f, 0, 0);
      IntervalsBetween(marks, breaks, Gaps(s), f, 0, 0);
      PiecesAreRestored(t, marks, Intervals(breaks, 0, 0), 0);
      CutIsSlices(t, 0, 0);
    }
  }

  lemma {:induction false} TagFreeParts(t: string, intervals: seq<(nat, nat)>)
    requires TagFree(t) && forall x :: x in intervals ==> x.0 <= x.1 <= |t|
    ensures PartsComeBack(t, intervals)
  {
    if intervals != [] {
      TagFreeComesBack(t, intervals[0].0, intervals[0].1);
      TagFreeParts(t, intervals[1..]);
    }
  }

  /** In particular of those in which no placeholder could end, all texts without NUL among them. */
  lemma TagFreeIsRestorable(t: string)
    requires TagFree(t)
    ensures Restorable(t)
  {
    TagFreeParts(t, Intervals(Breaks(t), 0, 0));
  }

  lemma LastOfPrefix(w: string, t: string, k: nat)
    requires k <= |t| && w != [] && w <= t[k..]
    ensures t[k + |w| - 1] == w[|w| - 1]
  {
  }

  lemma NulFreeIsTagFree(t: string)
    requires NulFree(t)
    ensures TagFree(t)
  {
    forall n: nat, k: nat | k <= |t| ensures !(Tag(n) + "\0" <= t[k..]) {
      var w := Tag(n) + "\0";
      assert w[|w| - 1] == '\0';
      if w <= t[k..] { LastOfPrefix(w, t, k); }
    }
  }

  // ---- Texts that are split wrongly --------------------------------------------------------------

  const NUL_TEXT := "\0ABBR0\0Dr. A"

  lemma NulTextMatchStarts(i: nat)
    requires i <= 12 && Match(NUL_TEXT, i) > 0
    ensures i == 7
  {
    var t := NUL_TEXT;
    assert t[9] == '.' && !IsWord(t[6]) && IsWord(t[7]);
    MatchFacts(t, i);
    assert i + Match(t, i) - 2 == 9;
  }

  lemma NulTextMatches(i: nat)
    requires i <= 12
    ensures Match(NUL_TEXT, i) == if i == 7 then 4 else 0
  {
    var t := NUL_TEXT;
    assert t[6] == '\0' && t[9] == '.';
    if i == 7 {
      var u := t[7..9];
      assert IsWord(t[7]) && IsWord(t[8]);
      WordStartIs(t, 7, 9);
      assert LowerAll(u) == "dr";
      ProtectedIsMatched(t, 9);
    } else if Match(t, i) > 0 {
      NulTextMatchStarts(i);
    }
  }

  lemma FirstPlaceholder()
    ensures Placeholder(0) == "\0ABBR0\0"
  {
    assert Dec(0) == "0";
    assert Tag(0) == "ABBR0";
  }

  lemma FormPlainStep(t: string, marks: seq<nat>, stand: nat -> string, p: nat, q: nat, n: nat)
    requires |marks| == |t| && Fits(marks) && p < q <= |t| && marks[p] == 0
    ensures Form(t, marks, stand, p, q, n) == [t[p]] + Form(t, marks, stand, p + 1, q, n)
    ensures Matches(t, marks, p, q) == Matches(t, marks, p + 1, q)
  {
    FormUnfolds(t, marks, stand, p, q, n);
  }

  lemma {:induction false} FormPlain(t: string, marks: seq<nat>, stand: nat -> string, p: nat, q: nat, n: nat)
    requires |marks| == |t| && Fits(marks) && p <= q <= |t| && forall k :: p <= k < q ==> marks[k] == 0
    ensures Form(t, marks, stand, p, q, n) == t[p..q] && Matches(t, marks, p, q) == [] && Reaches(marks, p, q)
    decreases q - p
  {
    if p < q {
      FormPlain(t, marks, stand, p + 1, q, n);
      FormPlainStep(t, marks, stand, p, q, n);
      assert [t[p]] + t[p + 1..q] == t[p..q];
    } else {
      assert t[p..q] == [];
    }
  }

  lemma NulTextParts()
    ensures NUL_TEXT[0..7] == Placeholder(0) && NUL_TEXT[7..11] == "Dr. " && NUL_TEXT[11..12] == "A"
  {
    FirstPlaceholder();
  }

  lemma {:induction false} NulTextForm(t: string, marks: seq<nat>)
    requires |t| == |marks| == 12 && Fits(marks) && forall i :: 0 <= i < 12 ==> marks[i] == if i == 7 then 4 else 0
    ensures Form(t, marks, Placeholder, 0, 12, 0) == t[0..7] + (Placeholder(0) + t[11..12])
    ensures Matches(t, marks, 0, 12) == [t[7..11]]
  {
    FormPlain(t, marks, Placeholder, 0, 7, 0);
    FormConcat(t, marks, Placeholder, 0, 7, 12, 0);
    FormUnfolds(t, marks, Placeholder, 7, 12, 0);
    FormPlain(t, marks, Placeholder, 11, 12, 1);
  }

  lemma OnePiece(s: string)
    requires s != [] && forall k :: 0 <= k < |s| ==> !IsStop(s[k])
    ensures Split(s) == [s]
  {
    var gaps := Gaps(s);
    IntervalsWalk(gaps, 0, 0, |s|);
    assert Intervals(gaps, 0, |s|) == [(0, |s|)];
    assert s[0..|s|] == s;
    assert Slices(s, [(0, |s|)]) == [s] + Slices(s, []);
  }

  lemma NotBlankAlone(s: string)
    requires s != [] && !IsSpace(s[0])
    ensures Filter([s], 0, NotBlank) == [s]
  {
    assert [s][1..] == [];
  }

  /** Restoring replaces what looks like a placeholder, and the placeholder stays. */
  lemma RestoreFirst(y: string, value: string)
    ensures RestoreEach([Placeholder(0) + y], [value]) == [value + y]
  {
    var part := Placeholder(0) + y;
    assert part[|Placeholder(0)|..] == y;
    assert Restore(part, [value], 0) == Restore(value + y, [value], 1) == value + y;
    assert RestoreEach([part], [value]) == [Restore(part, [value], 0)] + RestoreEach([part][1..], [value]);
  }

  lemma NulTextIsOneSentence()
    ensures SentencesOf(NUL_TEXT) == [NUL_TEXT]
  {
    var t := NUL_TEXT;
    forall k | 0 <= k < 12 ensures !Break(t, k) {
      if k == 10 {
        NulTextMatches(7);
        MatchFacts(t, 7);
      }
    }
    CutWalks(t, 0, 0, 12);
    assert t[0] == '\0';
    NotBlankAlone(t);
  }

  lemma NulTextIsSplit(s: string)
    requires s == "\0ABBR0\0\0ABBR0\0A"
    ensures Filter(Split(s), 0, NotBlank) == [s]
  {
    OnePiece(s);
    assert s[0] == '\0';
    NotBlankAlone(s);
  }

  lemma NulTextIsRestored(y: string)
    requires y == Placeholder(0) + "A"
    ensures "\0ABBR0\0\0ABBR0\0A" == Placeholder(0) + y && "Dr. " + y == "Dr. \0ABBR0\0A"
  {
    FirstPlaceholder();
  }

  /** On this text it does not: what looks like a placeholder is restored, and the placeholder stays. */
  lemma NulBreaksSplitter()
    ensures SplitResult(NUL_TEXT) == ["Dr. \0ABBR0\0A"] && SentencesOf(NUL_TEXT) == [NUL_TEXT]
  {
    var t, marks := NUL_TEXT, Marks(NUL_TEXT);
    MarksFit(t);
    forall i | 0 <= i < 12 ensures marks[i] == if i == 7 then 4 else 0 { NulTextMatches(i); }
    NulTextForm(t, marks);
    NulTextParts();
    var y, s := Placeholder(0) + "A", "\0ABBR0\0\0ABBR0\0A";
    NulTextIsRestored(y);
    NulTextIsSplit(s);
    RestoreFirst(y, "Dr. ");
    NulTextIsOneSentence();
    assert t[0] == '\0';
  }

  const TAIL_TEXT := "Mr. X? Dr. ABBR0\0"

  lemma TailTextMatchStarts(i: nat)
    requires i <= 17 && Match(TAIL_TEXT, i) > 0
    ensures i == 0 || i == 7
  {
    var t := TAIL_TEXT;
    assert t[2] == '.' && t[9] == '.' && IsWord(t[0]) && IsWord(t[1]) && !IsWord(t[6]) && IsWord(t[7]) && IsWord(t[8]);
    MatchFacts(t, i);
    var d := i + Match(t, i) - 2;
    assert d == 2 || d == 9;
    WordStartIs(t, if d == 2 then 0 else 7, d);
  }

  lemma TailTextMatches(i: nat)
    requires i <= 17
    ensures Match(TAIL_TEXT, i) == if i == 0 || i == 7 then 4 else 0
  {
    var t := TAIL_TEXT;
    assert IsWord(t[0]) && IsWord(t[1]) && t[2] == '.' && t[3] == ' ' && t[6] == ' ' && IsWord(t[7]) && IsWord(t[8])
           && t[9] == '.';
    if i == 0 {
      WordStartIs(t, 0, 2);
      assert LowerAll(t[0..2]) == "mr";
      ProtectedIsMatched(t, 2);
    } else if i == 7 {
      WordStartIs(t, 7, 9);
      assert LowerAll(t[7..9]) == "dr";
      ProtectedIsMatched(t, 9);
    } else if Match(t, i) > 0 {
      TailTextMatchStarts(i);
    }
  }

  lemma TailTextBreaks(k: nat)
    requires k < 17
    ensures Break(TAIL_TEXT, k) <==> k == 6
    ensures SkipSpace(TAIL_TEXT, 6) == 7
  {
    var t := TAIL_TEXT;
    TailTextMatches(0);
    TailTextMatches(7);
    MatchFacts(t, 0);
    MatchFacts(t, 7);
    assert t[2] == '.' && t[5] == '?' && t[6] == ' ' && t[7] == 'D' && t[9] == '.';
    assert SkipSpace(t, 7) == 7;
    if 0 < k { BreakIs(t, k); }
  }

  lemma TailTextIntervals()
    ensures Intervals(Breaks(TAIL_TEXT), 0, 0) == [(0, 6), (7, 17)]
  {
    var t, breaks := TAIL_TEXT, Breaks(TAIL_TEXT);
    forall k | 0 <= k < 17 ensures breaks[k] == if k == 6 then 7 else 0 { TailTextBreaks(k); }
    IntervalsWalk(breaks, 0, 0, 6);
    IntervalsWalk(breaks, 7, 7, 17);
    assert Intervals(breaks, 7, 17) == [(7, 17)];
    assert Intervals(breaks, 0, 6) == [(0, 6)] + Intervals(breaks, 7, 7);
  }

  /** The form of the second part: the tail of an earlier placeholder follows one of its own. */
  lemma {:induction false} TailTextForm(t: string, marks: seq<nat>)
    requires |t| == |marks| == 17 && Fits(marks)
    requires forall i :: 0 <= i < 17 ==> marks[i] == if i == 0 || i == 7 then 4 else 0
    ensures Form(t, marks, Placeholder, 7, 17, 1) == Placeholder(1) + t[11..17]
    ensures |Matches(t, marks, 0, 7)| == 1 && |Matches(t, marks, 0, 17)| == 2
  {
    FormUnfolds(t, marks, Placeholder, 7, 17, 1);
    FormPlain(t, marks, Placeholder, 11, 17, 2);
    FormUnfolds(t, marks, Placeholder, 0, 7, 0);
    FormPlain(t, marks, Placeholder, 4, 7, 1);
    assert Reaches(marks, 0, 7);
    MatchesConcat(t, marks, 0, 7, 17);
  }

  lemma {:induction false} TailMakesEarlier(x: string, y: string)
    requires y == "ABBR0\0" && x == Placeholder(1) + y
    ensures Occurs(x, Placeholder(0))
  {
    FirstPlaceholder();
    assert y == Tag(0) + "\0";
    ThroughPlaceholder(0, 1, y, []);
    ClosingNul(0, y, []);
  }

  lemma TailTextIsDisturbed(t: string)
    requires t == TAIL_TEXT
    ensures !PartComesBack(t, 7, 17)
  {
    var marks := Marks(t);
    MarksFit(t);
    forall i | 0 <= i < 17 ensures marks[i] == if i == 0 || i == 7 then 4 else 0 { TailTextMatches(i); }
    TailTextForm(t, marks);
    TailMakesEarlier(Form(t, marks, Placeholder, 7, 17, 1), t[11..17]);
    assert !Undisturbed(t, marks, 7, 17, 1, 0);
  }

  lemma TailTextHasNoPlaceholder(k: nat)
    ensures !Occurs(TAIL_TEXT, Placeholder(k))
  {
    var t := TAIL_TEXT;
    assert t == t[..16] + "\0";
    WordInside(k);
    ReplaceThrough(t[..16], "\0", Placeholder(k), []);
    assert "\0"[1..] == [];
  }

  /**
   * Nor on this one, which holds no placeholder: the end of one placeholder and the text behind it make
   * an earlier one.
   */
  lemma TailBreaksSplitter()
    ensures SplitResult(TAIL_TEXT) != SentencesOf(TAIL_TEXT) && forall k :: !Occurs(TAIL_TEXT, Placeholder(k))
  {
    var t := TAIL_TEXT;
    forall k ensures !Occurs(t, Placeholder(k)) { TailTextHasNoPlaceholder(k); }
    TailTextIsDisturbed(t);
    TailTextIntervals();
    assert t[0] == 'M' && t[7..17][0] == 'D';
    OnePartFails(t, Intervals(Breaks(t), 0, 0), 1);
    SplitterIsSentences(t);
  }
}
