/** Where the splitter cuts the text with placeholders, and what its pieces are. */
module SplitterRefinement {
  import opened Text
  import opened Decimal
  import opened Sentences
  import opened SentenceSplitter

  // ---- Stretches of text -------------------------------------------------------------------------

  /** `q` is where some stretch from `p` on starts. */
  predicate Reaches(marks: seq<nat>, p: nat, q: nat)
    requires p <= q <= |marks|
    decreases q - p
  {
    p == q || (Next(marks, p) <= q && Reaches(marks, Next(marks, p), q))
  }

  lemma {:induction false} ReachesNext(marks: seq<nat>, p: nat, q: nat)
    requires p <= q < |marks| && Reaches(marks, p, q) && Next(marks, q) <= |marks|
    ensures Reaches(marks, p, Next(marks, q))
    decreases q - p
  {
    if p < q { ReachesNext(marks, Next(marks, p), q); }
  }

  lemma FormUnfolds(t: string, marks: seq<nat>, stand: nat -> string, p: nat, r: nat, n: nat)
    requires |marks| == |t| && Fits(marks) && p < r <= |t|
    ensures Form(t, marks, stand, p, r, n)
            == Chunk(t, marks, stand, p, n) + Form(t, marks, stand, Next(marks, p), r, n + |Here(t, marks, p)|)
    ensures Matches(t, marks, p, r) == Here(t, marks, p) + Matches(t, marks, Next(marks, p), r)
  {
  }

  lemma Glue<T>(c: seq<T>, x: seq<T>, y: seq<T>, xy: seq<T>, all: seq<T>, front: seq<T>)
    requires xy == x + y && all == c + xy && front == c + x
    ensures all == front + y
  {
  }

  lemma {:induction false} MatchesConcat(t: string, marks: seq<nat>, p: nat, q: nat, r: nat)
    requires |marks| == |t| && Fits(marks) && p <= q <= r <= |t| && Reaches(marks, p, q)
    ensures Matches(t, marks, p, r) == Matches(t, marks, p, q) + Matches(t, marks, q, r)
    decreases q - p
  {
    if p == q {
      assert Matches(t, marks, p, q) == [];
    } else {
      var e := Next(marks, p);
      MatchesConcat(t, marks, e, q, r);
      Glue(Here(t, marks, p), Matches(t, marks, e, q), Matches(t, marks, q, r), Matches(t, marks, e, r),
           Matches(t, marks, p, r), Matches(t, marks, p, q));
    }
  }

  lemma {:induction false} FormParts(t: string, marks: seq<nat>, stand: nat -> string, p: nat, q: nat, r: nat, n: nat,
                                     n2: nat)
    requires |marks| == |t| && Fits(marks) && p <= q <= r <= |t| && Reaches(marks, p, q)
    requires n2 == n + |Matches(t, marks, p, q)|
    ensures Form(t, marks, stand, p, r, n) == Form(t, marks, stand, p, q, n) + Form(t, marks, stand, q, r, n2)
    decreases q - p
  {
    if p == q {
      assert Form(t, marks, stand, p, q, n) == [] && n2 == n;
    } else {
      var e, n' := Next(marks, p), n + |Here(t, marks, p)|;
      FormUnfolds(t, marks, stand, p, r, n);
      FormUnfolds(t, marks, stand, p, q, n);
      FormParts(t, marks, stand, e, q, r, n', n2);
      Glue(Chunk(t, marks, stand, p, n), Form(t, marks, stand, e, q, n'), Form(t, marks, stand, q, r, n2),
           Form(t, marks, stand, e, r, n'), Form(t, marks, stand, p, r, n), Form(t, marks, stand, p, q, n));
    }
  }

  /** The form of adjacent stretches is the concatenation of their forms. */
  lemma FormConcat(t: string, marks: seq<nat>, stand: nat -> string, p: nat, q: nat, r: nat, n: nat)
    requires |marks| == |t| && Fits(marks) && p <= q <= r <= |t| && Reaches(marks, p, q)
    ensures Form(t, marks, stand, p, r, n)
            == Form(t, marks, stand, p, q, n) + Form(t, marks, stand, q, r, n + |Matches(t, marks, p, q)|)
    ensures Matches(t, marks, p, r) == Matches(t, marks, p, q) + Matches(t, marks, q, r)
  {
    FormParts(t, marks, stand, p, q, r, n, n + |Matches(t, marks, p, q)|);
    MatchesConcat(t, marks, p, q, r);
  }

  lemma {:induction false} FormNext(t: string, marks: seq<nat>, stand: nat -> string, p: nat, q: nat, n: nat)
    requires |marks| == |t| && Fits(marks) && p <= q < |t| && Reaches(marks, p, q)
    ensures Form(t, marks, stand, p, Next(marks, q), n)
            == Form(t, marks, stand, p, q, n) + Chunk(t, marks, stand, q, n + |Matches(t, marks, p, q)|)
    ensures Matches(t, marks, p, Next(marks, q)) == Matches(t, marks, p, q) + Here(t, marks, q)
  {
    var e := Next(marks, q);
    FormConcat(t, marks, stand, p, q, e, n);
    FormUnfolds(t, marks, stand, q, e, n + |Matches(t, marks, p, q)|);
  }

  /** No match covers position `q`. */
  predicate Between(marks: seq<nat>, q: nat)
    requires q <= |marks|
  {
    forall s :: 0 <= s < q && marks[s] > 0 ==> s + marks[s] <= q
  }

  /** Where matches can be: they fit, do not overlap, start with a word and end with white space. */
  ghost predicate Marked(t: string, marks: seq<nat>) {
    && |marks| == |t| && Fits(marks)
    && (forall i, j :: 0 <= i < j < |t| && j < i + marks[i] ==> marks[j] == 0)
    && (forall i :: 0 <= i < |t| && marks[i] > 0 ==> marks[i] > 2 && IsWord(t[i]) && IsSpace(t[i + marks[i] - 1]))
    && (forall i :: 0 < i < |t| && marks[i] > 0 ==> !IsWord(t[i - 1]))
  }

  lemma MarksAreMarked(t: string)
    ensures Marked(t, Marks(t))
  {
    MarksFit(t);
    forall i, j | 0 <= i < j < |t| && j < i + Match(t, i) ensures Match(t, j) == 0 { NoMatchInside(t, i, j); }
    forall i | 0 <= i < |t| && Match(t, i) > 0
      ensures Match(t, i) > 2 && IsWord(t[i]) && IsSpace(t[i + Match(t, i) - 1]) && (i > 0 ==> !IsWord(t[i - 1]))
    {
      MatchFacts(t, i);
    }
  }

  lemma NextBetween(t: string, marks: seq<nat>, i: nat)
    requires Marked(t, marks) && i < |t| && Between(marks, i)
    ensures Next(marks, i) <= |t| && Between(marks, Next(marks, i))
  {
  }

  lemma {:induction false} BetweenReaches(t: string, marks: seq<nat>, p: nat, q: nat)
    requires Marked(t, marks) && p <= q <= |t| && Between(marks, p) && Between(marks, q)
    ensures Reaches(marks, p, q)
    decreases q - p
  {
    if p < q {
      NextBetween(t, marks, p);
      BetweenReaches(t, marks, Next(marks, p), q);
    }
  }

  // ---- Gaps --------------------------------------------------------------------------------------

  /** The end of the white space at each position that is a break, and 0 at others. */
  function Breaks(t: string): (breaks: seq<nat>)
    ensures |breaks| == |t| && GapsFit(breaks)
    ensures forall q :: 0 <= q < |t| ==> breaks[q] == if Break(t, q) then SkipSpace(t, q) else 0
  {
    seq(|t|, q requires 0 <= q < |t| => if Break(t, q) then SkipSpace(t, q) else 0)
  }

  /** Cutting a text is slicing it at its breaks. */
  lemma {:induction false} CutIsSlices(t: string, p: nat, q: nat)
    requires p <= q <= |t|
    ensures Cut(t, p, q) == Slices(t, Intervals(Breaks(t), p, q))
    decreases |t| - q
  {
    if q == |t| {
      assert t[p..] == t[p..q];
    } else if Break(t, q) {
      var e := SkipSpace(t, q);
      CutIsSlices(t, e, e);
      assert Intervals(Breaks(t), p, q) == [(p, q)] + Intervals(Breaks(t), e, e);
    } else {
      CutIsSlices(t, p, q + 1);
    }
  }

  /** Position `q` of one text corresponds to position `f(q)` of the other. */
  predicate Agree(breaks: seq<nat>, gaps: seq<nat>, f: nat -> nat, q: nat)
    requires q < |breaks|
  {
    && f(q) < |gaps| && ((breaks[q] > q) == (gaps[f(q)] > f(q)))
    && (breaks[q] > q ==> breaks[q] <= |breaks| && gaps[f(q)] == f(breaks[q]))
  }

  /** Stretch `q` holds no gap behind its first position, in either text. */
  predicate Solid(breaks: seq<nat>, gaps: seq<nat>, f: nat -> nat, q: nat, e: nat)
    requires q < e <= |breaks|
  {
    && f(q) < f(e) <= |gaps|
    && (forall k :: q < k < e ==> breaks[k] <= k) && (forall k :: f(q) < k < f(e) ==> gaps[k] <= k)
  }

  /** The gaps of two texts correspond, at every start of a stretch. */
  ghost predicate Corresponding(marks: seq<nat>, breaks: seq<nat>, gaps: seq<nat>, f: nat -> nat) {
    && |marks| == |breaks| && Fits(marks) && GapsFit(breaks) && GapsFit(gaps) && f(|breaks|) == |gaps|
    && (forall q {:trigger Agree(breaks, gaps, f, q)} :: 0 <= q < |breaks| && Between(marks, q) ==>
         && Agree(breaks, gaps, f, q) && Solid(breaks, gaps, f, q, Next(marks, q))
         && Between(marks, Next(marks, q)) && (breaks[q] > q ==> Between(marks, breaks[q])))
  }

  function Mapped(f: nat -> nat, intervals: seq<(nat, nat)>): (r: seq<(nat, nat)>)
    ensures |r| == |intervals| && forall i :: 0 <= i < |r| ==> r[i] == (f(intervals[i].0), f(intervals[i].1))
  {
    seq(|intervals|, i requires 0 <= i < |intervals| => (f(intervals[i].0), f(intervals[i].1)))
  }

  lemma {:induction false} IntervalsWalk(gaps: seq<nat>, p: nat, q: nat, e: nat)
    requires GapsFit(gaps) && p <= q <= e <= |gaps| && forall k :: q <= k < e ==> gaps[k] <= k
    ensures Intervals(gaps, p, q) == Intervals(gaps, p, e)
    decreases e - q
  {
    if q < e { IntervalsWalk(gaps, p, q + 1, e); }
  }

  lemma CorrespondsAt(marks: seq<nat>, breaks: seq<nat>, gaps: seq<nat>, f: nat -> nat, q: nat)
    requires Corresponding(marks, breaks, gaps, f) && q < |breaks| && Between(marks, q)
    ensures q < Next(marks, q) <= |breaks| && Between(marks, Next(marks, q))
    ensures Agree(breaks, gaps, f, q) && Solid(breaks, gaps, f, q, Next(marks, q))
    ensures breaks[q] > q ==> Between(marks, breaks[q])
  {
    assert Agree(breaks, gaps, f, q);
  }

  lemma MappedMore(f: nat -> nat, p: nat, q: nat, rest: seq<(nat, nat)>)
    ensures Mapped(f, [(p, q)] + rest) == [(f(p), f(q))] + Mapped(f, rest)
  {
  }

  /** Corresponding gaps leave corresponding intervals. */
  lemma {:induction false} IntervalsCorrespond(marks: seq<nat>, breaks: seq<nat>, gaps: seq<nat>, f: nat -> nat, p: nat,
                                               q: nat)
    requires Corresponding(marks, breaks, gaps, f) && p <= q <= |breaks| && Between(marks, q) && f(p) <= f(q) <= |gaps|
    ensures Intervals(gaps, f(p), f(q)) == Mapped(f, Intervals(breaks, p, q))
    decreases |breaks| - q
  {
    if q < |breaks| {
      CorrespondsAt(marks, breaks, gaps, f, q);
      if breaks[q] > q {
        IntervalsCorrespond(marks, breaks, gaps, f, breaks[q], breaks[q]);
        MappedMore(f, p, q, Intervals(breaks, breaks[q], breaks[q]));
      } else {
        var e := Next(marks, q);
        IntervalsWalk(breaks, p, q, e);
        IntervalsWalk(gaps, f(p), f(q), f(e));
        IntervalsCorrespond(marks, breaks, gaps, f, p, e);
      }
    }
  }

  // ---- The protected text ------------------------------------------------------------------------

  predicate NulEnds(s: string) {
    s != [] && s[0] == '\0' && s[|s| - 1] == '\0'
  }

  /** What stands for a match starts and ends with NUL and holds no white space. */
  ghost predicate Stands(stand: nat -> string) {
    forall n {:trigger stand(n)} :: NulEnds(stand(n)) && NoSpace(stand(n))
  }

  predicate IsWordAll(w: string) {
    w != [] && forall k :: 0 <= k < |w| ==> IsWord(w[k])
  }

  lemma TagIsWord(n: nat)
    ensures IsWordAll(Tag(n))
  {
    var w, d := Tag(n), Dec(n);
    forall k | 0 <= k < |w| ensures IsWord(w[k]) {
      if k >= 4 { assert w[k] == d[k - 4]; }
    }
  }

  lemma PlaceholdersStand()
    ensures Stands(Placeholder)
  {
    forall n ensures NulEnds(Placeholder(n)) && NoSpace(Placeholder(n)) {
      var s, w := Placeholder(n), Tag(n);
      TagIsWord(n);
      forall k | 0 <= k < |s| ensures !IsSpace(s[k]) {
        if 0 < k < |s| - 1 { assert s[k] == w[k - 1]; }
      }
    }
  }

  /** No match ends with a stop. */
  predicate NoStops(t: string, marks: seq<nat>)
    requires |marks| == |t| && Fits(marks)
  {
    forall q :: 0 <= q < |t| && marks[q] > 0 ==> !IsStop(t[q + marks[q] - 1])
  }

  /** A stop ends `f` exactly if one ends the text before `q`. */
  predicate EndsAlike(f: string, t: string, q: nat)
    requires 0 < q <= |t|
  {
    f != [] && IsStop(f[|f| - 1]) == IsStop(t[q - 1])
  }

  lemma EndsAlikeBehind(c: string, g: string, t: string, q: nat)
    requires 0 < q <= |t| && (if g == [] then EndsAlike(c, t, q) else EndsAlike(g, t, q))
    ensures EndsAlike(c + g, t, q)
  {
  }

  lemma ChunkLast(t: string, marks: seq<nat>, stand: nat -> string, p: nat, n: nat)
    requires |marks| == |t| && Fits(marks) && NoStops(t, marks) && p < |t| && NulEnds(stand(n))
    ensures Next(marks, p) <= |t| && EndsAlike(Chunk(t, marks, stand, p, n), t, Next(marks, p))
  {
  }

  /** A stop ends the form exactly if it ends the text. */
  lemma {:induction false} FormLast(t: string, marks: seq<nat>, stand: nat -> string, p: nat, q: nat, n: nat)
    requires |marks| == |t| && Fits(marks) && NoStops(t, marks) && p < q <= |t| && Reaches(marks, p, q)
    requires forall k :: NulEnds(stand(k))
    ensures EndsAlike(Form(t, marks, stand, p, q, n), t, q)
    decreases q - p
  {
    var e, n' := Next(marks, p), n + |Here(t, marks, p)|;
    assert NulEnds(stand(n));
    ChunkLast(t, marks, stand, p, n);
    FormUnfolds(t, marks, stand, p, q, n);
    var c, rest := Chunk(t, marks, stand, p, n), Form(t, marks, stand, e, q, n');
    if e < q {
      FormLast(t, marks, stand, e, q, n');
      assert rest != [];
    } else {
      assert e == q && rest == [];
    }
    EndsAlikeBehind(c, rest, t, q);
  }

  function Protected(t: string, marks: seq<nat>, stand: nat -> string): string
    requires |marks| == |t| && Fits(marks)
  {
    Form(t, marks, stand, 0, |t|, 0)
  }

  /** Where position `q` of the text lies in the protected text. */
  function Place(t: string, marks: seq<nat>, stand: nat -> string, q: nat): nat
    requires |marks| == |t| && Fits(marks)
  {
    if q <= |t| then |Form(t, marks, stand, 0, q, 0)| else 0
  }

  function PlaceIn(t: string, marks: seq<nat>, stand: nat -> string): nat -> nat
    requires |marks| == |t| && Fits(marks)
  {
    q => Place(t, marks, stand, q)
  }

  function Number(t: string, marks: seq<nat>, q: nat): nat
    requires |marks| == |t| && Fits(marks) && q <= |t|
  {
    |Matches(t, marks, 0, q)|
  }

  /** The stretch at `q` lies at its place. */
  lemma {:induction false} Placed(t: string, marks: seq<nat>, stand: nat -> string, q: nat)
    requires |marks| == |t| && Fits(marks) && q < |t| && Reaches(marks, 0, q)
    ensures var s, g := Protected(t, marks, stand), Place(t, marks, stand, q);
            var c := Chunk(t, marks, stand, q, Number(t, marks, q));
            && Place(t, marks, stand, Next(marks, q)) == g + |c| <= |s|
            && (forall k :: g <= k < g + |c| ==> s[k] == c[k - g])
            && (forall k :: 0 <= k < g ==> s[k] == Form(t, marks, stand, 0, q, 0)[k])
  {
    var n := Number(t, marks, q);
    FormConcat(t, marks, stand, 0, q, |t|, 0);
    FormUnfolds(t, marks, stand, q, |t|, n);
    FormNext(t, marks, stand, 0, q, 0);
  }

  /** White space at `q` is white space at its place, and the next place is next to it. */
  predicate SpaceAlike(t: string, s: string, place: nat -> nat, q: nat) {
    && q < |t| && place(q) < |s| && IsSpace(s[place(q)]) == IsSpace(t[q])
    && (IsSpace(t[q]) ==> place(q + 1) == place(q) + 1)
  }

  lemma {:induction false} SpaceAt(t: string, marks: seq<nat>, stand: nat -> string, q: nat)
    requires Marked(t, marks) && Stands(stand) && q < |t| && Reaches(marks, 0, q)
    ensures SpaceAlike(t, Protected(t, marks, stand), PlaceIn(t, marks, stand), q)
  {
    var s, g, c := Protected(t, marks, stand), Place(t, marks, stand, q),
        Chunk(t, marks, stand, q, Number(t, marks, q));
    Placed(t, marks, stand, q);
    if marks[q] > 0 {
      assert NulEnds(stand(Number(t, marks, q)));
    }
    assert s[g] == c[0];
  }

  lemma GapAt(t: string, marks: seq<nat>, stand: nat -> string, q: nat)
    requires Marked(t, marks) && NoStops(t, marks) && Stands(stand) && q < |t| && Reaches(marks, 0, q)
    ensures var s, g := Protected(t, marks, stand), Place(t, marks, stand, q);
            g < |s| && (Gaps(s)[g] > g) == (q > 0 && IsStop(t[q - 1]) && IsSpace(t[q]))
  {
    SpaceAt(t, marks, stand, q);
    if q > 0 {
      Placed(t, marks, stand, q);
      FormLast(t, marks, stand, 0, q, 0);
    }
  }

  lemma SkipOnce(s: string, g: nat)
    requires g < |s|
    ensures SkipSpace(s, g) == if IsSpace(s[g]) then SkipSpace(s, g + 1) else g
  {
  }

  predicate SkipsAlike(t: string, s: string, place: nat -> nat, q: nat) {
    q <= |t| && place(q) <= |s| && SkipSpace(s, place(q)) == place(SkipSpace(t, q))
  }

  lemma SkipStep(t: string, s: string, place: nat -> nat, q: nat)
    requires SpaceAlike(t, s, place, q) && (IsSpace(t[q]) ==> SkipsAlike(t, s, place, q + 1))
    ensures SkipsAlike(t, s, place, q)
  {
    SkipOnce(s, place(q));
    SkipOnce(t, q);
  }

  lemma {:induction false} SkipFrom(t: string, s: string, place: nat -> nat, q: nat)
    requires q <= |t| && place(|t|) == |s|
    requires forall k {:trigger SpaceAlike(t, s, place, k)} ::
      q <= k <= SkipSpace(t, q) && k < |t| ==> SpaceAlike(t, s, place, k)
    ensures SkipsAlike(t, s, place, q)
    decreases |t| - q
  {
    if q < |t| {
      assert SpaceAlike(t, s, place, q);
      if IsSpace(t[q]) {
        SkipOnce(t, q);
        SkipFrom(t, s, place, q + 1);
      }
      SkipStep(t, s, place, q);
    }
  }

  lemma {:induction false} SpacesReached(t: string, marks: seq<nat>, q: nat, k: nat)
    requires Marked(t, marks) && q <= k <= |t| && Reaches(marks, 0, q) && forall j :: q <= j < k ==> IsSpace(t[j])
    ensures Reaches(marks, 0, k)
    decreases k - q
  {
    if q < k {
      ReachesNext(marks, 0, q);
      SpacesReached(t, marks, q + 1, k);
    }
  }

  lemma {:induction false} SkipAt(t: string, marks: seq<nat>, stand: nat -> string, q: nat)
    requires Marked(t, marks) && Stands(stand) && q <= |t| && Reaches(marks, 0, q)
    ensures SkipsAlike(t, Protected(t, marks, stand), PlaceIn(t, marks, stand), q)
  {
    forall k | q <= k <= SkipSpace(t, q) && k < |t|
      ensures SpaceAlike(t, Protected(t, marks, stand), PlaceIn(t, marks, stand), k)
    {
      SpacesReached(t, marks, q, k);
      SpaceAt(t, marks, stand, k);
    }
    SkipFrom(t, Protected(t, marks, stand), PlaceIn(t, marks, stand), q);
  }

  /** No gap inside a placeholder. */
  lemma {:induction false} NoGapInside(t: string, marks: seq<nat>, stand: nat -> string, q: nat, k: nat)
    requires |marks| == |t| && Fits(marks) && Stands(stand) && q < |t| && Reaches(marks, 0, q)
    requires Place(t, marks, stand, q) < k < Place(t, marks, stand, Next(marks, q))
    ensures k < |Protected(t, marks, stand)| && Gaps(Protected(t, marks, stand))[k] == 0
  {
    Placed(t, marks, stand, q);
    assert NoSpace(stand(Number(t, marks, q)));
  }

  /** Between matches, a stop and white space are a break. */
  lemma BreakBetween(t: string, q: nat)
    requires 0 < q < |t| && Between(Marks(t), q)
    ensures Break(t, q) == (IsSpace(t[q]) && IsStop(t[q - 1]))
  {
    if IsSpace(t[q]) && AbbreviationEnds(t, q - 1) { ProtectedIsMatched(t, q - 1); }
  }

  /** No break falls into a match. */
  lemma NoBreakInMatch(t: string, q: nat, k: nat)
    requires q <= |t| && Match(t, q) > 0 && q < k < q + Match(t, q) && k < |t|
    ensures !Break(t, k)
  {
    MatchFacts(t, q);
  }

  lemma {:induction false} SkipBetween(t: string, marks: seq<nat>, q: nat)
    requires Marked(t, marks) && q <= |t| && Between(marks, q)
    ensures Between(marks, SkipSpace(t, q))
    decreases |t| - q
  {
    if q < |t| && IsSpace(t[q]) {
      SkipBetween(t, marks, q + 1);
    }
  }

  lemma MarkedHasNoStops(t: string, marks: seq<nat>)
    requires Marked(t, marks)
    ensures NoStops(t, marks)
  {
  }

  lemma AgreeAt(t: string, marks: seq<nat>, stand: nat -> string, q: nat)
    requires Marked(t, marks) && marks == Marks(t) && Stands(stand) && q < |t| && Between(marks, q)
    ensures Agree(Breaks(t), Gaps(Protected(t, marks, stand)), PlaceIn(t, marks, stand), q)
  {
    BetweenReaches(t, marks, 0, q);
    MarkedHasNoStops(t, marks);
    GapAt(t, marks, stand, q);
    if q > 0 { BreakBetween(t, q); }
    SkipAt(t, marks, stand, q);
  }

  lemma SolidAt(t: string, marks: seq<nat>, stand: nat -> string, q: nat)
    requires Marked(t, marks) && marks == Marks(t) && Stands(stand) && q < |t| && Between(marks, q)
    ensures Solid(Breaks(t), Gaps(Protected(t, marks, stand)), PlaceIn(t, marks, stand), q, Next(marks, q))
  {
    BetweenReaches(t, marks, 0, q);
    Placed(t, marks, stand, q);
    assert NulEnds(stand(Number(t, marks, q)));
    forall k | q < k < Next(marks, q) ensures Breaks(t)[k] <= k { NoBreakInMatch(t, q, k); }
    forall k | Place(t, marks, stand, q) < k < Place(t, marks, stand, Next(marks, q))
      ensures Gaps(Protected(t, marks, stand))[k] <= k
    {
      NoGapInside(t, marks, stand, q, k);
    }
  }

  lemma GapsCorrespond(t: string, marks: seq<nat>, stand: nat -> string)
    requires marks == Marks(t) && Fits(marks) && Stands(stand)
    ensures Corresponding(marks, Breaks(t), Gaps(Protected(t, marks, stand)), PlaceIn(t, marks, stand))
  {
    MarksAreMarked(t);
    forall q {:trigger Between(marks, q)} | 0 <= q < |t| && Between(marks, q)
      ensures && Agree(Breaks(t), Gaps(Protected(t, marks, stand)), PlaceIn(t, marks, stand), q)
              && Solid(Breaks(t), Gaps(Protected(t, marks, stand)), PlaceIn(t, marks, stand), q, Next(marks, q))
              && Between(marks, Next(marks, q)) && (Breaks(t)[q] > q ==> Between(marks, Breaks(t)[q]))
    {
      AgreeAt(t, marks, stand, q);
      NextBetween(t, marks, q);
      SolidAt(t, marks, stand, q);
      SkipBetween(t, marks, q);
    }
  }

  // ---- Slices of the protected text --------------------------------------------------------------

  lemma Extended(t: string, p: nat, a: nat, e: nat)
    requires p <= a <= e <= |t|
    ensures t[p..a] + t[a..e] == t[p..e]
  {
  }

  lemma Middle<T>(x: seq<T>, y: seq<T>, z: seq<T>)
    ensures var s := x + (y + z); |x + y| <= |s| && s[|x|..|x + y|] == y
  {
  }

  lemma {:induction false} ThreeParts(t: string, marks: seq<nat>, stand: nat -> string, a: nat, p: nat, q: nat, r: nat,
                                      n: nat, m: nat, k: nat)
    requires |marks| == |t| && Fits(marks) && a <= p <= q <= r <= |t| && Reaches(marks, a, p) && Reaches(marks, p, q)
    requires m == n + |Matches(t, marks, a, p)| && k == m + |Matches(t, marks, p, q)|
    ensures var x, y := Form(t, marks, stand, a, p, n), Form(t, marks, stand, p, q, m);
            var z := Form(t, marks, stand, q, r, k);
            Form(t, marks, stand, a, r, n) == x + (y + z) && Form(t, marks, stand, a, q, n) == x + y
  {
    FormParts(t, marks, stand, a, p, r, n, m);
    FormParts(t, marks, stand, p, q, r, m, k);
    FormParts(t, marks, stand, a, p, q, n, m);
  }

  /** A slice of the protected text is the form of the slice of the text. */
  lemma {:induction false} SliceIsForm(t: string, marks: seq<nat>, stand: nat -> string, p: nat, q: nat)
    requires Marked(t, marks) && p <= q <= |t| && Between(marks, p) && Between(marks, q)
    ensures var f, s, n := PlaceIn(t, marks, stand), Protected(t, marks, stand), Number(t, marks, p);
            && f(p) <= f(q) <= |s| && s[f(p)..f(q)] == Form(t, marks, stand, p, q, n)
    ensures Matches(t, marks, 0, |t|)
            == Matches(t, marks, 0, p) + (Matches(t, marks, p, q) + Matches(t, marks, q, |t|))
  {
    BetweenReaches(t, marks, 0, p);
    BetweenReaches(t, marks, p, q);
    var n := Number(t, marks, p);
    MatchesConcat(t, marks, 0, p, |t|);
    MatchesConcat(t, marks, p, q, |t|);
    var z := Form(t, marks, stand, q, |t|, n + |Matches(t, marks, p, q)|);
    ThreeParts(t, marks, stand, 0, p, q, |t|, 0, n, n + |Matches(t, marks, p, q)|);
    Middle(Form(t, marks, stand, 0, p, 0), Form(t, marks, stand, p, q, n), z);
  }

  lemma AllSpaceConcat(x: string, y: string)
    ensures AllSpace(x + y) == (AllSpace(x) && AllSpace(y))
  {
    var z := x + y;
    forall k | 0 <= k < |z| ensures z[k] == if k < |x| then x[k] else y[k - |x|] {}
    if AllSpace(z) {
      forall k | 0 <= k < |x| ensures IsSpace(x[k]) { assert z[k] == x[k]; }
      forall k | 0 <= k < |y| ensures IsSpace(y[k]) { assert z[|x| + k] == y[k]; }
    }
  }

  lemma ChunkBlank(t: string, marks: seq<nat>, stand: nat -> string, a: nat, n: nat)
    requires Marked(t, marks) && Stands(stand) && a < |t|
    ensures AllSpace(Chunk(t, marks, stand, a, n)) == AllSpace(t[a..Next(marks, a)])
  {
    var c, d := Chunk(t, marks, stand, a, n), t[a..Next(marks, a)];
    assert d[0] == t[a];
    if marks[a] > 0 {
      assert NulEnds(stand(n));
      assert !IsSpace(c[0]) && !IsSpace(d[0]);
    } else {
      assert c == d;
    }
  }

  lemma {:induction false} FormBlank(t: string, marks: seq<nat>, stand: nat -> string, a: nat, q: nat, n: nat)
    requires Marked(t, marks) && Stands(stand) && a <= q <= |t| && Reaches(marks, a, q)
    ensures AllSpace(Form(t, marks, stand, a, q, n)) == AllSpace(t[a..q])
    decreases q - a
  {
    if a < q {
      var e := Next(marks, a);
      FormUnfolds(t, marks, stand, a, q, n);
      FormBlank(t, marks, stand, e, q, n + |Here(t, marks, a)|);
      ChunkBlank(t, marks, stand, a, n);
      AllSpaceConcat(Chunk(t, marks, stand, a, n), Form(t, marks, stand, e, q, n + |Here(t, marks, a)|));
      AllSpaceConcat(t[a..e], t[e..q]);
      Extended(t, a, e, q);
    }
  }

  ghost predicate AllBetween(marks: seq<nat>, intervals: seq<(nat, nat)>) {
    forall x :: x in intervals ==> x.0 <= x.1 <= |marks| && Between(marks, x.0) && Between(marks, x.1)
  }

  lemma {:induction false} IntervalsBetween(marks: seq<nat>, breaks: seq<nat>, gaps: seq<nat>, f: nat -> nat, p: nat,
                                            q: nat)
    requires Corresponding(marks, breaks, gaps, f) && p <= q <= |breaks| && Between(marks, p) && Between(marks, q)
    ensures AllBetween(marks, Intervals(breaks, p, q))
    decreases |breaks| - q
  {
    if q < |breaks| {
      assert Agree(breaks, gaps, f, q);
      if breaks[q] > q {
        IntervalsBetween(marks, breaks, gaps, f, breaks[q], breaks[q]);
      } else {
        var e := Next(marks, q);
        IntervalsWalk(breaks, p, q, e);
        IntervalsBetween(marks, breaks, gaps, f, p, e);
      }
    }
  }
}
