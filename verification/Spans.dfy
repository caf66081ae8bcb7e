/** Choosing disjoint matches and replacing them: `runPatterns` and the back-to-front splicing loops. */
module Spans {
  import opened Regex
  import opened PiiPatterns
  import Sorting

  // ---- Selection ---------------------------------------------------------------------------------

  /** Earlier start first; at the same start, the longer match first. */
  predicate EarlierOrLonger(a: PatternMatch, b: PatternMatch) {
    a.start < b.start || (a.start == b.start && a.end - a.start >= b.end - b.start)
  }

  /** One pass that keeps a match when it starts at or after the end of the last kept one. */
  function Keep(ms: seq<PatternMatch>, lastEnd: int): seq<PatternMatch> {
    if ms == [] then []
    else if ms[0].start >= lastEnd then [ms[0]] + Keep(ms[1..], ms[0].end)
    else Keep(ms[1..], lastEnd)
  }

  function Select(ms: seq<PatternMatch>): seq<PatternMatch> {
    Keep(Sorting.Sort(ms, EarlierOrLonger), -1)
  }

  /** `m` starts inside `k`, and is no longer than `k` if both start together. */
  predicate Covers(k: PatternMatch, m: PatternMatch) {
    k.start <= m.start < k.end && (k.start == m.start ==> m.end <= k.end)
  }

  /** Non-empty, in the text, in order and disjoint, from position `p` on. */
  ghost predicate Apart(ms: seq<PatternMatch>, p: int) {
    (forall i :: 0 <= i < |ms| ==> p <= ms[i].start < ms[i].end) &&
    forall i, j :: 0 <= i < j < |ms| ==> ms[i].end <= ms[j].start
  }

  lemma {:induction false} KeepIsApart(ms: seq<PatternMatch>, lastEnd: int)
    requires forall m :: m in ms ==> m.start < m.end
    ensures Apart(Keep(ms, lastEnd), lastEnd)
    ensures forall m :: m in Keep(ms, lastEnd) ==> m in ms
  {
    if ms != [] {
      assert ms[0] in ms;
      KeepIsApart(ms[1..], if ms[0].start >= lastEnd then ms[0].end else lastEnd);
    }
  }

  /** `last` is the kept match that ends at `lastEnd`, if there is one: it starts no later than the rest. */
  lemma {:induction false} KeepCovers(ms: seq<PatternMatch>, last: PatternMatch, m: PatternMatch)
    requires forall x :: x in ms ==> x.start < x.end && EarlierOrLonger(last, x)
    requires Sorting.SortedBy(ms, EarlierOrLonger) && m in ms
    ensures Covers(last, m) || exists k :: k in Keep(ms, last.end) && Covers(k, m)
  {
    var kept := Keep(ms, last.end);
    if ms[0].start >= last.end {
      assert kept[0] == ms[0];
      if m == ms[0] {
        assert ms[0] in kept && Covers(ms[0], m);
      } else {
        forall x | x in ms[1..] ensures EarlierOrLonger(ms[0], x) {
          var j :| 0 <= j < |ms[1..]| && ms[1..][j] == x;
          assert EarlierOrLonger(ms[0], ms[j + 1]);
        }
        KeepCovers(ms[1..], ms[0], m);
        if Covers(ms[0], m) { assert ms[0] in kept; } else {
          var k :| k in Keep(ms[1..], ms[0].end) && Covers(k, m);
          assert k in kept;
        }
      }
    } else if m != ms[0] {
      KeepCovers(ms[1..], last, m);
    }
  }

  lemma {:induction false} SelectCovers(ms: seq<PatternMatch>, sorted: seq<PatternMatch>, m: PatternMatch)
    requires sorted == Sorting.Sort(ms, EarlierOrLonger) && Sorting.SortedBy(sorted, EarlierOrLonger) && m in sorted
    requires forall x :: x in sorted ==> x.start < x.end
    ensures exists k :: k in Select(ms) && Covers(k, m)
  {
    var first := sorted[0];
    assert Select(ms) == [first] + Keep(sorted[1..], first.end);
    assert first in Select(ms);
    if m != first {
      forall x | x in sorted[1..] ensures EarlierOrLonger(first, x) {
        var j :| 0 <= j < |sorted[1..]| && sorted[1..][j] == x;
        assert EarlierOrLonger(sorted[0], sorted[j + 1]);
      }
      KeepCovers(sorted[1..], first, m);
    }
  }

  /**
   * The selection is in order and disjoint, consists of candidates, and leaves out none that does not
   * start inside a kept match; of candidates that start together, a longest one decides.
   */
  lemma SelectIsGreedy(ms: seq<PatternMatch>)
    requires forall m :: m in ms ==> m.start < m.end
    ensures Apart(Select(ms), 0)
    ensures forall k :: k in Select(ms) ==> k in ms
    ensures forall m :: m in ms ==> exists k :: k in Select(ms) && Covers(k, m)
  {
    var sorted := Sorting.Sort(ms, EarlierOrLonger);
    Sorting.SortKeepsElements(ms, EarlierOrLonger);
    Sorting.SortSorts(ms, EarlierOrLonger);
    KeepIsApart(sorted, -1);
    forall m | m in ms ensures exists k :: k in Select(ms) && Covers(k, m) {
      assert m in sorted;
      SelectCovers(ms, sorted, m);
    }
  }

  lemma {:induction false} KeptAreThere(ms: seq<PatternMatch>, lastEnd: int, m: PatternMatch)
    requires m in Keep(ms, lastEnd)
    ensures m in ms
  {
    if ms[0].start < lastEnd {
      KeptAreThere(ms[1..], lastEnd, m);
    } else if m != ms[0] {
      KeptAreThere(ms[1..], ms[0].end, m);
    }
  }

  lemma SelectedAreCandidates(ms: seq<PatternMatch>, m: PatternMatch)
    requires m in Select(ms)
    ensures m in ms
  {
    Sorting.SortKeepsElements(ms, EarlierOrLonger);
    KeptAreThere(Sorting.Sort(ms, EarlierOrLonger), -1, m);
  }

  /** A match covers the hit from `start` to `end`. */
  ghost predicate Kept(ms: seq<PatternMatch>, start: nat, end: nat) {
    exists x :: x in ms && x.start <= start < x.end && (x.start == start ==> end <= x.end)
  }

  lemma CoveringKeeps(ms: seq<PatternMatch>, x: PatternMatch, m: PatternMatch)
    requires x in ms && Covers(x, m)
    ensures Kept(ms, m.start, m.end)
  {
  }

  lemma {:induction false} CandidateIsKept(table: seq<PatternDef>, t: string, m: PatternMatch)
    requires SafeExpressions(table) && m in Candidates(table, t)
    ensures Kept(Select(Candidates(table, t)), m.start, m.end)
  {
    var cs := Candidates(table, t);
    forall x | x in cs ensures x.start < x.end { CandidatesAreDetected(table, t, x); }
    SelectIsGreedy(cs);
    var x :| x in Select(cs) && Covers(x, m);
    CoveringKeeps(Select(cs), x, m);
  }

  /**
   * Wherever an expression matches lies inside a hit; and a hit that needs no validation, or passes it,
   * starts inside a match that is kept, and is not longer if both start together.
   */
  lemma PositionIsKept(table: seq<PatternDef>, p: PatternDef, t: string, i: nat) returns (start: nat, end: nat)
    requires SafeExpressions(table) && p in table && i <= |t| && Ends(p.re, t, i) != []
    ensures start <= i < end && Preferred(p.re, t, start, end)
    ensures Valid(p, t[start..end]) ==> Kept(Select(Candidates(table, t)), start, end)
  {
    start, end := PositionIsReported(table, p, t, i);
    if Valid(p, t[start..end]) {
      CandidateIsKept(table, t, PatternMatch(p.entity, start, end, t[start..end]));
    }
  }

  /** What is kept stands for an entry of the table. */
  lemma {:induction false} SelectedStand(table: seq<PatternDef>, t: string, m: PatternMatch)
    requires m in Select(Candidates(table, t))
    ensures exists p :: p in table && Stands(p, t, m)
  {
    SelectedAreCandidates(Candidates(table, t), m);
    CandidatesStand(table, t, m);
  }

  lemma {:induction false} CandidatesSnoc(table: seq<PatternDef>, p: PatternDef, t: string)
    ensures Candidates(table + [p], t) == Candidates(table, t) + FindAll(p, t, 0)
  {
    var all := table + [p];
    if table == [] {
      assert all[1..] == [];
    } else {
      assert all[0] == table[0] && all[1..] == table[1..] + [p];
      CandidatesSnoc(table[1..], p, t);
    }
  }

  lemma {:induction false} FindAllStep(p: PatternDef, t: string, from: nat)
    requires from <= |t|
    ensures var h := Exec(p.re, t, from);
            FindAll(p, t, from) ==
              if h == NoHit then []
              else Found(p, t, h.start, h.end) + (if h.end > from then FindAll(p, t, h.end) else [])
  {
  }

  /** The `exec` loop over one pattern. */
  method RunPattern(t: string, p: PatternDef) returns (matches: seq<PatternMatch>)
    ensures matches == FindAll(p, t, 0)
  {
    matches := [];
    var lastIndex: nat, going := 0, true;
    while going
      invariant lastIndex <= |t|
      invariant matches + (if going then FindAll(p, t, lastIndex) else []) == FindAll(p, t, 0)
      decreases going, |t| - lastIndex
    {
      FindAllStep(p, t, lastIndex);
      var h := Exec(p.re, t, lastIndex);
      going := h.Hit? && h.end > lastIndex;
      if h.Hit? {
        matches := matches + Found(p, t, h.start, h.end);
        lastIndex := h.end;
      }
    }
  }

  /** `runPatterns`: collect, sort, keep. */
  method RunPatterns(t: string, table: seq<PatternDef>) returns (result: seq<PatternMatch>)
    ensures result == Select(Candidates(table, t))
  {
    var matches: seq<PatternMatch> := [];
    for i := 0 to |table|
      invariant matches == Candidates(table[..i], t)
    {
      var found := RunPattern(t, table[i]);
      matches := matches + found;
      CandidatesSnoc(table[..i], table[i], t);
      assert table[..i + 1] == table[..i] + [table[i]];
    }
    assert table[..|table|] == table;
    result := KeepFirst(Sorting.Sort(matches, EarlierOrLonger));
  }

  method KeepFirst(sorted: seq<PatternMatch>) returns (result: seq<PatternMatch>)
    ensures result == Keep(sorted, -1)
  {
    result := [];
    var lastEnd: int := -1;
    for i := 0 to |sorted|
      invariant result + Keep(sorted[i..], lastEnd) == Keep(sorted, -1)
    {
      var m := sorted[i];
      if m.start >= lastEnd {
        result := result + [m];
        lastEnd := m.end;
      }
    }
  }

  // ---- Replacement -------------------------------------------------------------------------------

  datatype Span = Span(start: nat, end: nat, text: string)

  /** Non-empty spans of `t`, in order and disjoint, from position `p` on. */
  predicate InOrder(t: string, p: nat, spans: seq<Span>)
    decreases |spans|
  {
    if spans == [] then p <= |t|
    else p <= spans[0].start < spans[0].end <= |t| && InOrder(t, spans[0].end, spans[1..])
  }

  /** `t` from `p` on, with every span replaced: gaps and replacements from left to right. */
  function Render(t: string, p: nat, spans: seq<Span>): string
    requires InOrder(t, p, spans)
    decreases |spans|
  {
    if spans == [] then t[p..]
    else t[p..spans[0].start] + (spans[0].text + Render(t, spans[0].end, spans[1..]))
  }

  lemma {:induction false} FromEarlier(t: string, q: nat, p: nat, spans: seq<Span>)
    requires q <= p && InOrder(t, p, spans)
    ensures InOrder(t, q, spans) && Render(t, q, spans) == t[q..p] + Render(t, p, spans)
  {
    if spans == [] {
      assert t[q..] == t[q..p] + t[p..];
    } else {
      var start, tail := spans[0].start, spans[0].text + Render(t, spans[0].end, spans[1..]);
      calc {
        Render(t, q, spans);
        t[q..start] + tail;
        { assert t[q..start] == t[q..p] + t[p..start]; }
        t[q..p] + t[p..start] + tail;
        t[q..p] + (t[p..start] + tail);
        t[q..p] + Render(t, p, spans);
      }
    }
  }

  /** `s.slice(i, j)` for indices that are not negative. */
  function Slice(s: string, i: nat, j: nat): string {
    var to := if j < |s| then j else |s|;
    if i < to then s[i..to] else []
  }

  /** One round of the splicing loops. */
  function Splice(s: string, sp: Span): string {
    Slice(s, 0, sp.start) + sp.text + Slice(s, sp.end, |s|)
  }

  /** Splicing in a span that lies before all spans replaced so far. */
  lemma {:induction false} SpliceFirst(t: string, spans: seq<Span>)
    requires spans != [] && InOrder(t, 0, spans)
    ensures InOrder(t, 0, spans[1..]) && Splice(Render(t, 0, spans[1..]), spans[0]) == Render(t, 0, spans)
  {
    var sp, rest := spans[0], spans[1..];
    FromEarlier(t, 0, sp.end, rest);
    var r := Render(t, 0, rest);
    assert r == t[..sp.end] + Render(t, sp.end, rest);
    assert Slice(r, 0, sp.start) == t[..sp.start];
    assert Slice(r, sp.end, |r|) == Render(t, sp.end, rest);
  }
}
