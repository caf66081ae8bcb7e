/** The two-tier scrub and its inverse on values: what `EntityVault` and `scrubPII` compute. */
module Scrubbing {
  import opened Regex
  import opened PiiPatterns
  import opened Spans
  import opened Tokens
  import opened Rehydration
  import Sorting

  // ---- Numbering ---------------------------------------------------------------------------------

  type Counts = map<TypeName, nat>

  function CountOf(counts: Counts, entity: TypeName): nat {
    if entity in counts then counts[entity] else 0
  }

  function Bump(counts: Counts, entity: TypeName): Counts {
    counts[entity := CountOf(counts, entity) + 1]
  }

  function Bumped(ms: seq<PatternMatch>, counts: Counts): Counts {
    if ms == [] then counts else Bumped(ms[1..], Bump(counts, ms[0].entity))
  }

  /** What a match contributes that is the `n`-th of its type. */
  function EntryOf(m: PatternMatch, n: nat): Entry {
    Entry(Token(m.entity, n), m.entity, m.value)
  }

  /** The entries for `ms` in the order in which they are numbered. */
  function Issue(ms: seq<PatternMatch>, counts: Counts): (r: seq<Entry>)
    ensures |r| == |ms|
  {
    if ms == [] then []
    else [EntryOf(ms[0], CountOf(counts, ms[0].entity) + 1)] + Issue(ms[1..], Bump(counts, ms[0].entity))
  }

  /** How many of `ms` have type `entity`? */
  function Total(ms: seq<PatternMatch>, entity: TypeName): nat {
    if ms == [] then 0 else (if ms[0].entity == entity then 1 else 0) + Total(ms[1..], entity)
  }

  lemma {:induction false} BumpedTotals(ms: seq<PatternMatch>, counts: Counts, entity: TypeName)
    ensures CountOf(Bumped(ms, counts), entity) == CountOf(counts, entity) + Total(ms, entity)
  {
    if ms != [] { BumpedTotals(ms[1..], Bump(counts, ms[0].entity), entity); }
  }

  lemma {:induction false} TotalSnoc(ms: seq<PatternMatch>, m: PatternMatch, entity: TypeName)
    ensures Total(ms + [m], entity) == Total(ms, entity) + (if m.entity == entity then 1 else 0)
  {
    if ms != [] {
      assert (ms + [m])[1..] == ms[1..] + [m];
      TotalSnoc(ms[1..], m, entity);
    } else {
      assert (ms + [m])[1..] == [];
    }
  }

  lemma {:induction false} TotalOfPrefix(ms: seq<PatternMatch>, entity: TypeName, i: nat, j: nat)
    requires i <= j <= |ms|
    ensures Total(ms[..i], entity) <= Total(ms[..j], entity) <= Total(ms[..i], entity) + j - i
    ensures i < j && ms[j - 1].entity == entity ==> Total(ms[..i], entity) < Total(ms[..j], entity)
    decreases j
  {
    if i < j {
      assert ms[..j] == ms[..j - 1] + [ms[j - 1]];
      TotalSnoc(ms[..j - 1], ms[j - 1], entity);
      TotalOfPrefix(ms, entity, i, j - 1);
    }
  }

  /** The number that the `i`-th match gets. */
  function NumberOf(ms: seq<PatternMatch>, counts: Counts, i: nat): nat
    requires i < |ms|
  {
    CountOf(counts, ms[i].entity) + Total(ms[..i + 1], ms[i].entity)
  }

  lemma NumberOfFirst(ms: seq<PatternMatch>, counts: Counts)
    requires ms != []
    ensures NumberOf(ms, counts, 0) == CountOf(counts, ms[0].entity) + 1
  {
    assert ms[..1] == [ms[0]] && Total([ms[0]], ms[0].entity) == 1;
  }

  lemma NumberInTail(ms: seq<PatternMatch>, counts: Counts, i: nat)
    requires 0 < i < |ms|
    ensures NumberOf(ms, counts, i) == NumberOf(ms[1..], Bump(counts, ms[0].entity), i - 1)
  {
    assert ms[..i + 1] == [ms[0]] + ms[1..][..i];
  }

  lemma {:induction false} IssuedEntry(ms: seq<PatternMatch>, counts: Counts, i: nat)
    requires i < |ms|
    ensures Issue(ms, counts)[i] == EntryOf(ms[i], NumberOf(ms, counts, i))
    decreases i
  {
    if i == 0 {
      NumberOfFirst(ms, counts);
    } else {
      NumberInTail(ms, counts, i);
      IssuedEntry(ms[1..], Bump(counts, ms[0].entity), i - 1);
    }
  }

  /** The numbers a pass gives out lie between the counts before and after it. */
  lemma {:induction false} NumberBounds(ms: seq<PatternMatch>, counts: Counts, i: nat)
    requires i < |ms|
    ensures CountOf(counts, ms[i].entity) < NumberOf(ms, counts, i) <= CountOf(Bumped(ms, counts), ms[i].entity)
    ensures NumberOf(ms, counts, i) <= CountOf(counts, ms[i].entity) + |ms|
  {
    TotalOfPrefix(ms, ms[i].entity, i, i + 1);
    TotalOfPrefix(ms, ms[i].entity, 0, i + 1);
    TotalOfPrefix(ms, ms[i].entity, i + 1, |ms|);
    assert ms[..|ms|] == ms;
    BumpedTotals(ms, counts, ms[i].entity);
  }

  /** Tokens issued in one pass are distinct. */
  lemma {:induction false} IssuedAreDistinct(ms: seq<PatternMatch>, counts: Counts)
    ensures Distinct(Issue(ms, counts))
  {
    forall i, j | 0 <= i < j < |ms| ensures Issue(ms, counts)[i].token != Issue(ms, counts)[j].token {
      IssuedEntry(ms, counts, i);
      IssuedEntry(ms, counts, j);
      TotalOfPrefix(ms, ms[j].entity, i + 1, j + 1);
      if Issue(ms, counts)[i].token == Issue(ms, counts)[j].token {
        TokenIsInjective(ms[i].entity, NumberOf(ms, counts, i), ms[j].entity, NumberOf(ms, counts, j));
      }
    }
  }

  /** A later pass that starts from counts at least as high issues other tokens. */
  lemma {:induction false} PassesAreDistinct(ms: seq<PatternMatch>, ns: seq<PatternMatch>, counts: Counts,
                                             later: Counts)
    requires forall e :: CountOf(later, e) >= CountOf(Bumped(ms, counts), e)
    ensures Distinct(Issue(ms, counts) + Issue(ns, later))
  {
    IssuedAreDistinct(ms, counts);
    IssuedAreDistinct(ns, later);
    var a, b := Issue(ms, counts), Issue(ns, later);
    forall i, j | 0 <= i < |a| && 0 <= j < |b| ensures a[i].token != b[j].token {
      IssuedEntry(ms, counts, i);
      IssuedEntry(ns, later, j);
      NumberBounds(ms, counts, i);
      NumberBounds(ns, later, j);
      if a[i].token == b[j].token {
        TokenIsInjective(ms[i].entity, NumberOf(ms, counts, i), ns[j].entity, NumberOf(ns, later, j));
      }
    }
  }

  // ---- The token map -----------------------------------------------------------------------------

  /** `Map.set`: a known key keeps its place, a new one goes to the end. */
  function SetEntry(entries: seq<Entry>, e: Entry): seq<Entry> {
    if entries == [] then [e]
    else if entries[0].token == e.token then [e] + entries[1..]
    else [entries[0]] + SetEntry(entries[1..], e)
  }

  function Record(entries: seq<Entry>, news: seq<Entry>): seq<Entry>
    decreases |news|
  {
    if news == [] then entries else Record(SetEntry(entries, news[0]), news[1..])
  }

  lemma {:induction false} SetEntryHas(entries: seq<Entry>, e: Entry, x: Entry)
    requires Distinct(entries)
    ensures Distinct(SetEntry(entries, e))
    ensures x in SetEntry(entries, e) <==> x == e || (x in entries && x.token != e.token)
  {
    if entries != [] {
      var rest := entries[1..];
      SetEntryHas(rest, e, x);
      assert entries == [entries[0]] + rest;
      if entries[0].token != e.token {
        var r := SetEntry(rest, e);
        forall j | 0 <= j < |r| ensures r[j].token != entries[0].token {
          SetEntryHas(rest, e, r[j]);
          if r[j] != e { var k :| 0 <= k < |rest| && rest[k] == r[j]; assert entries[k + 1] == r[j]; }
        }
      }
    }
  }

  /** Afterwards the map holds the new entries, and of the old ones those whose token was not reissued. */
  lemma {:induction false} RecordHas(entries: seq<Entry>, news: seq<Entry>, x: Entry)
    requires Distinct(entries) && Distinct(news)
    ensures Distinct(Record(entries, news))
    ensures x in Record(entries, news)
            <==> x in news || (x in entries && forall k :: 0 <= k < |news| ==> news[k].token != x.token)
    decreases |news|
  {
    if news != [] {
      var e, rest := news[0], news[1..];
      SetEntryHas(entries, e, x);
      RecordHas(SetEntry(entries, e), rest, x);
      assert news == [e] + rest;
      if x == e {
        forall k | 0 <= k < |rest| ensures rest[k].token != e.token { assert news[k + 1] == rest[k]; }
      }
      if x in entries && forall k :: 0 <= k < |news| ==> news[k].token != x.token {
        forall k | 0 <= k < |rest| ensures rest[k].token != x.token { assert news[k + 1] == rest[k]; }
        assert news[0].token != x.token;
      }
    }
  }

  lemma {:induction false} RecordConcat(entries: seq<Entry>, a: seq<Entry>, b: seq<Entry>)
    ensures Record(entries, a + b) == Record(Record(entries, a), b)
    decreases |a|
  {
    if a == [] {
      assert a + b == b;
    } else {
      assert (a + b)[1..] == a[1..] + b;
      RecordConcat(SetEntry(entries, a[0]), a[1..], b);
    }
  }

  // ---- Spans of the two tiers --------------------------------------------------------------------

  /** The spans that show the entries issued for `ms`. */
  function Spanned(ms: seq<PatternMatch>, es: seq<Entry>): (r: seq<Span>)
    requires |ms| == |es|
    ensures |r| == |ms|
    ensures forall k :: 0 <= k < |r| ==> r[k] == Span(ms[k].start, ms[k].end, es[k].token)
  {
    seq(|ms|, k requires 0 <= k < |ms| => Span(ms[k].start, ms[k].end, es[k].token))
  }

  lemma {:induction false} SpannedIsInOrder(t: string, p: nat, ms: seq<PatternMatch>, es: seq<Entry>)
    requires |ms| == |es| && Apart(ms, p) && p <= |t| && forall k :: 0 <= k < |ms| ==> ms[k].end <= |t|
    ensures InOrder(t, p, Spanned(ms, es))
    decreases |ms|
  {
    if ms != [] {
      SpannedIsInOrder(t, ms[0].end, ms[1..], es[1..]);
      assert Spanned(ms, es)[1..] == Spanned(ms[1..], es[1..]);
    }
  }

  /** Every span shows the token of an issued entry whose value is what it covers. */
  ghost predicate Shows(t: string, spans: seq<Span>, issued: seq<Entry>) {
    forall k :: 0 <= k < |spans| ==> ShowsOne(t, spans[k], issued)
  }

  ghost predicate ShowsOne(t: string, sp: Span, issued: seq<Entry>) {
    && sp.start <= sp.end <= |t|
    && exists e :: e in issued && e.token == sp.text && t[sp.start..sp.end] == e.value
  }

  /** No span of `spans` touches a token of `tokens` in `u`. */
  ghost predicate MissesTokens(u: string, tokens: seq<Span>, spans: seq<Span>) {
    forall a, k, j :: 0 <= k < |tokens| && 0 <= j < |spans| && OccursAt(u, a, tokens[k].text) ==>
      spans[j].end <= a || a + |tokens[k].text| <= spans[j].start
  }

  /** `u` from `q` on is the rendering of `first` in `t` from `p` on, and `second` are spans of `u`. */
  ghost predicate Stacked(t: string, p: nat, first: seq<Span>, u: string, q: nat, second: seq<Span>) {
    && InOrder(t, p, first) && q <= |u| && u[q..] == Render(t, p, first)
    && InOrder(u, q, second) && MissesTokens(u, first, second)
  }

  lemma SameStretch(t: string, p: nat, u: string, q: nat, n: nat, a: nat, b: nat)
    requires p + n <= |t| && q + n <= |u| && t[p..p + n] == u[q..q + n] && a <= b <= n
    ensures t[p + a..p + b] == u[q + a..q + b]
  {
    forall k | p + a <= k < p + b ensures t[k] == u[k - p + q] {
      assert t[p..p + n][k - p] == t[k] && u[q..q + n][k - p] == u[k - p + q];
    }
  }

  /** A second-tier span in front of the next token lies in a gap of the text. */
  lemma SecondInGap(t: string, p: nat, first: seq<Span>, u: string, q: nat, second: seq<Span>) returns (s: Span)
    requires Stacked(t, p, first, u, q, second) && second != []
    requires first == [] || second[0].end <= q + (first[0].start - p)
    ensures s.text == second[0].text && s.start - p == second[0].start - q && s.end - p == second[0].end - q
    ensures p <= s.start < s.end <= |t| && t[p..s.start] == u[q..second[0].start]
    ensures t[s.start..s.end] == u[second[0].start..second[0].end]
    ensures Stacked(t, s.end, first, u, second[0].end, second[1..])
  {
    var x := second[0];
    s := Span(p + (x.start - q), p + (x.end - q), x.text);
    assert InOrder(t, s.end, first) by { if first == [] { assert u[q..] == t[p..]; } }
    FromEarlier(t, p, s.end, first);
    var gap, rest := t[p..s.end], Render(t, s.end, first);
    assert u[q..] == gap + rest;
    assert u[x.end..] == u[q..][|gap|..];
    assert (gap + rest)[|gap|..] == rest;
    assert gap == (gap + rest)[..|gap|] == u[q..][..|gap|] == u[q..x.end];
    SameStretch(t, p, u, q, s.end - p, 0, s.start - p);
    SameStretch(t, p, u, q, s.end - p, s.start - p, s.end - p);
  }

  lemma SliceOfSuffix(u: string, q: nat, r: string, i: nat, j: nat)
    requires q <= |u| && u[q..] == r && i <= j <= |r|
    ensures q + j <= |u| && u[q + i..q + j] == r[i..j]
  {
    assert u[q..][i..j] == u[q + i..q + j];
  }

  /** Otherwise the token comes first, and the span lies behind it. */
  lemma TokenFirst(t: string, p: nat, first: seq<Span>, u: string, q: nat, second: seq<Span>) returns (q': nat)
    requires Stacked(t, p, first, u, q, second) && second != [] && first != []
    requires second[0].end > q + (first[0].start - p)
    ensures q' == q + (first[0].start - p) + |first[0].text| && q' <= second[0].start
    ensures u[q..q'] == t[p..first[0].start] + first[0].text
    ensures Stacked(t, first[0].end, first[1..], u, q', second)
  {
    var x, gap := first[0], t[p..first[0].start];
    var rest := Render(t, x.end, first[1..]);
    var r := gap + (x.text + rest);
    assert u[q..] == r;
    var a := q + |gap|;
    q' := a + |x.text|;
    assert r[|gap|..|gap| + |x.text|] == x.text && r[0..|gap| + |x.text|] == gap + x.text
           && r[|gap| + |x.text|..|r|] == rest;
    SliceOfSuffix(u, q, r, |gap|, |gap| + |x.text|);
    SliceOfSuffix(u, q, r, 0, |gap| + |x.text|);
    SliceOfSuffix(u, q, r, |gap| + |x.text|, |r|);
    assert OccursAt(u, a, x.text);
    assert u[q'..] == rest;
  }

  lemma {:induction false} PrependSpan(t: string, p: nat, s: Span, rest: seq<Span>)
    requires p <= s.start < s.end <= |t| && InOrder(t, s.end, rest)
    ensures InOrder(t, p, [s] + rest) && Render(t, p, [s] + rest) == t[p..s.start] + (s.text + Render(t, s.end, rest))
  {
    assert ([s] + rest)[1..] == rest;
  }

  /** `m` stands for `first` below `second`: it renders to the same string and shows the same entries. */
  ghost predicate Merged(t: string, p: nat, u: string, q: nat, second: seq<Span>, issued: seq<Entry>, m: seq<Span>) {
    && InOrder(t, p, m) && InOrder(u, q, second) && Render(t, p, m) == Render(u, q, second) && Shows(t, m, issued)
  }

  lemma {:induction false} MergeSpan(t: string, p: nat, s: Span, u: string, q: nat, second: seq<Span>,
                                     issued: seq<Entry>, rest: seq<Span>)
    requires second != [] && InOrder(u, q, second) && p <= s.start < s.end <= |t| && s.text == second[0].text
    requires t[p..s.start] == u[q..second[0].start] && t[s.start..s.end] == u[second[0].start..second[0].end]
    requires Merged(t, s.end, u, second[0].end, second[1..], issued, rest) && ShowsOne(u, second[0], issued)
    ensures Merged(t, p, u, q, second, issued, [s] + rest)
  {
    PrependSpan(t, p, s, rest);
  }

  lemma {:induction false} MergeToken(t: string, p: nat, s: Span, u: string, q: nat, q': nat, second: seq<Span>,
                                      issued: seq<Entry>, rest: seq<Span>)
    requires p <= s.start < s.end <= |t| && q <= q' && InOrder(u, q', second) && u[q..q'] == t[p..s.start] + s.text
    requires Merged(t, s.end, u, q', second, issued, rest) && ShowsOne(t, s, issued)
    ensures Merged(t, p, u, q, second, issued, [s] + rest)
  {
    PrependSpan(t, p, s, rest);
    FromEarlier(u, q, q', second);
  }

  /** Two tiers of spans amount to one: spans of the original text that render to the same string. */
  lemma {:induction false} Merge(t: string, p: nat, first: seq<Span>, u: string, q: nat, second: seq<Span>,
                                 issued: seq<Entry>) returns (m: seq<Span>)
    requires Stacked(t, p, first, u, q, second) && Shows(t, first, issued) && Shows(u, second, issued)
    ensures Merged(t, p, u, q, second, issued, m) && |m| == |first| + |second|
    decreases |first| + |second|
  {
    if second == [] {
      m := first;
    } else if first == [] || second[0].end <= q + (first[0].start - p) {
      var s := SecondInGap(t, p, first, u, q, second);
      var rest := Merge(t, s.end, first, u, second[0].end, second[1..], issued);
      m := [s] + rest;
      MergeSpan(t, p, s, u, q, second, issued, rest);
    } else {
      var q' := TokenFirst(t, p, first, u, q, second);
      var rest := Merge(t, first[0].end, first[1..], u, q', second, issued);
      m := [first[0]] + rest;
      MergeToken(t, p, first[0], u, q, q', second, issued, rest);
    }
  }

  /** Disjoint non-empty spans are no more than characters. */
  lemma {:induction false} FewSpans(t: string, p: nat, spans: seq<Span>)
    requires InOrder(t, p, spans)
    ensures |spans| <= |t| - p
    decreases |spans|
  {
    if spans != [] { FewSpans(t, spans[0].end, spans[1..]); }
  }

  // ---- The scrub ---------------------------------------------------------------------------------

  function Rev<T>(s: seq<T>): (r: seq<T>)
    ensures |r| == |s| && forall k :: 0 <= k < |s| ==> r[k] == s[|s| - 1 - k]
  {
    seq(|s|, k requires 0 <= k < |s| => s[|s| - 1 - k])
  }

  /** The matches a table keeps can be spliced, whatever shows them. */
  lemma {:induction false} TierWorks(table: seq<PatternDef>, t: string)
    requires SafeExpressions(table)
    ensures var ms := Select(Candidates(table, t));
      && (forall k :: 0 <= k < |ms| ==> Detected(t, ms[k]))
      && (forall es: seq<Entry> :: |es| == |ms| ==> InOrder(t, 0, Spanned(ms, es)))
  {
    var cs := Candidates(table, t);
    forall m | m in cs ensures Detected(t, m) { CandidatesAreDetected(table, t, m); }
    SelectIsGreedy(cs);
    var ms := Select(cs);
    forall k | 0 <= k < |ms| ensures Detected(t, ms[k]) { assert ms[k] in ms; }
    forall es: seq<Entry> | |es| == |ms| ensures InOrder(t, 0, Spanned(ms, es)) { SpannedIsInOrder(t, 0, ms, es); }
  }

  function First(t: string): seq<PatternMatch> {
    Select(Candidates(TIER1, t))
  }

  function FirstIssued(t: string): (r: seq<Entry>)
    ensures |r| == |First(t)|
  {
    Issue(First(t), map[])
  }

  /** So it is in the first tier, in the text ... */
  lemma FirstDetects(t: string, p: PatternDef, i: nat) returns (start: nat, end: nat)
    requires p in TIER1 && i <= |t| && Ends(p.re, t, i) != []
    ensures start <= i < end && Preferred(p.re, t, start, end)
            && (Valid(p, t[start..end]) ==> Kept(First(t), start, end))
  {
    Tier1IsSafe();
    start, end := PositionIsKept(TIER1, p, t, i);
  }

  /** ... and in the second, in the text that the first has tokenized. */
  lemma SecondDetects(t: string, p: PatternDef, i: nat) returns (start: nat, end: nat)
    requires p in TIER2 && i <= |Middle(t)| && Ends(p.re, Middle(t), i) != []
    ensures start <= i < end && Preferred(p.re, Middle(t), start, end)
    ensures Valid(p, Middle(t)[start..end]) ==> Kept(Second(t), start, end)
  {
    Tier2IsSafe();
    start, end := PositionIsKept(TIER2, p, Middle(t), i);
  }

  /** What is kept stands for an entry of the tier's table. */
  lemma TiersStand(t: string, m: PatternMatch)
    ensures m in First(t) ==> exists p :: p in TIER1 && Stands(p, t, m)
    ensures m in Second(t) ==> exists p :: p in TIER2 && Stands(p, Middle(t), m)
  {
    if m in First(t) { SelectedStand(TIER1, t, m); }
    if m in Second(t) { SelectedStand(TIER2, Middle(t), m); }
  }

  /** What `scrubPII` returns. */
  function Middle(t: string): string {
    Tier1IsSafe();
    TierWorks(TIER1, t);
    Render(t, 0, Spanned(First(t), FirstIssued(t)))
  }

  /** Tier 2 runs on the text that tier 1 has tokenized. */
  function Second(t: string): seq<PatternMatch> {
    Select(Candidates(TIER2, Middle(t)))
  }

  /** Tier 2 numbers from the right, on from the counts that tier 1 leaves in the vault. */
  function SecondIssued(counts: Counts, t: string): (r: seq<Entry>)
    ensures |r| == |Second(t)|
  {
    Issue(Rev(Second(t)), Bumped(First(t), counts))
  }

  function Scrubbed(counts: Counts, t: string): string {
    Tier2IsSafe();
    TierWorks(TIER2, Middle(t));
    Render(Middle(t), 0, Spanned(Second(t), Rev(SecondIssued(counts, t))))
  }

  function Issued(counts: Counts, t: string): seq<Entry> {
    FirstIssued(t) + SecondIssued(counts, t)
  }

  function EntriesAfter(entries: seq<Entry>, counts: Counts, t: string): seq<Entry> {
    Record(entries, Issued(counts, t))
  }

  function CountsAfter(counts: Counts, t: string): Counts {
    Bumped(Rev(Second(t)), Bumped(First(t), counts))
  }

  // ---- What a vault holds ------------------------------------------------------------------------

  ghost predicate Proper(e: Entry) {
    DelimiterFree(e.value) && exists n: nat :: e.token == Token(e.entity, n)
  }

  /** A map from tokens to values without delimiters. */
  ghost predicate ValidEntries(entries: seq<Entry>) {
    Distinct(entries) && forall k :: 0 <= k < |entries| ==> Proper(entries[k])
  }

  ghost predicate Small(entries: seq<Entry>) {
    forall k :: 0 <= k < |entries| ==> IsSmallToken(entries[k].token)
  }

  /** A held token that occurs in the text has a small number. */
  ghost predicate SmallIn(t: string, entries: seq<Entry>) {
    forall k, a :: 0 <= k < |entries| && OccursAt(t, a, entries[k].token) ==> IsSmallToken(entries[k].token)
  }

  lemma ProperIsSane(e: Entry)
    requires Proper(e)
    ensures Sane(e)
  {
    var n: nat :| e.token == Token(e.entity, n);
    TokenShape(e.entity, n);
  }

  lemma {:induction false} IssueIsProper(t: string, ms: seq<PatternMatch>, counts: Counts)
    requires forall k :: 0 <= k < |ms| ==> Detected(t, ms[k])
    ensures forall k :: 0 <= k < |ms| ==> Proper(Issue(ms, counts)[k])
  {
    forall k | 0 <= k < |ms| ensures Proper(Issue(ms, counts)[k]) { IssuedEntry(ms, counts, k); }
  }

  lemma {:induction false} TwoPassesAreValid(t: string, ms: seq<PatternMatch>, u: string, ns: seq<PatternMatch>,
                                             counts: Counts)
    requires forall k :: 0 <= k < |ms| ==> Detected(t, ms[k])
    requires forall k :: 0 <= k < |ns| ==> Detected(u, ns[k])
    ensures ValidEntries(Issue(ms, map[]) + Issue(ns, Bumped(ms, counts)))
  {
    var later := Bumped(ms, counts);
    forall e ensures CountOf(later, e) >= CountOf(Bumped(ms, map[]), e) {
      BumpedTotals(ms, counts, e);
      BumpedTotals(ms, map[], e);
    }
    PassesAreDistinct(ms, ns, map[], later);
    IssueIsProper(t, ms, map[]);
    IssueIsProper(u, ns, later);
  }

  /** Every token of one call is new in this call, across both tiers. */
  lemma IssuedIsValid(counts: Counts, t: string)
    ensures ValidEntries(Issued(counts, t))
  {
    Tier1IsSafe();
    Tier2IsSafe();
    TierWorks(TIER1, t);
    TierWorks(TIER2, Middle(t));
    TwoPassesAreValid(t, First(t), Middle(t), Rev(Second(t)), counts);
  }

  lemma EntriesStayValid(entries: seq<Entry>, counts: Counts, t: string)
    requires ValidEntries(entries)
    ensures ValidEntries(EntriesAfter(entries, counts, t))
  {
    IssuedIsValid(counts, t);
    var after := EntriesAfter(entries, counts, t);
    forall k | 0 <= k < |after| ensures Proper(after[k]) { RecordHas(entries, Issued(counts, t), after[k]); }
    RecordHas(entries, Issued(counts, t), Entry("", "A", ""));
  }

  // ---- The round trip ----------------------------------------------------------------------------

  lemma ValidIsSane(entries: seq<Entry>)
    requires ValidEntries(entries)
    ensures AllSane(entries)
  {
    forall k | 0 <= k < |entries| ensures Sane(entries[k]) { ProperIsSane(entries[k]); }
  }

  /** Where a span shows an issued entry, every entry with the same token restores it. */
  lemma ShowsRestores(t: string, spans: seq<Span>, issued: seq<Entry>, entries: seq<Entry>)
    requires Shows(t, spans, issued) && ValidEntries(entries) && forall e :: e in issued ==> e in entries
    ensures AllBracketed(spans) && Undoes(t, spans, entries)
  {
    ValidIsSane(entries);
    forall k | 0 <= k < |spans| ensures Bracketed(spans[k].text) {
      assert ShowsOne(t, spans[k], issued);
      var e :| e in issued && e.token == spans[k].text;
      var j :| 0 <= j < |entries| && entries[j] == e;
    }
    forall k | 0 <= k < |spans| ensures exists e :: e in entries && e.token == spans[k].text {
      assert ShowsOne(t, spans[k], issued);
      var e :| e in issued && e.token == spans[k].text;
      assert e in entries;
    }
    forall i | 0 <= i < |entries| ensures Restores(t, spans, entries[i].token, entries[i].value) {
      forall k | 0 <= k < |spans| && spans[k].text == entries[i].token
        ensures spans[k].start <= spans[k].end <= |t| && t[spans[k].start..spans[k].end] == entries[i].value
      {
        assert ShowsOne(t, spans[k], issued);
        var e :| e in issued && e.token == spans[k].text && t[spans[k].start..spans[k].end] == e.value;
        var j :| 0 <= j < |entries| && entries[j] == e;
        assert !(i < j) && !(j < i);
      }
    }
    assert AllBracketed(spans);
    assert forall k :: 0 <= k < |entries| ==> Restores(t, spans, entries[k].token, entries[k].value);
    assert forall k :: 0 <= k < |spans| ==> exists e :: e in entries && e.token == spans[k].text;
  }

  /** Two tiers of spans are undone in one pass over the entries, in whatever order it takes them. */
  lemma {:induction false} TwoTiersRestore(t: string, first: seq<Span>, u: string, second: seq<Span>,
                                           issued: seq<Entry>, entries: seq<Entry>)
    requires Stacked(t, 0, first, u, 0, second) && Shows(t, first, issued) && Shows(u, second, issued)
    requires ValidEntries(entries) && (forall e :: e in issued ==> e in entries) && NoneOccurs(t, entries)
    ensures AllSane(entries) && Rehydrated(Render(u, 0, second), entries) == t
  {
    var m := Merge(t, 0, first, u, 0, second, issued);
    ShowsRestores(t, m, issued, entries);
    ValidIsSane(entries);
    RehydrateRestores(t, m, entries);
  }

  lemma {:induction false} InsertKeepsDistinct(e: Entry, s: seq<Entry>)
    requires Distinct(s) && forall k :: 0 <= k < |s| ==> s[k].token != e.token
    ensures Distinct(Sorting.Insert(e, s, LongerToken))
  {
    if s == [] || LongerToken(e, s[0]) {
    } else {
      InsertKeepsDistinct(e, s[1..]);
      Sorting.InsertKeepsElements(e, s[1..], LongerToken);
      var r := Sorting.Insert(e, s[1..], LongerToken);
      forall k | 0 <= k < |r| ensures r[k].token != s[0].token {
        assert r[k] in multiset(r);
        if r[k] != e { var j :| 0 <= j < |s[1..]| && s[1..][j] == r[k]; assert s[j + 1] == r[k]; }
      }
    }
  }

  lemma {:induction false} SortKeepsDistinct(s: seq<Entry>)
    requires Distinct(s)
    ensures Distinct(Sorting.Sort(s, LongerToken))
  {
    if s != [] {
      SortKeepsDistinct(s[1..]);
      var r := Sorting.Sort(s[1..], LongerToken);
      Sorting.SortKeepsElements(s[1..], LongerToken);
      forall k | 0 <= k < |r| ensures r[k].token != s[0].token {
        assert r[k] in r;
        var j :| 0 <= j < |s[1..]| && s[1..][j] == r[k];
        assert s[j + 1] == r[k];
      }
      InsertKeepsDistinct(s[0], r);
    }
  }

  lemma {:induction false} RehydrateTakesBrackets(s: string, entries: seq<Entry>)
    requires AllSane(entries) && Distinct(entries)
    ensures Count(Rehydrated(s, entries), IsOpen) + Hits(s, TokensOf(entries)) <= Count(s, IsOpen)
  {
    var sorted := Sorting.Sort(entries, LongerToken);
    Sorting.SortKeepsElements(entries, LongerToken);
    forall k | 0 <= k < |sorted| ensures Sane(sorted[k]) { assert sorted[k] in sorted; }
    SortKeepsDistinct(entries);
    ReplaceEachTakesBrackets(s, sorted);
    forall x ensures x in TokensOf(sorted) <==> x in TokensOf(entries) {
      if x in TokensOf(sorted) { var k :| 0 <= k < |sorted| && sorted[k].token == x; assert sorted[k] in sorted; }
      if x in TokensOf(entries) { var k :| 0 <= k < |entries| && entries[k].token == x; assert entries[k] in entries; }
    }
    assert TokensOf(sorted) == TokensOf(entries);
  }

  /** If a token already occurs in the text, the brackets of the result are too few. */
  lemma {:induction false} TwoTiersLoseToken(t: string, first: seq<Span>, u: string, second: seq<Span>,
                                             entries: seq<Entry>)
    requires InOrder(t, 0, first) && u == Render(t, 0, first) && InOrder(u, 0, second)
    requires ValidEntries(entries) && !NoneOccurs(t, entries)
    requires CoversPlainText(t, first) && CoversPlainText(u, second)
    requires Missed(t, first, TokensOf(entries)) && Missed(u, second, TokensOf(entries))
    requires AllIn(first, TokensOf(entries)) && AllIn(second, TokensOf(entries))
    ensures AllSane(entries) && Rehydrated(Render(u, 0, second), entries) != t
  {
    ValidIsSane(entries);
    var tokens := TokensOf(entries);
    var i :| 0 <= i < |entries| && !NowhereFrom(t, 0, entries[i].token);
    var a :| 0 <= a <= |t| && OccursAt(t, a, entries[i].token);
    OccurrenceHits(t, a, entries[i].token, tokens);
    assert t[0..] == t && u[0..] == u;
    RenderAddsHits(t, 0, first, tokens);
    RenderAddsHits(u, 0, second, tokens);
    RenderAddsBrackets(t, 0, first);
    RenderAddsBrackets(u, 0, second);
    RehydrateTakesBrackets(Render(u, 0, second), entries);
  }

  // ---- One call on a vault -----------------------------------------------------------------------

  lemma ShowsIssued(t: string, ms: seq<PatternMatch>, es: seq<Entry>, issued: seq<Entry>)
    requires |ms| == |es|
    requires forall k :: 0 <= k < |ms| ==> Detected(t, ms[k]) && es[k].value == ms[k].value && es[k] in issued
    ensures Shows(t, Spanned(ms, es), issued)
  {
  }

  lemma SpansAreSafe(t: string, ms: seq<PatternMatch>, es: seq<Entry>, entries: seq<Entry>)
    requires |ms| == |es| && (forall k :: 0 <= k < |ms| ==> Detected(t, ms[k])) && SmallIn(t, entries)
    ensures CoversPlainText(t, Spanned(ms, es)) && Missed(t, Spanned(ms, es), TokensOf(entries))
  {
    var spans := Spanned(ms, es);
    forall k | 0 <= k < |spans| ensures '[' !in t[spans[k].start..spans[k].end] { assert Detected(t, ms[k]); }
    forall a, x, k | x in TokensOf(entries) && OccursAt(t, a, x) && 0 <= k < |spans|
      ensures spans[k].end <= a || a + |x| <= spans[k].start
    {
      var j :| 0 <= j < |entries| && entries[j].token == x;
      assert IsSmallToken(entries[j].token) && Detected(t, ms[k]);
      MatchesMissTokens(t, a, x, spans[k].start, spans[k].end);
    }
  }

  /** The entries of a pass carry the values of the matches. */
  lemma {:induction false} IssueValues(ms: seq<PatternMatch>, counts: Counts)
    ensures forall k :: 0 <= k < |ms| ==> Issue(ms, counts)[k].value == ms[k].value
  {
    forall k | 0 <= k < |ms| ensures Issue(ms, counts)[k].value == ms[k].value { IssuedEntry(ms, counts, k); }
  }

  /** `ms` are matches in `t`, `es` the entries that show them, all of them issued. */
  ghost predicate Tier(t: string, ms: seq<PatternMatch>, es: seq<Entry>, issued: seq<Entry>) {
    && |ms| == |es| && InOrder(t, 0, Spanned(ms, es))
    && forall k :: 0 <= k < |ms| ==> Detected(t, ms[k]) && es[k].value == ms[k].value && es[k] in issued
  }

  lemma FirstTier(counts: Counts, t: string)
    ensures Tier(t, First(t), FirstIssued(t), Issued(counts, t))
  {
    Tier1IsSafe();
    TierWorks(TIER1, t);
    IssueValues(First(t), map[]);
  }

  lemma SecondTier(counts: Counts, t: string)
    ensures Tier(Middle(t), Second(t), Rev(SecondIssued(counts, t)), Issued(counts, t))
  {
    Tier2IsSafe();
    TierWorks(TIER2, Middle(t));
    RevValues(Second(t), Bumped(First(t), counts), Issued(counts, t));
  }

  lemma {:induction false} RevValues(ns: seq<PatternMatch>, counts: Counts, issued: seq<Entry>)
    requires forall e :: e in Issue(Rev(ns), counts) ==> e in issued
    ensures forall k :: 0 <= k < |ns| ==>
      Rev(Issue(Rev(ns), counts))[k].value == ns[k].value && Rev(Issue(Rev(ns), counts))[k] in issued
  {
    var rev, es := Rev(ns), Issue(Rev(ns), counts);
    IssueValues(rev, counts);
    forall k | 0 <= k < |ns| ensures Rev(es)[k].value == ns[k].value && Rev(es)[k] in issued {
      var j := |ns| - 1 - k;
      assert Rev(es)[k] == es[j] && rev[j] == ns[k] && es[j] in es;
    }
  }

  lemma IssuedAreHeld(entries: seq<Entry>, counts: Counts, t: string)
    requires ValidEntries(entries)
    ensures forall e :: e in Issued(counts, t) ==> e in EntriesAfter(entries, counts, t)
  {
    IssuedIsValid(counts, t);
    forall e | e in Issued(counts, t) ensures e in EntriesAfter(entries, counts, t) {
      RecordHas(entries, Issued(counts, t), e);
    }
  }

  /** The rendering holds the text's tokens and those that the spans show. */
  lemma {:induction false} SmallInRender(t: string, spans: seq<Span>, entries: seq<Entry>)
    requires InOrder(t, 0, spans) && AllBracketed(spans) && ValidEntries(entries) && SmallIn(t, entries)
    requires forall k :: 0 <= k < |spans| ==> IsSmallToken(spans[k].text)
    ensures SmallIn(Render(t, 0, spans), entries)
  {
    forall k, a | 0 <= k < |entries| && OccursAt(Render(t, 0, spans), a, entries[k].token)
      ensures IsSmallToken(entries[k].token)
    {
      assert Proper(entries[k]);
      ProperIsSane(entries[k]);
      var b := OccursInRender(t, 0, spans, entries[k].token, a);
    }
  }

  /**
   * `rehydrate` inverts `scrub`, for every state of the vault, exactly when the text contains none of the
   * tokens that the vault holds afterwards. Any numbers may be held; only the tokens that the text holds,
   * and those that the first tier writes into it, have numbers below 10^9.
   */
  lemma RoundTrip(entries: seq<Entry>, counts: Counts, t: string)
    requires ValidEntries(entries) && Small(FirstIssued(t)) && SmallIn(t, EntriesAfter(entries, counts, t))
    ensures ValidEntries(EntriesAfter(entries, counts, t)) && AllSane(EntriesAfter(entries, counts, t))
    ensures Rehydrated(Scrubbed(counts, t), EntriesAfter(entries, counts, t)) == t
       <==> NoneOccurs(t, EntriesAfter(entries, counts, t))
  {
    EntriesStayValid(entries, counts, t);
    IssuedAreHeld(entries, counts, t);
    FirstTier(counts, t);
    SecondTier(counts, t);
    RoundTripOfSpans(t, First(t), FirstIssued(t), Middle(t), Second(t), Rev(SecondIssued(counts, t)),
                     Issued(counts, t), EntriesAfter(entries, counts, t));
  }

  lemma ShownAreSmall(ms: seq<PatternMatch>, es: seq<Entry>)
    requires |ms| == |es| && Small(es)
    ensures forall k :: 0 <= k < |es| ==> IsSmallToken(Spanned(ms, es)[k].text)
  {
  }

  lemma {:induction false} RoundTripOfSpans(t: string, ms: seq<PatternMatch>, es: seq<Entry>, u: string,
                                            ns: seq<PatternMatch>, fs: seq<Entry>,
                         issued: seq<Entry>, after: seq<Entry>)
    requires Tier(t, ms, es, issued) && u == Render(t, 0, Spanned(ms, es)) && Tier(u, ns, fs, issued)
    requires ValidEntries(after) && Small(es) && SmallIn(t, after) && forall e :: e in issued ==> e in after
    ensures AllSane(after) && (Rehydrated(Render(u, 0, Spanned(ns, fs)), after) == t <==> NoneOccurs(t, after))
  {
    var first, second := Spanned(ms, es), Spanned(ns, fs);
    ShowsIssued(t, ms, es, issued);
    ShowsIssued(u, ns, fs, issued);
    SpansMissTokens(t, ms, es, u, ns, fs, issued, after);
    if NoneOccurs(t, after) {
      assert u[0..] == u;
      TwoTiersRestore(t, first, u, second, issued, after);
    } else {
      TwoTiersLoseToken(t, first, u, second, after);
    }
  }

  lemma {:induction false} SpansMissTokens(t: string, ms: seq<PatternMatch>, es: seq<Entry>, u: string,
                                           ns: seq<PatternMatch>, fs: seq<Entry>, issued: seq<Entry>, after: seq<Entry>)
    requires Tier(t, ms, es, issued) && u == Render(t, 0, Spanned(ms, es)) && Tier(u, ns, fs, issued)
    requires ValidEntries(after) && Small(es) && SmallIn(t, after) && forall e :: e in issued ==> e in after
    ensures var first, second := Spanned(ms, es), Spanned(ns, fs);
            && CoversPlainText(t, first) && Missed(t, first, TokensOf(after)) && AllIn(first, TokensOf(after))
            && CoversPlainText(u, second) && Missed(u, second, TokensOf(after)) && AllIn(second, TokensOf(after))
            && MissesTokens(u, first, second)
  {
    var first := Spanned(ms, es);
    SpansAreSafe(t, ms, es, after);
    ShowsIssued(t, ms, es, issued);
    ShowsRestores(t, first, issued, after);
    ShownAreSmall(ms, es);
    SmallInRender(t, first, after);
    SpansAreSafe(u, ns, fs, after);
    forall e | e in issued ensures e.token in TokensOf(after) { var j :| 0 <= j < |after| && after[j] == e; }
  }

  ghost predicate AllIn(spans: seq<Span>, tokens: set<string>) {
    forall k :: 0 <= k < |spans| ==> spans[k].text in tokens
  }

  // ---- Small numbers -----------------------------------------------------------------------------

  lemma FewFirst(t: string)
    requires |t| < LIMIT
    ensures Small(FirstIssued(t))
  {
    FirstTier(map[], t);
    FewSpans(t, 0, Spanned(First(t), FirstIssued(t)));
    forall k | 0 <= k < |FirstIssued(t)| ensures IsSmallToken(FirstIssued(t)[k].token) {
      IssuedEntry(First(t), map[], k);
      NumberBounds(First(t), map[], k);
    }
  }

  /** Nothing that `first` issued is issued again, with another value, by `second`. */
  ghost predicate NotReissued(first: seq<Entry>, second: seq<Entry>) {
    forall e, e' :: e in first && e' in second && e.token == e'.token ==> e == e'
  }

  /**
   * After a second `scrub` on the same vault, the first text still comes back exactly if none of the tokens
   * now held occurs in it, provided none of its own was reissued with another value.
   */
  lemma SecondScrub(entries: seq<Entry>, counts: Counts, t: string, t': string)
    requires ValidEntries(entries)
    requires var held, counts' := EntriesAfter(entries, counts, t), CountsAfter(counts, t);
             && Small(FirstIssued(t)) && SmallIn(t, EntriesAfter(held, counts', t'))
             && NotReissued(Issued(counts, t), Issued(counts', t'))
    ensures var after := EntriesAfter(EntriesAfter(entries, counts, t), CountsAfter(counts, t), t');
            AllSane(after) && (Rehydrated(Scrubbed(counts, t), after) == t <==> NoneOccurs(t, after))
  {
    var held, counts' := EntriesAfter(entries, counts, t), CountsAfter(counts, t);
    var after := EntriesAfter(held, counts', t');
    EntriesStayValid(entries, counts, t);
    EntriesStayValid(held, counts', t');
    IssuedAreHeld(entries, counts, t);
    StillHeld(held, counts', t', Issued(counts, t));
    FirstTier(counts, t);
    SecondTier(counts, t);
    RoundTripOfSpans(t, First(t), FirstIssued(t), Middle(t), Second(t), Rev(SecondIssued(counts, t)),
                     Issued(counts, t), after);
  }

  lemma StillHeld(held: seq<Entry>, counts: Counts, t: string, issued: seq<Entry>)
    requires ValidEntries(held) && (forall e :: e in issued ==> e in held) && NotReissued(issued, Issued(counts, t))
    ensures forall e :: e in issued ==> e in EntriesAfter(held, counts, t)
  {
    var news := Issued(counts, t);
    IssuedIsValid(counts, t);
    forall e | e in issued ensures e in EntriesAfter(held, counts, t) {
      RecordHas(held, news, e);
      forall k | 0 <= k < |news| && news[k].token == e.token ensures e in news { assert news[k] in news; }
    }
  }

  lemma {:induction false} FewOfTiers(t: string, ms: seq<PatternMatch>, es: seq<Entry>, u: string,
                                      ns: seq<PatternMatch>, fs: seq<Entry>, issued: seq<Entry>)
    requires Tier(t, ms, es, issued) && u == Render(t, 0, Spanned(ms, es)) && Tier(u, ns, fs, issued) && Small(es)
    ensures |ms| + |ns| <= |t|
  {
    var first, second := Spanned(ms, es), Spanned(ns, fs);
    SpansAreSafe(u, ns, fs, es);
    assert MissesTokens(u, first, second);
    ShowsIssued(t, ms, es, issued);
    ShowsIssued(u, ns, fs, issued);
    assert u[0..] == u;
    var m := Merge(t, 0, first, u, 0, second, issued);
    FewSpans(t, 0, m);
  }

  /** Both tiers together keep at most one match per character of the text. */
  lemma FewMatches(t: string)
    requires |t| < LIMIT
    ensures |First(t)| + |Second(t)| <= |t|
  {
    FirstTier(map[], t);
    SecondTier(map[], t);
    FewFirst(t);
    FewOfTiers(t, First(t), FirstIssued(t), Middle(t), Second(t), Rev(SecondIssued(map[], t)), Issued(map[], t));
  }

  lemma {:induction false} SmallPass(ms: seq<PatternMatch>, counts: Counts)
    requires forall e :: CountOf(counts, e) + |ms| < LIMIT
    ensures Small(Issue(ms, counts))
  {
    forall k | 0 <= k < |ms| ensures IsSmallToken(Issue(ms, counts)[k].token) {
      IssuedEntry(ms, counts, k);
      NumberBounds(ms, counts, k);
    }
  }

  /** Counts that leave room for the text keep the tokens' numbers small. */
  lemma StaysSmall(entries: seq<Entry>, counts: Counts, t: string)
    requires ValidEntries(entries) && Small(entries) && |t| < LIMIT && forall e :: CountOf(counts, e) + |t| < LIMIT
    ensures Small(EntriesAfter(entries, counts, t))
  {
    FewMatches(t);
    SmallPass(First(t), map[]);
    var later := Bumped(First(t), counts);
    forall e ensures CountOf(later, e) + |Rev(Second(t))| < LIMIT {
      BumpedTotals(First(t), counts, e);
      TotalOfPrefix(First(t), e, 0, |First(t)|);
      assert First(t)[..|First(t)|] == First(t);
    }
    SmallPass(Rev(Second(t)), later);
    IssuedIsValid(counts, t);
    var after := EntriesAfter(entries, counts, t);
    forall k | 0 <= k < |after| ensures IsSmallToken(after[k].token) {
      RecordHas(entries, Issued(counts, t), after[k]);
      if after[k] in entries { var j :| 0 <= j < |entries| && entries[j] == after[k]; }
    }
  }

  lemma SmallAreSmallIn(t: string, entries: seq<Entry>)
    requires Small(entries)
    ensures SmallIn(t, entries)
  {
  }

  /** A fresh vault and a text of fewer than 10^9 characters. */
  lemma FreshRoundTrip(t: string)
    requires |t| < LIMIT
    ensures AllSane(EntriesAfter([], map[], t))
    ensures Rehydrated(Scrubbed(map[], t), EntriesAfter([], map[], t)) == t
            <==> NoneOccurs(t, EntriesAfter([], map[], t))
  {
    StaysSmall([], map[], t);
    FewFirst(t);
    SmallAreSmallIn(t, EntriesAfter([], map[], t));
    RoundTrip([], map[], t);
  }

  lemma {:induction false} NoneOccursIs(t: string, entries: seq<Entry>)
    ensures NoneOccurs(t, entries) <==> forall k, a :: 0 <= k < |entries| ==> !OccursAt(t, a, entries[k].token)
  {
  }

  /** A text in which nothing looks like a token comes back from every vault. */
  lemma TokenFreeRoundTrip(entries: seq<Entry>, counts: Counts, t: string)
    requires ValidEntries(entries) && Small(FirstIssued(t)) && forall x, a :: IsToken(x) ==> !OccursAt(t, a, x)
    ensures AllSane(EntriesAfter(entries, counts, t))
    ensures Rehydrated(Scrubbed(counts, t), EntriesAfter(entries, counts, t)) == t
  {
    var after := EntriesAfter(entries, counts, t);
    EntriesStayValid(entries, counts, t);
    forall k, a | 0 <= k < |after| ensures !OccursAt(t, a, after[k].token) { assert Proper(after[k]); }
    NoneOccursIs(t, after);
    RoundTrip(entries, counts, t);
  }
}
