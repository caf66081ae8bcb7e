/** `EntityVault` and `scrubPII` in the form of the source: fields and loops. */
module EntityVault {
  import opened PiiPatterns
  import opened Spans
  import opened Tokens
  import opened Rehydration
  import opened Scrubbing
  import Sorting

  predicate LaterStart(a: PatternMatch, b: PatternMatch) {
    b.start <= a.start
  }

  predicate EarlierStart(a: PatternMatch, b: PatternMatch) {
    a.start <= b.start
  }

  lemma {:induction false} InsertFirst(m: PatternMatch, s: seq<PatternMatch>)
    requires forall k :: 0 <= k < |s| ==> m.start < s[k].start
    ensures Sorting.Insert(m, s, LaterStart) == s + [m]
  {
    if s != [] {
      InsertFirst(m, s[1..]);
      assert [s[0]] + (s[1..] + [m]) == s + [m];
    }
  }

  /** Sorting matches that are apart by descending start reverses them. */
  lemma {:induction false} SortReverses(ms: seq<PatternMatch>, p: int)
    requires Apart(ms, p)
    ensures Sorting.Sort(ms, LaterStart) == Rev(ms)
    decreases |ms|
  {
    if ms != [] {
      assert Apart(ms[1..], ms[0].end);
      SortReverses(ms[1..], ms[0].end);
      InsertFirst(ms[0], Rev(ms[1..]));
      assert Rev(ms) == Rev(ms[1..]) + [ms[0]];
    }
  }

  lemma {:induction false} SuffixInOrder(t: string, p: nat, spans: seq<Span>, k: nat)
    requires InOrder(t, p, spans) && k <= |spans|
    ensures InOrder(t, 0, spans[k..])
    decreases |spans|
  {
    if k == 0 {
      FromEarlier(t, 0, p, spans);
      assert spans[0..] == spans;
    } else {
      SuffixInOrder(t, spans[0].end, spans[1..], k - 1);
      assert spans[1..][k - 1..] == spans[k..];
    }
  }

  /** The splicing loop, last span first. */
  method SpliceBackwards(t: string, spans: seq<Span>) returns (result: string)
    requires InOrder(t, 0, spans)
    ensures result == Render(t, 0, spans)
  {
    result := t;
    var i := |spans|;
    while i > 0
      invariant 0 <= i <= |spans| && InOrder(t, 0, spans[i..]) && result == Render(t, 0, spans[i..])
    {
      i := i - 1;
      SuffixInOrder(t, 0, spans, i);
      assert spans[i..][1..] == spans[i + 1..];
      SpliceFirst(t, spans[i..]);
      result := Splice(result, spans[i]);
    }
    assert spans[0..] == spans;
  }

  /** The entry of the next token of the match's type. */
  function NextEntry(m: PatternMatch, counts: Counts): Entry {
    EntryOf(m, CountOf(counts, m.entity) + 1)
  }

  /** One round of the numbering. */
  lemma {:induction false} NextIssued(ms: seq<PatternMatch>, counts: Counts, issued: seq<Entry>, i: nat)
    requires i < |ms| == |issued| && Issue(ms[i..], counts) == issued[i..]
    ensures issued[i] == NextEntry(ms[i], counts)
    ensures Issue(ms[i + 1..], Bump(counts, ms[i].entity)) == issued[i + 1..]
  {
    assert issued[i] == issued[i..][0];
    assert issued[i + 1..] == issued[i..][1..];
    assert ms[i + 1..] == ms[i..][1..];
  }

  /** One round of `Map.set` and of the counting. */
  lemma {:induction false} EnterOne(entries: seq<Entry>, issued: seq<Entry>, ms: seq<PatternMatch>, counts: Counts,
                                    i: nat)
    requires i < |issued| == |ms|
    ensures Record(entries, issued[i..]) == Record(SetEntry(entries, issued[i]), issued[i + 1..])
    ensures Bumped(ms[i..], counts) == Bumped(ms[i + 1..], Bump(counts, ms[i].entity))
  {
    assert issued[i..][1..] == issued[i + 1..] && ms[i..][1..] == ms[i + 1..];
  }

  /** Per-type sequential numbering. */
  method NumberMatches(matches: seq<PatternMatch>) returns (entities: seq<Entry>)
    ensures entities == Issue(matches, map[])
  {
    var typeCounts: Counts := map[];
    ghost var issued := Issue(matches, map[]);
    entities := [];
    for i := 0 to |matches|
      invariant entities == issued[..i] && Issue(matches[i..], typeCounts) == issued[i..]
    {
      var m := matches[i];
      var count := CountOf(typeCounts, m.entity) + 1;
      NextIssued(matches, typeCounts, issued, i);
      typeCounts := typeCounts[m.entity := count];
      entities := entities + [Entry(Token(m.entity, count), m.entity, m.value)];
    }
  }

  method DetectPII(text: string) returns (matches: seq<PatternMatch>)
    ensures matches == First(text)
  {
    matches := RunPatterns(text, TIER1);
  }

  method DetectTier2(middle: string) returns (matches: seq<PatternMatch>)
    ensures matches == Select(Candidates(TIER2, middle))
  {
    matches := RunPatterns(middle, TIER2);
  }

  /** Matches that are apart are in order of their starts: the second sort changes nothing. */
  lemma {:induction false} ApartAscends(ms: seq<PatternMatch>, p: int)
    requires Apart(ms, p)
    ensures Sorting.SortedBy(ms, EarlierStart) && forall k :: 0 <= k < |ms| ==> p <= ms[k].start
    decreases |ms|
  {
    if ms != [] {
      ApartAscends(ms[1..], ms[0].end);
      forall i, j | 0 <= i < j < |ms| ensures EarlierStart(ms[i], ms[j]) {
        assert ms[j] == ms[1..][j - 1];
        if i > 0 { assert ms[i] == ms[1..][i - 1] && EarlierStart(ms[1..][i - 1], ms[1..][j - 1]); }
      }
      forall k | 0 <= k < |ms| ensures p <= ms[k].start { if k > 0 { assert ms[k] == ms[1..][k - 1]; } }
    }
  }

  /** `scrubPII` */
  method ScrubPII(text: string) returns (scrubbed: string, matches: seq<PatternMatch>, entities: seq<Entry>)
    ensures matches == First(text) && entities == FirstIssued(text) && scrubbed == Middle(text)
  {
    matches := DetectPII(text);
    FirstTier(map[], text);
    InOrderIsApart(text, 0, First(text), FirstIssued(text));
    ApartAscends(matches, 0);
    Sorting.SortedIsFixed(matches, EarlierStart);
    matches := Sorting.Sort(matches, EarlierStart);
    entities := NumberMatches(matches);
    scrubbed := SpliceBackwards(text, Spanned(matches, entities));
  }

  /** The filter on second-tier matches. */
  predicate LooksLikeToken(value: string) {
    value != [] && value[0] == '[' && value[|value| - 1] == ']'
  }

  function DropTokens(ms: seq<PatternMatch>): seq<PatternMatch> {
    if ms == [] then [] else (if LooksLikeToken(ms[0].value) then [] else [ms[0]]) + DropTokens(ms[1..])
  }

  /** It never drops anything. */
  lemma {:induction false} NothingIsDropped(t: string, ms: seq<PatternMatch>)
    requires forall k :: 0 <= k < |ms| ==> Detected(t, ms[k])
    ensures DropTokens(ms) == ms
  {
    if ms != [] {
      assert Detected(t, ms[0]);
      assert !LooksLikeToken(ms[0].value);
      NothingIsDropped(t, ms[1..]);
    }
  }

  /** `spans` show the entries issued for `sorted`, in reverse order. */
  ghost predicate ShownFromRight(sorted: seq<PatternMatch>, issued: seq<Entry>, spans: seq<Span>)
    requires |sorted| == |issued| == |spans|
  {
    forall i :: 0 <= i < |sorted| ==> spans[|spans| - 1 - i] == Span(sorted[i].start, sorted[i].end, issued[i].token)
  }

  /** One round of the splicing, from the right. */
  lemma {:induction false} NextSplice(t: string, sorted: seq<PatternMatch>, issued: seq<Entry>, spans: seq<Span>,
                                      i: nat)
    requires i < |sorted| == |issued| == |spans| && ShownFromRight(sorted, issued, spans) && InOrder(t, 0, spans)
    ensures var k := |spans| - i - 1;
      && InOrder(t, 0, spans[k..]) && InOrder(t, 0, spans[k + 1..])
      && Splice(Render(t, 0, spans[k + 1..]), Span(sorted[i].start, sorted[i].end, issued[i].token))
         == Render(t, 0, spans[k..])
  {
    var k := |spans| - i - 1;
    SuffixInOrder(t, 0, spans, k);
    SuffixInOrder(t, 0, spans, k + 1);
    assert spans[k..][1..] == spans[k + 1..];
    SpliceFirst(t, spans[k..]);
  }

  /** The second tier's work, and the map and the counts it ends with. */
  datatype Goal = Goal(text: string, sorted: seq<PatternMatch>, issued: seq<Entry>, spans: seq<Span>,
                       entries: seq<Entry>, counts: Counts)

  ghost predicate WellPosed(g: Goal) {
    |g.sorted| == |g.issued| == |g.spans| && InOrder(g.text, 0, g.spans) && ShownFromRight(g.sorted, g.issued, g.spans)
  }

  /** From match `i` on, the counts give the tokens of the goal and lead to its counts. */
  ghost predicate Numbered(g: Goal, i: nat, counts: Counts) {
    && i <= |g.sorted| == |g.issued|
    && Issue(g.sorted[i..], counts) == g.issued[i..] && Bumped(g.sorted[i..], counts) == g.counts
  }

  /** Entering what is issued from match `i` on leads to the goal's entries. */
  ghost predicate Recorded(g: Goal, i: nat, entries: seq<Entry>) {
    i <= |g.issued| && Record(entries, g.issued[i..]) == g.entries
  }

  /** The last `i` spans are replaced. */
  ghost predicate Spliced(g: Goal, i: nat, scrubbed: string) {
    && i <= |g.spans|
    && InOrder(g.text, 0, g.spans[|g.spans| - i..]) && scrubbed == Render(g.text, 0, g.spans[|g.spans| - i..])
  }

  lemma {:induction false} NoneNumbered(g: Goal, counts: Counts)
    requires |g.sorted| == |g.issued| && g.issued == Issue(g.sorted, counts) && g.counts == Bumped(g.sorted, counts)
    ensures Numbered(g, 0, counts)
  {
    assert g.issued[0..] == g.issued && g.sorted[0..] == g.sorted;
  }

  lemma {:induction false} NoneRecorded(g: Goal, entries: seq<Entry>)
    requires g.entries == Record(entries, g.issued)
    ensures Recorded(g, 0, entries)
  {
    assert g.issued[0..] == g.issued;
  }

  lemma NoneSpliced(g: Goal)
    requires WellPosed(g)
    ensures Spliced(g, 0, g.text)
  {
    SuffixInOrder(g.text, 0, g.spans, |g.spans|);
  }

  lemma NextNumbered(g: Goal, i: nat, counts: Counts)
    requires Numbered(g, i, counts) && i < |g.sorted|
    ensures var m := g.sorted[i]; g.issued[i] == NextEntry(m, counts) && Numbered(g, i + 1, Bump(counts, m.entity))
  {
    NextIssued(g.sorted, counts, g.issued, i);
    assert g.sorted[i..][1..] == g.sorted[i + 1..];
  }

  lemma {:induction false} NextRecorded(g: Goal, i: nat, entries: seq<Entry>)
    requires Recorded(g, i, entries) && i < |g.issued|
    ensures Recorded(g, i + 1, SetEntry(entries, g.issued[i]))
  {
    assert g.issued[i..][1..] == g.issued[i + 1..];
  }

  lemma NextSpliced(g: Goal, i: nat, scrubbed: string)
    requires WellPosed(g) && Spliced(g, i, scrubbed) && i < |g.sorted|
    ensures Spliced(g, i + 1, Splice(scrubbed, Span(g.sorted[i].start, g.sorted[i].end, g.issued[i].token)))
  {
    NextSplice(g.text, g.sorted, g.issued, g.spans, i);
  }

  lemma AllDone(g: Goal, entries: seq<Entry>, counts: Counts, scrubbed: string)
    requires var n := |g.sorted|;
            WellPosed(g) && Numbered(g, n, counts) && Recorded(g, n, entries) && Spliced(g, n, scrubbed)
    ensures entries == g.entries && counts == g.counts && scrubbed == Render(g.text, 0, g.spans)
  {
    assert g.spans[0..] == g.spans && g.issued[|g.issued|..] == [] && g.sorted[|g.sorted|..] == [];
  }

  ghost function GoalOf(text: string, hits: seq<PatternMatch>, entries: seq<Entry>, counts: Counts): Goal {
    var sorted := Rev(hits);
    var issued := Issue(sorted, counts);
    Goal(text, sorted, issued, Spanned(hits, Rev(issued)), Record(entries, issued), Bumped(sorted, counts))
  }

  lemma {:induction false} GoalIsPosed(text: string, hits: seq<PatternMatch>, sorted: seq<PatternMatch>,
                                       issued: seq<Entry>, spans: seq<Span>)
    requires Apart(hits, 0) && (forall k :: 0 <= k < |hits| ==> hits[k].end <= |text|)
    requires sorted == Rev(hits) && |issued| == |sorted| && spans == Spanned(hits, Rev(issued))
    ensures |spans| == |sorted| && InOrder(text, 0, spans) && ShownFromRight(sorted, issued, spans)
  {
    SpannedIsInOrder(text, 0, hits, Rev(issued));
    forall i | 0 <= i < |sorted|
      ensures spans[|spans| - 1 - i] == Span(sorted[i].start, sorted[i].end, issued[i].token)
    {
      var k := |spans| - 1 - i;
      assert spans[k] == Span(hits[k].start, hits[k].end, Rev(issued)[k].token);
      assert sorted[i] == hits[k] && Rev(issued)[k] == issued[i];
    }
  }

  lemma SecondIsUsable(counts: Counts, text: string)
    ensures DropTokens(Second(text)) == Second(text) && Apart(Second(text), 0)
    ensures forall k :: 0 <= k < |Second(text)| ==> Second(text)[k].end <= |Middle(text)|
  {
    SecondTier(counts, text);
    NothingIsDropped(Middle(text), Second(text));
    InOrderIsApart(Middle(text), 0, Second(text), Rev(SecondIssued(counts, text)));
  }

  lemma {:induction false} InOrderIsApart(t: string, p: nat, ms: seq<PatternMatch>, es: seq<Entry>)
    requires |ms| == |es| && InOrder(t, p, Spanned(ms, es))
    ensures Apart(ms, p)
    decreases |ms|
  {
    if ms != [] {
      assert Spanned(ms, es)[1..] == Spanned(ms[1..], es[1..]);
      InOrderIsApart(t, ms[0].end, ms[1..], es[1..]);
      assert ms == [ms[0]] + ms[1..];
    }
  }

  class EntityVault {
    var entries: seq<Entry>
    var typeCounts: Counts

    ghost predicate Valid()
      reads this
    {
      ValidEntries(entries)
    }

    constructor ()
      ensures Valid() && entries == [] && typeCounts == map[]
    {
      entries := [];
      typeCounts := map[];
    }

    method Scrub(text: string) returns (scrubbed: string)
      requires Valid()
      modifies this
      ensures Valid()
      ensures entries == EntriesAfter(old(entries), old(typeCounts), text)
      ensures typeCounts == CountsAfter(old(typeCounts), text)
      ensures scrubbed == Scrubbed(old(typeCounts), text)
    {
      EntriesStayValid(entries, typeCounts, text);
      var middle, matches, entities := ScrubPII(text);
      RecordFirst(matches, entities);
      var hits := DetectTier2(middle);
      SecondIsUsable(old(typeCounts), text);
      scrubbed := RecordSecond(middle, DropTokens(hits));
      RecordConcat(old(entries), FirstIssued(text), SecondIssued(old(typeCounts), text));
    }

    /** The loop over the first tier's entities. */
    method RecordFirst(matches: seq<PatternMatch>, entities: seq<Entry>)
      requires entities == Issue(matches, map[])
      modifies this
      ensures entries == Record(old(entries), entities) && typeCounts == Bumped(matches, old(typeCounts))
    {
      for i := 0 to |entities|
        invariant Record(entries, entities[i..]) == Record(old(entries), entities)
        invariant Bumped(matches[i..], typeCounts) == Bumped(matches, old(typeCounts))
      {
        IssuedEntry(matches, map[], i);
        EnterOne(entries, entities, matches, typeCounts, i);
        entries := SetEntry(entries, entities[i]);
        typeCounts := Bump(typeCounts, entities[i].entity);
      }
    }

    /** Sorts the second tier's matches by descending start and runs the loop over them. */
    method RecordSecond(text: string, hits: seq<PatternMatch>) returns (scrubbed: string)
      requires Apart(hits, 0) && forall k :: 0 <= k < |hits| ==> hits[k].end <= |text|
      modifies this
      ensures var issued := Issue(Rev(hits), old(typeCounts));
        && entries == Record(old(entries), issued) && typeCounts == Bumped(Rev(hits), old(typeCounts))
        && InOrder(text, 0, Spanned(hits, Rev(issued))) && scrubbed == Render(text, 0, Spanned(hits, Rev(issued)))
    {
      SortReverses(hits, 0);
      var sorted := Sorting.Sort(hits, LaterStart);
      scrubbed := RecordSorted(text, hits, sorted);
    }

    method RecordSorted(text: string, hits: seq<PatternMatch>, sorted: seq<PatternMatch>) returns (scrubbed: string)
      requires Apart(hits, 0) && (forall k :: 0 <= k < |hits| ==> hits[k].end <= |text|) && sorted == Rev(hits)
      modifies this
      ensures var goal := GoalOf(text, hits, old(entries), old(typeCounts));
        && entries == goal.entries && typeCounts == goal.counts
        && InOrder(text, 0, goal.spans) && scrubbed == Render(text, 0, goal.spans)
    {
      ghost var goal := GoalOf(text, hits, entries, typeCounts);
      GoalIsPosed(text, hits, goal.sorted, goal.issued, goal.spans);
      scrubbed := ReplaceFromRight(text, sorted, goal);
    }

    /** Gives a match the next token of its type. */
    method Enter(m: PatternMatch) returns (token: string)
      modifies this
      ensures token == NextEntry(m, old(typeCounts)).token
      ensures typeCounts == Bump(old(typeCounts), m.entity)
      ensures entries == SetEntry(old(entries), NextEntry(m, old(typeCounts)))
    {
      var count := CountOf(typeCounts, m.entity) + 1;
      typeCounts := typeCounts[m.entity := count];
      token := Token(m.entity, count);
      entries := SetEntry(entries, Entry(token, m.entity, m.value));
    }

    /** The loop over the second tier's matches. */
    method ReplaceFromRight(text: string, sorted: seq<PatternMatch>, ghost goal: Goal) returns (scrubbed: string)
      requires WellPosed(goal) && goal.sorted == sorted && goal.text == text
      requires goal.issued == Issue(sorted, typeCounts) && goal.counts == Bumped(sorted, typeCounts)
      requires goal.entries == Record(entries, goal.issued)
      modifies this
      ensures entries == goal.entries && typeCounts == goal.counts && scrubbed == Render(text, 0, goal.spans)
    {
      scrubbed := text;
      NoneNumbered(goal, typeCounts);
      NoneRecorded(goal, entries);
      NoneSpliced(goal);
      for i := 0 to |sorted|
        invariant Numbered(goal, i, typeCounts) && Recorded(goal, i, entries) && Spliced(goal, i, scrubbed)
      {
        var m := sorted[i];
        NextNumbered(goal, i, typeCounts);
        NextRecorded(goal, i, entries);
        NextSpliced(goal, i, scrubbed);
        var token := Enter(m);
        scrubbed := Splice(scrubbed, Span(m.start, m.end, token));
      }
      AllDone(goal, entries, typeCounts, scrubbed);
    }

    method Rehydrate(text: string) returns (result: string)
      requires Valid()
      ensures AllSane(entries) && result == Rehydrated(text, entries)
    {
      ValidIsSane(entries);
      var sorted := Sorting.Sort(entries, LongerToken);
      Sorting.SortKeepsElements(entries, LongerToken);
      assert forall k :: 0 <= k < |sorted| ==> sorted[k] in sorted;
      result := text;
      for i := 0 to |sorted|
        invariant ReplaceEach(result, sorted[i..]) == ReplaceEach(text, sorted)
      {
        assert sorted[i..][1..] == sorted[i + 1..];
        result := ReplaceAll(result, sorted[i].token, sorted[i].value);
      }
    }

    /** Forgets the entries, not the numbering. */
    method Clear()
      modifies this`entries
      ensures Valid() && entries == []
    {
      entries := [];
    }
  }
}
