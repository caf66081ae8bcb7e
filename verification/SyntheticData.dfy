/** `applySyntheticReplacement`: plausible stand-ins instead of tokens. */
module SyntheticData {
  import opened PiiPatterns
  import opened Spans
  import opened Scrubbing
  import EntityVault
  import Sorting

  function Choices(entity: string): (r: seq<string>)
    ensures r != []
  {
    if entity == "PERSON" then ["Jane Doe", "John Smith", "Alex Johnson"]
    else if entity == "EMAIL_ADDRESS" then ["user@example.com", "test@example.org"]
    else if entity == "PHONE_NUMBER" then ["555-000-0001", "555-000-0002"]
    else if entity == "CREDIT_CARD" then ["4000-0000-0000-0000"]
    else if entity == "US_SSN" then ["000-00-0000"]
    else if entity == "IP_ADDRESS" then ["0.0.0.0"]
    else ["[" + entity + "]"]
  }

  /** `generateSynthetic` */
  function Generate(entity: string, index: nat): string {
    var list := Choices(entity);
    list[index % |list|]
  }

  datatype Mapping = Mapping(original: string, synthetic: string)

  /** The replacements from left to right; they are chosen from right to left. */
  function Replacements(ms: seq<PatternMatch>): (r: seq<Span>)
    ensures |r| == |ms|
  {
    seq(|ms|, k requires 0 <= k < |ms| => Span(ms[k].start, ms[k].end, Generate(ms[k].entity, |ms| - 1 - k)))
  }

  lemma {:induction false} ReplacementsInOrder(t: string, p: nat, ms: seq<PatternMatch>, r: seq<Span>)
    requires |r| == |ms| && (forall k :: 0 <= k < |ms| ==> r[k].start == ms[k].start && r[k].end == ms[k].end)
    requires Apart(ms, p) && p <= |t| && forall k :: 0 <= k < |ms| ==> ms[k].end <= |t|
    ensures InOrder(t, p, r)
    decreases |ms|
  {
    if ms != [] { ReplacementsInOrder(t, ms[0].end, ms[1..], r[1..]); }
  }

  ghost predicate Usable(text: string, ms: seq<PatternMatch>) {
    Apart(ms, 0) && forall k :: 0 <= k < |ms| ==> ms[k].end <= |text|
  }

  /** After `i` rounds, the last `i` matches are replaced and mapped, the rightmost first. */
  ghost predicate Replaced(text: string, ms: seq<PatternMatch>, i: nat, result: string, mappings: seq<Mapping>)
    requires i <= |ms|
  {
    var spans := Replacements(ms)[|ms| - i..];
    && |mappings| == i && InOrder(text, 0, spans) && result == Render(text, 0, spans)
    && forall k :: 0 <= k < i ==> mappings[k] == Mapping(ms[|ms| - 1 - k].value, Replacements(ms)[|ms| - 1 - k].text)
  }

  lemma NoneReplaced(text: string, ms: seq<PatternMatch>)
    requires Usable(text, ms)
    ensures Replaced(text, ms, 0, text, [])
  {
    ReplacementsInOrder(text, 0, ms, Replacements(ms));
    EntityVault.SuffixInOrder(text, 0, Replacements(ms), |ms|);
    assert Replacements(ms)[|ms|..] == [];
  }

  lemma NextReplaced(text: string, ms: seq<PatternMatch>, i: nat, result: string, mappings: seq<Mapping>)
    requires i < |ms| && Usable(text, ms) && Replaced(text, ms, i, result, mappings)
    ensures var m := ms[|ms| - 1 - i];
            var synthetic := Generate(m.entity, i);
            Replaced(text, ms, i + 1, Splice(result, Span(m.start, m.end, synthetic)),
                     mappings + [Mapping(m.value, synthetic)])
  {
    var spans, k := Replacements(ms), |ms| - 1 - i;
    ReplacementsInOrder(text, 0, ms, spans);
    EntityVault.SuffixInOrder(text, 0, spans, k);
    assert spans[k..][1..] == spans[k + 1..];
    SpliceFirst(text, spans[k..]);
  }

  // ---- Matches in any order ----------------------------------------------------------------------

  predicate Clear(a: PatternMatch, b: PatternMatch) {
    a.end <= b.start || b.end <= a.start
  }

  /** The matches are non-empty pieces of the text, and no two overlap. */
  ghost predicate Disjoint(text: string, ms: seq<PatternMatch>) {
    Sorting.Pairwise(ms, Clear) && forall m :: m in ms ==> 0 <= m.start < m.end <= |text|
  }

  function InTextOrder(ms: seq<PatternMatch>): seq<PatternMatch> {
    Sorting.Sort(ms, EntityVault.EarlierStart)
  }

  lemma ClearAndAscending(asc: seq<PatternMatch>)
    requires Sorting.Pairwise(asc, Clear) && Sorting.SortedBy(asc, EntityVault.EarlierStart)
    requires forall k :: 0 <= k < |asc| ==> 0 <= asc[k].start < asc[k].end
    ensures Apart(asc, 0)
  {
    forall i, j | 0 <= i < j < |asc| ensures asc[i].end <= asc[j].start {
      assert EntityVault.EarlierStart(asc[i], asc[j]) && Clear(asc[i], asc[j]);
    }
  }

  lemma InTextOrderIsUsable(text: string, ms: seq<PatternMatch>)
    requires Disjoint(text, ms)
    ensures Disjoint(text, InTextOrder(ms)) && Usable(text, InTextOrder(ms))
            && multiset(InTextOrder(ms)) == multiset(ms)
  {
    var asc := InTextOrder(ms);
    Sorting.SortKeepsElements(ms, EntityVault.EarlierStart);
    Sorting.SortSorts(ms, EntityVault.EarlierStart);
    Sorting.SortKeepsPairwise(ms, EntityVault.EarlierStart, Clear);
    forall k | 0 <= k < |asc| ensures 0 <= asc[k].start < asc[k].end <= |text| { assert asc[k] in asc && asc[k] in ms; }
    ClearAndAscending(asc);
  }

  lemma SameStartIsSame(text: string, ms: seq<PatternMatch>, x: PatternMatch, y: PatternMatch)
    requires Disjoint(text, ms) && x in ms && y in ms && x.start == y.start
    ensures x == y
  {
    forall i, j | 0 <= i < j < |ms| ensures ms[i].start != ms[j].start {
      assert Clear(ms[i], ms[j]) && ms[i] in ms && ms[j] in ms;
    }
  }

  /** Sorted by descending start, the matches run through the text backwards, in whatever order they came. */
  lemma {:induction false} SortedBackwards(text: string, ms: seq<PatternMatch>)
    requires Disjoint(text, ms)
    ensures Sorting.Sort(ms, EntityVault.LaterStart) == Rev(InTextOrder(ms))
  {
    var asc := InTextOrder(ms);
    InTextOrderIsUsable(text, ms);
    EntityVault.SortReverses(asc, 0);
    Sorting.SortKeepsElements(asc, EntityVault.LaterStart);
    Sorting.SortKeepsElements(ms, EntityVault.LaterStart);
    Sorting.SortSorts(asc, EntityVault.LaterStart);
    Sorting.SortSorts(ms, EntityVault.LaterStart);
    var desc := Sorting.Sort(ms, EntityVault.LaterStart);
    forall x, y | x in desc && y in desc && EntityVault.LaterStart(x, y) && EntityVault.LaterStart(y, x)
      ensures x == y
    {
      SameStartIsSame(text, ms, x, y);
    }
    Sorting.SortedOnce(desc, Rev(asc), EntityVault.LaterStart);
  }

  /** What the mappings say, from left to right. */
  ghost predicate Maps(ms: seq<PatternMatch>, mappings: seq<Mapping>) {
    |mappings| == |ms| && forall k :: 0 <= k < |ms| ==> mappings[k] == Mapping(ms[k].value, Replacements(ms)[k].text)
  }

  lemma {:induction false} AllReplaced(text: string, ms: seq<PatternMatch>, result: string, mappings: seq<Mapping>)
    requires Replaced(text, ms, |ms|, result, mappings)
    ensures InOrder(text, 0, Replacements(ms)) && result == Render(text, 0, Replacements(ms)) && Maps(ms, Rev(mappings))
  {
    assert Replacements(ms)[0..] == Replacements(ms);
  }

  /**
   * On disjoint matches, in whatever order they come, the back-to-front loop renders the text from left to
   * right, and the mappings come out in the order of the text.
   */
  method Apply(text: string, matches: seq<PatternMatch>) returns (replaced: string, mappings: seq<Mapping>)
    ensures |mappings| == |matches|
    ensures var ms := InTextOrder(matches);
      Disjoint(text, matches) ==>
        InOrder(text, 0, Replacements(ms)) && replaced == Render(text, 0, Replacements(ms)) && Maps(ms, mappings)
  {
    var sorted := Sorting.Sort(matches, EntityVault.LaterStart);
    ghost var ms, disjoint := InTextOrder(matches), Disjoint(text, matches);
    if disjoint {
      InTextOrderIsUsable(text, matches);
      SortedBackwards(text, matches);
    }
    replaced, mappings := ReplaceSorted(text, sorted, ms, disjoint);
    if disjoint { AllReplaced(text, ms, replaced, mappings); }
    mappings := Rev(mappings);
  }

  /** The loop over the sorted matches. */
  method ReplaceSorted(text: string, sorted: seq<PatternMatch>, ghost ms: seq<PatternMatch>, ghost usable: bool)
    returns (replaced: string, mappings: seq<Mapping>)
    requires usable ==> Usable(text, ms) && sorted == Rev(ms)
    ensures |mappings| == |sorted| && (usable ==> Replaced(text, ms, |ms|, replaced, mappings))
  {
    mappings := [];
    replaced := text;
    if usable { NoneReplaced(text, ms); }
    for i := 0 to |sorted|
      invariant |mappings| == i && (usable ==> Replaced(text, ms, i, replaced, mappings))
    {
      var m := sorted[i];
      if usable { NextReplaced(text, ms, i, replaced, mappings); }
      var synthetic := Generate(m.entity, |mappings|);
      replaced := Splice(replaced, Span(m.start, m.end, synthetic));
      mappings := mappings + [Mapping(m.value, synthetic)];
    }
  }
}
