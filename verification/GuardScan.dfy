/** The guard over responses: which sentences a scan flags, and what stripping them leaves. */
module GuardScan {
  import opened Text
  import opened ResponseTokens
  import opened Sequences
  import opened Sorting
  import opened Sentences
  import opened SentenceSplitter
  import opened SplitterCorrectness
  import opened SplitterRefinement
  import opened Wrappers

  datatype Category = AntiHer | PiiLeakage | HallucinatedTrust | UnsolicitedRecommendation

  datatype Severity = Warning | Block

  /** `indices` are numbers: those a model answers with need not be integers. */
  datatype Violation = Violation(category: Category, severity: Severity, indices: seq<real>)

  datatype ScanResult = ScanResult(violations: seq<Violation>, sentenceCount: nat, flagged: seq<real>) {
    predicate Safe() {
      violations == []
    }
  }

  ghost predicate Ignores(hit: string -> bool) {
    forall s {:trigger hit(TrimStart(s))} {:trigger hit(TrimEnd(s))} :: hit(TrimStart(s)) == hit(s) == hit(TrimEnd(s))
  }

  /** The detectors that look at one text. */
  datatype Detectors = Detectors(
    therapy: string -> bool, hook: string -> bool, intimacy: string -> bool,
    rawPii: string -> bool, trust: string -> bool, recommendation: string -> bool)
  {
    predicate Her(s: string) {
      therapy(s) || hook(s) || intimacy(s)
    }

    /** What a scan of sentences alone finds, whatever the context. */
    predicate Flags(s: string) {
      Her(s) || trust(s) || recommendation(s)
    }

    ghost predicate IgnoreOuterSpace() {
      Ignores(Her) && Ignores(trust) && Ignores(recommendation) && Ignores(rawPii)
    }
  }

  datatype Context = Context(piiScrubbed: bool, lowDensity: bool)

  // ---- What a scan is to find --------------------------------------------------------------------

  /** The indices, from `i` on, of the sentences that are hit. */
  function Hits(sentences: seq<string>, i: nat, hit: string -> bool): (r: seq<real>)
    requires i <= |sentences|
    decreases |sentences| - i
  {
    if i == |sentences| then []
    else (if hit(sentences[i]) then [i as real] else []) + Hits(sentences, i + 1, hit)
  }

  function One(category: Category, severity: Severity, hits: seq<real>): seq<Violation> {
    if hits == [] then [] else [Violation(category, severity, [hits[0]])] + One(category, severity, hits[1..])
  }

  function Leaks(d: Detectors, response: string, sentences: seq<string>, c: Context): seq<Violation> {
    (if HasToken(response) then [Violation(PiiLeakage, Block, Hits(sentences, 0, HasToken))] else [])
    + (if c.piiScrubbed && d.rawPii(response) then [Violation(PiiLeakage, Warning, Hits(sentences, 0, d.rawPii))]
       else [])
  }

  function RegexViolations(d: Detectors, response: string, sentences: seq<string>, c: Context): seq<Violation> {
    One(AntiHer, Block, Hits(sentences, 0, d.Her)) + Leaks(d, response, sentences, c)
    + One(HallucinatedTrust, if c.lowDensity then Block else Warning, Hits(sentences, 0, d.trust))
    + One(UnsolicitedRecommendation, Warning, Hits(sentences, 0, d.recommendation))
  }

  /** A sentence with an unrehydrated token is reported, and not flagged. */
  predicate RegexFlags(d: Detectors, response: string, c: Context, s: string) {
    d.Flags(s) || (c.piiScrubbed && d.rawPii(response) && d.rawPii(s))
  }

  function RegexFlagged(d: Detectors, response: string, sentences: seq<string>, c: Context): set<real> {
    set i | 0 <= i < |sentences| && RegexFlags(d, response, c, sentences[i]) :: i as real
  }

  function New(indices: seq<real>, flagged: set<real>): (r: seq<real>)
    ensures forall x :: x in r <==> x in indices && x !in flagged
  {
    if indices == [] then []
    else (if indices[0] in flagged then [] else [indices[0]]) + New(indices[1..], flagged)
  }

  function Elements(s: seq<real>): set<real> {
    set x | x in s
  }

  /** What one violation the model names adds. */
  function Addition(v: Violation, flagged: set<real>): seq<Violation> {
    var added := New(v.indices, flagged);
    if added != [] then [v.(indices := added)] else if v.indices == [] then [v] else []
  }

  /** What the violations a model names add to the violations, given what is flagged already. */
  function ModelViolations(found: seq<Violation>, flagged: set<real>): seq<Violation> {
    if found == [] then []
    else
      Addition(found[0], flagged) + ModelViolations(found[1..], flagged + Elements(New(found[0].indices, flagged)))
  }

  function ModelFlagged(found: seq<Violation>): set<real> {
    if found == [] then {} else Elements(found[0].indices) + ModelFlagged(found[1..])
  }

  /** `add` to a set that is kept in the order of insertion. */
  function Put(flagged: seq<real>, x: real): (r: seq<real>)
    ensures Elements(r) == Elements(flagged) + {x}
  {
    if x in flagged then flagged else flagged + [x]
  }

  function PutAll(flagged: seq<real>, xs: seq<real>): (r: seq<real>)
    ensures Elements(r) == Elements(flagged) + Elements(xs)
    decreases xs
  {
    if xs == [] then flagged else PutAll(Put(flagged, xs[0]), xs[1..])
  }

  predicate Ascending(s: seq<real>) {
    forall i, j :: 0 <= i < j < |s| ==> s[i] < s[j]
  }

  // ---- `scanResponse` ----------------------------------------------------------------------------

  lemma OneMore(sentences: seq<string>, i: nat, hit: string -> bool, category: Category, severity: Severity)
    requires i < |sentences|
    ensures var rest := Hits(sentences, i + 1, hit);
            if hit(sentences[i])
            then One(category, severity, Hits(sentences, i, hit))
                 == [Violation(category, severity, [i as real])] + One(category, severity, rest)
                 && Elements(Hits(sentences, i, hit)) == {i as real} + Elements(rest)
            else Hits(sentences, i, hit) == rest
  {
    var rest := Hits(sentences, i + 1, hit);
    if hit(sentences[i]) { assert Hits(sentences, i, hit)[0] == i as real && Hits(sentences, i, hit)[1..] == rest; }
  }

  /** With the sentences before `i` seen, those from `i` on yield the rest of `all` and `every`. */
  ghost predicate Flagging(sentences: seq<string>, i: nat, hit: string -> bool, category: Category, severity: Severity,
                           violations: seq<Violation>, flagged: set<real>, all: seq<Violation>, every: set<real>)
  {
    && i <= |sentences| && violations + One(category, severity, Hits(sentences, i, hit)) == all
    && flagged + Elements(Hits(sentences, i, hit)) == every
  }

  lemma FlaggingStep(sentences: seq<string>, i: nat, hit: string -> bool, category: Category, severity: Severity,
                     violations: seq<Violation>, flagged: set<real>, all: seq<Violation>, every: set<real>)
    requires i < |sentences| && Flagging(sentences, i, hit, category, severity, violations, flagged, all, every)
    ensures if hit(sentences[i])
            then Flagging(sentences, i + 1, hit, category, severity,
                          violations + [Violation(category, severity, [i as real])], flagged + {i as real}, all, every)
            else Flagging(sentences, i + 1, hit, category, severity, violations, flagged, all, every)
  {
    OneMore(sentences, i, hit, category, severity);
    Regroup(violations, [Violation(category, severity, [i as real])],
        One(category, severity, Hits(sentences, i + 1, hit)));
  }

  /** One pass over the sentences that reports and flags each sentence that is hit. */
  method FlagHits(sentences: seq<string>, hit: string -> bool, category: Category, severity: Severity,
                  violations: seq<Violation>, flagged: seq<real>)
    returns (violations': seq<Violation>, flagged': seq<real>)
    ensures violations' == violations + One(category, severity, Hits(sentences, 0, hit))
    ensures Elements(flagged') == Elements(flagged) + Elements(Hits(sentences, 0, hit))
  {
    ghost var all := violations + One(category, severity, Hits(sentences, 0, hit));
    ghost var every := Elements(flagged) + Elements(Hits(sentences, 0, hit));
    violations', flagged' := violations, flagged;
    for i := 0 to |sentences|
      invariant Flagging(sentences, i, hit, category, severity, violations', Elements(flagged'), all, every)
    {
      FlaggingStep(sentences, i, hit, category, severity, violations', Elements(flagged'), all, every);
      if hit(sentences[i]) {
        violations' := violations' + [Violation(category, severity, [i as real])];
        flagged' := Put(flagged', i as real);
      }
    }
  }

  method HitIndices(sentences: seq<string>, hit: string -> bool) returns (indices: seq<real>)
    ensures indices == Hits(sentences, 0, hit)
  {
    indices := [];
    for i := 0 to |sentences|
      invariant indices + Hits(sentences, i, hit) == Hits(sentences, 0, hit)
    {
      if hit(sentences[i]) { indices := indices + [i as real]; }
    }
  }

  lemma {:induction false} HitsAreHit(sentences: seq<string>, i: nat, hit: string -> bool)
    requires i <= |sentences|
    ensures Elements(Hits(sentences, i, hit)) == set k | i <= k < |sentences| && hit(sentences[k]) :: k as real
    decreases |sentences| - i
  {
    if i < |sentences| {
      HitsAreHit(sentences, i + 1, hit);
      var rest := Hits(sentences, i + 1, hit);
      forall x ensures x in Elements(Hits(sentences, i, hit))
          <==> x in Elements(rest) || (hit(sentences[i]) && x == i as real) {
        assert x in Hits(sentences, i, hit) <==> x in rest || (hit(sentences[i]) && x == i as real);
      }
    }
  }

  /** The elements of a set of numbers, in ascending order. */
  method SortedElements(s: seq<real>) returns (r: seq<real>)
    ensures Ascending(r) && Elements(r) == Elements(s)
  {
    r := [];
    for k := 0 to |s|
      invariant Ascending(r) && Elements(r) == Elements(s[..k])
    {
      assert s[..k + 1] == s[..k] + [s[k]];
      assert Elements(s[..k + 1]) == Elements(s[..k]) + {s[k]};
      if s[k] !in r {
        InsertedAscends(s[k], r);
        ghost var before := r;
        r := Insert(s[k], r, (a: real, b: real) => a <= b);
        assert Elements(r) == Elements(before) + {s[k]};
      } else {
        assert s[k] in Elements(r);
      }
    }
    assert s[..|s|] == s;
  }

  lemma {:induction false} InsertedAscends(x: real, s: seq<real>)
    requires Ascending(s) && x !in s
    ensures var r := Insert(x, s, (a: real, b: real) => a <= b);
            Ascending(r) && forall y :: y in r <==> y == x || y in s
  {
    var le := (a: real, b: real) => a <= b;
    if s != [] && x > s[0] {
      InsertedAscends(x, s[1..]);
      var t := Insert(x, s[1..], le);
      assert Insert(x, s, le) == [s[0]] + t;
      forall k | 0 <= k < |t| ensures s[0] < t[k] { assert t[k] in t; }
      assert s == [s[0]] + s[1..];
    } else {
      assert Insert(x, s, le) == [x] + s;
    }
  }

  lemma {:induction false} FlaggedAreHit(d: Detectors, response: string, sentences: seq<string>, c: Context)
    ensures RegexFlagged(d, response, sentences, c)
            == Elements(Hits(sentences, 0, d.Her))
               + (if c.piiScrubbed && d.rawPii(response) then Elements(Hits(sentences, 0, d.rawPii)) else {})
               + Elements(Hits(sentences, 0, d.trust)) + Elements(Hits(sentences, 0, d.recommendation))
  {
    HitsAreHit(sentences, 0, d.Her);
    HitsAreHit(sentences, 0, d.rawPii);
    HitsAreHit(sentences, 0, d.trust);
    HitsAreHit(sentences, 0, d.recommendation);
  }

  /** Leakage of personal data: tokens that were not rehydrated, and raw data where it had been scrubbed. */
  method FlagLeaks(d: Detectors, response: string, sentences: seq<string>, c: Context, violations: seq<Violation>,
                   flagged: seq<real>)
    returns (violations': seq<Violation>, flagged': seq<real>)
    ensures violations' == violations + Leaks(d, response, sentences, c)
    ensures var raw := Elements(Hits(sentences, 0, d.rawPii));
            Elements(flagged') == Elements(flagged) + if c.piiScrubbed && d.rawPii(response) then raw else {}
  {
    violations', flagged' := violations, flagged;
    if HasToken(response) {
      var indices := HitIndices(sentences, HasToken);
      violations' := violations' + [Violation(PiiLeakage, Block, indices)];
    }
    if c.piiScrubbed && d.rawPii(response) {
      var indices := HitIndices(sentences, d.rawPii);
      violations', flagged' := violations' + [Violation(PiiLeakage, Warning, indices)], PutAll(flagged', indices);
    }
  }

  lemma {:induction false} ModelStep(found: seq<Violation>, k: nat, flagged: set<real>)
    requires k < |found|
    ensures var added := New(found[k].indices, flagged);
            && ModelViolations(found[k..], flagged)
               == Addition(found[k], flagged) + ModelViolations(found[k + 1..], flagged + Elements(added))
            && flagged + ModelFlagged(found[k..]) == flagged + Elements(added) + ModelFlagged(found[k + 1..])
  {
    assert found[k..][0] == found[k] && found[k..][1..] == found[k + 1..];
    assert flagged + Elements(New(found[k].indices, flagged)) == flagged + Elements(found[k].indices);
  }

  /** With the first `k` violations taken over, the others yield the rest of `all` and `every`. */
  ghost predicate Pending(found: seq<Violation>, k: nat, violations: seq<Violation>, flagged: set<real>,
                          all: seq<Violation>, every: set<real>)
  {
    && k <= |found| && violations + ModelViolations(found[k..], flagged) == all
    && flagged + ModelFlagged(found[k..]) == every
  }

  lemma {:induction false} PendingStep(found: seq<Violation>, k: nat, violations: seq<Violation>, flagged: set<real>,
                    all: seq<Violation>, every: set<real>)
    requires k < |found| && Pending(found, k, violations, flagged, all, every)
    ensures Pending(found, k + 1, violations + Addition(found[k], flagged),
                    flagged + Elements(New(found[k].indices, flagged)), all, every)
  {
    var added := New(found[k].indices, flagged);
    ModelStep(found, k, flagged);
    Regroup(violations, Addition(found[k], flagged), ModelViolations(found[k + 1..], flagged + Elements(added)));
  }

  method AddModelViolations(found: seq<Violation>, violations: seq<Violation>, flagged: seq<real>)
    returns (violations': seq<Violation>, flagged': seq<real>)
    ensures violations' == violations + ModelViolations(found, Elements(flagged))
    ensures Elements(flagged') == Elements(flagged) + ModelFlagged(found)
  {
    violations', flagged' := violations, flagged;
    ghost var all, every := violations + ModelViolations(found, Elements(flagged)),
        Elements(flagged) + ModelFlagged(found);
    assert found[0..] == found;
    for k := 0 to |found|
      invariant Pending(found, k, violations', Elements(flagged'), all, every)
    {
      PendingStep(found, k, violations', Elements(flagged'), all, every);
      var v, added := found[k], New(found[k].indices, Elements(flagged'));
      if added != [] || v.indices == [] {
        violations' := violations' + [v.(indices := if added != [] then added else v.indices)];
      } else {
        assert violations' + [] == violations';
      }
      flagged' := PutAll(flagged', added);
    }
  }

  method ScanSentences(d: Detectors, response: string, sentences: seq<string>, c: Context)
    returns (violations: seq<Violation>, flagged: seq<real>)
    ensures violations == RegexViolations(d, response, sentences, c)
    ensures Elements(flagged) == RegexFlagged(d, response, sentences, c)
  {
    ghost var her := One(AntiHer, Block, Hits(sentences, 0, d.Her));
    violations, flagged := FlagHits(sentences, d.Her, AntiHer, Block, [], []);
    assert violations == her;
    violations, flagged := FlagLeaks(d, response, sentences, c, violations, flagged);
    var severity := if c.lowDensity then Block else Warning;
    violations, flagged := FlagHits(sentences, d.trust, HallucinatedTrust, severity, violations, flagged);
    violations, flagged :=
      FlagHits(sentences, d.recommendation, UnsolicitedRecommendation, Warning, violations, flagged);
    assert violations == RegexViolations(d, response, sentences, c);
    assert Elements(flagged) == RegexFlagged(d, response, sentences, c) by { FlaggedAreHit(d, response, sentences, c); }
  }

  /** What a scan yields; `found` is what the model's scan yields, nothing if there is none or it fails. */
  ghost predicate Scanned(d: Detectors, response: string, c: Context, found: seq<Violation>, r: ScanResult) {
    var sentences := SplitResult(response);
    && r.sentenceCount == |sentences|
    && r.violations == RegexViolations(d, response, sentences, c)
                       + ModelViolations(found, RegexFlagged(d, response, sentences, c))
    && Ascending(r.flagged)
    && Elements(r.flagged) == RegexFlagged(d, response, sentences, c) + ModelFlagged(found)
  }

  /** `scanResponse` */
  method ScanResponse(d: Detectors, response: string, c: Context, found: seq<Violation>) returns (r: ScanResult)
    ensures Scanned(d, response, c, found, r)
  {
    var sentences := SplitSentences(response);
    var violations, flagged := ScanSentences(d, response, sentences, c);
    violations, flagged := AddModelViolations(found, violations, flagged);
    var sorted := SortedElements(flagged);
    r := ScanResult(violations, |sentences|, sorted);
  }

  // ---- What a scan finds, suite by suite ---------------------------------------------------------

  /** One of the three anti-Her suites, or the trust or recommendation expressions, or raw data looked for. */
  predicate Hit(d: Detectors, response: string, c: Context, s: string) {
    || d.therapy(s) || d.hook(s) || d.intimacy(s) || d.trust(s) || d.recommendation(s)
    || (c.piiScrubbed && d.rawPii(response) && d.rawPii(s))
  }

  /** The number of a sentence that is hit. */
  ghost predicate HitAt(d: Detectors, response: string, c: Context, x: real) {
    exists k: nat :: k < |SplitResult(response)| && x == k as real && Hit(d, response, c, SplitResult(response)[k])
  }

  ghost predicate Named(found: seq<Violation>, x: real) {
    exists v :: v in found && x in v.indices
  }

  lemma {:induction false} ModelFlaggedIs(found: seq<Violation>, x: real)
    ensures x in ModelFlagged(found) <==> Named(found, x)
  {
    if found != [] {
      ModelFlaggedIs(found[1..], x);
      assert forall v :: v in found <==> v == found[0] || v in found[1..];
      assert x in found[0].indices ==> Named(found, x);
    }
  }

  /** Exactly the sentences that are hit, and what the model names, are flagged. */
  lemma FlaggedExactly(d: Detectors, response: string, c: Context, found: seq<Violation>, scan: ScanResult, x: real)
    requires Scanned(d, response, c, found, scan)
    ensures x in scan.flagged <==> HitAt(d, response, c, x) || Named(found, x)
  {
    ModelFlaggedIs(found, x);
    assert x in scan.flagged <==> x in Elements(scan.flagged);
    assert x in RegexFlagged(d, response, SplitResult(response), c) <==> HitAt(d, response, c, x);
  }

  lemma {:induction false} OneIs(category: Category, severity: Severity, hits: seq<real>, v: Violation)
    ensures v in One(category, severity, hits)
            <==> v.category == category && v.severity == severity && |v.indices| == 1 && v.indices[0] in hits
  {
    if hits != [] {
      OneIs(category, severity, hits[1..], v);
      assert v in One(category, severity, hits)
             <==> v == Violation(category, severity, [hits[0]]) || v in One(category, severity, hits[1..]);
    }
  }

  /** The number of a sentence, from `i` on, of which `hit` holds. */
  ghost predicate Numbered(sentences: seq<string>, i: nat, hit: string -> bool, x: real) {
    exists k: nat :: i <= k < |sentences| && x == k as real && hit(sentences[k])
  }

  /** The numbers, ascending, of the sentences of which `hit` holds. */
  ghost predicate Lists(indices: seq<real>, sentences: seq<string>, i: nat, hit: string -> bool) {
    Ascending(indices) && forall x :: x in indices <==> Numbered(sentences, i, hit, x)
  }

  lemma {:induction false} HitsList(sentences: seq<string>, i: nat, hit: string -> bool)
    requires i <= |sentences|
    ensures Lists(Hits(sentences, i, hit), sentences, i, hit)
    decreases |sentences| - i
  {
    if i < |sentences| {
      HitsList(sentences, i + 1, hit);
      var rest := Hits(sentences, i + 1, hit);
      forall x ensures Numbered(sentences, i, hit, x)
          <==> Numbered(sentences, i + 1, hit, x) || (hit(sentences[i]) && x == i as real) {
        if x == i as real && hit(sentences[i]) { assert i <= i < |sentences|; }
      }
      forall k | 0 <= k < |rest| ensures i as real < rest[k] { assert rest[k] in rest; }
    }
  }

  lemma {:induction false} AscendingOnce(a: seq<real>, b: seq<real>)
    requires Ascending(a) && Ascending(b) && forall x :: x in a <==> x in b
    ensures a == b
    decreases |a|
  {
    assert b != [] ==> b[0] in b;
    if a != [] {
      assert a[0] in a && a[0] in b && b[0] in a;
      assert (forall m :: 0 <= m < |a| ==> a[0] <= a[m]) && forall m :: 0 <= m < |b| ==> b[0] <= b[m];
      var j :| 0 <= j < |b| && b[j] == a[0];
      var k :| 0 <= k < |a| && a[k] == b[0];
      TailHas(a);
      TailHas(b);
      AscendingOnce(a[1..], b[1..]);
    }
  }

  lemma TailHas(s: seq<real>)
    requires s != [] && Ascending(s)
    ensures forall x :: x in s[1..] <==> x in s && x != s[0]
  {
    forall k | 0 < k < |s| ensures s[k] != s[0] && s[k] in s[1..] { assert s[1..][k - 1] == s[k]; }
  }

  lemma {:induction false} OnlyHitsList(indices: seq<real>, sentences: seq<string>, hit: string -> bool)
    ensures Lists(indices, sentences, 0, hit) <==> indices == Hits(sentences, 0, hit)
  {
    HitsList(sentences, 0, hit);
    if Lists(indices, sentences, 0, hit) { AscendingOnce(indices, Hits(sentences, 0, hit)); }
  }

  /** The violation names one sentence, and `hit` holds of it. */
  ghost predicate Names(v: Violation, sentences: seq<string>, hit: string -> bool) {
    |v.indices| == 1 && Numbered(sentences, 0, hit, v.indices[0])
  }

  /**
   * What a scan by expressions reports: a violation for each sentence that a suite of its category hits,
   * and one for each kind of leakage that the whole response holds, with all the sentences that hold it.
   */
  ghost predicate Reports(d: Detectors, response: string, c: Context, sentences: seq<string>, v: Violation) {
    match v.category
    case AntiHer => v.severity == Block && Names(v, sentences, s => d.therapy(s) || d.hook(s) || d.intimacy(s))
    case HallucinatedTrust =>
      v.severity == (if c.lowDensity then Block else Warning) && Names(v, sentences, d.trust)
    case UnsolicitedRecommendation => v.severity == Warning && Names(v, sentences, d.recommendation)
    case PiiLeakage =>
      || (v.severity == Block && HasToken(response) && Lists(v.indices, sentences, 0, HasToken))
      || (v.severity == Warning && c.piiScrubbed && d.rawPii(response) && Lists(v.indices, sentences, 0, d.rawPii))
  }

  lemma SameHits(sentences: seq<string>, f: string -> bool, g: string -> bool, x: real)
    requires forall s :: f(s) == g(s)
    ensures Numbered(sentences, 0, f, x) == Numbered(sentences, 0, g, x)
  {
  }

  lemma LeaksAre(d: Detectors, response: string, sentences: seq<string>, c: Context, v: Violation)
    ensures v in Leaks(d, response, sentences, c) <==> v.category == PiiLeakage && Reports(d, response, c, sentences, v)
  {
    OnlyHitsList(v.indices, sentences, HasToken);
    OnlyHitsList(v.indices, sentences, d.rawPii);
  }

  /** Exactly that is reported. */
  lemma ReportedExactly(d: Detectors, response: string, c: Context, scan: ScanResult, v: Violation)
    requires Scanned(d, response, c, [], scan)
    ensures v in scan.violations <==> Reports(d, response, c, SplitResult(response), v)
  {
    var sentences, lowered := SplitResult(response), if c.lowDensity then Block else Warning;
    LeaksAre(d, response, sentences, c, v);
    OneIs(AntiHer, Block, Hits(sentences, 0, d.Her), v);
    OneIs(HallucinatedTrust, lowered, Hits(sentences, 0, d.trust), v);
    OneIs(UnsolicitedRecommendation, Warning, Hits(sentences, 0, d.recommendation), v);
    HitsList(sentences, 0, d.Her);
    HitsList(sentences, 0, d.trust);
    HitsList(sentences, 0, d.recommendation);
    if |v.indices| == 1 {
      SameHits(sentences, d.Her, s => d.therapy(s) || d.hook(s) || d.intimacy(s), v.indices[0]);
    }
  }

  lemma {:induction false} HitsWhen(sentences: seq<string>, i: nat, hit: string -> bool)
    requires i <= |sentences|
    ensures Hits(sentences, i, hit) != [] <==> exists k :: i <= k < |sentences| && hit(sentences[k])
    decreases |sentences| - i
  {
    if i < |sentences| { HitsWhen(sentences, i + 1, hit); }
  }

  lemma {:induction false} NoneHit(sentences: seq<string>, hit: string -> bool)
    ensures Hits(sentences, 0, hit) == [] <==> forall s :: s in sentences ==> !hit(s)
  {
    HitsWhen(sentences, 0, hit);
    if k :| 0 <= k < |sentences| && hit(sentences[k]) { assert sentences[k] in sentences; }
  }

  /** Safe is what has no sentence that is hit and no leakage. */
  lemma SafeExactly(d: Detectors, response: string, c: Context, scan: ScanResult)
    requires Scanned(d, response, c, [], scan)
    ensures scan.Safe() <==> && !HasToken(response) && !(c.piiScrubbed && d.rawPii(response))
                             && forall s :: s in SplitResult(response) ==> !Hit(d, response, c, s)
  {
    var sentences := SplitResult(response);
    NoneHit(sentences, d.Her);
    NoneHit(sentences, d.trust);
    NoneHit(sentences, d.recommendation);
    var her, trust, rec := Hits(sentences, 0, d.Her), Hits(sentences, 0, d.trust), Hits(sentences, 0, d.recommendation);
    assert scan.Safe() <==> her == trust == rec == [] && Leaks(d, response, sentences, c) == [];
  }

  // ---- `parseLLMGuardResult` ---------------------------------------------------------------------

  /** One item of the answer's list; an index that is no number is `None`. */
  datatype Item = Null | Item(kind: string, text: string, indices: Option<seq<Option<real>>>)

  /** The answer, as parsed from JSON. */
  datatype Answer = Unreadable | Document(safe: bool, items: Option<seq<Item>>)

  predicate IncludesAny(s: string, parts: seq<string>) {
    parts != [] && (Includes(s, parts[0]) || IncludesAny(s, parts[1..]))
  }

  /** `mapLLMViolationType`; `lower` is `toLowerCase`. */
  function CategoryOf(kind: string, lower: string -> string): Option<Category> {
    var k := lower(kind);
    if IncludesAny(k, ["therapy", "engagement", "intimacy", "affection"]) then Some(AntiHer)
    else if IncludesAny(k, ["recommendation", "unsolicited"]) then Some(UnsolicitedRecommendation)
    else if IncludesAny(k, ["trust", "hallucin"]) then Some(HallucinatedTrust)
    else None
  }

  function Usable(indices: seq<Option<real>>, n: nat): (r: seq<real>)
    ensures forall x :: x in r <==> Some(x) in indices && 0.0 <= x < n as real
  {
    if indices == [] then []
    else
      (if indices[0].Some? && 0.0 <= indices[0].value < n as real then [indices[0].value] else [])
      + Usable(indices[1..], n)
  }

  function Mentions(text: string, lower: string -> string): string -> bool {
    s => Includes(lower(s), lower(text))
  }

  function IndicesOf(item: Item, sentences: seq<string>, lower: string -> string): (r: seq<real>)
    requires item.Item?
  {
    var direct := if item.indices.Some? then Usable(item.indices.value, |sentences|) else [];
    if direct == [] && item.text != [] then Hits(sentences, 0, Mentions(item.text, lower)) else direct
  }

  function ItemViolations(item: Item, sentences: seq<string>, lower: string -> string): seq<Violation>
    requires item.Item?
  {
    var category := CategoryOf(item.kind, lower);
    if category.None? then []
    else
      var severity := if category.value == AntiHer then Block else Warning;
      [Violation(category.value, severity, IndicesOf(item, sentences, lower))]
  }

  function Prepended(violations: seq<Violation>, rest: Option<seq<Violation>>): Option<seq<Violation>> {
    if rest.None? then None else Some(violations + rest.value)
  }

  /** An item that is null makes the whole answer worthless. */
  function ParseItems(items: seq<Item>, sentences: seq<string>, lower: string -> string): Option<seq<Violation>> {
    if items == [] then Some([])
    else if items[0].Null? then None
    else Prepended(ItemViolations(items[0], sentences, lower), ParseItems(items[1..], sentences, lower))
  }

  function ParseAnswer(answer: Answer, response: string, lower: string -> string): seq<Violation> {
    if answer.Unreadable? || answer.safe || answer.items.None? then []
    else
      var r := ParseItems(answer.items.value, SplitResult(response), lower);
      if r.Some? then r.value else []
  }

  lemma IndicesFit(item: Item, sentences: seq<string>, lower: string -> string)
    requires item.Item?
    ensures forall x :: x in IndicesOf(item, sentences, lower) ==> 0.0 <= x < |sentences| as real
  {
    HitsAreHit(sentences, 0, Mentions(item.text, lower));
    forall x | x in Hits(sentences, 0, Mentions(item.text, lower)) ensures 0.0 <= x < |sentences| as real {
      assert x in Elements(Hits(sentences, 0, Mentions(item.text, lower)));
    }
  }

  /** Every index taken from the model lies between those of the response's sentences. */
  lemma {:induction false} ParsedIndicesFit(items: seq<Item>, sentences: seq<string>, lower: string -> string)
    requires ParseItems(items, sentences, lower).Some?
    ensures forall x :: x in ModelFlagged(ParseItems(items, sentences, lower).value) ==> 0.0 <= x < |sentences| as real
    decreases |items|
  {
    if items != [] {
      ParsedIndicesFit(items[1..], sentences, lower);
      IndicesFit(items[0], sentences, lower);
      var r, rest := ParseItems(items, sentences, lower).value, ParseItems(items[1..], sentences, lower).value;
      if CategoryOf(items[0].kind, lower).Some? {
        assert r[0].indices == IndicesOf(items[0], sentences, lower) && r[1..] == rest;
      } else {
        assert r == rest;
      }
    }
  }

  /** What a scan flags, with the answer of a model or without, are positions among the response's sentences. */
  lemma FlaggedFit(d: Detectors, response: string, c: Context, answer: Answer, lower: string -> string,
                   scan: ScanResult, x: real)
    requires Scanned(d, response, c, ParseAnswer(answer, response, lower), scan) && x in scan.flagged
    ensures 0.0 <= x < scan.sentenceCount as real
  {
    var sentences := SplitResult(response);
    assert x in Elements(scan.flagged);
    if x !in RegexFlagged(d, response, sentences, c) {
      assert x in ModelFlagged(ParseAnswer(answer, response, lower));
      ParsedIndicesFit(answer.items.value, sentences, lower);
    }
  }

  lemma {:induction false} ParseStep(items: seq<Item>, k: nat, sentences: seq<string>, lower: string -> string,
                                     violations: seq<Violation>)
    requires k < |items|
    ensures var rest := ParseItems(items[k..], sentences, lower);
            if items[k].Null? then rest.None?
            else Prepended(violations, rest)
                 == Prepended(violations + ItemViolations(items[k], sentences, lower),
                     ParseItems(items[k + 1..], sentences, lower))
  {
    assert items[k..][0] == items[k] && items[k..][1..] == items[k + 1..];
    var rest := ParseItems(items[k + 1..], sentences, lower);
    if items[k].Item? && rest.Some? { Regroup(violations, ItemViolations(items[k], sentences, lower), rest.value); }
  }

  /** `parseLLMGuardResult` */
  method ParseGuardAnswer(answer: Answer, response: string, lower: string -> string)
    returns (violations: seq<Violation>)
    ensures violations == ParseAnswer(answer, response, lower)
  {
    if answer.Unreadable? || answer.safe || answer.items.None? { return []; }
    var sentences := SplitSentences(response);
    violations := ParseAll(answer.items.value, sentences, lower);
  }

  method ParseAll(items: seq<Item>, sentences: seq<string>, lower: string -> string)
    returns (violations: seq<Violation>)
    ensures var r := ParseItems(items, sentences, lower); violations == if r.Some? then r.value else []
  {
    ghost var all := ParseItems(items, sentences, lower);
    violations := [];
    assert items[0..] == items && (all.Some? ==> [] + all.value == all.value);
    for k := 0 to |items|
      invariant Prepended(violations, ParseItems(items[k..], sentences, lower)) == all
    {
      ParseStep(items, k, sentences, lower, violations);
      if items[k].Null? { return []; }
      violations := violations + ItemViolations(items[k], sentences, lower);
    }
  }

  // ---- `stripViolations` -------------------------------------------------------------------------

  function Stays(flagged: set<real>): (nat, string) -> bool {
    (i: nat, s: string) => (i as real) !in flagged
  }

  function NotHer(d: Detectors): (nat, string) -> bool {
    (i: nat, s: string) => !d.Her(s)
  }

  /** The sentences that stay: those not flagged, or, with nothing flagged, those no anti-Her suite hits. */
  function Kept(d: Detectors, sentences: seq<string>, scan: Option<ScanResult>): seq<string> {
    if scan.Some? && scan.value.flagged != [] then Filter(sentences, 0, Stays(Elements(scan.value.flagged)))
    else Filter(sentences, 0, NotHer(d))
  }

  function Strip(d: Detectors, response: string, scan: Option<ScanResult>): string {
    Trim(Join(Kept(d, SplitResult(response), scan)))
  }

  lemma {:induction false} FilterIs(parts: seq<string>, i: nat, keep: (nat, string) -> bool) returns (at: seq<nat>)
    ensures Picks(parts, Filter(parts, i, keep), at)
    ensures forall k :: 0 <= k < |parts| ==> (k in at <==> keep(i + k, parts[k]))
    decreases |parts|
  {
    at := [];
    if parts != [] {
      var r := Filter(parts[1..], i + 1, keep);
      var rest := FilterIs(parts[1..], i + 1, keep);
      PicksMore(parts, r, rest);
      at := if keep(i, parts[0]) then [0] + Moved(rest) else Moved(rest);
      assert [] + r == r;
      FilterHas(parts, i, keep, rest, at);
    }
  }

  lemma FilterHas(parts: seq<string>, i: nat, keep: (nat, string) -> bool, rest: seq<nat>, at: seq<nat>)
    requires parts != [] && at == if keep(i, parts[0]) then [0] + Moved(rest) else Moved(rest)
    requires forall k :: 0 <= k < |parts| - 1 ==> (k in rest <==> keep(i + 1 + k, parts[1..][k]))
    ensures forall k :: 0 <= k < |parts| ==> (k in at <==> keep(i + k, parts[k]))
  {
    forall k | 0 <= k < |parts| ensures k in at <==> keep(i + k, parts[k]) {
      MovedHas(rest, k);
      if k > 0 { assert parts[k] == parts[1..][k - 1] && i + 1 + (k - 1) == i + k; }
    }
  }

  /** What stays, in order: all that is not flagged; or, if nothing is, all that no anti-Her suite hits. */
  lemma KeptExactly(d: Detectors, sentences: seq<string>, scan: Option<ScanResult>) returns (at: seq<nat>)
    ensures Picks(sentences, Kept(d, sentences, scan), at)
    ensures forall k :: 0 <= k < |sentences| ==>
              (k in at <==> if scan.Some? && scan.value.flagged != [] then k as real !in scan.value.flagged
                            else !d.therapy(sentences[k]) && !d.hook(sentences[k]) && !d.intimacy(sentences[k]))
  {
    if scan.Some? && scan.value.flagged != [] {
      at := FilterIs(sentences, 0, Stays(Elements(scan.value.flagged)));
    } else {
      at := FilterIs(sentences, 0, NotHer(d));
    }
  }

  lemma {:induction false} FilterNoneBlank(parts: seq<string>, i: nat)
    ensures NoneBlank(Filter(parts, i, NotBlank))
  {
    if parts != [] { FilterNoneBlank(parts[1..], i + 1); }
  }

  lemma SentencesArePieces(t: string)
    ensures Pieces(SentencesOf(t), true) && NoneBlank(SentencesOf(t))
  {
    if !AllSpace(t) {
      CutPieces(t, 0, 0);
      FilterPieces(Cut(t, 0, 0), true, 0, NotBlank);
      FilterNoneBlank(Cut(t, 0, 0), 0);
    }
  }

  lemma SliceTagFree(t: string, p: nat, q: nat)
    requires TagFree(t) && p <= q <= |t|
    ensures TagFree(t[p..q])
  {
    forall n: nat, k: nat | k <= q - p ensures !(Tag(n) + "\0" <= t[p..q][k..]) {
      assert t[p..q][k..] == t[p + k..q];
      if Tag(n) + "\0" <= t[p + k..q] { SlicePrefix(Tag(n) + "\0", t, p + k, q); }
    }
  }

  ghost predicate AllTagFree(parts: seq<string>) {
    forall k :: 0 <= k < |parts| ==> TagFree(parts[k])
  }

  lemma {:induction false} SlicesTagFree(t: string, intervals: seq<(nat, nat)>)
    requires TagFree(t) && forall x :: x in intervals ==> x.0 <= x.1 <= |t|
    ensures AllTagFree(Slices(t, intervals))
  {
    if intervals != [] {
      SliceTagFree(t, intervals[0].0, intervals[0].1);
      SlicesTagFree(t, intervals[1..]);
    }
  }

  lemma SentencesTagFree(t: string)
    requires TagFree(t)
    ensures AllTagFree(SentencesOf(t))
  {
    if !AllSpace(t) {
      CutIsSlices(t, 0, 0);
      SlicesTagFree(t, Intervals(Breaks(t), 0, 0));
      var parts := Cut(t, 0, 0);
      forall k | 0 <= k < |SentencesOf(t)| ensures TagFree(SentencesOf(t)[k]) { assert SentencesOf(t)[k] in parts; }
    }
  }

  /** Behind a tag that starts in `x` there is no space before its NUL. */
  lemma TagCrossesNoSpace(x: string, y: string, w: string, k: nat)
    requires k <= |x| && w + "\0" <= (x + (" " + y))[k..] && forall m :: 0 <= m < |w| ==> IsWord(w[m])
    ensures w + "\0" <= x[k..]
  {
    var z, u := (x + (" " + y))[k..], w + "\0";
    assert z[|x| - k] == ' ' && forall m :: 0 <= m < |u| ==> u[m] == z[m];
    if |x| - k <= |w| {
      assert false;
    } else {
      assert w + "\0" == z[..|w| + 1] == x[k..][..|w| + 1];
    }
  }

  lemma JoinedTagFree(x: string, y: string)
    requires TagFree(x) && TagFree(y)
    ensures TagFree(x + (" " + y))
  {
    var z := x + (" " + y);
    forall n: nat, k: nat | k <= |z| ensures !(Tag(n) + "\0" <= z[k..]) {
      if k <= |x| {
        TagIsWord(n);
        if Tag(n) + "\0" <= z[k..] { TagCrossesNoSpace(x, y, Tag(n), k); }
      } else {
        assert z[k..] == y[k - |x| - 1..];
      }
    }
  }

  lemma {:induction false} JoinTagFree(parts: seq<string>)
    requires AllTagFree(parts)
    ensures TagFree(Join(parts))
  {
    if |parts| > 1 {
      JoinTagFree(parts[1..]);
      JoinedTagFree(parts[0], Join(parts[1..]));
    } else if parts == [] {
      NulFreeIsTagFree([]);
    }
  }

  lemma TrimTagFree(s: string)
    requires TagFree(s)
    ensures TagFree(Trim(s))
  {
    var a := TrimStart(s);
    SliceTagFree(s, SkipSpace(s, 0), |s|);
    SliceTagFree(a, 0, SkipSpaceBack(a, |a|));
  }

  lemma KeptSubset(d: Detectors, sentences: seq<string>, scan: Option<ScanResult>)
    requires Pieces(sentences, true) && NoneBlank(sentences)
    ensures var kept := Kept(d, sentences, scan);
            Pieces(kept, true) && NoneBlank(kept) && forall y :: y in kept ==> y in sentences
  {
    var kept := Kept(d, sentences, scan);
    if scan.Some? && scan.value.flagged != [] {
      FilterPieces(sentences, true, 0, Stays(Elements(scan.value.flagged)));
    } else {
      FilterPieces(sentences, true, 0, NotHer(d));
    }
    forall i | 0 <= i < |kept| ensures !AllSpace(kept[i]) { assert kept[i] in sentences; }
  }

  /** What the kept sentences are, and what they are the sentences of. */
  lemma StrippedSentences(d: Detectors, response: string, scan: Option<ScanResult>)
    requires Restorable(response)
    ensures var kept := Kept(d, SplitResult(response), scan);
            && Pieces(kept, true) && NoneBlank(kept) && (forall y :: y in kept ==> y in SentencesOf(response))
            && SentencesOf(Strip(d, response, scan)) == TrimOuter(kept)
  {
    SplitterIsSentences(response);
    SentencesArePieces(response);
    KeptSubset(d, SplitResult(response), scan);
    Resplit(Kept(d, SplitResult(response), scan));
  }

  /**
   * If what is kept are sentences that stay apart when joined, as they are if the splitter is right about the
   * response, then splitting again yields exactly these, with the outer ends trimmed, if and only if the
   * splitter is right about what is left.
   */
  lemma StripSplits(d: Detectors, response: string, scan: Option<ScanResult>)
    requires Restorable(response) || KeepsPieces(d, response, scan)
    ensures SplitResult(Strip(d, response, scan)) == TrimOuter(Kept(d, SplitResult(response), scan))
            <==> Restorable(Strip(d, response, scan))
  {
    if Restorable(response) { StrippedSentences(d, response, scan); }
    Resplit(Kept(d, SplitResult(response), scan));
    SplitterIsSentences(Strip(d, response, scan));
  }

  ghost predicate KeepsPieces(d: Detectors, response: string, scan: Option<ScanResult>) {
    var kept := Kept(d, SplitResult(response), scan);
    Pieces(kept, true) && NoneBlank(kept)
  }

  /** The splitter is right about a response and about what stripping leaves of it. */
  predicate SplitsRight(d: Detectors, response: string, scan: Option<ScanResult>) {
    Restorable(response) && Restorable(Strip(d, response, scan))
  }

  /** So it is if the response has nothing that could end a placeholder; then what is left has not either. */
  lemma TagFreeSplitsRight(d: Detectors, response: string, scan: Option<ScanResult>)
    requires TagFree(response)
    ensures SplitsRight(d, response, scan) && TagFree(Strip(d, response, scan))
  {
    TagFreeIsRestorable(response);
    StrippedSentences(d, response, scan);
    SentencesTagFree(response);
    var kept := Kept(d, SplitResult(response), scan);
    forall k | 0 <= k < |kept| ensures TagFree(kept[k]) { assert kept[k] in SentencesOf(response); }
    JoinTagFree(kept);
    TrimTagFree(Join(kept));
    TagFreeIsRestorable(Strip(d, response, scan));
  }

  // ---- Scanning what is left ---------------------------------------------------------------------

  /** Part `k` is `x`, and is to be kept. */
  predicate KeptAt(parts: seq<string>, i: nat, keep: (nat, string) -> bool, x: string, k: nat) {
    k < |parts| && parts[k] == x && keep(i + k, x)
  }

  lemma {:induction false} FilterKeeps(parts: seq<string>, i: nat, keep: (nat, string) -> bool, x: string)
    returns (k: nat)
    requires x in Filter(parts, i, keep)
    ensures KeptAt(parts, i, keep, x, k)
    decreases |parts|
  {
    if keep(i, parts[0]) && x == parts[0] {
      k := 0;
    } else {
      var m := FilterKeeps(parts[1..], i + 1, keep, x);
      k := m + 1;
      assert i + 1 + m == i + k;
    }
  }

  lemma FlaggedIndex(d: Detectors, response: string, c: Context, found: seq<Violation>, scan: ScanResult, k: nat)
    requires Scanned(d, response, c, found, scan) && k < |SplitResult(response)|
    ensures RegexFlags(d, response, c, SplitResult(response)[k]) ==> (k as real) in Elements(scan.flagged)
  {
    var sentences := SplitResult(response);
    if RegexFlags(d, response, c, sentences[k]) { assert (k as real) in RegexFlagged(d, response, sentences, c); }
  }

  /** What stays is not flagged by the expressions. */
  lemma KeptAreClean(d: Detectors, response: string, c: Context, found: seq<Violation>, scan: ScanResult, s: string)
    requires Scanned(d, response, c, found, scan) && s in Kept(d, SplitResult(response), Some(scan))
    ensures !RegexFlags(d, response, c, s)
    ensures !d.therapy(s) && !d.hook(s) && !d.intimacy(s) && !d.trust(s) && !d.recommendation(s)
    ensures c.piiScrubbed && d.rawPii(response) ==> !d.rawPii(s)
  {
    var sentences, flagged := SplitResult(response), Elements(scan.flagged);
    var k := FilterKeeps(sentences, 0, if scan.flagged != [] then Stays(flagged) else NotHer(d), s);
    FlaggedIndex(d, response, c, found, scan, k);
  }

  lemma TrimOuterAt(parts: seq<string>, i: nat)
    requires i < |parts|
    ensures var s := if i == 0 then TrimStart(parts[i]) else parts[i];
            TrimOuter(parts)[i] == if i == |parts| - 1 then TrimEnd(s) else s
  {
  }

  /** Trimming the outer ends changes nothing for detectors that ignore white space there. */
  lemma TrimOuterHit(hit: string -> bool, parts: seq<string>, i: nat)
    requires Ignores(hit) && i < |parts|
    ensures hit(TrimOuter(parts)[i]) == hit(parts[i])
  {
    TrimOuterAt(parts, i);
    var s := if i == 0 then TrimStart(parts[i]) else parts[i];
    assert hit(TrimStart(parts[i])) == hit(parts[i]);
    assert hit(TrimEnd(s)) == hit(s);
  }

  /** After stripping, no sentence holds an anti-Her, trust or recommendation violation. */
  lemma StrippedIsClean(d: Detectors, response: string, c: Context, found: seq<Violation>, scan: ScanResult, s: string)
    requires SplitsRight(d, response, Some(scan)) && d.IgnoreOuterSpace() && Scanned(d, response, c, found, scan)
    requires s in SplitResult(Strip(d, response, Some(scan)))
    ensures !d.therapy(s) && !d.hook(s) && !d.intimacy(s) && !d.trust(s) && !d.recommendation(s)
    ensures c.piiScrubbed && d.rawPii(response) ==> !d.rawPii(s)
  {
    StripSplits(d, response, Some(scan));
    var kept := Kept(d, SplitResult(response), Some(scan));
    var i :| 0 <= i < |kept| && TrimOuter(kept)[i] == s;
    TrimOuterHit(d.Her, kept, i);
    TrimOuterHit(d.trust, kept, i);
    TrimOuterHit(d.recommendation, kept, i);
    TrimOuterHit(d.rawPii, kept, i);
    KeptAreClean(d, response, c, found, scan, kept[i]);
  }

  lemma {:induction false} NoHits(sentences: seq<string>, i: nat, hit: string -> bool)
    requires i <= |sentences| && forall k :: i <= k < |sentences| ==> !hit(sentences[k])
    ensures Hits(sentences, i, hit) == []
    decreases |sentences| - i
  {
    if i < |sentences| { NoHits(sentences, i + 1, hit); }
  }

  predicate NoneFlagged(d: Detectors, sentences: seq<string>) {
    forall k :: 0 <= k < |sentences| ==> !d.Flags(sentences[k])
  }

  lemma LeaksOnly(d: Detectors, response: string, sentences: seq<string>, c: Context)
    requires NoneFlagged(d, sentences)
    ensures RegexViolations(d, response, sentences, c) == Leaks(d, response, sentences, c)
  {
    NoHits(sentences, 0, d.Her);
    NoHits(sentences, 0, d.trust);
    NoHits(sentences, 0, d.recommendation);
  }

  lemma StrippedHasNoneFlagged(d: Detectors, response: string, c: Context, found: seq<Violation>, scan: ScanResult)
    requires SplitsRight(d, response, Some(scan)) && d.IgnoreOuterSpace() && Scanned(d, response, c, found, scan)
    ensures NoneFlagged(d, SplitResult(Strip(d, response, Some(scan))))
  {
    var sentences := SplitResult(Strip(d, response, Some(scan)));
    forall k | 0 <= k < |sentences| ensures !d.Flags(sentences[k]) {
      StrippedIsClean(d, response, c, found, scan, sentences[k]);
    }
  }

  /** A second scan by expressions alone finds leakage at most, and flags raw personal data at most. */
  lemma RescanFindsLeaksOnly(d: Detectors, response: string, c: Context, found: seq<Violation>, scan: ScanResult,
                             c': Context, scan': ScanResult)
    requires SplitsRight(d, response, Some(scan)) && d.IgnoreOuterSpace() && Scanned(d, response, c, found, scan)
    requires Scanned(d, Strip(d, response, Some(scan)), c', [], scan')
    ensures var response' := Strip(d, response, Some(scan));
            var sentences := SplitResult(response');
            && scan'.violations == Leaks(d, response', sentences, c')
            && (scan'.flagged == []
                <==> !(c'.piiScrubbed && d.rawPii(response') && exists s :: s in sentences && d.rawPii(s)))
  {
    var response' := Strip(d, response, Some(scan));
    StrippedHasNoneFlagged(d, response, c, found, scan);
    LeaksOnly(d, response', SplitResult(response'), c');
    FlaggedIsRaw(d, response', SplitResult(response'), c', scan');
  }

  lemma FlaggedIsRaw(d: Detectors, response: string, sentences: seq<string>, c: Context, scan: ScanResult)
    requires sentences == SplitResult(response) && Scanned(d, response, c, [], scan)
    requires NoneFlagged(d, sentences)
    ensures scan.flagged == [] <==> !(c.piiScrubbed && d.rawPii(response) && exists s :: s in sentences && d.rawPii(s))
  {
    var flagged := RegexFlagged(d, response, sentences, c);
    assert Elements(scan.flagged) == flagged;
    if scan.flagged != [] {
      assert scan.flagged[0] in flagged;
    }
    if c.piiScrubbed && d.rawPii(response) && exists s :: s in sentences && d.rawPii(s) {
      var s :| s in sentences && d.rawPii(s);
      var k :| 0 <= k < |sentences| && sentences[k] == s;
      assert (k as real) in flagged;
    }
  }

  lemma {:induction false} FilterDrops(parts: seq<string>, i: nat, keep: (nat, string) -> bool, k: nat)
    requires k < |parts| && !keep(i + k, parts[k])
    ensures |Filter(parts, i, keep)| < |parts|
    decreases k
  {
    if k > 0 {
      assert parts[1..][k - 1] == parts[k] && i + 1 + (k - 1) == i + k;
      FilterDrops(parts[1..], i + 1, keep, k - 1);
    }
  }

  /** A stripped response is its sentences, joined and trimmed. */
  lemma StrippedIsJoined(d: Detectors, response: string, scan: Option<ScanResult>)
    requires SplitsRight(d, response, scan)
    ensures var response' := Strip(d, response, scan); Trim(Join(SplitResult(response'))) == response'
  {
    var kept := Kept(d, SplitResult(response), scan);
    StrippedSentences(d, response, scan);
    StripSplits(d, response, scan);
    TrimJoin(kept);
    TrimIsTrimmed(Join(kept));
    TrimIsTrimmed(Trim(Join(kept)));
  }

  lemma {:induction false} NothingHerKeepsAll(d: Detectors, sentences: seq<string>)
    requires NoneFlagged(d, sentences)
    ensures Filter(sentences, 0, NotHer(d)) == sentences
  {
    forall k | 0 <= k < |sentences| ensures NotHer(d)(0 + k, sentences[k]) { assert !d.Flags(sentences[k]); }
    FilterKeepsAll(sentences, 0, NotHer(d));
  }

  lemma ShorterIsOther(d: Detectors, response: string, c: Context, scan: ScanResult)
    requires Restorable(response) && Scanned(d, response, c, [], scan) && scan.flagged != []
    ensures Strip(d, response, Some(scan)) != response
  {
    StripSplits(d, response, Some(scan));
    FlaggedDrops(d, response, c, scan);
  }

  lemma CleanStays(d: Detectors, response: string, scan: Option<ScanResult>)
    requires Trim(Join(SplitResult(response))) == response && NoneFlagged(d, SplitResult(response))
    requires scan.Some? ==> scan.value.flagged == []
    ensures Strip(d, response, scan) == response
  {
    NothingHerKeepsAll(d, SplitResult(response));
  }

  /** Stripping keeps a stripped response exactly if the scan it is given flags nothing. */
  lemma StripAgain(d: Detectors, response: string, c: Context, found: seq<Violation>, scan: ScanResult,
                   c': Context, scan': ScanResult)
    requires SplitsRight(d, response, Some(scan)) && d.IgnoreOuterSpace() && Scanned(d, response, c, found, scan)
    requires Scanned(d, Strip(d, response, Some(scan)), c', [], scan')
    ensures var response' := Strip(d, response, Some(scan));
            && Strip(d, response', None) == response'
            && (Strip(d, response', Some(scan')) == response' <==> scan'.flagged == [])
  {
    var response' := Strip(d, response, Some(scan));
    StrippedIsJoined(d, response, Some(scan));
    StrippedHasNoneFlagged(d, response, c, found, scan);
    CleanStays(d, response', None);
    if scan'.flagged != [] {
      ShorterIsOther(d, response', c', scan');
    } else {
      CleanStays(d, response', Some(scan'));
    }
  }

  predicate IsIndex(x: real, k: nat) {
    x == k as real
  }

  /** A flag of a scan by expressions is the index of a sentence that they flag. */
  lemma FlagIsIndex(d: Detectors, response: string, c: Context, scan: ScanResult, x: real) returns (k: nat)
    requires Scanned(d, response, c, [], scan) && x in Elements(scan.flagged)
    ensures k < |SplitResult(response)| && RegexFlags(d, response, c, SplitResult(response)[k]) && IsIndex(x, k)
  {
    var sentences := SplitResult(response);
    assert exists j: nat :: j < |sentences| && RegexFlags(d, response, c, sentences[j]) && IsIndex(x, j);
    k :| 0 <= k < |sentences| && RegexFlags(d, response, c, sentences[k]) && IsIndex(x, k);
  }

  lemma FlaggedDrops(d: Detectors, response: string, c: Context, scan: ScanResult)
    requires Scanned(d, response, c, [], scan) && scan.flagged != []
    ensures |Kept(d, SplitResult(response), Some(scan))| < |SplitResult(response)|
  {
    var sentences, flagged := SplitResult(response), Elements(scan.flagged);
    assert scan.flagged[0] in flagged;
    var k := FlagIsIndex(d, response, c, scan, scan.flagged[0]);
    assert !Stays(flagged)(0 + k, sentences[k]);
    FilterDrops(sentences, 0, Stays(flagged), k);
  }

  /**
   * Tokens that were not rehydrated are reported as blocking, but no sentence is flagged for them: a
   * response whose only violation they are is stripped of nothing.
   */
  lemma TokensAreNotStripped(d: Detectors, response: string, c: Context, scan: ScanResult)
    requires Scanned(d, response, c, [], scan) && HasToken(response)
    requires forall s :: s in SplitResult(response) ==> !RegexFlags(d, response, c, s)
    ensures !scan.Safe() && scan.flagged == [] && Kept(d, SplitResult(response), Some(scan)) == SplitResult(response)
  {
    var sentences := SplitResult(response);
    if scan.flagged != [] { assert scan.flagged[0] in Elements(scan.flagged); }
    assert Violation(PiiLeakage, Block, Hits(sentences, 0, HasToken)) in Leaks(d, response, sentences, c);
    assert Violation(PiiLeakage, Block, Hits(sentences, 0, HasToken)) in RegexViolations(d, response, sentences, c);
    forall k | 0 <= k < |sentences| ensures !d.Flags(sentences[k]) {
      assert sentences[k] in sentences;
      assert !RegexFlags(d, response, c, sentences[k]);
    }
    NothingHerKeepsAll(d, sentences);
  }

  /** Of a response that the splitter gets right: a token is reported with at least one sentence. */
  lemma TokenIsLocated(response: string)
    requires Restorable(response)
    ensures HasToken(response) <==> Hits(SplitResult(response), 0, HasToken) != []
  {
    var sentences := SplitResult(response);
    SplitterIsSentences(response);
    TokensBySentence(response);
    HitsWhen(sentences, 0, HasToken);
  }

  /**
   * Whatever a scan flags, and however a response is split: what is left holds a token exactly if a kept
   * sentence does.
   */
  lemma TokensSurvive(d: Detectors, response: string, scan: Option<ScanResult>)
    ensures HasToken(Strip(d, response, scan)) <==> exists s :: s in Kept(d, SplitResult(response), scan) && HasToken(s)
  {
    var kept := Kept(d, SplitResult(response), scan);
    TokensOfJoin(kept);
    if s :| s in kept && HasToken(s) {
      var k :| 0 <= k < |kept| && kept[k] == s;
      assert HasToken(kept[k]);
    }
  }
}
