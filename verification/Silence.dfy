/** How events are given a priority: deterministic rules, escalation, a model's refinement, and the downgrades. */
module Silence {
  import opened Text
  import opened Wrappers

  datatype Tier = Fiduciary | Solicited | Engagement

  datatype Result = Result(tier: Tier, confidence: real, byModel: bool)

  /** The expressions that look at an event's subject and body. */
  datatype Patterns = Patterns(fiduciary: string -> bool, health: string -> bool)

  datatype Event = Event(source: string, kind: string, subject: string, body: string, timestamp: real)

  const FIDUCIARY_SOURCES := ["security", "health_system", "bank", "emergency"]
  const MARKETING_SOURCES := ["promo", "marketing", "newsletter", "social"]
  const SOLICITED_TYPES := ["reminder", "search_result"]

  const ESCALATION_THRESHOLD := 3
  const STALE_THRESHOLD_MS := 86400000.0

  predicate IsFiduciarySource(source: string) {
    LowerAll(source) in FIDUCIARY_SOURCES
  }

  predicate IsMarketingSource(source: string) {
    LowerCaseAll(source) in MARKETING_SOURCES
  }

  function TextOf(e: Event): string {
    e.subject + " " + e.body
  }

  /** `classifyDeterministic`; the engagement types and the default differ in confidence only. */
  function Deterministic(p: Patterns, e: Event): Result {
    if IsFiduciarySource(e.source) then Result(Fiduciary, 0.95, false)
    else if p.fiduciary(TextOf(e)) && !IsMarketingSource(e.source) then Result(Fiduciary, 0.85, false)
    else if p.health(TextOf(e)) && e.source == "health_system" then Result(Fiduciary, 0.80, false)
    else if e.kind in SOLICITED_TYPES then Result(Solicited, 0.90, false)
    else if e.kind in ["notification", "promo", "social", "rss", "podcast", "background_sync"]
    then Result(Engagement, 0.90, false)
    else Result(Engagement, 0.50, false)
  }

  /** A model's answer; a tier or confidence that is no valid number is `None`, as is a failing call. */
  datatype Answer = Answer(tier: Option<Tier>, confidence: Option<real>)

  /** `refineSilenceWithLLM` */
  function Refine(e: Event, r: Result, answer: Option<Answer>): Result {
    if answer.None? || r.confidence >= 0.85 || r.tier == Fiduciary then r
    else
      var a := answer.value;
      if a.tier.None? || a.confidence.None? || a.confidence.value < 0.5 || a.confidence.value > 1.0 then r
      else if a.tier.value == Fiduciary && IsMarketingSource(e.source) then r
      else Result(a.tier.value, a.confidence.value, true)
  }

  datatype QuietHours = QuietHours(enabled: bool, start: int, end: int)

  predicate InQuietHours(q: QuietHours, hour: int) {
    q.enabled && if q.start > q.end then hour >= q.start || hour < q.end else q.start <= hour < q.end
  }

  /** Seconds are taken for milliseconds from 1e12 on only. */
  function Milliseconds(timestamp: real): real {
    if 0.0 < timestamp < 1000000000000.0 then timestamp * 1000.0 else timestamp
  }

  predicate IsStale(timestamp: real, now: real) {
    Milliseconds(timestamp) > 0.0 && now - Milliseconds(timestamp) > 0.0
        && now - Milliseconds(timestamp) >= STALE_THRESHOLD_MS
  }

  /** What becomes of a result once the model has answered. */
  function Downgrade(e: Event, r: Result, quiet: bool, now: real): Result {
    if quiet && r.tier == Solicited then r.(tier := Engagement, confidence := r.confidence * 0.8)
    else if IsStale(e.timestamp, now) && r.tier == Solicited
    then r.(tier := Engagement, confidence := r.confidence * 0.5)
    else if IsStale(e.timestamp, now) && r.tier == Engagement then r.(confidence := r.confidence * 0.6)
    else r
  }

  // ---- The module's state ------------------------------------------------------------------------

  datatype State = State(overrides: map<string, Tier>, counts: map<string, nat>, dnd: bool, quietHours: QuietHours)

  const START := State(map[], map[], false, QuietHours(false, 22, 7))

  function Count(s: State, source: string): nat {
    if source in s.counts then s.counts[source] else 0
  }

  predicate Counts(s: State, p: Patterns, e: Event) {
    e.source !in s.overrides && Deterministic(p, e).tier == Engagement && e.source != []
  }

  /** What a classification has come to before the model is asked. */
  datatype Begun = Decided(result: Result) | Open(deterministic: Result)

  function Counted(s: State, p: Patterns, e: Event): State {
    if Counts(s, p, e) then s.(counts := s.counts[e.source := Count(s, e.source) + 1]) else s
  }

  function Begin(s: State, p: Patterns, e: Event): Begun {
    if e.source in s.overrides then Decided(Result(s.overrides[e.source], 1.0, false))
    else if Counts(s, p, e) && Count(s, e.source) + 1 >= ESCALATION_THRESHOLD
    then Decided(Result(Fiduciary, 0.80, false))
    else Open(Deterministic(p, e))
  }

  predicate Quiet(s: State, hour: int) {
    s.dnd || InQuietHours(s.quietHours, hour)
  }

  /** What is returned; `s` is the state when the model has answered, which others may have changed. */
  function Finish(s: State, e: Event, begun: Begun, answer: Option<Answer>, hour: int, now: real): Result {
    if begun.Decided? then begun.result
    else Downgrade(e, Refine(e, begun.deterministic, answer), Quiet(s, hour), now)
  }

  class Guardian {
    var overrides: map<string, Tier>
    var counts: map<string, nat>
    var dnd: bool
    var quietHours: QuietHours

    constructor ()
      ensures Value() == START
    {
      overrides, counts, dnd, quietHours := map[], map[], false, QuietHours(false, 22, 7);
    }

    function Value(): State
      reads this
    {
      State(overrides, counts, dnd, quietHours)
    }

    /** `recordEngagementEvent` */
    method RecordEngagementEvent(source: string) returns (count: nat)
      modifies this`counts
      ensures count == Count(old(Value()), source) + 1 && counts == old(counts)[source := count]
    {
      count := 1;
      if source in counts { count := counts[source] + 1; }
      counts := counts[source := count];
    }

    /** `classifyPriority` up to the await of the model. */
    method BeginClassification(p: Patterns, e: Event) returns (begun: Begun)
      modifies this`counts
      ensures begun == Begin(old(Value()), p, e) && Value() == Counted(old(Value()), p, e)
    {
      if e.source in overrides { return Decided(Result(overrides[e.source], 1.0, false)); }
      var deterministic := Deterministic(p, e);
      if deterministic.tier == Engagement && e.source != [] {
        var count := RecordEngagementEvent(e.source);
        if count >= ESCALATION_THRESHOLD { return Decided(Result(Fiduciary, 0.80, false)); }
      }
      return Open(deterministic);
    }

    /** `classifyPriority` behind it. */
    method FinishClassification(e: Event, deterministic: Result, answer: Option<Answer>, hour: int, now: real)
      returns (r: Result)
      ensures r == Finish(Value(), e, Open(deterministic), answer, hour, now)
    {
      var result := Refine(e, deterministic, answer);
      if dnd && result.tier == Solicited { return Result(Engagement, result.confidence * 0.8, result.byModel); }
      if InQuietHours(quietHours, hour) && result.tier == Solicited {
        return Result(Engagement, result.confidence * 0.8, result.byModel);
      }
      if Milliseconds(e.timestamp) > 0.0 {
        var stale := IsStale(e.timestamp, now);
        if stale && result.tier == Solicited { return Result(Engagement, result.confidence * 0.5, result.byModel); }
        if stale && result.tier == Engagement { return result.(confidence := result.confidence * 0.6); }
      }
      return result;
    }

    method SetUserOverride(source: string, tier: Tier)
      modifies this`overrides
      ensures overrides == old(overrides)[source := tier]
    {
      overrides := overrides[source := tier];
    }

    method RemoveUserOverride(source: string)
      modifies this`overrides
      ensures overrides == old(overrides) - {source}
    {
      overrides := overrides - {source};
    }

    method SetDND(enabled: bool)
      modifies this`dnd
      ensures dnd == enabled
    {
      dnd := enabled;
    }

    /** `enableQuietHours`, which keeps hours it is not given. */
    method EnableQuietHours(start: Option<int>, end: Option<int>)
      modifies this`quietHours
      ensures quietHours == QuietHours(true, if start.Some? then start.value else old(quietHours.start),
                                       if end.Some? then end.value else old(quietHours.end))
    {
      quietHours := quietHours.(enabled := true);
      if start.Some? { quietHours := quietHours.(start := start.value); }
      if end.Some? { quietHours := quietHours.(end := end.value); }
    }
  }

  // ---- What the rules, the model, the clock and the age decide -------------------------------------

  /** The source, up to the case of letters, is trusted; or the text is urgent and not from a marketing source. */
  ghost predicate IsFiduciary(p: Patterns, e: Event) {
    || LowerAll(e.source) in {"security", "health_system", "bank", "emergency"}
    || (p.fiduciary(e.subject + " " + e.body)
        && LowerCaseAll(e.source) !in {"promo", "marketing", "newsletter", "social"})
  }

  /**
   * What the rules decide, and how sure they are. Health words add nothing: the source for which they are
   * looked for is trusted anyway.
   */
  lemma RulesDecide(p: Patterns, e: Event)
    ensures var r := Deterministic(p, e);
            && !r.byModel
            && (r.tier == Fiduciary <==> IsFiduciary(p, e))
            && (r.tier == Solicited <==> !IsFiduciary(p, e) && e.kind in {"reminder", "search_result"})
            && r.confidence == (
                 if LowerAll(e.source) in {"security", "health_system", "bank", "emergency"} then 0.95
                 else if IsFiduciary(p, e) then 0.85
                 else if e.kind in {"reminder", "search_result", "notification", "promo", "social", "rss", "podcast",
                                    "background_sync"} then 0.90
                 else 0.50)
  {
    if e.source == "health_system" { assert LowerAll(e.source) == e.source; }
  }

  /** A valid answer: a tier, and a confidence from a half to one. */
  predicate IsValid(a: Answer) {
    a.tier.Some? && a.confidence.Some? && 0.5 <= a.confidence.value && a.confidence.value <= 1.0
  }

  /**
   * The model decides exactly where no rule is sure, by a valid answer, unless that makes a marketing
   * event fiduciary.
   */
  lemma ModelDecidesWhen(p: Patterns, e: Event, answer: Option<Answer>)
    ensures var r, r' := Deterministic(p, e), Refine(e, Deterministic(p, e), answer);
            var sure := IsFiduciary(p, e) || e.kind in {"reminder", "search_result", "notification", "promo", "social",
                                                        "rss", "podcast", "background_sync"};
            if !sure && answer.Some? && IsValid(answer.value)
               && !(answer.value.tier == Some(Fiduciary)
                    && LowerCaseAll(e.source) in {"promo", "marketing", "newsletter", "social"})
            then r' == Result(answer.value.tier.value, answer.value.confidence.value, true)
            else r' == r
  {
    RulesDecide(p, e);
  }

  /** On the clock, quiet hours run from their start up to, not including, their end, past midnight if need be. */
  lemma QuietHoursRunOn(q: QuietHours, hour: int)
    requires 0 <= hour < 24 && 0 <= q.start < 24 && 0 <= q.end < 24
    ensures InQuietHours(q, hour) <==> q.enabled && (hour - q.start) % 24 < (q.end - q.start) % 24
  {
  }

  /** Content with a time, in seconds or milliseconds, is stale from one day of age on. */
  lemma StaleWhen(timestamp: real, now: real)
    ensures timestamp <= 0.0 ==> !IsStale(timestamp, now)
    ensures 0.0 < timestamp < 1000000000000.0 ==> (IsStale(timestamp, now) <==> now - timestamp * 1000.0 >= 86400000.0)
    ensures timestamp >= 1000000000000.0 ==> (IsStale(timestamp, now) <==> now - timestamp >= 86400000.0)
  {
  }

  /** A downgrade makes engagement of what was solicited, and never raises a tier or a confidence. */
  lemma DowngradedWhen(e: Event, r: Result, quiet: bool, now: real)
    ensures var r', stale := Downgrade(e, r, quiet, now), IsStale(e.timestamp, now);
            && r'.byModel == r.byModel
            && r'.tier == (if r.tier == Solicited && (quiet || stale) then Engagement else r.tier)
            && r'.confidence == r.confidence * (
                 if r.tier == Solicited && quiet then 0.8
                 else if r.tier == Solicited && stale then 0.5
                 else if r.tier == Engagement && stale then 0.6
                 else 1.0)
  {
  }

  /** An override decides with certainty, and an escalation by itself; nothing that follows changes them. */
  lemma DecidedAtOnce(s: State, s': State, p: Patterns, e: Event, answer: Option<Answer>, hour: int, now: real)
    ensures var r := Finish(s', e, Begin(s, p, e), answer, hour, now);
            && (e.source in s.overrides ==> r == Result(s.overrides[e.source], 1.0, false))
            && (e.source !in s.overrides && Deterministic(p, e).tier == Engagement && e.source != "" ==>
                  Count(s, e.source) + 1 >= 3 ==> r == Result(Fiduciary, 0.80, false))
  {
  }

  /** Otherwise the rules, the model and one downgrade decide, in this order. */
  lemma DecidedInSteps(s: State, s': State, p: Patterns, e: Event, answer: Option<Answer>, hour: int, now: real)
    requires e.source !in s.overrides
    requires Deterministic(p, e).tier != Engagement || e.source == "" || Count(s, e.source) + 1 < 3
    ensures Finish(s', e, Begin(s, p, e), answer, hour, now)
            == Downgrade(e, Refine(e, Deterministic(p, e), answer), s'.dnd || InQuietHours(s'.quietHours, hour), now)
  {
  }

  // ---- What one classification guarantees ----------------------------------------------------------

  /**
   * Without a user's override, what the rules find fiduciary stays so, whatever the model, the mode, the
   * hour and the age.
   */
  lemma FiduciaryStays(s: State, s': State, p: Patterns, e: Event, answer: Option<Answer>, hour: int, now: real)
    requires e.source !in s.overrides && Deterministic(p, e).tier == Fiduciary
    ensures Finish(s', e, Begin(s, p, e), answer, hour, now) == Deterministic(p, e)
  {
  }

  /** In do-not-disturb mode and quiet hours nothing is solicited, but what a user has made so. */
  lemma QuietOrOverridden(s: State, s': State, p: Patterns, e: Event, answer: Option<Answer>, hour: int, now: real)
    requires Quiet(s', hour)
    ensures Finish(s', e, Begin(s, p, e), answer, hour, now).tier == Solicited
            <==> e.source in s.overrides && s.overrides[e.source] == Solicited
  {
  }

  /** So the claim that it holds for every event fails, as one override shows. */
  lemma OverrideBeatsQuiet(p: Patterns, e: Event, answer: Option<Answer>, hour: int, now: real)
    ensures var s := START.(overrides := map[e.source := Solicited], dnd := true);
            Quiet(s, hour) && Finish(s, e, Begin(s, p, e), answer, hour, now).tier == Solicited
  {
  }

  /**
   * The model's answer counts only if its confidence is between a half and one, and never lowers a
   * fiduciary result.
   */
  lemma ModelIsBounded(e: Event, r: Result, answer: Option<Answer>)
    ensures var r' := Refine(e, r, answer);
            && (r.tier == Fiduciary ==> r' == r) && (r.confidence >= 0.85 ==> r' == r)
            && (IsMarketingSource(e.source) && r'.tier == Fiduciary ==> r.tier == Fiduciary)
            && (r' != r ==> answer.Some? && answer.value.tier == Some(r'.tier) && 0.5 <= r'.confidence <= 1.0)
  {
  }

  // ---- Marketing sources ---------------------------------------------------------------------------

  lemma FoldsAgree(s: string, word: string)
    requires LowerAll(s) == word && forall k :: 0 <= k < |word| ==> word[k] < '\U{80}'
    ensures LowerCaseAll(s) == word
  {
    var r := LowerCaseAll(s);
    forall k | 0 <= k < |s| ensures r[k] == word[k] {
      assert LowerAll(s)[k] == word[k];
    }
  }

  /** No marketing source is a fiduciary one. */
  lemma MarketingIsNotFiduciary(source: string)
    requires IsMarketingSource(source)
    ensures !IsFiduciarySource(source) && source != "health_system" && source != []
  {
    if IsFiduciarySource(source) { FoldsAgree(source, LowerAll(source)); }
    if source == "health_system" { FoldsAgree(source, source); }
  }

  lemma MarketingIsNeverFiduciary(p: Patterns, e: Event)
    requires IsMarketingSource(e.source)
    ensures Deterministic(p, e).tier != Fiduciary && e.source != []
  {
    MarketingIsNotFiduciary(e.source);
  }

  /**
   * An event from a marketing source, without a user's override, is returned as fiduciary exactly if
   * the rules find it engagement and it brings its source's count to the threshold.
   */
  lemma MarketingIffEscalated(s: State, s': State, p: Patterns, e: Event, answer: Option<Answer>, hour: int, now: real)
    requires IsMarketingSource(e.source) && e.source !in s.overrides
    ensures Finish(s', e, Begin(s, p, e), answer, hour, now).tier == Fiduciary
            <==> Deterministic(p, e).tier == Engagement && Count(s, e.source) + 1 >= ESCALATION_THRESHOLD
  {
    MarketingIsNeverFiduciary(p, e);
  }

  // ---- Whole runs --------------------------------------------------------------------------------

  /** Classifications begin and end in any order; only their beginnings, and settings, change the state. */
  datatype Step =
    | Classify(event: Event)
    | Override(source: string, tier: Tier)
    | RemoveOverride(source: string)
    | Settings(dnd: bool, quietHours: QuietHours)

  function After(p: Patterns, run: seq<Step>, n: nat): State
    requires n <= |run|
  {
    if n == 0 then START
    else
      var s := After(p, run, n - 1);
      match run[n - 1]
      case Classify(e) => Counted(s, p, e)
      case Override(source, tier) => s.(overrides := s.overrides[source := tier])
      case RemoveOverride(source) => s.(overrides := s.overrides - {source})
      case Settings(dnd, quietHours) => s.(dnd := dnd, quietHours := quietHours)
  }

  /**
   * How many of the first `n` steps classify an event of the source, not overridden then, that the rules
   * find engagement.
   */
  function EngagementEvents(p: Patterns, run: seq<Step>, n: nat, source: string): nat
    requires n <= |run|
  {
    if n == 0 then 0
    else
      var e := run[n - 1];
      EngagementEvents(p, run, n - 1, source)
      + if e.Classify? && e.event.source == source && Counts(After(p, run, n - 1), p, e.event) then 1 else 0
  }

  lemma {:induction false} CountIsHistory(p: Patterns, run: seq<Step>, n: nat, source: string)
    requires n <= |run|
    ensures Count(After(p, run, n), source) == EngagementEvents(p, run, n, source)
  {
    if n > 0 { CountIsHistory(p, run, n - 1, source); }
  }

  /**
   * In every run, a marketing event that no override decides is fiduciary exactly if the rules find it
   * engagement and at least `ESCALATION_THRESHOLD` such events of its source, itself included, have come.
   */
  lemma {:induction false} MarketingOverRuns(p: Patterns, run: seq<Step>, n: nat, s': State, answer: Option<Answer>,
                                             hour: int, now: real)
    requires n < |run| && run[n].Classify? && IsMarketingSource(run[n].event.source)
    requires run[n].event.source !in After(p, run, n).overrides
    ensures var e := run[n].event;
            Finish(s', e, Begin(After(p, run, n), p, e), answer, hour, now).tier == Fiduciary
            <==> && Deterministic(p, e).tier == Engagement
                 && EngagementEvents(p, run, n + 1, e.source) >= ESCALATION_THRESHOLD
  {
    var e := run[n].event;
    CountIsHistory(p, run, n, e.source);
    MarketingIffEscalated(After(p, run, n), s', p, e, answer, hour, now);
    MarketingIsNeverFiduciary(p, e);
  }

  lemma {:induction false} CountsGrow(p: Patterns, run: seq<Step>, m: nat, n: nat, source: string)
    requires m <= n <= |run|
    ensures EngagementEvents(p, run, m, source) <= EngagementEvents(p, run, n, source)
    decreases n
  {
    if m < n { CountsGrow(p, run, m, n - 1, source); }
  }

  /** The counts never go down: once a source has escalated, each of its engagement events interrupts. */
  lemma {:induction false} EscalationStays(p: Patterns, run: seq<Step>, m: nat, n: nat, s': State,
                                           answer: Option<Answer>, hour: int, now: real)
    requires m <= n < |run| && run[n].Classify?
    requires EngagementEvents(p, run, m, run[n].event.source) >= ESCALATION_THRESHOLD
    requires Counts(After(p, run, n), p, run[n].event)
    ensures Finish(s', run[n].event, Begin(After(p, run, n), p, run[n].event), answer, hour, now).tier == Fiduciary
  {
    CountsGrow(p, run, m, n, run[n].event.source);
    CountIsHistory(p, run, n, run[n].event.source);
  }
}
