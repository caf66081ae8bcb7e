/** The circuit breaker: its methods, its state as a function of the history, and the bound on what an outage admits. */
module CircuitBreakers {
  import opened Wrappers

  datatype CircuitState = Closed | Open | HalfOpen

  datatype Breaker = Breaker(
    state: CircuitState, consecutiveFailures: nat,
    lastFailureAt: Option<int>, lastSuccessAt: Option<int>,
    totalFailures: nat, totalSuccesses: nat, probeInProgress: bool)

  const FRESH := Breaker(Closed, 0, None, None, 0, 0, false)

  // ---- One step ----------------------------------------------------------------------------------

  predicate Cooled(b: Breaker, cooldown: int, now: int) {
    b.lastFailureAt.Some? && now - b.lastFailureAt.value >= cooldown
  }

  predicate Admits(b: Breaker, cooldown: int, now: int) {
    match b.state
    case Closed => true
    case Open => Cooled(b, cooldown, now) && !b.probeInProgress
    case HalfOpen => !b.probeInProgress
  }

  function AfterAllow(b: Breaker, cooldown: int, now: int): Breaker {
    if b.state == Open && Admits(b, cooldown, now) then b.(state := HalfOpen, probeInProgress := true) else b
  }

  function AfterSuccess(b: Breaker, now: int): Breaker {
    b.(state := if b.state == HalfOpen then Closed else b.state,
       consecutiveFailures := if b.state == Open then b.consecutiveFailures else 0,
       totalSuccesses := b.totalSuccesses + 1, lastSuccessAt := Some(now), probeInProgress := false)
  }

  function AfterFailure(b: Breaker, threshold: int, now: int): Breaker {
    b.(state := if b.state == Closed && b.consecutiveFailures + 1 < threshold then Closed else Open,
       consecutiveFailures := b.consecutiveFailures + 1,
       totalFailures := b.totalFailures + 1, lastFailureAt := Some(now), probeInProgress := false)
  }

  class CircuitBreaker {
    var state: CircuitState
    var consecutiveFailures: nat
    var lastFailureAt: Option<int>
    var lastSuccessAt: Option<int>
    var totalFailures: nat
    var totalSuccesses: nat
    var probeInProgress: bool
    const failureThreshold: int
    const cooldown: int

    constructor (failureThreshold: int, cooldown: int)
      ensures Value() == FRESH && this.failureThreshold == failureThreshold && this.cooldown == cooldown
    {
      state, consecutiveFailures, lastFailureAt, lastSuccessAt := Closed, 0, None, None;
      totalFailures, totalSuccesses, probeInProgress := 0, 0, false;
      this.failureThreshold, this.cooldown := failureThreshold, cooldown;
    }

    function Value(): Breaker
      reads this
    {
      Breaker(state, consecutiveFailures, lastFailureAt, lastSuccessAt, totalFailures, totalSuccesses, probeInProgress)
    }

    /** `allowRequest`; `now` is what the clock shows. */
    method AllowRequest(now: int) returns (allowed: bool)
      modifies this
      ensures allowed == Admits(old(Value()), cooldown, now)
      ensures Value() == AfterAllow(old(Value()), cooldown, now)
    {
      match state {
        case Closed => return true;
        case Open =>
          if lastFailureAt.Some? && now - lastFailureAt.value >= cooldown {
            if probeInProgress { return false; }
            state := HalfOpen;
            probeInProgress := true;
            return true;
          }
          return false;
        case HalfOpen =>
          if probeInProgress { return false; }
          return true;
      }
    }

    /** `recordSuccess` */
    method RecordSuccess(now: int)
      modifies this
      ensures Value() == AfterSuccess(old(Value()), now)
    {
      totalSuccesses := totalSuccesses + 1;
      lastSuccessAt := Some(now);
      probeInProgress := false;
      match state {
        case HalfOpen =>
          state := Closed;
          consecutiveFailures := 0;
        case Closed => consecutiveFailures := 0;
        case Open =>
      }
    }

    /** `recordFailure` */
    method RecordFailure(now: int)
      modifies this
      ensures Value() == AfterFailure(old(Value()), failureThreshold, now)
    {
      totalFailures := totalFailures + 1;
      consecutiveFailures := consecutiveFailures + 1;
      lastFailureAt := Some(now);
      probeInProgress := false;
      match state {
        case Closed =>
          if consecutiveFailures >= failureThreshold { state := Open; }
        case HalfOpen => state := Open;
        case Open =>
      }
    }

    /** `execute`, for a call during which no other ends; whether the call throws is `throws`. */
    method Execute(askedAt: int, endedAt: int, throws: bool) returns (ran: bool)
      modifies this
      ensures ran == Admits(old(Value()), cooldown, askedAt)
      ensures ran ==>
        Value() == Step(Step(old(Value()), failureThreshold, cooldown, Ask(askedAt)), failureThreshold, cooldown,
                        if throws then Fail(endedAt) else Succeed(endedAt))
      ensures !ran ==> Value() == old(Value())
    {
      ran := AllowRequest(askedAt);
      if !ran { return; }
      if throws { RecordFailure(endedAt); } else { RecordSuccess(endedAt); }
    }
  }

  // ---- Whole runs --------------------------------------------------------------------------------

  /** `execute` admits a call or not, and, when the call it awaits ends, records how; calls overlap freely. */
  datatype Event = Ask(at: int) | Succeed(at: int) | Fail(at: int)

  function Step(b: Breaker, threshold: int, cooldown: int, e: Event): Breaker {
    match e
    case Ask(now) => AfterAllow(b, cooldown, now)
    case Succeed(now) => AfterSuccess(b, now)
    case Fail(now) => AfterFailure(b, threshold, now)
  }

  /** The state after the first `n` events. */
  function After(b: Breaker, threshold: int, cooldown: int, run: seq<Event>, n: nat): Breaker
    requires n <= |run|
  {
    if n == 0 then b else Step(After(b, threshold, cooldown, run, n - 1), threshold, cooldown, run[n - 1])
  }

  function Successes(run: seq<Event>, n: nat): nat
    requires n <= |run|
  {
    if n == 0 then 0 else Successes(run, n - 1) + if run[n - 1].Succeed? then 1 else 0
  }

  function Failures(run: seq<Event>, n: nat): nat
    requires n <= |run|
  {
    if n == 0 then 0 else Failures(run, n - 1) + if run[n - 1].Fail? then 1 else 0
  }

  function FailuresSinceSuccess(run: seq<Event>, n: nat): nat
    requires n <= |run|
  {
    if n == 0 || run[n - 1].Succeed? then 0
    else FailuresSinceSuccess(run, n - 1) + if run[n - 1].Fail? then 1 else 0
  }

  /** The state of the breaker as its history determines it. */
  lemma {:induction false} HistoryDetermines(threshold: int, cooldown: int, run: seq<Event>, n: nat)
    requires threshold >= 1 && n <= |run|
    ensures var b := After(FRESH, threshold, cooldown, run, n);
            && (b.probeInProgress <==> b.state == HalfOpen)
            && (b.state == Closed
                ==> b.consecutiveFailures < threshold && b.consecutiveFailures == FailuresSinceSuccess(run, n))
            && (b.state != Closed ==> b.consecutiveFailures >= threshold && b.lastFailureAt.Some?)
            && b.totalSuccesses == Successes(run, n) && b.totalFailures == Failures(run, n)
  {
    if n > 0 { HistoryDetermines(threshold, cooldown, run, n - 1); }
  }

  predicate Monotone(run: seq<Event>) {
    forall i, j :: 0 <= i <= j < |run| ==> run[i].at <= run[j].at
  }

  /** When the last of the first `n` events failed, or succeeded. */
  function LastFailure(run: seq<Event>, n: nat): Option<int>
    requires n <= |run|
  {
    if n == 0 then None else if run[n - 1].Fail? then Some(run[n - 1].at) else LastFailure(run, n - 1)
  }

  function LastSuccess(run: seq<Event>, n: nat): Option<int>
    requires n <= |run|
  {
    if n == 0 then None else if run[n - 1].Succeed? then Some(run[n - 1].at) else LastSuccess(run, n - 1)
  }

  lemma {:induction false} TimesAreKept(threshold: int, cooldown: int, run: seq<Event>, n: nat)
    requires n <= |run|
    ensures var b := After(FRESH, threshold, cooldown, run, n);
            b.lastFailureAt == LastFailure(run, n) && b.lastSuccessAt == LastSuccess(run, n)
  {
    if n > 0 { TimesAreKept(threshold, cooldown, run, n - 1); }
  }

  /** What each event makes of each state, in terms of the history, and which calls are admitted. */
  lemma Transition(threshold: int, cooldown: int, run: seq<Event>, n: nat)
    requires threshold >= 1 && n < |run|
    ensures var b, e, last := After(FRESH, threshold, cooldown, run, n), run[n], LastFailure(run, n);
            var cooled := last.Some? && e.at - last.value >= cooldown;
            var state := After(FRESH, threshold, cooldown, run, n + 1).state;
            match b.state
            case Closed =>
              && state == (if e.Fail? && FailuresSinceSuccess(run, n) + 1 >= threshold then Open else Closed)
              && (e.Ask? ==> Admits(b, cooldown, e.at))
            case Open =>
              && state == (if e.Ask? && cooled then HalfOpen else Open)
              && (e.Ask? ==> (Admits(b, cooldown, e.at) <==> cooled))
            case HalfOpen =>
              && state == (if e.Succeed? then Closed else if e.Fail? then Open else HalfOpen)
              && (e.Ask? ==> !Admits(b, cooldown, e.at))
  {
    HistoryDetermines(threshold, cooldown, run, n);
    TimesAreKept(threshold, cooldown, run, n);
  }

  lemma {:induction false} StaysOpen(threshold: int, cooldown: int, run: seq<Event>, i: nat, j: nat)
    requires threshold >= 1 && Monotone(run) && i < j < |run| && run[i].Fail?
    requires After(FRESH, threshold, cooldown, run, i + 1).state == Open && run[j].at < run[i].at + cooldown
    ensures After(FRESH, threshold, cooldown, run, j).state == Open
    ensures LastFailure(run, j).Some? && LastFailure(run, j).value >= run[i].at
    decreases j
  {
    if j > i + 1 {
      assert run[j - 1].at <= run[j].at && run[i].at <= run[j - 1].at;
      StaysOpen(threshold, cooldown, run, i, j - 1);
      Transition(threshold, cooldown, run, j - 1);
    }
  }

  /** From a failure that leaves the circuit open, no call is admitted for a cooldown, whatever ends meanwhile. */
  lemma Quarantine(threshold: int, cooldown: int, run: seq<Event>, i: nat, j: nat)
    requires threshold >= 1 && Monotone(run) && i < j < |run| && run[i].Fail? && run[j].Ask?
    requires After(FRESH, threshold, cooldown, run, i + 1).state == Open && run[j].at < run[i].at + cooldown
    ensures !Admits(After(FRESH, threshold, cooldown, run, j), cooldown, run[j].at)
  {
    StaysOpen(threshold, cooldown, run, i, j);
    Transition(threshold, cooldown, run, j);
  }

  /** The circuit closes exactly when a success is recorded while it is half-open. */
  lemma ClosesWhen(threshold: int, cooldown: int, run: seq<Event>, n: nat)
    requires threshold >= 1 && n < |run| && After(FRESH, threshold, cooldown, run, n).state != Closed
    ensures After(FRESH, threshold, cooldown, run, n + 1).state == Closed
            <==> run[n].Succeed? && After(FRESH, threshold, cooldown, run, n).state == HalfOpen
  {
    Transition(threshold, cooldown, run, n);
  }

  /** Once a probe is admitted, nothing is until a completion is recorded. */
  lemma {:induction false} OneProbe(threshold: int, cooldown: int, run: seq<Event>, i: nat, j: nat)
    requires threshold >= 1 && i < j < |run| && run[i].Ask? && run[j].Ask?
    requires forall k :: i < k < j ==> run[k].Ask?
    requires var b := After(FRESH, threshold, cooldown, run, i); b.state != Closed && Admits(b, cooldown, run[i].at)
    ensures var b := After(FRESH, threshold, cooldown, run, j); b.state == HalfOpen && !Admits(b, cooldown, run[j].at)
    decreases j
  {
    HistoryDetermines(threshold, cooldown, run, i);
    if j > i + 1 { OneProbe(threshold, cooldown, run, i, j - 1); }
  }

  /** How many of the first `n` events are calls that are admitted. */
  function Admitted(threshold: int, cooldown: int, run: seq<Event>, n: nat): nat
    requires n <= |run|
  {
    if n == 0 then 0
    else
      var before := After(FRESH, threshold, cooldown, run, n - 1);
      Admitted(threshold, cooldown, run, n - 1)
      + if run[n - 1].Ask? && Admits(before, cooldown, run[n - 1].at) then 1 else 0
  }

  /** Event `i` opens the circuit, which does not close again before event `n`. */
  ghost predicate Outage(threshold: int, cooldown: int, run: seq<Event>, i: nat, n: nat) {
    && i < n <= |run| && After(FRESH, threshold, cooldown, run, i).state == Closed
    && forall k :: i < k <= n ==> After(FRESH, threshold, cooldown, run, k).state != Closed
  }

  lemma OneMoreCooldown(k: nat, cooldown: int)
    ensures (k + 1) * cooldown == k * cooldown + cooldown
  {
  }

  /** What holds in an outage: each admission moves the clock, or the last failure, by a cooldown. */
  lemma {:induction false} OutageInvariant(threshold: int, cooldown: nat, run: seq<Event>, i: nat, n: nat)
    requires threshold >= 1 && Monotone(run) && Outage(threshold, cooldown, run, i, n)
    ensures var b := After(FRESH, threshold, cooldown, run, n);
            var since := (Admitted(threshold, cooldown, run, n) - Admitted(threshold, cooldown, run, i + 1)) * cooldown;
            && Admitted(threshold, cooldown, run, n) >= Admitted(threshold, cooldown, run, i + 1)
            && b.lastFailureAt.Some? && b.lastFailureAt.value <= run[n - 1].at
            && run[i].at + since <= (if b.state == Open then b.lastFailureAt.value else run[n - 1].at)
    decreases n
  {
    HistoryDetermines(threshold, cooldown, run, n);
    if n > i + 1 {
      OutageInvariant(threshold, cooldown, run, i, n - 1);
      OneMoreCooldown(Admitted(threshold, cooldown, run, n - 1) - Admitted(threshold, cooldown, run, i + 1), cooldown);
      assert run[n - 2].at <= run[n - 1].at;
    }
  }

  /**
   * From the failure that opens the circuit until it closes or until some later time, with calls
   * ending in any order, those admitted before included, at most one call is admitted per cooldown.
   */
  lemma OutageBound(threshold: int, cooldown: nat, run: seq<Event>, i: nat, n: nat)
    requires threshold >= 1 && Monotone(run) && Outage(threshold, cooldown, run, i, n)
    ensures (Admitted(threshold, cooldown, run, n) - Admitted(threshold, cooldown, run, i + 1)) * cooldown
            <= run[n - 1].at - run[i].at
  {
    OutageInvariant(threshold, cooldown, run, i, n);
  }

  // ---- The bound is reached ----------------------------------------------------------------------

  /** As many calls as open the circuit start and fail at 0; then `k` probes fail, each as soon as it may. */
  function ProbeRun(threshold: nat, cooldown: nat, k: nat): (run: seq<Event>)
    ensures |run| == 2 * threshold + 2 * k
  {
    seq(2 * threshold + 2 * k, j requires 0 <= j < 2 * threshold + 2 * k =>
      if j < threshold then Ask(0)
      else if j < 2 * threshold then Fail(0)
      else
        var m := (j - 2 * threshold) / 2;
        var at := (m + 1) * cooldown;
        if j % 2 == 0 then Ask(at) else Fail(at))
  }

  lemma {:induction false} ProbeRunOpens(threshold: nat, cooldown: nat, k: nat, n: nat)
    requires n <= 2 * threshold && threshold >= 1
    ensures var run := ProbeRun(threshold, cooldown, k);
            var b := After(FRESH, threshold, cooldown, run, n);
            && !b.probeInProgress
            && b.consecutiveFailures == (if n <= threshold then 0 else n - threshold)
            && (b.state == if n < 2 * threshold then Closed else Open)
            && (n > threshold ==> b.lastFailureAt == Some(0))
            && Admitted(threshold, cooldown, run, n) == if n <= threshold then n else threshold
  {
    if n > 0 { ProbeRunOpens(threshold, cooldown, k, n - 1); }
  }

  lemma ProbeRunAt(threshold: nat, cooldown: nat, k: nat, m: nat)
    requires m < k
    ensures var run, n := ProbeRun(threshold, cooldown, k), 2 * threshold + 2 * m;
            run[n] == Ask((m + 1) * cooldown) && run[n + 1] == Fail((m + 1) * cooldown)
  {
  }

  /** A probe that is admitted a cooldown after the last failure, and fails. */
  lemma OneProbeFails(b: Breaker, threshold: int, cooldown: nat, t: int)
    requires b.state == Open && !b.probeInProgress && b.lastFailureAt == Some(t)
    ensures var b1 := Step(b, threshold, cooldown, Ask(t + cooldown));
            var b2 := Step(b1, threshold, cooldown, Fail(t + cooldown));
            && Admits(b, cooldown, t + cooldown) && b1.state == HalfOpen
            && b2.state == Open && !b2.probeInProgress && b2.lastFailureAt == Some(t + cooldown)
  {
  }

  /** What holds after `m` probes. */
  ghost predicate Probed(threshold: nat, cooldown: nat, run: seq<Event>, m: nat) {
    && 2 * threshold + 2 * m <= |run|
    && (var n := 2 * threshold + 2 * m;
        var b := After(FRESH, threshold, cooldown, run, n);
        && b.state == Open && !b.probeInProgress && b.lastFailureAt == Some(m * cooldown)
        && Admitted(threshold, cooldown, run, n) == threshold + m)
  }

  lemma ProbedMore(threshold: nat, cooldown: nat, run: seq<Event>, m: nat)
    requires 2 * threshold + 2 * m + 2 <= |run| && Probed(threshold, cooldown, run, m)
    requires var n := 2 * threshold + 2 * m; run[n] == Ask((m + 1) * cooldown) && run[n + 1] == Fail((m + 1) * cooldown)
    ensures Probed(threshold, cooldown, run, m + 1)
    ensures After(FRESH, threshold, cooldown, run, 2 * threshold + 2 * m + 1).state == HalfOpen
  {
    var n := 2 * threshold + 2 * m;
    OneMoreCooldown(m, cooldown);
    OneProbeFails(After(FRESH, threshold, cooldown, run, n), threshold, cooldown, m * cooldown);
    assert 2 * threshold + 2 * (m + 1) == n + 2;
  }

  lemma {:induction false} ProbeRunProbes(threshold: nat, cooldown: nat, k: nat, m: nat)
    requires m <= k && threshold >= 1
    ensures Probed(threshold, cooldown, ProbeRun(threshold, cooldown, k), m)
  {
    if m == 0 {
      ProbeRunOpens(threshold, cooldown, k, 2 * threshold);
    } else {
      ProbeRunProbes(threshold, cooldown, k, m - 1);
      ProbeRunAt(threshold, cooldown, k, m - 1);
      ProbedMore(threshold, cooldown, ProbeRun(threshold, cooldown, k), m - 1);
    }
  }

  lemma {:induction false} NeverCloses(threshold: nat, cooldown: nat, k: nat, j: nat)
    requires threshold >= 1 && 2 * threshold <= j <= 2 * threshold + 2 * k
    ensures After(FRESH, threshold, cooldown, ProbeRun(threshold, cooldown, k), j).state != Closed
  {
    var m := (j - 2 * threshold) / 2;
    ProbeRunProbes(threshold, cooldown, k, m);
    if j > 2 * threshold + 2 * m {
      ProbeRunAt(threshold, cooldown, k, m);
      ProbedMore(threshold, cooldown, ProbeRun(threshold, cooldown, k), m);
    }
  }

  lemma ProbeRunIsMonotone(threshold: nat, cooldown: nat, k: nat)
    ensures Monotone(ProbeRun(threshold, cooldown, k))
  {
    var run := ProbeRun(threshold, cooldown, k);
    forall a, b | 0 <= a <= b < |run| ensures run[a].at <= run[b].at {
      if b >= 2 * threshold {
        var p, q := if a < 2 * threshold then 0 else (a - 2 * threshold) / 2 + 1, (b - 2 * threshold) / 2 + 1;
        assert run[b].at == q * cooldown && run[a].at == p * cooldown;
        Scales(p, q, cooldown);
      }
    }
  }

  lemma Scales(a: nat, b: nat, cooldown: nat)
    requires a <= b
    ensures a * cooldown <= b * cooldown
  {
  }

  /** For every number of probes there is a run whose outage admits exactly one call per cooldown. */
  lemma {:induction false} BoundIsReached(threshold: nat, cooldown: nat, k: nat)
    requires threshold >= 1
    ensures var run := ProbeRun(threshold, cooldown, k);
            var i, n := 2 * threshold - 1, 2 * threshold + 2 * k;
            && Monotone(run) && Outage(threshold, cooldown, run, i, n)
            && Admitted(threshold, cooldown, run, n) - Admitted(threshold, cooldown, run, i + 1) == k
            && run[n - 1].at - run[i].at == k * cooldown
  {
    var run, i, n := ProbeRun(threshold, cooldown, k), 2 * threshold - 1, 2 * threshold + 2 * k;
    ProbeRunIsMonotone(threshold, cooldown, k);
    ProbeRunOpens(threshold, cooldown, k, i);
    ProbeRunOpens(threshold, cooldown, k, i + 1);
    ProbeRunProbes(threshold, cooldown, k, k);
    forall j | i < j <= n ensures After(FRESH, threshold, cooldown, run, j).state != Closed {
      NeverCloses(threshold, cooldown, k, j);
    }
    if k > 0 { ProbeRunAt(threshold, cooldown, k, k - 1); }
  }
}
