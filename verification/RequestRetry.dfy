/** The signed request: one loop of attempts, run inside the circuit breaker. */
module RequestRetry {
  import opened Text
  import opened Decimal
  import opened CircuitBreakers
  import opened Wrappers

  /** Reading the body of a response yields text or fails. */
  datatype Body = Readable(text: string) | Broken(message: string)

  /** What signing, sending and reading the response of one attempt come to. */
  datatype Attempt = SignFails(message: string) | FetchFails(message: string) | Answered(status: nat, body: Body)

  datatype Outcome = Returned(status: nat, body: string) | Threw(message: string)

  predicate IsNonRetryable(status: nat) {
    status == 401 || status == 403
  }

  predicate IsAuthFailure(message: string) {
    Includes(message, "HTTP 401") || Includes(message, "HTTP 403")
  }

  function StatusMessage(status: nat): string {
    "BrainCoreClient: " + ("HTTP " + Dec(status))
  }

  function AuthMessage(status: nat, text: string): string {
    StatusMessage(status) + (" \U{2014} " + text)
  }

  // ---- What the loop is to do --------------------------------------------------------------------

  /** How an attempt ends the request, or with which error it leaves the next one to be made. */
  datatype Ending = Final(outcome: Outcome) | Retry(error: string)

  function OfError(message: string): Ending {
    if IsAuthFailure(message) then Final(Threw(message)) else Retry(message)
  }

  function End(a: Attempt): Ending {
    match a
    case SignFails(m) => Final(Threw(m))
    case FetchFails(m) => OfError(m)
    case Answered(status, body) =>
      if status >= 500 then Retry(StatusMessage(status))
      else if body.Broken? then OfError(body.message)
      else if IsNonRetryable(status) then Final(Threw(AuthMessage(status, body.text)))
      else Final(Returned(status, body.text))
  }

  function Sends(a: Attempt): nat {
    if a.SignFails? then 0 else 1
  }

  /** Attempt `a` is the first that ends the request. */
  ghost predicate EndsAt(attempts: nat -> Attempt, a: nat) {
    End(attempts(a)).Final? && forall k: nat :: k < a ==> End(attempts(k)).Retry?
  }

  /** What the request comes to, and how many requests are sent for it. */
  ghost predicate Comes(attempts: nat -> Attempt, maxRetries: int, r: Outcome, sent: nat) {
    && (forall a: nat :: a <= maxRetries && EndsAt(attempts, a)
          ==> r == End(attempts(a)).outcome && sent == a + Sends(attempts(a)))
    && ((forall a: nat :: a <= maxRetries ==> End(attempts(a)).Retry?) ==>
          && sent == (if maxRetries < 0 then 0 else maxRetries + 1)
          && r == Threw(if maxRetries < 0 then "BrainCoreClient: request failed" else End(attempts(maxRetries)).error))
  }

  // ---- Which answer is returned ------------------------------------------------------------------

  /** An answer that is no error of the server and no refusal, and can be read. */
  predicate Accepted(a: Attempt) {
    a.Answered? && a.status < 500 && a.status != 401 && a.status != 403 && a.body.Readable?
  }

  /** A refusal: 401 or 403, or an error that speaks of one; and signing that fails. */
  predicate Refused(a: Attempt) {
    match a
    case SignFails(_) => true
    case FetchFails(m) => Includes(m, "HTTP 401") || Includes(m, "HTTP 403")
    case Answered(status, Readable(_)) => status == 401 || status == 403
    case Answered(status, Broken(m)) => status < 500 && (Includes(m, "HTTP 401") || Includes(m, "HTTP 403"))
  }

  /** Everything else is tried again: connections that fail, errors of the server, bodies that cannot be read. */
  lemma RetriedUnlessDecided(a: Attempt)
    ensures End(a).Retry? <==> !Accepted(a) && !Refused(a)
    ensures Accepted(a) ==> End(a) == Final(Returned(a.status, a.body.text))
    ensures Refused(a) ==> End(a).Final? && End(a).outcome.Threw?
    ensures !(Accepted(a) && Refused(a))
  {
  }

  /** Attempt `a` is accepted, and all before it are tried again. */
  ghost predicate AcceptedAt(attempts: nat -> Attempt, a: nat) {
    Accepted(attempts(a)) && forall k: nat :: k < a ==> !Accepted(attempts(k)) && !Refused(attempts(k))
  }

  /**
   * An answer is returned exactly if one is accepted before any refusal, within the attempts; then it is
   * that answer.
   */
  lemma ReturnedExactly(attempts: nat -> Attempt, maxRetries: int, r: Outcome, sent: nat)
    requires Comes(attempts, maxRetries, r, sent)
    ensures r.Returned? <==> exists a: nat :: a <= maxRetries && AcceptedAt(attempts, a)
    ensures forall a: nat :: a <= maxRetries && AcceptedAt(attempts, a)
              ==> r == Returned(attempts(a).status, attempts(a).body.text) && sent == a + 1
  {
    forall k: nat ensures End(attempts(k)).Retry? <==> !Accepted(attempts(k)) && !Refused(attempts(k)) {
      RetriedUnlessDecided(attempts(k));
    }
    forall a: nat | AcceptedAt(attempts, a) ensures EndsAt(attempts, a) && End(attempts(a)).outcome.Returned? {
      RetriedUnlessDecided(attempts(a));
    }
    if !(forall a: nat :: a <= maxRetries ==> End(attempts(a)).Retry?) {
      var a := FirstEnding(attempts, maxRetries);
      RetriedUnlessDecided(attempts(a));
      if r.Returned? { assert AcceptedAt(attempts, a); }
    }
  }

  lemma FirstEnding(attempts: nat -> Attempt, maxRetries: int) returns (a: nat)
    requires !(forall a: nat :: a <= maxRetries ==> End(attempts(a)).Retry?)
    ensures a <= maxRetries && EndsAt(attempts, a)
  {
    var b: nat :| b <= maxRetries && !End(attempts(b)).Retry?;
    a := 0;
    while End(attempts(a)).Retry?
      invariant a <= b && forall k: nat :: k < a ==> End(attempts(k)).Retry?
      decreases b - a
    {
      a := a + 1;
    }
  }

  lemma {:induction false} IncludesBehind(front: string, part: string, back: string)
    ensures Includes(front + (part + back), part)
    decreases |front|
  {
    var s := front + (part + back);
    if front == [] {
      assert s == part + back;
    } else {
      IncludesBehind(front[1..], part, back);
      assert s[1..] == front[1..] + (part + back);
    }
  }

  /** The message thrown for 401 and 403 is one that stops the loop. */
  lemma AuthMessageIsFound(status: nat, text: string)
    requires IsNonRetryable(status)
    ensures IsAuthFailure(AuthMessage(status, text))
  {
    assert Dec(4) == "4" && Dec(40) == "40" && Dec(401) == "401" && Dec(403) == "403";
    var part := "HTTP " + Dec(status);
    assert part == if status == 401 then "HTTP 401" else "HTTP 403";
    IncludesBehind("BrainCoreClient: ", part, " \U{2014} " + text);
    assert AuthMessage(status, text) == "BrainCoreClient: " + (part + (" \U{2014} " + text));
  }

  // ---- `signedRequestInner` ----------------------------------------------------------------------

  /** One attempt: the `try` block with its `catch`, and signing in front of it. */
  method MakeAttempt(met: Attempt) returns (e: Ending)
    ensures e == End(met)
  {
    var error: string;
    match met {
      case SignFails(m) => return Final(Threw(m));
      case FetchFails(m) => error := m;
      case Answered(status, body) =>
        if IsNonRetryable(status) {
          error := if body.Readable? then AuthMessage(status, body.text) else body.message;
          if body.Readable? { AuthMessageIsFound(status, body.text); }
        } else if status >= 500 {
          return Retry(StatusMessage(status));
        } else if body.Readable? {
          return Final(Returned(status, body.text));
        } else {
          error := body.message;
        }
    }
    if IsAuthFailure(error) { return Final(Threw(error)); }
    return Retry(error);
  }

  /** The HTTP path: `attempts(k)` is what attempt `k` meets. */
  method RequestWithRetry(attempts: nat -> Attempt, maxRetries: int) returns (r: Outcome, sent: nat)
    ensures (sent == 0 || sent <= maxRetries + 1) && Comes(attempts, maxRetries, r, sent)
  {
    var lastError: Option<string> := None;
    var attempt := 0;
    sent := 0;
    while attempt <= maxRetries
      invariant sent == attempt && (attempt == 0 || attempt <= maxRetries + 1)
      invariant forall k: nat :: k < attempt ==> End(attempts(k)).Retry?
      invariant lastError == if attempt == 0 then None else Some(End(attempts(attempt - 1)).error)
    {
      var met := attempts(attempt);
      sent := sent + Sends(met);
      var e := MakeAttempt(met);
      if e.Final? { return e.outcome, sent; }
      lastError := Some(e.error);
      attempt := attempt + 1;
    }
    r := Threw(if lastError.Some? then lastError.value else "BrainCoreClient: request failed");
  }

  /** The in-process path: one dispatch, whatever it answers. */
  method RequestInProcess(met: Attempt) returns (r: Outcome, sent: nat)
    requires met.Answered? ==> met.body.Readable?
    ensures sent == if met.SignFails? then 0 else 1
    ensures match met
            case SignFails(m) => r == Threw(m)
            case FetchFails(m) => r == Threw(m)
            case Answered(status, body) =>
              r == if IsNonRetryable(status) then Threw(AuthMessage(status, body.text)) else Returned(status, body.text)
  {
    match met {
      case SignFails(m) => return Threw(m), 0;
      case FetchFails(m) => return Threw(m), 1;
      case Answered(status, body) =>
        if IsNonRetryable(status) { return Threw(AuthMessage(status, body.text)), 1; }
        return Returned(status, body.text), 1;
    }
  }

  // ---- Requests in an outage ---------------------------------------------------------------------

  /** The requests that the calls admitted by the first `n` events send; `sent[j]` is what call `j` sends. */
  function Requests(threshold: int, cooldown: int, run: seq<Event>, sent: seq<nat>, n: nat): nat
    requires n <= |run| == |sent|
  {
    if n == 0 then 0
    else
      var before := After(FRESH, threshold, cooldown, run, n - 1);
      Requests(threshold, cooldown, run, sent, n - 1)
      + if run[n - 1].Ask? && Admits(before, cooldown, run[n - 1].at) then sent[n - 1] else 0
  }

  lemma {:induction false} RequestsPerCall(threshold: int, cooldown: int, run: seq<Event>, sent: seq<nat>, limit: nat,
                                           m: nat, n: nat)
    requires m <= n <= |run| == |sent| && forall j :: 0 <= j < |sent| ==> sent[j] <= limit
    ensures Admitted(threshold, cooldown, run, m) <= Admitted(threshold, cooldown, run, n)
    ensures Requests(threshold, cooldown, run, sent, n) - Requests(threshold, cooldown, run, sent, m)
            <= (Admitted(threshold, cooldown, run, n) - Admitted(threshold, cooldown, run, m)) * limit
    decreases n
  {
    if m < n {
      RequestsPerCall(threshold, cooldown, run, sent, limit, m, n - 1);
      OneMoreCooldown(Admitted(threshold, cooldown, run, n - 1) - Admitted(threshold, cooldown, run, m), limit);
    }
  }

  lemma Multiplied(a: int, k: nat, limit: nat, cooldown: nat, span: int)
    requires a <= k * limit && k * cooldown <= span
    ensures a * cooldown <= limit * span
  {
    assert a * cooldown <= (k * limit) * cooldown;
    assert (k * limit) * cooldown == limit * (k * cooldown);
    assert limit * (k * cooldown) <= limit * span;
  }

  /** In an outage the calls admitted send, per cooldown, at most the requests of one loop. */
  lemma OutageRequests(threshold: int, cooldown: nat, run: seq<Event>, sent: seq<nat>, maxRetries: int, i: nat, n: nat)
    requires threshold >= 1 && Monotone(run) && Outage(threshold, cooldown, run, i, n)
    requires |sent| == |run| && forall j :: 0 <= j < |sent| ==> sent[j] == 0 || sent[j] <= maxRetries + 1
    ensures (Requests(threshold, cooldown, run, sent, n) - Requests(threshold, cooldown, run, sent, i + 1)) * cooldown
            <= (if maxRetries < 0 then 0 else maxRetries + 1) * (run[n - 1].at - run[i].at)
  {
    var limit := if maxRetries < 0 then 0 else maxRetries + 1;
    RequestsPerCall(threshold, cooldown, run, sent, limit, i + 1, n);
    OutageBound(threshold, cooldown, run, i, n);
    Multiplied(Requests(threshold, cooldown, run, sent, n) - Requests(threshold, cooldown, run, sent, i + 1),
               Admitted(threshold, cooldown, run, n) - Admitted(threshold, cooldown, run, i + 1),
               limit, cooldown, run[n - 1].at - run[i].at);
  }
}
