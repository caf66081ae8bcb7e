/** The publisher's session: one login shared by concurrent callers, a cache, and invalidation. */
module PdsSession {
  import opened Wrappers

  /** `login` is the number of the login that brought the session. */
  datatype Session = Session(login: nat, createdAt: int, expiresAt: int)

  /**
   * Logins are numbered in the order in which they start. `flying` holds those whose request is under
   * way, `closing` those that have ended but whose `finally` has not run.
   */
  datatype State = State(
    session: Option<Session>, inFlight: Option<nat>,
    flying: set<nat>, closing: set<nat>, logins: nat, invalidations: nat)

  const START := State(None, None, {}, {}, 0, 0)

  datatype Event =
    | Ensure(now: int)
    | LoginSucceeds(login: nat, now: int)
    | LoginFails(login: nat)
    | Finally(login: nat)
    | Invalidate

  /** What a caller of `ensureSession` gets. */
  datatype Handed = Cached(session: Session) | Shared(login: nat) | Own(login: nat)

  predicate Enabled(s: State, e: Event) {
    match e
    case LoginSucceeds(k, _) => k in s.flying
    case LoginFails(k) => k in s.flying
    case Finally(k) => k in s.closing
    case _ => true
  }

  function Hand(s: State, now: int): Handed {
    if s.session.Some? && now < s.session.value.expiresAt then Cached(s.session.value)
    else if s.inFlight.Some? then Shared(s.inFlight.value)
    else Own(s.logins)
  }

  function Step(s: State, ttl: int, e: Event): State {
    if !Enabled(s, e) then s
    else
      match e
      case Ensure(now) =>
        if Hand(s, now).Own?
        then s.(inFlight := Some(s.logins), flying := s.flying + {s.logins}, logins := s.logins + 1)
        else s
      case LoginSucceeds(k, now) =>
        s.(session := Some(Session(k, now, now + ttl)), flying := s.flying - {k}, closing := s.closing + {k})
      case LoginFails(k) => s.(flying := s.flying - {k}, closing := s.closing + {k})
      case Finally(k) => s.(inFlight := None, closing := s.closing - {k})
      case Invalidate => s.(session := None, inFlight := None, invalidations := s.invalidations + 1)
  }

  function After(ttl: int, run: seq<Event>, n: nat): State
    requires n <= |run|
  {
    if n == 0 then START else Step(After(ttl, run, n - 1), ttl, run[n - 1])
  }

  class Publisher {
    var session: Option<Session>
    var inFlight: Option<nat>
    var logins: nat
    ghost var flying: set<nat>
    ghost var closing: set<nat>
    ghost var invalidations: nat
    const ttl: int

    constructor (ttl: int)
      requires ttl > 0
      ensures Value() == START && this.ttl == ttl
    {
      session, inFlight, logins := None, None, 0;
      flying, closing, invalidations := {}, {}, 0;
      this.ttl := ttl;
    }

    ghost function Value(): State
      reads this
    {
      State(session, inFlight, flying, closing, logins, invalidations)
    }

    /** `ensureSession` */
    method EnsureSession(now: int) returns (r: Handed)
      modifies this
      ensures r == Hand(old(Value()), now)
      ensures Value() == Step(old(Value()), ttl, Ensure(now))
    {
      if session.Some? && now < session.value.expiresAt { return Cached(session.value); }
      if inFlight.Some? { return Shared(inFlight.value); }
      r := Own(logins);
      inFlight := Some(logins);
      flying := flying + {logins};
      logins := logins + 1;
    }

    /** `createSession` behind its request; `answered` says whether that brought a session. */
    method LoginEnds(k: nat, answered: bool, now: int)
      requires k in flying
      modifies this
      ensures Value() == Step(old(Value()), ttl, if answered then LoginSucceeds(k, now) else LoginFails(k))
    {
      if answered { session := Some(Session(k, now, now + ttl)); }
      flying, closing := flying - {k}, closing + {k};
    }

    /** The callback that `ensureSession` chains to the login. */
    method Finally(k: nat)
      requires k in closing
      modifies this
      ensures Value() == Step(old(Value()), ttl, Event.Finally(k))
    {
      inFlight := None;
      closing := closing - {k};
    }

    /** `invalidateSession` */
    method InvalidateSession()
      modifies this
      ensures Value() == Step(old(Value()), ttl, Invalidate)
    {
      session, inFlight := None, None;
      invalidations := invalidations + 1;
    }

    /** What `post` does with the status it receives: only 401 drops the session. */
    method PostAnswered(status: nat) returns (ok: bool)
      modifies this
      ensures ok == (status == 200)
      ensures Value() == if status == 401 then Step(old(Value()), ttl, Invalidate) else old(Value())
    {
      if status != 200 {
        if status == 401 { InvalidateSession(); }
        return false;
      }
      return true;
    }
  }

  // ---- Logins in flight ----------------------------------------------------------------------------

  /** The logins not over that a new caller would not share. */
  function Orphans(s: State): set<nat> {
    s.flying + s.closing - SetOf(s.inFlight)
  }

  ghost predicate Inv(s: State) {
    && s.flying !! s.closing && (forall k :: k in s.flying + s.closing ==> k < s.logins)
    && SetOf(s.inFlight) <= s.flying + s.closing
    && |Orphans(s)| <= s.invalidations
  }

  lemma Fewer<T>(a: set<T>, b: set<T>)
    requires a <= b
    ensures |a| <= |b|
  {
    if a != {} {
      var x :| x in a;
      Fewer(a - {x}, b - {x});
    }
  }

  lemma OneMore(a: set<nat>, k: Option<nat>)
    ensures |a + SetOf(k)| <= |a| + 1
  {
    if k.None? { assert a + SetOf(k) == a; }
  }

  lemma OneLess(a: set<nat>, k: nat)
    requires k in a
    ensures |a - {k}| == |a| - 1
  {
  }

  lemma OneForAnother(a: set<nat>, b: set<nat>, k: nat, shared: Option<nat>)
    requires k in a && b == a - {k} + SetOf(shared)
    ensures |b| <= |a|
  {
    OneLess(a, k);
    OneMore(a - {k}, shared);
  }

  lemma OrphansOfFinally(flying: set<nat>, closing: set<nat>, shared: Option<nat>, k: nat)
    requires flying !! closing && k in closing && SetOf(shared) <= flying + closing
    ensures |flying + (closing - {k}) - SetOf(None)| <= |flying + closing - SetOf(shared)|
  {
    var all := flying + closing;
    assert flying + (closing - {k}) - SetOf(None) == all - {k};
    if shared != Some(k) {
      SharedInstead(all, shared, k);
      OneForAnother(all - SetOf(shared), all - {k}, k, shared);
    }
  }

  lemma SharedInstead(all: set<nat>, shared: Option<nat>, k: nat)
    requires k in all && SetOf(shared) <= all && shared != Some(k)
    ensures k in all - SetOf(shared) && all - {k} == all - SetOf(shared) - {k} + SetOf(shared)
  {
  }

  /** A `finally` removes an orphan before it makes one of the login shared now. */
  lemma FinallyKeepsInv(s: State, ttl: int, k: nat)
    requires Inv(s) && k in s.closing
    ensures Inv(Step(s, ttl, Finally(k)))
  {
    OrphansOfFinally(s.flying, s.closing, s.inFlight, k);
  }

  lemma InvalidateKeepsInv(s: State, ttl: int)
    requires Inv(s)
    ensures Inv(Step(s, ttl, Invalidate))
  {
    assert Orphans(Step(s, ttl, Invalidate)) == Orphans(s) + SetOf(s.inFlight);
    OneMore(Orphans(s), s.inFlight);
  }

  lemma EnsureKeepsInv(s: State, ttl: int, now: int)
    requires Inv(s)
    ensures Inv(Step(s, ttl, Ensure(now)))
  {
    if Hand(s, now).Own? {
      assert SetOf(s.inFlight) == {};
      var s' := s.(inFlight := Some(s.logins), flying := s.flying + {s.logins}, logins := s.logins + 1);
      assert Step(s, ttl, Ensure(now)) == s' && Orphans(s') == Orphans(s);
    } else {
      assert Step(s, ttl, Ensure(now)) == s;
    }
  }

  lemma EndKeepsInv(s: State, ttl: int, e: Event)
    requires Inv(s) && (e.LoginSucceeds? || e.LoginFails?) && e.login in s.flying
    ensures Inv(Step(s, ttl, e))
  {
    var s' := Step(s, ttl, e);
    assert s'.flying + s'.closing == s.flying + s.closing;
  }

  lemma StepKeepsInv(s: State, ttl: int, e: Event)
    requires Inv(s)
    ensures Inv(Step(s, ttl, e))
  {
    if Enabled(s, e) {
      match e
      case Ensure(now) => EnsureKeepsInv(s, ttl, now);
      case LoginSucceeds(_, _) => EndKeepsInv(s, ttl, e);
      case LoginFails(_) => EndKeepsInv(s, ttl, e);
      case Finally(k) => FinallyKeepsInv(s, ttl, k);
      case Invalidate => InvalidateKeepsInv(s, ttl);
    }
  }

  lemma {:induction false} RunKeepsInv(ttl: int, run: seq<Event>, n: nat)
    requires n <= |run|
    ensures Inv(After(ttl, run, n))
  {
    if n > 0 {
      RunKeepsInv(ttl, run, n - 1);
      StepKeepsInv(After(ttl, run, n - 1), ttl, run[n - 1]);
    }
  }

  /** The logins in flight never exceed one more than the invalidations so far. */
  lemma {:induction false} LoginsInFlight(ttl: int, run: seq<Event>, n: nat)
    requires n <= |run|
    ensures var s := After(ttl, run, n); |s.flying| <= 1 + s.invalidations
  {
    RunKeepsInv(ttl, run, n);
    var s := After(ttl, run, n);
    assert s.flying <= Orphans(s) + SetOf(s.inFlight);
    Fewer(s.flying, Orphans(s) + SetOf(s.inFlight));
  }

  function Invalidations(run: seq<Event>, n: nat): nat
    requires n <= |run|
  {
    if n == 0 then 0 else Invalidations(run, n - 1) + if run[n - 1].Invalidate? then 1 else 0
  }

  lemma {:induction false} InvalidationsAreCounted(ttl: int, run: seq<Event>, n: nat)
    requires n <= |run|
    ensures After(ttl, run, n).invalidations == Invalidations(run, n)
  {
    if n > 0 { InvalidationsAreCounted(ttl, run, n - 1); }
  }

  /** Without invalidation, the login is single. */
  lemma {:induction false} SingleFlight(ttl: int, run: seq<Event>, n: nat)
    requires n <= |run| && forall k :: 0 <= k < n ==> !run[k].Invalidate?
    ensures |After(ttl, run, n).flying| <= 1
  {
    LoginsInFlight(ttl, run, n);
    InvalidationsAreCounted(ttl, run, n);
    NoInvalidations(run, n);
  }

  lemma {:induction false} NoInvalidations(run: seq<Event>, n: nat)
    requires n <= |run| && forall k :: 0 <= k < n ==> !run[k].Invalidate?
    ensures Invalidations(run, n) == 0
  {
    if n > 0 { NoInvalidations(run, n - 1); }
  }

  /** A caller, and then `m` times an invalidation and a caller. */
  function Restless(m: nat): (run: seq<Event>)
    ensures |run| == 2 * m + 1
  {
    seq(2 * m + 1, i requires 0 <= i < 2 * m + 1 => if i % 2 == 0 then Ensure(0) else Invalidate)
  }

  /** Invalidated and asked again, one more login starts. */
  lemma RestlessStep(ttl: int, s: State)
    requires s.session.None? && forall j :: j in s.flying ==> j < s.logins
    ensures var s' := Step(Step(s, ttl, Invalidate), ttl, Ensure(0));
            && s'.session.None? && s'.invalidations == s.invalidations + 1 && s'.logins == s.logins + 1
            && |s'.flying| == |s.flying| + 1 && forall j :: j in s'.flying ==> j < s'.logins
  {
    assert s.logins !in s.flying;
  }

  lemma {:induction false} RestlessState(ttl: int, m: nat, k: nat)
    requires k <= m
    ensures var s := After(ttl, Restless(m), 2 * k + 1);
            && s.session.None? && s.invalidations == k && s.logins == k + 1 && |s.flying| == k + 1
            && forall j :: j in s.flying ==> j < s.logins
  {
    var run := Restless(m);
    if k > 0 {
      RestlessState(ttl, m, k - 1);
      var s := After(ttl, run, 2 * k - 1);
      assert run[2 * k - 1] == Invalidate && run[2 * k] == Ensure(0);
      assert After(ttl, run, 2 * k) == Step(s, ttl, Invalidate);
      RestlessStep(ttl, s);
    } else {
      assert run[0] == Ensure(0) && After(ttl, run, 1) == Step(After(ttl, run, 0), ttl, Ensure(0));
    }
  }

  /** The bound is reached, for every number of invalidations. */
  lemma BoundIsReached(ttl: int, m: nat)
    ensures var s := After(ttl, Restless(m), 2 * m + 1); s.invalidations == m && |s.flying| == 1 + m
  {
    RestlessState(ttl, m, m);
  }

  // ---- The cache -----------------------------------------------------------------------------------

  lemma {:induction false} SessionIsOfLogin(ttl: int, run: seq<Event>, n: nat)
    requires n <= |run| && After(ttl, run, n).session.Some?
    ensures var x := After(ttl, run, n).session.value;
            && x.expiresAt == x.createdAt + ttl
            && (exists k :: 0 <= k < n && run[k] == LoginSucceeds(x.login, x.createdAt))
  {
    if n > 0 && After(ttl, run, n).session == After(ttl, run, n - 1).session {
      SessionIsOfLogin(ttl, run, n - 1);
    }
  }

  /** A session from the cache has not expired; it stems from a login that succeeded less than its time to live ago. */
  lemma {:induction false} CachedIsFresh(ttl: int, run: seq<Event>, n: nat)
    requires n < |run| && run[n].Ensure? && Hand(After(ttl, run, n), run[n].now).Cached?
    ensures var x := Hand(After(ttl, run, n), run[n].now).session;
            && run[n].now < x.expiresAt == x.createdAt + ttl
            && exists k :: 0 <= k < n && run[k] == LoginSucceeds(x.login, x.createdAt)
  {
    SessionIsOfLogin(ttl, run, n);
  }

  /** No event from `m` to `n` drops the session or brings another. */
  ghost predicate Undisturbed(ttl: int, run: seq<Event>, m: nat, n: nat)
    requires m <= n <= |run|
  {
    forall j :: m <= j < n ==>
      run[j] != Invalidate && !(run[j].LoginSucceeds? && Enabled(After(ttl, run, j), run[j]))
  }

  lemma {:induction false} SessionStays(ttl: int, run: seq<Event>, m: nat, n: nat)
    requires m < n <= |run| && run[m].LoginSucceeds? && run[m].login in After(ttl, run, m).flying
    requires Undisturbed(ttl, run, m + 1, n)
    ensures After(ttl, run, n).session == Some(Session(run[m].login, run[m].now, run[m].now + ttl))
    decreases n
  {
    if n > m + 1 { SessionStays(ttl, run, m, n - 1); }
  }

  /** A session is served from the cache until it expires, unless it is invalidated or another login succeeds. */
  lemma {:induction false} CachedUntilExpiry(ttl: int, run: seq<Event>, m: nat, n: nat, now: int)
    requires m < n <= |run| && run[m].LoginSucceeds? && run[m].login in After(ttl, run, m).flying
    requires Undisturbed(ttl, run, m + 1, n)
    ensures Hand(After(ttl, run, n), now) == Cached(Session(run[m].login, run[m].now, run[m].now + ttl))
            <==> now < run[m].now + ttl
  {
    SessionStays(ttl, run, m, n);
  }

  /** The event ends the sharing of a login. */
  predicate EndsSharing(s: State, e: Event) {
    e == Invalidate || (e.Finally? && Enabled(s, e))
  }

  /** Who starts a login shares it with all callers until a callback runs or the session is invalidated. */
  lemma {:induction false} SharedUntilOver(ttl: int, run: seq<Event>, m: nat, n: nat, now: int)
    requires m < n <= |run| && run[m].Ensure? && Hand(After(ttl, run, m), run[m].now).Own?
    requires forall j :: m < j < n ==> !EndsSharing(After(ttl, run, j), run[j])
    ensures var k, s := Hand(After(ttl, run, m), run[m].now).login, After(ttl, run, n);
            && s.inFlight == Some(k)
            && Hand(s, now) == if s.session.Some? && now < s.session.value.expiresAt then Cached(s.session.value)
               else Shared(k)
    decreases n
  {
    if n > m + 1 { SharedUntilOver(ttl, run, m, n - 1, now); }
  }

  /** After that the next caller without a session starts a login of its own. */
  lemma {:induction false} OwnAfterwards(ttl: int, run: seq<Event>, m: nat, n: nat, now: int)
    requires m < n <= |run| && EndsSharing(After(ttl, run, m), run[m])
    requires forall j :: m < j < n && run[j].Ensure? ==> !Hand(After(ttl, run, j), run[j].now).Own?
    ensures var s := After(ttl, run, n);
            && s.inFlight == None
            && (Hand(s, now).Own? <==> !(s.session.Some? && now < s.session.value.expiresAt))
    decreases n
  {
    if n > m + 1 { OwnAfterwards(ttl, run, m, n - 1, now); }
  }

  /** A caller that shares a login shares one that is not over. */
  lemma {:induction false} SharedIsNotOver(ttl: int, run: seq<Event>, n: nat)
    requires n < |run| && run[n].Ensure? && Hand(After(ttl, run, n), run[n].now).Shared?
    ensures var s := After(ttl, run, n); Hand(s, run[n].now).login in s.flying + s.closing
  {
    RunKeepsInv(ttl, run, n);
  }

  // ---- Invalidation ----------------------------------------------------------------------------------

  function LoginOf(h: Handed): nat {
    match h
    case Cached(x) => x.login
    case Shared(k) => k
    case Own(k) => k
  }

  /** What is left, behind an invalidation, of the logins that started before it. */
  lemma {:induction false} OnlyFlyingReturns(ttl: int, run: seq<Event>, m: nat, n: nat)
    requires m < n <= |run| && run[m] == Invalidate
    ensures var s, s' := After(ttl, run, m), After(ttl, run, n);
            && s.logins <= s'.logins && (forall k :: k in s'.flying && k < s.logins ==> k in s.flying)
            && (s'.inFlight.Some? ==> s.logins <= s'.inFlight.value)
            && (s'.session.Some? && s'.session.value.login < s.logins ==> s'.session.value.login in s.flying)
    decreases n
  {
    if n > m + 1 { OnlyFlyingReturns(ttl, run, m, n - 1); }
  }

  /**
   * What is handed out behind an invalidation is of an earlier login exactly if that is cached and was
   * in flight at the time.
   */
  lemma {:induction false} EarlierIffInFlight(ttl: int, run: seq<Event>, m: nat, n: nat, now: int)
    requires m < n <= |run| && run[m] == Invalidate
    ensures var s, h := After(ttl, run, m), Hand(After(ttl, run, n), now);
            LoginOf(h) < s.logins <==> h.Cached? && LoginOf(h) in s.flying
  {
    OnlyFlyingReturns(ttl, run, m, n);
    RunKeepsInv(ttl, run, m);
  }

  lemma {:induction false} SamePrefix(ttl: int, run: seq<Event>, run': seq<Event>, n: nat)
    requires n <= |run| && n <= |run'| && run[..n] == run'[..n]
    ensures After(ttl, run, n) == After(ttl, run', n)
  {
    if n > 0 {
      assert run[n - 1] == run[..n][n - 1] == run'[n - 1];
      assert run[..n - 1] == run[..n][..n - 1] == run'[..n - 1];
      SamePrefix(ttl, run, run', n - 1);
    }
  }

  /** However the run goes on, all that is handed out is of logins that start behind event `m`. */
  ghost predicate FreshFrom(ttl: int, run: seq<Event>, m: nat)
    requires m < |run|
  {
    forall run': seq<Event>, n: nat, now: int :: m < n <= |run'| && run'[..m + 1] == run[..m + 1]
      ==> LoginOf(Hand(After(ttl, run', n), now)) >= After(ttl, run, m).logins
  }

  /** A login in flight comes back: if it succeeds next, the next caller gets its session. */
  lemma InFlightComesBack(ttl: int, run: seq<Event>, m: nat, k: nat, now: int) returns (run': seq<Event>)
    requires ttl > 0 && m < |run| && run[m] == Invalidate && k in After(ttl, run, m).flying
    ensures run' == run[..m + 1] + [LoginSucceeds(k, now)]
    ensures Hand(After(ttl, run', m + 2), now) == Cached(Session(k, now, now + ttl)) && k < After(ttl, run, m).logins
  {
    run' := run[..m + 1] + [LoginSucceeds(k, now)];
    assert run'[..m + 1] == run[..m + 1];
    SamePrefix(ttl, run, run', m + 1);
    RunKeepsInv(ttl, run, m);
    assert After(ttl, run', m + 2) == Step(After(ttl, run', m + 1), ttl, LoginSucceeds(k, now));
    assert After(ttl, run, m + 1) == Step(After(ttl, run, m), ttl, Invalidate);
  }

  /** An invalidation forces a new login on all later callers if and only if no login is in flight. */
  lemma {:induction false} InvalidationForcesLogin(ttl: int, run: seq<Event>, m: nat)
    requires ttl > 0 && m < |run| && run[m] == Invalidate
    ensures FreshFrom(ttl, run, m) <==> After(ttl, run, m).flying == {}
  {
    var s := After(ttl, run, m);
    if s.flying == {} {
      forall run': seq<Event>, n: nat, now: int | m < n <= |run'| && run'[..m + 1] == run[..m + 1]
        ensures LoginOf(Hand(After(ttl, run', n), now)) >= s.logins
      {
        assert run'[m] == run'[..m + 1][m] == run[m];
        assert run'[..m] == run'[..m + 1][..m] == run[..m];
        SamePrefix(ttl, run, run', m);
        EarlierIffInFlight(ttl, run', m, n, now);
      }
    } else {
      var k :| k in s.flying;
      var run' := InFlightComesBack(ttl, run, m, k, 0);
      assert run'[..m + 1] == run[..m + 1] && |run'| == m + 2;
      assert LoginOf(Hand(After(ttl, run', m + 2), 0)) == k;
    }
  }

  /** An invalidation does not reach a login under way: its session is cached and handed out afterwards. */
  lemma {:induction false} InvalidatedLoginIsCached(ttl: int)
    requires ttl > 0
    ensures var run := [Ensure(0), Invalidate, LoginSucceeds(0, 0), Ensure(0)];
            Hand(After(ttl, run, 3), 0) == Cached(Session(0, 0, ttl))
  {
    var run := [Ensure(0), Invalidate, LoginSucceeds(0, 0), Ensure(0)];
    assert After(ttl, run, 1) == State(None, Some(0), {0}, {}, 1, 0);
    assert After(ttl, run, 2) == State(None, None, {0}, {}, 1, 1);
  }
}
