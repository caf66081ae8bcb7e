/** Proposals for risky actions: pending until approved, rejected or expired, with an audit trail of every change. */
module ActionRisk {
  import opened Sequences
  import opened Wrappers

  datatype Risk = Low | Medium | High | Critical

  datatype Status = Pending | Approved | Rejected | Expired

  /** The value of a proposal. */
  datatype Snapshot = Snapshot(action: string, risk: Risk, expiresAt: int, status: Status, resolvedAt: Option<int>)

  datatype Entry = Entry(id: nat, action: string, risk: Risk, status: Status, timestamp: int)

  /** `ids` are in the order in which the proposals were stored. */
  datatype State = State(ids: seq<nat>, proposals: map<nat, Snapshot>, audit: seq<Entry>)

  const START := State([], map[], [])

  const PROPOSAL_TTL_MS := 30 * 60 * 1000

  // ---- One call ----------------------------------------------------------------------------------

  /** `clock` is what the audit trail reads; it need not be the time a caller passes. */
  function WithStatus(s: State, id: nat, status: Status, resolvedAt: Option<int>, clock: int): State
    requires id in s.proposals
  {
    var p := s.proposals[id];
    s.(proposals := s.proposals[id := p.(status := status, resolvedAt := resolvedAt)],
       audit := s.audit + [Entry(id, p.action, p.risk, status, clock)])
  }

  function Created(s: State, id: nat, action: string, risk: Risk, now: int, clock: int): State {
    State(if id in s.proposals then s.ids else s.ids + [id],
          s.proposals[id := Snapshot(action, risk, now + PROPOSAL_TTL_MS, Pending, None)],
          s.audit + [Entry(id, action, risk, Pending, clock)])
  }

  predicate CanApprove(s: State, id: nat, now: int) {
    id in s.proposals && s.proposals[id].status == Pending && now <= s.proposals[id].expiresAt
  }

  function AfterApprove(s: State, id: nat, now: int, clock: int): State {
    if id !in s.proposals || s.proposals[id].status != Pending then s
    else if now > s.proposals[id].expiresAt then WithStatus(s, id, Expired, s.proposals[id].resolvedAt, clock)
    else WithStatus(s, id, Approved, Some(now), clock)
  }

  predicate CanReject(s: State, id: nat) {
    id in s.proposals && s.proposals[id].status == Pending
  }

  function AfterReject(s: State, id: nat, now: int, clock: int): State {
    if CanReject(s, id) then WithStatus(s, id, Rejected, Some(now), clock) else s
  }

  predicate IsApproved(s: State, id: nat, now: int) {
    id in s.proposals && s.proposals[id].status == Approved && now <= s.proposals[id].expiresAt
  }

  function AfterQuery(s: State, id: nat, now: int, clock: int): State {
    if id in s.proposals && s.proposals[id].status == Approved && now > s.proposals[id].expiresAt
    then WithStatus(s, id, Expired, s.proposals[id].resolvedAt, clock) else s
  }

  function PendingOf(s: State, ids: seq<nat>, now: int): seq<nat> {
    if ids == [] then [] else (if CanApprove(s, ids[0], now) then [ids[0]] else []) + PendingOf(s, ids[1..], now)
  }

  // ---- The module, with proposals that are changed in place ----------------------------------------

  lemma {:induction false} PendingStep(s: State, ids: seq<nat>, k: nat, now: int)
    requires k < |ids|
    ensures PendingOf(s, ids[k..], now)
            == if CanApprove(s, ids[k], now) then [ids[k]] + PendingOf(s, ids[k + 1..], now)
               else PendingOf(s, ids[k + 1..], now)
  {
    assert ids[k..][0] == ids[k] && ids[k..][1..] == ids[k + 1..];
  }

  class Proposal {
    const action: string
    const risk: Risk
    const expiresAt: int
    var status: Status
    var resolvedAt: Option<int>

    constructor (action: string, risk: Risk, now: int)
      ensures Value() == Snapshot(action, risk, now + PROPOSAL_TTL_MS, Pending, None)
    {
      this.action, this.risk, this.expiresAt := action, risk, now + PROPOSAL_TTL_MS;
      status, resolvedAt := Pending, None;
    }

    function Value(): Snapshot
      reads this
    {
      Snapshot(action, risk, expiresAt, status, resolvedAt)
    }
  }

  class Policy {
    var ids: seq<nat>
    var proposals: map<nat, Proposal>
    var audit: seq<Entry>

    constructor ()
      ensures Valid() && Value() == START
    {
      ids, proposals, audit := [], map[], [];
    }

    ghost function Stored(): set<Proposal>
      reads this
    {
      set id | id in proposals :: proposals[id]
    }

    /** No proposal is stored twice. */
    ghost predicate Valid()
      reads this
    {
      forall a, b :: a in proposals && b in proposals && proposals[a] == proposals[b] ==> a == b
    }

    ghost function Value(): State
      reads this, Stored()
    {
      State(ids, map id | id in proposals :: proposals[id].Value(), audit)
    }

    /** `recordAudit` */
    method RecordAudit(id: nat, action: string, risk: Risk, status: Status, clock: int)
      modifies this`audit
      ensures audit == old(audit) + [Entry(id, action, risk, status, clock)]
    {
      audit := audit + [Entry(id, action, risk, status, clock)];
    }

    /** `createProposal`; the id is random, and the risk is what `assessRisk` says. */
    method CreateProposal(id: nat, action: string, risk: Risk, now: int, clock: int) returns (p: Proposal)
      requires Valid()
      modifies this
      ensures Valid() && fresh(p) && id in proposals && proposals[id] == p
      ensures Value() == Created(old(Value()), id, action, risk, now, clock)
    {
      p := new Proposal(action, risk, now);
      if id !in proposals { ids := ids + [id]; }
      proposals := proposals[id := p];
      RecordAudit(id, action, risk, Pending, clock);
    }

    /** `approveProposal` */
    method ApproveProposal(id: nat, now: int, clock: int) returns (approved: bool)
      requires Valid()
      modifies this`audit, Stored()
      ensures Valid() && approved == CanApprove(old(Value()), id, now)
      ensures Value() == AfterApprove(old(Value()), id, now, clock)
    {
      if id !in proposals { return false; }
      var p := proposals[id];
      if p.status != Pending { return false; }
      if now > p.expiresAt {
        p.status := Expired;
        RecordAudit(id, p.action, p.risk, Expired, clock);
        return false;
      }
      p.status := Approved;
      p.resolvedAt := Some(now);
      RecordAudit(id, p.action, p.risk, Approved, clock);
      return true;
    }

    /** `rejectProposal` */
    method RejectProposal(id: nat, now: int, clock: int) returns (rejected: bool)
      requires Valid()
      modifies this`audit, Stored()
      ensures Valid() && rejected == CanReject(old(Value()), id)
      ensures Value() == AfterReject(old(Value()), id, now, clock)
    {
      if id !in proposals || proposals[id].status != Pending { return false; }
      var p := proposals[id];
      p.status := Rejected;
      p.resolvedAt := Some(now);
      RecordAudit(id, p.action, p.risk, Rejected, clock);
      return true;
    }

    /** `isApproved`, which records an expiry it notices. */
    method QueryApproved(id: nat, now: int, clock: int) returns (approved: bool)
      requires Valid()
      modifies this`audit, Stored()
      ensures Valid() && approved == IsApproved(old(Value()), id, now)
      ensures Value() == AfterQuery(old(Value()), id, now, clock)
    {
      if id !in proposals { return false; }
      var p := proposals[id];
      if p.status != Approved { return false; }
      if now > p.expiresAt {
        p.status := Expired;
        RecordAudit(id, p.action, p.risk, Expired, clock);
        return false;
      }
      return true;
    }

    /** `listPendingProposals`, which changes nothing. */
    method ListPending(now: int) returns (pending: seq<nat>)
      ensures pending == PendingOf(Value(), ids, now)
    {
      ghost var s := Value();
      pending := [];
      assert ids[0..] == ids;
      for k := 0 to |ids|
        invariant pending + PendingOf(s, ids[k..], now) == PendingOf(s, ids, now)
      {
        PendingStep(s, ids, k, now);
        Regroup(pending, [ids[k]], PendingOf(s, ids[k + 1..], now));
        assert (ids[k] in proposals) == (ids[k] in s.proposals);
        if ids[k] in proposals && proposals[ids[k]].status == Pending && now <= proposals[ids[k]].expiresAt {
          pending := pending + [ids[k]];
        }
      }
      assert ids[|ids|..] == [] && s == Value();
    }
  }

  // ---- Whole runs --------------------------------------------------------------------------------

  datatype Event =
    | Create(id: nat, action: string, risk: Risk, now: int, clock: int)
    | Approve(id: nat, now: int, clock: int)
    | Reject(id: nat, now: int, clock: int)
    | Query(id: nat, now: int, clock: int)

  function Step(s: State, e: Event): State {
    match e
    case Create(id, action, risk, now, clock) => Created(s, id, action, risk, now, clock)
    case Approve(id, now, clock) => AfterApprove(s, id, now, clock)
    case Reject(id, now, clock) => AfterReject(s, id, now, clock)
    case Query(id, now, clock) => AfterQuery(s, id, now, clock)
  }

  function After(run: seq<Event>, n: nat): State
    requires n <= |run|
  {
    if n == 0 then START else Step(After(run, n - 1), run[n - 1])
  }

  /** Ids are random: no two proposals get the same. */
  predicate FreshIds(run: seq<Event>) {
    forall i, j :: 0 <= i < j < |run| && run[i].Create? && run[j].Create? ==> run[i].id != run[j].id
  }

  /** The statuses the audit trail records of one proposal. */
  function History(audit: seq<Entry>, id: nat): seq<Status> {
    if audit == [] then []
    else
      var last := audit[|audit| - 1];
      History(audit[..|audit| - 1], id) + if last.id == id then [last.status] else []
  }

  lemma {:induction false} HistoryGrows(audit: seq<Entry>, e: Entry, id: nat)
    ensures History(audit + [e], id) == History(audit, id) + if e.id == id then [e.status] else []
  {
    assert (audit + [e])[..|audit|] == audit;
  }

  /** Pending; then approved, rejected or expired; and after an approval expired, at most. */
  predicate IsLife(h: seq<Status>) {
    && 1 <= |h| <= 3 && h[0] == Pending && (|h| > 1 ==> h[1] != Pending)
    && (|h| == 3 ==> h[1] == Approved && h[2] == Expired)
  }

  /** What the audit trail says of a proposal: one of five histories, and the last of it is the status. */
  ghost predicate Replays(s: State, id: nat) {
    var h := History(s.audit, id);
    if id in s.proposals then IsLife(h) && h[|h| - 1] == s.proposals[id].status else h == []
  }

  lemma {:induction false} StepReplays(s: State, e: Event, id: nat)
    requires Replays(s, id) && (e.Create? ==> e.id !in s.proposals)
             && (e.Create? && e.id == id ==> History(s.audit, id) == [])
    ensures Replays(Step(s, e), id)
  {
    var s' := Step(s, e);
    if |s'.audit| > |s.audit| {
      var entry := s'.audit[|s.audit|];
      assert s'.audit == s.audit + [entry];
      HistoryGrows(s.audit, entry, id);
    }
  }

  lemma {:induction false} CreatedBefore(run: seq<Event>, n: nat, id: nat)
    requires n <= |run| && id in After(run, n).proposals
    ensures exists i :: 0 <= i < n && run[i].Create? && run[i].id == id
  {
    if id in After(run, n - 1).proposals {
      CreatedBefore(run, n - 1, id);
    } else {
      assert run[n - 1].Create? && run[n - 1].id == id;
    }
  }

  lemma {:induction false} CreateIsFresh(run: seq<Event>, n: nat)
    requires n < |run| && FreshIds(run) && run[n].Create?
    ensures run[n].id !in After(run, n).proposals
  {
    if run[n].id in After(run, n).proposals { CreatedBefore(run, n, run[n].id); }
  }

  /** In every run, replaying the audit trail yields the status of every proposal. */
  lemma {:induction false} AuditReplays(run: seq<Event>, n: nat, id: nat)
    requires n <= |run| && FreshIds(run)
    ensures Replays(After(run, n), id)
  {
    if n > 0 {
      AuditReplays(run, n - 1, id);
      if run[n - 1].Create? {
        CreateIsFresh(run, n - 1);
        AuditReplays(run, n - 1, run[n - 1].id);
      }
      StepReplays(After(run, n - 1), run[n - 1], id);
    }
  }

  // ---- Approval ----------------------------------------------------------------------------------

  /** Event `i` approves the proposal, in time. */
  predicate ApprovedAt(run: seq<Event>, i: nat, id: nat) {
    i < |run| && run[i].Approve? && run[i].id == id && CanApprove(After(run, i), id, run[i].now)
  }

  /** An approved proposal was approved by some event, not later than it expires. */
  lemma {:induction false} ApprovalHappened(run: seq<Event>, n: nat, id: nat)
    requires n <= |run| && FreshIds(run) && id in After(run, n).proposals
             && After(run, n).proposals[id].status == Approved
    ensures exists i: nat :: i < n && ApprovedAt(run, i, id) && run[i].now <= After(run, n).proposals[id].expiresAt
                             && After(run, n).proposals[id].resolvedAt == Some(run[i].now)
  {
    var s, e := After(run, n - 1), run[n - 1];
    if e.Create? { CreateIsFresh(run, n - 1); }
    if id in s.proposals && s.proposals[id].status == Approved {
      ApprovalHappened(run, n - 1, id);
    } else {
      assert ApprovedAt(run, n - 1, id);
    }
  }

  lemma LifeOfApproved(h: seq<Status>)
    requires IsLife(h) && h[|h| - 1] == Approved
    ensures h == [Pending, Approved]
  {
  }

  /**
   * A proposal found approved was approved not later than it expires, is asked about not later than
   * that, and has neither been rejected nor been recorded as expired.
   */
  lemma {:induction false} ApprovedMeans(run: seq<Event>, n: nat, id: nat, now: int)
    requires n <= |run| && FreshIds(run) && IsApproved(After(run, n), id, now)
    ensures now <= After(run, n).proposals[id].expiresAt
    ensures exists i: nat :: i < n && ApprovedAt(run, i, id) && run[i].now <= After(run, n).proposals[id].expiresAt
    ensures History(After(run, n).audit, id) == [Pending, Approved]
  {
    ApprovalHappened(run, n, id);
    AuditReplays(run, n, id);
    LifeOfApproved(History(After(run, n).audit, id));
  }

  /** Rejected and expired proposals stay so. */
  lemma {:induction false} ResolvedStays(run: seq<Event>, m: nat, n: nat, id: nat)
    requires m <= n <= |run| && FreshIds(run) && id in After(run, m).proposals
    requires After(run, m).proposals[id].status in [Rejected, Expired]
    ensures id in After(run, n).proposals && After(run, n).proposals[id] == After(run, m).proposals[id]
    decreases n
  {
    if m < n {
      ResolvedStays(run, m, n - 1, id);
      if run[n - 1].Create? { CreateIsFresh(run, n - 1); }
    }
  }

  lemma LifeOfExpired(h: seq<Status>)
    requires IsLife(h) && Expired in h
    ensures h[|h| - 1] == Expired
  {
  }

  /** Once recorded as expired, a proposal is never again found approved, and cannot be approved, at any time. */
  lemma {:induction false} ExpiredIsFinal(run: seq<Event>, m: nat, n: nat, id: nat, now: int)
    requires m <= n <= |run| && FreshIds(run) && id in After(run, m).proposals
    requires Expired in History(After(run, m).audit, id)
    ensures !IsApproved(After(run, n), id, now) && !CanApprove(After(run, n), id, now) && !CanReject(After(run, n), id)
  {
    AuditReplays(run, m, id);
    LifeOfExpired(History(After(run, m).audit, id));
    ResolvedStays(run, m, n, id);
  }

  // ---- Pending proposals -------------------------------------------------------------------------

  lemma {:induction false} PendingOfIs(s: State, ids: seq<nat>, now: int, id: nat)
    ensures id in PendingOf(s, ids, now) <==> id in ids && CanApprove(s, id, now)
  {
    if ids != [] { PendingOfIs(s, ids[1..], now, id); }
  }

  lemma {:induction false} IdsAreStored(run: seq<Event>, n: nat, id: nat)
    requires n <= |run|
    ensures id in After(run, n).ids <==> id in After(run, n).proposals
  {
    if n > 0 { IdsAreStored(run, n - 1, id); }
  }

  /** The proposals listed as pending are those that could be approved at that time. */
  lemma {:induction false} ListedIffApprovable(run: seq<Event>, n: nat, id: nat, now: int)
    requires n <= |run|
    ensures var s := After(run, n); id in PendingOf(s, s.ids, now) <==> CanApprove(s, id, now)
  {
    PendingOfIs(After(run, n), After(run, n).ids, now, id);
    IdsAreStored(run, n, id);
  }

  /** Rejecting does not look at the time: also a proposal no longer listed is rejected, not recorded as expired. */
  lemma RejectIgnoresExpiry(s: State, id: nat, now: int, clock: int)
    requires id in s.proposals && s.proposals[id].status == Pending && now > s.proposals[id].expiresAt
    ensures !CanApprove(s, id, now) && AfterReject(s, id, now, clock).proposals[id].status == Rejected
    ensures AfterApprove(s, id, now, clock).proposals[id].status == Expired
  {
  }

  predicate Decides(e: Event, id: nat) {
    (e.Approve? || e.Reject?) && e.id == id
  }

  /** Of the events from `m` to `n`, the first that approves or rejects the proposal is a rejection. */
  predicate RejectedFirst(run: seq<Event>, m: nat, n: nat, id: nat)
    requires m <= n <= |run|
  {
    exists k :: m <= k < n && run[k].Reject? && run[k].id == id && forall j :: m <= j < k ==> !Decides(run[j], id)
  }

  lemma StatusStep(run: seq<Event>, n: nat, id: nat)
    requires 0 < n <= |run| && FreshIds(run) && id in After(run, n - 1).proposals
    ensures id in After(run, n).proposals
    ensures var before, after := After(run, n - 1).proposals[id].status, After(run, n).proposals[id].status;
            var e := run[n - 1];
            && (after == Pending <==> before == Pending && !Decides(e, id))
            && (after == Rejected <==> before == Rejected || (before == Pending && e.Reject? && e.id == id))
  {
    if run[n - 1].Create? { CreateIsFresh(run, n - 1); }
  }

  lemma RejectedNext(run: seq<Event>, m: nat, n: nat, id: nat)
    requires m < n <= |run|
    ensures RejectedFirst(run, m, n, id)
            <==> RejectedFirst(run, m, n - 1, id)
                 || (run[n - 1].Reject? && run[n - 1].id == id && forall j :: m <= j < n - 1 ==> !Decides(run[j], id))
  {
    if RejectedFirst(run, m, n - 1, id) {
      var k :| m <= k < n - 1 && run[k].Reject? && run[k].id == id && forall j :: m <= j < k ==> !Decides(run[j], id);
      assert RejectedFirst(run, m, n, id);
    }
  }

  lemma {:induction false} StaysPending(run: seq<Event>, m: nat, n: nat, id: nat)
    requires m <= n <= |run| && FreshIds(run) && id in After(run, m).proposals
             && After(run, m).proposals[id].status == Pending
    ensures id in After(run, n).proposals
    ensures After(run, n).proposals[id].status == Pending <==> forall k :: m <= k < n ==> !Decides(run[k], id)
    decreases n
  {
    if m < n {
      StaysPending(run, m, n - 1, id);
      StatusStep(run, n, id);
      assert !Decides(run[n - 1], id) && (forall k :: m <= k < n - 1 ==> !Decides(run[k], id))
        ==> forall k :: m <= k < n ==> !Decides(run[k], id);
    }
  }

  /**
   * Whatever the times, a pending proposal stays pending until it is approved or rejected, and ends up
   * rejected if and only if the first of these is a rejection; the time is looked at in an approval only.
   */
  lemma {:induction false} FirstDecides(run: seq<Event>, m: nat, n: nat, id: nat)
    requires m <= n <= |run| && FreshIds(run) && id in After(run, m).proposals
             && After(run, m).proposals[id].status == Pending
    ensures id in After(run, n).proposals
    ensures After(run, n).proposals[id].status == Pending <==> forall k :: m <= k < n ==> !Decides(run[k], id)
    ensures After(run, n).proposals[id].status == Rejected <==> RejectedFirst(run, m, n, id)
    decreases n
  {
    StaysPending(run, m, n, id);
    if m < n {
      FirstDecides(run, m, n - 1, id);
      StatusStep(run, n, id);
      RejectedNext(run, m, n, id);
    }
  }

  // ---- From creation to approval -----------------------------------------------------------------

  /** What a proposal is for, how risky it is, and that it expires 30 minutes after it is made, never changes. */
  lemma {:induction false} CreatedStays(run: seq<Event>, m: nat, n: nat)
    requires m < n <= |run| && FreshIds(run) && run[m].Create?
    ensures run[m].id in After(run, n).proposals
    ensures var p := After(run, n).proposals[run[m].id];
            p.action == run[m].action && p.risk == run[m].risk && p.expiresAt == run[m].now + 1800000
    decreases n
  {
    if n > m + 1 {
      CreatedStays(run, m, n - 1);
      if run[n - 1].Create? { CreateIsFresh(run, n - 1); }
    }
  }

  /** Behind event `m`, event `k` is the first that approves or rejects the proposal; it approves it in time. */
  predicate ApprovesFirst(run: seq<Event>, m: nat, k: nat, id: nat, deadline: int) {
    && m < k < |run| && run[k].Approve? && run[k].id == id && run[k].now <= deadline
    && forall j :: m < j < k ==> !Decides(run[j], id)
  }

  /** From event `k` to `n`, no one asks about the proposal after the deadline. */
  predicate AskedInTime(run: seq<Event>, k: nat, n: nat, id: nat, deadline: int)
    requires n <= |run|
  {
    forall j :: k < j < n && run[j].Query? && run[j].id == id ==> run[j].now <= deadline
  }

  ghost predicate WasApproved(run: seq<Event>, m: nat, n: nat, id: nat, deadline: int)
    requires n <= |run|
  {
    exists k: nat :: k < n && ApprovesFirst(run, m, k, id, deadline) && AskedInTime(run, k, n, id, deadline)
  }

  lemma WasApprovedNext(run: seq<Event>, m: nat, n: nat, id: nat, deadline: int)
    requires m < n < |run|
    ensures WasApproved(run, m, n + 1, id, deadline)
            <==> || ApprovesFirst(run, m, n, id, deadline)
                 || (WasApproved(run, m, n, id, deadline)
                     && (run[n].Query? && run[n].id == id ==> run[n].now <= deadline))
  {
    if ApprovesFirst(run, m, n, id, deadline) { assert AskedInTime(run, n, n + 1, id, deadline); }
    if WasApproved(run, m, n, id, deadline) && (run[n].Query? && run[n].id == id ==> run[n].now <= deadline) {
      var k: nat :| k < n && ApprovesFirst(run, m, k, id, deadline) && AskedInTime(run, k, n, id, deadline);
      assert AskedInTime(run, k, n + 1, id, deadline);
    }
    if k: nat :| k < n + 1 && ApprovesFirst(run, m, k, id, deadline) && AskedInTime(run, k, n + 1, id, deadline) {
      assert AskedInTime(run, k, n, id, deadline);
    }
  }

  lemma ApprovedStep(run: seq<Event>, n: nat, id: nat, deadline: int)
    requires 0 < n <= |run| && FreshIds(run)
    requires id in After(run, n - 1).proposals && After(run, n - 1).proposals[id].expiresAt == deadline
    ensures id in After(run, n).proposals
    ensures var before, after := After(run, n - 1).proposals[id].status, After(run, n).proposals[id].status;
            var e := run[n - 1];
            (after == Approved) == ((before == Approved && (e.Query? && e.id == id ==> e.now <= deadline))
                                    || (before == Pending && e.Approve? && e.id == id && e.now <= deadline))
  {
    if run[n - 1].Create? { CreateIsFresh(run, n - 1); }
  }

  lemma {:induction false} ApprovesNow(run: seq<Event>, m: nat, n: nat, id: nat, deadline: int)
    requires m < n < |run| && FreshIds(run) && run[m].Create? && id == run[m].id && deadline == run[m].now + 1800000
    ensures id in After(run, n).proposals
    ensures ApprovesFirst(run, m, n, id, deadline)
            <==> After(run, n).proposals[id].status == Pending && run[n].Approve? && run[n].id == id
                 && run[n].now <= deadline
  {
    FirstDecides(run, m + 1, n, id);
    assert (forall j :: m + 1 <= j < n ==> !Decides(run[j], id)) <==> (forall j :: m < j < n ==> !Decides(run[j], id));
  }

  /**
   * In every run a proposal has the status of an approved one exactly if the first who approves or rejects
   * it approves it within 30 minutes of its creation, and no one has asked about it later than that since.
   */
  lemma {:induction false} ApprovedExactly(run: seq<Event>, m: nat, n: nat)
    requires m < n <= |run| && FreshIds(run) && run[m].Create?
    ensures run[m].id in After(run, n).proposals
    ensures After(run, n).proposals[run[m].id].status == Approved
            <==> WasApproved(run, m, n, run[m].id, run[m].now + 1800000)
    decreases n
  {
    var id, deadline := run[m].id, run[m].now + 1800000;
    CreatedStays(run, m, n);
    if n > m + 1 {
      ApprovedExactly(run, m, n - 1);
      CreatedStays(run, m, n - 1);
      ApprovesNow(run, m, n - 1, id, deadline);
      WasApprovedNext(run, m, n - 1, id, deadline);
      ApprovedStep(run, n, id, deadline);
    }
  }

  /** A query finds it approved exactly then, if it comes in time itself. */
  lemma {:induction false} FoundApproved(run: seq<Event>, m: nat, n: nat, now: int)
    requires m < n <= |run| && FreshIds(run) && run[m].Create?
    ensures IsApproved(After(run, n), run[m].id, now)
            <==> now <= run[m].now + 1800000 && WasApproved(run, m, n, run[m].id, run[m].now + 1800000)
  {
    ApprovedExactly(run, m, n);
    CreatedStays(run, m, n);
  }

  /** Each creation and each change of a status, and nothing else, is recorded, with the time on the clock. */
  lemma StepIsAudited(s: State, e: Event)
    requires e.Create? ==> e.id !in s.proposals
    ensures var s' := Step(s, e);
            if s'.proposals == s.proposals then s'.audit == s.audit
            else && e.id in s'.proposals
                 && s'.audit == s.audit + [Entry(e.id, s'.proposals[e.id].action, s'.proposals[e.id].risk,
                                                 s'.proposals[e.id].status, e.clock)]
  {
    if !e.Create? && Step(s, e).proposals != s.proposals {
      assert e.id in s.proposals;
    }
    assert !e.Create? && e.id in s.proposals && Step(s, e).audit != s.audit
           ==> Step(s, e).proposals[e.id].status != s.proposals[e.id].status;
    assert e.Create? ==> e.id in Step(s, e).proposals;
  }
}
