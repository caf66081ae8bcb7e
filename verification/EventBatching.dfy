/** Deduplication of events within a time window, and the purging of what the window has left behind. */
module EventBatching {
  import opened Wrappers

  const BATCH_WINDOW_MS := 10 * 60 * 1000

  function Fingerprint(source: string, kind: string): string {
    source + ":" + kind
  }

  /** Fingerprint by fingerprint, when an event was last seen. */
  type Recent = map<string, int>

  predicate IsDuplicate(recent: Recent, fp: string, now: int) {
    fp in recent && now - recent[fp] < BATCH_WINDOW_MS
  }

  function Purged(recent: Recent, now: int): Recent {
    map fp | fp in recent && now - recent[fp] < BATCH_WINDOW_MS :: recent[fp]
  }

  class Batch {
    var recentEvents: Recent

    constructor ()
      ensures recentEvents == map[]
    {
      recentEvents := map[];
    }

    /** `isDuplicateEvent`; the event is recorded in any case. */
    method IsDuplicateEvent(source: string, kind: string, now: int) returns (duplicate: bool)
      modifies this
      ensures duplicate == IsDuplicate(old(recentEvents), Fingerprint(source, kind), now)
      ensures recentEvents == old(recentEvents)[Fingerprint(source, kind) := now]
    {
      var fp := Fingerprint(source, kind);
      var lastSeen := if fp in recentEvents then Some(recentEvents[fp]) else None;
      recentEvents := recentEvents[fp := now];
      if lastSeen.None? { return false; }
      return now - lastSeen.value < BATCH_WINDOW_MS;
    }

    /** `purgeExpiredFingerprints` */
    method PurgeExpiredFingerprints(now: int) returns (purged: nat)
      modifies this
      ensures recentEvents == Purged(old(recentEvents), now)
      ensures purged == |old(recentEvents)| - |recentEvents|
    {
      ghost var before := recentEvents;
      var rest := recentEvents.Keys;
      purged := 0;
      while rest != {}
        invariant rest <= recentEvents.Keys <= before.Keys
        invariant forall fp :: fp in recentEvents ==> recentEvents[fp] == before[fp]
        invariant forall fp ::
          fp in before && fp !in rest ==> (fp in recentEvents <==> now - before[fp] < BATCH_WINDOW_MS)
        invariant purged == |before| - |recentEvents|
        decreases rest
      {
        var fp :| fp in rest;
        rest := rest - {fp};
        if now - recentEvents[fp] >= BATCH_WINDOW_MS {
          ghost var larger := recentEvents;
          recentEvents := recentEvents - {fp};
          assert recentEvents.Keys == larger.Keys - {fp};
          assert |recentEvents.Keys| == |larger.Keys| - 1;
          purged := purged + 1;
        }
      }
    }
  }

  /** A purge keeps exactly the entries that could still make a duplicate, as they are. */
  lemma PurgedKeeps(recent: Recent, now: int, fp: string)
    ensures fp in Purged(recent, now) <==> IsDuplicate(recent, fp, now)
    ensures fp in Purged(recent, now) ==> Purged(recent, now)[fp] == recent[fp]
    ensures IsDuplicate(recent, fp, now) <==> fp in recent && now < recent[fp] + 600000
  {
  }

  // ---- Whole runs --------------------------------------------------------------------------------

  datatype Event = See(fp: string, now: int) | Purge(now: int)

  /** The map after the first `n` events; if `purging` is false, purges are left out. */
  function After(run: seq<Event>, n: nat, purging: bool): Recent
    requires n <= |run|
  {
    if n == 0 then map[]
    else
      var recent := After(run, n - 1, purging);
      match run[n - 1]
      case See(fp, now) => recent[fp := now]
      case Purge(now) => if purging then Purged(recent, now) else recent
  }

  predicate Nondecreasing(run: seq<Event>) {
    forall i, j :: 0 <= i <= j < |run| ==> run[i].now <= run[j].now
  }

  /** The maps agree but for entries that are too old to matter from `now` on. */
  predicate Similar(a: Recent, b: Recent, now: int) {
    && (forall fp :: fp in a && fp in b ==> a[fp] == b[fp])
    && (forall fp :: fp in a && fp !in b ==> now - a[fp] >= BATCH_WINDOW_MS)
    && (forall fp :: fp in b && fp !in a ==> now - b[fp] >= BATCH_WINDOW_MS)
  }

  /** Similar maps answer alike, now and at any later time. */
  lemma SimilarAnswerAlike(a: Recent, b: Recent, before: int, fp: string, now: int)
    requires Similar(a, b, before) && before <= now
    ensures IsDuplicate(a, fp, now) == IsDuplicate(b, fp, now) && Similar(a[fp := now], b[fp := now], now)
  {
  }

  /** Purging either of them keeps them similar. */
  lemma PurgeKeepsSimilar(a: Recent, b: Recent, before: int, now: int)
    requires Similar(a, b, before) && before <= now
    ensures Similar(Purged(a, now), b, now) && Similar(a, Purged(b, now), now)
            && Similar(Purged(a, now), Purged(b, now), now)
  {
  }

  lemma {:induction false} RunsAreSimilar(run: seq<Event>, n: nat)
    requires n <= |run| && Nondecreasing(run)
    ensures n > 0 ==> Similar(After(run, n, true), After(run, n, false), run[n - 1].now)
  {
    if n > 1 {
      RunsAreSimilar(run, n - 1);
      var a, b := After(run, n - 1, true), After(run, n - 1, false);
      match run[n - 1]
      case See(fp, now) => SimilarAnswerAlike(a, b, run[n - 2].now, fp, now);
      case Purge(now) => PurgeKeepsSimilar(a, b, run[n - 2].now, now);
    }
  }

  /** The purges in a run change none of its answers. */
  lemma {:induction false} PurgingIsInvisible(run: seq<Event>, n: nat)
    requires n < |run| && Nondecreasing(run) && run[n].See?
    ensures IsDuplicate(After(run, n, true), run[n].fp, run[n].now)
            == IsDuplicate(After(run, n, false), run[n].fp, run[n].now)
  {
    RunsAreSimilar(run, n);
    if n > 0 { SimilarAnswerAlike(After(run, n, true), After(run, n, false), run[n - 1].now, run[n].fp, run[n].now); }
  }

  predicate SeenWithin(run: seq<Event>, n: nat, fp: string, now: int)
    requires n <= |run|
  {
    exists i :: 0 <= i < n && run[i].See? && run[i].fp == fp && now - run[i].now < BATCH_WINDOW_MS
  }

  /** Without purges, the map holds the time of the last event of each fingerprint. */
  lemma {:induction false} LastIsKept(run: seq<Event>, n: nat, fp: string)
    requires n <= |run|
    ensures var recent := After(run, n, false);
            if fp in recent
            then exists i ::
                   && 0 <= i < n && run[i] == See(fp, recent[fp])
                   && forall j :: i < j < n && run[j].See? ==> run[j].fp != fp
            else forall i :: 0 <= i < n && run[i].See? ==> run[i].fp != fp
  {
    if n > 0 {
      LastIsKept(run, n - 1, fp);
      if run[n - 1].See? && run[n - 1].fp == fp { assert run[n - 1] == See(fp, After(run, n, false)[fp]); }
    }
  }

  /**
   * For times that do not decrease, and with purges anywhere in between: an event is a duplicate
   * exactly if some earlier event with its fingerprint lies within the window.
   */
  lemma {:induction false} DuplicateIff(run: seq<Event>, n: nat)
    requires n < |run| && Nondecreasing(run) && run[n].See?
    ensures IsDuplicate(After(run, n, true), run[n].fp, run[n].now) <==> SeenWithin(run, n, run[n].fp, run[n].now)
  {
    PurgingIsInvisible(run, n);
    LastIsKept(run, n, run[n].fp);
  }

  // ---- Fingerprints and groups -------------------------------------------------------------------

  /** `s'` and `k'` are `s` and `k` with the separator at a later colon. */
  ghost predicate Shifted(s: string, k: string, s': string, k': string) {
    exists x :: IsShift(s, k, s', k', x)
  }

  predicate IsShift(s: string, k: string, s': string, k': string, x: string) {
    s' == s + ":" + x && k == x + ":" + k'
  }

  /** The groups whose events have the same fingerprint. */
  lemma SameFingerprint(s: string, k: string, s': string, k': string)
    requires |s| <= |s'|
    ensures Fingerprint(s, k) == Fingerprint(s', k') <==> (s == s' && k == k') || Shifted(s, k, s', k')
  {
    var f, f' := Fingerprint(s, k), Fingerprint(s', k');
    assert f[..|s|] == s && f[|s|] == ':' && f[|s| + 1..] == k;
    assert f'[..|s'|] == s' && f'[|s'|] == ':' && f'[|s'| + 1..] == k';
    if f == f' && |s| < |s'| {
      var x := f[|s| + 1..|s'|];
      assert s' == f[..|s|] + [f[|s|]] + x;
      assert k == x + [f[|s'|]] + f[|s'| + 1..];
      assert IsShift(s, k, s', k', x);
    }
    if Shifted(s, k, s', k') {
      var x :| IsShift(s, k, s', k', x);
      assert f == s + ":" + (x + ":" + k') == s + ":" + x + ":" + k' == f';
    }
  }

  /** Where neither source has a colon, the fingerprint is that of one group. */
  lemma ColonFreeApart(s: string, k: string, s': string, k': string)
    requires ':' !in s && ':' !in s'
    ensures Fingerprint(s, k) == Fingerprint(s', k') <==> s == s' && k == k'
  {
    if |s| <= |s'| { SameFingerprint(s, k, s', k'); } else { SameFingerprint(s', k', s, k); }
    if Shifted(s, k, s', k') { ShiftHasColon(s, k, s', k'); }
    if Shifted(s', k', s, k) { ShiftHasColon(s', k', s, k); }
  }

  lemma ShiftHasColon(s: string, k: string, s': string, k': string)
    requires Shifted(s, k, s', k')
    ensures ':' in s'
  {
    var x :| IsShift(s, k, s', k', x);
    assert s'[|s|] == ':';
  }

  /** `groups` are the sources and types of the events. */
  predicate OfGroups(run: seq<Event>, groups: seq<(string, string)>) {
    && |groups| == |run|
    && forall i :: 0 <= i < |run| && run[i].See? ==> run[i].fp == Fingerprint(groups[i].0, groups[i].1)
  }

  predicate GroupSeenWithin(run: seq<Event>, groups: seq<(string, string)>, n: nat)
    requires n < |run| == |groups|
  {
    exists i :: 0 <= i < n && run[i].See? && groups[i] == groups[n] && run[n].now - run[i].now < BATCH_WINDOW_MS
  }

  /**
   * If no source has a colon, and times do not decrease: an event is a duplicate exactly if an earlier one
   * of the same source and type lies within the window.
   */
  lemma {:induction false} DuplicateOfGroup(run: seq<Event>, groups: seq<(string, string)>, n: nat)
    requires n < |run| && Nondecreasing(run) && run[n].See? && OfGroups(run, groups)
    requires forall i :: 0 <= i < |groups| ==> ':' !in groups[i].0
    ensures IsDuplicate(After(run, n, true), run[n].fp, run[n].now) <==> GroupSeenWithin(run, groups, n)
  {
    DuplicateIff(run, n);
    forall i | 0 <= i < n && run[i].See? ensures run[i].fp == run[n].fp <==> groups[i] == groups[n] {
      ColonFreeApart(groups[i].0, groups[i].1, groups[n].0, groups[n].1);
    }
  }

  /** Without that the separator does not keep all groups apart. */
  lemma FingerprintsCollide()
    ensures Fingerprint("a", "b:c") == Fingerprint("a:b", "c")
  {
    assert Fingerprint("a", "b:c") == "a:b:c" == Fingerprint("a:b", "c");
  }
}
