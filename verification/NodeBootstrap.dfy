/** Who owns the booted node: hook instances that mount, boot across awaits, and tear down. */
module NodeBootstrap {
  import opened Wrappers

  /** Where the asynchronous `boot` of an instance stands. */
  datatype Phase =
    | Waiting(teardown: nat)
    | Booting
    | Discarding(node: nat)
    | Ended

  /** `owned` is `ownedNode`; an instance is mounted until its cleanup sets `disposed`. */
  datatype Instance = Instance(mounted: bool, owned: Option<nat>, phase: Phase)

  /**
   * Nodes are numbered in the order in which they are composed, and a teardown goes by the number of
   * its node. `tearing` holds the teardowns under way, `live` the nodes not disposed of, and
   * `abandoned` those that were the singleton, and not being torn down, when another replaced them.
   */
  datatype State = State(
    singleton: Option<nat>, pendingTeardown: Option<nat>, instances: seq<Instance>,
    nodes: nat, live: set<nat>, tearing: set<nat>, abandoned: set<nat>)

  const START := State(None, None, [], 0, {}, {}, {})

  /** What happens between two awaits is one event; instances go by the order in which they mount. */
  datatype Event =
    | Mount
    | Unmount(i: nat)
    | TornDown(node: nat)
    | Resume(i: nat)
    | BootSucceeds(i: nat)
    | BootFails(i: nat)
    | Discarded(i: nat)

  predicate Enabled(s: State, e: Event) {
    match e
    case Mount => true
    case Unmount(i) => i < |s.instances| && s.instances[i].mounted
    case TornDown(n) => n in s.tearing
    case Resume(i) => i < |s.instances| && s.instances[i].phase.Waiting? && s.instances[i].phase.teardown !in s.tearing
    case BootSucceeds(i) => i < |s.instances| && s.instances[i].phase.Booting?
    case BootFails(i) => i < |s.instances| && s.instances[i].phase.Booting?
    case Discarded(i) => i < |s.instances| && s.instances[i].phase.Discarding?
  }

  /** How `boot` goes on when no teardown is awaited: it boots unless its instance is gone or a node is there. */
  function Entered(s: State, mounted: bool): Phase {
    if mounted && s.singleton.None? then Booting else Ended
  }

  function With(s: State, i: nat, x: Instance): State
    requires i < |s.instances|
  {
    s.(instances := s.instances[i := x])
  }

  function Step(s: State, e: Event): State {
    if !Enabled(s, e) then s
    else
      match e
      case Mount =>
        var phase := if s.pendingTeardown.Some? then Waiting(s.pendingTeardown.value) else Entered(s, true);
        s.(instances := s.instances + [Instance(true, None, phase)])
      case Unmount(i) =>
        var x := s.instances[i];
        var s' := With(s, i, x.(mounted := false));
        if x.owned.Some? && s.singleton == x.owned
        then s'.(pendingTeardown := x.owned, tearing := s.tearing + {x.owned.value})
        else s'
      case TornDown(n) =>
        s.(singleton := if s.singleton == Some(n) then None else s.singleton, pendingTeardown := None,
           tearing := s.tearing - {n}, live := s.live - {n})
      case Resume(i) =>
        With(s, i, s.instances[i].(phase := Entered(s, s.instances[i].mounted)))
      case BootSucceeds(i) =>
        var n, x := s.nodes, s.instances[i];
        var s' := s.(nodes := n + 1, live := s.live + {n});
        if !x.mounted then With(s', i, x.(phase := Discarding(n)))
        else With(s', i, x.(owned := Some(n), phase := Ended)).(
               singleton := Some(n), abandoned := s.abandoned + (SetOf(s.singleton) - s.tearing))
      case BootFails(i) => With(s, i, s.instances[i].(phase := Ended))
      case Discarded(i) =>
        var n := s.instances[i].phase.node;
        With(s, i, s.instances[i].(phase := Ended)).(live := s.live - {n})
  }

  function After(run: seq<Event>, n: nat): State
    requires n <= |run|
  {
    if n == 0 then START else Step(After(run, n - 1), run[n - 1])
  }

  // ---- The module's variables and an instance's, as the code updates them --------------------------

  class Bootstrap {
    var singleton: Option<nat>
    var pendingTeardown: Option<nat>
    var instances: seq<Instance>
    var nodes: nat
    ghost var live: set<nat>
    ghost var tearing: set<nat>
    ghost var abandoned: set<nat>

    constructor ()
      ensures Value() == START
    {
      singleton, pendingTeardown, instances, nodes := None, None, [], 0;
      live, tearing, abandoned := {}, {}, {};
    }

    ghost function Value(): State
      reads this
    {
      State(singleton, pendingTeardown, instances, nodes, live, tearing, abandoned)
    }

    /** The effect: `boot` up to its first await. */
    method Mount()
      modifies this
      ensures Value() == Step(old(Value()), Event.Mount)
    {
      var phase;
      if pendingTeardown.Some? {
        phase := Waiting(pendingTeardown.value);
      } else if singleton.Some? {
        phase := Ended;
      } else {
        phase := Booting;
      }
      instances := instances + [Instance(true, None, phase)];
    }

    /** The effect's cleanup. */
    method Unmount(i: nat)
      requires Enabled(Value(), Event.Unmount(i))
      modifies this
      ensures Value() == Step(old(Value()), Event.Unmount(i))
    {
      var owned := instances[i].owned;
      instances := instances[i := instances[i].(mounted := false)];
      if owned.Some? && singleton == owned {
        pendingTeardown := owned;
        tearing := tearing + {owned.value};
      }
    }

    /** The teardown's `finally`. */
    method TornDown(n: nat)
      requires Enabled(Value(), Event.TornDown(n))
      modifies this
      ensures Value() == Step(old(Value()), Event.TornDown(n))
    {
      if singleton == Some(n) { singleton := None; }
      pendingTeardown := None;
      tearing, live := tearing - {n}, live - {n};
    }

    /** `boot` behind the await of the pending teardown. */
    method Resume(i: nat)
      requires Enabled(Value(), Event.Resume(i))
      modifies this
      ensures Value() == Step(old(Value()), Event.Resume(i))
    {
      var phase := Booting;
      if !instances[i].mounted || singleton.Some? { phase := Ended; }
      instances := instances[i := instances[i].(phase := phase)];
    }

    /** `boot` behind the await of `bootAppNode`, with a node. */
    method BootSucceeds(i: nat)
      requires Enabled(Value(), Event.BootSucceeds(i))
      modifies this
      ensures Value() == Step(old(Value()), Event.BootSucceeds(i))
    {
      var node := nodes;
      nodes, live := nodes + 1, live + {node};
      if !instances[i].mounted {
        instances := instances[i := instances[i].(phase := Discarding(node))];
        return;
      }
      abandoned := abandoned + (SetOf(singleton) - tearing);
      instances := instances[i := instances[i].(owned := Some(node), phase := Ended)];
      singleton := Some(node);
    }

    /** `boot` behind a boot that threw. */
    method BootFails(i: nat)
      requires Enabled(Value(), Event.BootFails(i))
      modifies this
      ensures Value() == Step(old(Value()), Event.BootFails(i))
    {
      instances := instances[i := instances[i].(phase := Ended)];
    }

    /** `boot` behind the await of the disposal of a node nobody waits for any more. */
    method Discarded(i: nat)
      requires Enabled(Value(), Event.Discarded(i))
      modifies this
      ensures Value() == Step(old(Value()), Event.Discarded(i))
    {
      live := live - {instances[i].phase.node};
      instances := instances[i := instances[i].(phase := Ended)];
    }
  }

  // ---- What every run keeps ------------------------------------------------------------------------

  predicate Owns(s: State, i: nat, n: nat) {
    i < |s.instances| && s.instances[i].owned == Some(n)
  }

  predicate Discards(s: State, i: nat, n: nat) {
    i < |s.instances| && s.instances[i].phase == Discarding(n)
  }

  ghost predicate BeingDiscarded(s: State, n: nat) {
    exists i: nat :: Discards(s, i, n)
  }

  predicate SomeoneOwns(s: State, n: nat) {
    exists i :: 0 <= i < |s.instances| && s.instances[i].mounted && s.instances[i].owned == Some(n)
  }

  /** A node not disposed of is the singleton, or being torn down or discarded, or abandoned. */
  ghost predicate Accounted(s: State) {
    && (forall n: nat ::
          n in s.live <==> s.singleton == Some(n) || n in s.tearing || n in s.abandoned || BeingDiscarded(s, n))
    && (forall n: nat :: n in s.live ==> n < s.nodes)
  }

  ghost predicate Apart(s: State) {
    && (forall n: nat :: n in s.abandoned ==> s.singleton != Some(n) && n !in s.tearing && !BeingDiscarded(s, n))
    && (forall i: nat, j: nat, n: nat :: Discards(s, i, n) && Discards(s, j, n) ==> i == j)
    && (forall i: nat, n: nat :: Discards(s, i, n) ==> s.singleton != Some(n) && n !in s.tearing && n < s.nodes)
  }

  ghost predicate Owned(s: State) {
    && (forall i: nat, n: nat :: Owns(s, i, n) ==> n < s.nodes && s.instances[i].phase == Ended)
    && (forall i: nat, j: nat, n: nat :: Owns(s, i, n) && Owns(s, j, n) ==> i == j)
    && (forall i: nat, n: nat :: Owns(s, i, n) && s.instances[i].mounted ==> n !in s.tearing)
    && (s.singleton.Some? && s.singleton.value !in s.tearing ==> SomeoneOwns(s, s.singleton.value))
  }

  ghost predicate Inv(s: State) {
    Accounted(s) && Apart(s) && Owned(s)
  }

  lemma SameDiscards(s: State, s': State)
    requires forall i: nat, n: nat :: Discards(s, i, n) <==> Discards(s', i, n)
    ensures forall n: nat :: BeingDiscarded(s, n) <==> BeingDiscarded(s', n)
  {
    forall n: nat ensures BeingDiscarded(s, n) <==> BeingDiscarded(s', n) {
      if BeingDiscarded(s, n) { var i: nat :| Discards(s, i, n); assert Discards(s', i, n); }
      if BeingDiscarded(s', n) { var i: nat :| Discards(s', i, n); assert Discards(s, i, n); }
    }
  }

  lemma MountKeepsInv(s: State)
    requires Inv(s)
    ensures Inv(Step(s, Event.Mount))
  {
    var s' := Step(s, Event.Mount);
    SameDiscards(s, s');
    forall i: nat, n: nat | Owns(s', i, n) ensures Owns(s, i, n) {}
    if s.singleton.Some? && SomeoneOwns(s, s.singleton.value) {
      var i: nat :| i < |s.instances| && s.instances[i].mounted && s.instances[i].owned == s.singleton;
      assert s'.instances[i] == s.instances[i];
    }
  }

  lemma UnmountKeepsInv(s: State, i: nat)
    requires Inv(s) && Enabled(s, Unmount(i))
    ensures Inv(Step(s, Unmount(i)))
  {
    var s' := Step(s, Unmount(i));
    SameDiscards(s, s');
    forall j: nat, n: nat ensures Owns(s', j, n) <==> Owns(s, j, n) {}
    if s'.singleton.Some? && s'.singleton.value !in s'.tearing {
      var j: nat :| j < |s.instances| && s.instances[j].mounted && s.instances[j].owned == s.singleton;
      assert j != i && s'.instances[j] == s.instances[j];
    }
    if s.instances[i].owned.Some? { assert Owns(s, i, s.instances[i].owned.value); }
  }

  lemma TornDownKeepsInv(s: State, n: nat)
    requires Inv(s) && n in s.tearing
    ensures Inv(Step(s, TornDown(n)))
  {
    var s' := Step(s, TornDown(n));
    SameDiscards(s, s');
    forall j: nat, m: nat ensures Owns(s', j, m) <==> Owns(s, j, m) {}
  }

  /** An instance whose boot ends, or starts, without a node. */
  lemma PhaseKeepsInv(s: State, i: nat, phase: Phase)
    requires Inv(s) && i < |s.instances| && !s.instances[i].phase.Discarding? && !phase.Discarding?
    requires s.instances[i].owned.None?
    ensures Inv(With(s, i, s.instances[i].(phase := phase)))
  {
    var s' := With(s, i, s.instances[i].(phase := phase));
    SameDiscards(s, s');
    forall j: nat, n: nat ensures Owns(s', j, n) <==> Owns(s, j, n) {}
    if s.singleton.Some? && SomeoneOwns(s, s.singleton.value) {
      var j: nat :| j < |s.instances| && s.instances[j].mounted && s.instances[j].owned == s.singleton;
      assert s'.instances[j] == s.instances[j];
    }
  }

  lemma BootSucceedsKeepsInv(s: State, i: nat)
    requires Inv(s) && Enabled(s, BootSucceeds(i))
    ensures Inv(Step(s, BootSucceeds(i)))
  {
    var s', x, m := Step(s, BootSucceeds(i)), s.instances[i], s.nodes;
    forall j: nat, n: nat ensures Discards(s', j, n) <==> Discards(s, j, n) || (!x.mounted && j == i && n == m) {}
    forall j: nat, n: nat ensures Owns(s', j, n) <==> Owns(s, j, n) || (x.mounted && j == i && n == m) {
      if Owns(s, i, n) { assert false; }
    }
    forall n: nat ensures BeingDiscarded(s', n) <==> BeingDiscarded(s, n) || (!x.mounted && n == m) {
      if BeingDiscarded(s, n) { var j: nat :| Discards(s, j, n); assert Discards(s', j, n); }
      if !x.mounted && n == m { assert Discards(s', i, n); }
    }
    assert m !in s.live;
    if x.mounted {
      assert s'.instances[i].mounted && s'.instances[i].owned == Some(m);
    } else if s.singleton.Some? && SomeoneOwns(s, s.singleton.value) {
      var j: nat :| j < |s.instances| && s.instances[j].mounted && s.instances[j].owned == s.singleton;
      assert s'.instances[j] == s.instances[j];
    }
  }

  lemma DiscardedKeepsInv(s: State, i: nat)
    requires Inv(s) && Enabled(s, Discarded(i))
    ensures Inv(Step(s, Discarded(i)))
  {
    var s', m := Step(s, Discarded(i)), s.instances[i].phase.node;
    assert Discards(s, i, m);
    forall j: nat, n: nat ensures Discards(s', j, n) <==> Discards(s, j, n) && n != m {
      if Discards(s, j, n) && n == m { assert j == i; }
    }
    forall j: nat, n: nat ensures Owns(s', j, n) <==> Owns(s, j, n) {}
    forall n: nat ensures BeingDiscarded(s', n) <==> BeingDiscarded(s, n) && n != m {
      if BeingDiscarded(s, n) && n != m { var j: nat :| Discards(s, j, n); assert Discards(s', j, n); }
    }
    if s.singleton.Some? && SomeoneOwns(s, s.singleton.value) {
      var j: nat :| j < |s.instances| && s.instances[j].mounted && s.instances[j].owned == s.singleton;
      assert s'.instances[j].owned == s.singleton && s'.instances[j].mounted;
    }
  }

  lemma StepKeepsInv(s: State, e: Event)
    requires Inv(s)
    ensures Inv(Step(s, e))
  {
    if Enabled(s, e) {
      match e
      case Mount => MountKeepsInv(s);
      case Unmount(i) => UnmountKeepsInv(s, i);
      case TornDown(n) => TornDownKeepsInv(s, n);
      case Resume(i) =>
        NotOwning(s, i);
        PhaseKeepsInv(s, i, Entered(s, s.instances[i].mounted));
      case BootSucceeds(i) => BootSucceedsKeepsInv(s, i);
      case BootFails(i) =>
        NotOwning(s, i);
        PhaseKeepsInv(s, i, Ended);
      case Discarded(i) => DiscardedKeepsInv(s, i);
    }
  }

  lemma NotOwning(s: State, i: nat)
    requires Inv(s) && i < |s.instances| && s.instances[i].phase != Ended
    ensures s.instances[i].owned.None?
  {
    if s.instances[i].owned.Some? { assert Owns(s, i, s.instances[i].owned.value); }
  }

  lemma {:induction false} RunKeepsInv(run: seq<Event>, n: nat)
    requires n <= |run|
    ensures Inv(After(run, n))
  {
    if n > 0 {
      RunKeepsInv(run, n - 1);
      StepKeepsInv(After(run, n - 1), run[n - 1]);
    }
  }

  // ---- Quiescent states ----------------------------------------------------------------------------

  predicate Quiescent(s: State) {
    s.tearing == {} && forall x :: x in s.instances ==> x.phase == Ended
  }

  predicate NothingMounted(s: State) {
    forall x :: x in s.instances ==> !x.mounted
  }

  /**
   * However instances mount and whatever ends when: when all is quiet the nodes not disposed of are
   * the singleton and the abandoned ones, and with nothing mounted there is no singleton.
   */
  lemma {:induction false} QuietNodes(run: seq<Event>, n: nat)
    requires n <= |run| && Quiescent(After(run, n))
    ensures var s := After(run, n);
            && s.live == SetOf(s.singleton) + s.abandoned && s.abandoned !! SetOf(s.singleton)
            && (s.live == SetOf(s.singleton) <==> s.abandoned == {})
            && (NothingMounted(s) ==> s.singleton == None)
  {
    var s := After(run, n);
    RunKeepsInv(run, n);
    forall i: nat, m: nat ensures !Discards(s, i, m) {
      if i < |s.instances| { assert s.instances[i] in s.instances; }
    }
    assert forall m: nat :: !BeingDiscarded(s, m);
    assert s.live == SetOf(s.singleton) + s.abandoned;
    assert s.abandoned !! SetOf(s.singleton);
    if s.abandoned != {} {
      var m :| m in s.abandoned;
      assert m in s.live && m !in SetOf(s.singleton);
    }
    if s.singleton.Some? {
      var i: nat :| i < |s.instances| && s.instances[i].mounted && s.instances[i].owned == s.singleton;
      assert s.instances[i] in s.instances;
    }
  }

  /**
   * A node is abandoned exactly when a mounted instance's boot succeeds over a singleton that is not
   * being torn down.
   */
  lemma AbandonedWhen(s: State, e: Event, m: nat)
    requires Inv(s) && m !in s.abandoned
    ensures m in Step(s, e).abandoned
            <==> && e.BootSucceeds? && Enabled(s, e) && s.instances[e.i].mounted
                 && s.singleton == Some(m) && m !in s.tearing
  {
  }

  // ---- One instance at a time ----------------------------------------------------------------------

  /** Every mount in the first `n` events finds no other instance mounted. */
  ghost predicate OneAtATime(run: seq<Event>, n: nat)
    requires n <= |run|
  {
    n > 0 ==> OneAtATime(run, n - 1) && (run[n - 1] == Event.Mount ==> NothingMounted(After(run, n - 1)))
  }

  /** What one instance at a time keeps: all that happens to the singleton, the mounted instance knows. */
  ghost predicate Single(s: State) {
    && (forall i, j | 0 <= i < |s.instances| && 0 <= j < |s.instances| ::
          s.instances[i].mounted && s.instances[j].mounted ==> i == j)
    && s.abandoned == {} && s.tearing == SetOf(s.pendingTeardown)
    && (s.pendingTeardown.Some? ==> s.singleton == s.pendingTeardown)
    && forall i :: 0 <= i < |s.instances| && s.instances[i].mounted ==> KnowsSingleton(s, s.instances[i])
  }

  predicate KnowsSingleton(s: State, x: Instance) {
    match x.phase
    case Waiting(w) => s.pendingTeardown == Some(w) || (s.pendingTeardown.None? && s.singleton.None?)
    case Booting => s.pendingTeardown.None? && s.singleton.None?
    case Discarding(_) => false
    case Ended => s.pendingTeardown.None? && s.singleton == x.owned
  }

  lemma StepKeepsSingle(s: State, e: Event)
    requires Inv(s) && Single(s) && (e == Event.Mount ==> NothingMounted(s))
    ensures Single(Step(s, e))
  {
    var s' := Step(s, e);
    if e == Event.Mount {
      forall i | 0 <= i < |s.instances| ensures !s.instances[i].mounted && s'.instances[i] == s.instances[i] {
        assert s.instances[i] in s.instances;
      }
      assert forall n: nat :: !SomeoneOwns(s, n);
    } else if e.BootFails? && Enabled(s, e) {
      NotOwning(s, e.i);
    }
  }

  lemma {:induction false} RunKeepsSingle(run: seq<Event>, n: nat)
    requires n <= |run| && OneAtATime(run, n)
    ensures Single(After(run, n))
  {
    if n > 0 {
      RunKeepsSingle(run, n - 1);
      RunKeepsInv(run, n - 1);
      StepKeepsSingle(After(run, n - 1), run[n - 1]);
    }
  }

  /**
   * With one instance mounted at a time, mounted again and again: when all is quiet the nodes not
   * disposed of are exactly the singleton, or none when nothing is mounted.
   */
  lemma {:induction false} QuietNodesOfOne(run: seq<Event>, n: nat)
    requires n <= |run| && OneAtATime(run, n) && Quiescent(After(run, n))
    ensures var s := After(run, n);
            s.live == SetOf(s.singleton) && (NothingMounted(s) ==> s.live == {})
  {
    RunKeepsSingle(run, n);
    QuietNodes(run, n);
  }

  predicate BootsIn(s: State, i: nat) {
    i < |s.instances| && s.instances[i].phase == Booting
  }

  /** With one instance at a time, no boot begins to compose a node while a teardown is pending. */
  lemma NoBootDuringTeardown(run: seq<Event>, n: nat, i: nat)
    requires n < |run| && OneAtATime(run, n + 1)
    requires !BootsIn(After(run, n), i) && BootsIn(After(run, n + 1), i)
    ensures After(run, n).pendingTeardown.None? && After(run, n).tearing == {} && After(run, n).singleton.None?
  {
    RunKeepsSingle(run, n);
  }

  /** A boot that is still composing while a teardown is pending belongs to an instance that is gone. */
  lemma {:induction false} OnlyGoneBootsOverlap(run: seq<Event>, n: nat, i: nat)
    requires n <= |run| && OneAtATime(run, n) && BootsIn(After(run, n), i) && After(run, n).pendingTeardown.Some?
    ensures !After(run, n).instances[i].mounted
  {
    RunKeepsSingle(run, n);
  }

  // ---- Exactly when a boot can overlap a teardown --------------------------------------------------

  ghost predicate Overlaps(s: State) {
    s.pendingTeardown.Some? && exists i: nat :: BootsIn(s, i)
  }

  predicate GoneBoots(s: State, i: nat) {
    BootsIn(s, i) && !s.instances[i].mounted
  }

  ghost predicate SomeGoneBoots(s: State) {
    exists i: nat :: GoneBoots(s, i)
  }

  predicate MeetsBoot(s: State, e: Event) {
    e.Unmount? && BootsIn(s, e.i)
  }

  /** From event `n` on, no unmount meets an instance that is booting. */
  ghost predicate Careful(run: seq<Event>, n: nat, n': nat)
    requires n <= n' <= |run|
  {
    forall k :: n <= k < n' ==> !MeetsBoot(After(run, k), run[k])
  }

  /** A continuation, one instance at a time, in which no unmount meets an instance that is booting. */
  ghost predicate Continues(run: seq<Event>, n: nat, run': seq<Event>, n': nat) {
    && n <= |run| && n <= n' <= |run'| && run'[..n] == run[..n] && OneAtATime(run', n') && Careful(run', n, n')
  }

  lemma CarefulStep(s: State, e: Event)
    requires !SomeGoneBoots(s) && !MeetsBoot(s, e)
    ensures !SomeGoneBoots(Step(s, e))
  {
    var s' := Step(s, e);
    forall i: nat ensures !GoneBoots(s', i) {
      assert !GoneBoots(s, i);
      if i < |s.instances| {
        assert s'.instances[i].mounted == s.instances[i].mounted || (e == Unmount(i) && !BootsIn(s, i));
      }
    }
  }

  lemma {:induction false} CarefulRun(run: seq<Event>, n: nat, n': nat)
    requires n <= n' <= |run| && Careful(run, n, n') && !SomeGoneBoots(After(run, n))
    ensures !SomeGoneBoots(After(run, n'))
    decreases n'
  {
    if n < n' {
      CarefulRun(run, n, n' - 1);
      CarefulStep(After(run, n' - 1), run[n' - 1]);
    }
  }

  lemma {:induction false} SamePrefix(run: seq<Event>, run': seq<Event>, n: nat)
    requires n <= |run| && n <= |run'| && run[..n] == run'[..n]
    ensures After(run, n) == After(run', n) && OneAtATime(run, n) == OneAtATime(run', n)
  {
    if n > 0 {
      assert run[n - 1] == run[..n][n - 1] == run'[n - 1];
      assert run[..n - 1] == run[..n][..n - 1] == run'[..n - 1];
      SamePrefix(run, run', n - 1);
    }
  }

  /** One more event. */
  lemma ContinueWith(run: seq<Event>, n: nat, run': seq<Event>, n': nat, e: Event) returns (run'': seq<Event>)
    requires Continues(run, n, run', n') && !MeetsBoot(After(run', n'), e)
    requires e == Event.Mount ==> NothingMounted(After(run', n'))
    ensures Continues(run, n, run'', n' + 1) && After(run'', n' + 1) == Step(After(run', n'), e)
  {
    run'' := run'[..n'] + [e];
    assert run''[..n'] == run'[..n'] && run''[..n] == run'[..n'][..n] == run'[..n];
    SamePrefix(run', run'', n');
    forall k | n <= k < n' + 1 ensures !MeetsBoot(After(run'', k), run''[k]) {
      if k < n' {
        assert run''[..k] == run'[..n'][..k] == run'[..k] && run''[k] == run'[..n'][k] == run'[k];
        SamePrefix(run', run'', k);
      }
    }
  }

  /** The mounted instance owns the singleton: it is unmounted. */
  lemma OverlapFromOwner(run: seq<Event>, n: nat, run': seq<Event>, n': nat, g: nat, j: nat)
    returns (run'': seq<Event>, n'': nat)
    requires Continues(run, n, run', n') && GoneBoots(After(run', n'), g)
    requires var s := After(run', n');
            j < |s.instances| && s.instances[j].mounted && s.instances[j].phase.Ended? && s.singleton.Some?
    ensures Continues(run, n, run'', n'') && Overlaps(After(run'', n''))
  {
    RunKeepsSingle(run', n');
    assert KnowsSingleton(After(run', n'), After(run', n').instances[j]);
    n'' := n' + 1;
    run'' := ContinueWith(run, n, run', n', Unmount(j));
    assert BootsIn(After(run'', n''), g);
  }

  /** The mounted instance boots: its boot succeeds. */
  lemma OverlapFromBoot(run: seq<Event>, n: nat, run': seq<Event>, n': nat, g: nat, j: nat)
    returns (run'': seq<Event>, n'': nat)
    requires Continues(run, n, run', n') && GoneBoots(After(run', n'), g)
    requires var s := After(run', n'); j < |s.instances| && s.instances[j].mounted && s.instances[j].phase.Booting?
    ensures Continues(run, n, run'', n'') && Overlaps(After(run'', n''))
  {
    var next := ContinueWith(run, n, run', n', BootSucceeds(j));
    run'', n'' := OverlapFromOwner(run, n, next, n' + 1, g, j);
  }

  /** Nothing is mounted, and no teardown pending: an instance mounts. */
  lemma OverlapFromNothing(run: seq<Event>, n: nat, run': seq<Event>, n': nat, g: nat)
    returns (run'': seq<Event>, n'': nat)
    requires Continues(run, n, run', n') && GoneBoots(After(run', n'), g)
    requires NothingMounted(After(run', n')) && After(run', n').pendingTeardown.None?
    ensures Continues(run, n, run'', n'') && Overlaps(After(run'', n''))
  {
    var s := After(run', n');
    RunKeepsInv(run', n');
    RunKeepsSingle(run', n');
    assert s.singleton.None?;
    var next := ContinueWith(run, n, run', n', Event.Mount);
    run'', n'' := OverlapFromBoot(run, n, next, n' + 1, g, |s.instances|);
  }

  /** The mounted instance is neither booting nor the owner of a node: it boots, or is unmounted. */
  lemma OverlapFromOther(run: seq<Event>, n: nat, run': seq<Event>, n': nat, g: nat, j: nat)
    returns (run'': seq<Event>, n'': nat)
    requires Continues(run, n, run', n') && GoneBoots(After(run', n'), g) && After(run', n').pendingTeardown.None?
    requires var s := After(run', n');
            j < |s.instances| && s.instances[j].mounted && !s.instances[j].phase.Booting? && s.singleton.None?
    ensures Continues(run, n, run'', n'') && Overlaps(After(run'', n''))
  {
    var s := After(run', n');
    RunKeepsSingle(run', n');
    assert KnowsSingleton(s, s.instances[j]);
    if s.instances[j].phase.Waiting? {
      var next := ContinueWith(run, n, run', n', Resume(j));
      run'', n'' := OverlapFromBoot(run, n, next, n' + 1, g, j);
    } else {
      var next := ContinueWith(run, n, run', n', Unmount(j));
      run'', n'' := OverlapFromNothing(run, n, next, n' + 1, g);
    }
  }

  /** Where an instance that is gone still boots, the run can go on to a teardown that it overlaps. */
  lemma GoneBootCanOverlap(run: seq<Event>, n: nat, g: nat) returns (run': seq<Event>, n': nat)
    requires n <= |run| && OneAtATime(run, n) && GoneBoots(After(run, n), g)
    ensures Continues(run, n, run', n') && Overlaps(After(run', n'))
  {
    var s := After(run, n);
    RunKeepsSingle(run, n);
    if s.pendingTeardown.Some? {
      run', n' := run, n;
      assert BootsIn(s, g);
    } else if NothingMounted(s) {
      run', n' := OverlapFromNothing(run, n, run, n, g);
    } else {
      var j: nat :| j < |s.instances| && s.instances[j].mounted;
      assert KnowsSingleton(s, s.instances[j]);
      if s.instances[j].phase.Booting? {
        run', n' := OverlapFromBoot(run, n, run, n, g, j);
      } else if s.singleton.Some? {
        run', n' := OverlapFromOwner(run, n, run, n, g, j);
      } else {
        run', n' := OverlapFromOther(run, n, run, n, g, j);
      }
    }
  }

  /**
   * With one instance mounted at a time, and if from now on no unmount meets an instance that is booting,
   * a boot can come to overlap a pending teardown if and only if an instance that is gone is booting now.
   */
  lemma {:induction false} OverlapIff(run: seq<Event>, n: nat)
    requires n <= |run| && OneAtATime(run, n)
    ensures (exists run', n' :: Continues(run, n, run', n') && Overlaps(After(run', n')))
            <==> SomeGoneBoots(After(run, n))
  {
    if SomeGoneBoots(After(run, n)) {
      var g: nat :| GoneBoots(After(run, n), g);
      var run', n' := GoneBootCanOverlap(run, n, g);
    }
    forall run', n' | Continues(run, n, run', n') && Overlaps(After(run', n')) ensures SomeGoneBoots(After(run, n)) {
      var i: nat :| BootsIn(After(run', n'), i);
      OnlyGoneBootsOverlap(run', n', i);
      assert GoneBoots(After(run', n'), i);
      SamePrefix(run, run', n);
      if !SomeGoneBoots(After(run, n)) { CarefulRun(run', n, n'); }
    }
  }

  /** So no boot overlaps a teardown in a run in which no unmount ever meets an instance that is booting. */
  lemma {:induction false} NoOverlap(run: seq<Event>, n: nat)
    requires n <= |run| && OneAtATime(run, n) && Careful(run, 0, n)
    ensures !Overlaps(After(run, n))
  {
    OverlapIff(run, 0);
    assert Continues(run, 0, run, n);
  }

  /** And there is one: unmounted while it boots, it goes on composing through the next instance's boot and teardown. */
  lemma GoneBootOverlaps()
    ensures var run := [Event.Mount, Unmount(0), Event.Mount, BootSucceeds(1), Unmount(1)];
            && OneAtATime(run, 5)
            && BootsIn(After(run, 3), 0) && BootsIn(After(run, 3), 1)
            && BootsIn(After(run, 5), 0) && After(run, 5).pendingTeardown == Some(0)
  {
    var run := [Event.Mount, Unmount(0), Event.Mount, BootSucceeds(1), Unmount(1)];
    var s1, s2, s3 := After(run, 1), After(run, 2), After(run, 3);
    assert s1 == State(None, None, [Instance(true, None, Booting)], 0, {}, {}, {});
    assert s2.instances == [Instance(false, None, Booting)];
    assert s3.instances == [Instance(false, None, Booting), Instance(true, None, Booting)];
    var s4, s5 := After(run, 4), After(run, 5);
    assert s4.instances == [Instance(false, None, Booting), Instance(true, Some(0), Ended)];
    assert s5.instances == [Instance(false, None, Booting), Instance(false, Some(0), Ended)];
  }

  // ---- Exactly when a mount can leak a node --------------------------------------------------------

  /** A mounted instance that may come to own a node it has not yet. */
  predicate Entering(s: State, i: nat) {
    i < |s.instances| && s.instances[i].mounted && (s.instances[i].phase.Waiting? || s.instances[i].phase.Booting?)
  }

  /** One that mounts now would boot, or wait, beside another. */
  ghost predicate Crowded(s: State) {
    (s.pendingTeardown.Some? || s.singleton.None?) && exists i: nat :: Entering(s, i)
  }

  /** No mount among the events from `n` to `n'` is crowded. */
  ghost predicate Uncrowded(run: seq<Event>, n: nat, n': nat)
    requires n <= n' <= |run|
  {
    forall k :: n <= k < n' && run[k] == Event.Mount ==> !Crowded(After(run, k))
  }

  /** What runs without crowded mounts keep: the one instance that enters knows the singleton. */
  ghost predicate Roomy(s: State) {
    && (forall i: nat, j: nat :: Entering(s, i) && Entering(s, j) ==> i == j)
    && s.abandoned == {} && s.tearing == SetOf(s.pendingTeardown)
    && (s.pendingTeardown.Some? ==> s.singleton == s.pendingTeardown)
    && (forall i: nat :: Entering(s, i) ==> KnowsSingleton(s, s.instances[i]))
  }

  lemma UnmountKeepsRoomy(s: State, i: nat)
    requires Inv(s) && Roomy(s) && Enabled(s, Unmount(i))
    ensures Roomy(Step(s, Unmount(i)))
  {
    var s' := Step(s, Unmount(i));
    forall j: nat | Entering(s', j) ensures Entering(s, j) && s'.instances[j] == s.instances[j] {}
    if s.instances[i].owned.Some? { assert Owns(s, i, s.instances[i].owned.value); }
  }

  lemma StepKeepsRoomy(s: State, e: Event)
    requires Inv(s) && Roomy(s) && (e == Event.Mount ==> !Crowded(s))
    ensures Roomy(Step(s, e))
  {
    if Enabled(s, e) {
      match e
      case Mount => MountKeepsRoomy(s);
      case Unmount(i) => UnmountKeepsRoomy(s, i);
      case TornDown(n) => TornDownKeepsRoomy(s, n);
      case Resume(i) => ResumeKeepsRoomy(s, i);
      case BootSucceeds(i) => BootSucceedsKeepsRoomy(s, i);
      case BootFails(i) => OutKeepsRoomy(s, Step(s, e));
      case Discarded(i) => OutKeepsRoomy(s, Step(s, e));
    }
  }

  lemma MountKeepsRoomy(s: State)
    requires Roomy(s) && !Crowded(s)
    ensures Roomy(Step(s, Event.Mount))
  {
    var s' := Step(s, Event.Mount);
    assert forall j: nat ::
        j < |s.instances| ==> s'.instances[j] == s.instances[j] && Entering(s', j) == Entering(s, j);
  }

  lemma TornDownKeepsRoomy(s: State, n: nat)
    requires Roomy(s) && Enabled(s, TornDown(n))
    ensures Roomy(Step(s, TornDown(n)))
  {
    forall j: nat | Entering(Step(s, TornDown(n)), j) ensures Entering(s, j) {}
  }

  lemma ResumeKeepsRoomy(s: State, i: nat)
    requires Roomy(s) && Enabled(s, Resume(i))
    ensures Roomy(Step(s, Resume(i)))
  {
    var s' := Step(s, Resume(i));
    forall j: nat | Entering(s', j) ensures Entering(s, j) && (j != i ==> s'.instances[j] == s.instances[j]) {}
  }

  lemma BootSucceedsKeepsRoomy(s: State, i: nat)
    requires Roomy(s) && Enabled(s, BootSucceeds(i))
    ensures Roomy(Step(s, BootSucceeds(i)))
  {
    var s' := Step(s, BootSucceeds(i));
    assert s.instances[i].mounted ==> Entering(s, i);
    forall j: nat | Entering(s', j) ensures Entering(s, j) && j != i && s'.instances[j] == s.instances[j] {}
  }

  /** Instances that stop entering disturb nothing. */
  lemma OutKeepsRoomy(s: State, s': State)
    requires Roomy(s) && s'.singleton == s.singleton && s'.pendingTeardown == s.pendingTeardown
    requires s'.tearing == s.tearing && s'.abandoned == s.abandoned
    requires forall j: nat :: Entering(s', j) ==> Entering(s, j) && s'.instances[j] == s.instances[j]
    ensures Roomy(s')
  {
  }

  lemma {:induction false} RunKeepsRoomy(run: seq<Event>, n: nat)
    requires n <= |run| && Uncrowded(run, 0, n)
    ensures Roomy(After(run, n))
  {
    if n > 0 {
      RunKeepsRoomy(run, n - 1);
      RunKeepsInv(run, n - 1);
      StepKeepsRoomy(After(run, n - 1), run[n - 1]);
    }
  }

  /**
   * However many instances mount: as long as none does while another is about to boot, no node is ever
   * abandoned, and when all is quiet the nodes not disposed of are the singleton, or none when nothing is mounted.
   */
  lemma {:induction false} UncrowdedIsClean(run: seq<Event>, n: nat)
    requires n <= |run| && Uncrowded(run, 0, n)
    ensures var s := After(run, n);
            s.abandoned == {} && (Quiescent(s) ==> s.live == SetOf(s.singleton) && (NothingMounted(s) ==> s.live == {}))
  {
    RunKeepsRoomy(run, n);
    if Quiescent(After(run, n)) { QuietNodes(run, n); }
  }

  function Steps(s: State, events: seq<Event>): State
    decreases |events|
  {
    if events == [] then s else Steps(Step(s, events[0]), events[1..])
  }

  lemma {:induction false} AfterSteps(run: seq<Event>, n: nat, m: nat)
    requires n <= m <= |run|
    ensures After(run, m) == Steps(After(run, n), run[n..m])
    decreases m - n
  {
    if n < m {
      assert run[n..m][0] == run[n] && run[n..m][1..] == run[n + 1..m];
      AfterSteps(run, n + 1, m);
    }
  }

  /** The run of the first `n` events, and then these. */
  lemma {:induction false} ThenSteps(run: seq<Event>, n: nat, events: seq<Event>) returns (run': seq<Event>)
    requires n <= |run|
    ensures run' == run[..n] + events && After(run', n + |events|) == Steps(After(run, n), events)
  {
    run' := run[..n] + events;
    assert run'[..n] == run[..n] && run'[n..n + |events|] == events;
    AfterSteps(run', n, n + |events|);
    SamePrefix(run, run', n);
  }

  /** Two instances boot: the node of the one that succeeds first is replaced. */
  lemma {:induction false} BothSucceed(s: State, i: nat, j: nat)
    requires Inv(s) && i != j && i < |s.instances| && j < |s.instances|
    requires s.instances[i].mounted && s.instances[i].phase.Booting? && s.instances[j].mounted
             && s.instances[j].phase.Booting?
    ensures s.nodes in Steps(s, [BootSucceeds(i), BootSucceeds(j)]).abandoned
  {
    var s1 := Step(s, BootSucceeds(i));
    assert s.nodes !in s.live;
    assert [BootSucceeds(i), BootSucceeds(j)][1..] == [BootSucceeds(j)];
    assert s1.instances[j] == s.instances[j] && s.nodes in Step(s1, BootSucceeds(j)).abandoned;
    assert Steps(s1, [BootSucceeds(j)]) == Step(s1, BootSucceeds(j));
  }

  /** With no teardown and no singleton, an instance that waits begins to boot. */
  lemma BothEnter(s: State, i: nat, j: nat) returns (events: seq<Event>)
    requires Inv(s) && i != j && Entering(s, i) && Entering(s, j) && s.singleton.None? && s.tearing == {}
    ensures Event.Mount !in events && Steps(s, events).abandoned != {}
    decreases (if s.instances[i].phase.Waiting? then 1 else 0) + (if s.instances[j].phase.Waiting? then 1 else 0)
  {
    if s.instances[i].phase.Booting? && s.instances[j].phase.Booting? {
      BothSucceed(s, i, j);
      events := [BootSucceeds(i), BootSucceeds(j)];
    } else {
      var e := Resume(if s.instances[i].phase.Waiting? then i else j);
      StepKeepsInv(s, e);
      var rest := BothEnter(Step(s, e), i, j);
      events := [e] + rest;
      assert events[1..] == rest;
    }
  }

  /** After a crowded mount the run can go on, without another mount, to a node that is abandoned. */
  lemma CrowdedMountLeaks(s: State) returns (events: seq<Event>)
    requires Inv(s) && Roomy(s) && Crowded(s)
    ensures Event.Mount !in events && Steps(Step(s, Event.Mount), events).abandoned != {}
  {
    var i: nat :| Entering(s, i);
    var s1 := Step(s, Event.Mount);
    StepKeepsInv(s, Event.Mount);
    assert Entering(s1, i) && Entering(s1, |s.instances|);
    if s.pendingTeardown.Some? {
      var e := TornDown(s.pendingTeardown.value);
      StepKeepsInv(s1, e);
      assert Entering(Step(s1, e), i) && Entering(Step(s1, e), |s.instances|);
      var rest := BothEnter(Step(s1, e), i, |s.instances|);
      events := [e] + rest;
      assert events[1..] == rest;
    } else {
      events := BothEnter(s1, i, |s.instances|);
    }
  }

  /** The run as it is up to event `n`, and from then on no crowded mount. */
  ghost predicate ContinuesUncrowded(run: seq<Event>, n: nat, run': seq<Event>, n': nat) {
    n <= |run| && n <= n' <= |run'| && run'[..n] == run[..n] && Uncrowded(run', n, n')
  }

  lemma {:induction false} StaysUncrowded(run: seq<Event>, n: nat, run': seq<Event>, n': nat)
    requires n < |run| && Uncrowded(run, 0, n) && !Crowded(After(run, n)) && ContinuesUncrowded(run, n + 1, run', n')
    ensures Uncrowded(run', 0, n')
  {
    forall k | 0 <= k < n' && run'[k] == Event.Mount ensures !Crowded(After(run', k)) {
      if k <= n {
        assert run'[k] == run'[..n + 1][k] == run[k];
        assert run'[..k] == run'[..n + 1][..k] == run[..n + 1][..k] == run[..k];
        SamePrefix(run, run', k);
      }
    }
  }

  lemma NoMountsIn(run: seq<Event>, n: nat, events: seq<Event>, run': seq<Event>)
    requires n <= |run| && run' == run[..n] + events && forall k :: 0 <= k < |events| ==> events[k] != Event.Mount
    ensures ContinuesUncrowded(run, n, run', n + |events|)
  {
    forall k | n <= k < n + |events| ensures run'[k] != Event.Mount { assert run'[k] == events[k - n]; }
  }

  /** From a crowded mount the run can go on to a node that is abandoned. */
  lemma {:induction false} CrowdedLeaks(run: seq<Event>, n: nat) returns (run': seq<Event>, n': nat)
    requires n < |run| && Uncrowded(run, 0, n) && run[n] == Event.Mount && Crowded(After(run, n))
    ensures ContinuesUncrowded(run, n + 1, run', n') && After(run', n').abandoned != {}
  {
    RunKeepsInv(run, n);
    RunKeepsRoomy(run, n);
    var events := CrowdedMountLeaks(After(run, n));
    n' := n + 1 + |events|;
    run' := ThenSteps(run, n + 1, events);
    NoMountsIn(run, n + 1, events, run');
  }

  /**
   * If no mount was crowded so far and none will be, mounting one more instance now can lead to a node that
   * is never disposed of, if and only if this mount is crowded.
   */
  lemma {:induction false} LeakIff(run: seq<Event>, n: nat)
    requires n < |run| && Uncrowded(run, 0, n) && run[n] == Event.Mount
    ensures (exists run', n' :: ContinuesUncrowded(run, n + 1, run', n') && After(run', n').abandoned != {})
            <==> Crowded(After(run, n))
  {
    if Crowded(After(run, n)) {
      var run', n' := CrowdedLeaks(run, n);
    } else {
      forall run', n' | ContinuesUncrowded(run, n + 1, run', n') ensures After(run', n').abandoned == {} {
        StaysUncrowded(run, n, run', n');
        UncrowdedIsClean(run', n');
      }
    }
  }

  /** Two instances mounted at once can both boot, and then the first node is never disposed of. */
  lemma OverlappingMountsLeak()
    ensures var run :=
              [Event.Mount, Event.Mount, BootSucceeds(0), BootSucceeds(1), Unmount(0), Unmount(1), TornDown(1)];
            var s := After(run, 7);
            Quiescent(s) && NothingMounted(s) && s.singleton == None && s.live == {0} == s.abandoned
  {
    var run := [Event.Mount, Event.Mount, BootSucceeds(0), BootSucceeds(1), Unmount(0), Unmount(1), TornDown(1)];
    var s1, s2, s3 := After(run, 1), After(run, 2), After(run, 3);
    assert s1 == State(None, None, [Instance(true, None, Booting)], 0, {}, {}, {});
    assert s2 == State(None, None, [Instance(true, None, Booting), Instance(true, None, Booting)], 0, {}, {}, {});
    assert s3 == State(Some(0), None, [Instance(true, Some(0), Ended), Instance(true, None, Booting)], 1, {0}, {}, {});
    var s4, s5 := After(run, 4), After(run, 5);
    var one, other := Instance(true, Some(0), Ended), Instance(true, Some(1), Ended);
    assert s4 == State(Some(1), None, [one, other], 2, {0, 1}, {}, {0});
    assert s5 == State(Some(1), None, [one.(mounted := false), other], 2, {0, 1}, {}, {0});
    var s6, s7 := After(run, 6), After(run, 7);
    assert s6 == State(Some(1), Some(1), [one.(mounted := false), other.(mounted := false)], 2, {0, 1}, {1}, {0});
    assert s7 == State(None, None, [one.(mounted := false), other.(mounted := false)], 2, {0}, {}, {0});
  }
}
