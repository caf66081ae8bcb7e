/** The chat threads: messages in memory, written through to a durable log and read back from it. */
module ChatThread {
  import opened Sorting
  import opened Wrappers

  type Metadata = map<string, string>

  datatype Message = Message(
    id: nat, thread: string, kind: string, content: string,
    metadata: Option<Metadata>, sources: Option<seq<string>>, timestamp: int)

  datatype Row = Row(
    id: nat, thread: string, kind: string, content: string,
    metadata: Metadata, sources: seq<string>, timestamp: int)

  function Stored(m: Message): Row {
    Row(m.id, m.thread, m.kind, m.content, if m.metadata.Some? then m.metadata.value else map[],
        if m.sources.Some? then m.sources.value else [], m.timestamp)
  }

  function Restored(r: Row): Message {
    Message(r.id, r.thread, r.kind, r.content, if r.metadata != map[] then Some(r.metadata) else None,
            if r.sources != [] then Some(r.sources) else None, r.timestamp)
  }

  function RestoredAll(rows: seq<Row>): (r: seq<Message>)
    ensures |r| == |rows| && forall k :: 0 <= k < |rows| ==> r[k] == Restored(rows[k])
  {
    seq(|rows|, k requires 0 <= k < |rows| => Restored(rows[k]))
  }

  /** What storing and reading back makes of messages: empty metadata and sources become absent. */
  function Normal(messages: seq<Message>): (r: seq<Message>)
    ensures |r| == |messages| && forall k :: 0 <= k < |messages| ==> r[k] == Restored(Stored(messages[k]))
  {
    seq(|messages|, k requires 0 <= k < |messages| => Restored(Stored(messages[k])))
  }

  // ---- The repository ----------------------------------------------------------------------------

  /** Whether a repository is installed, and, if so, whether the call at hand throws. */
  datatype Repo = Missing | Failing | Working

  function Filter(rows: seq<Row>, keep: Row -> bool): (r: seq<Row>)
    ensures forall x :: x in r ==> x in rows && keep(x)
  {
    if rows == [] then []
    else
      var last := rows[|rows| - 1];
      Filter(rows[..|rows| - 1], keep) + if keep(last) then [last] else []
  }

  function InThread(thread: string): Row -> bool {
    (r: Row) => r.thread == thread
  }

  function NotInThread(thread: string): Row -> bool {
    (r: Row) => r.thread != thread
  }

  function OtherId(id: nat): Row -> bool {
    (r: Row) => r.id != id
  }

  function Of(rows: seq<Row>, thread: string): seq<Row> {
    Filter(rows, InThread(thread))
  }

  function NotOf(rows: seq<Row>, thread: string): seq<Row> {
    Filter(rows, NotInThread(thread))
  }

  /** `append`, which replaces a row with the same id. */
  function Append(rows: seq<Row>, r: Row): seq<Row> {
    Filter(rows, OtherId(r.id)) + [r]
  }

  predicate NotLater(a: Row, b: Row) {
    a.timestamp <= b.timestamp
  }

  /** `listByThread`: by time, and in the order of insertion at the same time. */
  function List(rows: seq<Row>, thread: string): seq<Row> {
    Sort(Of(rows, thread), NotLater)
  }

  // ---- The thread store --------------------------------------------------------------------------

  datatype Store = Store(threads: map<string, seq<Message>>, rows: seq<Row>)

  function Memory(s: Store, thread: string): seq<Message> {
    if thread in s.threads then s.threads[thread] else []
  }

  function Log(s: Store, thread: string): seq<Message> {
    RestoredAll(List(s.rows, thread))
  }

  function Added(s: Store, m: Message, repo: Repo): Store {
    Store(s.threads[m.thread := Memory(s, m.thread) + [m]], if repo.Working? then Append(s.rows, Stored(m)) else s.rows)
  }

  predicate Reads(s: Store, thread: string, force: bool, repo: Repo) {
    repo.Working? && (force || Memory(s, thread) == [])
  }

  function Hydrated(s: Store, thread: string, force: bool, repo: Repo): Store {
    if Reads(s, thread, force, repo) then s.(threads := s.threads[thread := Log(s, thread)]) else s
  }

  function Deleted(s: Store, thread: string, repo: Repo): Store {
    Store(s.threads - {thread}, if repo.Working? then NotOf(s.rows, thread) else s.rows)
  }

  /** Memory does not outlive the process. */
  function Restarted(s: Store): Store {
    s.(threads := map[])
  }

  class Threads {
    var threads: map<string, seq<Message>>
    var rows: seq<Row>

    constructor ()
      ensures Value() == Store(map[], [])
    {
      threads, rows := map[], [];
    }

    function Value(): Store
      reads this
    {
      Store(threads, rows)
    }

    /** `addMessage`; a failing repository does not keep the message out of memory. */
    method AddMessage(thread: string, kind: string, content: string, metadata: Option<Metadata>,
                      sources: Option<seq<string>>, id: nat, now: int, repo: Repo)
      returns (m: Message)
      modifies this
      ensures m == Message(id, thread, kind, content, metadata, sources, now)
      ensures Value() == Added(old(Value()), m, repo)
    {
      var messages := [];
      if thread in threads { messages := threads[thread]; }
      m := Message(id, thread, kind, content, metadata, sources, now);
      threads := threads[thread := messages + [m]];
      PersistMessage(m, repo);
    }

    /** `persistMessage` */
    method PersistMessage(m: Message, repo: Repo)
      modifies this`rows
      ensures rows == if repo.Working? then Append(old(rows), Stored(m)) else old(rows)
    {
      if repo.Working? { rows := Append(rows, Stored(m)); }
    }

    /** `hydrateThread`; a failing repository makes it throw. */
    method HydrateThread(thread: string, force: bool, repo: Repo) returns (count: Option<nat>)
      modifies this`threads
      ensures Value() == Hydrated(old(Value()), thread, force, repo)
      ensures count == if Reads(old(Value()), thread, force, repo) then Some(|Log(old(Value()), thread)|)
                       else if repo.Failing? && (force || Memory(old(Value()), thread) == []) then None else Some(0)
    {
      if repo.Missing? { return Some(0); }
      if !force && thread in threads && |threads[thread]| > 0 { return Some(0); }
      if repo.Failing? { return None; }
      var listed := List(rows, thread);
      var messages := [];
      for k := 0 to |listed|
        invariant messages == RestoredAll(listed[..k])
      {
        assert listed[..k + 1] == listed[..k] + [listed[k]];
        messages := messages + [Restored(listed[k])];
      }
      assert listed[..|listed|] == listed;
      threads := threads[thread := messages];
      count := Some(|messages|);
    }

    /** `deleteThread` */
    method DeleteThread(thread: string, repo: Repo) returns (deleted: bool)
      modifies this
      ensures Value() == Deleted(old(Value()), thread, repo) && deleted == (thread in old(threads))
    {
      if repo.Working? { rows := NotOf(rows, thread); }
      deleted := thread in threads;
      threads := threads - {thread};
    }
  }

  // ---- Memory and log ----------------------------------------------------------------------------

  predicate Suffix(a: seq<Message>, b: seq<Message>) {
    |a| <= |b| && b[|b| - |a|..] == a
  }

  /** Memory, as it would be read back, is the end of the log. */
  predicate Coherent(s: Store, thread: string) {
    Suffix(Normal(Memory(s, thread)), Log(s, thread))
  }

  predicate FreshId(s: Store, id: nat) {
    forall k :: 0 <= k < |s.rows| ==> s.rows[k].id != id
  }

  lemma {:induction false} FilterAll(rows: seq<Row>, keep: Row -> bool)
    requires forall k :: 0 <= k < |rows| ==> keep(rows[k])
    ensures Filter(rows, keep) == rows
  {
    if rows != [] {
      var init := rows[..|rows| - 1];
      FilterAll(init, keep);
      assert keep(rows[|rows| - 1]) && init + [rows[|rows| - 1]] == rows;
    }
  }

  lemma {:induction false} FilterNone(rows: seq<Row>, keep: Row -> bool)
    requires forall k :: 0 <= k < |rows| ==> !keep(rows[k])
    ensures Filter(rows, keep) == []
  {
    if rows != [] { FilterNone(rows[..|rows| - 1], keep); }
  }

  lemma {:induction false} FilterLast(rows: seq<Row>, r: Row, keep: Row -> bool)
    ensures Filter(rows + [r], keep) == Filter(rows, keep) + if keep(r) then [r] else []
  {
    assert (rows + [r])[..|rows|] == rows;
  }

  lemma FilterInit(rows: seq<Row>, keep: Row -> bool)
    requires rows != []
    ensures var init, last := rows[..|rows| - 1], rows[|rows| - 1];
            Filter(rows, keep) == if keep(last) then Filter(init, keep) + [last] else Filter(init, keep)
  {
  }

  lemma {:induction false} FilterCommutes(rows: seq<Row>, p: Row -> bool, q: Row -> bool)
    ensures Filter(Filter(rows, p), q) == Filter(Filter(rows, q), p)
  {
    if rows != [] {
      var init, last := rows[..|rows| - 1], rows[|rows| - 1];
      FilterCommutes(init, p, q);
      FilterInit(rows, p);
      FilterInit(rows, q);
      if p(last) { FilterLast(Filter(init, p), last, q); }
      if q(last) { FilterLast(Filter(init, q), last, p); }
    }
  }

  lemma OfNotOf(rows: seq<Row>, deleted: string, thread: string)
    ensures Of(NotOf(rows, deleted), thread) == if thread == deleted then [] else Of(rows, thread)
  {
    if thread == deleted {
      var kept := NotOf(rows, deleted);
      forall k | 0 <= k < |kept| ensures !InThread(thread)(kept[k]) { assert kept[k] in kept; }
      FilterNone(kept, InThread(thread));
    } else {
      FilterCommutes(rows, NotInThread(deleted), InThread(thread));
      var kept := Of(rows, thread);
      forall k | 0 <= k < |kept| ensures NotInThread(deleted)(kept[k]) { assert kept[k] in kept; }
      FilterAll(kept, NotInThread(deleted));
    }
  }

  lemma {:induction false} SortAppend(s: seq<Row>, r: Row)
    requires forall k :: 0 <= k < |s| ==> NotLater(s[k], r)
    ensures Sort(s + [r], NotLater) == Sort(s, NotLater) + [r]
  {
    if s != [] {
      SortAppend(s[1..], r);
      assert (s + [r])[1..] == s[1..] + [r];
      InsertBefore(s[0], Sort(s[1..], NotLater), r);
    } else {
      assert s + [r] == [r];
    }
  }

  lemma {:induction false} InsertBefore(x: Row, s: seq<Row>, r: Row)
    requires NotLater(x, r)
    ensures Insert(x, s + [r], NotLater) == Insert(x, s, NotLater) + [r]
  {
    if s != [] && !NotLater(x, s[0]) {
      InsertBefore(x, s[1..], r);
      assert (s + [r])[1..] == s[1..] + [r];
    } else if s == [] {
      assert s + [r] == [r];
    }
  }

  /** The rows of the thread a message is added to, and of the others. */
  lemma RowsAdded(s: Store, m: Message, thread: string)
    requires FreshId(s, m.id)
    ensures Of(Added(s, m, Working).rows, thread)
            == if m.thread == thread then Of(s.rows, thread) + [Stored(m)] else Of(s.rows, thread)
  {
    FilterAll(s.rows, OtherId(m.id));
    FilterLast(s.rows, Stored(m), InThread(thread));
  }

  predicate NoneLater(s: Store, thread: string, now: int) {
    forall x :: x in Of(s.rows, thread) ==> x.timestamp <= now
  }

  lemma UnstoredIsIncoherent(s: Store, m: Message)
    requires FreshId(s, m.id)
    ensures !Suffix(Normal(Memory(s, m.thread) + [m]), Log(s, m.thread))
  {
    var a, b, rows := Normal(Memory(s, m.thread) + [m]), Log(s, m.thread), List(s.rows, m.thread);
    SortKeepsElements(Of(s.rows, m.thread), NotLater);
    forall k | 0 <= k < |b| ensures b[k].id != m.id { assert rows[k] in rows && rows[k] in s.rows; }
    assert a[|a| - 1].id == m.id;
    if Suffix(a, b) { LastOfSuffix(a, b); }
  }

  lemma {:induction false} LastIsLatest(rows: seq<Row>, r: Row)
    requires rows != []
    requires var sorted := Sort(rows, NotLater); Restored(sorted[|sorted| - 1]) == Restored(r)
    ensures forall x :: x in rows ==> x.timestamp <= r.timestamp
  {
    var sorted := Sort(rows, NotLater);
    SortKeepsElements(rows, NotLater);
    SortSorts(rows, NotLater);
    forall x | x in rows ensures x.timestamp <= r.timestamp {
      assert x in sorted;
      var k :| 0 <= k < |sorted| && sorted[k] == x;
      assert k < |sorted| - 1 ==> NotLater(sorted[k], sorted[|sorted| - 1]);
    }
  }

  lemma SuffixGrows(a: seq<Message>, b: seq<Message>, x: Message)
    requires Suffix(a, b)
    ensures Suffix(a + [x], b + [x])
  {
  }

  lemma LastOfSuffix(a: seq<Message>, b: seq<Message>)
    requires Suffix(a, b) && a != []
    ensures b != [] && b[|b| - 1] == a[|a| - 1]
  {
    assert b[|b| - 1] == b[|b| - |a|..][|a| - 1];
  }

  lemma NormalGrows(messages: seq<Message>, m: Message)
    ensures Normal(messages + [m]) == Normal(messages) + [Restored(Stored(m))]
  {
  }

  lemma RestoredGrow(rows: seq<Row>, row: Row)
    ensures RestoredAll(rows + [row]) == RestoredAll(rows) + [Restored(row)]
  {
  }

  lemma LogGrows(s: Store, m: Message)
    requires FreshId(s, m.id) && NoneLater(s, m.thread, m.timestamp)
    ensures Log(Added(s, m, Working), m.thread) == Log(s, m.thread) + [Restored(Stored(m))]
  {
    RowsAdded(s, m, m.thread);
    SortAppend(Of(s.rows, m.thread), Stored(m));
    RestoredGrow(List(s.rows, m.thread), Stored(m));
  }

  lemma AddInOrder(s: Store, m: Message)
    requires FreshId(s, m.id) && Coherent(s, m.thread) && NoneLater(s, m.thread, m.timestamp)
    ensures Coherent(Added(s, m, Working), m.thread)
  {
    LogGrows(s, m);
    NormalGrows(Memory(s, m.thread), m);
    SuffixGrows(Normal(Memory(s, m.thread)), Log(s, m.thread), Restored(Stored(m)));
  }

  lemma AddOutOfOrder(s: Store, m: Message)
    requires FreshId(s, m.id) && Coherent(Added(s, m, Working), m.thread)
    ensures NoneLater(s, m.thread, m.timestamp)
  {
    var s', rows := Added(s, m, Working), Of(s.rows, m.thread);
    RowsAdded(s, m, m.thread);
    NormalGrows(Memory(s, m.thread), m);
    LastOfSuffix(Normal(Memory(s', m.thread)), Log(s', m.thread));
    LastIsLatest(rows + [Stored(m)], Stored(m));
    forall x | x in rows ensures x.timestamp <= m.timestamp { assert x in rows + [Stored(m)]; }
  }

  /** Adding keeps memory the end of the log exactly if the message is stored and no row of the thread is later. */
  lemma AddKeepsCoherence(s: Store, m: Message, repo: Repo)
    requires FreshId(s, m.id) && Coherent(s, m.thread)
    ensures Coherent(Added(s, m, repo), m.thread) <==> repo.Working? && NoneLater(s, m.thread, m.timestamp)
  {
    if !repo.Working? {
      UnstoredIsIncoherent(s, m);
    } else {
      if NoneLater(s, m.thread, m.timestamp) { AddInOrder(s, m); }
      if Coherent(Added(s, m, repo), m.thread) { AddOutOfOrder(s, m); }
    }
  }

  /** What other threads hold and log, adding to one leaves alone. */
  lemma AddIsLocal(s: Store, m: Message, repo: Repo, thread: string)
    requires FreshId(s, m.id) && thread != m.thread
    ensures Memory(Added(s, m, repo), thread) == Memory(s, thread) && Log(Added(s, m, repo), thread) == Log(s, thread)
  {
    RowsAdded(s, m, thread);
  }

  lemma RestoredIsNormal(rows: seq<Row>)
    ensures Normal(RestoredAll(rows)) == RestoredAll(rows)
  {
  }

  /** Of a message only metadata and sources can change by being stored, and only if they are there and empty. */
  lemma StoringKeeps(m: Message)
    ensures Restored(Stored(m)) == m.(metadata := if m.metadata == Some(map[]) then None else m.metadata,
                                      sources := if m.sources == Some([]) then None else m.sources)
  {
  }

  lemma {:induction false} FilterHas(rows: seq<Row>, keep: Row -> bool, r: Row)
    ensures multiset(Filter(rows, keep))[r] == if keep(r) then multiset(rows)[r] else 0
    decreases |rows|
  {
    if rows != [] {
      var last := |rows| - 1;
      FilterHas(rows[..last], keep, r);
      assert rows == rows[..last] + [rows[last]];
    }
  }

  /** Reading a thread lists exactly its rows, by time, those of the same time in the order in which they are stored. */
  lemma {:induction false} ListedRows(rows: seq<Row>, thread: string, r: Row)
    ensures multiset(List(rows, thread))[r] == if r.thread == thread then multiset(rows)[r] else 0
    ensures SortedBy(List(rows, thread), NotLater)
    ensures r in Of(rows, thread) ==> Ties(List(rows, thread), NotLater, r) == Ties(Of(rows, thread), NotLater, r)
  {
    FilterHas(rows, InThread(thread), r);
    SortKeepsElements(Of(rows, thread), NotLater);
    SortSorts(Of(rows, thread), NotLater);
    if r in Of(rows, thread) { SortKeepsTies(Of(rows, thread), NotLater, r); }
  }

  /** A row is stored at the end, and takes the place of one with its id. */
  lemma AppendedRows(rows: seq<Row>, x: Row, r: Row)
    ensures Append(rows, x) != [] && Append(rows, x)[|Append(rows, x)| - 1] == x
    ensures r in Append(rows, x) <==> r == x || (r in rows && r.id != x.id)
  {
    FilterHas(rows, OtherId(x.id), r);
    assert r in Filter(rows, OtherId(x.id)) <==> multiset(Filter(rows, OtherId(x.id)))[r] > 0;
    assert r in rows <==> multiset(rows)[r] > 0;
  }

  /** A hydration that reads makes memory and log equal; one that does not changes nothing. */
  lemma HydrateMakesEqual(s: Store, thread: string, force: bool, repo: Repo, other: string)
    ensures var s' := Hydrated(s, thread, force, repo);
            && Log(s', other) == Log(s, other)
            && (if repo == Working && (force || thread !in s.threads || s.threads[thread] == []) && other == thread
                then Normal(Memory(s', thread)) == Memory(s', thread) == Log(s', thread) && Coherent(s', thread)
                else Memory(s', other) == Memory(s, other))
  {
    RestoredIsNormal(List(s.rows, thread));
  }

  /** Deleting and restarting keep every thread coherent, whatever the repository does. */
  lemma DeleteKeepsCoherence(s: Store, thread: string, repo: Repo, other: string)
    requires Coherent(s, other)
    ensures Coherent(Deleted(s, thread, repo), other) && Coherent(Restarted(s), other)
    ensures repo.Working? ==> Log(Deleted(s, thread, repo), thread) == [] == Memory(Deleted(s, thread, repo), thread)
    ensures other != thread ==> Log(Deleted(s, thread, repo), other) == Log(s, other)
  {
    OfNotOf(s.rows, thread, other);
    OfNotOf(s.rows, thread, thread);
  }

  // ---- Whole runs --------------------------------------------------------------------------------

  datatype Event =
    | Add(message: Message, repo: Repo)
    | Hydrate(thread: string, force: bool, repo: Repo)
    | Delete(thread: string, repo: Repo)
    | Restart

  /** `own` are the messages this process has added. */
  datatype Process = Process(store: Store, own: seq<Message>)

  function Step(p: Process, e: Event): Process {
    match e
    case Add(m, repo) => Process(Added(p.store, m, repo), p.own + [m])
    case Hydrate(thread, force, repo) => p.(store := Hydrated(p.store, thread, force, repo))
    case Delete(thread, repo) => p.(store := Deleted(p.store, thread, repo))
    case Restart => Process(Restarted(p.store), [])
  }

  function After(run: seq<Event>, n: nat): Process
    requires n <= |run|
  {
    if n == 0 then Process(Store(map[], []), []) else Step(After(run, n - 1), run[n - 1])
  }

  /** Ids are random: no two messages share one. */
  predicate FreshIds(run: seq<Event>) {
    forall i, j :: 0 <= i < j < |run| && run[i].Add? && run[j].Add? ==> run[i].message.id != run[j].message.id
  }

  /** The clock does not go back, and every message is stored. */
  predicate InOrder(run: seq<Event>) {
    && (forall i :: 0 <= i < |run| && run[i].Add? ==> run[i].repo.Working?)
    && (forall i, j ::
          0 <= i < j < |run| && run[i].Add? && run[j].Add? ==> run[i].message.timestamp <= run[j].message.timestamp)
  }

  predicate AddedBefore(run: seq<Event>, n: nat, r: Row)
    requires n <= |run|
  {
    exists i :: 0 <= i < n && run[i].Add? && Stored(run[i].message) == r
  }

  lemma AddedEarlier(run: seq<Event>, n: nat, r: Row)
    requires n < |run| && AddedBefore(run, n, r)
    ensures AddedBefore(run, n + 1, r)
  {
    var i :| 0 <= i < n && run[i].Add? && Stored(run[i].message) == r;
  }

  /** Every row stems from a message added earlier. */
  lemma {:induction false} RowsAreAdded(run: seq<Event>, n: nat, r: Row)
    requires n <= |run| && r in After(run, n).store.rows
    ensures AddedBefore(run, n, r)
  {
    var p := After(run, n - 1).store;
    if r in p.rows {
      RowsAreAdded(run, n - 1, r);
      AddedEarlier(run, n - 1, r);
    } else {
      assert run[n - 1].Add? && r == Stored(run[n - 1].message);
    }
  }

  lemma {:induction false} AddIsFresh(run: seq<Event>, n: nat)
    requires n < |run| && run[n].Add? && FreshIds(run)
    ensures FreshId(After(run, n).store, run[n].message.id)
    ensures InOrder(run) ==> NoneLater(After(run, n).store, run[n].message.thread, run[n].message.timestamp)
  {
    var s := After(run, n).store;
    forall k | 0 <= k < |s.rows|
      ensures s.rows[k].id != run[n].message.id && (InOrder(run) ==> s.rows[k].timestamp <= run[n].message.timestamp)
    {
      assert s.rows[k] in s.rows;
      RowsAreAdded(run, n, s.rows[k]);
      var i :| 0 <= i < n && run[i].Add? && Stored(run[i].message) == s.rows[k];
    }
  }

  lemma StepKeepsCoherence(p: Process, e: Event, thread: string)
    requires Coherent(p.store, thread)
    requires e.Add? ==> && FreshId(p.store, e.message.id) && e.repo.Working?
                        && NoneLater(p.store, e.message.thread, e.message.timestamp)
    ensures Coherent(Step(p, e).store, thread)
  {
    match e
    case Add(m, repo) =>
      if m.thread == thread { AddKeepsCoherence(p.store, m, repo); } else { AddIsLocal(p.store, m, repo, thread); }
    case Hydrate(other, force, repo) => HydrateMakesEqual(p.store, other, force, repo, thread);
    case Delete(other, repo) => DeleteKeepsCoherence(p.store, other, repo, thread);
    case Restart => DeleteKeepsCoherence(p.store, thread, Missing, thread);
  }

  /** What holds at first and is kept by every event, holds after every run. */
  lemma {:induction false} RunKeeps(run: seq<Event>, n: nat, inv: Process -> bool)
    requires n <= |run| && inv(After(run, 0))
    requires forall k :: 0 < k <= n && inv(After(run, k - 1)) ==> inv(After(run, k))
    ensures inv(After(run, n))
  {
    if n > 0 { RunKeeps(run, n - 1, inv); }
  }

  function InvariantOf(thread: string): Process -> bool {
    (p: Process) => Coherent(p.store, thread)
  }

  lemma {:induction false} NextIsCoherent(run: seq<Event>, n: nat, thread: string)
    requires 0 < n <= |run| && FreshIds(run) && InOrder(run) && Coherent(After(run, n - 1).store, thread)
    ensures Coherent(After(run, n).store, thread)
  {
    var p, e := After(run, n - 1), run[n - 1];
    if e.Add? {
      AddIsFresh(run, n - 1);
      assert e.repo.Working?;
    }
    StepKeepsCoherence(p, e, thread);
    assert After(run, n) == Step(p, e);
  }

  lemma StartIsCoherent(thread: string)
    ensures Coherent(Store(map[], []), thread)
  {
  }

  /**
   * In every run in which the clock does not go back and every message is stored, each thread is the end
   * of its log.
   */
  lemma {:induction false} RunIsCoherent(run: seq<Event>, n: nat, thread: string)
    requires n <= |run| && FreshIds(run) && InOrder(run)
    ensures Coherent(After(run, n).store, thread)
  {
    var inv := InvariantOf(thread);
    StartIsCoherent(thread);
    forall k | 0 < k <= n && inv(After(run, k - 1)) ensures inv(After(run, k)) { NextIsCoherent(run, k, thread); }
    RunKeeps(run, n, inv);
  }

  // ---- When appends may fail ---------------------------------------------------------------------

  predicate Sub(a: seq<Row>, b: seq<Row>)
    decreases |b|
  {
    if a == [] then true
    else if b == [] then false
    else (a[|a| - 1] == b[|b| - 1] && Sub(a[..|a| - 1], b[..|b| - 1])) || Sub(a, b[..|b| - 1])
  }

  function StoredAll(messages: seq<Message>): (r: seq<Row>)
    ensures |r| == |messages| && forall k :: 0 <= k < |messages| ==> r[k] == Stored(messages[k])
  {
    seq(|messages|, k requires 0 <= k < |messages| => Stored(messages[k]))
  }

  predicate IsOwn(own: seq<Message>, r: Row) {
    exists k :: 0 <= k < |own| && own[k].id == r.id
  }

  function Owned(own: seq<Message>): Row -> bool {
    (r: Row) => IsOwn(own, r)
  }

  /** The rows of this process's own messages, in the order of insertion. */
  function OwnRows(rows: seq<Row>, own: seq<Message>): seq<Row> {
    Filter(rows, Owned(own))
  }

  lemma {:induction false} SubExtends(a: seq<Row>, b: seq<Row>, x: Row)
    requires Sub(a, b)
    ensures Sub(a, b + [x]) && Sub(a + [x], b + [x])
  {
    assert (b + [x])[..|b|] == b && (a + [x])[..|a|] == a;
  }

  /** Dropping rows keeps a subsequence. */
  lemma {:induction false} SubFilter(a: seq<Row>, b: seq<Row>, keep: Row -> bool)
    requires Sub(a, b)
    ensures Sub(Filter(a, keep), b)
    decreases |b|
  {
    if a != [] {
      var x, y, a', b' := a[|a| - 1], b[|b| - 1], a[..|a| - 1], b[..|b| - 1];
      assert b' + [y] == b;
      FilterInit(a, keep);
      if x == y && Sub(a', b') {
        SubFilter(a', b', keep);
        SubExtends(Filter(a', keep), b', y);
      } else {
        SubFilter(a, b', keep);
        SubExtends(Filter(a, keep), b', y);
      }
    }
  }

  lemma {:induction false} FilterSame(rows: seq<Row>, p: Row -> bool, q: Row -> bool)
    requires forall k :: 0 <= k < |rows| ==> p(rows[k]) == q(rows[k])
    ensures Filter(rows, p) == Filter(rows, q)
  {
    if rows != [] { FilterSame(rows[..|rows| - 1], p, q); }
  }

  lemma OwnRowsAdded(rows: seq<Row>, own: seq<Message>, m: Message)
    requires forall k :: 0 <= k < |rows| ==> rows[k].id != m.id
    ensures OwnRows(rows, own + [m]) == OwnRows(rows, own)
  {
    forall k | 0 <= k < |rows| ensures IsOwn(own + [m], rows[k]) == IsOwn(own, rows[k]) {
      if IsOwn(own, rows[k]) {
        var j :| 0 <= j < |own| && own[j].id == rows[k].id;
        assert (own + [m])[j].id == rows[k].id;
      }
    }
    FilterSame(rows, Owned(own + [m]), Owned(own));
  }

  predicate OwnInOrder(p: Process) {
    Sub(OwnRows(p.store.rows, p.own), StoredAll(p.own))
  }

  lemma OwnAdd(p: Process, m: Message, repo: Repo)
    requires FreshId(p.store, m.id) && OwnInOrder(p)
    ensures OwnInOrder(Step(p, Add(m, repo)))
  {
    var rows, own := p.store.rows, p.own + [m];
    OwnRowsAdded(rows, p.own, m);
    assert StoredAll(own) == StoredAll(p.own) + [Stored(m)];
    SubExtends(OwnRows(rows, p.own), StoredAll(p.own), Stored(m));
    if repo.Working? {
      FilterAll(rows, OtherId(m.id));
      assert own[|p.own|].id == Stored(m).id;
      FilterLast(rows, Stored(m), Owned(own));
    }
  }

  lemma OwnDelete(p: Process, thread: string, repo: Repo)
    requires OwnInOrder(p)
    ensures OwnInOrder(Step(p, Delete(thread, repo)))
  {
    FilterCommutes(p.store.rows, NotInThread(thread), Owned(p.own));
    SubFilter(OwnRows(p.store.rows, p.own), StoredAll(p.own), NotInThread(thread));
  }

  lemma {:induction false} NextOwnInOrder(run: seq<Event>, n: nat)
    requires 0 < n <= |run| && FreshIds(run) && OwnInOrder(After(run, n - 1))
    ensures OwnInOrder(After(run, n))
  {
    var p := After(run, n - 1);
    match run[n - 1]
    case Add(m, repo) =>
      AddIsFresh(run, n - 1);
      OwnAdd(p, m, repo);
    case Hydrate(_, _, _) =>
    case Delete(thread, repo) => OwnDelete(p, thread, repo);
    case Restart => FilterNone(p.store.rows, Owned([]));
  }

  /** Whatever fails: the rows of the messages this process added are, in order, among what it added. */
  lemma {:induction false} OwnRowsAreSubsequence(run: seq<Event>, n: nat)
    requires n <= |run| && FreshIds(run)
    ensures OwnInOrder(After(run, n))
  {
    forall k | 0 < k <= n && OwnInOrder(After(run, k - 1)) ensures OwnInOrder(After(run, k)) { NextOwnInOrder(run, k); }
    RunKeeps(run, n, OwnInOrder);
  }
}
