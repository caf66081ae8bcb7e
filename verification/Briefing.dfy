/**
 * The daily briefing: items deduplicated by title, split into sections, and sorted by the priority of
 * their sources.
 */
module Briefing {
  import opened Text
  import opened Sequences
  import opened Sorting
  import opened Wrappers

  datatype Kind = Engagement | Reminder | Approval | Memory

  datatype Item = Item(kind: Kind, title: string, source: string, timestamp: int)

  // ---- Deduplication -----------------------------------------------------------------------------

  /** `lower` is `toLowerCase`, whatever it does beyond ASCII. */
  function Key(x: Item, lower: string -> string): string {
    Trim(lower(x.title))
  }

  predicate Newer(a: Item, b: Item) {
    a.timestamp >= b.timestamp
  }

  function Keep(items: seq<Item>, lower: string -> string, seen: set<string>): seq<Item> {
    if items == [] then []
    else
      var key := Key(items[0], lower);
      if key == [] then [items[0]] + Keep(items[1..], lower, seen)
      else if key in seen then Keep(items[1..], lower, seen)
      else [items[0]] + Keep(items[1..], lower, seen + {key})
  }

  function Dedup(items: seq<Item>, lower: string -> string): seq<Item> {
    Keep(Sort(items, Newer), lower, {})
  }

  /** What the loop over the sorted items has yet to add. */
  ghost predicate Pending(deduped: seq<Item>, rest: seq<Item>, lower: string -> string, seen: set<string>,
                          all: seq<Item>) {
    deduped + Keep(rest, lower, seen) == all
  }

  lemma KeepStep(deduped: seq<Item>, rest: seq<Item>, lower: string -> string, seen: set<string>, all: seq<Item>)
    requires rest != [] && Pending(deduped, rest, lower, seen, all)
    ensures var key := Key(rest[0], lower);
            if key == [] then Pending(deduped + [rest[0]], rest[1..], lower, seen, all)
            else if key in seen then Pending(deduped, rest[1..], lower, seen, all)
            else Pending(deduped + [rest[0]], rest[1..], lower, seen + {key}, all)
  {
  }

  /** `deduplicateByTitle` */
  method DeduplicateByTitle(items: seq<Item>, lower: string -> string) returns (deduped: seq<Item>)
    ensures deduped == Dedup(items, lower)
  {
    var seen: set<string> := {};
    deduped := [];
    var sorted := Sort(items, Newer);
    ghost var all := Keep(sorted, lower, {});
    assert sorted[0..] == sorted;
    for k := 0 to |sorted|
      invariant Pending(deduped, sorted[k..], lower, seen, all)
    {
      KeepStep(deduped, sorted[k..], lower, seen, all);
      assert sorted[k..][0] == sorted[k] && sorted[k..][1..] == sorted[k + 1..];
      var key := Key(sorted[k], lower);
      if key == [] {
        deduped := deduped + [sorted[k]];
        continue;
      }
      if key !in seen {
        seen := seen + {key};
        deduped := deduped + [sorted[k]];
      }
    }
  }

  function WithKey(items: seq<Item>, lower: string -> string, key: string): (r: seq<Item>)
    ensures forall x :: x in r <==> x in items && Key(x, lower) == key
  {
    if items == [] then []
    else (if Key(items[0], lower) == key then [items[0]] else []) + WithKey(items[1..], lower, key)
  }

  /** Of the items with one title the first is kept, of those without title all. */
  lemma {:induction false} KeptWithKey(items: seq<Item>, lower: string -> string, seen: set<string>, key: string)
    ensures var all := WithKey(items, lower, key);
            WithKey(Keep(items, lower, seen), lower, key)
            == if key == [] then all else if key in seen || all == [] then [] else [all[0]]
    decreases |items|
  {
    if items != [] {
      var first := Key(items[0], lower);
      var seen' := if first == [] || first in seen then seen else seen + {first};
      KeptWithKey(items[1..], lower, seen', key);
      var rest := Keep(items[1..], lower, seen');
      assert ([items[0]] + rest)[1..] == rest;
    }
  }

  lemma {:induction false} WithKeyOrder(items: seq<Item>, lower: string -> string, key: string, y: Item)
    requires SortedBy(items, Newer) && y in items && Key(y, lower) == key
    ensures var all := WithKey(items, lower, key); all != [] && Newer(all[0], y)
    decreases |items|
  {
    if Key(items[0], lower) == key {
      var k :| 0 <= k < |items| && items[k] == y;
      assert k > 0 ==> Newer(items[0], items[k]);
    } else {
      WithKeyOrder(items[1..], lower, key, y);
    }
  }

  /** For each title exactly one item is kept, and none with that title is newer. */
  lemma OnePerTitle(items: seq<Item>, lower: string -> string, x: Item)
    requires x in items && Key(x, lower) != []
    ensures var kept := WithKey(Dedup(items, lower), lower, Key(x, lower));
            && |kept| == 1 && kept[0] in items
            && forall y :: y in items && Key(y, lower) == Key(x, lower) ==> y.timestamp <= kept[0].timestamp
  {
    var sorted, key := Sort(items, Newer), Key(x, lower);
    SortKeepsElements(items, Newer);
    SortSorts(items, Newer);
    KeptWithKey(sorted, lower, {}, key);
    WithKeyOrder(sorted, lower, key, x);
    var all := WithKey(sorted, lower, key);
    assert all[0] in all;
    forall y | y in items && Key(y, lower) == key ensures y.timestamp <= all[0].timestamp {
      WithKeyOrder(sorted, lower, key, y);
    }
  }

  lemma {:induction false} WithKeyCounts(items: seq<Item>, lower: string -> string, key: string, x: Item)
    ensures multiset(WithKey(items, lower, key))[x] == if Key(x, lower) == key then multiset(items)[x] else 0
  {
    if items != [] {
      WithKeyCounts(items[1..], lower, key, x);
      assert items == [items[0]] + items[1..];
    }
  }

  /** Every item without title is kept, as often as it occurs. */
  lemma UntitledAreKept(items: seq<Item>, lower: string -> string, x: Item)
    requires Key(x, lower) == []
    ensures multiset(Dedup(items, lower))[x] == multiset(items)[x]
  {
    var sorted := Sort(items, Newer);
    SortKeepsElements(items, Newer);
    KeptWithKey(sorted, lower, {}, []);
    WithKeyCounts(sorted, lower, [], x);
    WithKeyCounts(Dedup(items, lower), lower, [], x);
  }

  // ---- Sorting by source -------------------------------------------------------------------------

  /** What looking up a source yields: a number, or, for the names that every object inherits, something else. */
  datatype Priority = Number(n: int) | Inherited(name: string)

  function PriorityOf(source: string): Priority {
    var s := LowerCaseAll(source);
    if s in ["finance", "financial", "bank"] then Number(6)
    else if s in ["health", "medical"] then Number(5)
    else if s in ["calendar", "event"] then Number(4)
    else if s in ["messaging", "telegram", "email"] then Number(3)
    else if s in ["rss", "feed"] then Number(2)
    else if s == "promo" then Number(0)
    else if s in ["constructor", "__proto__"] then Inherited(s)
    else Number(1)
  }

  /** From the most to the least important; sources of one set count the same. */
  const RANKS: seq<set<string>> :=
    [{"finance", "financial", "bank"}, {"health", "medical"}, {"calendar", "event"}, {"messaging", "telegram", "email"},
     {"rss", "feed"}]

  predicate HasRank(source: string, rank: nat) {
    if rank < |RANKS| then LowerCaseAll(source) in RANKS[rank]
    else if rank == |RANKS| then
      && (forall k :: 0 <= k < |RANKS| ==> LowerCaseAll(source) !in RANKS[k])
      && LowerCaseAll(source) !in {"promo", "constructor", "__proto__"}
    else rank == |RANKS| + 1 && LowerCaseAll(source) == "promo"
  }

  /** Finance, health, calendar, messages, feeds; then all others, and promotion last. */
  lemma RanksDecide(a: string, b: string, i: nat, j: nat)
    requires HasRank(a, i) && HasRank(b, j)
    ensures PriorityOf(a).Number? && PriorityOf(b).Number? && (PriorityOf(a).n > PriorityOf(b).n <==> i < j)
  {
    RankIs(a, i);
    RankIs(b, j);
  }

  lemma RankIs(source: string, rank: nat)
    requires HasRank(source, rank)
    ensures PriorityOf(source) == Number(if rank == 6 then 0 else 6 - rank)
  {
    var s := LowerCaseAll(source);
    if rank == 5 {
      assert s !in RANKS[0] && s !in RANKS[1] && s !in RANKS[2] && s !in RANKS[3] && s !in RANKS[4];
    }
  }

  function RankOf(source: string): nat {
    var s := LowerCaseAll(source);
    if s in RANKS[0] then 0 else if s in RANKS[1] then 1 else if s in RANKS[2] then 2
    else if s in RANKS[3] then 3 else if s in RANKS[4] then 4 else if s == "promo" then 6 else 5
  }

  /** All sources have a rank but the two names that objects inherit. */
  lemma InheritedHaveNoRank(source: string)
    ensures PriorityOf(source).Inherited? <==> LowerCaseAll(source) in {"constructor", "__proto__"}
    ensures PriorityOf(source).Inherited? <==> forall rank: nat :: !HasRank(source, rank)
  {
    if LowerCaseAll(source) !in {"constructor", "__proto__"} {
      assert HasRank(source, RankOf(source));
      RankIs(source, RankOf(source));
    } else {
      forall rank: nat ensures !HasRank(source, rank) { if HasRank(source, rank) { RankIs(source, rank); } }
    }
  }

  /** The comparator yields at most 0; a difference that is no number counts as 0. */
  predicate InPlace(a: Item, b: Item) {
    var p, q := PriorityOf(a.source), PriorityOf(b.source);
    if p == q then a.timestamp >= b.timestamp else if p.Inherited? || q.Inherited? then true else p.n > q.n
  }

  /** `sortBySourcePriority` */
  function SortBySource(items: seq<Item>): seq<Item> {
    Sort(items, InPlace)
  }

  /** First by priority, then by time. */
  predicate Precedes(a: Item, b: Item) {
    var p, q := PriorityOf(a.source), PriorityOf(b.source);
    p.Number? && q.Number? ==> p.n > q.n || (p.n == q.n && a.timestamp >= b.timestamp)
  }

  predicate AllNumbers(items: seq<Item>) {
    forall x :: x in items ==> PriorityOf(x.source).Number?
  }

  /** Among these items the comparator is consistent: only then the language says what a sort yields. */
  ghost predicate Consistent(items: seq<Item>) {
    Preorder(items, InPlace)
  }

  /** What `items.sort` may yield: any order of the items, and the stable sort if the comparator is consistent. */
  ghost predicate Allowed(items: seq<Item>, r: seq<Item>) {
    multiset(r) == multiset(items) && (Consistent(items) ==> r == SortBySource(items))
  }

  /** An implementation of `sort`. */
  ghost predicate Sorts(sort: seq<Item> -> seq<Item>) {
    forall items :: Allowed(items, sort(items))
  }

  lemma SameItems(r: seq<Item>, items: seq<Item>)
    requires multiset(r) == multiset(items)
    ensures |r| == |items| && forall x :: x in r <==> x in items
  {
    assert |multiset(r)| == |multiset(items)|;
    assert forall x :: x in r <==> x in multiset(r);
  }

  predicate SamePriority(items: seq<Item>) {
    forall a, b :: a in items && b in items ==> PriorityOf(a.source) == PriorityOf(b.source)
  }

  predicate AllTie(items: seq<Item>) {
    forall a, b :: a in items && b in items ==> InPlace(a, b)
  }

  /**
   * The comparator is consistent exactly if all priorities are numbers, or all are the same, or no two
   * items have an order.
   */
  lemma ConsistentWhen(items: seq<Item>)
    ensures Consistent(items) <==> AllNumbers(items) || SamePriority(items) || AllTie(items)
  {
    if Consistent(items) && !AllNumbers(items) && !AllTie(items) {
      var a, b :| a in items && b in items && !InPlace(a, b);
      forall c | c in items ensures PriorityOf(c.source) == PriorityOf(a.source) {
        var x :| x in items && PriorityOf(x.source).Inherited?;
        assert InPlace(a, x) && InPlace(x, b) ==> InPlace(a, b);
        assert InPlace(a, c) && InPlace(c, b) ==> InPlace(a, b);
      }
    }
  }

  /** Without inherited names among the sources, items are sorted by priority and, within it, newest first. */
  lemma SortedBySource(items: seq<Item>, r: seq<Item>)
    requires AllNumbers(items) && Allowed(items, r)
    ensures SortedBy(r, Precedes) && multiset(r) == multiset(items)
  {
    ConsistentWhen(items);
    SortSorts(items, InPlace);
    SameItems(r, items);
    forall i, j | 0 <= i < j < |r| ensures Precedes(r[i], r[j]) {
      assert InPlace(r[i], r[j]) && r[i] in r && r[j] in r;
    }
  }

  predicate HasInherited(items: seq<Item>) {
    exists x :: x in items && PriorityOf(x.source).Inherited?
  }

  predicate HasOrder(items: seq<Item>) {
    exists a, b :: a in items && b in items && PriorityOf(a.source).Number? && PriorityOf(b.source).Number?
        && !Precedes(a, b)
  }

  lemma TakeOut(items: seq<Item>, a: Item) returns (rest: seq<Item>)
    requires a in items
    ensures multiset([a] + rest) == multiset(items) && forall y :: y in items && y != a ==> y in rest
  {
    var i :| 0 <= i < |items| && items[i] == a;
    rest := items[..i] + items[i + 1..];
    assert items == items[..i] + ([a] + items[i + 1..]);
    forall y | y in items && y != a ensures y in rest {
      var k :| 0 <= k < |items| && items[k] == y;
      if k < i { assert items[..i][k] == y; } else { assert items[i + 1..][k - i - 1] == y; }
    }
  }

  /** An inherited name makes the comparator inconsistent, and then items may come out in the wrong order. */
  lemma InheritedNameBlocks(items: seq<Item>) returns (r: seq<Item>)
    requires HasInherited(items) && HasOrder(items)
    ensures !Consistent(items) && Allowed(items, r) && !SortedBy(r, Precedes)
  {
    var x :| x in items && PriorityOf(x.source).Inherited?;
    var a, b :| a in items && b in items && PriorityOf(a.source).Number? && PriorityOf(b.source).Number?
        && !Precedes(a, b);
    assert InPlace(a, x) && InPlace(x, b) && !InPlace(a, b);
    r := PutFirst(items, a, b);
  }

  lemma PutFirst(items: seq<Item>, a: Item, b: Item) returns (r: seq<Item>)
    requires a in items && b in items && a != b && !Precedes(a, b)
    ensures multiset(r) == multiset(items) && !SortedBy(r, Precedes)
  {
    var rest := TakeOut(items, a);
    var k :| 0 <= k < |rest| && rest[k] == b;
    r := [a] + rest;
    assert !Precedes(r[0], r[k + 1]);
  }

  /**
   * Whatever the language lets a sort yield is ordered by priority and recency, exactly if no source bears
   * an inherited name or there is no order to keep among the others.
   */
  lemma SortsWhen(items: seq<Item>)
    ensures (forall r :: Allowed(items, r) ==> SortedBy(r, Precedes)) <==> !(HasInherited(items) && HasOrder(items))
  {
    if HasInherited(items) && HasOrder(items) {
      var r := InheritedNameBlocks(items);
    } else {
      forall r | Allowed(items, r) ensures SortedBy(r, Precedes) {
        SameItems(r, items);
        if HasInherited(items) {
          forall i, j | 0 <= i < j < |r| ensures Precedes(r[i], r[j]) { assert r[i] in r && r[j] in r; }
        } else {
          SortedBySource(items, r);
        }
      }
    }
  }

  // ---- The briefing ------------------------------------------------------------------------------

  datatype Sections = Sections(engagement: seq<Item>, reminders: seq<Item>, approvals: seq<Item>, memories: seq<Item>)

  datatype Report = Report(generatedAt: int, sections: Sections, totalItems: nat)

  function OfKind(items: seq<Item>, kind: Kind): (r: seq<Item>)
    ensures forall x :: x in r ==> x in items && x.kind == kind
  {
    if items == [] then [] else (if items[0].kind == kind then [items[0]] else []) + OfKind(items[1..], kind)
  }

  function Split(deduped: seq<Item>, sort: seq<Item> -> seq<Item>): Sections {
    Sections(sort(OfKind(deduped, Engagement)), OfKind(deduped, Reminder), OfKind(deduped, Approval),
        OfKind(deduped, Memory))
  }

  /**
   * `assembleBriefing`; the items are what the providers and the reminder service yield, in this order.
   * `sort` is `Array.prototype.sort` with the comparator by source, as the engine at hand implements it.
   */
  method AssembleBriefing(engagement: seq<Item>, reminders: seq<Item>, approvals: seq<Item>, memories: seq<Item>,
                          lower: string -> string, sort: seq<Item> -> seq<Item>, now: int)
    returns (r: Option<Report>)
    requires Sorts(sort)
    ensures var deduped := Dedup(engagement + reminders + approvals + memories, lower);
            r == if deduped == [] then None else Some(Report(now, Split(deduped, sort), |deduped|))
  {
    var deduped := DeduplicateByTitle(engagement + reminders + approvals + memories, lower);
    var sections := Sections(OfKind(deduped, Engagement), OfKind(deduped, Reminder), OfKind(deduped, Approval),
        OfKind(deduped, Memory));
    sections := sections.(engagement := sort(sections.engagement));
    if |deduped| == 0 { return None; }
    r := Some(Report(now, sections, |deduped|));
  }

  lemma {:induction false} KindsPartition(items: seq<Item>)
    ensures multiset(items) == multiset(OfKind(items, Engagement)) + multiset(OfKind(items, Reminder))
                               + multiset(OfKind(items, Approval)) + multiset(OfKind(items, Memory))
  {
    if items != [] {
      KindsPartition(items[1..]);
      assert items == [items[0]] + items[1..];
    }
  }

  /** The sections hold exactly the kept items, each in the section of its kind; their sizes add up to the total. */
  lemma SectionsPartition(deduped: seq<Item>, sort: seq<Item> -> seq<Item>)
    requires Sorts(sort)
    ensures var s := Split(deduped, sort);
            && multiset(deduped)
                == multiset(s.engagement) + multiset(s.reminders) + multiset(s.approvals) + multiset(s.memories)
            && |deduped| == |s.engagement| + |s.reminders| + |s.approvals| + |s.memories|
            && (forall x :: x in s.engagement ==> x.kind == Engagement)
               && (forall x :: x in s.reminders ==> x.kind == Reminder)
            && (forall x :: x in s.approvals ==> x.kind == Approval)
               && (forall x :: x in s.memories ==> x.kind == Memory)
  {
    var s := Split(deduped, sort);
    KindsPartition(deduped);
    SameItems(s.engagement, OfKind(deduped, Engagement));
    assert |multiset(deduped)| == |deduped|;
    assert |multiset(s.engagement) + multiset(s.reminders) + multiset(s.approvals) + multiset(s.memories)|
           == |s.engagement| + |s.reminders| + |s.approvals| + |s.memories|;
  }

  lemma {:induction false} OfKindPicks(items: seq<Item>, kind: Kind) returns (at: seq<nat>)
    ensures Picks(items, OfKind(items, kind), at)
    ensures forall k :: 0 <= k < |items| ==> (k in at <==> items[k].kind == kind)
  {
    at := [];
    if items != [] {
      var rest := OfKindPicks(items[1..], kind);
      PicksMore(items, OfKind(items[1..], kind), rest);
      at := if items[0].kind == kind then [0] + Moved(rest) else Moved(rest);
      assert [] + OfKind(items[1..], kind) == OfKind(items[1..], kind);
      forall k | 0 <= k < |items| ensures k in at <==> items[k].kind == kind {
        MovedHas(rest, k);
        if k > 0 { assert items[k] == items[1..][k - 1]; }
      }
    }
  }

  /** The sections that are not sorted keep the order of the deduplicated items. */
  lemma SectionsKeepOrder(deduped: seq<Item>, sort: seq<Item> -> seq<Item>) returns (at: Kind -> seq<nat>)
    ensures var s := Split(deduped, sort);
            && Picks(deduped, s.reminders, at(Reminder)) && Picks(deduped, s.approvals, at(Approval))
            && Picks(deduped, s.memories, at(Memory))
    ensures forall kind, k :: kind != Engagement && 0 <= k < |deduped| ==> (k in at(kind) <==> deduped[k].kind == kind)
  {
    var reminders := OfKindPicks(deduped, Reminder);
    var approvals := OfKindPicks(deduped, Approval);
    var memories := OfKindPicks(deduped, Memory);
    at := (kind: Kind) => match kind case Reminder => reminders case Approval => approvals case Memory => memories
                                     case Engagement => [];
  }

  lemma {:induction false} KeepPicks(items: seq<Item>, lower: string -> string, seen: set<string>)
    returns (at: seq<nat>)
    ensures Picks(items, Keep(items, lower, seen), at)
    decreases |items|
  {
    at := [];
    if items != [] {
      var key := Key(items[0], lower);
      var kept := key == [] || key !in seen;
      var seen' := if key == [] || key in seen then seen else seen + {key};
      var rest := KeepPicks(items[1..], lower, seen');
      PicksMore(items, Keep(items[1..], lower, seen'), rest);
      at := if kept then [0] + Moved(rest) else Moved(rest);
    }
  }

  /** The deduplicated items come newest first, those of the same time in the order in which they came. */
  lemma NewestFirst(items: seq<Item>, lower: string -> string) returns (at: seq<nat>)
    ensures SortedBy(Dedup(items, lower), Newer) && Picks(Sort(items, Newer), Dedup(items, lower), at)
    ensures forall x :: x in items ==> Ties(Sort(items, Newer), Newer, x) == Ties(items, Newer, x)
  {
    var sorted := Sort(items, Newer);
    SortSorts(items, Newer);
    at := KeepPicks(sorted, lower, {});
    forall x | x in items ensures Ties(sorted, Newer, x) == Ties(items, Newer, x) { SortKeepsTies(items, Newer, x); }
    var r := Dedup(items, lower);
    forall i, j | 0 <= i < j < |r| ensures Newer(r[i], r[j]) { assert Newer(sorted[at[i]], sorted[at[j]]); }
  }

  /** There is no briefing exactly if there are no items. */
  lemma NothingToReport(items: seq<Item>, lower: string -> string)
    ensures Dedup(items, lower) == [] <==> items == []
  {
    if items != [] {
      if Key(items[0], lower) == [] {
        UntitledAreKept(items, lower, items[0]);
        assert items[0] in multiset(items);
      } else {
        OnePerTitle(items, lower, items[0]);
      }
    }
  }

  /** Whatever is allowed, some implementation yields. */
  lemma SomeSort(items: seq<Item>, r: seq<Item>) returns (sort: seq<Item> -> seq<Item>)
    requires Allowed(items, r)
    ensures Sorts(sort) && sort(items) == r
  {
    sort := (s: seq<Item>) => if s == items then r else SortBySource(s);
    forall s ensures Allowed(s, sort(s)) { SortKeepsElements(s, InPlace); }
  }

  ghost predicate AlwaysOrdered(deduped: seq<Item>) {
    forall sort :: Sorts(sort) ==> SortedBy(Split(deduped, sort).engagement, Precedes)
  }

  /**
   * Every implementation of `sort` orders the engagement section by priority and recency, if and only if no
   * engagement item that is kept bears an inherited name or there is no order to keep among the others.
   */
  lemma {:induction false} EngagementIsOrdered(deduped: seq<Item>)
    ensures var engagement := OfKind(deduped, Engagement);
            AlwaysOrdered(deduped) <==> !(HasInherited(engagement) && HasOrder(engagement))
  {
    var engagement := OfKind(deduped, Engagement);
    if HasInherited(engagement) && HasOrder(engagement) {
      var r := InheritedNameBlocks(engagement);
      var sort := SomeSort(engagement, r);
      assert Split(deduped, sort).engagement == r;
    } else {
      SortsWhen(engagement);
      forall sort | Sorts(sort) ensures SortedBy(Split(deduped, sort).engagement, Precedes) {
        assert Allowed(engagement, sort(engagement));
      }
    }
  }
}
