/** Contacts mentioned in a text: longest-first matching, and its second implementation with aliases. */
module ContactMatching {
  import opened Text
  import opened Sequences
  import opened Sorting
  import opened Wrappers

  datatype Contact = Contact(name: string, aliases: seq<string>, kinship: string)

  datatype Kind = Name | Alias | Kinship

  type Pattern = s: string | s != [] witness "a"

  datatype Term = Term(contact: string, text: Pattern, kind: Kind)

  datatype Match = Match(contact: string, start: nat, end: nat, kind: Kind)

  // ---- Occurrences -------------------------------------------------------------------------------

  /** `\b` + term + `\b` matches at `i`; characters are the same if `canon` says so. */
  predicate OccursAt(t: string, canon: char -> char, term: Pattern, i: nat) {
    && i + |term| <= |t| && IsBoundary(t, i) && IsBoundary(t, i + |term|)
    && forall k :: i <= k < i + |term| ==> canon(t[k]) == canon(term[k - i])
  }

  function Occurring(t: string, canon: char -> char): (Pattern, nat) -> bool {
    (term: Pattern, i: nat) => OccursAt(t, canon, term, i)
  }

  function Folded(s: string, canon: char -> char): (r: string)
    ensures |r| == |s| && forall k :: 0 <= k < |s| ==> r[k] == canon(s[k])
  {
    seq(|s|, k requires 0 <= k < |s| => canon(s[k]))
  }

  /** The word stands there, from one boundary to another, in whatever case of letters. */
  lemma OccursMeans(t: string, canon: char -> char, term: Pattern, i: nat)
    ensures OccursAt(t, canon, term, i)
            <==> exists e: nat :: && i <= e <= |t| && IsBoundary(t, i) && IsBoundary(t, e)
                                  && Folded(t[i..e], canon) == Folded(term, canon)
  {
    if OccursAt(t, canon, term, i) {
      assert Folded(t[i..i + |term|], canon) == Folded(term, canon);
    }
    if e: nat :| i <= e <= |t| && IsBoundary(t, i) && IsBoundary(t, e) && Folded(t[i..e], canon) == Folded(term, canon)
    {
      assert |t[i..e]| == |term|;
      forall k | i <= k < i + |term| ensures canon(t[k]) == canon(term[k - i]) {
        assert Folded(t[i..e], canon)[k - i] == Folded(term, canon)[k - i];
      }
    }
  }

  /** The first position from `i` on, in a text of `size` characters, at which the term occurs. */
  function NextOccurrence(size: nat, at: (Pattern, nat) -> bool, term: Pattern, i: nat): (r: Option<nat>)
    ensures r.Some? ==> i <= r.value <= size && at(term, r.value)
    decreases size + 1 - i
  {
    if i > size then None
    else if at(term, i) then Some(i)
    else NextOccurrence(size, at, term, i + 1)
  }

  lemma {:induction false} NextIsFirst(size: nat, at: (Pattern, nat) -> bool, term: Pattern, i: nat)
    ensures var r := NextOccurrence(size, at, term, i);
            forall k: nat :: i <= k < (if r.Some? then r.value else size + 1) ==> !at(term, k)
    decreases size + 1 - i
  {
    if i <= size && !at(term, i) { NextIsFirst(size, at, term, i + 1); }
  }

  /** What scanning the text for a term meets from `i` on: each occurrence is sought behind the last. */
  function Scanned(size: nat, at: (Pattern, nat) -> bool, term: Pattern, i: nat): seq<nat>
    decreases size + 1 - i
  {
    var o := NextOccurrence(size, at, term, i);
    if o.None? then [] else [o.value] + Scanned(size, at, term, o.value + |term|)
  }

  /** The positions from `i` on are occurrences, in order and disjoint. */
  predicate AreOccurrences(os: seq<nat>, size: nat, at: (Pattern, nat) -> bool, term: Pattern, i: nat) {
    && (forall k :: 0 <= k < |os| ==> i <= os[k] <= size && at(term, os[k]))
    && (forall j, k :: 0 <= j < k < |os| ==> os[j] + |term| <= os[k])
  }

  /** Such are those that are scanned ... */
  lemma {:induction false} ScannedOccur(size: nat, at: (Pattern, nat) -> bool, term: Pattern, i: nat)
    ensures AreOccurrences(Scanned(size, at, term, i), size, at, term, i)
    decreases size + 1 - i
  {
    var o := NextOccurrence(size, at, term, i);
    if o.Some? {
      ScannedOccur(size, at, term, o.value + |term|);
      assert AreOccurrences([o.value] + Scanned(size, at, term, o.value + |term|), size, at, term, i);
    }
  }

  /** ... and every occurrence starts inside one of them. */
  lemma {:induction false} ScannedCovers(size: nat, at: (Pattern, nat) -> bool, term: Pattern, i: nat, k: nat)
    requires i <= k <= size && at(term, k)
    ensures exists o :: o in Scanned(size, at, term, i) && o <= k < o + |term|
    decreases size + 1 - i
  {
    NextIsFirst(size, at, term, i);
    var o := NextOccurrence(size, at, term, i).value;
    var all, rest := Scanned(size, at, term, i), Scanned(size, at, term, o + |term|);
    assert all == [o] + rest && o in all;
    if k >= o + |term| {
      ScannedCovers(size, at, term, o + |term|, k);
      var x :| x in rest && x <= k < x + |term|;
      assert x in all;
    }
  }

  // ---- Terms -------------------------------------------------------------------------------------

  function AliasTerms(contact: string, aliases: seq<string>, min: nat): seq<Term>
    requires min > 0
  {
    if aliases == [] then []
    else
      (if |aliases[0]| >= min then [Term(contact, aliases[0], Alias)] else []) + AliasTerms(contact, aliases[1..], min)
  }

  function ContactTerms(c: Contact, min: nat): seq<Term>
    requires min > 0
  {
    (if |c.name| >= min then [Term(c.name, c.name, Name)] else []) + AliasTerms(c.name, c.aliases, min)
  }

  function Terms(contacts: seq<Contact>, min: nat): seq<Term>
    requires min > 0
  {
    if contacts == [] then []
    else ContactTerms(contacts[0], min) + Terms(contacts[1..], min)
  }

  predicate NotShorter(a: Term, b: Term) {
    |a.text| >= |b.text|
  }

  function SortedTerms(contacts: seq<Contact>, min: nat): seq<Term>
    requires min > 0
  {
    Sort(Terms(contacts, min), NotShorter)
  }

  // ---- Greedy choice -----------------------------------------------------------------------------

  predicate Overlap(m: Match, start: nat, end: nat) {
    start < m.end && end > m.start
  }

  predicate Free(matches: seq<Match>, start: nat, end: nat) {
    forall k :: 0 <= k < |matches| ==> !Overlap(matches[k], start, end)
  }

  predicate Seen(matches: seq<Match>, contact: string) {
    exists k :: 0 <= k < |matches| && matches[k].contact == contact
  }

  /** The first scanned occurrence from `i` on that overlaps no match. */
  function FirstFree(size: nat, at: (Pattern, nat) -> bool, term: Pattern, i: nat,
                     matches: seq<Match>): (r: Option<nat>)
    decreases size + 1 - i
  {
    var o := NextOccurrence(size, at, term, i);
    if o.None? || Free(matches, o.value, o.value + |term|) then o
    else FirstFree(size, at, term, o.value + |term|, matches)
  }

  function Take(size: nat, at: (Pattern, nat) -> bool, term: Term, matches: seq<Match>): seq<Match>
  {
    var o := FirstFree(size, at, term.text, 0, matches);
    if Seen(matches, term.contact) || o.None? then matches
    else matches + [Match(term.contact, o.value, o.value + |term.text|, term.kind)]
  }

  /** The matches after the first `n` terms. */
  function Chosen(size: nat, at: (Pattern, nat) -> bool, terms: seq<Term>, n: nat, matches: seq<Match>): seq<Match>
    requires n <= |terms|
  {
    if n == 0 then matches else Take(size, at, terms[n - 1], Chosen(size, at, terms, n - 1, matches))
  }

  predicate Earlier(a: Match, b: Match) {
    a.start <= b.start
  }

  lemma {:induction false} AliasTermsAre(contact: string, aliases: seq<string>, min: nat, x: Term)
    requires min > 0
    ensures x in AliasTerms(contact, aliases, min)
            <==> x.contact == contact && x.text in aliases && |x.text| >= min && x.kind == Alias
  {
    if aliases != [] {
      AliasTermsAre(contact, aliases[1..], min, x);
      assert x.text in aliases <==> x.text == aliases[0] || x.text in aliases[1..];
    }
  }

  /** A term to look for: the name, or one of the aliases, of contact `k`, if it is long enough. */
  predicate NamesContact(c: Contact, min: nat, x: Term) {
    && x.contact == c.name && |x.text| >= min
    && (if x.kind == Name then x.text == c.name else x.kind == Alias && x.text in c.aliases)
  }

  predicate TermOf(contacts: seq<Contact>, min: nat, x: Term) {
    exists k :: 0 <= k < |contacts| && NamesContact(contacts[k], min, x)
  }

  /** Exactly the names and aliases of the minimum length are looked for. */
  lemma {:induction false} TermsAre(contacts: seq<Contact>, min: nat, x: Term)
    requires min > 0
    ensures x in Terms(contacts, min) <==> TermOf(contacts, min, x)
  {
    if contacts != [] {
      var c, rest := contacts[0], contacts[1..];
      TermsAre(rest, min, x);
      AliasTermsAre(c.name, c.aliases, min, x);
      assert x in ContactTerms(c, min) <==> NamesContact(c, min, x);
      if TermOf(rest, min, x) {
        var k :| 0 <= k < |rest| && NamesContact(rest[k], min, x);
        assert contacts[k + 1] == rest[k];
      }
      if k :| 0 <= k < |contacts| && NamesContact(contacts[k], min, x) {
        assert k > 0 ==> rest[k - 1] == contacts[k];
      }
    }
  }

  lemma {:induction false} SortedTermsAre(contacts: seq<Contact>, min: nat)
    requires min > 0
    ensures var terms := SortedTerms(contacts, min);
            && (forall x :: x in terms ==> TermOf(contacts, min, x))
            && SortedBy(terms, NotShorter) && forall x :: x in terms <==> x in Terms(contacts, min)
  {
    var terms := SortedTerms(contacts, min);
    SortKeepsElements(Terms(contacts, min), NotShorter);
    SortSorts(Terms(contacts, min), NotShorter);
    forall x | x in terms ensures TermOf(contacts, min, x) { TermsAre(contacts, min, x); }
  }

  const MIN_NAME_LENGTH := 3
  const MIN_ALIAS_LENGTH := 2

  // ---- `matchContacts` ---------------------------------------------------------------------------

  lemma {:induction false} NextAlias(contact: string, aliases: seq<string>, min: nat, j: nat, terms: seq<Term>)
    requires min > 0 && j < |aliases|
    ensures var before, behind := AliasTerms(contact, aliases[j..], min), AliasTerms(contact, aliases[j + 1..], min);
            if |aliases[j]| >= min then terms + before == (terms + [Term(contact, aliases[j], Alias)]) + behind
            else before == behind
  {
    assert aliases[j..][0] == aliases[j] && aliases[j..][1..] == aliases[j + 1..];
  }

  method CollectAliases(contact: string, aliases: seq<string>, min: nat) returns (terms: seq<Term>)
    requires min > 0
    ensures terms == AliasTerms(contact, aliases, min)
  {
    terms := [];
    assert aliases[0..] == aliases;
    for j := 0 to |aliases|
      invariant terms + AliasTerms(contact, aliases[j..], min) == AliasTerms(contact, aliases, min)
    {
      NextAlias(contact, aliases, min, j, terms);
      if |aliases[j]| >= min { terms := terms + [Term(contact, aliases[j], Alias)]; }
    }
  }

  method CollectTerms(contacts: seq<Contact>, min: nat) returns (terms: seq<Term>)
    requires min > 0
    ensures terms == Terms(contacts, min)
  {
    terms := [];
    assert contacts[0..] == contacts;
    for k := 0 to |contacts|
      invariant terms + Terms(contacts[k..], min) == Terms(contacts, min)
    {
      var c := contacts[k];
      assert contacts[k..][0] == c && contacts[k..][1..] == contacts[k + 1..];
      var aliases := CollectAliases(c.name, c.aliases, min);
      Regroup(terms, ContactTerms(c, min), Terms(contacts[k + 1..], min));
      terms := terms + ((if |c.name| >= min then [Term(c.name, c.name, Name)] else []) + aliases);
    }
  }

  /** One term's scan in `matchContacts`: it runs to the end of the text, also when the contact has been seen. */
  method ScanTerm(size: nat, at: (Pattern, nat) -> bool, term: Term, before: seq<Match>) returns (matches: seq<Match>)
    ensures matches == Take(size, at, term, before)
  {
    matches := before;
    var i := 0;
    var m := NextOccurrence(size, at, term.text, 0);
    while m.Some?
      invariant m == NextOccurrence(size, at, term.text, i)
      invariant Seen(before, term.contact) ==> matches == before
      invariant !Seen(before, term.contact) ==>
                  || (matches == before
                      && FirstFree(size, at, term.text, i, before) == FirstFree(size, at, term.text, 0, before))
                  || (matches == Take(size, at, term, before) && Seen(matches, term.contact))
      decreases size + 1 - i
    {
      var start, end := m.value, m.value + |term.text|;
      if Free(matches, start, end) && !Seen(matches, term.contact) {
        var added := Match(term.contact, start, end, term.kind);
        matches := matches + [added];
        assert matches[|matches| - 1] == added;
      }
      i := end;
      m := NextOccurrence(size, at, term.text, i);
    }
  }

  /** `matchContacts` */
  method MatchContacts(t: string, canon: char -> char, contacts: seq<Contact>) returns (matches: seq<Match>)
    ensures var terms := SortedTerms(contacts, MIN_NAME_LENGTH);
            matches == Sort(Chosen(|t|, Occurring(t, canon), terms, |terms|, []), Earlier)
  {
    SortedTermsAre(contacts, MIN_NAME_LENGTH);
    var terms := CollectTerms(contacts, MIN_NAME_LENGTH);
    terms := Sort(terms, NotShorter);
    matches := [];
    for n := 0 to |terms|
      invariant matches == Chosen(|t|, Occurring(t, canon), terms, n, [])
    {
      matches := ScanTerm(|t|, Occurring(t, canon), terms[n], matches);
    }
    matches := Sort(matches, Earlier);
  }

  // ---- `matchWithAliases` ------------------------------------------------------------------------

  /** One term's scan in `matchWithAliases`: it stops at the first match, and does not start for a contact seen. */
  method ScanTermOnce(size: nat, at: (Pattern, nat) -> bool, term: Term, before: seq<Match>)
    returns (matches: seq<Match>)
    ensures matches == Take(size, at, term, before)
  {
    if Seen(before, term.contact) { return before; }
    var i := 0;
    var m := NextOccurrence(size, at, term.text, 0);
    while m.Some?
      invariant m == NextOccurrence(size, at, term.text, i)
      invariant FirstFree(size, at, term.text, i, before) == FirstFree(size, at, term.text, 0, before)
      decreases size + 1 - i
    {
      var start, end := m.value, m.value + |term.text|;
      if Free(before, start, end) { return before + [Match(term.contact, start, end, term.kind)]; }
      i := end;
      m := NextOccurrence(size, at, term.text, i);
    }
    return before;
  }

  /** `matchWithAliases` */
  method MatchWithAliases(t: string, canon: char -> char, contacts: seq<Contact>) returns (matches: seq<Match>)
    ensures var terms := SortedTerms(contacts, MIN_ALIAS_LENGTH);
            matches == Chosen(|t|, Occurring(t, canon), terms, |terms|, [])
  {
    SortedTermsAre(contacts, MIN_ALIAS_LENGTH);
    var terms := CollectTerms(contacts, MIN_ALIAS_LENGTH);
    terms := Sort(terms, NotShorter);
    matches := [];
    for n := 0 to |terms|
      invariant matches == Chosen(|t|, Occurring(t, canon), terms, n, [])
    {
      matches := ScanTermOnce(|t|, Occurring(t, canon), terms[n], matches);
    }
  }

  // ---- The choice, term by term ------------------------------------------------------------------

  /** Of the positions `os`, number `j` is the first at which nothing overlaps a match. */
  ghost predicate FirstAmong(os: seq<nat>, matches: seq<Match>, length: nat, o: nat, j: int) {
    && 0 <= j < |os| && os[j] == o && Clear(matches, o, length)
    && forall i :: 0 <= i < j ==> !Clear(matches, os[i], length)
  }

  /** Nothing chosen so far shares a character with what starts at `o`. */
  predicate Clear(matches: seq<Match>, o: nat, length: nat) {
    forall k :: 0 <= k < |matches| ==> matches[k].end <= o || o + length <= matches[k].start
  }

  /** The first of the positions that is clear of all matches; none if no one is. */
  ghost predicate FirstClear(os: seq<nat>, matches: seq<Match>, length: nat, o: Option<nat>) {
    if o.None? then forall k :: 0 <= k < |os| ==> !Clear(matches, os[k], length)
    else exists j :: FirstAmong(os, matches, length, o.value, j)
  }

  lemma FirstClearOfMore(p: nat, rest: seq<nat>, matches: seq<Match>, length: nat, o: Option<nat>)
    ensures Clear(matches, p, length) ==> FirstClear([p] + rest, matches, length, Some(p))
    ensures !Clear(matches, p, length) && FirstClear(rest, matches, length, o)
            ==> FirstClear([p] + rest, matches, length, o)
  {
    var os := [p] + rest;
    if Clear(matches, p, length) {
      assert FirstAmong(os, matches, length, p, 0);
    } else if FirstClear(rest, matches, length, o) && o.Some? {
      var j :| FirstAmong(rest, matches, length, o.value, j);
      assert FirstAmong(os, matches, length, o.value, j + 1);
    }
  }

  /**
   * What looking for one term does: nothing, if its contact has a match or no occurrence is clear of the
   * matches; otherwise the first that is clear is added.
   */
  ghost predicate Chooses(size: nat, at: (Pattern, nat) -> bool, x: Term, before: seq<Match>, after: seq<Match>) {
    exists o: Option<nat> ::
      && FirstClear(Scanned(size, at, x.text, 0), before, |x.text|, o)
      && after == if o.None? || exists k :: 0 <= k < |before| && before[k].contact == x.contact then before
                  else before + [Match(x.contact, o.value, o.value + |x.text|, x.kind)]
  }

  lemma TakeChooses(size: nat, at: (Pattern, nat) -> bool, x: Term, before: seq<Match>)
    ensures Chooses(size, at, x, before, Take(size, at, x, before))
  {
    FirstFreeExactly(size, at, x.text, 0, before);
  }

  /** The choice goes through the terms in their order, and each adds what it adds to what is chosen so far. */
  lemma {:induction false} ChosenExactly(size: nat, at: (Pattern, nat) -> bool, terms: seq<Term>)
    returns (states: seq<seq<Match>>)
    ensures |states| == |terms| + 1 && states[0] == [] && states[|terms|] == Chosen(size, at, terms, |terms|, [])
    ensures forall n :: 0 <= n < |terms| ==> Chooses(size, at, terms[n], states[n], states[n + 1])
  {
    states := seq(|terms| + 1, n requires 0 <= n <= |terms| => Chosen(size, at, terms, n, []));
    forall n | 0 <= n < |terms| ensures Chooses(size, at, terms[n], states[n], states[n + 1]) {
      TakeChooses(size, at, terms[n], states[n]);
    }
  }

  lemma {:induction false} FirstFreeExactly(size: nat, at: (Pattern, nat) -> bool, term: Pattern, i: nat,
                                            matches: seq<Match>)
    ensures FirstClear(Scanned(size, at, term, i), matches, |term|, FirstFree(size, at, term, i, matches))
    decreases size + 1 - i
  {
    var next := NextOccurrence(size, at, term, i);
    if next.Some? {
      var rest := Scanned(size, at, term, next.value + |term|);
      assert Scanned(size, at, term, i) == [next.value] + rest;
      assert Free(matches, next.value, next.value + |term|) <==> Clear(matches, next.value, |term|);
      FirstFreeExactly(size, at, term, next.value + |term|, matches);
      FirstClearOfMore(next.value, rest, matches, |term|, FirstFree(size, at, term, next.value + |term|, matches));
    }
  }

  // ---- What is chosen ----------------------------------------------------------------------------

  /** `x` is the term a match is of. */
  predicate MatchOf(size: nat, at: (Pattern, nat) -> bool, m: Match, x: Term) {
    m.contact == x.contact && m.kind == x.kind && m.end == m.start + |x.text| && at(x.text, m.start)
  }

  ghost predicate Sound(size: nat, at: (Pattern, nat) -> bool, terms: seq<Term>, n: nat, matches: seq<Match>)
    requires n <= |terms|
  {
    && (forall i, j :: 0 <= i < j < |matches| ==>
         !Overlap(matches[i], matches[j].start, matches[j].end) && matches[i].contact != matches[j].contact)
    && (forall i :: 0 <= i < |matches| ==> exists k :: 0 <= k < n && MatchOf(size, at, matches[i], terms[k]))
  }

  lemma {:induction false} FirstFreeIsFree(size: nat, at: (Pattern, nat) -> bool, term: Pattern, i: nat,
                                           matches: seq<Match>)
    ensures var o := FirstFree(size, at, term, i, matches);
            o.Some? ==> at(term, o.value) && Free(matches, o.value, o.value + |term|)
    decreases size + 1 - i
  {
    var o := NextOccurrence(size, at, term, i);
    if o.Some? && !Free(matches, o.value, o.value + |term|) {
      FirstFreeIsFree(size, at, term, o.value + |term|, matches);
    }
  }

  lemma TakeIsSound(size: nat, at: (Pattern, nat) -> bool, terms: seq<Term>, n: nat, matches: seq<Match>)
    requires n < |terms| && Sound(size, at, terms, n, matches)
    ensures Sound(size, at, terms, n + 1, Take(size, at, terms[n], matches))
  {
    var r := Take(size, at, terms[n], matches);
    FirstFreeIsFree(size, at, terms[n].text, 0, matches);
    forall i | 0 <= i < |r| ensures exists k :: 0 <= k < n + 1 && MatchOf(size, at, r[i], terms[k]) {
      if i < |matches| {
        assert r[i] == matches[i];
        var k :| 0 <= k < n && MatchOf(size, at, matches[i], terms[k]);
      } else {
        assert MatchOf(size, at, r[i], terms[n]);
      }
    }
  }

  lemma {:induction false} ChosenIsSound(size: nat, at: (Pattern, nat) -> bool, terms: seq<Term>, n: nat)
    requires n <= |terms|
    ensures Sound(size, at, terms, n, Chosen(size, at, terms, n, []))
  {
    if n > 0 {
      ChosenIsSound(size, at, terms, n - 1);
      TakeIsSound(size, at, terms, n - 1, Chosen(size, at, terms, n - 1, []));
    }
  }

  lemma {:induction false} ChosenGrows(size: nat, at: (Pattern, nat) -> bool, terms: seq<Term>, m: nat, n: nat,
                                       matches: seq<Match>)
    requires m <= n <= |terms|
    ensures Chosen(size, at, terms, m, matches) <= Chosen(size, at, terms, n, matches)
    decreases n
  {
    if m < n { ChosenGrows(size, at, terms, m, n - 1, matches); }
  }

  /** With no free occurrence, every scanned one overlaps a match. */
  lemma {:induction false} NoneFree(size: nat, at: (Pattern, nat) -> bool, term: Pattern, i: nat, matches: seq<Match>,
                                    o: nat)
    requires FirstFree(size, at, term, i, matches).None? && o in Scanned(size, at, term, i)
    ensures !Free(matches, o, o + |term|)
    decreases size + 1 - i
  {
    var next := NextOccurrence(size, at, term, i);
    if o != next.value { NoneFree(size, at, term, next.value + |term|, matches, o); }
  }

  /** The matches, before they are sorted by position. */
  function Found(t: string, canon: char -> char, contacts: seq<Contact>, min: nat): seq<Match>
    requires min > 0
  {
    var terms := SortedTerms(contacts, min);
    Chosen(|t|, Occurring(t, canon), terms, |terms|, [])
  }

  predicate Distinct(a: Match, b: Match) {
    (a.end <= b.start || b.end <= a.start) && a.contact != b.contact
  }

  /** A whole-word occurrence of a name or alias of its contact, long enough, up to the case of letters. */
  ghost predicate MatchInText(t: string, canon: char -> char, contacts: seq<Contact>, min: nat, m: Match) {
    && m.start < m.end <= |t| && IsBoundary(t, m.start) && IsBoundary(t, m.end)
    && exists x :: && TermOf(contacts, min, x) && m.contact == x.contact && m.kind == x.kind
                   && Folded(t[m.start..m.end], canon) == Folded(x.text, canon)
  }

  lemma MatchOfIsInText(t: string, canon: char -> char, contacts: seq<Contact>, min: nat, m: Match, x: Term)
    requires TermOf(contacts, min, x) && MatchOf(|t|, Occurring(t, canon), m, x)
    ensures MatchInText(t, canon, contacts, min, m)
  {
  }

  lemma FoundIsInText(t: string, canon: char -> char, contacts: seq<Contact>, min: nat, i: nat)
    requires min > 0 && i < |Found(t, canon, contacts, min)|
    ensures MatchInText(t, canon, contacts, min, Found(t, canon, contacts, min)[i])
  {
    var terms, at := SortedTerms(contacts, min), Occurring(t, canon);
    ChosenIsSound(|t|, at, terms, |terms|);
    SortedTermsAre(contacts, min);
    var m := Found(t, canon, contacts, min)[i];
    var k :| 0 <= k < |terms| && MatchOf(|t|, at, m, terms[k]);
    assert terms[k] in terms;
    MatchOfIsInText(t, canon, contacts, min, m, terms[k]);
  }

  lemma FoundIsDistinct(t: string, canon: char -> char, contacts: seq<Contact>, min: nat)
    requires min > 0
    ensures Pairwise(Found(t, canon, contacts, min), Distinct)
  {
    var terms, found := SortedTerms(contacts, min), Found(t, canon, contacts, min);
    ChosenIsSound(|t|, Occurring(t, canon), terms, |terms|);
    forall i, j | 0 <= i < j < |found| ensures Distinct(found[i], found[j]) && Distinct(found[j], found[i]) {
      FoundIsInText(t, canon, contacts, min, i);
      FoundIsInText(t, canon, contacts, min, j);
    }
  }

  /**
   * What `matchContacts` returns: disjoint matches in the order of the text, at most one per contact,
   * and each a whole-word occurrence of a name or alias, of the minimum length at least, of its contact.
   */
  lemma {:induction false} MatchesAreSound(t: string, canon: char -> char, contacts: seq<Contact>, min: nat)
    requires min > 0
    ensures var r := Sort(Found(t, canon, contacts, min), Earlier);
            && (forall i, j :: 0 <= i < j < |r| ==> r[i].end <= r[j].start && r[i].contact != r[j].contact)
            && (forall m :: m in r ==> MatchInText(t, canon, contacts, min, m))
  {
    var found := Found(t, canon, contacts, min);
    var r := Sort(found, Earlier);
    FoundIsDistinct(t, canon, contacts, min);
    SortKeepsPairwise(found, Earlier, Distinct);
    SortKeepsElements(found, Earlier);
    SortSorts(found, Earlier);
    forall m | m in r ensures MatchInText(t, canon, contacts, min, m) {
      assert m in found;
      var i :| 0 <= i < |found| && found[i] == m;
      FoundIsInText(t, canon, contacts, min, i);
    }
    forall i, j | 0 <= i < j < |r| ensures r[i].end <= r[j].start && r[i].contact != r[j].contact {
      assert Distinct(r[i], r[j]) && Earlier(r[i], r[j]);
      assert r[j] in r && MatchInText(t, canon, contacts, min, r[j]);
    }
  }

  lemma {:induction false} TakeSees(size: nat, at: (Pattern, nat) -> bool, term: Term, matches: seq<Match>)
    ensures Take(size, at, term, matches) != matches ==> Seen(Take(size, at, term, matches), term.contact)
    ensures Take(size, at, term, matches) == matches
            ==> Seen(matches, term.contact) || FirstFree(size, at, term.text, 0, matches).None?
  {
    var r := Take(size, at, term, matches);
    if r != matches { assert r[|matches|].contact == term.contact; }
  }

  lemma {:induction false} TakenIsSeen(size: nat, at: (Pattern, nat) -> bool, term: Term, matches: seq<Match>)
    requires !Seen(Take(size, at, term, matches), term.contact)
    ensures Take(size, at, term, matches) == matches && FirstFree(size, at, term.text, 0, matches).None?
  {
    TakeSees(size, at, term, matches);
  }

  lemma SeenGrows(a: seq<Match>, b: seq<Match>, contact: string)
    requires a <= b && Seen(a, contact)
    ensures Seen(b, contact)
  {
    var k :| 0 <= k < |a| && a[k].contact == contact;
    assert b[k] == a[k];
  }

  /** The match that keeps an occurrence from being chosen is not shorter. */
  predicate Blocks(m: Match, o: nat, length: nat) {
    Overlap(m, o, o + length) && m.end - m.start >= length
  }

  lemma BlockedByEarlier(size: nat, at: (Pattern, nat) -> bool, terms: seq<Term>, n: nat, o: nat)
    requires n < |terms| && SortedBy(terms, NotShorter) && o in Scanned(size, at, terms[n].text, 0)
    requires !Seen(Chosen(size, at, terms, n + 1, []), terms[n].contact)
    ensures exists k ::
              && 0 <= k < |Chosen(size, at, terms, n, [])|
              && Blocks(Chosen(size, at, terms, n, [])[k], o, |terms[n].text|)
  {
    var before := Chosen(size, at, terms, n, []);
    TakenIsSeen(size, at, terms[n], before);
    NoneFree(size, at, terms[n].text, 0, before, o);
    ChosenIsSound(size, at, terms, n);
    var k :| 0 <= k < |before| && Overlap(before[k], o, o + |terms[n].text|);
    var j :| 0 <= j < n && MatchOf(size, at, before[k], terms[j]);
    assert NotShorter(terms[j], terms[n]);
    assert Blocks(before[k], o, |terms[n].text|);
  }

  lemma {:induction false} BlockedInAll(size: nat, at: (Pattern, nat) -> bool, terms: seq<Term>, n: nat, o: nat)
    requires n < |terms| && SortedBy(terms, NotShorter) && o in Scanned(size, at, terms[n].text, 0)
    requires !Seen(Chosen(size, at, terms, |terms|, []), terms[n].contact)
    ensures exists m :: m in Chosen(size, at, terms, |terms|, []) && Blocks(m, o, |terms[n].text|)
  {
    var before, after, all := Chosen(size, at, terms, n, []), Chosen(size, at, terms, n + 1, []),
        Chosen(size, at, terms, |terms|, []);
    ChosenGrows(size, at, terms, n, |terms|, []);
    ChosenGrows(size, at, terms, n + 1, |terms|, []);
    if Seen(after, terms[n].contact) { SeenGrows(after, all, terms[n].contact); }
    BlockedByEarlier(size, at, terms, n, o);
    var k :| 0 <= k < |before| && Blocks(before[k], o, |terms[n].text|);
    assert before[k] == all[k] && all[k] in all;
  }

  /**
   * Every scanned occurrence of a name or alias, long enough, of a contact without match overlaps a match
   * that is at least as long.
   */
  lemma {:induction false} UnmatchedIsBlocked(t: string, canon: char -> char, contacts: seq<Contact>, min: nat,
                                              c: Contact,
                                              w: string, o: nat)
    requires min > 0 && c in contacts && |w| >= min && (w == c.name || w in c.aliases)
    requires o in Scanned(|t|, Occurring(t, canon), w, 0) && !Seen(Found(t, canon, contacts, min), c.name)
    ensures exists m :: m in Found(t, canon, contacts, min) && Blocks(m, o, |w|)
  {
    var terms, x := SortedTerms(contacts, min), Term(c.name, w, if w == c.name then Name else Alias);
    SortedTermsAre(contacts, min);
    TermsAre(contacts, min, x);
    var k :| 0 <= k < |contacts| && contacts[k] == c;
    assert NamesContact(contacts[k], min, x) && x in terms;
    var n :| 0 <= n < |terms| && terms[n] == x;
    BlockedInAll(|t|, Occurring(t, canon), terms, n, o);
  }

  // ---- The two implementations -------------------------------------------------------------------

  predicate IsLong(x: Term) {
    |x.text| >= MIN_NAME_LENGTH
  }

  function Long(terms: seq<Term>): seq<Term> {
    if terms == [] then [] else (if IsLong(terms[0]) then [terms[0]] else []) + Long(terms[1..])
  }

  function Short(terms: seq<Term>): seq<Term> {
    if terms == [] then [] else (if IsLong(terms[0]) then [] else [terms[0]]) + Short(terms[1..])
  }

  lemma {:induction false} LongFirst(x: Term, y: seq<Term>)
    ensures Long([x] + y) == if IsLong(x) then [x] + Long(y) else Long(y)
  {
    assert ([x] + y)[1..] == y;
  }

  lemma {:induction false} LongConcat(x: seq<Term>, y: seq<Term>)
    ensures Long(x + y) == Long(x) + Long(y)
  {
    if x == [] {
      assert x + y == y;
    } else {
      LongConcat(x[1..], y);
      LongFirst(x[0], x[1..] + y);
      LongFirst(x[0], x[1..]);
      Regroup([x[0]], x[1..], y);
      assert x == [x[0]] + x[1..];
      Regroup([x[0]], Long(x[1..]), Long(y));
    }
  }

  lemma {:induction false} AliasLong(contact: string, aliases: seq<string>)
    ensures Long(AliasTerms(contact, aliases, MIN_ALIAS_LENGTH)) == AliasTerms(contact, aliases, MIN_NAME_LENGTH)
  {
    if aliases != [] {
      AliasLong(contact, aliases[1..]);
      var first := if |aliases[0]| >= MIN_ALIAS_LENGTH then [Term(contact, aliases[0], Alias)] else [];
      LongConcat(first, AliasTerms(contact, aliases[1..], MIN_ALIAS_LENGTH));
      assert Long(first) == if |aliases[0]| >= MIN_NAME_LENGTH then first else [];
    }
  }

  lemma ContactLong(c: Contact)
    ensures Long(ContactTerms(c, MIN_ALIAS_LENGTH)) == ContactTerms(c, MIN_NAME_LENGTH)
  {
    AliasLong(c.name, c.aliases);
    var first := if |c.name| >= MIN_ALIAS_LENGTH then [Term(c.name, c.name, Name)] else [];
    LongConcat(first, AliasTerms(c.name, c.aliases, MIN_ALIAS_LENGTH));
    assert Long(first) == if |c.name| >= MIN_NAME_LENGTH then first else [];
  }

  lemma {:induction false} TermsLong(contacts: seq<Contact>)
    ensures Long(Terms(contacts, MIN_ALIAS_LENGTH)) == Terms(contacts, MIN_NAME_LENGTH)
  {
    if contacts != [] {
      ContactLong(contacts[0]);
      TermsLong(contacts[1..]);
      LongConcat(ContactTerms(contacts[0], MIN_ALIAS_LENGTH), Terms(contacts[1..], MIN_ALIAS_LENGTH));
    }
  }

  lemma {:induction false} InsertSkips(x: Term, s: seq<Term>)
    requires s != [] && !NotShorter(x, s[0])
    ensures Insert(x, s, NotShorter) == [s[0]] + Insert(x, s[1..], NotShorter)
  {
  }

  lemma {:induction false} InsertStops(x: Term, s: seq<Term>)
    requires s == [] || NotShorter(x, s[0])
    ensures Insert(x, s, NotShorter) == [x] + s
  {
  }

  /** A long term is inserted among the long ones ... */
  lemma {:induction false} InsertLong(x: Term, long: seq<Term>, short: seq<Term>)
    requires IsLong(x) && forall k :: 0 <= k < |short| ==> |short[k].text| == 2
    ensures Insert(x, long + short, NotShorter) == Insert(x, long, NotShorter) + short
    decreases |long|
  {
    if long == [] {
      assert long + short == short;
      InsertStops(x, long);
      InsertStops(x, short);
    } else if NotShorter(x, long[0]) {
      InsertStops(x, long);
      InsertStops(x, long + short);
      Regroup([x], long, short);
    } else {
      assert (long + short)[1..] == long[1..] + short;
      InsertLong(x, long[1..], short);
      InsertSkips(x, long);
      InsertSkips(x, long + short);
      Regroup([long[0]], Insert(x, long[1..], NotShorter), short);
    }
  }

  /** ... and a short one in front of the short ones. */
  lemma {:induction false} InsertShort(x: Term, long: seq<Term>, short: seq<Term>)
    requires |x.text| == 2 && (forall k :: 0 <= k < |long| ==> IsLong(long[k]))
    requires forall k :: 0 <= k < |short| ==> |short[k].text| == 2
    ensures Insert(x, long + short, NotShorter) == long + ([x] + short)
    decreases |long|
  {
    if long == [] {
      assert long + short == short;
      InsertStops(x, short);
    } else {
      assert (long + short)[1..] == long[1..] + short;
      InsertShort(x, long[1..], short);
      InsertSkips(x, long + short);
      Regroup([long[0]], long[1..], [x] + short);
      assert [long[0]] + long[1..] == long;
    }
  }

  lemma {:induction false} LongAndShortAre(terms: seq<Term>)
    requires forall x :: x in terms ==> |x.text| >= 2
    ensures (forall x :: x in Long(terms) ==> IsLong(x))
            && (forall x :: x in Short(terms) ==> |x.text| == 2 && x in terms)
  {
    if terms != [] {
      LongAndShortAre(terms[1..]);
      assert terms[0] in terms && forall x :: x in terms[1..] ==> x in terms;
    }
  }

  lemma {:induction false} SortFirst(x: Term, long: seq<Term>, short: seq<Term>)
    requires (forall y :: y in long ==> IsLong(y)) && (forall y :: y in short ==> |y.text| == 2) && |x.text| >= 2
    ensures Insert(x, Sort(long, NotShorter) + short, NotShorter)
            == if IsLong(x) then Sort([x] + long, NotShorter) + short else Sort(long, NotShorter) + ([x] + short)
  {
    var sorted := Sort(long, NotShorter);
    SortKeepsElements(long, NotShorter);
    forall k | 0 <= k < |sorted| ensures IsLong(sorted[k]) { assert sorted[k] in sorted; }
    if IsLong(x) { InsertLong(x, sorted, short); } else { InsertShort(x, sorted, short); }
    assert ([x] + long)[1..] == long;
  }

  /** Sorting puts the short terms, in their order, behind the sorted long ones. */
  lemma {:induction false} SortSeparates(terms: seq<Term>)
    requires forall x :: x in terms ==> |x.text| >= 2
    ensures Sort(terms, NotShorter) == Sort(Long(terms), NotShorter) + Short(terms)
  {
    if terms != [] {
      var rest := terms[1..];
      SortSeparates(rest);
      LongAndShortAre(rest);
      SortFirst(terms[0], Long(rest), Short(rest));
      if IsLong(terms[0]) {
        assert Long(terms) == [terms[0]] + Long(rest) && Short(terms) == Short(rest);
      } else {
        assert Long(terms) == Long(rest) && Short(terms) == [terms[0]] + Short(rest);
      }
    }
  }

  lemma {:induction false} ChosenConcat(size: nat, at: (Pattern, nat) -> bool, x: seq<Term>, y: seq<Term>, n: nat)
    requires n <= |y|
    ensures Chosen(size, at, x + y, |x| + n, []) == Chosen(size, at, y, n, Chosen(size, at, x, |x|, []))
  {
    if n > 0 {
      ChosenConcat(size, at, x, y, n - 1);
    } else {
      ChosenPrefix(size, at, x, y, |x|);
    }
  }

  lemma {:induction false} ChosenPrefix(size: nat, at: (Pattern, nat) -> bool, x: seq<Term>, y: seq<Term>, n: nat)
    requires n <= |x|
    ensures Chosen(size, at, x + y, n, []) == Chosen(size, at, x, n, [])
  {
    if n > 0 { ChosenPrefix(size, at, x, y, n - 1); }
  }

  /** The terms of two characters, which only `matchWithAliases` looks for. */
  function ShortTerms(contacts: seq<Contact>): seq<Term> {
    Short(Terms(contacts, MIN_ALIAS_LENGTH))
  }

  /** `matchWithAliases` finds what `matchContacts` finds and then looks for the short terms. */
  lemma {:induction false} FoundWithAliases(t: string, canon: char -> char, contacts: seq<Contact>)
    ensures var short := ShortTerms(contacts);
            Found(t, canon, contacts, MIN_ALIAS_LENGTH)
            == Chosen(|t|, Occurring(t, canon), short, |short|, Found(t, canon, contacts, MIN_NAME_LENGTH))
  {
    var terms, short := Terms(contacts, MIN_ALIAS_LENGTH), ShortTerms(contacts);
    forall x | x in terms ensures |x.text| >= 2 { TermsAre(contacts, MIN_ALIAS_LENGTH, x); }
    SortSeparates(terms);
    TermsLong(contacts);
    ChosenConcat(|t|, Occurring(t, canon), SortedTerms(contacts, MIN_NAME_LENGTH), short, |short|);
  }

  /** A term adds nothing: its contact is matched, or each of its occurrences overlaps a match. */
  predicate AddsNothing(size: nat, at: (Pattern, nat) -> bool, x: Term, matches: seq<Match>) {
    Seen(matches, x.contact) || FirstFree(size, at, x.text, 0, matches).None?
  }

  lemma {:induction false} TakesNothing(size: nat, at: (Pattern, nat) -> bool, x: Term, matches: seq<Match>)
    ensures AddsNothing(size, at, x, matches) <==> Take(size, at, x, matches) == matches
  {
  }

  lemma {:induction false} LastAddsNothing(size: nat, at: (Pattern, nat) -> bool, terms: seq<Term>, n: nat,
                                           matches: seq<Match>)
    requires 0 < n <= |terms|
    ensures Chosen(size, at, terms, n, matches) == matches
            <==> Chosen(size, at, terms, n - 1, matches) == matches && AddsNothing(size, at, terms[n - 1], matches)
  {
    var before, after := Chosen(size, at, terms, n - 1, matches), Chosen(size, at, terms, n, matches);
    ChosenGrows(size, at, terms, 0, n - 1, matches);
    ChosenGrows(size, at, terms, n - 1, n, matches);
    if before == matches {
      TakesNothing(size, at, terms[n - 1], matches);
    } else {
      assert |matches| < |before| <= |after|;
    }
  }

  lemma {:induction false} NothingAdded(size: nat, at: (Pattern, nat) -> bool, terms: seq<Term>, n: nat,
                                        matches: seq<Match>)
    requires n <= |terms|
    ensures Chosen(size, at, terms, n, matches) == matches
            <==> forall k :: 0 <= k < n ==> AddsNothing(size, at, terms[k], matches)
  {
    if n > 0 {
      LastAddsNothing(size, at, terms, n, matches);
      NothingAdded(size, at, terms, n - 1, matches);
    }
  }

  function Pair(t: string, m: Match): (string, string) {
    (m.contact, if m.start <= m.end <= |t| then t[m.start..m.end] else [])
  }

  function Pairs(t: string, matches: seq<Match>): (r: seq<(string, string)>)
    ensures |r| == |matches|
  {
    if matches == [] then [] else [Pair(t, matches[0])] + Pairs(t, matches[1..])
  }

  lemma {:induction false} InsertPairs(t: string, x: Match, s: seq<Match>)
    ensures multiset(Pairs(t, Insert(x, s, Earlier))) == multiset{Pair(t, x)} + multiset(Pairs(t, s))
  {
    if s == [] || Earlier(x, s[0]) {
      assert ([x] + s)[1..] == s;
    } else {
      InsertPairs(t, x, s[1..]);
      assert ([s[0]] + Insert(x, s[1..], Earlier))[1..] == Insert(x, s[1..], Earlier);
    }
  }

  lemma {:induction false} SortPairs(t: string, s: seq<Match>)
    ensures multiset(Pairs(t, Sort(s, Earlier))) == multiset(Pairs(t, s))
  {
    if s != [] {
      SortPairs(t, s[1..]);
      InsertPairs(t, s[0], Sort(s[1..], Earlier));
    }
  }

  lemma {:induction false} SameLength(t: string, a: seq<Match>, b: seq<Match>)
    requires a <= b && multiset(Pairs(t, a)) == multiset(Pairs(t, b))
    ensures a == b
  {
    assert |multiset(Pairs(t, a))| == |a| && |multiset(Pairs(t, b))| == |b|;
  }

  lemma {:induction false} SameWhenNothingAdded(t: string, size: nat, at: (Pattern, nat) -> bool, terms: seq<Term>,
                                                matches: seq<Match>)
    ensures var all := Chosen(size, at, terms, |terms|, matches);
            multiset(Pairs(t, matches)) == multiset(Pairs(t, all))
            <==> forall x :: x in terms ==> AddsNothing(size, at, x, matches)
  {
    var all := Chosen(size, at, terms, |terms|, matches);
    NothingAdded(size, at, terms, |terms|, matches);
    ChosenGrows(size, at, terms, 0, |terms|, matches);
    if multiset(Pairs(t, matches)) == multiset(Pairs(t, all)) { SameLength(t, matches, all); }
    assert (forall k :: 0 <= k < |terms| ==> AddsNothing(size, at, terms[k], matches))
           <==> forall x :: x in terms ==> AddsNothing(size, at, x, matches);
  }

  /**
   * The two implementations return the same pairs of contact and matched text, up to order, exactly if
   * no name or alias of two characters, of a contact without match, occurs clear of all matches.
   */
  lemma {:induction false} Agreement(t: string, canon: char -> char, contacts: seq<Contact>)
    ensures var found := Found(t, canon, contacts, MIN_NAME_LENGTH);
            multiset(Pairs(t, Sort(found, Earlier))) == multiset(Pairs(t, Found(t, canon, contacts, MIN_ALIAS_LENGTH)))
            <==> forall x :: x in ShortTerms(contacts) ==> AddsNothing(|t|, Occurring(t, canon), x, found)
  {
    var found := Found(t, canon, contacts, MIN_NAME_LENGTH);
    FoundWithAliases(t, canon, contacts);
    SortPairs(t, found);
    SameWhenNothingAdded(t, |t|, Occurring(t, canon), ShortTerms(contacts), found);
  }

  /** In particular when no name or alias has two characters. */
  lemma {:induction false} LongNamesAgree(t: string, canon: char -> char, contacts: seq<Contact>)
    requires forall k ::
      0 <= k < |contacts| ==> |contacts[k].name| != 2 && forall a :: a in contacts[k].aliases ==> |a| != 2
    ensures multiset(Pairs(t, Sort(Found(t, canon, contacts, MIN_NAME_LENGTH), Earlier)))
            == multiset(Pairs(t, Found(t, canon, contacts, MIN_ALIAS_LENGTH)))
  {
    var terms := Terms(contacts, MIN_ALIAS_LENGTH);
    forall x | x in terms ensures |x.text| >= 2 { TermsAre(contacts, MIN_ALIAS_LENGTH, x); }
    LongAndShortAre(terms);
    forall x | x in ShortTerms(contacts) ensures false {
      assert x in terms;
      TermsAre(contacts, MIN_ALIAS_LENGTH, x);
    }
    Agreement(t, canon, contacts);
  }

  // ---- `attributeWithPrecedence` -----------------------------------------------------------------

  predicate KinshipOccurs(t: string, canon: char -> char, c: Contact) {
    c.kinship != [] && exists i :: 0 <= i <= |t| && OccursAt(t, canon, c.kinship, i)
  }

  predicate IsFirstKinship(t: string, canon: char -> char, contacts: seq<Contact>, k: nat) {
    && k < |contacts| && KinshipOccurs(t, canon, contacts[k])
    && forall j :: 0 <= j < k ==> !KinshipOccurs(t, canon, contacts[j])
  }

  /** The word for the kinship stands in the text, in whatever case of letters. */
  lemma KinshipMeans(t: string, canon: char -> char, c: Contact)
    ensures KinshipOccurs(t, canon, c)
            <==> c.kinship != "" && exists i: nat, e: nat ::
                   && i <= e <= |t| && IsBoundary(t, i) && IsBoundary(t, e)
                   && Folded(t[i..e], canon) == Folded(c.kinship, canon)
  {
    if c.kinship != "" {
      forall i: nat ensures OccursAt(t, canon, c.kinship, i) <==> exists e: nat ::
          && i <= e <= |t| && IsBoundary(t, i) && IsBoundary(t, e)
          && Folded(t[i..e], canon) == Folded(c.kinship, canon)
      {
        OccursMeans(t, canon, c.kinship, i);
      }
      if i: nat :| OccursAt(t, canon, c.kinship, i) { assert 0 <= i <= |t|; }
    }
  }

  /** There is one such contact at most. */
  lemma OneFirstKinship(t: string, canon: char -> char, contacts: seq<Contact>, k: nat, j: nat)
    requires IsFirstKinship(t, canon, contacts, k) && j < |contacts| && KinshipOccurs(t, canon, contacts[j])
    ensures k <= j
  {
  }

  /** The subject of a text: the first name or alias found; only if there is none, a kinship word. */
  method Attribute(t: string, canon: char -> char, contacts: seq<Contact>) returns (r: Option<(string, Kind)>)
    ensures var found := Found(t, canon, contacts, MIN_ALIAS_LENGTH);
            && (found != [] ==> r == Some((found[0].contact, found[0].kind)))
            && (found == [] && r.Some? ==>
                  exists k: nat :: IsFirstKinship(t, canon, contacts, k) && r == Some((contacts[k].name, Kinship)))
            && (found == [] && r.None? ==> forall k :: 0 <= k < |contacts| ==> !KinshipOccurs(t, canon, contacts[k]))
  {
    var matches := MatchWithAliases(t, canon, contacts);
    if matches != [] { return Some((matches[0].contact, matches[0].kind)); }
    for k := 0 to |contacts|
      invariant forall j :: 0 <= j < k ==> !KinshipOccurs(t, canon, contacts[j])
    {
      if KinshipOccurs(t, canon, contacts[k]) {
        assert IsFirstKinship(t, canon, contacts, k);
        return Some((contacts[k].name, Kinship));
      }
    }
    r := None;
  }
}
