/** `rehydratePII`: putting the values back, one token after another, with `replaceAll`. */
module Rehydration {
  import opened Regex
  import opened PiiPatterns
  import opened Spans
  import opened Tokens
  import Sorting

  datatype Entry = Entry(token: string, entity: TypeName, value: string)

  /** A token in brackets for a value without brackets and dollar signs. */
  ghost predicate Sane(e: Entry) {
    Bracketed(e.token) && DelimiterFree(e.value)
  }

  /** `s.replaceAll(token, value)` for a value without dollar signs, which would mark substitutions. */
  function ReplaceAll(s: string, token: string, value: string): string
    requires token != []
    decreases |s|
  {
    if s == [] then []
    else if token <= s then value + ReplaceAll(s[|token|..], token, value)
    else [s[0]] + ReplaceAll(s[1..], token, value)
  }

  predicate LongerToken(a: Entry, b: Entry) {
    |a.token| >= |b.token|
  }

  ghost predicate AllSane(entries: seq<Entry>) {
    forall k :: 0 <= k < |entries| ==> Sane(entries[k])
  }

  function ReplaceEach(s: string, entries: seq<Entry>): string
    requires forall k :: 0 <= k < |entries| ==> entries[k].token != []
    decreases |entries|
  {
    if entries == [] then s
    else ReplaceEach(ReplaceAll(s, entries[0].token, entries[0].value), entries[1..])
  }

  function Rehydrated(s: string, entries: seq<Entry>): string
    requires forall k :: 0 <= k < |entries| ==> entries[k].token != []
  {
    var sorted := Sorting.Sort(entries, LongerToken);
    assert forall k :: 0 <= k < |sorted| ==> sorted[k].token != [] by {
      Sorting.SortKeepsElements(entries, LongerToken);
      assert forall k :: 0 <= k < |sorted| ==> sorted[k] in sorted;
    }
    ReplaceEach(s, sorted)
  }

  // ---- Brackets keep tokens apart ----------------------------------------------------------------

  /** Text without an opening bracket is copied. */
  lemma {:induction false} CopyText(x: string, r: string, token: string, value: string)
    requires Bracketed(token) && '[' !in x
    ensures ReplaceAll(x + r, token, value) == x + ReplaceAll(r, token, value)
  {
    if x == [] {
      assert x + r == r;
    } else {
      assert (x + r)[0] == x[0] && (x + r)[1..] == x[1..] + r;
      CopyText(x[1..], r, token, value);
    }
  }

  /** A bracketed string is no prefix of another. */
  lemma BracketedPrefix(a: string, b: string, r: string)
    requires Bracketed(a) && Bracketed(b) && a <= b + r
    ensures a == b
  {
    var s := b + r;
    assert forall k :: 0 <= k < |a| ==> a[k] == s[k];
    assert forall k :: 0 <= k < |b| ==> b[k] == s[k];
    assert s[|a| - 1] == ']' && s[|b| - 1] == ']';
  }

  /** A different token is copied as a whole. */
  lemma {:induction false} CopyToken(other: string, r: string, token: string, value: string)
    requires Bracketed(token) && Bracketed(other) && other != token
    ensures ReplaceAll(other + r, token, value) == other + ReplaceAll(r, token, value)
  {
    var s := other + r;
    if token <= s { BracketedPrefix(token, other, r); }
    assert s[1..] == other[1..] + r;
    CopyText(other[1..], r, token, value);
    assert other == [other[0]] + other[1..];
  }

  predicate AllBracketed(spans: seq<Span>) {
    forall k :: 0 <= k < |spans| ==> Bracketed(spans[k].text)
  }

  lemma PrefixHolds(x: string, r: string, k: nat)
    requires x <= r && k < |x|
    ensures r[k] in x
  {
    assert x[k] == r[k];
  }

  /** What a rendering starts with before its first bracket, the text starts with. */
  lemma {:induction false} PlainPrefix(t: string, p: nat, spans: seq<Span>, x: string)
    requires InOrder(t, p, spans) && AllBracketed(spans) && '[' !in x && x <= Render(t, p, spans)
    ensures p + |x| <= |t| && t[p..p + |x|] == x
  {
    if spans != [] {
      var gap := t[p..spans[0].start];
      var r := Render(t, p, spans);
      assert r[|gap|] == spans[0].text[0];
      if |x| > |gap| { PrefixHolds(x, r, |gap|); }
    }
  }

  /** Strips off the first character of a gap. */
  lemma GapStep(t: string, p: nat, spans: seq<Span>)
    requires InOrder(t, p, spans) && p < |t| && (spans == [] || p < spans[0].start)
    ensures InOrder(t, p + 1, spans) && Render(t, p, spans) == [t[p]] + Render(t, p + 1, spans)
  {
    FromEarlier(t, p, p + 1, spans);
  }

  // ---- Replacing one token -----------------------------------------------------------------------

  function Without(spans: seq<Span>, token: string): seq<Span>
    decreases |spans|
  {
    if spans == [] then []
    else (if spans[0].text == token then [] else [spans[0]]) + Without(spans[1..], token)
  }

  lemma {:induction false} WithoutHas(spans: seq<Span>, token: string, sp: Span)
    ensures sp in Without(spans, token) <==> sp in spans && sp.text != token
    decreases |spans|
  {
    if spans != [] {
      WithoutHas(spans[1..], token, sp);
      assert sp in spans <==> sp == spans[0] || sp in spans[1..];
    }
  }

  lemma {:induction false} WithoutIsBracketed(spans: seq<Span>, token: string)
    requires AllBracketed(spans)
    ensures AllBracketed(Without(spans, token))
  {
    var left := Without(spans, token);
    forall k | 0 <= k < |left| ensures Bracketed(left[k].text) { WithoutHas(spans, token, left[k]); }
  }

  lemma {:induction false} WithoutIsInOrder(t: string, p: nat, spans: seq<Span>, token: string)
    requires InOrder(t, p, spans)
    ensures InOrder(t, p, Without(spans, token))
    decreases |spans|
  {
    if spans != [] {
      var sp, left := spans[0], Without(spans[1..], token);
      WithoutIsInOrder(t, sp.end, spans[1..], token);
      if sp.text == token {
        assert Without(spans, token) == left;
        FromEarlier(t, p, sp.end, left);
      } else {
        assert Without(spans, token) == [sp] + left && ([sp] + left)[1..] == left;
      }
    }
  }

  /** The spans that show `token` cover `value` in the text. */
  predicate Restores(t: string, spans: seq<Span>, token: string, value: string) {
    forall k :: 0 <= k < |spans| && spans[k].text == token ==>
      spans[k].start <= spans[k].end <= |t| && t[spans[k].start..spans[k].end] == value
  }

  predicate NowhereFrom(t: string, p: nat, token: string) {
    forall a :: p <= a <= |t| ==> !OccursAt(t, a, token)
  }

  /** `replaceAll` undoes exactly the spans that show `token`. */
  ghost predicate Undone(t: string, p: nat, spans: seq<Span>, token: string, value: string) {
    && token != [] && InOrder(t, p, spans) && InOrder(t, p, Without(spans, token))
    && ReplaceAll(Render(t, p, spans), token, value) == Render(t, p, Without(spans, token))
  }

  /** A token cannot start in a gap unless the text has it there. */
  lemma {:induction false} TokenInGap(t: string, p: nat, spans: seq<Span>, token: string)
    requires p < |t| && InOrder(t, p + 1, spans) && AllBracketed(spans) && Bracketed(token)
    requires token <= [t[p]] + Render(t, p + 1, spans)
    ensures OccursAt(t, p, token)
  {
    var x, q := token[1..], p + 1;
    assert x <= Render(t, q, spans) by { assert ([t[p]] + Render(t, q, spans))[1..] == Render(t, q, spans); }
    PlainPrefix(t, q, spans, x);
    forall k | 0 <= k < |token| ensures t[p + k] == token[k] {
      if k > 0 { assert t[q..q + |x|][k - 1] == x[k - 1]; }
    }
  }

  lemma UndoneAtGap(t: string, p: nat, spans: seq<Span>, token: string, value: string)
    requires InOrder(t, p, spans) && AllBracketed(spans) && Bracketed(token) && NowhereFrom(t, p, token)
    requires p < |t| && (spans == [] || p < spans[0].start) && Undone(t, p + 1, spans, token, value)
    ensures Undone(t, p, spans, token, value)
  {
    GapStep(t, p, spans);
    var r, r1 := Render(t, p, spans), Render(t, p + 1, spans);
    assert r == [t[p]] + r1 && r[1..] == r1;
    if token <= r { TokenInGap(t, p, spans, token); }
    WithoutIsInOrder(t, p, spans, token);
    GapStep(t, p, Without(spans, token));
  }

  lemma UndoneAtToken(t: string, sp: Span, rest: seq<Span>, token: string, value: string)
    requires sp.start < sp.end <= |t| && sp.text == token && Bracketed(token) && t[sp.start..sp.end] == value
    requires Undone(t, sp.end, rest, token, value)
    ensures Undone(t, sp.start, [sp] + rest, token, value)
  {
    var spans, tail := [sp] + rest, Render(t, sp.end, rest);
    assert spans[1..] == rest;
    assert t[sp.start..sp.start] == [];
    assert Render(t, sp.start, spans) == token + tail;
    assert (token + tail)[|token|..] == tail;
    assert Without(spans, token) == Without(rest, token);
    FromEarlier(t, sp.start, sp.end, Without(rest, token));
  }

  lemma KeptAtToken(t: string, sp: Span, rest: seq<Span>, token: string, value: string)
    requires sp.start < sp.end <= |t| && sp.text != token && Bracketed(sp.text) && Bracketed(token)
    requires Undone(t, sp.end, rest, token, value)
    ensures Undone(t, sp.start, [sp] + rest, token, value)
  {
    var spans, tail, left := [sp] + rest, Render(t, sp.end, rest), Without(rest, token);
    assert spans[1..] == rest;
    assert t[sp.start..sp.start] == [];
    assert Render(t, sp.start, spans) == sp.text + tail;
    CopyToken(sp.text, tail, token, value);
    assert Without(spans, token) == [sp] + left;
    assert ([sp] + left)[1..] == left;
    assert Render(t, sp.start, [sp] + left) == sp.text + Render(t, sp.end, left);
  }

  /** If the text has no `token`, that is all `replaceAll` does. */
  lemma {:induction false} ReplaceOne(t: string, p: nat, spans: seq<Span>, token: string, value: string)
    requires InOrder(t, p, spans) && AllBracketed(spans) && Bracketed(token)
    requires Restores(t, spans, token, value) && NowhereFrom(t, p, token)
    ensures Undone(t, p, spans, token, value)
    decreases |spans|, |t| - p
  {
    if spans != [] && spans[0].start == p {
      var sp, rest := spans[0], spans[1..];
      ReplaceOne(t, sp.end, rest, token, value);
      assert spans == [sp] + rest;
      if sp.text == token { UndoneAtToken(t, sp, rest, token, value); } else { KeptAtToken(t, sp, rest, token, value); }
    } else if p < |t| {
      FromEarlier(t, p, p, spans);
      assert InOrder(t, p + 1, spans);
      ReplaceOne(t, p + 1, spans, token, value);
      UndoneAtGap(t, p, spans, token, value);
    }
  }

  // ---- Replacing all of them ---------------------------------------------------------------------

  /** Every entry that a span shows gives back what the span covers. */
  predicate Undoes(t: string, spans: seq<Span>, entries: seq<Entry>) {
    && (forall k :: 0 <= k < |entries| ==> Restores(t, spans, entries[k].token, entries[k].value))
    && (forall k :: 0 <= k < |spans| ==> exists e :: e in entries && e.token == spans[k].text)
  }

  predicate NoneOccurs(t: string, entries: seq<Entry>) {
    forall k :: 0 <= k < |entries| ==> NowhereFrom(t, 0, entries[k].token)
  }

  lemma NoEntryNoSpan(t: string, spans: seq<Span>, entries: seq<Entry>)
    requires Undoes(t, spans, entries)
    ensures entries == [] ==> spans == []
  {
    if spans != [] {
      var span := spans[0];
      assert exists e :: e in entries && e.token == span.text;
    }
  }

  lemma {:induction false} ReplaceEachRestores(t: string, spans: seq<Span>, entries: seq<Entry>)
    requires InOrder(t, 0, spans) && AllBracketed(spans) && AllSane(entries)
    requires Undoes(t, spans, entries) && NoneOccurs(t, entries)
    ensures ReplaceEach(Render(t, 0, spans), entries) == t
    decreases |entries|
  {
    if entries == [] {
      NoEntryNoSpan(t, spans, entries);
    } else {
      var e, left := entries[0], Without(spans, entries[0].token);
      ReplaceOne(t, 0, spans, e.token, e.value);
      WithoutIsBracketed(spans, e.token);
      forall k | 0 <= k < |left| ensures exists x :: x in entries[1..] && x.token == left[k].text {
        WithoutHas(spans, e.token, left[k]);
        var j :| 0 <= j < |spans| && spans[j] == left[k];
        var x :| x in entries && x.token == spans[j].text;
        assert x in entries[1..];
      }
      forall k | 0 <= k < |entries[1..]| ensures Restores(t, left, entries[1..][k].token, entries[1..][k].value) {
        assert Restores(t, spans, entries[k + 1].token, entries[k + 1].value);
        forall m | 0 <= m < |left| && left[m].text == entries[k + 1].token
          ensures left[m].start <= left[m].end <= |t| && t[left[m].start..left[m].end] == entries[k + 1].value
        {
          WithoutHas(spans, e.token, left[m]);
          var j :| 0 <= j < |spans| && spans[j] == left[m];
        }
      }
      ReplaceEachRestores(t, left, entries[1..]);
    }
  }

  /** A text that contains none of the tokens comes back, whatever its spans show. */
  lemma {:induction false} RehydrateRestores(t: string, spans: seq<Span>, entries: seq<Entry>)
    requires InOrder(t, 0, spans) && AllBracketed(spans) && AllSane(entries)
    requires Undoes(t, spans, entries) && NoneOccurs(t, entries)
    ensures Rehydrated(Render(t, 0, spans), entries) == t
  {
    var sorted := Sorting.Sort(entries, LongerToken);
    Sorting.SortKeepsElements(entries, LongerToken);
    forall k | 0 <= k < |sorted|
      ensures Sane(sorted[k]) && Restores(t, spans, sorted[k].token, sorted[k].value)
              && NowhereFrom(t, 0, sorted[k].token)
    {
      assert sorted[k] in sorted;
      var j :| 0 <= j < |entries| && entries[j] == sorted[k];
    }
    forall k | 0 <= k < |spans| ensures exists e :: e in sorted && e.token == spans[k].text {
      var e :| e in entries && e.token == spans[k].text;
      assert e in sorted;
    }
    ReplaceEachRestores(t, spans, sorted);
  }

  // ---- Counting brackets: the converse -----------------------------------------------------------

  predicate IsOpen(c: char) {
    c == '['
  }

  lemma {:induction false} NoneOpen(s: string)
    requires '[' !in s
    ensures Count(s, IsOpen) == 0
  {
    if s != [] { NoneOpen(s[1..]); }
  }

  lemma {:induction false} BracketedOpensOnce(s: string)
    requires Bracketed(s)
    ensures Count(s, IsOpen) == 1
  {
    NoneOpen(s[1..]);
  }

  predicate StartsWithOne(s: string, tokens: set<string>) {
    exists x :: x in tokens && x <= s
  }

  /** At how many positions of `s` does one of `tokens` occur? */
  function Hits(s: string, tokens: set<string>): nat {
    if s == [] then 0 else (if StartsWithOne(s, tokens) then 1 else 0) + Hits(s[1..], tokens)
  }

  ghost predicate BracketedSet(tokens: set<string>) {
    forall x :: x in tokens ==> Bracketed(x)
  }

  /** No token starts in text without an opening bracket. */
  lemma {:induction false} HitsAfterText(x: string, r: string, tokens: set<string>)
    requires '[' !in x && BracketedSet(tokens)
    ensures Hits(x + r, tokens) == Hits(r, tokens)
  {
    if x == [] {
      assert x + r == r;
    } else {
      assert (x + r)[0] == x[0] && (x + r)[1..] == x[1..] + r;
      HitsAfterText(x[1..], r, tokens);
    }
  }

  /** A token hits where it starts and nowhere inside. */
  lemma {:induction false} HitsAfterToken(x: string, r: string, tokens: set<string>)
    requires Bracketed(x) && BracketedSet(tokens)
    ensures Hits(x + r, tokens) == (if x in tokens then 1 else 0) + Hits(r, tokens)
  {
    var s := x + r;
    assert s[1..] == x[1..] + r;
    HitsAfterText(x[1..], r, tokens);
    if x in tokens {
      assert x <= s;
    } else if StartsWithOne(s, tokens) {
      var y :| y in tokens && y <= s;
      BracketedPrefix(y, x, r);
    }
  }

  lemma SplitPrefix(s: string, x: string) returns (r: string)
    requires x <= s
    ensures s == x + r && r == s[|x|..]
  {
    r := s[|x|..];
  }

  /** Every occurrence that is replaced takes one bracket away. */
  lemma {:induction false} ReplaceTakesBrackets(s: string, token: string, value: string)
    requires Bracketed(token) && '[' !in value
    ensures Count(ReplaceAll(s, token, value), IsOpen) + Hits(s, {token}) == Count(s, IsOpen)
    decreases |s|
  {
    if s == [] {
    } else if token <= s {
      var r := SplitPrefix(s, token);
      ReplaceTakesBrackets(r, token, value);
      HitsAfterToken(token, r, {token});
      CountConcat(token, r, IsOpen);
      BracketedOpensOnce(token);
      CountConcat(value, ReplaceAll(r, token, value), IsOpen);
      NoneOpen(value);
    } else {
      ReplaceTakesBrackets(s[1..], token, value);
      CountConcat([s[0]], ReplaceAll(s[1..], token, value), IsOpen);
      assert !StartsWithOne(s, {token});
    }
  }

  /** Replacing one token leaves all occurrences of the others. */
  lemma {:induction false} ReplaceKeepsOthers(s: string, token: string, value: string, others: set<string>)
    requires Bracketed(token) && '[' !in value && BracketedSet(others) && token !in others
    ensures Hits(ReplaceAll(s, token, value), others) >= Hits(s, others)
    decreases |s|
  {
    if s == [] {
    } else if token <= s {
      var r := SplitPrefix(s, token);
      ReplaceKeepsOthers(r, token, value, others);
      HitsAfterToken(token, r, others);
      HitsAfterText(value, ReplaceAll(r, token, value), others);
    } else {
      ReplaceKeepsOthers(s[1..], token, value, others);
      var u := [s[0]] + ReplaceAll(s[1..], token, value);
      assert u[1..] == ReplaceAll(s[1..], token, value);
      if StartsWithOne(s, others) {
        var x :| x in others && x <= s;
        var r := SplitPrefix(s, x);
        CopyToken(x, r, token, value);
        assert x <= u;
      }
    }
  }

  lemma {:induction false} HitsOfUnion(s: string, token: string, others: set<string>)
    ensures Hits(s, {token} + others) <= Hits(s, {token}) + Hits(s, others)
  {
    if s != [] {
      HitsOfUnion(s[1..], token, others);
      if StartsWithOne(s, {token} + others) {
        var x :| x in {token} + others && x <= s;
        assert x in {token} || x in others;
      }
    }
  }

  function TokensOf(entries: seq<Entry>): set<string> {
    set k | 0 <= k < |entries| :: entries[k].token
  }

  ghost predicate Distinct(entries: seq<Entry>) {
    forall i, j :: 0 <= i < j < |entries| ==> entries[i].token != entries[j].token
  }

  lemma {:induction false} ReplaceEachTakesBrackets(s: string, entries: seq<Entry>)
    requires AllSane(entries) && Distinct(entries)
    ensures Count(ReplaceEach(s, entries), IsOpen) + Hits(s, TokensOf(entries)) <= Count(s, IsOpen)
    decreases |entries|
  {
    if entries == [] {
      NoHits(s);
    } else {
      var e, rest := entries[0], entries[1..];
      var u := ReplaceAll(s, e.token, e.value);
      ReplaceEachTakesBrackets(u, rest);
      ReplaceTakesBrackets(s, e.token, e.value);
      ReplaceKeepsOthers(s, e.token, e.value, TokensOf(rest));
      HitsOfUnion(s, e.token, TokensOf(rest));
      assert TokensOf(entries) == {e.token} + TokensOf(rest) by {
        forall x | x in TokensOf(entries) ensures x in {e.token} + TokensOf(rest) {
          var k :| 0 <= k < |entries| && entries[k].token == x;
          if k > 0 { assert rest[k - 1].token == x; }
        }
        forall x | x in TokensOf(rest) ensures x in TokensOf(entries) {
          var k :| 0 <= k < |rest| && rest[k].token == x;
          assert entries[k + 1].token == x;
        }
      }
    }
  }

  lemma {:induction false} NoHits(s: string)
    ensures Hits(s, TokensOf([])) == 0
  {
    if s != [] { NoHits(s[1..]); }
  }

  /** No occurrence of one of `tokens` in `t` touches one of `spans`. */
  ghost predicate Missed(t: string, spans: seq<Span>, tokens: set<string>) {
    forall a, x, k :: x in tokens && OccursAt(t, a, x) && 0 <= k < |spans| ==>
      spans[k].end <= a || a + |x| <= spans[k].start
  }

  ghost predicate CoversPlainText(t: string, spans: seq<Span>) {
    forall k :: 0 <= k < |spans| ==> spans[k].start <= spans[k].end <= |t| && '[' !in t[spans[k].start..spans[k].end]
  }

  /** A rendering has one more bracket for each span ... */
  lemma {:induction false} RenderAddsBrackets(t: string, p: nat, spans: seq<Span>)
    requires InOrder(t, p, spans) && AllBracketed(spans) && CoversPlainText(t, spans)
    ensures Count(Render(t, p, spans), IsOpen) == Count(t[p..], IsOpen) + |spans|
    decreases |spans|
  {
    if spans != [] {
      var sp, rest := spans[0], spans[1..];
      RenderAddsBrackets(t, sp.end, rest);
      var gap, tail := t[p..sp.start], Render(t, sp.end, rest);
      CountConcat(gap, sp.text + tail, IsOpen);
      CountConcat(sp.text, tail, IsOpen);
      BracketedOpensOnce(sp.text);
      assert t[p..] == gap + (t[sp.start..sp.end] + t[sp.end..]);
      CountConcat(gap, t[sp.start..sp.end] + t[sp.end..], IsOpen);
      CountConcat(t[sp.start..sp.end], t[sp.end..], IsOpen);
      NoneOpen(t[sp.start..sp.end]);
    }
  }

  lemma {:induction false} HitsAtSpan(t: string, sp: Span, tail: string, tokens: set<string>)
    requires sp.start < sp.end <= |t| && '[' !in t[sp.start..sp.end] && Bracketed(sp.text) && sp.text in tokens
    requires BracketedSet(tokens)
    ensures Hits(sp.text + tail, tokens) == 1 + Hits(tail, tokens)
    ensures Hits(t[sp.start..], tokens) == Hits(t[sp.end..], tokens)
  {
    HitsAfterToken(sp.text, tail, tokens);
    assert t[sp.start..] == t[sp.start..sp.end] + t[sp.end..];
    HitsAfterText(t[sp.start..sp.end], t[sp.end..], tokens);
  }

  lemma HitsAtGap(t: string, p: nat, spans: seq<Span>, tokens: set<string>)
    requires InOrder(t, p, spans) && p < |t| && (spans == [] || p < spans[0].start) && Missed(t, spans, tokens)
    ensures InOrder(t, p + 1, spans)
    ensures Hits(Render(t, p, spans), tokens) - Hits(Render(t, p + 1, spans), tokens)
         >= Hits(t[p..], tokens) - Hits(t[p + 1..], tokens)
  {
    GapStep(t, p, spans);
    var r := Render(t, p, spans);
    assert r[1..] == Render(t, p + 1, spans) && t[p..][1..] == t[p + 1..];
    if StartsWithOne(t[p..], tokens) { HitInGap(t, p, spans, tokens); }
  }

  /** ... and at least one more occurrence of a token. */
  lemma {:induction false} RenderAddsHits(t: string, p: nat, spans: seq<Span>, tokens: set<string>)
    requires InOrder(t, p, spans) && AllBracketed(spans) && CoversPlainText(t, spans)
    requires BracketedSet(tokens) && Missed(t, spans, tokens)
    requires forall k :: 0 <= k < |spans| ==> spans[k].text in tokens
    ensures Hits(Render(t, p, spans), tokens) >= Hits(t[p..], tokens) + |spans|
    decreases |spans|, |t| - p
  {
    if spans != [] && spans[0].start == p {
      var sp, rest := spans[0], spans[1..];
      RenderAddsHits(t, sp.end, rest, tokens);
      assert t[p..p] == [];
      assert Render(t, p, spans) == sp.text + Render(t, sp.end, rest);
      HitsAtSpan(t, sp, Render(t, sp.end, rest), tokens);
    } else if p < |t| {
      HitsAtGap(t, p, spans, tokens);
      RenderAddsHits(t, p + 1, spans, tokens);
    }
  }

  lemma {:induction false} HitInGap(t: string, p: nat, spans: seq<Span>, tokens: set<string>)
    requires InOrder(t, p, spans) && p < |t| && (spans == [] || p < spans[0].start)
    requires Missed(t, spans, tokens) && StartsWithOne(t[p..], tokens)
    ensures StartsWithOne(Render(t, p, spans), tokens)
  {
    var x :| x in tokens && x <= t[p..];
    assert OccursAt(t, p, x);
    if spans != [] {
      assert p + |x| <= spans[0].start;
      assert t[p..spans[0].start] == x + t[p + |x|..spans[0].start];
    }
    assert x <= Render(t, p, spans);
  }

  lemma OccursBehind(x: string, y: string, a: nat, token: string)
    requires |x| <= a && OccursAt(x + y, a, token)
    ensures OccursAt(y, a - |x|, token)
  {
    assert y[a - |x|..a - |x| + |token|] == (x + y)[a..a + |token|];
  }

  /** A token occurs at another one only if it is that, and otherwise behind it. */
  lemma OccursAtToken(x: string, y: string, a: nat, token: string)
    requires Bracketed(x) && Bracketed(token) && OccursAt(x + y, a, token)
    ensures token == x || (a >= |x| && OccursAt(y, a - |x|, token))
  {
    assert (x + y)[a..a + |token|][0] == '[';
    if a == 0 {
      assert token <= x + y;
      BracketedPrefix(token, x, y);
    } else if a >= |x| {
      OccursBehind(x, y, a, token);
    }
  }

  lemma OccursAtGap(t: string, p: nat, spans: seq<Span>, x: string, a: nat)
    requires InOrder(t, p, spans) && AllBracketed(spans) && Bracketed(x) && OccursAt(Render(t, p, spans), a, x)
    requires p < |t| && (spans == [] || p < spans[0].start)
    ensures InOrder(t, p + 1, spans) && (OccursAt(t, p, x) || (a > 0 && OccursAt(Render(t, p + 1, spans), a - 1, x)))
  {
    GapStep(t, p, spans);
    if a == 0 {
      assert x <= Render(t, p, spans);
      TokenInGap(t, p, spans, x);
    } else {
      OccursBehind([t[p]], Render(t, p + 1, spans), a, x);
    }
  }

  predicate Shown(spans: seq<Span>, x: string) {
    exists k :: 0 <= k < |spans| && spans[k].text == x
  }

  /** A token that occurs in a rendering is one that a span shows, or it occurs in the text. */
  lemma {:induction false} OccursInRender(t: string, p: nat, spans: seq<Span>, x: string, a: nat) returns (b: nat)
    requires InOrder(t, p, spans) && AllBracketed(spans) && Bracketed(x) && OccursAt(Render(t, p, spans), a, x)
    ensures OccursAt(t, b, x) || Shown(spans, x)
    decreases |spans|, |t| - p
  {
    if p < |t| && (spans == [] || p < spans[0].start) {
      OccursAtGap(t, p, spans, x, a);
      if OccursAt(t, p, x) { b := p; } else { b := OccursInRender(t, p + 1, spans, x, a - 1); }
    } else if spans != [] {
      var s, tail := spans[0], Render(t, spans[0].end, spans[1..]);
      assert Render(t, p, spans) == s.text + tail by { assert t[p..s.start] == []; }
      OccursAtToken(s.text, tail, a, x);
      b := 0;
      if x != s.text {
        b := OccursInRender(t, s.end, spans[1..], x, a - |s.text|);
        if Shown(spans[1..], x) {
          var k :| 0 <= k < |spans[1..]| && spans[1..][k].text == x;
          assert spans[k + 1].text == x;
        }
      }
    }
  }

  lemma {:induction false} OccurrenceHits(t: string, a: nat, x: string, tokens: set<string>)
    requires OccursAt(t, a, x) && x in tokens && x != []
    ensures Hits(t, tokens) > 0
  {
    if a > 0 {
      forall k | 0 <= k < |x| ensures t[1..][a - 1 + k] == x[k] { assert t[a..a + |x|][k] == x[k]; }
      OccurrenceHits(t[1..], a - 1, x, tokens);
    } else {
      assert x <= t;
    }
  }
}
