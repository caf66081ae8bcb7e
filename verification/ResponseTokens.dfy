/** Tokens that were not rehydrated: what the guard's expression finds in a text, and in its parts. */
module ResponseTokens {
  import opened Text
  import opened Sentences

  /** A match of `\[[A-Z_]+_\d+\]`, with its last underscore at `m`. */
  predicate IsTokenAt(x: string, m: nat) {
    && 2 <= m < |x| - 2 && x[0] == '[' && x[m] == '_' && x[|x| - 1] == ']'
    && (forall k :: 0 < k < m ==> 'A' <= x[k] <= 'Z' || x[k] == '_')
    && (forall k :: m < k < |x| - 1 ==> IsDigit(x[k]))
  }

  predicate IsToken(x: string) {
    exists m :: 0 <= m < |x| && IsTokenAt(x, m)
  }

  /** `PII_TOKEN_RE` finds a match. */
  predicate HasToken(s: string) {
    exists i, e :: 0 <= i <= e <= |s| && IsToken(s[i..e])
  }

  // ---- Where text without white space can occur --------------------------------------------------

  predicate OccursAt(s: string, x: string, i: int) {
    0 <= i <= |s| - |x| && s[i..i + |x|] == x
  }

  ghost predicate Inside(s: string, x: string) {
    exists i :: OccursAt(s, x, i)
  }

  predicate Solid(x: string) {
    x != [] && NoSpace(x)
  }

  lemma OccursIs(s: string, x: string, i: int)
    requires 0 <= i <= |s| - |x|
    ensures OccursAt(s, x, i) <==> forall j :: 0 <= j < |x| ==> x[j] == s[i + j]
  {
    if OccursAt(s, x, i) {
      forall j | 0 <= j < |x| ensures x[j] == s[i + j] { assert s[i..i + |x|][j] == s[i + j]; }
    }
  }

  lemma InsideSlice(s: string, p: nat, q: nat, x: string)
    requires p <= q <= |s| && Inside(s[p..q], x)
    ensures Inside(s, x)
  {
    var i :| OccursAt(s[p..q], x, i);
    OccursIs(s[p..q], x, i);
    forall j | 0 <= j < |x| ensures x[j] == s[p + i + j] { assert s[p..q][i + j] == s[p + i + j]; }
    OccursIs(s, x, p + i);
    assert OccursAt(s, x, p + i);
  }

  /** It occurs on one side of a white-space character, not across it. */
  lemma InsideAround(s: string, k: nat, x: string)
    requires k < |s| && IsSpace(s[k]) && Solid(x)
    ensures Inside(s, x) <==> Inside(s[..k], x) || Inside(s[k + 1..], x)
  {
    if Inside(s[..k], x) { InsideSlice(s, 0, k, x); }
    assert s[k + 1..] == s[k + 1..|s|];
    if Inside(s[k + 1..], x) { InsideSlice(s, k + 1, |s|, x); }
    if i :| OccursAt(s, x, i) {
      OccursIs(s, x, i);
      assert i <= k < i + |x| ==> x[k - i] == s[k];
      if i > k {
        assert s[k + 1..][i - k - 1..i - k - 1 + |x|] == x;
        assert OccursAt(s[k + 1..], x, i - k - 1);
      } else if i + |x| <= k {
        assert s[..k][i..i + |x|] == x;
        assert OccursAt(s[..k], x, i);
      }
    }
  }

  lemma InsideNothing(x: string)
    requires x != []
    ensures !Inside([], x)
  {
    assert forall i :: !OccursAt([], x, i);
  }

  /** White space from `k` on holds nothing of it. */
  lemma {:induction false} InsideSkip(s: string, k: nat, x: string)
    requires k <= |s| && Solid(x)
    ensures Inside(s[k..], x) <==> Inside(s[SkipSpace(s, k)..], x)
    decreases |s| - k
  {
    if k < |s| && IsSpace(s[k]) {
      InsideSkip(s, k + 1, x);
      InsideAround(s[k..], 0, x);
      InsideNothing(x);
      assert s[k..][..0] == [] && s[k..][1..] == s[k + 1..];
    }
  }

  lemma {:induction false} InsideSkipBack(s: string, k: nat, x: string)
    requires k <= |s| && Solid(x)
    ensures Inside(s[..k], x) <==> Inside(s[..SkipSpaceBack(s, k)], x)
    decreases k
  {
    if k > 0 && IsSpace(s[k - 1]) {
      InsideSkipBack(s, k - 1, x);
      InsideAround(s[..k], k - 1, x);
      InsideNothing(x);
      assert s[..k][..k - 1] == s[..k - 1] && s[..k][k..] == [];
    }
  }

  lemma InsideTrim(s: string, x: string)
    requires Solid(x)
    ensures Inside(Trim(s), x) <==> Inside(s, x)
  {
    var a := TrimStart(s);
    InsideSkip(s, 0, x);
    InsideSkipBack(a, |a|, x);
    assert s[0..] == s && a[..|a|] == a;
  }

  ghost predicate InSome(parts: seq<string>, x: string) {
    exists k :: 0 <= k < |parts| && Inside(parts[k], x)
  }

  lemma InSomeOfMore(first: string, rest: seq<string>, x: string)
    ensures InSome([first] + rest, x) <==> Inside(first, x) || InSome(rest, x)
  {
    var parts := [first] + rest;
    if k :| 0 <= k < |parts| && Inside(parts[k], x) {
      if k > 0 { assert Inside(rest[k - 1], x); }
    }
    if Inside(first, x) { assert Inside(parts[0], x); }
    if k :| 0 <= k < |rest| && Inside(rest[k], x) { assert Inside(parts[k + 1], x); }
  }

  /** It occurs in parts joined by spaces exactly if it occurs in one of them. */
  lemma {:induction false} InsideJoin(parts: seq<string>, x: string)
    requires Solid(x)
    ensures Inside(Join(parts), x) <==> InSome(parts, x)
  {
    if parts == [] {
      InsideNothing(x);
    } else if |parts| > 1 {
      var joined := Join(parts[1..]);
      var s, k := parts[0] + (" " + joined), |parts[0]|;
      InsideJoin(parts[1..], x);
      InsideAround(s, k, x);
      assert s[..k] == parts[0] && s[k + 1..] == joined && parts == [parts[0]] + parts[1..];
      InSomeOfMore(parts[0], parts[1..], x);
    } else {
      assert Inside(parts[0], x) ==> InSome(parts, x);
    }
  }

  lemma {:induction false} InsideGap(t: string, p: nat, q: nat, x: string)
    requires p <= q < |t| && IsSpace(t[q]) && Solid(x)
    ensures Inside(t[p..], x) <==> Inside(t[p..q], x) || Inside(t[SkipSpace(t, q)..], x)
  {
    InsideAround(t[p..], q - p, x);
    assert t[p..][..q - p] == t[p..q] && t[p..][q - p + 1..] == t[q + 1..];
    InsideSkip(t, q + 1, x);
  }

  /** It occurs in a text exactly if it occurs in one of the pieces that the text is cut into. */
  lemma {:induction false} InsideCut(t: string, p: nat, q: nat, x: string)
    requires p <= q <= |t| && Solid(x)
    ensures Inside(t[p..], x) <==> InSome(Cut(t, p, q), x)
    decreases |t| - q
  {
    if q == |t| {
      InSomeOfMore(t[p..], [], x);
      assert [t[p..]] + [] == [t[p..]];
    } else if Break(t, q) {
      var e := SkipSpace(t, q);
      assert e > q && IsSpace(t[q]);
      InsideCut(t, e, e, x);
      InsideGap(t, p, q, x);
      InSomeOfMore(t[p..q], Cut(t, e, e), x);
    } else {
      InsideCut(t, p, q + 1, x);
    }
  }

  lemma BlankHoldsNothing(s: string, x: string)
    requires AllSpace(s) && Solid(x)
    ensures !Inside(s, x)
  {
    forall i ensures !OccursAt(s, x, i) {
      if 0 <= i <= |s| - |x| {
        OccursIs(s, x, i);
        assert IsSpace(s[i + 0]) && !IsSpace(x[0]);
      }
    }
  }

  lemma {:induction false} InSomeNotBlank(parts: seq<string>, i: nat, x: string)
    requires Solid(x)
    ensures InSome(Filter(parts, i, NotBlank), x) <==> InSome(parts, x)
    decreases |parts|
  {
    if parts != [] {
      var rest := Filter(parts[1..], i + 1, NotBlank);
      InSomeNotBlank(parts[1..], i + 1, x);
      InSomeOfMore(parts[0], parts[1..], x);
      InSomeOfMore(parts[0], rest, x);
      assert parts == [parts[0]] + parts[1..];
      if AllSpace(parts[0]) {
        BlankHoldsNothing(parts[0], x);
        assert [] + rest == rest;
      }
    }
  }

  /** It occurs in a text exactly if it occurs in one of its sentences. */
  lemma InsideSentences(t: string, x: string)
    requires Solid(x)
    ensures Inside(t, x) <==> InSome(SentencesOf(t), x)
  {
    if AllSpace(t) {
      BlankHoldsNothing(t, x);
    } else {
      InsideCut(t, 0, 0, x);
      InSomeNotBlank(Cut(t, 0, 0), 0, x);
      assert t[0..] == t;
    }
  }

  // ---- Tokens ------------------------------------------------------------------------------------

  lemma TokenIsSolid(x: string)
    requires IsToken(x)
    ensures Solid(x)
  {
    var m :| 0 <= m < |x| && IsTokenAt(x, m);
    forall k | 0 <= k < |x| ensures !IsSpace(x[k]) {
      assert k == 0 || 0 < k < m || k == m || m < k < |x| - 1 || k == |x| - 1;
    }
  }

  lemma HasTokenIs(s: string)
    ensures HasToken(s) <==> exists x :: IsToken(x) && Inside(s, x)
  {
    if i, e :| 0 <= i <= e <= |s| && IsToken(s[i..e]) { assert OccursAt(s, s[i..e], i); }
    if x :| IsToken(x) && Inside(s, x) {
      var i :| OccursAt(s, x, i);
      assert IsToken(s[i..i + |x|]);
    }
  }

  ghost predicate SomeHasToken(parts: seq<string>) {
    exists k :: 0 <= k < |parts| && HasToken(parts[k])
  }

  lemma SomeHasTokenIs(parts: seq<string>)
    ensures SomeHasToken(parts) <==> exists x :: IsToken(x) && InSome(parts, x)
  {
    if k :| 0 <= k < |parts| && HasToken(parts[k]) {
      HasTokenIs(parts[k]);
      var x :| IsToken(x) && Inside(parts[k], x);
      assert InSome(parts, x);
    }
    if x :| IsToken(x) && InSome(parts, x) {
      var k :| 0 <= k < |parts| && Inside(parts[k], x);
      HasTokenIs(parts[k]);
    }
  }

  /** A text has a token if and only if one of its sentences has. */
  lemma TokensBySentence(t: string)
    ensures HasToken(t) <==> SomeHasToken(SentencesOf(t))
  {
    HasTokenIs(t);
    SomeHasTokenIs(SentencesOf(t));
    forall x | IsToken(x) ensures Inside(t, x) <==> InSome(SentencesOf(t), x) {
      TokenIsSolid(x);
      InsideSentences(t, x);
    }
  }

  /** Parts joined by spaces and trimmed have a token if and only if one of them has. */
  lemma {:induction false} TokensOfJoin(parts: seq<string>)
    ensures HasToken(Trim(Join(parts))) <==> SomeHasToken(parts)
  {
    HasTokenIs(Trim(Join(parts)));
    SomeHasTokenIs(parts);
    forall x | IsToken(x) ensures Inside(Trim(Join(parts)), x) <==> InSome(parts, x) {
      TokenIsSolid(x);
      InsideTrim(Join(parts), x);
      InsideJoin(parts, x);
    }
  }
}
