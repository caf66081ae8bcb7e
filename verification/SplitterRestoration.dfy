/** Restoring the placeholders: for which texts the splitter computes the sentences. */
module SplitterRestoration {
  import opened Text
  import opened Decimal
  import opened Sequences
  import opened SentenceSplitter
  import opened SplitterRefinement

  // ---- Replacing the first occurrence ------------------------------------------------------------

  predicate NulFree(t: string) {
    '\0' !in t
  }

  predicate Occurs(x: string, pattern: string) {
    pattern <= x || (x != [] && Occurs(x[1..], pattern))
  }

  /** An occurrence in `x + y` starts in `x`. */
  predicate StartsIn(x: string, y: string, pattern: string) {
    x != [] && (pattern <= x + y || StartsIn(x[1..], y, pattern))
  }

  lemma {:induction false} ReplaceNothing(x: string, pattern: string, value: string)
    requires !Occurs(x, pattern)
    ensures ReplaceFirst(x, pattern, value) == x
    decreases |x|
  {
    if x != [] { ReplaceNothing(x[1..], pattern, value); }
  }

  lemma {:induction false} OccursBehind(x: string, y: string, pattern: string)
    ensures Occurs(x + y, pattern) == (StartsIn(x, y, pattern) || Occurs(y, pattern))
    decreases |x|
  {
    if x == [] {
      assert x + y == y;
    } else {
      assert (x + y)[1..] == x[1..] + y;
      OccursBehind(x[1..], y, pattern);
    }
  }

  lemma {:induction false} ReplaceStep(s: string, pattern: string, value: string)
    requires s != [] && !(pattern <= s)
    ensures ReplaceFirst(s, pattern, value) == [s[0]] + ReplaceFirst(s[1..], pattern, value)
  {
  }

  lemma {:induction false} ReplaceBehind(x: string, y: string, pattern: string, value: string)
    requires !StartsIn(x, y, pattern)
    ensures ReplaceFirst(x + y, pattern, value) == x + ReplaceFirst(y, pattern, value)
    decreases |x|
  {
    if x == [] {
      assert x + y == y;
    } else {
      var z := x + y;
      assert z[0] == x[0] && z[1..] == x[1..] + y;
      ReplaceStep(z, pattern, value);
      ReplaceBehind(x[1..], y, pattern, value);
      Regroup([x[0]], x[1..], ReplaceFirst(y, pattern, value));
      assert [x[0]] + x[1..] == x;
    }
  }

  /** What does not contain the first character of a pattern does not contain a start of it. */
  lemma {:induction false} NulFreeStartsNothing(x: string, y: string, pattern: string)
    requires pattern != [] && pattern[0] == '\0' && NulFree(x)
    ensures !StartsIn(x, y, pattern)
    decreases |x|
  {
    if x != [] {
      assert (x + y)[0] == x[0];
      NulFreeStartsNothing(x[1..], y, pattern);
    }
  }

  lemma {:induction false} ReplaceThrough(x: string, y: string, pattern: string, value: string)
    requires pattern != [] && pattern[0] == '\0' && NulFree(x)
    ensures ReplaceFirst(x + y, pattern, value) == x + ReplaceFirst(y, pattern, value)
    ensures Occurs(x + y, pattern) == Occurs(y, pattern)
  {
    NulFreeStartsNothing(x, y, pattern);
    ReplaceBehind(x, y, pattern, value);
    OccursBehind(x, y, pattern);
  }

  // ---- Words and placeholders --------------------------------------------------------------------

  /** Words before a NUL are equal if one of the texts starts the other. */
  lemma {:induction false} SameWord(v: string, w: string, y: string)
    requires NulFree(v) && NulFree(w) && v + "\0" <= w + "\0" + y
    ensures v == w
    decreases |v|
  {
    var l, r := v + "\0", w + "\0" + y;
    assert l[0] == r[0];
    assert w != [] ==> r[0] == w[0];
    if v != [] {
      assert l[0] == v[0] && w != [] && r[0] == w[0];
      assert l[1..] == v[1..] + "\0" && r[1..] == w[1..] + "\0" + y;
      SameWord(v[1..], w[1..], y);
    }
  }

  lemma TagIsNulFree(n: nat)
    ensures NulFree(Tag(n))
  {
    TagIsWord(n);
  }

  lemma TagIsInjective(i: nat, n: nat)
    requires Tag(i) == Tag(n)
    ensures i == n
  {
    assert Tag(i)[4..] == Dec(i) && Tag(n)[4..] == Dec(n);
    DecIsInjective(i, n);
  }

  lemma OtherIsNoPrefix(i: nat, n: nat, y: string)
    requires Placeholder(i) <= Placeholder(n) + y
    ensures i == n
  {
    var l, r := Placeholder(i), Placeholder(n) + y;
    assert l[1..] == Tag(i) + "\0" && r[1..] == Tag(n) + "\0" + y;
    TagIsNulFree(i);
    TagIsNulFree(n);
    SameWord(Tag(i), Tag(n), y);
    TagIsInjective(i, n);
  }

  /** An occurrence of one placeholder can only share the closing NUL of another. */
  lemma {:induction false} ThroughPlaceholder(i: nat, n: nat, y: string, value: string)
    requires i != n
    ensures var z, u := Placeholder(n) + y, "\0" + y;
            && ReplaceFirst(z, Placeholder(i), value) == ("\0" + Tag(n)) + ReplaceFirst(u, Placeholder(i), value)
            && Occurs(z, Placeholder(i)) == Occurs(u, Placeholder(i))
  {
    var pattern, z, u := Placeholder(i), Placeholder(n) + y, "\0" + y;
    assert z[0] == '\0' && z[1..] == Tag(n) + u;
    if pattern <= z { OtherIsNoPrefix(i, n, y); }
    TagIsNulFree(n);
    ReplaceThrough(Tag(n), u, pattern, value);
    assert ("\0" + Tag(n)) + ReplaceFirst(u, pattern, value) == "\0" + (Tag(n) + ReplaceFirst(u, pattern, value));
  }

  lemma {:induction false} ClosingNul(i: nat, y: string, value: string)
    ensures var u, pattern := "\0" + y, Placeholder(i);
            if Tag(i) + "\0" <= y
            then ReplaceFirst(u, pattern, value) == value + y[|Tag(i)| + 1..] && Occurs(u, pattern)
            else && ReplaceFirst(u, pattern, value) == "\0" + ReplaceFirst(y, pattern, value)
                 && Occurs(u, pattern) == Occurs(y, pattern)
  {
    var u, pattern := "\0" + y, Placeholder(i);
    assert u[0] == '\0' && u[1..] == y && pattern[1..] == Tag(i) + "\0";
    assert pattern <= u ==> pattern[1..] <= u[1..];
    if Tag(i) + "\0" <= y {
      assert pattern == "\0" + (Tag(i) + "\0");
      assert u[|pattern|..] == y[|Tag(i)| + 1..];
    } else {
      ReplaceStep(u, pattern, value);
    }
  }

  // ---- Replacements that go wrong ----------------------------------------------------------------

  /** A word, which may be empty, and behind it a character that is not NUL. */
  predicate Blocked(r: string) {
    r != [] && if IsWord(r[0]) then Blocked(r[1..]) else r[0] != '\0'
  }

  predicate IsValue(v: string) {
    v != [] && IsWord(v[0]) && Blocked(v)
  }

  lemma {:induction false} BlockedBehind(w: string, v: string)
    requires (forall k :: 0 <= k < |w| ==> IsWord(w[k])) && Blocked(v)
    ensures Blocked(w + v)
    decreases |w|
  {
    if w == [] {
      assert w + v == v;
    } else {
      assert (w + v)[0] == w[0] && (w + v)[1..] == w[1..] + v;
      BlockedBehind(w[1..], v);
    }
  }

  lemma {:induction false} BlockedBefore(v: string, y: string)
    requires Blocked(v)
    ensures Blocked(v + y)
    decreases |v|
  {
    assert (v + y)[0] == v[0] && (v + y)[1..] == v[1..] + y;
    if IsWord(v[0]) { BlockedBefore(v[1..], y); }
  }

  /** No placeholder starts in front of the character that blocks it. */
  lemma {:induction false} BlockedStays(r: string, i: nat, value: string)
    requires Blocked(r)
    ensures var r' := ReplaceFirst(r, Placeholder(i), value); Blocked(r') && r'[0] == r[0]
    decreases |r|
  {
    ReplaceStep(r, Placeholder(i), value);
    if IsWord(r[0]) {
      BlockedStays(r[1..], i, value);
      assert ([r[0]] + ReplaceFirst(r[1..], Placeholder(i), value))[1..] == ReplaceFirst(r[1..], Placeholder(i), value);
    }
  }

  lemma {:induction false} NoNulBehind(w: string, r: string)
    requires (forall k :: 0 <= k < |w| ==> IsWord(w[k])) && Blocked(r)
    ensures !(w + "\0" <= r)
    decreases |w|
  {
    if w + "\0" <= r {
      assert r[0] == (w + "\0")[0];
      if w != [] {
        PrefixTail(w, r[0], r[1..]);
        NoNulBehind(w[1..], r[1..]);
      }
    }
  }

  lemma PrefixTail(w: string, c: char, g: string)
    requires w != [] && w + "\0" <= [c] + g
    ensures w[0] == c && w[1..] + "\0" <= g
  {
    assert (w + "\0")[0] == w[0] && (w + "\0")[1..] == w[1..] + "\0" && ([c] + g)[1..] == g;
  }

  /** What stands where the text goes on at `c` starts otherwise: a letter for a NUL, or a NUL for a letter. */
  predicate Off(t: string, c: nat, r: string) {
    && c < |t| && r != []
    && if t[c] == '\0' then IsWord(r[0]) && Blocked(r) else r[0] == '\0' && Blocked(r[1..])
  }

  /** No later replacement mends that. */
  lemma {:induction false} OffStays(t: string, c: nat, r: string, i: nat, value: string)
    requires Off(t, c, r)
    ensures Off(t, c, ReplaceFirst(r, Placeholder(i), value))
  {
    if t[c] == '\0' {
      BlockedStays(r, i, value);
    } else {
      var y := r[1..];
      assert r == "\0" + y;
      TagIsWord(i);
      NoNulBehind(Tag(i), y);
      ClosingNul(i, y, value);
      BlockedStays(y, i, value);
      assert ("\0" + ReplaceFirst(y, Placeholder(i), value))[1..] == ReplaceFirst(y, Placeholder(i), value);
    }
  }

  lemma PlainOnce(x: string, c: char, y: string)
    ensures x + ([c] + y) == (x + [c]) + y
  {
  }

  lemma OffByLetter(t: string, c: nat, value: string, y: string)
    requires c < |t| && t[c] == '\0' && IsValue(value)
    ensures Off(t, c, value + y)
  {
    BlockedBefore(value, y);
  }

  lemma OffByNul(t: string, c: nat, n: nat, value: string, y: string)
    requires c < |t| && t[c] != '\0' && IsValue(value)
    ensures Off(t, c, ("\0" + Tag(n)) + (value + y))
  {
    TagIsWord(n);
    BlockedBefore(value, y);
    BlockedBehind(Tag(n), value + y);
    assert (("\0" + Tag(n)) + (value + y))[1..] == Tag(n) + (value + y);
  }

  /** A replacement in the text puts a letter where the text has NUL; otherwise it happens behind. */
  lemma {:induction false} WrongInText(t: string, p: nat, s: nat, y: string, i: nat, value: string)
    returns (c: nat, r: string)
    requires p <= s <= |t| && IsValue(value)
    ensures p <= c <= s && ReplaceFirst(t[p..s] + y, Placeholder(i), value) == t[p..c] + r
    ensures if StartsIn(t[p..s], y, Placeholder(i)) then c < s && Off(t, c, r)
            else c == s && r == ReplaceFirst(y, Placeholder(i), value)
    decreases s - p
  {
    var x, pattern := t[p..s], Placeholder(i);
    var z := x + y;
    if !StartsIn(x, y, pattern) {
      ReplaceBehind(x, y, pattern, value);
      c, r := s, ReplaceFirst(y, pattern, value);
    } else if pattern <= z {
      assert z[0] == pattern[0] && z[0] == t[p];
      c, r := p, value + z[|pattern|..];
      OffByLetter(t, p, value, z[|pattern|..]);
      assert t[p..p] + r == r;
    } else {
      assert x[1..] == t[p + 1..s] && z[1..] == x[1..] + y && z[0] == t[p];
      c, r := WrongInText(t, p + 1, s, y, i, value);
      ReplaceStep(z, pattern, value);
      Regroup([t[p]], t[p + 1..c], r);
      assert [t[p]] + t[p + 1..c] == t[p..c];
    }
  }

  lemma FormAtMatch(t: string, marks: seq<nat>, a: nat, c: nat, n: nat, r: string)
    requires Marked(t, marks) && a < c <= |t| && marks[a] > 0
    ensures var y := Form(t, marks, Placeholder, Next(marks, a), c, n + 1) + r;
            Form(t, marks, Placeholder, a, c, n) + r == Placeholder(n) + y
  {
    FormUnfolds(t, marks, Placeholder, a, c, n);
    Regroup(Placeholder(n), Form(t, marks, Placeholder, Next(marks, a), c, n + 1), r);
  }

  lemma FormAtChar(t: string, marks: seq<nat>, a: nat, c: nat, n: nat, r: string)
    requires Marked(t, marks) && a < c <= |t| && marks[a] == 0
    ensures var y := Form(t, marks, Placeholder, a + 1, c, n) + r;
            Form(t, marks, Placeholder, a, c, n) + r == [t[a]] + y
  {
    FormUnfolds(t, marks, Placeholder, a, c, n);
    Regroup([t[a]], Form(t, marks, Placeholder, a + 1, c, n), r);
  }

  /**
   * Replacing in a form and what follows it leaves the form up to `c'`, and either something off or the
   * rest replaced.
   */
  ghost predicate Left(t: string, marks: seq<nat>, a: nat, c: nat, n: nat, r: string, i: nat, value: string, c': nat,
                       r': string) {
    && Marked(t, marks) && a <= c' <= c <= |t| && Reaches(marks, a, c')
    && var x := Form(t, marks, Placeholder, a, c, n) + r;
    && ReplaceFirst(x, Placeholder(i), value) == Form(t, marks, Placeholder, a, c', n) + r'
    && if c' < c then Off(t, c', r')
       else r' == ReplaceFirst(r, Placeholder(i), value) && Occurs(x, Placeholder(i)) == Occurs(r, Placeholder(i))
  }

  lemma LeftAtMatch(t: string, marks: seq<nat>, a: nat, c: nat, n: nat, r: string, i: nat, value: string)
    returns (r': string)
    requires Marked(t, marks) && a < c <= |t| && marks[a] > 0 && i < n && IsValue(value)
    requires Tag(i) + "\0" <= Form(t, marks, Placeholder, Next(marks, a), c, n + 1) + r
    ensures Left(t, marks, a, c, n, r, i, value, a, r')
  {
    var y := Form(t, marks, Placeholder, Next(marks, a), c, n + 1) + r;
    FormAtMatch(t, marks, a, c, n, r);
    ThroughPlaceholder(i, n, y, value);
    ClosingNul(i, y, value);
    r' := ("\0" + Tag(n)) + (value + y[|Tag(i)| + 1..]);
    OffByNul(t, a, n, value, y[|Tag(i)| + 1..]);
    assert Form(t, marks, Placeholder, a, a, n) + r' == r';
  }

  lemma {:induction false} LeftPastMatch(t: string, marks: seq<nat>, a: nat, c: nat, n: nat, r: string, i: nat,
                                         value: string, c': nat, r': string)
    requires Marked(t, marks) && a < c <= |t| && marks[a] > 0 && i < n
    requires Left(t, marks, Next(marks, a), c, n + 1, r, i, value, c', r')
    requires !(Tag(i) + "\0" <= Form(t, marks, Placeholder, Next(marks, a), c, n + 1) + r)
    ensures Left(t, marks, a, c, n, r, i, value, c', r')
  {
    var y := Form(t, marks, Placeholder, Next(marks, a), c, n + 1) + r;
    FormAtMatch(t, marks, a, c, n, r);
    ThroughPlaceholder(i, n, y, value);
    ClosingNul(i, y, value);
    Regroup("\0" + Tag(n), "\0", ReplaceFirst(y, Placeholder(i), value));
    assert ("\0" + Tag(n)) + "\0" == Placeholder(n);
    FormAtMatch(t, marks, a, c', n, r');
  }

  lemma LeftAtChar(t: string, marks: seq<nat>, a: nat, c: nat, n: nat, r: string, i: nat, value: string)
    returns (r': string)
    requires Marked(t, marks) && a < c <= |t| && marks[a] == 0 && IsValue(value)
    requires Placeholder(i) <= Form(t, marks, Placeholder, a, c, n) + r
    ensures Left(t, marks, a, c, n, r, i, value, a, r')
  {
    var x, pattern := Form(t, marks, Placeholder, a, c, n) + r, Placeholder(i);
    FormAtChar(t, marks, a, c, n, r);
    assert x[0] == t[a] && x[0] == pattern[0];
    r' := value + x[|pattern|..];
    OffByLetter(t, a, value, x[|pattern|..]);
    assert Form(t, marks, Placeholder, a, a, n) + r' == r';
  }

  lemma LeftPastChar(t: string, marks: seq<nat>, a: nat, c: nat, n: nat, r: string, i: nat, value: string, c': nat,
                     r': string)
    requires Marked(t, marks) && a < c <= |t| && marks[a] == 0
    requires Left(t, marks, a + 1, c, n, r, i, value, c', r')
    requires !(Placeholder(i) <= Form(t, marks, Placeholder, a, c, n) + r)
    ensures Left(t, marks, a, c, n, r, i, value, c', r')
  {
    var x, y := Form(t, marks, Placeholder, a, c, n) + r, Form(t, marks, Placeholder, a + 1, c, n) + r;
    FormAtChar(t, marks, a, c, n, r);
    assert x[0] == t[a] && x[1..] == y;
    ReplaceStep(x, Placeholder(i), value);
    FormAtChar(t, marks, a, c', n, r');
  }

  lemma LeftAtEnd(t: string, marks: seq<nat>, c: nat, n: nat, r: string, i: nat, value: string) returns (r': string)
    requires Marked(t, marks) && c <= |t|
    ensures Left(t, marks, c, c, n, r, i, value, c, r')
  {
    r' := ReplaceFirst(r, Placeholder(i), value);
    assert Form(t, marks, Placeholder, c, c, n) + r == r && Form(t, marks, Placeholder, c, c, n) + r' == r';
  }

  /** A replacement of an earlier number in a form leaves a letter for a NUL, or a NUL for a letter. */
  lemma {:induction false} WrongInForm(t: string, marks: seq<nat>, a: nat, c: nat, n: nat, r: string, i: nat,
                                       value: string)
    returns (c': nat, r': string)
    requires Marked(t, marks) && a <= c <= |t| && Reaches(marks, a, c) && i < n && IsValue(value)
    ensures Left(t, marks, a, c, n, r, i, value, c', r')
    decreases c - a, 1
  {
    if a == c {
      c' := c;
      r' := LeftAtEnd(t, marks, c, n, r, i, value);
    } else if marks[a] > 0 {
      var d, y := WrongInForm(t, marks, Next(marks, a), c, n + 1, r, i, value);
      c', r' := WrongFromMatch(t, marks, a, c, n, r, i, value, d, y);
    } else {
      c', r' := WrongFromChar(t, marks, a, c, n, r, i, value);
    }
  }

  lemma {:induction false} WrongFromMatch(t: string, marks: seq<nat>, a: nat, c: nat, n: nat, r: string, i: nat,
                                          value: string, d: nat, y: string)
    returns (c': nat, r': string)
    requires Marked(t, marks) && a < c <= |t| && marks[a] > 0 && i < n && IsValue(value)
    requires Left(t, marks, Next(marks, a), c, n + 1, r, i, value, d, y)
    ensures Left(t, marks, a, c, n, r, i, value, c', r')
  {
    if Tag(i) + "\0" <= Form(t, marks, Placeholder, Next(marks, a), c, n + 1) + r {
      c' := a;
      r' := LeftAtMatch(t, marks, a, c, n, r, i, value);
    } else {
      c', r' := d, y;
      LeftPastMatch(t, marks, a, c, n, r, i, value, d, y);
    }
  }

  lemma {:induction false} WrongFromChar(t: string, marks: seq<nat>, a: nat, c: nat, n: nat, r: string, i: nat,
                                         value: string)
    returns (c': nat, r': string)
    requires Marked(t, marks) && a < c <= |t| && marks[a] == 0 && Reaches(marks, a + 1, c) && i < n && IsValue(value)
    ensures Left(t, marks, a, c, n, r, i, value, c', r')
    decreases c - a, 0
  {
    if Placeholder(i) <= Form(t, marks, Placeholder, a, c, n) + r {
      c' := a;
      r' := LeftAtChar(t, marks, a, c, n, r, i, value);
    } else {
      c', r' := WrongInForm(t, marks, a + 1, c, n, r, i, value);
      LeftPastChar(t, marks, a, c, n, r, i, value, c', r');
    }
  }

  // ---- A part that has gone wrong stays wrong ----------------------------------------------------

  /** The text from `p` to `s`, then the form of the text to `c` with the matches numbered from `m`, then `r`. */
  ghost predicate Shows(t: string, marks: seq<nat>, p: nat, s: nat, c: nat, m: nat, r: string, x: string) {
    && Marked(t, marks) && p <= s <= c <= |t| && Reaches(marks, s, c)
    && x == t[p..s] + (Form(t, marks, Placeholder, s, c, m) + r)
  }

  lemma ShowsNothing(t: string, marks: seq<nat>, p: nat, c: nat, m: nat, r: string)
    requires Marked(t, marks) && p <= c <= |t|
    ensures Shows(t, marks, p, c, c, m, r, t[p..c] + r)
  {
    assert Form(t, marks, Placeholder, c, c, m) + r == r;
  }

  lemma ShowsPastChar(t: string, marks: seq<nat>, p: nat, s: nat, c: nat, m: nat, r: string, x: string)
    requires Shows(t, marks, p, s, c, m, r, x) && s < c && marks[s] == 0
    ensures Shows(t, marks, p, s + 1, c, m, r, x) && Matches(t, marks, s + 1, c) == Matches(t, marks, s, c)
  {
    var y := Form(t, marks, Placeholder, s + 1, c, m) + r;
    assert x == t[p..s + 1] + y by {
      FormAtChar(t, marks, s, c, m, r);
      PastChar(t, p, s, y);
    }
    MatchesPastChar(t, marks, s, c);
  }

  lemma PastChar(t: string, p: nat, s: nat, y: string)
    requires p <= s < |t|
    ensures t[p..s] + ([t[s]] + y) == t[p..s + 1] + y
  {
    PlainOnce(t[p..s], t[s], y);
    assert t[p..s] + [t[s]] == t[p..s + 1];
  }

  lemma MatchesPastChar(t: string, marks: seq<nat>, s: nat, c: nat)
    requires |marks| == |t| && Fits(marks) && s < c <= |t| && marks[s] == 0
    ensures Matches(t, marks, s + 1, c) == Matches(t, marks, s, c)
  {
    FormUnfolds(t, marks, Placeholder, s, c, 0);
  }

  /** The match at `s` is restored. */
  lemma ShowsPastMatch(t: string, marks: seq<nat>, p: nat, s: nat, c: nat, m: nat, r: string, x: string)
    requires Shows(t, marks, p, s, c, m, r, x) && s < c && marks[s] > 0
    requires !StartsIn(t[p..s], Form(t, marks, Placeholder, s, c, m) + r, Placeholder(m))
    ensures var e := Next(marks, s);
            && Shows(t, marks, p, e, c, m + 1, r, ReplaceFirst(x, Placeholder(m), t[s..e]))
            && Matches(t, marks, s, c) == [t[s..e]] + Matches(t, marks, e, c)
  {
    var e, z := Next(marks, s), Form(t, marks, Placeholder, s, c, m) + r;
    var y := Form(t, marks, Placeholder, e, c, m + 1) + r;
    FormAtMatch(t, marks, s, c, m, r);
    FormUnfolds(t, marks, Placeholder, s, c, m);
    ReplaceBehind(t[p..s], z, Placeholder(m), t[s..e]);
    assert z[|Placeholder(m)|..] == y;
    Regroup(t[p..s], t[s..e], y);
    Extended(t, p, s, e);
  }

  lemma BadInText(t: string, marks: seq<nat>, p: nat, s: nat, c: nat, m: nat, r: string, x: string, i: nat,
                  value: string)
    returns (c': nat, r': string)
    requires Shows(t, marks, p, s, c, m, r, x) && IsValue(value)
    requires StartsIn(t[p..s], Form(t, marks, Placeholder, s, c, m) + r, Placeholder(i))
    ensures c' < s && Off(t, c', r') && Shows(t, marks, p, c', c', m, r', ReplaceFirst(x, Placeholder(i), value))
  {
    c', r' := WrongInText(t, p, s, Form(t, marks, Placeholder, s, c, m) + r, i, value);
    ShowsNothing(t, marks, p, c', m, r');
  }

  lemma NotInText(t: string, marks: seq<nat>, p: nat, s: nat, c: nat, m: nat, r: string, x: string, i: nat,
                  value: string)
    returns (c': nat, r': string)
    requires Shows(t, marks, p, s, c, m, r, x) && IsValue(value) && i < m
    requires !StartsIn(t[p..s], Form(t, marks, Placeholder, s, c, m) + r, Placeholder(i))
    ensures c' <= c && Shows(t, marks, p, s, c', m, r', ReplaceFirst(x, Placeholder(i), value))
    ensures if c' < c then Off(t, c', r')
            else r' == ReplaceFirst(r, Placeholder(i), value) && Occurs(x, Placeholder(i)) == Occurs(r, Placeholder(i))
  {
    var y := Form(t, marks, Placeholder, s, c, m) + r;
    c', r' := WrongInForm(t, marks, s, c, m, r, i, value);
    ReplaceBehind(t[p..s], y, Placeholder(i), value);
    OccursBehind(t[p..s], y, Placeholder(i));
  }

  lemma {:induction false} NothingLeft(t: string, marks: seq<nat>, p: nat, c: nat, m: nat, r: string, x: string, i: nat,
                                       value: string)
    requires Shows(t, marks, p, c, c, m, r, x) && !StartsIn(t[p..c], r, Placeholder(i))
    ensures Shows(t, marks, p, c, c, m, ReplaceFirst(r, Placeholder(i), value), ReplaceFirst(x, Placeholder(i), value))
  {
    assert Form(t, marks, Placeholder, c, c, m) + r == r;
    ReplaceBehind(t[p..c], r, Placeholder(i), value);
    ShowsNothing(t, marks, p, c, m, ReplaceFirst(r, Placeholder(i), value));
  }

  ghost predicate AllValues(ps: seq<string>) {
    forall k :: 0 <= k < |ps| ==> IsValue(ps[k])
  }

  /** The matches from `s` to `c` are numbered from `m`, and their turn is yet to come. */
  ghost predicate Awaits(t: string, marks: seq<nat>, s: nat, c: nat, m: nat, ps: seq<string>, i: nat) {
    && Marked(t, marks) && s <= c <= |t| && i <= |ps|
    && (s < c ==> i <= m <= |ps| && Matches(t, marks, s, c) <= ps[m..])
  }

  lemma AwaitsMatch(t: string, marks: seq<nat>, s: nat, c: nat, m: nat, ps: seq<string>, i: nat)
    requires Awaits(t, marks, s, c, m, ps, i) && s < c && marks[s] > 0 && Next(marks, s) <= c
    ensures i <= m < |ps| && ps[m] == t[s..Next(marks, s)]
    ensures Awaits(t, marks, Next(marks, s), c, m + 1, ps, i)
    ensures i == m ==> Awaits(t, marks, Next(marks, s), c, m + 1, ps, i + 1)
  {
    FormUnfolds(t, marks, Placeholder, s, c, m);
    FirstOfPrefix(t[s..Next(marks, s)], Matches(t, marks, Next(marks, s), c), ps, m);
  }

  lemma FirstOfPrefix<T>(h: T, r: seq<T>, s: seq<T>, i: nat)
    requires i <= |s| && [h] + r <= s[i..]
    ensures i < |s| && s[i] == h && r <= s[i + 1..]
  {
    assert s[i..][0] == ([h] + r)[0] && s[i..][1..] == s[i + 1..] && ([h] + r)[1..] == r;
  }

  /** Fewer matches are awaited. */
  lemma {:induction false} AwaitsLess(t: string, marks: seq<nat>, s: nat, c: nat, c': nat, m: nat, ps: seq<string>,
                                      i: nat)
    requires Awaits(t, marks, s, c, m, ps, i) && s <= c' <= c && Reaches(marks, s, c') && i < |ps| && (s < c ==> i < m)
    ensures Awaits(t, marks, s, c', m, ps, i + 1)
  {
    MatchesConcat(t, marks, s, c', c);
    if s < c' { PrefixOf(Matches(t, marks, s, c'), Matches(t, marks, c', c), ps[m..]); }
  }

  lemma PrefixOf<T>(a: seq<T>, b: seq<T>, s: seq<T>)
    requires a + b <= s
    ensures a <= s
  {
    assert a == (a + b)[..|a|];
  }

  lemma StillDiffers(t: string, marks: seq<nat>, p: nat, q: nat, c: nat, m: nat, r: string, x: string)
    requires Shows(t, marks, p, c, c, m, r, x) && c < q <= |t| && Off(t, c, r)
    ensures x != t[p..q]
  {
    assert Form(t, marks, Placeholder, c, c, m) + r == r;
    assert x[c - p] == r[0] && t[p..q][c - p] == t[c];
  }

  lemma StaysOff(t: string, marks: seq<nat>, p: nat, s: nat, c: nat, m: nat, r: string, x: string, ps: seq<string>,
                 i: nat)
    returns (c': nat, r': string)
    requires Shows(t, marks, p, s, c, m, r, x) && Off(t, c, r) && AllValues(ps)
    requires Awaits(t, marks, s, c, m, ps, i) && i < |ps| && i < m
    requires !StartsIn(t[p..s], Form(t, marks, Placeholder, s, c, m) + r, Placeholder(i))
    ensures c' <= c && Off(t, c', r') && Shows(t, marks, p, s, c', m, r', ReplaceFirst(x, Placeholder(i), ps[i]))
    ensures Awaits(t, marks, s, c', m, ps, i + 1)
  {
    c', r' := NotInText(t, marks, p, s, c, m, r, x, i, ps[i]);
    OffStays(t, c, r, i, ps[i]);
    AwaitsLess(t, marks, s, c, c', m, ps, i);
  }

  /** Where a letter stands for a NUL, or a NUL for a letter, no later replacement mends it. */
  lemma {:induction false} NeverMended(t: string, marks: seq<nat>, p: nat, q: nat, s: nat, c: nat, m: nat, r: string,
                                       x: string, ps: seq<string>, i: nat)
    requires Shows(t, marks, p, s, c, m, r, x) && c < q <= |t| && Off(t, c, r)
    requires AllValues(ps) && Awaits(t, marks, s, c, m, ps, i)
    ensures Restore(x, ps, i) != t[p..q]
    decreases |ps| - i, c - s, 2
  {
    if s < c && marks[s] == 0 {
      ShowsPastChar(t, marks, p, s, c, m, r, x);
      NeverMended(t, marks, p, q, s + 1, c, m, r, x, ps, i);
    } else {
      if s < c { AwaitsMatch(t, marks, s, c, m, ps, i); }
      if i == |ps| {
        StillDiffers(t, marks, p, q, c, m, r, x);
      } else {
        MendsNothing(t, marks, p, q, s, c, m, r, x, ps, i);
      }
    }
  }

  /** One replacement, with a match at `s` or nothing left to restore. */
  lemma {:induction false} MendsNothing(t: string, marks: seq<nat>, p: nat, q: nat, s: nat, c: nat, m: nat, r: string,
                                        x: string, ps: seq<string>, i: nat)
    requires Shows(t, marks, p, s, c, m, r, x) && c < q <= |t| && Off(t, c, r) && (s < c ==> marks[s] > 0)
    requires AllValues(ps) && Awaits(t, marks, s, c, m, ps, i) && i < |ps|
    ensures Restore(x, ps, i) != t[p..q]
    decreases |ps| - i, c - s, 1
  {
    if StartsIn(t[p..s], Form(t, marks, Placeholder, s, c, m) + r, Placeholder(i)) {
      BreaksInText(t, marks, p, q, s, c, m, r, x, ps, i);
    } else if s == c {
      assert Form(t, marks, Placeholder, c, c, m) + r == r;
      BreaksBehind(t, marks, p, q, c, m, r, x, ps, i);
    } else if i < m {
      BreaksInForm(t, marks, p, q, s, c, m, r, x, ps, i);
    } else {
      RestoresInVain(t, marks, p, q, s, c, m, r, x, ps);
    }
  }

  lemma {:induction false} BreaksInText(t: string, marks: seq<nat>, p: nat, q: nat, s: nat, c: nat, m: nat, r: string,
                                        x: string, ps: seq<string>, i: nat)
    requires Shows(t, marks, p, s, c, m, r, x) && c <= q <= |t| && AllValues(ps) && i < |ps|
    requires StartsIn(t[p..s], Form(t, marks, Placeholder, s, c, m) + r, Placeholder(i))
    ensures Restore(x, ps, i) != t[p..q]
    decreases |ps| - i, c - s, 0
  {
    var c', r' := BadInText(t, marks, p, s, c, m, r, x, i, ps[i]);
    NeverMended(t, marks, p, q, c', c', m, r', ReplaceFirst(x, Placeholder(i), ps[i]), ps, i + 1);
  }

  lemma {:induction false} BreaksBehind(t: string, marks: seq<nat>, p: nat, q: nat, c: nat, m: nat, r: string,
                                        x: string, ps: seq<string>, i: nat)
    requires Shows(t, marks, p, c, c, m, r, x) && c < q <= |t| && Off(t, c, r) && AllValues(ps) && i < |ps|
    requires !StartsIn(t[p..c], r, Placeholder(i))
    ensures Restore(x, ps, i) != t[p..q]
    decreases |ps| - i, 0, 0
  {
    NothingLeft(t, marks, p, c, m, r, x, i, ps[i]);
    OffStays(t, c, r, i, ps[i]);
    var r' := ReplaceFirst(r, Placeholder(i), ps[i]);
    NeverMended(t, marks, p, q, c, c, m, r', ReplaceFirst(x, Placeholder(i), ps[i]), ps, i + 1);
  }

  lemma {:induction false} BreaksInForm(t: string, marks: seq<nat>, p: nat, q: nat, s: nat, c: nat, m: nat, r: string,
                                        x: string, ps: seq<string>, i: nat)
    requires Shows(t, marks, p, s, c, m, r, x) && c < q <= |t| && Off(t, c, r) && AllValues(ps)
    requires Awaits(t, marks, s, c, m, ps, i) && i < |ps| && i < m
    requires !StartsIn(t[p..s], Form(t, marks, Placeholder, s, c, m) + r, Placeholder(i))
    ensures Restore(x, ps, i) != t[p..q]
    decreases |ps| - i, c - s, 0
  {
    var c', r' := StaysOff(t, marks, p, s, c, m, r, x, ps, i);
    NeverMended(t, marks, p, q, s, c', m, r', ReplaceFirst(x, Placeholder(i), ps[i]), ps, i + 1);
  }

  lemma {:induction false} RestoresInVain(t: string, marks: seq<nat>, p: nat, q: nat, s: nat, c: nat, m: nat, r: string,
                                          x: string, ps: seq<string>)
    requires Shows(t, marks, p, s, c, m, r, x) && c < q <= |t| && Off(t, c, r) && s < c && marks[s] > 0
    requires AllValues(ps) && Awaits(t, marks, s, c, m, ps, m) && m < |ps|
    requires !StartsIn(t[p..s], Form(t, marks, Placeholder, s, c, m) + r, Placeholder(m))
    ensures Restore(x, ps, m) != t[p..q]
    decreases |ps| - m, c - s, 0
  {
    AwaitsMatch(t, marks, s, c, m, ps, m);
    ShowsPastMatch(t, marks, p, s, c, m, r, x);
    NeverMended(t, marks, p, q, Next(marks, s), c, m + 1, r, ReplaceFirst(x, Placeholder(m), ps[m]), ps, m + 1);
  }

  // ---- When a part comes back --------------------------------------------------------------------

  /** Where the match is that has `j` matches between `p` and itself. */
  function MatchStart(marks: seq<nat>, p: nat, j: nat): (s: nat)
    requires p <= |marks|
    ensures p <= s <= |marks|
    decreases |marks| - p
  {
    if p == |marks| || (marks[p] > 0 && (j == 0 || Next(marks, p) > |marks|)) then p
    else MatchStart(marks, Next(marks, p), if marks[p] > 0 then j - 1 else j)
  }

  lemma {:induction false} MatchStartIs(t: string, marks: seq<nat>, p: nat, s: nat)
    requires |marks| == |t| && Fits(marks) && p <= s < |t| && marks[s] > 0 && Reaches(marks, p, s)
    ensures MatchStart(marks, p, |Matches(t, marks, p, s)|) == s
    decreases s - p
  {
    if p < s {
      MatchStartIs(t, marks, Next(marks, p), s);
      FormUnfolds(t, marks, Placeholder, p, s, 0);
    }
  }

  /**
   * Replacing placeholder `k` does what it is meant to do in the part from `p` to `q`, whose matches are
   * numbered from `a`: an earlier one does not occur in the form, one of the part's own not in front of
   * its match, and a later one not in the text.
   */
  predicate Undisturbed(t: string, marks: seq<nat>, p: nat, q: nat, a: nat, k: nat)
    requires |marks| == |t| && Fits(marks) && p <= q <= |t|
  {
    if k < a then !Occurs(Form(t, marks, Placeholder, p, q, a), Placeholder(k))
    else if k < a + |Matches(t, marks, p, q)| then !Occurs(t[p..MatchStart(marks, p, k - a)], Placeholder(k))
    else !Occurs(t[p..q], Placeholder(k))
  }

  /** No placeholder reaches from the text in front of a match into the match's own. */
  lemma {:induction false} NoCrossing(x: string, m: nat, y: string)
    requires x == [] || !IsWord(x[|x| - 1])
    ensures StartsIn(x, Placeholder(m) + y, Placeholder(m)) == Occurs(x, Placeholder(m))
    decreases |x|
  {
    if x != [] {
      assert x[1..] == [] || x[1..][|x[1..]| - 1] == x[|x| - 1];
      NoCrossing(x[1..], m, y);
      PrefixInFront(x, m, y);
    }
  }

  lemma WordInside(m: nat)
    ensures var pattern := Placeholder(m); |pattern| > 2 && forall k :: 0 < k < |pattern| - 1 ==> IsWord(pattern[k])
  {
    TagIsWord(m);
    var pattern := Placeholder(m);
    forall k | 0 < k < |pattern| - 1 ensures IsWord(pattern[k]) { assert pattern[k] == Tag(m)[k - 1]; }
  }

  lemma PrefixInFront(x: string, m: nat, y: string)
    requires x != [] && !IsWord(x[|x| - 1])
    ensures Placeholder(m) <= x + (Placeholder(m) + y) <==> Placeholder(m) <= x
  {
    var pattern := Placeholder(m);
    var z := x + (pattern + y);
    WordInside(m);
    if |x| < |pattern| {
      assert z[|x|] == pattern[0] == '\0' && z[|x| - 1] == x[|x| - 1];
      if pattern <= z { assert false; }
    }
    if pattern <= z { assert x == z[..|x|] && pattern == x[..|pattern|]; }
    if pattern <= x { assert pattern == z[..|pattern|]; }
  }

  /** The number of the next match to be restored when placeholder `i` has its turn. */
  function Turn(i: nat, a: nat, b: nat): nat {
    if i < a then a else if i < b then i else b
  }

  /** The part from `p` to `q`, with the matches `a` to `b`, is restored up to `s`, with match `m` to come. */
  ghost predicate Halfway(t: string, marks: seq<nat>, p: nat, q: nat, a: nat, b: nat, s: nat, m: nat, x: string) {
    && Marked(t, marks) && p <= s <= q <= |t| && Reaches(marks, p, s) && Shows(t, marks, p, s, q, m, [], x)
    && m == a + |Matches(t, marks, p, s)| && b == a + |Matches(t, marks, p, q)|
  }

  lemma HalfwayPastChar(t: string, marks: seq<nat>, p: nat, q: nat, a: nat, b: nat, s: nat, m: nat, x: string)
    requires Halfway(t, marks, p, q, a, b, s, m, x) && s < q && marks[s] == 0
    ensures Halfway(t, marks, p, q, a, b, s + 1, m, x) && Matches(t, marks, s + 1, q) == Matches(t, marks, s, q)
  {
    ShowsPastChar(t, marks, p, s, q, m, [], x);
    ReachesNext(marks, p, s);
    assert Matches(t, marks, p, s + 1) == Matches(t, marks, p, s) by { FormNext(t, marks, Placeholder, p, s, 0); }
  }

  lemma HalfwayPastMatch(t: string, marks: seq<nat>, p: nat, q: nat, a: nat, b: nat, s: nat, m: nat, x: string)
    requires Halfway(t, marks, p, q, a, b, s, m, x) && s < q && marks[s] > 0 && Next(marks, s) <= q
    requires !StartsIn(t[p..s], Form(t, marks, Placeholder, s, q, m), Placeholder(m))
    ensures Halfway(t, marks, p, q, a, b, Next(marks, s), m + 1, ReplaceFirst(x, Placeholder(m), t[s..Next(marks, s)]))
  {
    assert Form(t, marks, Placeholder, s, q, m) + [] == Form(t, marks, Placeholder, s, q, m);
    ShowsPastMatch(t, marks, p, s, q, m, [], x);
    ReachesNext(marks, p, s);
    assert |Matches(t, marks, p, Next(marks, s))| == |Matches(t, marks, p, s)| + 1 by {
      FormNext(t, marks, Placeholder, p, s, 0);
    }
  }

  lemma MatchesAhead(t: string, marks: seq<nat>, p: nat, q: nat, a: nat, b: nat, s: nat, m: nat, x: string)
    requires Halfway(t, marks, p, q, a, b, s, m, x) && (s < q ==> marks[s] > 0)
    ensures if s < q then m < b && Next(marks, s) <= q else m == b && x == t[p..q]
  {
    MatchesConcat(t, marks, p, s, q);
    if s < q {
      FormUnfolds(t, marks, Placeholder, s, q, 0);
    } else {
      assert Form(t, marks, Placeholder, q, q, m) + [] == [];
    }
  }

  lemma AwaitsLater(t: string, marks: seq<nat>, s: nat, c: nat, m: nat, ps: seq<string>, i: nat)
    requires Awaits(t, marks, s, c, m, ps, i) && i < |ps| && (s < c ==> i < m)
    ensures Awaits(t, marks, s, c, m, ps, i + 1)
  {
  }

  lemma AwaitsPastChar(t: string, marks: seq<nat>, s: nat, c: nat, m: nat, ps: seq<string>, i: nat)
    requires Awaits(t, marks, s, c, m, ps, i) && s < c && Matches(t, marks, s + 1, c) == Matches(t, marks, s, c)
    ensures Awaits(t, marks, s + 1, c, m, ps, i)
  {
  }

  /** If an earlier placeholder occurs in the form, the part does not come back. */
  lemma {:induction false} EarlierBreaks(t: string, marks: seq<nat>, p: nat, q: nat, s: nat, m: nat, x: string,
                                         ps: seq<string>, i: nat)
    requires Shows(t, marks, p, s, q, m, [], x) && AllValues(ps) && Awaits(t, marks, s, q, m, ps, i)
    requires i < |ps| && i < m && Occurs(x, Placeholder(i))
    ensures Restore(x, ps, i) != t[p..q]
  {
    if StartsIn(t[p..s], Form(t, marks, Placeholder, s, q, m) + [], Placeholder(i)) {
      BreaksInText(t, marks, p, q, s, q, m, [], x, ps, i);
    } else {
      var c, r := NotInText(t, marks, p, s, q, m, [], x, i, ps[i]);
      assert c < q;
      AwaitsLess(t, marks, s, q, c, m, ps, i);
      NeverMended(t, marks, p, q, s, c, m, r, ReplaceFirst(x, Placeholder(i), ps[i]), ps, i + 1);
    }
  }

  /** If a later placeholder occurs in the text, the part does not stay. */
  lemma {:induction false} LaterBreaks(t: string, marks: seq<nat>, p: nat, q: nat, m: nat, ps: seq<string>, i: nat)
    requires Marked(t, marks) && p <= q <= |t| && AllValues(ps) && i < |ps| && Occurs(t[p..q], Placeholder(i))
    ensures Restore(t[p..q], ps, i) != t[p..q]
  {
    var x := t[p..q];
    ShowsNothing(t, marks, p, q, m, []);
    assert x + [] == x && Form(t, marks, Placeholder, q, q, m) + [] == [];
    OccursBehind(x, [], Placeholder(i));
    BreaksInText(t, marks, p, q, q, q, m, [], x, ps, i);
  }

  lemma NoWordInFront(t: string, marks: seq<nat>, p: nat, s: nat)
    requires Marked(t, marks) && p <= s < |t| && marks[s] > 0
    ensures var x := t[p..s]; x == [] || !IsWord(x[|x| - 1])
  {
    var x := t[p..s];
    assert x != [] ==> x[|x| - 1] == t[s - 1];
  }

  lemma {:induction false} OwnStarts(t: string, marks: seq<nat>, p: nat, q: nat, s: nat, m: nat)
    requires Marked(t, marks) && p <= s < q <= |t| && marks[s] > 0
    ensures StartsIn(t[p..s], Form(t, marks, Placeholder, s, q, m) + [], Placeholder(m))
            <==> Occurs(t[p..s], Placeholder(m))
  {
    FormAtMatch(t, marks, s, q, m, []);
    NoWordInFront(t, marks, p, s);
    NoCrossing(t[p..s], m, Form(t, marks, Placeholder, Next(marks, s), q, m + 1) + []);
  }

  /** If a part's own placeholder occurs in front of its match, the part does not come back. */
  lemma {:induction false} OwnBreaks(t: string, marks: seq<nat>, p: nat, q: nat, s: nat, m: nat, x: string,
                                     ps: seq<string>)
    requires Shows(t, marks, p, s, q, m, [], x) && s < q && marks[s] > 0 && AllValues(ps) && m < |ps|
    ensures StartsIn(t[p..s], Form(t, marks, Placeholder, s, q, m), Placeholder(m)) <==> Occurs(t[p..s], Placeholder(m))
    ensures Occurs(t[p..s], Placeholder(m)) ==> Restore(x, ps, m) != t[p..q]
  {
    var z := Form(t, marks, Placeholder, s, q, m);
    OwnStarts(t, marks, p, q, s, m);
    assert z + [] == z;
    if Occurs(t[p..s], Placeholder(m)) { BreaksInText(t, marks, p, q, s, q, m, [], x, ps, m); }
  }

  predicate UndisturbedFrom(t: string, marks: seq<nat>, p: nat, q: nat, a: nat, i: nat, n: nat)
    requires |marks| == |t| && Fits(marks) && p <= q <= |t|
  {
    forall k :: i <= k < n ==> Undisturbed(t, marks, p, q, a, k)
  }

  lemma UndisturbedNext(t: string, marks: seq<nat>, p: nat, q: nat, a: nat, i: nat, n: nat)
    requires |marks| == |t| && Fits(marks) && p <= q <= |t| && i < n
    ensures UndisturbedFrom(t, marks, p, q, a, i, n)
            <==> Undisturbed(t, marks, p, q, a, i) && UndisturbedFrom(t, marks, p, q, a, i + 1, n)
  {
  }

  lemma OwnIsUndisturbed(t: string, marks: seq<nat>, p: nat, q: nat, a: nat, b: nat, s: nat, m: nat, x: string)
    requires Halfway(t, marks, p, q, a, b, s, m, x) && m < b && s < q && marks[s] > 0
    ensures Undisturbed(t, marks, p, q, a, m) <==> !Occurs(t[p..s], Placeholder(m))
  {
    MatchStartIs(t, marks, p, s);
  }

  lemma {:induction false} OwnRestored(t: string, marks: seq<nat>, p: nat, q: nat, a: nat, b: nat, s: nat, m: nat,
                                       x: string, ps: seq<string>)
    requires Halfway(t, marks, p, q, a, b, s, m, x) && Awaits(t, marks, s, q, m, ps, m) && AllValues(ps)
    requires a <= m < b && m < |ps| && s < q && marks[s] > 0 && Next(marks, s) <= q
    requires !StartsIn(t[p..s], Form(t, marks, Placeholder, s, q, m), Placeholder(m))
    ensures Restore(x, ps, m) == t[p..q] <==> UndisturbedFrom(t, marks, p, q, a, m + 1, |ps|)
    decreases |ps| - m, q - s, 0
  {
    HalfwayPastMatch(t, marks, p, q, a, b, s, m, x);
    AwaitsMatch(t, marks, s, q, m, ps, m);
    ComesBack(t, marks, p, q, a, b, Next(marks, s), m + 1, ReplaceFirst(x, Placeholder(m), ps[m]), ps, m + 1);
  }

  /** Halfway, a part comes back exactly if none of the replacements to come is disturbed. */
  lemma {:induction false} ComesBack(t: string, marks: seq<nat>, p: nat, q: nat, a: nat, b: nat, s: nat, m: nat,
                                     x: string, ps: seq<string>, i: nat)
    requires Halfway(t, marks, p, q, a, b, s, m, x) && Awaits(t, marks, s, q, m, ps, i) && AllValues(ps)
             && m == Turn(i, a, b)
    requires i <= a ==> x == Form(t, marks, Placeholder, p, q, a)
    ensures Restore(x, ps, i) == t[p..q] <==> UndisturbedFrom(t, marks, p, q, a, i, |ps|)
    decreases |ps| - i, q - s, 3
  {
    if s < q && marks[s] == 0 {
      HalfwayPastChar(t, marks, p, q, a, b, s, m, x);
      AwaitsPastChar(t, marks, s, q, m, ps, i);
      ComesBack(t, marks, p, q, a, b, s + 1, m, x, ps, i);
    } else {
      BackAtTurn(t, marks, p, q, a, b, s, m, x, ps, i);
    }
  }

  lemma {:induction false} BackAtTurn(t: string, marks: seq<nat>, p: nat, q: nat, a: nat, b: nat, s: nat, m: nat,
                                      x: string, ps: seq<string>, i: nat)
    requires Halfway(t, marks, p, q, a, b, s, m, x) && Awaits(t, marks, s, q, m, ps, i) && AllValues(ps)
             && m == Turn(i, a, b)
    requires (i <= a ==> x == Form(t, marks, Placeholder, p, q, a)) && (s < q ==> marks[s] > 0)
    ensures Restore(x, ps, i) == t[p..q] <==> UndisturbedFrom(t, marks, p, q, a, i, |ps|)
    decreases |ps| - i, q - s, 2
  {
    MatchesAhead(t, marks, p, q, a, b, s, m, x);
    if i < a && i < |ps| {
      BackFromEarlier(t, marks, p, q, a, b, s, m, x, ps, i);
    } else if s < q {
      AwaitsMatch(t, marks, s, q, m, ps, i);
      BackFromOwn(t, marks, p, q, a, b, s, m, x, ps);
    } else if i < |ps| {
      BackFromLater(t, marks, p, q, a, b, m, x, ps, i);
    }
  }

  lemma {:induction false} BackFromEarlier(t: string, marks: seq<nat>, p: nat, q: nat, a: nat, b: nat, s: nat, m: nat,
                                           x: string, ps: seq<string>, i: nat)
    requires Halfway(t, marks, p, q, a, b, s, m, x) && Awaits(t, marks, s, q, m, ps, i) && AllValues(ps)
             && m == Turn(i, a, b)
    requires x == Form(t, marks, Placeholder, p, q, a) && i < a && i < |ps|
    ensures Restore(x, ps, i) == t[p..q] <==> UndisturbedFrom(t, marks, p, q, a, i, |ps|)
    decreases |ps| - i, q - s, 0
  {
    UndisturbedNext(t, marks, p, q, a, i, |ps|);
    if Occurs(x, Placeholder(i)) {
      EarlierBreaks(t, marks, p, q, s, m, x, ps, i);
    } else {
      ReplaceNothing(x, Placeholder(i), ps[i]);
      AwaitsLater(t, marks, s, q, m, ps, i);
      ComesBack(t, marks, p, q, a, b, s, m, x, ps, i + 1);
    }
  }

  lemma {:induction false} BackFromOwn(t: string, marks: seq<nat>, p: nat, q: nat, a: nat, b: nat, s: nat, m: nat,
                                       x: string, ps: seq<string>)
    requires Halfway(t, marks, p, q, a, b, s, m, x) && Awaits(t, marks, s, q, m, ps, m) && AllValues(ps)
    requires a <= m < b && m < |ps| && s < q && marks[s] > 0 && Next(marks, s) <= q
    ensures Restore(x, ps, m) == t[p..q] <==> UndisturbedFrom(t, marks, p, q, a, m, |ps|)
    decreases |ps| - m, q - s, 1
  {
    UndisturbedNext(t, marks, p, q, a, m, |ps|);
    OwnIsUndisturbed(t, marks, p, q, a, b, s, m, x);
    OwnBreaks(t, marks, p, q, s, m, x, ps);
    if !Occurs(t[p..s], Placeholder(m)) { OwnRestored(t, marks, p, q, a, b, s, m, x, ps); }
  }

  lemma {:induction false} BackFromLater(t: string, marks: seq<nat>, p: nat, q: nat, a: nat, b: nat, m: nat, x: string,
                                         ps: seq<string>, i: nat)
    requires Halfway(t, marks, p, q, a, b, q, m, x) && Awaits(t, marks, q, q, m, ps, i) && AllValues(ps)
    requires x == t[p..q] && m == b && b <= i < |ps| && a <= i
    ensures Restore(x, ps, i) == t[p..q] <==> UndisturbedFrom(t, marks, p, q, a, i, |ps|)
    decreases |ps| - i, 0, 0
  {
    UndisturbedNext(t, marks, p, q, a, i, |ps|);
    if Occurs(x, Placeholder(i)) {
      LaterBreaks(t, marks, p, q, m, ps, i);
    } else {
      ReplaceNothing(x, Placeholder(i), ps[i]);
      AwaitsLater(t, marks, q, q, m, ps, i);
      ComesBack(t, marks, p, q, a, b, q, m, x, ps, i + 1);
    }
  }
}
