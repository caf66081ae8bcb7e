/** `Array.prototype.sort`: a stable sort. `le(a, b)` stands for "the comparator returns at most 0". */
module Sorting {

  /** Among the elements of `s` the comparator is consistent. */
  ghost predicate Preorder<T>(s: seq<T>, le: (T, T) -> bool) {
    && (forall a, b :: a in s && b in s ==> le(a, b) || le(b, a))
    && (forall a, b, c :: a in s && b in s && c in s && le(a, b) && le(b, c) ==> le(a, c))
  }

  ghost predicate SortedBy<T>(s: seq<T>, le: (T, T) -> bool) {
    forall i, j :: 0 <= i < j < |s| ==> le(s[i], s[j])
  }

  /** Puts `x`, which came before all of `s`, in front of the first element it need not follow. */
  function Insert<T>(x: T, s: seq<T>, le: (T, T) -> bool): (r: seq<T>)
    ensures |r| == |s| + 1
  {
    if s == [] || le(x, s[0]) then [x] + s else [s[0]] + Insert(x, s[1..], le)
  }

  function Sort<T>(s: seq<T>, le: (T, T) -> bool): (r: seq<T>)
    ensures |r| == |s|
  {
    if s == [] then [] else Insert(s[0], Sort(s[1..], le), le)
  }

  lemma {:induction false} InsertKeepsElements<T>(x: T, s: seq<T>, le: (T, T) -> bool)
    ensures multiset(Insert(x, s, le)) == multiset{x} + multiset(s)
  {
    if s == [] || le(x, s[0]) {
    } else {
      InsertKeepsElements(x, s[1..], le);
      assert s == [s[0]] + s[1..];
    }
  }

  /** A sort is a permutation. */
  lemma {:induction false} SortKeepsElements<T>(s: seq<T>, le: (T, T) -> bool)
    ensures multiset(Sort(s, le)) == multiset(s)
    ensures forall x :: x in Sort(s, le) <==> x in s
  {
    if s != [] {
      SortKeepsElements(s[1..], le);
      InsertKeepsElements(s[0], Sort(s[1..], le), le);
      assert s == [s[0]] + s[1..];
    }
    assert forall x :: x in Sort(s, le) <==> x in multiset(Sort(s, le));
  }

  lemma {:induction false} InsertSorts<T>(x: T, s: seq<T>, le: (T, T) -> bool)
    requires Preorder([x] + s, le) && SortedBy(s, le)
    ensures SortedBy(Insert(x, s, le), le)
  {
    assert forall y :: y in [x] + s <==> y == x || y in s;
    if s == [] || le(x, s[0]) {
      forall k | 0 <= k < |s| ensures le(x, s[k]) { assert s[k] in s && s[0] in s && (k > 0 ==> le(s[0], s[k])); }
    } else {
      InsertSorts(x, s[1..], le);
      InsertKeepsElements(x, s[1..], le);
      var r := Insert(x, s[1..], le);
      forall k | 0 <= k < |r| ensures le(s[0], r[k]) {
        assert r[k] in multiset(r);
        if r[k] != x {
          assert r[k] in s[1..];
        }
      }
    }
  }

  /** With a comparator that is consistent among its elements, a sequence is sorted. */
  lemma {:induction false} SortSorts<T>(s: seq<T>, le: (T, T) -> bool)
    requires Preorder(s, le)
    ensures SortedBy(Sort(s, le), le)
  {
    if s != [] {
      SortSorts(s[1..], le);
      SortKeepsElements(s[1..], le);
      var r := Sort(s[1..], le);
      forall y | y in [s[0]] + r ensures y in s {
        if y != s[0] { assert y in r && y in multiset(r) && y in multiset(s[1..]); }
      }
      InsertSorts(s[0], r, le);
    }
  }

  /** Sorting leaves a sorted sequence as it is: the stable part of the sort. */
  lemma {:induction false} SortedIsFixed<T>(s: seq<T>, le: (T, T) -> bool)
    requires SortedBy(s, le)
    ensures Sort(s, le) == s
  {
    if s != [] {
      SortedIsFixed(s[1..], le);
      assert s == [s[0]] + s[1..];
    }
  }

  /** The elements that tie with `x`, in order. */
  function Ties<T>(s: seq<T>, le: (T, T) -> bool, x: T): seq<T> {
    if s == [] then [] else (if le(x, s[0]) && le(s[0], x) then [s[0]] else []) + Ties(s[1..], le, x)
  }

  lemma {:induction false} TiesFirst<T>(y: T, s: seq<T>, le: (T, T) -> bool, x: T)
    ensures Ties([y] + s, le, x) == if le(x, y) && le(y, x) then [y] + Ties(s, le, x) else Ties(s, le, x)
  {
    assert ([y] + s)[1..] == s;
  }

  lemma WithoutFirst<T>(x: T, y: T, s: seq<T>, le: (T, T) -> bool)
    requires Preorder([x, y] + s, le) && s != []
    ensures Preorder([x, y] + s[1..], le)
    ensures !le(y, s[0]) ==> !(le(x, y) && le(y, x) && le(x, s[0]) && le(s[0], x))
  {
    assert x in [x, y] + s && y in [x, y] + s && s[0] in [x, y] + s;
    forall z | z in [x, y] + s[1..] ensures z in [x, y] + s { assert z in [x, y] || z in s; }
  }

  lemma {:induction false} InsertKeepsTies<T>(y: T, s: seq<T>, le: (T, T) -> bool, x: T)
    requires Preorder([x, y] + s, le)
    ensures Ties(Insert(y, s, le), le, x) == Ties([y] + s, le, x)
  {
    if s != [] && !le(y, s[0]) {
      var rest := Insert(y, s[1..], le);
      WithoutFirst(x, y, s, le);
      InsertKeepsTies(y, s[1..], le, x);
      TiesFirst(s[0], rest, le, x);
      TiesFirst(y, s[1..], le, x);
      TiesFirst(y, s, le, x);
      TiesFirst(s[0], s[1..], le, x);
      assert s == [s[0]] + s[1..];
    }
  }

  /** A sort is stable: elements that tie keep their order. */
  lemma {:induction false} SortKeepsTies<T>(s: seq<T>, le: (T, T) -> bool, x: T)
    requires Preorder(s, le) && x in s
    ensures Ties(Sort(s, le), le, x) == Ties(s, le, x)
  {
    SortKeepsTiesOf(s, s, le, x);
  }

  lemma SortedAmong<T>(all: seq<T>, s: seq<T>, le: (T, T) -> bool, x: T)
    requires Preorder(all, le) && x in all && s != [] && forall y :: y in s ==> y in all
    ensures Preorder([x, s[0]] + Sort(s[1..], le), le)
  {
    var r := Sort(s[1..], le);
    SortKeepsElements(s[1..], le);
    forall z | z in [x, s[0]] + r ensures z in all { assert z in r ==> z in multiset(s[1..]); }
  }

  lemma {:induction false} SortKeepsTiesOf<T>(all: seq<T>, s: seq<T>, le: (T, T) -> bool, x: T)
    requires Preorder(all, le) && x in all && forall y :: y in s ==> y in all
    ensures Ties(Sort(s, le), le, x) == Ties(s, le, x)
    decreases |s|
  {
    if s != [] {
      var r := Sort(s[1..], le);
      SortKeepsTiesOf(all, s[1..], le, x);
      SortedAmong(all, s, le, x);
      InsertKeepsTies(s[0], r, le, x);
      TiesFirst(s[0], r, le, x);
      TiesFirst(s[0], s[1..], le, x);
      assert s == [s[0]] + s[1..];
    }
  }

  /** Only equal elements may be exchanged. */
  ghost predicate Strict<T>(s: seq<T>, le: (T, T) -> bool) {
    forall x, y :: x in s && y in s && le(x, y) && le(y, x) ==> x == y
  }

  lemma SameFirst<T>(a: seq<T>, b: seq<T>, le: (T, T) -> bool)
    requires multiset(a) == multiset(b) && SortedBy(a, le) && SortedBy(b, le) && Strict(a, le) && a != [] && b != []
    ensures a[0] == b[0]
  {
    assert a[0] in multiset(b) && b[0] in multiset(a);
    var i :| 0 <= i < |b| && b[i] == a[0];
    var j :| 0 <= j < |a| && a[j] == b[0];
    assert i == 0 || le(b[0], b[i]);
    assert j == 0 || le(a[0], a[j]);
  }

  /** Then only one permutation is in order. */
  lemma {:induction false} SortedOnce<T>(a: seq<T>, b: seq<T>, le: (T, T) -> bool)
    requires multiset(a) == multiset(b) && SortedBy(a, le) && SortedBy(b, le) && Strict(a, le)
    ensures a == b
    decreases |a|
  {
    assert |a| == |multiset(a)| == |multiset(b)| == |b|;
    if a != [] {
      SameFirst(a, b, le);
      SameRest(a, b);
      RestIsStrict(a, le);
      SortedOnce(a[1..], b[1..], le);
    }
  }

  lemma SameRest<T>(a: seq<T>, b: seq<T>)
    requires a != [] && b != [] && a[0] == b[0] && multiset(a) == multiset(b)
    ensures multiset(a[1..]) == multiset(b[1..])
  {
    assert a == [a[0]] + a[1..] && b == [b[0]] + b[1..];
    assert multiset(a[1..]) == multiset(a) - multiset{a[0]} == multiset(b[1..]);
  }

  lemma RestIsStrict<T>(a: seq<T>, le: (T, T) -> bool)
    requires a != [] && Strict(a, le)
    ensures Strict(a[1..], le)
  {
    assert forall x :: x in a[1..] ==> x in a;
  }

  ghost predicate Pairwise<T>(s: seq<T>, p: (T, T) -> bool) {
    forall i, j :: 0 <= i < j < |s| ==> p(s[i], s[j]) && p(s[j], s[i])
  }

  lemma {:induction false} InsertKeepsPairwise<T>(x: T, s: seq<T>, le: (T, T) -> bool, p: (T, T) -> bool)
    requires Pairwise([x] + s, p)
    ensures Pairwise(Insert(x, s, le), p)
  {
    if s != [] && !le(x, s[0]) {
      assert s == [s[0]] + s[1..] && ([x] + s)[1] == s[0];
      forall i, j | 0 <= i < j < |[x] + s[1..]|
        ensures p(([x] + s[1..])[i], ([x] + s[1..])[j]) && p(([x] + s[1..])[j], ([x] + s[1..])[i])
      {
        assert ([x] + s[1..])[i] == ([x] + s)[if i == 0 then 0 else i + 1] && ([x] + s[1..])[j] == ([x] + s)[j + 1];
      }
      InsertKeepsPairwise(x, s[1..], le, p);
      var r := Insert(x, s[1..], le);
      forall k | 0 <= k < |r| ensures p(s[0], r[k]) && p(r[k], s[0]) {
        InsertKeepsElements(x, s[1..], le);
        assert r[k] in multiset(r);
        if r[k] == x {
          assert ([x] + s)[0] == x;
        } else {
          assert r[k] in multiset(s[1..]);
          var j :| 0 <= j < |s[1..]| && s[1..][j] == r[k];
          assert ([x] + s)[j + 2] == r[k];
        }
      }
      assert Insert(x, s, le) == [s[0]] + r;
    }
  }

  /** What holds between any two elements, holds between any two after sorting. */
  lemma {:induction false} SortKeepsPairwise<T>(s: seq<T>, le: (T, T) -> bool, p: (T, T) -> bool)
    requires Pairwise(s, p)
    ensures Pairwise(Sort(s, le), p)
  {
    if s != [] {
      var r := Sort(s[1..], le);
      forall i, j | 0 <= i < j < |s[1..]| ensures p(s[1..][i], s[1..][j]) && p(s[1..][j], s[1..][i]) {
        assert s[1..][i] == s[i + 1] && s[1..][j] == s[j + 1];
      }
      SortKeepsPairwise(s[1..], le, p);
      SortKeepsElements(s[1..], le);
      forall i, j | 0 <= i < j < |[s[0]] + r|
        ensures p(([s[0]] + r)[i], ([s[0]] + r)[j]) && p(([s[0]] + r)[j], ([s[0]] + r)[i])
      {
        if i == 0 {
          assert r[j - 1] in multiset(r) && r[j - 1] in multiset(s[1..]);
          var k :| 0 <= k < |s[1..]| && s[1..][k] == r[j - 1];
          assert s[k + 1] == r[j - 1];
        }
      }
      InsertKeepsPairwise(s[0], r, le, p);
    }
  }
}
