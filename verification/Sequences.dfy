/** Facts about sequences that several modules use. */
module Sequences {
  lemma Regroup<T>(a: seq<T>, b: seq<T>, c: seq<T>)
    ensures (a + b) + c == a + (b + c)
  {
  }

  /** `r` is what stands in `s` at the positions `at`, which ascend. */
  ghost predicate Picks<T>(s: seq<T>, r: seq<T>, at: seq<nat>) {
    && |at| == |r| && (forall j, k :: 0 <= j < k < |at| ==> at[j] < at[k])
    && (forall j :: 0 <= j < |at| ==> at[j] < |s| && r[j] == s[at[j]])
  }

  function Moved(at: seq<nat>): (r: seq<nat>)
    ensures |r| == |at| && (forall j :: 0 <= j < |r| ==> r[j] == at[j] + 1)
  {
    seq(|at|, j requires 0 <= j < |at| => at[j] + 1)
  }

  lemma MovedHas(at: seq<nat>, k: nat)
    ensures k in Moved(at) <==> k > 0 && k - 1 in at
    ensures k in [0] + Moved(at) <==> k == 0 || k - 1 in at
  {
    if k in Moved(at) { var j :| 0 <= j < |at| && Moved(at)[j] == k; assert at[j] == k - 1; }
    if k > 0 && k - 1 in at { var j :| 0 <= j < |at| && at[j] == k - 1; assert Moved(at)[j] == k; }
    assert k in [0] + Moved(at) <==> k == 0 || k in Moved(at);
  }

  lemma PicksMore<T>(s: seq<T>, r: seq<T>, at: seq<nat>)
    requires s != [] && Picks(s[1..], r, at)
    ensures Picks(s, r, Moved(at)) && Picks(s, [s[0]] + r, [0] + Moved(at))
  {
    var m := Moved(at);
    forall j | 0 <= j < |m| ensures 0 < m[j] < |s| && r[j] == s[m[j]] { assert s[1..][at[j]] == s[at[j] + 1]; }
  }
}
