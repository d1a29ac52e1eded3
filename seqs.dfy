/**
 Selecting positions of a sequence: the index bookkeeping behind Kotlin's
 `mapIndexedNotNull` and `mapNotNull`.
 */
module Seqs {

  /**
   The positions, counted from `base`, of the elements of `s` that `keep`
   accepts, in increasing order.
   */
  function Select<T>(s: seq<T>, keep: T -> bool, base: nat): (r: seq<nat>)
    ensures |r| <= |s|
    ensures forall j :: 0 <= j < |r| ==> base <= r[j] < base + |s| && keep(s[r[j] - base])
    ensures forall j, k :: 0 <= j < k < |r| ==> r[j] < r[k]
    ensures forall i :: base <= i < base + |s| && keep(s[i - base]) ==> i in r
    decreases |s|
  {
    if s == [] then []
    else
      var rest := Select(s[1..], keep, base + 1);
      var head := if keep(s[0]) then [base] else [];
      SelectCons(s, keep, base, rest, head);
      head + rest
  }

  /** The inductive step of Select: prepending the first position keeps its guarantees. */
  lemma SelectCons<T>(s: seq<T>, keep: T -> bool, base: nat, rest: seq<nat>, head: seq<nat>)
    requires s != []
    requires head == if keep(s[0]) then [base] else []
    requires forall j :: 0 <= j < |rest| ==> base + 1 <= rest[j] < base + |s| && keep(s[1..][rest[j] - (base + 1)])
    requires forall j, k :: 0 <= j < k < |rest| ==> rest[j] < rest[k]
    requires forall i :: base + 1 <= i < base + |s| && keep(s[1..][i - (base + 1)]) ==> i in rest
    ensures var r := head + rest;
      && (forall j :: 0 <= j < |r| ==> base <= r[j] < base + |s| && keep(s[r[j] - base]))
      && (forall j, k :: 0 <= j < k < |r| ==> r[j] < r[k])
      && (forall i :: base <= i < base + |s| && keep(s[i - base]) ==> i in r)
  {
    var r := head + rest;
    forall j | 0 <= j < |r|
      ensures base <= r[j] < base + |s| && keep(s[r[j] - base])
    {
      if j >= |head| {
        assert r[j] == rest[j - |head|];
        assert s[r[j] - base] == s[1..][r[j] - (base + 1)];
      }
    }
    forall j, k | 0 <= j < k < |r|
      ensures r[j] < r[k]
    {
      if j >= |head| {
        assert r[j] == rest[j - |head|] && r[k] == rest[k - |head|];
      } else {
        assert r[k] == rest[k - |head|];
      }
    }
    forall i | base <= i < base + |s| && keep(s[i - base])
      ensures i in r
    {
      if i > base {
        assert s[1..][i - (base + 1)] == s[i - base];
        assert i in rest;
      }
    }
  }

}
