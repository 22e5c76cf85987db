/** Small helpers shared by the metrics: Python's `max` over a non-empty
    list, the list comprehension `[x for x in s if keep(x)]`, and the bound
    on a ratio that F1 and IoU both rely on. */
module Seqs {

  /** The largest element of a non-empty list of scores. */
  function Max(s: seq<real>): (m: real)
    requires |s| > 0
    ensures m in s
    ensures forall x :: x in s ==> x <= m
  {
    if |s| == 1 then s[0]
    else
      var rest := Max(s[1..]);
      assert s == [s[0]] + s[1..];
      if s[0] >= rest then s[0] else rest
  }

  /** The maximum of a non-empty list is one of its entries and bounds
      every entry, stated by position. */
  lemma MaxAtIndex(s: seq<real>)
    requires |s| > 0
    ensures forall i :: 0 <= i < |s| ==> s[i] <= Max(s)
    ensures exists i :: 0 <= i < |s| && s[i] == Max(s)
  {
    assert forall i :: 0 <= i < |s| ==> s[i] in s;
    var i :| 0 <= i < |s| && s[i] == Max(s);
  }

  /** `r` is `s` with some entries left out: the entries of `r` occur in
      `s` in the same order. */
  ghost predicate IsSubsequence<T>(r: seq<T>, s: seq<T>)
    decreases |s|
  {
    r == [] || (s != [] && ((r[0] == s[0] && IsSubsequence(r[1..], s[1..])) || IsSubsequence(r, s[1..])))
  }

  /** The elements of `s` that satisfy `keep`, in their original order. */
  function Filter<T(!new)>(s: seq<T>, keep: T -> bool): (r: seq<T>)
    ensures |r| <= |s|
    ensures forall x :: x in r <==> x in s && keep(x)
    ensures forall x :: multiset(r)[x] == if keep(x) then multiset(s)[x] else 0
    ensures IsSubsequence(r, s)
  {
    if s == [] then []
    else
      var rest := Filter(s[1..], keep);
      assert s == [s[0]] + s[1..];
      assert multiset(s) == multiset{s[0]} + multiset(s[1..]);
      if keep(s[0]) then
        var r := [s[0]] + rest;
        assert r[1..] == rest;
        assert multiset(r) == multiset{s[0]} + multiset(rest);
        r
      else
        rest
  }

  /** Filtering a second time with the same predicate removes nothing more. */
  lemma {:induction false} FilterIdempotent<T(!new)>(s: seq<T>, keep: T -> bool)
    ensures Filter(Filter(s, keep), keep) == Filter(s, keep)
  {
    if s != [] {
      var tail := Filter(s[1..], keep);
      FilterIdempotent(s[1..], keep);
      if keep(s[0]) {
        assert Filter(s, keep) == [s[0]] + tail;
        assert ([s[0]] + tail)[1..] == tail;
      } else {
        assert Filter(s, keep) == tail;
      }
    }
  }

  /** n/d lies in (0, 1], and equals 1 exactly when n = d. */
  lemma RatioAtMostOne(n: nat, d: nat)
    requires 0 < n <= d
    ensures 0.0 < n as real / d as real <= 1.0
    ensures n as real / d as real == 1.0 <==> n == d
  {
    var q := n as real / d as real;
    assert q * d as real == n as real;
  }
}
