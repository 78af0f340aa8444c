/**
  Ranks of h-values in a list of points sorted by increasing h, used by the
  k-th h-value lookup of the barrier.
*/
module OrderStatistic {
  import opened Wrappers
  import opened EvalPoints

  /** Every h is defined and the list is sorted by non-decreasing h. */
  predicate SortedByH(s: seq<EvalPoint>) {
    && (forall i :: 0 <= i < |s| ==> s[i].h.Some?)
    && (forall i, j :: 0 <= i < j < |s| ==> s[i].h.value <= s[j].h.value)
  }

  /** Number of points whose h is defined and strictly below v. */
  function CountBelow(s: seq<EvalPoint>, v: real): (n: nat)
    ensures n <= |s|
  {
    if s == [] then 0
    else
      var last := s[|s| - 1];
      CountBelow(s[..|s| - 1], v) + (if last.h.Some? && last.h.value < v then 1 else 0)
  }

  /** Number of points whose h is defined and at most v. */
  function CountAtMost(s: seq<EvalPoint>, v: real): (n: nat)
    ensures n <= |s|
  {
    if s == [] then 0
    else
      var last := s[|s| - 1];
      CountAtMost(s[..|s| - 1], v) + (if last.h.Some? && last.h.value <= v then 1 else 0)
  }

  lemma {:induction false} CountAtMostAll(s: seq<EvalPoint>, v: real)
    requires forall i :: 0 <= i < |s| ==> s[i].h.Some? && s[i].h.value <= v
    ensures CountAtMost(s, v) == |s|
  {
    if s != [] {
      CountAtMostAll(s[..|s| - 1], v);
    }
  }

  /**
    In a sorted list the h-value v at index k is the k-th smallest (counting
    from 0): at most k points lie strictly below v and more than k lie at or
    below it.
  */
  lemma {:induction false} RankOfSortedEntry(s: seq<EvalPoint>, k: nat)
    requires SortedByH(s) && k < |s|
    ensures CountBelow(s, s[k].h.value) <= k < CountAtMost(s, s[k].h.value)
  {
    var n := |s| - 1;
    var v := s[k].h.value;
    var prefix := s[..n];
    assert SortedByH(prefix);
    if k == n {
      assert CountBelow(prefix, v) <= n;
      CountAtMostAll(prefix, v);
    } else {
      RankOfSortedEntry(prefix, k);
      assert prefix[k] == s[k];
    }
  }
}
