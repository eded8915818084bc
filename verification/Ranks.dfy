/** The element that stands at a given place when a list is put in order, without sorting it. */
module Ranks {
  import opened Rows
  import opened Sorting

  function Below<T>(le: (T, T) -> bool, x: T): T -> bool {
    (y: T) => !le(x, y)
  }

  function AtMost<T>(le: (T, T) -> bool, x: T): T -> bool {
    (y: T) => le(y, x)
  }

  function AtLeast<T>(le: (T, T) -> bool, x: T): T -> bool {
    (y: T) => le(x, y)
  }

  /** At most `k` elements are below `x`, and more than `k` are not above it. */
  ghost predicate IsRank<T>(le: (T, T) -> bool, v: seq<T>, k: nat, x: T) {
    x in v && Count(v, Below(le, x)) <= k < Count(v, AtMost(le, x))
  }

  lemma {:induction false} CountImplies<T(!new)>(v: seq<T>, p: T -> bool, q: T -> bool)
    requires forall y :: p(y) ==> q(y)
    ensures Count(v, p) <= Count(v, q)
  {
    if v != [] {
      CountImplies(v[..|v| - 1], p, q);
    }
  }

  lemma {:induction false} CountEvery<T>(s: seq<T>, p: T -> bool)
    requires forall i :: 0 <= i < |s| ==> p(s[i])
    ensures Count(s, p) == |s|
  {
    if s != [] {
      CountEvery(s[..|s| - 1], p);
    }
  }

  lemma {:induction false} Complement<T>(le: (T, T) -> bool, v: seq<T>, x: T)
    ensures Count(v, Below(le, x)) + Count(v, AtLeast(le, x)) == |v|
  {
    if v != [] {
      Complement(le, v[..|v| - 1], x);
    }
  }

  /** Ranks are ordered as their places are, so a place has one rank only. */
  lemma RankOrder<T(!new)>(le: (T, T) -> bool, v: seq<T>, j: nat, k: nat, x: T, y: T)
    requires TotalOrder(le) && IsRank(le, v, j, x) && IsRank(le, v, k, y) && j <= k
    ensures le(x, y)
  {
    if !le(x, y) {
      CountImplies(v, AtMost(le, y), Below(le, x));
    }
  }

  lemma NoneBelow<T(!new)>(le: (T, T) -> bool, s: seq<T>, k: nat)
    requires TotalOrder(le) && Sorted(le, s) && k < |s|
    ensures Count(s[k..], Below(le, s[k])) == 0
  {
    CountBound(s[k..], Below(le, s[k]));
  }

  lemma AllAtMost<T(!new)>(le: (T, T) -> bool, s: seq<T>, k: nat)
    requires TotalOrder(le) && Sorted(le, s) && k < |s|
    ensures Count(s[..k + 1], AtMost(le, s[k])) == k + 1
  {
    CountEvery(s[..k + 1], AtMost(le, s[k]));
  }

  lemma CountSplit<T>(s: seq<T>, k: nat, p: T -> bool)
    requires k <= |s|
    ensures Count(s, p) == Count(s[..k], p) + Count(s[k..], p)
  {
    assert s == s[..k] + s[k..];
    CountConcat(s[..k], s[k..], p);
  }

  lemma SortedPlace<T(!new)>(le: (T, T) -> bool, s: seq<T>, k: nat)
    requires TotalOrder(le) && Sorted(le, s) && k < |s|
    ensures Count(s, Below(le, s[k])) <= k < Count(s, AtMost(le, s[k]))
  {
    NoneBelow(le, s, k);
    AllAtMost(le, s, k);
    hide TotalOrder, Sorted, Count;
    CountSplit(s, k, Below(le, s[k]));
    CountSplit(s, k + 1, AtMost(le, s[k]));
    CountBound(s[..k], Below(le, s[k]));
    CountBound(s[k + 1..], AtMost(le, s[k]));
  }

  /** Sorting puts the rank of every place there. */
  lemma SortedRank<T(!new)>(le: (T, T) -> bool, v: seq<T>, k: nat)
    requires TotalOrder(le) && k < |v|
    ensures |Sort(le, v)| == |v| && IsRank(le, v, k, Sort(le, v)[k])
  {
    var s := Sort(le, v);
    SortCorrect(le, v);
    SortedPlace(le, s, k);
    hide TotalOrder, Sorted, Sort, Count, Below, AtMost;
    assert s[k] in multiset(s);
    CountMultiset(s, v, Below(le, s[k]));
    CountMultiset(s, v, AtMost(le, s[k]));
  }
}
