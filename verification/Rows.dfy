/** Row finders and the counts the detectors report, over any element type. */
module Rows {

  /** `[i for i, v in enumerate(s) if p(v)]`. */
  function Where<T>(s: seq<T>, p: T -> bool): (rows: seq<nat>)
    ensures |rows| == Count(s, p)
    ensures forall k :: 0 <= k < |rows| ==> rows[k] < |s| && p(s[rows[k]])
    ensures forall j, k :: 0 <= j < k < |rows| ==> rows[j] < rows[k]
    ensures forall i :: 0 <= i < |s| && p(s[i]) ==> i in rows
  {
    if s == [] then []
    else
      var n := |s| - 1;
      var init := Where(s[..n], p);
      if p(s[n]) then init + [n] else init
  }

  /** The number of elements that satisfy `p`. */
  function Count<T>(s: seq<T>, p: T -> bool): nat {
    if s == [] then 0 else Count(s[..|s| - 1], p) + (if p(s[|s| - 1]) then 1 else 0)
  }

  lemma {:induction false} CountConcat<T>(a: seq<T>, b: seq<T>, p: T -> bool)
    ensures Count(a + b, p) == Count(a, p) + Count(b, p)
  {
    if b == [] {
      assert a + b == a;
    } else {
      var n := |b| - 1;
      assert (a + b)[..|a + b| - 1] == a + b[..n];
      CountConcat(a, b[..n], p);
    }
  }

  lemma {:induction false} CountSame<T>(s: seq<T>, p: T -> bool, q: T -> bool)
    requires forall i :: 0 <= i < |s| ==> p(s[i]) == q(s[i])
    ensures Count(s, p) == Count(s, q)
  {
    if s != [] {
      CountSame(s[..|s| - 1], p, q);
    }
  }

  lemma {:induction false} CountBound<T>(s: seq<T>, p: T -> bool)
    ensures Count(s, p) <= |s|
    ensures Count(s, p) == 0 <==> forall i :: 0 <= i < |s| ==> !p(s[i])
  {
    if s != [] {
      CountBound(s[..|s| - 1], p);
    }
  }

  /** Counting depends only on the multiset of elements, so it survives sorting. */
  lemma {:induction false} CountMultiset<T>(a: seq<T>, b: seq<T>, p: T -> bool)
    requires multiset(a) == multiset(b)
    ensures Count(a, p) == Count(b, p)
    decreases |a|
  {
    if a == [] {
      assert |multiset(b)| == 0;
    } else {
      var n := |a| - 1;
      var x := a[n];
      assert x in multiset(b);
      var k :| 0 <= k < |b| && b[k] == x;
      var rest := b[..k] + b[k + 1..];
      assert a == a[..n] + [x];
      assert b == b[..k] + [x] + b[k + 1..];
      assert multiset(rest) == multiset(b) - multiset{x};
      CountMultiset(a[..n], rest, p);
      CountConcat(b[..k], [x], p);
      CountConcat(b[..k] + [x], b[k + 1..], p);
      CountConcat(b[..k], b[k + 1..], p);
      assert [x][..0] == [];
    }
  }

  /** `for i in rows: cells[i] = f(cells[i])`, for a set of rows. */
  function MapRows<T>(cells: seq<T>, rows: seq<nat>, f: T -> T): (r: seq<T>)
    ensures |r| == |cells|
  {
    seq(|cells|, i requires 0 <= i < |cells| => if i in rows then f(cells[i]) else cells[i])
  }

  /** `for i in rows: cells[i] = v`. */
  function Overwrite<T>(cells: seq<T>, rows: seq<nat>, v: T): (r: seq<T>)
    ensures |r| == |cells|
  {
    seq(|cells|, i requires 0 <= i < |cells| => if i in rows then v else cells[i])
  }

  /** No later entry names the row of entry `k` again. */
  predicate LastAt(rows: seq<nat>, k: nat)
    requires k < |rows|
  {
    forall j :: k < j < |rows| ==> rows[j] != rows[k]
  }

  /** `for i, v in zip(rows, vs): cells[i] = v`; the last value for a row stays. */
  function OverwriteEach<T>(cells: seq<T>, rows: seq<nat>, vs: seq<T>): (r: seq<T>)
    requires |vs| == |rows|
    requires forall k :: 0 <= k < |rows| ==> rows[k] < |cells|
    ensures |r| == |cells|
    ensures forall i :: 0 <= i < |cells| && i !in rows ==> r[i] == cells[i]
    decreases |rows|
  {
    if rows == [] then cells
    else
      var n := |rows| - 1;
      OverwriteEach(cells, rows[..n], vs[..n])[rows[n] := vs[n]]
  }

  /** The last entry for the row of entry `k`. */
  lemma LastPlace(rows: seq<nat>, k: nat) returns (j: nat)
    requires k < |rows|
    ensures k <= j < |rows| && rows[j] == rows[k] && LastAt(rows, j)
    decreases |rows| - k
  {
    j := k;
    if i :| k < i < |rows| && rows[i] == rows[k] {
      j := LastPlace(rows, i);
    }
  }

  /** Each row holds the last value that is listed for it. */
  lemma {:induction false} OverwrittenAt<T>(cells: seq<T>, rows: seq<nat>, vs: seq<T>, k: nat)
    requires |vs| == |rows| && forall j :: 0 <= j < |rows| ==> rows[j] < |cells|
    requires k < |rows| && LastAt(rows, k)
    ensures OverwriteEach(cells, rows, vs)[rows[k]] == vs[k]
    decreases |rows|
  {
    var n := |rows| - 1;
    if k < n {
      OverwrittenAt(cells, rows[..n], vs[..n], k);
    }
  }
}
