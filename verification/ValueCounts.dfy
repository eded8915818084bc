/** Polars' `value_counts` over a list of strings, in whatever order it lists the entries. */
module ValueCounts {

  function Occurrences(keys: seq<string>, k: string): nat {
    multiset(keys)[k]
  }

  function KeySet(keys: seq<string>): set<string> {
    set k | k in keys
  }

  /** One entry per distinct key with its count. */
  ghost predicate IsValueCounts(vc: seq<(string, nat)>, keys: seq<string>) {
    && (forall i, j :: 0 <= i < j < |vc| ==> vc[i].0 != vc[j].0)
    && (forall i :: 0 <= i < |vc| ==> vc[i].1 == Occurrences(keys, vc[i].0) > 0)
    && (forall k :: k in keys ==> exists i :: 0 <= i < |vc| && vc[i].0 == k)
  }

  function Total(vc: seq<(string, nat)>): nat {
    if vc == [] then 0 else Total(vc[..|vc| - 1]) + vc[|vc| - 1].1
  }

  function Without(keys: seq<string>, k: string): seq<string> {
    if keys == [] then []
    else
      var init := Without(keys[..|keys| - 1], k);
      if keys[|keys| - 1] == k then init else init + [keys[|keys| - 1]]
  }

  lemma {:induction false} WithoutCount(keys: seq<string>, k: string, x: string)
    ensures Occurrences(Without(keys, k), x) == if x == k then 0 else Occurrences(keys, x)
    ensures |Without(keys, k)| == |keys| - Occurrences(keys, k)
  {
    if keys != [] {
      var init, last := keys[..|keys| - 1], keys[|keys| - 1];
      WithoutCount(init, k, x);
      assert keys == init + [last];
    }
  }

  lemma WithoutCounts(keys: seq<string>, k: string)
    ensures forall x :: Occurrences(Without(keys, k), x) == if x == k then 0 else Occurrences(keys, x)
    ensures |Without(keys, k)| == |keys| - Occurrences(keys, k)
  {
    forall x
      ensures Occurrences(Without(keys, k), x) == if x == k then 0 else Occurrences(keys, x)
    {
      WithoutCount(keys, k, x);
    }
    WithoutCount(keys, k, k);
  }

  lemma WithoutKeys(keys: seq<string>, k: string)
    ensures KeySet(Without(keys, k)) == KeySet(keys) - {k}
  {
    WithoutCounts(keys, k);
    forall x
      ensures x in Without(keys, k) <==> x in keys && x != k
    {
      assert x in Without(keys, k) <==> Occurrences(Without(keys, k), x) > 0;
      assert x in keys <==> Occurrences(keys, x) > 0;
    }
  }

  /** Dropping the last entry leaves the value count of the list without its key. */
  lemma DropEntry(vc: seq<(string, nat)>, keys: seq<string>)
    requires IsValueCounts(vc, keys) && vc != []
    ensures IsValueCounts(vc[..|vc| - 1], Without(keys, vc[|vc| - 1].0))
  {
    var n, k := |vc| - 1, vc[|vc| - 1].0;
    WithoutCounts(keys, k);
    WithoutKeys(keys, k);
    forall x | x in Without(keys, k)
      ensures exists i :: 0 <= i < n && vc[..n][i].0 == x
    {
      assert x in KeySet(Without(keys, k));
      var i :| 0 <= i < |vc| && vc[i].0 == x;
      assert vc[..n][i].0 == x;
    }
  }

  /** The counts add up to the length of the list, and there are as many entries as distinct keys. */
  lemma {:induction false} TotalIsLength(vc: seq<(string, nat)>, keys: seq<string>)
    requires IsValueCounts(vc, keys)
    ensures Total(vc) == |keys|
    ensures |vc| == |KeySet(keys)|
    decreases |vc|
  {
    if vc == [] {
      assert forall i :: 0 <= i < |keys| ==> keys[i] in keys;
      assert keys == [];
      assert KeySet(keys) == {};
    } else {
      var k := vc[|vc| - 1].0;
      DropEntry(vc, keys);
      TotalIsLength(vc[..|vc| - 1], Without(keys, k));
      WithoutCounts(keys, k);
      WithoutKeys(keys, k);
      assert k in multiset(keys);
      assert k in KeySet(keys);
    }
  }
}
