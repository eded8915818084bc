/** The order of the decisions: only decisions that depend on each other must keep theirs. */
module DecisionOrder {
  import opened DecisionOutcome
  import opened DecisionProperties
  import opened Decisions
  import opened Values

  ghost predicate Before(ds: seq<Decision>, x: Decision, y: Decision) {
    exists i, j :: PairAt(ds, i, j, x, y)
  }

  predicate PairAt(ds: seq<Decision>, i: int, j: int, x: Decision, y: Decision) {
    0 <= i < j < |ds| && ds[i] == x && ds[j] == y
  }

  /** The same decisions, those that are not independent of each other in the same order. */
  ghost predicate Reordered(am: AnomalyMap, ds: seq<Decision>, es: seq<Decision>) {
    && (forall x :: x in ds <==> x in es)
    && forall x, y :: Before(ds, x, y) && !Independent(am, x, y) ==> Before(es, x, y)
  }

  lemma SameEmptiness(ds: seq<Decision>, es: seq<Decision>)
    requires forall x :: x in ds <==> x in es
    ensures ds == [] <==> es == []
  {
    if ds != [] {
      assert ds[0] in es;
    }
    if es != [] {
      assert es[0] in ds;
    }
  }

  /** A decision that is independent of all later ones may come last. */
  lemma {:induction false} MoveToEnd(env: Env, snap: Frame, f: Frame, am: AnomalyMap, before: seq<Decision>,
                                     y: Decision, after: seq<Decision>)
    requires f.Rectangular() && f.height == snap.height && FindsRows(env, snap)
    requires forall z :: z in after ==> Independent(am, y, z)
    ensures DecideAll(env, snap, f, am, before + [y] + after) == DecideAll(env, snap, f, am, before + after + [y])
    decreases |after|
  {
    hide DecideAll, Independent;
    if after == [] {
      assert before + [y] + after == before + after + [y];
    } else {
      var z, rest := after[0], after[1..];
      SwapNeighbours(env, snap, f, am, before, y, z, rest);
      MoveToEnd(env, snap, f, am, before + [z], y, rest);
      assert before + [y] + [z] + rest == before + [y] + after;
      assert before + [z] + rest == before + after;
    }
  }

  /** The last decision of `es` is independent of whatever follows it in `ds`. */
  lemma LastIsFree(am: AnomalyMap, ds: seq<Decision>, es: seq<Decision>, k: nat)
    requires Reordered(am, ds, es) && DistinctIds(es) && es != [] && k < |ds| && ds[k] == es[|es| - 1]
    ensures forall z :: z in ds[k + 1..] ==> Independent(am, ds[k], z)
  {
    hide Independent;
    forall z | z in ds[k + 1..]
      ensures Independent(am, ds[k], z)
    {
      var j :| k < j < |ds| && ds[j] == z;
      assert PairAt(ds, k, j, ds[k], z);
    }
  }

  function Without(ds: seq<Decision>, k: nat): (r: seq<Decision>)
    requires k < |ds|
    ensures |r| == |ds| - 1
    ensures forall i :: 0 <= i < |r| ==> r[i] == ds[if i < k then i else i + 1]
  {
    ds[..k] + ds[k + 1..]
  }

  lemma WithoutKeeps(ds: seq<Decision>, k: nat)
    requires DistinctIds(ds) && k < |ds|
    ensures DistinctIds(Without(ds, k))
    ensures forall x :: x in Without(ds, k) <==> x in ds && x != ds[k]
    ensures forall x, y :: Before(Without(ds, k), x, y) <==> Before(ds, x, y) && x != ds[k] && y != ds[k]
  {
    var rest := Without(ds, k);
    forall i | 0 <= i < |ds| && i != k
      ensures rest[if i < k then i else i - 1] == ds[i]
    {
    }
    forall x, y
      ensures Before(rest, x, y) <==> Before(ds, x, y) && x != ds[k] && y != ds[k]
    {
      WithoutKeepsOrder(ds, k, x, y);
    }
  }

  lemma WithoutKeepsOrder(ds: seq<Decision>, k: nat, x: Decision, y: Decision)
    requires DistinctIds(ds) && k < |ds|
    ensures Before(Without(ds, k), x, y) <==> Before(ds, x, y) && x != ds[k] && y != ds[k]
  {
    hide Without, DistinctIds, PairAt;
    var rest := Without(ds, k);
    if Before(rest, x, y) {
      var i, j :| PairAt(rest, i, j, x, y);
      PairFromRest(ds, k, i, j, x, y);
    }
    if Before(ds, x, y) && x != ds[k] && y != ds[k] {
      var i, j :| PairAt(ds, i, j, x, y);
      PairInRest(ds, k, i, j, x, y);
    }
  }

  lemma PairFromRest(ds: seq<Decision>, k: nat, i: int, j: int, x: Decision, y: Decision)
    requires DistinctIds(ds) && k < |ds| && PairAt(Without(ds, k), i, j, x, y)
    ensures Before(ds, x, y) && x != ds[k] && y != ds[k]
  {
    hide Without;
    assert PairAt(ds, if i < k then i else i + 1, if j < k then j else j + 1, x, y);
  }

  lemma PairInRest(ds: seq<Decision>, k: nat, i: int, j: int, x: Decision, y: Decision)
    requires k < |ds| && PairAt(ds, i, j, x, y) && x != ds[k] && y != ds[k]
    ensures Before(Without(ds, k), x, y)
  {
    hide Without;
    assert PairAt(Without(ds, k), if i < k then i else i - 1, if j < k then j else j - 1, x, y);
  }

  lemma WithoutLast(am: AnomalyMap, ds: seq<Decision>, es: seq<Decision>, k: nat)
    requires Reordered(am, ds, es) && DistinctIds(ds) && DistinctIds(es)
    requires es != [] && k < |ds| && ds[k] == es[|es| - 1]
    ensures Reordered(am, Without(ds, k), es[..|es| - 1]) && DistinctIds(Without(ds, k))
  {
    WithoutKeeps(ds, k);
    WithoutKeeps(es, |es| - 1);
    assert es[..|es| - 1] == Without(es, |es| - 1);
    hide Independent, Without, Before, DistinctIds;
  }

  /** Two lists of the same decisions come to the same frame, or both raise. */
  lemma {:induction false} LoopInAnyOrder(env: Env, snap: Frame, f: Frame, am: AnomalyMap, ds: seq<Decision>,
                                          es: seq<Decision>)
    requires f.Rectangular() && f.height == snap.height && FindsRows(env, snap)
    requires DistinctIds(ds) && DistinctIds(es) && Reordered(am, ds, es)
    ensures DecideAll(env, snap, f, am, ds) == DecideAll(env, snap, f, am, es)
    decreases |es|
  {
    if es == [] {
      SameEmptiness(ds, es);
      return;
    }
    var n := |es| - 1;
    assert es[n] in ds;
    var k :| 0 <= k < |ds| && ds[k] == es[n];
    LastIsFree(am, ds, es, k);
    WithoutLast(am, ds, es, k);
    hide DecideAll, Reordered, DistinctIds, Without;
    LoopInAnyOrder(env, snap, f, am, Without(ds, k), es[..n]);
    SameAfter(env, snap, f, am, Without(ds, k), es[..n], [es[n]]);
    LastMoved(env, snap, f, am, ds, k);
    assert es[..n] + [es[n]] == es;
  }

  lemma LastMoved(env: Env, snap: Frame, f: Frame, am: AnomalyMap, ds: seq<Decision>, k: nat)
    requires f.Rectangular() && f.height == snap.height && FindsRows(env, snap) && k < |ds|
    requires forall z :: z in ds[k + 1..] ==> Independent(am, ds[k], z)
    ensures DecideAll(env, snap, f, am, ds) == DecideAll(env, snap, f, am, Without(ds, k) + [ds[k]])
  {
    hide DecideAll, Independent;
    MoveToEnd(env, snap, f, am, ds[..k], ds[k], ds[k + 1..]);
    assert ds[..k] + [ds[k]] + ds[k + 1..] == ds;
  }

  /**
   * The decisions may come in any order that keeps dependent ones, those on one column or with a tree that
   * names the other's column, in theirs: the returned frame is the same, or the run fails in both.
   */
  lemma ApplyInAnyOrder(env: Env, df: Frame, anomalies: seq<Anomaly>, ds: seq<Decision>, es: seq<Decision>)
    requires df.Valid() && FindsRows(env, df) && DistinctIds(ds) && DistinctIds(es)
    requires Reordered(ToAnomalyMap(anomalies), ds, es)
    ensures Apply(env, df, anomalies, ds) == Apply(env, df, anomalies, es)
  {
    hide DecideAll, ToAnomalyMap, Independent;
    MapOfDistinct(ds);
    MapOfDistinct(es);
    LoopInAnyOrder(env, df, df, ToAnomalyMap(anomalies), ds, es);
    SameEmptiness(ds, es);
  }
}
