/** What the loop looks up: the last record for an id, the last decision for an anomaly, and the date rules in order. */
module Records {
  import opened Decisions
  import opened Values
  import DateRepair

  /** Of the anomalies with one id the last is found. */
  lemma {:induction false} LastAnomalyIsFound(anomalies: seq<Anomaly>, i: nat)
    requires i < |anomalies| && forall j :: i < j < |anomalies| ==> anomalies[j].id != anomalies[i].id
    ensures anomalies[i].id in ToAnomalyMap(anomalies) && ToAnomalyMap(anomalies)[anomalies[i].id] == anomalies[i]
  {
    if i < |anomalies| - 1 {
      LastAnomalyIsFound(anomalies[..|anomalies| - 1], i);
    }
  }

  lemma {:induction false} NothingElseIsFound(anomalies: seq<Anomaly>, id: string)
    ensures id in ToAnomalyMap(anomalies) <==> exists i :: 0 <= i < |anomalies| && anomalies[i].id == id
  {
    if anomalies != [] {
      var n := |anomalies| - 1;
      NothingElseIsFound(anomalies[..n], id);
      assert forall i :: 0 <= i < n ==> anomalies[..n][i] == anomalies[i];
    }
  }

  // ---------------------------------------------------------------------------------------------
  // Decisions

  predicate LastFor(ds: seq<Decision>, i: nat)
    requires i < |ds|
  {
    forall j :: i < j < |ds| ==> ds[j].anomalyId != ds[i].anomalyId
  }

  /** The anomalies in the order in which they are first decided. */
  function Order(ds: seq<Decision>): seq<string> {
    if ds == [] then []
    else
      var init, id := Order(ds[..|ds| - 1]), ds[|ds| - 1].anomalyId;
      if id in init then init else init + [id]
  }

  function Ids(ds: seq<Decision>): seq<string> {
    seq(|ds|, i requires 0 <= i < |ds| => ds[i].anomalyId)
  }

  lemma {:induction false} UpsertIds(ds: seq<Decision>, d: Decision)
    ensures Ids(Upsert(ds, d)) == if d.anomalyId in Ids(ds) then Ids(ds) else Ids(ds) + [d.anomalyId]
  {
    if ds != [] {
      assert Ids(ds) == [ds[0].anomalyId] + Ids(ds[1..]);
      if ds[0].anomalyId != d.anomalyId {
        UpsertIds(ds[1..], d);
        assert Ids(Upsert(ds, d)) == [ds[0].anomalyId] + Ids(Upsert(ds[1..], d));
      } else {
        assert Ids(Upsert(ds, d)) == Ids(ds);
      }
    }
  }

  lemma {:induction false} UpsertHolds(ds: seq<Decision>, d: Decision, x: Decision)
    ensures d in Upsert(ds, d)
    ensures x.anomalyId != d.anomalyId && x in ds ==> x in Upsert(ds, d)
  {
    if ds != [] {
      assert ds == [ds[0]] + ds[1..];
      if ds[0].anomalyId != d.anomalyId {
        UpsertHolds(ds[1..], d, x);
      }
    }
  }

  /** The ids come in the order of their first occurrence, each once. */
  lemma {:induction false} DecidedOnce(ds: seq<Decision>)
    ensures Ids(ToDecisionMap(ds)) == Order(ds)
  {
    if ds != [] {
      var n := |ds| - 1;
      DecidedOnce(ds[..n]);
      UpsertIds(ToDecisionMap(ds[..n]), ds[n]);
    }
  }

  /** Each anomaly is decided by its last decision. */
  lemma {:induction false} LastDecisionCounts(ds: seq<Decision>, i: nat)
    requires i < |ds| && LastFor(ds, i)
    ensures ds[i] in ToDecisionMap(ds)
  {
    var n := |ds| - 1;
    UpsertHolds(ToDecisionMap(ds[..n]), ds[n], ds[i]);
    if i < n {
      LastDecisionCounts(ds[..n], i);
    }
  }

  lemma {:induction false} OrderIsFirst(ds: seq<Decision>)
    ensures forall j, k :: 0 <= j < k < |Order(ds)| ==> Order(ds)[j] != Order(ds)[k]
    ensures forall id :: id in Order(ds) <==> exists i :: 0 <= i < |ds| && ds[i].anomalyId == id
  {
    if ds != [] {
      var n := |ds| - 1;
      OrderIsFirst(ds[..n]);
      assert forall i :: 0 <= i < n ==> ds[..n][i] == ds[i];
      assert ds[n].anomalyId in Order(ds);
    }
  }

  // ---------------------------------------------------------------------------------------------
  // Date rules

  /** The rules are those of the DATE_LOGICAL records that name an end column. */
  lemma {:induction false} RulesAreRecords(anomalies: seq<Anomaly>, rule: DateRepair.Constraint)
    ensures rule in Constraints(anomalies)
            <==> exists i :: 0 <= i < |anomalies| && Writes(anomalies[i], rule)
  {
    if anomalies != [] {
      var n := |anomalies| - 1;
      RulesAreRecords(anomalies[..n], rule);
      assert forall i :: 0 <= i < n ==> anomalies[..n][i] == anomalies[i];
    }
  }

  predicate Writes(a: Anomaly, rule: DateRepair.Constraint) {
    a.kind == DateLogical && a.column == rule.start && a.endColumn == Some(rule.end)
  }

  /** They come in the order of the records. */
  lemma {:induction false} RulesKeepOrder(p: seq<Anomaly>, q: seq<Anomaly>)
    ensures Constraints(p + q) == Constraints(p) + Constraints(q)
  {
    if q == [] {
      assert p + q == p;
    } else {
      assert (p + q)[..|p + q| - 1] == p + q[..|q| - 1];
      RulesKeepOrder(p, q[..|q| - 1]);
    }
  }
}
