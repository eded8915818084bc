/** The worker's poll loop, and what its exit means for the decisions it then reads. */
module Waiting {
  import opened Protocol
  import opened Store

  /** The least number of intervals that reach the maximum wait. */
  function Rounds(maxWait: real, interval: real): (n: nat)
    requires interval > 0.0
  {
    if maxWait <= 0.0 then 0
    else
      Quotient(maxWait, interval);
      Ceiling(maxWait / interval)
  }

  function Ceiling(q: real): (n: nat)
    requires q > 0.0
    ensures n as real - 1.0 < q <= n as real
  {
    if q.Floor as real == q then q.Floor else q.Floor + 1
  }

  lemma Ordered(a: real, b: real, s: real)
    requires s > 0.0
    ensures a < b <==> a * s < b * s
  {
    if a < b {
      assert (b - a) * s > 0.0;
    } else {
      assert (a - b) * s >= 0.0;
    }
  }

  lemma Quotient(a: real, b: real)
    requires b > 0.0
    ensures (a / b) * b == a
    ensures a > 0.0 ==> a / b > 0.0
  {
    Ordered(0.0, a / b, b);
  }

  lemma RoundsExact(maxWait: real, interval: real, n: nat)
    requires interval > 0.0
    ensures n as real * interval < maxWait <==> n < Rounds(maxWait, interval)
  {
    if maxWait <= 0.0 {
      assert n as real * interval >= 0.0;
    } else {
      Quotient(maxWait, interval);
      Reaches(maxWait, interval, maxWait / interval, n, Ceiling(maxWait / interval));
    }
  }

  lemma Reaches(maxWait: real, interval: real, q: real, n: nat, rounds: nat)
    requires interval > 0.0 && q * interval == maxWait && rounds as real - 1.0 < q <= rounds as real
    ensures n as real * interval < maxWait <==> n < rounds
  {
    Ordered(n as real, q, interval);
    assert n < rounds ==> n as real <= rounds as real - 1.0;
  }

  /**
   * `while elapsed < max_wait`: `pending(k)` is what the k-th count returns. The loop ends with the
   * first zero count, or times out after exactly `Rounds` polls that all saw something pending.
   */
  method Wait(maxWait: real, interval: real, pending: nat -> nat) returns (polls: nat, timedOut: bool)
    requires interval > 0.0
    ensures polls <= Rounds(maxWait, interval)
    ensures timedOut ==> polls == Rounds(maxWait, interval) && forall k :: 0 <= k < polls ==> pending(k) > 0
    ensures !timedOut ==> 0 < polls && pending(polls - 1) == 0 && forall k :: 0 <= k < polls - 1 ==> pending(k) > 0
  {
    var elapsed := 0.0;
    polls := 0;
    timedOut := true;
    RoundsExact(maxWait, interval, 0);
    while elapsed < maxWait
      invariant elapsed == polls as real * interval
      invariant timedOut && polls <= Rounds(maxWait, interval)
      invariant elapsed < maxWait <==> polls < Rounds(maxWait, interval)
      invariant forall k :: 0 <= k < polls ==> pending(k) > 0
      decreases Rounds(maxWait, interval) - polls
    {
      var count := pending(polls);
      polls := polls + 1;
      if count == 0 {
        timedOut := false;
        break;
      }
      elapsed := elapsed + interval;
      RoundsExact(maxWait, interval, polls);
    }
  }

  /** The polls of a wait read the tables of a run, later ones at later moments. */
  ghost predicate Polls(run: seq<State>, dataset: string, at: nat -> nat, pending: nat -> nat, polls: nat) {
    && (forall k :: 0 <= k < polls ==> at(k) < |run| && pending(k) == |PendingIn(run[at(k)].db, dataset)|)
    && (forall k, m :: 0 <= k < m < polls ==> at(k) <= at(m))
  }

  /**
   * If a wait that began at moment `start` did not time out, the decisions read at any moment `j`
   * after it cover every anomaly the dataset had when the wait began.
   */
  method WaitForDecisions(maxWait: real, interval: real, pending: nat -> nat, dataset: string,
                          ghost run: seq<State>, ghost steps: seq<Step>, ghost at: nat -> nat, ghost start: nat)
    returns (polls: nat, timedOut: bool)
    requires interval > 0.0 && IsRun(run, steps) && start < |run|
    requires Polls(run, dataset, at, pending, Rounds(maxWait, interval))
    requires Rounds(maxWait, interval) > 0 ==> start <= at(0)
    ensures polls <= Rounds(maxWait, interval)
    ensures !timedOut ==> 0 < polls && forall j :: at(polls - 1) <= j < |run| ==>
              Covered(run[start].db, run[j].db, dataset)
  {
    polls, timedOut := Wait(maxWait, interval, pending);
    if !timedOut {
      assert start <= at(polls - 1);
      forall j | at(polls - 1) <= j < |run|
        ensures Covered(run[start].db, run[j].db, dataset)
      {
        WaitCovers(run, steps, start, at(polls - 1), j, dataset);
      }
    }
  }

  /** Every anomaly the dataset had before is decided after. */
  ghost predicate Covered(before: Db, after: Db, dataset: string) {
    forall id :: id in before.rows && before.rows[id].finding.datasetId == dataset ==>
      exists v :: v in DecisionsOf(after, dataset) && v.anomalyId == id
  }

  lemma WaitCovers(run: seq<State>, steps: seq<Step>, start: nat, i: nat, j: nat, dataset: string)
    requires IsRun(run, steps) && start <= i <= j < |run| && |PendingIn(run[i].db, dataset)| == 0
    ensures Covered(run[start].db, run[j].db, dataset)
  {
    hide IsRun;
    RunGrows(run, steps, start, i);
    PollCovers(run, steps, i, j, dataset);
    forall id | id in run[start].db.rows && run[start].db.rows[id].finding.datasetId == dataset
      ensures exists v :: v in DecisionsOf(run[j].db, dataset) && v.anomalyId == id
    {
      assert run[j].db.verdicts[id] in DecisionsOf(run[j].db, dataset);
    }
  }
}
