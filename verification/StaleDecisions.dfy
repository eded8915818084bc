/** What a stored decision says may be replaced by an older copy of it: exactly when, and a run in which it is. */
module StaleDecisions {
  import opened Protocol
  import opened Store
  import opened Values

  /** Two decisions that tell the worker the same. */
  predicate SameContent(a: Verdict, b: Verdict) {
    && a.action == b.action && a.correction == b.correction && a.ir == b.ir
    && a.source == b.source && a.rawText == b.rawText
  }

  /** Request `req` has a copy of anomaly `id` with decision `v`. */
  predicate CopyCarries(s: State, req: nat, id: string, v: Verdict) {
    && req in s.flights && s.flights[req].Held?
    && s.flights[req].copy.row.id == id && s.flights[req].copy.verdict == Some(v)
  }

  /** Steps that give a request another copy, another decision, or none. */
  predicate Replaces(step: Step, req: nat) {
    (step.ReadRow? || step.ReadVerdict? || step.ResolveCopy? || step.Drop?) && step.req == req
  }

  /** The step by which request `req` comes by decision `v` on anomaly `id`: it reads it or makes it. */
  predicate Obtains(s: State, step: Step, req: nat, id: string, v: Verdict) {
    || (step == ReadVerdict(req)
        && req in s.flights && RowOf(s.flights[req]).id == id && VerdictOf(s.db, id) == Some(v))
    || (step.ResolveCopy? && step.req == req && step.verdict == v && v.anomalyId == id)
  }

  /** Request `req` came by `v` at moment `k` and has kept it up to moment `j`. */
  ghost predicate KeptSince(run: seq<State>, steps: seq<Step>, k: nat, j: nat, req: nat, id: string, v: Verdict)
    requires k < j < |run| && |run| == |steps| + 1
  {
    Obtains(run[k], steps[k], req, id, v) && forall m :: k < m < j ==> !Replaces(steps[m], req)
  }

  ghost predicate HoldsVerdict(run: seq<State>, steps: seq<Step>, j: nat, req: nat, id: string, v: Verdict)
    requires j < |run| && |run| == |steps| + 1
  {
    exists k :: 0 <= k < j && KeptSince(run, steps, k, j, req, id, v)
  }

  lemma CarryStep(s: State, step: Step, req: nat, id: string, v: Verdict)
    requires Enabled(s, step)
    ensures CopyCarries(Next(s, step), req, id, v)
            <==> Obtains(s, step, req, id, v) || (CopyCarries(s, req, id, v) && !Replaces(step, req))
  {
    hide Saved;
  }

  lemma KeptStep(run: seq<State>, steps: seq<Step>, j: nat, req: nat, id: string, v: Verdict)
    requires 0 < j < |run| && |run| == |steps| + 1
    ensures HoldsVerdict(run, steps, j, req, id, v)
            <==> Obtains(run[j - 1], steps[j - 1], req, id, v)
                 || (HoldsVerdict(run, steps, j - 1, req, id, v) && !Replaces(steps[j - 1], req))
  {
    hide Obtains;
    if HoldsVerdict(run, steps, j, req, id, v) {
      var k :| 0 <= k < j && KeptSince(run, steps, k, j, req, id, v);
      if k < j - 1 {
        assert KeptSince(run, steps, k, j - 1, req, id, v);
      }
    }
    if Obtains(run[j - 1], steps[j - 1], req, id, v) {
      assert KeptSince(run, steps, j - 1, j, req, id, v);
    }
    if HoldsVerdict(run, steps, j - 1, req, id, v) && !Replaces(steps[j - 1], req) {
      var k :| 0 <= k < j - 1 && KeptSince(run, steps, k, j - 1, req, id, v);
      assert KeptSince(run, steps, k, j, req, id, v);
    }
  }

  /** A copy in flight carries a decision exactly while its request has read or made it and not replaced it since. */
  lemma {:induction false} CopiesCarry(run: seq<State>, steps: seq<Step>, j: nat, req: nat, id: string, v: Verdict)
    requires IsRun(run, steps) && j < |run|
    ensures CopyCarries(run[j], req, id, v) <==> HoldsVerdict(run, steps, j, req, id, v)
  {
    if j > 0 {
      CopiesCarry(run, steps, j - 1, req, id, v);
      assert run[j] == Next(run[j - 1], steps[j - 1]);
      CarryStep(run[j - 1], steps[j - 1], req, id, v);
      KeptStep(run, steps, j, req, id, v);
    }
  }

  /** What one step does to the decision on `id`. */
  lemma ContentStep(s: State, step: Step, id: string)
    requires Safe(s) && Enabled(s, step) && id in s.db.verdicts
    ensures id in Next(s, step).db.verdicts
    ensures forall v :: step.SaveCopy? && CopyCarries(s, step.req, id, v)
                        ==> SameContent(Next(s, step).db.verdicts[id], v)
    ensures (forall v :: !(step.SaveCopy? && CopyCarries(s, step.req, id, v)))
            ==> Next(s, step).db.verdicts[id] == s.db.verdicts[id]
  {
    if step.SaveCopy? {
      assert SafeFlight(s.db, s.flights[step.req]);
      var c := s.flights[step.req].copy;
      assert c.verdict.Some? ==> CopyCarries(s, step.req, c.row.id, c.verdict.value);
    }
  }

  /**
   * What a decision says changes exactly when a request saves a copy of the anomaly with a decision that says
   * something else: one it made, or one it has read at some earlier moment. From then on that is what the
   * decision says.
   */
  lemma ContentChangesExactly(run: seq<State>, steps: seq<Step>, i: nat, id: string)
    requires IsRun(run, steps) && i < |steps| && id in run[i].db.verdicts
    ensures id in run[i + 1].db.verdicts
    ensures !SameContent(run[i + 1].db.verdicts[id], run[i].db.verdicts[id])
            <==> && steps[i].SaveCopy?
                 && exists v :: HoldsVerdict(run, steps, i, steps[i].req, id, v)
                                && !SameContent(v, run[i].db.verdicts[id])
    ensures forall v :: steps[i].SaveCopy? && HoldsVerdict(run, steps, i, steps[i].req, id, v)
                        ==> SameContent(run[i + 1].db.verdicts[id], v)
  {
    var s, step := run[i], steps[i];
    RunIsSafe(run, steps, i);
    ContentStep(s, step, id);
    if step.SaveCopy? {
      forall v
        ensures CopyCarries(s, step.req, id, v) <==> HoldsVerdict(run, steps, i, step.req, id, v)
      {
        CopiesCarry(run, steps, i, step.req, id, v);
      }
      hide HoldsVerdict, Safe, Enabled, Next, IsRun;
      if !SameContent(run[i + 1].db.verdicts[id], s.db.verdicts[id]) {
        var v :| CopyCarries(s, step.req, id, v);
        assert HoldsVerdict(run, steps, i, step.req, id, v);
      }
    }
  }

  // ---------------------------------------------------------------------------------------------
  // A withdrawn decision returns

  /** A submission decides `v`, a webhook request loads the anomaly, one more decides `w`, and the webhook saves. */
  function WithdrawSteps(r: Row, v: Verdict, w: Verdict, text: string, now: int): seq<Step> {
    [Insert(map[r.id := r]), ReadRow(2, r.id), ReadVerdict(2), ResolveCopy(2, v, now), SaveCopy(2),
     ReadRow(1, r.id), ReadVerdict(1), ReadRow(2, r.id), ReadVerdict(2), ResolveCopy(2, w, now), SaveCopy(2),
     SuggestCopy(1, text, now), SaveCopy(1)]
  }

  /** The stored decision `v` after an update by `w`. */
  function Updated(v: Verdict, w: Verdict): Verdict {
    v.(action := w.action, correction := w.correction, ir := w.ir, source := w.source, rawText := w.rawText)
  }

  function WithdrawRun(r: Row, v: Verdict, w: Verdict, text: string, now: int): seq<State> {
    var decided := WithVerdict(Copy(r, None), v, now);
    var again, suggested := WithVerdict(decided, w, now), WithAi(decided, text, now);
    var d0, d1 := Db(map[], map[]), Db(map[r.id := r], map[]);
    var d2, d3 := Db(map[r.id := decided.row], map[r.id := v]), Db(map[r.id := again.row], map[r.id := Updated(v, w)]);
    var d4 := Db(map[r.id := suggested.row], map[r.id := v]);
    [State(d0, map[]), State(d1, map[]), State(d1, map[2 := RowRead(r)]), State(d1, map[2 := Held(Copy(r, None))]),
     State(d1, map[2 := Held(decided)]), State(d2, map[2 := Held(decided)]),
     State(d2, map[1 := RowRead(decided.row), 2 := Held(decided)]),
     State(d2, map[1 := Held(decided), 2 := Held(decided)]),
     State(d2, map[1 := Held(decided), 2 := RowRead(decided.row)]),
     State(d2, map[1 := Held(decided), 2 := Held(decided)]), State(d2, map[1 := Held(decided), 2 := Held(again)]),
     State(d3, map[1 := Held(decided), 2 := Held(again)]), State(d3, map[1 := Held(suggested), 2 := Held(again)]),
     State(d4, map[1 := Held(suggested), 2 := Held(again)])]
  }

  /**
   * For any anomaly and any two decisions on it: after the second submission the tables say `w`, at the end
   * they hold `v` again, which the worker then reads, and at neither moment is anything pending.
   */
  lemma WithdrawnDecisionReturns(r: Row, v: Verdict, w: Verdict, text: string, now: int)
    requires r.status.Pending? && v.anomalyId == w.anomalyId == r.id
    ensures var run := WithdrawRun(r, v, w, text, now);
            && IsRun(run, WithdrawSteps(r, v, w, text, now))
            && r.id in run[11].db.verdicts && SameContent(run[11].db.verdicts[r.id], w)
            && run[13].db.verdicts == map[r.id := v] && DecisionsOf(run[13].db, r.finding.datasetId) == {v}
            && PendingIn(run[11].db, r.finding.datasetId) == PendingIn(run[13].db, r.finding.datasetId) == {}
  {
    var run, steps := WithdrawRun(r, v, w, text, now), WithdrawSteps(r, v, w, text, now);
    forall k | 0 <= k < |steps|
      ensures Enabled(run[k], steps[k]) && run[k + 1] == Next(run[k], steps[k])
    {
      if k == 0 {
        TheInsert(r, v, w, text, now);
      } else if k == 1 || k == 2 {
        FirstReads(r, v, w, text, now, k);
      } else if k == 5 || k == 6 {
        SecondReads(r, v, w, text, now, k);
      } else if k == 7 || k == 8 {
        ThirdReads(r, v, w, text, now, k);
      } else if k == 4 || k == 10 || k == 12 {
        TheSaves(r, v, w, text, now, k);
      } else {
        TheEdits(r, v, w, text, now, k);
      }
    }
    hide Enabled, Next;
    OneDecision(run[13].db.rows[r.id], v);
  }

  lemma OneDecision(row: Row, v: Verdict)
    ensures DecisionsOf(Db(map[row.id := row], map[row.id := v]), row.finding.datasetId) == {v}
  {
    var db := Db(map[row.id := row], map[row.id := v]);
    assert row.id in db.verdicts && db.verdicts[row.id] == v;
  }

  ghost predicate StepAt(r: Row, v: Verdict, w: Verdict, text: string, now: int, k: nat)
    requires k < 13
  {
    var run, steps := WithdrawRun(r, v, w, text, now), WithdrawSteps(r, v, w, text, now);
    Enabled(run[k], steps[k]) && run[k + 1] == Next(run[k], steps[k])
  }

  lemma TheInsert(r: Row, v: Verdict, w: Verdict, text: string, now: int)
    requires r.status.Pending?
    ensures StepAt(r, v, w, text, now, 0)
  {
    hide Saved;
  }

  lemma FirstReads(r: Row, v: Verdict, w: Verdict, text: string, now: int, k: nat)
    requires k == 1 || k == 2
    ensures StepAt(r, v, w, text, now, k)
  {
    hide Saved;
  }

  lemma SecondReads(r: Row, v: Verdict, w: Verdict, text: string, now: int, k: nat)
    requires v.anomalyId == r.id && (k == 5 || k == 6)
    ensures StepAt(r, v, w, text, now, k)
  {
    hide Saved;
  }

  lemma ThirdReads(r: Row, v: Verdict, w: Verdict, text: string, now: int, k: nat)
    requires v.anomalyId == r.id && (k == 7 || k == 8)
    ensures StepAt(r, v, w, text, now, k)
  {
    hide Saved;
  }

  lemma TheEdits(r: Row, v: Verdict, w: Verdict, text: string, now: int, k: nat)
    requires v.anomalyId == w.anomalyId == r.id && (k == 3 || k == 9 || k == 11)
    ensures StepAt(r, v, w, text, now, k)
  {
    hide Saved;
  }

  lemma TheSaves(r: Row, v: Verdict, w: Verdict, text: string, now: int, k: nat)
    requires v.anomalyId == w.anomalyId == r.id && (k == 4 || k == 10 || k == 12)
    ensures StepAt(r, v, w, text, now, k)
  {
    hide Saved;
    var decided := WithVerdict(Copy(r, None), v, now);
    var again, suggested := WithVerdict(decided, w, now), WithAi(decided, text, now);
    SaveOver(r, r, decided, v, map[]);
    SaveAgain(decided.row, again, v, w);
    SaveAgain(again.row, suggested, Updated(v, w), v);
  }

  /** A save over a decision keeps its identity and takes the copy's content. */
  lemma SaveAgain(current: Row, c: Copy, stored: Verdict, v: Verdict)
    requires current.id == c.row.id && current.finding == c.row.finding && c.verdict == Some(v)
    ensures Saved(Db(map[current.id := current], map[current.id := stored]), c)
            == Db(map[current.id := c.row], map[current.id := Updated(stored, v)])
  {
  }
}
