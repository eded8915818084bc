/** The use cases' turns, when nothing interrupts them, are sequences of protocol steps. */
module Requests {
  import opened Protocol
  import opened Store
  import opened Values
  import A = SaveAiSuggestions
  import D = SubmitDecisions

  ghost predicate Plays(s: State, steps: seq<Step>, t: State)
    decreases |steps|
  {
    if steps == [] then t == s else Enabled(s, steps[0]) && Plays(Next(s, steps[0]), steps[1..], t)
  }

  /** Read the row, read its decision, edit the copy, save it, forget it. */
  function Turn(req: nat, id: string, edit: Step): seq<Step> {
    [ReadRow(req, id), ReadVerdict(req), edit, SaveCopy(req), Drop(req)]
  }

  function AfterTurn(s: State, req: nat, db: Db): State {
    State(db, s.flights - {req})
  }

  lemma ReadSteps(s: State, req: nat, id: string)
    requires Keyed(s.db) && id in s.db.rows
    ensures Next(s, ReadRow(req, id)) == State(s.db, s.flights[req := RowRead(s.db.rows[id])])
    ensures var s1 := Next(s, ReadRow(req, id));
            Enabled(s1, ReadVerdict(req))
            && Next(s1, ReadVerdict(req)) == State(s.db, s.flights[req := Held(Loaded(s.db, id).value)])
  {
    var held := Held(Loaded(s.db, id).value);
    assert s.flights[req := RowRead(s.db.rows[id])][req := held] == s.flights[req := held];
  }

  lemma SaveSteps(s: State, req: nat, c: Copy)
    ensures var s3 := State(s.db, s.flights[req := Held(c)]);
            Enabled(s3, SaveCopy(req)) && Next(Next(s3, SaveCopy(req)), Drop(req)) == AfterTurn(s, req, Saved(s.db, c))
  {
    hide Saved;
    assert s.flights[req := Held(c)] - {req} == s.flights - {req};
  }

  lemma TurnPlays(s: State, req: nat, id: string, edit: Step, c: Copy)
    requires Keyed(s.db) && id in s.db.rows
    requires var held := State(s.db, s.flights[req := Held(Loaded(s.db, id).value)]);
             Enabled(held, edit) && Next(held, edit) == State(s.db, s.flights[req := Held(c)])
    ensures Plays(s, Turn(req, id, edit), AfterTurn(s, req, Saved(s.db, c)))
  {
    ReadSteps(s, req, id);
    SaveSteps(s, req, c);
    assert Enabled(s, ReadRow(req, id));
    var s1 := Next(s, ReadRow(req, id));
    var s2 := Next(s1, ReadVerdict(req));
    var s3 := Next(s2, edit);
    var s4 := Next(s3, SaveCopy(req));
    assert Enabled(s4, Drop(req));
    FiveSteps(s, ReadRow(req, id), s1, ReadVerdict(req), s2, edit, s3, SaveCopy(req), s4, Drop(req),
              Next(s4, Drop(req)));
  }

  lemma FiveSteps(s: State, a: Step, s1: State, b: Step, s2: State, c: Step, s3: State, d: Step, s4: State, e: Step,
                  t: State)
    requires Enabled(s, a) && Next(s, a) == s1 && Enabled(s1, b) && Next(s1, b) == s2 && Enabled(s2, c)
             && Next(s2, c) == s3
    requires Enabled(s3, d) && Next(s3, d) == s4 && Enabled(s4, e) && Next(s4, e) == t
    ensures Plays(s, [a, b, c, d, e], t)
  {
    hide Enabled, Next, Plays;
    assert [e] + [] == [e] && [d] + [e] == [d, e] && [c] + [d, e] == [c, d, e];
    assert [b] + [c, d, e] == [b, c, d, e] && [a] + [b, c, d, e] == [a, b, c, d, e];
    PlayMore(s4, e, [], t, t);
    PlayMore(s3, d, [e], s4, t);
    PlayMore(s2, c, [d, e], s3, t);
    PlayMore(s1, b, [c, d, e], s2, t);
    PlayMore(s, a, [b, c, d, e], s1, t);
  }

  lemma PlayMore(s: State, step: Step, rest: seq<Step>, mid: State, t: State)
    requires Enabled(s, step) && Next(s, step) == mid && (if rest == [] then mid == t else Plays(mid, rest, t))
    ensures Plays(s, [step] + rest, t)
  {
    hide Enabled, Next;
    assert ([step] + rest)[1..] == rest;
  }

  /** One accepted input of a submission. */
  lemma SubmissionTurn(s: State, req: nat, ctx: D.Context, i: D.Input, ir: Option<Json>, t: D.Turn)
    requires Keyed(s.db) && D.Check(s.db, ctx, i) == Ok(ir)
    ensures Plays(s, Turn(req, i.anomalyId, ResolveCopy(req, D.VerdictFor(ctx, i, ir, t), t.updated)),
                  AfterTurn(s, req, D.Accept(s.db, ctx, i, ir, t)))
  {
    hide Saved, Plays, D.DecisionId;
    var v, c := D.VerdictFor(ctx, i, ir, t), Loaded(s.db, i.anomalyId).value;
    assert s.flights[req := Held(c)][req := Held(WithVerdict(c, v, t.updated))]
        == s.flights[req := Held(WithVerdict(c, v, t.updated))];
    TurnPlays(s, req, i.anomalyId, ResolveCopy(req, v, t.updated), WithVerdict(c, v, t.updated));
  }

  /** One stored suggestion of the webhook. */
  lemma WebhookTurn(s: State, req: nat, ctx: A.Context, i: A.Item, now: int)
    requires Keyed(s.db) && A.Counts(s.db, i)
    ensures Plays(s, Turn(req, i.anomalyId, SuggestCopy(req, A.Normalise(ctx, i.suggestion), now)),
                  AfterTurn(s, req, A.Suggest(s.db, ctx, i, now)))
  {
    hide Saved, Plays, A.Normalise;
    var text, c := A.Normalise(ctx, i.suggestion), Loaded(s.db, i.anomalyId).value;
    assert s.flights[req := Held(c)][req := Held(WithAi(c, text, now))] == s.flights[req := Held(WithAi(c, text, now))];
    TurnPlays(s, req, i.anomalyId, SuggestCopy(req, text, now), WithAi(c, text, now));
  }
}
