/** API requests, webhook requests and the worker over the shared tables, in every interleaving. */
module Protocol {
  import opened Store
  import opened Values

  /** A request's anomaly: row read but not yet its decision, or loaded and perhaps edited. */
  datatype Flight = RowRead(row: Row) | Held(copy: Copy)

  datatype State = State(db: Db, flights: map<nat, Flight>)

  /** The steps; each touches the tables at most once. */
  datatype Step =
    | Insert(batch: map<string, Row>)
    | Suggest(id: string, json: string)
    | ReadRow(req: nat, id: string)
    | ReadVerdict(req: nat)
    | ResolveCopy(req: nat, verdict: Verdict, now: int)
    | SuggestCopy(req: nat, text: string, now: int)
    | SaveCopy(req: nat)
    | Drop(req: nat)

  /** The worker inserts findings under fresh ids, all of them pending. */
  ghost predicate FreshBatch(db: Db, batch: map<string, Row>) {
    forall id :: id in batch ==> id !in db.rows && batch[id].id == id && batch[id].status.Pending?
  }

  ghost predicate Enabled(s: State, step: Step) {
    match step
    case Insert(batch) => FreshBatch(s.db, batch)
    case Suggest(_, _) => true
    case ReadRow(req, id) => id in s.db.rows
    case ReadVerdict(req) => req in s.flights && s.flights[req].RowRead?
    case ResolveCopy(req, v, _) => req in s.flights && s.flights[req].Held? && v.anomalyId == s.flights[req].copy.row.id
    case SuggestCopy(req, _, _) => req in s.flights && s.flights[req].Held?
    case SaveCopy(req) => req in s.flights && s.flights[req].Held?
    case Drop(req) => true
  }

  function Next(s: State, step: Step): State
    requires Enabled(s, step)
  {
    match step
    case Insert(batch) => s.(db := s.db.(rows := s.db.rows + batch))
    case Suggest(id, json) =>
      if id in s.db.rows then s.(db := s.db.(rows := s.db.rows[id := s.db.rows[id].(ai := Some(json))])) else s
    case ReadRow(req, id) => s.(flights := s.flights[req := RowRead(s.db.rows[id])])
    case ReadVerdict(req) =>
      var row := s.flights[req].row;
      s.(flights := s.flights[req := Held(Copy(row, VerdictOf(s.db, row.id)))])
    case ResolveCopy(req, v, now) => s.(flights := s.flights[req := Held(WithVerdict(s.flights[req].copy, v, now))])
    case SuggestCopy(req, text, now) => s.(flights := s.flights[req := Held(WithAi(s.flights[req].copy, text, now))])
    case SaveCopy(req) => s.(db := Saved(s.db, s.flights[req].copy))
    case Drop(req) => s.(flights := s.flights - {req})
  }

  /** A run: states joined by enabled steps, from empty tables and no request. */
  ghost predicate IsRun(run: seq<State>, steps: seq<Step>) {
    && |run| == |steps| + 1
    && run[0] == State(Db(map[], map[]), map[])
    && forall k :: 0 <= k < |steps| ==> Enabled(run[k], steps[k]) && run[k + 1] == Next(run[k], steps[k])
  }

  // ---------------------------------------------------------------------------------------------
  // Safety

  ghost predicate SafeRows(db: Db) {
    forall id :: id in db.rows && db.rows[id].status.Resolved? ==> id in db.verdicts
  }

  ghost predicate SafeFlight(db: Db, f: Flight) {
    match f
    case RowRead(row) => row.id in db.rows && (row.status.Resolved? ==> row.id in db.verdicts)
    case Held(c) =>
      && c.row.id in db.rows
      && (c.row.status.Resolved? ==> c.verdict.Some?)
      && (c.verdict.Some? ==> c.verdict.value.anomalyId == c.row.id)
  }

  /** A RESOLVED row has a stored decision, and a RESOLVED copy in flight carries or will find one. */
  ghost predicate Safe(s: State) {
    Keyed(s.db) && SafeRows(s.db) && forall req :: req in s.flights ==> SafeFlight(s.db, s.flights[req])
  }

  /** No row and no decision disappears, and a row stays with its dataset. */
  ghost predicate Grows(a: Db, b: Db) {
    && a.rows.Keys <= b.rows.Keys && a.verdicts.Keys <= b.verdicts.Keys
    && forall id :: id in a.rows ==> b.rows[id].finding == a.rows[id].finding
  }

  lemma FlightStaysSafe(a: Db, b: Db, f: Flight)
    requires Grows(a, b) && SafeFlight(a, f)
    ensures SafeFlight(b, f)
  {
  }

  lemma SaveIsSafe(s: State, req: nat)
    requires Safe(s) && Enabled(s, SaveCopy(req))
    ensures Safe(Next(s, SaveCopy(req))) && Grows(s.db, Next(s, SaveCopy(req)).db)
  {
    hide Saved, Keyed;
    var t := Next(s, SaveCopy(req));
    assert SafeFlight(s.db, s.flights[req]);
    SaveEffect(s.db, s.flights[req].copy);
    forall r | r in t.flights
      ensures SafeFlight(t.db, t.flights[r])
    {
      FlightStaysSafe(s.db, t.db, t.flights[r]);
    }
  }

  lemma StepIsSafe(s: State, step: Step)
    requires Safe(s) && Enabled(s, step)
    ensures Safe(Next(s, step)) && Grows(s.db, Next(s, step).db)
  {
    hide Saved;
    var t := Next(s, step);
    match step
    case Insert(batch) =>
      forall r | r in t.flights
        ensures SafeFlight(t.db, t.flights[r])
      {
        FlightStaysSafe(s.db, t.db, t.flights[r]);
      }
    case Suggest(_, _) =>
      forall r | r in t.flights
        ensures SafeFlight(t.db, t.flights[r])
      {
        FlightStaysSafe(s.db, t.db, t.flights[r]);
      }
    case SaveCopy(req) => SaveIsSafe(s, req);
    case _ => FlightIsSafe(s, step);
  }

  /** The other steps leave the tables alone. */
  lemma FlightIsSafe(s: State, step: Step)
    requires Safe(s) && Enabled(s, step) && !step.Insert? && !step.Suggest? && !step.SaveCopy?
    ensures Safe(Next(s, step)) && Grows(s.db, Next(s, step).db)
  {
    hide Saved;
  }

  /** Under every interleaving, at every moment, the tables and the copies in flight are safe. */
  lemma {:induction false} RunIsSafe(run: seq<State>, steps: seq<Step>, j: nat)
    requires IsRun(run, steps) && j < |run|
    ensures Safe(run[j])
  {
    if j > 0 {
      RunIsSafe(run, steps, j - 1);
      StepIsSafe(run[j - 1], steps[j - 1]);
    }
  }

  lemma {:induction false} RunGrows(run: seq<State>, steps: seq<Step>, i: nat, j: nat)
    requires IsRun(run, steps) && i <= j < |run|
    ensures Grows(run[i].db, run[j].db)
  {
    hide Safe, Enabled, Next;
    if i < j {
      RunGrows(run, steps, i, j - 1);
      RunIsSafe(run, steps, j - 1);
      StepIsSafe(run[j - 1], steps[j - 1]);
    }
  }

  /**
   * Once a poll sees no pending anomaly, the decisions read at any later moment cover every anomaly
   * the dataset had at the poll, even if a stale save has reopened some of them since.
   */
  lemma PollCovers(run: seq<State>, steps: seq<Step>, i: nat, j: nat, dataset: string)
    requires IsRun(run, steps) && i <= j < |run| && PendingIn(run[i].db, dataset) == {}
    ensures forall id :: id in run[i].db.rows && run[i].db.rows[id].finding.datasetId == dataset ==>
              id in run[j].db.verdicts && run[j].db.verdicts[id] in DecisionsOf(run[j].db, dataset)
                                       && run[j].db.verdicts[id].anomalyId == id
  {
    RunIsSafe(run, steps, i);
    RunIsSafe(run, steps, j);
    RunGrows(run, steps, i, j);
    forall id | id in run[i].db.rows && run[i].db.rows[id].finding.datasetId == dataset
      ensures id in run[j].db.verdicts
    {
      assert id !in PendingIn(run[i].db, dataset);
    }
  }

  // ---------------------------------------------------------------------------------------------
  // Stale saves

  function RowOf(f: Flight): Row {
    match f
    case RowRead(row) => row
    case Held(c) => c.row
  }

  predicate PendingAt(s: State, id: string) {
    id in s.db.rows && s.db.rows[id].status.Pending?
  }

  predicate ResolvedAt(s: State, id: string) {
    id in s.db.rows && s.db.rows[id].status.Resolved?
  }

  /** Steps that take a request's copy away, replace it or resolve it. */
  predicate Refreshes(step: Step, req: nat) {
    (step.ReadRow? || step.ResolveCopy? || step.Drop?) && step.req == req
  }

  /**
   * Request `req` read row `id` at moment `k`, pending at the time, and has kept that copy unresolved up to
   * moment `j`.
   */
  ghost predicate StaleSince(run: seq<State>, steps: seq<Step>, k: nat, j: nat, req: nat, id: string)
    requires k < j < |run| && |run| == |steps| + 1
  {
    && steps[k] == ReadRow(req, id) && PendingAt(run[k], id)
    && forall m :: k < m < j ==> !Refreshes(steps[m], req)
  }

  ghost predicate HoldsStale(run: seq<State>, steps: seq<Step>, j: nat, req: nat, id: string)
    requires j < |run| && |run| == |steps| + 1
  {
    exists k :: 0 <= k < j && StaleSince(run, steps, k, j, req, id)
  }

  /** Request `req` has a copy of row `id` that says PENDING. */
  predicate CopyPending(s: State, req: nat, id: string) {
    req in s.flights && RowOf(s.flights[req]).id == id && RowOf(s.flights[req]).status.Pending?
  }

  /** What one step does to the pending copies of a request. */
  lemma CopyStep(s: State, step: Step, req: nat, id: string)
    requires Keyed(s.db) && Enabled(s, step)
    ensures CopyPending(Next(s, step), req, id)
            <==> if step.ReadRow? && step.req == req then step.id == id && PendingAt(s, id)
                 else CopyPending(s, req, id) && !Refreshes(step, req)
  {
    hide Saved;
  }

  /** A copy says PENDING exactly while it stems from a read of the pending row and nothing has refreshed it. */
  lemma {:induction false} PendingCopiesAreStale(run: seq<State>, steps: seq<Step>, j: nat, req: nat, id: string)
    requires IsRun(run, steps) && j < |run|
    ensures CopyPending(run[j], req, id) <==> HoldsStale(run, steps, j, req, id)
  {
    if j == 0 {
      return;
    }
    PendingCopiesAreStale(run, steps, j - 1, req, id);
    RunIsSafe(run, steps, j - 1);
    CopyStep(run[j - 1], steps[j - 1], req, id);
    assert run[j] == Next(run[j - 1], steps[j - 1]);
    StaleStep(run, steps, j, req, id);
  }

  lemma StaleStep(run: seq<State>, steps: seq<Step>, j: nat, req: nat, id: string)
    requires 0 < j < |run| && |run| == |steps| + 1
    ensures HoldsStale(run, steps, j, req, id)
            <==> if steps[j - 1].ReadRow? && steps[j - 1].req == req
                 then steps[j - 1].id == id && PendingAt(run[j - 1], id)
                 else HoldsStale(run, steps, j - 1, req, id) && !Refreshes(steps[j - 1], req)
  {
    hide PendingAt;
    var step := steps[j - 1];
    if HoldsStale(run, steps, j, req, id) {
      var k :| 0 <= k < j && StaleSince(run, steps, k, j, req, id);
      if k < j - 1 {
        assert StaleSince(run, steps, k, j - 1, req, id);
      }
    }
    if step == ReadRow(req, id) && PendingAt(run[j - 1], id) {
      assert StaleSince(run, steps, j - 1, j, req, id);
    }
    if HoldsStale(run, steps, j - 1, req, id) && !Refreshes(step, req) {
      var k :| 0 <= k < j - 1 && StaleSince(run, steps, k, j - 1, req, id);
      assert StaleSince(run, steps, k, j, req, id);
    }
  }

  /**
   * A resolved anomaly turns pending again exactly when a request saves a copy that it read while the row
   * was pending and has neither read again nor resolved since.
   */
  lemma ReopenedByStaleCopy(run: seq<State>, steps: seq<Step>, i: nat, id: string)
    requires IsRun(run, steps) && i < |steps| && ResolvedAt(run[i], id)
    ensures PendingAt(run[i + 1], id) <==> steps[i].SaveCopy? && HoldsStale(run, steps, i, steps[i].req, id)
  {
    RunIsSafe(run, steps, i);
    var s, step := run[i], steps[i];
    if step.SaveCopy? {
      PendingCopiesAreStale(run, steps, i, step.req, id);
      hide HoldsStale, Saved;
      assert SafeFlight(s.db, s.flights[step.req]);
      SaveEffect(s.db, s.flights[step.req].copy);
    }
  }

  /**
   * An anomaly's suggestion becomes another exactly when the worker stores one, or a request saves a copy that
   * holds another: a copy read before the worker stored it takes the suggestion back.
   */
  lemma SuggestionChangesExactly(run: seq<State>, steps: seq<Step>, i: nat, id: string)
    requires IsRun(run, steps) && i < |steps| && id in run[i].db.rows
    ensures id in run[i + 1].db.rows
    ensures forall ai :: ai != run[i].db.rows[id].ai ==>
              (run[i + 1].db.rows[id].ai == ai <==> Stores(run[i], steps[i], id, ai))
  {
    RunIsSafe(run, steps, i);
    StepIsSafe(run[i], steps[i]);
    var s, step := run[i], steps[i];
    if step.SaveCopy? {
      assert SafeFlight(s.db, s.flights[step.req]);
    }
  }

  ghost predicate Stores(s: State, step: Step, id: string, ai: Option<string>) {
    || (step.Suggest? && step.id == id && ai == Some(step.json))
    || (step.SaveCopy? && step.req in s.flights && s.flights[step.req].Held?
        && s.flights[step.req].copy.row.id == id && s.flights[step.req].copy.row.ai == ai)
  }

  /** A webhook request loads the anomaly, a submission resolves it, and the webhook saves its copy. */
  function StaleSteps(r: Row, v: Verdict, text: string, now: int): seq<Step> {
    [Insert(map[r.id := r]), ReadRow(1, r.id), ReadVerdict(1), ReadRow(2, r.id), ReadVerdict(2),
     ResolveCopy(2, v, now), SaveCopy(2), SuggestCopy(1, text, now), SaveCopy(1)]
  }

  function StaleRun(r: Row, v: Verdict, text: string, now: int): seq<State> {
    var read, resolved := Copy(r, None), WithVerdict(Copy(r, None), v, now);
    var suggested := WithAi(read, text, now);
    var d0, d1 := Db(map[], map[]), Db(map[r.id := r], map[]);
    var d2, d3 := Db(map[r.id := resolved.row], map[r.id := v]), Db(map[r.id := suggested.row], map[r.id := v]);
    [State(d0, map[]), State(d1, map[]), State(d1, map[1 := RowRead(r)]), State(d1, map[1 := Held(read)]),
     State(d1, map[1 := Held(read), 2 := RowRead(r)]), State(d1, map[1 := Held(read), 2 := Held(read)]),
     State(d1, map[1 := Held(read), 2 := Held(resolved)]), State(d2, map[1 := Held(read), 2 := Held(resolved)]),
     State(d2, map[1 := Held(suggested), 2 := Held(resolved)]),
     State(d3, map[1 := Held(suggested), 2 := Held(resolved)])]
  }

  /** For any anomaly and any decision on it the stale webhook save reopens it; the decision stays. */
  lemma StaleSaveReopens(r: Row, v: Verdict, text: string, now: int)
    requires r.status.Pending? && v.anomalyId == r.id
    ensures IsRun(StaleRun(r, v, text, now), StaleSteps(r, v, text, now))
    ensures PendingIn(StaleRun(r, v, text, now)[7].db, r.finding.datasetId) == {}
    ensures PendingIn(StaleRun(r, v, text, now)[9].db, r.finding.datasetId) == {r.id}
    ensures StaleRun(r, v, text, now)[9].db.verdicts == map[r.id := v]
  {
    var run, steps := StaleRun(r, v, text, now), StaleSteps(r, v, text, now);
    forall k | 0 <= k < |steps|
      ensures Enabled(run[k], steps[k]) && run[k + 1] == Next(run[k], steps[k])
    {
      hide Saved;
      if k < 5 {
        StaleReads(r, v, text, now, k);
      } else {
        StaleWrites(r, v, text, now, k);
      }
    }
    hide Enabled, Next, Saved;
  }

  lemma StaleReads(r: Row, v: Verdict, text: string, now: int, k: nat)
    requires r.status.Pending? && v.anomalyId == r.id && k < 5
    ensures var run, steps := StaleRun(r, v, text, now), StaleSteps(r, v, text, now);
            Enabled(run[k], steps[k]) && run[k + 1] == Next(run[k], steps[k])
  {
    hide Saved;
    assert k == 0 || k == 1 || k == 2 || k == 3 || k == 4;
  }

  lemma StaleWrites(r: Row, v: Verdict, text: string, now: int, k: nat)
    requires r.status.Pending? && v.anomalyId == r.id && 5 <= k < 9
    ensures var run, steps := StaleRun(r, v, text, now), StaleSteps(r, v, text, now);
            Enabled(run[k], steps[k]) && run[k + 1] == Next(run[k], steps[k])
  {
    hide Saved;
    var read := Copy(r, None);
    SaveOver(r, r, WithVerdict(read, v, now), v, map[]);
    SaveOver(r, WithVerdict(read, v, now).row, WithAi(read, text, now), v, map[r.id := v]);
    assert k == 5 || k == 6 || k == 7 || k == 8;
  }

  lemma SaveOver(r: Row, current: Row, c: Copy, v: Verdict, verdicts: map<string, Verdict>)
    requires current.id == r.id == c.row.id == v.anomalyId && current.finding == c.row.finding
    requires if c.verdict.Some? then c.verdict.value == v && verdicts == map[] else verdicts == map[r.id := v]
    ensures Saved(Db(map[r.id := current], verdicts), c) == Db(map[r.id := c.row], map[r.id := v])
  {
  }
}
