/** The API's submission of human decisions: a loop that checks, resolves and saves one anomaly at a time. */
module SubmitDecisions {
  import opened Store
  import opened Values
  import Decisions
  import IR
  import IRValidator

  datatype Input = Input(anomalyId: string, action: Decisions.Action, correction: Option<string>, ir: Option<Json>,
                         source: Option<string>, rawText: Option<string>)

  datatype SubmitError =
    | BlankDatasetId
    | DatasetNotFound
    | NoDecisions
    | AnomalyNotFound(id: string)
    | WrongDataset(id: string)
    | InvalidTree(id: string)

  /** What one turn takes from the clock: the stamp in the decision's id, its date and the row's. */
  datatype Turn = Turn(stamp: string, created: int, updated: int)

  datatype Context = Context(dataset: string, user: string, columns: seq<(string, string)>, names: IRValidator.Names,
                             clock: nat -> Turn)

  /** The checks on one input; the result is the validated tree. */
  function Check(db: Db, ctx: Context, i: Input): Result<Option<Json>, SubmitError> {
    if i.anomalyId !in db.rows then Err(AnomalyNotFound(i.anomalyId))
    else if db.rows[i.anomalyId].finding.datasetId != ctx.dataset then Err(WrongDataset(i.anomalyId))
    else if i.ir.None? || i.ir.value.JNull? then Ok(None)
    else
      match IRValidator.Validate(i.ir.value, ctx.columns, ctx.names)
      case Ok(n) => Ok(Some(IR.Encode(n)))
      case Err(_) => Err(InvalidTree(i.anomalyId))
  }

  /** The document carries the tree `n`, well typed against the dataset's columns and of height at most three. */
  ghost predicate IsTree(ctx: Context, doc: Json, n: IR.Node) {
    IRValidator.Carries(doc, n) && IRValidator.Typed(n, IRValidator.ToMap(ctx.columns), ctx.names) && IR.Height(n) <= 3
  }

  ghost predicate NoTree(ir: Option<Json>) {
    ir == None || ir == Some(JNull)
  }

  /** The input names a stored anomaly of this dataset, and its tree is absent, null or a tree. */
  ghost predicate Good(db: Db, ctx: Context, i: Input) {
    && i.anomalyId in db.rows && db.rows[i.anomalyId].finding.datasetId == ctx.dataset
    && (NoTree(i.ir) || exists n :: IsTree(ctx, i.ir.value, n))
  }

  /** What is stored for the input's tree: nothing, or the encoding of the tree that it carries. */
  ghost predicate Stores(ctx: Context, ir: Option<Json>, stored: Option<Json>) {
    if NoTree(ir) then stored == None
    else exists n :: IsTree(ctx, ir.value, n) && stored == Some(IR.Encode(n))
  }

  /** Why an input is refused. */
  function Reason(db: Db, ctx: Context, i: Input): SubmitError {
    if i.anomalyId !in db.rows then AnomalyNotFound(i.anomalyId)
    else if db.rows[i.anomalyId].finding.datasetId == ctx.dataset then InvalidTree(i.anomalyId)
    else WrongDataset(i.anomalyId)
  }

  /** The checks let exactly the good inputs through. */
  lemma CheckExactly(db: Db, ctx: Context, i: Input)
    ensures Check(db, ctx, i).Ok? <==> Good(db, ctx, i)
    ensures match Check(db, ctx, i)
            case Ok(stored) => Stores(ctx, i.ir, stored)
            case Err(e) => e == Reason(db, ctx, i)
  {
    hide IRValidator.Validate, IRValidator.Carries, IRValidator.Typed, IR.Encode;
    if !NoTree(i.ir) {
      var doc := i.ir.value;
      var v := IRValidator.Validate(doc, ctx.columns, ctx.names);
      forall n
        ensures v == Ok(n) <==> IsTree(ctx, doc, n)
      {
        IRValidator.AcceptanceExact(doc, ctx.columns, ctx.names, n);
      }
    }
  }

  /** Rows and decisions of other datasets are the same. */
  ghost predicate OtherDatasetsKept(a: Db, b: Db, dataset: string) {
    forall id :: id in a.rows && a.rows[id].finding.datasetId != dataset ==>
      id in b.rows && b.rows[id] == a.rows[id] && VerdictOf(b, id) == VerdictOf(a, id)
  }

  function DecisionId(i: Input, t: Turn): string {
    "dec-" + i.anomalyId + "-" + t.stamp
  }

  function VerdictFor(ctx: Context, i: Input, ir: Option<Json>, t: Turn): Verdict {
    Verdict(DecisionId(i, t), i.anomalyId, i.action, i.correction, ir, i.source, i.rawText, ctx.user, t.created)
  }

  /** One accepted input. */
  function Accept(db: Db, ctx: Context, i: Input, ir: Option<Json>, t: Turn): Db
    requires i.anomalyId in db.rows
  {
    Saved(db, WithVerdict(Loaded(db, i.anomalyId).value, VerdictFor(ctx, i, ir, t), t.updated))
  }

  /** The loop: the tables after it, and the error that ended it. */
  function SubmitAll(db: Db, ctx: Context, inputs: seq<Input>): (Db, Option<SubmitError>) {
    if inputs == [] then (db, None)
    else
      var n := |inputs| - 1;
      var (mid, err) := SubmitAll(db, ctx, inputs[..n]);
      if err.Some? then (mid, err)
      else
        match Check(mid, ctx, inputs[n])
        case Err(e) => (mid, Some(e))
        case Ok(ir) => (Accept(mid, ctx, inputs[n], ir, ctx.clock(n)), None)
  }

  // ---------------------------------------------------------------------------------------------
  // The use case

  datatype DatasetRow = DatasetRow(storageKey: string, filename: string, columns: seq<(string, string)>,
                                   processing: bool)

  datatype Job = Job(jobId: string, dataset: string, user: string, storageKey: string, filename: string)

  datatype Reply = Reply(anomalyId: string, action: Decisions.Action, decisionId: string)

  function Replies(inputs: seq<Input>, clock: nat -> Turn): (r: seq<Reply>)
    ensures |r| == |inputs|
  {
    seq(|inputs|, k requires 0 <= k < |inputs| =>
      Reply(inputs[k].anomalyId, inputs[k].action, "dec-" + inputs[k].anomalyId + "-" + clock(k).stamp))
  }

  predicate Blank(s: string, names: IRValidator.Names) {
    s == "" || names.blank(s)
  }

  class JobQueue {
    var jobs: seq<Job>

    method Enqueue(j: Job)
      modifies this
      ensures jobs == old(jobs) + [j]
    {
      jobs := jobs + [j];
    }
  }

  class DatasetRepository {
    var rows: map<string, DatasetRow>

    method MarkProcessing(id: string)
      requires id in rows
      modifies this
      ensures rows == old(rows)[id := old(rows)[id].(processing := true)]
    {
      rows := rows[id := rows[id].(processing := true)];
    }
  }

  class SubmitDecisionsUseCase {
    const anomalies: AnomalyRepository
    const datasets: DatasetRepository
    const queue: JobQueue

    constructor (anomalies: AnomalyRepository, datasets: DatasetRepository, queue: JobQueue)
      ensures this.anomalies == anomalies && this.datasets == datasets && this.queue == queue
    {
      this.anomalies, this.datasets, this.queue := anomalies, datasets, queue;
    }

    /** The processing job is queued, and the dataset marked, exactly when every input was accepted. */
    method Execute(datasetId: string, user: string, inputs: seq<Input>, names: IRValidator.Names, clock: nat -> Turn,
                   jobId: string)
      returns (r: Result<seq<Reply>, SubmitError>)
      modifies anomalies, datasets, queue
      ensures var known := !Blank(datasetId, names) && datasetId in old(datasets.rows) && inputs != [];
              if !known then
                && r == Err(if Blank(datasetId, names) then BlankDatasetId
                            else if datasetId !in old(datasets.rows) then DatasetNotFound else NoDecisions)
                && unchanged(anomalies) && unchanged(datasets) && unchanged(queue)
              else
                var d := old(datasets.rows)[datasetId];
                var ctx := Context(datasetId, user, d.columns, names, clock);
                var (after, err) := SubmitAll(old(anomalies.Content()), ctx, inputs);
                && anomalies.Content() == after
                && r == (if err.Some? then Err(err.value) else Ok(Replies(inputs, clock)))
                && queue.jobs == old(queue.jobs)
                   + (if r.Ok? then [Job(jobId, datasetId, user, d.storageKey, d.filename)] else [])
                && datasets.rows == (if r.Ok? then old(datasets.rows)[datasetId := d.(processing := true)]
                                     else old(datasets.rows))
                && (Keyed(old(anomalies.Content())) ==>
                      && (r.Ok? <==> AllGood(old(anomalies.Content()), ctx, inputs))
                      && OtherDatasetsKept(old(anomalies.Content()), anomalies.Content(), datasetId))
    {
      if Blank(datasetId, names) {
        return Err(BlankDatasetId);
      }
      if datasetId !in datasets.rows {
        return Err(DatasetNotFound);
      }
      if inputs == [] {
        return Err(NoDecisions);
      }
      var d := datasets.rows[datasetId];
      var ctx := Context(datasetId, user, d.columns, names, clock);
      ghost var before := anomalies.Content();
      var results, err := SubmitLoop(ctx, inputs);
      if Keyed(before) {
        SubmitStoresTheLeading(before, ctx, inputs);
        SubmitKeepsOthers(before, ctx, inputs);
      }
      hide AllGood, SubmitAll, OtherDatasetsKept, Keyed;
      if err.Some? {
        return Err(err.value);
      }
      queue.Enqueue(Job(jobId, datasetId, user, d.storageKey, d.filename));
      datasets.MarkProcessing(datasetId);
      return Ok(results);
    }

    method SubmitLoop(ctx: Context, inputs: seq<Input>) returns (results: seq<Reply>, err: Option<SubmitError>)
      modifies anomalies
      ensures (anomalies.Content(), err) == SubmitAll(old(anomalies.Content()), ctx, inputs)
      ensures err.None? ==> results == Replies(inputs, ctx.clock)
    {
      hide Check, Accept;
      results := [];
      for k := 0 to |inputs|
        invariant SubmitAll(old(anomalies.Content()), ctx, inputs[..k]) == (anomalies.Content(), None)
        invariant results == Replies(inputs[..k], ctx.clock)
      {
        assert inputs[..k + 1][..k] == inputs[..k];
        err := SubmitOne(ctx, inputs[k], ctx.clock(k));
        if err.Some? {
          ErrorEndsLoop(old(anomalies.Content()), ctx, inputs, k);
          return;
        }
        results := results + [Reply(inputs[k].anomalyId, inputs[k].action, DecisionId(inputs[k], ctx.clock(k)))];
      }
      assert inputs[..|inputs|] == inputs;
      err := None;
    }

    method SubmitOne(ctx: Context, i: Input, t: Turn) returns (err: Option<SubmitError>)
      modifies anomalies
      ensures match Check(old(anomalies.Content()), ctx, i)
              case Err(e) => err == Some(e) && anomalies.Content() == old(anomalies.Content())
              case Ok(ir) => err.None? && anomalies.Content() == Accept(old(anomalies.Content()), ctx, i, ir, t)
    {
      var anomaly := anomalies.FindById(i.anomalyId);
      if anomaly == null {
        return Some(AnomalyNotFound(i.anomalyId));
      }
      if anomaly.row.finding.datasetId != ctx.dataset {
        return Some(WrongDataset(i.anomalyId));
      }
      var validated: Option<Json> := None;
      if i.ir.Some? && !i.ir.value.JNull? {
        var v := IRValidator.Validate(i.ir.value, ctx.columns, ctx.names);
        if v.Err? {
          return Some(InvalidTree(i.anomalyId));
        }
        validated := Some(IR.Encode(v.value));
      }
      anomaly.Resolve(VerdictFor(ctx, i, validated, t), t.updated);
      anomalies.Save(anomaly);
      err := None;
    }
  }

  lemma {:induction false} ErrorEndsLoop(db: Db, ctx: Context, inputs: seq<Input>, k: nat)
    requires k < |inputs| && SubmitAll(db, ctx, inputs[..k + 1]).1.Some?
    ensures SubmitAll(db, ctx, inputs) == SubmitAll(db, ctx, inputs[..k + 1])
  {
    if k + 1 == |inputs| {
      assert inputs[..k + 1] == inputs;
    } else {
      assert inputs[..|inputs| - 1][..k + 1] == inputs[..k + 1];
      ErrorEndsLoop(db, ctx, inputs[..|inputs| - 1], k);
    }
  }

  // ---------------------------------------------------------------------------------------------
  // What a submission leaves behind

  ghost predicate AllGood(db: Db, ctx: Context, inputs: seq<Input>) {
    forall k :: 0 <= k < |inputs| ==> Good(db, ctx, inputs[k])
  }

  /** Same anomalies, same findings: every later check comes out the same. */
  ghost predicate SameFindings(a: Db, b: Db) {
    b.rows.Keys == a.rows.Keys && forall id :: id in a.rows ==> b.rows[id].finding == a.rows[id].finding
  }

  lemma AcceptEffect(db: Db, ctx: Context, i: Input, ir: Option<Json>, t: Turn)
    requires Keyed(db) && i.anomalyId in db.rows
    ensures var after, id := Accept(db, ctx, i, ir, t), i.anomalyId;
            && Keyed(after) && SameFindings(db, after)
            && after.rows == db.rows[id := db.rows[id].(status := Resolved, updatedAt := t.updated)]
            && after.verdicts == StoreVerdict(db.verdicts, id, VerdictFor(ctx, i, ir, t))
  {
  }

  lemma {:induction false} SubmitKeepsFindings(db: Db, ctx: Context, inputs: seq<Input>)
    requires Keyed(db)
    ensures Keyed(SubmitAll(db, ctx, inputs).0) && SameFindings(db, SubmitAll(db, ctx, inputs).0)
    ensures forall i :: Check(SubmitAll(db, ctx, inputs).0, ctx, i) == Check(db, ctx, i)
  {
    hide Accept, IRValidator.Validate, IR.Encode;
    if inputs != [] {
      var n := |inputs| - 1;
      SubmitKeepsFindings(db, ctx, inputs[..n]);
      var (mid, err) := SubmitAll(db, ctx, inputs[..n]);
      var c := Check(mid, ctx, inputs[n]);
      if err.None? && c.Ok? {
        AcceptEffect(mid, ctx, inputs[n], c.value, ctx.clock(n));
      }
    }
  }

  /** How many inputs from the front are good against the tables as they were. */
  ghost function Leading(db: Db, ctx: Context, inputs: seq<Input>): (n: nat)
    ensures n <= |inputs|
    ensures forall k :: 0 <= k < n ==> Good(db, ctx, inputs[k])
    ensures n < |inputs| ==> !Good(db, ctx, inputs[n])
  {
    if inputs == [] then 0
    else
      var n := Leading(db, ctx, inputs[..|inputs| - 1]);
      if n == |inputs| - 1 && Good(db, ctx, inputs[n]) then n + 1 else n
  }

  /**
   * The submission is not one transaction: it stores exactly the inputs in front of the first bad
   * one, whose error it reports, and it succeeds if and only if every input was good to begin with.
   */
  lemma {:induction false} SubmitStoresTheLeading(db: Db, ctx: Context, inputs: seq<Input>)
    requires Keyed(db)
    ensures var n := Leading(db, ctx, inputs);
            SubmitAll(db, ctx, inputs)
            == (SubmitAll(db, ctx, inputs[..n]).0, if n < |inputs| then Some(Reason(db, ctx, inputs[n])) else None)
    ensures SubmitAll(db, ctx, inputs).1.None? <==> AllGood(db, ctx, inputs)
  {
    hide Accept, Check, Good, Reason;
    var n := Leading(db, ctx, inputs);
    if inputs != [] {
      var m := |inputs| - 1;
      SubmitStoresTheLeading(db, ctx, inputs[..m]);
      SubmitKeepsFindings(db, ctx, inputs[..m]);
      CheckExactly(db, ctx, inputs[m]);
      if n == |inputs| {
        assert inputs[..n] == inputs && inputs[..m][..m] == inputs[..m];
      } else {
        assert inputs[..m][..n] == inputs[..n];
      }
    }
  }

  /**
   * Whatever is submitted and wherever it stops: an anomaly of another dataset, and one that no input names,
   * keeps its row and its decision.
   */
  lemma {:induction false} OthersUntouched(db: Db, ctx: Context, inputs: seq<Input>, id: string)
    requires Keyed(db) && id in db.rows
    requires db.rows[id].finding.datasetId != ctx.dataset || forall k :: 0 <= k < |inputs| ==> inputs[k].anomalyId != id
    ensures var after := SubmitAll(db, ctx, inputs).0;
            id in after.rows && after.rows[id] == db.rows[id] && VerdictOf(after, id) == VerdictOf(db, id)
  {
    hide Accept, Check;
    if inputs != [] {
      var n := |inputs| - 1;
      OthersUntouched(db, ctx, inputs[..n], id);
      SubmitKeepsFindings(db, ctx, inputs[..n]);
      var (mid, err) := SubmitAll(db, ctx, inputs[..n]);
      CheckExactly(mid, ctx, inputs[n]);
      if err.None? && Check(mid, ctx, inputs[n]).Ok? {
        AcceptEffect(mid, ctx, inputs[n], Check(mid, ctx, inputs[n]).value, ctx.clock(n));
      }
    }
  }

  lemma SubmitKeepsOthers(db: Db, ctx: Context, inputs: seq<Input>)
    requires Keyed(db)
    ensures OtherDatasetsKept(db, SubmitAll(db, ctx, inputs).0, ctx.dataset)
  {
    hide SubmitAll;
    forall id | id in db.rows && db.rows[id].finding.datasetId != ctx.dataset
      ensures var after := SubmitAll(db, ctx, inputs).0;
              id in after.rows && after.rows[id] == db.rows[id] && VerdictOf(after, id) == VerdictOf(db, id)
    {
      OthersUntouched(db, ctx, inputs, id);
    }
  }

  /** A decision is as it was, or holds what is stored for the tree of an input about its anomaly. */
  ghost predicate Accounted(db: Db, ctx: Context, inputs: seq<Input>, v: Verdict, id: string) {
    VerdictOf(db, id) == Some(v)
    || exists k :: 0 <= k < |inputs| && inputs[k].anomalyId == id && Stores(ctx, inputs[k].ir, v.ir)
  }

  /** No tree is stored but the encoding of one that a submitted document carries. */
  lemma {:induction false} OnlyTreesAreStored(db: Db, ctx: Context, inputs: seq<Input>, id: string)
    requires Keyed(db) && id in SubmitAll(db, ctx, inputs).0.verdicts
    ensures Accounted(db, ctx, inputs, SubmitAll(db, ctx, inputs).0.verdicts[id], id)
  {
    hide Accept, Check, Accounted;
    if inputs == [] {
      AsItWas(db, ctx, id);
      return;
    }
    var n := |inputs| - 1;
    SubmitKeepsFindings(db, ctx, inputs[..n]);
    var (mid, err) := SubmitAll(db, ctx, inputs[..n]);
    if id in mid.verdicts {
      OnlyTreesAreStored(db, ctx, inputs[..n], id);
      MoreInputs(db, ctx, inputs, mid.verdicts[id], id);
    }
    CheckExactly(mid, ctx, inputs[n]);
    if err.None? && Check(mid, ctx, inputs[n]).Ok? {
      var ir := Check(mid, ctx, inputs[n]).value;
      AcceptEffect(mid, ctx, inputs[n], ir, ctx.clock(n));
      if id == inputs[n].anomalyId {
        LastInput(db, ctx, inputs, Accept(mid, ctx, inputs[n], ir, ctx.clock(n)).verdicts[id]);
      }
    }
  }

  lemma AsItWas(db: Db, ctx: Context, id: string)
    requires id in db.verdicts
    ensures Accounted(db, ctx, [], db.verdicts[id], id)
  {
  }

  lemma MoreInputs(db: Db, ctx: Context, inputs: seq<Input>, v: Verdict, id: string)
    requires inputs != [] && Accounted(db, ctx, inputs[..|inputs| - 1], v, id)
    ensures Accounted(db, ctx, inputs, v, id)
  {
    hide Stores;
  }

  lemma LastInput(db: Db, ctx: Context, inputs: seq<Input>, v: Verdict)
    requires inputs != [] && Stores(ctx, inputs[|inputs| - 1].ir, v.ir)
    ensures Accounted(db, ctx, inputs, v, inputs[|inputs| - 1].anomalyId)
  {
    hide Stores;
  }

  function LastFor(inputs: seq<Input>, id: string): (k: Option<nat>)
    ensures k.Some? ==> k.value < |inputs| && inputs[k.value].anomalyId == id
    ensures forall j :: 0 <= j < |inputs| && inputs[j].anomalyId == id ==> k.Some? && j <= k.value
  {
    if inputs == [] then None
    else if inputs[|inputs| - 1].anomalyId == id then Some(|inputs| - 1)
    else LastFor(inputs[..|inputs| - 1], id)
  }

  function FirstFor(inputs: seq<Input>, id: string): (k: Option<nat>)
    ensures k.Some? ==> k.value < |inputs| && inputs[k.value].anomalyId == id
    ensures forall j :: 0 <= j < |inputs| && inputs[j].anomalyId == id ==> k.Some? && k.value <= j
  {
    if inputs == [] then None
    else
      var k := FirstFor(inputs[..|inputs| - 1], id);
      if k.None? && inputs[|inputs| - 1].anomalyId == id then Some(|inputs| - 1) else k
  }

  /** Same stored identity: id, author and date. */
  ghost predicate SameIdentity(a: Verdict, b: Verdict) {
    a.id == b.id && a.anomalyId == b.anomalyId && a.userId == b.userId && a.createdAt == b.createdAt
  }

  /** The identity under which an input is stored first. */
  ghost predicate StoredFor(v: Verdict, ctx: Context, i: Input, t: Turn) {
    && v.id == "dec-" + i.anomalyId + "-" + t.stamp
    && v.anomalyId == i.anomalyId && v.userId == ctx.user && v.createdAt == t.created
  }

  /** Same decision, whoever stored it first. */
  ghost predicate Says(v: Verdict, ctx: Context, i: Input) {
    && v.action == i.action && v.correction == i.correction && v.source == i.source && v.rawText == i.rawText
    && Stores(ctx, i.ir, v.ir)
  }

  /** What became of anomaly `id`. */
  ghost predicate Settled(db: Db, ctx: Context, inputs: seq<Input>, after: Db, id: string)
    requires id in db.rows && id in after.rows
  {
    match LastFor(inputs, id)
    case None => after.rows[id] == db.rows[id] && VerdictOf(after, id) == VerdictOf(db, id)
    case Some(k) =>
      && after.rows[id] == db.rows[id].(status := Resolved, updatedAt := ctx.clock(k).updated)
      && id in after.verdicts
      && Says(after.verdicts[id], ctx, inputs[k])
      && if id in db.verdicts then SameIdentity(after.verdicts[id], db.verdicts[id])
         else
           var f := FirstFor(inputs, id).value;
           StoredFor(after.verdicts[id], ctx, inputs[f], ctx.clock(f))
  }

  /**
   * Each anomaly a good submission names is resolved with what its last input says, under the
   * identity of the first decision ever stored for it; every other anomaly is untouched.
   */
  lemma {:induction false} SubmitSettles(db: Db, ctx: Context, inputs: seq<Input>, id: string)
    requires Keyed(db) && AllGood(db, ctx, inputs) && id in db.rows
    ensures SubmitAll(db, ctx, inputs).1.None? && id in SubmitAll(db, ctx, inputs).0.rows
    ensures Settled(db, ctx, inputs, SubmitAll(db, ctx, inputs).0, id)
  {
    if inputs != [] {
      var n := |inputs| - 1;
      var init := inputs[..n];
      hide Accept, Check, DecisionId, Settled, Good, Stores;
      CheckExactly(db, ctx, inputs[n]);
      SubmitSettles(db, ctx, init, id);
      SubmitKeepsFindings(db, ctx, init);
      var mid := SubmitAll(db, ctx, init).0;
      var ir := Check(mid, ctx, inputs[n]).value;
      GoodIsStored(db, ctx, inputs[n]);
      AcceptEffect(mid, ctx, inputs[n], ir, ctx.clock(n));
      SettleOneMore(db, ctx, inputs, mid, Accept(mid, ctx, inputs[n], ir, ctx.clock(n)), id, ir);
    } else {
      NothingSettles(db, ctx, id);
    }
  }

  lemma NothingSettles(db: Db, ctx: Context, id: string)
    requires id in db.rows
    ensures Settled(db, ctx, [], db, id)
  {
  }

  lemma GoodIsStored(db: Db, ctx: Context, i: Input)
    ensures Good(db, ctx, i) ==> i.anomalyId in db.rows
  {
  }

  lemma SettleOneMore(db: Db, ctx: Context, inputs: seq<Input>, mid: Db, after: Db, id: string, ir: Option<Json>)
    requires inputs != []
    requires var n := |inputs| - 1;
             && id in db.rows && id in mid.rows && inputs[n].anomalyId in mid.rows
             && Settled(db, ctx, inputs[..n], mid, id) && Stores(ctx, inputs[n].ir, ir)
             && var i, t := inputs[n], ctx.clock(n);
                && after.rows == mid.rows[i.anomalyId :=
                                   mid.rows[i.anomalyId].(status := Resolved, updatedAt := t.updated)]
                && after.verdicts == StoreVerdict(mid.verdicts, i.anomalyId, VerdictFor(ctx, i, ir, t))
    ensures id in after.rows && Settled(db, ctx, inputs, after, id)
  {
    hide Stores;
  }

  /** A good submission takes exactly the anomalies it names off the dataset's pending list. */
  lemma SubmitClears(db: Db, ctx: Context, inputs: seq<Input>)
    requires Keyed(db) && AllGood(db, ctx, inputs)
    ensures PendingIn(SubmitAll(db, ctx, inputs).0, ctx.dataset)
            == PendingIn(db, ctx.dataset) - (set k | 0 <= k < |inputs| :: inputs[k].anomalyId)
  {
    hide SubmitAll, Check, AllGood;
    var after := SubmitAll(db, ctx, inputs).0;
    SubmitKeepsFindings(db, ctx, inputs);
    forall id | id in db.rows
      ensures id in PendingIn(after, ctx.dataset)
              <==> id in PendingIn(db, ctx.dataset) && forall k :: 0 <= k < |inputs| ==> inputs[k].anomalyId != id
    {
      SubmitSettles(db, ctx, inputs, id);
    }
  }
}
