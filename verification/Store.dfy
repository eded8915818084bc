/** The anomalies and decisions tables, and the API's entity and repository over them. */
module Store {
  import opened Values
  import Decisions

  datatype Status = Pending | Resolved

  /** A stored decision. */
  datatype Verdict = Verdict(id: string, anomalyId: string, action: Decisions.Action, correction: Option<string>,
                             ir: Option<Json>, source: Option<string>, rawText: Option<string>, userId: string,
                             createdAt: int)

  /** What the detector wrote about the anomaly; no update touches it. */
  datatype Finding = Finding(datasetId: string, column: string, count: Option<int>, kind: Decisions.AnomalyType,
                             description: string, original: Option<string>, suggested: Option<string>, createdAt: int)

  datatype Row = Row(id: string, finding: Finding, ai: Option<string>, status: Status, updatedAt: int)

  /** An anomaly in memory: the row as it was read, with the decision that was found for it. */
  datatype Copy = Copy(row: Row, verdict: Option<Verdict>)

  datatype Db = Db(rows: map<string, Row>, verdicts: map<string, Verdict>)

  function StoreRow(rows: map<string, Row>, r: Row): map<string, Row> {
    if r.id in rows then rows[r.id := rows[r.id].(status := r.status, ai := r.ai, updatedAt := r.updatedAt)]
    else rows[r.id := r]
  }

  /** An update keeps the identity, the author and the date of the stored decision. */
  function StoreVerdict(verdicts: map<string, Verdict>, id: string, v: Verdict): map<string, Verdict> {
    if id in verdicts then
      verdicts[id := verdicts[id].(action := v.action, correction := v.correction, ir := v.ir, source := v.source,
                                   rawText := v.rawText)]
    else verdicts[v.anomalyId := v]
  }

  /** One transaction over both tables. */
  function Saved(db: Db, c: Copy): Db {
    Db(StoreRow(db.rows, c.row),
       if c.verdict.Some? then StoreVerdict(db.verdicts, c.row.id, c.verdict.value) else db.verdicts)
  }

  function VerdictOf(db: Db, id: string): Option<Verdict> {
    if id in db.verdicts then Some(db.verdicts[id]) else None
  }

  function Loaded(db: Db, id: string): Option<Copy> {
    if id in db.rows then Some(Copy(db.rows[id], VerdictOf(db, id))) else None
  }

  function WithVerdict(c: Copy, v: Verdict, now: int): Copy {
    Copy(c.row.(status := Resolved, updatedAt := now), Some(v))
  }

  function WithAi(c: Copy, s: string, now: int): Copy {
    c.(row := c.row.(ai := Some(s), updatedAt := now))
  }

  /** The keys are the identities, and a decision belongs to a stored anomaly. */
  ghost predicate Keyed(db: Db) {
    && (forall id :: id in db.rows ==> db.rows[id].id == id)
    && (forall id :: id in db.verdicts ==> db.verdicts[id].anomalyId == id && id in db.rows)
  }

  function PendingIn(db: Db, dataset: string): set<string> {
    set id | id in db.rows && db.rows[id].finding.datasetId == dataset && db.rows[id].status.Pending?
  }

  function DecisionsOf(db: Db, dataset: string): set<Verdict> {
    set id | id in db.verdicts && id in db.rows && db.rows[id].finding.datasetId == dataset :: db.verdicts[id]
  }

  class Anomaly {
    var row: Row
    var verdict: Option<Verdict>

    constructor Reconstitute(c: Copy)
      ensures State() == c
    {
      row, verdict := c.row, c.verdict;
    }

    function State(): Copy
      reads this
    {
      Copy(row, verdict)
    }

    method Resolve(v: Verdict, now: int)
      modifies this
      ensures State() == WithVerdict(old(State()), v, now)
      ensures row.id == old(row.id) && row.finding == old(row.finding) && row.ai == old(row.ai)
    {
      row := row.(status := Resolved);
      verdict := Some(v);
      row := row.(updatedAt := now);
    }

    method SetAiSuggestion(s: string, now: int)
      modifies this
      ensures State() == WithAi(old(State()), s, now)
      ensures row.status == old(row.status) && verdict == old(verdict)
    {
      row := row.(ai := Some(s));
      row := row.(updatedAt := now);
    }
  }

  class AnomalyRepository {
    var rows: map<string, Row>
    var verdicts: map<string, Verdict>

    function Content(): Db
      reads this
    {
      Db(rows, verdicts)
    }

    method FindById(id: string) returns (a: Anomaly?)
      ensures a == null <==> Loaded(Content(), id) == None
      ensures a != null ==> fresh(a) && Some(a.State()) == Loaded(Content(), id)
    {
      if id !in rows {
        return null;
      }
      a := new Anomaly.Reconstitute(Copy(rows[id], VerdictOf(Content(), id)));
    }

    method Save(a: Anomaly)
      modifies this
      ensures Content() == Saved(old(Content()), a.State())
    {
      if a.row.id in rows {
        rows := rows[a.row.id := rows[a.row.id].(status := a.row.status, ai := a.row.ai, updatedAt := a.row.updatedAt)];
      } else {
        rows := rows[a.row.id := a.row];
      }
      if a.verdict.Some? {
        var v := a.verdict.value;
        if a.row.id in verdicts {
          verdicts := verdicts[a.row.id := verdicts[a.row.id].(action := v.action, correction := v.correction,
                                                               ir := v.ir,
                                                               source := v.source, rawText := v.rawText)];
        } else {
          verdicts := verdicts[v.anomalyId := v];
        }
      }
    }
  }

  /** What a save does to every row and every decision. */
  lemma SaveEffect(db: Db, c: Copy)
    requires Keyed(db) && c.row.id in db.rows && (c.verdict.Some? ==> c.verdict.value.anomalyId == c.row.id)
    ensures var after := Saved(db, c);
            && Keyed(after)
            && after.rows.Keys == db.rows.Keys
            && (forall id :: id in db.rows ==> after.rows[id].finding == db.rows[id].finding)
            && (forall id :: id in db.rows && id != c.row.id ==> after.rows[id] == db.rows[id])
            && after.rows[c.row.id].status == c.row.status
            && after.verdicts.Keys == db.verdicts.Keys + (if c.verdict.Some? then {c.row.id} else {})
            && (forall id :: id in db.verdicts && id != c.row.id ==> after.verdicts[id] == db.verdicts[id])
            && (forall id :: id in db.verdicts ==>
                  && after.verdicts[id].id == db.verdicts[id].id
                  && after.verdicts[id].userId == db.verdicts[id].userId
                  && after.verdicts[id].createdAt == db.verdicts[id].createdAt)
  {
  }
}
