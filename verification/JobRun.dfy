/** The worker's run over one job: its status writes, whatever fails on the way, and how they read back. */
module JobRun {

  datatype JobStatus = Pending | Queued | Processing | AwaitingReview | Completed | Failed | Cancelled

  /** The places where a run can raise. */
  datatype Place =
    | Download | Parse | Transform | LoadAnomalies | Detect | SaveAnomalies
    | Review | Serialise | Upload | Preview | Schema

  /**
   * One run's circumstances: what raises, whether a transformation reports failure, how many anomalies
   * are stored and how many detection finds, and which status updates raise.
   */
  datatype World = World(
    hasRepo: bool,
    raises: Place -> bool,
    hasTransformations: bool,
    transformationFails: bool,
    existing: nat,
    detected: nat,
    updateRaises: nat -> bool)

  datatype Event = Wrote(status: JobStatus) | Uploaded

  predicate Terminal(s: JobStatus) {
    s.Completed? || s.Failed? || s.Cancelled?
  }

  /** PROCESSING, then AWAITING_REVIEW or both it and PROCESSING again or neither, then one terminal status. */
  predicate Lifecycle(ws: seq<JobStatus>) {
    |ws| >= 2 && ws[0] == Processing && Terminal(ws[|ws| - 1])
    && ws[1..|ws| - 1] in {[], [AwaitingReview], [AwaitingReview, Processing]}
  }

  /** The status writes of a log. */
  function Statuses(log: seq<Event>): seq<JobStatus> {
    if log == [] then []
    else
      var init, e := Statuses(log[..|log| - 1]), log[|log| - 1];
      if e.Wrote? then init + [e.status] else init
  }

  lemma NoStatuses()
    ensures Statuses([]) == []
  {
  }

  /** COMPLETED is written only after the upload. */
  ghost predicate UploadFirst(log: seq<Event>) {
    forall k :: 0 <= k < |log| && log[k] == Wrote(Completed) ==> Uploaded in log[..k]
  }

  /** Every anomaly the run deals with: the stored ones, or else the detected ones. */
  function Anomalies(w: World): nat {
    if w.hasRepo && w.existing > 0 then w.existing else w.detected
  }

  predicate Reviews(w: World) {
    w.hasRepo && Anomalies(w) > 0
  }

  /** The places a run passes if nothing stops it. */
  predicate Visits(w: World, p: Place) {
    match p
    case Transform => w.hasTransformations
    case LoadAnomalies => w.hasRepo
    case Detect => !w.hasRepo || w.existing == 0
    case SaveAnomalies => w.hasRepo && w.existing == 0 && w.detected > 0
    case Review => Reviews(w)
    case _ => true
  }

  predicate Passes(w: World, p: Place) {
    (Visits(w, p) ==> !w.raises(p)) && (p.Transform? ==> !(w.hasTransformations && w.transformationFails))
  }

  /** A run in which nothing it passes raises and no transformation fails. */
  ghost predicate Smooth(w: World) {
    forall p: Place :: Passes(w, p)
  }

  /** Everything up to the review goes well. */
  predicate SmoothToReview(w: World) {
    && Passes(w, Download) && Passes(w, Parse) && Passes(w, Transform)
    && Passes(w, LoadAnomalies) && Passes(w, Detect) && Passes(w, SaveAnomalies)
  }

  /** The writes around the review: none if it is not reached, the second only if it ends well. */
  function ReviewWrites(w: World): seq<JobStatus> {
    if !(SmoothToReview(w) && Reviews(w)) then []
    else if Passes(w, Review) then [AwaitingReview, Processing]
    else [AwaitingReview]
  }

  /** Everything up to the upload goes well. */
  ghost predicate SmoothToUpload(w: World) {
    forall p: Place :: p !in {Preview, Schema} ==> Passes(w, p)
  }

  /** Whatever the run passes, its writes form a lifecycle. */
  lemma RunIsLifecycle(w: World, success: bool)
    ensures Lifecycle([Processing] + ReviewWrites(w) + [if success then Completed else Failed])
  {
    var mid, end := ReviewWrites(w), if success then Completed else Failed;
    assert ([Processing] + mid + [end])[1..1 + |mid|] == mid;
  }

  /** The stored statuses are the written ones whose update did not raise. */
  ghost predicate Consistent(w: World, log: seq<Event>, updates: nat, stored: seq<JobStatus>) {
    && updates == |Statuses(log)| && stored == Kept(Statuses(log), w.updateRaises) && UploadFirst(log)
    && (!w.hasRepo ==> updates == 0)
  }

  lemma OneMoreWrite(w: World, log: seq<Event>, updates: nat, stored: seq<JobStatus>, s: JobStatus)
    requires Consistent(w, log, updates, stored) && w.hasRepo && (s.Completed? ==> Uploaded in log)
    ensures Statuses(log + [Wrote(s)]) == Statuses(log) + [s]
    ensures Consistent(w, log + [Wrote(s)], updates + 1, if w.updateRaises(updates) then stored else stored + [s])
  {
    hide UploadFirst;
    assert (log + [Wrote(s)])[..|log|] == log;
    assert (Statuses(log) + [s])[..|Statuses(log)|] == Statuses(log);
    UploadStaysFirst(log, Wrote(s));
  }

  lemma UploadStaysFirst(log: seq<Event>, e: Event)
    requires UploadFirst(log) && (e == Wrote(Completed) ==> Uploaded in log)
    ensures UploadFirst(log + [e])
  {
    forall k | 0 <= k < |log + [e]| && (log + [e])[k] == Wrote(Completed)
      ensures Uploaded in (log + [e])[..k]
    {
      assert (log + [e])[..k] == log[..k];
      assert log[..|log|] == log;
    }
  }

  lemma OneMoreUpload(w: World, log: seq<Event>, updates: nat, stored: seq<JobStatus>)
    requires Consistent(w, log, updates, stored)
    ensures Statuses(log + [Uploaded]) == Statuses(log)
    ensures Consistent(w, log + [Uploaded], updates, stored)
  {
    hide UploadFirst, Kept;
    assert (log + [Uploaded])[..|log|] == log;
    UploadStaysFirst(log, Uploaded);
  }

  datatype Outcome = Raised | Rejected | Done

  class ProcessDatasetRun {
    const w: World
    var log: seq<Event>
    var updates: nat
    var stored: seq<JobStatus>

    constructor (w: World)
      ensures this.w == w && log == [] && stored == [] && Valid()
    {
      this.w := w;
      log, stored, updates := [], [], 0;
    }

    ghost predicate Valid()
      reads this
    {
      Consistent(w, log, updates, stored)
    }

    /** `_update_status`: without a repository nothing happens, and a failing update is swallowed. */
    method UpdateStatus(s: JobStatus)
      requires Valid() && (s.Completed? ==> Uploaded in log)
      modifies this
      ensures Valid() && log == old(log) + if w.hasRepo then [Wrote(s)] else []
      ensures Statuses(log) == Statuses(old(log)) + if w.hasRepo then [s] else []
    {
      hide Consistent, Statuses;
      if !w.hasRepo {
        return;
      }
      OneMoreWrite(w, log, updates, stored, s);
      log := log + [Wrote(s)];
      if !w.updateRaises(updates) {
        stored := stored + [s];
      }
      updates := updates + 1;
    }

    /** `execute`: the pipeline, and FAILED for whatever it raises. */
    method Execute() returns (success: bool)
      requires Valid() && log == []
      modifies this
      ensures Valid()
      ensures success <==> Smooth(w)
      ensures Uploaded in log <==> SmoothToUpload(w)
      ensures !w.hasRepo ==> Statuses(log) == []
      ensures w.hasRepo ==> Lifecycle(Statuses(log))
      ensures w.hasRepo ==> Statuses(log) == [Processing] + ReviewWrites(w) + [if success then Completed else Failed]
    {
      hide Smooth, SmoothToUpload, Lifecycle, ReviewWrites, Valid, Statuses;
      NoStatuses();
      var out := Pipeline();
      if out.Raised? {
        UpdateStatus(Failed);
      }
      success := out.Done?;
      assert w.hasRepo ==> Statuses(log) == [Processing] + ReviewWrites(w) + [if success then Completed else Failed];
      RunIsLifecycle(w, success);
    }

    method Pipeline() returns (out: Outcome)
      requires Valid() && log == []
      modifies this
      ensures Valid()
      ensures out.Done? <==> Smooth(w)
      ensures Uploaded in log <==> SmoothToUpload(w)
      ensures !w.hasRepo ==> Statuses(log) == []
      ensures w.hasRepo ==>
                Statuses(log) == [Processing] + ReviewWrites(w)
                                 + if out.Raised? then [] else if out.Done? then [Completed] else [Failed]
    {
      hide Passes, Visits, Reviews, Smooth, SmoothToUpload, Valid, Statuses;
      SmoothMeans(w);
      NoStatuses();
      UpdateStatus(Processing);
      out := Prepare();
      if out.Done? {
        var ok := AwaitReview();
        if ok {
          ok := Publish();
        }
        if !ok {
          return Raised;
        }
        UpdateStatus(Completed);
      }
    }

    /** Download, parse, transform; a transformation that reports failure ends the run by itself. */
    method Prepare() returns (out: Outcome)
      requires Valid() && log == if w.hasRepo then [Wrote(Processing)] else []
      modifies this
      ensures Valid()
      ensures out.Done? <==> Passes(w, Download) && Passes(w, Parse) && Passes(w, Transform)
      ensures log == old(log) + if out.Rejected? && w.hasRepo then [Wrote(Failed)] else []
      ensures Statuses(log) == Statuses(old(log)) + if out.Rejected? && w.hasRepo then [Failed] else []
    {
      hide Valid, Statuses;
      if w.raises(Download) || w.raises(Parse) {
        return Raised;
      }
      if w.hasTransformations {
        if w.raises(Transform) {
          return Raised;
        }
        if w.transformationFails {
          UpdateStatus(Failed);
          return Rejected;
        }
      }
      return Done;
    }

    /** Load or detect the anomalies and, with a repository, wait for their review. */
    method AwaitReview() returns (ok: bool)
      requires Valid() && Uploaded !in log && Statuses(log) == if w.hasRepo then [Processing] else []
      requires Passes(w, Download) && Passes(w, Parse) && Passes(w, Transform)
      modifies this
      ensures Valid()
      ensures ok <==> Passes(w, LoadAnomalies) && Passes(w, Detect) && Passes(w, SaveAnomalies) && Passes(w, Review)
      ensures Uploaded !in log
      ensures Statuses(log) == if w.hasRepo then [Processing] + ReviewWrites(w) else []
    {
      hide Valid, Statuses;
      var anomalies := 0;
      if w.hasRepo {
        if w.raises(LoadAnomalies) {
          return false;
        }
        anomalies := w.existing;
      }
      var isNew := false;
      if anomalies == 0 {
        if w.raises(Detect) {
          return false;
        }
        anomalies := w.detected;
        isNew := anomalies > 0;
      }
      if anomalies > 0 && w.hasRepo {
        if isNew && w.raises(SaveAnomalies) {
          return false;
        }
        UpdateStatus(AwaitingReview);
        if w.raises(Review) {
          return false;
        }
        UpdateStatus(Processing);
      }
      return true;
    }

    /** Serialise and upload, then build the preview and the schema. */
    method Publish() returns (ok: bool)
      requires Valid() && Uploaded !in log
      modifies this
      ensures Valid()
      ensures ok <==> Passes(w, Serialise) && Passes(w, Upload) && Passes(w, Preview) && Passes(w, Schema)
      ensures Uploaded in log <==> Passes(w, Serialise) && Passes(w, Upload)
      ensures Statuses(log) == Statuses(old(log))
    {
      hide Consistent, Statuses;
      if w.raises(Serialise) || w.raises(Upload) {
        return false;
      }
      OneMoreUpload(w, log, updates, stored);
      log := log + [Uploaded];
      return !w.raises(Preview) && !w.raises(Schema);
    }
  }

  lemma SmoothMeans(w: World)
    ensures SmoothToUpload(w)
            <==> && Passes(w, Download) && Passes(w, Parse) && Passes(w, Transform) && Passes(w, LoadAnomalies)
                 && Passes(w, Detect) && Passes(w, SaveAnomalies) && Passes(w, Review)
                 && Passes(w, Serialise) && Passes(w, Upload)
    ensures Smooth(w) <==> SmoothToUpload(w) && Passes(w, Preview) && Passes(w, Schema)
  {
    hide Passes;
    if && Passes(w, Download) && Passes(w, Parse) && Passes(w, Transform) && Passes(w, LoadAnomalies)
       && Passes(w, Detect) && Passes(w, SaveAnomalies) && Passes(w, Review) && Passes(w, Serialise)
       && Passes(w, Upload)
    {
      forall p: Place | p !in {Preview, Schema}
        ensures Passes(w, p)
      {
        match p
        case Download | Parse | Transform | LoadAnomalies | Detect | SaveAnomalies | Review | Serialise | Upload =>
        case Preview | Schema =>
      }
    }
  }

  function Kept(ws: seq<JobStatus>, raises: nat -> bool): seq<JobStatus> {
    if ws == [] then []
    else
      var init := Kept(ws[..|ws| - 1], raises);
      if raises(|ws| - 1) then init else init + [ws[|ws| - 1]]
  }

  // ---------------------------------------------------------------------------------------------
  // Reading a status back

  /** The job's row: there is no AWAITING_REVIEW in the database, only a mark that is never removed. */
  datatype JobRow = JobRow(db: JobStatus, hitlWaiting: bool)

  function ToDb(s: JobStatus): JobStatus {
    match s
    case AwaitingReview => Processing
    case Pending => Queued
    case _ => s
  }

  function Write(r: JobRow, s: JobStatus): JobRow {
    JobRow(ToDb(s), r.hitlWaiting || s.AwaitingReview?)
  }

  function WriteAll(r: JobRow, ws: seq<JobStatus>): JobRow {
    if ws == [] then r else Write(WriteAll(r, ws[..|ws| - 1]), ws[|ws| - 1])
  }

  function Read(r: JobRow): JobStatus {
    if r.db.Processing? && r.hitlWaiting then AwaitingReview else r.db
  }

  lemma {:induction false} MarkStays(r: JobRow, ws: seq<JobStatus>)
    ensures WriteAll(r, ws).hitlWaiting <==> r.hitlWaiting || AwaitingReview in ws
  {
    if ws != [] {
      MarkStays(r, ws[..|ws| - 1]);
      assert ws == ws[..|ws| - 1] + [ws[|ws| - 1]];
    }
  }

  /** A status reads back as written except PENDING, and PROCESSING once a review has been awaited. */
  lemma ReadBackExactly(r: JobRow, ws: seq<JobStatus>)
    requires ws != []
    ensures var last := ws[|ws| - 1];
            Read(WriteAll(r, ws))
            == if last.Pending? then Queued
               else if last.Processing? && (r.hitlWaiting || AwaitingReview in ws) then AwaitingReview
               else last
  {
    MarkStays(r, ws);
  }
}
