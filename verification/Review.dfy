/** From the snapshot's finders through the decision loop: what an accepted suggestion achieves. */
module Review {
  import opened DecisionProperties
  import opened Decisions
  import opened MainDecision
  import opened Rows
  import opened ValueCounts
  import opened Values
  import AggregateFill
  import Aggregates
  import DecisionOutcome
  import Duplicates
  import IR
  import IRExecutor
  import Inconsistent
  import LastWriter
  import OutlierDetection
  import SequenceGap

  /**
   * What the finders take from their surroundings: the year of a date, how a column's duplicates
   * are compared, the value counts, the identifier pattern, and the finders left open.
   */
  datatype Detectors = Detectors(
    year: Cell -> int,
    kind: string -> Duplicates.Kind,
    fold: char -> char,
    counts: seq<string> -> seq<(string, nat)>,
    split: SequenceGap.Splitter,
    prefix: Anomaly -> string,
    other: (Anomaly, Frame) -> seq<nat>)

  /** The dispatcher over the snapshot. */
  function FindRows(det: Detectors, text: Text, a: Anomaly, snap: Frame): seq<nat> {
    if a.column !in snap.cols then []
    else
      var col := snap.cols[a.column];
      match a.kind
      case MissingValue => Where(col.cells, (c: Cell) => c.Null?)
      case Outlier =>
        if col.dtype in {IntD, FloatD} then OutlierDetection.FinderRows(col.cells)
        else if col.dtype in {DateD, DatetimeD} then
          Where(col.cells, (c: Cell) =>
            !c.Null? && (det.year(c) < OutlierDetection.DATE_MIN_YEAR || det.year(c) > OutlierDetection.DATE_MAX_YEAR))
        else []
      case Duplicate =>
        Duplicates.FinderRows(col.cells, Duplicates.KeyFor(det.kind(a.column), det.fold, text),
                              Duplicates.BaseFor(det.kind(a.column), det.fold, text))
      case InconsistentValue =>
        if col.dtype.StrD? then Inconsistent.FinderRows(col.cells, det.counts(Inconsistent.Strings(col.cells))) else []
      case SequenceGap => SequenceGap.FinderRows(col.cells, det.split, det.prefix(a))
      case _ => det.other(a, snap)
  }

  /** The environment's finders are these, and the open ones stay inside the frame. */
  ghost predicate Uses(env: Env, det: Detectors) {
    && (forall a: Anomaly, f: Frame {:trigger env.finder(a, f)} :: env.finder(a, f) == FindRows(det, env.text, a, f))
    && (forall a: Anomaly, f: Frame, r: nat :: r in det.other(a, f) ==> r < f.height)
    && (forall keys: seq<string> :: IsValueCounts(det.counts(keys), keys) && Inconsistent.Descending(det.counts(keys)))
  }

  lemma WhereInside(cells: seq<Cell>, p: Cell -> bool)
    ensures forall r :: r in Where(cells, p) ==> r < |cells|
  {
    assert forall r :: r in Where(cells, p) ==> exists k :: 0 <= k < |Where(cells, p)| && Where(cells, p)[k] == r;
  }

  /** Every finder returns rows of the snapshot. */
  lemma FindersStayInside(env: Env, det: Detectors, snap: Frame)
    requires Uses(env, det) && snap.Valid()
    ensures FindsRows(env, snap)
  {
    hide Where, Duplicates.FinderRows;
    forall a: Anomaly, r: nat | r in env.finder(a, snap)
      ensures r < snap.height
    {
      if a.column in snap.cols {
        var col := snap.cols[a.column];
        match a.kind
        case MissingValue => WhereInside(col.cells, (c: Cell) => c.Null?);
        case Outlier =>
          WhereInside(col.cells, c => OutlierDetection.Flagged(OutlierDetection.Numbers(col.cells), c));
          WhereInside(col.cells, (c: Cell) =>
            !c.Null? && (det.year(c) < OutlierDetection.DATE_MIN_YEAR || det.year(c) > OutlierDetection.DATE_MAX_YEAR));
        case InconsistentValue =>
          var vc := det.counts(Inconsistent.Strings(col.cells));
          WhereInside(col.cells, Inconsistent.Among(Inconsistent.RareValues(vc, |Inconsistent.Strings(col.cells)|)));
        case SequenceGap =>
          var prefix := det.prefix(a);
          var ds := SequenceGap.SortedNumbers(col.cells, det.split, prefix);
          WhereInside(col.cells, SequenceGap.GapTest(det.split, prefix, ds));
        case _ =>
      }
    }
  }

  // ---------------------------------------------------------------------------------------------
  // Accepted suggestions

  /** Strictly less spread about its own mean. */
  ghost predicate Tighter(after: seq<Cell>, before: seq<Cell>) {
    var a, b := OutlierDetection.Numbers(after), OutlierDetection.Numbers(before);
    a != [] && b != []
    && OutlierDetection.Deviation(a, OutlierDetection.Mean(a)) < OutlierDetection.Deviation(b, OutlierDetection.Mean(b))
  }

  /** The decision writes the number `m`, or nothing that reaches a column of numbers. */
  predicate WritesOnly(text: Text, a: Anomaly, d: Decision, m: real) {
    !UsesTree(a, d) &&
    match EffectOf(a, d)
    case NoEffect => true
    case Trim => true
    case Write(raw) => text.parseFloat(raw) == Some(m)
    case _ => false
  }

  ghost predicate AllWriteOnly(env: Env, am: AnomalyMap, ds: seq<Decision>, c: string, m: real) {
    forall j :: 0 <= j < |ds| && Concerns(am, ds[j], c) ==> WritesOnly(env.text, am[ds[j].anomalyId], ds[j], m)
  }

  predicate WritesRow(env: Env, snap: Frame, am: AnomalyMap, d: Decision, c: string, i: nat) {
    Concerns(am, d, c) && EffectOf(am[d.anomalyId], d).Write? && i in env.finder(am[d.anomalyId], snap)
  }

  /** Some decision writes row `i` of column `c`. */
  ghost predicate Written(env: Env, snap: Frame, am: AnomalyMap, ds: seq<Decision>, c: string, i: nat) {
    exists j :: 0 <= j < |ds| && WritesRow(env, snap, am, ds[j], c, i)
  }

  lemma NumberTurn(env: Env, snap: Frame, f: Frame, am: AnomalyMap, d: Decision, c: string, m: real, i: nat)
    requires f.Valid() && f.height == snap.height && FindsRows(env, snap) && c in f.cols && i < f.height
    requires f.cols[c].dtype.FloatD? && Decide(env, snap, f, am, d).Some?
    requires Concerns(am, d, c) ==> WritesOnly(env.text, am[d.anomalyId], d, m)
    ensures var g := Decide(env, snap, f, am, d).value;
            && g.cols[c].dtype.FloatD?
            && g.cols[c].cells[i] == if WritesRow(env, snap, am, d, c, i) then RealC(m) else f.cols[c].cells[i]
  {
    hide Decide, EffectOf, ApplyEffect, UsesTree;
    TurnIsStep(env, snap, f, am, d, c);
    if Concerns(am, d, c) {
      DecisionOutcome.TypedColumn(f, c);
      LastWriter.StepIsCellwise(env.text, f.cols[c], StepOf(env, snap, am, d));
    }
  }

  /** After decisions of this kind a column of numbers holds `m` where one wrote, and elsewhere what it held. */
  lemma {:induction false} NumberLoop(env: Env, snap: Frame, f: Frame, am: AnomalyMap, ds: seq<Decision>, c: string,
                                      m: real, i: nat)
    requires f.Valid() && f.height == snap.height && FindsRows(env, snap) && c in f.cols && i < f.height
    requires f.cols[c].dtype.FloatD? && AllWriteOnly(env, am, ds, c, m) && DecideAll(env, snap, f, am, ds).Some?
    ensures var g := DecideAll(env, snap, f, am, ds).value;
            && g.cols[c].dtype.FloatD?
            && g.cols[c].cells[i] == if Written(env, snap, am, ds, c, i) then RealC(m) else f.cols[c].cells[i]
  {
    if ds != [] {
      var init, d := ds[..|ds| - 1], ds[|ds| - 1];
      LastTurn(env, snap, f, am, ds);
      hide Decide, WritesOnly, WritesRow, DecideAll;
      NumberLoop(env, snap, f, am, init, c, m, i);
      NumberTurn(env, snap, DecideAll(env, snap, f, am, init).value, am, d, c, m, i);
      WrittenLast(env, snap, am, ds, c, i);
    }
  }

  lemma WrittenLast(env: Env, snap: Frame, am: AnomalyMap, ds: seq<Decision>, c: string, i: nat)
    requires ds != []
    ensures Written(env, snap, am, ds, c, i)
            <==> Written(env, snap, am, ds[..|ds| - 1], c, i) || WritesRow(env, snap, am, ds[|ds| - 1], c, i)
  {
    hide WritesRow;
    if Written(env, snap, am, ds[..|ds| - 1], c, i) {
      var j :| 0 <= j < |ds| - 1 && WritesRow(env, snap, am, ds[..|ds| - 1][j], c, i);
      assert WritesRow(env, snap, am, ds[j], c, i);
    }
  }

  /** The returned float column: `m` where a decision wrote, and elsewhere the input. */
  lemma ReturnedNumbers(env: Env, df: Frame, anomalies: seq<Anomaly>, decisions: seq<Decision>, c: string, m: real)
    requires df.Valid() && FindsRows(env, df) && decisions != [] && c in df.cols && df.cols[c].dtype.FloatD?
    requires AllWriteOnly(env, ToAnomalyMap(anomalies), ToDecisionMap(decisions), c, m)
    requires DecisionOutcome.EndsNothing(anomalies, c)
    ensures match Apply(env, df, anomalies, decisions)
            case None => true
            case Some(r) =>
              forall i: nat :: i < df.height ==>
                r.cols[c].cells[i]
                == if Written(env, df, ToAnomalyMap(anomalies), ToDecisionMap(decisions), c, i) then RealC(m)
                   else df.cols[c].cells[i]
  {
    hide Apply, DecideAll, ToDecisionMap, ToAnomalyMap, AllWriteOnly, Written, DecisionOutcome.EndsNothing;
    DecisionOutcome.ReturnedColumn(env, df, anomalies, decisions, c);
    if DecideAll(env, df, df, ToAnomalyMap(anomalies), ToDecisionMap(decisions)).Some? {
      forall i: nat | i < df.height
        ensures var g := DecideAll(env, df, df, ToAnomalyMap(anomalies), ToDecisionMap(decisions)).value;
                && g.cols[c].dtype.FloatD?
                && g.cols[c].cells[i]
                   == if Written(env, df, ToAnomalyMap(anomalies), ToDecisionMap(decisions), c, i) then RealC(m)
                      else df.cols[c].cells[i]
      {
        NumberLoop(env, df, df, ToAnomalyMap(anomalies), ToDecisionMap(decisions), c, m, i);
      }
    }
  }

  /**
   * An approved OUTLIER puts the mean into the flagged rows of a float column and strictly tightens it, also
   * when a MISSING_VALUE with the same suggestion is approved with it.
   */
  lemma ApprovedOutlier(env: Env, det: Detectors, df: Frame, anomalies: seq<Anomaly>, decisions: seq<Decision>,
                        d: Decision, c: string)
    requires Uses(env, det) && df.Valid() && FindsRows(env, df) && c in df.cols
    requires DecisionOutcome.EndsNothing(anomalies, c)
    requires df.cols[c].dtype.FloatD? && OutlierDetection.FinderRows(df.cols[c].cells) != []
    requires OutlierDetection.Numbers(df.cols[c].cells) != []
    requires AllWriteOnly(env, ToAnomalyMap(anomalies), ToDecisionMap(decisions), c,
                          OutlierDetection.Mean(OutlierDetection.Numbers(df.cols[c].cells)))
    requires d in ToDecisionMap(decisions) && Concerns(ToAnomalyMap(anomalies), d, c) && d.action.Approved?
    requires var a := ToAnomalyMap(anomalies)[d.anomalyId]; a.kind.Outlier? && a.suggested.Some?
    ensures match Apply(env, df, anomalies, decisions)
            case None => true
            case Some(r) =>
              && (forall i: nat :: i < df.height ==>
                    r.cols[c].cells[i]
                    == if Written(env, df, ToAnomalyMap(anomalies), ToDecisionMap(decisions), c, i)
                       then RealC(OutlierDetection.Mean(OutlierDetection.Numbers(df.cols[c].cells)))
                       else df.cols[c].cells[i])
              && (forall i :: i in OutlierDetection.FinderRows(df.cols[c].cells) ==>
                    Written(env, df, ToAnomalyMap(anomalies), ToDecisionMap(decisions), c, i))
              && Tighter(r.cols[c].cells, df.cols[c].cells)
  {
    hide ToDecisionMap, ToAnomalyMap, Apply, OutlierDetection.FinderRows, OutlierDetection.Numbers,
         OutlierDetection.Mean, OutlierDetection.Deviation, AllWriteOnly, DecisionOutcome.EndsNothing, UsesTree;
    if Apply(env, df, anomalies, decisions).Some? {
      assert decisions != [] by {
        NoDecisions(decisions);
      }
      var m := OutlierDetection.Mean(OutlierDetection.Numbers(df.cols[c].cells));
      ReturnedNumbers(env, df, anomalies, decisions, c, m);
      ApprovedRows(env, det, df, ToAnomalyMap(anomalies), ToDecisionMap(decisions), d, c);
      hide Written;
      OutlierDetection.ApprovalTightens(df.cols[c].cells, Apply(env, df, anomalies, decisions).value.cols[c].cells);
    }
  }

  lemma NoDecisions(decisions: seq<Decision>)
    ensures ToDecisionMap(decisions) != [] ==> decisions != []
  {
  }

  lemma ApprovedRows(env: Env, det: Detectors, df: Frame, am: AnomalyMap, ds: seq<Decision>, d: Decision, c: string)
    requires Uses(env, det) && df.Valid() && FindsRows(env, df) && c in df.cols && df.cols[c].dtype.FloatD?
    requires d in ds && Concerns(am, d, c) && d.action.Approved?
    requires am[d.anomalyId].kind.Outlier? && am[d.anomalyId].suggested.Some?
    ensures forall i :: i in OutlierDetection.FinderRows(df.cols[c].cells) ==>
              i < df.height && Written(env, df, am, ds, c, i)
  {
    hide OutlierDetection.FinderRows;
    var a := am[d.anomalyId];
    assert env.finder(a, df) == OutlierDetection.FinderRows(df.cols[c].cells);
    forall i | i in OutlierDetection.FinderRows(df.cols[c].cells)
      ensures i < df.height && Written(env, df, am, ds, c, i)
    {
      assert i in env.finder(a, df);
      var j :| 0 <= j < |ds| && ds[j] == d;
      assert WritesRow(env, df, am, ds[j], c, i);
    }
  }

  /** An approved INCONSISTENT leaves a column, already stripped, on which the finder finds nothing. */
  lemma ApprovedInconsistent(env: Env, det: Detectors, df: Frame, anomalies: seq<Anomaly>, decisions: seq<Decision>,
                             d: Decision, c: string)
    requires Uses(env, det) && df.Valid() && FindsRows(env, df) && decisions != [] && c in df.cols
    requires Main(ToAnomalyMap(anomalies), ToDecisionMap(decisions), d, c)
    requires DecisionOutcome.EndsNothing(anomalies, c)
    requires df.cols[c].dtype.StrD?
    requires var a, strings := ToAnomalyMap(anomalies)[d.anomalyId], Inconsistent.Strings(df.cols[c].cells);
             && a.kind.InconsistentValue? && d.action.Approved? && a.suggested.Some?
             && Inconsistent.Detect(det.counts(strings), |strings|).Some?
             && Inconsistent.Detect(det.counts(strings), |strings|).value.suggestion == a.suggested
    ensures match Apply(env, df, anomalies, decisions)
            case None => true
            case Some(r) => env.finder(ToAnomalyMap(anomalies)[d.anomalyId], r) == []
  {
    hide ToDecisionMap, ToAnomalyMap, Apply, Inconsistent.FinderRows, Inconsistent.Strings, Inconsistent.Detect,
         StepsOn, DecisionOutcome.EndsNothing, Main, Strip, IsValueCounts, Inconsistent.Descending,
         Inconsistent.Normalised;
    if Apply(env, df, anomalies, decisions).None? {
      return;
    }
    OneEffect(env, df, anomalies, decisions, d, c);
    var a := ToAnomalyMap(anomalies)[d.anomalyId];
    var cells, v := df.cols[c].cells, a.suggested.value;
    var strings := Inconsistent.Strings(cells);
    var vc := det.counts(strings);
    var written := Overwrite(cells, Inconsistent.FinderRows(cells, vc), StrC(v));
    assert StepOf(env, df, ToAnomalyMap(anomalies), d) == Step(Inconsistent.FinderRows(cells, vc), Write(v));
    WrittenText(env.text, df.cols[c], Inconsistent.FinderRows(cells, vc), v);
    var after := Apply(env, df, anomalies, decisions).value.cols[c];
    assert after == StripColumn(Column(StrD, written));
    StripIsNormalised(written);
    Inconsistent.ApprovalSettles(cells, vc, v, StripOption(), after.cells,
                                 det.counts(Inconsistent.Strings(after.cells)));
    assert env.finder(a, Apply(env, df, anomalies, decisions).value)
        == Inconsistent.FinderRows(after.cells, det.counts(Inconsistent.Strings(after.cells)));
  }

  function StripOption(): string -> Option<string> {
    s => if Strip(s) == "" then None else Some(Strip(s))
  }

  /** The closing strip is one of the normalisations that keep common values common. */
  lemma StripIsNormalised(cells: seq<Cell>)
    ensures StripColumn(Column(StrD, cells)).cells == Inconsistent.Normalised(cells, StripOption())
  {
    hide Strip;
  }

  lemma WrittenText(text: Text, col: Column, rows: seq<nat>, raw: string)
    requires WellTyped(col) && col.dtype.StrD?
    ensures ApplyStep(text, col, Step(rows, Write(raw))) == Some(Column(StrD, Overwrite(col.cells, rows, StrC(raw))))
  {
    var cells := Overwrite(col.cells, rows, StrC(raw));
    assert WellTyped(Column(StrD, cells));
    if rows == [] {
      assert cells == col.cells;
    }
  }

  // ---------------------------------------------------------------------------------------------
  // A column without a value

  /** Every row holds `v`. */
  function Filled(n: nat, v: Cell): (r: seq<Cell>)
    ensures |r| == n && forall i :: 0 <= i < n ==> r[i] == v
  {
    seq(n, i => v)
  }

  lemma FilledStep(text: Text, col: Column, rows: seq<nat>, raw: string)
    requires WellTyped(col) && !col.dtype.StrD? && col.cells != []
    requires forall i :: 0 <= i < |col.cells| ==> col.cells[i].Null? && i in rows
    ensures ApplyStep(text, col, Step(rows, Write(raw)))
            == Some(if Fits(col.dtype, CastCorrection(text, raw, col.dtype))
                    then Column(col.dtype, Filled(|col.cells|, CastCorrection(text, raw, col.dtype)))
                    else Column(StrD, Filled(|col.cells|, StrC(raw))))
  {
    var v := CastCorrection(text, raw, col.dtype);
    var cells := Overwrite(col.cells, rows, v);
    assert cells == Filled(|col.cells|, v);
    assert 0 in rows;
    if Fits(col.dtype, v) {
      assert WellTyped(Column(col.dtype, cells));
    } else {
      assert cells[0] == v && v == StrC(raw);
      assert WellTyped(Column(StrD, cells));
    }
  }

  /**
   * Approving MISSING_VALUE on a typed column that holds nothing fills it with the suggestion if that
   * parses; if not, as with the "null" that is suggested for dates, the column comes back as text.
   */
  lemma ApprovedMissing(env: Env, det: Detectors, df: Frame, anomalies: seq<Anomaly>, decisions: seq<Decision>,
                        d: Decision, c: string)
    requires Uses(env, det) && df.Valid() && FindsRows(env, df) && decisions != [] && c in df.cols
    requires Main(ToAnomalyMap(anomalies), ToDecisionMap(decisions), d, c)
    requires DecisionOutcome.EndsNothing(anomalies, c)
    requires !df.cols[c].dtype.StrD? && df.height > 0
    requires forall i :: 0 <= i < df.height ==> df.cols[c].cells[i].Null?
    requires var a := ToAnomalyMap(anomalies)[d.anomalyId];
             a.kind.MissingValue? && d.action.Approved? && a.suggested.Some?
    ensures match Apply(env, df, anomalies, decisions)
            case None => true
            case Some(r) =>
              var t, raw := df.cols[c].dtype, ToAnomalyMap(anomalies)[d.anomalyId].suggested.value;
              r.cols[c] == if Fits(t, CastCorrection(env.text, raw, t))
                           then Column(t, Filled(df.height, CastCorrection(env.text, raw, t)))
                           else StripColumn(Column(StrD, Filled(df.height, StrC(raw))))
  {
    hide Apply, ToDecisionMap, ToAnomalyMap, Main, DecisionOutcome.EndsNothing, Where, CastCorrection, Strip;
    if Apply(env, df, anomalies, decisions).None? {
      return;
    }
    OneEffect(env, df, anomalies, decisions, d, c);
    var a, cells := ToAnomalyMap(anomalies)[d.anomalyId], df.cols[c].cells;
    var rows := Where(cells, (x: Cell) => x.Null?);
    assert StepOf(env, df, ToAnomalyMap(anomalies), d) == Step(rows, Write(a.suggested.value));
    NullRows(cells);
    FilledStep(env.text, df.cols[c], rows, a.suggested.value);
  }

  /** No suggestion parses as a date or a Boolean: whatever is approved for such a column, it comes back as text. */
  lemma ApprovedMissingDate(env: Env, det: Detectors, df: Frame, anomalies: seq<Anomaly>, decisions: seq<Decision>,
                            d: Decision, c: string)
    requires Uses(env, det) && df.Valid() && FindsRows(env, df) && decisions != [] && c in df.cols
    requires Main(ToAnomalyMap(anomalies), ToDecisionMap(decisions), d, c)
    requires DecisionOutcome.EndsNothing(anomalies, c)
    requires df.cols[c].dtype in {DateD, DatetimeD, BoolD} && df.height > 0
    requires forall i :: 0 <= i < df.height ==> df.cols[c].cells[i].Null?
    requires var a := ToAnomalyMap(anomalies)[d.anomalyId];
             a.kind.MissingValue? && d.action.Approved? && a.suggested.Some?
    ensures match Apply(env, df, anomalies, decisions)
            case None => true
            case Some(r) =>
              var raw := ToAnomalyMap(anomalies)[d.anomalyId].suggested.value;
              && r.cols[c].dtype.StrD?
              && forall i :: 0 <= i < df.height ==> r.cols[c].cells[i] == StripCell(StrC(raw))
  {
    hide Apply, ToDecisionMap, ToAnomalyMap, Main, DecisionOutcome.EndsNothing, StripCell;
    ApprovedMissing(env, det, df, anomalies, decisions, d, c);
  }

  /** A kept DUPLICATE decision marks the repeats of a text column, after which the finder finds none. */
  lemma MarkedDuplicates(env: Env, det: Detectors, snap: Frame, a: Anomaly, d: Decision)
    requires Uses(env, det) && snap.Valid() && FindsRows(env, snap) && a.column in snap.cols
    requires a.kind.Duplicate? && !d.action.Discarded? && snap.cols[a.column].dtype.StrD?
    requires Duplicates.Markable(det.kind(a.column), det.fold, snap.cols[a.column].cells)
    ensures var r := DecideColumn(env, snap, snap, a, d);
            && r.Some? && r.value.dtype.StrD?
            && env.finder(a, snap.With(a.column, r.value)) == []
  {
    hide Duplicates.FinderRows, Duplicates.MarkCell, Duplicates.KeyFor, Duplicates.BaseFor, Duplicates.Markable;
    var col, rows := snap.cols[a.column], env.finder(a, snap);
    Duplicates.SecondRunFlagsNothing(det.kind(a.column), det.fold, env.text, col.cells);
    MarkedText(env.text, col, rows);
  }

  lemma MarkedText(text: Text, col: Column, rows: seq<nat>)
    requires WellTyped(col) && col.dtype.StrD?
    ensures ApplyStep(text, col, Step(rows, Mark)) == Some(Column(StrD, Duplicates.MarkRows(text, col.cells, rows)))
  {
    hide PyStr, Duplicates.EndsWith;
    var cells := Duplicates.MarkRows(text, col.cells, rows);
    assert WellTyped(Column(StrD, cells));
    if rows == [] {
      assert cells == col.cells;
    }
  }

  // ---------------------------------------------------------------------------------------------
  // A correction that runs a tree

  /** Filling the nulls of a float column with its mean, by a tree. */
  lemma MeanTree(env: Env, snap: Frame, g: Frame, a: Anomaly, d: Decision)
    requires g.Valid() && g.height == snap.height && FindsRows(env, snap) && a.column in g.cols
    requires !a.kind.Duplicate? && d.action.Corrected? && d.ir == Some(IR.Encode(IR.FillAggregate(IR.Mean)))
    requires g.cols[a.column].dtype.FloatD? && OutlierDetection.Numbers(g.cols[a.column].cells) != []
    requires env.finder(a, snap) == Where(g.cols[a.column].cells, (c: Cell) => c.Null?)
    ensures var cells := g.cols[a.column].cells;
            DecideColumn(env, snap, g, a, d)
            == Some(Column(FloatD, AggregateFill.FillNulls(
                 cells, OutlierDetection.Mean(OutlierDetection.Numbers(cells)))))
  {
    hide Where, OutlierDetection.Mean, OutlierDetection.Numbers, Aggregates.DropNulls, Aggregates.Median;
    var col, rows := g.cols[a.column], env.finder(a, snap);
    var cells, m := col.cells, OutlierDetection.Mean(OutlierDetection.Numbers(col.cells));
    assert forall k :: 0 <= k < |rows| ==> rows[k] in rows;
    var e := IRExecutor.Executor(g, a.column, rows, env.text, env.mode);
    AggregateFill.NumbersIgnoreNulls(cells);
    MeanOutcome(e, d.ir.value);
    assert Overwrite(cells, rows, RealC(m)) == AggregateFill.FillNulls(cells, m) by {
      NullRows(cells);
    }
    assert WellTyped(Column(FloatD, AggregateFill.FillNulls(cells, m)));
    if rows == [] {
      assert AggregateFill.FillNulls(cells, m) == cells;
    }
  }

  lemma NullRows(cells: seq<Cell>)
    ensures forall i: nat :: i < |cells| ==> (i in Where(cells, (c: Cell) => c.Null?) <==> cells[i].Null?)
  {
    hide Where;
    var rows := Where(cells, (c: Cell) => c.Null?);
    forall i: nat | i < |cells| && i in rows
      ensures cells[i].Null?
    {
      var k :| 0 <= k < |rows| && rows[k] == i;
    }
  }

  lemma MeanOutcome(e: IRExecutor.Executor, node: Json)
    requires e.Valid() && e.Dtype().FloatD? && node == IR.Encode(IR.FillAggregate(IR.Mean))
    requires OutlierDetection.Numbers(Aggregates.DropNulls(e.frame.cols[e.column].cells)) != []
    ensures var v := OutlierDetection.Numbers(Aggregates.DropNulls(e.frame.cols[e.column].cells));
            e.Execute(Some(node), 0) == Ok(IRExecutor.Scalar(RealC(OutlierDetection.Mean(v))))
  {
    hide OutlierDetection.Mean, OutlierDetection.Numbers, Aggregates.DropNulls, Aggregates.Median;
    assert e.Execute(Some(node), 0) == e.FillAggregate(node);
  }

  /** A MISSING_VALUE corrected with FILL_AGGREGATE(mean) fills every null and leaves the mean where it was. */
  lemma CorrectedByMean(env: Env, det: Detectors, df: Frame, anomalies: seq<Anomaly>, decisions: seq<Decision>,
                        d: Decision, c: string)
    requires Uses(env, det) && df.Valid() && FindsRows(env, df) && decisions != [] && c in df.cols
    requires Main(ToAnomalyMap(anomalies), ToDecisionMap(decisions), d, c)
    requires DecisionOutcome.EndsNothing(anomalies, c)
    requires df.cols[c].dtype.FloatD? && OutlierDetection.Numbers(df.cols[c].cells) != []
    requires d.anomalyId in ToAnomalyMap(anomalies) && ToAnomalyMap(anomalies)[d.anomalyId].kind.MissingValue?
    requires d.action.Corrected? && d.ir == Some(IR.Encode(IR.FillAggregate(IR.Mean)))
    ensures match Apply(env, df, anomalies, decisions)
            case None => true
            case Some(r) =>
              var before, after := df.cols[c].cells, r.cols[c].cells;
              && |after| == |before|
              && (forall i :: 0 <= i < |before| ==> !after[i].Null? && (!before[i].Null? ==> after[i] == before[i]))
              && OutlierDetection.Numbers(after) != []
              && OutlierDetection.Mean(OutlierDetection.Numbers(after))
                == OutlierDetection.Mean(OutlierDetection.Numbers(before))
  {
    hide Apply, DecideColumn, ToDecisionMap, ToAnomalyMap, Main, DecisionOutcome.EndsNothing,
         OutlierDetection.Numbers,
         OutlierDetection.Mean, IR.Encode, Where;
    if Apply(env, df, anomalies, decisions).None? {
      return;
    }
    var g := OneDecision(env, df, anomalies, decisions, d, c);
    MeanTree(env, df, g, ToAnomalyMap(anomalies)[d.anomalyId], d);
    AggregateFill.MeanIsFixedPoint(df.cols[c].cells);
  }
}
