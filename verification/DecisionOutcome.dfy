/** What a whole run of `_apply_decisions` guarantees about the frame it returns. */
module DecisionOutcome {
  import opened DecisionProperties
  import opened Decisions
  import opened LastWriter
  import opened Rows
  import opened Values
  import Calendar
  import DateRepair
  import Duplicates
  import IRExecutor

  // ---------------------------------------------------------------------------------------------
  // Values the column cannot hold

  /**
   * A value that does not parse leaves a typed column exactly when some other row keeps a value;
   * otherwise the column becomes text and holds nothing but that value and nulls.
   */
  lemma UncastableWrite(text: Text, col: Column, rows: seq<nat>, raw: string)
    requires WellTyped(col) && !Fits(col.dtype, CastCorrection(text, raw, col.dtype))
    requires exists k :: 0 <= k < |rows| && rows[k] < |col.cells|
    ensures ApplyEffect(text, col, rows, Write(raw))
            == if Anchor(col.cells, rows) then Some(col)
               else Some(Column(StrD, Overwrite(seq(|col.cells|, i => Null), rows, StrC(raw))))
  {
    if Anchor(col.cells, rows) {
      var cells := Overwrite(col.cells, rows, StrC(raw));
      var i :| 0 <= i < |col.cells| && !col.cells[i].Null? && i !in rows;
      assert !Accepts(StrD, cells[i]);
      var k :| 0 <= k < |rows| && rows[k] < |col.cells|;
      assert cells[rows[k]] == StrC(raw);
    } else {
      var cells := Overwrite(col.cells, rows, StrC(raw));
      var k :| 0 <= k < |rows| && rows[k] < |col.cells|;
      assert cells[rows[k]] == StrC(raw);
      assert Build(col.dtype, cells) == None;
      assert cells == Overwrite(seq(|col.cells|, i => Null), rows, StrC(raw));
    }
  }

  // ---------------------------------------------------------------------------------------------
  // What no decision reaches

  /** No decision of the list finds row `i` of column `c`. */
  ghost predicate OutOfReach(env: Env, snap: Frame, am: AnomalyMap, ds: seq<Decision>, c: string, i: nat) {
    forall k :: 0 <= k < |ds| && Concerns(am, ds[k], c) ==> i !in env.finder(am[ds[k].anomalyId], snap)
  }

  /**
   * Another typed version of a column agrees with it outside `rows`, and keeps its type if a row out there
   * holds a value.
   */
  ghost predicate EditedOnly(col: Column, rows: seq<nat>, r: Column) {
    && |r.cells| == |col.cells|
    && (forall i :: 0 <= i < |col.cells| && i !in rows ==> r.cells[i] == col.cells[i])
    && (col.dtype.StrD? || Anchor(col.cells, rows) ==> r.dtype == col.dtype)
  }

  lemma Unedited(col: Column, rows: seq<nat>)
    ensures EditedOnly(col, rows, col)
  {
  }

  lemma BuildEditsOnly(col: Column, rows: seq<nat>, cells: seq<Cell>, d: Dtype)
    requires WellTyped(col) && |cells| == |col.cells| && AcceptsAll(d, cells) && (d == col.dtype || d.StrD?)
    requires forall i :: 0 <= i < |col.cells| && i !in rows ==> cells[i] == col.cells[i]
    ensures EditedOnly(col, rows, Build(d, cells).value)
  {
    var r := Build(d, cells).value;
    forall i | 0 <= i < |cells| && i !in rows
      ensures r.cells[i] == col.cells[i]
    {
      assert Accepts(d, cells[i]);
    }
  }

  lemma EffectEditsOnly(text: Text, col: Column, rows: seq<nat>, e: Effect)
    requires WellTyped(col) && ApplyEffect(text, col, rows, e).Some?
    ensures EditedOnly(col, rows, ApplyEffect(text, col, rows, e).value)
  {
    hide Build, TrimCell, EditedOnly, AcceptsAll, CastCorrection;
    Unedited(col, rows);
    var cells := match e
      case NoEffect => col.cells
      case Write(raw) => Overwrite(col.cells, rows, CastCorrection(text, raw, col.dtype))
      case Clear => Overwrite(col.cells, rows, Null)
      case Trim => MapRows(col.cells, rows, c => TrimCell(text, c))
      case Mark => MapRows(col.cells, rows, c => Duplicates.MarkCell(text, c));
    if Build(col.dtype, cells).Some? {
      BuildEditsOnly(col, rows, cells, col.dtype);
    } else if Build(StrD, cells).Some? {
      BuildEditsOnly(col, rows, cells, StrD);
    }
  }

  lemma OutcomeEditsOnly(col: Column, rows: seq<nat>, o: IRExecutor.Outcome)
    requires WellTyped(col) && forall k :: 0 <= k < |rows| ==> rows[k] < |col.cells|
    requires o.perRow.Some? ==> |o.perRow.value| == |rows|
    ensures EditedOnly(col, rows, StoreOutcome(col, rows, o))
  {
    hide Build, EditedOnly, AcceptsAll;
    Unedited(col, rows);
    if o.kind.Fill? {
      var cells := if !o.scalar.Null? || o.perRow.None? then Overwrite(col.cells, rows, o.scalar)
                   else OverwriteEach(col.cells, rows, o.perRow.value);
      if Build(col.dtype, cells).Some? {
        BuildEditsOnly(col, rows, cells, col.dtype);
      }
    }
  }

  /** One decision, with or without a tree, edits its column on its rows only. */
  lemma DecisionEditsOnly(env: Env, snap: Frame, f: Frame, a: Anomaly, d: Decision)
    requires f.Valid() && f.height == snap.height && FindsRows(env, snap) && a.column in f.cols
    requires DecideColumn(env, snap, f, a, d).Some?
    ensures EditedOnly(f.cols[a.column], env.finder(a, snap), DecideColumn(env, snap, f, a, d).value)
  {
    hide EditedOnly, ApplyEffect, StoreOutcome, IRExecutor.Executor.Execute, EffectOf;
    var col, rows := f.cols[a.column], env.finder(a, snap);
    Unedited(col, rows);
    assert forall k :: 0 <= k < |rows| ==> rows[k] in rows;
    if rows != [] {
      if UsesTree(a, d) {
        var out := IRExecutor.Executor(f, a.column, rows, env.text, env.mode).Execute(Some(d.ir.value), 0);
        if out.Ok? {
          OutcomeEditsOnly(col, rows, out.value);
        }
      } else {
        EffectEditsOnly(env.text, col, rows, EffectOf(a, d));
      }
    }
  }

  /** Row `i` of column `c` is the same, and the column keeps its type if that row holds a value. */
  ghost predicate RowKept(f: Frame, g: Frame, c: string, i: nat)
    requires c in f.cols && c in g.cols
  {
    && |g.cols[c].cells| == |f.cols[c].cells|
    && (i < |f.cols[c].cells| ==>
          && g.cols[c].cells[i] == f.cols[c].cells[i]
          && (!f.cols[c].cells[i].Null? ==> g.cols[c].dtype == f.cols[c].dtype))
    && (f.cols[c].dtype.StrD? ==> g.cols[c].dtype.StrD?)
  }

  lemma TurnKeepsRow(env: Env, snap: Frame, f: Frame, am: AnomalyMap, d: Decision, c: string, i: nat)
    requires f.Valid() && f.height == snap.height && FindsRows(env, snap) && c in f.cols
    requires Concerns(am, d, c) ==> i !in env.finder(am[d.anomalyId], snap)
    requires Decide(env, snap, f, am, d).Some?
    ensures RowKept(f, Decide(env, snap, f, am, d).value, c, i)
  {
    hide DecideColumn, Fits;
    if d.anomalyId in am && am[d.anomalyId].column in f.cols {
      var a := am[d.anomalyId];
      DecisionEditsOnly(env, snap, f, a, d);
      if a.column == c && i < |f.cols[c].cells| && !f.cols[c].cells[i].Null? {
        assert Anchor(f.cols[c].cells, env.finder(a, snap));
      }
    }
  }

  /** Whatever the decisions are, a row that none of them finds keeps its value and so its column's type. */
  lemma {:induction false} LoopKeepsRow(env: Env, snap: Frame, f: Frame, am: AnomalyMap, ds: seq<Decision>, c: string,
                                        i: nat)
    requires f.Valid() && f.height == snap.height && FindsRows(env, snap) && c in f.cols
    requires OutOfReach(env, snap, am, ds, c, i) && DecideAll(env, snap, f, am, ds).Some?
    ensures RowKept(f, DecideAll(env, snap, f, am, ds).value, c, i)
  {
    hide Decide, Fits;
    if ds != [] {
      var init := ds[..|ds| - 1];
      LoopKeepsRow(env, snap, f, am, init, c, i);
      TurnKeepsRow(env, snap, DecideAll(env, snap, f, am, init).value, am, ds[|ds| - 1], c, i);
    }
  }

  // ---------------------------------------------------------------------------------------------
  // The whole run

  /** The decisions as the loop meets them. */
  function Steps(env: Env, df: Frame, anomalies: seq<Anomaly>, decisions: seq<Decision>, c: string): seq<Step> {
    StepsOn(env, df, ToAnomalyMap(anomalies), ToDecisionMap(decisions), c)
  }

  ghost predicate EndsNothing(anomalies: seq<Anomaly>, c: string) {
    forall k :: 0 <= k < |Constraints(anomalies)| ==> Constraints(anomalies)[k].end != c
  }

  /** A column that no date rule writes is returned as the loop leaves it, stripped. */
  lemma ReturnedColumn(env: Env, df: Frame, anomalies: seq<Anomaly>, decisions: seq<Decision>, c: string)
    requires df.Valid() && FindsRows(env, df) && decisions != [] && c in df.cols && EndsNothing(anomalies, c)
    ensures match DecideAll(env, df, df, ToAnomalyMap(anomalies), ToDecisionMap(decisions))
            case None => Apply(env, df, anomalies, decisions) == None
            case Some(g) =>
              Apply(env, df, anomalies, decisions).Some?
              && Apply(env, df, anomalies, decisions).value.cols[c] == StripColumn(g.cols[c])
  {
    hide DecideAll, StripColumn, ToAnomalyMap, ToDecisionMap, Constraints;
    var g := DecideAll(env, df, df, ToAnomalyMap(anomalies), ToDecisionMap(decisions));
    if g.Some? {
      DateRepair.StartUntouched(env.iso, StripFrame(g.value), Constraints(anomalies), c);
    }
  }

  /** What the last-writer rule makes of column `c`; None is the exception of a DUPLICATE decision. */
  function ColumnOutcome(env: Env, df: Frame, anomalies: seq<Anomaly>, decisions: seq<Decision>, c: string)
    : Option<Column>
    requires c in df.cols
  {
    Outcome(env.text, df.cols[c], Steps(env, df, anomalies, decisions, c))
  }

  /** A column whose decisions run no tree is its last-writer column, whatever the other columns' decisions run. */
  lemma LoopIsLastWriter(env: Env, df: Frame, anomalies: seq<Anomaly>, decisions: seq<Decision>, c: string)
    requires df.Valid() && FindsRows(env, df) && c in df.cols
    requires TreeFreeOn(ToAnomalyMap(anomalies), ToDecisionMap(decisions), c)
    ensures match DecideAll(env, df, df, ToAnomalyMap(anomalies), ToDecisionMap(decisions))
            case None => true
            case Some(g) => ColumnOutcome(env, df, anomalies, decisions, c) == Some(g.cols[c])
  {
    hide DecideAll, StepsOn, ApplySteps, Outcome, TreeFreeOn;
    var am, dm := ToAnomalyMap(anomalies), ToDecisionMap(decisions);
    if DecideAll(env, df, df, am, dm).Some? {
      ColumnIsItsSteps(env, df, df, am, dm, c);
      TypedColumn(df, c);
      StepsAreLastWriter(env.text, df.cols[c], StepsOn(env, df, am, dm, c));
    }
  }

  /** The run fails exactly when the last-writer rule fails on some column. */
  lemma LoopRaisesExactly(env: Env, df: Frame, anomalies: seq<Anomaly>, decisions: seq<Decision>)
    requires df.Valid() && FindsRows(env, df) && TreeFree(ToAnomalyMap(anomalies), ToDecisionMap(decisions))
    ensures DecideAll(env, df, df, ToAnomalyMap(anomalies), ToDecisionMap(decisions)).None?
            <==> exists c :: c in df.cols && ColumnOutcome(env, df, anomalies, decisions, c) == None
  {
    hide DecideAll, StepsOn, ApplySteps, Outcome, TreeFreeOn;
    var am, dm := ToAnomalyMap(anomalies), ToDecisionMap(decisions);
    if DecideAll(env, df, df, am, dm).None? {
      RaiseHasColumn(env, df, df, am, dm);
      var c :| c in df.cols && ApplySteps(env.text, df.cols[c], StepsOn(env, df, am, dm, c)) == None;
      TypedColumn(df, c);
      StepsAreLastWriter(env.text, df.cols[c], StepsOn(env, df, am, dm, c));
      assert ColumnOutcome(env, df, anomalies, decisions, c) == None;
    } else {
      forall c | c in df.cols
        ensures ColumnOutcome(env, df, anomalies, decisions, c).Some?
      {
        LoopIsLastWriter(env, df, anomalies, decisions, c);
      }
    }
  }

  /** The frame of the stripped last-writer columns. */
  function OutcomeFrame(env: Env, df: Frame, anomalies: seq<Anomaly>, decisions: seq<Decision>): Frame {
    df.(cols := map c | c in df.cols && ColumnOutcome(env, df, anomalies, decisions, c).Some? ::
                  StripColumn(ColumnOutcome(env, df, anomalies, decisions, c).value))
  }

  /**
   * A whole run without trees, exactly: it raises if the last-writer rule fails on some column, and else returns the
   * date repair of the stripped last-writer columns.
   */
  lemma ApplyIsLastWriter(env: Env, df: Frame, anomalies: seq<Anomaly>, decisions: seq<Decision>)
    requires df.Valid() && FindsRows(env, df) && decisions != []
    requires TreeFree(ToAnomalyMap(anomalies), ToDecisionMap(decisions))
    ensures if exists c :: c in df.cols && ColumnOutcome(env, df, anomalies, decisions, c) == None
            then Apply(env, df, anomalies, decisions) == None
            else
              OutcomeFrame(env, df, anomalies, decisions).Valid()
              && Apply(env, df, anomalies, decisions)
                 == Some(DateRepair.Repair(env.iso, OutcomeFrame(env, df, anomalies, decisions),
                                           Constraints(anomalies)))
  {
    hide DecideAll, StripColumn, ColumnOutcome, TreeFreeOn, Constraints;
    LoopRaisesExactly(env, df, anomalies, decisions);
    var g := DecideAll(env, df, df, ToAnomalyMap(anomalies), ToDecisionMap(decisions));
    if g.Some? {
      forall c | c in df.cols
        ensures ColumnOutcome(env, df, anomalies, decisions, c) == Some(g.value.cols[c])
      {
        LoopIsLastWriter(env, df, anomalies, decisions, c);
      }
      assert OutcomeFrame(env, df, anomalies, decisions).cols == StripFrame(g.value).cols;
      assert OutcomeFrame(env, df, anomalies, decisions) == StripFrame(g.value);
    }
  }

  /** Some step on column `c` marks a value beside one that is no text, before anything turned the column into text. */
  ghost predicate RaisesOn(env: Env, df: Frame, anomalies: seq<Anomaly>, decisions: seq<Decision>, c: string)
    requires c in df.cols
  {
    var steps := Steps(env, df, anomalies, decisions, c);
    exists k :: 0 <= k < |steps| && FirstRaise(env.text, df.cols[c], steps, k)
  }

  ghost predicate FirstRaise(text: Text, col: Column, steps: seq<Step>, k: nat)
    requires k < |steps|
  {
    && (forall j :: 0 <= j < k ==> !Breaks(text, col, steps, j))
    && Raises(text, CellsOf(text, col, steps[..k]), steps[k])
  }

  /** A run without trees raises exactly when a DUPLICATE decision meets a value that is no text and gets no mark. */
  lemma ApplyRaisesExactly(env: Env, df: Frame, anomalies: seq<Anomaly>, decisions: seq<Decision>)
    requires df.Valid() && FindsRows(env, df) && decisions != []
    requires TreeFree(ToAnomalyMap(anomalies), ToDecisionMap(decisions))
    ensures Apply(env, df, anomalies, decisions).None?
            <==> exists c :: c in df.cols && RaisesOn(env, df, anomalies, decisions, c)
  {
    hide DecideAll, StepsOn, TreeFreeOn, Breaks, CellsOf, Raises;
    LoopRaisesExactly(env, df, anomalies, decisions);
    forall c | c in df.cols
      ensures ColumnOutcome(env, df, anomalies, decisions, c) == None <==> RaisesOn(env, df, anomalies, decisions, c)
    {
      OutcomeRaises(env.text, df.cols[c], Steps(env, df, anomalies, decisions, c));
    }
  }

  /** The decision meets the frame as the earlier ones leave it, and ends the run. */
  ghost predicate RaisesNow(env: Env, snap: Frame, f: Frame, am: AnomalyMap, d: Decision)
    requires f.Rectangular() && f.height == snap.height && FindsRows(env, snap)
  {
    d.anomalyId in am && am[d.anomalyId].column in f.cols &&
    var a := am[d.anomalyId];
    var rows := env.finder(a, snap);
    assert forall k :: 0 <= k < |rows| ==> rows[k] in env.finder(a, snap);
    if UsesTree(a, d) then TreeEscapes(env, f, a, d.ir.value, rows)
    else Raises(env.text, f.cols[a.column], StepOf(env, snap, am, d))
  }

  /** On the rows that were found the tree raises an error outside the executor's own. */
  ghost predicate TreeEscapes(env: Env, f: Frame, a: Anomaly, ir: Json, rows: seq<nat>)
    requires f.Rectangular() && a.column in f.cols
    requires forall k :: 0 <= k < |rows| ==> rows[k] < f.height
  {
    rows != [] &&
    var r := IRExecutor.Executor(f, a.column, rows, env.text, env.mode).Execute(Some(ir), 0);
    r.Err? && (r.error.Malformed? || r.error.CastFailed?)
  }

  ghost predicate Raised(env: Env, snap: Frame, f: Frame, am: AnomalyMap, ds: seq<Decision>)
    requires f.Rectangular() && f.height == snap.height && FindsRows(env, snap)
  {
    ds != [] &&
    var init, d := ds[..|ds| - 1], ds[|ds| - 1];
    || Raised(env, snap, f, am, init)
    || match DecideAll(env, snap, f, am, init)
       case None => false
       case Some(g) => RaisesNow(env, snap, g, am, d)
  }

  lemma TurnRaises(env: Env, snap: Frame, f: Frame, am: AnomalyMap, d: Decision)
    requires f.Valid() && f.height == snap.height && FindsRows(env, snap)
    ensures Decide(env, snap, f, am, d) == None <==> RaisesNow(env, snap, f, am, d)
  {
    hide AllText, ApplyStep, EffectOf, StoreOutcome, IRExecutor.Executor.Execute;
    if d.anomalyId in am && am[d.anomalyId].column in f.cols {
      var a := am[d.anomalyId];
      var rows := env.finder(a, snap);
      assert forall k :: 0 <= k < |rows| ==> rows[k] in env.finder(a, snap);
      if !UsesTree(a, d) {
        TurnIsStep(env, snap, f, am, d, a.column);
        TypedColumn(f, a.column);
        StepIsCellwise(env.text, f.cols[a.column], StepOf(env, snap, am, d));
      }
    }
  }

  lemma {:induction false} LoopRaises(env: Env, snap: Frame, f: Frame, am: AnomalyMap, ds: seq<Decision>)
    requires f.Valid() && f.height == snap.height && FindsRows(env, snap)
    ensures DecideAll(env, snap, f, am, ds) == None <==> Raised(env, snap, f, am, ds)
  {
    hide Decide, RaisesNow;
    if ds != [] {
      var init := ds[..|ds| - 1];
      LoopRaises(env, snap, f, am, init);
      var g := DecideAll(env, snap, f, am, init);
      if g.Some? {
        TurnRaises(env, snap, g.value, am, ds[|ds| - 1]);
      }
    }
  }

  /**
   * With any decisions, trees included: the run raises exactly when some decision, on the frame the earlier
   * ones leave, marks a value beside one that is no text or runs a tree that raises an error nobody catches.
   */
  lemma ApplyRaises(env: Env, df: Frame, anomalies: seq<Anomaly>, decisions: seq<Decision>)
    requires df.Valid() && FindsRows(env, df) && decisions != []
    ensures Apply(env, df, anomalies, decisions).None?
            <==> Raised(env, df, df, ToAnomalyMap(anomalies), ToDecisionMap(decisions))
  {
    hide DecideAll, Raised, ToAnomalyMap, ToDecisionMap;
    LoopRaises(env, df, df, ToAnomalyMap(anomalies), ToDecisionMap(decisions));
  }

  lemma OutcomeRaises(text: Text, col: Column, steps: seq<Step>)
    ensures Outcome(text, col, steps) == None <==> exists k :: 0 <= k < |steps| && FirstRaise(text, col, steps, k)
  {
    hide CellsOf, Raises, Turns, Edited;
    var n := Quiet(text, col, steps);
    if n < |steps| && Raises(text, CellsOf(text, col, steps[..n]), steps[n]) {
      assert FirstRaise(text, col, steps, n);
    }
    forall k | 0 <= k < |steps| && FirstRaise(text, col, steps, k)
      ensures k == n
    {
      assert Breaks(text, col, steps, k);
    }
  }

  lemma TypedColumn(f: Frame, c: string)
    requires f.Valid() && c in f.cols
    ensures WellTyped(f.cols[c])
  {
  }

  /** A row no decision finds is only stripped, whatever the decisions run. */
  lemma ApplyKeepsRow(env: Env, df: Frame, anomalies: seq<Anomaly>, decisions: seq<Decision>, c: string, i: nat)
    requires df.Valid() && FindsRows(env, df) && decisions != [] && c in df.cols && i < df.height
    requires OutOfReach(env, df, ToAnomalyMap(anomalies), ToDecisionMap(decisions), c, i)
    requires EndsNothing(anomalies, c)
    ensures match Apply(env, df, anomalies, decisions)
            case None => true
            case Some(r) => r.cols[c].cells[i] == StripCell(df.cols[c].cells[i])
  {
    hide Apply, DecideAll, OutOfReach, EndsNothing, Strip;
    var am, dm := ToAnomalyMap(anomalies), ToDecisionMap(decisions);
    ReturnedColumn(env, df, anomalies, decisions, c);
    if DecideAll(env, df, df, am, dm).Some? {
      LoopKeepsRow(env, df, df, am, dm, c, i);
      assert Fits(df.cols[c].dtype, df.cols[c].cells[i]);
    }
  }

  /** Some decision of the list meets column `c` as the earlier ones leave it, and turns it into text. */
  ghost predicate Turned(env: Env, snap: Frame, f: Frame, am: AnomalyMap, ds: seq<Decision>, c: string)
    requires f.Rectangular() && f.height == snap.height && FindsRows(env, snap) && c in f.cols
  {
    ds != [] &&
    var init, d := ds[..|ds| - 1], ds[|ds| - 1];
    || Turned(env, snap, f, am, init, c)
    || match DecideAll(env, snap, f, am, init)
       case None => false
       case Some(g) => TurnsNow(env, snap, g, am, d, c)
  }

  ghost predicate TurnsNow(env: Env, snap: Frame, f: Frame, am: AnomalyMap, d: Decision, c: string)
    requires c in f.cols
  {
    && Concerns(am, d, c) && !UsesTree(am[d.anomalyId], d)
    && Turns(env.text, f.cols[c], StepOf(env, snap, am, d))
  }

  lemma TreeKeepsType(env: Env, f: Frame, a: Anomaly, ir: Json, rows: seq<nat>)
    requires f.Rectangular() && a.column in f.cols
    requires forall k :: 0 <= k < |rows| ==> rows[k] < f.height
    ensures match RunTree(env, f, a, ir, rows)
            case None => true
            case Some(col) => col.dtype == f.cols[a.column].dtype
  {
    hide IRExecutor.Executor.Execute;
  }

  lemma TurnType(env: Env, snap: Frame, f: Frame, am: AnomalyMap, d: Decision, c: string)
    requires f.Valid() && f.height == snap.height && FindsRows(env, snap) && c in f.cols
    ensures match Decide(env, snap, f, am, d)
            case None => true
            case Some(g) =>
              g.cols[c].dtype == if TurnsNow(env, snap, f, am, d, c) then StrD else f.cols[c].dtype
    ensures TurnsNow(env, snap, f, am, d, c) ==> !f.cols[c].dtype.StrD?
  {
    hide AllText, RunTree, ApplyStep, EffectOf;
    if Concerns(am, d, c) {
      var a := am[d.anomalyId];
      var rows := env.finder(a, snap);
      assert forall k :: 0 <= k < |rows| ==> rows[k] in env.finder(a, snap);
      if UsesTree(a, d) {
        TreeKeepsType(env, f, a, d.ir.value, rows);
      } else {
        TurnIsStep(env, snap, f, am, d, c);
        TypedColumn(f, c);
        StepIsCellwise(env.text, f.cols[c], StepOf(env, snap, am, d));
      }
    }
  }

  /** With any decisions, trees included: a column changes its type exactly when one of them turns it into text. */
  lemma {:induction false} TypeChangesExactly(env: Env, snap: Frame, f: Frame, am: AnomalyMap, ds: seq<Decision>,
                                              c: string)
    requires f.Valid() && f.height == snap.height && FindsRows(env, snap) && c in f.cols
    ensures match DecideAll(env, snap, f, am, ds)
            case None => true
            case Some(g) =>
              && g.cols[c].dtype == (if Turned(env, snap, f, am, ds, c) then StrD else f.cols[c].dtype)
              && (Turned(env, snap, f, am, ds, c) ==> !f.cols[c].dtype.StrD?)
  {
    hide Decide, TurnsNow;
    if ds != [] {
      var init := ds[..|ds| - 1];
      TypeChangesExactly(env, snap, f, am, init, c);
      var g := DecideAll(env, snap, f, am, init);
      if g.Some? {
        TurnType(env, snap, g.value, am, ds[|ds| - 1], c);
      }
    }
  }

  /** No decision turns column `c` into text. */
  ghost predicate KeepsType(env: Env, df: Frame, anomalies: seq<Anomaly>, decisions: seq<Decision>, c: string)
    requires df.Valid() && FindsRows(env, df) && c in df.cols
  {
    !Turned(env, df, df, ToAnomalyMap(anomalies), ToDecisionMap(decisions), c)
  }

  /**
   * Every start <= end rule holds on the returned frame, on every row, after any decisions, trees included,
   * that turn none of the rules' date columns into text.
   */
  lemma ApplyMeetsDateRules(env: Env, df: Frame, anomalies: seq<Anomaly>, decisions: seq<Decision>)
    requires df.Valid() && FindsRows(env, df) && decisions != []
    requires var cs := Constraints(anomalies); DateRepair.AllDates(df, cs) && DateRepair.InOrder(cs)
    requires forall k :: 0 <= k < |Constraints(anomalies)| && DateRepair.Applies(df, Constraints(anomalies)[k]) ==>
               && KeepsType(env, df, anomalies, decisions, Constraints(anomalies)[k].start)
               && KeepsType(env, df, anomalies, decisions, Constraints(anomalies)[k].end)
    ensures match Apply(env, df, anomalies, decisions)
            case None => true
            case Some(r) =>
              forall k :: 0 <= k < |Constraints(anomalies)| ==> DateRepair.Holds(r, Constraints(anomalies)[k])
  {
    hide DecideAll, KeepsType, DateRepair.Repair, DateRepair.Holds, DateRepair.InOrder, DateRepair.AllDates,
         Constraints,
         ToAnomalyMap, ToDecisionMap, StripColumn;
    var g := DecideAll(env, df, df, ToAnomalyMap(anomalies), ToDecisionMap(decisions));
    if g.Some? {
      RulesStayDates(env, df, anomalies, decisions, Constraints(anomalies));
      DateRepair.RepairSatisfiesAll(env.iso, StripFrame(g.value), Constraints(anomalies));
    }
  }

  lemma RulesStayDates(env: Env, df: Frame, anomalies: seq<Anomaly>, decisions: seq<Decision>,
                       cs: seq<DateRepair.Constraint>)
    requires df.Valid() && FindsRows(env, df) && DateRepair.AllDates(df, cs)
    requires DecideAll(env, df, df, ToAnomalyMap(anomalies), ToDecisionMap(decisions)).Some?
    requires forall k :: 0 <= k < |cs| && DateRepair.Applies(df, cs[k]) ==>
               KeepsType(env, df, anomalies, decisions, cs[k].start)
                 && KeepsType(env, df, anomalies, decisions, cs[k].end)
    ensures var g := DecideAll(env, df, df, ToAnomalyMap(anomalies), ToDecisionMap(decisions)).value;
            DateRepair.AllDates(StripFrame(g), cs)
  {
    hide DecideAll, KeepsType, StripColumn, ToAnomalyMap, ToDecisionMap;
    var g := StripFrame(DecideAll(env, df, df, ToAnomalyMap(anomalies), ToDecisionMap(decisions)).value);
    forall k | 0 <= k < |cs| && DateRepair.Applies(g, cs[k])
      ensures DateRepair.IsDate(g.cols[cs[k].start].dtype) && DateRepair.IsDate(g.cols[cs[k].end].dtype)
    {
      LoopKeepsType(env, df, anomalies, decisions, cs[k].start);
      LoopKeepsType(env, df, anomalies, decisions, cs[k].end);
    }
  }

  lemma LoopKeepsType(env: Env, df: Frame, anomalies: seq<Anomaly>, decisions: seq<Decision>, c: string)
    requires df.Valid() && FindsRows(env, df) && c in df.cols && KeepsType(env, df, anomalies, decisions, c)
    requires DecideAll(env, df, df, ToAnomalyMap(anomalies), ToDecisionMap(decisions)).Some?
    ensures StripFrame(DecideAll(env, df, df, ToAnomalyMap(anomalies), ToDecisionMap(decisions)).value).cols[c].dtype
            == df.cols[c].dtype
  {
    hide DecideAll, Turned, ToAnomalyMap, ToDecisionMap;
    TypeChangesExactly(env, df, df, ToAnomalyMap(anomalies), ToDecisionMap(decisions), c);
  }

  // ---------------------------------------------------------------------------------------------
  // Order and discarded decisions, for the whole run

  predicate DistinctIds(ds: seq<Decision>) {
    forall i, j :: 0 <= i < j < |ds| ==> ds[i].anomalyId != ds[j].anomalyId
  }

  lemma {:induction false} UpsertNew(ds: seq<Decision>, d: Decision)
    requires forall i :: 0 <= i < |ds| ==> ds[i].anomalyId != d.anomalyId
    ensures Upsert(ds, d) == ds + [d]
  {
    if ds != [] {
      UpsertNew(ds[1..], d);
    }
  }

  /** The stored decisions have one row per anomaly, so the map is the list itself. */
  lemma {:induction false} MapOfDistinct(ds: seq<Decision>)
    requires DistinctIds(ds)
    ensures ToDecisionMap(ds) == ds
  {
    if ds != [] {
      MapOfDistinct(ds[..|ds| - 1]);
      UpsertNew(ds[..|ds| - 1], ds[|ds| - 1]);
    }
  }

  /**
   * Neighbouring decisions on different columns may come in either order, trees included, unless one of the
   * trees names the other's column.
   */
  lemma ApplySwaps(env: Env, df: Frame, anomalies: seq<Anomaly>,
                   before: seq<Decision>, x: Decision, y: Decision, after: seq<Decision>)
    requires df.Valid() && FindsRows(env, df) && DistinctIds(before + [x] + [y] + after)
    requires Independent(ToAnomalyMap(anomalies), x, y)
    ensures Apply(env, df, anomalies, before + [x] + [y] + after)
            == Apply(env, df, anomalies, before + [y] + [x] + after)
  {
    hide DecideAll, Independent, ToAnomalyMap;
    var ds, es := before + [x] + [y] + after, before + [y] + [x] + after;
    var n := |before|;
    forall i, j | 0 <= i < j < |es|
      ensures es[i].anomalyId != es[j].anomalyId
    {
      var p := if i == n then n + 1 else if i == n + 1 then n else i;
      var q := if j == n then n + 1 else if j == n + 1 then n else j;
      assert es[i] == ds[p] && es[j] == ds[q];
    }
    MapOfDistinct(ds);
    MapOfDistinct(es);
    SwapNeighbours(env, df, df, ToAnomalyMap(anomalies), before, x, y, after);
  }

  /** A discarded decision may be added or removed while another one remains. */
  lemma ApplyDropsDiscarded(env: Env, df: Frame, anomalies: seq<Anomaly>,
                            before: seq<Decision>, d: Decision, after: seq<Decision>)
    requires df.Valid() && FindsRows(env, df) && DistinctIds(before + [d] + after) && d.action.Discarded?
    requires before + after != []
    ensures Apply(env, df, anomalies, before + [d] + after) == Apply(env, df, anomalies, before + after)
  {
    hide DecideAll, ToAnomalyMap;
    var ds, es := before + [d] + after, before + after;
    var n := |before|;
    forall i, j | 0 <= i < j < |es|
      ensures es[i].anomalyId != es[j].anomalyId
    {
      var p, q := if i < n then i else i + 1, if j < n then j else j + 1;
      assert es[i] == ds[p] && es[j] == ds[q];
    }
    MapOfDistinct(ds);
    MapOfDistinct(es);
    DiscardIsIdentity(env, df, df, ToAnomalyMap(anomalies), before, d, after);
  }

  lemma {:induction false} UpsertFrom(ds: seq<Decision>, d: Decision)
    ensures Upsert(ds, d) != []
    ensures forall x :: x in Upsert(ds, d) ==> x == d || x in ds
  {
    if ds != [] {
      UpsertFrom(ds[1..], d);
    }
  }

  lemma {:induction false} MapFrom(ds: seq<Decision>)
    ensures forall x :: x in ToDecisionMap(ds) ==> x in ds
  {
    if ds != [] {
      MapFrom(ds[..|ds| - 1]);
      UpsertFrom(ToDecisionMap(ds[..|ds| - 1]), ds[|ds| - 1]);
    }
  }

  lemma {:induction false} DiscardedLoop(env: Env, snap: Frame, f: Frame, am: AnomalyMap, ds: seq<Decision>)
    requires f.Rectangular() && f.height == snap.height && FindsRows(env, snap)
    requires forall d :: d in ds ==> d.action.Discarded?
    ensures DecideAll(env, snap, f, am, ds) == Some(f)
  {
    hide Decide;
    if ds != [] {
      DiscardedLoop(env, snap, f, am, ds[..|ds| - 1]);
      DiscardedTurn(env, snap, f, am, ds[|ds| - 1]);
    }
  }

  /** When everything is discarded the frame is still stripped, and its dates are still repaired. */
  lemma AllDiscarded(env: Env, df: Frame, anomalies: seq<Anomaly>, decisions: seq<Decision>)
    requires df.Valid() && FindsRows(env, df) && decisions != []
    requires forall d :: d in decisions ==> d.action.Discarded?
    ensures Apply(env, df, anomalies, decisions)
            == Some(DateRepair.Repair(env.iso, StripFrame(df), Constraints(anomalies)))
    ensures Apply(env, df, anomalies, decisions) == Apply(env, df, anomalies, [])
            <==> DateRepair.Repair(env.iso, StripFrame(df), Constraints(anomalies)) == df
  {
    hide DecideAll, ToDecisionMap, ToAnomalyMap, Constraints;
    MapFrom(decisions);
    DiscardedLoop(env, df, df, ToAnomalyMap(anomalies), ToDecisionMap(decisions));
  }

  /**
   * Without decisions the frame comes back as it is. Discarding everything does the same exactly when no
   * text needs stripping and every date rule holds already.
   */
  lemma DiscardingAllExactly(env: Env, df: Frame, anomalies: seq<Anomaly>, decisions: seq<Decision>)
    requires df.Valid() && FindsRows(env, df) && decisions != []
    requires forall d :: d in decisions ==> d.action.Discarded?
    requires DateRepair.AllDates(df, Constraints(anomalies))
    ensures Apply(env, df, anomalies, []) == Some(df)
    ensures Apply(env, df, anomalies, decisions) == Apply(env, df, anomalies, [])
            <==> && (forall c :: c in df.cols ==> StripColumn(df.cols[c]) == df.cols[c])
                 && forall k :: 0 <= k < |Constraints(anomalies)| ==> DateRepair.Holds(df, Constraints(anomalies)[k])
  {
    hide DecideAll, StripColumn, StripFrame, ToDecisionMap, ToAnomalyMap, Constraints, DateRepair.Repair,
         DateRepair.Holds, DateRepair.AllDates;
    var cs := Constraints(anomalies);
    AllDiscarded(env, df, anomalies, decisions);
    if Apply(env, df, anomalies, decisions) == Some(df) {
      forall c | c in df.cols
        ensures StripColumn(df.cols[c]) == df.cols[c]
      {
        StrippedStays(env.iso, df, cs, c);
      }
    }
    if forall c :: c in df.cols ==> StripColumn(df.cols[c]) == df.cols[c] {
      NothingToStrip(df);
      DateRepair.FixedExactly(env.iso, df, cs);
    }
  }

  lemma NothingToStrip(df: Frame)
    requires forall c :: c in df.cols ==> StripColumn(df.cols[c]) == df.cols[c]
    ensures StripFrame(df) == df
  {
    hide StripColumn;
    assert StripFrame(df).cols == df.cols;
  }

  lemma StrippedStays(iso: DateRepair.IsoReader, df: Frame, cs: seq<DateRepair.Constraint>, c: string)
    requires df.Valid() && c in df.cols && DateRepair.AllDates(df, cs)
    requires DateRepair.Repair(iso, StripFrame(df), cs) == df
    ensures StripColumn(df.cols[c]) == df.cols[c]
  {
    hide DateRepair.Repair, Strip;
    if df.cols[c].dtype.StrD? {
      DateRepair.StartUntouched(iso, StripFrame(df), cs, c);
    }
  }

  /** Row `i` breaks rule `k`, whose start no earlier rule moves. */
  ghost predicate Unkept(df: Frame, cs: seq<DateRepair.Constraint>, k: nat, i: nat)
    requires df.Rectangular() && k < |cs| && i < df.height
  {
    && DateRepair.Applies(df, cs[k])
    && DateRepair.IsDate(df.cols[cs[k].start].dtype) && DateRepair.IsDate(df.cols[cs[k].end].dtype)
    && !df.cols[cs[k].start].cells[i].Null? && !df.cols[cs[k].end].cells[i].Null?
    && DateRepair.DayOf(df.cols[cs[k].end].cells[i]) < DateRepair.DayOf(df.cols[cs[k].start].cells[i])
    && forall j :: 0 <= j < k ==> cs[j].end != cs[k].start
  }

  lemma DatesAreNotStripped(df: Frame, c: DateRepair.Constraint)
    requires DateRepair.Applies(df, c)
    requires DateRepair.IsDate(df.cols[c.start].dtype) && DateRepair.IsDate(df.cols[c.end].dtype)
    ensures StripFrame(df).cols[c.start] == df.cols[c.start] && StripFrame(df).cols[c.end] == df.cols[c.end]
  {
  }

  /**
   * DISCARDED on a DATE_LOGICAL anomaly does not keep the end date: on a row that breaks the rule it comes
   * back as null or as a day that is not before the start, so not as it was.
   */
  lemma DiscardedDateIsLost(env: Env, df: Frame, anomalies: seq<Anomaly>, decisions: seq<Decision>, k: nat, i: nat)
    requires df.Valid() && FindsRows(env, df) && decisions != [] && i < df.height
    requires forall d :: d in decisions ==> d.action.Discarded?
    requires DateRepair.AllDates(df, Constraints(anomalies))
    requires k < |Constraints(anomalies)| && Unkept(df, Constraints(anomalies), k, i)
    ensures var rule := Constraints(anomalies)[k];
            && Apply(env, df, anomalies, decisions).Some?
            && var end := Apply(env, df, anomalies, decisions).value.cols[rule.end].cells[i];
               end.Null? || DateRepair.DayOf(end) >= DateRepair.DayOf(df.cols[rule.start].cells[i])
  {
    hide Apply, Constraints, DateRepair.Repair, StripFrame, StripColumn;
    AllDiscarded(env, df, anomalies, decisions);
    DatesAreNotStripped(df, Constraints(anomalies)[k]);
    DateRepair.EndReachesStart(env.iso, StripFrame(df), Constraints(anomalies), k, i);
  }

  /** If no other rule ends in the column, it is the start plus the repair distance, or null if there is no such day. */
  lemma DiscardedDateIsMoved(env: Env, df: Frame, anomalies: seq<Anomaly>, decisions: seq<Decision>, k: nat, i: nat)
    requires df.Valid() && FindsRows(env, df) && decisions != [] && i < df.height
    requires forall d :: d in decisions ==> d.action.Discarded?
    requires k < |Constraints(anomalies)| && Unkept(df, Constraints(anomalies), k, i)
    requires forall j :: 0 <= j < |Constraints(anomalies)| && j != k ==>
               Constraints(anomalies)[j].end != Constraints(anomalies)[k].end
    ensures var rule := Constraints(anomalies)[k];
            var moved := DateRepair.DayOf(df.cols[rule.start].cells[i]) + 18 * 365;
            && Apply(env, df, anomalies, decisions).Some?
            && Apply(env, df, anomalies, decisions).value.cols[rule.end].cells[i]
               == if moved > Calendar.DaysBefore(10000) then Null
                  else if df.cols[rule.end].dtype.DatetimeD? then StampC(moved, 0) else DateC(moved)
  {
    hide Apply, Constraints, DateRepair.Repair, StripFrame, StripColumn;
    AllDiscarded(env, df, anomalies, decisions);
    DatesAreNotStripped(df, Constraints(anomalies)[k]);
    DateRepair.OnlyRuleMoves(env.iso, StripFrame(df), Constraints(anomalies), k, i);
  }
}
