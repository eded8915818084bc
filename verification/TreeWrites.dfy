/** A tree's result on the column: which row holds which value, in the loop and on the returned frame. */
module TreeWrites {
  import opened DecisionProperties
  import opened Decisions
  import opened IRSentinels
  import opened MainDecision
  import opened Rows
  import opened Values
  import DecisionOutcome
  import IR
  import IRExecutor
  import IRRefinement

  /** Every value that the tree writes fits the column. */
  ghost predicate WritesFit(e: IRExecutor.Executor, node: Json)
    requires e.Valid()
  {
    forall k :: 0 <= k < |e.rows| ==> Fitting(e, RowWrite(e, node, e.rows[k]))
  }

  predicate Fitting(e: IRExecutor.Executor, w: Option<Cell>)
    requires e.column in e.frame.cols
  {
    w.Some? ==> Accepts(e.Dtype(), w.value)
  }

  /** What a row holds that held `before`; an integer in a float column is that number. */
  function CellAfter(d: Dtype, before: Cell, w: Option<Cell>): Cell {
    match (d, w)
    case (_, None) => before
    case (FloatD, Some(IntC(n))) => RealC(n as real)
    case (_, Some(v)) => v
  }

  /** Found rows hold what the tree writes to them, and the others what they held. */
  ghost predicate TreeColumn(e: IRExecutor.Executor, node: Json, r: Column)
    requires e.Valid() && WritesFit(e, node)
  {
    var col := e.frame.cols[e.column];
    && r.dtype == col.dtype && |r.cells| == |col.cells|
    && (forall i :: 0 <= i < |col.cells| && i !in e.rows ==> r.cells[i] == col.cells[i])
    && forall k :: 0 <= k < |e.rows| ==>
         Fitting(e, RowWrite(e, node, e.rows[k]))
         && r.cells[e.rows[k]] == CellAfter(col.dtype, col.cells[e.rows[k]], RowWrite(e, node, e.rows[k]))
  }

  /** The list that is written back: the outcome's value in each found row. */
  ghost predicate Lists(e: IRExecutor.Executor, o: IRExecutor.Outcome, cells: seq<Cell>)
    requires e.Valid() && e.Shape(o)
  {
    var col := e.frame.cols[e.column];
    && |cells| == |col.cells|
    && (forall i :: 0 <= i < |cells| && i !in e.rows ==> cells[i] == col.cells[i])
    && forall k :: 0 <= k < |e.rows| ==>
         IRRefinement.Written(e, o, k).Some? && cells[e.rows[k]] == IRRefinement.Written(e, o, k).value
  }

  /** A row that is found twice gets the same value twice. */
  ghost predicate RowDecides(e: IRExecutor.Executor, o: IRExecutor.Outcome)
    requires e.Valid() && e.Shape(o)
  {
    forall j, k :: 0 <= j < |e.rows| && 0 <= k < |e.rows| && e.rows[j] == e.rows[k] ==>
      IRRefinement.Written(e, o, j) == IRRefinement.Written(e, o, k)
  }

  lemma OutcomeLists(e: IRExecutor.Executor, o: IRExecutor.Outcome) returns (cells: seq<Cell>)
    requires e.Valid() && e.Shape(o) && o.kind.Fill? && RowDecides(e, o)
    ensures Lists(e, o, cells)
    ensures StoreOutcome(e.frame.cols[e.column], e.rows, o) == StoreOrKeep(e.frame.cols[e.column], cells)
  {
    hide StoreOrKeep;
    var col := e.frame.cols[e.column];
    if o.perRow.None? {
      cells := Overwrite(col.cells, e.rows, o.scalar);
    } else {
      cells := OverwriteEach(col.cells, e.rows, o.perRow.value);
      forall k | 0 <= k < |e.rows|
        ensures cells[e.rows[k]] == o.perRow.value[k]
      {
        var j := LastPlace(e.rows, k);
        OverwrittenAt(col.cells, e.rows, o.perRow.value, j);
        assert IRRefinement.Written(e, o, j) == IRRefinement.Written(e, o, k);
      }
    }
  }

  /** The list is stored if every value in it fits, and otherwise the column stays. */
  lemma ListStored(e: IRExecutor.Executor, o: IRExecutor.Outcome, cells: seq<Cell>)
    requires e.Valid() && e.Shape(o) && WellTyped(e.frame.cols[e.column]) && Lists(e, o, cells)
    ensures var col := e.frame.cols[e.column];
            var r := StoreOrKeep(col, cells);
            if forall k :: 0 <= k < |e.rows| ==> Fitting(e, IRRefinement.Written(e, o, k)) then
              && r.dtype == col.dtype && |r.cells| == |col.cells|
              && (forall i :: 0 <= i < |col.cells| && i !in e.rows ==> r.cells[i] == col.cells[i])
              && forall k :: 0 <= k < |e.rows| ==>
                   r.cells[e.rows[k]] == CellAfter(col.dtype, Null, IRRefinement.Written(e, o, k))
            else r == col
  {
    hide IRRefinement.Written, IRExecutor.Executor.Shape;
    var col := e.frame.cols[e.column];
    if forall k :: 0 <= k < |e.rows| ==> Fitting(e, IRRefinement.Written(e, o, k)) {
      forall i | 0 <= i < |cells|
        ensures Accepts(col.dtype, cells[i])
      {
        if i in e.rows {
          var k :| 0 <= k < |e.rows| && e.rows[k] == i;
        }
      }
    } else {
      var k :| 0 <= k < |e.rows| && !Fitting(e, IRRefinement.Written(e, o, k));
      assert !Accepts(col.dtype, cells[e.rows[k]]);
    }
  }

  /**
   * A tree that succeeds leaves, in each found row, what it means for that row, provided every
   * value fits the column, and otherwise leaves the column alone. A tree that fails leaves the column alone or
   * raises.
   */
  lemma TreeColumnExactly(env: Env, snap: Frame, f: Frame, a: Anomaly, d: Decision)
    requires f.Valid() && f.height == snap.height && FindsRows(env, snap) && a.column in f.cols
    requires UsesTree(a, d) && env.finder(a, snap) != []
    ensures var e := IRExecutor.Executor(f, a.column, env.finder(a, snap), env.text, env.mode);
            && e.Valid()
            && match e.Execute(d.ir, 0)
               case Err(err) =>
                 DecideColumn(env, snap, f, a, d)
                 == if err.Malformed? || err.CastFailed? then None else Some(f.cols[a.column])
               case Ok(_) =>
                 && DecideColumn(env, snap, f, a, d).Some?
                 && var r := DecideColumn(env, snap, f, a, d).value;
                    if WritesFit(e, d.ir.value) then TreeColumn(e, d.ir.value, r) else r == f.cols[a.column]
  {
    hide IRExecutor.Executor.Execute, RowWrite, StoreOutcome;
    var rows := env.finder(a, snap);
    assert forall k :: 0 <= k < |rows| ==> rows[k] in env.finder(a, snap);
    var e := IRExecutor.Executor(f, a.column, rows, env.text, env.mode);
    if e.Execute(d.ir, 0).Ok? {
      OutcomeStored(e, d.ir.value);
    }
  }

  lemma OutcomeStored(e: IRExecutor.Executor, node: Json)
    requires e.Valid() && WellTyped(e.frame.cols[e.column]) && e.rows != []
    requires e.Execute(Some(node), 0).Ok?
    ensures var r := StoreOutcome(e.frame.cols[e.column], e.rows, e.Execute(Some(node), 0).value);
            if WritesFit(e, node) then TreeColumn(e, node, r) else r == e.frame.cols[e.column]
  {
    hide IRExecutor.Executor.Execute, RowWrite, StoreOrKeep, Accepts;
    var o := e.Execute(Some(node), 0).value;
    forall k | 0 <= k < |e.rows|
      ensures IRRefinement.Written(e, o, k) == RowWrite(e, node, e.rows[k])
    {
      WritesExactly(e, node, k);
    }
    if o.kind.Fill? {
      var cells := OutcomeLists(e, o);
      ListStored(e, o, cells);
    }
  }

  // ---------------------------------------------------------------------------------------------
  // The returned frame

  /** The same after the closing strip. */
  ghost predicate ReturnedTree(e: IRExecutor.Executor, node: Json, r: Column)
    requires e.Valid()
  {
    var col := e.frame.cols[e.column];
    && r.dtype == col.dtype && |r.cells| == |col.cells|
    && (forall i :: 0 <= i < |col.cells| && i !in e.rows ==> r.cells[i] == StripCell(col.cells[i]))
    && forall k :: 0 <= k < |e.rows| ==>
         Fitting(e, RowWrite(e, node, e.rows[k]))
         && r.cells[e.rows[k]] == StripCell(CellAfter(col.dtype, col.cells[e.rows[k]], RowWrite(e, node, e.rows[k])))
  }

  lemma TreeStripped(e: IRExecutor.Executor, node: Json, r: Column)
    requires e.Valid() && WellTyped(e.frame.cols[e.column]) && WellTyped(r)
    requires WritesFit(e, node) && TreeColumn(e, node, r)
    ensures ReturnedTree(e, node, StripColumn(r))
  {
    hide RowWrite, Strip, CellAfter;
    forall i | 0 <= i < |r.cells|
      ensures StripColumn(r).cells[i] == StripCell(r.cells[i])
    {
      assert Fits(r.dtype, r.cells[i]);
    }
  }

  /**
   * A correction by a tree, on the returned frame. `g` is the frame that the tree reads: its own column and
   * those that no decision is about are as they were.
   */
  lemma TreeReturned(env: Env, df: Frame, anomalies: seq<Anomaly>, decisions: seq<Decision>, d: Decision, c: string)
    returns (g: Frame)
    requires df.Valid() && FindsRows(env, df) && decisions != [] && c in df.cols
    requires Main(ToAnomalyMap(anomalies), ToDecisionMap(decisions), d, c)
    requires df.cols[c].dtype.StrD? ==> Untrimmed(ToAnomalyMap(anomalies), ToDecisionMap(decisions), c)
    requires DecisionOutcome.EndsNothing(anomalies, c)
    requires var a := ToAnomalyMap(anomalies)[d.anomalyId];
             UsesTree(a, d) && env.finder(a, df) != []
    ensures Concerns(ToAnomalyMap(anomalies), d, c)
    ensures g.Valid() && SameShape(df, g) && g.cols[c] == df.cols[c]
    ensures RestKept(ToAnomalyMap(anomalies), ToDecisionMap(decisions), df, g)
    ensures var a := ToAnomalyMap(anomalies)[d.anomalyId];
            var e := IRExecutor.Executor(g, c, env.finder(a, df), env.text, env.mode);
            && e.Valid()
            && match Apply(env, df, anomalies, decisions)
               case None => true
               case Some(r) =>
                 if e.Execute(d.ir, 0).Ok? && WritesFit(e, d.ir.value) then ReturnedTree(e, d.ir.value, r.cols[c])
                 else r.cols[c] == StripColumn(df.cols[c])
  {
    hide Apply, DecideColumn, ToDecisionMap, ToAnomalyMap, Main, DecisionOutcome.EndsNothing, StripColumn, StripCell,
         RestKept, Untrimmed, IRExecutor.Executor.Execute, RowWrite, WritesFit, TreeColumn,
         ReturnedTree;
    g := OneDecision(env, df, anomalies, decisions, d, c);
    var a := ToAnomalyMap(anomalies)[d.anomalyId];
    TreeColumnExactly(env, df, g, a, d);
    var e := IRExecutor.Executor(g, c, env.finder(a, df), env.text, env.mode);
    DecisionOutcome.TypedColumn(g, c);
    if Apply(env, df, anomalies, decisions).Some? && e.Execute(d.ir, 0).Ok? && WritesFit(e, d.ir.value) {
      TreeStripped(e, d.ir.value, DecideColumn(env, df, g, a, d).value);
    }
  }

  /** The source column's cells in those rows fit column `c`. */
  ghost predicate Copyable(df: Frame, c: string, source: string, rows: seq<nat>)
    requires df.Rectangular() && c in df.cols && source in df.cols
  {
    && rows != []
    && forall k :: 0 <= k < |rows| ==> rows[k] < df.height && Accepts(df.cols[c].dtype, df.cols[source].cells[rows[k]])
  }

  /** Each of those rows holds the source column's cell of its own row, and the others what they held. */
  ghost predicate Copied(df: Frame, c: string, source: string, rows: seq<nat>, r: Column)
    requires df.Rectangular() && c in df.cols && source in df.cols && Copyable(df, c, source, rows)
  {
    |r.cells| == df.height
    && (forall i :: 0 <= i < df.height && i !in rows ==> r.cells[i] == StripCell(df.cols[c].cells[i]))
    && forall k :: 0 <= k < |rows| ==>
         r.cells[rows[k]] == StripCell(CellAfter(df.cols[c].dtype, Null, Some(df.cols[source].cells[rows[k]])))
  }

  /** FILL_FROM_COLUMN gives each found row the cell of the source column in that row. */
  lemma CopiedFromColumn(env: Env, df: Frame, anomalies: seq<Anomaly>, decisions: seq<Decision>, d: Decision,
                         c: string, source: string)
    requires df.Valid() && FindsRows(env, df) && decisions != [] && c in df.cols && source in df.cols
    requires Main(ToAnomalyMap(anomalies), ToDecisionMap(decisions), d, c)
    requires df.cols[c].dtype.StrD? ==> Untrimmed(ToAnomalyMap(anomalies), ToDecisionMap(decisions), c)
    requires Unconcerned(ToAnomalyMap(anomalies), ToDecisionMap(decisions), source)
    requires DecisionOutcome.EndsNothing(anomalies, c)
    requires var a := ToAnomalyMap(anomalies)[d.anomalyId];
             && UsesTree(a, d) && d.ir == Some(IR.Encode(IR.FillFromColumn(source)))
             && Copyable(df, c, source, env.finder(a, df))
    ensures match Apply(env, df, anomalies, decisions)
            case None => true
            case Some(r) => Copied(df, c, source, env.finder(ToAnomalyMap(anomalies)[d.anomalyId], df), r.cols[c])
  {
    hide Apply, ToDecisionMap, ToAnomalyMap, Main, DecisionOutcome.EndsNothing, UsesTree, StripCell, Untrimmed,
         Unconcerned, IRExecutor.Executor.Execute, RowWrite, IR.Encode;
    if Apply(env, df, anomalies, decisions).Some? {
      var g := TreeReturned(env, df, anomalies, decisions, d, c);
      var a := ToAnomalyMap(anomalies)[d.anomalyId];
      var e := IRExecutor.Executor(g, c, env.finder(a, df), env.text, env.mode);
      forall k | 0 <= k < |e.rows|
        ensures e.Execute(d.ir, 0).Ok?
        ensures RowWrite(e, d.ir.value, e.rows[k]) == Some(df.cols[source].cells[e.rows[k]])
      {
        CopyMeans(e, source, e.rows[k]);
      }
      assert e.rows[0] in e.rows;
    }
  }

  lemma CopyMeans(e: IRExecutor.Executor, source: string, row: nat)
    requires e.Valid() && source in e.frame.cols && row < e.frame.height
    ensures var node := IR.Encode(IR.FillFromColumn(source));
            && e.Execute(Some(node), 0).Ok?
            && RowWrite(e, node, row) == Some(e.frame.cols[source].cells[row])
  {
    var node := IR.Encode(IR.FillFromColumn(source));
    assert e.Execute(Some(node), 0) == e.FillFromColumn(node);
  }
}
