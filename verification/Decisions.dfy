/** `_apply_decisions`: the loop that turns human decisions into edits of the frame. */
module Decisions {
  import opened Rows
  import opened Values
  import DateRepair
  import Duplicates
  import IRExecutor

  datatype Action = Approved | Corrected | Discarded

  datatype AnomalyType =
    | MissingValue | Outlier | Duplicate | FormatInvalid | InconsistentValue | WhitespaceOnly | CrossFieldSwap
    | SuspiciousPlaceholder | LeadingTrailing | DateLogical | RoundNumber | LowVariance | OutlierIqr | SequenceGap

  /** `endColumn` is the column that a DATE_LOGICAL description names. */
  datatype Anomaly = Anomaly(id: string, column: string, kind: AnomalyType, suggested: Option<string>,
                             endColumn: Option<string>)

  datatype Decision = Decision(anomalyId: string, action: Action, correction: Option<string>, ir: Option<Json>)

  /**
   * What the loop takes from its surroundings: Python's string functions, Polars' mode, the date
   * reader, and the row finders, which read nothing but the snapshot.
   */
  datatype Env = Env(text: Text, mode: seq<Cell> -> Cell, iso: DateRepair.IsoReader,
                     finder: (Anomaly, Frame) -> seq<nat>)

  ghost predicate FindsRows(env: Env, snap: Frame) {
    forall a: Anomaly, r: nat :: r in env.finder(a, snap) ==> r < snap.height
  }

  // ---------------------------------------------------------------------------------------------
  // Effects on one column

  datatype Effect = NoEffect | Write(raw: string) | Clear | Trim | Mark

  /** The branch the loop takes for a decision that does not run a correction tree. */
  function EffectOf(a: Anomaly, d: Decision): Effect {
    if a.kind.Duplicate? && !d.action.Discarded? then Mark
    else if a.kind.WhitespaceOnly? && d.action.Approved? then Clear
    else if a.kind.LeadingTrailing? && d.action.Approved? then Trim
    else if d.action.Corrected? && d.correction.Some? then Write(d.correction.value)
    else if d.action.Approved? && a.suggested.Some? then Write(a.suggested.value)
    else NoEffect
  }

  predicate UsesTree(a: Anomaly, d: Decision) {
    !a.kind.Duplicate? && d.action.Corrected? && d.ir.Some?
  }

  /** `_cast_correction`: a string that does not parse is written as it is. */
  function CastCorrection(text: Text, raw: string, d: Dtype): Cell {
    match (d, text.parseFloat(raw))
    case (IntD, Some(x)) => IntC(Trunc(x))
    case (FloatD, Some(x)) => RealC(x)
    case _ => StrC(raw)
  }

  function TrimCell(text: Text, c: Cell): Cell {
    if c.Null? then c else StrC(Strip(PyStr(text, c)))
  }

  /** Rebuild with the column's type, or leave the column. */
  function StoreOrKeep(col: Column, cells: seq<Cell>): Column {
    if Build(col.dtype, cells).Some? then Build(col.dtype, cells).value else col
  }

  /** Rebuild with the column's type, else as text, else leave the column. */
  function StoreOrText(col: Column, cells: seq<Cell>): Column {
    if Build(col.dtype, cells).Some? then Build(col.dtype, cells).value
    else if Build(StrD, cells).Some? then Build(StrD, cells).value
    else col
  }

  /** Rebuild with the column's type, else as text; the second failure is not caught. */
  function StoreOrRaise(col: Column, cells: seq<Cell>): Option<Column> {
    if Build(col.dtype, cells).Some? then Build(col.dtype, cells) else Build(StrD, cells)
  }

  /** One effect on the rows of a column; None is an exception that ends the run. */
  function ApplyEffect(text: Text, col: Column, rows: seq<nat>, e: Effect): (r: Option<Column>)
    ensures r.Some? && WellTyped(col) ==> WellTyped(r.value)
    ensures r.Some? ==> |r.value.cells| == |col.cells|
  {
    match e
    case NoEffect => Some(col)
    case Write(raw) => Some(StoreOrText(col, Overwrite(col.cells, rows, CastCorrection(text, raw, col.dtype))))
    case Clear => Some(StoreOrKeep(col, Overwrite(col.cells, rows, Null)))
    case Trim => Some(StoreOrKeep(col, MapRows(col.cells, rows, c => TrimCell(text, c))))
    case Mark => StoreOrRaise(col, Duplicates.MarkRows(text, col.cells, rows))
  }

  // ---------------------------------------------------------------------------------------------
  // One decision on the frame

  /** What the executor's result does to the column; DELETE and KEEP leave it. */
  function StoreOutcome(col: Column, rows: seq<nat>, o: IRExecutor.Outcome): Column
    requires forall k :: 0 <= k < |rows| ==> rows[k] < |col.cells|
    requires o.perRow.Some? ==> |o.perRow.value| == |rows|
  {
    if !o.kind.Fill? then col
    else if !o.scalar.Null? || o.perRow.None? then StoreOrKeep(col, Overwrite(col.cells, rows, o.scalar))
    else StoreOrKeep(col, OverwriteEach(col.cells, rows, o.perRow.value))
  }

  predicate Caught(e: IRExecutor.ExecError) {
    !e.Malformed? && !e.CastFailed?
  }

  function RunTree(env: Env, f: Frame, a: Anomaly, ir: Json, rows: seq<nat>): (r: Option<Column>)
    requires f.Rectangular() && a.column in f.cols
    requires forall k :: 0 <= k < |rows| ==> rows[k] < f.height
    ensures r.Some? && WellTyped(f.cols[a.column]) ==> WellTyped(r.value)
    ensures r.Some? ==> |r.value.cells| == f.height
  {
    match IRExecutor.Executor(f, a.column, rows, env.text, env.mode).Execute(Some(ir), 0)
    case Ok(o) => Some(StoreOutcome(f.cols[a.column], rows, o))
    case Err(e) => if Caught(e) then Some(f.cols[a.column]) else None
  }

  /** The column the decision is about, after the decision. */
  function DecideColumn(env: Env, snap: Frame, f: Frame, a: Anomaly, d: Decision): (r: Option<Column>)
    requires f.Rectangular() && f.height == snap.height && FindsRows(env, snap) && a.column in f.cols
    ensures r.Some? && WellTyped(f.cols[a.column]) ==> WellTyped(r.value)
    ensures r.Some? ==> |r.value.cells| == f.height
  {
    var rows := env.finder(a, snap);
    assert forall k :: 0 <= k < |rows| ==> rows[k] in env.finder(a, snap);
    if rows == [] then Some(f.cols[a.column])
    else if UsesTree(a, d) then RunTree(env, f, a, d.ir.value, rows)
    else ApplyEffect(env.text, f.cols[a.column], rows, EffectOf(a, d))
  }

  type AnomalyMap = map<string, Anomaly>

  /** One turn of the loop. */
  function Decide(env: Env, snap: Frame, f: Frame, am: AnomalyMap, d: Decision): (r: Option<Frame>)
    requires f.Rectangular() && f.height == snap.height && FindsRows(env, snap)
    ensures r.Some? ==> SameShape(f, r.value) && (f.Valid() ==> r.value.Valid())
  {
    if d.anomalyId !in am || am[d.anomalyId].column !in f.cols then Some(f)
    else
      var a := am[d.anomalyId];
      match DecideColumn(env, snap, f, a, d)
      case None => None
      case Some(col) => Some(f.With(a.column, col))
  }

  /** Rows, their order and the columns are those of `f`. */
  ghost predicate SameShape(f: Frame, g: Frame) {
    g.Rectangular() && g.height == f.height && g.names == f.names && g.cols.Keys == f.cols.Keys
  }

  function DecideAll(env: Env, snap: Frame, f: Frame, am: AnomalyMap, ds: seq<Decision>): (r: Option<Frame>)
    requires f.Rectangular() && f.height == snap.height && FindsRows(env, snap)
    ensures r.Some? ==> SameShape(f, r.value) && (f.Valid() ==> r.value.Valid())
  {
    if ds == [] then Some(f)
    else
      match DecideAll(env, snap, f, am, ds[..|ds| - 1])
      case None => None
      case Some(g) => Decide(env, snap, g, am, ds[|ds| - 1])
  }

  // ---------------------------------------------------------------------------------------------
  // The closing strip, the maps, and the whole

  /** A text column is stripped, and what strips to nothing becomes null. */
  function StripCell(c: Cell): Cell {
    if c.StrC? then (if Strip(c.s) == "" then Null else StrC(Strip(c.s))) else c
  }

  function StripColumn(col: Column): (r: Column)
    ensures |r.cells| == |col.cells| && r.dtype == col.dtype
    ensures WellTyped(col) ==> WellTyped(r)
  {
    if col.dtype.StrD? then
      Column(StrD, seq(|col.cells|, i requires 0 <= i < |col.cells| => StripCell(col.cells[i])))
    else col
  }

  function StripFrame(f: Frame): (r: Frame)
    ensures r.names == f.names && r.height == f.height && r.cols.Keys == f.cols.Keys
    ensures f.Rectangular() ==> r.Rectangular()
    ensures f.Valid() ==> r.Valid()
    ensures forall c :: c in f.cols ==> r.cols[c] == StripColumn(f.cols[c])
  {
    f.(cols := map c | c in f.cols :: StripColumn(f.cols[c]))
  }

  function ToAnomalyMap(anomalies: seq<Anomaly>): AnomalyMap {
    if anomalies == [] then map[]
    else
      var a := anomalies[|anomalies| - 1];
      ToAnomalyMap(anomalies[..|anomalies| - 1])[a.id := a]
  }

  /** A dict keeps the place of the first entry for a key and the value of the last. */
  function Upsert(ds: seq<Decision>, d: Decision): seq<Decision> {
    if ds == [] then [d]
    else if ds[0].anomalyId == d.anomalyId then [d] + ds[1..]
    else [ds[0]] + Upsert(ds[1..], d)
  }

  function ToDecisionMap(ds: seq<Decision>): seq<Decision> {
    if ds == [] then [] else Upsert(ToDecisionMap(ds[..|ds| - 1]), ds[|ds| - 1])
  }

  function Constraints(anomalies: seq<Anomaly>): seq<DateRepair.Constraint> {
    if anomalies == [] then []
    else
      var init, a := Constraints(anomalies[..|anomalies| - 1]), anomalies[|anomalies| - 1];
      if a.kind.DateLogical? && a.endColumn.Some? then init + [DateRepair.Constraint(a.column, a.endColumn.value)]
      else init
  }

  /** `_apply_decisions`; without decisions the frame is returned as it came. */
  function Apply(env: Env, df: Frame, anomalies: seq<Anomaly>, decisions: seq<Decision>): (r: Option<Frame>)
    requires df.Valid() && FindsRows(env, df)
    ensures r.Some? ==> SameShape(df, r.value) && r.value.Valid()
  {
    if decisions == [] then Some(df)
    else
      match DecideAll(env, df, df, ToAnomalyMap(anomalies), ToDecisionMap(decisions))
      case None => None
      case Some(f) => Some(DateRepair.Repair(env.iso, StripFrame(f), Constraints(anomalies)))
  }

  // ---------------------------------------------------------------------------------------------
  // The loop as the worker runs it

  method WriteRows(cells: array<Cell>, rows: seq<nat>, v: Cell)
    requires forall k :: 0 <= k < |rows| ==> rows[k] < cells.Length
    modifies cells
    ensures cells[..] == Overwrite(old(cells[..]), rows, v)
  {
    for k := 0 to |rows|
      invariant forall i :: 0 <= i < cells.Length ==> cells[i] == if i in rows[..k] then v else old(cells[i])
    {
      assert rows[..k + 1] == rows[..k] + [rows[k]];
      cells[rows[k]] := v;
    }
    assert rows[..|rows|] == rows;
    assert cells[..] == Overwrite(old(cells[..]), rows, v);
  }

  method WriteRowsEach(cells: array<Cell>, rows: seq<nat>, vs: seq<Cell>)
    requires |vs| == |rows| && forall k :: 0 <= k < |rows| ==> rows[k] < cells.Length
    modifies cells
    ensures cells[..] == OverwriteEach(old(cells[..]), rows, vs)
  {
    for k := 0 to |rows|
      invariant cells[..] == OverwriteEach(old(cells[..]), rows[..k], vs[..k])
    {
      assert rows[..k + 1][..k] == rows[..k] && vs[..k + 1][..k] == vs[..k];
      cells[rows[k]] := vs[k];
    }
    assert rows[..|rows|] == rows && vs[..|rows|] == vs;
  }

  /** `if col_data[row_idx] is not None: ...`: `f` leaves its own results alone, so a repeated row is harmless. */
  method EditRows(cells: array<Cell>, rows: seq<nat>, f: Cell -> Cell)
    requires forall k :: 0 <= k < |rows| ==> rows[k] < cells.Length
    requires forall c :: f(f(c)) == f(c)
    modifies cells
    ensures cells[..] == MapRows(old(cells[..]), rows, f)
  {
    for k := 0 to |rows|
      invariant forall i :: 0 <= i < cells.Length ==>
                  cells[i] == if i in rows[..k] then f(old(cells[i])) else old(cells[i])
    {
      assert rows[..k + 1] == rows[..k] + [rows[k]];
      cells[rows[k]] := f(cells[rows[k]]);
    }
    assert rows[..|rows|] == rows;
    assert cells[..] == MapRows(old(cells[..]), rows, f);
  }

  function MarkOf(text: Text): Cell -> Cell {
    c => Duplicates.MarkCell(text, c)
  }

  function TrimOf(text: Text): Cell -> Cell {
    c => TrimCell(text, c)
  }

  lemma MarkTwice(text: Text)
    ensures forall c :: MarkOf(text)(MarkOf(text)(c)) == MarkOf(text)(c)
  {
    forall c
      ensures MarkOf(text)(MarkOf(text)(c)) == MarkOf(text)(c)
    {
      Duplicates.EndsWithConcat(PyStr(text, c), Duplicates.MARK);
    }
  }

  lemma TrimTwice(text: Text)
    ensures forall c :: TrimOf(text)(TrimOf(text)(c)) == TrimOf(text)(c)
  {
    forall c
      ensures TrimOf(text)(TrimOf(text)(c)) == TrimOf(text)(c)
    {
      TrimIdempotent(x => IsSpace(x), PyStr(text, c));
    }
  }

  method CopyCells(cells: seq<Cell>) returns (a: array<Cell>)
    ensures fresh(a) && a[..] == cells
  {
    a := new Cell[|cells|](i requires 0 <= i < |cells| => cells[i]);
  }

  method EditColumn(text: Text, col: Column, rows: seq<nat>, e: Effect) returns (r: Option<Column>)
    requires forall k :: 0 <= k < |rows| ==> rows[k] < |col.cells|
    ensures r == ApplyEffect(text, col, rows, e)
  {
    var cells := CopyCells(col.cells);
    match e
    case NoEffect =>
      return Some(col);
    case Write(raw) =>
      WriteRows(cells, rows, CastCorrection(text, raw, col.dtype));
      var built := Build(col.dtype, cells[..]);
      if built.None? {
        built := Build(StrD, cells[..]);
      }
      return Some(if built.Some? then built.value else col);
    case Clear =>
      WriteRows(cells, rows, Null);
      var built := Build(col.dtype, cells[..]);
      return Some(if built.Some? then built.value else col);
    case Trim =>
      TrimTwice(text);
      EditRows(cells, rows, TrimOf(text));
      assert cells[..] == MapRows(col.cells, rows, c => TrimCell(text, c));
      var built := Build(col.dtype, cells[..]);
      return Some(if built.Some? then built.value else col);
    case Mark =>
      MarkTwice(text);
      EditRows(cells, rows, MarkOf(text));
      assert cells[..] == Duplicates.MarkRows(text, col.cells, rows);
      r := Build(col.dtype, cells[..]);
      if r.None? {
        r := Build(StrD, cells[..]);
      }
  }

  method StoreFill(col: Column, rows: seq<nat>, o: IRExecutor.Outcome) returns (r: Column)
    requires forall k :: 0 <= k < |rows| ==> rows[k] < |col.cells|
    requires o.perRow.Some? ==> |o.perRow.value| == |rows|
    ensures r == StoreOutcome(col, rows, o)
  {
    if !o.kind.Fill? {
      return col;
    }
    var cells := CopyCells(col.cells);
    if !o.scalar.Null? || o.perRow.None? {
      WriteRows(cells, rows, o.scalar);
    } else {
      WriteRowsEach(cells, rows, o.perRow.value);
    }
    var built := Build(col.dtype, cells[..]);
    return if built.Some? then built.value else col;
  }

  method DecideStep(env: Env, snap: Frame, f: Frame, a: Anomaly, d: Decision) returns (r: Option<Column>)
    requires f.Valid() && f.height == snap.height && FindsRows(env, snap) && a.column in f.cols
    ensures r == DecideColumn(env, snap, f, a, d)
  {
    var rows := env.finder(a, snap);
    assert forall k :: 0 <= k < |rows| ==> rows[k] in env.finder(a, snap);
    if rows == [] {
      return Some(f.cols[a.column]);
    }
    if UsesTree(a, d) {
      var e := IRExecutor.Executor(f, a.column, rows, env.text, env.mode);
      var out := e.Run(Some(d.ir.value), 0);
      match out
      case Ok(o) =>
        var col := StoreFill(f.cols[a.column], rows, o);
        return Some(col);
      case Err(err) =>
        return if Caught(err) then Some(f.cols[a.column]) else None;
    }
    r := EditColumn(env.text, f.cols[a.column], rows, EffectOf(a, d));
  }

  method DecideFrame(env: Env, snap: Frame, f: Frame, am: AnomalyMap, d: Decision) returns (r: Option<Frame>)
    requires f.Valid() && f.height == snap.height && FindsRows(env, snap)
    ensures r == Decide(env, snap, f, am, d)
  {
    if d.anomalyId !in am {
      return Some(f);
    }
    var a := am[d.anomalyId];
    if a.column !in f.cols {
      return Some(f);
    }
    var col := DecideStep(env, snap, f, a, d);
    return if col.Some? then Some(f.With(a.column, col.value)) else None;
  }

  method DecideLoop(env: Env, df: Frame, am: AnomalyMap, dm: seq<Decision>) returns (r: Option<Frame>)
    requires df.Valid() && FindsRows(env, df)
    ensures r == DecideAll(env, df, df, am, dm)
  {
    var result := df;
    for k := 0 to |dm|
      invariant SameShape(df, result) && result.Valid()
      invariant DecideAll(env, df, df, am, dm[..k]) == Some(result)
    {
      assert dm[..k + 1][..k] == dm[..k];
      var next := DecideFrame(env, df, result, am, dm[k]);
      if next.None? {
        RaiseEndsLoop(env, df, am, dm, k);
        return None;
      }
      result := next.value;
    }
    assert dm[..|dm|] == dm;
    return Some(result);
  }

  method ApplyDecisions(env: Env, df: Frame, anomalies: seq<Anomaly>, decisions: seq<Decision>)
    returns (r: Option<Frame>)
    requires df.Valid() && FindsRows(env, df)
    ensures r == Apply(env, df, anomalies, decisions)
    ensures r.Some? ==> SameShape(df, r.value)
  {
    if decisions == [] {
      return Some(df);
    }
    var result := DecideLoop(env, df, ToAnomalyMap(anomalies), ToDecisionMap(decisions));
    if result.None? {
      return None;
    }
    var repaired := DateRepair.RepairFrame(env.iso, StripFrame(result.value), Constraints(anomalies));
    return Some(repaired);
  }

  lemma {:induction false} RaiseEndsLoop(env: Env, df: Frame, am: AnomalyMap, ds: seq<Decision>, k: nat)
    requires df.Rectangular() && FindsRows(env, df) && k < |ds|
    requires DecideAll(env, df, df, am, ds[..k + 1]) == None
    ensures DecideAll(env, df, df, am, ds) == None
  {
    if k + 1 == |ds| {
      assert ds[..k + 1] == ds;
    } else {
      assert ds[..|ds| - 1][..k + 1] == ds[..k + 1];
      RaiseEndsLoop(env, df, am, ds[..|ds| - 1], k);
    }
  }
}
