/** What each answer of the human puts into the returned column, cell by cell. */
module Corrections {
  import opened DecisionProperties
  import opened Decisions
  import opened MainDecision
  import opened Rows
  import opened Values
  import DecisionOutcome
  import Duplicates

  /** A cell of the returned frame: text without the white space around it, and null when nothing is left. */
  function Returned(c: Cell): Cell {
    match c
    case StrC(s) => if Strip(s) == "" then Null else StrC(Strip(s))
    case _ => c
  }

  /** The text that the human has chosen: a correction without a tree, or the suggestion that was approved. */
  predicate Chooses(a: Anomaly, d: Decision, raw: string) {
    && !a.kind.Duplicate?
    && match d.action
       case Corrected => d.ir == None && d.correction == Some(raw)
       case Approved => a.suggested == Some(raw) && !a.kind.WhitespaceOnly? && !a.kind.LeadingTrailing?
       case Discarded => false
  }

  /** Found rows hold `v`, the others what they held. */
  ghost predicate Puts(before: Column, rows: seq<nat>, v: Cell, after: Column) {
    && after.dtype == before.dtype && |after.cells| == |before.cells|
    && forall i :: 0 <= i < |before.cells| ==>
         after.cells[i] == if i in rows then Returned(v) else Returned(before.cells[i])
  }

  /** Text in the found rows and nothing elsewhere. */
  ghost predicate BecomesText(before: Column, rows: seq<nat>, raw: string, after: Column) {
    && after.dtype.StrD? && |after.cells| == |before.cells|
    && forall i :: 0 <= i < |before.cells| ==> after.cells[i] == if i in rows then Returned(StrC(raw)) else Null
  }

  /**
   * The chosen text in the found rows: as text, as the number it reads as, or cut to an integer. Text that the
   * column cannot hold leaves it alone while some other row holds a value, and else makes it a text column.
   */
  ghost predicate Chosen(text: Text, before: Column, rows: seq<nat>, raw: string, after: Column) {
    var x := text.parseFloat(raw);
    if before.dtype.StrD? then Puts(before, rows, StrC(raw), after)
    else if before.dtype.FloatD? && x.Some? then Puts(before, rows, RealC(x.value), after)
    else if before.dtype.IntD? && x.Some? then Puts(before, rows, IntC(Trunc(x.value)), after)
    else if rows == [] || ValueElsewhere(before, rows) then after == before
    else BecomesText(before, rows, raw, after)
  }

  ghost predicate ValueElsewhere(col: Column, rows: seq<nat>) {
    exists i :: 0 <= i < |col.cells| && i !in rows && col.cells[i] != Null
  }

  /** The human's text, and not another, arrives in exactly the rows the finder returns. */
  lemma ChosenArrives(env: Env, df: Frame, anomalies: seq<Anomaly>, decisions: seq<Decision>, d: Decision, c: string,
                      raw: string)
    requires df.Valid() && FindsRows(env, df) && decisions != [] && c in df.cols
    requires Main(ToAnomalyMap(anomalies), ToDecisionMap(decisions), d, c)
    requires DecisionOutcome.EndsNothing(anomalies, c)
    requires d.anomalyId in ToAnomalyMap(anomalies) && Chooses(ToAnomalyMap(anomalies)[d.anomalyId], d, raw)
    ensures match Apply(env, df, anomalies, decisions)
            case None => true
            case Some(r) =>
              Chosen(env.text, df.cols[c], env.finder(ToAnomalyMap(anomalies)[d.anomalyId], df), raw, r.cols[c])
  {
    hide Apply, ToDecisionMap, ToAnomalyMap, Main, DecisionOutcome.EndsNothing, Chosen, ApplyEffect, StripColumn,
         Untrimmed;
    var a := ToAnomalyMap(anomalies)[d.anomalyId];
    OneEffect(env, df, anomalies, decisions, d, c);
    if Apply(env, df, anomalies, decisions).Some? {
      DecisionOutcome.TypedColumn(df, c);
      RowsInside(env, df, a, c);
      ChosenStep(env.text, df.cols[c], env.finder(a, df), raw);
    }
  }

  lemma RowsInside(env: Env, df: Frame, a: Anomaly, c: string)
    requires df.Valid() && FindsRows(env, df) && c in df.cols
    ensures forall k :: 0 <= k < |env.finder(a, df)| ==> env.finder(a, df)[k] < |df.cols[c].cells|
  {
    forall k | 0 <= k < |env.finder(a, df)|
      ensures env.finder(a, df)[k] < |df.cols[c].cells|
    {
      assert env.finder(a, df)[k] in env.finder(a, df);
    }
  }

  lemma ChosenStep(text: Text, col: Column, rows: seq<nat>, raw: string)
    requires WellTyped(col) && forall k :: 0 <= k < |rows| ==> rows[k] < |col.cells|
    ensures var r := ApplyStep(text, col, Step(rows, Write(raw)));
            r.Some? && Chosen(text, col, rows, raw, StripColumn(r.value))
  {
    hide Strip;
    var v := CastCorrection(text, raw, col.dtype);
    if rows == [] {
      Unwritten(col, v);
    } else if Fits(col.dtype, v) {
      FittingWrite(text, col, rows, raw);
    } else {
      assert rows[0] < |col.cells|;
      DecisionOutcome.UncastableWrite(text, col, rows, raw);
    }
  }

  lemma Unwritten(col: Column, v: Cell)
    requires WellTyped(col)
    ensures Puts(col, [], v, StripColumn(col))
    ensures !col.dtype.StrD? ==> StripColumn(col) == col
  {
    hide Strip;
    StripsCells(col);
  }

  lemma FittingWrite(text: Text, col: Column, rows: seq<nat>, raw: string)
    requires WellTyped(col) && rows != [] && Fits(col.dtype, CastCorrection(text, raw, col.dtype))
    ensures var r := ApplyStep(text, col, Step(rows, Write(raw)));
            r.Some? && Puts(col, rows, CastCorrection(text, raw, col.dtype), StripColumn(r.value))
  {
    hide Strip, CastCorrection;
    var cells := Overwrite(col.cells, rows, CastCorrection(text, raw, col.dtype));
    assert WellTyped(Column(col.dtype, cells));
    StripsCells(Column(col.dtype, cells));
  }

  /** The closing strip, cell by cell. */
  lemma StripsCells(col: Column)
    requires WellTyped(col)
    ensures forall i :: 0 <= i < |col.cells| ==> StripColumn(col).cells[i] == Returned(col.cells[i])
  {
    hide Strip;
    forall i | 0 <= i < |col.cells|
      ensures StripColumn(col).cells[i] == Returned(col.cells[i])
    {
      assert Fits(col.dtype, col.cells[i]);
    }
  }

  // ---------------------------------------------------------------------------------------------
  // The other answers

  /** Only the closing strip touches the column. */
  ghost predicate OnlyStripped(before: Column, after: Column) {
    && after.dtype == before.dtype && |after.cells| == |before.cells|
    && forall i :: 0 <= i < |before.cells| ==> after.cells[i] == Returned(before.cells[i])
  }

  /** The answer writes no value of its own: discarded, nothing to write, or white space to remove. */
  predicate WritesNothing(a: Anomaly, d: Decision) {
    match d.action
    case Discarded => true
    case Corrected => !a.kind.Duplicate? && d.ir == None && d.correction == None
    case Approved =>
      || a.kind.LeadingTrailing?
      || (!a.kind.Duplicate? && !a.kind.WhitespaceOnly? && a.suggested == None)
  }

  lemma NothingArrives(env: Env, df: Frame, anomalies: seq<Anomaly>, decisions: seq<Decision>, d: Decision, c: string)
    requires df.Valid() && FindsRows(env, df) && decisions != [] && c in df.cols
    requires Main(ToAnomalyMap(anomalies), ToDecisionMap(decisions), d, c)
    requires DecisionOutcome.EndsNothing(anomalies, c)
    requires d.anomalyId in ToAnomalyMap(anomalies) && WritesNothing(ToAnomalyMap(anomalies)[d.anomalyId], d)
    ensures match Apply(env, df, anomalies, decisions)
            case None => true
            case Some(r) => OnlyStripped(df.cols[c], r.cols[c])
  {
    hide Apply, ToDecisionMap, ToAnomalyMap, Main, DecisionOutcome.EndsNothing, ApplyEffect, StripColumn, Untrimmed,
         Alike;
    OneEffect(env, df, anomalies, decisions, d, c);
    if Apply(env, df, anomalies, decisions).Some? {
      DecisionOutcome.TypedColumn(df, c);
      var s := StepOf(env, df, ToAnomalyMap(anomalies), d);
      MinorStep(env.text, df.cols[c], s);
      AlikeStripped(df.cols[c], ApplyStep(env.text, df.cols[c], s).value);
      StripsCells(df.cols[c]);
    }
  }

  /** An approved WHITESPACE_ONLY empties the found rows. */
  lemma WhitespaceIsCleared(env: Env, df: Frame, anomalies: seq<Anomaly>, decisions: seq<Decision>, d: Decision,
                            c: string)
    requires df.Valid() && FindsRows(env, df) && decisions != [] && c in df.cols
    requires Main(ToAnomalyMap(anomalies), ToDecisionMap(decisions), d, c)
    requires DecisionOutcome.EndsNothing(anomalies, c)
    requires d.anomalyId in ToAnomalyMap(anomalies) && d.action.Approved?
    requires ToAnomalyMap(anomalies)[d.anomalyId].kind.WhitespaceOnly?
    ensures match Apply(env, df, anomalies, decisions)
            case None => true
            case Some(r) =>
              Puts(df.cols[c], env.finder(ToAnomalyMap(anomalies)[d.anomalyId], df), Null, r.cols[c])
  {
    hide Apply, ToDecisionMap, ToAnomalyMap, Main, DecisionOutcome.EndsNothing, ApplyEffect, StripColumn, Untrimmed,
         Puts;
    OneEffect(env, df, anomalies, decisions, d, c);
    if Apply(env, df, anomalies, decisions).Some? {
      DecisionOutcome.TypedColumn(df, c);
      ClearStep(env.text, df.cols[c], env.finder(ToAnomalyMap(anomalies)[d.anomalyId], df));
    }
  }

  lemma ClearStep(text: Text, col: Column, rows: seq<nat>)
    requires WellTyped(col)
    ensures var r := ApplyStep(text, col, Step(rows, Clear));
            r.Some? && Puts(col, rows, Null, StripColumn(r.value))
  {
    hide Strip;
    var cells := Overwrite(col.cells, rows, Null);
    assert WellTyped(Column(col.dtype, cells));
    StripsCells(Column(col.dtype, cells));
    if rows == [] {
      Unwritten(col, Null);
    }
  }

  /** In the loop, before the closing strip, an approved LEADING_TRAILING_WHITESPACE strips the found rows only. */
  lemma FoundRowsAreStripped(env: Env, snap: Frame, f: Frame, a: Anomaly, d: Decision)
    requires f.Valid() && f.height == snap.height && FindsRows(env, snap) && a.column in f.cols
    requires a.kind.LeadingTrailing? && d.action.Approved? && f.cols[a.column].dtype.StrD?
    ensures DecideColumn(env, snap, f, a, d).Some?
    ensures var before, after := f.cols[a.column], DecideColumn(env, snap, f, a, d).value;
            && after.dtype.StrD? && |after.cells| == |before.cells|
            && forall i :: 0 <= i < |before.cells| ==>
                 after.cells[i]
                 == if i in env.finder(a, snap) && before.cells[i].StrC? then StrC(Strip(before.cells[i].s))
                    else before.cells[i]
  {
    hide Strip;
    var col, rows := f.cols[a.column], env.finder(a, snap);
    var cells := MapRows(col.cells, rows, c => TrimCell(env.text, c));
    assert WellTyped(Column(StrD, cells));
  }

  /** A kept DUPLICATE decision appends the mark to the found values of a text column, unless they end with it. */
  lemma FoundRowsAreMarked(env: Env, df: Frame, anomalies: seq<Anomaly>, decisions: seq<Decision>, d: Decision,
                           c: string)
    requires df.Valid() && FindsRows(env, df) && decisions != [] && c in df.cols && df.cols[c].dtype.StrD?
    requires Main(ToAnomalyMap(anomalies), ToDecisionMap(decisions), d, c)
    requires Untrimmed(ToAnomalyMap(anomalies), ToDecisionMap(decisions), c)
    requires DecisionOutcome.EndsNothing(anomalies, c)
    requires d.anomalyId in ToAnomalyMap(anomalies) && !d.action.Discarded?
    requires ToAnomalyMap(anomalies)[d.anomalyId].kind.Duplicate?
    ensures match Apply(env, df, anomalies, decisions)
            case None => true
            case Some(r) =>
              var rows := env.finder(ToAnomalyMap(anomalies)[d.anomalyId], df);
              Marked(df.cols[c], rows, r.cols[c])
  {
    hide Apply, ToDecisionMap, ToAnomalyMap, Main, DecisionOutcome.EndsNothing, ApplyEffect, StripColumn, Untrimmed,
         Marked;
    OneEffect(env, df, anomalies, decisions, d, c);
    if Apply(env, df, anomalies, decisions).Some? {
      DecisionOutcome.TypedColumn(df, c);
      MarkStep(env.text, df.cols[c], env.finder(ToAnomalyMap(anomalies)[d.anomalyId], df));
    }
  }

  ghost predicate Marked(before: Column, rows: seq<nat>, after: Column) {
    && after.dtype.StrD? && |after.cells| == |before.cells|
    && forall i :: 0 <= i < |before.cells| ==>
         after.cells[i] == if i in rows && before.cells[i].StrC? && !EndsMarked(before.cells[i].s)
                           then Returned(StrC(before.cells[i].s + "_DUP")) else Returned(before.cells[i])
  }

  ghost predicate EndsMarked(s: string) {
    exists w :: s == w + "_DUP"
  }

  lemma MarkStep(text: Text, col: Column, rows: seq<nat>)
    requires WellTyped(col) && col.dtype.StrD?
    ensures var r := ApplyStep(text, col, Step(rows, Mark));
            r.Some? && Marked(col, rows, StripColumn(r.value))
  {
    hide Strip;
    var cells := Duplicates.MarkRows(text, col.cells, rows);
    forall i | 0 <= i < |col.cells| && col.cells[i].StrC?
      ensures EndsMarked(col.cells[i].s) <==> Duplicates.EndsWith(col.cells[i].s, Duplicates.MARK)
    {
      MarkAtEnd(col.cells[i].s);
    }
    hide Duplicates.EndsWith, EndsMarked;
    assert WellTyped(Column(StrD, cells));
    StripsCells(Column(StrD, cells));
    if rows == [] {
      assert cells == col.cells;
    }
  }

  lemma MarkAtEnd(s: string)
    ensures EndsMarked(s) <==> Duplicates.EndsWith(s, Duplicates.MARK)
  {
    if Duplicates.EndsWith(s, Duplicates.MARK) {
      assert s == s[..|s| - 4] + "_DUP";
    }
  }
}
