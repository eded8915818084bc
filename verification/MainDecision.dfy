/** A column on which one decision writes: what the others about it, which at most trim, leave of its effect. */
module MainDecision {
  import opened DecisionProperties
  import opened Decisions
  import opened LastWriter
  import opened Values
  import DecisionOutcome

  /** The decision writes nothing: it is discarded, has nothing to write, or trims. */
  predicate Minor(a: Anomaly, d: Decision) {
    !UsesTree(a, d) && (EffectOf(a, d).NoEffect? || EffectOf(a, d).Trim?)
  }

  ghost predicate MainAt(am: AnomalyMap, ds: seq<Decision>, k: nat, d: Decision, c: string)
    requires k < |ds|
  {
    && ds[k] == d && Concerns(am, d, c)
    && forall j :: 0 <= j < |ds| && j != k && Concerns(am, ds[j], c) ==> Minor(am[ds[j].anomalyId], ds[j])
  }

  /** The other decisions about the column of `d` are minor. */
  ghost predicate Main(am: AnomalyMap, ds: seq<Decision>, d: Decision, c: string) {
    exists k :: 0 <= k < |ds| && MainAt(am, ds, k, d, c)
  }

  ghost predicate AllMinor(am: AnomalyMap, ds: seq<Decision>, c: string) {
    forall j :: 0 <= j < |ds| && Concerns(am, ds[j], c) ==> Minor(am[ds[j].anomalyId], ds[j])
  }

  /** No decision trims the column. */
  ghost predicate Untrimmed(am: AnomalyMap, ds: seq<Decision>, c: string) {
    forall j :: 0 <= j < |ds| && Concerns(am, ds[j], c) ==> !EffectOf(am[ds[j].anomalyId], ds[j]).Trim?
  }

  /** Columns of which the closing strip makes the same. */
  ghost predicate Alike(a: Column, b: Column) {
    || a == b
    || (a.dtype.StrD? && b.dtype.StrD? && |a.cells| == |b.cells|
        && forall i :: 0 <= i < |a.cells| ==> StripCell(a.cells[i]) == StripCell(b.cells[i]))
  }

  lemma AlikeStripped(a: Column, b: Column)
    requires Alike(a, b)
    ensures StripColumn(a) == StripColumn(b)
  {
    hide StripCell;
  }

  lemma TrimIsStripped(text: Text, c: Cell)
    requires c.Null? || c.StrC?
    ensures StripCell(TrimCell(text, c)) == StripCell(c)
  {
    hide StripLeft, StripRight;
    if c.StrC? {
      TrimIdempotent(x => IsSpace(x), c.s);
    }
  }

  /** A minor step changes at most what the strip removes. */
  lemma MinorStep(text: Text, col: Column, s: Step)
    requires WellTyped(col) && (s.effect.NoEffect? || s.effect.Trim?)
    ensures ApplyStep(text, col, s).Some? && Alike(col, ApplyStep(text, col, s).value)
    ensures s.effect.NoEffect? ==> ApplyStep(text, col, s).value == col
  {
    hide StripCell, TrimCell;
    StepIsCellwise(text, col, s);
    var r := ApplyStep(text, col, s).value;
    if col.dtype.StrD? {
      forall i | 0 <= i < |col.cells|
        ensures StripCell(r.cells[i]) == StripCell(col.cells[i])
      {
        assert Fits(StrD, col.cells[i]);
        TrimIsStripped(text, col.cells[i]);
      }
    } else {
      assert r.cells == col.cells;
    }
  }

  /** Any step but a mark treats such columns alike. */
  lemma StepAlike(text: Text, a: Column, b: Column, s: Step)
    requires WellTyped(a) && WellTyped(b) && Alike(a, b) && (s.effect.Mark? ==> a == b)
    ensures var x, y := ApplyStep(text, a, s), ApplyStep(text, b, s);
            x.Some? <==> y.Some?
    ensures var x, y := ApplyStep(text, a, s), ApplyStep(text, b, s);
            x.Some? ==> Alike(x.value, y.value)
  {
    if a != b {
      hide StripCell, TrimCell, CastCorrection;
      StepIsCellwise(text, a, s);
      StepIsCellwise(text, b, s);
      var x, y := ApplyStep(text, a, s).value, ApplyStep(text, b, s).value;
      forall i | 0 <= i < |a.cells|
        ensures StripCell(x.cells[i]) == StripCell(y.cells[i])
      {
        assert Fits(StrD, a.cells[i]) && Fits(StrD, b.cells[i]);
        TrimIsStripped(text, a.cells[i]);
        TrimIsStripped(text, b.cells[i]);
      }
    }
  }

  lemma AlikeTrans(a: Column, b: Column, c: Column)
    requires Alike(a, b) && Alike(b, c)
    ensures Alike(a, c)
  {
    hide StripCell;
  }

  lemma MinorTurn(env: Env, snap: Frame, f: Frame, am: AnomalyMap, d: Decision, c: string)
    requires f.Valid() && f.height == snap.height && FindsRows(env, snap) && c in f.cols
    requires Concerns(am, d, c) ==> Minor(am[d.anomalyId], d)
    requires Decide(env, snap, f, am, d).Some?
    ensures var g := Decide(env, snap, f, am, d).value;
            && Alike(f.cols[c], g.cols[c])
            && (!(Concerns(am, d, c) && EffectOf(am[d.anomalyId], d).Trim?) ==> g.cols[c] == f.cols[c])
  {
    hide Decide, EffectOf, ApplyEffect, UsesTree;
    TurnIsStep(env, snap, f, am, d, c);
    if Concerns(am, d, c) {
      DecisionOutcome.TypedColumn(f, c);
      MinorStep(env.text, f.cols[c], StepOf(env, snap, am, d));
    }
  }

  lemma {:induction false} MinorLoop(env: Env, snap: Frame, f: Frame, am: AnomalyMap, ds: seq<Decision>, c: string)
    requires f.Valid() && f.height == snap.height && FindsRows(env, snap) && c in f.cols
    requires AllMinor(am, ds, c) && DecideAll(env, snap, f, am, ds).Some?
    ensures var g := DecideAll(env, snap, f, am, ds).value;
            && Alike(f.cols[c], g.cols[c])
            && (Untrimmed(am, ds, c) ==> g.cols[c] == f.cols[c])
  {
    hide Decide, EffectOf, Alike, Minor;
    if ds == [] {
      AlikeItself(f.cols[c]);
    } else {
      var init, d := ds[..|ds| - 1], ds[|ds| - 1];
      var g := DecideAll(env, snap, f, am, init).value;
      MinorLoop(env, snap, f, am, init, c);
      MinorTurn(env, snap, g, am, d, c);
      AlikeTrans(f.cols[c], g.cols[c], Decide(env, snap, g, am, d).value.cols[c]);
    }
  }

  lemma AlikeItself(col: Column)
    ensures Alike(col, col)
  {
  }

  lemma LastTurn(env: Env, snap: Frame, f: Frame, am: AnomalyMap, ds: seq<Decision>)
    requires f.Rectangular() && f.height == snap.height && FindsRows(env, snap)
    requires ds != [] && DecideAll(env, snap, f, am, ds).Some?
    ensures var before := DecideAll(env, snap, f, am, ds[..|ds| - 1]);
            && before.Some?
            && DecideAll(env, snap, f, am, ds) == Decide(env, snap, before.value, am, ds[|ds| - 1])
  {
    hide Decide;
  }

  /** No decision is about column `s`. */
  ghost predicate Unconcerned(am: AnomalyMap, ds: seq<Decision>, s: string) {
    forall j :: 0 <= j < |ds| ==> !Concerns(am, ds[j], s)
  }

  /** Columns that no decision is about are the same. */
  ghost predicate RestKept(am: AnomalyMap, ds: seq<Decision>, f: Frame, g: Frame) {
    forall s :: s in f.cols && Unconcerned(am, ds, s) ==> s in g.cols && g.cols[s] == f.cols[s]
  }

  lemma LoopKeepsRest(env: Env, snap: Frame, f: Frame, am: AnomalyMap, ds: seq<Decision>)
    requires f.Valid() && f.height == snap.height && FindsRows(env, snap) && DecideAll(env, snap, f, am, ds).Some?
    ensures RestKept(am, ds, f, DecideAll(env, snap, f, am, ds).value)
  {
    hide DecideAll;
    forall s | s in f.cols && Unconcerned(am, ds, s)
      ensures DecideAll(env, snap, f, am, ds).value.cols[s] == f.cols[s]
    {
      MinorLoop(env, snap, f, am, ds, s);
    }
  }

  lemma RestOfInit(am: AnomalyMap, ds: seq<Decision>, f: Frame, g: Frame)
    requires ds != [] && RestKept(am, ds[..|ds| - 1], f, g)
    ensures RestKept(am, ds, f, g)
  {
    forall s | s in f.cols && Unconcerned(am, ds, s)
      ensures s in g.cols && g.cols[s] == f.cols[s]
    {
      assert Unconcerned(am, ds[..|ds| - 1], s);
    }
  }

  lemma MainLast(env: Env, snap: Frame, f: Frame, am: AnomalyMap, ds: seq<Decision>, d: Decision, c: string)
    returns (g: Frame)
    requires f.Valid() && f.height == snap.height && FindsRows(env, snap) && c in f.cols
    requires ds != [] && MainAt(am, ds, |ds| - 1, d, c) && DecideAll(env, snap, f, am, ds).Some?
    ensures g.Valid() && SameShape(f, g) && Alike(f.cols[c], g.cols[c])
    ensures (Untrimmed(am, ds, c) ==> g.cols[c] == f.cols[c]) && RestKept(am, ds, f, g)
    ensures var r := DecideColumn(env, snap, g, am[d.anomalyId], d);
            r.Some? && Alike(r.value, DecideAll(env, snap, f, am, ds).value.cols[c])
  {
    hide DecideColumn, EffectOf, Alike, Minor, DecideAll;
    LastTurn(env, snap, f, am, ds);
    g := DecideAll(env, snap, f, am, ds[..|ds| - 1]).value;
    MinorLoop(env, snap, f, am, ds[..|ds| - 1], c);
    LoopKeepsRest(env, snap, f, am, ds[..|ds| - 1]);
    RestOfInit(am, ds, f, g);
    hide RestKept;
    AlikeItself(DecideAll(env, snap, f, am, ds).value.cols[c]);
  }

  /** The main decision meets its column as it was, up to what the strip removes, in a frame of the same shape. */
  lemma {:induction false} OneTurn(env: Env, snap: Frame, f: Frame, am: AnomalyMap, ds: seq<Decision>, k: nat,
                                   d: Decision, c: string)
    returns (g: Frame)
    requires f.Valid() && f.height == snap.height && FindsRows(env, snap) && c in f.cols
    requires k < |ds| && MainAt(am, ds, k, d, c) && DecideAll(env, snap, f, am, ds).Some?
    ensures g.Valid() && SameShape(f, g) && Alike(f.cols[c], g.cols[c])
    ensures (Untrimmed(am, ds, c) ==> g.cols[c] == f.cols[c]) && RestKept(am, ds, f, g)
    ensures var r := DecideColumn(env, snap, g, am[d.anomalyId], d);
            r.Some? && Alike(r.value, DecideAll(env, snap, f, am, ds).value.cols[c])
  {
    var init, last := ds[..|ds| - 1], ds[|ds| - 1];
    hide DecideColumn, Decide, EffectOf, Alike, Minor, DecideAll, RestKept;
    if k == |ds| - 1 {
      g := MainLast(env, snap, f, am, ds, d, c);
    } else {
      LastTurn(env, snap, f, am, ds);
      g := OneTurn(env, snap, f, am, init, k, d, c);
      RestOfInit(am, ds, f, g);
      var h := DecideAll(env, snap, f, am, init).value;
      MinorTurn(env, snap, h, am, last, c);
      AlikeTrans(DecideColumn(env, snap, g, am[d.anomalyId], d).value, h.cols[c],
                 Decide(env, snap, h, am, last).value.cols[c]);
    }
  }

  /**
   * The returned column is what the main decision makes of it, then stripped; the other columns may have
   * changed before it.
   */
  lemma OneDecision(env: Env, df: Frame, anomalies: seq<Anomaly>, decisions: seq<Decision>, d: Decision, c: string)
    returns (g: Frame)
    requires df.Valid() && FindsRows(env, df) && decisions != [] && c in df.cols
    requires Main(ToAnomalyMap(anomalies), ToDecisionMap(decisions), d, c)
    requires DecisionOutcome.EndsNothing(anomalies, c)
    ensures Concerns(ToAnomalyMap(anomalies), d, c)
    ensures g.Valid() && SameShape(df, g) && Alike(df.cols[c], g.cols[c])
    ensures Untrimmed(ToAnomalyMap(anomalies), ToDecisionMap(decisions), c) ==> g.cols[c] == df.cols[c]
    ensures RestKept(ToAnomalyMap(anomalies), ToDecisionMap(decisions), df, g)
    ensures match Apply(env, df, anomalies, decisions)
            case None => true
            case Some(returned) =>
              var r := DecideColumn(env, df, g, ToAnomalyMap(anomalies)[d.anomalyId], d);
              r.Some? && returned.cols[c] == StripColumn(r.value)
  {
    hide Apply, DecideAll, DecideColumn, ToDecisionMap, ToAnomalyMap, DecisionOutcome.EndsNothing, StripColumn, Alike,
         EffectOf, Minor;
    var am, dm := ToAnomalyMap(anomalies), ToDecisionMap(decisions);
    var k :| 0 <= k < |dm| && MainAt(am, dm, k, d, c);
    DecisionOutcome.ReturnedColumn(env, df, anomalies, decisions, c);
    g := df;
    AlikeItself(df.cols[c]);
    var result := DecideAll(env, df, df, am, dm);
    if result.Some? {
      g := OneTurn(env, df, df, am, dm, k, d, c);
      AlikeStripped(DecideColumn(env, df, g, am[d.anomalyId], d).value, result.value.cols[c]);
    }
  }

  /** For a decision that runs no tree: the returned column is its step on the input column, then stripped. */
  lemma OneEffect(env: Env, df: Frame, anomalies: seq<Anomaly>, decisions: seq<Decision>, d: Decision, c: string)
    requires df.Valid() && FindsRows(env, df) && decisions != [] && c in df.cols
    requires Main(ToAnomalyMap(anomalies), ToDecisionMap(decisions), d, c)
    requires !UsesTree(ToAnomalyMap(anomalies)[d.anomalyId], d)
    requires EffectOf(ToAnomalyMap(anomalies)[d.anomalyId], d).Mark? && df.cols[c].dtype.StrD? ==>
               Untrimmed(ToAnomalyMap(anomalies), ToDecisionMap(decisions), c)
    requires DecisionOutcome.EndsNothing(anomalies, c)
    ensures Concerns(ToAnomalyMap(anomalies), d, c)
    ensures match Apply(env, df, anomalies, decisions)
            case None => true
            case Some(r) =>
              var edited := ApplyStep(env.text, df.cols[c], StepOf(env, df, ToAnomalyMap(anomalies), d));
              edited.Some? && r.cols[c] == StripColumn(edited.value)
  {
    hide Apply, ToDecisionMap, ToAnomalyMap, Main, DecisionOutcome.EndsNothing, ApplyEffect, EffectOf, UsesTree,
         StripCell, StripColumn, Untrimmed;
    var g := OneDecision(env, df, anomalies, decisions, d, c);
    var s := StepOf(env, df, ToAnomalyMap(anomalies), d);
    DecisionOutcome.TypedColumn(df, c);
    DecisionOutcome.TypedColumn(g, c);
    StepAlike(env.text, df.cols[c], g.cols[c], s);
    var x, y := ApplyStep(env.text, df.cols[c], s), ApplyStep(env.text, g.cols[c], s);
    if x.Some? {
      AlikeStripped(x.value, y.value);
    }
  }
}
