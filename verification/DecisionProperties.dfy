/** What the decision loop computes, column by column and cell by cell, and which orders are the same. */
module DecisionProperties {
  import opened Decisions
  import opened Values
  import IRExecutor
  import TreeReads

  predicate Concerns(am: AnomalyMap, d: Decision, c: string) {
    d.anomalyId in am && am[d.anomalyId].column == c
  }

  /** No decision on column `c` runs a correction tree. */
  ghost predicate TreeFreeOn(am: AnomalyMap, ds: seq<Decision>, c: string) {
    forall k :: 0 <= k < |ds| && Concerns(am, ds[k], c) ==> !UsesTree(am[ds[k].anomalyId], ds[k])
  }

  /** No decision of the list runs one. */
  ghost predicate TreeFree(am: AnomalyMap, ds: seq<Decision>) {
    forall c :: TreeFreeOn(am, ds, c)
  }

  // ---------------------------------------------------------------------------------------------
  // Column by column

  /** A decision as one column sees it: the snapshot's rows and the effect on them. */
  datatype Step = Step(rows: seq<nat>, effect: Effect)

  function StepOf(env: Env, snap: Frame, am: AnomalyMap, d: Decision): Step
    requires d.anomalyId in am
  {
    Step(env.finder(am[d.anomalyId], snap), EffectOf(am[d.anomalyId], d))
  }

  /** The steps that concern column `c`, in the order of the decisions. */
  function StepsOn(env: Env, snap: Frame, am: AnomalyMap, ds: seq<Decision>, c: string): seq<Step> {
    if ds == [] then []
    else
      var init, d := StepsOn(env, snap, am, ds[..|ds| - 1], c), ds[|ds| - 1];
      if Concerns(am, d, c) then init + [StepOf(env, snap, am, d)] else init
  }

  function ApplyStep(text: Text, col: Column, s: Step): Option<Column> {
    if s.rows == [] then Some(col) else ApplyEffect(text, col, s.rows, s.effect)
  }

  function ApplySteps(text: Text, col: Column, steps: seq<Step>): (r: Option<Column>)
    ensures r.Some? && WellTyped(col) ==> WellTyped(r.value)
    ensures r.Some? ==> |r.value.cells| == |col.cells|
  {
    if steps == [] then Some(col)
    else
      match ApplySteps(text, col, steps[..|steps| - 1])
      case None => None
      case Some(x) => ApplyStep(text, x, steps[|steps| - 1])
  }

  /** One turn edits the column it concerns, by its own step, and no other. */
  lemma TurnIsStep(env: Env, snap: Frame, f: Frame, am: AnomalyMap, d: Decision, c: string)
    requires f.Rectangular() && f.height == snap.height && FindsRows(env, snap) && c in f.cols
    requires Concerns(am, d, c) ==> !UsesTree(am[d.anomalyId], d)
    ensures var r := Decide(env, snap, f, am, d);
            if Concerns(am, d, c) then
              ApplyStep(env.text, f.cols[c], StepOf(env, snap, am, d))
                == if r.Some? then Some(r.value.cols[c]) else None
            else r.Some? ==> r.value.cols[c] == f.cols[c]
  {
    hide ApplyEffect, EffectOf;
  }

  /** Each column is edited from its own cells and the snapshot's rows alone, in the order of its decisions. */
  lemma {:induction false} ColumnIsItsSteps(env: Env, snap: Frame, f: Frame, am: AnomalyMap, ds: seq<Decision>,
                                            c: string)
    requires f.Rectangular() && f.height == snap.height && FindsRows(env, snap)
    requires c in f.cols && TreeFreeOn(am, ds, c) && DecideAll(env, snap, f, am, ds).Some?
    ensures ApplySteps(env.text, f.cols[c], StepsOn(env, snap, am, ds, c))
            == Some(DecideAll(env, snap, f, am, ds).value.cols[c])
  {
    if ds == [] {
      return;
    }
    hide ApplyStep, ApplySteps, StepsOn, Decide, StepOf, UsesTree;
    var init, d := ds[..|ds| - 1], ds[|ds| - 1];
    var g := DecideAll(env, snap, f, am, init).value;
    ColumnIsItsSteps(env, snap, f, am, init, c);
    TurnIsStep(env, snap, g, am, d, c);
    LastStep(env, snap, am, ds, c, env.text, f.cols[c], g.cols[c]);
  }

  /** A run that raises does so on the steps of some column. */
  lemma {:induction false} RaiseHasColumn(env: Env, snap: Frame, f: Frame, am: AnomalyMap, ds: seq<Decision>)
    requires f.Rectangular() && f.height == snap.height && FindsRows(env, snap) && TreeFree(am, ds)
    requires DecideAll(env, snap, f, am, ds) == None
    ensures exists c :: c in f.cols && ApplySteps(env.text, f.cols[c], StepsOn(env, snap, am, ds, c)) == None
  {
    hide ApplyStep, ApplySteps, StepsOn, StepOf, UsesTree, DecideColumn;
    var init, d := ds[..|ds| - 1], ds[|ds| - 1];
    var g := DecideAll(env, snap, f, am, init);
    assert forall c :: TreeFreeOn(am, ds, c) ==> TreeFreeOn(am, init, c);
    if g.None? {
      RaiseHasColumn(env, snap, f, am, init);
      var c :| c in f.cols && ApplySteps(env.text, f.cols[c], StepsOn(env, snap, am, init, c)) == None;
      StepsGrow(env, snap, am, ds, c);
      var n := |StepsOn(env, snap, am, init, c)|;
      assert StepsOn(env, snap, am, ds, c)[..n] == StepsOn(env, snap, am, init, c);
      RaiseStays(env.text, f.cols[c], StepsOn(env, snap, am, ds, c), n);
    } else {
      var c := am[d.anomalyId].column;
      assert TreeFreeOn(am, ds, c);
      ColumnIsItsSteps(env, snap, f, am, init, c);
      TurnIsStep(env, snap, g.value, am, d, c);
      LastStep(env, snap, am, ds, c, env.text, f.cols[c], g.value.cols[c]);
    }
  }

  lemma LastStep(env: Env, snap: Frame, am: AnomalyMap, ds: seq<Decision>, c: string, text: Text, col: Column,
                 mid: Column)
    requires ds != [] && ApplySteps(text, col, StepsOn(env, snap, am, ds[..|ds| - 1], c)) == Some(mid)
    ensures ApplySteps(text, col, StepsOn(env, snap, am, ds, c))
            == if Concerns(am, ds[|ds| - 1], c) then ApplyStep(text, mid, StepOf(env, snap, am, ds[|ds| - 1]))
               else Some(mid)
  {
    hide ApplyStep, EffectOf;
    var before, d := StepsOn(env, snap, am, ds[..|ds| - 1], c), ds[|ds| - 1];
    if Concerns(am, d, c) {
      assert StepsOn(env, snap, am, ds, c) == before + [StepOf(env, snap, am, d)];
      assert (before + [StepOf(env, snap, am, d)])[..|before|] == before;
    }
  }

  lemma StepsGrow(env: Env, snap: Frame, am: AnomalyMap, ds: seq<Decision>, c: string)
    requires ds != []
    ensures StepsOn(env, snap, am, ds[..|ds| - 1], c) <= StepsOn(env, snap, am, ds, c)
  {
  }

  lemma {:induction false} RaiseStays(text: Text, col: Column, steps: seq<Step>, n: nat)
    requires n <= |steps| && ApplySteps(text, col, steps[..n]) == None
    ensures ApplySteps(text, col, steps) == None
  {
    if n == |steps| {
      assert steps[..n] == steps;
    } else {
      assert steps[..|steps| - 1][..n] == steps[..n];
      RaiseStays(text, col, steps[..|steps| - 1], n);
    }
  }

  // ---------------------------------------------------------------------------------------------
  // Confluence

  /** The decision runs a tree that names column `c`. */
  predicate TreeNames(a: Anomaly, d: Decision, c: string) {
    UsesTree(a, d) && TreeReads.Names(d.ir, 0, c)
  }

  /** Decisions on different columns, neither of which runs a tree that names the other's column. */
  predicate Independent(am: AnomalyMap, x: Decision, y: Decision) {
    x.anomalyId in am && y.anomalyId in am ==>
      var a, b := am[x.anomalyId], am[y.anomalyId];
      a.column != b.column && !TreeNames(a, x, b.column) && !TreeNames(b, y, a.column)
  }

  /** What a decision does to its column is the same whatever another column that it does not name holds. */
  lemma UnnamedIsIgnored(env: Env, snap: Frame, f: Frame, g: Frame, c: string, a: Anomaly, d: Decision)
    requires TreeReads.AgreeBut(f, g, c) && f.height == snap.height && FindsRows(env, snap)
    requires a.column in f.cols && a.column != c && !TreeNames(a, d, c)
    ensures DecideColumn(env, snap, g, a, d) == DecideColumn(env, snap, f, a, d)
  {
    hide ApplyEffect, EffectOf, IRExecutor.Executor.Execute, TreeReads.Names;
    var rows := env.finder(a, snap);
    assert forall k :: 0 <= k < |rows| ==> rows[k] in env.finder(a, snap);
    if UsesTree(a, d) {
      TreeReads.ExecuteIgnores(IRExecutor.Executor(f, a.column, rows, env.text, env.mode), g, c, d.ir, 0);
    }
  }

  lemma TurnsCommute(env: Env, snap: Frame, f: Frame, am: AnomalyMap, x: Decision, y: Decision)
    requires f.Rectangular() && f.height == snap.height && FindsRows(env, snap) && Independent(am, x, y)
    ensures Both(env, snap, f, am, x, y) == Both(env, snap, f, am, y, x)
  {
    hide DecideColumn, TreeNames;
    var r, s := Both(env, snap, f, am, x, y), Both(env, snap, f, am, y, x);
    var fx, fy := Decide(env, snap, f, am, x), Decide(env, snap, f, am, y);
    if x.anomalyId in am && y.anomalyId in am && am[x.anomalyId].column in f.cols && am[y.anomalyId].column in f.cols {
      if fx.Some? {
        UnnamedIsIgnored(env, snap, f, fx.value, am[x.anomalyId].column, am[y.anomalyId], y);
      }
      if fy.Some? {
        UnnamedIsIgnored(env, snap, f, fy.value, am[y.anomalyId].column, am[x.anomalyId], x);
      }
      if r.Some? && s.Some? {
        assert r.value.cols == s.value.cols;
      }
    }
  }

  /** Two turns of the loop. */
  function Both(env: Env, snap: Frame, f: Frame, am: AnomalyMap, x: Decision, y: Decision): Option<Frame>
    requires f.Rectangular() && f.height == snap.height && FindsRows(env, snap)
  {
    match Decide(env, snap, f, am, x)
    case None => None
    case Some(g) => Decide(env, snap, g, am, y)
  }

  lemma LastTwo(env: Env, snap: Frame, f: Frame, am: AnomalyMap, before: seq<Decision>, x: Decision, y: Decision)
    requires f.Rectangular() && f.height == snap.height && FindsRows(env, snap)
    ensures DecideAll(env, snap, f, am, before + [x] + [y])
            == match DecideAll(env, snap, f, am, before)
               case None => None
               case Some(g) => Both(env, snap, g, am, x, y)
  {
    hide Decide;
    assert (before + [x] + [y])[..|before| + 1] == before + [x];
    assert (before + [x])[..|before|] == before;
  }

  /** Lists that agree so far agree after the same further decisions. */
  lemma {:induction false} SameAfter(env: Env, snap: Frame, f: Frame, am: AnomalyMap,
                                     ds: seq<Decision>, es: seq<Decision>, after: seq<Decision>)
    requires f.Rectangular() && f.height == snap.height && FindsRows(env, snap)
    requires DecideAll(env, snap, f, am, ds) == DecideAll(env, snap, f, am, es)
    ensures DecideAll(env, snap, f, am, ds + after) == DecideAll(env, snap, f, am, es + after)
  {
    hide Decide;
    if after == [] {
      assert ds + after == ds && es + after == es;
    } else {
      var n := |after| - 1;
      assert (ds + after)[..|ds + after| - 1] == ds + after[..n];
      assert (es + after)[..|es + after| - 1] == es + after[..n];
      SameAfter(env, snap, f, am, ds, es, after[..n]);
    }
  }

  /** Two neighbouring decisions that are independent may change places. */
  lemma SwapNeighbours(env: Env, snap: Frame, f: Frame, am: AnomalyMap,
                       before: seq<Decision>, x: Decision, y: Decision, after: seq<Decision>)
    requires f.Rectangular() && f.height == snap.height && FindsRows(env, snap) && Independent(am, x, y)
    ensures DecideAll(env, snap, f, am, before + [x] + [y] + after)
            == DecideAll(env, snap, f, am, before + [y] + [x] + after)
  {
    hide DecideAll, Independent, Both;
    LastTwo(env, snap, f, am, before, x, y);
    LastTwo(env, snap, f, am, before, y, x);
    var g := DecideAll(env, snap, f, am, before);
    if g.Some? {
      TurnsCommute(env, snap, g.value, am, x, y);
    }
    SameAfter(env, snap, f, am, before + [x] + [y], before + [y] + [x], after);
  }

  /** A discarded decision may be added or removed anywhere. */
  lemma DiscardIsIdentity(env: Env, snap: Frame, f: Frame, am: AnomalyMap,
                          before: seq<Decision>, d: Decision, after: seq<Decision>)
    requires f.Rectangular() && f.height == snap.height && FindsRows(env, snap) && d.action.Discarded?
    ensures DecideAll(env, snap, f, am, before + [d] + after) == DecideAll(env, snap, f, am, before + after)
  {
    hide DecideColumn;
    assert (before + [d])[..|before|] == before;
    var g := DecideAll(env, snap, f, am, before);
    if g.Some? {
      DiscardedTurn(env, snap, g.value, am, d);
    }
    SameAfter(env, snap, f, am, before + [d], before, after);
  }

  lemma DiscardedTurn(env: Env, snap: Frame, f: Frame, am: AnomalyMap, d: Decision)
    requires f.Rectangular() && f.height == snap.height && FindsRows(env, snap) && d.action.Discarded?
    ensures Decide(env, snap, f, am, d) == Some(f)
  {
    if d.anomalyId in am && am[d.anomalyId].column in f.cols {
      var c := am[d.anomalyId].column;
      assert f.With(c, f.cols[c]) == f;
    }
  }
}
