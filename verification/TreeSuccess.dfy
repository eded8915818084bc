/** When a correction tree comes to a result, and when the executor gives an error instead. */
module TreeSuccess {
  import opened IR
  import opened IRExecutor
  import opened IRRefinement
  import opened IRSentinels
  import opened Values
  import Conditions

  /** A transform of a known function works on what its input gives row `k`; a null for all rows passes through. */
  ghost predicate Transforms(e: Executor, n: Json, k: nat, depth: nat)
    requires e.Valid() && k < |e.rows|
  {
    && HasFunction(n)
    && match Given(e, Field(n, "input"), e.rows[k], depth)
       case None => true
       case Some(v) =>
         (v == Null && ScalarSource(Field(n, "input"), depth))
         || Apply(e.text, Field(n, "fn").value.s, v, Params(n)).Ok?
  }

  predicate HasFunction(n: Json) {
    Field(n, "fn").Some? && Field(n, "fn").value.JStr? && Whitelisted(Field(n, "fn").value.s)
  }

  ghost predicate TransformsAll(e: Executor, n: Json, depth: nat)
    requires e.Valid()
  {
    forall k :: 0 <= k < |e.rows| ==> Transforms(e, n, k, depth)
  }

  ghost predicate Decides(e: Executor, n: Json, k: nat)
    requires e.Valid() && k < |e.rows|
  {
    Conditions.Holds(e, Field(n, "condition"), e.rows[k]).Ok?
  }

  /**
   * The tree is at most three deep below this node, both branches of a condition succeed whichever of them the rows
   * take, and every test and every transform works on every affected row.
   */
  ghost predicate Succeeds(e: Executor, node: Option<Json>, depth: nat)
    requires e.Valid()
    decreases 4 - depth
  {
    && depth <= 3 && node.Some? && node.value.JObj?
    && var n := node.value;
       if HasString(n, "op", "TRANSFORM") then
         Succeeds(e, Field(n, "input"), depth + 1) && TransformsAll(e, n, depth + 1)
       else if HasString(n, "op", "CONDITIONAL") then
         && Succeeds(e, Field(n, "then"), depth + 1) && Succeeds(e, Field(n, "else"), depth + 1)
         && forall k :: 0 <= k < |e.rows| ==> Decides(e, n, k)
       else LeafSucceeds(e, n)
  }

  /** Literals, DELETE_ROWS and KEEP never fail. */
  ghost predicate LeafSucceeds(e: Executor, n: Json)
    requires e.Valid()
  {
    || HasString(n, "op", "FILL_LITERAL") || HasString(n, "op", "DELETE_ROWS") || HasString(n, "op", "KEEP")
    || (HasString(n, "op", "FILL_AGGREGATE") && e.FillAggregate(n).Ok?)
    || (HasString(n, "op", "FILL_FROM_COLUMN") && exists s :: s in e.frame.cols && HasString(n, "sourceColumn", s))
  }

  lemma LeafExactly(e: Executor, n: Json, depth: nat)
    requires e.Valid() && depth <= 3 && n.JObj?
    requires !HasString(n, "op", "TRANSFORM") && !HasString(n, "op", "CONDITIONAL")
    ensures e.Execute(Some(n), depth).Ok? <==> LeafSucceeds(e, n)
  {
    hide Executor.Transform, Executor.Conditional, Executor.FillAggregate, Cast;
    assert MAX_DEPTH == 3;
    if HasString(n, "op", "FILL_FROM_COLUMN") && e.FillFromColumn(n).Ok? {
      assert HasString(n, "sourceColumn", Field(n, "sourceColumn").value.s);
    }
  }

  lemma {:induction false} ApplyAllExactly(text: Text, fn: string, vs: seq<Cell>, params: Option<map<string, Json>>)
    requires Whitelisted(fn)
    ensures ApplyAll(text, fn, vs, params).Ok? <==> forall k :: 0 <= k < |vs| ==> Apply(text, fn, vs[k], params).Ok?
  {
    hide Apply;
    if vs != [] {
      var n := |vs| - 1;
      ApplyAllExactly(text, fn, vs[..n], params);
      assert (forall k :: 0 <= k < n ==> Apply(text, fn, vs[..n][k], params).Ok?)
          <==> forall k :: 0 <= k < n ==> Apply(text, fn, vs[k], params).Ok?;
    }
  }

  lemma {:induction false} EvalAllExactly(e: Executor, cond: Option<Json>, k: nat)
    requires e.Valid() && k <= |e.rows|
    ensures e.EvalAll(cond, k).Ok? <==> forall j :: 0 <= j < k ==> e.EvalCondition(cond, e.rows[j]).Ok?
  {
    hide Executor.EvalCondition;
    if k > 0 {
      EvalAllExactly(e, cond, k - 1);
    }
  }

  /** The outcome for a row and what the transform needs there. */
  lemma TransformsAt(e: Executor, n: Json, inner: Outcome, depth: nat, k: nat)
    requires e.Valid() && k < |e.rows| && HasFunction(n) && e.Execute(Field(n, "input"), depth) == Ok(inner)
    ensures inner.kind.Fill? ==> (inner.perRow.None? <==> ScalarSource(Field(n, "input"), depth))
    ensures Transforms(e, n, k, depth)
            <==> match e.At(inner, k)
                 case RowFill(v) =>
                   (v == Null && inner.perRow.None?) || Apply(e.text, Field(n, "fn").value.s, v, Params(n)).Ok?
                 case _ => true
  {
    hide Executor.Execute, Apply, Given, ScalarSource, RowRefines, Params, Whitelisted;
    GivenExactly(e, Field(n, "input"), depth, k);
    ExecuteRefines(e, Field(n, "input"), depth);
  }

  lemma TransformExactly(e: Executor, n: Json, inner: Outcome, depth: nat)
    requires e.Valid() && e.rows != [] && e.Execute(Field(n, "input"), depth) == Ok(inner)
    ensures e.Transform(n, Ok(inner)).Ok? <==> TransformsAll(e, n, depth)
  {
    hide Executor.Execute, Apply, ApplyAll, Given, ScalarSource, Params, Whitelisted;
    if HasFunction(n) {
      forall k | 0 <= k < |e.rows|
        ensures Transforms(e, n, k, depth)
                <==> match e.At(inner, k)
                     case RowFill(v) =>
                       (v == Null && inner.perRow.None?) || Apply(e.text, Field(n, "fn").value.s, v, Params(n)).Ok?
                     case _ => true
      {
        TransformsAt(e, n, inner, depth, k);
      }
      hide Transforms;
      assert Transforms(e, n, 0, depth) || !Transforms(e, n, 0, depth);
      if inner.kind.Fill? && inner.perRow.Some? {
        ApplyAllExactly(e.text, Field(n, "fn").value.s, inner.perRow.value, Params(n));
        assert forall k :: 0 <= k < |e.rows| ==> e.At(inner, k) == RowFill(inner.perRow.value[k]);
      }
    } else {
      assert !Transforms(e, n, 0, depth);
    }
  }

  lemma ConditionsExactly(e: Executor, n: Json)
    requires e.Valid()
    ensures e.EvalAll(Field(n, "condition"), |e.rows|).Ok? <==> forall k :: 0 <= k < |e.rows| ==> Decides(e, n, k)
  {
    hide Executor.EvalCondition, Conditions.Holds;
    EvalAllExactly(e, Field(n, "condition"), |e.rows|);
    forall k | 0 <= k < |e.rows|
      ensures Decides(e, n, k) <==> e.EvalCondition(Field(n, "condition"), e.rows[k]).Ok?
    {
      Conditions.EvalIsHolds(e, Field(n, "condition"), e.rows[k]);
    }
  }

  /** The executor comes to a result exactly when the tree succeeds. */
  lemma {:induction false} SucceedsExactly(e: Executor, node: Option<Json>, depth: nat)
    requires e.Valid() && e.rows != []
    ensures e.Execute(node, depth).Ok? <==> Succeeds(e, node, depth)
    decreases 4 - depth
  {
    hide Executor.Execute, TransformsAll, Decides, LeafSucceeds, Executor.EvalAll, Executor.Transform, HasString;
    if depth > 3 || node.None? || !node.value.JObj? {
      Refused(e, node, depth);
    } else {
      var n := node.value;
      if HasString(n, "op", "TRANSFORM") {
        SucceedsExactly(e, Field(n, "input"), depth + 1);
        ExecutesTransform(e, n, depth);
        var inner := e.Execute(Field(n, "input"), depth + 1);
        if inner.Ok? {
          TransformExactly(e, n, inner.value, depth + 1);
        } else {
          NoInput(e, n, inner);
        }
      } else if HasString(n, "op", "CONDITIONAL") {
        SucceedsExactly(e, Field(n, "then"), depth + 1);
        SucceedsExactly(e, Field(n, "else"), depth + 1);
        ExecutesConditional(e, n, depth);
        ConditionsExactly(e, n);
      } else {
        LeafExactly(e, n, depth);
      }
    }
  }

  lemma Refused(e: Executor, node: Option<Json>, depth: nat)
    requires e.Valid() && (depth > 3 || node.None? || !node.value.JObj?)
    ensures e.Execute(node, depth).Err?
  {
    hide Executor.Dispatch;
    assert MAX_DEPTH == 3;
  }

  lemma NoInput(e: Executor, n: Json, inner: Result<Outcome, ExecError>)
    requires inner.Err?
    ensures e.Transform(n, inner).Err?
  {
  }
}
