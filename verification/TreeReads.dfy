/** A correction tree reads its own column and the columns it names, and no other. */
module TreeReads {
  import opened IR
  import opened IRExecutor
  import opened Values

  /** The operand is, or aggregates, column `c`. */
  predicate OperandNames(operand: Option<Json>, c: string) {
    operand.Some? && operand.value.JObj? && Field(operand.value, "column") == Some(JStr(c))
  }

  predicate ConditionNames(cond: Option<Json>, c: string) {
    cond.Some? && cond.value.JObj?
    && (OperandNames(Field(cond.value, "left"), c) || OperandNames(Field(cond.value, "right"), c)
        || OperandNames(Field(cond.value, "upper"), c))
  }

  /** Somewhere down to the depth limit the tree copies from column `c` or compares with it. */
  predicate Names(node: Option<Json>, depth: nat, c: string)
    decreases 4 - depth
  {
    depth <= MAX_DEPTH && node.Some? && node.value.JObj?
    && (Field(node.value, "sourceColumn") == Some(JStr(c)) || ConditionNames(Field(node.value, "condition"), c)
        || Names(Field(node.value, "input"), depth + 1, c) || Names(Field(node.value, "then"), depth + 1, c)
        || Names(Field(node.value, "else"), depth + 1, c))
  }

  /** The same frame, but for column `c`. */
  ghost predicate AgreeBut(f: Frame, g: Frame, c: string) {
    && f.Rectangular() && g.Rectangular() && g.height == f.height && g.cols.Keys == f.cols.Keys
    && forall k :: k in f.cols && k != c ==> g.cols[k] == f.cols[k]
  }

  lemma OperandIgnores(e: Executor, g: Frame, c: string, operand: Option<Json>, row: nat)
    requires e.Valid() && AgreeBut(e.frame, g, c) && c != e.column && row < g.height && !OperandNames(operand, c)
    ensures e.(frame := g).ResolveOperand(operand, row) == e.ResolveOperand(operand, row)
  {
  }

  lemma ConditionIgnores(e: Executor, g: Frame, c: string, cond: Option<Json>, row: nat)
    requires e.Valid() && AgreeBut(e.frame, g, c) && c != e.column && row < g.height && !ConditionNames(cond, c)
    ensures e.(frame := g).EvalCondition(cond, row) == e.EvalCondition(cond, row)
  {
    hide Executor.ResolveOperand, Executor.EvalBetween, Executor.EvalBinary, OperandNames;
    if cond.Some? && cond.value.JObj? {
      OperandIgnores(e, g, c, Field(cond.value, "left"), row);
      OperandIgnores(e, g, c, Field(cond.value, "right"), row);
      OperandIgnores(e, g, c, Field(cond.value, "upper"), row);
      BinaryIgnores(e, g);
    }
  }

  lemma BinaryIgnores(e: Executor, g: Frame)
    ensures forall op, l, r :: e.(frame := g).EvalBinary(op, l, r) == e.EvalBinary(op, l, r)
    ensures forall v, lo, hi :: e.(frame := g).EvalBetween(v, lo, hi) == e.EvalBetween(v, lo, hi)
  {
  }

  lemma {:induction false} AllConditionsIgnore(e: Executor, g: Frame, c: string, cond: Option<Json>, k: nat)
    requires e.Valid() && AgreeBut(e.frame, g, c) && c != e.column && k <= |e.rows| && !ConditionNames(cond, c)
    ensures e.(frame := g).EvalAll(cond, k) == e.EvalAll(cond, k)
  {
    hide Executor.EvalCondition, ConditionNames;
    if k > 0 {
      AllConditionsIgnore(e, g, c, cond, k - 1);
      ConditionIgnores(e, g, c, cond, e.rows[k - 1]);
    }
  }

  /** Changing a column that the tree does not name changes nothing about its result. */
  lemma {:induction false} ExecuteIgnores(e: Executor, g: Frame, c: string, node: Option<Json>, depth: nat)
    requires e.Valid() && AgreeBut(e.frame, g, c) && c != e.column && !Names(node, depth, c)
    ensures e.(frame := g).Execute(node, depth) == e.Execute(node, depth)
    decreases 4 - depth
  {
    if depth <= MAX_DEPTH && node.Some? && node.value.JObj? {
      var n := node.value;
      ExecuteIgnores(e, g, c, Field(n, "input"), depth + 1);
      ExecuteIgnores(e, g, c, Field(n, "then"), depth + 1);
      ExecuteIgnores(e, g, c, Field(n, "else"), depth + 1);
      DispatchIgnores(e, g, c, n, e.Execute(Field(n, "input"), depth + 1), e.Execute(Field(n, "then"), depth + 1),
                      e.Execute(Field(n, "else"), depth + 1));
    }
  }

  lemma DispatchIgnores(e: Executor, g: Frame, c: string, n: Json, input: Result<Outcome, ExecError>,
                        yes: Result<Outcome, ExecError>, no: Result<Outcome, ExecError>)
    requires e.Valid() && AgreeBut(e.frame, g, c) && c != e.column
    requires e.ShapeOf(input) && e.ShapeOf(yes) && e.ShapeOf(no)
    requires Field(n, "sourceColumn") != Some(JStr(c)) && !ConditionNames(Field(n, "condition"), c)
    ensures e.(frame := g).ShapeOf(input) && e.(frame := g).ShapeOf(yes) && e.(frame := g).ShapeOf(no)
    ensures e.(frame := g).Dispatch(n, input, yes, no) == e.Dispatch(n, input, yes, no)
  {
    FillsIgnore(e, g, c, n);
    TransformIgnores(e, g, n, input);
    ConditionalIgnores(e, g, c, n, yes, no);
    hide Executor.FillLiteral, Executor.FillAggregate, Executor.FillFromColumn, Executor.Transform,
         Executor.Conditional, ConditionNames;
  }

  lemma FillsIgnore(e: Executor, g: Frame, c: string, n: Json)
    requires e.Valid() && AgreeBut(e.frame, g, c) && c != e.column
    requires Field(n, "sourceColumn") != Some(JStr(c))
    ensures e.(frame := g).FillLiteral(n) == e.FillLiteral(n)
    ensures e.(frame := g).FillAggregate(n) == e.FillAggregate(n)
    ensures e.(frame := g).FillFromColumn(n) == e.FillFromColumn(n)
  {
  }

  lemma TransformIgnores(e: Executor, g: Frame, n: Json, input: Result<Outcome, ExecError>)
    requires e.ShapeOf(input)
    ensures e.(frame := g).ShapeOf(input) && e.(frame := g).Transform(n, input) == e.Transform(n, input)
  {
  }

  lemma ConditionalIgnores(e: Executor, g: Frame, c: string, n: Json, yes: Result<Outcome, ExecError>,
                           no: Result<Outcome, ExecError>)
    requires e.Valid() && AgreeBut(e.frame, g, c) && c != e.column && e.ShapeOf(yes) && e.ShapeOf(no)
    requires !ConditionNames(Field(n, "condition"), c)
    ensures e.(frame := g).ShapeOf(yes) && e.(frame := g).ShapeOf(no)
    ensures e.(frame := g).Conditional(n, yes, no) == e.Conditional(n, yes, no)
  {
    hide Executor.EvalAll, ConditionNames;
    AllConditionsIgnore(e, g, c, Field(n, "condition"), |e.rows|);
    if e.EvalAll(Field(n, "condition"), |e.rows|).Ok? && yes.Ok? && no.Ok? {
      MixIgnores(e, g, e.EvalAll(Field(n, "condition"), |e.rows|).value, yes.value, no.value);
    }
  }

  lemma MixIgnores(e: Executor, g: Frame, conds: seq<bool>, yes: Outcome, no: Outcome)
    requires |conds| == |e.rows| && e.Shape(yes) && e.Shape(no)
    ensures e.(frame := g).Shape(yes) && e.(frame := g).Shape(no)
    ensures e.(frame := g).Mix(conds, yes, no) == e.Mix(conds, yes, no)
  {
    var h := e.(frame := g);
    assert forall k :: 0 <= k < |e.rows| ==> h.At(yes, k) == e.At(yes, k) && h.At(no, k) == e.At(no, k);
    var mixed := seq(|e.rows|, k requires 0 <= k < |e.rows| => if conds[k] then e.At(yes, k) else e.At(no, k));
    assert mixed == seq(|h.rows|, k requires 0 <= k < |h.rows| => if conds[k] then h.At(yes, k) else h.At(no, k));
    if !e.Mix(conds, yes, no).kind.Delete? && !e.Mix(conds, yes, no).kind.KeepRows? {
      assert h.Mix(conds, yes, no).perRow.value == e.Mix(conds, yes, no).perRow.value;
    }
  }
}
