/** What the API's validator guarantees about the worker's executor. */
module IRSoundness {
  import opened IR
  import opened IRExecutor
  import opened Values
  import Aggregates
  import V = IRValidator

  /** Errors that depend on the data in the rows, not on the shape of the tree. */
  predicate DataError(e: ExecError) {
    e in {NotNumeric, MissingBy, TransformFailed, CompareFailed, CastFailed}
  }

  /** 0 for success, 1 for a data error the caller catches, 2 for a failed cast, 3 for any other error. */
  function Grade<T>(r: Result<T, ExecError>): nat {
    if r.Ok? then 0 else if !DataError(r.error) then 3 else if r.error == CastFailed then 2 else 1
  }

  /** The worst that may happen, given whether the aggregate operands cast. */
  function Worst(casts: bool): nat {
    if casts then 1 else 2
  }

  /** The column of an aggregate operand casts to float. */
  ghost predicate OperandCasts(e: Executor, o: Operand) {
    o.Aggregate? && o.column in e.frame.cols ==> Aggregates.CastToFloat(e.text, e.frame.cols[o.column].cells).Some?
  }

  ghost predicate ConditionCasts(e: Executor, c: Condition) {
    && OperandCasts(e, c.left)
    && (c.right.Some? ==> OperandCasts(e, c.right.value))
    && (c.upper.Some? ==> OperandCasts(e, c.upper.value))
  }

  /** Every aggregate operand of the tree does. */
  ghost predicate Casts(e: Executor, n: Node) {
    match n
    case Transform(_, _, input) => Casts(e, input)
    case Conditional(c, yes, no) => ConditionCasts(e, c) && Casts(e, yes) && Casts(e, no)
    case _ => true
  }

  /** The frame has exactly the columns the tree was validated against. */
  ghost predicate SameColumns(e: Executor, cols: V.ColumnMap) {
    cols != map[] && cols.Keys == e.frame.cols.Keys
  }

  // ---------------------------------------------------------------------------------------------
  // Operands and conditions

  lemma AggregateSafe(casts: bool, e: Executor, a: Agg, cells: seq<Cell>)
    requires casts ==> Aggregates.CastToFloat(e.text, cells).Some?
    ensures Grade(e.AggregateOperand(Some(JStr(AggName(a))), cells)) <= Worst(casts)
  {
  }

  lemma OperandSafe(casts: bool, e: Executor, j: Json, key: string, o: Operand, cols: V.ColumnMap, names: V.Names,
                    row: nat)
    requires e.Valid() && SameColumns(e, cols) && V.TypedOperand(o, cols, names) && row < e.frame.height
    requires V.CarriesField(j, key, o) && (casts ==> OperandCasts(e, o))
    ensures Grade(e.ResolveOperand(Field(j, key), row)) <= Worst(casts)
  {
    if o.Aggregate? {
      AggregateSafe(casts, e, o.agg, e.frame.cols[o.column].cells);
    }
  }

  lemma BinarySafe(casts: bool, e: Executor, op: CondOp, l: Cell, r: Cell)
    requires !op.IsNull? && !op.IsNotNull? && !op.Between?
    ensures Grade(e.EvalBinary(Some(JStr(CondName(op))), l, r)) <= Worst(casts)
  {
  }

  lemma OperatorSafe(casts: bool, e: Executor, c: Condition, j: Json, row: nat)
    requires e.Valid() && row < e.frame.height && HasString(j, "op", CondName(c.op))
    requires c.right.None? <==> c.op.IsNull? || c.op.IsNotNull?
    requires c.upper.Some? <==> c.op.Between?
    requires Grade(e.ResolveOperand(Field(j, "left"), row)) <= Worst(casts)
    requires c.right.Some? ==> Grade(e.ResolveOperand(Field(j, "right"), row)) <= Worst(casts)
    requires c.upper.Some? ==> Grade(e.ResolveOperand(Field(j, "upper"), row)) <= Worst(casts)
    ensures Grade(e.EvalCondition(Some(j), row)) <= Worst(casts)
  {
    hide Executor.ResolveOperand, Executor.EvalBinary;
    if c.right.Some? && !c.op.Between? {
      var l, r := e.ResolveOperand(Field(j, "left"), row), e.ResolveOperand(Field(j, "right"), row);
      if l.Ok? && r.Ok? {
        BinarySafe(casts, e, c.op, l.value, r.value);
      }
    }
  }

  lemma ConditionSafe(casts: bool, e: Executor, j: Json, c: Condition, cols: V.ColumnMap, names: V.Names, row: nat)
    requires e.Valid() && SameColumns(e, cols) && V.TypedCondition(c, cols, names) && row < e.frame.height
    requires V.CarriesCondition(j, c) && (casts ==> ConditionCasts(e, c))
    ensures Grade(e.EvalCondition(Some(j), row)) <= Worst(casts)
  {
    OperandSafe(casts, e, j, "left", c.left, cols, names, row);
    if c.right.Some? {
      OperandSafe(casts, e, j, "right", c.right.value, cols, names, row);
    }
    if c.upper.Some? {
      OperandSafe(casts, e, j, "upper", c.upper.value, cols, names, row);
    }
    OperatorSafe(casts, e, c, j, row);
  }

  lemma {:induction false} EvalAllSafe(casts: bool, e: Executor, cond: Option<Json>, k: nat)
    requires e.Valid() && k <= |e.rows|
    requires forall i :: 0 <= i < |e.rows| ==> Grade(e.EvalCondition(cond, e.rows[i])) <= Worst(casts)
    ensures Grade(e.EvalAll(cond, k)) <= Worst(casts)
  {
    if k > 0 {
      EvalAllSafe(casts, e, cond, k - 1);
      assert Grade(e.EvalCondition(cond, e.rows[k - 1])) <= Worst(casts);
    }
  }

  lemma ConditionsSafe(casts: bool, e: Executor, j: Json, c: Condition, cols: V.ColumnMap, names: V.Names)
    requires e.Valid() && SameColumns(e, cols) && V.TypedCondition(c, cols, names)
    requires V.CarriesCondition(j, c) && (casts ==> ConditionCasts(e, c))
    ensures Grade(e.EvalAll(Some(j), |e.rows|)) <= Worst(casts)
  {
    forall i | 0 <= i < |e.rows|
      ensures Grade(e.EvalCondition(Some(j), e.rows[i])) <= Worst(casts)
    {
      ConditionSafe(casts, e, j, c, cols, names, e.rows[i]);
    }
    EvalAllSafe(casts, e, Some(j), |e.rows|);
  }

  // ---------------------------------------------------------------------------------------------
  // Nodes

  lemma ApplySafe(casts: bool, text: Text, f: Fn, v: Cell, params: Option<map<string, Json>>)
    requires params.Some?
    ensures Whitelisted(FnName(f)) && Grade(Apply(text, FnName(f), v, params)) <= Worst(casts)
  {
  }

  lemma {:induction false} ApplyAllSafe(casts: bool, text: Text, f: Fn, vs: seq<Cell>,
                                        params: Option<map<string, Json>>)
    requires params.Some?
    ensures Whitelisted(FnName(f)) && Grade(ApplyAll(text, FnName(f), vs, params)) <= Worst(casts)
  {
    ApplySafe(casts, text, f, Null, params);
    if vs != [] {
      ApplyAllSafe(casts, text, f, vs[..|vs| - 1], params);
      ApplySafe(casts, text, f, vs[|vs| - 1], params);
    }
  }

  lemma OutcomeSafe(casts: bool, e: Executor, f: Fn, params: Option<map<string, Json>>, inner: Outcome)
    requires params.Some? && e.Shape(inner)
    ensures Whitelisted(FnName(f)) && Grade(e.TransformOutcome(FnName(f), params, inner)) <= Worst(casts)
  {
    ApplySafe(casts, e.text, f, inner.scalar, params);
    if inner.perRow.Some? {
      ApplyAllSafe(casts, e.text, f, inner.perRow.value, params);
    }
  }

  lemma TransformSafe(casts: bool, e: Executor, j: Json, f: Fn, inner: Result<Outcome, ExecError>)
    requires HasString(j, "fn", FnName(f)) && Params(j).Some? && e.ShapeOf(inner) && Grade(inner) <= Worst(casts)
    ensures Grade(e.Transform(j, inner)) <= Worst(casts)
  {
    ApplySafe(casts, e.text, f, Null, Params(j));
    if inner.Ok? {
      OutcomeSafe(casts, e, f, Params(j), inner.value);
    }
  }

  lemma FillAggregateSafe(casts: bool, e: Executor, j: Json, a: Agg)
    requires e.Valid() && HasString(j, "agg", AggName(a))
    ensures Grade(e.FillAggregate(j)) <= Worst(casts)
  {
  }

  // One operation of an accepted tree is safe when the children it has are.

  lemma LeafSafe(casts: bool, e: Executor, j: Json, n: Node, cols: V.ColumnMap, names: V.Names,
                 input: Result<Outcome, ExecError>, yes: Result<Outcome, ExecError>, no: Result<Outcome, ExecError>)
    requires e.Valid() && SameColumns(e, cols) && V.Typed(n, cols, names) && V.Carries(j, n)
    requires e.ShapeOf(input) && e.ShapeOf(yes) && e.ShapeOf(no) && !n.Transform? && !n.Conditional?
    ensures Grade(e.Dispatch(j, input, yes, no)) <= Worst(casts)
  {
    if n.FillAggregate? {
      FillAggregateSafe(casts, e, j, n.agg);
    }
  }

  lemma TransformDispatch(e: Executor, j: Json, input: Result<Outcome, ExecError>, yes: Result<Outcome, ExecError>,
                          no: Result<Outcome, ExecError>)
    requires e.Valid() && e.ShapeOf(input) && e.ShapeOf(yes) && e.ShapeOf(no) && HasString(j, "op", "TRANSFORM")
    ensures e.Dispatch(j, input, yes, no) == e.Transform(j, input)
  {
  }

  lemma ConditionalDispatch(e: Executor, j: Json, input: Result<Outcome, ExecError>, yes: Result<Outcome, ExecError>,
                            no: Result<Outcome, ExecError>)
    requires e.Valid() && e.ShapeOf(input) && e.ShapeOf(yes) && e.ShapeOf(no) && HasString(j, "op", "CONDITIONAL")
    ensures e.Dispatch(j, input, yes, no) == e.Conditional(j, yes, no)
  {
  }

  lemma ConditionalSafe(casts: bool, e: Executor, j: Json, yes: Result<Outcome, ExecError>,
                        no: Result<Outcome, ExecError>)
    requires e.Valid() && e.ShapeOf(yes) && e.ShapeOf(no)
    requires Grade(e.EvalAll(Field(j, "condition"), |e.rows|)) <= Worst(casts)
    requires Grade(yes) <= Worst(casts) && Grade(no) <= Worst(casts)
    ensures Grade(e.Conditional(j, yes, no)) <= Worst(casts)
  {
  }

  lemma DispatchSafe(casts: bool, e: Executor, j: Json, n: Node, cols: V.ColumnMap, names: V.Names,
                     input: Result<Outcome, ExecError>, yes: Result<Outcome, ExecError>, no: Result<Outcome, ExecError>)
    requires e.Valid() && SameColumns(e, cols) && V.Typed(n, cols, names)
    requires V.Carries(j, n) && (casts ==> Casts(e, n))
    requires e.ShapeOf(input) && e.ShapeOf(yes) && e.ShapeOf(no)
    requires n.Transform? ==> Grade(input) <= Worst(casts)
    requires n.Conditional? ==> Grade(yes) <= Worst(casts) && Grade(no) <= Worst(casts)
    ensures Grade(e.Dispatch(j, input, yes, no)) <= Worst(casts)
  {
    hide Executor.Dispatch, Executor.Transform, Executor.Conditional, HasString;
    if n.Transform? {
      TransformDispatch(e, j, input, yes, no);
      TransformSafe(casts, e, j, n.fn, input);
    } else if n.Conditional? {
      ConditionalDispatch(e, j, input, yes, no);
      ConditionsSafe(casts, e, Field(j, "condition").value, n.cond, cols, names);
      ConditionalSafe(casts, e, j, yes, no);
    } else {
      LeafSafe(casts, e, j, n, cols, names, input, yes, no);
    }
  }

  lemma {:induction false} ChildSafe(casts: bool, e: Executor, j: Json, key: string, n: Node, cols: V.ColumnMap,
                                     names: V.Names, depth: nat)
    requires e.Valid() && SameColumns(e, cols) && V.Typed(n, cols, names) && depth + Height(n) <= MAX_DEPTH
    requires V.CarriesChild(j, key, n) && (casts ==> Casts(e, n))
    ensures Grade(e.Execute(Field(j, key), depth)) <= Worst(casts)
    decreases n, 1
  {
    NodeSafe(casts, e, Field(j, key).value, n, cols, names, depth);
  }

  lemma {:induction false} NodeSafe(casts: bool, e: Executor, j: Json, n: Node, cols: V.ColumnMap, names: V.Names,
                                    depth: nat)
    requires e.Valid() && SameColumns(e, cols) && V.Typed(n, cols, names) && depth + Height(n) <= MAX_DEPTH
    requires V.Carries(j, n) && (casts ==> Casts(e, n))
    ensures Grade(e.Execute(Some(j), depth)) <= Worst(casts)
    decreases n, 0
  {
    hide Executor.Execute, Executor.Dispatch, HasString;
    var input, yes, no := Err(UnknownOp), Err(UnknownOp), Err(UnknownOp);
    if n.Transform? {
      input := e.Execute(Field(j, "input"), depth + 1);
      ChildSafe(casts, e, j, "input", n.input, cols, names, depth + 1);
    } else if n.Conditional? {
      yes, no := e.Execute(Field(j, "then"), depth + 1), e.Execute(Field(j, "else"), depth + 1);
      ChildSafe(casts, e, j, "then", n.yes, cols, names, depth + 1);
      ChildSafe(casts, e, j, "else", n.no, cols, names, depth + 1);
    }
    DispatchSafe(casts, e, j, n, cols, names, input, yes, no);
    OpIsTag(j, n);
    e.DispatchLooksAtItsChildren(j, input, yes, no, depth);
  }

  lemma OpIsTag(j: Json, n: Node)
    requires V.Carries(j, n)
    ensures j.JObj?
    ensures HasString(j, "op", "TRANSFORM") <==> n.Transform?
    ensures HasString(j, "op", "CONDITIONAL") <==> n.Conditional?
  {
  }

  /**
   * A tree accepted against the frame's own columns never runs into the executor's depth, name,
   * column or malformed-document errors: what can still fail is the data. This holds of the document
   * as submitted and of the normalised one that is stored.
   */
  lemma AcceptedFailsOnDataOnly(e: Executor, raw: Json, columns: seq<(string, string)>, names: V.Names)
    requires e.Valid() && SameColumns(e, V.ToMap(columns)) && V.Validate(raw, columns, names).Ok?
    ensures Grade(e.Execute(Some(raw), 0)) <= Worst(false)
    ensures Grade(e.Execute(Some(Encode(V.Validate(raw, columns, names).value)), 0)) <= Worst(false)
  {
    var n := V.Validate(raw, columns, names).value;
    V.AcceptanceExact(raw, columns, names, n);
    V.EncodeCarries(n);
    NodeSafe(false, e, raw, n, V.ToMap(columns), names, 0);
    NodeSafe(false, e, Encode(n), n, V.ToMap(columns), names, 0);
  }

  /**
   * When every aggregate operand names a column that casts to float, an accepted tree raises no
   * exception but the `IRExecutionError` that the decision loop catches.
   */
  lemma AcceptedIsCaught(e: Executor, raw: Json, columns: seq<(string, string)>, names: V.Names)
    requires e.Valid() && SameColumns(e, V.ToMap(columns)) && V.Validate(raw, columns, names).Ok?
    requires Casts(e, V.Validate(raw, columns, names).value)
    ensures var r := e.Execute(Some(Encode(V.Validate(raw, columns, names).value)), 0);
            r.Err? ==> r.error in {NotNumeric, MissingBy, TransformFailed, CompareFailed}
  {
    var n := V.Validate(raw, columns, names).value;
    V.AcceptanceExact(raw, columns, names, n);
    V.EncodeCarries(n);
    NodeSafe(true, e, Encode(n), n, V.ToMap(columns), names, 0);
  }

  // ---------------------------------------------------------------------------------------------
  // The condition is needed: the mode of a text column is a legal operand

  /** `if mode(column) is null then KEEP else KEEP`. */
  function ModeTest(column: string): Node {
    Node.Conditional(Condition(IsNull, Aggregate(Mode, column), None, None), Node.Keep, Node.Keep)
  }

  lemma ModeOperandFails(e: Executor, j: Json, column: string, row: nat)
    requires e.Valid() && column in e.frame.cols && row < e.frame.height
    requires Aggregates.CastToFloat(e.text, e.frame.cols[column].cells).None?
    requires V.CarriesField(j, "left", Aggregate(Mode, column))
    ensures e.EvalCondition(Some(j), row) == Err(CastFailed)
  {
    assert e.ResolveOperand(Field(j, "left"), row) == Err(CastFailed);
  }

  lemma {:induction false} EvalAllFails(e: Executor, cond: Option<Json>, k: nat)
    requires e.Valid() && 0 < k <= |e.rows|
    requires forall i :: 0 <= i < |e.rows| ==> e.EvalCondition(cond, e.rows[i]) == Err(CastFailed)
    ensures e.EvalAll(cond, k) == Err(CastFailed)
  {
    if k > 1 {
      EvalAllFails(e, cond, k - 1);
    } else {
      assert e.EvalAll(cond, 0) == Ok([]);
    }
  }

  lemma ModeTestFails(e: Executor, j: Json, column: string, input: Result<Outcome, ExecError>,
                      yes: Result<Outcome, ExecError>, no: Result<Outcome, ExecError>)
    requires e.Valid() && column in e.frame.cols && e.rows != []
    requires Aggregates.CastToFloat(e.text, e.frame.cols[column].cells).None?
    requires V.Carries(j, ModeTest(column)) && e.ShapeOf(input) && e.ShapeOf(yes) && e.ShapeOf(no)
    ensures e.Dispatch(j, input, yes, no) == Err(CastFailed)
  {
    var cond := Field(j, "condition");
    forall i | 0 <= i < |e.rows|
      ensures e.EvalCondition(cond, e.rows[i]) == Err(CastFailed)
    {
      ModeOperandFails(e, cond.value, column, e.rows[i]);
    }
    EvalAllFails(e, cond, |e.rows|);
  }

  /**
   * The executor casts the column to float before it looks at the aggregate, so this accepted tree
   * raises an exception that the decision loop does not catch.
   */
  lemma ModeTestEscapes(e: Executor, column: string, columns: seq<(string, string)>, names: V.Names)
    requires e.Valid() && SameColumns(e, V.ToMap(columns)) && column in V.ToMap(columns) && !names.blank(column)
    requires Aggregates.CastToFloat(e.text, e.frame.cols[column].cells).None? && e.rows != []
    ensures V.Validate(Encode(ModeTest(column)), columns, names) == Ok(ModeTest(column))
    ensures e.Execute(Some(Encode(ModeTest(column))), 0) == Err(CastFailed)
  {
    hide Executor.Execute;
    ModeTestAccepted(column, columns, names);
    V.EncodeCarries(ModeTest(column));
    ModeTestRuns(e, Encode(ModeTest(column)), column);
  }

  lemma ModeTestAccepted(column: string, columns: seq<(string, string)>, names: V.Names)
    requires column in V.ToMap(columns) && !names.blank(column)
    ensures V.Validate(Encode(ModeTest(column)), columns, names) == Ok(ModeTest(column))
  {
    hide V.Validate, Encode, V.Carries;
    V.EncodeCarries(ModeTest(column));
    ModeTestTyped(column, V.ToMap(columns), names);
    V.AcceptanceExact(Encode(ModeTest(column)), columns, names, ModeTest(column));
  }

  lemma ModeTestTyped(column: string, cols: V.ColumnMap, names: V.Names)
    requires column in cols && !names.blank(column)
    ensures V.Typed(ModeTest(column), cols, names) && Height(ModeTest(column)) == 1
  {
    assert Height(Node.Keep) == 0;
    assert V.TypedCondition(ModeTest(column).cond, cols, names);
  }

  lemma ModeTestRuns(e: Executor, j: Json, column: string)
    requires e.Valid() && column in e.frame.cols && e.rows != []
    requires Aggregates.CastToFloat(e.text, e.frame.cols[column].cells).None?
    requires V.Carries(j, ModeTest(column))
    ensures e.Execute(Some(j), 0) == Err(CastFailed)
  {
    hide Executor.Execute, Executor.Dispatch, HasString;
    var input := Err(UnknownOp);
    var yes, no := e.Execute(Field(j, "then"), 1), e.Execute(Field(j, "else"), 1);
    ModeTestFails(e, j, column, input, yes, no);
    OpIsTag(j, ModeTest(column));
    e.DispatchLooksAtItsChildren(j, input, yes, no, 0);
  }

  // ---------------------------------------------------------------------------------------------
  // Both halves

  /** The submitted tree is refused, or runs, as it is stored, into no error but those the decision loop catches. */
  ghost predicate Contained(e: Executor, raw: Json, columns: seq<(string, string)>, names: V.Names)
    requires e.Valid()
  {
    match V.Validate(raw, columns, names)
    case Err(_) => true
    case Ok(n) =>
      var r := e.Execute(Some(Encode(n)), 0);
      r.Ok? || r.error in {NotNumeric, MissingBy, TransformFailed, CompareFailed}
  }

  /** Column `c` casts to float, nulls aside. */
  predicate CastsToFloat(e: Executor, c: string)
    requires c in e.frame.cols
  {
    Aggregates.CastToFloat(e.text, e.frame.cols[c].cells).Some?
  }

  lemma TypedOperandCasts(e: Executor, o: Operand, cols: V.ColumnMap, names: V.Names)
    requires SameColumns(e, cols) && V.TypedOperand(o, cols, names)
    requires forall c :: c in e.frame.cols && !names.blank(c) ==> CastsToFloat(e, c)
    ensures OperandCasts(e, o)
  {
    if o.Aggregate? {
      assert CastsToFloat(e, o.column);
    }
  }

  lemma {:induction false} TypedTreeCasts(e: Executor, n: Node, cols: V.ColumnMap, names: V.Names)
    requires SameColumns(e, cols) && V.Typed(n, cols, names)
    requires forall c :: c in e.frame.cols && !names.blank(c) ==> CastsToFloat(e, c)
    ensures Casts(e, n)
  {
    hide CastsToFloat, OperandCasts, V.TypedOperand;
    match n
    case Transform(_, _, input) => TypedTreeCasts(e, input, cols, names);
    case Conditional(c, yes, no) =>
      TypedOperandCasts(e, c.left, cols, names);
      if c.right.Some? {
        TypedOperandCasts(e, c.right.value, cols, names);
      }
      if c.upper.Some? {
        TypedOperandCasts(e, c.upper.value, cols, names);
      }
      TypedTreeCasts(e, yes, cols, names);
      TypedTreeCasts(e, no, cols, names);
    case _ =>
  }

  /**
   * On affected rows, every submitted tree is contained exactly when every column a tree can name casts
   * to float.
   */
  lemma ContainedExactly(e: Executor, columns: seq<(string, string)>, names: V.Names)
    requires e.Valid() && SameColumns(e, V.ToMap(columns)) && e.rows != []
    ensures (forall raw :: Contained(e, raw, columns, names))
            <==> forall c :: c in e.frame.cols && !names.blank(c) ==> CastsToFloat(e, c)
  {
    hide Contained, CastsToFloat, Executor.Execute, Casts, V.Validate, V.Typed, V.Carries;
    if forall c :: c in e.frame.cols && !names.blank(c) ==> CastsToFloat(e, c) {
      forall raw
        ensures Contained(e, raw, columns, names)
      {
        CastingContains(e, raw, columns, names);
      }
    }
    forall c | c in e.frame.cols && !names.blank(c) && !CastsToFloat(e, c)
      ensures !Contained(e, Encode(ModeTest(c)), columns, names)
    {
      ModeTestUncontained(e, c, columns, names);
    }
  }

  lemma CastingContains(e: Executor, raw: Json, columns: seq<(string, string)>, names: V.Names)
    requires e.Valid() && SameColumns(e, V.ToMap(columns))
    requires forall c :: c in e.frame.cols && !names.blank(c) ==> CastsToFloat(e, c)
    ensures Contained(e, raw, columns, names)
  {
    hide CastsToFloat, Executor.Execute, Casts, V.Validate, V.Typed, V.Carries, Encode;
    var v := V.Validate(raw, columns, names);
    if v.Ok? {
      V.AcceptanceExact(raw, columns, names, v.value);
      TypedTreeCasts(e, v.value, V.ToMap(columns), names);
      AcceptedIsCaught(e, raw, columns, names);
    }
  }

  lemma ModeTestUncontained(e: Executor, c: string, columns: seq<(string, string)>, names: V.Names)
    requires e.Valid() && SameColumns(e, V.ToMap(columns)) && e.rows != []
    requires c in e.frame.cols && !names.blank(c) && !CastsToFloat(e, c)
    ensures !Contained(e, Encode(ModeTest(c)), columns, names)
  {
    hide Executor.Execute, V.Validate, Encode;
    ModeTestEscapes(e, c, columns, names);
  }
}
