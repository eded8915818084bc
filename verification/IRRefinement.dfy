/** The whole-column executor against an interpreter that runs a tree on one row at a time. */
module IRRefinement {
  import opened IR
  import opened IRExecutor
  import opened Values
  import Conditions

  /**
   * Whether a tree's fill is one scalar for all rows. The executor leaves a null scalar alone but
   * transforms a null that belongs to a row, so the one-row reading needs to know which it has.
   */
  predicate ScalarSource(node: Option<Json>, depth: nat)
    decreases 4 - depth
  {
    && depth <= MAX_DEPTH && node.Some?
    && (|| HasString(node.value, "op", "FILL_LITERAL")
        || HasString(node.value, "op", "FILL_AGGREGATE")
        || (HasString(node.value, "op", "TRANSFORM") && ScalarSource(Field(node.value, "input"), depth + 1)))
  }

  /** The meaning of a tree on a single row. */
  ghost function RowRun(e: Executor, node: Option<Json>, row: nat, depth: nat): Result<RowOutcome, ExecError>
    requires e.Valid() && row < e.frame.height
    decreases 4 - depth
  {
    if depth > MAX_DEPTH then Err(TooDeep)
    else if !(node.Some? && node.value.JObj?) then Err(Malformed)
    else
      var n := node.value;
      if HasString(n, "op", "FILL_LITERAL") then RowLeaf(e.FillLiteral(n))
      else if HasString(n, "op", "FILL_AGGREGATE") then RowLeaf(e.FillAggregate(n))
      else if HasString(n, "op", "FILL_FROM_COLUMN") then
        var s := Field(n, "sourceColumn");
        if s.Some? && s.value.JStr? && s.value.s in e.frame.cols then Ok(RowFill(e.frame.cols[s.value.s].cells[row]))
        else Err(MissingColumn)
      else if HasString(n, "op", "DELETE_ROWS") then Ok(RowDelete)
      else if HasString(n, "op", "KEEP") then Ok(RowKeep)
      else if HasString(n, "op", "TRANSFORM") then
        match RowRun(e, Field(n, "input"), row, depth + 1)
        case Err(err) => Err(err)
        case Ok(inner) => RowTransform(e, n, depth, inner)
      else if HasString(n, "op", "CONDITIONAL") then
        match Conditions.Holds(e, Field(n, "condition"), row)
        case Err(err) => Err(err)
        case Ok(b) => RowRun(e, Field(n, if b then "then" else "else"), row, depth + 1)
      else Err(UnknownOp)
  }

  function RowLeaf(r: Result<Outcome, ExecError>): Result<RowOutcome, ExecError> {
    match r
    case Err(err) => Err(err)
    case Ok(o) => Ok(RowFill(o.scalar))
  }

  /** A transform acts on a fill; a null scalar, DELETE and KEEP pass through. */
  function RowTransform(e: Executor, n: Json, depth: nat, inner: RowOutcome): Result<RowOutcome, ExecError>
    requires depth <= MAX_DEPTH
  {
    var fn := Field(n, "fn");
    if !(fn.Some? && fn.value.JStr? && Whitelisted(fn.value.s)) then Err(UnknownFn)
    else if !inner.RowFill? || (inner.value.Null? && ScalarSource(Field(n, "input"), depth + 1)) then Ok(inner)
    else
      match Apply(e.text, fn.value.s, inner.value, Params(n))
      case Err(err) => Err(err)
      case Ok(v) => Ok(RowFill(v))
  }

  /** No CONDITIONAL feeds a TRANSFORM. */
  predicate ClearTransforms(node: Option<Json>, depth: nat)
    decreases 4 - depth
  {
    depth <= MAX_DEPTH && node.Some? ==>
      if HasString(node.value, "op", "TRANSFORM") then NoConditional(Field(node.value, "input"), depth + 1)
      else if HasString(node.value, "op", "CONDITIONAL") then
        && ClearTransforms(Field(node.value, "then"), depth + 1)
        && ClearTransforms(Field(node.value, "else"), depth + 1)
      else true
  }

  predicate NoConditional(node: Option<Json>, depth: nat)
    decreases 4 - depth
  {
    depth <= MAX_DEPTH && node.Some? ==>
      && !HasString(node.value, "op", "CONDITIONAL")
      && (HasString(node.value, "op", "TRANSFORM") ==> NoConditional(Field(node.value, "input"), depth + 1))
  }

  /** What the outcome of the whole column says about row `k`, next to the row's own meaning. */
  ghost predicate RowRefines(e: Executor, node: Option<Json>, depth: nat, o: Outcome, k: nat)
    requires e.Valid() && e.Shape(o) && k < |e.rows|
  {
    var r := RowRun(e, node, e.rows[k], depth);
    && r.Ok?
    && (r.value.RowFill? ==> o.kind.Fill? && e.At(o, k) == r.value)
    && (!r.value.RowFill? && !o.kind.Fill? ==> e.At(o, k) == r.value)
    && (!r.value.RowFill? && o.kind.Fill? && ClearTransforms(node, depth) ==> e.At(o, k) == RowFill(Null))
    && (!r.value.RowFill? && NoConditional(node, depth) ==> !o.kind.Fill?)
  }

  ghost predicate Refines(e: Executor, node: Option<Json>, depth: nat, o: Outcome)
    requires e.Valid() && e.Shape(o)
  {
    && (o.kind.Fill? ==> (o.perRow.None? <==> ScalarSource(node, depth)))
    && forall k :: 0 <= k < |e.rows| ==> RowRefines(e, node, depth, o, k)
  }

  lemma LeafRefines(e: Executor, node: Option<Json>, depth: nat, o: Outcome)
    requires e.Valid() && e.Execute(node, depth) == Ok(o)
    requires !HasString(node.value, "op", "TRANSFORM") && !HasString(node.value, "op", "CONDITIONAL")
    ensures Refines(e, node, depth, o)
  {
  }

  lemma TransformRefines(e: Executor, node: Option<Json>, depth: nat, inner: Outcome, o: Outcome)
    requires e.Valid() && depth <= MAX_DEPTH
    requires node.Some? && HasString(node.value, "op", "TRANSFORM")
    requires e.Shape(inner) && e.Shape(o)
    requires Refines(e, Field(node.value, "input"), depth + 1, inner)
    requires Field(node.value, "fn").Some? && Field(node.value, "fn").value.JStr?
    requires Whitelisted(Field(node.value, "fn").value.s)
    requires e.TransformOutcome(Field(node.value, "fn").value.s, Params(node.value), inner) == Ok(o)
    ensures Refines(e, node, depth, o)
  {
    var n, input := node.value, Field(node.value, "input");
    forall k | 0 <= k < |e.rows|
      ensures RowRefines(e, node, depth, o, k)
    {
      assert RowRefines(e, input, depth + 1, inner, k);
      TransformRow(e, n, depth, inner, o, k);
    }
  }

  lemma TransformRow(e: Executor, n: Json, depth: nat, inner: Outcome, o: Outcome, k: nat)
    requires e.Valid() && depth <= MAX_DEPTH && k < |e.rows|
    requires HasString(n, "op", "TRANSFORM")
    requires e.Shape(inner) && e.Shape(o)
    requires inner.kind.Fill? ==> (inner.perRow.None? <==> ScalarSource(Field(n, "input"), depth + 1))
    requires RowRefines(e, Field(n, "input"), depth + 1, inner, k)
    requires Field(n, "fn").Some? && Field(n, "fn").value.JStr? && Whitelisted(Field(n, "fn").value.s)
    requires e.TransformOutcome(Field(n, "fn").value.s, Params(n), inner) == Ok(o)
    ensures RowRefines(e, Some(n), depth, o, k)
  {
    var r := RowRun(e, Field(n, "input"), e.rows[k], depth + 1).value;
    assert RowRun(e, Some(n), e.rows[k], depth) == RowTransform(e, n, depth, r);
  }

  lemma ConditionalRefines(e: Executor, node: Option<Json>, depth: nat, conds: seq<bool>, yes: Outcome, no: Outcome)
    requires e.Valid() && depth <= MAX_DEPTH
    requires node.Some? && HasString(node.value, "op", "CONDITIONAL")
    requires e.Shape(yes) && e.Shape(no) && |conds| == |e.rows|
    requires forall k :: 0 <= k < |e.rows| ==>
               e.EvalCondition(Field(node.value, "condition"), e.rows[k]) == Ok(conds[k])
    requires Refines(e, Field(node.value, "then"), depth + 1, yes)
    requires Refines(e, Field(node.value, "else"), depth + 1, no)
    ensures Refines(e, node, depth, e.Mix(conds, yes, no))
  {
    var n, o := node.value, e.Mix(conds, yes, no);
    assert !ScalarSource(node, depth);
    forall k | 0 <= k < |e.rows|
      ensures RowRefines(e, node, depth, o, k)
    {
      MixAt(e, conds, yes, no, k);
      if conds[k] {
        ChosenRow(e, n, depth, "then", yes, o, k);
      } else {
        ChosenRow(e, n, depth, "else", no, o, k);
      }
    }
  }

  /** The chosen branch passes through the mix, a sentinel possibly as a null fill. */
  lemma MixAt(e: Executor, conds: seq<bool>, yes: Outcome, no: Outcome, k: nat)
    requires |conds| == |e.rows| && e.Shape(yes) && e.Shape(no) && k < |e.rows|
    ensures var o, branch := e.Mix(conds, yes, no), if conds[k] then e.At(yes, k) else e.At(no, k);
            if o.kind.Fill? then o.perRow.Some? && e.At(o, k) == RowFill(Plain(branch)) else e.At(o, k) == branch
  {
    var mixed := seq(|e.rows|, j requires 0 <= j < |e.rows| => if conds[j] then e.At(yes, j) else e.At(no, j));
    assert mixed[k] == if conds[k] then e.At(yes, k) else e.At(no, k);
  }

  lemma ChosenRow(e: Executor, n: Json, depth: nat, key: string, branch: Outcome, o: Outcome, k: nat)
    requires e.Valid() && depth <= MAX_DEPTH && HasString(n, "op", "CONDITIONAL") && k < |e.rows|
    requires e.EvalCondition(Field(n, "condition"), e.rows[k]).Ok?
    requires key == if e.EvalCondition(Field(n, "condition"), e.rows[k]).value then "then" else "else"
    requires e.Shape(branch) && e.Shape(o)
    requires RowRefines(e, Field(n, key), depth + 1, branch, k)
    requires if o.kind.Fill? then e.At(o, k) == RowFill(Plain(e.At(branch, k))) else e.At(o, k) == e.At(branch, k)
    ensures RowRefines(e, Some(n), depth, o, k)
  {
    Conditions.EvalIsHolds(e, Field(n, "condition"), e.rows[k]);
    hide Executor.EvalCondition, Conditions.Holds;
    assert RowRun(e, Some(n), e.rows[k], depth) == RowRun(e, Field(n, key), e.rows[k], depth + 1);
  }

  lemma ExecutesTransform(e: Executor, n: Json, depth: nat)
    requires e.Valid() && depth <= MAX_DEPTH && HasString(n, "op", "TRANSFORM")
    ensures e.Execute(Some(n), depth) == e.Transform(n, e.Execute(Field(n, "input"), depth + 1))
  {
    hide Executor.FillLiteral, Executor.FillAggregate, Executor.FillFromColumn, Executor.Transform,
         Executor.Conditional;
  }

  lemma ExecutesConditional(e: Executor, n: Json, depth: nat)
    requires e.Valid() && depth <= MAX_DEPTH && HasString(n, "op", "CONDITIONAL")
    ensures e.Execute(Some(n), depth)
            == e.Conditional(n, e.Execute(Field(n, "then"), depth + 1), e.Execute(Field(n, "else"), depth + 1))
  {
    hide Executor.FillLiteral, Executor.FillAggregate, Executor.FillFromColumn, Executor.Transform,
         Executor.Conditional;
  }

  lemma ExecuteNeedsNode(e: Executor, node: Option<Json>, depth: nat)
    requires e.Valid() && e.Execute(node, depth).Ok?
    ensures depth <= MAX_DEPTH && node.Some? && node.value.JObj?
  {
    hide Executor.Dispatch;
  }

  /** Whenever the executor succeeds, every row gets what the tree means on that row alone. */
  lemma {:induction false} ExecuteRefines(e: Executor, node: Option<Json>, depth: nat)
    requires e.Valid() && e.Execute(node, depth).Ok?
    ensures Refines(e, node, depth, e.Execute(node, depth).value)
    decreases 4 - depth
  {
    hide Executor.Execute, Executor.Dispatch, Executor.TransformOutcome, Executor.Mix, Refines, HasString;
    ExecuteNeedsNode(e, node, depth);
    var n, o := node.value, e.Execute(node, depth).value;
    if HasString(n, "op", "TRANSFORM") {
      ExecutesTransform(e, n, depth);
      ExecuteRefines(e, Field(n, "input"), depth + 1);
      TransformRefines(e, node, depth, e.Execute(Field(n, "input"), depth + 1).value, o);
    } else if HasString(n, "op", "CONDITIONAL") {
      ExecutesConditional(e, n, depth);
      ExecuteRefines(e, Field(n, "then"), depth + 1);
      ExecuteRefines(e, Field(n, "else"), depth + 1);
      ConditionalRefines(e, node, depth, e.EvalAll(Field(n, "condition"), |e.rows|).value,
                         e.Execute(Field(n, "then"), depth + 1).value, e.Execute(Field(n, "else"), depth + 1).value);
    } else {
      LeafRefines(e, node, depth, o);
    }
  }

  // ---------------------------------------------------------------------------------------------
  // What the decision loop writes

  /** The write to row `k`, or None when the row stays as it is. */
  function Written(e: Executor, o: Outcome, k: nat): Option<Cell>
    requires e.Shape(o) && k < |e.rows|
  {
    match e.At(o, k)
    case RowFill(v) => Some(v)
    case _ => None
  }

  /**
   * A row whose meaning is a fill is filled with that value. A row whose meaning is KEEP or DELETE is
   * left unchanged or filled with null, as long as no CONDITIONAL feeds a TRANSFORM.
   */
  lemma WritesRefineRows(e: Executor, node: Json, k: nat)
    requires e.Valid() && e.Execute(Some(node), 0).Ok? && k < |e.rows|
    ensures var r, w := RowRun(e, Some(node), e.rows[k], 0), Written(e, e.Execute(Some(node), 0).value, k);
            && r.Ok?
            && (r.value.RowFill? ==> w == Some(r.value.value))
            && (!r.value.RowFill? && ClearTransforms(Some(node), 0) ==> w == None || w == Some(Null))
  {
    ExecuteRefines(e, Some(node), 0);
    assert RowRefines(e, Some(node), 0, e.Execute(Some(node), 0).value, k);
  }

  // ---------------------------------------------------------------------------------------------
  // The restriction is needed: upper(if c then KEEP else v) overwrites the rows it should keep

  /** `if c then KEEP else FILL_LITERAL`. */
  ghost predicate KeepOrFill(n: Json) {
    && HasString(n, "op", "CONDITIONAL")
    && Field(n, "then").Some? && HasString(Field(n, "then").value, "op", "KEEP")
    && Field(n, "else").Some? && HasString(Field(n, "else").value, "op", "FILL_LITERAL")
  }

  lemma {:induction false} EvalAllKnown(e: Executor, cond: Option<Json>, conds: seq<bool>, k: nat)
    requires e.Valid() && k <= |conds| == |e.rows|
    requires forall i :: 0 <= i < |conds| ==> e.EvalCondition(cond, e.rows[i]) == Ok(conds[i])
    ensures e.EvalAll(cond, k) == Ok(conds[..k])
  {
    hide Executor.EvalCondition;
    if k > 0 {
      EvalAllKnown(e, cond, conds, k - 1);
      assert conds[..k] == conds[..k - 1] + [conds[k - 1]];
    }
  }

  lemma KeepRuns(e: Executor, n: Json, depth: nat, row: nat)
    requires e.Valid() && depth <= MAX_DEPTH && HasString(n, "op", "KEEP") && row < e.frame.height
    ensures e.Execute(Some(n), depth) == Ok(Outcome(KeepRows, Null, None))
    ensures RowRun(e, Some(n), row, depth) == Ok(RowKeep)
  {
  }

  lemma LiteralRuns(e: Executor, n: Json, depth: nat)
    requires e.Valid() && depth <= MAX_DEPTH && HasString(n, "op", "FILL_LITERAL")
    ensures e.Execute(Some(n), depth).Ok? && e.Execute(Some(n), depth).value.kind.Fill?
  {
  }

  lemma KeepOrFillMixes(e: Executor, n: Json, conds: seq<bool>, k: nat, j: nat)
    requires e.Valid() && |conds| == |e.rows| && KeepOrFill(n)
    requires forall i :: 0 <= i < |conds| ==> e.EvalCondition(Field(n, "condition"), e.rows[i]) == Ok(conds[i])
    requires k < |conds| && conds[k] && j < |conds| && !conds[j]
    ensures e.Execute(Some(n), 1).Ok?
    ensures var o := e.Execute(Some(n), 1).value;
            o.perRow.Some? && |o.perRow.value| == |conds| && o.perRow.value[k] == Null
  {
    hide Executor.Execute, Executor.EvalCondition, Executor.EvalAll, Executor.Mix;
    var keep, fill := Outcome(KeepRows, Null, None), e.Execute(Field(n, "else"), 2);
    EvalAllKnown(e, Field(n, "condition"), conds, |conds|);
    assert conds[..|conds|] == conds;
    KeepRuns(e, Field(n, "then").value, 2, e.rows[k]);
    LiteralRuns(e, Field(n, "else").value, 2);
    ExecutesConditional(e, n, 1);
    MixAt(e, conds, keep, fill.value, k);
    MixAt(e, conds, keep, fill.value, j);
  }

  lemma {:induction false} UpperNeverFails(text: Text, vs: seq<Cell>, params: Option<map<string, Json>>)
    ensures ApplyAll(text, "upper", vs, params).Ok?
    ensures forall k :: 0 <= k < |vs| ==>
              ApplyAll(text, "upper", vs, params).value[k] == StrC(text.upper(PyStr(text, vs[k])))
  {
    if vs != [] {
      UpperNeverFails(text, vs[..|vs| - 1], params);
    }
  }

  /** As soon as one other row is filled, a row told to KEEP gets the transformed null, such as "NONE". */
  lemma KeepIsOverwritten(e: Executor, t: Json, n: Json, conds: seq<bool>, k: nat, j: nat)
    requires HasString(t, "op", "TRANSFORM") && HasString(t, "fn", "upper") && Field(t, "input") == Some(n)
    requires e.Valid() && |conds| == |e.rows| && KeepOrFill(n)
    requires forall i :: 0 <= i < |conds| ==> e.EvalCondition(Field(n, "condition"), e.rows[i]) == Ok(conds[i])
    requires k < |conds| && conds[k] && j < |conds| && !conds[j]
    ensures RowRun(e, Some(t), e.rows[k], 0) == Ok(RowKeep)
    ensures e.Execute(Some(t), 0).Ok?
    ensures Written(e, e.Execute(Some(t), 0).value, k) == Some(StrC(e.text.upper(e.text.show(Null))))
  {
    hide Executor.Execute, Executor.TransformOutcome, Executor.EvalCondition, RowRun, Written;
    KeepOrFillMixes(e, n, conds, k, j);
    UpperOfRows(e, Params(t), e.Execute(Some(n), 1).value, k);
    ExecutesTransform(e, t, 0);
    KeepRow(e, t, n, k);
  }

  lemma UpperOfRows(e: Executor, params: Option<map<string, Json>>, mixed: Outcome, k: nat)
    requires e.Shape(mixed) && mixed.perRow.Some? && k < |e.rows| && mixed.perRow.value[k] == Null
    ensures e.TransformOutcome("upper", params, mixed).Ok?
    ensures Written(e, e.TransformOutcome("upper", params, mixed).value, k)
            == Some(StrC(e.text.upper(e.text.show(Null))))
  {
    UpperNeverFails(e.text, mixed.perRow.value, params);
  }

  lemma KeepRow(e: Executor, t: Json, n: Json, k: nat)
    requires e.Valid() && k < |e.rows| && KeepOrFill(n)
    requires HasString(t, "op", "TRANSFORM") && HasString(t, "fn", "upper") && Field(t, "input") == Some(n)
    requires e.EvalCondition(Field(n, "condition"), e.rows[k]) == Ok(true)
    ensures RowRun(e, Some(t), e.rows[k], 0) == Ok(RowKeep)
  {
    KeepRuns(e, Field(n, "then").value, 2, e.rows[k]);
    RowRunsConditional(e, n, e.rows[k]);
    RowRunsTransform(e, t, e.rows[k]);
  }

  lemma RowRunsTransform(e: Executor, t: Json, row: nat)
    requires e.Valid() && HasString(t, "op", "TRANSFORM") && HasString(t, "fn", "upper") && row < e.frame.height
    ensures RowRun(e, Field(t, "input"), row, 1) == Ok(RowKeep) ==> RowRun(e, Some(t), row, 0) == Ok(RowKeep)
  {
    hide Executor.FillLiteral, Executor.FillAggregate, Conditions.Holds, Apply;
  }

  lemma RowRunsConditional(e: Executor, n: Json, row: nat)
    requires e.Valid() && HasString(n, "op", "CONDITIONAL") && row < e.frame.height
    ensures e.EvalCondition(Field(n, "condition"), row) == Ok(true) ==>
              RowRun(e, Some(n), row, 1) == RowRun(e, Field(n, "then"), row, 2)
  {
    Conditions.EvalIsHolds(e, Field(n, "condition"), row);
    hide Executor.FillLiteral, Executor.FillAggregate, Executor.EvalCondition, Conditions.Holds, Apply;
  }
}
