/** When a row told to KEEP or to be deleted is left alone, and what is written to it when it is not. */
module IRSentinels {
  import opened IR
  import opened IRExecutor
  import opened IRRefinement
  import opened Values
  import Conditions

  const KEEP := "KEEP"
  const DELETE := "DELETE_ROWS"

  function KindOf(op: string): Kind {
    if op == KEEP then KeepRows else Delete
  }

  /** The branch that a condition chooses for a row. */
  ghost function Chosen(e: Executor, n: Json, row: nat): Option<Json>
    requires e.Valid() && row < e.frame.height
  {
    match Conditions.Holds(e, Field(n, "condition"), row)
    case Ok(b) => Field(n, if b then "then" else "else")
    case Err(_) => None
  }

  /**
   * The tree says `op` for the affected rows as one: it is `op`, or transforms such a tree, or chooses
   * such a branch on every affected row.
   */
  ghost predicate Uniform(e: Executor, node: Option<Json>, depth: nat, op: string)
    requires e.Valid()
    decreases 4 - depth
  {
    && depth <= MAX_DEPTH && node.Some?
    && if HasString(node.value, "op", "TRANSFORM") then Uniform(e, Field(node.value, "input"), depth + 1, op)
       else if HasString(node.value, "op", "CONDITIONAL") then
         forall k :: 0 <= k < |e.rows| ==> Uniform(e, Chosen(e, node.value, e.rows[k]), depth + 1, op)
       else HasString(node.value, "op", op)
  }

  /** What a row that is not left alone receives: the null of the lowest mix, as the transforms above it make of it. */
  ghost function LostValue(e: Executor, node: Option<Json>, row: nat, depth: nat): Cell
    requires e.Valid() && row < e.frame.height
    decreases 4 - depth
  {
    if depth > MAX_DEPTH || node.None? then Null
    else if HasString(node.value, "op", "TRANSFORM") then
      var fn, v := Field(node.value, "fn"), LostValue(e, Field(node.value, "input"), row, depth + 1);
      if fn.Some? && fn.value.JStr? && Whitelisted(fn.value.s) then
        match Apply(e.text, fn.value.s, v, Params(node.value))
        case Ok(w) => w
        case Err(_) => Null
      else Null
    else if HasString(node.value, "op", "CONDITIONAL") then
      var branch := Chosen(e, node.value, row);
      if Uniform(e, branch, depth + 1, KEEP) || Uniform(e, branch, depth + 1, DELETE) then Null
      else LostValue(e, branch, row, depth + 1)
    else Null
  }

  // ---------------------------------------------------------------------------------------------
  // The executor's kind is uniformity

  /** A mix is a sentinel exactly when every row's chosen branch is that sentinel. */
  lemma MixKind(e: Executor, conds: seq<bool>, yes: Outcome, no: Outcome, op: string)
    requires |conds| == |e.rows| && e.Shape(yes) && e.Shape(no) && e.rows != [] && op in {KEEP, DELETE}
    ensures e.Mix(conds, yes, no).kind == KindOf(op)
            <==> forall k :: 0 <= k < |e.rows| ==> (if conds[k] then yes else no).kind == KindOf(op)
  {
    var o := e.Mix(conds, yes, no);
    forall k | 0 <= k < |e.rows|
      ensures o.kind == KindOf(op) ==> (if conds[k] then yes else no).kind == KindOf(op)
    {
      MixAt(e, conds, yes, no, k);
    }
    if forall k :: 0 <= k < |e.rows| ==> (if conds[k] then yes else no).kind == KindOf(op) {
      AllSame(e, conds, yes, no, op);
    }
  }

  lemma AllSame(e: Executor, conds: seq<bool>, yes: Outcome, no: Outcome, op: string)
    requires |conds| == |e.rows| && e.Shape(yes) && e.Shape(no) && e.rows != [] && op in {KEEP, DELETE}
    requires forall k :: 0 <= k < |e.rows| ==> (if conds[k] then yes else no).kind == KindOf(op)
    ensures e.Mix(conds, yes, no).kind == KindOf(op)
  {
    var mixed := seq(|e.rows|, k requires 0 <= k < |e.rows| => if conds[k] then e.At(yes, k) else e.At(no, k));
    forall k | 0 <= k < |e.rows|
      ensures mixed[k] == if op == KEEP then RowKeep else RowDelete
    {
      assert (if conds[k] then yes else no).kind == KindOf(op);
    }
    assert !(mixed[0].RowDelete? && mixed[0].RowKeep?);
  }

  lemma LeafKind(e: Executor, n: Json, depth: nat, op: string)
    requires e.Valid() && e.Execute(Some(n), depth).Ok? && op in {KEEP, DELETE}
    requires !HasString(n, "op", "TRANSFORM") && !HasString(n, "op", "CONDITIONAL")
    ensures e.Execute(Some(n), depth).value.kind == KindOf(op) <==> HasString(n, "op", op)
  {
  }

  lemma TransformKind(e: Executor, n: Json, inner: Outcome, op: string)
    requires e.Shape(inner) && e.Transform(n, Ok(inner)).Ok? && op in {KEEP, DELETE}
    ensures e.Transform(n, Ok(inner)).value.kind == KindOf(op) <==> inner.kind == KindOf(op)
  {
    hide Apply, ApplyAll;
  }

  /** The two branches of a conditional, and which of them each row takes. */
  lemma Branches(e: Executor, n: Json, depth: nat) returns (conds: seq<bool>, yes: Outcome, no: Outcome)
    requires e.Valid() && depth <= MAX_DEPTH && HasString(n, "op", "CONDITIONAL") && e.Execute(Some(n), depth).Ok?
    ensures |conds| == |e.rows| && e.Shape(yes) && e.Shape(no)
    ensures e.Execute(Field(n, "then"), depth + 1) == Ok(yes) && e.Execute(Field(n, "else"), depth + 1) == Ok(no)
    ensures e.Execute(Some(n), depth) == Ok(e.Mix(conds, yes, no))
    ensures forall k :: 0 <= k < |e.rows| ==>
              && e.EvalCondition(Field(n, "condition"), e.rows[k]) == Ok(conds[k])
              && Chosen(e, n, e.rows[k]) == Field(n, if conds[k] then "then" else "else")
  {
    hide Executor.Execute, Executor.EvalCondition, Conditions.Holds, Executor.Mix;
    ExecutesConditional(e, n, depth);
    conds := e.EvalAll(Field(n, "condition"), |e.rows|).value;
    forall k | 0 <= k < |e.rows|
      ensures Conditions.Holds(e, Field(n, "condition"), e.rows[k]) == Ok(conds[k])
    {
      Conditions.EvalIsHolds(e, Field(n, "condition"), e.rows[k]);
    }
    yes, no := e.Execute(Field(n, "then"), depth + 1).value, e.Execute(Field(n, "else"), depth + 1).value;
  }

  lemma {:induction false} KindIsUniform(e: Executor, node: Option<Json>, depth: nat, op: string)
    requires e.Valid() && e.rows != [] && e.Execute(node, depth).Ok? && op in {KEEP, DELETE}
    ensures e.Execute(node, depth).value.kind == KindOf(op) <==> Uniform(e, node, depth, op)
    decreases 4 - depth
  {
    hide Executor.Execute, Executor.Transform, Executor.Mix, Conditions.Holds, Executor.Shape, Chosen, HasString;
    ExecuteNeedsNode(e, node, depth);
    var n := node.value;
    if HasString(n, "op", "TRANSFORM") {
      ExecutesTransform(e, n, depth);
      TransformNeedsInput(e, n, depth);
      KindIsUniform(e, Field(n, "input"), depth + 1, op);
      TransformKind(e, n, e.Execute(Field(n, "input"), depth + 1).value, op);
    } else if HasString(n, "op", "CONDITIONAL") {
      var conds, yes, no := Branches(e, n, depth);
      MixKind(e, conds, yes, no, op);
      KindIsUniform(e, Field(n, "then"), depth + 1, op);
      KindIsUniform(e, Field(n, "else"), depth + 1, op);
    } else {
      LeafKind(e, n, depth, op);
    }
  }

  lemma TransformNeedsInput(e: Executor, n: Json, depth: nat)
    requires e.Valid() && depth <= MAX_DEPTH && HasString(n, "op", "TRANSFORM") && e.Execute(Some(n), depth).Ok?
    ensures e.Execute(Field(n, "input"), depth + 1).Ok?
    ensures Field(n, "fn").Some? && Field(n, "fn").value.JStr? && Whitelisted(Field(n, "fn").value.s)
  {
    hide Executor.Execute, Executor.TransformOutcome;
    ExecutesTransform(e, n, depth);
  }

  // ---------------------------------------------------------------------------------------------
  // What the other rows receive

  /** A tree with one scalar for all rows is a fill on every row. */
  lemma {:induction false} ScalarFills(e: Executor, node: Option<Json>, row: nat, depth: nat)
    requires e.Valid() && row < e.frame.height && ScalarSource(node, depth) && RowRun(e, node, row, depth).Ok?
    ensures RowRun(e, node, row, depth).value.RowFill?
    decreases 4 - depth
  {
    hide Executor.FillLiteral, Executor.FillAggregate, Conditions.Holds, Apply;
    if HasString(node.value, "op", "TRANSFORM") {
      ScalarFills(e, Field(node.value, "input"), row, depth + 1);
    }
  }

  lemma TransformLost(e: Executor, n: Json, depth: nat, inner: Outcome, o: Outcome, k: nat)
    requires e.Valid() && depth <= MAX_DEPTH && HasString(n, "op", "TRANSFORM") && k < |e.rows|
    requires Field(n, "fn").Some? && Field(n, "fn").value.JStr? && Whitelisted(Field(n, "fn").value.s)
    requires e.Shape(inner) && inner.kind.Fill? && inner.perRow.Some? && e.Transform(n, Ok(inner)) == Ok(o)
             && e.Shape(o)
    requires e.At(inner, k) == RowFill(LostValue(e, Field(n, "input"), e.rows[k], depth + 1))
    ensures o.kind.Fill? && e.At(o, k) == RowFill(LostValue(e, Some(n), e.rows[k], depth))
  {
    hide Apply;
  }

  /** A row whose meaning is no fill, in a result that is a fill, holds the lost value. */
  lemma {:induction false} FillsLose(e: Executor, node: Option<Json>, depth: nat, k: nat)
    requires e.Valid() && k < |e.rows| && e.Execute(node, depth).Ok?
    requires RowRun(e, node, e.rows[k], depth).Ok? && !RowRun(e, node, e.rows[k], depth).value.RowFill?
    requires e.Execute(node, depth).value.kind.Fill?
    ensures e.At(e.Execute(node, depth).value, k) == RowFill(LostValue(e, node, e.rows[k], depth))
    decreases 4 - depth
  {
    hide Executor.Execute, Executor.Transform, Executor.Mix, Conditions.Holds, RowRun, Uniform, Chosen,
         LostValue, Apply;
    ExecuteNeedsNode(e, node, depth);
    var n, o := node.value, e.Execute(node, depth).value;
    if HasString(n, "op", "TRANSFORM") {
      ExecutesTransform(e, n, depth);
      TransformNeedsInput(e, n, depth);
      var inner := e.Execute(Field(n, "input"), depth + 1).value;
      LostInput(e, n, depth, inner, k);
      FillsLose(e, Field(n, "input"), depth + 1, k);
      TransformLost(e, n, depth, inner, o, k);
    } else if HasString(n, "op", "CONDITIONAL") {
      var conds, yes, no := Branches(e, n, depth);
      var branch, key := if conds[k] then yes else no, if conds[k] then "then" else "else";
      BranchRow(e, n, depth, k);
      MixAt(e, conds, yes, no, k);
      KindIsUniform(e, Field(n, key), depth + 1, KEEP);
      KindIsUniform(e, Field(n, key), depth + 1, DELETE);
      if branch.kind.Fill? {
        FillsLose(e, Field(n, key), depth + 1, k);
      }
      LostOfBranch(e, n, depth, k);
    } else {
      LeafFills(e, n, depth, k);
    }
  }

  lemma LeafFills(e: Executor, n: Json, depth: nat, k: nat)
    requires e.Valid() && k < |e.rows| && e.Execute(Some(n), depth).Ok? && e.Execute(Some(n), depth).value.kind.Fill?
    requires !HasString(n, "op", "TRANSFORM") && !HasString(n, "op", "CONDITIONAL")
    requires RowRun(e, Some(n), e.rows[k], depth).Ok?
    ensures RowRun(e, Some(n), e.rows[k], depth).value.RowFill?
  {
  }

  lemma LostInput(e: Executor, n: Json, depth: nat, inner: Outcome, k: nat)
    requires e.Valid() && k < |e.rows| && depth <= MAX_DEPTH && HasString(n, "op", "TRANSFORM")
    requires e.Execute(Field(n, "input"), depth + 1) == Ok(inner)
    requires e.Transform(n, Ok(inner)).Ok? && e.Transform(n, Ok(inner)).value.kind.Fill?
    requires RowRun(e, Some(n), e.rows[k], depth).Ok? && !RowRun(e, Some(n), e.rows[k], depth).value.RowFill?
    ensures inner.kind.Fill? && inner.perRow.Some?
    ensures var r := RowRun(e, Field(n, "input"), e.rows[k], depth + 1); r.Ok? && !r.value.RowFill?
  {
    hide Executor.Execute, Conditions.Holds, Executor.FillLiteral, Executor.FillAggregate, ApplyAll, Apply,
         ScalarSource;
    ExecuteRefines(e, Field(n, "input"), depth + 1);
    TransformRowRun(e, n, depth, e.rows[k]);
    if inner.perRow.None? && inner.kind.Fill? {
      ScalarFills(e, Field(n, "input"), e.rows[k], depth + 1);
    }
  }

  lemma TransformRowRun(e: Executor, n: Json, depth: nat, row: nat)
    requires e.Valid() && row < e.frame.height && depth <= MAX_DEPTH && HasString(n, "op", "TRANSFORM")
    requires RowRun(e, Some(n), row, depth).Ok? && !RowRun(e, Some(n), row, depth).value.RowFill?
    ensures var r := RowRun(e, Field(n, "input"), row, depth + 1); r.Ok? && !r.value.RowFill?
  {
    hide Conditions.Holds, Executor.FillLiteral, Executor.FillAggregate, Apply, ScalarSource;
  }

  lemma BranchRow(e: Executor, n: Json, depth: nat, k: nat)
    requires e.Valid() && k < |e.rows| && depth <= MAX_DEPTH && HasString(n, "op", "CONDITIONAL")
    requires RowRun(e, Some(n), e.rows[k], depth).Ok?
    ensures RowRun(e, Some(n), e.rows[k], depth) == RowRun(e, Chosen(e, n, e.rows[k]), e.rows[k], depth + 1)
  {
    hide Conditions.Holds, Executor.FillLiteral, Executor.FillAggregate, Apply;
  }

  lemma LostOfBranch(e: Executor, n: Json, depth: nat, k: nat)
    requires e.Valid() && k < |e.rows| && depth <= MAX_DEPTH && HasString(n, "op", "CONDITIONAL")
    ensures var branch := Chosen(e, n, e.rows[k]);
            LostValue(e, Some(n), e.rows[k], depth)
            == if Uniform(e, branch, depth + 1, KEEP) || Uniform(e, branch, depth + 1, DELETE) then Null
               else LostValue(e, branch, e.rows[k], depth + 1)
  {
    hide Conditions.Holds, Uniform, Apply;
  }

  // ---------------------------------------------------------------------------------------------
  // Every row of every tree

  /** What a node gives a row; None leaves it as it is. */
  ghost function Given(e: Executor, node: Option<Json>, row: nat, depth: nat): Option<Cell>
    requires e.Valid() && row < e.frame.height
  {
    match RowRun(e, node, row, depth)
    case Ok(RowFill(v)) => Some(v)
    case Ok(RowKeep) => if Uniform(e, node, depth, KEEP) then None else Some(LostValue(e, node, row, depth))
    case Ok(RowDelete) => if Uniform(e, node, depth, DELETE) then None else Some(LostValue(e, node, row, depth))
    case Err(_) => None
  }

  /** What the tree writes to a row. */
  ghost function RowWrite(e: Executor, node: Json, row: nat): Option<Cell>
    requires e.Valid() && row < e.frame.height
  {
    Given(e, Some(node), row, 0)
  }

  lemma GivenExactly(e: Executor, node: Option<Json>, depth: nat, k: nat)
    requires e.Valid() && e.Execute(node, depth).Ok? && k < |e.rows|
    ensures RowRun(e, node, e.rows[k], depth).Ok?
    ensures Written(e, e.Execute(node, depth).value, k) == Given(e, node, e.rows[k], depth)
  {
    hide Executor.Execute, RowRun, Uniform, LostValue, ClearTransforms, NoConditional, ScalarSource;
    var o := e.Execute(node, depth).value;
    ExecuteRefines(e, node, depth);
    assert RowRefines(e, node, depth, o, k);
    KindIsUniform(e, node, depth, KEEP);
    KindIsUniform(e, node, depth, DELETE);
    if !RowRun(e, node, e.rows[k], depth).value.RowFill? && o.kind.Fill? {
      FillsLose(e, node, depth, k);
    }
  }

  /**
   * What the executor writes to a row, exactly: the row's own fill; nothing to a row told to KEEP or to be
   * deleted if the tree says so for all affected rows; and the lost value to any other.
   */
  lemma WritesExactly(e: Executor, node: Json, k: nat)
    requires e.Valid() && e.Execute(Some(node), 0).Ok? && k < |e.rows|
    ensures RowRun(e, Some(node), e.rows[k], 0).Ok?
    ensures Written(e, e.Execute(Some(node), 0).value, k) == RowWrite(e, node, e.rows[k])
  {
    GivenExactly(e, Some(node), 0, k);
  }
}
