/** The worker's interpreter of correction trees, over all affected rows at once. */
module IRExecutor {
  import opened IR
  import opened Values
  import Aggregates
  import OutlierDetection

  const MAX_DEPTH: nat := 3

  /**
   * `NotNumeric` to `CompareFailed` and the unknown names are `IRExecutionError`s, which the caller
   * logs and skips. `Malformed` (a missing key, a value that is not a dict) and `CastFailed` (a column
   * that does not cast to float) are other exceptions, which escape.
   */
  datatype ExecError =
    | TooDeep | UnknownOp | UnknownFn | UnknownAggregate | UnknownCondition | UnknownOperand | MissingColumn
    | NotNumeric | MissingBy | TransformFailed | CompareFailed
    | Malformed | CastFailed

  datatype Kind = Fill | Delete | KeepRows

  /** `IRExecutionResult`: for a fill, a scalar for every row or one value per row. */
  datatype Outcome = Outcome(kind: Kind, scalar: Cell, perRow: Option<seq<Cell>>)

  function Scalar(v: Cell): Outcome {
    Outcome(Fill, v, None)
  }

  function PerRow(vs: seq<Cell>): Outcome {
    Outcome(Fill, Null, Some(vs))
  }

  function ToCell(j: Json): Cell {
    match j
    case JNull => Null
    case JBool(b) => BoolC(b)
    case JInt(n) => IntC(n)
    case JReal(x) => RealC(x)
    case JStr(s) => StrC(s)
    case _ => JsonC(j)
  }

  /** `_cast_to_dtype`: a value that does not cast is returned as it is. */
  function Cast(text: Text, v: Cell, d: Dtype): Cell {
    if v.Null? then v
    else
      match d
      case IntD => (match PyFloat(text, v) case Some(x) => IntC(Trunc(x)) case None => v)
      case FloatD => (match PyFloat(text, v) case Some(x) => RealC(x) case None => v)
      case StrD => StrC(PyStr(text, v))
      case _ => v
  }

  // ---------------------------------------------------------------------------------------------
  // The whitelist of value functions

  /** `params.get(...)` needs a dict; an absent, null or empty `params` is an empty one. */
  function Params(node: Json): Option<map<string, Json>> {
    match Field(node, "params")
    case None => Some(map[])
    case Some(JObj(m)) => Some(m)
    case Some(p) =>
      if p.JNull? || p == JBool(false) || p == JInt(0) || p == JReal(0.0) || p == JStr("") || p == JArr([])
      then Some(map[]) else None
  }

  /** `int(x)` on a JSON value. */
  function PyInt(text: Text, j: Json): Option<int> {
    match j
    case JBool(b) => Some(if b then 1 else 0)
    case JInt(n) => Some(n)
    case JReal(x) => Some(Trunc(x))
    case JStr(s) => text.parseInt(s)
    case _ => None
  }

  predicate Whitelisted(fn: string) {
    fn in {"round", "floor", "ceil", "abs", "upper", "lower", "title", "trim", "multiply", "add", "subtract", "divide"}
  }

  function Number(x: Option<real>, f: real -> real): Result<Cell, ExecError> {
    if x.Some? then Ok(RealC(f(x.value))) else Err(TransformFailed)
  }

  /** One whitelisted function on one value. */
  function Apply(text: Text, fn: string, v: Cell, params: Option<map<string, Json>>): Result<Cell, ExecError>
    requires Whitelisted(fn)
  {
    if fn == "floor" then Number(PyFloat(text, v), (x: real) => x.Floor as real)
    else if fn == "ceil" then Number(PyFloat(text, v), (x: real) => 0.0 - (0.0 - x).Floor as real)
    else if fn == "abs" then Number(PyFloat(text, v), x => if x < 0.0 then -x else x)
    else if fn == "upper" then Ok(StrC(text.upper(PyStr(text, v))))
    else if fn == "lower" then Ok(StrC(text.lower(PyStr(text, v))))
    else if fn == "title" then Ok(StrC(text.title(PyStr(text, v))))
    else if fn == "trim" then Ok(StrC(Strip(PyStr(text, v))))
    else if params.None? then Err(Malformed)
    else if fn == "round" then
      var decimals := if "decimals" in params.value then PyInt(text, params.value["decimals"]) else Some(0);
      if decimals.None? then Err(TransformFailed) else Number(PyFloat(text, v), x => text.round(x, decimals.value))
    else if !("by" in params.value) || params.value["by"].JNull? then Err(MissingBy)
    else
      match PyFloat(text, ToCell(params.value["by"]))
      case None => Err(TransformFailed)
      case Some(amount) =>
        if fn == "multiply" then Number(PyFloat(text, v), x => x * amount)
        else if fn == "add" then Number(PyFloat(text, v), x => x + amount)
        else if fn == "subtract" then Number(PyFloat(text, v), x => x - amount)
        else if amount == 0.0 then Err(TransformFailed)
        else Number(PyFloat(text, v), x => x / amount)
  }

  /** The values of `vs` transformed in order, or the first error. */
  function ApplyAll(text: Text, fn: string, vs: seq<Cell>, params: Option<map<string, Json>>)
    : (r: Result<seq<Cell>, ExecError>)
    requires Whitelisted(fn)
    ensures r.Ok? ==> |r.value| == |vs|
    ensures r.Ok? ==> forall k :: 0 <= k < |vs| ==> Apply(text, fn, vs[k], params) == Ok(r.value[k])
  {
    if vs == [] then Ok([])
    else
      match ApplyAll(text, fn, vs[..|vs| - 1], params)
      case Err(e) => Err(e)
      case Ok(init) =>
        match Apply(text, fn, vs[|vs| - 1], params)
        case Err(e) => Err(e)
        case Ok(v) => Ok(init + [v])
  }

  // ---------------------------------------------------------------------------------------------
  // Conditions

  predicate Within(hay: string, needle: string) {
    exists i :: 0 <= i <= |hay| && OccursAt(hay, needle, i)
  }

  predicate OccursAt(hay: string, needle: string, i: nat) {
    i + |needle| <= |hay| && hay[i..i + |needle|] == needle
  }

  /** The number a value compares as in Python, where True == 1. */
  function AsNumber(v: Cell): Option<real> {
    match v
    case BoolC(b) => Some(if b then 1.0 else 0.0)
    case IntC(n) => Some(n as real)
    case RealC(x) => Some(x)
    case _ => None
  }

  predicate PyEq(a: Cell, b: Cell) {
    if AsNumber(a).Some? && AsNumber(b).Some? then AsNumber(a) == AsNumber(b) else a == b
  }

  /** The executor's inputs: the frame, the anomaly's column and the rows it covers. */
  datatype Executor = Executor(frame: Frame, column: string, rows: seq<nat>, text: Text, mode: seq<Cell> -> Cell) {

    ghost predicate Valid() {
      && frame.Rectangular()
      && column in frame.cols
      && forall k :: 0 <= k < |rows| ==> rows[k] < frame.height
    }

    function Dtype(): Dtype
      requires column in frame.cols
    {
      frame.cols[column].dtype
    }

    // -- operands and conditions, one row at a time

    function ResolveOperand(operand: Option<Json>, row: nat): Result<Cell, ExecError>
      requires Valid() && row < frame.height
    {
      if !(operand.Some? && operand.value.JObj?) then Err(Malformed)
      else
        var o := operand.value;
        if HasString(o, "kind", "literal") then
          if Field(o, "value").Some? then Ok(ToCell(Field(o, "value").value)) else Err(Malformed)
        else if HasString(o, "kind", "column") then
          match Field(o, "column")
          case None => Err(Malformed)
          case Some(c) => if c.JStr? && c.s in frame.cols then Ok(frame.cols[c.s].cells[row]) else Err(MissingColumn)
        else if HasString(o, "kind", "aggregate") then
          var c := if Field(o, "column").Some? then Field(o, "column").value else JStr(column);
          if !(c.JStr? && c.s in frame.cols) then Err(MissingColumn)
          else AggregateOperand(Field(o, "agg"), frame.cols[c.s].cells)
        else Err(UnknownOperand)
    }

    function AggregateOperand(agg: Option<Json>, cells: seq<Cell>): Result<Cell, ExecError> {
      match Aggregates.CastToFloat(text, cells)
      case None => Err(CastFailed)
      case Some(v) =>
        if v == [] then Ok(Null)
        else if agg == Some(JStr("mode")) then Ok(mode(Aggregates.DropNulls(cells)))
        else
          match Aggregates.Named(agg, v)
          case Some(x) => Ok(RealC(x))
          case None => Err(UnknownAggregate)
    }

    function EvalCondition(cond: Option<Json>, row: nat): Result<bool, ExecError>
      requires Valid() && row < frame.height
    {
      if !(cond.Some? && cond.value.JObj?) then Err(Malformed)
      else
        var c := cond.value;
        match ResolveOperand(Field(c, "left"), row)
        case Err(e) => Err(e)
        case Ok(left) =>
          if HasString(c, "op", "is_null") then Ok(left.Null?)
          else if HasString(c, "op", "is_not_null") then Ok(!left.Null?)
          else
            match ResolveOperand(Field(c, "right"), row)
            case Err(e) => Err(e)
            case Ok(right) =>
              if HasString(c, "op", "between") then
                match ResolveOperand(Field(c, "upper"), row)
                case Err(e) => Err(e)
                case Ok(upper) => EvalBetween(left, right, upper)
              else EvalBinary(Field(c, "op"), left, right)
    }

    function EvalBetween(v: Cell, lo: Cell, hi: Cell): Result<bool, ExecError> {
      var x, a, b := PyFloat(text, v), PyFloat(text, lo), PyFloat(text, hi);
      if x.None? || a.None? || (a.value <= x.value && b.None?) then Err(CompareFailed)
      else Ok(a.value <= x.value && x.value <= b.value)
    }

    function EvalBinary(op: Option<Json>, left: Cell, right: Cell): Result<bool, ExecError> {
      var l, r := PyStr(text, left), PyStr(text, right);
      if op == Some(JStr("eq")) then Ok(PyEq(left, right))
      else if op == Some(JStr("neq")) then Ok(!PyEq(left, right))
      else if op == Some(JStr("contains")) then Ok(Within(l, r))
      else if op == Some(JStr("starts_with")) then Ok(r <= l)
      else if op == Some(JStr("ends_with")) then Ok(|r| <= |l| && l[|l| - |r|..] == r)
      else if op.Some? && op.value.JStr? && op.value.s in {"gt", "gte", "lt", "lte"} then
        var x, y := PyFloat(text, left), PyFloat(text, right);
        if x.None? || y.None? then Err(CompareFailed)
        else if op.value.s == "gt" then Ok(x.value > y.value)
        else if op.value.s == "gte" then Ok(x.value >= y.value)
        else if op.value.s == "lt" then Ok(x.value < y.value)
        else Ok(x.value <= y.value)
      else Err(UnknownCondition)
    }

    /** The condition on every affected row, in order, or the first error. */
    function EvalAll(cond: Option<Json>, k: nat): (r: Result<seq<bool>, ExecError>)
      requires Valid() && k <= |rows|
      ensures r.Ok? ==> |r.value| == k
      ensures r.Ok? ==> forall j :: 0 <= j < k ==> EvalCondition(cond, rows[j]) == Ok(r.value[j])
    {
      if k == 0 then Ok([])
      else
        match EvalAll(cond, k - 1)
        case Err(e) => Err(e)
        case Ok(init) =>
          match EvalCondition(cond, rows[k - 1])
          case Err(e) => Err(e)
          case Ok(b) => Ok(init + [b])
    }

    // -- nodes

    function FillLiteral(node: Json): Result<Outcome, ExecError>
      requires Valid()
    {
      match Field(node, "value")
      case None => Ok(Scalar(Null))
      case Some(raw) => Ok(Scalar(Cast(text, ToCell(raw), Dtype())))
    }

    function FillAggregate(node: Json): Result<Outcome, ExecError>
      requires Valid()
    {
      var agg, cells := Field(node, "agg"), Aggregates.DropNulls(frame.cols[column].cells);
      if agg == Some(JStr("mode")) then Ok(Scalar(if cells == [] then Null else mode(cells)))
      else if !(Dtype().IntD? || Dtype().FloatD?) then Err(NotNumeric)
      else
        var v := OutlierDetection.Numbers(cells);
        if v == [] then Ok(Scalar(Null))
        else
          match Aggregates.Named(agg, v)
          case Some(x) => Ok(Scalar(Cast(text, RealC(x), Dtype())))
          case None => Err(UnknownAggregate)
    }

    function FillFromColumn(node: Json): Result<Outcome, ExecError>
      requires Valid()
    {
      match Field(node, "sourceColumn")
      case Some(JStr(s)) =>
        if s in frame.cols then
          var cells := frame.cols[s].cells;
          Ok(PerRow(seq(|rows|, k requires 0 <= k < |rows| => cells[rows[k]])))
        else Err(MissingColumn)
      case _ => Err(MissingColumn)
    }

    /** `execute`; `node` is absent when a parent lacks the child. */
    function Execute(node: Option<Json>, depth: nat): (r: Result<Outcome, ExecError>)
      requires Valid()
      ensures r.Ok? ==> Shape(r.value)
      decreases 4 - depth
    {
      if depth > MAX_DEPTH then Err(TooDeep)
      else if !(node.Some? && node.value.JObj?) then Err(Malformed)
      else
        Dispatch(node.value, Execute(Field(node.value, "input"), depth + 1),
                 Execute(Field(node.value, "then"), depth + 1), Execute(Field(node.value, "else"), depth + 1))
    }

    /** One operation, given what its children come to; an operation looks only at the children it has. */
    function Dispatch(n: Json, input: Result<Outcome, ExecError>, yes: Result<Outcome, ExecError>,
                      no: Result<Outcome, ExecError>): (r: Result<Outcome, ExecError>)
      requires Valid() && ShapeOf(input) && ShapeOf(yes) && ShapeOf(no)
      ensures ShapeOf(r)
    {
      if HasString(n, "op", "FILL_LITERAL") then FillLiteral(n)
      else if HasString(n, "op", "FILL_AGGREGATE") then FillAggregate(n)
      else if HasString(n, "op", "FILL_FROM_COLUMN") then FillFromColumn(n)
      else if HasString(n, "op", "DELETE_ROWS") then Ok(Outcome(Delete, Null, None))
      else if HasString(n, "op", "KEEP") then Ok(Outcome(KeepRows, Null, None))
      else if HasString(n, "op", "TRANSFORM") then Transform(n, input)
      else if HasString(n, "op", "CONDITIONAL") then Conditional(n, yes, no)
      else Err(UnknownOp)
    }

    /** Never both a scalar and a list, nothing beside DELETE and KEEP, and always one value per row. */
    predicate Shape(o: Outcome) {
      && (o.perRow.Some? ==> o.kind.Fill? && o.scalar.Null? && |o.perRow.value| == |rows|)
      && (!o.kind.Fill? ==> o.scalar.Null?)
    }

    predicate ShapeOf(r: Result<Outcome, ExecError>) {
      r.Ok? ==> Shape(r.value)
    }

    predicate UnhashableFn(node: Json) {
      Field(node, "fn").Some? && (Field(node, "fn").value.JArr? || Field(node, "fn").value.JObj?)
    }

    predicate KnownFn(node: Json) {
      Field(node, "fn").Some? && Field(node, "fn").value.JStr? && Whitelisted(Field(node, "fn").value.s)
    }

    function Transform(node: Json, inner: Result<Outcome, ExecError>): (r: Result<Outcome, ExecError>)
      requires ShapeOf(inner)
      ensures ShapeOf(r)
    {
      if UnhashableFn(node) then Err(Malformed)
      else if !KnownFn(node) then Err(UnknownFn)
      else if inner.Err? then inner
      else TransformOutcome(Field(node, "fn").value.s, Params(node), inner.value)
    }

    function TransformOutcome(fn: string, params: Option<map<string, Json>>, inner: Outcome)
      : (r: Result<Outcome, ExecError>)
      requires Whitelisted(fn) && Shape(inner)
      ensures r.Ok? ==> Shape(r.value)
    {
      if !inner.kind.Fill? then Ok(inner)
      else if !inner.scalar.Null? then
        match Apply(text, fn, inner.scalar, params)
        case Err(e) => Err(e)
        case Ok(v) => Ok(Scalar(v))
      else if inner.perRow.Some? then
        match ApplyAll(text, fn, inner.perRow.value, params)
        case Err(e) => Err(e)
        case Ok(vs) => Ok(PerRow(vs))
      else Ok(Scalar(Null))
    }

    function Conditional(node: Json, yes: Result<Outcome, ExecError>, no: Result<Outcome, ExecError>)
      : (r: Result<Outcome, ExecError>)
      requires Valid() && ShapeOf(yes) && ShapeOf(no)
      ensures ShapeOf(r)
    {
      match EvalAll(Field(node, "condition"), |rows|)
      case Err(e) => Err(e)
      case Ok(conds) =>
        if yes.Err? then yes
        else if no.Err? then no
        else Ok(Mix(conds, yes.value, no.value))
    }

    /** What row `k` of an outcome holds before mixing: a value, or a sentinel for DELETE and KEEP. */
    function At(o: Outcome, k: nat): RowOutcome
      requires Shape(o) && k < |rows|
    {
      match o.kind
      case Delete => RowDelete
      case KeepRows => RowKeep
      case Fill => RowFill(if o.perRow.Some? then o.perRow.value[k] else o.scalar)
    }

    /** The chosen branch of every row; a uniform sentinel stays, a mixed one becomes a null fill. */
    function Mix(conds: seq<bool>, yes: Outcome, no: Outcome): (o: Outcome)
      requires |conds| == |rows| && Shape(yes) && Shape(no)
      ensures Shape(o)
    {
      var mixed := seq(|rows|, k requires 0 <= k < |rows| => if conds[k] then At(yes, k) else At(no, k));
      if forall k :: 0 <= k < |rows| ==> mixed[k].RowDelete? then Outcome(Delete, Null, None)
      else if forall k :: 0 <= k < |rows| ==> mixed[k].RowKeep? then Outcome(KeepRows, Null, None)
      else PerRow(seq(|rows|, k requires 0 <= k < |rows| => Plain(mixed[k])))
    }

    // -- the same, as the worker runs it: with loops that append

    method RunTransform(fn: string, params: Option<map<string, Json>>, inner: Outcome)
      returns (r: Result<Outcome, ExecError>)
      requires Whitelisted(fn) && Shape(inner)
      ensures r == TransformOutcome(fn, params, inner)
    {
      hide Apply;
      if !inner.kind.Fill? {
        return Ok(inner);
      }
      if !inner.scalar.Null? {
        var v := Apply(text, fn, inner.scalar, params);
        return if v.Ok? then Ok(Scalar(v.value)) else Err(v.error);
      }
      if inner.perRow.None? {
        return Ok(Scalar(Null));
      }
      var vs := inner.perRow.value;
      var newVals: seq<Cell> := [];
      for k := 0 to |vs|
        invariant ApplyAll(text, fn, vs[..k], params) == Ok(newVals)
      {
        assert vs[..k + 1][..k] == vs[..k];
        var v := Apply(text, fn, vs[k], params);
        if v.Err? {
          ApplyAllFails(text, fn, vs, params, k);
          return Err(v.error);
        }
        newVals := newVals + [v.value];
      }
      assert vs[..|vs|] == vs;
      return Ok(PerRow(newVals));
    }

    method RunMix(conds: seq<bool>, yes: Outcome, no: Outcome) returns (o: Outcome)
      requires |conds| == |rows| && Shape(yes) && Shape(no)
      ensures o == Mix(conds, yes, no)
    {
      ghost var goal := seq(|rows|, k requires 0 <= k < |rows| => if conds[k] then At(yes, k) else At(no, k));
      var mixed: seq<RowOutcome> := [];
      for k := 0 to |rows|
        invariant mixed == goal[..k]
      {
        assert goal[..k + 1] == goal[..k] + [goal[k]];
        mixed := mixed + [if conds[k] then At(yes, k) else At(no, k)];
      }
      assert mixed == goal;
      if forall k :: 0 <= k < |mixed| ==> mixed[k].RowDelete? {
        return Outcome(Delete, Null, None);
      }
      if forall k :: 0 <= k < |mixed| ==> mixed[k].RowKeep? {
        return Outcome(KeepRows, Null, None);
      }
      var final: seq<Cell> := [];
      for k := 0 to |rows|
        invariant |final| == k
        invariant forall j :: 0 <= j < k ==> final[j] == Plain(mixed[j])
      {
        final := final + [Plain(mixed[k])];
      }
      assert final == seq(|rows|, k requires 0 <= k < |rows| => Plain(goal[k]));
      return PerRow(final);
    }

    /** `execute`, with the loops above in place of their specifications. */
    method Run(node: Option<Json>, depth: nat) returns (r: Result<Outcome, ExecError>)
      requires Valid()
      ensures r == Execute(node, depth)
      decreases 4 - depth
    {
      if depth > MAX_DEPTH {
        return Err(TooDeep);
      }
      if !(node.Some? && node.value.JObj?) {
        return Err(Malformed);
      }
      var n := node.value;
      var input, yes, no := Err(UnknownOp), Err(UnknownOp), Err(UnknownOp);
      if HasString(n, "op", "TRANSFORM") {
        input := Run(Field(n, "input"), depth + 1);
      } else if HasString(n, "op", "CONDITIONAL") {
        yes := Run(Field(n, "then"), depth + 1);
        no := Run(Field(n, "else"), depth + 1);
      }
      DispatchLooksAtItsChildren(n, input, yes, no, depth);
      r := RunOperation(n, input, yes, no);
    }

    lemma DispatchLooksAtItsChildren(n: Json, input: Result<Outcome, ExecError>, yes: Result<Outcome, ExecError>,
                                     no: Result<Outcome, ExecError>, depth: nat)
      requires Valid() && depth <= MAX_DEPTH && n.JObj? && ShapeOf(input) && ShapeOf(yes) && ShapeOf(no)
      requires HasString(n, "op", "TRANSFORM") ==> input == Execute(Field(n, "input"), depth + 1)
      requires HasString(n, "op", "CONDITIONAL") ==>
                 yes == Execute(Field(n, "then"), depth + 1) && no == Execute(Field(n, "else"), depth + 1)
      ensures Execute(Some(n), depth) == Dispatch(n, input, yes, no)
    {
      hide FillLiteral, FillAggregate, FillFromColumn, Transform, Conditional;
    }

    method RunOperation(n: Json, input: Result<Outcome, ExecError>, yes: Result<Outcome, ExecError>,
                        no: Result<Outcome, ExecError>) returns (r: Result<Outcome, ExecError>)
      requires Valid() && ShapeOf(input) && ShapeOf(yes) && ShapeOf(no)
      ensures r == Dispatch(n, input, yes, no)
    {
      hide FillLiteral, FillAggregate, FillFromColumn, EvalAll, TransformOutcome, Mix, Params, Whitelisted;
      if HasString(n, "op", "TRANSFORM") && KnownFn(n) && input.Ok? {
        r := RunTransform(Field(n, "fn").value.s, Params(n), input.value);
      } else if HasString(n, "op", "CONDITIONAL") && EvalAll(Field(n, "condition"), |rows|).Ok? && yes.Ok? && no.Ok? {
        var o := RunMix(EvalAll(Field(n, "condition"), |rows|).value, yes.value, no.value);
        r := Ok(o);
      } else {
        r := Dispatch(n, input, yes, no);
      }
    }
  }

  datatype RowOutcome = RowFill(value: Cell) | RowDelete | RowKeep

  /** A sentinel that survives into a mixed result is written as null. */
  function Plain(o: RowOutcome): Cell {
    if o.RowFill? then o.value else Null
  }

  lemma {:induction false} ApplyAllFails(text: Text, fn: string, vs: seq<Cell>, params: Option<map<string, Json>>,
                                         k: nat)
    requires Whitelisted(fn) && k < |vs|
    requires ApplyAll(text, fn, vs[..k], params).Ok? && Apply(text, fn, vs[k], params).Err?
    ensures ApplyAll(text, fn, vs, params) == Err(Apply(text, fn, vs[k], params).error)
  {
    hide Apply;
    var n := |vs| - 1;
    if k < n {
      assert vs[..n][..k] == vs[..k];
      ApplyAllFails(text, fn, vs[..n], params, k);
    }
  }
}
