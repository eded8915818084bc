/** The server-side check of a correction tree, against the columns of the dataset. */
module IRValidator {
  import opened IR
  import opened Values

  const MAX_DEPTH: nat := 3

  /** What the validator asks of strings: blank names, and how it reads a dtype name. */
  datatype Names = Names(blank: string -> bool, numeric: string -> bool, textual: string -> bool)

  type ColumnMap = map<string, string>

  datatype Rejection =
    | TooDeep | NotAnObject | BadOp | BadLiteral | BadAggregate | BadColumn | UnknownColumn
    | BadTransform | BadParams | TransformType | BadCondition | BadOperand | AggregateType | Incompatible

  /** `new Map(columns.map(c => [c.name, c.dtype]))`. */
  function ToMap(columns: seq<(string, string)>): ColumnMap {
    if columns == [] then map[]
    else ToMap(columns[..|columns| - 1])[columns[|columns| - 1].0 := columns[|columns| - 1].1]
  }

  /** Of two columns with one name the last is known. */
  lemma {:induction false} MapKeepsLast(columns: seq<(string, string)>, i: nat)
    requires i < |columns| && forall j :: i < j < |columns| ==> columns[j].0 != columns[i].0
    ensures columns[i].0 in ToMap(columns) && ToMap(columns)[columns[i].0] == columns[i].1
  {
    if i < |columns| - 1 {
      MapKeepsLast(columns[..|columns| - 1], i);
    }
  }

  lemma {:induction false} MapKnowsColumns(columns: seq<(string, string)>, name: string)
    ensures name in ToMap(columns) <==> exists i :: 0 <= i < |columns| && columns[i].0 == name
  {
    if columns != [] {
      var n := |columns| - 1;
      MapKnowsColumns(columns[..n], name);
      assert forall i :: 0 <= i < n ==> columns[..n][i] == columns[i];
    }
  }

  function Validate(ir: Json, columns: seq<(string, string)>, names: Names): Result<Node, Rejection> {
    ValidateNode(ir, 0, ToMap(columns), names)
  }

  function ValidateNode(raw: Json, depth: nat, cols: ColumnMap, names: Names): Result<Node, Rejection>
    decreases 4 - depth, 1
  {
    if depth > MAX_DEPTH then Err(TooDeep)
    else if !raw.JObj? then Err(NotAnObject)
    else
      var op := Field(raw, "op");
      if !(op.Some? && op.value.JStr? && ParseTag(op.value.s).Some?) then Err(BadOp)
      else
        match ParseTag(op.value.s).value
        case FillLiteralOp => ValidateFillLiteral(raw)
        case FillAggregateOp => ValidateFillAggregate(raw)
        case FillFromColumnOp => ValidateFillFromColumn(raw, cols, names)
        case DeleteRowsOp => Ok(DeleteRows)
        case KeepOp => Ok(Keep)
        case TransformOp => ValidateTransform(raw, depth, cols, names)
        case ConditionalOp => ValidateConditional(raw, depth, cols, names)
  }

  /** `validateNode(node[key], depth)`; an absent key is not an object. */
  function ValidateChild(raw: Json, key: string, depth: nat, cols: ColumnMap, names: Names): Result<Node, Rejection>
    requires depth <= MAX_DEPTH + 1
    decreases 4 - depth, 2
  {
    if Field(raw, key).Some? then ValidateNode(Field(raw, key).value, depth, cols, names)
    else if depth > MAX_DEPTH then Err(TooDeep)
    else Err(NotAnObject)
  }

  function ValidateTransform(raw: Json, depth: nat, cols: ColumnMap, names: Names): Result<Node, Rejection>
    requires depth <= MAX_DEPTH
    decreases 4 - depth, 0
  {
    var fn, params := Field(raw, "fn"), Field(raw, "params");
    if !(fn.Some? && fn.value.JStr? && ParseFn(fn.value.s).Some?) then Err(BadTransform)
    else if params.Some? && !(params.value.JObj? || params.value.JNull?) then Err(BadParams)
    else
      match ValidateChild(raw, "input", depth + 1, cols, names)
      case Err(e) => Err(e)
      case Ok(input) =>
        var f := ParseFn(fn.value.s).value;
        if TypeClash(f, input, cols, names) then Err(TransformType) else Ok(Transform(f, params, input))
  }

  function ValidateConditional(raw: Json, depth: nat, cols: ColumnMap, names: Names): Result<Node, Rejection>
    requires depth <= MAX_DEPTH
    decreases 4 - depth, 0
  {
    match ValidateCondition(Field(raw, "condition"), cols, names)
    case Err(e) => Err(e)
    case Ok(cond) =>
      match ValidateChild(raw, "then", depth + 1, cols, names)
      case Err(e) => Err(e)
      case Ok(yes) =>
        match ValidateChild(raw, "else", depth + 1, cols, names)
        case Err(e) => Err(e)
        case Ok(no) => Ok(Conditional(cond, yes, no))
  }

  predicate IsScalar(j: Json) {
    j.JNull? || j.JStr? || j.JInt? || j.JReal?
  }

  function ValidateFillLiteral(raw: Json): Result<Node, Rejection> {
    var value := Field(raw, "value");
    if value.Some? && IsScalar(value.value) then Ok(FillLiteral(value.value)) else Err(BadLiteral)
  }

  function ValidateAgg(agg: Option<Json>): Option<Agg> {
    if agg.Some? && agg.value.JStr? then ParseAgg(agg.value.s) else None
  }

  function ValidateFillAggregate(raw: Json): Result<Node, Rejection> {
    match ValidateAgg(Field(raw, "agg"))
    case Some(a) => Ok(FillAggregate(a))
    case None => Err(BadAggregate)
  }

  /** A non-blank name that the column map holds; an empty map accepts every name. */
  function ValidateColumn(c: Option<Json>, cols: ColumnMap, names: Names): Result<string, Rejection> {
    if !(c.Some? && c.value.JStr? && !names.blank(c.value.s)) then Err(BadColumn)
    else if |cols| > 0 && c.value.s !in cols then Err(UnknownColumn)
    else Ok(c.value.s)
  }

  function ValidateFillFromColumn(raw: Json, cols: ColumnMap, names: Names): Result<Node, Rejection> {
    match ValidateColumn(Field(raw, "sourceColumn"), cols, names)
    case Err(e) => Err(e)
    case Ok(s) => Ok(FillFromColumn(s))
  }

  predicate NumericFn(f: Fn) {
    f in {Round, Floor, Ceil, Abs, Multiply, Add, Subtract, Divide}
  }

  /** The dtype is known only for a value that comes straight from a listed column. */
  predicate TypeClash(f: Fn, input: Node, cols: ColumnMap, names: Names) {
    && input.FillFromColumn?
    && input.source in cols
    && if NumericFn(f) then !names.numeric(cols[input.source]) else !names.textual(cols[input.source])
  }

  function ValidateCondition(raw: Option<Json>, cols: ColumnMap, names: Names): Result<Condition, Rejection> {
    if !(raw.Some? && raw.value.JObj?) then Err(BadCondition)
    else
      var op := Field(raw.value, "op");
      if !(op.Some? && op.value.JStr? && ParseCond(op.value.s).Some?) then Err(BadCondition)
      else
        match ValidateOperand(Field(raw.value, "left"), cols, names)
        case Err(e) => Err(e)
        case Ok(left) => ValidateRest(raw.value, ParseCond(op.value.s).value, left, cols, names)
  }

  function ValidateRest(raw: Json, op: CondOp, left: Operand, cols: ColumnMap, names: Names)
    : Result<Condition, Rejection>
  {
    if op.IsNull? || op.IsNotNull? then Ok(Condition(op, left, None, None))
    else
      match ValidateOperand(Field(raw, "right"), cols, names)
      case Err(e) => Err(e)
      case Ok(right) =>
        if op.Between? then
          match ValidateOperand(Field(raw, "upper"), cols, names)
          case Err(e) => Err(e)
          case Ok(upper) =>
            if Clash(left, right) || Clash(left, upper) then Err(Incompatible)
            else Ok(Condition(op, left, Some(right), Some(upper)))
        else if Clash(left, right) then Err(Incompatible)
        else Ok(Condition(op, left, Some(right), None))
  }

  function ValidateOperand(raw: Option<Json>, cols: ColumnMap, names: Names): Result<Operand, Rejection> {
    if !(raw.Some? && raw.value.JObj?) then Err(BadOperand)
    else if HasString(raw.value, "kind", "literal") then
      var value := Field(raw.value, "value");
      if value.Some? && (IsScalar(value.value) || value.value.JBool?) then Ok(Literal(value.value)) else Err(BadLiteral)
    else if HasString(raw.value, "kind", "column") then
      match ValidateColumn(Field(raw.value, "column"), cols, names)
      case Err(e) => Err(e)
      case Ok(c) => Ok(ColumnRef(c))
    else if HasString(raw.value, "kind", "aggregate") then
      match ValidateAgg(Field(raw.value, "agg"))
      case None => Err(BadAggregate)
      case Some(a) =>
        match ValidateColumn(Field(raw.value, "column"), cols, names)
        case Err(e) => Err(e)
        case Ok(c) =>
          if !a.Mode? && c in cols && !names.numeric(cols[c]) then Err(AggregateType) else Ok(Aggregate(a, c))
    else Err(BadOperand)
  }

  /** Two literals, one a number and one a string. */
  predicate Clash(a: Operand, b: Operand) {
    a.Literal? && b.Literal? &&
    ((IsNumber(a.value) && b.value.JStr?) || (a.value.JStr? && IsNumber(b.value)))
  }

  predicate IsNumber(j: Json) {
    j.JInt? || j.JReal?
  }

  // ---------------------------------------------------------------------------------------------
  // What acceptance means: the document carries a well-typed tree of height at most 3

  ghost predicate CarriesOperand(raw: Json, o: Operand) {
    match o
    case Literal(v) => HasString(raw, "kind", "literal") && Field(raw, "value") == Some(v)
    case ColumnRef(c) => HasString(raw, "kind", "column") && HasString(raw, "column", c)
    case Aggregate(a, c) =>
      HasString(raw, "kind", "aggregate") && HasString(raw, "agg", AggName(a)) && HasString(raw, "column", c)
  }

  ghost predicate CarriesField(raw: Json, key: string, o: Operand) {
    Field(raw, key).Some? && CarriesOperand(Field(raw, key).value, o)
  }

  ghost predicate CarriesCondition(raw: Json, c: Condition) {
    && HasString(raw, "op", CondName(c.op))
    && CarriesField(raw, "left", c.left)
    && (c.right.Some? ==> CarriesField(raw, "right", c.right.value))
    && (c.upper.Some? ==> CarriesField(raw, "upper", c.upper.value))
  }

  /** The document holds the fields of `n`, and possibly others. */
  ghost predicate Carries(raw: Json, n: Node)
    decreases n, 0
  {
    HasString(raw, "op", TagName(TagOf(n))) &&
    match n
    case FillLiteral(v) => Field(raw, "value") == Some(v)
    case FillAggregate(a) => HasString(raw, "agg", AggName(a))
    case FillFromColumn(s) => HasString(raw, "sourceColumn", s)
    case DeleteRows => true
    case Keep => true
    case Transform(f, params, input) =>
      HasString(raw, "fn", FnName(f)) && Field(raw, "params") == params && CarriesChild(raw, "input", input)
    case Conditional(c, yes, no) =>
      && Field(raw, "condition").Some? && CarriesCondition(Field(raw, "condition").value, c)
      && CarriesChild(raw, "then", yes) && CarriesChild(raw, "else", no)
  }

  ghost predicate CarriesChild(raw: Json, key: string, n: Node)
    decreases n, 1
  {
    Field(raw, key).Some? && Carries(Field(raw, key).value, n)
  }

  ghost predicate Known(c: string, cols: ColumnMap, names: Names) {
    !names.blank(c) && (cols == map[] || c in cols)
  }

  /** Null, text or a number. */
  ghost predicate PlainLiteral(j: Json) {
    match j
    case JNull => true
    case JStr(_) => true
    case JInt(_) => true
    case JReal(_) => true
    case JBool(_) => false
    case JArr(_) => false
    case JObj(_) => false
  }

  /** Arithmetic asks for a numeric column and the text functions for a textual one, when the column is known. */
  ghost predicate Suits(f: Fn, dtype: string, names: Names) {
    match f
    case Round => names.numeric(dtype)
    case Floor => names.numeric(dtype)
    case Ceil => names.numeric(dtype)
    case Abs => names.numeric(dtype)
    case Multiply => names.numeric(dtype)
    case Add => names.numeric(dtype)
    case Subtract => names.numeric(dtype)
    case Divide => names.numeric(dtype)
    case Upper => names.textual(dtype)
    case Lower => names.textual(dtype)
    case Title => names.textual(dtype)
    case Trim => names.textual(dtype)
  }

  /** A number literal is not compared with a text literal; nulls, truth values and columns go with anything. */
  ghost predicate Comparable(a: Operand, b: Operand) {
    match (a, b)
    case (Literal(JInt(_)), Literal(JStr(_))) => false
    case (Literal(JReal(_)), Literal(JStr(_))) => false
    case (Literal(JStr(_)), Literal(JInt(_))) => false
    case (Literal(JStr(_)), Literal(JReal(_))) => false
    case _ => true
  }

  ghost predicate TypedOperand(o: Operand, cols: ColumnMap, names: Names) {
    match o
    case Literal(v) => PlainLiteral(v) || v.JBool?
    case ColumnRef(c) => Known(c, cols, names)
    case Aggregate(a, c) => Known(c, cols, names) && (a.Mode? || c !in cols || names.numeric(cols[c]))
  }

  ghost predicate TypedCondition(c: Condition, cols: ColumnMap, names: Names) {
    && TypedOperand(c.left, cols, names)
    && (c.right.None? <==> c.op.IsNull? || c.op.IsNotNull?)
    && (c.upper.Some? <==> c.op.Between?)
    && (c.right.Some? ==> TypedOperand(c.right.value, cols, names) && Comparable(c.left, c.right.value))
    && (c.upper.Some? ==> TypedOperand(c.upper.value, cols, names) && Comparable(c.left, c.upper.value))
  }

  ghost predicate Typed(n: Node, cols: ColumnMap, names: Names) {
    match n
    case FillLiteral(v) => PlainLiteral(v)
    case FillFromColumn(s) => Known(s, cols, names)
    case Transform(f, params, input) =>
      && (params.Some? ==> params.value.JObj? || params.value.JNull?)
      && Typed(input, cols, names)
      && (input.FillFromColumn? && input.source in cols ==> Suits(f, cols[input.source], names))
    case Conditional(c, yes, no) =>
      TypedCondition(c, cols, names) && Typed(yes, cols, names) && Typed(no, cols, names)
    case _ => true
  }

  lemma OperandExact(raw: Json, cols: ColumnMap, names: Names, o: Operand)
    ensures ValidateOperand(Some(raw), cols, names) == Ok(o) <==> CarriesOperand(raw, o) && TypedOperand(o, cols, names)
  {
    if o.Aggregate? {
      ParseAggName(o.agg);
    }
  }

  lemma FieldExact(raw: Json, key: string, cols: ColumnMap, names: Names, o: Operand)
    ensures ValidateOperand(Field(raw, key), cols, names) == Ok(o)
            <==> CarriesField(raw, key, o) && TypedOperand(o, cols, names)
  {
    if Field(raw, key).Some? {
      OperandExact(Field(raw, key).value, cols, names, o);
    }
  }

  /** The right and upper operands, once the operator and the left operand are read. */
  lemma RestExact(raw: Json, cols: ColumnMap, names: Names, c: Condition)
    requires CarriesField(raw, "left", c.left) && TypedOperand(c.left, cols, names)
    ensures ValidateRest(raw, c.op, c.left, cols, names) == Ok(c)
            <==> (c.right.Some? ==> CarriesField(raw, "right", c.right.value))
                 && (c.upper.Some? ==> CarriesField(raw, "upper", c.upper.value))
                 && TypedCondition(c, cols, names)
  {
    if c.right.Some? {
      FieldExact(raw, "right", cols, names, c.right.value);
    }
    if c.upper.Some? {
      FieldExact(raw, "upper", cols, names, c.upper.value);
    }
  }

  lemma CondOpExact(j: Option<Json>, op: CondOp)
    ensures j.Some? && j.value.JStr? && ParseCond(j.value.s) == Some(op) <==> j == Some(JStr(CondName(op)))
  {
    ParseCondName(op);
  }

  lemma ConditionExact(raw: Json, cols: ColumnMap, names: Names, c: Condition)
    ensures ValidateCondition(Some(raw), cols, names) == Ok(c)
            <==> CarriesCondition(raw, c) && TypedCondition(c, cols, names)
  {
    hide ParseCond, CondName, ValidateOperand, TypedOperand;
    CondOpExact(Field(raw, "op"), c.op);
    FieldExact(raw, "left", cols, names, c.left);
    if CarriesField(raw, "left", c.left) && TypedOperand(c.left, cols, names) {
      RestExact(raw, cols, names, c);
    }
  }

  /** What acceptance with the result `n` amounts to. */
  ghost predicate Exact(raw: Json, depth: nat, cols: ColumnMap, names: Names, n: Node) {
    Carries(raw, n) && Typed(n, cols, names) && depth + Height(n) <= MAX_DEPTH
  }

  ghost predicate ExactChild(raw: Json, key: string, depth: nat, cols: ColumnMap, names: Names, n: Node) {
    CarriesChild(raw, key, n) && Typed(n, cols, names) && depth + Height(n) <= MAX_DEPTH
  }

  lemma TagExact(j: Option<Json>, t: Tag)
    ensures j.Some? && j.value.JStr? && ParseTag(j.value.s) == Some(t) <==> j == Some(JStr(TagName(t)))
  {
    ParseTagName(t);
  }

  lemma LeafExact(raw: Json, depth: nat, cols: ColumnMap, names: Names, n: Node)
    requires depth <= MAX_DEPTH && !n.Transform? && !n.Conditional?
    ensures ValidateNode(raw, depth, cols, names) == Ok(n) <==> Exact(raw, depth, cols, names, n)
  {
    hide TypeClash, ValidateCondition, ValidateChild;
    TagExact(Field(raw, "op"), TagOf(n));
    if n.FillAggregate? {
      ParseAggName(n.agg);
    }
  }

  lemma TransformExact(raw: Json, depth: nat, cols: ColumnMap, names: Names, n: Node)
    requires depth <= MAX_DEPTH && n.Transform?
    requires ValidateChild(raw, "input", depth + 1, cols, names) == Ok(n.input)
             <==> ExactChild(raw, "input", depth + 1, cols, names, n.input)
    ensures ValidateTransform(raw, depth, cols, names) == Ok(n) && HasString(raw, "op", TagName(TransformOp))
            <==> Exact(raw, depth, cols, names, n)
  {
    ParseFnName(n.fn);
  }

  lemma ConditionalExact(raw: Json, depth: nat, cols: ColumnMap, names: Names, n: Node)
    requires depth <= MAX_DEPTH && n.Conditional?
    requires ValidateChild(raw, "then", depth + 1, cols, names) == Ok(n.yes)
             <==> ExactChild(raw, "then", depth + 1, cols, names, n.yes)
    requires ValidateChild(raw, "else", depth + 1, cols, names) == Ok(n.no)
             <==> ExactChild(raw, "else", depth + 1, cols, names, n.no)
    ensures ValidateConditional(raw, depth, cols, names) == Ok(n) && HasString(raw, "op", TagName(ConditionalOp))
            <==> Exact(raw, depth, cols, names, n)
  {
    if Field(raw, "condition").Some? {
      ConditionExact(Field(raw, "condition").value, cols, names, n.cond);
    }
  }

  /** Acceptance with the result `n` is exactly: the document carries `n`, `n` is well typed and shallow. */
  lemma {:induction false} NodeExact(raw: Json, depth: nat, cols: ColumnMap, names: Names, n: Node)
    requires depth <= MAX_DEPTH + 1
    ensures ValidateNode(raw, depth, cols, names) == Ok(n) <==> Exact(raw, depth, cols, names, n)
    decreases n, 0
  {
    hide Carries, Typed, CarriesChild, ValidateTransform, ValidateConditional, ValidateChild, HasString, ParseTag;
    if depth <= MAX_DEPTH {
      if n.Transform? {
        ChildExact(raw, "input", depth + 1, cols, names, n.input);
        TransformExact(raw, depth, cols, names, n);
        DispatchTransform(raw, depth, cols, names, n);
      } else if n.Conditional? {
        ChildExact(raw, "then", depth + 1, cols, names, n.yes);
        ChildExact(raw, "else", depth + 1, cols, names, n.no);
        ConditionalExact(raw, depth, cols, names, n);
        DispatchConditional(raw, depth, cols, names, n);
      } else {
        LeafExact(raw, depth, cols, names, n);
      }
    }
  }

  lemma DispatchTransform(raw: Json, depth: nat, cols: ColumnMap, names: Names, n: Node)
    requires depth <= MAX_DEPTH && n.Transform?
    ensures ValidateNode(raw, depth, cols, names) == Ok(n)
            <==> HasString(raw, "op", TagName(TransformOp)) && ValidateTransform(raw, depth, cols, names) == Ok(n)
  {
    TagExact(Field(raw, "op"), TransformOp);
  }

  lemma DispatchConditional(raw: Json, depth: nat, cols: ColumnMap, names: Names, n: Node)
    requires depth <= MAX_DEPTH && n.Conditional?
    ensures ValidateNode(raw, depth, cols, names) == Ok(n)
            <==> HasString(raw, "op", TagName(ConditionalOp)) && ValidateConditional(raw, depth, cols, names) == Ok(n)
  {
    TagExact(Field(raw, "op"), ConditionalOp);
  }

  lemma {:induction false} ChildExact(raw: Json, key: string, depth: nat, cols: ColumnMap, names: Names, n: Node)
    requires depth <= MAX_DEPTH + 1
    ensures ValidateChild(raw, key, depth, cols, names) == Ok(n) <==> ExactChild(raw, key, depth, cols, names, n)
    decreases n, 1
  {
    if Field(raw, key).Some? {
      NodeExact(Field(raw, key).value, depth, cols, names, n);
    }
  }

  /** A document is accepted with the tree `n` exactly when it carries `n`, well typed, of height at most 3. */
  lemma AcceptanceExact(raw: Json, columns: seq<(string, string)>, names: Names, n: Node)
    ensures Validate(raw, columns, names) == Ok(n)
            <==> Carries(raw, n) && Typed(n, ToMap(columns), names) && Height(n) <= MAX_DEPTH
  {
    NodeExact(raw, 0, ToMap(columns), names, n);
  }

  // ---------------------------------------------------------------------------------------------
  // Re-validation and size

  lemma EncodeOperandCarries(o: Operand)
    ensures CarriesOperand(EncodeOperand(o), o)
  {
  }

  lemma EncodeConditionCarries(c: Condition)
    ensures CarriesCondition(EncodeCondition(c), c)
  {
    EncodeOperandCarries(c.left);
    if c.right.Some? {
      EncodeOperandCarries(c.right.value);
    }
    if c.upper.Some? {
      EncodeOperandCarries(c.upper.value);
    }
  }

  lemma {:induction false} EncodeCarries(n: Node)
    ensures Carries(Encode(n), n)
  {
    match n
    case Transform(_, _, input) =>
      EncodeCarries(input);
      EncodeTransformCarries(n);
    case Conditional(c, yes, no) =>
      EncodeConditionCarries(c);
      EncodeCarries(yes);
      EncodeCarries(no);
      EncodeConditionalCarries(n);
    case _ =>
  }

  lemma EncodeTransformCarries(n: Node)
    requires n.Transform? && Carries(Encode(n.input), n.input)
    ensures Carries(Encode(n), n)
  {
    assert Field(Encode(n), "input") == Some(Encode(n.input));
  }

  lemma EncodeConditionalCarries(n: Node)
    requires n.Conditional? && CarriesCondition(EncodeCondition(n.cond), n.cond)
    requires Carries(Encode(n.yes), n.yes) && Carries(Encode(n.no), n.no)
    ensures Carries(Encode(n), n)
  {
    assert Field(Encode(n), "then") == Some(Encode(n.yes));
    assert Field(Encode(n), "else") == Some(Encode(n.no));
  }

  /** What was accepted is accepted again, unchanged: validating on parse and on submit is harmless. */
  lemma ValidateIsProjection(raw: Json, columns: seq<(string, string)>, names: Names)
    requires Validate(raw, columns, names).Ok?
    ensures Validate(Encode(Validate(raw, columns, names).value), columns, names) == Validate(raw, columns, names)
  {
    var n := Validate(raw, columns, names).value;
    AcceptanceExact(raw, columns, names, n);
    EncodeCarries(n);
    AcceptanceExact(Encode(n), columns, names, n);
  }

  function Pow2(k: nat): (r: nat)
    ensures r >= 1
  {
    if k == 0 then 1 else 2 * Pow2(k - 1)
  }

  lemma {:induction false} SizeBound(n: Node, h: nat)
    requires Height(n) <= h
    ensures Size(n) <= Pow2(h + 1) - 1
    decreases n
  {
    match n
    case Transform(_, _, input) =>
      SizeBound(input, h - 1);
    case Conditional(_, yes, no) =>
      SizeBound(yes, h - 1);
      SizeBound(no, h - 1);
    case _ =>
  }

  /** An accepted tree has at most 15 nodes. */
  lemma AcceptedIsSmall(raw: Json, columns: seq<(string, string)>, names: Names)
    requires Validate(raw, columns, names).Ok?
    ensures Size(Validate(raw, columns, names).value) <= 15
  {
    var n := Validate(raw, columns, names).value;
    AcceptanceExact(raw, columns, names, n);
    SizeBound(n, 3);
    assert Pow2(4) == 16;
  }
}
