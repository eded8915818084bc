/** The correction language: typed trees and the JSON they are stored as. */
module IR {
  import opened Values

  datatype Agg = Mean | Median | Mode | Minimum | Maximum | Total

  datatype Fn = Round | Floor | Ceil | Abs | Upper | Lower | Title | Trim | Multiply | Add | Subtract | Divide

  datatype CondOp = Eq | Neq | Gt | Gte | Lt | Lte | IsNull | IsNotNull | Contains | StartsWith | EndsWith | Between

  datatype Operand =
    | Literal(value: Json)
    | ColumnRef(column: string)
    | Aggregate(agg: Agg, column: string)

  datatype Condition = Condition(op: CondOp, left: Operand, right: Option<Operand>, upper: Option<Operand>)

  datatype Node =
    | FillLiteral(value: Json)
    | FillAggregate(agg: Agg)
    | FillFromColumn(source: string)
    | DeleteRows
    | Keep
    | Transform(fn: Fn, params: Option<Json>, input: Node)
    | Conditional(cond: Condition, yes: Node, no: Node)

  function Height(n: Node): nat {
    match n
    case Transform(_, _, input) => 1 + Height(input)
    case Conditional(_, yes, no) => 1 + (if Height(yes) >= Height(no) then Height(yes) else Height(no))
    case _ => 0
  }

  function Size(n: Node): nat {
    match n
    case Transform(_, _, input) => 1 + Size(input)
    case Conditional(_, yes, no) => 1 + Size(yes) + Size(no)
    case _ => 1
  }

  // ---------------------------------------------------------------------------------------------
  // Names

  /** The seven operations. */
  datatype Tag =
    | FillLiteralOp | FillAggregateOp | FillFromColumnOp | DeleteRowsOp | KeepOp | TransformOp | ConditionalOp

  function TagName(t: Tag): string {
    match t
    case FillLiteralOp => "FILL_LITERAL"
    case FillAggregateOp => "FILL_AGGREGATE"
    case FillFromColumnOp => "FILL_FROM_COLUMN"
    case DeleteRowsOp => "DELETE_ROWS"
    case KeepOp => "KEEP"
    case TransformOp => "TRANSFORM"
    case ConditionalOp => "CONDITIONAL"
  }

  function ParseTag(s: string): (r: Option<Tag>)
    ensures r.Some? ==> TagName(r.value) == s
  {
    if s == "FILL_LITERAL" then Some(FillLiteralOp)
    else if s == "FILL_AGGREGATE" then Some(FillAggregateOp)
    else if s == "FILL_FROM_COLUMN" then Some(FillFromColumnOp)
    else if s == "DELETE_ROWS" then Some(DeleteRowsOp)
    else if s == "KEEP" then Some(KeepOp)
    else if s == "TRANSFORM" then Some(TransformOp)
    else if s == "CONDITIONAL" then Some(ConditionalOp)
    else None
  }

  lemma ParseTagName(t: Tag)
    ensures ParseTag(TagName(t)) == Some(t)
  {
  }

  function TagOf(n: Node): Tag {
    match n
    case FillLiteral(_) => FillLiteralOp
    case FillAggregate(_) => FillAggregateOp
    case FillFromColumn(_) => FillFromColumnOp
    case DeleteRows => DeleteRowsOp
    case Keep => KeepOp
    case Transform(_, _, _) => TransformOp
    case Conditional(_, _, _) => ConditionalOp
  }

  function AggName(a: Agg): string {
    match a
    case Mean => "mean"
    case Median => "median"
    case Mode => "mode"
    case Minimum => "min"
    case Maximum => "max"
    case Total => "sum"
  }

  function FnName(f: Fn): string {
    match f
    case Round => "round"
    case Floor => "floor"
    case Ceil => "ceil"
    case Abs => "abs"
    case Upper => "upper"
    case Lower => "lower"
    case Title => "title"
    case Trim => "trim"
    case Multiply => "multiply"
    case Add => "add"
    case Subtract => "subtract"
    case Divide => "divide"
  }

  function CondName(op: CondOp): string {
    match op
    case Eq => "eq"
    case Neq => "neq"
    case Gt => "gt"
    case Gte => "gte"
    case Lt => "lt"
    case Lte => "lte"
    case IsNull => "is_null"
    case IsNotNull => "is_not_null"
    case Contains => "contains"
    case StartsWith => "starts_with"
    case EndsWith => "ends_with"
    case Between => "between"
  }

  function ParseAgg(s: string): (r: Option<Agg>)
    ensures r.Some? ==> AggName(r.value) == s
  {
    if s == "mean" then Some(Mean)
    else if s == "median" then Some(Median)
    else if s == "mode" then Some(Mode)
    else if s == "min" then Some(Minimum)
    else if s == "max" then Some(Maximum)
    else if s == "sum" then Some(Total)
    else None
  }

  function ParseFn(s: string): (r: Option<Fn>)
    ensures r.Some? ==> FnName(r.value) == s
  {
    if s == "round" then Some(Round)
    else if s == "floor" then Some(Floor)
    else if s == "ceil" then Some(Ceil)
    else if s == "abs" then Some(Abs)
    else if s == "upper" then Some(Upper)
    else if s == "lower" then Some(Lower)
    else if s == "title" then Some(Title)
    else if s == "trim" then Some(Trim)
    else if s == "multiply" then Some(Multiply)
    else if s == "add" then Some(Add)
    else if s == "subtract" then Some(Subtract)
    else if s == "divide" then Some(Divide)
    else None
  }

  function ParseCond(s: string): (r: Option<CondOp>)
    ensures r.Some? ==> CondName(r.value) == s
  {
    if s == "eq" then Some(Eq)
    else if s == "neq" then Some(Neq)
    else if s == "gt" then Some(Gt)
    else if s == "gte" then Some(Gte)
    else if s == "lt" then Some(Lt)
    else if s == "lte" then Some(Lte)
    else if s == "is_null" then Some(IsNull)
    else if s == "is_not_null" then Some(IsNotNull)
    else if s == "contains" then Some(Contains)
    else if s == "starts_with" then Some(StartsWith)
    else if s == "ends_with" then Some(EndsWith)
    else if s == "between" then Some(Between)
    else None
  }

  lemma ParseAggName(a: Agg)
    ensures ParseAgg(AggName(a)) == Some(a)
  {
  }

  lemma ParseFnName(f: Fn)
    ensures ParseFn(FnName(f)) == Some(f)
  {
  }

  lemma ParseCondName(op: CondOp)
    ensures ParseCond(CondName(op)) == Some(op)
  {
  }

  // ---------------------------------------------------------------------------------------------
  // JSON

  /** `obj[key]`, with None for an absent key or a value that is not an object. */
  function Field(j: Json, key: string): Option<Json> {
    if j.JObj? && key in j.fields then Some(j.fields[key]) else None
  }

  predicate HasString(j: Json, key: string, s: string) {
    Field(j, key) == Some(JStr(s))
  }

  function EncodeOperand(o: Operand): Json {
    match o
    case Literal(v) => JObj(map["kind" := JStr("literal"), "value" := v])
    case ColumnRef(c) => JObj(map["kind" := JStr("column"), "column" := JStr(c)])
    case Aggregate(a, c) => JObj(map["kind" := JStr("aggregate"), "agg" := JStr(AggName(a)), "column" := JStr(c)])
  }

  function Optional(key: string, o: Option<Operand>): map<string, Json> {
    if o.Some? then map[key := EncodeOperand(o.value)] else map[]
  }

  function EncodeCondition(c: Condition): Json {
    JObj(map["op" := JStr(CondName(c.op)), "left" := EncodeOperand(c.left)]
         + Optional("right", c.right) + Optional("upper", c.upper))
  }

  function Encode(n: Node): Json {
    match n
    case FillLiteral(v) => JObj(map["op" := JStr("FILL_LITERAL"), "value" := v])
    case FillAggregate(a) => JObj(map["op" := JStr("FILL_AGGREGATE"), "agg" := JStr(AggName(a))])
    case FillFromColumn(s) => JObj(map["op" := JStr("FILL_FROM_COLUMN"), "sourceColumn" := JStr(s)])
    case DeleteRows => JObj(map["op" := JStr("DELETE_ROWS")])
    case Keep => JObj(map["op" := JStr("KEEP")])
    case Transform(f, params, input) =>
      JObj(map["op" := JStr("TRANSFORM"), "fn" := JStr(FnName(f)), "input" := Encode(input)]
           + (if params.Some? then map["params" := params.value] else map[]))
    case Conditional(c, yes, no) =>
      JObj(map["op" := JStr("CONDITIONAL"), "condition" := EncodeCondition(c),
               "then" := Encode(yes), "else" := Encode(no)])
  }
}
