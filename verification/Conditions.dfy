/** What a condition of the correction language says about one row, apart from how the executor computes it. */
module Conditions {
  import opened IR
  import opened IRExecutor
  import opened Values

  // ---------------------------------------------------------------------------------------------
  // Two values

  /** `float(v)` is `x`. */
  ghost predicate Reads(text: Text, v: Cell, x: real) {
    match v
    case BoolC(b) => x == if b then 1.0 else 0.0
    case IntC(n) => x == n as real
    case RealC(y) => x == y
    case StrC(s) => text.parseFloat(s) == Some(x)
    case _ => false
  }

  ghost predicate IsNumber(text: Text, v: Cell) {
    exists x :: Reads(text, v, x)
  }

  /** The value, or the text it prints as. */
  ghost predicate Prints(text: Text, v: Cell, s: string) {
    if v.StrC? then v == StrC(s) else text.show(v) == s
  }

  /** The same value, or the same number where True is 1. */
  ghost predicate Same(text: Text, a: Cell, b: Cell) {
    a == b || (!a.StrC? && !b.StrC? && exists x :: Reads(text, a, x) && Reads(text, b, x))
  }

  ghost predicate Ordered(op: CondOp, x: real, y: real) {
    match op
    case Gt => y < x
    case Gte => y < x || y == x
    case Lt => x < y
    case Lte => x < y || x == y
    case _ => false
  }

  ghost predicate Occurs(op: CondOp, l: string, r: string) {
    match op
    case Contains => exists before, after :: l == before + r + after
    case StartsWith => exists after :: l == r + after
    case EndsWith => exists before :: l == before + r
    case _ => false
  }

  /** What the operator says about its operands; `upper` is read by `between` alone. */
  ghost function Test(text: Text, op: CondOp, left: Cell, right: Cell, upper: Cell): Result<bool, ExecError> {
    match op
    case IsNull => Ok(left == Null)
    case IsNotNull => Ok(left != Null)
    case Eq => Ok(Same(text, left, right))
    case Neq => Ok(!Same(text, left, right))
    case Between =>
      if !IsNumber(text, left) || !IsNumber(text, right) then Err(CompareFailed)
      else if !AtLeast(text, left, right) then Ok(false)
      else if !IsNumber(text, upper) then Err(CompareFailed)
      else Ok(AtLeast(text, upper, left))
    case _ =>
      if op in {Contains, StartsWith, EndsWith} then
        Ok(exists l, r :: Prints(text, left, l) && Prints(text, right, r) && Occurs(op, l, r))
      else if !IsNumber(text, left) || !IsNumber(text, right) then Err(CompareFailed)
      else Ok(exists x, y :: Reads(text, left, x) && Reads(text, right, y) && Ordered(op, x, y))
  }

  ghost predicate AtLeast(text: Text, a: Cell, b: Cell) {
    exists x, y :: Reads(text, a, x) && Reads(text, b, y) && y <= x
  }

  lemma FloatReads(text: Text, v: Cell)
    ensures match PyFloat(text, v)
            case Some(x) => Reads(text, v, x) && (forall y :: Reads(text, v, y) ==> y == x)
            case None => !IsNumber(text, v)
  {
  }

  lemma StrPrints(text: Text, v: Cell)
    ensures forall s :: Prints(text, v, s) <==> s == PyStr(text, v)
  {
  }

  lemma EqualIsSame(text: Text, a: Cell, b: Cell)
    ensures PyEq(a, b) <==> Same(text, a, b)
  {
    FloatReads(text, a);
    FloatReads(text, b);
  }

  lemma WithinOccurs(l: string, r: string)
    ensures Within(l, r) <==> Occurs(Contains, l, r)
  {
    if Within(l, r) {
      var i :| 0 <= i <= |l| && OccursAt(l, r, i);
      assert l == l[..i] + r + l[i + |r|..];
    }
    if Occurs(Contains, l, r) {
      var before, after :| l == before + r + after;
      assert l[|before|..|before| + |r|] == r;
      assert OccursAt(l, r, |before|);
    }
  }

  lemma EndsOccur(l: string, r: string)
    ensures r <= l <==> Occurs(StartsWith, l, r)
    ensures |r| <= |l| && l[|l| - |r|..] == r <==> Occurs(EndsWith, l, r)
  {
    if r <= l {
      assert l == r + l[|r|..];
    }
    if |r| <= |l| && l[|l| - |r|..] == r {
      assert l == l[..|l| - |r|] + r;
    }
    if Occurs(EndsWith, l, r) {
      var before :| l == before + r;
      assert l[|before|..] == r;
    }
  }

  lemma EqualityTests(e: Executor, op: CondOp, left: Cell, right: Cell)
    requires op.Eq? || op.Neq?
    ensures e.EvalBinary(Some(JStr(CondName(op))), left, right) == Test(e.text, op, left, right, Null)
  {
    EqualIsSame(e.text, left, right);
    hide Same, PyEq, PyStr;
  }

  lemma TextTests(e: Executor, op: CondOp, left: Cell, right: Cell)
    requires op.Contains? || op.StartsWith? || op.EndsWith?
    ensures e.EvalBinary(Some(JStr(CondName(op))), left, right) == Test(e.text, op, left, right, Null)
  {
    var l, r := PyStr(e.text, left), PyStr(e.text, right);
    StrPrints(e.text, left);
    StrPrints(e.text, right);
    WithinOccurs(l, r);
    EndsOccur(l, r);
    hide Prints, Within, Occurs, PyStr;
  }

  lemma OrderTests(e: Executor, op: CondOp, left: Cell, right: Cell)
    requires op.Gt? || op.Gte? || op.Lt? || op.Lte?
    ensures e.EvalBinary(Some(JStr(CondName(op))), left, right) == Test(e.text, op, left, right, Null)
  {
    FloatReads(e.text, left);
    FloatReads(e.text, right);
    hide Reads, PyFloat, PyStr;
  }

  /** The executor's comparisons are these tests. */
  lemma BinaryTests(e: Executor, op: CondOp, left: Cell, right: Cell)
    requires !op.IsNull? && !op.IsNotNull? && !op.Between?
    ensures e.EvalBinary(Some(JStr(CondName(op))), left, right) == Test(e.text, op, left, right, Null)
  {
    hide Executor.EvalBinary, Test;
    if op.Eq? || op.Neq? {
      EqualityTests(e, op, left, right);
    } else if op.Contains? || op.StartsWith? || op.EndsWith? {
      TextTests(e, op, left, right);
    } else {
      OrderTests(e, op, left, right);
    }
  }

  lemma BetweenTests(e: Executor, left: Cell, right: Cell, upper: Cell)
    ensures e.EvalBetween(left, right, upper) == Test(e.text, Between, left, right, upper)
  {
    FloatReads(e.text, left);
    FloatReads(e.text, right);
    FloatReads(e.text, upper);
    hide Reads, PyFloat;
  }

  // ---------------------------------------------------------------------------------------------
  // Documents

  /** The value of an operand on a row, or the error of resolving it. */
  function Operand(e: Executor, operand: Option<Json>, row: nat): Result<Cell, ExecError>
    requires e.Valid() && row < e.frame.height
  {
    match operand
    case Some(JObj(fields)) =>
      if "kind" !in fields then Err(UnknownOperand)
      else if fields["kind"] == JStr("literal") then
        if "value" in fields then Ok(Constant(fields["value"])) else Err(Malformed)
      else if fields["kind"] == JStr("column") then
        if "column" !in fields then Err(Malformed) else Column(e, fields["column"], row)
      else if fields["kind"] == JStr("aggregate") then
        match if "column" in fields then fields["column"] else JStr(e.column)
        case JStr(c) =>
          if c in e.frame.cols then e.AggregateOperand(Field(operand.value, "agg"), e.frame.cols[c].cells)
          else Err(MissingColumn)
        case _ => Err(MissingColumn)
      else Err(UnknownOperand)
    case _ => Err(Malformed)
  }

  function Column(e: Executor, c: Json, row: nat): Result<Cell, ExecError>
    requires e.Valid() && row < e.frame.height
  {
    match c
    case JStr(name) => if name in e.frame.cols then Ok(e.frame.cols[name].cells[row]) else Err(MissingColumn)
    case _ => Err(MissingColumn)
  }

  function Constant(j: Json): Cell {
    match j
    case JNull => Null
    case JBool(true) => BoolC(true)
    case JBool(false) => BoolC(false)
    case JInt(n) => IntC(n)
    case JReal(x) => RealC(x)
    case JStr(s) => StrC(s)
    case JArr(_) => JsonC(j)
    case JObj(_) => JsonC(j)
  }

  /** The operator a document names. */
  ghost predicate NamesOp(cond: Json, op: CondOp) {
    HasString(cond, "op", CondName(op))
  }

  /** What the document says about a row: its operands from left to right, then the test. */
  ghost function Holds(e: Executor, cond: Option<Json>, row: nat): Result<bool, ExecError>
    requires e.Valid() && row < e.frame.height
  {
    if cond.None? || !cond.value.JObj? then Err(Malformed)
    else
      var c := cond.value;
      match Operand(e, Field(c, "left"), row)
      case Err(err) => Err(err)
      case Ok(left) =>
        if NamesOp(c, IsNull) || NamesOp(c, IsNotNull) then Ok(NamesOp(c, IsNull) <==> left == Null)
        else
          match Operand(e, Field(c, "right"), row)
          case Err(err) => Err(err)
          case Ok(right) =>
            if NamesOp(c, Between) then
              match Operand(e, Field(c, "upper"), row)
              case Err(err) => Err(err)
              case Ok(upper) => Test(e.text, Between, left, right, upper)
            else if exists op :: NamesOp(c, op) then
              var op :| NamesOp(c, op);
              Test(e.text, op, left, right, Null)
            else Err(UnknownCondition)
  }

  lemma OperandResolves(e: Executor, operand: Option<Json>, row: nat)
    requires e.Valid() && row < e.frame.height
    ensures e.ResolveOperand(operand, row) == Operand(e, operand, row)
  {
    hide Executor.AggregateOperand;
  }

  lemma OneName(cond: Json, p: CondOp, q: CondOp)
    requires NamesOp(cond, p) && NamesOp(cond, q)
    ensures p == q
  {
    ParseCondName(p);
    ParseCondName(q);
  }

  /** An operator outside the list is an error, once both operands are read. */
  lemma UnknownTests(e: Executor, c: Json, left: Cell, right: Cell)
    requires forall op :: !NamesOp(c, op)
    ensures e.EvalBinary(Field(c, "op"), left, right) == Err(UnknownCondition)
  {
    hide PyStr, PyFloat, PyEq, NamesOp;
    Unnamed(c, Eq);
    Unnamed(c, Neq);
    Unnamed(c, Contains);
    Unnamed(c, StartsWith);
    Unnamed(c, EndsWith);
    Unnamed(c, Gt);
    Unnamed(c, Gte);
    Unnamed(c, Lt);
    Unnamed(c, Lte);
  }

  lemma Unnamed(c: Json, op: CondOp)
    requires !NamesOp(c, op)
    ensures Field(c, "op") != Some(JStr(CondName(op)))
  {
  }

  lemma EvalNull(e: Executor, c: Json, row: nat)
    requires e.Valid() && row < e.frame.height && c.JObj? && (NamesOp(c, IsNull) || NamesOp(c, IsNotNull))
    ensures e.EvalCondition(Some(c), row) == Holds(e, Some(c), row)
  {
    OperandResolves(e, Field(c, "left"), row);
    NullEvaluates(e, c, row);
    NullHolds(e, c, row);
    hide Executor.ResolveOperand, Operand, Executor.EvalCondition, Holds, NamesOp;
  }

  lemma NullEvaluates(e: Executor, c: Json, row: nat)
    requires e.Valid() && row < e.frame.height && c.JObj? && (NamesOp(c, IsNull) || NamesOp(c, IsNotNull))
    ensures var l := e.ResolveOperand(Field(c, "left"), row);
            e.EvalCondition(Some(c), row)
            == if l.Err? then Err(l.error) else Ok(NamesOp(c, IsNull) <==> l.value == Null)
  {
    hide Executor.ResolveOperand, Executor.EvalBinary, Executor.EvalBetween;
  }

  lemma NullHolds(e: Executor, c: Json, row: nat)
    requires e.Valid() && row < e.frame.height && c.JObj? && (NamesOp(c, IsNull) || NamesOp(c, IsNotNull))
    ensures var l := Operand(e, Field(c, "left"), row);
            Holds(e, Some(c), row)
            == if l.Err? then Err(l.error) else Ok(NamesOp(c, IsNull) <==> l.value == Null)
  {
    hide Operand, Test, NamesOp;
  }

  lemma EvalBetween(e: Executor, c: Json, row: nat)
    requires e.Valid() && row < e.frame.height && c.JObj? && NamesOp(c, Between)
    ensures e.EvalCondition(Some(c), row) == Holds(e, Some(c), row)
  {
    OperandResolves(e, Field(c, "left"), row);
    OperandResolves(e, Field(c, "right"), row);
    OperandResolves(e, Field(c, "upper"), row);
    BetweenEvaluates(e, c, row);
    BetweenHolds(e, c, row);
    hide Executor.ResolveOperand, Operand, Test, Executor.EvalBetween, Executor.EvalCondition, Holds, NamesOp;
    var l, r := Operand(e, Field(c, "left"), row), Operand(e, Field(c, "right"), row);
    var u := Operand(e, Field(c, "upper"), row);
    if l.Ok? && r.Ok? && u.Ok? {
      BetweenTests(e, l.value, r.value, u.value);
    }
  }

  lemma BetweenEvaluates(e: Executor, c: Json, row: nat)
    requires e.Valid() && row < e.frame.height && c.JObj? && NamesOp(c, Between)
    ensures var l, r := e.ResolveOperand(Field(c, "left"), row), e.ResolveOperand(Field(c, "right"), row);
            var u := e.ResolveOperand(Field(c, "upper"), row);
            e.EvalCondition(Some(c), row)
            == if l.Err? then Err(l.error) else if r.Err? then Err(r.error) else if u.Err? then Err(u.error)
               else e.EvalBetween(l.value, r.value, u.value)
  {
    hide Executor.ResolveOperand, Executor.EvalBinary, Executor.EvalBetween;
  }

  lemma BetweenHolds(e: Executor, c: Json, row: nat)
    requires e.Valid() && row < e.frame.height && c.JObj? && NamesOp(c, Between)
    ensures var l, r := Operand(e, Field(c, "left"), row), Operand(e, Field(c, "right"), row);
            var u := Operand(e, Field(c, "upper"), row);
            Holds(e, Some(c), row)
            == if l.Err? then Err(l.error) else if r.Err? then Err(r.error) else if u.Err? then Err(u.error)
               else Test(e.text, Between, l.value, r.value, u.value)
  {
    assert !NamesOp(c, IsNull) && !NamesOp(c, IsNotNull);
    hide Operand, Test, NamesOp;
  }

  lemma EvalOther(e: Executor, c: Json, row: nat)
    requires e.Valid() && row < e.frame.height && c.JObj?
    requires !NamesOp(c, IsNull) && !NamesOp(c, IsNotNull) && !NamesOp(c, Between)
    ensures e.EvalCondition(Some(c), row) == Holds(e, Some(c), row)
  {
    OperandResolves(e, Field(c, "left"), row);
    OperandResolves(e, Field(c, "right"), row);
    EvalNotSpecial(e, c, row);
    HoldsNotSpecial(e, c, row);
    hide Executor.ResolveOperand, Operand, Test, Executor.EvalBinary, Executor.EvalCondition, Holds, NamesOp;
    var l, r := Operand(e, Field(c, "left"), row), Operand(e, Field(c, "right"), row);
    if l.Ok? && r.Ok? {
      if exists op :: NamesOp(c, op) {
        var op :| NamesOp(c, op);
        Named(e, c, op, l.value, r.value);
      } else {
        UnknownTests(e, c, l.value, r.value);
      }
    }
  }

  lemma EvalNotSpecial(e: Executor, c: Json, row: nat)
    requires e.Valid() && row < e.frame.height && c.JObj?
    requires !NamesOp(c, IsNull) && !NamesOp(c, IsNotNull) && !NamesOp(c, Between)
    ensures var l, r := e.ResolveOperand(Field(c, "left"), row), e.ResolveOperand(Field(c, "right"), row);
            e.EvalCondition(Some(c), row)
            == if l.Err? then Err(l.error) else if r.Err? then Err(r.error)
               else e.EvalBinary(Field(c, "op"), l.value, r.value)
  {
    hide Executor.ResolveOperand, Executor.EvalBinary, Executor.EvalBetween;
  }

  lemma HoldsNotSpecial(e: Executor, c: Json, row: nat)
    requires e.Valid() && row < e.frame.height && c.JObj?
    requires !NamesOp(c, IsNull) && !NamesOp(c, IsNotNull) && !NamesOp(c, Between)
    ensures var l, r := Operand(e, Field(c, "left"), row), Operand(e, Field(c, "right"), row);
            if l.Err? then Holds(e, Some(c), row) == Err(l.error)
            else if r.Err? then Holds(e, Some(c), row) == Err(r.error)
            else if exists op :: NamesOp(c, op) then
              exists op :: NamesOp(c, op) && Holds(e, Some(c), row) == Test(e.text, op, l.value, r.value, Null)
            else Holds(e, Some(c), row) == Err(UnknownCondition)
  {
    hide Operand, Test, NamesOp;
  }

  /** On every document and every row the executor evaluates the condition to what it says. */
  lemma EvalIsHolds(e: Executor, cond: Option<Json>, row: nat)
    requires e.Valid() && row < e.frame.height
    ensures e.EvalCondition(cond, row) == Holds(e, cond, row)
  {
    if cond.Some? && cond.value.JObj? {
      hide Executor.EvalCondition, Holds, NamesOp;
      var c := cond.value;
      if NamesOp(c, IsNull) || NamesOp(c, IsNotNull) {
        EvalNull(e, c, row);
      } else if NamesOp(c, Between) {
        EvalBetween(e, c, row);
      } else {
        EvalOther(e, c, row);
      }
    }
  }

  lemma Named(e: Executor, c: Json, op: CondOp, left: Cell, right: Cell)
    requires NamesOp(c, op)
    ensures forall p :: NamesOp(c, p) ==> p == op
    ensures op.IsNull? || op.IsNotNull? || op.Between? ==> NamesOp(c, op)
    ensures !op.IsNull? && !op.IsNotNull? && !op.Between? ==>
              e.EvalBinary(Field(c, "op"), left, right) == Test(e.text, op, left, right, Null)
  {
    hide Executor.EvalBinary, Test;
    forall p | NamesOp(c, p)
      ensures p == op
    {
      OneName(c, p, op);
    }
    if !op.IsNull? && !op.IsNotNull? && !op.Between? {
      BinaryTests(e, op, left, right);
    }
  }

  // ---------------------------------------------------------------------------------------------
  // Typed conditions

  /** The value of a typed operand on a row. */
  function ValueOf(e: Executor, o: IR.Operand, row: nat): Result<Cell, ExecError>
    requires e.Valid() && row < e.frame.height
  {
    match o
    case Literal(v) => Ok(Constant(v))
    case ColumnRef(c) => Column(e, JStr(c), row)
    case Aggregate(a, c) =>
      if c in e.frame.cols then e.AggregateOperand(Some(JStr(AggName(a))), e.frame.cols[c].cells)
      else Err(MissingColumn)
  }

  /** Right and upper operands are there exactly when the operator reads them. */
  ghost predicate Complete(c: Condition) {
    && (c.right.Some? <==> !c.op.IsNull? && !c.op.IsNotNull?)
    && (c.upper.Some? <==> c.op.Between?)
  }

  lemma EncodedOperand(e: Executor, o: IR.Operand, row: nat)
    requires e.Valid() && row < e.frame.height
    ensures Operand(e, Some(EncodeOperand(o)), row) == ValueOf(e, o, row)
  {
    hide Executor.AggregateOperand, Column, Constant;
  }

  /**
   * A stored condition, on a row where its operands have values: the executor evaluates it to the test of its
   * operator on those values.
   */
  lemma ConditionMeans(e: Executor, c: Condition, row: nat)
    requires e.Valid() && row < e.frame.height && Complete(c) && ValueOf(e, c.left, row).Ok?
    requires c.right.Some? ==> ValueOf(e, c.right.value, row).Ok?
    requires c.upper.Some? ==> ValueOf(e, c.upper.value, row).Ok?
    ensures e.EvalCondition(Some(EncodeCondition(c)), row)
            == Test(e.text, c.op, ValueOf(e, c.left, row).value,
                    if c.right.Some? then ValueOf(e, c.right.value, row).value else Null,
                    if c.upper.Some? then ValueOf(e, c.upper.value, row).value else Null)
  {
    var j := EncodeCondition(c);
    EvalIsHolds(e, Some(j), row);
    EncodedFields(c);
    EncodedOperand(e, c.left, row);
    if c.right.Some? {
      EncodedOperand(e, c.right.value, row);
    }
    if c.upper.Some? {
      EncodedOperand(e, c.upper.value, row);
    }
    assert NamesOp(j, c.op);
    forall p | NamesOp(j, p)
      ensures p == c.op
    {
      OneName(j, p, c.op);
    }
    NullTests(e.text, c.op, ValueOf(e, c.left, row).value);
    hide Executor.EvalCondition, EncodeCondition, ValueOf, Operand, Test, NamesOp;
  }

  lemma EncodedFields(c: Condition)
    ensures var j := EncodeCondition(c);
            && j.JObj? && HasString(j, "op", CondName(c.op))
            && Field(j, "left") == Some(EncodeOperand(c.left))
            && (c.right.Some? ==> Field(j, "right") == Some(EncodeOperand(c.right.value)))
            && (c.upper.Some? ==> Field(j, "upper") == Some(EncodeOperand(c.upper.value)))
  {
    hide EncodeOperand, CondName;
  }

  lemma NullTests(text: Text, op: CondOp, left: Cell)
    ensures op.IsNull? || op.IsNotNull? ==> Test(text, op, left, Null, Null) == Ok(op.IsNull? <==> left == Null)
  {
  }
}
