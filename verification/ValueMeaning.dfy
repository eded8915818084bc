/** What the literals and the transforms of the correction language do to a value. */
module ValueMeaning {
  import opened Conditions
  import opened IR
  import opened IRExecutor
  import opened Values

  // ---------------------------------------------------------------------------------------------
  // FILL_LITERAL

  /** The literal as the column's type has it, or as it stands when it does not read as a number. */
  ghost predicate Cast(text: Text, v: Cell, d: Dtype, w: Cell) {
    if v == Null || d in {BoolD, DateD, DatetimeD} then w == v
    else if d == StrD then exists s :: Prints(text, v, s) && w == StrC(s)
    else if !IsNumber(text, v) then w == v
    else exists x :: Reads(text, v, x) && w == if d == IntD then IntC(Trunc(x)) else RealC(x)
  }

  lemma LiteralMeans(e: Executor, value: Json)
    requires e.Valid()
    ensures e.FillLiteral(Encode(FillLiteral(value))).Ok?
    ensures var o := e.FillLiteral(Encode(FillLiteral(value))).value;
            o == Scalar(o.scalar) && Cast(e.text, Constant(value), e.Dtype(), o.scalar)
  {
    FloatReads(e.text, Constant(value));
    StrPrints(e.text, Constant(value));
    assert Field(Encode(FillLiteral(value)), "value") == Some(value);
    assert ToCell(value) == Constant(value);
    hide Reads, Prints, PyFloat, PyStr, ToCell;
  }

  // ---------------------------------------------------------------------------------------------
  // TRANSFORM

  predicate Arithmetic(f: Fn) {
    f in {Add, Subtract, Multiply, Divide}
  }

  ghost predicate Whole(y: real) {
    exists n :: IsInteger(y, n)
  }

  predicate IsInteger(y: real, n: int) {
    y == n as real
  }

  /** The number that a function of one number gives: floor and ceil bracket it, abs is its distance from zero. */
  ghost predicate Gives(f: Fn, x: real, y: real) {
    match f
    case Floor => Whole(y) && y <= x < y + 1.0
    case Ceil => Whole(y) && y - 1.0 < x <= y
    case Abs => y >= 0.0 && (y == x || y + x == 0.0)
    case _ => false
  }

  /** Subtract and add undo each other, and so do divide and multiply. */
  ghost predicate Combines(f: Fn, x: real, b: real, y: real) {
    match f
    case Add => y - b == x
    case Subtract => y + b == x
    case Multiply => if b == 0.0 then y == 0.0 else y / b == x
    case Divide => b != 0.0 && y * b == x
    case _ => false
  }

  /** The result of a function of one number. */
  lemma UnaryMeans(text: Text, f: Fn, v: Cell, params: Option<map<string, Json>>)
    requires f in {Floor, Ceil, Abs}
    ensures var r := Apply(text, FnName(f), v, params);
            if !IsNumber(text, v) then r == Err(TransformFailed)
            else exists x, y :: Reads(text, v, x) && Gives(f, x, y) && r == Ok(RealC(y))
  {
    FloatReads(text, v);
    hide Reads, PyFloat;
    if IsNumber(text, v) {
      var x := PyFloat(text, v).value;
      var y := Apply(text, FnName(f), v, params).value.x;
      if f.Floor? {
        assert IsInteger(y, x.Floor);
      } else if f.Ceil? {
        assert IsInteger(y, -(0.0 - x).Floor);
      }
      assert Gives(f, x, y);
    }
  }

  lemma TextMeans(text: Text, f: Fn, v: Cell, params: Option<map<string, Json>>, s: string)
    requires f in {Upper, Lower, Title, Trim} && Prints(text, v, s)
    ensures Apply(text, FnName(f), v, params)
            == Ok(StrC(match f
                       case Upper => text.upper(s)
                       case Lower => text.lower(s)
                       case Title => text.title(s)
                       case _ => Strip(s)))
  {
    StrPrints(text, v);
    hide PyFloat, Prints, PyStr;
  }

  /** The result of the four functions that need `by`. */
  lemma ArithmeticMeans(text: Text, f: Fn, v: Cell, params: map<string, Json>)
    requires Arithmetic(f)
    ensures var r := Apply(text, FnName(f), v, Some(params));
            if "by" !in params || params["by"] == JNull then r == Err(MissingBy)
            else
              var amount := Constant(params["by"]);
              if !IsNumber(text, amount) || !IsNumber(text, v) || (f.Divide? && Reads(text, amount, 0.0))
              then r == Err(TransformFailed)
              else
                exists b, x, y ::
                  Reads(text, amount, b) && Reads(text, v, x) && Combines(f, x, b, y) && r == Ok(RealC(y))
  {
    if "by" in params && params["by"] != JNull {
      var amount := Constant(params["by"]);
      assert ToCell(params["by"]) == amount;
      FloatReads(text, amount);
      FloatReads(text, v);
      hide Reads, PyFloat, ToCell;
      if IsNumber(text, amount) && IsNumber(text, v) && !(f.Divide? && Reads(text, amount, 0.0)) {
        Calculates(text, f, v, params, PyFloat(text, v).value, PyFloat(text, amount).value);
      }
    }
  }

  lemma Calculates(text: Text, f: Fn, v: Cell, params: map<string, Json>, x: real, b: real)
    requires Arithmetic(f) && "by" in params && params["by"] != JNull
    requires PyFloat(text, v) == Some(x) && PyFloat(text, ToCell(params["by"])) == Some(b) && (f.Divide? ==> b != 0.0)
    ensures var r := Apply(text, FnName(f), v, Some(params));
            r.Ok? && r.value.RealC? && Combines(f, x, b, r.value.x)
  {
    hide PyFloat, ToCell;
    if f.Multiply? && b != 0.0 {
      assert (x * b) / b == x;
    }
    if f.Divide? {
      assert (x / b) * b == x;
    }
  }

  /** Rounding to the given number of decimals, or to none. */
  lemma RoundMeans(text: Text, v: Cell, params: map<string, Json>, x: real, decimals: int)
    requires Reads(text, v, x)
    requires if "decimals" in params then params["decimals"] == JInt(decimals) else decimals == 0
    ensures Apply(text, FnName(Round), v, Some(params)) == Ok(RealC(text.round(x, decimals)))
  {
    FloatReads(text, v);
    hide Reads, PyFloat;
  }

  /** The parameters that a stored transform carries; none, and null, stand for an empty object. */
  lemma ParamsMean(f: Fn, params: Option<Json>, input: Node)
    requires params.Some? ==> params.value.JObj? || params.value.JNull?
    ensures Params(Encode(Transform(f, params, input)))
            == Some(if params.Some? && params.value.JObj? then params.value.fields else map[])
  {
    hide FnName;
    assert params.Some? ==> Field(Encode(Transform(f, params, input)), "params") == params;
  }

  /** No object, and what Python takes for false: it stands for an empty object too. */
  predicate Falsy(j: Json) {
    match j
    case JNull => true
    case JBool(b) => b == false
    case JInt(n) => n == 0
    case JReal(x) => x == 0.0
    case JStr(s) => |s| == 0
    case JArr(items) => |items| == 0
    case JObj(_) => false
  }

  /** The parameters of any document: its object, an empty one, or an error. */
  lemma ParamsExactly(node: Json)
    ensures match Params(node)
            case Some(m) =>
              Field(node, "params") == Some(JObj(m))
              || (m == map[] && (Field(node, "params") == None || Falsy(Field(node, "params").value)))
            case None =>
              Field(node, "params").Some? && !Field(node, "params").value.JObj? && !Falsy(Field(node, "params").value)
  {
  }
}
