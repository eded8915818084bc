/** Cells, columns and frames: what the worker reads out of a Polars frame and writes back. */
module Values {

  datatype Option<+T> = None | Some(value: T)

  datatype Result<+T, +E> = Ok(value: T) | Err(error: E)

  /** A JSON document; IR trees travel and are stored in this form. */
  datatype Json =
    | JNull
    | JBool(flag: bool)
    | JInt(n: int)
    | JReal(x: real)
    | JStr(s: string)
    | JArr(items: seq<Json>)
    | JObj(fields: map<string, Json>)

  /** A Python value found in a column. `JsonC` is a list or dict literal that no column accepts. */
  datatype Cell =
    | Null
    | BoolC(flag: bool)
    | IntC(n: int)
    | RealC(x: real)
    | StrC(s: string)
    | DateC(day: int)
    | StampC(day: int, micros: nat)
    | JsonC(json: Json)

  datatype Dtype = IntD | FloatD | StrD | BoolD | DateD | DatetimeD

  datatype Column = Column(dtype: Dtype, cells: seq<Cell>)

  /** A frame is an ordered list of named columns of one height. */
  datatype Frame = Frame(names: seq<string>, cols: map<string, Column>, height: nat) {

    ghost predicate Valid() {
      && (forall i, j :: 0 <= i < j < |names| ==> names[i] != names[j])
      && (forall c :: c in names <==> c in cols)
      && (forall c :: c in cols ==> WellTyped(cols[c]))
      && Rectangular()
    }

    /** Every column has one cell per row. */
    ghost predicate Rectangular() {
      forall c :: c in cols ==> |cols[c].cells| == height
    }

    function With(c: string, col: Column): Frame {
      this.(cols := cols[c := col])
    }
  }

  ghost predicate WellTyped(col: Column) {
    forall i :: 0 <= i < |col.cells| ==> Fits(col.dtype, col.cells[i])
  }

  predicate Fits(d: Dtype, c: Cell) {
    || c.Null?
    || (d.IntD? && c.IntC?)
    || (d.FloatD? && c.RealC?)
    || (d.StrD? && c.StrC?)
    || (d.BoolD? && c.BoolC?)
    || (d.DateD? && c.DateC?)
    || (d.DatetimeD? && c.StampC?)
  }

  /** Whether the strict Series constructor takes a value; the one conversion is int to float. */
  predicate Accepts(d: Dtype, c: Cell) {
    Fits(d, c) || (d.FloatD? && c.IntC?)
  }

  function Coerce(d: Dtype, c: Cell): (r: Cell)
    requires Accepts(d, c)
    ensures Fits(d, r)
    ensures Fits(d, c) ==> r == c
  {
    if d.FloatD? && c.IntC? then RealC(c.n as real) else c
  }

  predicate AcceptsAll(d: Dtype, cells: seq<Cell>) {
    forall i :: 0 <= i < |cells| ==> Accepts(d, cells[i])
  }

  /** `pl.Series(name, cells, dtype=d)`: a typed column, or an exception. */
  function Build(d: Dtype, cells: seq<Cell>): (r: Option<Column>)
    ensures r.Some? <==> AcceptsAll(d, cells)
    ensures r.Some? ==> r.value.dtype == d && WellTyped(r.value) && |r.value.cells| == |cells|
    ensures r.Some? ==> forall i :: 0 <= i < |cells| ==> r.value.cells[i] == Coerce(d, cells[i])
    ensures WellTyped(Column(d, cells)) ==> r == Some(Column(d, cells))
  {
    if AcceptsAll(d, cells) then
      var out := seq(|cells|, i requires 0 <= i < |cells| => Coerce(d, cells[i]));
      assert WellTyped(Column(d, cells)) ==> out == cells;
      Some(Column(d, out))
    else None
  }

  /** Python's `str.isspace`, which `strip()` and the regex class `\s` use. */
  predicate IsSpace(c: char) {
    var n := c as int;
    9 <= n <= 13 || 28 <= n <= 32 || n == 0x85 || n == 0xA0 || n == 0x1680 || 0x2000 <= n <= 0x200A
    || n == 0x2028 || n == 0x2029 || n == 0x202F || n == 0x205F || n == 0x3000
  }

  function StripLeft(space: char -> bool, s: string): (r: string)
    ensures r != "" ==> !space(r[0])
  {
    if s != "" && space(s[0]) then StripLeft(space, s[1..]) else s
  }

  function StripRight(space: char -> bool, s: string): (r: string)
    ensures r <= s
    ensures r != "" ==> !space(r[|r| - 1])
  {
    if s != "" && space(s[|s| - 1]) then StripRight(space, s[..|s| - 1]) else s
  }

  function Trim(space: char -> bool, s: string): (r: string)
    ensures r != "" ==> !space(r[0]) && !space(r[|r| - 1])
  {
    var l := StripLeft(space, s);
    assert StripRight(space, l) != "" ==> StripRight(space, l)[0] == l[0];
    StripRight(space, l)
  }

  lemma TrimIdempotent(space: char -> bool, s: string)
    ensures Trim(space, Trim(space, s)) == Trim(space, s)
  {
  }

  ghost predicate All(space: char -> bool, s: string) {
    forall i :: 0 <= i < |s| ==> space(s[i])
  }

  lemma {:induction false} LeftParts(space: char -> bool, s: string) returns (a: string)
    ensures s == a + StripLeft(space, s) && All(space, a)
  {
    if s != "" && space(s[0]) {
      a := LeftParts(space, s[1..]);
      a := [s[0]] + a;
      assert s == [s[0]] + s[1..];
    } else {
      a := "";
    }
  }

  lemma {:induction false} RightParts(space: char -> bool, s: string) returns (b: string)
    ensures s == StripRight(space, s) + b && All(space, b)
  {
    if s != "" && space(s[|s| - 1]) {
      var n := |s| - 1;
      b := RightParts(space, s[..n]);
      b := b + [s[n]];
      assert s == s[..n] + [s[n]];
    } else {
      b := "";
    }
  }

  /** Stripping removes white space from the two ends, all of it and nothing else. */
  lemma StripParts(s: string) returns (a: string, b: string)
    ensures s == a + Strip(s) + b && All(c => IsSpace(c), a) && All(c => IsSpace(c), b)
    ensures Strip(s) != "" ==> !IsSpace(Strip(s)[0]) && !IsSpace(Strip(s)[|Strip(s)| - 1])
  {
    var space := c => IsSpace(c);
    a := LeftParts(space, s);
    b := RightParts(space, StripLeft(space, s));
  }

  /** `s.strip()`. */
  function Strip(s: string): string {
    Trim(c => IsSpace(c), s)
  }

  /** The string operations of Python that the model leaves open; every result holds for all of them. */
  datatype Text = Text(
    show: Cell -> string,
    parseFloat: string -> Option<real>,
    parseInt: string -> Option<int>,
    upper: string -> string,
    lower: string -> string,
    title: string -> string,
    round: (real, int) -> real)

  /** `str(v)`. */
  function PyStr(text: Text, v: Cell): string {
    if v.StrC? then v.s else text.show(v)
  }

  /** `float(v)`, where `None` stands for the TypeError or ValueError it raises. */
  function PyFloat(text: Text, v: Cell): Option<real> {
    match v
    case BoolC(b) => Some(if b then 1.0 else 0.0)
    case IntC(i) => Some(i as real)
    case RealC(r) => Some(r)
    case StrC(s) => text.parseFloat(s)
    case _ => None
  }

  /** `int(x)` on a float truncates toward zero. */
  function Trunc(x: real): (n: int)
    ensures x >= 0.0 ==> n as real <= x < n as real + 1.0
    ensures x <= 0.0 ==> n as real - 1.0 < x <= n as real
  {
    if x >= 0.0 then x.Floor else -((-x).Floor)
  }
}
