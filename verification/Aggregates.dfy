/** Column aggregates, and where the value they write can lie. */
module Aggregates {
  import opened Values
  import opened Sorting
  import Outliers = OutlierDetection

  function DropNulls(cells: seq<Cell>): seq<Cell> {
    if cells == [] then []
    else
      var init, c := DropNulls(cells[..|cells| - 1]), cells[|cells| - 1];
      if c.Null? then init else init + [c]
  }

  const MICROS_PER_DAY := 86400000000
  /** The ordinal of 1970-01-01, from which dates are counted when they become numbers. */
  const EPOCH_DAY := 719163

  /** What a non-null cell casts to as Float64. */
  function ToFloat(text: Text, c: Cell): Option<real> {
    match c
    case DateC(day) => Some((day - EPOCH_DAY) as real)
    case StampC(day, micros) => Some(((day - EPOCH_DAY) * MICROS_PER_DAY + micros) as real)
    case _ => PyFloat(text, c)
  }

  /** `drop_nulls().cast(Float64)`: None stands for the exception of a strict cast. */
  function CastToFloat(text: Text, cells: seq<Cell>): Option<seq<real>> {
    if cells == [] then Some([])
    else
      var init, c := CastToFloat(text, cells[..|cells| - 1]), cells[|cells| - 1];
      if init.None? || c.Null? then init
      else if ToFloat(text, c).None? then None
      else Some(init.value + [ToFloat(text, c).value])
  }

  function Le(): (real, real) -> bool {
    (x: real, y: real) => x <= y
  }

  function Median(v: seq<real>): real
    requires v != []
  {
    SortCorrect(Le(), v);
    var s, n := Sort(Le(), v), |v|;
    if n % 2 == 1 then s[n / 2] else (s[n / 2 - 1] + s[n / 2]) / 2.0
  }

  function Min(v: seq<real>): (m: real)
    requires v != []
    ensures m in v && forall i :: 0 <= i < |v| ==> m <= v[i]
  {
    if |v| == 1 then v[0]
    else
      var m := Min(v[..|v| - 1]);
      if v[|v| - 1] < m then v[|v| - 1] else m
  }

  function Max(v: seq<real>): (m: real)
    requires v != []
    ensures m in v && forall i :: 0 <= i < |v| ==> v[i] <= m
  {
    if |v| == 1 then v[0]
    else
      var m := Max(v[..|v| - 1]);
      if v[|v| - 1] > m then v[|v| - 1] else m
  }

  /** The aggregate functions by name, on the non-null numbers of a column. */
  function Named(agg: Option<Json>, v: seq<real>): Option<real>
    requires v != []
  {
    if agg == Some(JStr("mean")) then Some(Outliers.Mean(v))
    else if agg == Some(JStr("median")) then Some(Median(v))
    else if agg == Some(JStr("min")) then Some(Min(v))
    else if agg == Some(JStr("max")) then Some(Max(v))
    else if agg == Some(JStr("sum")) then Some(Outliers.Sum(v))
    else None
  }
}
