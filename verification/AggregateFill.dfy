/** FILL_AGGREGATE: the value it writes stays inside the column, and the mean is a fixed point. */
module AggregateFill {
  import opened IR
  import opened IRExecutor
  import opened Sorting
  import opened Values
  import A = Aggregates
  import O = OutlierDetection

  ghost predicate Between(v: seq<real>, x: real)
    requires v != []
  {
    A.Min(v) <= x <= A.Max(v)
  }

  lemma {:induction false} SumBounds(v: seq<real>, lo: real, hi: real)
    requires forall i :: 0 <= i < |v| ==> lo <= v[i] <= hi
    ensures O.Times(|v|, lo) <= O.Sum(v) <= O.Times(|v|, hi)
  {
    if v != [] {
      SumBounds(v[..|v| - 1], lo, hi);
    }
  }

  lemma DivideBounds(s: real, n: real, lo: real, hi: real)
    requires n > 0.0 && n * lo <= s <= n * hi
    ensures lo <= s / n <= hi
  {
    var q := s / n;
    assert q * n == s;
    if q < lo {
      O.Scale(q, lo, n);
    }
    if q > hi {
      O.Scale(hi, q, n);
    }
  }

  lemma MeanBetween(v: seq<real>)
    requires v != []
    ensures Between(v, O.Mean(v))
  {
    var lo, hi := A.Min(v), A.Max(v);
    SumBounds(v, lo, hi);
    O.TimesIsProduct(|v|, lo);
    O.TimesIsProduct(|v|, hi);
    DivideBounds(O.Sum(v), |v| as real, lo, hi);
  }

  lemma MedianBetween(v: seq<real>)
    requires v != []
    ensures Between(v, A.Median(v))
  {
    var s := Sort(A.Le(), v);
    SortCorrect(A.Le(), v);
    forall i | 0 <= i < |s|
      ensures A.Min(v) <= s[i] <= A.Max(v)
    {
      assert s[i] in multiset(s);
      assert s[i] in v;
    }
  }

  lemma NamedBetween(agg: Option<Json>, v: seq<real>)
    requires v != [] && A.Named(agg, v).Some? && agg != Some(JStr("sum"))
    ensures Between(v, A.Named(agg, v).value)
  {
    MeanBetween(v);
    MedianBetween(v);
  }

  lemma {:induction false} IntegerNumbers(cells: seq<Cell>)
    requires WellTyped(Column(IntD, cells))
    ensures forall x :: x in O.Numbers(cells) ==> x == x.Floor as real
  {
    if cells != [] {
      var init := cells[..|cells| - 1];
      assert forall i :: 0 <= i < |init| ==> init[i] == cells[i];
      IntegerNumbers(init);
    }
  }

  lemma {:induction false} NumbersIgnoreNulls(cells: seq<Cell>)
    ensures O.Numbers(A.DropNulls(cells)) == O.Numbers(cells)
  {
    if cells != [] {
      var n := |cells| - 1;
      NumbersIgnoreNulls(cells[..n]);
      var d := A.DropNulls(cells[..n]);
      assert (d + [cells[n]])[..|d|] == d;
    }
  }

  /** Truncation cannot leave an interval with integer ends. */
  lemma TruncBetween(lo: real, hi: real, x: real)
    requires lo <= x <= hi && lo == lo.Floor as real && hi == hi.Floor as real
    ensures lo <= Trunc(x) as real <= hi
  {
    TruncBetweenInts(lo.Floor, hi.Floor, x, Trunc(x));
  }

  lemma TruncBetweenInts(a: int, b: int, x: real, t: int)
    requires a as real <= x <= b as real
    requires x >= 0.0 ==> t as real <= x < t as real + 1.0
    requires x <= 0.0 ==> t as real - 1.0 < x <= t as real
    ensures a <= t <= b
  {
    if x >= 0.0 {
      assert a as real < (t + 1) as real;
    } else {
      assert (t - 1) as real < b as real;
    }
  }

  /**
   * For mean, median, min and max the value written to a numeric column lies between the column's
   * smallest and largest value, also after truncation to an integer column.
   */
  lemma FillStaysInRange(e: Executor, node: Json)
    requires e.Valid() && WellTyped(e.frame.cols[e.column]) && e.Dtype() in {IntD, FloatD}
    requires Field(node, "agg") in {Some(JStr("mean")), Some(JStr("median")), Some(JStr("min")), Some(JStr("max"))}
    requires O.Numbers(e.frame.cols[e.column].cells) != []
    ensures e.FillAggregate(node).Ok?
    ensures var v, w := O.Numbers(e.frame.cols[e.column].cells), e.FillAggregate(node).value.scalar;
            && Fits(e.Dtype(), w)
            && O.Num(w).Some? && Between(v, O.Num(w).value)
  {
    hide A.Median, O.Mean;
    var cells := e.frame.cols[e.column].cells;
    var v := O.Numbers(cells);
    NumbersIgnoreNulls(cells);
    NamedBetween(Field(node, "agg"), v);
    if e.Dtype().IntD? {
      IntegerNumbers(cells);
      TruncBetween(A.Min(v), A.Max(v), A.Named(Field(node, "agg"), v).value);
    }
  }

  /** The float column with every null replaced by `m`. */
  function FillNulls(cells: seq<Cell>, m: real): (r: seq<Cell>)
    ensures |r| == |cells|
  {
    seq(|cells|, i requires 0 <= i < |cells| => if cells[i].Null? then RealC(m) else cells[i])
  }

  function Nulls(cells: seq<Cell>): nat {
    if cells == [] then 0 else Nulls(cells[..|cells| - 1]) + (if cells[|cells| - 1].Null? then 1 else 0)
  }

  /** The last cell's share of the numbers and of their sum. */
  lemma LastNumber(cells: seq<Cell>)
    requires cells != []
    ensures var n, last := |cells| - 1, O.Num(cells[|cells| - 1]);
            && |O.Numbers(cells)| == |O.Numbers(cells[..n])| + (if last.Some? then 1 else 0)
            && O.Sum(O.Numbers(cells)) == O.Sum(O.Numbers(cells[..n])) + (if last.Some? then last.value else 0.0)
  {
    var init := O.Numbers(cells[..|cells| - 1]);
    match O.Num(cells[|cells| - 1])
    case Some(x) => assert (init + [x])[..|init|] == init;
    case None =>
  }

  lemma {:induction false} FillNullsSum(cells: seq<Cell>, m: real)
    ensures O.Sum(O.Numbers(FillNulls(cells, m))) == O.Sum(O.Numbers(cells)) + O.Times(Nulls(cells), m)
    ensures |O.Numbers(FillNulls(cells, m))| == |O.Numbers(cells)| + Nulls(cells)
  {
    if cells != [] {
      var n := |cells| - 1;
      FillNullsSum(cells[..n], m);
      assert FillNulls(cells, m)[..n] == FillNulls(cells[..n], m);
      LastNumber(cells);
      LastNumber(FillNulls(cells, m));
      hide O.Numbers, O.Sum;
    }
  }

  /** Filling every null of a float column with its mean leaves the mean where it was. */
  lemma MeanIsFixedPoint(cells: seq<Cell>)
    requires O.Numbers(cells) != []
    ensures var m := O.Mean(O.Numbers(cells));
            O.Numbers(FillNulls(cells, m)) != [] && O.Mean(O.Numbers(FillNulls(cells, m))) == m
  {
    hide O.Numbers;
    var v := O.Numbers(cells);
    FillNullsSum(cells, O.Mean(v));
    AddingMeans(v, O.Numbers(FillNulls(cells, O.Mean(v))), Nulls(cells), O.Mean(v));
  }

  lemma AddingMeans(v: seq<real>, w: seq<real>, k: nat, m: real)
    requires v != [] && m == O.Mean(v) && |w| == |v| + k && O.Sum(w) == O.Sum(v) + O.Times(k, m)
    ensures O.Mean(w) == m
  {
    O.TimesIsProduct(k, m);
    SameMean(O.Sum(v), |v| as real, k as real, m);
  }

  lemma SameMean(s: real, n: real, k: real, m: real)
    requires n > 0.0 && k >= 0.0 && m == s / n
    ensures (s + k * m) / (n + k) == m
  {
    assert s == m * n;
    assert s + k * m == m * (n + k);
  }
}
