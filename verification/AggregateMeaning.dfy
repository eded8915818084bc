/** What the aggregate functions compute, said of the column's numbers alone. */
module AggregateMeaning {
  import opened IR
  import opened IRExecutor
  import opened Ranks
  import opened Rows
  import opened Sorting
  import opened Values
  import A = Aggregates
  import C = Conditions
  import Calendar
  import O = OutlierDetection

  /** The middle number, or halfway between the two middle numbers. */
  ghost predicate IsMedian(v: seq<real>, x: real) {
    if |v| % 2 == 1 then IsRank(A.Le(), v, |v| / 2, x)
    else |v| > 0 && exists a, b :: Middle(v, a, b) && 2.0 * x == a + b
  }

  /** The two middle numbers. */
  ghost predicate Middle(v: seq<real>, a: real, b: real)
    requires |v| > 1
  {
    IsRank(A.Le(), v, |v| / 2 - 1, a) && IsRank(A.Le(), v, |v| / 2, b)
  }

  /** Running totals from zero, one number at a time, end in `x`. */
  ghost predicate IsSum(v: seq<real>, x: real) {
    exists totals: seq<real> :: Totals(v, totals) && totals[|v|] == x
  }

  ghost predicate Totals(v: seq<real>, totals: seq<real>) {
    && |totals| == |v| + 1 && totals[0] == 0.0
    && forall i :: 0 <= i < |v| ==> totals[i + 1] == totals[i] + v[i]
  }

  ghost predicate IsAggregate(agg: Agg, v: seq<real>, x: real) {
    match agg
    case Mean => v != [] && exists s :: IsSum(v, s) && x == s / |v| as real
    case Median => IsMedian(v, x)
    case Minimum => x in v && forall y :: y in v ==> x <= y
    case Maximum => x in v && forall y :: y in v ==> y <= x
    case Total => IsSum(v, x)
    case Mode => false
  }

  // ---------------------------------------------------------------------------------------------
  // One number, and only one

  lemma {:induction false} SameTotals(v: seq<real>, p: seq<real>, q: seq<real>, i: nat)
    requires Totals(v, p) && Totals(v, q) && i <= |v|
    ensures p[i] == q[i]
  {
    if i > 0 {
      SameTotals(v, p, q, i - 1);
    }
  }

  /** The description of an aggregate fits one number only. */
  lemma AggregateIsUnique(agg: Agg, v: seq<real>, x: real, y: real)
    requires IsAggregate(agg, v, x) && IsAggregate(agg, v, y)
    ensures x == y
  {
    match agg
    case Mean =>
      var s :| IsSum(v, s) && x == s / |v| as real;
      var t :| IsSum(v, t) && y == t / |v| as real;
      SumIsUnique(v, s, t);
    case Total =>
      SumIsUnique(v, x, y);
    case Median =>
      MedianIsUnique(v, x, y);
    case _ =>
  }

  lemma SumIsUnique(v: seq<real>, x: real, y: real)
    requires IsSum(v, x) && IsSum(v, y)
    ensures x == y
  {
    var p :| Totals(v, p) && p[|v|] == x;
    var q :| Totals(v, q) && q[|v|] == y;
    SameTotals(v, p, q, |v|);
  }

  lemma MedianIsUnique(v: seq<real>, x: real, y: real)
    requires IsMedian(v, x) && IsMedian(v, y)
    ensures x == y
  {
    hide IsRank;
    var k := |v| / 2;
    if |v| % 2 == 1 {
      RankOrder(A.Le(), v, k, k, x, y);
      RankOrder(A.Le(), v, k, k, y, x);
    } else {
      var a, b :| Middle(v, a, b) && 2.0 * x == a + b;
      var a', b' :| Middle(v, a', b') && 2.0 * y == a' + b';
      RankOrder(A.Le(), v, k - 1, k - 1, a, a');
      RankOrder(A.Le(), v, k - 1, k - 1, a', a);
      RankOrder(A.Le(), v, k, k, b, b');
      RankOrder(A.Le(), v, k, k, b', b);
    }
  }

  /** At least half of the numbers are not above the median, and at least half are not below it. */
  lemma MedianHalves(v: seq<real>, x: real)
    requires IsMedian(v, x)
    ensures 2 * Count(v, AtMost(A.Le(), x)) >= |v| && 2 * Count(v, AtLeast(A.Le(), x)) >= |v|
  {
    var k := |v| / 2;
    if |v| % 2 == 1 {
      Complement(A.Le(), v, x);
    } else {
      var a, b :| Middle(v, a, b) && 2.0 * x == a + b;
      RankOrder(A.Le(), v, k - 1, k, a, b);
      CountImplies(v, AtMost(A.Le(), a), AtMost(A.Le(), x));
      CountImplies(v, AtLeast(A.Le(), b), AtLeast(A.Le(), x));
      Complement(A.Le(), v, b);
    }
  }

  // ---------------------------------------------------------------------------------------------
  // The functions compute it

  lemma {:induction false} SumHasTotals(v: seq<real>) returns (totals: seq<real>)
    ensures Totals(v, totals) && totals[|v|] == O.Sum(v)
  {
    if v == [] {
      totals := [0.0];
    } else {
      var n := |v| - 1;
      var init := SumHasTotals(v[..n]);
      totals := init + [init[n] + v[n]];
    }
  }

  lemma MedianIsMedian(v: seq<real>)
    requires v != []
    ensures IsMedian(v, A.Median(v))
  {
    hide IsRank;
    SortCorrect(A.Le(), v);
    SortedRank(A.Le(), v, |v| / 2);
    if |v| % 2 == 0 {
      SortedRank(A.Le(), v, |v| / 2 - 1);
      var s := Sort(A.Le(), v);
      assert Middle(v, s[|v| / 2 - 1], s[|v| / 2]);
    }
  }

  lemma NamedIsAggregate(agg: Agg, v: seq<real>)
    requires v != [] && !agg.Mode?
    ensures A.Named(Some(JStr(AggName(agg))), v).Some?
    ensures IsAggregate(agg, v, A.Named(Some(JStr(AggName(agg))), v).value)
  {
    hide IsMedian, A.Median, O.Sum;
    match agg
    case Median => MedianIsMedian(v);
    case Mean =>
      var totals := SumHasTotals(v);
      assert IsSum(v, O.Sum(v));
    case Total => var totals := SumHasTotals(v);
    case _ =>
  }

  // ---------------------------------------------------------------------------------------------
  // A column's numbers

  /** The numbers of a column are what its cells read as, null aside. */
  lemma {:induction false} NumbersAreCells(text: Text, cells: seq<Cell>)
    requires WellTyped(Column(IntD, cells)) || WellTyped(Column(FloatD, cells))
    ensures A.CastToFloat(text, cells) == Some(O.Numbers(cells))
  {
    if cells != [] {
      var n := |cells| - 1;
      assert forall i :: 0 <= i < n ==> cells[..n][i] == cells[i];
      assert cells[n] == cells[|cells| - 1];
      NumbersAreCells(text, cells[..n]);
    }
  }

  /** A cell as a number: dates count days, and date-times microseconds, from the first of January 1970. */
  ghost predicate CountsAs(text: Text, c: Cell, x: real) {
    match c
    case DateC(day) => x == (day - Calendar.DaysBefore(1970) - 1) as real
    case StampC(day, micros) =>
      x == ((day - Calendar.DaysBefore(1970) - 1) * 24 * 60 * 60 * 1000000 + micros) as real
    case _ => C.Reads(text, c, x)
  }

  /** Each non-null cell contributes, in order, the number that it counts as. */
  lemma {:induction false} CastCounts(text: Text, cells: seq<Cell>, v: seq<real>)
    requires A.CastToFloat(text, cells) == Some(v)
    ensures |v| == |A.DropNulls(cells)|
    ensures forall k :: 0 <= k < |v| ==> CountsAs(text, A.DropNulls(cells)[k], v[k])
  {
    if cells != [] {
      var n := |cells| - 1;
      CastCounts(text, cells[..n], A.CastToFloat(text, cells[..n]).value);
      C.FloatReads(text, cells[n]);
    }
  }

  /** The strict cast fails exactly when some cell counts as no number. */
  lemma {:induction false} CastFailsExactly(text: Text, cells: seq<Cell>)
    ensures A.CastToFloat(text, cells) == None
            <==> exists i :: 0 <= i < |cells| && cells[i] != Null && forall x :: !CountsAs(text, cells[i], x)
  {
    if cells != [] {
      var n := |cells| - 1;
      CastFailsExactly(text, cells[..n]);
      CountsOnce(text, cells[n]);
      hide CountsAs, A.ToFloat;
      if A.CastToFloat(text, cells[..n]) == None {
        var i :| 0 <= i < n && cells[..n][i] != Null && forall x :: !CountsAs(text, cells[..n][i], x);
        assert cells[i] != Null && forall x :: !CountsAs(text, cells[i], x);
      }
      if i :| 0 <= i < |cells| && cells[i] != Null && forall x :: !CountsAs(text, cells[i], x) {
        assert i < n ==> cells[..n][i] == cells[i];
      }
    }
  }

  lemma CountsOnce(text: Text, c: Cell)
    ensures match A.ToFloat(text, c)
            case Some(x) => CountsAs(text, c, x)
            case None => forall x :: !CountsAs(text, c, x)
  {
    C.FloatReads(text, c);
  }

  // ---------------------------------------------------------------------------------------------
  // In a tree

  /** FILL_AGGREGATE, for every function and every column. */
  lemma FillAggregateMeans(e: Executor, agg: Agg)
    requires e.Valid() && WellTyped(e.frame.cols[e.column])
    ensures var v, r := O.Numbers(e.frame.cols[e.column].cells), e.FillAggregate(Encode(FillAggregate(agg)));
            if agg.Mode? then
              var present := A.DropNulls(e.frame.cols[e.column].cells);
              r == Ok(Scalar(if present == [] then Null else e.mode(present)))
            else if !e.Dtype().IntD? && !e.Dtype().FloatD? then r == Err(NotNumeric)
            else if v == [] then r == Ok(Scalar(Null))
            else exists x :: IsAggregate(agg, v, x)
                             && r == Ok(Scalar(if e.Dtype().IntD? then IntC(Trunc(x)) else RealC(x)))
  {
    hide A.DropNulls, O.Numbers, A.Named, IsAggregate;
    var cells, node := e.frame.cols[e.column].cells, Encode(FillAggregate(agg));
    NumbersDropNulls(cells);
    assert Field(node, "agg") == Some(JStr(AggName(agg)));
    var v := O.Numbers(cells);
    if v != [] && !agg.Mode? {
      NamedIsAggregate(agg, v);
    }
  }

  lemma {:induction false} NumbersDropNulls(cells: seq<Cell>)
    ensures O.Numbers(A.DropNulls(cells)) == O.Numbers(cells)
  {
    if cells != [] {
      var n := |cells| - 1;
      NumbersDropNulls(cells[..n]);
      var d := A.DropNulls(cells[..n]);
      assert (d + [cells[n]])[..|d|] == d;
    }
  }

  /** An aggregate inside a condition, for every function and every column. */
  lemma AggregateOperandMeans(e: Executor, agg: Agg, c: string, row: nat)
    requires e.Valid() && row < e.frame.height
    ensures var r := e.ResolveOperand(Some(EncodeOperand(Aggregate(agg, c))), row);
            if c !in e.frame.cols then r == Err(MissingColumn)
            else
              match A.CastToFloat(e.text, e.frame.cols[c].cells)
              case None => r == Err(CastFailed)
              case Some(v) =>
                if v == [] then r == Ok(Null)
                else if agg.Mode? then r == Ok(e.mode(A.DropNulls(e.frame.cols[c].cells)))
                else exists x :: IsAggregate(agg, v, x) && r == Ok(RealC(x))
  {
    hide A.DropNulls, A.CastToFloat, A.Named, IsAggregate;
    var o := EncodeOperand(Aggregate(agg, c));
    assert Field(o, "agg") == Some(JStr(AggName(agg))) && Field(o, "column") == Some(JStr(c));
    assert HasString(o, "kind", "aggregate");
    if c in e.frame.cols && A.CastToFloat(e.text, e.frame.cols[c].cells).Some? {
      var v := A.CastToFloat(e.text, e.frame.cols[c].cells).value;
      if v != [] && !agg.Mode? {
        NamedIsAggregate(agg, v);
      }
    }
  }
}
