/** The z-score anomaly: its detector, its row finder, and what approving it does to the column. */
module OutlierDetection {
  import opened Rows
  import opened Values

  const DATE_MIN_YEAR := 1900
  const DATE_MAX_YEAR := 2030

  function Sum(v: seq<real>): real {
    if v == [] then 0.0 else Sum(v[..|v| - 1]) + v[|v| - 1]
  }

  function Mean(v: seq<real>): real
    requires v != []
  {
    Sum(v) / |v| as real
  }

  function Square(x: real): (r: real)
    ensures r >= 0.0
    ensures x != 0.0 ==> r > 0.0
  {
    if x > 0.0 then Product(x, x) else if x < 0.0 then Product(-x, -x) else 0.0
  }

  function Product(a: real, b: real): (r: real)
    requires a > 0.0 && b > 0.0
    ensures r > 0.0
  {
    a * b
  }

  /** The total weight of `v` under `w`. */
  function Mass(v: seq<real>, w: real -> real): real {
    if v == [] then 0.0 else Mass(v[..|v| - 1], w) + w(v[|v| - 1])
  }

  function Gap2(x: real, c: real): (r: real)
    ensures r >= 0.0
    ensures x != c ==> r > 0.0
    ensures x == c ==> r == 0.0
  {
    Square(x - c)
  }

  function Distance(c: real): (w: real -> real)
    ensures forall x {:trigger w(x)} :: w(x) >= 0.0
  {
    x => Gap2(x, c)
  }

  /** The sum of squared deviations of `v` about `c`. */
  function Deviation(v: seq<real>, c: real): real {
    Mass(v, Distance(c))
  }

  function Num(c: Cell): Option<real> {
    match c
    case IntC(n) => Some(n as real)
    case RealC(x) => Some(x)
    case _ => None
  }

  /** `series.cast(Float64).drop_nulls()`. */
  function Numbers(cells: seq<Cell>): seq<real> {
    if cells == [] then []
    else
      var init := Numbers(cells[..|cells| - 1]);
      match Num(cells[|cells| - 1])
      case Some(x) => init + [x]
      case None => init
  }

  /** The two gates both sides share: at least four numbers, and a sample deviation that is not zero. */
  predicate Gates(v: seq<real>) {
    |v| >= 4 && Deviation(v, Mean(v)) != 0.0
  }

  /** |x - mean| / std > 3, squared and multiplied out; std^2 is Deviation / (n - 1). */
  predicate Beyond(v: seq<real>, x: real)
    requires |v| >= 4
  {
    Exceeds(Gap2(x, Mean(v)), (|v| - 1) as real, Deviation(v, Mean(v)))
  }

  predicate Exceeds(gap: real, n1: real, ssd: real) {
    gap * n1 > 9.0 * ssd
  }

  function Abs(x: real): real {
    if x < 0.0 then -x else x
  }

  lemma BeyondIsZScore(v: seq<real>, x: real, std: real)
    requires |v| >= 4 && std > 0.0
    requires std * std * (|v| - 1) as real == Deviation(v, Mean(v))
    ensures Beyond(v, x) <==> Abs(x - Mean(v)) / std > 3.0
  {
    var d := Abs(x - Mean(v));
    assert Gap2(x, Mean(v)) == d * d;
    ZScoreSquared(d, std, (|v| - 1) as real);
  }

  lemma ZScoreSquared(d: real, std: real, m: real)
    requires d >= 0.0 && std > 0.0 && m > 0.0
    ensures d * d * m > 9.0 * (std * std * m) <==> d / std > 3.0
  {
    var z := d / std;
    assert d == z * std;
    assert d * d == z * z * (std * std) by { assert (z * std) * (z * std) == z * z * (std * std); }
    var s := std * std * m;
    PositiveCube(std, m);
    assert d * d * m == z * z * s;
    if z > 3.0 {
      Scale(3.0, z, 3.0);
      Scale(3.0, z, z);
      Scale(9.0, z * z, s);
    } else {
      ScaleWeak(z, 3.0, 3.0);
      ScaleWeak(z, 3.0, z);
      ScaleWeak(z * z, 9.0, s);
    }
  }

  lemma PositiveCube(a: real, b: real)
    requires a > 0.0 && b > 0.0
    ensures a * a * b > 0.0
  {
    Scale(0.0, a, b);
    Scale(0.0, a * b, a);
  }

  lemma Scale(a: real, b: real, s: real)
    requires a < b && s > 0.0
    ensures a * s < b * s
  {
  }

  lemma ScaleWeak(a: real, b: real, s: real)
    requires a <= b && s >= 0.0
    ensures a * s <= b * s
  {
  }

  function BeyondTest(v: seq<real>): real -> bool
    requires |v| >= 4
  {
    x => Beyond(v, x)
  }

  predicate Flagged(v: seq<real>, c: Cell) {
    Gates(v) && Num(c).Some? && Beyond(v, Num(c).value)
  }

  /** `_detect_anomalies`, section 2: the number of rows whose z-score exceeds 3. */
  function DetectorCount(col: Column): nat {
    var v := Numbers(col.cells);
    if !Gates(v) then 0 else Count(v, BeyondTest(v))
  }

  /** The numeric branch of `_find_outlier`. */
  function FinderRows(cells: seq<Cell>): seq<nat> {
    Where(cells, c => Flagged(Numbers(cells), c))
  }

  /** The gates, and then one test per non-null value against the same mean and deviation. */
  method FlagNumbers(cells: seq<Cell>) returns (rows: seq<nat>)
    ensures rows == FinderRows(cells)
  {
    hide Exceeds, Gap2, Deviation, Mean, Numbers;
    rows := [];
    var series := Numbers(cells);
    ghost var p := (c: Cell) => Flagged(series, c);
    if |series| < 4 {
      CountBound(cells, p);
      return;
    }
    var mean := Mean(series);
    var ssd := Deviation(series, mean);
    if ssd == 0.0 {
      CountBound(cells, p);
      return;
    }
    for i := 0 to |cells|
      invariant rows == Where(cells[..i], p)
    {
      assert cells[..i + 1][..i] == cells[..i];
      var v := Num(cells[i]);
      if v.Some? && Exceeds(Gap2(v.value, mean), (|series| - 1) as real, ssd) {
        rows := rows + [i];
      }
    }
    assert cells[..|cells|] == cells;
  }

  /** `_find_outlier`; `year` is the calendar year of a date cell. */
  method FindOutlier(col: Column, year: Cell -> int) returns (rows: seq<nat>)
    requires WellTyped(col)
    ensures col.dtype in {IntD, FloatD} ==> rows == FinderRows(col.cells)
    ensures col.dtype in {DateD, DatetimeD} ==>
              rows == Where(col.cells, (c: Cell) => !c.Null? && (year(c) < 1900 || year(c) > 2030))
    ensures col.dtype !in {IntD, FloatD, DateD, DatetimeD} ==> rows == []
  {
    hide FinderRows;
    assert DATE_MIN_YEAR == 1900 && DATE_MAX_YEAR == 2030;
    rows := [];
    if col.dtype in {IntD, FloatD} {
      rows := FlagNumbers(col.cells);
    } else if col.dtype in {DateD, DatetimeD} {
      var p := (c: Cell) => !c.Null? && (year(c) < DATE_MIN_YEAR || year(c) > DATE_MAX_YEAR);
      for i := 0 to |col.cells|
        invariant rows == Where(col.cells[..i], p)
      {
        assert col.cells[..i + 1][..i] == col.cells[..i];
        var v := col.cells[i];
        if !v.Null? && (year(v) < DATE_MIN_YEAR || year(v) > DATE_MAX_YEAR) {
          rows := rows + [i];
        }
      }
      assert col.cells[..|col.cells|] == col.cells;
    }
  }

  /** Counting a predicate over the numbers is counting it over the non-null cells. */
  lemma {:induction false} NumbersCount(cells: seq<Cell>, p: real -> bool)
    ensures Count(Numbers(cells), p) == Count(cells, c => Num(c).Some? && p(Num(c).value))
  {
    if cells != [] {
      NumbersCount(cells[..|cells| - 1], p);
    }
  }

  /** The count on the anomaly record is the number of rows the decision will touch. */
  lemma DetectorMatchesFinder(col: Column)
    ensures DetectorCount(col) == |FinderRows(col.cells)|
  {
    var v := Numbers(col.cells);
    var flag := (c: Cell) => Flagged(v, c);
    if Gates(v) {
      var q := BeyondTest(v);
      NumbersCount(col.cells, q);
      CountSame(col.cells, (c: Cell) => Num(c).Some? && q(Num(c).value), flag);
    } else {
      CountBound(col.cells, flag);
    }
  }

  // ---------------------------------------------------------------------------------------------
  // How many rows can be flagged

  /** `k` copies of `t`, added up. */
  function Times(k: nat, t: real): real {
    if k == 0 then 0.0 else Times(k - 1, t) + t
  }

  lemma {:induction false} TimesIsProduct(k: nat, t: real)
    ensures Times(k, t) == k as real * t
  {
    if k > 0 {
      TimesIsProduct(k - 1, t);
      assert (k - 1) as real * t + t == ((k - 1) as real + 1.0) * t;
    }
  }

  /** Moving every flagged value to a place of weight 0 removes more than `t` for each of them. */
  lemma {:induction false} FlaggedMass(v: seq<real>, moved: seq<real>, p: real -> bool, w: real -> real, t: real)
    requires |moved| == |v|
    requires forall i :: 0 <= i < |v| ==> if p(v[i]) then w(moved[i]) == 0.0 && w(v[i]) > t else moved[i] == v[i]
    ensures Mass(moved, w) + Times(Count(v, p), t) <= Mass(v, w)
    ensures Count(v, p) > 0 ==> Mass(moved, w) + Times(Count(v, p), t) < Mass(v, w)
  {
    if v != [] {
      FlaggedMass(v[..|v| - 1], moved[..|v| - 1], p, w, t);
    }
  }

  lemma {:induction false} MassNonNegative(v: seq<real>, w: real -> real)
    requires forall x :: w(x) >= 0.0
    ensures Mass(v, w) >= 0.0
  {
    if v != [] {
      MassNonNegative(v[..|v| - 1], w);
    }
  }

  /** The values after every flagged number is moved to `m`. */
  function Replaced(v: seq<real>, p: real -> bool, m: real): (r: seq<real>)
    ensures |r| == |v|
  {
    seq(|v|, i requires 0 <= i < |v| => if p(v[i]) then m else v[i])
  }

  /** At most n - 1 of every 9 values can lie beyond three sample deviations. */
  lemma FlaggedBound(cells: seq<Cell>)
    requires Gates(Numbers(cells))
    ensures 9 * |FinderRows(cells)| < |Numbers(cells)| - 1
    ensures |Numbers(cells)| <= 10 ==> FinderRows(cells) == []
  {
    var v := Numbers(cells);
    DetectorMatchesFinder(Column(FloatD, cells));
    MassNonNegative(v, Distance(Mean(v)));
    FewFlagged(v, Mean(v), Distance(Mean(v)), BeyondTest(v), (|v| - 1) as real, Deviation(v, Mean(v)));
  }

  lemma FewFlagged(v: seq<real>, m: real, w: real -> real, p: real -> bool, n1: real, ssd: real)
    requires Mass(v, w) == ssd > 0.0 && n1 > 0.0 && w(m) == 0.0
    requires forall x :: w(x) >= 0.0
    requires forall x :: p(x) ==> w(x) * n1 > 9.0 * ssd
    ensures Count(v, p) > 0 ==> (9 * Count(v, p)) as real < n1
  {
    var t := 9.0 * ssd / n1;
    assert t * n1 == 9.0 * ssd;
    forall x | p(x)
      ensures w(x) > t
    {
      Cancel(t, w(x), n1);
    }
    FlaggedMass(v, Replaced(v, p, m), p, w, t);
    MassNonNegative(Replaced(v, p, m), w);
    TimesIsProduct(Count(v, p), t);
    if Count(v, p) > 0 {
      TooMany(Count(v, p), t, ssd, n1);
    }
  }

  lemma TooMany(k: nat, t: real, ssd: real, n1: real)
    requires ssd > 0.0 && n1 > 0.0 && t * n1 == 9.0 * ssd && k as real * t < ssd
    ensures (9 * k) as real < n1
  {
    Scale(k as real * t, ssd, n1);
    assert k as real * t * n1 == k as real * (t * n1);
    assert k as real * (9.0 * ssd) == (9 * k) as real * ssd;
    Cancel((9 * k) as real, n1, ssd);
  }

  lemma Cancel(a: real, b: real, s: real)
    requires s > 0.0 && a * s < b * s
    ensures a < b
  {
    if a >= b {
      ScaleWeak(b, a, s);
    }
  }

  /** The bound is tight in n: eleven values can hold one flagged value. */
  lemma ElevenValuesCanFlag()
    ensures FinderRows(Zeros(10) + [RealC(1.0)]) == [10]
  {
    var cells := Zeros(10) + [RealC(1.0)];
    var v := Numbers(cells);
    ZerosNumbers(10);
    assert cells[..10] == Zeros(10);
    assert v[..10] == ZeroReals(10);
    ZerosMass(10, Distance(1.0 / 11.0));
    TimesIsProduct(10, Distance(1.0 / 11.0)(0.0));
    SquareIsProduct(0.0 - 1.0 / 11.0);
    SquareIsProduct(1.0 - 1.0 / 11.0);
    assert Deviation(v, Mean(v)) == 10.0 / 11.0;
    assert !Flagged(v, RealC(0.0));
    assert Flagged(v, RealC(1.0));
    CountBound(Zeros(10), c => Flagged(v, c));
    assert FinderRows(cells) == Where(Zeros(10), c => Flagged(v, c)) + [10];
  }

  function Zeros(n: nat): seq<Cell> {
    seq(n, i => RealC(0.0))
  }

  function ZeroReals(n: nat): seq<real> {
    seq(n, i => 0.0)
  }

  lemma {:induction false} ZerosNumbers(n: nat)
    ensures Numbers(Zeros(n)) == ZeroReals(n)
  {
    if n > 0 {
      ZerosNumbers(n - 1);
      assert Zeros(n)[..n - 1] == Zeros(n - 1);
      assert ZeroReals(n) == ZeroReals(n - 1) + [0.0];
    }
  }

  lemma {:induction false} ZerosMass(n: nat, w: real -> real)
    ensures Sum(ZeroReals(n)) == 0.0
    ensures Mass(ZeroReals(n), w) == Times(n, w(0.0))
  {
    if n > 0 {
      ZerosMass(n - 1, w);
      assert ZeroReals(n)[..n - 1] == ZeroReals(n - 1);
    }
  }

  // ---------------------------------------------------------------------------------------------
  // Approving the anomaly

  /** What the squared distance to `c` adds to the squared distance to `m`. */
  function Shift(c: real, m: real): real -> real {
    x => Slope(c, m) * x + Level(c, m)
  }

  function Slope(c: real, m: real): real {
    2.0 * (m - c)
  }

  function Level(c: real, m: real): real {
    Gap2(m, c) - Slope(c, m) * m
  }

  lemma DistanceShifts(c: real, m: real)
    ensures forall x {:trigger Distance(c)(x)} :: Distance(c)(x) == Distance(m)(x) + Shift(c, m)(x)
  {
    hide Gap2, Slope, Level;
    forall x
      ensures Distance(c)(x) == Distance(m)(x) + Shift(c, m)(x)
    {
      GapShifts(x, c, m);
    }
  }

  lemma GapShifts(x: real, c: real, m: real)
    ensures Gap2(x, c) == Gap2(x, m) + (Slope(c, m) * x + Level(c, m))
  {
    SquareIsProduct(x - c);
    SquareIsProduct(x - m);
    SquareIsProduct(m - c);
  }

  lemma SquareIsProduct(x: real)
    ensures Square(x) == x * x
  {
  }

  lemma {:induction false} MassSplits(v: seq<real>, w: real -> real, w1: real -> real, w2: real -> real)
    requires forall x {:trigger w(x)} :: w(x) == w1(x) + w2(x)
    ensures Mass(v, w) == Mass(v, w1) + Mass(v, w2)
  {
    if v != [] {
      MassSplits(v[..|v| - 1], w, w1, w2);
    }
  }

  lemma {:induction false} MassOfLine(v: seq<real>, e: real, q: real, w: real -> real)
    requires forall x {:trigger w(x)} :: w(x) == e * x + q
    ensures Mass(v, w) == e * Sum(v) + Times(|v|, q)
  {
    if v != [] {
      MassOfLine(v[..|v| - 1], e, q, w);
      Distribute(e, Sum(v[..|v| - 1]), v[|v| - 1]);
    }
  }

  lemma Distribute(e: real, a: real, b: real)
    ensures e * (a + b) == e * a + e * b
  {
  }

  /** A column deviates least about its own mean. */
  lemma MeanMinimises(v: seq<real>, c: real)
    requires v != []
    ensures Deviation(v, Mean(v)) <= Deviation(v, c)
  {
    DistanceShifts(c, Mean(v));
    MassSplits(v, Distance(c), Distance(Mean(v)), Shift(c, Mean(v)));
    ShiftAtMean(v, c);
  }

  lemma ShiftAtMean(v: seq<real>, c: real)
    requires v != []
    ensures Mass(v, Shift(c, Mean(v))) >= 0.0
  {
    var m := Mean(v);
    MassOfLine(v, Slope(c, m), Level(c, m), Shift(c, m));
    TimesIsProduct(|v|, Level(c, m));
    Balance(Slope(c, m), Sum(v), |v| as real, m, Gap2(m, c));
  }

  lemma Balance(e: real, s: real, n: real, m: real, q: real)
    requires n > 0.0 && m == s / n && q >= 0.0
    ensures e * s + n * (q - e * m) >= 0.0
  {
    assert n * m == s;
    assert n * (q - e * m) == n * q - e * (n * m);
    ScaleWeak(0.0, q, n);
  }

  /** The last cell's share of the numbers and of their mass. */
  lemma LastMass(cells: seq<Cell>, w: real -> real)
    requires cells != []
    ensures var n, last := |cells| - 1, Num(cells[|cells| - 1]);
            && |Numbers(cells)| == |Numbers(cells[..n])| + (if last.Some? then 1 else 0)
            && Mass(Numbers(cells), w) == Mass(Numbers(cells[..n]), w) + (if last.Some? then w(last.value) else 0.0)
  {
    var init := Numbers(cells[..|cells| - 1]);
    match Num(cells[|cells| - 1])
    case Some(x) => assert (init + [x])[..|init|] == init;
    case None =>
  }

  /** Some cells, nulls among them, now hold `m`. */
  ghost predicate Moved(before: seq<Cell>, after: seq<Cell>, m: real) {
    && |after| == |before|
    && forall i :: 0 <= i < |before| ==> after[i] == before[i] || after[i] == RealC(m)
  }

  /** Nothing but numbers was moved. */
  ghost predicate KeepsOthers(before: seq<Cell>, after: seq<Cell>)
    requires |after| == |before|
  {
    forall i :: 0 <= i < |before| && Num(before[i]).None? ==> after[i] == before[i]
  }

  ghost predicate DropsSome(before: seq<Cell>, after: seq<Cell>, m: real, w: real -> real)
    requires |after| == |before|
  {
    exists i :: 0 <= i < |before| && Drops(before[i], after[i], m, w)
  }

  predicate Drops(before: Cell, after: Cell, m: real, w: real -> real) {
    after == RealC(m) && Num(before).Some? && w(Num(before).value) > 0.0
  }

  lemma DropsLast(before: seq<Cell>, after: seq<Cell>, m: real, w: real -> real)
    requires |after| == |before| > 0
    ensures var n := |before| - 1;
            DropsSome(before, after, m, w)
            ==> DropsSome(before[..n], after[..n], m, w) || Drops(before[n], after[n], m, w)
  {
    hide Drops;
    if DropsSome(before, after, m, w) {
      var i :| 0 <= i < |before| && Drops(before[i], after[i], m, w);
      assert i < |before| - 1 ==> Drops(before[..|before| - 1][i], after[..|before| - 1][i], m, w);
    }
  }

  /** Moving cells to a place of weight 0 adds no mass, and removes some if one of them had some. */
  lemma {:induction false} MovedMass(before: seq<Cell>, after: seq<Cell>, m: real, w: real -> real)
    requires Moved(before, after, m) && w(m) == 0.0 && forall x :: w(x) >= 0.0
    ensures |Numbers(after)| >= |Numbers(before)|
    ensures KeepsOthers(before, after) ==> |Numbers(after)| == |Numbers(before)|
    ensures Mass(Numbers(after), w) <= Mass(Numbers(before), w)
    ensures DropsSome(before, after, m, w) ==> Mass(Numbers(after), w) < Mass(Numbers(before), w)
  {
    if before != [] {
      var n := |before| - 1;
      MovedMass(before[..n], after[..n], m, w);
      LastMass(before, w);
      LastMass(after, w);
      hide Numbers, Mass;
      DropsLast(before, after, m, w);
    }
  }

  /**
   * Putting the mean into every flagged row, and into any other rows, nulls included, strictly tightens the
   * column about its own new mean.
   */
  lemma ApprovalTightens(cells: seq<Cell>, after: seq<Cell>)
    requires FinderRows(cells) != [] && Numbers(cells) != [] && Moved(cells, after, Mean(Numbers(cells)))
    requires forall r :: r in FinderRows(cells) ==> r < |after| && after[r] == RealC(Mean(Numbers(cells)))
    ensures Numbers(after) != []
    ensures KeepsOthers(cells, after) ==> |Numbers(after)| == |Numbers(cells)|
    ensures Deviation(Numbers(after), Mean(Numbers(after))) < Deviation(Numbers(cells), Mean(Numbers(cells)))
  {
    var v, m, r := Numbers(cells), Mean(Numbers(cells)), FinderRows(cells)[0];
    assert Flagged(v, cells[r]);
    assert r in FinderRows(cells);
    FlaggedDrops(v, cells[r], after[r]);
    assert DropsSome(cells, after, m, Distance(m));
    MovedMass(cells, after, m, Distance(m));
    MeanMinimises(Numbers(after), m);
  }

  lemma FlaggedDrops(v: seq<real>, before: Cell, after: Cell)
    requires v != [] && Flagged(v, before) && after == RealC(Mean(v))
    ensures Drops(before, after, Mean(v), Distance(Mean(v)))
  {
    hide Gap2, Mean;
    MassNonNegative(v, Distance(Mean(v)));
    Cancel(0.0, Gap2(Num(before).value, Mean(v)), (|v| - 1) as real);
  }
}
