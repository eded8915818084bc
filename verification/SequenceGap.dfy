/**
 * The SEQUENCE_GAP anomaly. The detector reports the values outside the hull of the inliers; the
 * finder later flags the values outside the raw fence. They are two programs for one set.
 */
module SequenceGap {
  import opened Rows
  import opened Sorting
  import opened Values

  /** An identifier split into its letters and its number, or None when the pattern does not match. */
  type Splitter = string -> Option<(string, nat)>

  function Le(): (nat, nat) -> bool {
    (x: nat, y: nat) => x <= y
  }

  function Min(a: int, b: int): int {
    if a <= b then a else b
  }

  // The order statistics both sides read from the sorted numbers.

  function Q1(ds: seq<nat>): nat
    requires ds != []
  {
    ds[|ds| / 4]
  }

  function Q3(ds: seq<nat>): nat
    requires ds != []
  {
    ds[Min(|ds| - 1, 3 * |ds| / 4)]
  }

  function P10(ds: seq<nat>): nat
    requires ds != []
  {
    ds[|ds| / 10]
  }

  function P90(ds: seq<nat>): nat
    requires ds != []
  {
    ds[Min(|ds| - 1, 9 * |ds| / 10)]
  }

  /** Twice the fence: q1 - 1.5 iqr and q3 + 1.5 iqr, or the p10-p90 range when the IQR is zero. */
  function FenceLow2(ds: seq<nat>): int
    requires ds != []
  {
    var iqr := Q3(ds) - Q1(ds);
    if iqr > 0 then 2 * Q1(ds) - 3 * iqr else 2 * P10(ds)
  }

  function FenceHigh2(ds: seq<nat>): int
    requires ds != []
  {
    var iqr := Q3(ds) - Q1(ds);
    if iqr > 0 then 2 * Q3(ds) + 3 * iqr else 2 * P90(ds)
  }

  predicate OutsideFence(ds: seq<nat>, x: nat)
    requires ds != []
  {
    2 * x < FenceLow2(ds) || 2 * x > FenceHigh2(ds)
  }

  // ---------------------------------------------------------------------------------------------
  // The detector

  function Filter(s: seq<nat>, p: nat -> bool): (r: seq<nat>)
    ensures |r| == Count(s, p)
    ensures forall x :: x in r <==> x in s && p(x)
  {
    if s == [] then []
    else
      var init, x := Filter(s[..|s| - 1], p), s[|s| - 1];
      if p(x) then init + [x] else init
  }

  function Inliers(ds: seq<nat>): seq<nat>
    requires ds != []
  {
    Filter(ds, (x: nat) => !OutsideFence(ds, x))
  }

  /** canonical_min and canonical_max. */
  function Canonical(ds: seq<nat>): (nat, nat)
    requires ds != []
  {
    if Q3(ds) - Q1(ds) > 0 then
      var inliers := Inliers(ds);
      if inliers != [] then (inliers[0], inliers[|inliers| - 1]) else (ds[0], ds[|ds| - 1])
    else (P10(ds), P90(ds))
  }

  predicate OutsideHull(ds: seq<nat>, x: nat)
    requires ds != []
  {
    x < Canonical(ds).0 || x > Canonical(ds).1
  }

  function HullTest(ds: seq<nat>): nat -> bool
    requires ds != []
  {
    (x: nat) => OutsideHull(ds, x)
  }

  function OutOfRange(ds: seq<nat>): seq<nat>
    requires ds != []
  {
    Filter(ds, HullTest(ds))
  }

  /** What the anomaly record says: the prefix, how many values, and whether they are values or holes. */
  datatype Gap = Gap(prefix: string, count: nat, outOfRange: bool)

  function Matches(cells: seq<Cell>, split: Splitter): seq<(string, nat)> {
    if cells == [] then []
    else
      var init, c := Matches(cells[..|cells| - 1], split), cells[|cells| - 1];
      if c.StrC? && split(c.s).Some? then init + [split(c.s).value] else init
  }

  function NumbersOf(matches: seq<(string, nat)>, prefix: string): (r: seq<nat>)
    ensures |r| == Count(matches, (m: (string, nat)) => m.0 == prefix)
  {
    if matches == [] then []
    else
      var init, m := NumbersOf(matches[..|matches| - 1], prefix), matches[|matches| - 1];
      if m.0 == prefix then init + [m.1] else init
  }

  function NonNull(cells: seq<Cell>): nat {
    Count(cells, (c: Cell) => !c.Null?)
  }

  function Distinct(cells: seq<Cell>): nat {
    |set c | c in cells && !c.Null?|
  }

  /** `most_common(1)`: the earliest prefix among those that occur most often. */
  function Dominant(matches: seq<(string, nat)>, k: nat): (r: string)
    requires 0 < k <= |matches|
    ensures exists i :: 0 <= i < k && matches[i].0 == r
    ensures forall i :: 0 <= i < k ==> |NumbersOf(matches, matches[i].0)| <= |NumbersOf(matches, r)|
  {
    if k == 1 then matches[0].0
    else
      var best := Dominant(matches, k - 1);
      if |NumbersOf(matches, matches[k - 1].0)| > |NumbersOf(matches, best)| then matches[k - 1].0 else best
  }

  /** The holes between the smallest and the largest number. */
  function Holes(ds: seq<nat>): set<nat>
    requires ds != []
  {
    set x: nat | ds[0] <= x <= ds[|ds| - 1] && x !in ds
  }

  /** `_detect_anomalies`, section 15, for one string column. */
  function Detect(cells: seq<Cell>, split: Splitter): Option<Gap> {
    var n, unique, matches := NonNull(cells), Distinct(cells), Matches(cells, split);
    if n < 4 || 100 * unique < 95 * n || 100 * |matches| < 80 * n || matches == [] then None
    else
      var prefix := Dominant(matches, |matches|);
      var nums := NumbersOf(matches, prefix);
      if 100 * |nums| < 80 * n || |nums| < 2 then None
      else
        var ds := Sort(Le(), nums);
        SortCorrect(Le(), nums);
        if OutOfRange(ds) != [] then Some(Gap(prefix, |OutOfRange(ds)|, true))
        else if Holes(ds) == {} then None
        else Some(Gap(prefix, |Holes(ds)|, false))
  }

  // ---------------------------------------------------------------------------------------------
  // The finder

  predicate Carries(c: Cell, split: Splitter, prefix: string) {
    c.StrC? && split(c.s).Some? && split(c.s).value.0 == prefix
  }

  predicate GapRow(c: Cell, split: Splitter, prefix: string, ds: seq<nat>) {
    Carries(c, split, prefix) && ds != [] && OutsideFence(ds, split(c.s).value.1)
  }

  function GapTest(split: Splitter, prefix: string, ds: seq<nat>): Cell -> bool {
    c => GapRow(c, split, prefix, ds)
  }

  function SortedNumbers(cells: seq<Cell>, split: Splitter, prefix: string): seq<nat> {
    Sort(Le(), NumbersOf(Matches(cells, split), prefix))
  }

  function FinderRows(cells: seq<Cell>, split: Splitter, prefix: string): seq<nat> {
    var ds := SortedNumbers(cells, split, prefix);
    Where(cells, GapTest(split, prefix, ds))
  }

  /** `_find_sequence_gap`; `prefix` is what precedes the first bar in the anomaly's original value. */
  method FindSequenceGap(cells: seq<Cell>, split: Splitter, prefix: string) returns (rows: seq<nat>)
    ensures rows == FinderRows(cells, split, prefix)
  {
    var nums: seq<nat> := [];
    for i := 0 to |cells|
      invariant nums == NumbersOf(Matches(cells[..i], split), prefix)
    {
      assert cells[..i + 1][..i] == cells[..i];
      if cells[i].StrC? && split(cells[i].s).Some? && split(cells[i].s).value.0 == prefix {
        nums := nums + [split(cells[i].s).value.1];
      }
    }
    assert cells[..|cells|] == cells;
    SortCorrect(Le(), nums);
    rows := [];
    if nums == [] {
      CountBound(cells, GapTest(split, prefix, []));
      return;
    }
    var ds := Sort(Le(), nums);
    rows := FlagOutside(cells, split, prefix, ds, FenceLow2(ds), FenceHigh2(ds));
  }

  method FlagOutside(cells: seq<Cell>, split: Splitter, prefix: string, ghost ds: seq<nat>, low2: int, high2: int)
    returns (rows: seq<nat>)
    requires ds != [] && low2 == FenceLow2(ds) && high2 == FenceHigh2(ds)
    ensures rows == Where(cells, GapTest(split, prefix, ds))
  {
    rows := [];
    ghost var test := GapTest(split, prefix, ds);
    assert forall c: Cell :: test(c) <==> Carries(c, split, prefix)
                                          && (2 * split(c.s).value.1 < low2 || 2 * split(c.s).value.1 > high2);
    for i := 0 to |cells|
      invariant rows == Where(cells[..i], test)
    {
      assert cells[..i + 1][..i] == cells[..i];
      if cells[i].StrC? && split(cells[i].s).Some? && split(cells[i].s).value.0 == prefix {
        var num := split(cells[i].s).value.1;
        if 2 * num < low2 || 2 * num > high2 {
          rows := rows + [i];
        }
      }
    }
    assert cells[..|cells|] == cells;
  }

  // ---------------------------------------------------------------------------------------------
  // Agreement

  /** Filtering keeps order, so the ends of a filtered sorted list bound all of it. */
  lemma {:induction false} FilterSorted(ds: seq<nat>, p: nat -> bool)
    requires Sorted(Le(), ds)
    ensures Sorted(Le(), Filter(ds, p))
  {
    if ds != [] {
      FilterSorted(ds[..|ds| - 1], p);
      var init := Filter(ds[..|ds| - 1], p);
      forall i | 0 <= i < |init|
        ensures init[i] <= ds[|ds| - 1]
      {
        assert init[i] in ds[..|ds| - 1];
        var k :| 0 <= k < |ds| - 1 && ds[k] == init[i];
        assert Le()(ds[k], ds[|ds| - 1]);
      }
    }
  }

  /** On every sorted list the hull and the fence exclude the same numbers. */
  lemma HullIsFence(ds: seq<nat>, x: nat)
    requires ds != [] && Sorted(Le(), ds) && x in ds
    ensures OutsideHull(ds, x) <==> OutsideFence(ds, x)
  {
    if Q3(ds) - Q1(ds) > 0 {
      var p := (x: nat) => !OutsideFence(ds, x);
      var inliers := Inliers(ds);
      FilterSorted(ds, p);
      assert Q1(ds) in inliers;
      var n := |inliers| - 1;
      assert inliers[0] in inliers && inliers[n] in inliers;
      if !OutsideFence(ds, x) {
        assert x in inliers;
        var k :| 0 <= k < |inliers| && inliers[k] == x;
        assert k > 0 ==> Le()(inliers[0], inliers[k]);
        assert k < n ==> Le()(inliers[k], inliers[n]);
      }
    }
  }

  lemma {:induction false} MatchesCount(cells: seq<Cell>, split: Splitter, prefix: string, p: nat -> bool)
    ensures Count(NumbersOf(Matches(cells, split), prefix), p)
            == Count(cells, (c: Cell) => Carries(c, split, prefix) && p(split(c.s).value.1))
  {
    if cells != [] {
      MatchesCount(cells[..|cells| - 1], split, prefix, p);
    }
  }

  /** The finder flags as many rows as the sorted list holds numbers outside the hull. */
  lemma RowsAreOutOfRange(cells: seq<Cell>, split: Splitter, prefix: string)
    requires SortedNumbers(cells, split, prefix) != []
    ensures |FinderRows(cells, split, prefix)| == |OutOfRange(SortedNumbers(cells, split, prefix))|
  {
    var nums := NumbersOf(Matches(cells, split), prefix);
    var ds := Sort(Le(), nums);
    SortCorrect(Le(), nums);
    var p := (x: nat) => OutsideFence(ds, x);
    forall i | 0 <= i < |ds|
      ensures HullTest(ds)(ds[i]) == p(ds[i])
    {
      HullIsFence(ds, ds[i]);
    }
    CountSame(ds, HullTest(ds), p);
    CountMultiset(ds, nums, p);
    MatchesCount(cells, split, prefix, p);
    CountSame(cells, (c: Cell) => Carries(c, split, prefix) && p(split(c.s).value.1), GapTest(split, prefix, ds));
  }

  /** A record of out-of-range values touches exactly that many rows; a record of holes touches none. */
  lemma DetectorMatchesFinder(cells: seq<Cell>, split: Splitter)
    requires Detect(cells, split).Some?
    ensures var gap := Detect(cells, split).value;
            && gap.count > 0
            && |FinderRows(cells, split, gap.prefix)| == (if gap.outOfRange then gap.count else 0)
  {
    var gap := Detect(cells, split).value;
    SortCorrect(Le(), NumbersOf(Matches(cells, split), gap.prefix));
    RowsAreOutOfRange(cells, split, gap.prefix);
  }

  /** The numbers between two positions of a sorted list are not below the one nor above the other. */
  lemma {:induction false} CountOutside(ds: seq<nat>, lo: nat, hi: nat, p: nat -> bool)
    requires lo <= hi < |ds|
    requires forall i :: lo <= i <= hi ==> !p(ds[i])
    ensures Count(ds, p) <= |ds| - (hi - lo + 1)
  {
    assert ds == ds[..lo] + ds[lo..hi + 1] + ds[hi + 1..];
    CountConcat(ds[..lo] + ds[lo..hi + 1], ds[hi + 1..], p);
    CountConcat(ds[..lo], ds[lo..hi + 1], p);
    CountBound(ds[..lo], p);
    CountBound(ds[lo..hi + 1], p);
    CountBound(ds[hi + 1..], p);
  }

  lemma FewerThanHalfOfList(ds: seq<nat>)
    requires ds != [] && Sorted(Le(), ds)
    ensures 2 * |OutOfRange(ds)| < |ds|
  {
    var n := |ds|;
    var wide := Q3(ds) - Q1(ds) > 0;
    var lo, hi := if wide then n / 4 else n / 10, if wide then Min(n - 1, 3 * n / 4) else Min(n - 1, 9 * n / 10);
    forall i | lo <= i <= hi
      ensures !HullTest(ds)(ds[i])
    {
      HullIsFence(ds, ds[i]);
      assert lo < i ==> Le()(ds[lo], ds[i]);
      assert i < hi ==> Le()(ds[i], ds[hi]);
    }
    CountOutside(ds, lo, hi, HullTest(ds));
  }

  /** Strictly fewer than half of the rows that carry the prefix are ever flagged. */
  lemma FewerThanHalf(cells: seq<Cell>, split: Splitter, prefix: string)
    requires SortedNumbers(cells, split, prefix) != []
    ensures 2 * |FinderRows(cells, split, prefix)| < Count(cells, c => Carries(c, split, prefix))
  {
    var nums := NumbersOf(Matches(cells, split), prefix);
    SortCorrect(Le(), nums);
    FewerThanHalfOfList(Sort(Le(), nums));
    RowsAreOutOfRange(cells, split, prefix);
    var all := (x: nat) => true;
    MatchesCount(cells, split, prefix, all);
    CountSame(cells, (c: Cell) => Carries(c, split, prefix) && all(split(c.s).value.1), c => Carries(c, split, prefix));
    AllCounted(nums, all);
  }

  lemma {:induction false} AllCounted(s: seq<nat>, all: nat -> bool)
    requires forall x: nat :: all(x)
    ensures Count(s, all) == |s|
  {
    if s != [] {
      AllCounted(s[..|s| - 1], all);
    }
  }
}
