/** The rule behind SEQUENCE_GAP, said of a column's identifiers and their numbers without sorting them. */
module SequenceRule {
  import opened Ranks
  import opened Rows
  import opened SequenceGap
  import opened Sorting
  import opened Values

  /** `x` stands at the place `share` of the way through the numbers. */
  ghost predicate Quantile(nums: seq<nat>, share: real, x: nat)
    requires share >= 0.0
  {
    exists k: nat :: IsRank(Le(), nums, k, x) && PlaceOf(|nums|, share, k)
  }

  ghost predicate PlaceOf(n: nat, share: real, k: nat) {
    k as real <= share * n as real < (k + 1) as real
  }

  /** The four numbers that set the fence. */
  ghost predicate Quantiles(nums: seq<nat>, q1: nat, q3: nat, p10: nat, p90: nat) {
    Quantile(nums, 0.25, q1) && Quantile(nums, 0.75, q3) && Quantile(nums, 0.1, p10) && Quantile(nums, 0.9, p90)
  }

  /** Over one and a half interquartile ranges outside the quartiles, or, if that range is zero, outside p10 to p90. */
  ghost predicate Outlying(q1: nat, q3: nat, p10: nat, p90: nat, x: nat) {
    var iqr := q3 as real - q1 as real;
    if q1 < q3 then x as real < q1 as real - 1.5 * iqr || x as real > q3 as real + 1.5 * iqr
    else x < p10 || p90 < x
  }

  /** Whether a number is flagged among these. */
  ghost predicate Flagged(nums: seq<nat>, x: nat) {
    exists q1, q3, p10, p90 :: Quantiles(nums, q1, q3, p10, p90) && Outlying(q1, q3, p10, p90, x)
  }

  lemma QuantileIsUnique(nums: seq<nat>, share: real, x: nat, y: nat)
    requires share >= 0.0 && Quantile(nums, share, x) && Quantile(nums, share, y)
    ensures x == y
  {
    hide IsRank;
    var j: nat :| IsRank(Le(), nums, j, x) && PlaceOf(|nums|, share, j);
    var k: nat :| IsRank(Le(), nums, k, y) && PlaceOf(|nums|, share, k);
    RankOrder(Le(), nums, j, k, x, y);
    RankOrder(Le(), nums, k, j, y, x);
  }

  lemma QuantileAt(nums: seq<nat>, share: real, k: nat)
    requires share >= 0.0 && k < |nums| && PlaceOf(|nums|, share, k)
    ensures |Sort(Le(), nums)| == |nums| && Quantile(nums, share, Sort(Le(), nums)[k])
  {
    SortedRank(Le(), nums, k);
  }

  lemma Places(n: nat)
    ensures PlaceOf(n, 0.25, n / 4) && PlaceOf(n, 0.75, 3 * n / 4)
    ensures PlaceOf(n, 0.1, n / 10) && PlaceOf(n, 0.9, 9 * n / 10)
  {
  }

  /** The order statistics that the code reads from the sorted list. */
  lemma SortedQuantiles(nums: seq<nat>)
    requires nums != []
    ensures Sort(Le(), nums) != []
    ensures var ds := Sort(Le(), nums); Quantiles(nums, Q1(ds), Q3(ds), P10(ds), P90(ds))
  {
    var n := |nums|;
    hide Quantile, Sort, PlaceOf;
    Places(n);
    QuantileAt(nums, 0.25, n / 4);
    QuantileAt(nums, 0.75, 3 * n / 4);
    QuantileAt(nums, 0.1, n / 10);
    QuantileAt(nums, 0.9, 9 * n / 10);
  }

  lemma FenceIsRule(nums: seq<nat>, x: nat)
    requires nums != []
    ensures Sort(Le(), nums) != [] && (OutsideFence(Sort(Le(), nums), x) <==> Flagged(nums, x))
  {
    SortedQuantiles(nums);
    var ds := Sort(Le(), nums);
    hide Quantile, Q1, Q3, P10, P90;
    assert OutsideFence(ds, x) <==> Outlying(Q1(ds), Q3(ds), P10(ds), P90(ds), x);
    if Flagged(nums, x) {
      var q1, q3, p10, p90 :| Quantiles(nums, q1, q3, p10, p90) && Outlying(q1, q3, p10, p90, x);
      QuantileIsUnique(nums, 0.25, q1, Q1(ds));
      QuantileIsUnique(nums, 0.75, q3, Q3(ds));
      QuantileIsUnique(nums, 0.1, p10, P10(ds));
      QuantileIsUnique(nums, 0.9, p90, P90(ds));
    }
  }

  /** The finder's rows are exactly those whose identifier has the prefix and a number that the rule flags. */
  lemma FlaggedExactly(cells: seq<Cell>, split: Splitter, prefix: string, i: nat)
    requires i < |cells|
    ensures i in FinderRows(cells, split, prefix)
            <==> && cells[i].StrC? && split(cells[i].s).Some? && split(cells[i].s).value.0 == prefix
                 && Flagged(NumbersOf(Matches(cells, split), prefix), split(cells[i].s).value.1)
  {
    hide Flagged, OutsideFence, Sort, Where;
    var nums, ds := NumbersOf(Matches(cells, split), prefix), SortedNumbers(cells, split, prefix);
    var rows := FinderRows(cells, split, prefix);
    assert i in rows <==> GapTest(split, prefix, ds)(cells[i]) by {
      if i in rows {
        var k :| 0 <= k < |rows| && rows[k] == i;
      }
    }
    if Carries(cells[i], split, prefix) {
      CarriedNumber(cells, split, prefix, i);
      SortCorrect(Le(), nums);
      FenceIsRule(nums, split(cells[i].s).value.1);
    }
  }

  lemma {:induction false} CarriedNumber(cells: seq<Cell>, split: Splitter, prefix: string, i: nat)
    requires i < |cells| && Carries(cells[i], split, prefix)
    ensures split(cells[i].s).value.1 in NumbersOf(Matches(cells, split), prefix)
  {
    var n := |cells| - 1;
    if i < n {
      CarriedNumber(cells[..n], split, prefix, i);
    }
  }

  // ---------------------------------------------------------------------------------------------
  // The detector

  /** The prefix that most identifiers carry, and the first of those that tie. */
  ghost predicate IsDominant(matches: seq<(string, nat)>, prefix: string) {
    exists i :: 0 <= i < |matches| && FirstMost(matches, i, prefix)
  }

  ghost predicate FirstMost(matches: seq<(string, nat)>, i: nat, prefix: string)
    requires i < |matches|
  {
    && matches[i].0 == prefix
    && (forall j :: 0 <= j < i ==> |NumbersOf(matches, matches[j].0)| < |NumbersOf(matches, prefix)|)
    && (forall j :: i <= j < |matches| ==> |NumbersOf(matches, matches[j].0)| <= |NumbersOf(matches, prefix)|)
  }

  lemma {:induction false} DominantIsFirst(matches: seq<(string, nat)>, k: nat) returns (i: nat)
    requires 0 < k <= |matches|
    ensures i < k && matches[i].0 == Dominant(matches, k)
    ensures forall j :: 0 <= j < i ==>
              |NumbersOf(matches, matches[j].0)| < |NumbersOf(matches, Dominant(matches, k))|
    ensures forall j :: 0 <= j < k ==>
              |NumbersOf(matches, matches[j].0)| <= |NumbersOf(matches, Dominant(matches, k))|
  {
    hide NumbersOf;
    if k == 1 {
      i := 0;
    } else {
      i := DominantIsFirst(matches, k - 1);
      if |NumbersOf(matches, matches[k - 1].0)| > |NumbersOf(matches, Dominant(matches, k - 1))| {
        i := k - 1;
      }
    }
  }

  lemma DominantIsUnique(matches: seq<(string, nat)>, p: string, q: string)
    requires IsDominant(matches, p) && IsDominant(matches, q)
    ensures p == q
  {
    hide NumbersOf;
  }

  /** How many rows hold a value. */
  function Present(cells: seq<Cell>): nat {
    if cells == [] then 0 else Present(cells[1..]) + (if cells[0] == Null then 0 else 1)
  }

  lemma {:induction false} PresentIsNonNull(cells: seq<Cell>)
    ensures Present(cells) == NonNull(cells)
  {
    if cells != [] {
      var p := (c: Cell) => !c.Null?;
      assert cells == cells[..1] + cells[1..] && cells[..1][..0] == [];
      CountConcat(cells[..1], cells[1..], p);
      PresentIsNonNull(cells[1..]);
    }
  }

  /** At least four values, 95% of them different, and 80% of them identifiers. */
  ghost predicate LooksSequential(cells: seq<Cell>, split: Splitter) {
    var n := Present(cells) as real;
    && n >= 4.0
    && |set c | c in cells && c != Null| as real >= 0.95 * n
    && |Matches(cells, split)| as real >= 0.8 * n
  }

  /** Numbers that no identifier has, between the smallest and the largest that one has. */
  ghost predicate IsHole(nums: seq<nat>, x: nat) {
    x !in nums && (exists lo :: lo in nums && lo < x) && exists hi :: hi in nums && x < hi
  }

  /**
   * The record that the detector writes, if any: at least four values, 95% of them distinct, 80% identifiers
   * with the dominant prefix; it counts the flagged numbers, or if there is none the holes.
   */
  lemma DetectExactly(cells: seq<Cell>, split: Splitter, prefix: string, flagged: nat -> bool, holes: set<nat>)
    requires Matches(cells, split) != [] ==> IsDominant(Matches(cells, split), prefix)
    requires var nums := NumbersOf(Matches(cells, split), prefix);
             && (forall x: nat {:trigger flagged(x)} :: flagged(x) <==> Flagged(nums, x))
             && (forall x: nat :: x in holes <==> IsHole(nums, x))
    ensures var n, nums := Present(cells) as real, NumbersOf(Matches(cells, split), prefix);
            Detect(cells, split)
            == if !LooksSequential(cells, split) || |nums| as real < 0.8 * n || |nums| < 2 then None
               else if Count(nums, flagged) > 0 then Some(Gap(prefix, Count(nums, flagged), true))
               else if holes != {} then Some(Gap(prefix, |holes|, false))
               else None
  {
    hide Flagged, IsHole, Sort, OutOfRange, Holes, Dominant, IsDominant;
    PresentIsNonNull(cells);
    assert (set c | c in cells && c != Null) == set c | c in cells && !c.Null?;
    var matches := Matches(cells, split);
    var nums := NumbersOf(matches, prefix);
    if matches != [] {
      PrefixIsDominant(matches, prefix);
    }
    if LooksSequential(cells, split) && matches != [] && nums != [] {
      SortCorrect(Le(), nums);
      FlaggedAreOutOfRange(nums, flagged);
      HolesAreHoles(nums, holes);
    }
  }

  lemma PrefixIsDominant(matches: seq<(string, nat)>, prefix: string)
    requires matches != [] && IsDominant(matches, prefix)
    ensures prefix == Dominant(matches, |matches|)
  {
    hide NumbersOf, Dominant;
    var i := DominantIsFirst(matches, |matches|);
    assert FirstMost(matches, i, Dominant(matches, |matches|));
    DominantIsUnique(matches, prefix, Dominant(matches, |matches|));
  }

  lemma FlaggedAreOutOfRange(nums: seq<nat>, flagged: nat -> bool)
    requires nums != [] && forall x: nat {:trigger flagged(x)} :: flagged(x) <==> Flagged(nums, x)
    ensures Sort(Le(), nums) != [] && |OutOfRange(Sort(Le(), nums))| == Count(nums, flagged)
  {
    hide Flagged, OutsideFence, OutsideHull, Sort, Sorted;
    var ds := Sort(Le(), nums);
    SortCorrect(Le(), nums);
    forall i | 0 <= i < |ds|
      ensures HullTest(ds)(ds[i]) == flagged(ds[i])
    {
      HullIsFence(ds, ds[i]);
      FenceIsRule(nums, ds[i]);
    }
    CountSame(ds, HullTest(ds), flagged);
    CountMultiset(ds, nums, flagged);
  }

  lemma SameMembers(nums: seq<nat>, x: nat)
    ensures x in Sort(Le(), nums) <==> x in nums
  {
    SortCorrect(Le(), nums);
    assert x in multiset(nums) <==> x in multiset(Sort(Le(), nums));
  }

  lemma EndsBound(ds: seq<nat>, x: nat)
    requires Sorted(Le(), ds) && x in ds
    ensures ds[0] <= x <= ds[|ds| - 1]
  {
    var i :| 0 <= i < |ds| && ds[i] == x;
    assert i > 0 ==> Le()(ds[0], ds[i]);
    assert i < |ds| - 1 ==> Le()(ds[i], ds[|ds| - 1]);
  }

  lemma HolesAreHoles(nums: seq<nat>, holes: set<nat>)
    requires nums != [] && forall x: nat :: x in holes <==> IsHole(nums, x)
    ensures Sort(Le(), nums) != [] && holes == Holes(Sort(Le(), nums))
  {
    SortCorrect(Le(), nums);
    forall x: nat
      ensures IsHole(nums, x) <==> x in Holes(Sort(Le(), nums))
    {
      OneHole(nums, x);
    }
  }

  lemma OneHole(nums: seq<nat>, x: nat)
    requires nums != []
    ensures Sort(Le(), nums) != []
    ensures IsHole(nums, x) <==> x in Holes(Sort(Le(), nums))
  {
    var ds := Sort(Le(), nums);
    SortCorrect(Le(), nums);
    SameMembers(nums, x);
    SameMembers(nums, ds[0]);
    SameMembers(nums, ds[|ds| - 1]);
    hide Sort, Sorted;
    if IsHole(nums, x) {
      var lo :| lo in nums && lo < x;
      var hi :| hi in nums && x < hi;
      SameMembers(nums, lo);
      SameMembers(nums, hi);
      EndsBound(ds, lo);
      EndsBound(ds, hi);
    }
  }
}
