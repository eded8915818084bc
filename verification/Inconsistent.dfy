/** The INCONSISTENT anomaly: rare values of a low-cardinality string column. */
module Inconsistent {
  import opened Rows
  import opened ValueCounts
  import opened Values

  function Strings(cells: seq<Cell>): seq<string> {
    if cells == [] then []
    else
      var init, c := Strings(cells[..|cells| - 1]), cells[|cells| - 1];
      if c.StrC? then init + [c.s] else init
  }

  function Max(a: int, b: int): int {
    if a >= b then a else b
  }

  /** A value is common from 1% of the rows on, and never below two occurrences. */
  function Threshold(total: nat): nat {
    Max(2, total / 100)
  }

  function Rare(vc: seq<(string, nat)>, total: nat): seq<(string, nat)> {
    if vc == [] then []
    else
      var init, e := Rare(vc[..|vc| - 1], total), vc[|vc| - 1];
      if e.1 < Threshold(total) then init + [e] else init
  }

  /** `value_counts(sort=True)`: most frequent first. */
  ghost predicate Descending(vc: seq<(string, nat)>) {
    forall i, j :: 0 <= i < j < |vc| ==> vc[i].1 >= vc[j].1
  }

  datatype Finding = Finding(count: nat, suggestion: Option<string>)

  predicate Gates(vc: seq<(string, nat)>, total: nat) {
    total >= 10 && |vc| <= 15 && 10 * |vc| < total
  }

  /** The first entry at or above the threshold. */
  function FirstCommon(vc: seq<(string, nat)>, total: nat): Option<string> {
    if vc == [] then None
    else if vc[0].1 >= Threshold(total) then Some(vc[0].0)
    else FirstCommon(vc[1..], total)
  }

  /** `_detect_anomalies`, section 5, on the value count `vc` of the column's strings. */
  function Detect(vc: seq<(string, nat)>, total: nat): Option<Finding> {
    if !Gates(vc, total) then None
    else
      var rare := Rare(vc, total);
      if rare == [] then None else Some(Finding(Total(rare), FirstCommon(vc, total)))
  }

  function RareValues(vc: seq<(string, nat)>, total: nat): set<string> {
    set i | 0 <= i < |vc| && vc[i].1 < Threshold(total) :: vc[i].0
  }

  function Among(values: set<string>): Cell -> bool {
    (c: Cell) => c.StrC? && c.s in values
  }

  /** `_find_inconsistent`. */
  function FinderRows(cells: seq<Cell>, vc: seq<(string, nat)>): seq<nat> {
    var total := |Strings(cells)|;
    if total < 10 then [] else Where(cells, Among(RareValues(vc, total)))
  }

  // ---------------------------------------------------------------------------------------------

  /** The suggestion is never null: some value always reaches the threshold. */
  lemma SuggestionExists(vc: seq<(string, nat)>, values: seq<string>)
    requires IsValueCounts(vc, values) && Descending(vc) && Gates(vc, |values|)
    ensures vc != [] && FirstCommon(vc, |values|) == Some(vc[0].0) && vc[0].1 >= Threshold(|values|)
  {
    TotalIsLength(vc, values);
    Pigeonhole(|vc|, |values|);
    TopReaches(vc, Threshold(|values|));
  }

  lemma TopReaches(vc: seq<(string, nat)>, t: nat)
    requires Descending(vc) && t > 0 && |vc| * (t - 1) < Total(vc)
    ensures vc != [] && vc[0].1 >= t
  {
    if vc != [] && vc[0].1 < t {
      TotalBound(vc, t - 1);
    }
  }

  /** Fifteen values below the threshold cannot fill the column. */
  lemma Pigeonhole(n: nat, total: nat)
    requires n <= 15 && 10 * n < total
    ensures n * (Threshold(total) - 1) < total
  {
    if Threshold(total) > 2 {
      Multiply(n, 15, total / 100 - 1);
    }
  }

  lemma Multiply(a: nat, b: nat, c: nat)
    requires a <= b
    ensures a * c <= b * c
  {
  }

  lemma {:induction false} TotalBound(vc: seq<(string, nat)>, m: nat)
    requires forall i :: 0 <= i < |vc| ==> vc[i].1 <= m
    ensures Total(vc) <= |vc| * m
  {
    if vc != [] {
      var n := |vc| - 1;
      TotalBound(vc[..n], m);
      assert (n + 1) * m == n * m + m;
    }
  }

  function Holds(v: string): Cell -> bool {
    c => c == StrC(v)
  }

  lemma {:induction false} OccurrencesAreRows(cells: seq<Cell>, v: string)
    ensures Occurrences(Strings(cells), v) == Count(cells, Holds(v))
  {
    if cells != [] {
      OccurrencesAreRows(cells[..|cells| - 1], v);
    }
  }

  lemma {:induction false} StringsAreRows(cells: seq<Cell>, all: Cell -> bool)
    requires forall c: Cell :: all(c) <==> c.StrC?
    ensures |Strings(cells)| == Count(cells, all)
  {
    if cells != [] {
      StringsAreRows(cells[..|cells| - 1], all);
    }
  }

  /** Rows that hold one more value are the rows that hold it and the rows already counted. */
  lemma {:induction false} AmongOneMore(cells: seq<Cell>, values: set<string>, v: string)
    requires v !in values
    ensures Count(cells, Among(values + {v})) == Count(cells, Among(values)) + Count(cells, Holds(v))
  {
    if cells != [] {
      AmongOneMore(cells[..|cells| - 1], values, v);
    }
  }

  lemma RareValuesStep(vc: seq<(string, nat)>, total: nat)
    requires vc != []
    requires forall i, j :: 0 <= i < j < |vc| ==> vc[i].0 != vc[j].0
    ensures var n := |vc| - 1;
            && vc[n].0 !in RareValues(vc[..n], total)
            && RareValues(vc, total)
               == RareValues(vc[..n], total) + (if vc[n].1 < Threshold(total) then {vc[n].0} else {})
  {
    var n := |vc| - 1;
    assert forall i :: 0 <= i < n ==> vc[..n][i] == vc[i];
  }

  lemma {:induction false} RareRows(cells: seq<Cell>, vc: seq<(string, nat)>, total: nat)
    requires forall i, j :: 0 <= i < j < |vc| ==> vc[i].0 != vc[j].0
    requires forall i :: 0 <= i < |vc| ==> vc[i].1 == Occurrences(Strings(cells), vc[i].0)
    ensures Count(cells, Among(RareValues(vc, total))) == Total(Rare(vc, total))
  {
    if vc == [] {
      CountBound(cells, Among(RareValues(vc, total)));
    } else {
      var n := |vc| - 1;
      var before := RareValues(vc[..n], total);
      RareRows(cells, vc[..n], total);
      RareValuesStep(vc, total);
      if vc[n].1 < Threshold(total) {
        AmongOneMore(cells, before, vc[n].0);
        OccurrencesAreRows(cells, vc[n].0);
      } else {
        assert RareValues(vc, total) == before;
      }
    }
  }

  /** The count on the record is the number of rows the decision will touch. */
  lemma DetectorMatchesFinder(cells: seq<Cell>, vc: seq<(string, nat)>)
    requires IsValueCounts(vc, Strings(cells))
    requires Detect(vc, |Strings(cells)|).Some?
    ensures |FinderRows(cells, vc)| == Detect(vc, |Strings(cells)|).value.count
  {
    RareRows(cells, vc, |Strings(cells)|);
  }

  // ---------------------------------------------------------------------------------------------
  // After approval

  /** Any later normalisation of the strings, such as the strip that closes the decision loop. */
  function Normalised(cells: seq<Cell>, f: string -> Option<string>): (r: seq<Cell>)
    ensures |r| == |cells|
  {
    seq(|cells|, i requires 0 <= i < |cells| =>
      if cells[i].StrC? then (if f(cells[i].s).Some? then StrC(f(cells[i].s).value) else Null) else cells[i])
  }

  lemma {:induction false} CountMonotone(a: seq<Cell>, b: seq<Cell>, p: Cell -> bool, q: Cell -> bool)
    requires |a| == |b|
    requires forall i :: 0 <= i < |a| && p(a[i]) ==> q(b[i])
    ensures Count(a, p) <= Count(b, q)
  {
    if a != [] {
      CountMonotone(a[..|a| - 1], b[..|b| - 1], p, q);
    }
  }

  lemma {:induction false} StringsMember(cells: seq<Cell>, v: string)
    ensures v in Strings(cells) <==> StrC(v) in cells
  {
    if cells != [] {
      var n := |cells| - 1;
      StringsMember(cells[..n], v);
      assert cells == cells[..n] + [cells[n]];
    }
  }

  /** No value of the column is below the threshold. */
  ghost predicate AllCommon(cells: seq<Cell>, threshold: nat) {
    forall v :: StrC(v) in cells ==> Count(cells, Holds(v)) >= threshold
  }

  /** Normalising merges values, so it cannot make one rarer, and it cannot raise the threshold. */
  lemma NormalisedStaysCommon(cells: seq<Cell>, f: string -> Option<string>)
    requires AllCommon(cells, Threshold(|Strings(cells)|))
    ensures var after := Normalised(cells, f);
            |Strings(after)| <= |Strings(cells)| && AllCommon(after, Threshold(|Strings(after)|))
  {
    var after := Normalised(cells, f);
    var all := (c: Cell) => c.StrC?;
    StringsAreRows(cells, all);
    StringsAreRows(after, all);
    CountMonotone(after, cells, all, all);
    forall v | StrC(v) in after
      ensures Count(after, Holds(v)) >= Threshold(|Strings(after)|)
    {
      var i :| 0 <= i < |after| && after[i] == StrC(v);
      assert cells[i] in cells;
      CountMonotone(cells, after, Holds(cells[i].s), Holds(v));
    }
  }

  lemma CommonFlagsNothing(cells: seq<Cell>, vc: seq<(string, nat)>)
    requires IsValueCounts(vc, Strings(cells))
    requires AllCommon(cells, Threshold(|Strings(cells)|))
    ensures FinderRows(cells, vc) == []
  {
    var total := |Strings(cells)|;
    forall i | 0 <= i < |cells|
      ensures !Among(RareValues(vc, total))(cells[i])
    {
      if cells[i].StrC? {
        assert cells[i] in cells;
        OccurrencesAreRows(cells, cells[i].s);
      }
    }
    CountBound(cells, Among(RareValues(vc, total)));
  }

  /** Overwriting the rare rows with the most frequent value leaves only common values. */
  lemma OverwrittenIsCommon(cells: seq<Cell>, vc: seq<(string, nat)>)
    requires IsValueCounts(vc, Strings(cells)) && |Strings(cells)| >= 10
    requires vc != [] && vc[0].1 >= Threshold(|Strings(cells)|)
    ensures AllCommon(Overwrite(cells, FinderRows(cells, vc), StrC(vc[0].0)), Threshold(|Strings(cells)|))
  {
    var after := Overwrite(cells, FinderRows(cells, vc), StrC(vc[0].0));
    forall v | StrC(v) in after
      ensures Count(after, Holds(v)) >= Threshold(|Strings(cells)|)
    {
      EntryIsCommon(cells, vc, v);
      CountMonotone(cells, after, Holds(v), Holds(v));
    }
  }

  lemma OverwriteKeepsTotal(cells: seq<Cell>, vc: seq<(string, nat)>, m: string)
    ensures |Strings(Overwrite(cells, FinderRows(cells, vc), StrC(m)))| == |Strings(cells)|
  {
    var after := Overwrite(cells, FinderRows(cells, vc), StrC(m));
    var all := (c: Cell) => c.StrC?;
    StringsAreRows(cells, all);
    StringsAreRows(after, all);
    CountMonotone(after, cells, all, all);
    CountMonotone(cells, after, all, all);
  }

  /** A value left in the column after the overwrite was common before it. */
  lemma EntryIsCommon(cells: seq<Cell>, vc: seq<(string, nat)>, v: string)
    requires IsValueCounts(vc, Strings(cells)) && |Strings(cells)| >= 10
    requires vc != [] && vc[0].1 >= Threshold(|Strings(cells)|)
    requires StrC(v) in Overwrite(cells, FinderRows(cells, vc), StrC(vc[0].0))
    ensures Count(cells, Holds(v)) >= Threshold(|Strings(cells)|)
    ensures forall i :: 0 <= i < |cells| && cells[i] == StrC(v) ==> i !in FinderRows(cells, vc)
  {
    var total, rows := |Strings(cells)|, FinderRows(cells, vc);
    var after := Overwrite(cells, rows, StrC(vc[0].0));
    OccurrencesAreRows(cells, v);
    var i :| 0 <= i < |after| && after[i] == StrC(v);
    if i !in rows {
      StringsMember(cells, v);
      assert cells[i] in cells;
      assert !Among(RareValues(vc, total))(cells[i]);
      var k :| 0 <= k < |vc| && vc[k].0 == v;
    }
  }

  /**
   * After an approved INCONSISTENT decision, and after any normalisation of the column's strings,
   * the finder has nothing left to flag.
   */
  lemma ApprovalSettles(cells: seq<Cell>, vc: seq<(string, nat)>, v: string, f: string -> Option<string>,
                        after: seq<Cell>, vc': seq<(string, nat)>)
    requires IsValueCounts(vc, Strings(cells)) && Descending(vc)
    requires Detect(vc, |Strings(cells)|).Some? && Detect(vc, |Strings(cells)|).value.suggestion == Some(v)
    requires after == Normalised(Overwrite(cells, FinderRows(cells, vc), StrC(v)), f)
    requires IsValueCounts(vc', Strings(after))
    ensures FinderRows(after, vc') == []
  {
    SuggestionExists(vc, Strings(cells));
    OverwriteSettles(cells, vc, v, f);
    CommonFlagsNothing(after, vc');
  }

  lemma OverwriteSettles(cells: seq<Cell>, vc: seq<(string, nat)>, v: string, f: string -> Option<string>)
    requires IsValueCounts(vc, Strings(cells)) && |Strings(cells)| >= 10
    requires vc != [] && vc[0].0 == v && vc[0].1 >= Threshold(|Strings(cells)|)
    ensures var after := Normalised(Overwrite(cells, FinderRows(cells, vc), StrC(v)), f);
            AllCommon(after, Threshold(|Strings(after)|))
  {
    OverwrittenIsCommon(cells, vc);
    OverwriteKeepsTotal(cells, vc, v);
    NormalisedStaysCommon(Overwrite(cells, FinderRows(cells, vc), StrC(v)), f);
  }

  // ---------------------------------------------------------------------------------------------
  // The rule in rows and shares

  /** Fewer than two rows, or fewer than the whole number in one percent of the rows, hold the value. */
  ghost predicate RareShare(n: nat, total: nat) {
    n < 2 || (n + 1) as real <= 0.01 * total as real
  }

  lemma ThresholdShare(n: nat, total: nat)
    ensures n < Threshold(total) <==> RareShare(n, total)
  {
  }

  /** Rows that hold text. */
  function Texts(cells: seq<Cell>): nat {
    |set i | 0 <= i < |cells| && cells[i].StrC?|
  }

  function RowsOf(cells: seq<Cell>, v: string): nat {
    |set i | 0 <= i < |cells| && cells[i] == StrC(v)|
  }

  lemma {:induction false} RowsAreCounted(cells: seq<Cell>, p: Cell -> bool)
    ensures |set i | 0 <= i < |cells| && p(cells[i])| == Count(cells, p)
  {
    if cells != [] {
      var n := |cells| - 1;
      RowsAreCounted(cells[..n], p);
      var all, before := set i | 0 <= i < |cells| && p(cells[i]), set i | 0 <= i < n && p(cells[..n][i]);
      if p(cells[n]) {
        assert all == before + {n};
      } else {
        assert all == before;
      }
    }
  }

  /** The finder's rows are exactly those with a rare text, in a column of at least ten texts. */
  lemma FoundExactly(cells: seq<Cell>, vc: seq<(string, nat)>, i: nat)
    requires IsValueCounts(vc, Strings(cells)) && i < |cells|
    ensures i in FinderRows(cells, vc)
            <==> cells[i].StrC? && Texts(cells) >= 10 && RareShare(RowsOf(cells, cells[i].s), Texts(cells))
  {
    TextsAreStrings(cells);
    var total := |Strings(cells)|;
    var rows := FinderRows(cells, vc);
    if i in rows {
      var k :| 0 <= k < |rows| && rows[k] == i;
    }
    if cells[i].StrC? {
      RowsOfValue(cells, cells[i].s);
      StringsMember(cells, cells[i].s);
      assert cells[i] in cells;
      var k :| 0 <= k < |vc| && vc[k].0 == cells[i].s;
      ThresholdShare(vc[k].1, total);
      assert cells[i].s in RareValues(vc, total) <==> vc[k].1 < Threshold(total);
    }
  }

  lemma TextsAreStrings(cells: seq<Cell>)
    ensures Texts(cells) == |Strings(cells)|
  {
    var p := (c: Cell) => c.StrC?;
    RowsAreCounted(cells, p);
    StringsAreRows(cells, p);
    assert (set i | 0 <= i < |cells| && cells[i].StrC?) == set i | 0 <= i < |cells| && p(cells[i]);
  }

  lemma RowsOfValue(cells: seq<Cell>, v: string)
    ensures RowsOf(cells, v) == Occurrences(Strings(cells), v)
  {
    RowsAreCounted(cells, Holds(v));
    OccurrencesAreRows(cells, v);
    assert (set i | 0 <= i < |cells| && cells[i] == StrC(v)) == set i | 0 <= i < |cells| && Holds(v)(cells[i]);
  }

  /** The detector writes a record for at least ten texts, at most fifteen different and under a tenth, some rare. */
  lemma DetectExactly(cells: seq<Cell>, vc: seq<(string, nat)>)
    requires IsValueCounts(vc, Strings(cells)) && Descending(vc)
    ensures var total, different := Texts(cells), |set s | s in Strings(cells)|;
            Detect(vc, |Strings(cells)|).Some?
            <==> && total >= 10 && different <= 15 && different as real < 0.1 * total as real
                 && exists i :: 0 <= i < |cells| && cells[i].StrC? && RareShare(RowsOf(cells, cells[i].s), total)
  {
    TextsAreStrings(cells);
    EntriesAreTexts(vc, Strings(cells));
    var total := |Strings(cells)|;
    if i :| 0 <= i < |cells| && cells[i].StrC? && RareShare(RowsOf(cells, cells[i].s), total) {
      RowsOfValue(cells, cells[i].s);
      StringsMember(cells, cells[i].s);
      assert cells[i] in cells;
      var k :| 0 <= k < |vc| && vc[k].0 == cells[i].s;
      ThresholdShare(vc[k].1, total);
      RareEntry(vc, total, k);
    }
    if Rare(vc, total) != [] {
      var k := EntryOfRare(vc, total);
      StringsMember(cells, vc[k].0);
      assert StrC(vc[k].0) in cells;
      var i :| 0 <= i < |cells| && cells[i] == StrC(vc[k].0);
      RowsOfValue(cells, vc[k].0);
      ThresholdShare(vc[k].1, total);
    }
  }

  lemma {:induction false} EntriesAreTexts(vc: seq<(string, nat)>, strings: seq<string>)
    requires IsValueCounts(vc, strings)
    ensures |set s | s in strings| == |vc|
  {
    EntrySet(vc);
    assert (set s | s in strings) == set i | 0 <= i < |vc| :: vc[i].0;
  }

  lemma {:induction false} EntrySet(vc: seq<(string, nat)>)
    requires forall i, j :: 0 <= i < j < |vc| ==> vc[i].0 != vc[j].0
    ensures |set i | 0 <= i < |vc| :: vc[i].0| == |vc|
  {
    if vc != [] {
      var n := |vc| - 1;
      EntrySet(vc[..n]);
      assert (set i | 0 <= i < |vc| :: vc[i].0) == (set i | 0 <= i < n :: vc[..n][i].0) + {vc[n].0};
    }
  }

  lemma {:induction false} RareEntry(vc: seq<(string, nat)>, total: nat, k: nat)
    requires k < |vc| && vc[k].1 < Threshold(total)
    ensures vc[k] in Rare(vc, total)
  {
    if k < |vc| - 1 {
      RareEntry(vc[..|vc| - 1], total, k);
    }
  }

  lemma {:induction false} EntryOfRare(vc: seq<(string, nat)>, total: nat) returns (k: nat)
    requires Rare(vc, total) != []
    ensures k < |vc| && vc[k].1 < Threshold(total)
  {
    var n := |vc| - 1;
    if vc[n].1 < Threshold(total) {
      k := n;
    } else {
      k := EntryOfRare(vc[..n], total);
    }
  }
}
