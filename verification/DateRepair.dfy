/** The repair of start/end date pairs that closes the decision loop. */
module DateRepair {
  import opened Values
  import Calendar

  /** A minor's years: the repaired end lies 365 * 18 days after the start. */
  const REPAIR_DAYS := 6570
  /** The proleptic ordinal of 9999-12-31, the last date there is. */
  const MAX_DAY := 3652059

  /** A DATE_LOGICAL anomaly whose description names the end column. */
  datatype Constraint = Constraint(start: string, end: string)

  /** `iso` reads the first ten characters of a string as a date. */
  type IsoReader = string -> Option<int>

  function ToDay(iso: IsoReader, c: Cell): Option<int> {
    match c
    case DateC(day) => Some(day)
    case StampC(day, _) => Some(day)
    case StrC(s) => iso(if |s| >= 10 then s[..10] else s)
    case _ => None
  }

  predicate Violates(iso: IsoReader, start: Cell, end: Cell) {
    var s, e := ToDay(iso, start), ToDay(iso, end);
    s.Some? && e.Some? && e.value < s.value
  }

  /** The new end of a violating row: null when the date does not exist. */
  function Repaired(iso: IsoReader, start: Cell, d: Dtype): Cell
    requires ToDay(iso, start).Some?
  {
    var day := ToDay(iso, start).value + REPAIR_DAYS;
    if day > MAX_DAY then Null else if d.DatetimeD? then StampC(day, 0) else DateC(day)
  }

  function RepairCell(iso: IsoReader, start: Cell, end: Cell, d: Dtype): Cell {
    if Violates(iso, start, end) then Repaired(iso, start, d) else end
  }

  function RepairCells(iso: IsoReader, start: seq<Cell>, end: seq<Cell>, d: Dtype): (r: seq<Cell>)
    requires |start| == |end|
    ensures |r| == |end|
  {
    seq(|end|, i requires 0 <= i < |end| => RepairCell(iso, start[i], end[i], d))
  }

  /** The column is rebuilt with its own type, else as dates, else left alone. */
  function RepairColumn(iso: IsoReader, start: seq<Cell>, end: Column): (r: Column)
    requires |start| == |end.cells|
    ensures |r.cells| == |end.cells|
    ensures WellTyped(end) ==> WellTyped(r)
  {
    var cells := RepairCells(iso, start, end.cells, end.dtype);
    if cells == end.cells then end
    else if Build(end.dtype, cells).Some? then Build(end.dtype, cells).value
    else if Build(DateD, cells).Some? then Build(DateD, cells).value
    else end
  }

  predicate Applies(f: Frame, c: Constraint) {
    c.start in f.cols && c.end in f.cols
  }

  function RepairOne(iso: IsoReader, f: Frame, c: Constraint): (r: Frame)
    requires f.Rectangular()
    ensures r.Rectangular() && r.names == f.names && r.height == f.height && r.cols.Keys == f.cols.Keys
    ensures f.Valid() ==> r.Valid()
  {
    if Applies(f, c) then
      f.With(c.end, RepairColumn(iso, f.cols[c.start].cells, f.cols[c.end]))
    else f
  }

  function Repair(iso: IsoReader, f: Frame, cs: seq<Constraint>): (r: Frame)
    requires f.Rectangular()
    ensures r.Rectangular() && r.names == f.names && r.height == f.height && r.cols.Keys == f.cols.Keys
    ensures f.Valid() ==> r.Valid()
  {
    if cs == [] then f else RepairOne(iso, Repair(iso, f, cs[..|cs| - 1]), cs[|cs| - 1])
  }

  method RepairInPlace(iso: IsoReader, start: seq<Cell>, end: array<Cell>, d: Dtype) returns (changed: bool)
    requires |start| == end.Length
    modifies end
    ensures end[..] == RepairCells(iso, start, old(end[..]), d)
    ensures !changed ==> end[..] == old(end[..])
  {
    changed := false;
    for i := 0 to |start|
      invariant forall k :: 0 <= k < i ==> end[k] == RepairCell(iso, start[k], old(end[k]), d)
      invariant forall k :: i <= k < |start| ==> end[k] == old(end[k])
      invariant !changed ==> end[..] == old(end[..])
    {
      if Violates(iso, start[i], end[i]) {
        end[i] := Repaired(iso, start[i], d);
        changed := true;
      }
    }
  }

  /** The first build that succeeds wins, and when none does the column stays. */
  method RebuildColumn(iso: IsoReader, start: seq<Cell>, end: Column) returns (col: Column)
    requires |start| == |end.cells| && WellTyped(end)
    ensures col == RepairColumn(iso, start, end)
  {
    var cells := new Cell[|end.cells|](i requires 0 <= i < |end.cells| => end.cells[i]);
    assert cells[..] == end.cells;
    var changed := RepairInPlace(iso, start, cells, end.dtype);
    if !changed {
      return end;
    }
    var built := Build(end.dtype, cells[..]);
    if built.None? {
      built := Build(DateD, cells[..]);
    }
    return if built.Some? then built.value else end;
  }

  method RepairFrame(iso: IsoReader, f: Frame, cs: seq<Constraint>) returns (r: Frame)
    requires f.Valid()
    ensures r == Repair(iso, f, cs)
  {
    r := f;
    for k := 0 to |cs|
      invariant r == Repair(iso, f, cs[..k])
    {
      assert cs[..k + 1][..k] == cs[..k];
      var c := cs[k];
      if c.start in r.cols && c.end in r.cols {
        var col := RebuildColumn(iso, r.cols[c.start].cells, r.cols[c.end]);
        r := r.With(c.end, col);
      }
    }
    assert cs[..|cs|] == cs;
  }

  // ---------------------------------------------------------------------------------------------
  // What the repair achieves

  predicate IsDate(d: Dtype) {
    d.DateD? || d.DatetimeD?
  }

  /** Both columns of every applicable constraint hold dates. */
  ghost predicate AllDates(f: Frame, cs: seq<Constraint>) {
    forall k :: 0 <= k < |cs| && Applies(f, cs[k]) ==>
      IsDate(f.cols[cs[k].start].dtype) && IsDate(f.cols[cs[k].end].dtype)
  }

  /** start <= end, by day, on every row where both are present. */
  ghost predicate Holds(f: Frame, c: Constraint)
    requires f.Rectangular()
  {
    Applies(f, c) ==>
      forall i :: 0 <= i < f.height && !f.cols[c.start].cells[i].Null? && !f.cols[c.end].cells[i].Null? ==>
        DayOf(f.cols[c.start].cells[i]) <= DayOf(f.cols[c.end].cells[i])
  }

  function DayOf(c: Cell): int {
    if c.DateC? || c.StampC? then c.day else 0
  }

  /** A constraint whose start a later one moves comes again after that one. */
  ghost predicate InOrder(cs: seq<Constraint>) {
    forall i, j :: 0 <= i < j < |cs| && cs[i].start == cs[j].end ==> cs[i] in cs[j + 1..]
  }

  /** A date cell after a repair step: as it was, or null, or later. */
  ghost predicate Later(before: Cell, after: Cell) {
    after == before || (!before.Null? && (after.Null? || DayOf(after) > DayOf(before)))
  }

  lemma RepairCellsAreDates(iso: IsoReader, start: seq<Cell>, end: Column)
    requires |start| == |end.cells| && WellTyped(end) && IsDate(end.dtype)
    ensures RepairColumn(iso, start, end) == Column(end.dtype, RepairCells(iso, start, end.cells, end.dtype))
  {
    var cells := RepairCells(iso, start, end.cells, end.dtype);
    assert WellTyped(Column(end.dtype, cells));
  }

  /** One repair step on date columns, cell by cell. */
  lemma RepairOneCell(iso: IsoReader, f: Frame, c: Constraint, i: nat)
    requires f.Valid() && Applies(f, c) && i < f.height
    requires IsDate(f.cols[c.start].dtype) && IsDate(f.cols[c.end].dtype)
    ensures var r, s, e := RepairOne(iso, f, c), f.cols[c.start].cells[i], f.cols[c.end].cells[i];
            && r.cols[c.end].dtype == f.cols[c.end].dtype
            && r.cols[c.end].cells[i] == RepairCell(iso, s, e, f.cols[c.end].dtype)
            && Later(e, r.cols[c.end].cells[i])
            && (r.cols[c.end].cells[i] != e ==> !s.Null? && !e.Null? && DayOf(e) < DayOf(s))
            && (!s.Null? && !r.cols[c.end].cells[i].Null? && c.start != c.end ==>
                  DayOf(s) <= DayOf(r.cols[c.end].cells[i]))
  {
    RepairCellsAreDates(iso, f.cols[c.start].cells, f.cols[c.end]);
    assert Fits(f.cols[c.start].dtype, f.cols[c.start].cells[i]);
    assert Fits(f.cols[c.end].dtype, f.cols[c.end].cells[i]);
  }

  lemma RepairOneKeepsDates(iso: IsoReader, f: Frame, c: Constraint, cs: seq<Constraint>)
    requires f.Valid() && AllDates(f, cs) && c in cs
    ensures AllDates(RepairOne(iso, f, c), cs)
  {
    if Applies(f, c) {
      var k :| 0 <= k < |cs| && cs[k] == c;
      RepairCellsAreDates(iso, f.cols[c.start].cells, f.cols[c.end]);
    }
  }

  /** A step repairs its own constraint and keeps every constraint whose start it does not move. */
  lemma RepairOneHolds(iso: IsoReader, f: Frame, c: Constraint, d: Constraint, cs: seq<Constraint>)
    requires f.Valid() && AllDates(f, cs) && c in cs && d in cs
    requires Holds(f, d) || c == d
    requires d.start != c.end || c == d
    ensures Holds(RepairOne(iso, f, c), d)
  {
    var r := RepairOne(iso, f, c);
    if Applies(f, c) && Applies(f, d) {
      var k :| 0 <= k < |cs| && cs[k] == c;
      forall i | 0 <= i < r.height && !r.cols[d.start].cells[i].Null? && !r.cols[d.end].cells[i].Null?
        ensures DayOf(r.cols[d.start].cells[i]) <= DayOf(r.cols[d.end].cells[i])
      {
        RepairOneCell(iso, f, c, i);
      }
    }
  }

  /** Among the first `n` constraints none after the `k`-th moves its start. */
  ghost predicate StartStays(cs: seq<Constraint>, k: nat, n: nat)
    requires k < n <= |cs|
  {
    forall j :: k < j < n ==> cs[j].end != cs[k].start
  }

  lemma {:induction false} PrefixHolds(iso: IsoReader, f: Frame, cs: seq<Constraint>, n: nat)
    requires f.Valid() && AllDates(f, cs) && n <= |cs|
    ensures AllDates(Repair(iso, f, cs[..n]), cs)
    ensures forall k :: 0 <= k < n && StartStays(cs, k, n) ==> Holds(Repair(iso, f, cs[..n]), cs[k])
  {
    if n > 0 {
      PrefixHolds(iso, f, cs, n - 1);
      assert cs[..n][..n - 1] == cs[..n - 1];
      hide AllDates, Holds, RepairOne;
      var g, c := Repair(iso, f, cs[..n - 1]), cs[n - 1];
      RepairOneKeepsDates(iso, g, c, cs);
      forall k | 0 <= k < n && StartStays(cs, k, n)
        ensures Holds(RepairOne(iso, g, c), cs[k])
      {
        assert k < n - 1 ==> StartStays(cs, k, n - 1);
        RepairOneHolds(iso, g, c, cs[k], cs);
      }
    }
  }

  /** The last occurrence of a constraint in the list. */
  function LastOf(cs: seq<Constraint>, c: Constraint): (k: nat)
    requires c in cs
    ensures k < |cs| && cs[k] == c && c !in cs[k + 1..]
  {
    var n := |cs| - 1;
    assert cs == cs[..n] + [cs[n]];
    if cs[n] == c then n
    else
      var k := LastOf(cs[..n], c);
      assert cs[k + 1..] == cs[..n][k + 1..] + [cs[n]];
      k
  }

  /** After the whole loop every start <= end constraint holds at once. */
  lemma RepairSatisfiesAll(iso: IsoReader, f: Frame, cs: seq<Constraint>)
    requires f.Valid() && AllDates(f, cs) && InOrder(cs)
    ensures forall k :: 0 <= k < |cs| ==> Holds(Repair(iso, f, cs), cs[k])
    ensures AllDates(Repair(iso, f, cs), cs)
  {
    hide AllDates, Holds, Repair;
    PrefixHolds(iso, f, cs, |cs|);
    assert cs[..|cs|] == cs;
    forall k | 0 <= k < |cs|
      ensures Holds(Repair(iso, f, cs), cs[k])
    {
      var m := LastOf(cs, cs[k]);
      forall j | m < j < |cs|
        ensures cs[j].end != cs[m].start
      {
        assert cs[m + 1..][j - m..] == cs[j + 1..];
      }
      assert StartStays(cs, m, |cs|);
    }
  }

  lemma HoldsIsFixed(iso: IsoReader, f: Frame, c: Constraint)
    requires f.Valid() && Holds(f, c)
    requires Applies(f, c) ==> IsDate(f.cols[c.start].dtype) && IsDate(f.cols[c.end].dtype)
    ensures RepairOne(iso, f, c) == f
  {
    if Applies(f, c) {
      var r := RepairOne(iso, f, c);
      forall i | 0 <= i < f.height
        ensures r.cols[c.end].cells[i] == f.cols[c.end].cells[i]
      {
        RepairOneCell(iso, f, c, i);
      }
      RepairCellsAreDates(iso, f.cols[c.start].cells, f.cols[c.end]);
      assert r.cols[c.end] == f.cols[c.end];
      assert r.cols == f.cols;
    }
  }

  lemma {:induction false} AllHoldIsFixed(iso: IsoReader, f: Frame, cs: seq<Constraint>)
    requires f.Valid() && AllDates(f, cs)
    requires forall k :: 0 <= k < |cs| ==> Holds(f, cs[k])
    ensures Repair(iso, f, cs) == f
  {
    if cs != [] {
      AllHoldIsFixed(iso, f, cs[..|cs| - 1]);
      HoldsIsFixed(iso, f, cs[|cs| - 1]);
    }
  }

  lemma StepIsLater(iso: IsoReader, f: Frame, c: Constraint, col: string, i: nat)
    requires f.Valid() && col in f.cols && i < f.height
    requires Applies(f, c) ==> IsDate(f.cols[c.start].dtype) && IsDate(f.cols[c.end].dtype)
    ensures Later(f.cols[col].cells[i], RepairOne(iso, f, c).cols[col].cells[i])
  {
    if Applies(f, c) {
      RepairOneCell(iso, f, c, i);
    }
  }

  /** The cell after the first `n` constraints. */
  function CellAt(iso: IsoReader, f: Frame, cs: seq<Constraint>, n: nat, col: string, i: nat): Cell
    requires f.Valid() && n <= |cs| && col in f.cols && i < f.height
  {
    Repair(iso, f, cs[..n]).cols[col].cells[i]
  }

  function TypeAt(iso: IsoReader, f: Frame, cs: seq<Constraint>, n: nat, col: string): Dtype
    requires f.Valid() && n <= |cs| && col in f.cols
  {
    Repair(iso, f, cs[..n]).cols[col].dtype
  }

  /** Turn `n` of the loop: one repair, on date columns. */
  lemma OneTurn(iso: IsoReader, f: Frame, cs: seq<Constraint>, n: nat, col: string)
    requires f.Valid() && AllDates(f, cs) && n < |cs| && col in f.cols
    ensures TypeAt(iso, f, cs, n + 1, col) == TypeAt(iso, f, cs, n, col)
    ensures forall i: nat :: i < f.height ==> Later(CellAt(iso, f, cs, n, col, i), CellAt(iso, f, cs, n + 1, col, i))
  {
    hide RepairOne, Repair, Later;
    PrefixDates(iso, f, cs, n);
    LastRepair(iso, f, cs, n);
    var g := Repair(iso, f, cs[..n]);
    StepType(iso, g, cs[n], col);
    forall i: nat | i < f.height
      ensures Later(CellAt(iso, f, cs, n, col, i), CellAt(iso, f, cs, n + 1, col, i))
    {
      StepIsLater(iso, g, cs[n], col, i);
    }
  }

  lemma {:induction false} PrefixIsLater(iso: IsoReader, f: Frame, cs: seq<Constraint>, n: nat, m: nat, col: string,
                                         i: nat)
    requires f.Valid() && AllDates(f, cs) && n <= m <= |cs| && col in f.cols && i < f.height
    ensures Later(CellAt(iso, f, cs, n, col, i), CellAt(iso, f, cs, m, col, i))
  {
    hide CellAt, TypeAt, AllDates, Frame.Valid;
    if n < m {
      PrefixIsLater(iso, f, cs, n, m - 1, col, i);
      OneTurn(iso, f, cs, m - 1, col);
    }
  }

  lemma StepType(iso: IsoReader, f: Frame, c: Constraint, col: string)
    requires f.Valid() && col in f.cols
    requires Applies(f, c) ==> IsDate(f.cols[c.start].dtype) && IsDate(f.cols[c.end].dtype)
    ensures RepairOne(iso, f, c).cols[col].dtype == f.cols[col].dtype
  {
    if Applies(f, c) {
      RepairCellsAreDates(iso, f.cols[c.start].cells, f.cols[c.end]);
    }
  }

  /** A cell that moved never comes back, so a loop that ends where it began has not moved anything. */
  lemma FixedPrefix(iso: IsoReader, f: Frame, cs: seq<Constraint>, n: nat)
    requires f.Valid() && AllDates(f, cs) && n <= |cs| && Repair(iso, f, cs) == f
    ensures Repair(iso, f, cs[..n]) == f
  {
    hide Repair, AllDates;
    var g := Repair(iso, f, cs[..n]);
    RepairNothing(iso, f, cs);
    assert cs[..|cs|] == cs;
    forall col | col in f.cols
      ensures g.cols[col] == f.cols[col]
    {
      SameType(iso, f, cs, n, col);
      forall i: nat | i < f.height
        ensures g.cols[col].cells[i] == f.cols[col].cells[i]
      {
        PrefixIsLater(iso, f, cs, 0, n, col, i);
        PrefixIsLater(iso, f, cs, n, |cs|, col, i);
      }
    }
    assert g.cols == f.cols;
  }

  lemma {:induction false} SameType(iso: IsoReader, f: Frame, cs: seq<Constraint>, n: nat, col: string)
    requires f.Valid() && AllDates(f, cs) && n <= |cs| && col in f.cols
    ensures TypeAt(iso, f, cs, n, col) == f.cols[col].dtype
  {
    hide TypeAt, AllDates, Frame.Valid;
    if n == 0 {
      FirstType(iso, f, cs, col);
    } else {
      SameType(iso, f, cs, n - 1, col);
      OneTurn(iso, f, cs, n - 1, col);
    }
  }

  lemma FirstType(iso: IsoReader, f: Frame, cs: seq<Constraint>, col: string)
    requires f.Valid() && col in f.cols
    ensures TypeAt(iso, f, cs, 0, col) == f.cols[col].dtype
  {
    RepairNothing(iso, f, cs);
  }

  lemma RepairNothing(iso: IsoReader, f: Frame, cs: seq<Constraint>)
    requires f.Rectangular()
    ensures Repair(iso, f, cs[..0]) == f
  {
  }

  /** For any list, in order or not: the repair changes nothing exactly when all its constraints hold already. */
  lemma FixedExactly(iso: IsoReader, f: Frame, cs: seq<Constraint>)
    requires f.Valid() && AllDates(f, cs)
    ensures Repair(iso, f, cs) == f <==> forall k :: 0 <= k < |cs| ==> Holds(f, cs[k])
  {
    hide Repair, RepairOne, AllDates, Holds;
    if Repair(iso, f, cs) == f {
      forall k | 0 <= k < |cs|
        ensures Holds(f, cs[k])
      {
        FixedPrefix(iso, f, cs, k);
        FixedPrefix(iso, f, cs, k + 1);
        LastRepair(iso, f, cs, k);
        RepairOneHolds(iso, f, cs[k], cs[k], cs);
      }
    }
    if forall k :: 0 <= k < |cs| ==> Holds(f, cs[k]) {
      AllHoldIsFixed(iso, f, cs);
    }
  }

  lemma LastRepair(iso: IsoReader, f: Frame, cs: seq<Constraint>, k: nat)
    requires f.Rectangular() && k < |cs|
    ensures Repair(iso, f, cs[..k + 1]) == RepairOne(iso, Repair(iso, f, cs[..k]), cs[k])
  {
    assert cs[..k + 1][..k] == cs[..k];
  }

  /** A second run changes nothing. */
  lemma RepairIdempotent(iso: IsoReader, f: Frame, cs: seq<Constraint>)
    requires f.Valid() && AllDates(f, cs) && InOrder(cs)
    ensures Repair(iso, Repair(iso, f, cs), cs) == Repair(iso, f, cs)
  {
    RepairSatisfiesAll(iso, f, cs);
    AllHoldIsFixed(iso, Repair(iso, f, cs), cs);
  }

  // Which cells change

  /** Row `i` breaks a constraint that ends in column `c`. */
  ghost predicate Broken(f: Frame, cs: seq<Constraint>, c: string, i: nat)
    requires f.Rectangular() && i < f.height
  {
    exists k :: 0 <= k < |cs| && cs[k].end == c && Applies(f, cs[k])
                && !f.cols[cs[k].start].cells[i].Null? && !f.cols[c].cells[i].Null?
                && DayOf(f.cols[c].cells[i]) < DayOf(f.cols[cs[k].start].cells[i])
  }

  /** No column is a start and an end. */
  ghost predicate Separate(cs: seq<Constraint>) {
    forall i, j :: 0 <= i < |cs| && 0 <= j < |cs| ==> cs[i].start != cs[j].end
  }

  ghost predicate OnlyBrokenEnds(f: Frame, g: Frame, cs: seq<Constraint>, c: string, i: nat)
    requires f.Rectangular() && g.Rectangular() && g.height == f.height && g.cols.Keys == f.cols.Keys
    requires c in f.cols && i < f.height
  {
    && Later(f.cols[c].cells[i], g.cols[c].cells[i])
    && (g.cols[c].cells[i] != f.cols[c].cells[i] ==> Broken(f, cs, c, i))
  }

  lemma OtherColumns(iso: IsoReader, f: Frame, c: Constraint, k: string)
    requires f.Rectangular() && k in f.cols && (k != c.end || !Applies(f, c))
    ensures RepairOne(iso, f, c).cols[k] == f.cols[k]
  {
    hide RepairColumn;
  }

  /** One more repair of an end column whose start still holds its original cell. */
  lemma ChangeStep(iso: IsoReader, f: Frame, g: Frame, cs: seq<Constraint>, d: Constraint, i: nat)
    requires f.Valid() && g.Valid() && g.height == f.height && g.cols.Keys == f.cols.Keys && i < f.height
    requires d in cs && Applies(f, d) && IsDate(g.cols[d.start].dtype) && IsDate(g.cols[d.end].dtype)
    requires g.cols[d.start] == f.cols[d.start] && OnlyBrokenEnds(f, g, cs, d.end, i)
    ensures OnlyBrokenEnds(f, RepairOne(iso, g, d), cs, d.end, i)
  {
    RepairOneCell(iso, g, d, i);
    hide RepairOne;
    var k :| 0 <= k < |cs| && cs[k] == d;
  }

  lemma {:induction false} PrefixDates(iso: IsoReader, f: Frame, cs: seq<Constraint>, n: nat)
    requires f.Valid() && AllDates(f, cs) && n <= |cs|
    ensures AllDates(Repair(iso, f, cs[..n]), cs)
  {
    hide RepairOne;
    if n > 0 {
      PrefixDates(iso, f, cs, n - 1);
      assert cs[..n][..n - 1] == cs[..n - 1];
      RepairOneKeepsDates(iso, Repair(iso, f, cs[..n - 1]), cs[n - 1], cs);
    }
  }

  /** A column that no applicable constraint ends in is never written. */
  lemma {:induction false} StartUntouched(iso: IsoReader, f: Frame, cs: seq<Constraint>, c: string)
    requires f.Valid() && c in f.cols
    requires forall k :: 0 <= k < |cs| ==> cs[k].end != c || !Applies(f, cs[k])
    ensures Repair(iso, f, cs).cols[c] == f.cols[c]
  {
    hide RepairOne;
    if cs != [] {
      var init := cs[..|cs| - 1];
      StartUntouched(iso, f, init, c);
      OtherColumns(iso, Repair(iso, f, init), cs[|cs| - 1], c);
    }
  }

  lemma {:induction false} RepairConcat(iso: IsoReader, f: Frame, p: seq<Constraint>, q: seq<Constraint>)
    requires f.Rectangular()
    ensures Repair(iso, f, p + q) == Repair(iso, Repair(iso, f, p), q)
  {
    hide RepairOne;
    if q == [] {
      assert p + q == p;
    } else {
      var n := |q| - 1;
      assert (p + q)[..|p + q| - 1] == p + q[..n];
      RepairConcat(iso, f, p, q[..n]);
    }
  }

  lemma RepairAround(iso: IsoReader, f: Frame, cs: seq<Constraint>, j: nat)
    requires f.Rectangular() && j < |cs|
    ensures Repair(iso, f, cs) == Repair(iso, RepairOne(iso, Repair(iso, f, cs[..j]), cs[j]), cs[j + 1..])
  {
    hide RepairOne;
    assert cs == cs[..j + 1] + cs[j + 1..];
    RepairConcat(iso, f, cs[..j + 1], cs[j + 1..]);
    LastRepair(iso, f, cs, j);
  }

  /** The only rule that ends in its column repairs it as if it were alone. */
  lemma OnlyRuleOfItsEnd(iso: IsoReader, f: Frame, cs: seq<Constraint>, k: nat)
    requires f.Valid() && k < |cs| && Applies(f, cs[k])
    requires forall j :: 0 <= j < |cs| && j != k ==> cs[j].end != cs[k].end
    requires forall j :: 0 <= j < k ==> cs[j].end != cs[k].start
    ensures Repair(iso, f, cs).cols[cs[k].end] == RepairOne(iso, f, cs[k]).cols[cs[k].end]
  {
    hide Repair, RepairColumn;
    var g := Repair(iso, f, cs[..k]);
    RepairAround(iso, f, cs, k);
    StartUntouched(iso, f, cs[..k], cs[k].start);
    StartUntouched(iso, f, cs[..k], cs[k].end);
    StartUntouched(iso, RepairOne(iso, g, cs[k]), cs[k + 1..], cs[k].end);
  }

  /** A row that breaks such a rule gets the start plus the repair distance, or null if there is no such day. */
  lemma OnlyRuleMoves(iso: IsoReader, f: Frame, cs: seq<Constraint>, k: nat, i: nat)
    requires f.Valid() && k < |cs| && Applies(f, cs[k]) && i < f.height
    requires IsDate(f.cols[cs[k].start].dtype) && IsDate(f.cols[cs[k].end].dtype)
    requires forall j :: 0 <= j < |cs| && j != k ==> cs[j].end != cs[k].end
    requires forall j :: 0 <= j < k ==> cs[j].end != cs[k].start
    requires var s, e := f.cols[cs[k].start].cells[i], f.cols[cs[k].end].cells[i];
             !s.Null? && !e.Null? && DayOf(e) < DayOf(s)
    ensures var moved := DayOf(f.cols[cs[k].start].cells[i]) + 18 * 365;
            Repair(iso, f, cs).cols[cs[k].end].cells[i]
            == if moved > Calendar.DaysBefore(10000) then Null
               else if f.cols[cs[k].end].dtype.DatetimeD? then StampC(moved, 0) else DateC(moved)
  {
    hide Repair, RepairOne;
    OnlyRuleOfItsEnd(iso, f, cs, k);
    RepairOneCell(iso, f, cs[k], i);
    DatesInRow(f, cs[k].start, i);
    DatesInRow(f, cs[k].end, i);
  }

  /** An end date never comes out before a start that no earlier rule moves, whatever else ends in its column. */
  lemma EndReachesStart(iso: IsoReader, f: Frame, cs: seq<Constraint>, k: nat, i: nat)
    requires f.Valid() && AllDates(f, cs) && k < |cs| && Applies(f, cs[k]) && i < f.height
    requires cs[k].start != cs[k].end && !f.cols[cs[k].start].cells[i].Null?
    requires forall j :: 0 <= j < k ==> cs[j].end != cs[k].start
    ensures var end := Repair(iso, f, cs).cols[cs[k].end].cells[i];
            end.Null? || DayOf(end) >= DayOf(f.cols[cs[k].start].cells[i])
  {
    hide Repair, RepairOne;
    var g := Repair(iso, f, cs[..k]);
    PrefixDates(iso, f, cs, k);
    StartUntouched(iso, f, cs[..k], cs[k].start);
    RepairOneCell(iso, g, cs[k], i);
    LastRepair(iso, f, cs, k);
    PrefixIsLater(iso, f, cs, k + 1, |cs|, cs[k].end, i);
    assert cs[..|cs|] == cs;
  }

  /** The next rule ends in column `c`: its start still holds its original cells. */
  lemma EndTurn(iso: IsoReader, f: Frame, cs: seq<Constraint>, n: nat, i: nat)
    requires f.Valid() && AllDates(f, cs) && Separate(cs) && n < |cs| && Applies(f, cs[n]) && i < f.height
    requires OnlyBrokenEnds(f, Repair(iso, f, cs[..n]), cs, cs[n].end, i)
    ensures OnlyBrokenEnds(f, RepairOne(iso, Repair(iso, f, cs[..n]), cs[n]), cs, cs[n].end, i)
  {
    hide Repair, RepairOne, OnlyBrokenEnds;
    PrefixDates(iso, f, cs, n);
    StartUntouched(iso, f, cs[..n], cs[n].start);
    ChangeStep(iso, f, Repair(iso, f, cs[..n]), cs, cs[n], i);
  }

  /** It ends elsewhere, or does not apply. */
  lemma OtherTurn(iso: IsoReader, f: Frame, g: Frame, cs: seq<Constraint>, d: Constraint, c: string, i: nat)
    requires f.Rectangular() && g.Rectangular() && c in f.cols && i < f.height
    requires g.height == f.height && g.cols.Keys == f.cols.Keys && (c != d.end || !Applies(g, d))
    requires OnlyBrokenEnds(f, g, cs, c, i)
    ensures OnlyBrokenEnds(f, RepairOne(iso, g, d), cs, c, i)
  {
    hide RepairOne, OnlyBrokenEnds;
    OtherColumns(iso, g, d, c);
    SameColumn(f, g, RepairOne(iso, g, d), cs, c, i);
  }

  lemma TurnChanges(iso: IsoReader, f: Frame, cs: seq<Constraint>, n: nat, c: string, i: nat)
    requires f.Valid() && AllDates(f, cs) && Separate(cs) && n < |cs| && c in f.cols && i < f.height
    requires OnlyBrokenEnds(f, Repair(iso, f, cs[..n]), cs, c, i)
    ensures OnlyBrokenEnds(f, Repair(iso, f, cs[..n + 1]), cs, c, i)
  {
    hide Repair, RepairOne, OnlyBrokenEnds, AllDates, Separate;
    LastRepair(iso, f, cs, n);
    if Applies(f, cs[n]) && cs[n].end == c {
      EndTurn(iso, f, cs, n, i);
    } else {
      OtherTurn(iso, f, Repair(iso, f, cs[..n]), cs, cs[n], c, i);
    }
  }

  lemma {:induction false} PrefixChanges(iso: IsoReader, f: Frame, cs: seq<Constraint>, n: nat, c: string, i: nat)
    requires f.Valid() && AllDates(f, cs) && Separate(cs) && n <= |cs| && c in f.cols && i < f.height
    ensures OnlyBrokenEnds(f, Repair(iso, f, cs[..n]), cs, c, i)
  {
    hide Repair, OnlyBrokenEnds, AllDates, Separate;
    if n == 0 {
      RepairNothing(iso, f, cs);
      NothingChanged(f, cs, c, i);
    } else {
      PrefixChanges(iso, f, cs, n - 1, c, i);
      TurnChanges(iso, f, cs, n - 1, c, i);
    }
  }

  lemma NothingChanged(f: Frame, cs: seq<Constraint>, c: string, i: nat)
    requires f.Rectangular() && c in f.cols && i < f.height
    ensures OnlyBrokenEnds(f, f, cs, c, i)
  {
  }

  lemma SameColumn(f: Frame, g: Frame, h: Frame, cs: seq<Constraint>, c: string, i: nat)
    requires f.Rectangular() && g.Rectangular() && h.Rectangular() && c in f.cols && i < f.height
    requires g.height == f.height && g.cols.Keys == f.cols.Keys && h.height == f.height && h.cols.Keys == f.cols.Keys
    requires OnlyBrokenEnds(f, g, cs, c, i) && h.cols[c] == g.cols[c]
    ensures OnlyBrokenEnds(f, h, cs, c, i)
  {
  }

  /** When no column is both a start and an end, only violating end cells change, and only upwards. */
  lemma OnlyViolatingEndsChange(iso: IsoReader, f: Frame, cs: seq<Constraint>, c: string, i: nat)
    requires f.Valid() && AllDates(f, cs) && Separate(cs) && c in f.cols && i < f.height
    ensures OnlyBrokenEnds(f, Repair(iso, f, cs), cs, c, i)
  {
    PrefixChanges(iso, f, cs, |cs|, c, i);
    assert cs[..|cs|] == cs;
  }

  /**
   * The order matters. When b <= c is repaired before a <= b, row `i` ends up with b > c exactly when
   * b was before a, and c, if not before b, less than the repair distance after a.
   */
  lemma ChainBreaksExactly(iso: IsoReader, f: Frame, a: string, b: string, c: string, i: nat)
    requires f.Valid() && i < f.height && a != b && b != c && a != c
    requires a in f.cols && b in f.cols && c in f.cols
    requires IsDate(f.cols[a].dtype) && IsDate(f.cols[b].dtype) && IsDate(f.cols[c].dtype)
    requires !f.cols[a].cells[i].Null? && !f.cols[b].cells[i].Null? && !f.cols[c].cells[i].Null?
    requires DayOf(f.cols[a].cells[i]) + REPAIR_DAYS <= MAX_DAY && DayOf(f.cols[b].cells[i]) + REPAIR_DAYS <= MAX_DAY
    ensures var r := Repair(iso, f, [Constraint(b, c), Constraint(a, b)]);
            var A, B, C := DayOf(f.cols[a].cells[i]), DayOf(f.cols[b].cells[i]), DayOf(f.cols[c].cells[i]);
            DayOf(r.cols[b].cells[i]) > DayOf(r.cols[c].cells[i]) <==> B < A && (B <= C ==> C < A + REPAIR_DAYS)
  {
    hide RepairOne, Repair;
    var first, second := Constraint(b, c), Constraint(a, b);
    var g := RepairOne(iso, f, first);
    TwoSteps(iso, f, first, second);
    RepairOneCell(iso, f, first, i);
    OtherColumns(iso, f, first, a);
    OtherColumns(iso, f, first, b);
    RepairOneCell(iso, g, second, i);
    OtherColumns(iso, g, second, c);
    DatesInRow(f, a, i);
    DatesInRow(f, b, i);
    DatesInRow(f, c, i);
  }

  lemma TwoSteps(iso: IsoReader, f: Frame, first: Constraint, second: Constraint)
    requires f.Rectangular()
    ensures Repair(iso, f, [first, second]) == RepairOne(iso, RepairOne(iso, f, first), second)
  {
    hide RepairOne;
    var cs := [first, second];
    assert cs[..1] == [first] && [first][..0] == [];
    assert Repair(iso, f, [first]) == RepairOne(iso, f, first);
  }

  lemma DatesInRow(f: Frame, c: string, i: nat)
    requires f.Valid() && c in f.cols && i < f.height && IsDate(f.cols[c].dtype)
    ensures f.cols[c].cells[i].Null? || f.cols[c].cells[i].DateC? || f.cols[c].cells[i].StampC?
  {
    assert Fits(f.cols[c].dtype, f.cols[c].cells[i]);
  }
}
