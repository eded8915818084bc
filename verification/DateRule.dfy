/** What one date rule does to its end column, for columns of any type. */
module DateRule {
  import opened DateRepair
  import opened Values
  import Calendar

  /** The day that the repair reads from a cell: a date's own, or the one that the first ten characters spell. */
  ghost predicate ReadsDay(iso: IsoReader, c: Cell, day: int) {
    match c
    case DateC(d) => d == day
    case StampC(d, _) => d == day
    case StrC(s) => exists head :: IsHead(s, head) && iso(head) == Some(day)
    case _ => false
  }

  /** The first ten characters, or all there are. */
  ghost predicate IsHead(s: string, head: string) {
    head <= s && |head| <= 10 && (|head| == |s| || |head| == 10)
  }

  ghost predicate EndsTooSoon(iso: IsoReader, start: Cell, end: Cell) {
    exists s, e :: ReadsDay(iso, start, s) && ReadsDay(iso, end, e) && e < s
  }

  /** 18 years of 365 days after the start, at midnight in a Datetime column, or null after the year 9999. */
  ghost predicate IsNewEnd(iso: IsoReader, start: Cell, d: Dtype, end: Cell) {
    exists s :: ReadsDay(iso, start, s)
                && end == if s + 18 * 365 > Calendar.DaysBefore(10000) then Null
                          else if d == DatetimeD then StampC(s + 18 * 365, 0) else DateC(s + 18 * 365)
  }

  ghost predicate NewEnds(iso: IsoReader, start: seq<Cell>, end: Column, cells: seq<Cell>)
    requires |start| == |end.cells|
  {
    |cells| == |end.cells|
    && forall i :: 0 <= i < |cells| ==>
         if EndsTooSoon(iso, start[i], end.cells[i]) then IsNewEnd(iso, start[i], end.dtype, cells[i])
         else cells[i] == end.cells[i]
  }

  /** The new ends as a column of the old type, else as dates, else not at all. */
  function Rebuilt(end: Column, cells: seq<Cell>): Column {
    if forall i :: 0 <= i < |cells| ==> Fits(end.dtype, cells[i]) then Column(end.dtype, cells)
    else if forall i :: 0 <= i < |cells| ==> Fits(DateD, cells[i]) then Column(DateD, cells)
    else end
  }

  lemma DayReads(iso: IsoReader, c: Cell)
    ensures match ToDay(iso, c)
            case Some(day) => ReadsDay(iso, c, day) && forall d :: ReadsDay(iso, c, d) ==> d == day
            case None => forall d :: !ReadsDay(iso, c, d)
  {
    if c.StrC? {
      var first := if |c.s| >= 10 then c.s[..10] else c.s;
      assert IsHead(c.s, first);
      forall head | IsHead(c.s, head)
        ensures head == first
      {
        assert head == c.s[..|head|];
      }
    }
  }

  lemma CellMeans(iso: IsoReader, start: Cell, end: Cell, d: Dtype)
    ensures var r := RepairCell(iso, start, end, d);
            if EndsTooSoon(iso, start, end) then IsNewEnd(iso, start, d, r) else r == end
  {
    DayReads(iso, start);
    DayReads(iso, end);
    hide ReadsDay, ToDay;
  }

  /** What a rule does to its end column, whatever the two columns hold. */
  lemma RepairColumnMeans(iso: IsoReader, start: seq<Cell>, end: Column) returns (cells: seq<Cell>)
    requires |start| == |end.cells| && WellTyped(end)
    ensures NewEnds(iso, start, end, cells) && RepairColumn(iso, start, end) == Rebuilt(end, cells)
  {
    cells := RepairCells(iso, start, end.cells, end.dtype);
    forall i | 0 <= i < |cells|
      ensures if EndsTooSoon(iso, start[i], end.cells[i]) then IsNewEnd(iso, start[i], end.dtype, cells[i])
              else cells[i] == end.cells[i]
      ensures Fits(DateD, cells[i]) <==> Accepts(DateD, cells[i])
      ensures Fits(end.dtype, cells[i]) <==> Accepts(end.dtype, cells[i])
    {
      CellMeans(iso, start[i], end.cells[i], end.dtype);
      assert Fits(end.dtype, end.cells[i]);
    }
    hide EndsTooSoon, IsNewEnd, RepairCell, Fits, Accepts;
    TypedBuild(end.dtype, cells);
    TypedBuild(DateD, cells);
  }

  lemma TypedBuild(d: Dtype, cells: seq<Cell>)
    requires forall i :: 0 <= i < |cells| ==> (Fits(d, cells[i]) <==> Accepts(d, cells[i]))
    ensures Build(d, cells)
            == if forall i :: 0 <= i < |cells| ==> Fits(d, cells[i]) then Some(Column(d, cells)) else None
  {
    hide Fits, Accepts;
    if forall i :: 0 <= i < |cells| ==> Fits(d, cells[i]) {
      assert WellTyped(Column(d, cells));
    }
  }

  /** A rule writes its end column and no other. */
  lemma RuleMeans(iso: IsoReader, f: Frame, rule: Constraint) returns (cells: seq<Cell>)
    requires f.Valid() && Applies(f, rule)
    ensures NewEnds(iso, f.cols[rule.start].cells, f.cols[rule.end], cells)
    ensures RepairOne(iso, f, rule).cols == f.cols[rule.end := Rebuilt(f.cols[rule.end], cells)]
  {
    hide NewEnds, Rebuilt, RepairColumn;
    cells := RepairColumnMeans(iso, f.cols[rule.start].cells, f.cols[rule.end]);
  }
}
