/** Cell by cell: the decision loop is "the last decision that takes hold wins". */
module LastWriter {
  import opened DecisionProperties
  import opened Decisions
  import opened Rows
  import opened Values
  import Duplicates

  /** Whether a step changes row `i` of a column of type `d`; text edits and unparsable values only reach text. */
  predicate Hits(text: Text, d: Dtype, s: Step, i: nat) {
    i in s.rows
    && match s.effect
       case NoEffect => false
       case Write(raw) => Fits(d, CastCorrection(text, raw, d))
       case Clear => true
       case Trim => d.StrD?
       case Mark => d.StrD?
  }

  /**
   * The final value of row `i`. A value or a null written by the last step that takes hold hides
   * everything before it; trimming and marking are the two steps that look at the value they find.
   */
  function CellValue(text: Text, d: Dtype, c: Cell, i: nat, steps: seq<Step>): Cell {
    if steps == [] then c
    else
      var before, s := steps[..|steps| - 1], steps[|steps| - 1];
      if !Hits(text, d, s, i) then CellValue(text, d, c, i, before)
      else
        match s.effect
        case Write(raw) => CastCorrection(text, raw, d)
        case Clear => Null
        case Trim => TrimCell(text, CellValue(text, d, c, i, before))
        case Mark => Duplicates.MarkCell(text, CellValue(text, d, c, i, before))
        case NoEffect => c
  }

  /** Some row of `cells` is neither null nor in `rows`. */
  predicate Anchor(cells: seq<Cell>, rows: seq<nat>) {
    exists i :: 0 <= i < |cells| && !cells[i].Null? && i !in rows
  }

  function Hit(text: Text, d: Dtype, s: Step, c: Cell): Cell {
    match s.effect
    case NoEffect => c
    case Write(raw) => CastCorrection(text, raw, d)
    case Clear => Null
    case Trim => TrimCell(text, c)
    case Mark => Duplicates.MarkCell(text, c)
  }

  /** The list the step writes back, before the column is rebuilt from it. */
  function Edited(text: Text, col: Column, s: Step): (r: seq<Cell>)
    ensures |r| == |col.cells|
  {
    seq(|col.cells|, i requires 0 <= i < |col.cells| =>
      if i in s.rows then Hit(text, col.dtype, s, col.cells[i]) else col.cells[i])
  }

  predicate AllText(cells: seq<Cell>) {
    forall i :: 0 <= i < |cells| ==> cells[i].Null? || cells[i].StrC?
  }

  /** A correction or a mark that puts a string into a column of another type. */
  predicate PutsText(text: Text, col: Column, s: Step) {
    && !col.dtype.StrD? && (s.effect.Write? || s.effect.Mark?)
    && exists i :: 0 <= i < |col.cells| && i in s.rows && !Fits(col.dtype, Hit(text, col.dtype, s, col.cells[i]))
  }

  /** It leaves nothing but text: the column becomes a text column. */
  predicate Turns(text: Text, col: Column, s: Step) {
    PutsText(text, col, s) && AllText(Edited(text, col, s))
  }

  /** A mark beside a value that is no text: the exception that is not caught. */
  predicate Raises(text: Text, col: Column, s: Step) {
    s.effect.Mark? && PutsText(text, col, s) && !AllText(Edited(text, col, s))
  }

  /** A step as every cell sees it. */
  ghost predicate StepOnCells(text: Text, col: Column, s: Step, r: Option<Column>) {
    if Raises(text, col, s) then r == None
    else if Turns(text, col, s) then r == Some(Column(StrD, Edited(text, col, s)))
    else
      && r.Some? && r.value.dtype == col.dtype && |r.value.cells| == |col.cells|
      && forall i :: 0 <= i < |col.cells| ==>
           r.value.cells[i]
           == if Hits(text, col.dtype, s, i) then Hit(text, col.dtype, s, col.cells[i]) else col.cells[i]
  }

  lemma StepIsCellwise(text: Text, col: Column, s: Step)
    requires WellTyped(col)
    ensures StepOnCells(text, col, s, ApplyStep(text, col, s))
  {
    hide PyStr, Strip, Values.Trim;
    if s.rows != [] {
      match s.effect
      case NoEffect =>
      case Write(raw) => WriteIsCellwise(text, col, s, raw);
      case Clear =>
      case Trim => TrimIsCellwise(text, col, s);
      case Mark => MarkIsCellwise(text, col, s);
    }
  }

  /** Rebuilding a typed column from an edited list that may hold text. */
  lemma BuildsEdited(text: Text, col: Column, s: Step)
    requires WellTyped(col) && (s.effect.Write? || s.effect.Mark?)
    ensures Build(col.dtype, Edited(text, col, s))
            == if PutsText(text, col, s) then None else Some(Column(col.dtype, Edited(text, col, s)))
    ensures PutsText(text, col, s) ==>
              Build(StrD, Edited(text, col, s))
                == if AllText(Edited(text, col, s)) then Some(Column(StrD, Edited(text, col, s))) else None
  {
    hide PyStr, Duplicates.EndsWith, CastCorrection;
    var cells := Edited(text, col, s);
    assert forall i :: 0 <= i < |cells| && !Fits(col.dtype, cells[i]) ==> i in s.rows && cells[i].StrC? by {
      forall i | 0 <= i < |cells| && !Fits(col.dtype, cells[i])
        ensures i in s.rows && cells[i].StrC?
      {
        HitIsText(text, col.dtype, s, col.cells[i]);
      }
    }
    if PutsText(text, col, s) {
      var i :| 0 <= i < |col.cells| && i in s.rows && !Fits(col.dtype, Hit(text, col.dtype, s, col.cells[i]));
      assert !Accepts(col.dtype, cells[i]);
      if AllText(cells) {
        assert WellTyped(Column(StrD, cells));
      } else {
        var k :| 0 <= k < |cells| && !(cells[k].Null? || cells[k].StrC?);
        assert !Accepts(StrD, cells[k]);
      }
    } else {
      assert WellTyped(Column(col.dtype, cells)) by {
        forall i | 0 <= i < |cells|
          ensures Fits(col.dtype, cells[i])
        {
          if col.dtype.StrD? {
            HitIsText(text, col.dtype, s, col.cells[i]);
          }
        }
      }
    }
  }

  lemma HitIsText(text: Text, d: Dtype, s: Step, c: Cell)
    requires Fits(d, c) && (s.effect.Write? || s.effect.Mark?)
    ensures Fits(d, Hit(text, d, s, c)) || Hit(text, d, s, c).StrC?
  {
    hide PyStr, Duplicates.EndsWith;
  }

  lemma WriteIsCellwise(text: Text, col: Column, s: Step, raw: string)
    requires WellTyped(col) && s.effect == Write(raw)
    ensures StepOnCells(text, col, s, ApplyStep(text, col, s))
  {
    hide Build, CastCorrection, AllText;
    BuildsEdited(text, col, s);
    assert Overwrite(col.cells, s.rows, CastCorrection(text, raw, col.dtype)) == Edited(text, col, s);
    if s.rows == [] {
      assert Edited(text, col, s) == col.cells;
    }
  }

  lemma TrimIsCellwise(text: Text, col: Column, s: Step)
    requires WellTyped(col) && s.effect.Trim?
    ensures StepOnCells(text, col, s, ApplyStep(text, col, s))
  {
    hide PyStr, Strip, Values.Trim;
    var cells := MapRows(col.cells, s.rows, c => TrimCell(text, c));
    if col.dtype.StrD? {
      assert WellTyped(Column(StrD, cells));
    } else if exists i :: 0 <= i < |cells| && i in s.rows && !col.cells[i].Null? {
      var i :| 0 <= i < |cells| && i in s.rows && !col.cells[i].Null?;
      assert cells[i].StrC?;
      assert Build(col.dtype, cells) == None;
    } else {
      assert cells == col.cells;
    }
  }

  lemma MarkIsCellwise(text: Text, col: Column, s: Step)
    requires WellTyped(col) && s.effect.Mark?
    ensures StepOnCells(text, col, s, ApplyStep(text, col, s))
  {
    hide Build, PyStr, Duplicates.EndsWith, AllText;
    BuildsEdited(text, col, s);
    assert Duplicates.MarkRows(text, col.cells, s.rows) == Edited(text, col, s);
    if s.rows == [] {
      assert Edited(text, col, s) == col.cells;
    }
    if !col.dtype.StrD? && !PutsText(text, col, s) {
      MarksNothing(text, col, s);
    }
  }

  lemma MarksNothing(text: Text, col: Column, s: Step)
    requires WellTyped(col) && !col.dtype.StrD? && s.effect.Mark? && !PutsText(text, col, s)
    ensures Edited(text, col, s) == col.cells
  {
    hide PyStr, Duplicates.EndsWith;
    forall i | 0 <= i < |col.cells|
      ensures Edited(text, col, s)[i] == col.cells[i]
    {
      if i in s.rows {
        assert Fits(col.dtype, Hit(text, col.dtype, s, col.cells[i]));
      }
    }
  }

  /** The column after some steps, as the last-writer rule gives it. */
  function CellsOf(text: Text, col: Column, steps: seq<Step>): Column {
    Column(col.dtype, seq(|col.cells|, i requires 0 <= i < |col.cells| =>
      CellValue(text, col.dtype, col.cells[i], i, steps)))
  }

  lemma {:induction false} CellValueFits(text: Text, d: Dtype, c: Cell, i: nat, steps: seq<Step>)
    requires Fits(d, c)
    ensures Fits(d, CellValue(text, d, c, i, steps))
    ensures (forall k :: 0 <= k < |steps| ==> i !in steps[k].rows) ==> CellValue(text, d, c, i, steps) == c
  {
    hide PyStr, Strip;
    if steps != [] {
      CellValueFits(text, d, c, i, steps[..|steps| - 1]);
    }
  }

  lemma CellsOfFits(text: Text, col: Column, steps: seq<Step>)
    requires WellTyped(col)
    ensures WellTyped(CellsOf(text, col, steps))
  {
    hide CellValue, Hits, Fits;
    forall i | 0 <= i < |col.cells|
      ensures Fits(col.dtype, CellValue(text, col.dtype, col.cells[i], i, steps))
    {
      CellValueFits(text, col.dtype, col.cells[i], i, steps);
    }
  }

  /** Once a step has written row `i`, and no later one reaches it, the row holds what it wrote. */
  lemma {:induction false} LastWriteWins(text: Text, d: Dtype, c: Cell, i: nat, steps: seq<Step>, k: nat)
    requires k < |steps| && Hits(text, d, steps[k], i) && (steps[k].effect.Write? || steps[k].effect.Clear?)
    requires forall j :: k < j < |steps| ==> !Hits(text, d, steps[j], i)
    ensures CellValue(text, d, c, i, steps)
            == if steps[k].effect.Clear? then Null else CastCorrection(text, steps[k].effect.raw, d)
  {
    hide CastCorrection, Fits;
    if k < |steps| - 1 {
      LastWriteWins(text, d, c, i, steps[..|steps| - 1], k);
    }
  }

  lemma HitIsNext(text: Text, d: Dtype, c: Cell, i: nat, steps: seq<Step>)
    requires steps != []
    ensures var before, s := steps[..|steps| - 1], steps[|steps| - 1];
            CellValue(text, d, c, i, steps)
            == if Hits(text, d, s, i) then Hit(text, d, s, CellValue(text, d, c, i, before))
               else CellValue(text, d, c, i, before)
  {
    hide PyStr, Strip, CastCorrection, TrimCell, Duplicates.MarkCell;
  }

  lemma StepExtends(text: Text, col: Column, steps: seq<Step>, r: Option<Column>)
    requires steps != [] && !Breaks(text, col, steps, |steps| - 1)
    requires StepOnCells(text, CellsOf(text, col, steps[..|steps| - 1]), steps[|steps| - 1], r)
    ensures r == Some(CellsOf(text, col, steps))
  {
    hide Raises, Turns, CellValue, Hits, Hit;
    forall i | 0 <= i < |col.cells|
      ensures r.value.cells[i] == CellsOf(text, col, steps).cells[i]
    {
      HitIsNext(text, col.dtype, col.cells[i], i, steps);
    }
    assert r.value == CellsOf(text, col, steps);
  }

  // ---------------------------------------------------------------------------------------------
  // Every column, every list of steps

  /** Step `k` raises, or turns into text, the column as the last-writer rule has it by then. */
  predicate Breaks(text: Text, col: Column, steps: seq<Step>, k: nat)
    requires k < |steps|
  {
    Raises(text, CellsOf(text, col, steps[..k]), steps[k]) || Turns(text, CellsOf(text, col, steps[..k]), steps[k])
  }

  /** How many steps from the front keep the column's type. */
  function Quiet(text: Text, col: Column, steps: seq<Step>): (n: nat)
    ensures n <= |steps|
    ensures forall k :: 0 <= k < n ==> !Breaks(text, col, steps, k)
    ensures n < |steps| ==> Breaks(text, col, steps, n)
  {
    if steps == [] then 0
    else
      var before := steps[..|steps| - 1];
      var n := Quiet(text, col, before);
      assert forall k :: 0 <= k < |before| ==> before[..k] == steps[..k];
      assert forall k :: 0 <= k < |before| ==> Breaks(text, col, before, k) == Breaks(text, col, steps, k);
      if n == |before| && !Breaks(text, col, steps, n) then n + 1 else n
  }

  /**
   * The column after all its steps. While its type holds, the last write wins; the first step that
   * leaves the type either raises or makes it a text column, which no step can break any more.
   */
  function Outcome(text: Text, col: Column, steps: seq<Step>): Option<Column> {
    var n := Quiet(text, col, steps);
    if n == |steps| then Some(CellsOf(text, col, steps))
    else
      var mid := CellsOf(text, col, steps[..n]);
      if Raises(text, mid, steps[n]) then None
      else Some(CellsOf(text, Column(StrD, Edited(text, mid, steps[n])), steps[n + 1..]))
  }

  lemma {:induction false} QuietSteps(text: Text, col: Column, steps: seq<Step>, n: nat)
    requires WellTyped(col) && n <= Quiet(text, col, steps)
    ensures ApplySteps(text, col, steps[..n]) == Some(CellsOf(text, col, steps[..n]))
  {
    if n == 0 {
      NoStep(text, col);
      return;
    }
    hide ApplyStep, CellsOf, StepOnCells, Breaks, Quiet;
    QuietSteps(text, col, steps, n - 1);
    var before, mid := steps[..n - 1], CellsOf(text, col, steps[..n - 1]);
    CellsOfFits(text, col, before);
    StepIsCellwise(text, mid, steps[n - 1]);
    assert steps[..n][..n - 1] == before;
    BreaksLocally(text, col, steps, n);
    StepExtends(text, col, steps[..n], ApplyStep(text, mid, steps[n - 1]));
  }

  lemma BreaksLocally(text: Text, col: Column, steps: seq<Step>, n: nat)
    requires 0 < n <= |steps|
    ensures Breaks(text, col, steps[..n], n - 1) == Breaks(text, col, steps, n - 1)
  {
    assert steps[..n][..n - 1] == steps[..n - 1];
  }

  lemma {:induction false} StepsFrom(text: Text, col: Column, p: seq<Step>, q: seq<Step>, mid: Column)
    requires ApplySteps(text, col, p) == Some(mid)
    ensures ApplySteps(text, col, p + q) == ApplySteps(text, mid, q)
  {
    hide ApplyStep;
    if q == [] {
      assert p + q == p;
    } else {
      assert (p + q)[..|p + q| - 1] == p + q[..|q| - 1];
      StepsFrom(text, col, p, q[..|q| - 1], mid);
    }
  }

  lemma TextIsQuiet(text: Text, col: Column, steps: seq<Step>)
    requires col.dtype.StrD?
    ensures Quiet(text, col, steps) == |steps|
  {
  }

  /** The steps of any column, whatever its values, come to the outcome of the last-writer rule. */
  lemma StepsAreLastWriter(text: Text, col: Column, steps: seq<Step>)
    requires WellTyped(col)
    ensures ApplySteps(text, col, steps) == Outcome(text, col, steps)
  {
    hide ApplyStep, CellsOf, Raises, Turns, Edited, Quiet;
    var n := Quiet(text, col, steps);
    QuietSteps(text, col, steps, n);
    if n == |steps| {
      assert steps[..n] == steps;
    } else {
      var mid := CellsOf(text, col, steps[..n]);
      CellsOfFits(text, col, steps[..n]);
      StepIsCellwise(text, mid, steps[n]);
      BreakAndRest(text, col, steps, n, mid);
    }
  }

  lemma BreakAndRest(text: Text, col: Column, steps: seq<Step>, n: nat, mid: Column)
    requires WellTyped(col) && n < |steps| && ApplySteps(text, col, steps[..n]) == Some(mid)
    requires StepOnCells(text, mid, steps[n], ApplyStep(text, mid, steps[n]))
    requires Raises(text, mid, steps[n]) || Turns(text, mid, steps[n])
    ensures ApplySteps(text, col, steps)
            == if Raises(text, mid, steps[n]) then None
               else Some(CellsOf(text, Column(StrD, Edited(text, mid, steps[n])), steps[n + 1..]))
  {
    hide ApplyEffect, CellsOf, Raises, Edited, Quiet, AllText, PutsText;
    assert steps[..n + 1][..n] == steps[..n];
    assert steps == steps[..n + 1] + steps[n + 1..];
    if Raises(text, mid, steps[n]) {
      RaiseStays(text, col, steps, n + 1);
    } else {
      var turned, rest := Column(StrD, Edited(text, mid, steps[n])), steps[n + 1..];
      StepsFrom(text, col, steps[..n + 1], rest, turned);
      TurnedIsText(text, mid, steps[n]);
      TextIsQuiet(text, turned, rest);
      QuietSteps(text, turned, rest, |rest|);
      assert rest[..|rest|] == rest;
    }
  }

  lemma TurnedIsText(text: Text, col: Column, s: Step)
    requires Turns(text, col, s)
    ensures WellTyped(Column(StrD, Edited(text, col, s)))
  {
    hide Hit;
  }

  lemma NoStep(text: Text, col: Column)
    ensures CellsOf(text, col, []) == col
  {
  }
}
