/** Which lists of date rules the closing repair satisfies on every frame. */
module DateOrder {
  import opened DateRepair
  import opened Values

  /** The rules as the detector writes them: each pair of columns once, and never a column with itself. */
  ghost predicate DetectorList(cs: seq<Constraint>) {
    && (forall i, j :: 0 <= i < j < |cs| ==> cs[i] != cs[j])
    && (forall i :: 0 <= i < |cs| ==> cs[i].start != cs[i].end)
  }

  /** No rule moves the start of an earlier one. */
  ghost predicate NoStartMoves(cs: seq<Constraint>) {
    forall i, j :: 0 <= i < j < |cs| ==> cs[i].start != cs[j].end
  }

  /** On every frame whose rule columns are dates, every rule holds after the repair. */
  ghost predicate AlwaysSatisfied(iso: IsoReader, cs: seq<Constraint>) {
    forall f: Frame :: f.Valid() && AllDates(f, cs) ==> AllHold(Repair(iso, f, cs), cs)
  }

  ghost predicate AllHold(f: Frame, cs: seq<Constraint>)
    requires f.Rectangular()
  {
    forall k :: 0 <= k < |cs| ==> Holds(f, cs[k])
  }

  // ---------------------------------------------------------------------------------------------
  // One row that a rule out of order breaks

  function Day(n: int): Column {
    Column(DateD, [DateC(n)])
  }

  /** One row: a = c = 10 and b = y. */
  function ThreeDates(a: string, b: string, c: string, y: int): Frame {
    Frame(if a == c then [a, b] else [a, b, c], map[a := Day(10), b := Day(y), c := Day(10)], 1)
  }

  lemma ThreeDatesAreValid(a: string, b: string, c: string, y: int, cs: seq<Constraint>)
    requires a != b && b != c
    ensures ThreeDates(a, b, c, y).Valid() && AllDates(ThreeDates(a, b, c, y), cs)
  {
    var f := ThreeDates(a, b, c, y);
    assert f.cols.Keys == {a, b, c};
    DayIsTyped(10);
    DayIsTyped(y);
    hide Day, WellTyped;
  }

  lemma DayIsTyped(n: int)
    ensures WellTyped(Day(n)) && |Day(n).cells| == 1 && Day(n).dtype.DateD?
  {
  }

  /** Day 9 satisfies every rule that does not end in b; a later day every rule that does not start there. */
  lemma HoldsUnless(a: string, b: string, c: string, y: int, rule: Constraint)
    requires a != b && b != c && rule.start != rule.end
    requires if y == 9 then rule != Constraint(a, b) && rule != Constraint(c, b)
             else y > 10 && rule != Constraint(b, c) && rule != Constraint(b, a)
    ensures ThreeDates(a, b, c, y).Rectangular() && Holds(ThreeDates(a, b, c, y), rule)
  {
  }

  lemma RepairsB(iso: IsoReader, a: string, b: string, c: string)
    requires a != b && b != c
    ensures ThreeDates(a, b, c, 9).Rectangular()
    ensures RepairOne(iso, ThreeDates(a, b, c, 9), Constraint(a, b)) == ThreeDates(a, b, c, 10 + REPAIR_DAYS)
  {
    var f, rule := ThreeDates(a, b, c, 9), Constraint(a, b);
    ThreeDatesAreValid(a, b, c, 9, [rule]);
    RepairOneCell(iso, f, rule, 0);
    hide RepairColumn;
    assert RepairOne(iso, f, rule).cols[b].cells == [DateC(10 + REPAIR_DAYS)];
    assert RepairOne(iso, f, rule).cols == ThreeDates(a, b, c, 10 + REPAIR_DAYS).cols;
  }

  /** A rule (a, b) after (b, c), with nothing around them that could mend it: that row ends with b > c. */
  lemma LateRuleBreaks(iso: IsoReader, cs: seq<Constraint>, i: nat, j: nat)
    requires DetectorList(cs) && i < j < |cs| && cs[i].start == cs[j].end
    requires forall k :: 0 <= k < j ==> cs[k] != Constraint(cs[i].end, cs[i].start)
    requires forall k :: j < k < |cs| ==> cs[k] != Constraint(cs[j].end, cs[j].start)
    ensures !AlwaysSatisfied(iso, cs)
  {
    var a, b, c := cs[j].start, cs[j].end, cs[i].end;
    var f, g := ThreeDates(a, b, c, 9), ThreeDates(a, b, c, 10 + REPAIR_DAYS);
    ThreeDatesAreValid(a, b, c, 9, cs);
    ThreeDatesAreValid(a, b, c, 10 + REPAIR_DAYS, cs);
    forall k | 0 <= k < j
      ensures Holds(f, cs[k])
    {
      HoldsUnless(a, b, c, 9, cs[k]);
    }
    forall k | j < k < |cs|
      ensures Holds(g, cs[k])
    {
      HoldsUnless(a, b, c, 10 + REPAIR_DAYS, cs[k]);
    }
    assert !Holds(g, cs[i]) by {
      assert cs[i] == Constraint(b, c) && !g.cols[b].cells[0].Null?;
    }
    hide ThreeDates, Holds, Repair, RepairOne, AllDates;
    ThreeDatesAreValid(a, b, c, 9, cs[..j]);
    ThreeDatesAreValid(a, b, c, 10 + REPAIR_DAYS, cs[j + 1..]);
    AllHoldIsFixed(iso, f, cs[..j]);
    RepairsB(iso, a, b, c);
    AllHoldIsFixed(iso, g, cs[j + 1..]);
    RepairAround(iso, f, cs, j);
    assert Repair(iso, f, cs) == g;
  }

  lemma SomeRuleBreaks(iso: IsoReader, cs: seq<Constraint>, i: nat, j: nat)
    requires DetectorList(cs) && i < j < |cs| && cs[i].start == cs[j].end
    ensures !AlwaysSatisfied(iso, cs)
  {
    hide AlwaysSatisfied;
    var back, forth := Constraint(cs[i].end, cs[i].start), Constraint(cs[j].end, cs[j].start);
    if k :| 0 <= k < |cs| && cs[k] == back {
      OppositeRulesBreak(iso, cs, i, k);
    } else if k :| 0 <= k < |cs| && cs[k] == forth {
      OppositeRulesBreak(iso, cs, j, k);
    } else {
      LateRuleBreaks(iso, cs, i, j);
    }
  }

  /** Both p <= q and q <= p are asked. */
  lemma OppositeRulesBreak(iso: IsoReader, cs: seq<Constraint>, i: nat, k: nat)
    requires DetectorList(cs) && i < |cs| && k < |cs| && cs[k] == Constraint(cs[i].end, cs[i].start)
    ensures !AlwaysSatisfied(iso, cs)
  {
    hide AlwaysSatisfied;
    if i < k {
      LateRuleBreaks(iso, cs, i, k);
    } else {
      LateRuleBreaks(iso, cs, k, i);
    }
  }

  /**
   * For the lists the detector writes: the repair leaves every rule satisfied, on every frame, exactly when
   * no rule moves the start of an earlier one.
   */
  lemma OrderExactly(iso: IsoReader, cs: seq<Constraint>)
    requires DetectorList(cs)
    ensures AlwaysSatisfied(iso, cs) <==> NoStartMoves(cs)
  {
    if NoStartMoves(cs) {
      assert InOrder(cs);
      forall f: Frame | f.Valid() && AllDates(f, cs)
        ensures AllHold(Repair(iso, f, cs), cs)
      {
        RepairSatisfiesAll(iso, f, cs);
      }
    } else {
      var i, j :| 0 <= i < j < |cs| && cs[i].start == cs[j].end;
      SomeRuleBreaks(iso, cs, i, j);
    }
  }
}
