/** DUPLICATE decisions up to the returned frame: the closing strip can undo what the mark achieved. */
module DuplicateReview {
  import opened Decisions
  import opened Duplicates
  import opened Values
  import DecisionOutcome
  import DecisionProperties
  import LastWriter
  import MainDecision
  import Review

  /** No key of the column ends like the mark, stripped or not. */
  ghost predicate StripMarkable(kind: Kind, fold: char -> char, cells: seq<Cell>) {
    && Markable(kind, fold, cells)
    && forall i :: 0 <= i < |cells| && cells[i].StrC? ==> Clean(kind, fold, Strip(cells[i].s))
  }

  predicate Clean(kind: Kind, fold: char -> char, s: string) {
    !EndsWith(Normalise(kind, fold, s), Normalise(kind, fold, MARK))
  }

  /** Two different keys of which the strip makes one. */
  ghost predicate Merges(kind: Kind, fold: char -> char, cells: seq<Cell>) {
    exists i, j :: 0 <= i < |cells| && 0 <= j < |cells| && MergedPair(kind, fold, cells[i], cells[j])
  }

  predicate MergedPair(kind: Kind, fold: char -> char, a: Cell, b: Cell) {
    && a.StrC? && b.StrC? && Strip(a.s) != "" && Strip(b.s) != ""
    && Normalise(kind, fold, a.s) != Normalise(kind, fold, b.s)
    && Normalise(kind, fold, Strip(a.s)) == Normalise(kind, fold, Strip(b.s))
  }

  /** The column after the mark and the closing strip. */
  function Returned(kind: Kind, fold: char -> char, text: Text, cells: seq<Cell>): (r: seq<Cell>)
    ensures |r| == |cells|
  {
    var marked := MarkRows(text, cells, FinderRows(cells, KeyFor(kind, fold, text), BaseFor(kind, fold, text)));
    seq(|cells|, i requires 0 <= i < |cells| => StripCell(marked[i]))
  }

  // ---------------------------------------------------------------------------------------------
  // Normalising and stripping

  lemma {:induction false} LeftDrops(space: char -> bool, s: string)
    requires forall c :: space(c) ==> IsSeparator(c)
    ensures DropSeparators(StripLeft(space, s)) == DropSeparators(s)
  {
    if s != "" && space(s[0]) {
      LeftDrops(space, s[1..]);
      DropSeparatorsConcat(s[..1], s[1..]);
      assert s == s[..1] + s[1..];
      assert s[..1][..0] == "";
    }
  }

  lemma {:induction false} RightDrops(space: char -> bool, s: string)
    requires forall c :: space(c) ==> IsSeparator(c)
    ensures DropSeparators(StripRight(space, s)) == DropSeparators(s)
  {
    if s != "" && space(s[|s| - 1]) {
      RightDrops(space, s[..|s| - 1]);
    }
  }

  /** Emails and phones are compared without the white space that the strip removes. */
  lemma StripKeepsKey(kind: Kind, fold: char -> char, s: string)
    requires !kind.Plain?
    ensures Normalise(kind, fold, Strip(s)) == Normalise(kind, fold, s)
  {
    var space := c => IsSpace(c);
    if kind.Email? {
      TrimIdempotent(space, s);
    } else {
      LeftDrops(space, s);
      RightDrops(space, StripLeft(space, s));
    }
  }

  lemma LeftThenBoth(space: char -> bool, s: string)
    ensures Values.Trim(space, StripLeft(space, s)) == Values.Trim(space, s)
  {
  }

  lemma LeftEndsMarked(space: char -> bool, s: string)
    requires EndsWith(StripLeft(space, s), MARK) && !space(MARK[3])
    ensures Values.Trim(space, s) == StripLeft(space, s)
  {
    var l := StripLeft(space, s);
    assert l[|l| - 1] == MARK[3];
  }

  lemma LeftStaysClean(kind: Kind, fold: char -> char, s: string)
    requires Clean(kind, fold, Strip(s))
    ensures Clean(kind, fold, StripLeft(c => IsSpace(c), s))
  {
    var space := c => IsSpace(c);
    var l := StripLeft(space, s);
    match kind
    case Email =>
      hide StripLeft, StripRight, EndsWith, Lower;
      LeftThenBoth(space, s);
      TrimIdempotent(space, s);
    case Phone =>
      hide StripLeft, StripRight, EndsWith;
      RightDrops(space, l);
    case Plain =>
      hide StripLeft, StripRight;
      if EndsWith(l, MARK) {
        LeftEndsMarked(space, s);
      }
  }

  // ---------------------------------------------------------------------------------------------
  // The returned column, cell by cell

  lemma StrippedMark(text: Text, s: string)
    requires !EndsWith(s, MARK)
    ensures StripCell(MarkCell(text, StrC(s))) == StrC(StripLeft(c => IsSpace(c), s) + MARK)
  {
    hide StripLeft, EndsWith;
    TrimMarked(c => IsSpace(c), s, MARK);
    hide Values.Trim;
    assert Strip(s + MARK) == StripLeft(c => IsSpace(c), s) + MARK;
  }

  lemma MarkRemoved(l: string)
    ensures RemoveMark(l + MARK) == l
  {
    EndsWithConcat(l, MARK);
    assert (l + MARK)[..|l + MARK| - |MARK|] == l;
  }

  lemma RepeatReturned(kind: Kind, fold: char -> char, text: Text, s: string)
    requires Clean(kind, fold, s) && Clean(kind, fold, Strip(s))
    ensures var after := StripCell(MarkCell(text, StrC(s)));
            && after.StrC?
            && !Clean(kind, fold, PyStr(text, after)) && Clean(kind, fold, RemoveMark(PyStr(text, after)))
  {
    hide StripLeft, EndsWith, Normalise, Strip, StripCell, MarkCell, RemoveMark;
    if EndsWith(s, MARK) {
      EndingKey(kind, fold, s);
    }
    StrippedMark(text, s);
    var l := StripLeft(c => IsSpace(c), s);
    LeftStaysClean(kind, fold, s);
    MarkRemoved(l);
    MarkSurvives(kind, fold, l);
  }

  lemma FirstReturned(kind: Kind, fold: char -> char, text: Text, s: string)
    requires Clean(kind, fold, Strip(s)) && Strip(s) != ""
    ensures StripCell(StrC(s)) == StrC(Strip(s)) && RemoveMark(Strip(s)) == Strip(s)
  {
    hide Strip;
    if EndsWith(Strip(s), MARK) {
      EndingKey(kind, fold, Strip(s));
    }
  }

  /** Every row of the returned column: null, a marked repeat, or a stripped first occurrence. */
  lemma ReturnedCell(kind: Kind, fold: char -> char, text: Text, cells: seq<Cell>, i: nat)
    requires StripMarkable(kind, fold, cells) && i < |cells|
    ensures var key, base := KeyFor(kind, fold, text), BaseFor(kind, fold, text);
            var after := Returned(kind, fold, text, cells)[i];
            if cells[i].Null? then after.Null?
            else if RepeatAt(cells, key, i) then
              && after.StrC? && EndsWith(key(after), Normalise(kind, fold, MARK))
              && !EndsWith(base(after), Normalise(kind, fold, MARK))
            else if Strip(cells[i].s) == "" then after.Null?
            else
              && after.StrC? && key(after) == base(after) == Normalise(kind, fold, Strip(cells[i].s))
              && !EndsWith(base(after), Normalise(kind, fold, MARK))
  {
    hide Strip, FinderRows, MarkCell;
    var key, base := KeyFor(kind, fold, text), BaseFor(kind, fold, text);
    MarkableIsUnmarked(kind, fold, text, cells);
    FinderIsExact(cells, key, base);
    if cells[i].StrC? {
      if RepeatAt(cells, key, i) {
        RepeatReturned(kind, fold, text, cells[i].s);
      } else if Strip(cells[i].s) != "" {
        FirstReturned(kind, fold, text, cells[i].s);
      }
    } else {
      NullIsNotMarked(text);
    }
  }

  lemma NullIsNotMarked(text: Text)
    ensures StripCell(MarkCell(text, Null)) == Null
  {
  }

  // ---------------------------------------------------------------------------------------------
  // What the finder finds on the returned column

  lemma {:induction false} CollectedExactly(cells: seq<Cell>, base: KeyOf, dup: set<string>, r: nat)
    requires r < |cells|
    ensures r in Collected(cells, base, dup)
            <==> && !cells[r].Null? && base(cells[r]) in dup
                 && exists j :: 0 <= j < r && !cells[j].Null? && base(cells[j]) == base(cells[r])
  {
    var n := |cells| - 1;
    if r < n {
      CollectedExactly(cells[..n], base, dup, r);
    } else {
      assert n !in Collected(cells[..n], base, dup);
      if !cells[n].Null? && base(cells[n]) in dup {
        SeenExactly(cells, base, dup, n);
      }
    }
  }

  lemma SeenExactly(cells: seq<Cell>, base: KeyOf, dup: set<string>, n: nat)
    requires n < |cells| && !cells[n].Null? && base(cells[n]) in dup
    ensures base(cells[n]) in Seen(cells[..n], base, dup)
            <==> exists j :: 0 <= j < n && !cells[j].Null? && base(cells[j]) == base(cells[n])
  {
    if exists j :: 0 <= j < n && !cells[j].Null? && base(cells[j]) == base(cells[n]) {
      var j :| 0 <= j < n && !cells[j].Null? && base(cells[j]) == base(cells[n]);
      assert cells[..n][j] == cells[j];
      assert cells[j] in cells[..n];
    }
  }

  /** A key is repeated exactly when two rows carry it. */
  lemma RepeatedExactly(cells: seq<Cell>, key: KeyOf, k: string)
    ensures k in Repeated(Keys(cells, key))
            <==> exists i, j :: 0 <= i < j < |cells| && !cells[i].Null? && !cells[j].Null?
                                && key(cells[i]) == key(cells[j]) == k
  {
    RepeatedIffRepeat(cells, key, |cells|, k);
    assert cells[..|cells|] == cells;
    if exists i :: 0 <= i < |cells| && RepeatAt(cells, key, i) && key(cells[i]) == k {
      var i :| 0 <= i < |cells| && RepeatAt(cells, key, i) && key(cells[i]) == k;
      KeysMember(cells, key, k);
    }
  }

  /** Whatever is found on the returned column comes from two keys that the strip has merged. */
  lemma FoundMeansMerged(kind: Kind, fold: char -> char, text: Text, cells: seq<Cell>, r: nat)
    requires StripMarkable(kind, fold, cells)
    requires r in FinderRows(Returned(kind, fold, text, cells), KeyFor(kind, fold, text), BaseFor(kind, fold, text))
    ensures Merges(kind, fold, cells)
  {
    hide Strip, FinderRows, Returned, Normalise, EndsWith;
    var key, base, after := KeyFor(kind, fold, text), BaseFor(kind, fold, text), Returned(kind, fold, text, cells);
    FoundIsRepeated(after, key, base, r);
    var b := base(after[r]);
    ReturnedCell(kind, fold, text, cells, r);
    RepeatedExactly(after, key, b);
    var p, q :| 0 <= p < q < |after| && !after[p].Null? && !after[q].Null? && key(after[p]) == key(after[q]) == b;
    ReturnedCell(kind, fold, text, cells, p);
    ReturnedCell(kind, fold, text, cells, q);
    assert !RepeatAt(cells, key, q);
    assert MergedPair(kind, fold, cells[p], cells[q]);
  }

  lemma FoundIsRepeated(cells: seq<Cell>, key: KeyOf, base: KeyOf, r: nat)
    requires r in FinderRows(cells, key, base)
    ensures r < |cells| && !cells[r].Null? && base(cells[r]) in Repeated(Keys(cells, key))
  {
  }

  /** Two plain keys that the strip merges are found again. */
  lemma MergedIsFound(fold: char -> char, text: Text, cells: seq<Cell>)
    requires StripMarkable(Plain, fold, cells) && Merges(Plain, fold, cells)
    ensures FinderRows(Returned(Plain, fold, text, cells), KeyFor(Plain, fold, text), BaseFor(Plain, fold, text)) != []
  {
    hide *;
    var key, base, after := KeyFor(Plain, fold, text), BaseFor(Plain, fold, text), Returned(Plain, fold, text, cells);
    var i, j := MergedRows(fold, cells);
    var p := FirstOf(fold, text, cells, i);
    var q := FirstOf(fold, text, cells, j);
    TwoAreFound(after, key, base, if p < q then p else q, if p < q then q else p);
  }

  lemma MergedRows(fold: char -> char, cells: seq<Cell>) returns (i: nat, j: nat)
    requires Merges(Plain, fold, cells)
    ensures i < |cells| && j < |cells| && cells[i].StrC? && cells[j].StrC?
    ensures cells[i].s != cells[j].s && Strip(cells[i].s) == Strip(cells[j].s) != ""
  {
    hide Strip;
    i, j :| i < |cells| && j < |cells| && MergedPair(Plain, fold, cells[i], cells[j]);
  }

  /** The first row with a plain value, on the returned column. */
  lemma FirstOf(fold: char -> char, text: Text, cells: seq<Cell>, i: nat) returns (p: nat)
    requires StripMarkable(Plain, fold, cells) && i < |cells| && cells[i].StrC? && Strip(cells[i].s) != ""
    ensures p < |cells| && cells[p] == cells[i]
    ensures var after := Returned(Plain, fold, text, cells)[p];
            && after.StrC?
            && KeyFor(Plain, fold, text)(after) == BaseFor(Plain, fold, text)(after) == Strip(cells[i].s)
  {
    hide Strip, Returned, EndsWith;
    p := FirstRow(cells, KeyFor(Plain, fold, text), i);
    ReturnedCell(Plain, fold, text, cells, p);
  }

  lemma TwoAreFound(cells: seq<Cell>, key: KeyOf, base: KeyOf, i: nat, j: nat)
    requires i < j < |cells| && !cells[i].Null? && !cells[j].Null?
    requires key(cells[i]) == key(cells[j]) == base(cells[i]) == base(cells[j])
    ensures FinderRows(cells, key, base) != []
  {
    RepeatedExactly(cells, key, key(cells[j]));
    CollectedExactly(cells, base, Repeated(Keys(cells, key)), j);
  }

  /** The first row with the key of row `i`. */
  ghost function FirstRow(cells: seq<Cell>, key: KeyOf, i: nat): (p: nat)
    requires i < |cells| && !cells[i].Null?
    ensures p <= i && !cells[p].Null? && key(cells[p]) == key(cells[i]) && !RepeatAt(cells, key, p)
  {
    if RepeatAt(cells, key, i) then
      var j :| 0 <= j < i && !cells[j].Null? && key(cells[j]) == key(cells[i]);
      FirstRow(cells, key, j)
    else i
  }

  // ---------------------------------------------------------------------------------------------
  // The returned frame

  /** For emails and phones the strip merges nothing and hides no mark. */
  lemma NothingMerges(kind: Kind, fold: char -> char, cells: seq<Cell>)
    requires !kind.Plain? && Markable(kind, fold, cells)
    ensures StripMarkable(kind, fold, cells) && !Merges(kind, fold, cells)
  {
    hide Strip, Normalise, EndsWith;
    forall i | 0 <= i < |cells| && cells[i].StrC?
      ensures Normalise(kind, fold, Strip(cells[i].s)) == Normalise(kind, fold, cells[i].s)
    {
      StripKeepsKey(kind, fold, cells[i].s);
    }
  }

  /**
   * After a kept DUPLICATE decision on a text column the finder finds nothing on the returned frame: for
   * emails and phones always, for other columns exactly when the strip merges no two of its values.
   */
  lemma ReturnedDuplicates(env: Env, det: Review.Detectors, df: Frame, anomalies: seq<Anomaly>,
                           decisions: seq<Decision>, d: Decision, c: string)
    requires Review.Uses(env, det) && df.Valid() && FindsRows(env, df) && decisions != [] && c in df.cols
    requires MainDecision.Main(ToAnomalyMap(anomalies), ToDecisionMap(decisions), d, c)
    requires MainDecision.Untrimmed(ToAnomalyMap(anomalies), ToDecisionMap(decisions), c)
    requires ToAnomalyMap(anomalies)[d.anomalyId].kind.Duplicate? && !d.action.Discarded?
    requires DecisionOutcome.EndsNothing(anomalies, c) && df.cols[c].dtype.StrD?
    requires Markable(det.kind(c), det.fold, df.cols[c].cells)
    requires det.kind(c).Plain? ==> StripMarkable(det.kind(c), det.fold, df.cols[c].cells)
    ensures match Apply(env, df, anomalies, decisions)
            case None => true
            case Some(r) =>
              var found := env.finder(ToAnomalyMap(anomalies)[d.anomalyId], r);
              if det.kind(c).Plain? then found == [] <==> !Merges(det.kind(c), det.fold, df.cols[c].cells)
              else found == []
  {
    hide Apply, ToDecisionMap, ToAnomalyMap, MainDecision.Main, DecisionOutcome.EndsNothing, FinderRows,
         MarkRows, Markable,
         StripMarkable, Merges, KeyFor, BaseFor, StripCell;
    if Apply(env, df, anomalies, decisions).None? {
      return;
    }
    MainDecision.OneEffect(env, df, anomalies, decisions, d, c);
    var a, kind, fold, cells := ToAnomalyMap(anomalies)[d.anomalyId], det.kind(c), det.fold, df.cols[c].cells;
    var rows := FinderRows(cells, KeyFor(kind, fold, env.text), BaseFor(kind, fold, env.text));
    assert DecisionProperties.StepOf(env, df, ToAnomalyMap(anomalies), d) == DecisionProperties.Step(rows, Mark);
    Review.MarkedText(env.text, df.cols[c], rows);
    var after := Apply(env, df, anomalies, decisions).value.cols[c];
    assert after.cells == Returned(kind, fold, env.text, cells);
    ReturnedFindings(kind, fold, env.text, cells);
    assert env.finder(a, Apply(env, df, anomalies, decisions).value)
        == FinderRows(after.cells, KeyFor(kind, fold, env.text), BaseFor(kind, fold, env.text));
  }

  lemma ReturnedFindings(kind: Kind, fold: char -> char, text: Text, cells: seq<Cell>)
    requires Markable(kind, fold, cells) && (kind.Plain? ==> StripMarkable(kind, fold, cells))
    ensures var key, base := KeyFor(kind, fold, text), BaseFor(kind, fold, text);
            var found := FinderRows(Returned(kind, fold, text, cells), key, base);
            if kind.Plain? then found == [] <==> !Merges(kind, fold, cells) else found == []
  {
    hide FinderRows, Returned, Markable, StripMarkable, Merges, KeyFor, BaseFor;
    if !kind.Plain? {
      NothingMerges(kind, fold, cells);
    }
    var found := FinderRows(Returned(kind, fold, text, cells), KeyFor(kind, fold, text), BaseFor(kind, fold, text));
    if found != [] {
      assert found[0] in found;
      FoundMeansMerged(kind, fold, text, cells, found[0]);
    } else if kind.Plain? && Merges(kind, fold, cells) {
      MergedIsFound(fold, text, cells);
    }
  }

  // ---------------------------------------------------------------------------------------------
  // Columns that hold no text

  /** The first of the rows that share a key is never found. */
  lemma FirstIsNotFound(cells: seq<Cell>, base: KeyOf, dup: set<string>, r: nat) returns (p: nat)
    requires r in Collected(cells, base, dup)
    ensures p < |cells| && !cells[p].Null? && p !in Collected(cells, base, dup)
  {
    p := FirstRow(cells, base, r);
    CollectedExactly(cells, base, dup, p);
  }

  /**
   * On a column of another type the decision raises exactly when it finds a value that does not print with
   * the mark.
   */
  lemma TypedDuplicatesRaise(env: Env, det: Review.Detectors, snap: Frame, a: Anomaly, d: Decision)
    requires Review.Uses(env, det) && snap.Valid() && FindsRows(env, snap) && a.column in snap.cols
    requires a.kind.Duplicate? && !d.action.Discarded? && !snap.cols[a.column].dtype.StrD?
    ensures DecideColumn(env, snap, snap, a, d) == None
            <==> exists r :: r in env.finder(a, snap) && !EndsWith(PyStr(env.text, snap.cols[a.column].cells[r]), MARK)
  {
    hide FinderRows, EndsWith, PyStr, StripLeft, KeyFor, BaseFor;
    var col, s := snap.cols[a.column], DecisionProperties.Step(env.finder(a, snap), Mark);
    LastWriter.StepIsCellwise(env.text, col, s);
    forall r: nat | r in s.rows
      ensures r < |col.cells| && !col.cells[r].Null?
      ensures LastWriter.Hit(env.text, col.dtype, s, col.cells[r])
              == if EndsWith(PyStr(env.text, col.cells[r]), MARK) then col.cells[r]
                 else StrC(PyStr(env.text, col.cells[r]) + MARK)
    {
    }
    if exists r :: r in s.rows && !EndsWith(PyStr(env.text, col.cells[r]), MARK) {
      var r :| r in s.rows && !EndsWith(PyStr(env.text, col.cells[r]), MARK);
      var p := FirstOfFound(det, env.text, a, col, r);
      assert LastWriter.Edited(env.text, col, s)[p] == col.cells[p];
      assert LastWriter.PutsText(env.text, col, s);
    }
  }

  lemma FirstOfFound(det: Review.Detectors, text: Text, a: Anomaly, col: Column, r: nat) returns (p: nat)
    requires WellTyped(col) && !col.dtype.StrD?
    requires var kind := det.kind(a.column);
             r in FinderRows(col.cells, KeyFor(kind, det.fold, text), BaseFor(kind, det.fold, text))
    ensures p < |col.cells| && !col.cells[p].Null? && !col.cells[p].StrC?
    ensures var kind := det.kind(a.column);
            p !in FinderRows(col.cells, KeyFor(kind, det.fold, text), BaseFor(kind, det.fold, text))
  {
    hide KeyFor, BaseFor;
    var key, base := KeyFor(det.kind(a.column), det.fold, text), BaseFor(det.kind(a.column), det.fold, text);
    p := FirstIsNotFound(col.cells, base, Repeated(Keys(col.cells, key)), r);
    assert Fits(col.dtype, col.cells[p]);
  }

  /** Such a frame: an integer column that holds 5 twice, which the finder finds and the decision cannot mark. */
  lemma TwoFivesRaise(env: Env, det: Review.Detectors, a: Anomaly, d: Decision)
    requires Review.Uses(env, det) && a.kind.Duplicate? && !d.action.Discarded? && det.kind(a.column).Plain?
    requires !EndsWith(env.text.show(IntC(5)), MARK)
    ensures var snap := Frame([a.column], map[a.column := Column(IntD, [IntC(5), IntC(5)])], 2);
            snap.Valid() && FindsRows(env, snap) && DecideColumn(env, snap, snap, a, d) == None
  {
    hide FinderRows, EndsWith, DecideColumn;
    var cells := [IntC(5), IntC(5)];
    var snap := Frame([a.column], map[a.column := Column(IntD, cells)], 2);
    Review.FindersStayInside(env, det, snap);
    var key, base := KeyFor(Plain, det.fold, env.text), BaseFor(Plain, det.fold, env.text);
    assert Unmarked(cells, key, base);
    FinderIsExact(cells, key, base);
    assert RepeatAt(cells, key, 1) by {
      assert key(cells[0]) == key(cells[1]);
    }
    assert 1 in FinderRows(cells, key, base);
    TypedDuplicatesRaise(env, det, snap, a, d);
  }
}
