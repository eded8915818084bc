/**
 * The DUPLICATE anomaly: the detector counts surplus occurrences from a value count, the finder walks
 * the rows and flags every occurrence but the first, the decision loop marks the flagged cells.
 */
module Duplicates {
  import opened Rows
  import opened ValueCounts
  import opened Values

  const MARK := "_DUP"

  /** The comparison key of a non-null cell. */
  type KeyOf = Cell -> string

  function Keys(cells: seq<Cell>, key: KeyOf): seq<string> {
    if cells == [] then []
    else
      var init, c := Keys(cells[..|cells| - 1], key), cells[|cells| - 1];
      if c.Null? then init else init + [key(c)]
  }

  // ---------------------------------------------------------------------------------------------
  // The detector

  /** `(dups["count"] - 1).sum()` over the entries with count above one. */
  function Surplus(vc: seq<(string, nat)>): nat {
    if vc == [] then 0
    else Surplus(vc[..|vc| - 1]) + (if vc[|vc| - 1].1 > 1 then vc[|vc| - 1].1 - 1 else 0)
  }

  // ---------------------------------------------------------------------------------------------
  // The finder: `key` counts, `base` (the key without the mark) collects

  function Repeated(keys: seq<string>): set<string> {
    set k | k in keys && Occurrences(keys, k) > 1
  }

  /** The base keys of the rows before `n` that are due for marking. */
  function Seen(cells: seq<Cell>, base: KeyOf, dup: set<string>): set<string> {
    set c | c in cells && !c.Null? && base(c) in dup :: base(c)
  }

  function Collected(cells: seq<Cell>, base: KeyOf, dup: set<string>): (rows: seq<nat>)
    ensures forall r :: r in rows ==> r < |cells| && !cells[r].Null? && base(cells[r]) in dup
  {
    if cells == [] then []
    else
      var n := |cells| - 1;
      var init, c := Collected(cells[..n], base, dup), cells[n];
      if !c.Null? && base(c) in dup && base(c) in Seen(cells[..n], base, dup) then init + [n] else init
  }

  function FinderRows(cells: seq<Cell>, key: KeyOf, base: KeyOf): (rows: seq<nat>)
    ensures forall r :: r in rows ==> r < |cells| && !cells[r].Null?
  {
    Collected(cells, base, Repeated(Keys(cells, key)))
  }

  /** `_find_duplicate`. */
  method FindDuplicate(cells: seq<Cell>, key: KeyOf, base: KeyOf) returns (rows: seq<nat>)
    ensures rows == FinderRows(cells, key, base)
  {
    var valCount := CountKeys(cells, key);
    var dupKeys := set k | k in valCount && valCount[k] > 1;
    assert dupKeys == Repeated(Keys(cells, key));
    rows := [];
    if dupKeys == {} {
      NoneCollected(cells, base);
      return;
    }
    rows := CollectRepeats(cells, base, dupKeys);
  }

  method CollectRepeats(cells: seq<Cell>, base: KeyOf, dupKeys: set<string>) returns (rows: seq<nat>)
    ensures rows == Collected(cells, base, dupKeys)
  {
    rows := [];
    var seen: set<string> := {};
    for i := 0 to |cells|
      invariant rows == Collected(cells[..i], base, dupKeys)
      invariant seen == Seen(cells[..i], base, dupKeys)
    {
      SeenStep(cells[..i], cells[i], base, dupKeys);
      assert cells[..i + 1][..i] == cells[..i];
      assert cells[..i + 1] == cells[..i] + [cells[i]];
      if !cells[i].Null? {
        var b := base(cells[i]);
        if b in dupKeys {
          if b in seen {
            rows := rows + [i];
          } else {
            seen := seen + {b};
          }
        }
      }
    }
    assert cells[..|cells|] == cells;
  }

  lemma SeenStep(init: seq<Cell>, c: Cell, base: KeyOf, dup: set<string>)
    ensures Seen(init + [c], base, dup)
            == Seen(init, base, dup) + (if !c.Null? && base(c) in dup then {base(c)} else {})
  {
    assert forall x :: x in init + [c] <==> x in init || x == c;
  }

  method CountKeys(cells: seq<Cell>, key: KeyOf) returns (valCount: map<string, nat>)
    ensures forall k :: k in valCount <==> k in Keys(cells, key)
    ensures forall k :: k in valCount ==> valCount[k] == Occurrences(Keys(cells, key), k)
  {
    valCount := map[];
    for i := 0 to |cells|
      invariant forall k :: k in valCount <==> k in Keys(cells[..i], key)
      invariant forall k :: k in valCount ==> valCount[k] == Occurrences(Keys(cells[..i], key), k)
    {
      assert cells[..i + 1][..i] == cells[..i];
      if !cells[i].Null? {
        var k := key(cells[i]);
        ghost var before := Keys(cells[..i], key);
        assert k !in before ==> multiset(before)[k] == 0;
        valCount := valCount[k := (if k in valCount then valCount[k] else 0) + 1];
      }
    }
    assert cells[..|cells|] == cells;
  }

  lemma {:induction false} NoneCollected(cells: seq<Cell>, base: KeyOf)
    ensures Collected(cells, base, {}) == []
  {
    if cells != [] {
      NoneCollected(cells[..|cells| - 1], base);
    }
  }

  // ---------------------------------------------------------------------------------------------
  // Exactness

  /** Row `i` holds a key that an earlier row already holds. */
  predicate RepeatAt(cells: seq<Cell>, key: KeyOf, i: nat)
    requires i < |cells|
  {
    !cells[i].Null? && exists j :: 0 <= j < i && !cells[j].Null? && key(cells[j]) == key(cells[i])
  }

  /** All non-first occurrences among the first `n` rows, in order. */
  function Repeats(cells: seq<Cell>, key: KeyOf, n: nat): (rows: seq<nat>)
    requires n <= |cells|
    ensures forall i :: i in rows <==> 0 <= i < n && RepeatAt(cells, key, i)
    ensures forall a, b :: 0 <= a < b < |rows| ==> rows[a] < rows[b]
  {
    if n == 0 then []
    else
      var init := Repeats(cells, key, n - 1);
      assert forall a :: 0 <= a < |init| ==> init[a] in init;
      if RepeatAt(cells, key, n - 1) then init + [n - 1] else init
  }

  /** The mark is on no cell yet, so stripping it changes no key. */
  ghost predicate Unmarked(cells: seq<Cell>, key: KeyOf, base: KeyOf) {
    forall i :: 0 <= i < |cells| && !cells[i].Null? ==> base(cells[i]) == key(cells[i])
  }

  lemma {:induction false} KeysMember(cells: seq<Cell>, key: KeyOf, k: string)
    ensures k in Keys(cells, key) <==> exists j :: 0 <= j < |cells| && !cells[j].Null? && key(cells[j]) == k
  {
    if cells != [] {
      var n := |cells| - 1;
      KeysMember(cells[..n], key, k);
      if k in Keys(cells[..n], key) {
        var j :| 0 <= j < n && !cells[..n][j].Null? && key(cells[..n][j]) == k;
        assert !cells[j].Null? && key(cells[j]) == k;
      }
    }
  }

  /** One more row adds one to the count of its own key. */
  lemma OccurrencesStep(cells: seq<Cell>, key: KeyOf, n: nat, k: string)
    requires 0 < n <= |cells|
    ensures Occurrences(Keys(cells[..n], key), k) == Occurrences(Keys(cells[..n - 1], key), k)
            + (if !cells[n - 1].Null? && key(cells[n - 1]) == k then 1 else 0)
    ensures Occurrences(Keys(cells[..n - 1], key), k) > 0 <==>
            exists j :: 0 <= j < n - 1 && !cells[j].Null? && key(cells[j]) == k
  {
    assert cells[..n][..n - 1] == cells[..n - 1];
    KeysMember(cells[..n - 1], key, k);
    assert forall j :: 0 <= j < n - 1 ==> cells[..n - 1][j] == cells[j];
    assert k in multiset(Keys(cells[..n - 1], key)) <==> k in Keys(cells[..n - 1], key);
  }

  /** A key is counted more than once exactly when some row repeats it. */
  lemma {:induction false} RepeatedIffRepeat(cells: seq<Cell>, key: KeyOf, n: nat, k: string)
    requires n <= |cells|
    ensures Occurrences(Keys(cells[..n], key), k) > 1 <==>
            exists i :: 0 <= i < n && RepeatAt(cells, key, i) && key(cells[i]) == k
  {
    if n > 0 {
      RepeatedIffRepeat(cells, key, n - 1, k);
      OccurrencesStep(cells, key, n, k);
      hide Keys, Occurrences;
    }
  }

  /** A row is due for marking exactly when it repeats a key. */
  lemma DueIffRepeat(cells: seq<Cell>, key: KeyOf, base: KeyOf, m: nat)
    requires m < |cells| && Unmarked(cells, key, base) && !cells[m].Null?
    ensures var dup := Repeated(Keys(cells, key));
            RepeatAt(cells, key, m) <==> base(cells[m]) in dup && base(cells[m]) in Seen(cells[..m], base, dup)
  {
    var k, dup := key(cells[m]), Repeated(Keys(cells, key));
    if RepeatAt(cells, key, m) {
      RepeatedIffRepeat(cells, key, |cells|, k);
      assert cells[..|cells|] == cells;
      KeysMember(cells, key, k);
      var j :| 0 <= j < m && !cells[j].Null? && key(cells[j]) == k;
      assert cells[j] in cells[..m];
    }
  }

  lemma {:induction false} CollectedAreRepeats(cells: seq<Cell>, key: KeyOf, base: KeyOf, n: nat)
    requires n <= |cells| && Unmarked(cells, key, base)
    ensures Collected(cells[..n], base, Repeated(Keys(cells, key))) == Repeats(cells, key, n)
  {
    if n > 0 {
      CollectedAreRepeats(cells, key, base, n - 1);
      assert cells[..n][..n - 1] == cells[..n - 1];
      if !cells[n - 1].Null? {
        DueIffRepeat(cells, key, base, n - 1);
      }
    }
  }

  /** On a column without marks the finder returns, in order, exactly the non-first occurrences. */
  lemma FinderIsExact(cells: seq<Cell>, key: KeyOf, base: KeyOf)
    requires Unmarked(cells, key, base)
    ensures FinderRows(cells, key, base) == Repeats(cells, key, |cells|)
  {
    CollectedAreRepeats(cells, key, base, |cells|);
    assert cells[..|cells|] == cells;
  }

  // The count on the anomaly record

  lemma {:induction false} RepeatsCount(cells: seq<Cell>, key: KeyOf, n: nat)
    requires n <= |cells|
    ensures |Repeats(cells, key, n)| + |KeySet(Keys(cells[..n], key))| == |Keys(cells[..n], key)|
  {
    if n == 0 {
      assert KeySet(Keys(cells[..0], key)) == {};
    } else {
      var m := n - 1;
      RepeatsCount(cells, key, m);
      assert cells[..n][..m] == cells[..m];
      if !cells[m].Null? {
        var k := key(cells[m]);
        var before := Keys(cells[..m], key);
        KeysMember(cells[..m], key, k);
        assert RepeatAt(cells, key, m) <==> k in before;
        assert Keys(cells[..n], key) == before + [k];
        assert k in before ==> KeySet(before + [k]) == KeySet(before);
        assert KeySet(before + [k]) == KeySet(before) + {k};
      }
    }
  }

  lemma {:induction false} SurplusIsTotal(vc: seq<(string, nat)>)
    requires forall i :: 0 <= i < |vc| ==> vc[i].1 > 0
    ensures Surplus(vc) + |vc| == Total(vc)
  {
    if vc != [] {
      SurplusIsTotal(vc[..|vc| - 1]);
    }
  }

  /** Whatever order the value count lists the keys in, its surplus is the number of rows flagged. */
  lemma DetectorMatchesFinder(cells: seq<Cell>, key: KeyOf, base: KeyOf, vc: seq<(string, nat)>)
    requires Unmarked(cells, key, base)
    requires IsValueCounts(vc, Keys(cells, key))
    ensures Surplus(vc) == |FinderRows(cells, key, base)|
  {
    FinderIsExact(cells, key, base);
    RepeatsCount(cells, key, |cells|);
    assert cells[..|cells|] == cells;
    TotalIsLength(vc, Keys(cells, key));
    SurplusIsTotal(vc);
  }

  // ---------------------------------------------------------------------------------------------
  // The keys in use, and what a second run does

  /** How a column is compared: emails trimmed and lowered, phones without separators, the rest as is. */
  datatype Kind = Email | Phone | Plain

  /** `fold` lower-cases one character. */
  function Lower(fold: char -> char, s: string): (r: string)
    ensures |r| == |s|
    ensures forall i :: 0 <= i < |s| ==> r[i] == fold(s[i])
  {
    seq(|s|, i requires 0 <= i < |s| => fold(s[i]))
  }

  predicate IsSeparator(c: char) {
    IsSpace(c) || c in {'-', '(', ')', '+', '.'}
  }

  function DropSeparators(s: string): string {
    if s == "" then ""
    else
      var init, c := DropSeparators(s[..|s| - 1]), s[|s| - 1];
      if IsSeparator(c) then init else init + [c]
  }

  function Normalise(kind: Kind, fold: char -> char, s: string): string {
    match kind
    case Email => Lower(fold, Strip(s))
    case Phone => DropSeparators(s)
    case Plain => s
  }

  predicate EndsWith(s: string, t: string) {
    |s| >= |t| && s[|s| - |t|..] == t
  }

  /** `s.removesuffix("_DUP")`. */
  function RemoveMark(s: string): string {
    if EndsWith(s, MARK) then s[..|s| - |MARK|] else s
  }

  function KeyFor(kind: Kind, fold: char -> char, text: Text): KeyOf {
    c => Normalise(kind, fold, PyStr(text, c))
  }

  function BaseFor(kind: Kind, fold: char -> char, text: Text): KeyOf {
    c => Normalise(kind, fold, RemoveMark(PyStr(text, c)))
  }

  /** What the decision loop writes into a flagged cell. */
  function MarkCell(text: Text, c: Cell): Cell {
    if c.Null? || EndsWith(PyStr(text, c), MARK) then c else StrC(PyStr(text, c) + MARK)
  }

  function MarkRows(text: Text, cells: seq<Cell>, rows: seq<nat>): (r: seq<Cell>)
    ensures |r| == |cells|
  {
    MapRows(cells, rows, c => MarkCell(text, c))
  }

  /** No key of the column ends like the mark, once normalised the same way. */
  ghost predicate Markable(kind: Kind, fold: char -> char, cells: seq<Cell>) {
    && (forall i :: 0 <= i < |cells| ==> cells[i].Null? || cells[i].StrC?)
    && (forall i :: 0 <= i < |cells| && cells[i].StrC? ==>
          !EndsWith(Normalise(kind, fold, cells[i].s), Normalise(kind, fold, MARK)))
  }

  lemma {:induction false} StripLeftMarked(space: char -> bool, w: string, mark: string)
    requires mark != "" && !space(mark[0])
    ensures StripLeft(space, w + mark) == StripLeft(space, w) + mark
  {
    if w == "" {
      assert w + mark == mark;
    } else if space(w[0]) {
      StripLeftMarked(space, w[1..], mark);
      assert (w + mark)[1..] == w[1..] + mark;
      assert (w + mark)[0] == w[0];
    } else {
      assert (w + mark)[0] == w[0];
      assert StripLeft(space, w) == w;
    }
  }

  /** Trimming leaves a suffix alone that neither begins nor ends in white space. */
  lemma TrimMarked(space: char -> bool, w: string, mark: string)
    requires mark != "" && !space(mark[0]) && !space(mark[|mark| - 1])
    ensures Trim(space, w + mark) == StripLeft(space, w) + mark
  {
    StripLeftMarked(space, w, mark);
  }

  lemma LowerConcat(fold: char -> char, a: string, b: string)
    ensures Lower(fold, a + b) == Lower(fold, a) + Lower(fold, b)
  {
  }

  lemma EndsWithConcat(a: string, b: string)
    ensures EndsWith(a + b, b)
  {
  }

  lemma {:induction false} DropSeparatorsConcat(a: string, b: string)
    ensures DropSeparators(a + b) == DropSeparators(a) + DropSeparators(b)
  {
    if b == "" {
      assert a + b == a;
    } else {
      DropSeparatorsConcat(a, b[..|b| - 1]);
      assert (a + b)[..|a + b| - 1] == a + b[..|b| - 1];
    }
  }

  /** Normalising never hides the mark. */
  lemma MarkSurvives(kind: Kind, fold: char -> char, w: string)
    ensures EndsWith(Normalise(kind, fold, w + MARK), Normalise(kind, fold, MARK))
  {
    match kind
    case Email =>
      var space := c => IsSpace(c);
      TrimMarked(space, w, MARK);
      TrimMarked(space, "", MARK);
      assert "" + MARK == MARK;
      LowerConcat(fold, StripLeft(space, w), MARK);
      EndsWithConcat(Lower(fold, StripLeft(space, w)), Lower(fold, MARK));
    case Phone =>
      DropSeparatorsConcat(w, MARK);
      EndsWithConcat(DropSeparators(w), DropSeparators(MARK));
    case Plain =>
      EndsWithConcat(w, MARK);
  }

  lemma EndingKey(kind: Kind, fold: char -> char, s: string)
    requires EndsWith(s, MARK)
    ensures EndsWith(Normalise(kind, fold, s), Normalise(kind, fold, MARK))
  {
    var w := s[..|s| - |MARK|];
    assert s == w + MARK;
    MarkSurvives(kind, fold, w);
  }

  lemma MarkableIsUnmarked(kind: Kind, fold: char -> char, text: Text, cells: seq<Cell>)
    requires Markable(kind, fold, cells)
    ensures Unmarked(cells, KeyFor(kind, fold, text), BaseFor(kind, fold, text))
    ensures forall i :: 0 <= i < |cells| && cells[i].StrC? ==> !EndsWith(cells[i].s, MARK)
  {
    forall i | 0 <= i < |cells| && cells[i].StrC?
      ensures !EndsWith(cells[i].s, MARK)
    {
      if EndsWith(cells[i].s, MARK) {
        EndingKey(kind, fold, cells[i].s);
      }
    }
  }

  /** After marking, the key of an original value belongs to its first occurrence alone. */
  lemma FirstStandsAlone(cells: seq<Cell>, after: seq<Cell>, key: KeyOf, k: string)
    requires |after| == |cells|
    requires forall i :: 0 <= i < |cells| ==> (after[i].Null? <==> cells[i].Null?)
    requires forall i :: 0 <= i < |cells| && !cells[i].Null? ==>
               if RepeatAt(cells, key, i) then key(after[i]) != k else after[i] == cells[i]
    ensures k !in Repeated(Keys(after, key))
  {
    RepeatedIffRepeat(after, key, |after|, k);
    assert after[..|after|] == after;
  }

  lemma NothingLeft(cells: seq<Cell>, after: seq<Cell>, key: KeyOf, base: KeyOf)
    requires |after| == |cells| && Unmarked(cells, key, base)
    requires forall i :: 0 <= i < |cells| ==> (after[i].Null? <==> cells[i].Null?)
    requires forall i :: 0 <= i < |cells| && !cells[i].Null? ==>
               if RepeatAt(cells, key, i)
               then base(after[i]) == key(cells[i]) && forall k :: k in Keys(cells, key) ==> key(after[i]) != k
               else after[i] == cells[i]
    ensures FinderRows(after, key, base) == []
  {
    var rows := FinderRows(after, key, base);
    if rows != [] {
      var i := rows[0];
      assert i in rows;
      assert base(after[i]) == key(cells[i]);
      KeysMember(cells, key, key(cells[i]));
      FirstStandsAlone(cells, after, key, key(cells[i]));
    }
  }

  lemma MarkedCell(kind: Kind, fold: char -> char, text: Text, s: string)
    requires !EndsWith(s, MARK)
    ensures MarkCell(text, StrC(s)) == StrC(s + MARK)
    ensures BaseFor(kind, fold, text)(StrC(s + MARK)) == Normalise(kind, fold, s)
    ensures KeyFor(kind, fold, text)(StrC(s + MARK)) == Normalise(kind, fold, s + MARK)
  {
    EndsWithConcat(s, MARK);
    assert (s + MARK)[..|s + MARK| - |MARK|] == s;
  }

  /** Running the finder again on the marked column flags nothing. */
  lemma SecondRunFlagsNothing(kind: Kind, fold: char -> char, text: Text, cells: seq<Cell>)
    requires Markable(kind, fold, cells)
    ensures var key, base := KeyFor(kind, fold, text), BaseFor(kind, fold, text);
            FinderRows(MarkRows(text, cells, FinderRows(cells, key, base)), key, base) == []
  {
    var key, base := KeyFor(kind, fold, text), BaseFor(kind, fold, text);
    MarkableIsUnmarked(kind, fold, text, cells);
    FinderIsExact(cells, key, base);
    var after := MarkRows(text, cells, FinderRows(cells, key, base));
    forall i | 0 <= i < |cells| && RepeatAt(cells, key, i)
      ensures !after[i].Null? && base(after[i]) == key(cells[i])
      ensures forall k :: k in Keys(cells, key) ==> key(after[i]) != k
    {
      MarkedCell(kind, fold, text, cells[i].s);
      KeysEndElsewhere(kind, fold, text, cells, cells[i].s);
    }
    NothingLeft(cells, after, key, base);
  }

  /** The key of a marked value is not a key of the original column. */
  lemma KeysEndElsewhere(kind: Kind, fold: char -> char, text: Text, cells: seq<Cell>, w: string)
    requires Markable(kind, fold, cells)
    ensures Normalise(kind, fold, w + MARK) !in Keys(cells, KeyFor(kind, fold, text))
  {
    var key, k := KeyFor(kind, fold, text), Normalise(kind, fold, w + MARK);
    MarkSurvives(kind, fold, w);
    KeysMember(cells, key, k);
  }

  // ---------------------------------------------------------------------------------------------
  // What the keys are

  /** The text without white space, hyphens, brackets, plus signs and dots, read from the front. */
  function Digits(s: string): string {
    if s == "" then ""
    else
      var rest := Digits(s[1..]);
      match s[0]
      case '-' => rest
      case '(' => rest
      case ')' => rest
      case '+' => rest
      case '.' => rest
      case c => if IsSpace(c) then rest else [c] + rest
  }

  lemma {:induction false} PhoneKey(s: string)
    ensures DropSeparators(s) == Digits(s)
  {
    if s != "" {
      PhoneKey(s[1..]);
      DropSeparatorsConcat(s[..1], s[1..]);
      assert s == s[..1] + s[1..];
      assert s[..1][..0] == "";
    }
  }

  /** `t` is `s` without the white space around it, each character folded. */
  ghost predicate FoldedCore(fold: char -> char, s: string, t: string) {
    exists a, core, b ::
      s == a + core + b && All(c => IsSpace(c), a) && All(c => IsSpace(c), b)
      && (core != "" ==> !IsSpace(core[0]) && !IsSpace(core[|core| - 1]))
      && |t| == |core| && forall i :: 0 <= i < |t| ==> t[i] == fold(core[i])
  }

  /** How two texts are compared, by the kind of column. */
  lemma KeysMean(kind: Kind, fold: char -> char, text: Text, s: string)
    ensures var key := KeyFor(kind, fold, text)(StrC(s));
            match kind
            case Email => FoldedCore(fold, s, key)
            case Phone => key == Digits(s)
            case Plain => key == s
  {
    hide Strip, Digits, DropSeparators;
    PhoneKey(s);
    if kind.Email? {
      var a, b := StripParts(s);
      assert s == a + Strip(s) + b;
    }
  }
}
