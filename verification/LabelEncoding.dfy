/** Label encoding of string columns: sorted distinct values, numbered from zero. */
module LabelEncoding {
  import opened Sorting
  import opened Values
  import Inconsistent

  // ---------------------------------------------------------------------------------------------
  // Sorted distinct values

  /** Python's order on strings: by code point, a proper prefix first. */
  predicate TextLe(a: string, b: string) {
    a == "" || (b != "" && (a[0] < b[0] || (a[0] == b[0] && TextLe(a[1..], b[1..]))))
  }

  function TextOrder(): (string, string) -> bool {
    (a, b) => TextLe(a, b)
  }

  function IntOrder(): (int, int) -> bool {
    (a, b) => a <= b
  }

  lemma {:induction false} TextTotal(a: string, b: string)
    ensures TextLe(a, b) || TextLe(b, a)
    ensures TextLe(a, b) && TextLe(b, a) ==> a == b
  {
    if a != "" && b != "" {
      TextTotal(a[1..], b[1..]);
      assert a == [a[0]] + a[1..] && b == [b[0]] + b[1..];
    }
  }

  lemma {:induction false} TextTransitive(a: string, b: string, c: string)
    requires TextLe(a, b) && TextLe(b, c)
    ensures TextLe(a, c)
  {
    if a != "" && a[0] == b[0] == c[0] {
      TextTransitive(a[1..], b[1..], c[1..]);
    }
  }

  lemma TextOrderTotal()
    ensures TotalOrder(TextOrder())
  {
    forall a, b
      ensures TextLe(a, b) || TextLe(b, a)
      ensures TextLe(a, b) && TextLe(b, a) ==> a == b
    {
      TextTotal(a, b);
    }
    forall a, b, c | TextLe(a, b) && TextLe(b, c)
      ensures TextLe(a, c)
    {
      TextTransitive(a, b, c);
    }
  }

  /** `series.unique()`. */
  function Unique<T(==,!new)>(s: seq<T>): (r: seq<T>)
    ensures forall x :: x in r <==> x in s
    ensures forall i, j :: 0 <= i < j < |r| ==> r[i] != r[j]
  {
    if s == [] then []
    else
      var init, x := Unique(s[..|s| - 1]), s[|s| - 1];
      assert forall y :: y in s <==> y in s[..|s| - 1] || y == x;
      if x in init then init else init + [x]
  }

  /** Each value once, each strictly above the one before. */
  ghost predicate StrictlySorted<T(!new)>(le: (T, T) -> bool, r: seq<T>) {
    forall i, j :: 0 <= i < j < |r| ==> le(r[i], r[j]) && r[i] != r[j]
  }

  lemma SortedUnique<T(!new)>(le: (T, T) -> bool, s: seq<T>)
    requires TotalOrder(le)
    ensures var r := Sort(le, Unique(s));
            StrictlySorted(le, r) && forall x :: x in r <==> x in s
  {
    var u := Unique(s);
    var r := Sort(le, u);
    SortCorrect(le, u);
    assert forall x :: x in r <==> x in multiset(r);
    assert forall x :: x in u <==> x in multiset(u);
    forall i, j | 0 <= i < j < |r|
      ensures r[i] != r[j]
    {
      OnceCounted(u, r[i]);
      if r[i] == r[j] {
        TwiceCounted(r, i, j);
      }
    }
  }

  lemma TwiceCounted<T>(s: seq<T>, i: nat, j: nat)
    requires i < j < |s| && s[i] == s[j]
    ensures multiset(s)[s[i]] >= 2
  {
    assert s == s[..i] + [s[i]] + s[i + 1..j] + [s[j]] + s[j + 1..];
  }

  lemma {:induction false} OnceCounted<T>(s: seq<T>, x: T)
    requires forall i, j :: 0 <= i < j < |s| ==> s[i] != s[j]
    ensures multiset(s)[x] <= 1
  {
    if s != [] {
      OnceCounted(s[1..], x);
      assert s == [s[0]] + s[1..];
    }
  }

  // ---------------------------------------------------------------------------------------------
  // One column

  function Ints(cells: seq<Cell>): seq<int> {
    if cells == [] then []
    else
      var init, c := Ints(cells[..|cells| - 1]), cells[|cells| - 1];
      if c.IntC? then init + [c.n] else init
  }

  /** The sorted distinct non-null values; a column listed twice arrives here as integers. */
  function Keys(col: Column): seq<Cell> {
    match col.dtype
    case StrD =>
      var codes := Sort(TextOrder(), Unique(Inconsistent.Strings(col.cells)));
      seq(|codes|, i requires 0 <= i < |codes| => StrC(codes[i]))
    case IntD =>
      var codes := Sort(IntOrder(), Unique(Ints(col.cells)));
      seq(|codes|, i requires 0 <= i < |codes| => IntC(codes[i]))
    case _ => []
  }

  type CategoryMap = map<Cell, nat>

  /** `{val: idx for idx, val in enumerate(...)}`. */
  function Enumerate(keys: seq<Cell>): CategoryMap {
    if keys == [] then map[] else Enumerate(keys[..|keys| - 1])[keys[|keys| - 1] := |keys| - 1]
  }

  function MapOf(col: Column): CategoryMap {
    Enumerate(Keys(col))
  }

  function EncodeCell(m: CategoryMap, c: Cell): Cell {
    if c in m then IntC(m[c]) else Null
  }

  function EncodeColumn(col: Column): (r: Column)
    ensures r.dtype.IntD? && |r.cells| == |col.cells| && WellTyped(r)
  {
    var m := MapOf(col);
    Column(IntD, seq(|col.cells|, i requires 0 <= i < |col.cells| => EncodeCell(m, col.cells[i])))
  }

  /** What a reader of the report does: the value that was given this number. */
  ghost function DecodeCell(m: CategoryMap, c: Cell): Cell {
    if c.IntC? && exists k :: k in m && m[k] == c.n then var k :| k in m && m[k] == c.n; k else Null
  }

  ghost function Decode(m: CategoryMap, cells: seq<Cell>): (r: seq<Cell>)
    ensures |r| == |cells|
  {
    seq(|cells|, i requires 0 <= i < |cells| => DecodeCell(m, cells[i]))
  }

  lemma {:induction false} IntsMember(cells: seq<Cell>, n: int)
    ensures n in Ints(cells) <==> IntC(n) in cells
  {
    if cells != [] {
      IntsMember(cells[..|cells| - 1], n);
      assert cells == cells[..|cells| - 1] + [cells[|cells| - 1]];
    }
  }

  lemma {:induction false} EnumerateIsIndex(keys: seq<Cell>)
    requires forall i, j :: 0 <= i < j < |keys| ==> keys[i] != keys[j]
    ensures forall k :: k in Enumerate(keys) <==> k in keys
    ensures forall i :: 0 <= i < |keys| ==> Enumerate(keys)[keys[i]] == i
  {
    if keys != [] {
      EnumerateIsIndex(keys[..|keys| - 1]);
      assert keys == keys[..|keys| - 1] + [keys[|keys| - 1]];
    }
  }

  ghost predicate Before(a: Cell, b: Cell) {
    || (a.StrC? && b.StrC? && TextLe(a.s, b.s) && a != b)
    || (a.IntC? && b.IntC? && a.n < b.n)
  }

  lemma KeysCorrect(col: Column)
    requires WellTyped(col) && col.dtype in {StrD, IntD}
    ensures forall k :: k in Keys(col) <==> k in col.cells && !k.Null?
    ensures forall i, j :: 0 <= i < j < |Keys(col)| ==> Before(Keys(col)[i], Keys(col)[j])
  {
    if col.dtype.StrD? {
      TextKeys(col);
    } else {
      IntKeys(col);
    }
  }

  lemma TextKeys(col: Column)
    requires WellTyped(col) && col.dtype.StrD?
    ensures forall k :: k in Keys(col) <==> k in col.cells && !k.Null?
    ensures forall i, j :: 0 <= i < j < |Keys(col)| ==> Before(Keys(col)[i], Keys(col)[j])
  {
    hide Inconsistent.Strings, Unique, Sort, TextLe;
    var strings := Inconsistent.Strings(col.cells);
    var codes := Sort(TextOrder(), Unique(strings));
    TextOrderTotal();
    SortedUnique(TextOrder(), strings);
    forall k
      ensures k in Keys(col) <==> k in col.cells && !k.Null?
    {
      if k.StrC? {
        Inconsistent.StringsMember(col.cells, k.s);
        if k.s in codes {
          var i :| 0 <= i < |codes| && codes[i] == k.s;
          assert Keys(col)[i] == k;
        }
      }
    }
  }

  lemma IntKeys(col: Column)
    requires WellTyped(col) && col.dtype.IntD?
    ensures forall k :: k in Keys(col) <==> k in col.cells && !k.Null?
    ensures forall i, j :: 0 <= i < j < |Keys(col)| ==> Before(Keys(col)[i], Keys(col)[j])
  {
    hide Ints, Unique, Sort;
    var codes := Sort(IntOrder(), Unique(Ints(col.cells)));
    SortedUnique(IntOrder(), Ints(col.cells));
    forall k
      ensures k in Keys(col) <==> k in col.cells && !k.Null?
    {
      if k.IntC? {
        IntsMember(col.cells, k.n);
        if k.n in codes {
          var i :| 0 <= i < |codes| && codes[i] == k.n;
          assert Keys(col)[i] == k;
        }
      }
    }
  }

  /** The reported map numbers exactly the column's values, onto 0 .. k - 1, in their order. */
  lemma MapIsIncreasingBijection(col: Column)
    requires WellTyped(col) && col.dtype in {StrD, IntD}
    ensures var m := MapOf(col);
            && (forall k :: k in m <==> k in col.cells && !k.Null?)
            && (forall k :: k in m ==> m[k] < |m|)
            && (forall n: nat :: n in m.Values <==> n < |m|)
            && (forall a, b :: a in m && b in m ==> (Before(a, b) <==> m[a] < m[b]))
  {
    hide Keys, Before, Enumerate;
    KeysCorrect(col);
    EnumerateIsIncreasing(Keys(col));
  }

  lemma EnumerateIsIncreasing(keys: seq<Cell>)
    requires forall i, j :: 0 <= i < j < |keys| ==> Before(keys[i], keys[j])
    ensures var m := Enumerate(keys);
            && (forall k :: k in m <==> k in keys)
            && (forall k :: k in m ==> m[k] < |m|)
            && (forall n: nat :: n in m.Values <==> n < |m|)
            && (forall a, b :: a in m && b in m ==> (Before(a, b) <==> m[a] < m[b]))
  {
    hide Before, Enumerate;
    var m := Enumerate(keys);
    forall i, j | 0 <= i < j < |keys|
      ensures keys[i] != keys[j] && !Before(keys[j], keys[i])
    {
      BeforeIsStrict(keys[i], keys[j]);
    }
    EnumerateIsIndex(keys);
    EnumerateSize(keys);
    forall n: nat | n < |m|
      ensures n in m.Values
    {
      assert keys[n] in m && m[keys[n]] == n;
    }
    forall a, b | a in m && b in m
      ensures Before(a, b) <==> m[a] < m[b]
    {
      BeforeIsStrict(a, b);
      assert keys[m[a]] == a && keys[m[b]] == b;
    }
  }

  lemma BeforeIsStrict(a: Cell, b: Cell)
    ensures Before(a, b) ==> !Before(b, a) && a != b
  {
    if a.StrC? && b.StrC? {
      TextTotal(a.s, b.s);
    }
  }

  lemma {:induction false} EnumerateSize(keys: seq<Cell>)
    requires forall i, j :: 0 <= i < j < |keys| ==> keys[i] != keys[j]
    ensures |Enumerate(keys)| == |keys|
  {
    if keys != [] {
      EnumerateSize(keys[..|keys| - 1]);
      EnumerateIsIndex(keys[..|keys| - 1]);
    }
  }

  /** Decoding what was encoded gives the column back, nulls included. */
  lemma ColumnRoundTrip(col: Column)
    requires WellTyped(col) && col.dtype in {StrD, IntD}
    ensures Decode(MapOf(col), EncodeColumn(col).cells) == col.cells
    ensures forall i :: 0 <= i < |col.cells| ==> (EncodeColumn(col).cells[i].Null? <==> col.cells[i].Null?)
  {
    hide Keys, MapOf;
    var m := MapOf(col);
    MapIsIncreasingBijection(col);
    forall i | 0 <= i < |col.cells|
      ensures DecodeCell(m, EncodeCell(m, col.cells[i])) == col.cells[i]
      ensures EncodeCell(m, col.cells[i]).Null? <==> col.cells[i].Null?
    {
      var c := col.cells[i];
      if !c.Null? {
        forall k | k in m && m[k] == m[c]
          ensures k == c
        {
          Comparable(col, k, c);
        }
      }
    }
  }

  lemma Comparable(col: Column, a: Cell, b: Cell)
    requires WellTyped(col) && col.dtype in {StrD, IntD} && a in col.cells && b in col.cells && !a.Null? && !b.Null?
    ensures Before(a, b) || Before(b, a) || a == b
  {
    if a.StrC? && b.StrC? {
      TextTotal(a.s, b.s);
    }
  }

  // ---------------------------------------------------------------------------------------------
  // All the columns

  datatype Report = Report(frame: Frame, maps: map<string, CategoryMap>)

  /** The loop over the columns; a column listed again is encoded again. */
  function EncodeAll(f: Frame, columns: seq<string>): (r: Report)
    requires forall c :: c in columns ==> c in f.cols
    ensures r.frame.names == f.names && r.frame.height == f.height && r.frame.cols.Keys == f.cols.Keys
    ensures f.Valid() ==> r.frame.Valid()
    ensures forall c :: c in columns ==> c in r.maps
  {
    if columns == [] then Report(f, map[])
    else
      var init, c := EncodeAll(f, columns[..|columns| - 1]), columns[|columns| - 1];
      Report(init.frame.With(c, EncodeColumn(init.frame.cols[c])), init.maps[c := MapOf(init.frame.cols[c])])
  }

  /** The string columns among some names. */
  function TextColumns(f: Frame, names: seq<string>): (r: seq<string>)
    ensures forall c :: c in r <==> c in names && c in f.cols && f.cols[c].dtype.StrD?
  {
    if names == [] then []
    else
      var init, c := TextColumns(f, names[..|names| - 1]), names[|names| - 1];
      assert forall x :: x in names <==> x in names[..|names| - 1] || x == c;
      if c in f.cols && f.cols[c].dtype.StrD? then init + [c] else init
  }

  /** `_get_columns`: an unknown name is an error; no names means every column. */
  function Chosen(f: Frame, specified: seq<string>): Option<seq<string>> {
    if specified == [] then Some(TextColumns(f, f.names))
    else if exists c :: c in specified && c !in f.cols then None
    else Some(TextColumns(f, specified))
  }

  method EncodeCategoricals(f: Frame, specified: seq<string>) returns (r: Option<Report>)
    requires f.Valid()
    ensures r == if Chosen(f, specified).Some? then Some(EncodeAll(f, Chosen(f, specified).value)) else None
  {
    hide MapOf, EncodeColumn;
    var chosen := Chosen(f, specified);
    if chosen.None? {
      return None;
    }
    var columns := chosen.value;
    var result := f;
    var maps: map<string, CategoryMap> := map[];
    for k := 0 to |columns|
      invariant Report(result, maps) == EncodeAll(f, columns[..k])
    {
      assert columns[..k + 1][..k] == columns[..k];
      var col := columns[k];
      var mapping := MapOf(result.cols[col]);
      maps := maps[col := mapping];
      result := result.With(col, EncodeColumn(result.cols[col]));
    }
    assert columns[..|columns|] == columns;
    return Some(Report(result, maps));
  }

  function Listed(columns: seq<string>, c: string): nat {
    if columns == [] then 0
    else Listed(columns[..|columns| - 1], c) + if columns[|columns| - 1] == c then 1 else 0
  }

  predicate AllNull(cells: seq<Cell>) {
    forall i :: 0 <= i < |cells| ==> cells[i].Null?
  }

  /** Encoded at least once: integers wherever there was text. */
  ghost predicate Numbered(before: Column, after: Column) {
    && after.dtype.IntD? && |after.cells| == |before.cells|
    && forall i :: 0 <= i < |before.cells| ==> (after.cells[i].Null? <==> before.cells[i].Null?)
  }

  /** Decoding stops at the numbers of an earlier encoding. */
  ghost predicate DecodesToNumbers(before: Column, m: CategoryMap, after: Column) {
    exists mid: Column :: Numbered(before, mid) && WellTyped(mid) && Decode(m, after.cells) == mid.cells
  }

  function MapFor(r: Report, c: string): Option<CategoryMap> {
    if c in r.maps then Some(r.maps[c]) else None
  }

  /** What `n` listings of a string column leave of it. */
  ghost predicate AfterListings(n: nat, before: Column, m: Option<CategoryMap>, after: Column) {
    && (n == 0 ==> after == before)
    && (n == 1 ==> m.Some? && Decode(m.value, after.cells) == before.cells)
    && (n >= 1 ==> Numbered(before, after))
    && (n >= 2 ==> m.Some? && DecodesToNumbers(before, m.value, after))
  }

  lemma OneMoreListing(n: nat, before: Column, m: Option<CategoryMap>, mid: Column)
    requires AfterListings(n, before, m, mid) && before.dtype.StrD? && WellTyped(mid)
    ensures AfterListings(n + 1, before, Some(MapOf(mid)), EncodeColumn(mid))
  {
    hide MapOf, Decode;
    ColumnRoundTrip(mid);
    assert Numbered(before, EncodeColumn(mid));
    if n > 0 {
      assert DecodesToNumbers(before, MapOf(mid), EncodeColumn(mid));
    }
  }

  /** One turn of the loop, as column `c` sees it. */
  lemma Turn(f: Frame, columns: seq<string>, c: string)
    requires f.Valid() && c in f.cols && columns != [] && forall x :: x in columns ==> x in f.cols
    ensures var init, r := EncodeAll(f, columns[..|columns| - 1]), EncodeAll(f, columns);
            && c in init.frame.cols && c in r.frame.cols && WellTyped(init.frame.cols[c])
            && if columns[|columns| - 1] == c then
                 r.frame.cols[c] == EncodeColumn(init.frame.cols[c]) && MapFor(r, c) == Some(MapOf(init.frame.cols[c]))
               else r.frame.cols[c] == init.frame.cols[c] && MapFor(r, c) == MapFor(init, c)
  {
    hide EncodeColumn, MapOf;
    assert EncodeAll(f, columns[..|columns| - 1]).frame.Valid();
  }

  lemma {:induction false} ListedColumn(f: Frame, columns: seq<string>, c: string)
    requires f.Valid() && c in f.cols && f.cols[c].dtype.StrD? && forall x :: x in columns ==> x in f.cols
    ensures var r := EncodeAll(f, columns);
            AfterListings(Listed(columns, c), f.cols[c], MapFor(r, c), r.frame.cols[c])
  {
    if columns == [] {
      return;
    }
    hide EncodeColumn, MapOf, AfterListings, EncodeAll, MapFor;
    var init := columns[..|columns| - 1];
    ListedColumn(f, init, c);
    Turn(f, columns, c);
    var before := EncodeAll(f, init);
    if columns[|columns| - 1] == c {
      OneMoreListing(Listed(init, c), f.cols[c], MapFor(before, c), before.frame.cols[c]);
    }
  }

  /** Decoding with the reported maps recovers a string column exactly when it was listed once, or holds no value. */
  lemma RoundTripExactly(f: Frame, columns: seq<string>, c: string)
    requires f.Valid() && c in columns && f.cols.Keys >= (set x | x in columns) && f.cols[c].dtype.StrD?
    ensures var r := EncodeAll(f, columns);
            Decode(r.maps[c], r.frame.cols[c].cells) == f.cols[c].cells
            <==> Listed(columns, c) == 1 || AllNull(f.cols[c].cells)
  {
    hide EncodeAll, Decode;
    ListedColumn(f, columns, c);
    ListedIffIn(columns, c);
    var r := EncodeAll(f, columns);
    if Listed(columns, c) >= 2 {
      var mid: Column :| Numbered(f.cols[c], mid) && WellTyped(mid)
          && Decode(r.maps[c], r.frame.cols[c].cells) == mid.cells;
      assert WellTyped(f.cols[c]);
      forall i | 0 <= i < |mid.cells|
        ensures mid.cells[i] == f.cols[c].cells[i] <==> f.cols[c].cells[i].Null?
      {
        assert Fits(IntD, mid.cells[i]) && Fits(StrD, f.cols[c].cells[i]);
      }
      assert AllNull(f.cols[c].cells) ==> mid.cells == f.cols[c].cells;
    }
  }

  lemma {:induction false} ListedIffIn(columns: seq<string>, c: string)
    ensures Listed(columns, c) > 0 <==> c in columns
  {
    if columns != [] {
      ListedIffIn(columns[..|columns| - 1], c);
      assert columns == columns[..|columns| - 1] + [columns[|columns| - 1]];
    }
  }

  /** Columns that are not listed, and the rows, stay. */
  lemma OthersStay(f: Frame, columns: seq<string>, c: string)
    requires f.Valid() && c in f.cols && c !in columns && forall x :: x in columns ==> x in f.cols
    ensures EncodeAll(f, columns).frame.cols[c] == f.cols[c] && EncodeAll(f, columns).frame.height == f.height
  {
    if columns != [] {
      OthersStay(f, columns[..|columns| - 1], c);
    }
  }

  lemma {:induction false} ListedText(f: Frame, names: seq<string>, c: string)
    requires c in f.cols && f.cols[c].dtype.StrD?
    ensures Listed(TextColumns(f, names), c) == Listed(names, c)
  {
    if names != [] {
      var init := names[..|names| - 1];
      ListedText(f, init, c);
      var r := TextColumns(f, names);
      assert r == TextColumns(f, init) || r[..|r| - 1] == TextColumns(f, init);
    }
  }

  lemma {:induction false} ListedOnce(names: seq<string>, c: string)
    requires forall i, j :: 0 <= i < j < |names| ==> names[i] != names[j]
    ensures Listed(names, c) <= 1
  {
    if names != [] {
      ListedOnce(names[..|names| - 1], c);
      ListedIffIn(names[..|names| - 1], c);
    }
  }

  /**
   * Encoding the whole frame is lossless: every string column comes back from its map, every other column
   * is as it was.
   */
  lemma WholeFrameRoundTrip(f: Frame, c: string)
    requires f.Valid() && c in f.cols
    ensures var r := EncodeAll(f, TextColumns(f, f.names));
            if f.cols[c].dtype.StrD? then c in r.maps && Decode(r.maps[c], r.frame.cols[c].cells) == f.cols[c].cells
            else r.frame.cols[c] == f.cols[c]
  {
    hide EncodeAll, Decode;
    var columns := TextColumns(f, f.names);
    if f.cols[c].dtype.StrD? {
      ListedText(f, f.names, c);
      ListedOnce(f.names, c);
      ListedIffIn(f.names, c);
      RoundTripExactly(f, columns, c);
    } else {
      OthersStay(f, columns, c);
    }
  }
}
