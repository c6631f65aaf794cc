/** The table normaliser of functions.py: `transform_dataframe` joins every
    row of a raw statistics sheet to the subregion rows of the same sheet
    through `Parent code`, tidies the columns and drops duplicate rows;
    `rename_columns` prefixes a positional slice of labels;
    `check_null_columns` lists the labels of columns holding a missing cell. */
module Normaliser {
  import opened Tables

  const NameColumn := "Region, subregion, country or area *"
  const CodeColumn := "Country code"
  const ParentColumn := "Parent code"
  const TypeColumn := "Type"
  const NotesColumn := "Notes"
  const SubregionType := "Subregion"
  const NameLeft := NameColumn + "_left"
  const NameRight := NameColumn + "_right"
  const CodeLeft := CodeColumn + "_left"
  const CodeRight := CodeColumn + "_right"

  // ---------------------------------------------------------------- rename_columns

  /** One bound of a Python slice, normalised against the length `n`. */
  function SliceBound(i: int, n: nat): (b: nat)
    ensures b <= n
  {
    if i < 0 then (if n + i < 0 then 0 else n + i) else if i > n then n else i
  }

  /** `s[from:to]`: negative bounds count from the end, bounds are clamped,
      and bounds that cross give the empty slice. */
  function Slice<T>(s: seq<T>, from: int, to: int): seq<T> {
    var lo, hi := SliceBound(from, |s|), SliceBound(to, |s|);
    if lo < hi then s[lo..hi] else []
  }

  /** The header left by `df.rename(columns=d)` where `d` maps each label of
      the slice to `prefix + sep + label`. pandas renames by label, so a
      label equal to one in the slice is renamed wherever it stands. */
  function RenamedHeader(cols: seq<string>, from: int, to: int, prefix: string, sep: string): seq<string> {
    var picked := Slice(cols, from, to);
    Map((c: string) => if c in picked then prefix + sep + c else c, cols)
  }

  /** `rename_columns`: builds the renaming dictionary over the slice, then
      renames the header; the cells and the table's name are untouched. */
  method RenameColumns(t: Table, from: int, to: int, prefix: string, sep: string) returns (r: Table)
    ensures r.name == t.name && r.rows == t.rows
    ensures r.columns == RenamedHeader(t.columns, from, to, prefix, sep)
  {
    var picked := Slice(t.columns, from, to);
    var renames: map<string, string> := map[];
    for k := 0 to |picked|
      invariant renames.Keys == set c | c in picked[..k]
      invariant forall c | c in renames :: renames[c] == prefix + sep + c
    {
      assert picked[..k + 1] == picked[..k] + [picked[k]];
      renames := renames[picked[k] := prefix + sep + picked[k]];
    }
    assert picked[..|picked|] == picked;
    var cols := seq(|t.columns|, j requires 0 <= j < |t.columns| =>
      if t.columns[j] in renames then renames[t.columns[j]] else t.columns[j]);
    r := Table(t.name, cols, t.rows);
  }

  /** With distinct labels, exactly the positions of the Python slice are
      renamed, each to `prefix + sep + label`; every other label, the number
      of columns and their order stay as they were. */
  lemma RenameExactlySlice(cols: seq<string>, from: int, to: int, prefix: string, sep: string)
    requires NoDuplicates(cols)
    ensures |RenamedHeader(cols, from, to, prefix, sep)| == |cols|
    ensures forall j :: 0 <= j < |cols| ==>
      RenamedHeader(cols, from, to, prefix, sep)[j] ==
        if SliceBound(from, |cols|) <= j < SliceBound(to, |cols|) then prefix + sep + cols[j] else cols[j]
  {
    var lo, hi := SliceBound(from, |cols|), SliceBound(to, |cols|);
    var picked := Slice(cols, from, to);
    forall j | 0 <= j < |cols|
      ensures cols[j] in picked <==> lo <= j < hi
    {
      if cols[j] in picked {
        var m :| 0 <= m < |picked| && picked[m] == cols[j];
        assert cols[lo + m] == cols[j];
      }
      if lo <= j < hi {
        assert picked[j - lo] == cols[j];
      }
    }
  }

  /** The defaults `from_column = 0, to_column = 0` rename nothing. */
  lemma RenameDefaultsUnchanged(cols: seq<string>, prefix: string, sep: string)
    ensures RenamedHeader(cols, 0, 0, prefix, sep) == cols
  {
    assert Slice(cols, 0, 0) == [];
  }

  // ---------------------------------------------------------------- check_null_columns

  predicate HasMissing(t: Table, j: nat)
    requires WellFormed(t) && j < |t.columns|
  {
    exists r: Row | r in t.rows :: r[j].Missing?
  }

  /** `check_null_columns`: the labels, in column order, of the columns with
      at least one missing cell. */
  function NullColumns(t: Table): (r: seq<string>)
    requires WellFormed(t)
    ensures |r| <= |t.columns|
    ensures forall c :: c in r <==> exists j :: 0 <= j < |t.columns| && t.columns[j] == c && HasMissing(t, j)
  {
    var flags := seq(|t.columns|, j requires 0 <= j < |t.columns| => HasMissing(t, j));
    assert forall c :: c in Filter(t.columns, flags) <==>
        exists j :: 0 <= j < |t.columns| && flags[j] && t.columns[j] == c by {
      forall c {
        FilterMember(t.columns, flags, c);
      }
    }
    Filter(t.columns, flags)
  }

  // ---------------------------------------------------------------- transform_dataframe

  /** Positions of the four columns the join reads. */
  datatype Layout = Layout(ty: nat, nm: nat, cc: nat, pc: nat)

  ghost predicate ValidLayout(cols: seq<string>, l: Layout) {
    && l.ty < |cols| && cols[l.ty] == TypeColumn
    && l.nm < |cols| && cols[l.nm] == NameColumn
    && l.cc < |cols| && cols[l.cc] == CodeColumn
    && l.pc < |cols| && cols[l.pc] == ParentColumn
  }

  /** Looks the columns up in the order the code touches them: `Type` for
      the subregion filter, the name and code for the right-hand side of
      the merge, `Parent code` as its left key; a KeyError otherwise. */
  function LayoutOf(df: Table): (r: Result<Layout>)
    ensures r.Ok? <==> TypeColumn in df.columns && NameColumn in df.columns
                       && CodeColumn in df.columns && ParentColumn in df.columns
    ensures r.Ok? ==> ValidLayout(df.columns, r.value)
    ensures r.Err? ==> r.error.MissingColumn?
  {
    var ty :- Column(df, TypeColumn);
    var nm :- Column(df, NameColumn);
    var cc :- Column(df, CodeColumn);
    var pc :- Column(df, ParentColumn);
    Ok(Layout(ty, nm, cc, pc))
  }

  predicate IsSubregion(row: Row, l: Layout)
    requires l.ty < |row|
  {
    row[l.ty] == Str(SubregionType)
  }

  /** Row `i` meets row `k` in the inner join: `k` is a subregion and its
      code equals the parent code of `i` (merge keys match NaN with NaN). */
  ghost predicate Joins(df: Table, l: Layout, i: int, k: int)
    requires WellFormed(df) && ValidLayout(df.columns, l)
  {
    && 0 <= i < |df.rows| && 0 <= k < |df.rows|
    && IsSubregion(df.rows[k], l)
    && df.rows[k][l.cc] == df.rows[i][l.pc]
  }

  function SubregionFlags(df: Table, l: Layout): (flags: seq<bool>)
    requires WellFormed(df) && ValidLayout(df.columns, l)
    ensures |flags| == |df.rows|
  {
    seq(|df.rows|, k requires 0 <= k < |df.rows| => IsSubregion(df.rows[k], l))
  }

  /** `df[df['Type'] == 'Subregion']`. */
  function Subregions(df: Table, l: Layout): (s: seq<Row>)
    requires WellFormed(df) && ValidLayout(df.columns, l)
    ensures forall r | r in s :: |r| == |df.columns|
  {
    var flags := SubregionFlags(df, l);
    assert forall r | r in Filter(df.rows, flags) :: r in df.rows by {
      forall r | r in Filter(df.rows, flags) ensures r in df.rows {
        FilterMember(df.rows, flags, r);
      }
    }
    Filter(df.rows, flags)
  }

  lemma SubregionSource(df: Table, l: Layout, k': nat) returns (k: nat)
    requires WellFormed(df) && ValidLayout(df.columns, l)
    requires k' < |Subregions(df, l)|
    ensures k < |df.rows| && IsSubregion(df.rows[k], l) && df.rows[k] == Subregions(df, l)[k']
  {
    var flags := SubregionFlags(df, l);
    FilterMember(df.rows, flags, Subregions(df, l)[k']);
    k :| 0 <= k < |df.rows| && flags[k] && df.rows[k] == Subregions(df, l)[k'];
  }

  lemma SubregionHas(df: Table, l: Layout, k: nat) returns (k': nat)
    requires WellFormed(df) && ValidLayout(df.columns, l)
    requires k < |df.rows| && IsSubregion(df.rows[k], l)
    ensures k' < |Subregions(df, l)| && Subregions(df, l)[k'] == df.rows[k]
  {
    var flags := SubregionFlags(df, l);
    FilterMember(df.rows, flags, df.rows[k]);
    k' :| 0 <= k' < |Subregions(df, l)| && Subregions(df, l)[k'] == df.rows[k];
  }

  /** A left row and a subregion row meet: the subregion's code is the
      left row's parent code. */
  predicate Hit(left: Row, sub: Row, l: Layout)
    requires l.pc < |left| && l.cc < |sub|
  {
    sub[l.cc] == left[l.pc]
  }

  /** The merged row: the left cells, then the subregion's name and code. */
  function Glue(left: Row, sub: Row, l: Layout): Row
    requires l.nm < |sub| && l.cc < |sub|
  {
    left + [sub[l.nm], sub[l.cc]]
  }

  ghost predicate Width(rows: seq<Row>, w: nat) {
    forall s | s in rows :: |s| == w
  }

  /** The rows an inner merge produces for one left row, in right-hand order. */
  function MatchRows(left: Row, subs: seq<Row>, l: Layout, w: nat): (r: seq<Row>)
    requires l.nm < w && l.cc < w && l.pc < w && |left| == w && Width(subs, w)
    ensures Width(r, w + 2)
    decreases |subs|
  {
    if |subs| == 0 then []
    else
      var m := |subs| - 1;
      assert subs[m] in subs;
      assert Width(subs[..m], w) by {
        forall s | s in subs[..m] ensures |s| == w { assert s in subs; }
      }
      MatchRows(left, subs[..m], l, w) + (if Hit(left, subs[m], l) then [Glue(left, subs[m], l)] else [])
  }

  lemma {:induction false} MatchRowsSource(left: Row, subs: seq<Row>, l: Layout, w: nat, o: Row) returns (k: nat)
    requires l.nm < w && l.cc < w && l.pc < w && |left| == w && Width(subs, w)
    requires o in MatchRows(left, subs, l, w)
    ensures k < |subs| && |subs[k]| == w && Hit(left, subs[k], l) && o == Glue(left, subs[k], l)
    decreases |subs|
  {
    var m := |subs| - 1;
    assert subs[m] in subs;
    assert Width(subs[..m], w) by {
      forall s | s in subs[..m] ensures |s| == w { assert s in subs; }
    }
    if o in MatchRows(left, subs[..m], l, w) {
      k := MatchRowsSource(left, subs[..m], l, w, o);
      assert subs[..m][k] == subs[k];
    } else {
      k := m;
    }
  }

  lemma {:induction false} MatchRowsHas(left: Row, subs: seq<Row>, l: Layout, w: nat, k: nat)
    requires l.nm < w && l.cc < w && l.pc < w && |left| == w && Width(subs, w)
    requires k < |subs| && Hit(left, subs[k], l)
    ensures Glue(left, subs[k], l) in MatchRows(left, subs, l, w)
    decreases |subs|
  {
    var m := |subs| - 1;
    assert subs[m] in subs;
    assert Width(subs[..m], w) by {
      forall s | s in subs[..m] ensures |s| == w { assert s in subs; }
    }
    if k < m {
      assert subs[..m][k] == subs[k];
      MatchRowsHas(left, subs[..m], l, w, k);
    }
  }

  /** The inner merge of all left rows with the subregions, left-major. */
  function JoinRows(lefts: seq<Row>, subs: seq<Row>, l: Layout, w: nat): (r: seq<Row>)
    requires l.nm < w && l.cc < w && l.pc < w && Width(lefts, w) && Width(subs, w)
    ensures Width(r, w + 2)
    decreases |lefts|
  {
    if |lefts| == 0 then []
    else
      var n := |lefts| - 1;
      assert lefts[n] in lefts;
      assert Width(lefts[..n], w) by {
        forall s | s in lefts[..n] ensures |s| == w { assert s in lefts; }
      }
      JoinRows(lefts[..n], subs, l, w) + MatchRows(lefts[n], subs, l, w)
  }

  lemma {:induction false} JoinRowsSource(lefts: seq<Row>, subs: seq<Row>, l: Layout, w: nat, o: Row) returns (i: nat, k: nat)
    requires l.nm < w && l.cc < w && l.pc < w && Width(lefts, w) && Width(subs, w)
    requires o in JoinRows(lefts, subs, l, w)
    ensures i < |lefts| && k < |subs| && |lefts[i]| == w && |subs[k]| == w
    ensures Hit(lefts[i], subs[k], l) && o == Glue(lefts[i], subs[k], l)
    decreases |lefts|
  {
    var n := |lefts| - 1;
    assert lefts[n] in lefts;
    assert Width(lefts[..n], w) by {
      forall s | s in lefts[..n] ensures |s| == w { assert s in lefts; }
    }
    if o in JoinRows(lefts[..n], subs, l, w) {
      i, k := JoinRowsSource(lefts[..n], subs, l, w, o);
      assert lefts[..n][i] == lefts[i];
    } else {
      i := n;
      k := MatchRowsSource(lefts[n], subs, l, w, o);
    }
  }

  lemma {:induction false} JoinRowsHas(lefts: seq<Row>, subs: seq<Row>, l: Layout, w: nat, i: nat, k: nat)
    requires l.nm < w && l.cc < w && l.pc < w && Width(lefts, w) && Width(subs, w)
    requires i < |lefts| && k < |subs| && |lefts[i]| == w && |subs[k]| == w && Hit(lefts[i], subs[k], l)
    ensures Glue(lefts[i], subs[k], l) in JoinRows(lefts, subs, l, w)
    decreases |lefts|
  {
    var n := |lefts| - 1;
    assert lefts[n] in lefts;
    assert Width(lefts[..n], w) by {
      forall s | s in lefts[..n] ensures |s| == w { assert s in lefts; }
    }
    if i < n {
      assert lefts[..n][i] == lefts[i];
      JoinRowsHas(lefts[..n], subs, l, w, i, k);
    } else {
      MatchRowsHas(lefts[n], subs, l, w, k);
    }
  }

  function SuffixLeft(c: string): string {
    if c == NameColumn || c == CodeColumn then c + "_left" else c
  }

  /** The renaming dictionary of the normaliser. */
  function RenameJoined(c: string): string {
    if c == NameLeft then "Country"
    else if c == NameRight then "Region"
    else if c == CodeLeft then "Country code"
    else c
  }

  /** `df.merge(subregion_df[[name, 'Country code']], left_on='Parent code',
      right_on='Country code', suffixes=('_left', '_right'))`: both overlapping
      labels get a suffix on each side. */
  function Joined(df: Table, l: Layout): (t: Table)
    requires WellFormed(df) && ValidLayout(df.columns, l)
    ensures WellFormed(t)
  {
    Table(df.name, Map(SuffixLeft, df.columns) + [NameRight, CodeRight],
          JoinRows(df.rows, Subregions(df, l), l, |df.columns|))
  }

  /** Which original columns survive the two drops, by position. */
  function KeptLeft(cols: seq<string>): (keep: seq<bool>)
    ensures |keep| == |cols|
  {
    seq(|cols|, j requires 0 <= j < |cols| =>
      SuffixLeft(cols[j]) != CodeRight && RenameJoined(SuffixLeft(cols[j])) != NotesColumn)
  }

  /** The header after the join, the drops and the renaming: the surviving
      original columns (name column now `Country`) followed by `Region`. */
  function NormalisedHeader(cols: seq<string>): seq<string> {
    Filter(Map(RenameJoined, Map(SuffixLeft, cols)), KeptLeft(cols)) + ["Region"]
  }

  /** The row the normaliser emits for a joined pair: the surviving cells of
      the left row followed by the subregion's name as its `Region`. */
  function NormalisedRow(df: Table, l: Layout, i: int, k: int): Row
    requires WellFormed(df) && ValidLayout(df.columns, l)
    requires 0 <= i < |df.rows| && 0 <= k < |df.rows|
  {
    Filter(df.rows[i], KeptLeft(df.columns)) + [df.rows[k][l.nm]]
  }

  lemma LiteralsDiffer()
    ensures NameRight != CodeRight && NotesColumn != CodeRight
    ensures NameColumn != NotesColumn && CodeColumn != NotesColumn
    ensures NameLeft != NotesColumn && CodeLeft != NotesColumn
    ensures "Country" != NotesColumn && "Region" != NotesColumn && "Country code" != NotesColumn
    ensures RenameJoined(CodeRight) == CodeRight && RenameJoined(NameRight) == "Region"
  {
    assert |NameRight| != |CodeRight|;
    assert |NotesColumn| != |CodeRight|;
    assert |NameLeft| != |NotesColumn| && |CodeLeft| != |NotesColumn|;
    assert |"Country"| != |NotesColumn| && |"Region"| != |NotesColumn| && |"Country code"| != |NotesColumn|;
    assert |CodeRight| != |NameLeft| && |CodeRight| != |CodeLeft| && |NameRight| != |NameLeft|;
  }

  lemma KeepLast<T>(s: seq<T>, k: seq<bool>, a: T)
    requires |s| == |k|
    ensures Filter(s + [a], k + [true]) == Filter(s, k) + [a]
  {
    assert (s + [a])[..|s|] == s && (k + [true])[..|k|] == k;
  }

  lemma DropLast<T>(s: seq<T>, k: seq<bool>, a: T)
    requires |s| == |k|
    ensures Filter(s + [a], k + [false]) == Filter(s, k)
  {
    assert (s + [a])[..|s|] == s && (k + [false])[..|k|] == k;
  }

  /** The flags of the first drop on the original columns. */
  function FirstKeep(cols: seq<string>): (k: seq<bool>)
    ensures |k| == |cols|
  {
    NotNamed(Map(SuffixLeft, cols), CodeRight)
  }

  /** The flags of the second drop on the columns left by the first. */
  function SecondKeep(cols: seq<string>): seq<bool> {
    NotNamed(Map(RenameJoined, Filter(Map(SuffixLeft, cols), FirstKeep(cols))), NotesColumn)
  }

  /** The two drops together keep exactly the `KeptLeft` cells. */
  lemma BothDrops<T>(cols: seq<string>, left: seq<T>)
    requires |left| == |cols|
    ensures |Filter(left, FirstKeep(cols))| == |SecondKeep(cols)|
    ensures Filter(Filter(left, FirstKeep(cols)), SecondKeep(cols)) == Filter(left, KeptLeft(cols))
  {
    var sl := Map(SuffixLeft, cols);
    var k1 := FirstKeep(cols);
    FilterMap(RenameJoined, sl, k1);
    NotNamedFilter(Map(RenameJoined, sl), k1, NotesColumn);
    var k2full := NotNamed(Map(RenameJoined, sl), NotesColumn);
    assert SecondKeep(cols) == Filter(k2full, k1);
    FilterFilter(left, k1, k2full);
    assert seq(|left|, i requires 0 <= i < |left| => k1[i] && k2full[i]) == KeptLeft(cols);
  }

  lemma DropTail<T>(s: seq<T>, k: seq<bool>, a: T, b: T)
    requires |s| == |k|
    ensures Filter(s + [a, b], k + [true, false]) == Filter(s, k) + [a]
  {
    assert s + [a, b] == (s + [a]) + [b];
    assert k + [true, false] == (k + [true]) + [false];
    DropLast(s + [a], k + [true], b);
    KeepLast(s, k, a);
  }

  /** The header after the join and the first drop. */
  function FirstDropped(cols: seq<string>): seq<string> {
    Map(RenameJoined, Filter(Map(SuffixLeft, cols), FirstKeep(cols)) + [NameRight])
  }

  lemma FirstDropSteps(cols: seq<string>)
    ensures NotNamed(Map(SuffixLeft, cols) + [NameRight, CodeRight], CodeRight) == FirstKeep(cols) + [true, false]
    ensures Filter(Map(SuffixLeft, cols) + [NameRight, CodeRight], FirstKeep(cols) + [true, false]) ==
            Filter(Map(SuffixLeft, cols), FirstKeep(cols)) + [NameRight]
  {
    LiteralsDiffer();
    DropTail(Map(SuffixLeft, cols), FirstKeep(cols), NameRight, CodeRight);
  }

  lemma SecondDropFlags(cols: seq<string>)
    ensures NotNamed(FirstDropped(cols), NotesColumn) == SecondKeep(cols) + [true]
  {
    LiteralsDiffer();
    var fs := Filter(Map(SuffixLeft, cols), FirstKeep(cols));
    assert FirstDropped(cols) == Map(RenameJoined, fs) + ["Region"];
  }

  /** Dropping `Country code_right` and then `Notes` from a joined row leaves
      the surviving left cells followed by the subregion name. */
  lemma DropsOfJoinedRow<T>(cols: seq<string>, left: seq<T>, a: T, b: T)
    requires |left| == |cols|
    ensures
      var h1 := Map(SuffixLeft, cols) + [NameRight, CodeRight];
      var k1 := NotNamed(h1, CodeRight);
      var h3 := Map(RenameJoined, Filter(h1, k1));
      var k2 := NotNamed(h3, NotesColumn);
      |Filter(left + [a, b], k1)| == |k2| &&
      Filter(Filter(left + [a, b], k1), k2) == Filter(left, KeptLeft(cols)) + [a]
  {
    FirstDropSteps(cols);
    DropTail(left, FirstKeep(cols), a, b);
    SecondDropFlags(cols);
    BothDrops(cols, left);
    KeepLast(Filter(left, FirstKeep(cols)), SecondKeep(cols), a);
  }

  /** The header the steps compute is `NormalisedHeader`. */
  lemma HeaderAfterDrops(cols: seq<string>)
    ensures
      var h1 := Map(SuffixLeft, cols) + [NameRight, CodeRight];
      var h2 := Filter(h1, NotNamed(h1, CodeRight));
      var h3 := Map(RenameJoined, h2);
      Filter(h3, NotNamed(h3, NotesColumn)) == NormalisedHeader(cols)
  {
    LiteralsDiffer();
    var sl := Map(SuffixLeft, cols);
    var h1 := sl + [NameRight, CodeRight];
    var k1 := NotNamed(h1, CodeRight);
    FilterMap(RenameJoined, h1, k1);
    assert Map(RenameJoined, h1) == Map(RenameJoined, sl) + ["Region", CodeRight];
    DropsOfJoinedRow(cols, Map(RenameJoined, sl), "Region", CodeRight);
    assert Map(RenameJoined, Map(SuffixLeft, cols)) == Map(RenameJoined, sl);
  }

  /** `Notes` is still there for the second drop exactly when the input had it. */
  lemma NotesSurvives(cols: seq<string>)
    ensures
      var h1 := Map(SuffixLeft, cols) + [NameRight, CodeRight];
      var h3 := Map(RenameJoined, Filter(h1, NotNamed(h1, CodeRight)));
      NotesColumn in h3 <==> NotesColumn in cols
  {
    LiteralsDiffer();
    var h1 := Map(SuffixLeft, cols) + [NameRight, CodeRight];
    var k1 := NotNamed(h1, CodeRight);
    var h2 := Filter(h1, k1);
    var h3 := Map(RenameJoined, h2);
    if NotesColumn in h3 {
      var m :| 0 <= m < |h3| && h3[m] == NotesColumn;
      assert h2[m] in h2;
      FilterMember(h1, k1, h2[m]);
      var j :| 0 <= j < |h1| && k1[j] && h1[j] == h2[m];
      assert j < |cols| && cols[j] == NotesColumn;
    }
    if NotesColumn in cols {
      var j :| 0 <= j < |cols| && cols[j] == NotesColumn;
      assert h1[j] == NotesColumn && k1[j];
      FilterMember(h1, k1, NotesColumn);
      var m :| 0 <= m < |h2| && h2[m] == NotesColumn;
      assert h3[m] == NotesColumn;
    }
  }

  /** Each joined row comes from a pair that meets. */
  lemma JoinedSource(df: Table, l: Layout, m: nat) returns (i: nat, k: nat)
    requires WellFormed(df) && ValidLayout(df.columns, l)
    requires m < |Joined(df, l).rows|
    ensures Joins(df, l, i, k) && Joined(df, l).rows[m] == Glue(df.rows[i], df.rows[k], l)
  {
    var subs := Subregions(df, l);
    var k';
    i, k' := JoinRowsSource(df.rows, subs, l, |df.columns|, Joined(df, l).rows[m]);
    k := SubregionSource(df, l, k');
  }

  /** Each pair that meets gives a joined row. */
  lemma JoinedHas(df: Table, l: Layout, i: nat, k: nat) returns (m: nat)
    requires WellFormed(df) && ValidLayout(df.columns, l)
    requires Joins(df, l, i, k)
    ensures m < |Joined(df, l).rows| && Joined(df, l).rows[m] == Glue(df.rows[i], df.rows[k], l)
  {
    var subs := Subregions(df, l);
    var k' := SubregionHas(df, l, k);
    assert df.rows[i] in df.rows;
    JoinRowsHas(df.rows, subs, l, |df.columns|, i, k');
    var rows := Joined(df, l).rows;
    m :| 0 <= m < |rows| && rows[m] == Glue(df.rows[i], df.rows[k], l);
  }

  /** The table after the join, the drop of `Country code_right`, the renaming
      and the drop of `Notes`, when `Notes` is there. */
  function Cleaned(df: Table, l: Layout): (r: Result<Table>)
    requires WellFormed(df) && ValidLayout(df.columns, l)
    ensures r.Ok? ==> WellFormed(r.value) && |r.value.rows| == |Joined(df, l).rows|
  {
    LiteralsDiffer();
    var j := Joined(df, l);
    assert j.columns[|j.columns| - 1] == CodeRight;
    var d1 := DropColumn(j, CodeRight).value;
    DropColumn(d1.(columns := Map(RenameJoined, d1.columns)), NotesColumn)
  }

  /** The cleaned row at position `m` is the normalised row of the pair that
      produced the joined row at `m`. */
  lemma CleanedAt(df: Table, l: Layout, m: nat, i: nat, k: nat)
    requires WellFormed(df) && ValidLayout(df.columns, l) && Cleaned(df, l).Ok?
    requires Joins(df, l, i, k)
    requires m < |Joined(df, l).rows| && Joined(df, l).rows[m] == Glue(df.rows[i], df.rows[k], l)
    ensures Cleaned(df, l).value.rows[m] == NormalisedRow(df, l, i, k)
  {
    LiteralsDiffer();
    assert df.rows[i] in df.rows;
    DropsOfJoinedRow(df.columns, df.rows[i], df.rows[k][l.nm], df.rows[k][l.cc]);
  }

  /** `transform_dataframe`. `countries` is accepted and ignored, as in the
      source, where its filter is commented out. */
  method TransformDataframe(df: Table, countries: seq<string>, dfName: string, from: int, to: int,
                            prefix: string, sep: string, renameFlag: bool) returns (r: Result<Table>)
    requires WellFormed(df)
    ensures r.Ok? <==> LayoutOf(df).Ok? && NotesColumn in df.columns
    ensures r.Err? ==> r.error == (if LayoutOf(df).Err? then LayoutOf(df).error else MissingColumn(NotesColumn))
    ensures r.Ok? ==> WellFormed(r.value) && r.value.name == dfName
    ensures r.Ok? ==> (r.value.columns ==
      if renameFlag then RenamedHeader(NormalisedHeader(df.columns), from, to, if prefix != "" then prefix else dfName, sep)
      else NormalisedHeader(df.columns))
    ensures r.Ok? ==> NoDuplicates(r.value.rows)
    ensures r.Ok? ==> PairRows(df, LayoutOf(df).value, r.value.rows)
    ensures r.Ok? ==> ValidLayout(df.columns, LayoutOf(df).value) && Cleaned(df, LayoutOf(df).value).Ok?
                      && r.value.rows == Dedup(Cleaned(df, LayoutOf(df).value).value.rows)
  {
    var layout := LayoutOf(df);
    if layout.Err? {
      return Err(layout.error);
    }
    var l := layout.value;
    var cleaned := Cleaned(df, l);
    CleanedFacts(df, l);
    if cleaned.Err? {
      return Err(cleaned.error);
    }
    var t := cleaned.value;
    PairRowsDedup(df, l, t.rows);
    t := t.(rows := Dedup(t.rows));
    t := t.(name := dfName);
    if renameFlag {
      if prefix != "" {
        t := RenameColumns(t, from, to, prefix, sep);
      } else {
        t := RenameColumns(t, from, to, t.name, sep);
      }
    }
    r := Ok(t);
  }

  /** `rows` holds exactly the normalised rows of the pairs that meet. */
  ghost predicate PairRows(df: Table, l: Layout, rows: seq<Row>)
    requires WellFormed(df) && ValidLayout(df.columns, l)
  {
    forall o :: o in rows <==> exists i, k :: Joins(df, l, i, k) && o == NormalisedRow(df, l, i, k)
  }

  /** Dropping duplicates keeps the same rows. */
  lemma PairRowsDedup(df: Table, l: Layout, rows: seq<Row>)
    requires WellFormed(df) && ValidLayout(df.columns, l) && PairRows(df, l, rows)
    ensures PairRows(df, l, Dedup(rows))
  {
  }

  /** The cleaned rows are exactly the normalised rows of the pairs that meet. */
  lemma CleanedRows(df: Table, l: Layout)
    requires WellFormed(df) && ValidLayout(df.columns, l) && Cleaned(df, l).Ok?
    ensures PairRows(df, l, Cleaned(df, l).value.rows)
  {
    var rows := Cleaned(df, l).value.rows;
    forall o | o in rows
      ensures exists i, k :: Joins(df, l, i, k) && o == NormalisedRow(df, l, i, k)
    {
      var m :| 0 <= m < |rows| && rows[m] == o;
      var i, k := JoinedSource(df, l, m);
      CleanedAt(df, l, m, i, k);
    }
    forall i, k | Joins(df, l, i, k)
      ensures NormalisedRow(df, l, i, k) in rows
    {
      var m := JoinedHas(df, l, i, k);
      CleanedAt(df, l, m, i, k);
    }
  }

  /** The cleaned table fails exactly when `Notes` is missing; otherwise it has
      the normalised header and the normalised rows of the pairs that meet. */
  lemma CleanedFacts(df: Table, l: Layout)
    requires WellFormed(df) && ValidLayout(df.columns, l)
    ensures Cleaned(df, l).Ok? <==> NotesColumn in df.columns
    ensures Cleaned(df, l).Err? ==> Cleaned(df, l).error == MissingColumn(NotesColumn)
    ensures Cleaned(df, l).Ok? ==> Cleaned(df, l).value.columns == NormalisedHeader(df.columns)
    ensures Cleaned(df, l).Ok? ==> PairRows(df, l, Cleaned(df, l).value.rows)
  {
    NotesSurvives(df.columns);
    HeaderAfterDrops(df.columns);
    LiteralsDiffer();
    if Cleaned(df, l).Ok? {
      CleanedRows(df, l);
    }
  }
}
