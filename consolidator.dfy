/** The consolidator: folds the per-statistic tables into one by successive
    inner joins on (`Country`, `Region`, `Period`). */
module Consolidator {
  import opened Tables

  const CountryKey := "Country"
  const RegionKey := "Region"
  const PeriodKey := "Period"

  /** The labels of the join keys, in the order pandas looks them up. */
  const Keys := [CountryKey, RegionKey, PeriodKey]

  /** The empty `pd.DataFrame()` the fold starts from. */
  const EmptyFrame := Table("", [], [])

  predicate HasKeys(cols: seq<string>) {
    CountryKey in cols && RegionKey in cols && PeriodKey in cols
  }

  /** The positions of the key columns on both sides of a merge. */
  datatype KeyCols = KeyCols(left: seq<nat>, right: seq<nat>)

  predicate Locates(cols: seq<string>, ps: seq<nat>, keys: seq<string>) {
    |ps| == |keys| && forall q :: 0 <= q < |ps| ==> ps[q] < |cols| && cols[ps[q]] == keys[q]
  }

  /** Looks the keys up one by one on both sides; the first key either side
      lacks is a KeyError. */
  function FindKeys(left: seq<string>, right: seq<string>, keys: seq<string>): (r: Result<KeyCols>)
    ensures r.Ok? ==> Locates(left, r.value.left, keys) && Locates(right, r.value.right, keys)
    decreases |keys|
  {
    if |keys| == 0 then Ok(KeyCols([], []))
    else
      match (IndexOf(left, keys[0]), IndexOf(right, keys[0]))
      case (Some(p), Some(q)) =>
        var rest :- FindKeys(left, right, keys[1..]);
        Ok(KeyCols([p] + rest.left, [q] + rest.right))
      case _ => Err(MissingColumn(keys[0]))
  }

  /** The first positions of the keys in a table that has all of them. */
  function KeyPosOf(cols: seq<string>): (ps: seq<nat>)
    requires HasKeys(cols)
    ensures Locates(cols, ps, Keys)
  {
    [IndexOf(cols, CountryKey).value, IndexOf(cols, RegionKey).value, IndexOf(cols, PeriodKey).value]
  }

  /** The cells of `row` at positions `ps`. */
  function Pick<T>(s: seq<T>, ps: seq<nat>): (r: seq<T>)
    requires forall q :: 0 <= q < |ps| ==> ps[q] < |s|
    ensures |r| == |ps| && forall q :: 0 <= q < |ps| ==> r[q] == s[ps[q]]
  {
    seq(|ps|, q requires 0 <= q < |ps| => s[ps[q]])
  }

  predicate Fits(ps: seq<nat>, w: nat) {
    forall q :: 0 <= q < |ps| ==> ps[q] < w
  }

  /** The (`Country`, `Region`, `Period`) key of a row of table `t`. */
  function KeyOf(t: Table, row: Row): seq<Value>
    requires HasKeys(t.columns) && |row| == |t.columns|
  {
    Pick(row, KeyPosOf(t.columns))
  }

  /** Some row of `rows`, each `w` cells wide, has the cells `key` at
      positions `ps`. */
  predicate KeyIn(rows: seq<Row>, ps: seq<nat>, w: nat, key: seq<Value>)
    requires Fits(ps, w)
    decreases |rows|
  {
    if |rows| == 0 then false
    else
      var n := |rows| - 1;
      (|rows[n]| == w && Pick(rows[n], ps) == key) || KeyIn(rows[..n], ps, w, key)
  }

  /** Some row of `t` has key `key`. */
  predicate HasKey(t: Table, key: seq<Value>)
    requires HasKeys(t.columns)
  {
    KeyIn(t.rows, KeyPosOf(t.columns), |t.columns|, key)
  }

  /** Every label that is not a key and that both sides carry gets `_x` on
      the left and `_y` on the right. */
  function LeftLabel(right: seq<string>, c: string): string {
    if c !in Keys && c in right then c + "_x" else c
  }

  function RightLabel(left: seq<string>, c: string): string {
    if c in left then c + "_y" else c
  }

  /** The right-hand columns that survive: all but the keys. */
  function RightKeep(cols: seq<string>): (keep: seq<bool>)
    ensures |keep| == |cols|
    ensures forall j :: 0 <= j < |cols| ==> (keep[j] <==> cols[j] !in Keys)
  {
    seq(|cols|, j requires 0 <= j < |cols| => cols[j] !in Keys)
  }

  /** The left labels, each suffixed where the right side clashes. */
  function LeftLabels(right: seq<string>, left: seq<string>): (r: seq<string>)
    ensures |r| == |left|
    decreases |left|
  {
    if |left| == 0 then [] else LeftLabels(right, left[..|left| - 1]) + [LeftLabel(right, left[|left| - 1])]
  }

  /** The surviving right labels, each suffixed where the left side clashes. */
  function RightLabels(left: seq<string>, kept: seq<string>): (r: seq<string>)
    ensures |r| == |kept|
    decreases |kept|
  {
    if |kept| == 0 then [] else RightLabels(left, kept[..|kept| - 1]) + [RightLabel(left, kept[|kept| - 1])]
  }

  lemma {:induction false} LeftLabelsAt(right: seq<string>, left: seq<string>)
    ensures forall i :: 0 <= i < |left| ==> LeftLabels(right, left)[i] == LeftLabel(right, left[i])
    decreases |left|
  {
    if |left| > 0 {
      LeftLabelsAt(right, left[..|left| - 1]);
    }
  }

  lemma {:induction false} RightLabelsAt(left: seq<string>, kept: seq<string>)
    ensures forall i :: 0 <= i < |kept| ==> RightLabels(left, kept)[i] == RightLabel(left, kept[i])
    decreases |kept|
  {
    if |kept| > 0 {
      RightLabelsAt(left, kept[..|kept| - 1]);
    }
  }

  /** The merged header: the left labels, then the right's non-key labels. */
  function MergedHeader(left: seq<string>, right: seq<string>): (h: seq<string>)
    ensures |h| == |left| + |Filter(right, RightKeep(right))|
  {
    LeftLabels(right, left) + RightLabels(left, Filter(right, RightKeep(right)))
  }

  /** Relabelling made a label repeat that was not repeated before: the label
      at some position occurs earlier among the new labels, while the label
      it replaced did not occur earlier among the old ones. pandas refuses
      such suffixes with a MergeError. */
  predicate Repeats(before: seq<string>, labels: seq<string>)
    requires |before| == |labels|
  {
    exists i :: 0 <= i < |labels| && labels[i] in labels[..i] && before[i] !in before[..i]
  }

  /** The suffixes of a merge make a label repeat on either side. */
  predicate SuffixesClash(left: seq<string>, right: seq<string>) {
    var kept := Filter(right, RightKeep(right));
    Repeats(left, LeftLabels(right, left)) || Repeats(kept, RightLabels(left, kept))
  }

  /** A left and a right row with the same key merge into the left cells
      followed by the right's non-key cells. */
  function MergedRow(left: Row, right: Row, keep: seq<bool>): Row
    requires |right| == |keep|
  {
    left + Filter(right, keep)
  }

  ghost predicate Width(rows: seq<Row>, w: nat) {
    forall s | s in rows :: |s| == w
  }

  /** The shape of one merge: key positions and widths of both sides and the
      right-hand cells that survive. */
  ghost predicate Shape(ks: KeyCols, keep: seq<bool>, wa: nat, wb: nat) {
    Fits(ks.left, wa) && Fits(ks.right, wb) && |keep| == wb
  }

  /** The rows of the inner join for one left row, in right-hand order. */
  function MatchRights(left: Row, rights: seq<Row>, ks: KeyCols, keep: seq<bool>, wb: nat): (r: seq<Row>)
    requires Shape(ks, keep, |left|, wb) && Width(rights, wb)
    decreases |rights|
  {
    if |rights| == 0 then []
    else
      var m := |rights| - 1;
      assert rights[m] in rights;
      assert Width(rights[..m], wb) by {
        forall s | s in rights[..m] ensures |s| == wb { assert s in rights; }
      }
      MatchRights(left, rights[..m], ks, keep, wb) +
      (if Pick(left, ks.left) == Pick(rights[m], ks.right) then [MergedRow(left, rights[m], keep)] else [])
  }

  /** The inner join of `lefts` with `rights`, left-major. */
  function MergeRows(lefts: seq<Row>, rights: seq<Row>, ks: KeyCols, keep: seq<bool>, wa: nat, wb: nat): seq<Row>
    requires Shape(ks, keep, wa, wb) && Width(lefts, wa) && Width(rights, wb)
    decreases |lefts|
  {
    if |lefts| == 0 then []
    else
      var n := |lefts| - 1;
      assert lefts[n] in lefts;
      assert Width(lefts[..n], wa) by {
        forall s | s in lefts[..n] ensures |s| == wa { assert s in lefts; }
      }
      MergeRows(lefts[..n], rights, ks, keep, wa, wb) + MatchRights(lefts[n], rights, ks, keep, wb)
  }

  lemma {:induction false} MatchRightsSource(left: Row, rights: seq<Row>, ks: KeyCols, keep: seq<bool>, wb: nat, o: Row)
    returns (k: nat)
    requires Shape(ks, keep, |left|, wb) && Width(rights, wb)
    requires o in MatchRights(left, rights, ks, keep, wb)
    ensures k < |rights| && |rights[k]| == wb && Pick(left, ks.left) == Pick(rights[k], ks.right)
    ensures o == MergedRow(left, rights[k], keep)
    decreases |rights|
  {
    var m := |rights| - 1;
    assert rights[m] in rights;
    assert Width(rights[..m], wb) by {
      forall s | s in rights[..m] ensures |s| == wb { assert s in rights; }
    }
    if o in MatchRights(left, rights[..m], ks, keep, wb) {
      k := MatchRightsSource(left, rights[..m], ks, keep, wb, o);
      assert rights[..m][k] == rights[k];
    } else {
      k := m;
    }
  }

  lemma {:induction false} MatchRightsHas(left: Row, rights: seq<Row>, ks: KeyCols, keep: seq<bool>, wb: nat, k: nat)
    requires Shape(ks, keep, |left|, wb) && Width(rights, wb)
    requires k < |rights| && |rights[k]| == wb && Pick(left, ks.left) == Pick(rights[k], ks.right)
    ensures MergedRow(left, rights[k], keep) in MatchRights(left, rights, ks, keep, wb)
    decreases |rights|
  {
    var m := |rights| - 1;
    assert rights[m] in rights;
    assert Width(rights[..m], wb) by {
      forall s | s in rights[..m] ensures |s| == wb { assert s in rights; }
    }
    if k < m {
      assert rights[..m][k] == rights[k];
      MatchRightsHas(left, rights[..m], ks, keep, wb, k);
    }
  }

  lemma {:induction false} MergeRowsSource(lefts: seq<Row>, rights: seq<Row>, ks: KeyCols, keep: seq<bool>,
                                           wa: nat, wb: nat, o: Row) returns (i: nat, k: nat)
    requires Shape(ks, keep, wa, wb) && Width(lefts, wa) && Width(rights, wb)
    requires o in MergeRows(lefts, rights, ks, keep, wa, wb)
    ensures i < |lefts| && k < |rights| && |lefts[i]| == wa && |rights[k]| == wb
    ensures Pick(lefts[i], ks.left) == Pick(rights[k], ks.right) && o == MergedRow(lefts[i], rights[k], keep)
    decreases |lefts|
  {
    var n := |lefts| - 1;
    assert lefts[n] in lefts;
    assert Width(lefts[..n], wa) by {
      forall s | s in lefts[..n] ensures |s| == wa { assert s in lefts; }
    }
    if o in MergeRows(lefts[..n], rights, ks, keep, wa, wb) {
      i, k := MergeRowsSource(lefts[..n], rights, ks, keep, wa, wb, o);
      assert lefts[..n][i] == lefts[i];
    } else {
      i := n;
      k := MatchRightsSource(lefts[n], rights, ks, keep, wb, o);
    }
  }

  lemma {:induction false} MergeRowsHas(lefts: seq<Row>, rights: seq<Row>, ks: KeyCols, keep: seq<bool>,
                                        wa: nat, wb: nat, i: nat, k: nat)
    requires Shape(ks, keep, wa, wb) && Width(lefts, wa) && Width(rights, wb)
    requires i < |lefts| && k < |rights| && |lefts[i]| == wa && |rights[k]| == wb
    requires Pick(lefts[i], ks.left) == Pick(rights[k], ks.right)
    ensures MergedRow(lefts[i], rights[k], keep) in MergeRows(lefts, rights, ks, keep, wa, wb)
    decreases |lefts|
  {
    var n := |lefts| - 1;
    assert lefts[n] in lefts;
    assert Width(lefts[..n], wa) by {
      forall s | s in lefts[..n] ensures |s| == wa { assert s in lefts; }
    }
    if i < n {
      assert lefts[..n][i] == lefts[i];
      MergeRowsHas(lefts[..n], rights, ks, keep, wa, wb, i, k);
    } else {
      MatchRightsHas(lefts[n], rights, ks, keep, wb, k);
    }
  }

  lemma {:induction false} MergeRowsWidth(lefts: seq<Row>, rights: seq<Row>, ks: KeyCols, keep: seq<bool>,
                                          wa: nat, wb: nat, cols: seq<string>)
    requires Shape(ks, keep, wa, wb) && Width(lefts, wa) && Width(rights, wb) && |cols| == wb
    ensures Width(MergeRows(lefts, rights, ks, keep, wa, wb), wa + |Filter(cols, keep)|)
  {
    forall o | o in MergeRows(lefts, rights, ks, keep, wa, wb)
      ensures |o| == wa + |Filter(cols, keep)|
    {
      var i, k := MergeRowsSource(lefts, rights, ks, keep, wa, wb, o);
      FilterSameLength(rights[k], cols, keep);
    }
  }

  /** `a.merge(b, on=['Country', 'Region', 'Period'])`: an inner join whose
      key columns keep their place on the left. The keys are looked up
      first; then suffixes that would repeat a label are refused. */
  function Merge(a: Table, b: Table): (r: Result<Table>)
    requires WellFormed(a) && WellFormed(b)
    ensures r.Ok? ==> WellFormed(r.value)
  {
    var ks :- FindKeys(a.columns, b.columns, Keys);
    if SuffixesClash(a.columns, b.columns) then Err(SuffixCollision) else
    var keep := RightKeep(b.columns);
    assert Width(a.rows, |a.columns|) && Width(b.rows, |b.columns|);
    MergeRowsWidth(a.rows, b.rows, ks, keep, |a.columns|, |b.columns|, b.columns);
    Ok(Table("", MergedHeader(a.columns, b.columns), MergeRows(a.rows, b.rows, ks, keep, |a.columns|, |b.columns|)))
  }

  /** The lookup succeeds exactly when both sides carry every key, and then
      finds the first position of each; otherwise it names the first key
      that one side lacks. */
  lemma {:induction false} FindKeysIndex(left: seq<string>, right: seq<string>, keys: seq<string>)
    ensures FindKeys(left, right, keys).Ok? <==> forall q :: 0 <= q < |keys| ==> keys[q] in left && keys[q] in right
    ensures FindKeys(left, right, keys).Ok? ==> forall q :: 0 <= q < |keys| ==>
      IndexOf(left, keys[q]) == Some(FindKeys(left, right, keys).value.left[q]) &&
      IndexOf(right, keys[q]) == Some(FindKeys(left, right, keys).value.right[q])
    ensures FindKeys(left, right, keys).Err? ==>
      (exists q :: 0 <= q < |keys| && !(keys[q] in left && keys[q] in right) &&
        FindKeys(left, right, keys).error == MissingColumn(keys[q]) &&
        forall p :: 0 <= p < q ==> keys[p] in left && keys[p] in right)
    decreases |keys|
  {
    if |keys| > 0 {
      FindKeysIndex(left, right, keys[1..]);
      var r := FindKeys(left, right, keys);
      if keys[0] in left && keys[0] in right {
        if r.Err? {
          var q :| 0 <= q < |keys[1..]| && !(keys[1..][q] in left && keys[1..][q] in right) &&
            r.error == MissingColumn(keys[1..][q]) &&
            forall p :: 0 <= p < q ==> keys[1..][p] in left && keys[1..][p] in right;
          assert forall p :: 0 <= p < q + 1 ==> keys[p] in left && keys[p] in right by {
            forall p | 0 <= p < q + 1 ensures keys[p] in left && keys[p] in right {
              if p > 0 { assert keys[p] == keys[1..][p - 1]; }
            }
          }
          assert keys[q + 1] == keys[1..][q];
        } else {
          forall q | 0 <= q < |keys| ensures keys[q] in left && keys[q] in right {
            if q > 0 { assert keys[q] == keys[1..][q - 1]; }
          }
          forall q | 0 <= q < |keys|
            ensures IndexOf(left, keys[q]) == Some(r.value.left[q]) && IndexOf(right, keys[q]) == Some(r.value.right[q])
          {
            if q > 0 { assert keys[q] == keys[1..][q - 1]; }
          }
        }
      }
    }
  }

  /** The key lookup of a merge succeeds exactly when both sides carry all
      three keys; otherwise it names `Country`, `Region` or `Period`, the
      first that one side lacks. */
  lemma KeysOutcome(left: seq<string>, right: seq<string>)
    ensures FindKeys(left, right, Keys).Ok? <==> HasKeys(left) && HasKeys(right)
    ensures FindKeys(left, right, Keys).Err? ==> FindKeys(left, right, Keys).error == MissingColumn(
      if CountryKey !in left || CountryKey !in right then CountryKey
      else if RegionKey !in left || RegionKey !in right then RegionKey
      else PeriodKey)
    ensures FindKeys(left, right, Keys).Ok? ==>
      FindKeys(left, right, Keys).value == KeyCols(KeyPosOf(left), KeyPosOf(right))
  {
    FindKeysIndex(left, right, Keys);
    var r := FindKeys(left, right, Keys);
    assert Keys[0] == CountryKey && Keys[1] == RegionKey && Keys[2] == PeriodKey;
    if r.Ok? {
      assert r.value.left == KeyPosOf(left);
      assert r.value.right == KeyPosOf(right);
    } else {
      var q :| 0 <= q < |Keys| && !(Keys[q] in left && Keys[q] in right) && r.error == MissingColumn(Keys[q]) &&
        forall p :: 0 <= p < q ==> Keys[p] in left && Keys[p] in right;
      if q > 0 {
        assert Keys[0] in left && Keys[0] in right;
      }
      if q > 1 {
        assert Keys[1] in left && Keys[1] in right;
      }
    }
  }

  /** A merge fails when a key is missing on one side, with a KeyError
      naming the first such key, and otherwise when its suffixes would
      repeat a label, with a MergeError; on success its header is the left
      labels followed by the right's non-key labels, suffixed where they
      clash, and the keys are found at their first positions. */
  lemma MergeOutcome(a: Table, b: Table)
    requires WellFormed(a) && WellFormed(b)
    ensures Merge(a, b).Ok? <==> HasKeys(a.columns) && HasKeys(b.columns) && !SuffixesClash(a.columns, b.columns)
    ensures !(HasKeys(a.columns) && HasKeys(b.columns)) ==> Merge(a, b) == Err(MissingColumn(
      if CountryKey !in a.columns || CountryKey !in b.columns then CountryKey
      else if RegionKey !in a.columns || RegionKey !in b.columns then RegionKey
      else PeriodKey))
    ensures HasKeys(a.columns) && HasKeys(b.columns) && SuffixesClash(a.columns, b.columns) ==>
      Merge(a, b) == Err(SuffixCollision)
    ensures Merge(a, b).Ok? ==> Merge(a, b).value.columns == MergedHeader(a.columns, b.columns)
    ensures Merge(a, b).Ok? ==>
      FindKeys(a.columns, b.columns, Keys) == Ok(KeyCols(KeyPosOf(a.columns), KeyPosOf(b.columns)))
  {
    KeysOutcome(a.columns, b.columns);
  }

  /** Relabelled labels without repeats are never refused. */
  lemma DistinctLabelsAllowed(before: seq<string>, labels: seq<string>)
    requires |before| == |labels| && NoDuplicates(labels)
    ensures !Repeats(before, labels)
  {
  }

  /** When the right side brings no non-key label the left side already
      has, nothing is suffixed: the merged header is the left labels and
      then the right's non-key labels as they are, and no MergeError
      arises. */
  lemma DisjointLabelsMerge(left: seq<string>, right: seq<string>)
    requires forall c | c in right && c !in Keys :: c !in left
    ensures LeftLabels(right, left) == left
    ensures RightLabels(left, Filter(right, RightKeep(right))) == Filter(right, RightKeep(right))
    ensures !SuffixesClash(left, right)
    ensures MergedHeader(left, right) == left + Filter(right, RightKeep(right))
  {
    LeftLabelsAt(right, left);
    var kept := Filter(right, RightKeep(right));
    RightLabelsAt(left, kept);
    forall c | c in kept ensures c !in left {
      FilterMember(right, RightKeep(right), c);
    }
  }

  /** A merge of two row-less tables whose keys are present and whose
      suffixes do not clash is the row-less table with the merged header. */
  lemma MergeNoRows(a: Table, b: Table)
    requires WellFormed(a) && WellFormed(b) && a.rows == [] && b.rows == []
    requires HasKeys(a.columns) && HasKeys(b.columns) && !SuffixesClash(a.columns, b.columns)
    ensures Merge(a, b) == Ok(Table("", MergedHeader(a.columns, b.columns), []))
  {
    MergeOutcome(a, b);
  }

  /** The header of a sheet of the first list whose value column is
      labelled `a`. */
  function Sheet(a: string): seq<string> {
    [CountryKey, RegionKey, PeriodKey, a]
  }

  /** A suffixed label is never one of the keys, nor the label itself. */
  lemma SuffixedLabels(a: string, sx: string)
    requires sx == "_x" || sx == "_y"
    ensures a + sx !in Keys && a + sx != a
  {
    var y := a + sx;
    assert y[|y| - 2] == '_';
    assert CountryKey[|CountryKey| - 2] != '_';
    assert RegionKey[|RegionKey| - 2] != '_';
    assert PeriodKey[|PeriodKey| - 2] != '_';
  }

  lemma SheetKept(a: string)
    requires a !in Keys
    ensures Filter(Sheet(a), RightKeep(Sheet(a))) == [a]
  {
    var cols := Sheet(a);
    var keep := RightKeep(cols);
    assert !keep[0] && !keep[1] && !keep[2] && keep[3];
    var keys := Filter(cols[..3], keep[..3]);
    assert keys == [] by {
      if keys != [] {
        FilterMember(cols[..3], keep[..3], keys[0]);
      }
    }
    assert cols[..|cols| - 1] == cols[..3] && keep[..|keep| - 1] == keep[..3];
  }

  /** Merging two sheets that share the value label `a` suffixes the left
      copy with `_x` ... */
  lemma SheetFirstLeft(a: string)
    requires a !in Keys
    ensures LeftLabels(Sheet(a), Sheet(a)) == [CountryKey, RegionKey, PeriodKey, a + "_x"]
  {
    var cols := Sheet(a);
    SuffixedLabels(a, "_x");
    LeftLabelsAt(cols, cols);
    assert LeftLabels(cols, cols)[3] == LeftLabel(cols, a) == a + "_x";
  }

  /** ... and the right copy with `_y`. */
  lemma SheetFirstRight(a: string)
    requires a !in Keys
    ensures RightLabels(Sheet(a), [a]) == [a + "_y"]
  {
    RightLabelsAt(Sheet(a), [a]);
    assert RightLabels(Sheet(a), [a])[0] == RightLabel(Sheet(a), a) == a + "_y";
  }

  /** Relabellings without repeats give the merged header without a
      clash. */
  lemma DistinctMerge(left: seq<string>, right: seq<string>, ll: seq<string>, rl: seq<string>)
    requires LeftLabels(right, left) == ll && RightLabels(left, Filter(right, RightKeep(right))) == rl
    requires NoDuplicates(ll) && NoDuplicates(rl)
    ensures MergedHeader(left, right) == ll + rl && !SuffixesClash(left, right)
  {
    DistinctLabelsAllowed(left, ll);
    DistinctLabelsAllowed(Filter(right, RightKeep(right)), rl);
  }

  lemma SheetFirstDistinct(a: string)
    ensures NoDuplicates([CountryKey, RegionKey, PeriodKey, a + "_x"])
  {
    SuffixedLabels(a, "_x");
  }

  /** So two such sheets merge without a clash. */
  lemma SheetFirstMerge(a: string)
    requires a !in Keys
    ensures MergedHeader(Sheet(a), Sheet(a)) == [CountryKey, RegionKey, PeriodKey, a + "_x"] + [a + "_y"]
    ensures !SuffixesClash(Sheet(a), Sheet(a))
  {
    SheetKept(a);
    SheetFirstLeft(a);
    SheetFirstRight(a);
    SheetFirstDistinct(a);
    DistinctMerge(Sheet(a), Sheet(a), [CountryKey, RegionKey, PeriodKey, a + "_x"], [a + "_y"]);
  }

  /** After three such sheets the header holds `a_x`, `a_y` and `a`; a
      fourth would turn that left `a` into a second `a_x`. */
  lemma SheetThirdMerge(a: string)
    requires a !in Keys
    ensures HasKeys([CountryKey, RegionKey, PeriodKey, a + "_x"] + [a + "_y"] + [a])
    ensures SuffixesClash([CountryKey, RegionKey, PeriodKey, a + "_x"] + [a + "_y"] + [a], Sheet(a))
  {
    var h := [CountryKey, RegionKey, PeriodKey, a + "_x"] + [a + "_y"] + [a];
    SuffixedLabels(a, "_x");
    SuffixedLabels(a, "_y");
    LeftLabelsAt(Sheet(a), h);
    var l := LeftLabels(Sheet(a), h);
    assert a + "_x" !in Sheet(a);
    assert l[3] == a + "_x" && l[5] == a + "_x";
    assert l[..5][3] == l[5];
    assert h[5] !in h[..5];
  }

  /** A third sheet brings `a`, which the header after two sheets lacks. */
  lemma SheetSecondMerge(a: string)
    requires a !in Keys
    ensures var h1 := [CountryKey, RegionKey, PeriodKey, a + "_x"] + [a + "_y"];
      HasKeys(h1) && MergedHeader(h1, Sheet(a)) == h1 + [a] && !SuffixesClash(h1, Sheet(a))
  {
    var h1 := [CountryKey, RegionKey, PeriodKey, a + "_x"] + [a + "_y"];
    SuffixedLabels(a, "_x");
    SuffixedLabels(a, "_y");
    assert forall c | c in Sheet(a) && c !in Keys :: c !in h1;
    DisjointLabelsMerge(h1, Sheet(a));
    SheetKept(a);
  }

  /** The first step of the fold over row-less tables. */
  lemma FoldNoRowsFirst(stat: seq<Table>, h: seq<string>)
    requires AllWellFormed(stat) && 2 <= |stat| && stat[0].rows == [] && stat[1].rows == []
    requires HasKeys(stat[0].columns) && HasKeys(stat[1].columns)
    requires !SuffixesClash(stat[0].columns, stat[1].columns) && MergedHeader(stat[0].columns, stat[1].columns) == h
    ensures MergeAll(stat, 2) == Ok(Table("", h, []))
  {
    MergeNoRows(stat[0], stat[1]);
  }

  /** A later step of the fold over row-less tables. */
  lemma FoldNoRowsNext(stat: seq<Table>, k: nat, h: seq<string>, h': seq<string>)
    requires AllWellFormed(stat) && 2 <= k < |stat| && stat[k].rows == []
    requires MergeAll(stat, k) == Ok(Table("", h, []))
    requires HasKeys(h) && HasKeys(stat[k].columns)
    requires !SuffixesClash(h, stat[k].columns) && MergedHeader(h, stat[k].columns) == h'
    ensures MergeAll(stat, k + 1) == Ok(Table("", h', []))
  {
    MergeAllStep(stat, k);
    MergeNoRows(Table("", h, []), stat[k]);
  }

  /** Row-less sheets of the first list, all with value label `a`. */
  ghost predicate SheetsOf(stat: seq<Table>, a: string) {
    AllWellFormed(stat) && forall q :: 0 <= q < |stat| ==> stat[q].columns == Sheet(a) && stat[q].rows == []
  }

  /** A step of the fold whose suffixes clash raises the MergeError. */
  lemma FoldNoRowsClash(stat: seq<Table>, k: nat, h: seq<string>)
    requires AllWellFormed(stat) && 2 <= k < |stat|
    requires MergeAll(stat, k) == Ok(Table("", h, []))
    requires HasKeys(h) && HasKeys(stat[k].columns) && SuffixesClash(h, stat[k].columns)
    ensures MergeAll(stat, k + 1) == Err(SuffixCollision)
  {
    MergeAllStep(stat, k);
    MergeOutcome(Table("", h, []), stat[k]);
  }

  /** Two sheets labelled `a` merge into `a_x` and `a_y`. */
  lemma SheetFoldTwo(stat: seq<Table>, a: string)
    requires a !in Keys && |stat| >= 2 && SheetsOf(stat, a)
    ensures MergeAll(stat, 2) == Ok(Table("", [CountryKey, RegionKey, PeriodKey, a + "_x"] + [a + "_y"], []))
  {
    SheetFirstMerge(a);
    FoldNoRowsFirst(stat, [CountryKey, RegionKey, PeriodKey, a + "_x"] + [a + "_y"]);
  }

  /** A third sheet adds its `a` unsuffixed. */
  lemma SheetFoldThree(stat: seq<Table>, a: string)
    requires a !in Keys && |stat| >= 3 && SheetsOf(stat, a)
    ensures MergeAll(stat, 3) == Ok(Table("", [CountryKey, RegionKey, PeriodKey, a + "_x"] + [a + "_y"] + [a], []))
  {
    var h1 := [CountryKey, RegionKey, PeriodKey, a + "_x"] + [a + "_y"];
    SheetFoldTwo(stat, a);
    SheetSecondMerge(a);
    FoldNoRowsNext(stat, 2, h1, h1 + [a]);
  }

  /** Four sheets whose value columns share a label `a` that is not a key:
      the first two merges give `a_x`, `a_y` and `a`, and the third would
      turn the left `a` into a second `a_x`, so the fold raises a
      MergeError. */
  lemma SharedValueLabelClash(stat: seq<Table>, a: string)
    requires a !in Keys && |stat| == 4 && SheetsOf(stat, a)
    ensures MergeAll(stat, 4) == Err(SuffixCollision)
  {
    var h2 := [CountryKey, RegionKey, PeriodKey, a + "_x"] + [a + "_y"] + [a];
    SheetFoldThree(stat, a);
    SheetThirdMerge(a);
    FoldNoRowsClash(stat, 3, h2);
  }

  /** Every merged row is a left row and a right row with the same key. */
  lemma MergeSource(a: Table, b: Table, m: nat) returns (i: nat, k: nat)
    requires WellFormed(a) && WellFormed(b) && Merge(a, b).Ok?
    requires m < |Merge(a, b).value.rows|
    ensures HasKeys(a.columns) && HasKeys(b.columns)
    ensures i < |a.rows| && k < |b.rows| && |a.rows[i]| == |a.columns| && |b.rows[k]| == |b.columns|
    ensures KeyOf(a, a.rows[i]) == KeyOf(b, b.rows[k])
    ensures Merge(a, b).value.rows[m] == MergedRow(a.rows[i], b.rows[k], RightKeep(b.columns))
  {
    MergeOutcome(a, b);
    var ks := KeyCols(KeyPosOf(a.columns), KeyPosOf(b.columns));
    assert Width(a.rows, |a.columns|) && Width(b.rows, |b.columns|);
    i, k := MergeRowsSource(a.rows, b.rows, ks, RightKeep(b.columns), |a.columns|, |b.columns|, Merge(a, b).value.rows[m]);
  }

  /** Every pair of a left row and a right row with the same key is merged,
      unless the suffixes clash. */
  lemma MergeHas(a: Table, b: Table, i: nat, k: nat)
    requires WellFormed(a) && WellFormed(b) && HasKeys(a.columns) && HasKeys(b.columns)
    requires i < |a.rows| && k < |b.rows|
    requires KeyOf(a, a.rows[i]) == KeyOf(b, b.rows[k])
    ensures Merge(a, b).Ok? <==> !SuffixesClash(a.columns, b.columns)
    ensures Merge(a, b).Ok? ==> MergedRow(a.rows[i], b.rows[k], RightKeep(b.columns)) in Merge(a, b).value.rows
  {
    MergeOutcome(a, b);
    if SuffixesClash(a.columns, b.columns) {
      return;
    }
    var ks := KeyCols(KeyPosOf(a.columns), KeyPosOf(b.columns));
    assert Width(a.rows, |a.columns|) && Width(b.rows, |b.columns|);
    MergeRowsHas(a.rows, b.rows, ks, RightKeep(b.columns), |a.columns|, |b.columns|, i, k);
  }

  lemma KeyLabelsKept(right: seq<string>, x: string, c: string)
    requires c in Keys
    ensures LeftLabel(right, x) == c <==> x == c
  {
    if x !in Keys && x in right {
      var y := x + "_x";
      assert y[|y| - 1] == 'x';
      assert c[|c| - 1] != 'x';
    }
  }

  /** A label found at `j` with no earlier occurrence is found first at `j`. */
  lemma IndexOfFirst(cols: seq<string>, c: string, j: nat)
    requires j < |cols| && cols[j] == c
    requires forall i :: 0 <= i < j ==> cols[i] != c
    ensures IndexOf(cols, c) == Some(j)
  {
    assert IndexOf(cols, c).Some?;
  }

  /** Relabelling the left columns leaves the key labels where they were. */
  lemma {:induction false} LeftKeyIndex(left: seq<string>, right: seq<string>, rest: seq<string>, c: string)
    requires c in Keys && c in left
    ensures var ml := LeftLabels(right, left);
      c in ml && IndexOf(ml + rest, c) == IndexOf(left, c)
  {
    var ml := LeftLabels(right, left);
    LeftLabelsAt(right, left);
    var q := IndexOf(left, c).value;
    forall i | 0 <= i <= q
      ensures ml[i] == c <==> left[i] == c
    {
      KeyLabelsKept(right, left[i], c);
    }
    IndexOfFirst(ml, c, q);
    IndexOfPrefix(ml, rest, c);
  }

  /** The key columns of a merged header sit where they sat on the left. */
  lemma MergedHeaderKeys(left: seq<string>, right: seq<string>)
    requires HasKeys(left)
    ensures HasKeys(MergedHeader(left, right))
    ensures KeyPosOf(MergedHeader(left, right)) == KeyPosOf(left)
  {
    var rest := RightLabels(left, Filter(right, RightKeep(right)));
    assert CountryKey in Keys && RegionKey in Keys && PeriodKey in Keys;
    LeftKeyIndex(left, right, rest, CountryKey);
    LeftKeyIndex(left, right, rest, RegionKey);
    LeftKeyIndex(left, right, rest, PeriodKey);
  }

  /** The key columns of a merge sit where they sat on the left. */
  lemma MergeKeyPositions(a: Table, b: Table)
    requires WellFormed(a) && WellFormed(b) && Merge(a, b).Ok?
    ensures HasKeys(a.columns) && HasKeys(Merge(a, b).value.columns)
    ensures KeyPosOf(Merge(a, b).value.columns) == KeyPosOf(a.columns)
  {
    MergeOutcome(a, b);
    MergedHeaderKeys(a.columns, b.columns);
  }

  /** A merged row has the key of both rows it came from. */
  lemma MergedRowKey(a: Table, b: Table, m: nat) returns (i: nat, k: nat)
    requires WellFormed(a) && WellFormed(b) && Merge(a, b).Ok?
    requires m < |Merge(a, b).value.rows|
    ensures HasKeys(a.columns) && HasKeys(b.columns) && HasKeys(Merge(a, b).value.columns)
    ensures |Merge(a, b).value.rows[m]| == |Merge(a, b).value.columns|
    ensures i < |a.rows| && k < |b.rows| && |a.rows[i]| == |a.columns| && |b.rows[k]| == |b.columns|
    ensures KeyOf(Merge(a, b).value, Merge(a, b).value.rows[m]) == KeyOf(a, a.rows[i]) == KeyOf(b, b.rows[k])
  {
    MergeKeyPositions(a, b);
    i, k := MergeSource(a, b, m);
    assert Merge(a, b).value.rows[m] in Merge(a, b).value.rows;
    PickLeft(a.rows[i], Filter(b.rows[k], RightKeep(b.columns)), KeyPosOf(a.columns));
  }

  /** Positions within the left part of a concatenation pick the same cells. */
  lemma PickLeft<T>(left: seq<T>, right: seq<T>, ps: seq<nat>)
    requires Fits(ps, |left|)
    ensures Pick(left + right, ps) == Pick(left, ps)
  {
  }

  /** `df.iloc[:, np.r_[2, 6, -1, 7:len(df.columns) - 1]]`, the positions
      kept from a table of the second list. */
  function Stat2Positions(n: nat): (ps: seq<nat>)
    requires n >= 7
    ensures |ps| == 3 + (if n > 7 then n - 8 else 0)
    ensures forall q :: 0 <= q < |ps| ==> ps[q] < n
  {
    [2, 6, n - 1] + seq(if n > 7 then n - 8 else 0, q requires 0 <= q => 7 + q)
  }

  /** The labels kept by the projection: positions 2, 6 and the last, then
      the value columns between 7 and the last. */
  lemma {:induction false} PickStat2<T>(s: seq<T>)
    requires |s| >= 7
    ensures Pick(s, Stat2Positions(|s|)) ==
      [s[2], s[6], s[|s| - 1]] + (if |s| > 7 then s[7..|s| - 1] else [])
  {
    var n := |s|;
    var ps := Stat2Positions(n);
    var tail := if n > 7 then s[7..n - 1] else [];
    var want := [s[2], s[6], s[n - 1]] + tail;
    var got := Pick(s, ps);
    assert |tail| == if n > 7 then n - 8 else 0;
    forall q | 0 <= q < |got|
      ensures got[q] == want[q]
    {
      if q >= 3 {
        assert ps[q] == 7 + (q - 3);
        assert want[q] == tail[q - 3];
      }
    }
  }

  /** The projection raises an IndexError when a position is out of range;
      `2` is the first to fail, then `6`. The result carries no name. */
  function Project(t: Table): (r: Result<Table>)
    requires WellFormed(t)
    ensures r.Ok? <==> |t.columns| >= 7
    ensures r.Err? ==> r.error == PositionOutOfRange(if |t.columns| <= 2 then 2 else 6)
    ensures r.Ok? ==> WellFormed(r.value) && |r.value.rows| == |t.rows|
    ensures r.Ok? ==> var n := |t.columns|;
      r.value.columns == [t.columns[2], t.columns[6], t.columns[n - 1]] + (if n > 7 then t.columns[7..n - 1] else [])
  {
    var n := |t.columns|;
    if n <= 2 then Err(PositionOutOfRange(2))
    else if n < 7 then Err(PositionOutOfRange(6))
    else
      var ps := Stat2Positions(n);
      var cols := Pick(t.columns, ps);
      PickStat2(t.columns);
      Ok(Table("", cols, seq(|t.rows|, i requires 0 <= i < |t.rows| =>
        assert t.rows[i] in t.rows; Pick(t.rows[i], ps))))
  }

  ghost predicate AllWellFormed(ts: seq<Table>) {
    forall q :: 0 <= q < |ts| ==> WellFormed(ts[q])
  }

  /** The fold over the first list: `stat[0].merge(stat[1])`, then each later
      table merged onto the running result. */
  function MergeAll(stat: seq<Table>, k: nat): (r: Result<Table>)
    requires AllWellFormed(stat) && 2 <= k <= |stat|
    ensures r.Ok? ==> WellFormed(r.value)
    decreases k
  {
    if k == 2 then Merge(stat[0], stat[1])
    else
      var main :- MergeAll(stat, k - 1);
      Merge(main, stat[k - 1])
  }

  /** One more step of the fold merges the next table onto a running result,
      or carries the error on. */
  lemma MergeAllStep(stat: seq<Table>, k: nat)
    requires AllWellFormed(stat) && 2 <= k < |stat|
    ensures MergeAll(stat, k).Ok? ==> MergeAll(stat, k + 1) == Merge(MergeAll(stat, k).value, stat[k])
    ensures MergeAll(stat, k).Err? ==> MergeAll(stat, k + 1) == MergeAll(stat, k)
  {
  }

  /** The fold over the second list, each table projected first. */
  function MergeStat2(main: Table, stat2: seq<Table>): (r: Result<Table>)
    requires WellFormed(main) && AllWellFormed(stat2)
    ensures r.Ok? ==> WellFormed(r.value)
    decreases |stat2|
  {
    if |stat2| == 0 then Ok(main)
    else
      var n := |stat2| - 1;
      var m :- MergeStat2(main, stat2[..n]);
      var p :- Project(stat2[n]);
      Merge(m, p)
  }

  /** What `get_finalized_df` returns. With fewer than two tables in the
      first list no merge happens and the fold starts from the empty frame. */
  function Finalized(stat: seq<Table>, stat2: seq<Table>): Result<Table>
    requires AllWellFormed(stat) && AllWellFormed(stat2)
  {
    var main :- if |stat| < 2 then Ok(EmptyFrame) else MergeAll(stat, |stat|);
    MergeStat2(main, stat2)
  }

  lemma {:induction false} KeyInAt(rows: seq<Row>, ps: seq<nat>, w: nat, key: seq<Value>, p: nat)
    requires Fits(ps, w) && p < |rows| && |rows[p]| == w && Pick(rows[p], ps) == key
    ensures KeyIn(rows, ps, w, key)
    decreases |rows|
  {
    var n := |rows| - 1;
    if p < n {
      assert rows[..n][p] == rows[p];
      KeyInAt(rows[..n], ps, w, key, p);
    }
  }

  /** A row with key `key` makes `HasKey` hold. */
  lemma HasKeyAt(t: Table, p: nat, key: seq<Value>)
    requires HasKeys(t.columns)
    requires p < |t.rows| && |t.rows[p]| == |t.columns| && KeyOf(t, t.rows[p]) == key
    ensures HasKey(t, key)
  {
    KeyInAt(t.rows, KeyPosOf(t.columns), |t.columns|, key, p);
  }

  /** `HasKey` holds only through a row with key `key`. */
  lemma {:induction false} KeyInSource(rows: seq<Row>, ps: seq<nat>, w: nat, key: seq<Value>) returns (p: nat)
    requires Fits(ps, w) && KeyIn(rows, ps, w, key)
    ensures p < |rows| && |rows[p]| == w && Pick(rows[p], ps) == key
    decreases |rows|
  {
    var n := |rows| - 1;
    if |rows[n]| == w && Pick(rows[n], ps) == key {
      p := n;
    } else {
      p := KeyInSource(rows[..n], ps, w, key);
      assert rows[..n][p] == rows[p];
    }
  }

  lemma HasKeySource(t: Table, key: seq<Value>) returns (p: nat)
    requires HasKeys(t.columns) && HasKey(t, key)
    ensures p < |t.rows| && |t.rows[p]| == |t.columns| && KeyOf(t, t.rows[p]) == key
  {
    p := KeyInSource(t.rows, KeyPosOf(t.columns), |t.columns|, key);
  }

  /** A row of a later step of the fold comes from a row of the step before
      and a row of the table merged in, all three with the same key. */
  lemma MergeAllRowKey(stat: seq<Table>, k: nat, m: nat) returns (i: nat, j: nat)
    requires AllWellFormed(stat) && 2 < k <= |stat| && MergeAll(stat, k).Ok?
    requires m < |MergeAll(stat, k).value.rows|
    ensures MergeAll(stat, k - 1).Ok? && HasKeys(MergeAll(stat, k).value.columns)
    ensures HasKeys(MergeAll(stat, k - 1).value.columns) && HasKeys(stat[k - 1].columns)
    ensures |MergeAll(stat, k).value.rows[m]| == |MergeAll(stat, k).value.columns|
    ensures i < |MergeAll(stat, k - 1).value.rows| && |MergeAll(stat, k - 1).value.rows[i]| == |MergeAll(stat, k - 1).value.columns|
    ensures j < |stat[k - 1].rows| && |stat[k - 1].rows[j]| == |stat[k - 1].columns|
    ensures KeyOf(MergeAll(stat, k).value, MergeAll(stat, k).value.rows[m]) ==
      KeyOf(MergeAll(stat, k - 1).value, MergeAll(stat, k - 1).value.rows[i])
    ensures KeyOf(MergeAll(stat, k).value, MergeAll(stat, k).value.rows[m]) ==
      KeyOf(stat[k - 1], stat[k - 1].rows[j])
  {
    MergeAllStep(stat, k - 1);
    var main := MergeAll(stat, k - 1).value;
    i, j := MergedRowKey(main, stat[k - 1], m);
  }

  /** The result of the fold over the first list carries the key columns. */
  lemma {:induction false} MergeAllHasKeys(stat: seq<Table>, k: nat)
    requires AllWellFormed(stat) && 2 <= k <= |stat| && MergeAll(stat, k).Ok?
    ensures HasKeys(MergeAll(stat, k).value.columns)
  {
    if k == 2 {
      MergeKeyPositions(stat[0], stat[1]);
    } else {
      MergeAllStep(stat, k - 1);
      MergeKeyPositions(MergeAll(stat, k - 1).value, stat[k - 1]);
    }
  }

  /** Every row of the first merge has a key that occurs in both tables. */
  lemma FirstMergeKey(stat: seq<Table>, m: nat)
    requires AllWellFormed(stat) && 2 <= |stat| && MergeAll(stat, 2).Ok?
    requires m < |MergeAll(stat, 2).value.rows|
    ensures HasKeys(MergeAll(stat, 2).value.columns)
    ensures |MergeAll(stat, 2).value.rows[m]| == |MergeAll(stat, 2).value.columns|
    ensures HasKeys(stat[0].columns) && HasKey(stat[0], KeyOf(MergeAll(stat, 2).value, MergeAll(stat, 2).value.rows[m]))
    ensures HasKeys(stat[1].columns) && HasKey(stat[1], KeyOf(MergeAll(stat, 2).value, MergeAll(stat, 2).value.rows[m]))
  {
    var i, j := MergedRowKey(stat[0], stat[1], m);
    var res := MergeAll(stat, 2).value;
    HasKeyAt(stat[0], i, KeyOf(res, res.rows[m]));
    HasKeyAt(stat[1], j, KeyOf(res, res.rows[m]));
  }

  /** Every row of the fold over the first list has a key that occurs in
      each table folded in so far. */
  lemma {:induction false} MergeAllKey(stat: seq<Table>, k: nat, m: nat, q: nat)
    requires AllWellFormed(stat) && 2 <= k <= |stat| && MergeAll(stat, k).Ok?
    requires m < |MergeAll(stat, k).value.rows| && q < k
    ensures HasKeys(MergeAll(stat, k).value.columns)
    ensures |MergeAll(stat, k).value.rows[m]| == |MergeAll(stat, k).value.columns|
    ensures HasKeys(stat[q].columns)
    ensures HasKey(stat[q], KeyOf(MergeAll(stat, k).value, MergeAll(stat, k).value.rows[m]))
    decreases k, 1
  {
    if k == 2 {
      assert q == 0 || q == 1;
      FirstMergeKey(stat, m);
    } else {
      LaterMergeKey(stat, k, m, q);
    }
  }

  lemma {:induction false} LaterMergeKey(stat: seq<Table>, k: nat, m: nat, q: nat)
    requires AllWellFormed(stat) && 2 < k <= |stat| && MergeAll(stat, k).Ok?
    requires m < |MergeAll(stat, k).value.rows| && q < k
    ensures HasKeys(MergeAll(stat, k).value.columns)
    ensures |MergeAll(stat, k).value.rows[m]| == |MergeAll(stat, k).value.columns|
    ensures HasKeys(stat[q].columns)
    ensures HasKey(stat[q], KeyOf(MergeAll(stat, k).value, MergeAll(stat, k).value.rows[m]))
    decreases k, 0
  {
    var res := MergeAll(stat, k).value;
    var i, j := MergeAllRowKey(stat, k, m);
    if q == k - 1 {
      HasKeyAt(stat[k - 1], j, KeyOf(res, res.rows[m]));
    } else {
      MergeAllKey(stat, k - 1, i, q);
    }
  }

  /** Every row of the fold over the second list has the key of a row of the
      table it started from. */
  lemma {:induction false} MergeStat2Origin(main: Table, stat2: seq<Table>, m: nat) returns (i: nat)
    requires WellFormed(main) && AllWellFormed(stat2) && HasKeys(main.columns)
    requires MergeStat2(main, stat2).Ok? && m < |MergeStat2(main, stat2).value.rows|
    ensures HasKeys(MergeStat2(main, stat2).value.columns)
    ensures |MergeStat2(main, stat2).value.rows[m]| == |MergeStat2(main, stat2).value.columns|
    ensures i < |main.rows| && |main.rows[i]| == |main.columns|
    ensures KeyOf(MergeStat2(main, stat2).value, MergeStat2(main, stat2).value.rows[m]) == KeyOf(main, main.rows[i])
    decreases |stat2|
  {
    var res := MergeStat2(main, stat2).value;
    if |stat2| == 0 {
      i := m;
      assert res.rows[m] in res.rows;
    } else {
      var n := |stat2| - 1;
      var i', j := MergeStat2RowKey(main, stat2, m);
      i := MergeStat2Origin(main, stat2[..n], i');
    }
  }

  /** A row of a later step of the second fold comes from a row of the step
      before and a row of the projected table, all three with the same key. */
  lemma MergeStat2RowKey(main: Table, stat2: seq<Table>, m: nat) returns (i: nat, j: nat)
    requires WellFormed(main) && AllWellFormed(stat2) && |stat2| > 0
    requires MergeStat2(main, stat2).Ok? && m < |MergeStat2(main, stat2).value.rows|
    ensures AllWellFormed(stat2[..|stat2| - 1])
    ensures MergeStat2(main, stat2[..|stat2| - 1]).Ok? && Project(stat2[|stat2| - 1]).Ok?
    ensures HasKeys(MergeStat2(main, stat2).value.columns)
    ensures HasKeys(MergeStat2(main, stat2[..|stat2| - 1]).value.columns)
    ensures HasKeys(Project(stat2[|stat2| - 1]).value.columns)
    ensures |MergeStat2(main, stat2).value.rows[m]| == |MergeStat2(main, stat2).value.columns|
    ensures i < |MergeStat2(main, stat2[..|stat2| - 1]).value.rows|
    ensures |MergeStat2(main, stat2[..|stat2| - 1]).value.rows[i]| == |MergeStat2(main, stat2[..|stat2| - 1]).value.columns|
    ensures j < |Project(stat2[|stat2| - 1]).value.rows|
    ensures |Project(stat2[|stat2| - 1]).value.rows[j]| == |Project(stat2[|stat2| - 1]).value.columns|
    ensures KeyOf(MergeStat2(main, stat2).value, MergeStat2(main, stat2).value.rows[m]) ==
      KeyOf(MergeStat2(main, stat2[..|stat2| - 1]).value, MergeStat2(main, stat2[..|stat2| - 1]).value.rows[i])
    ensures KeyOf(MergeStat2(main, stat2).value, MergeStat2(main, stat2).value.rows[m]) ==
      KeyOf(Project(stat2[|stat2| - 1]).value, Project(stat2[|stat2| - 1]).value.rows[j])
  {
    var n := |stat2| - 1;
    assert AllWellFormed(stat2[..n]);
    var prev := MergeStat2(main, stat2[..n]).value;
    var p := Project(stat2[n]).value;
    i, j := MergedRowKey(prev, p, m);
  }

  /** The key of every row of the fold over the second list occurs in each
      projected table. */
  lemma {:induction false} MergeStat2Key(main: Table, stat2: seq<Table>, m: nat, q: nat)
    requires WellFormed(main) && AllWellFormed(stat2)
    requires MergeStat2(main, stat2).Ok? && m < |MergeStat2(main, stat2).value.rows| && q < |stat2|
    ensures HasKeys(MergeStat2(main, stat2).value.columns)
    ensures |MergeStat2(main, stat2).value.rows[m]| == |MergeStat2(main, stat2).value.columns|
    ensures Project(stat2[q]).Ok? && HasKeys(Project(stat2[q]).value.columns)
    ensures HasKey(Project(stat2[q]).value, KeyOf(MergeStat2(main, stat2).value, MergeStat2(main, stat2).value.rows[m]))
    decreases |stat2|
  {
    var res := MergeStat2(main, stat2).value;
    var n := |stat2| - 1;
    var i, j := MergeStat2RowKey(main, stat2, m);
    if q == n {
      HasKeyAt(Project(stat2[n]).value, j, KeyOf(res, res.rows[m]));
    } else {
      MergeStat2Key(main, stat2[..n], i, q);
      assert stat2[..n][q] == stat2[q];
    }
  }

  /** With two or more tables in the first list, every row of the result has
      a (`Country`, `Region`, `Period`) key that occurs in every table of the
      first list and in every projected table of the second. */
  lemma FinalizedKeys(stat: seq<Table>, stat2: seq<Table>, m: nat)
    requires AllWellFormed(stat) && AllWellFormed(stat2) && |stat| >= 2
    requires Finalized(stat, stat2).Ok? && m < |Finalized(stat, stat2).value.rows|
    ensures HasKeys(Finalized(stat, stat2).value.columns)
    ensures |Finalized(stat, stat2).value.rows[m]| == |Finalized(stat, stat2).value.columns|
    ensures forall q :: 0 <= q < |stat| ==>
      HasKeys(stat[q].columns) &&
      HasKey(stat[q], KeyOf(Finalized(stat, stat2).value, Finalized(stat, stat2).value.rows[m]))
    ensures forall q :: 0 <= q < |stat2| ==>
      Project(stat2[q]).Ok? && HasKeys(Project(stat2[q]).value.columns) &&
      HasKey(Project(stat2[q]).value, KeyOf(Finalized(stat, stat2).value, Finalized(stat, stat2).value.rows[m]))
  {
    var main := MergeAll(stat, |stat|).value;
    var res := Finalized(stat, stat2).value;
    assert res == MergeStat2(main, stat2).value;
    MergeAllHasKeys(stat, |stat|);
    var i := MergeStat2Origin(main, stat2, m);
    var key := KeyOf(res, res.rows[m]);
    assert key == KeyOf(main, main.rows[i]);
    forall q | 0 <= q < |stat|
      ensures HasKeys(stat[q].columns) && HasKey(stat[q], key)
    {
      MergeAllKey(stat, |stat|, i, q);
    }
    forall q | 0 <= q < |stat2|
      ensures Project(stat2[q]).Ok? && HasKeys(Project(stat2[q]).value.columns) && HasKey(Project(stat2[q]).value, key)
    {
      MergeStat2Key(main, stat2, m, q);
    }
  }

  /** The error of merging the projection of `t` onto the empty frame. */
  function Stat2StartError(t: Table): Error {
    if |t.columns| < 7 then PositionOutOfRange(if |t.columns| <= 2 then 2 else 6)
    else MissingColumn(CountryKey)
  }

  /** With fewer than two tables in the first list the fold over the second
      starts from the empty frame, which has no `Country` column: the result
      is the empty frame when the second list is empty, and otherwise the
      error of projecting its first table or the KeyError on `Country`. */
  lemma {:induction false} FinalizedFewTables(stat: seq<Table>, stat2: seq<Table>)
    requires AllWellFormed(stat) && AllWellFormed(stat2) && |stat| < 2
    ensures |stat2| == 0 ==> Finalized(stat, stat2) == Ok(EmptyFrame)
    ensures |stat2| > 0 ==>
      Finalized(stat, stat2) == Err(Stat2StartError(stat2[0]))
  {
    EmptyFold(stat2);
  }

  lemma {:induction false} EmptyFold(stat2: seq<Table>)
    requires AllWellFormed(stat2)
    ensures |stat2| == 0 ==> MergeStat2(EmptyFrame, stat2) == Ok(EmptyFrame)
    ensures |stat2| > 0 ==>
      MergeStat2(EmptyFrame, stat2) == Err(Stat2StartError(stat2[0]))
    decreases |stat2|
  {
    if |stat2| == 1 {
      assert stat2[..0] == [];
      var p := Project(stat2[0]);
      if p.Ok? {
        MergeOutcome(EmptyFrame, p.value);
      }
    } else if |stat2| > 1 {
      var n := |stat2| - 1;
      assert AllWellFormed(stat2[..n]);
      EmptyFold(stat2[..n]);
      assert stat2[..n][0] == stat2[0];
    }
  }

  /** The first loop of `get_finalized_df` as written: at position `i` it
      merges table `i + 1` in, table 1 onto table 0 at the start; a raised
      error is carried on with no later merge. Fewer than two tables leave
      the empty frame. */
  method MergeFirstList(stat: seq<Table>) returns (main: Result<Table>)
    requires AllWellFormed(stat)
    ensures main == if |stat| < 2 then Ok(EmptyFrame) else MergeAll(stat, |stat|)
  {
    main := Ok(EmptyFrame);
    for i := 0 to |stat|
      invariant |stat| < 2 || i == 0 ==> main == Ok(EmptyFrame)
      invariant 2 <= |stat| && 1 <= i < |stat| ==> main == MergeAll(stat, i + 1)
      invariant 2 <= |stat| && i == |stat| ==> main == MergeAll(stat, i)
    {
      if i < |stat| - 1 {
        if i == 0 {
          main := Merge(stat[i], stat[i + 1]);
          assert main == MergeAll(stat, 2);
          continue;
        }
        MergeAllStep(stat, i + 1);
        if main.Ok? {
          main := Merge(main.value, stat[i + 1]);
        }
      }
    }
  }

  /** One more table of the second list: carry an earlier error, raise the
      projection's error, or merge the projection in. */
  lemma MergeStat2Step(start: Table, stat2: seq<Table>, j: nat)
    requires WellFormed(start) && AllWellFormed(stat2) && j < |stat2|
    ensures AllWellFormed(stat2[..j]) && AllWellFormed(stat2[..j + 1])
    ensures MergeStat2(start, stat2[..j + 1]) ==
      if MergeStat2(start, stat2[..j]).Err? then MergeStat2(start, stat2[..j])
      else if Project(stat2[j]).Err? then Err(Project(stat2[j]).error)
      else Merge(MergeStat2(start, stat2[..j]).value, Project(stat2[j]).value)
  {
    assert stat2[..j + 1][..j] == stat2[..j];
    assert stat2[..j + 1][j] == stat2[j];
  }

  /** The second loop of `get_finalized_df`: each table projected and
      merged onto the running result, the first error carried to the end. */
  method MergeSecondList(start: Table, stat2: seq<Table>) returns (main: Result<Table>)
    requires WellFormed(start) && AllWellFormed(stat2)
    ensures main == MergeStat2(start, stat2)
  {
    main := Ok(start);
    for j := 0 to |stat2|
      invariant main == MergeStat2(start, stat2[..j])
    {
      MergeStat2Step(start, stat2, j);
      if main.Ok? {
        var p := Project(stat2[j]);
        if p.Err? {
          main := Err(p.error);
        } else {
          main := Merge(main.value, p.value);
        }
      }
    }
    assert stat2[..|stat2|] == stat2;
  }

  /** `get_finalized_df` as written: the loop over the first list, then the
      loop over the second. */
  method GetFinalizedDf(stat: seq<Table>, stat2: seq<Table>) returns (r: Result<Table>)
    requires AllWellFormed(stat) && AllWellFormed(stat2)
    ensures r == Finalized(stat, stat2)
  {
    var main := MergeFirstList(stat);
    if main.Err? {
      return Err(main.error);
    }
    r := MergeSecondList(main.value, stat2);
  }
}
