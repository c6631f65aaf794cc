/** Row-tables as the pipeline sees them: a pandas DataFrame is a logical
    name, an ordered sequence of column labels and rows of cells aligned
    with those labels. Cells are strings, numbers or missing (NaN). */
module Tables {

  datatype Option<+T> = None | Some(value: T)

  /** The failures the pipeline can raise, named after their cause. */
  datatype Error =
    | MissingColumn(column: string)    // KeyError on a column label
    | PositionOutOfRange(position: int) // IndexError from a positional column lookup
    | NoRegionAvailable(country: Value) // `iloc[0]` on an empty selection of regions
    | EventNotListed                    // `list.index` of a value that is not in the list
    | NonStringCell(column: string)     // string accessor or ordering on a non-string cell
    | NonNumericCell(column: string)    // `mean` over a column holding strings
    | NothingToConcatenate              // `pd.concat` of an empty list
    | LabelTaken(column: string)        // ValueError: a new column's label is already a column label
    | SuffixCollision                   // MergeError: merge suffixes would repeat a label

  datatype Result<+T> = Ok(value: T) | Err(error: Error) {
    predicate IsFailure() { Err? }
    function PropagateFailure<U>(): Result<U>
      requires Err?
    {
      Err(error)
    }
    function Extract(): T
      requires Ok?
    {
      value
    }
  }

  datatype Value = Str(s: string) | Num(x: real) | Missing

  type Row = seq<Value>

  datatype Table = Table(name: string, columns: seq<string>, rows: seq<Row>)

  /** Every row has exactly one cell per column, as in any DataFrame. */
  predicate WellFormed(t: Table) {
    forall r | r in t.rows :: |r| == |t.columns|
  }

  /** pandas elementwise `==`: NaN compares unequal to everything. */
  predicate Same(a: Value, b: Value) {
    a == b && !a.Missing?
  }

  /** The position of the first occurrence of `c`: the first column with a
      label, or Python's `list.index`. */
  function IndexOf<T(==)>(cols: seq<T>, c: T): (r: Option<nat>)
    ensures r.Some? ==> r.value < |cols| && cols[r.value] == c
    ensures r.Some? ==> forall j :: 0 <= j < r.value ==> cols[j] != c
    ensures r.None? <==> c !in cols
  {
    if |cols| == 0 then None
    else if cols[0] == c then Some(0)
    else match IndexOf(cols[1..], c)
      case None => None
      case Some(j) => Some(j + 1)
  }

  /** Appending leaves the first occurrence of an item already present
      where it was. */
  lemma IndexOfPrefix<T>(s: seq<T>, t: seq<T>, c: T)
    requires c in s
    ensures IndexOf(s + t, c) == IndexOf(s, c)
  {
    var p := IndexOf(s + t, c).value;
    var q := IndexOf(s, c).value;
    assert (s + t)[q] == c;
    assert p < |s| ==> (s + t)[p] == s[p];
  }

  /** Label lookup `df[c]`: the column's position, or a KeyError. */
  function Column(t: Table, c: string): (r: Result<nat>)
    ensures r.Ok? <==> c in t.columns
    ensures r.Ok? ==> r.value < |t.columns| && t.columns[r.value] == c
    ensures r.Err? ==> r.error == MissingColumn(c)
  {
    match IndexOf(t.columns, c)
    case None => Err(MissingColumn(c))
    case Some(j) => Ok(j)
  }

  /** The elements of `s` whose flag in `keep` is set, in order. */
  function Filter<T>(s: seq<T>, keep: seq<bool>): (r: seq<T>)
    requires |s| == |keep|
    ensures |r| <= |s|
    decreases |s|
  {
    if |s| == 0 then []
    else Filter(s[..|s| - 1], keep[..|keep| - 1]) + (if keep[|keep| - 1] then [s[|s| - 1]] else [])
  }

  lemma {:induction false} FilterMember<T>(s: seq<T>, keep: seq<bool>, x: T)
    requires |s| == |keep|
    ensures x in Filter(s, keep) <==> exists i :: 0 <= i < |s| && keep[i] && s[i] == x
    decreases |s|
  {
    if |s| > 0 {
      var n := |s| - 1;
      FilterMember(s[..n], keep[..n], x);
      if x in Filter(s, keep) && x !in Filter(s[..n], keep[..n]) {
        assert keep[n] && s[n] == x;
      }
      if exists i :: 0 <= i < |s| && keep[i] && s[i] == x {
        var i :| 0 <= i < |s| && keep[i] && s[i] == x;
        if i < n {
          assert s[..n][i] == x && keep[..n][i];
        }
      }
    }
  }

  lemma {:induction false} FilterAll<T>(s: seq<T>, keep: seq<bool>)
    requires |s| == |keep|
    requires forall i :: 0 <= i < |keep| ==> keep[i]
    ensures Filter(s, keep) == s
    decreases |s|
  {
    if |s| > 0 {
      FilterAll(s[..|s| - 1], keep[..|keep| - 1]);
    }
  }

  lemma {:induction false} FilterAppend<T>(a: seq<T>, ka: seq<bool>, b: seq<T>, kb: seq<bool>)
    requires |a| == |ka| && |b| == |kb|
    ensures Filter(a + b, ka + kb) == Filter(a, ka) + Filter(b, kb)
    decreases |b|
  {
    if |b| > 0 {
      var n := |b| - 1;
      assert (a + b)[..|a + b| - 1] == a + b[..n];
      assert (ka + kb)[..|ka + kb| - 1] == ka + kb[..n];
      FilterAppend(a, ka, b[..n], kb[..n]);
    } else {
      assert a + b == a && ka + kb == ka;
    }
  }

  /** Filtering sequences of equal length with the same flags gives
      results of equal length. */
  lemma {:induction false} FilterSameLength<T, U>(s: seq<T>, u: seq<U>, keep: seq<bool>)
    requires |s| == |u| == |keep|
    ensures |Filter(s, keep)| == |Filter(u, keep)|
    decreases |s|
  {
    if |s| > 0 {
      FilterSameLength(s[..|s| - 1], u[..|u| - 1], keep[..|keep| - 1]);
    }
  }

  /** Filtering twice, the second time with flags that were themselves
      filtered, is filtering once with the conjunction of the flags. */
  lemma {:induction false} FilterFilter<T>(s: seq<T>, k1: seq<bool>, k2: seq<bool>)
    requires |s| == |k1| == |k2|
    ensures |Filter(k2, k1)| == |Filter(s, k1)|
    ensures Filter(Filter(s, k1), Filter(k2, k1)) == Filter(s, seq(|s|, i requires 0 <= i < |s| => k1[i] && k2[i]))
    decreases |s|
  {
    FilterSameLength(k2, s, k1);
    var both := seq(|s|, i requires 0 <= i < |s| => k1[i] && k2[i]);
    if |s| > 0 {
      var n := |s| - 1;
      FilterFilter(s[..n], k1[..n], k2[..n]);
      FilterSameLength(k2[..n], s[..n], k1[..n]);
      assert both[..n] == seq(n, i requires 0 <= i < n => k1[..n][i] && k2[..n][i]);
      var fs, fk := Filter(s[..n], k1[..n]), Filter(k2[..n], k1[..n]);
      assert Filter(s, both) == Filter(fs, fk) + (if both[n] then [s[n]] else []);
      if k1[n] {
        assert Filter(s, k1) == fs + [s[n]];
        assert Filter(k2, k1) == fk + [k2[n]];
        FilterAppend(fs, fk, [s[n]], [k2[n]]);
        assert Filter([s[n]], [k2[n]]) == (if k2[n] then [s[n]] else []) by {
          assert [s[n]][..0] == [];
        }
      } else {
        assert Filter(s, k1) == fs;
        assert Filter(k2, k1) == fk;
      }
    }
  }

  /** Filtering a prefix gives a prefix of the filtered sequence. */
  lemma {:induction false} FilterPrefix<T>(s: seq<T>, keep: seq<bool>, p: nat)
    requires |s| == |keep| && p <= |s|
    ensures Filter(s[..p], keep[..p]) <= Filter(s, keep)
    decreases |s|
  {
    if p < |s| {
      var n := |s| - 1;
      assert s[..n][..p] == s[..p] && keep[..n][..p] == keep[..p];
      FilterPrefix(s[..n], keep[..n], p);
    } else {
      assert s[..p] == s && keep[..p] == keep;
    }
  }

  /** A kept element lands right after the elements kept before it. */
  lemma FilterAt<T>(s: seq<T>, keep: seq<bool>, p: nat)
    requires |s| == |keep| && p < |s| && keep[p]
    ensures |Filter(s[..p], keep[..p])| < |Filter(s, keep)|
    ensures Filter(s, keep)[|Filter(s[..p], keep[..p])|] == s[p]
  {
    FilterPrefix(s, keep, p + 1);
    assert s[..p + 1][..p] == s[..p] && keep[..p + 1][..p] == keep[..p];
    assert Filter(s[..p + 1], keep[..p + 1]) == Filter(s[..p], keep[..p]) + [s[p]];
  }

  /** Every element of the result was kept from one position, and as many
      elements were kept before that position as precede it in the result,
      so filtering keeps the order. */
  lemma {:induction false} FilterSource<T>(s: seq<T>, keep: seq<bool>, i: nat) returns (p: nat)
    requires |s| == |keep| && i < |Filter(s, keep)|
    ensures p < |s| && keep[p] && Filter(s, keep)[i] == s[p]
    ensures |Filter(s[..p], keep[..p])| == i
    decreases |s|
  {
    var n := |s| - 1;
    var prev := Filter(s[..n], keep[..n]);
    if i < |prev| {
      p := FilterSource(s[..n], keep[..n], i);
      assert s[..n][..p] == s[..p] && keep[..n][..p] == keep[..p];
    } else {
      p := n;
    }
  }

  /** The elements kept from positions `p < p'` appear in that order. */
  lemma FilterOrder<T>(s: seq<T>, keep: seq<bool>, p: nat, p': nat)
    requires |s| == |keep| && p < p' <= |s|
    requires keep[p]
    ensures |Filter(s[..p], keep[..p])| < |Filter(s[..p'], keep[..p'])|
  {
    assert s[..p'][..p + 1] == s[..p + 1] && keep[..p'][..p + 1] == keep[..p + 1];
    FilterPrefix(s[..p'], keep[..p'], p + 1);
    assert s[..p + 1][..p] == s[..p] && keep[..p + 1][..p] == keep[..p];
    assert Filter(s[..p + 1], keep[..p + 1]) == Filter(s[..p], keep[..p]) + [s[p]];
  }

  function Map<T, U>(f: T -> U, s: seq<T>): (r: seq<U>)
    ensures |r| == |s|
    ensures forall i :: 0 <= i < |s| ==> r[i] == f(s[i])
  {
    seq(|s|, i requires 0 <= i < |s| => f(s[i]))
  }

  /** Mapping commutes with filtering. */
  lemma {:induction false} FilterMap<T, U>(f: T -> U, s: seq<T>, keep: seq<bool>)
    requires |s| == |keep|
    ensures Filter(Map(f, s), keep) == Map(f, Filter(s, keep))
    decreases |s|
  {
    if |s| > 0 {
      var n := |s| - 1;
      assert Map(f, s)[..n] == Map(f, s[..n]);
      FilterMap(f, s[..n], keep[..n]);
    }
  }

  /** The flags "this column is not labelled `c`". */
  function NotNamed(cols: seq<string>, c: string): (keep: seq<bool>)
    ensures |keep| == |cols|
    ensures forall j :: 0 <= j < |cols| ==> (keep[j] <==> cols[j] != c)
  {
    seq(|cols|, j requires 0 <= j < |cols| => cols[j] != c)
  }

  lemma {:induction false} NotNamedFilter(cols: seq<string>, keep: seq<bool>, c: string)
    requires |cols| == |keep|
    ensures NotNamed(Filter(cols, keep), c) == Filter(NotNamed(cols, c), keep)
    decreases |cols|
  {
    if |cols| > 0 {
      var n := |cols| - 1;
      assert NotNamed(cols, c)[..n] == NotNamed(cols[..n], c);
      NotNamedFilter(cols[..n], keep[..n], c);
      FilterSameLength(cols, NotNamed(cols, c), keep);
    }
  }

  lemma {:induction false} FilterNotNamed(cols: seq<string>, c: string)
    ensures c !in Filter(cols, NotNamed(cols, c))
  {
    if c in Filter(cols, NotNamed(cols, c)) {
      FilterMember(cols, NotNamed(cols, c), c);
    }
  }

  /** `df.drop(columns=[c])`: removes every column labelled `c` (pandas
      removes all of them), a KeyError when there is none. */
  function DropColumn(t: Table, c: string): (r: Result<Table>)
    requires WellFormed(t)
    ensures r.Ok? <==> c in t.columns
    ensures r.Err? ==> r.error == MissingColumn(c)
    ensures r.Ok? ==> WellFormed(r.value) && c !in r.value.columns
    ensures r.Ok? ==> forall d :: d in r.value.columns <==> d in t.columns && d != c
    ensures r.Ok? ==> r.value.name == t.name && |r.value.rows| == |t.rows|
  {
    if c !in t.columns then Err(MissingColumn(c))
    else
      var keep := NotNamed(t.columns, c);
      FilterNotNamed(t.columns, c);
      RowsFilterSameLength(t, keep);
      assert forall d :: d in Filter(t.columns, keep) <==> d in t.columns && d != c by {
        forall d ensures d in Filter(t.columns, keep) <==> d in t.columns && d != c {
          FilterMember(t.columns, keep, d);
        }
      }
      Ok(Table(t.name, Filter(t.columns, keep),
               seq(|t.rows|, i requires 0 <= i < |t.rows| => Filter(t.rows[i], keep))))
  }

  /** A column not labelled `c` survives the drop, with all its cells, at
      the position after the surviving columns before it. */
  lemma DropColumnAt(t: Table, c: string, p: nat)
    requires WellFormed(t) && c in t.columns && p < |t.columns| && t.columns[p] != c
    ensures var r, keep := DropColumn(t, c).value, NotNamed(t.columns, c);
      var q := |Filter(t.columns[..p], keep[..p])|;
      && q < |r.columns| && r.columns[q] == t.columns[p]
      && forall i :: 0 <= i < |t.rows| ==> q < |r.rows[i]| && r.rows[i][q] == t.rows[i][p]
  {
    var r, keep := DropColumn(t, c).value, NotNamed(t.columns, c);
    var q := |Filter(t.columns[..p], keep[..p])|;
    FilterAt(t.columns, keep, p);
    forall i | 0 <= i < |t.rows|
      ensures q < |r.rows[i]| && r.rows[i][q] == t.rows[i][p]
    {
      assert t.rows[i] in t.rows;
      FilterAt(t.rows[i], keep, p);
      FilterSameLength(t.rows[i][..p], t.columns[..p], keep[..p]);
    }
  }

  /** Every column after the drop is an input column not labelled `c`,
      with all its cells. */
  lemma DropColumnSource(t: Table, c: string, q: nat) returns (p: nat)
    requires WellFormed(t) && DropColumn(t, c).Ok? && q < |DropColumn(t, c).value.columns|
    ensures var r := DropColumn(t, c).value;
      && p < |t.columns| && t.columns[p] != c && r.columns[q] == t.columns[p]
      && forall i :: 0 <= i < |t.rows| ==> q < |r.rows[i]| && r.rows[i][q] == t.rows[i][p]
  {
    var keep := NotNamed(t.columns, c);
    p := FilterSource(t.columns, keep, q);
    DropColumnAt(t, c, p);
  }

  lemma RowsFilterSameLength(t: Table, keep: seq<bool>)
    requires WellFormed(t) && |keep| == |t.columns|
    ensures forall i :: 0 <= i < |t.rows| ==> |Filter(t.rows[i], keep)| == |Filter(t.columns, keep)|
  {
    forall i | 0 <= i < |t.rows|
      ensures |Filter(t.rows[i], keep)| == |Filter(t.columns, keep)|
    {
      assert t.rows[i] in t.rows;
      FilterSameLength(t.rows[i], t.columns, keep);
    }
  }

  predicate NoDuplicates<T(==)>(s: seq<T>) {
    forall i, j :: 0 <= i < j < |s| ==> s[i] != s[j]
  }

  /** `drop_duplicates()`: the first occurrence of each distinct element,
      in order of first occurrence. */
  function Dedup<T(==,!new)>(s: seq<T>): (r: seq<T>)
    ensures forall x :: x in r <==> x in s
    ensures NoDuplicates(r)
    ensures |r| <= |s|
    decreases |s|
  {
    if |s| == 0 then []
    else
      var d := Dedup(s[..|s| - 1]);
      assert forall x :: x in s <==> x in s[..|s| - 1] || x == s[|s| - 1] by {
        assert s == s[..|s| - 1] + [s[|s| - 1]];
      }
      if s[|s| - 1] in d then d else d + [s[|s| - 1]]
  }

  /** The kept elements appear in the order of their first occurrence. */
  lemma {:induction false} DedupOrder<T(!new)>(s: seq<T>)
    ensures forall i, j :: 0 <= i < j < |Dedup(s)| ==>
      Dedup(s)[i] in s && Dedup(s)[j] in s && IndexOf(s, Dedup(s)[i]).value < IndexOf(s, Dedup(s)[j]).value
    decreases |s|
  {
    if |s| > 0 {
      var n := |s| - 1;
      var p := s[..n];
      var d := Dedup(p);
      DedupOrder(p);
      assert s == p + [s[n]];
      forall x | x in p
        ensures IndexOf(s, x) == IndexOf(p, x)
      {
        IndexOfPrefix(p, [s[n]], x);
      }
      if s[n] !in d {
        assert forall v :: 0 <= v < n ==> s[v] == p[v];
        assert IndexOf(s, s[n]) == Some(n);
      }
      var r := Dedup(s);
      assert r == if s[n] in d then d else d + [s[n]];
      forall i, j | 0 <= i < j < |r|
        ensures r[i] in s && r[j] in s && IndexOf(s, r[i]).value < IndexOf(s, r[j]).value
      {
        assert r[i] == d[i] && d[i] in d && d[i] in p;
        assert IndexOf(s, d[i]) == IndexOf(p, d[i]);
        if j < |d| {
          assert r[j] == d[j] && d[j] in d && d[j] in p;
          assert IndexOf(s, d[j]) == IndexOf(p, d[j]);
        } else {
          assert r[j] == s[n] && IndexOf(s, s[n]) == Some(n);
        }
      }
    } else {
      assert |Dedup(s)| == 0;
    }
  }

  /** A sequence without duplicates is its own deduplication. */
  lemma {:induction false} DedupOfDistinct<T(!new)>(s: seq<T>)
    requires NoDuplicates(s)
    ensures Dedup(s) == s
    decreases |s|
  {
    if |s| > 0 {
      var n := |s| - 1;
      DedupOfDistinct(s[..n]);
      assert s[n] !in s[..n];
      assert s[..n] + [s[n]] == s;
    }
  }
}
