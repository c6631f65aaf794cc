/** The reshaper: wide tables with one column per period become long tables
    with one row per (id, period, value). */
module Reshaper {
  import opened Tables

  /** The name pandas gives the column holding the former column labels. */
  const PeriodColumn := "Period"

  /** The first and last positions of the value columns, `columns[6:-1]`. */
  const FirstValue := 6

  /** The long row for input row `i` and value column `j`: both id cells,
      the value column's label as the period, and the cell itself. */
  function MeltCell(t: Table, j: nat, i: nat): Row
    requires WellFormed(t) && 3 <= |t.columns| && j < |t.columns| && i < |t.rows|
  {
    assert t.rows[i] in t.rows;
    var n := |t.columns|;
    [t.rows[i][2], t.rows[i][n - 1], Str(t.columns[j]), t.rows[i][j]]
  }

  /** The long rows of one value column, in input row order. */
  function MeltBlock(t: Table, j: nat): (b: seq<Row>)
    requires WellFormed(t) && 3 <= |t.columns| && j < |t.columns|
    ensures |b| == |t.rows| && forall i :: 0 <= i < |t.rows| ==> b[i] == MeltCell(t, j, i)
  {
    seq(|t.rows|, i requires 0 <= i < |t.rows| => MeltCell(t, j, i))
  }

  /** The long rows of value columns `lo .. hi-1`, column by column. */
  function MeltRange(t: Table, lo: nat, hi: nat): seq<Row>
    requires WellFormed(t) && 3 <= |t.columns| && hi <= |t.columns|
    decreases hi
  {
    if hi <= lo then [] else MeltRange(t, lo, hi - 1) + MeltBlock(t, hi - 1)
  }

  /** `df.melt(id_vars=[df.columns[2], df.columns[-1]], value_vars=df.columns[6:-1],
      var_name='Period', value_name=df.name)`, as pandas 2.2 runs it. A
      table with fewer than three columns has no `columns[2]` (IndexError).
      A sheet name that is already a column label is refused as the value
      column's label (ValueError). With exactly three columns both id
      variables are the same column, and its second removal from the frame
      raises a KeyError. With seven or fewer columns there are no value
      columns and no rows. The result carries no name, as a new DataFrame
      has none. */
  function Melt(t: Table): (r: Result<Table>)
    requires WellFormed(t)
    ensures r.Ok? <==> |t.columns| >= 4 && t.name !in t.columns
    ensures r.Err? ==> r.error == (if |t.columns| < 3 then PositionOutOfRange(2)
                                   else if t.name in t.columns then LabelTaken(t.name)
                                   else MissingColumn(t.columns[2]))
    ensures r.Ok? ==> r.value.columns == [t.columns[2], t.columns[|t.columns| - 1], PeriodColumn, t.name]
  {
    var n := |t.columns|;
    if n < 3 then Err(PositionOutOfRange(2))
    else if t.name in t.columns then Err(LabelTaken(t.name))
    else if n == 3 then Err(MissingColumn(t.columns[2]))
    else Ok(Table("", [t.columns[2], t.columns[n - 1], PeriodColumn, t.name], MeltRange(t, FirstValue, n - 1)))
  }

  lemma MulStep(a: nat, r: nat)
    ensures a * r + r == (a + 1) * r
  {
  }

  lemma OffsetBelow(a: nat, b: nat, r: nat, i: nat)
    requires a < b && i < r
    ensures a * r + i < b * r
  {
    MulStep(a, r);
    assert (a + 1) * r <= b * r;
  }

  lemma LengthStep(k: nat, before: nat, n: nat)
    requires before == (if k == 0 then 0 else k * n)
    ensures before + n == (k + 1) * n
  {
    MulStep(k, n);
  }

  lemma {:induction false} MeltRangeLength(t: Table, lo: nat, hi: nat)
    requires WellFormed(t) && 3 <= |t.columns| && hi <= |t.columns|
    ensures |MeltRange(t, lo, hi)| == (if hi <= lo then 0 else (hi - lo) * |t.rows|)
    decreases hi
  {
    if lo < hi {
      MeltRangeLength(t, lo, hi - 1);
      LengthStep(hi - 1 - lo, |MeltRange(t, lo, hi - 1)|, |t.rows|);
    }
  }

  /** A prefix stays a prefix when the longer list grows. */
  lemma PrefixExtend<T>(s: seq<T>, p: seq<T>, block: seq<T>)
    requires s <= p
    ensures s <= p + block
  {
    assert (p + block)[..|s|] == p[..|s|];
  }

  /** Melting fewer columns gives a prefix of the long rows. */
  lemma {:induction false} MeltRangeGrows(t: Table, lo: nat, a: nat, b: nat)
    requires WellFormed(t) && 3 <= |t.columns| && a <= b <= |t.columns|
    ensures MeltRange(t, lo, a) <= MeltRange(t, lo, b)
    decreases b
  {
    if a == b {
    } else if b <= lo {
      assert MeltRange(t, lo, a) == [] == MeltRange(t, lo, b);
    } else {
      MeltRangeGrows(t, lo, a, b - 1);
      PrefixExtend(MeltRange(t, lo, a), MeltRange(t, lo, b - 1), MeltBlock(t, b - 1));
    }
  }

  /** In a list that starts with `prefix + block`, item `i` of the block
      follows the prefix. */
  lemma PrefixAt<T>(whole: seq<T>, prefix: seq<T>, block: seq<T>, i: nat)
    requires prefix + block <= whole && i < |block|
    ensures |prefix| + i < |whole| && whole[|prefix| + i] == block[i]
  {
    assert (prefix + block)[|prefix| + i] == block[i];
  }

  /** The long row of input row `i` and value column `j` follows the blocks
      of the columns before `j`. */
  lemma {:induction false} MeltRangeAt(t: Table, lo: nat, hi: nat, j: nat, i: nat)
    requires WellFormed(t) && 3 <= |t.columns| && hi <= |t.columns|
    requires lo <= j < hi && i < |t.rows|
    ensures |MeltRange(t, lo, j)| + i < |MeltRange(t, lo, hi)|
    ensures MeltRange(t, lo, hi)[|MeltRange(t, lo, j)| + i] == MeltCell(t, j, i)
  {
    MeltRangeGrows(t, lo, j + 1, hi);
    PrefixAt(MeltRange(t, lo, hi), MeltRange(t, lo, j), MeltBlock(t, j), i);
  }

  /** Every long row comes from one input row and one value column. */
  lemma {:induction false} MeltRangeSource(t: Table, lo: nat, hi: nat, m: nat) returns (j: nat, i: nat)
    requires WellFormed(t) && 3 <= |t.columns| && hi <= |t.columns|
    requires m < |MeltRange(t, lo, hi)|
    ensures lo <= j < hi && i < |t.rows| && MeltRange(t, lo, hi)[m] == MeltCell(t, j, i)
    decreases hi
  {
    var prefix := MeltRange(t, lo, hi - 1);
    if m < |prefix| {
      j, i := MeltRangeSource(t, lo, hi - 1, m);
    } else {
      j, i := hi - 1, m - |prefix|;
    }
  }

  /** The long table has `nrows * (ncols - 7)` rows, none when there are no
      value columns. */
  lemma MeltRowCount(t: Table)
    requires WellFormed(t) && Melt(t).Ok?
    ensures |Melt(t).value.rows| == (if |t.columns| <= 7 then 0 else (|t.columns| - 7) * |t.rows|)
  {
    var n := |t.columns|;
    assert Melt(t).value.rows == MeltRange(t, FirstValue, n - 1);
    MeltRangeLength(t, FirstValue, n - 1);
    assert n - 1 - FirstValue == n - 7;
  }

  /** Each long row carries the input's id cells (`columns[2]` and the last
      column), a period that is one of the labels `columns[6 .. ncols-2]`, and
      that column's cell; every input cell of a value column appears. */
  lemma MeltRowSource(t: Table, m: nat) returns (j: nat, i: nat)
    requires WellFormed(t) && Melt(t).Ok?
    requires m < |Melt(t).value.rows|
    ensures FirstValue <= j < |t.columns| - 1 && i < |t.rows|
    ensures Melt(t).value.rows[m] == MeltCell(t, j, i)
  {
    j, i := MeltRangeSource(t, FirstValue, |t.columns| - 1, m);
  }

  lemma {:induction false} MeltRowPresent(t: Table, j: nat, i: nat) returns (m: nat)
    requires WellFormed(t) && Melt(t).Ok?
    requires FirstValue <= j < |t.columns| - 1 && i < |t.rows|
    ensures m == (j - FirstValue) * |t.rows| + i
    ensures m < |Melt(t).value.rows| && Melt(t).value.rows[m] == MeltCell(t, j, i)
  {
    assert Melt(t).value.rows == MeltRange(t, FirstValue, |t.columns| - 1);
    MeltRangeAt(t, FirstValue, |t.columns| - 1, j, i);
    MeltRangeLength(t, FirstValue, j);
    m := |MeltRange(t, FirstValue, j)| + i;
  }

  /** The long table is rectangular: four cells per row. */
  lemma MeltWellFormed(t: Table)
    requires WellFormed(t) && Melt(t).Ok?
    ensures WellFormed(Melt(t).value)
  {
    forall r | r in Melt(t).value.rows
      ensures |r| == 4
    {
      var m :| 0 <= m < |Melt(t).value.rows| && Melt(t).value.rows[m] == r;
      var j, i := MeltRowSource(t, m);
    }
  }

  /** `get_melted_dataframes`: melts each table in turn, in input order; the
      first table that cannot be melted raises. */
  method GetMeltedDataframes(tables: seq<Table>) returns (r: Result<seq<Table>>)
    requires forall t | t in tables :: WellFormed(t)
    ensures r.Ok? <==> forall t | t in tables :: |t.columns| >= 4 && t.name !in t.columns
    ensures r.Err? ==> exists k :: 0 <= k < |tables| && Melt(tables[k]).Err? && r.error == Melt(tables[k]).error
                                   && forall q :: 0 <= q < k ==> Melt(tables[q]).Ok?
    ensures r.Ok? ==> |r.value| == |tables|
    ensures r.Ok? ==> forall k :: 0 <= k < |tables| ==> Melt(tables[k]) == Ok(r.value[k])
  {
    var melted: seq<Table> := [];
    for k := 0 to |tables|
      invariant |melted| == k
      invariant forall q :: 0 <= q < k ==> Melt(tables[q]) == Ok(melted[q])
    {
      assert tables[k] in tables;
      var m := Melt(tables[k]);
      if m.Err? {
        assert !(|tables[k].columns| >= 4 && tables[k].name !in tables[k].columns);
        return Err(m.error);
      }
      melted := melted + [m.value];
    }
    forall t | t in tables
      ensures |t.columns| >= 4 && t.name !in t.columns
    {
      var k :| 0 <= k < |tables| && tables[k] == t;
      assert Melt(tables[k]).Ok?;
    }
    return Ok(melted);
  }
}
