/** The region imputer: fills the missing `Region` cells of a table in
    place, country by country, from the first non-missing `Region` of the
    same country. */
module Imputer {
  import opened Tables

  const CountryCol := "Country"
  const RegionCol := "Region"

  /** Every row has a cell at the country position `ci` and the region
      position `ri`. */
  predicate HasCells(rows: seq<Row>, ci: nat, ri: nat) {
    forall p :: 0 <= p < |rows| ==> ci < |rows[p]| && ri < |rows[p]|
  }

  /** The country column, in row order. */
  function CountryCells(rows: seq<Row>, ci: nat): (cells: seq<Value>)
    requires forall p :: 0 <= p < |rows| ==> ci < |rows[p]|
    ensures |cells| == |rows| && forall p :: 0 <= p < |rows| ==> cells[p] == rows[p][ci]
  {
    seq(|rows|, p requires 0 <= p < |rows| => rows[p][ci])
  }

  /** `df['Country'].unique()`: the distinct country cells in order of first
      appearance; a missing cell counts once, as pandas does. */
  function Countries(rows: seq<Row>, ci: nat): seq<Value>
    requires forall p :: 0 <= p < |rows| ==> ci < |rows[p]|
  {
    Dedup(CountryCells(rows, ci))
  }

  /** The countries are the distinct country cells, each once, ordered by
      the first row that holds them. */
  lemma CountriesOrder(rows: seq<Row>, ci: nat)
    requires forall p :: 0 <= p < |rows| ==> ci < |rows[p]|
    ensures var cs, cells := Countries(rows, ci), CountryCells(rows, ci);
      && (forall c :: c in cs <==> exists p :: 0 <= p < |rows| && rows[p][ci] == c)
      && NoDuplicates(cs)
      && forall i, j :: 0 <= i < j < |cs| ==>
           cs[i] in cells && cs[j] in cells && IndexOf(cells, cs[i]).value < IndexOf(cells, cs[j]).value
  {
    var cells := CountryCells(rows, ci);
    DedupOrder(cells);
    forall c ensures c in cells <==> exists p :: 0 <= p < |rows| && rows[p][ci] == c {
      if c in cells {
        var p :| 0 <= p < |cells| && cells[p] == c;
      }
    }
  }

  /** `regions[not_na].iloc[0]`: the first non-missing region among the rows
      whose country equals `c`, if any. A missing `c` equals no cell. */
  function FirstRegion(rows: seq<Row>, ci: nat, ri: nat, c: Value): (r: Option<Value>)
    requires HasCells(rows, ci, ri)
    ensures r.Some? ==> !r.value.Missing?
    decreases |rows|
  {
    if |rows| == 0 then None
    else if Same(rows[0][ci], c) && !rows[0][ri].Missing? then Some(rows[0][ri])
    else FirstRegion(rows[1..], ci, ri, c)
  }

  /** `df.loc[filter, 'Region'] = regions.fillna(v)`: the missing regions of
      country `c` become `v`; every other cell stays. */
  function FillCountry(rows: seq<Row>, ci: nat, ri: nat, c: Value, v: Value): (r: seq<Row>)
    requires HasCells(rows, ci, ri)
    ensures |r| == |rows| && HasCells(r, ci, ri)
  {
    seq(|rows|, p requires 0 <= p < |rows| =>
      if Same(rows[p][ci], c) && rows[p][ri].Missing? then rows[p][ri := v] else rows[p])
  }

  /** Filling a region keeps every row's width. */
  lemma FillCountryWidth(rows: seq<Row>, ci: nat, ri: nat, c: Value, v: Value, w: nat)
    requires HasCells(rows, ci, ri) && forall r | r in rows :: |r| == w
    ensures forall r | r in FillCountry(rows, ci, ri, c, v) :: |r| == w
  {
    var filled := FillCountry(rows, ci, ri, c, v);
    forall r | r in filled ensures |r| == w {
      var q :| 0 <= q < |filled| && filled[q] == r;
      assert rows[q] in rows;
    }
  }

  /** The rows after a run, and the error that stopped it, if any. */
  datatype Filled = Filled(rows: seq<Row>, error: Option<Error>)

  /** The loop over the countries `cs`, in order; it stops at the first
      country with no region to copy, leaving the earlier ones filled. */
  function ImputeFold(rows: seq<Row>, ci: nat, ri: nat, cs: seq<Value>): (f: Filled)
    requires HasCells(rows, ci, ri)
    ensures |f.rows| == |rows| && HasCells(f.rows, ci, ri)
    decreases |cs|
  {
    if |cs| == 0 then Filled(rows, None)
    else
      var prev := ImputeFold(rows, ci, ri, cs[..|cs| - 1]);
      if prev.error.Some? then prev
      else
        var c := cs[|cs| - 1];
        match FirstRegion(prev.rows, ci, ri, c)
        case None => Filled(prev.rows, Some(NoRegionAvailable(c)))
        case Some(v) => Filled(FillCountry(prev.rows, ci, ri, c, v), None)
  }

  lemma RowsHaveCells(t: Table, ci: nat, ri: nat)
    requires WellFormed(t) && ci < |t.columns| && ri < |t.columns|
    ensures HasCells(t.rows, ci, ri)
  {
    forall p | 0 <= p < |t.rows| ensures ci < |t.rows[p]| && ri < |t.rows[p]| {
      assert t.rows[p] in t.rows;
    }
  }

  /** What `impute_regions` leaves in the table and what it raises: a
      KeyError without a `Country` column, or without a `Region` column when
      there is a country to visit; otherwise the loop over the countries. */
  function Impute(t: Table): (f: Filled)
    requires WellFormed(t)
    ensures |f.rows| == |t.rows|
  {
    match IndexOf(t.columns, CountryCol)
    case None => Filled(t.rows, Some(MissingColumn(CountryCol)))
    case Some(ci) =>
      RowsHaveCells(t, ci, ci);
      var cs := Countries(t.rows, ci);
      if |cs| == 0 then Filled(t.rows, None)
      else match IndexOf(t.columns, RegionCol)
        case None => Filled(t.rows, Some(MissingColumn(RegionCol)))
        case Some(ri) =>
          RowsHaveCells(t, ci, ri);
          ImputeFold(t.rows, ci, ri, cs)
  }

  /** One more country: the fold either stops there or fills it. */
  lemma FoldStep(rows: seq<Row>, ci: nat, ri: nat, cs: seq<Value>, k: nat, cur: seq<Row>)
    requires HasCells(rows, ci, ri) && HasCells(cur, ci, ri) && k < |cs|
    requires ImputeFold(rows, ci, ri, cs[..k]) == Filled(cur, None)
    ensures ImputeFold(rows, ci, ri, cs[..k + 1]) ==
      match FirstRegion(cur, ci, ri, cs[k])
      case None => Filled(cur, Some(NoRegionAvailable(cs[k])))
      case Some(v) => Filled(FillCountry(cur, ci, ri, cs[k], v), None)
  {
    assert cs[..k + 1][..k] == cs[..k];
  }

  /** Once the fold has stopped, later countries change nothing. */
  lemma {:induction false} FoldStuck(rows: seq<Row>, ci: nat, ri: nat, cs: seq<Value>, k: nat)
    requires HasCells(rows, ci, ri) && k <= |cs|
    requires ImputeFold(rows, ci, ri, cs[..k]).error.Some?
    ensures ImputeFold(rows, ci, ri, cs) == ImputeFold(rows, ci, ri, cs[..k])
    decreases |cs|
  {
    if k < |cs| {
      var n := |cs| - 1;
      assert cs[..n][..k] == cs[..k];
      FoldStuck(rows, ci, ri, cs[..n], k);
    } else {
      assert cs[..k] == cs;
    }
  }

  /** The row `p` once every country in `done` has been visited: a missing
      region of a visited country holds that country's first region in the
      original rows. */
  function ImputedRow(rows: seq<Row>, ci: nat, ri: nat, done: seq<Value>, p: nat): (r: Row)
    requires HasCells(rows, ci, ri) && p < |rows|
    ensures |r| == |rows[p]|
  {
    var c := rows[p][ci];
    if rows[p][ri].Missing? && c in done then
      match FirstRegion(rows, ci, ri, c)
      case None => rows[p]
      case Some(v) => rows[p][ri := v]
    else rows[p]
  }

  /** Every row after the countries `done` have been visited. */
  function Imputed(rows: seq<Row>, ci: nat, ri: nat, done: seq<Value>): (r: seq<Row>)
    requires HasCells(rows, ci, ri)
    ensures |r| == |rows| && HasCells(r, ci, ri)
    ensures forall p :: 0 <= p < |rows| ==> r[p] == ImputedRow(rows, ci, ri, done, p)
  {
    seq(|rows|, p requires 0 <= p < |rows| => ImputedRow(rows, ci, ri, done, p))
  }

  /** The region `FirstRegion` finds belongs to the first row of country `c`
      whose region is present. */
  lemma {:induction false} FirstRegionSource(rows: seq<Row>, ci: nat, ri: nat, c: Value) returns (p: nat)
    requires HasCells(rows, ci, ri) && FirstRegion(rows, ci, ri, c).Some?
    ensures p < |rows| && Same(rows[p][ci], c) && rows[p][ri] == FirstRegion(rows, ci, ri, c).value
    ensures forall q :: 0 <= q < p && Same(rows[q][ci], c) ==> rows[q][ri].Missing?
    decreases |rows|
  {
    if Same(rows[0][ci], c) && !rows[0][ri].Missing? {
      p := 0;
    } else {
      var p' := FirstRegionSource(rows[1..], ci, ri, c);
      p := p' + 1;
      forall q | 0 <= q < p && Same(rows[q][ci], c) ensures rows[q][ri].Missing? {
        if q > 0 {
          assert rows[1..][q - 1] == rows[q];
        }
      }
    }
  }

  /** `iloc[0]` fails exactly when every row of country `c` misses its
      region (in particular when `c` is missing or no row has it). */
  lemma {:induction false} FirstRegionNone(rows: seq<Row>, ci: nat, ri: nat, c: Value)
    requires HasCells(rows, ci, ri)
    ensures FirstRegion(rows, ci, ri, c).None? <==>
      forall p :: 0 <= p < |rows| && Same(rows[p][ci], c) ==> rows[p][ri].Missing?
    decreases |rows|
  {
    if |rows| > 0 {
      FirstRegionNone(rows[1..], ci, ri, c);
      assert forall p :: 1 <= p < |rows| ==> rows[1..][p - 1] == rows[p];
    }
  }

  /** `FirstRegion` looks only at the rows of country `c`. */
  lemma {:induction false} FirstRegionAgree(a: seq<Row>, b: seq<Row>, ci: nat, ri: nat, c: Value)
    requires HasCells(a, ci, ri) && HasCells(b, ci, ri) && |a| == |b|
    requires forall p :: 0 <= p < |a| ==> a[p][ci] == b[p][ci]
    requires forall p :: 0 <= p < |a| && Same(a[p][ci], c) ==> a[p][ri] == b[p][ri]
    ensures FirstRegion(a, ci, ri, c) == FirstRegion(b, ci, ri, c)
    decreases |a|
  {
    if |a| > 0 {
      assert forall p :: 0 <= p < |a| - 1 ==> a[1..][p] == a[p + 1] && b[1..][p] == b[p + 1];
      FirstRegionAgree(a[1..], b[1..], ci, ri, c);
    }
  }

  /** Filling a country not yet visited moves the closed form on by one. */
  lemma FillImputed(rows: seq<Row>, ci: nat, ri: nat, done: seq<Value>, c: Value, v: Value)
    requires HasCells(rows, ci, ri) && ci != ri && c !in done
    requires FirstRegion(rows, ci, ri, c) == Some(v)
    ensures FillCountry(Imputed(rows, ci, ri, done), ci, ri, c, v) == Imputed(rows, ci, ri, done + [c])
  {
    var cur := Imputed(rows, ci, ri, done);
    var lhs := FillCountry(cur, ci, ri, c, v);
    var rhs := Imputed(rows, ci, ri, done + [c]);
    var q := FirstRegionSource(rows, ci, ri, c);
    assert !c.Missing?;
    forall p | 0 <= p < |rows| ensures lhs[p] == rhs[p] {
      assert cur[p] == ImputedRow(rows, ci, ri, done, p);
      assert cur[p][ci] == rows[p][ci];
      assert rhs[p] == ImputedRow(rows, ci, ri, done + [c], p);
      var x := rows[p][ci];
      assert x in done + [c] <==> x in done || x == c;
      if Same(x, c) {
        assert cur[p] == rows[p];
      } else {
        assert lhs[p] == cur[p];
      }
    }
  }

  /** While every visited country has a region, the loop has filled exactly
      the visited countries. */
  /** A country not yet visited finds the same region as before the loop. */
  lemma UnvisitedAgree(rows: seq<Row>, ci: nat, ri: nat, done: seq<Value>, c: Value)
    requires HasCells(rows, ci, ri) && ci != ri && c !in done
    ensures FirstRegion(Imputed(rows, ci, ri, done), ci, ri, c) == FirstRegion(rows, ci, ri, c)
  {
    var cur := Imputed(rows, ci, ri, done);
    forall p | 0 <= p < |rows| && Same(cur[p][ci], c) ensures cur[p][ri] == rows[p][ri] {
      assert cur[p] == ImputedRow(rows, ci, ri, done, p);
    }
    FirstRegionAgree(cur, rows, ci, ri, c);
  }

  lemma {:induction false} FoldImputed(rows: seq<Row>, ci: nat, ri: nat, cs: seq<Value>, k: nat)
    requires HasCells(rows, ci, ri) && ci != ri && NoDuplicates(cs) && k <= |cs|
    requires forall j :: 0 <= j < k ==> FirstRegion(rows, ci, ri, cs[j]).Some?
    ensures ImputeFold(rows, ci, ri, cs[..k]) == Filled(Imputed(rows, ci, ri, cs[..k]), None)
  {
    if k == 0 {
      assert Imputed(rows, ci, ri, []) == rows;
    } else {
      FoldImputed(rows, ci, ri, cs, k - 1);
      var done := cs[..k - 1];
      var c := cs[k - 1];
      var cur := Imputed(rows, ci, ri, done);
      assert c !in done;
      UnvisitedAgree(rows, ci, ri, done, c);
      var v := FirstRegion(rows, ci, ri, c).value;
      FoldStep(rows, ci, ri, cs, k - 1, cur);
      FillImputed(rows, ci, ri, done, c, v);
      assert done + [c] == cs[..k];
    }
  }

  /** The whole loop: it visits the countries up to the first one, at `k`,
      whose rows miss every region; that one raises, and the rows hold the
      closed form for the countries before it. */
  lemma FoldOutcome(rows: seq<Row>, ci: nat, ri: nat, cs: seq<Value>) returns (k: nat)
    requires HasCells(rows, ci, ri) && ci != ri && NoDuplicates(cs)
    ensures k <= |cs|
    ensures forall j :: 0 <= j < k ==> FirstRegion(rows, ci, ri, cs[j]).Some?
    ensures ImputeFold(rows, ci, ri, cs).rows == Imputed(rows, ci, ri, cs[..k])
    ensures k == |cs| ==> ImputeFold(rows, ci, ri, cs).error == None
    ensures k < |cs| ==>
      (FirstRegion(rows, ci, ri, cs[k]).None? &&
       ImputeFold(rows, ci, ri, cs).error == Some(NoRegionAvailable(cs[k])))
  {
    k := 0;
    while k < |cs| && FirstRegion(rows, ci, ri, cs[k]).Some?
      invariant k <= |cs|
      invariant forall j :: 0 <= j < k ==> FirstRegion(rows, ci, ri, cs[j]).Some?
    {
      k := k + 1;
    }
    if k < |cs| {
      FoldStops(rows, ci, ri, cs, k);
    } else {
      FoldImputed(rows, ci, ri, cs, k);
      assert cs[..k] == cs;
    }
  }

  /** The loop stops at the first country `cs[k]` without a region. */
  lemma FoldStops(rows: seq<Row>, ci: nat, ri: nat, cs: seq<Value>, k: nat)
    requires HasCells(rows, ci, ri) && ci != ri && NoDuplicates(cs) && k < |cs|
    requires forall j :: 0 <= j < k ==> FirstRegion(rows, ci, ri, cs[j]).Some?
    requires FirstRegion(rows, ci, ri, cs[k]).None?
    ensures ImputeFold(rows, ci, ri, cs) == Filled(Imputed(rows, ci, ri, cs[..k]), Some(NoRegionAvailable(cs[k])))
  {
    FoldImputed(rows, ci, ri, cs, k);
    var cur := Imputed(rows, ci, ri, cs[..k]);
    assert cs[k] !in cs[..k];
    UnvisitedAgree(rows, ci, ri, cs[..k], cs[k]);
    FoldStep(rows, ci, ri, cs, k, cur);
    FoldStuck(rows, ci, ri, cs, k + 1);
  }

  /** The country and region positions of a table that has both columns are
      distinct. */
  lemma KeyPositions(t: Table, ci: nat, ri: nat)
    requires WellFormed(t)
    requires IndexOf(t.columns, CountryCol) == Some(ci) && IndexOf(t.columns, RegionCol) == Some(ri)
    ensures ci != ri && HasCells(t.rows, ci, ri)
  {
    RowsHaveCells(t, ci, ri);
  }

  /** Without a `Country` column `impute_regions` raises at once; without a
      `Region` column it raises only if there is a row, as the loop body is
      then reached. The table is untouched in both cases. */
  lemma ImputeMissingColumns(t: Table)
    requires WellFormed(t)
    ensures CountryCol !in t.columns ==> Impute(t) == Filled(t.rows, Some(MissingColumn(CountryCol)))
    ensures CountryCol in t.columns && RegionCol !in t.columns ==>
      Impute(t) == Filled(t.rows, if |t.rows| == 0 then None else Some(MissingColumn(RegionCol)))
  {
    if CountryCol in t.columns {
      var ci := IndexOf(t.columns, CountryCol).value;
      RowsHaveCells(t, ci, ci);
      var cells := CountryCells(t.rows, ci);
      if |t.rows| > 0 {
        assert cells[0] in Countries(t.rows, ci);
      }
    }
  }

  /** `impute_regions` on a table with both columns: it raises at the first
      country, in order of appearance, none of whose rows has a region, and
      otherwise every row's missing region is its country's first region. */
  lemma ImputeOutcome(t: Table, ci: nat, ri: nat) returns (k: nat)
    requires WellFormed(t)
    requires IndexOf(t.columns, CountryCol) == Some(ci) && IndexOf(t.columns, RegionCol) == Some(ri)
    ensures ci != ri && HasCells(t.rows, ci, ri)
    ensures k <= |Countries(t.rows, ci)|
    ensures forall j :: 0 <= j < k ==> FirstRegion(t.rows, ci, ri, Countries(t.rows, ci)[j]).Some?
    ensures Impute(t).rows == Imputed(t.rows, ci, ri, Countries(t.rows, ci)[..k])
    ensures Impute(t).error.None? <==> k == |Countries(t.rows, ci)|
    ensures k < |Countries(t.rows, ci)| ==>
      (Impute(t).error == Some(NoRegionAvailable(Countries(t.rows, ci)[k])) &&
       forall p :: 0 <= p < |t.rows| && Same(t.rows[p][ci], Countries(t.rows, ci)[k]) ==> t.rows[p][ri].Missing?)
  {
    KeyPositions(t, ci, ri);
    var cs := Countries(t.rows, ci);
    k := FoldOutcome(t.rows, ci, ri, cs);
    if k < |cs| {
      FirstRegionNone(t.rows, ci, ri, cs[k]);
    }
    if |cs| == 0 {
      assert cs[..0] == [];
      assert Imputed(t.rows, ci, ri, []) == t.rows;
    }
  }

  /** The run succeeds exactly when every row's country has a row with a
      region. */
  lemma ImputeSucceeds(t: Table, ci: nat, ri: nat)
    requires WellFormed(t)
    requires IndexOf(t.columns, CountryCol) == Some(ci) && IndexOf(t.columns, RegionCol) == Some(ri)
    ensures HasCells(t.rows, ci, ri)
    ensures Impute(t).error.None? <==>
      forall p :: 0 <= p < |t.rows| ==> FirstRegion(t.rows, ci, ri, t.rows[p][ci]).Some?
  {
    var k := ImputeOutcome(t, ci, ri);
    var cs := Countries(t.rows, ci);
    var cells := CountryCells(t.rows, ci);
    if k == |cs| {
      forall p | 0 <= p < |t.rows| ensures FirstRegion(t.rows, ci, ri, t.rows[p][ci]).Some? {
        assert cells[p] == t.rows[p][ci];
        assert cells[p] in cs;
        var j :| 0 <= j < |cs| && cs[j] == cells[p];
        assert FirstRegion(t.rows, ci, ri, cs[j]).Some?;
      }
    } else {
      var c := cs[k];
      assert c in cells;
      var p :| 0 <= p < |cells| && cells[p] == c;
      FirstRegionNone(t.rows, ci, ri, c);
      assert FirstRegion(t.rows, ci, ri, t.rows[p][ci]).None?;
    }
  }

  /** After a successful run, row `p` keeps every cell but its region, and
      its region is the old one if present, else its country's first region. */
  lemma ImputedCells(t: Table, ci: nat, ri: nat, p: nat)
    requires WellFormed(t)
    requires IndexOf(t.columns, CountryCol) == Some(ci) && IndexOf(t.columns, RegionCol) == Some(ri)
    requires Impute(t).error.None? && p < |t.rows|
    ensures HasCells(t.rows, ci, ri) && FirstRegion(t.rows, ci, ri, t.rows[p][ci]).Some?
    ensures |Impute(t).rows[p]| == |t.rows[p]|
    ensures forall j :: 0 <= j < |t.rows[p]| && j != ri ==> Impute(t).rows[p][j] == t.rows[p][j]
    ensures Impute(t).rows[p][ri] ==
      if t.rows[p][ri].Missing? then FirstRegion(t.rows, ci, ri, t.rows[p][ci]).value else t.rows[p][ri]
  {
    var k := ImputeOutcome(t, ci, ri);
    ImputeSucceeds(t, ci, ri);
    var cs := Countries(t.rows, ci);
    assert cs[..k] == cs;
    assert CountryCells(t.rows, ci)[p] in cs;
    assert Impute(t).rows[p] == ImputedRow(t.rows, ci, ri, cs, p);
  }

  /** After a successful run every row keeps its width and its other
      cells, and has a region. */
  lemma ImputedRows(t: Table, ci: nat, ri: nat)
    requires WellFormed(t) && Impute(t).error.None?
    requires IndexOf(t.columns, CountryCol) == Some(ci) && IndexOf(t.columns, RegionCol) == Some(ri)
    ensures ci != ri && HasCells(t.rows, ci, ri)
    ensures WellFormed(Table(t.name, t.columns, Impute(t).rows))
    ensures forall p :: 0 <= p < |t.rows| ==>
      && |Impute(t).rows[p]| == |t.columns|
      && Impute(t).rows[p][ci] == t.rows[p][ci]
      && !Impute(t).rows[p][ri].Missing?
      && FirstRegion(t.rows, ci, ri, t.rows[p][ci]).Some?
  {
    var rows := Impute(t).rows;
    KeyPositions(t, ci, ri);
    forall p | 0 <= p < |rows|
      ensures |rows[p]| == |t.columns| && rows[p][ci] == t.rows[p][ci] && !rows[p][ri].Missing?
      ensures FirstRegion(t.rows, ci, ri, t.rows[p][ci]).Some?
    {
      assert t.rows[p] in t.rows;
      ImputedCells(t, ci, ri, p);
    }
    forall r | r in rows ensures |r| == |t.columns| {
      var p :| 0 <= p < |rows| && rows[p] == r;
    }
  }

  /** After a successful run every country finds a region in the new rows. */
  lemma ImputedRegionsFound(t: Table, ci: nat, ri: nat)
    requires WellFormed(t) && Impute(t).error.None?
    requires IndexOf(t.columns, CountryCol) == Some(ci) && IndexOf(t.columns, RegionCol) == Some(ri)
    ensures ci != ri && HasCells(Impute(t).rows, ci, ri)
    ensures var rows := Impute(t).rows;
      forall j :: 0 <= j < |Countries(rows, ci)| ==> FirstRegion(rows, ci, ri, Countries(rows, ci)[j]).Some?
  {
    var rows := Impute(t).rows;
    ImputedRows(t, ci, ri);
    assert CountryCells(rows, ci) == CountryCells(t.rows, ci);
    var cs := Countries(rows, ci);
    forall j | 0 <= j < |cs| ensures FirstRegion(rows, ci, ri, cs[j]).Some? {
      assert cs[j] in CountryCells(rows, ci);
      var p :| 0 <= p < |rows| && CountryCells(rows, ci)[p] == cs[j];
      assert rows[p][ci] == t.rows[p][ci] == cs[j];
      var q := FirstRegionSource(t.rows, ci, ri, t.rows[p][ci]);
      assert Same(rows[p][ci], cs[j]);
      FirstRegionNone(rows, ci, ri, cs[j]);
    }
  }

  /** Running `impute_regions` a second time changes nothing and raises
      nothing. */
  lemma ImputeIdempotent(t: Table)
    requires WellFormed(t) && Impute(t).error.None?
    ensures WellFormed(Table(t.name, t.columns, Impute(t).rows))
    ensures Impute(Table(t.name, t.columns, Impute(t).rows)) == Filled(Impute(t).rows, None)
  {
    var rows := Impute(t).rows;
    ImputeMissingColumns(t);
    if CountryCol !in t.columns {
      return;
    }
    var ci := IndexOf(t.columns, CountryCol).value;
    if RegionCol !in t.columns {
      assert rows == t.rows;
      return;
    }
    var ri := IndexOf(t.columns, RegionCol).value;
    ImputedRows(t, ci, ri);
    ImputedRegionsFound(t, ci, ri);
    var cs := Countries(rows, ci);
    FoldImputed(rows, ci, ri, cs, |cs|);
    assert cs[..|cs|] == cs;
    forall p | 0 <= p < |rows| ensures Imputed(rows, ci, ri, cs)[p] == rows[p] {
      assert Imputed(rows, ci, ri, cs)[p] == ImputedRow(rows, ci, ri, cs, p);
    }
    assert Imputed(rows, ci, ri, cs) == rows;
  }

  /** A table held by reference, as the DataFrame `impute_regions` changes. */
  class Frame {
    var name: string
    var columns: seq<string>
    var rows: seq<Row>

    ghost predicate Valid()
      reads this
    {
      forall r | r in rows :: |r| == |columns|
    }

    function Snapshot(): (t: Table)
      reads this
      ensures Valid() ==> WellFormed(t)
    {
      Table(name, columns, rows)
    }

    constructor (t: Table)
      requires WellFormed(t)
      ensures Valid() && Snapshot() == t
    {
      name, columns, rows := t.name, t.columns, t.rows;
    }

    /** `impute_regions(df)`: changes only `rows`, to what `Impute` gives, and
        reports the error raised, if any. */
    method ImputeRegions() returns (err: Option<Error>)
      requires Valid()
      modifies this
      ensures Valid() && name == old(name) && columns == old(columns)
      ensures rows == Impute(old(Snapshot())).rows
      ensures err == Impute(old(Snapshot())).error
    {
      ghost var t := Snapshot();
      var country := IndexOf(columns, CountryCol);
      if country.None? {
        return Some(MissingColumn(CountryCol));
      }
      var ci := country.value;
      RowsHaveCells(t, ci, ci);
      var cs := Countries(rows, ci);
      if |cs| == 0 {
        return None;
      }
      var region := IndexOf(columns, RegionCol);
      if region.None? {
        return Some(MissingColumn(RegionCol));
      }
      var ri := region.value;
      RowsHaveCells(t, ci, ri);
      assert Impute(t) == ImputeFold(t.rows, ci, ri, cs);
      err := FillCountries(cs, ci, ri);
    }

    /** `for country in ...unique()`: fills the countries `cs` in order and
        stops at the first one with no region to copy. */
    method FillCountries(cs: seq<Value>, ci: nat, ri: nat) returns (err: Option<Error>)
      requires Valid() && HasCells(rows, ci, ri) && ri < |columns|
      modifies this
      ensures Valid() && name == old(name) && columns == old(columns)
      ensures Filled(rows, err) == ImputeFold(old(rows), ci, ri, cs)
    {
      ghost var start := rows;
      for k := 0 to |cs|
        invariant Valid() && name == old(name) && columns == old(columns) && HasCells(rows, ci, ri)
        invariant ImputeFold(start, ci, ri, cs[..k]) == Filled(rows, None)
      {
        var v := FindRegion(cs[k], ci, ri);
        FoldStep(start, ci, ri, cs, k, rows);
        if v.None? {
          FoldStuck(start, ci, ri, cs, k + 1);
          return Some(NoRegionAvailable(cs[k]));
        }
        FillRegion(cs[k], v.value, ci, ri);
      }
      assert cs[..|cs|] == cs;
      return None;
    }

    /** The first non-missing region of country `c`, scanning rows in order. */
    method FindRegion(c: Value, ci: nat, ri: nat) returns (v: Option<Value>)
      requires HasCells(rows, ci, ri)
      ensures v == FirstRegion(rows, ci, ri, c)
    {
      v := None;
      var p := 0;
      while p < |rows| && v.None?
        invariant 0 <= p <= |rows|
        invariant v.None? ==> FirstRegion(rows[p..], ci, ri, c) == FirstRegion(rows, ci, ri, c)
        invariant v.Some? ==> v == FirstRegion(rows, ci, ri, c)
      {
        assert rows[p..][0] == rows[p] && rows[p..][1..] == rows[p + 1..];
        if Same(rows[p][ci], c) && !rows[p][ri].Missing? {
          v := Some(rows[p][ri]);
        }
        p := p + 1;
      }
    }

    /** Writes `v` into every missing region of country `c`, row by row. */
    method FillRegion(c: Value, v: Value, ci: nat, ri: nat)
      requires Valid() && HasCells(rows, ci, ri) && ri < |columns|
      modifies this
      ensures Valid() && name == old(name) && columns == old(columns)
      ensures rows == FillCountry(old(rows), ci, ri, c, v)
    {
      ghost var start := rows;
      for p := 0 to |rows|
        invariant |rows| == |start| && columns == old(columns) && name == old(name)
        invariant forall q :: 0 <= q < p ==> rows[q] == FillCountry(start, ci, ri, c, v)[q]
        invariant forall q :: p <= q < |rows| ==> rows[q] == start[q]
      {
        if Same(rows[p][ci], c) && rows[p][ri].Missing? {
          rows := rows[p := rows[p][ri := v]];
        }
      }
      assert rows == FillCountry(start, ci, ri, c, v);
      FillCountryWidth(start, ci, ri, c, v, |columns|);
    }
  }
}
