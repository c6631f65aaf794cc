/** `calculate_percent_change` put together: per country, the rows whose
    country matches, sorted by period; the change rows of its periods;
    those rows sorted by their index (country, category, year); and all
    countries' blocks concatenated in the order of the countries. */
module Percent {
  import opened Tables
  import opened Ordering
  import opened Events
  import opened Windows
  import opened Gathering
  import opened Changes

  /** A country's loop inputs and its distinct event periods, ascending. */
  datatype Setup = Setup(scope: Scope, qs: seq<string>)

  /** The period cells of the event metadata are strings when every row's
      period is. */
  lemma MetadataPeriodsText(t: Table, pi: nat)
    requires WellFormed(t) && FetchEventsMetadata(t).Ok?
    requires IndexOf(t.columns, PeriodCol) == Some(pi) && Fit(t.rows, pi, |t.columns|)
    ensures forall v | v in FetchEventsMetadata(t).value.periods :: v.Str?
  {
    var m := FetchEventsMetadata(t).value;
    forall v | v in m.periods ensures v.Str? {
      var i :| 0 <= i < |m.periods| && m.periods[i] == v;
      var p := MetadataSource(t, i);
      assert t.rows[p] in t.rows;
    }
  }

  /** `df[df['Country'].str.contains(country)]`: the rows whose country
      cell contains `c`, in their order. */
  function Matching(t: Table, c: string): (r: Result<seq<Row>>)
    requires WellFormed(t)
    ensures r.Ok? ==> CountryCol in t.columns && forall row | row in r.value :: row in t.rows
  {
    var ci :- Column(t, CountryCol);
    assert HasColumn(t.rows, ci);
    var mask :- CountryMask(t.rows, ci, c);
    assert forall row | row in Filter(t.rows, mask) :: row in t.rows by {
      forall row | row in Filter(t.rows, mask) ensures row in t.rows {
        FilterMember(t.rows, mask, row);
      }
    }
    Ok(Filter(t.rows, mask))
  }

  /** The matching rows are exactly the rows whose country cell is a string
      containing `c`; a non-string country cell is an error. */
  lemma MatchingRows(t: Table, c: string)
    requires WellFormed(t) && CountryCol in t.columns
    ensures var ci := IndexOf(t.columns, CountryCol).value;
      && (Matching(t, c).Ok? <==> forall p :: 0 <= p < |t.rows| ==> t.rows[p][ci].Str?)
      && (Matching(t, c).Err? ==> Matching(t, c).error == NonStringCell(CountryCol))
      && (Matching(t, c).Ok? ==> forall row: Row :: row in Matching(t, c).value <==>
            row in t.rows && row[ci].Str? && Contains(row[ci].s, c))
  {
    var ci := IndexOf(t.columns, CountryCol).value;
    assert HasColumn(t.rows, ci);
    if Matching(t, c).Ok? {
      var mask := CountryMask(t.rows, ci, c).value;
      forall row: Row
        ensures row in Filter(t.rows, mask) <==> row in t.rows && row[ci].Str? && Contains(row[ci].s, c)
      {
        FilterMember(t.rows, mask, row);
        if row in t.rows {
          var p :| 0 <= p < |t.rows| && t.rows[p] == row;
        }
      }
    }
  }

  /** `tmp_df`: the matching rows sorted by period. */
  function CountryRows(t: Table, c: string): (r: Result<seq<Row>>)
    requires WellFormed(t)
    ensures r.Ok? ==> PeriodCol in t.columns && Fit(r.value, IndexOf(t.columns, PeriodCol).value, |t.columns|)
  {
    var picked :- Matching(t, c);
    var pi :- Column(t, PeriodCol);
    SortByPeriod(picked, pi, |t.columns|)
  }

  /** `tmp_df` holds the matching rows, ascending by period. */
  lemma CountryRowsFacts(t: Table, c: string)
    requires WellFormed(t) && CountryRows(t, c).Ok?
    ensures var rows, pi := CountryRows(t, c).value, IndexOf(t.columns, PeriodCol).value;
      && Matching(t, c).Ok?
      && (forall i, j :: 0 <= i < j < |rows| ==> !StrLess(rows[j][pi].s, rows[i][pi].s))
      && (forall row: Row :: row in rows <==> row in Matching(t, c).value)
  {
    var picked := Matching(t, c).value;
    var pi := IndexOf(t.columns, PeriodCol).value;
    SortByPeriodSorted(picked, pi, |t.columns|);
    SortByPeriodPermutation(picked, pi, |t.columns|);
    var rows := CountryRows(t, c).value;
    assert forall row: Row :: row in rows <==> row in multiset(picked);
  }

  /** The part of the country loop's body before the period loop:
      `tmp_df`, its event metadata and `sorted(set(periods))`. */
  function CountryScope(t: Table, c: string, levelTwo: seq<string>, calcAttrs: seq<string>): (r: Result<Setup>)
    requires WellFormed(t)
    ensures r.Ok? ==> ScopeOk(r.value.scope)
  {
    var sorted :- CountryRows(t, c);
    var pi := IndexOf(t.columns, PeriodCol).value;
    var tmp := Table(t.name, t.columns, sorted);
    var meta :- FetchEventsMetadata(tmp);
    MetadataPeriodsText(tmp, pi);
    var periods := Texts(meta.periods);
    var ei, yi := IndexOf(t.columns, EventCol).value, IndexOf(t.columns, YearCol).value;
    Ok(Setup(Scope(tmp, sorted, pi, ei, yi, c, levelTwo, calcAttrs, periods, meta.events),
             DistinctSorted(periods)))
  }

  /** What the scope holds: the country, the lists, `tmp_df` as its rows,
      the column positions, and the distinct event periods in strictly
      ascending order. */
  lemma CountryScopeFacts(t: Table, c: string, levelTwo: seq<string>, calcAttrs: seq<string>)
    requires WellFormed(t) && CountryScope(t, c, levelTwo, calcAttrs).Ok?
    ensures CountryRows(t, c).Ok?
    ensures var u := CountryScope(t, c, levelTwo, calcAttrs).value;
      && u.scope.country == c && u.scope.levelTwo == levelTwo && u.scope.calcAttrs == calcAttrs
      && u.scope.t.columns == t.columns && u.scope.rows == u.scope.t.rows == CountryRows(t, c).value
      && IndexOf(t.columns, PeriodCol) == Some(u.scope.pi)
      && IndexOf(t.columns, EventCol) == Some(u.scope.ei)
      && IndexOf(t.columns, YearCol) == Some(u.scope.yi)
      && StrictlyIncreasing(u.qs)
  {
    var u := CountryScope(t, c, levelTwo, calcAttrs).value;
    DistinctSortedIncreasing(u.scope.periods);
  }

  /** An index value's year: strings ascending, missing years last. */
  predicate YearLess(a: Value, b: Value) {
    a.Str? && (b.Missing? || (b.Str? && StrLess(a.s, b.s)))
  }

  /** `sort_index` on the (country, category, year) index. */
  predicate KeyLess(a: ChangeRow, b: ChangeRow) {
    || StrLess(a.country, b.country)
    || (a.country == b.country && StrLess(a.group, b.group))
    || (a.country == b.country && a.group == b.group && YearLess(a.year, b.year))
  }

  function KeyOrder(): (ChangeRow, ChangeRow) -> bool {
    (a: ChangeRow, b: ChangeRow) => KeyLess(a, b)
  }

  lemma YearLessTransitive(a: Value, b: Value, c: Value)
    requires YearLess(a, b) && YearLess(b, c)
    ensures YearLess(a, c)
  {
    if c.Str? {
      StrLessTransitive(a.s, b.s, c.s);
    }
  }

  /** The index order is a strict order. */
  lemma KeyOrderStrict()
    ensures StrictOrder(KeyOrder())
  {
    var less := KeyOrder();
    forall x: ChangeRow ensures !less(x, x) {
      StrLessIrreflexive(x.country);
      StrLessIrreflexive(x.group);
      if x.year.Str? {
        StrLessIrreflexive(x.year.s);
      }
    }
    forall x: ChangeRow, y: ChangeRow, z: ChangeRow | less(x, y) && less(y, z) ensures less(x, z) {
      if StrLess(x.country, y.country) && StrLess(y.country, z.country) {
        StrLessTransitive(x.country, y.country, z.country);
      } else if x.country == y.country == z.country {
        if StrLess(x.group, y.group) && StrLess(y.group, z.group) {
          StrLessTransitive(x.group, y.group, z.group);
        } else if x.group == y.group == z.group {
          YearLessTransitive(x.year, y.year, z.year);
        }
      }
    }
  }

  /** Numeric years are refused, which is stricter than `sort_index`:
      pandas sorts numeric years, and mixes them with strings too. */
  predicate YearsOrderable(rows: seq<ChangeRow>) {
    forall x | x in rows :: !x.year.Num?
  }

  /** The period loop of a country and `sort_index` on its rows. */
  function SetupBlock(u: Setup): Result<seq<ChangeRow>>
    requires ScopeOk(u.scope)
  {
    var rows :- PeriodsRows(u.scope, u.qs);
    if YearsOrderable(rows) then Ok(SortBy(rows, KeyOrder())) else Err(NonStringCell(YearCol))
  }

  /** The block is the period loop's rows, reordered by index: sorted and
      a permutation of those rows. */
  lemma SetupBlockOrder(u: Setup)
    requires ScopeOk(u.scope) && SetupBlock(u).Ok?
    ensures PeriodsRows(u.scope, u.qs).Ok?
    ensures SortedBy(SetupBlock(u).value, KeyOrder())
    ensures multiset(SetupBlock(u).value) == multiset(PeriodsRows(u.scope, u.qs).value)
  {
    var rows := PeriodsRows(u.scope, u.qs).value;
    KeyOrderStrict();
    SortBySorted(rows, KeyOrder());
    SortByPermutation(rows, KeyOrder());
  }

  /** The block has one row per frame row of each period and pair. */
  lemma SetupBlockCount(u: Setup)
    requires ScopeOk(u.scope) && SetupBlock(u).Ok?
    ensures |SetupBlock(u).value| == Total(FrameSizes(u.scope, u.qs)) * Pairs(u.scope)
  {
    PeriodsRowsCount(u.scope, u.qs);
  }

  /** Every row of the block carries the country, one of the categories,
      one of the periods and a year that is not a number. */
  lemma SetupBlockMember(u: Setup, x: ChangeRow)
    requires ScopeOk(u.scope) && SetupBlock(u).Ok? && x in SetupBlock(u).value
    ensures x.country == u.scope.country && x.group in u.scope.levelTwo && x.period in u.qs && !x.year.Num?
  {
    SetupBlockOrder(u);
    var rows := PeriodsRows(u.scope, u.qs).value;
    assert x in multiset(rows);
    var m := PeriodsRowsMember(u.scope, u.qs, x);
  }

  /** The country loop's body: its scope, its period loop, and the block
      sorted by index. */
  function CountryBlock(t: Table, c: string, levelTwo: seq<string>, calcAttrs: seq<string>): Result<seq<ChangeRow>>
    requires WellFormed(t)
  {
    var u :- CountryScope(t, c, levelTwo, calcAttrs);
    SetupBlock(u)
  }

  /** Every row of a country's block carries that country and one of the
      categories. */
  lemma CountryBlockMember(t: Table, c: string, levelTwo: seq<string>, calcAttrs: seq<string>, x: ChangeRow)
    requires WellFormed(t) && CountryBlock(t, c, levelTwo, calcAttrs).Ok?
    requires x in CountryBlock(t, c, levelTwo, calcAttrs).value
    ensures x.country == c && x.group in levelTwo
  {
    var u := CountryScope(t, c, levelTwo, calcAttrs).value;
    CountryScopeFacts(t, c, levelTwo, calcAttrs);
    SetupBlockMember(u, x);
  }

  /** The steps of `for country in countries`. */
  function CountrySteps(t: Table, countries: seq<string>, levelTwo: seq<string>, calcAttrs: seq<string>): (xs: seq<Result<seq<ChangeRow>>>)
    requires WellFormed(t)
    ensures |xs| == |countries|
    ensures forall i :: 0 <= i < |countries| ==> xs[i] == CountryBlock(t, countries[i], levelTwo, calcAttrs)
  {
    seq(|countries|, i requires 0 <= i < |countries| => CountryBlock(t, countries[i], levelTwo, calcAttrs))
  }

  /** The result: a table indexed by (`Country`, the category name,
      `Year`) with columns `Period`, `Event`, the pre and post names and
      `% Change`; row `x`'s `% Change` is `PercentChange(x.pre, x.post)`. */
  datatype ChangeTable = ChangeTable(index: seq<string>, columns: seq<string>, rows: seq<ChangeRow>)

  /** `calculate_percent_change`: the blocks of all countries in order,
      the first error of a country's body, or a ValueError for an empty
      list of countries. */
  function PercentChanges(t: Table, countries: seq<string>, levelTwo: seq<string>, calcAttrs: seq<string>,
                          levelTwoName: string, preName: string, postName: string): Result<ChangeTable>
    requires WellFormed(t)
  {
    var rows :- Gather(CountrySteps(t, countries, levelTwo, calcAttrs));
    if |countries| == 0 then Err(NothingToConcatenate)
    else Ok(ChangeTable([CountryCol, levelTwoName, YearCol],
                        [PeriodCol, EventCol, preName, postName, "% Change"], rows))
  }

  /** `calculate_percent_change`: for each country, its scope, its period
      loop and `sort_index`, appended in country order; then the concat,
      which raises for an empty list of countries. */
  method CalculatePercentChange(t: Table, countries: seq<string>, levelTwo: seq<string>, calcAttrs: seq<string>,
                                levelTwoName: string, preName: string, postName: string)
    returns (r: Result<ChangeTable>)
    requires WellFormed(t)
    ensures r == PercentChanges(t, countries, levelTwo, calcAttrs, levelTwoName, preName, postName)
  {
    ghost var xs := CountrySteps(t, countries, levelTwo, calcAttrs);
    var acc: seq<ChangeRow> := [];
    for i := 0 to |countries|
      invariant Gather(xs[..i]) == Ok(acc)
    {
      var u := CountryScope(t, countries[i], levelTwo, calcAttrs);
      if u.Err? {
        GatherRaise(xs, i);
        return Err(u.error);
      }
      var rows := PeriodLoop(u.value.scope, u.value.qs);
      if rows.Err? {
        GatherRaise(xs, i);
        return Err(rows.error);
      }
      if !YearsOrderable(rows.value) {
        GatherRaise(xs, i);
        return Err(NonStringCell(YearCol));
      }
      var block := SortBy(rows.value, KeyOrder());
      GatherNext(xs, i, acc);
      acc := acc + block;
    }
    assert xs[..|countries|] == xs;
    if |countries| == 0 {
      return Err(NothingToConcatenate);
    }
    return Ok(ChangeTable([CountryCol, levelTwoName, YearCol],
                          [PeriodCol, EventCol, preName, postName, "% Change"], acc));
  }

  /** The call succeeds exactly when there is a country and every
      country's body succeeds; the table then holds country `i`'s block
      right after the blocks of the countries before it. */
  lemma PercentChangesShape(t: Table, countries: seq<string>, levelTwo: seq<string>, calcAttrs: seq<string>,
                            levelTwoName: string, preName: string, postName: string)
    requires WellFormed(t)
    ensures PercentChanges(t, countries, levelTwo, calcAttrs, levelTwoName, preName, postName).Ok? <==>
      |countries| > 0 && forall i :: 0 <= i < |countries| ==> CountryBlock(t, countries[i], levelTwo, calcAttrs).Ok?
    ensures var r := PercentChanges(t, countries, levelTwo, calcAttrs, levelTwoName, preName, postName);
      r.Ok? ==>
        && r.value.index == [CountryCol, levelTwoName, YearCol]
        && r.value.columns == [PeriodCol, EventCol, preName, postName, "% Change"]
        && forall i :: 0 <= i < |countries| ==>
             var xs := CountrySteps(t, countries, levelTwo, calcAttrs);
             Gather(xs[..i]).Ok? && xs[i].Ok? && Gather(xs[..i]).value + xs[i].value <= r.value.rows
    ensures var r := PercentChanges(t, countries, levelTwo, calcAttrs, levelTwoName, preName, postName);
      var xs := CountrySteps(t, countries, levelTwo, calcAttrs);
      r.Ok? ==>
        && |r.value.rows| == Size(xs)
        && r.value.rows == Gather(xs[..|xs| - 1]).value + xs[|xs| - 1].value
  {
    var xs := CountrySteps(t, countries, levelTwo, calcAttrs);
    GatherOk(xs);
    if Gather(xs).Ok? {
      GatherSize(xs);
      if |xs| > 0 {
        GatherStep(xs, |xs| - 1);
        assert xs[..|xs|] == xs;
      }
      forall i | 0 <= i < |countries|
        ensures Gather(xs[..i]).Ok? && xs[i].Ok? && Gather(xs[..i]).value + xs[i].value <= Gather(xs).value
      {
        GatherBlock(xs, i);
      }
    }
  }

  /** A failing call with countries fails with the error of the first
      country whose body fails. */
  lemma PercentChangesFirstError(t: Table, countries: seq<string>, levelTwo: seq<string>, calcAttrs: seq<string>,
                                 levelTwoName: string, preName: string, postName: string) returns (i: nat)
    requires WellFormed(t) && |countries| > 0
    requires PercentChanges(t, countries, levelTwo, calcAttrs, levelTwoName, preName, postName).Err?
    ensures i < |countries| && CountryBlock(t, countries[i], levelTwo, calcAttrs).Err?
    ensures forall j :: 0 <= j < i ==> CountryBlock(t, countries[j], levelTwo, calcAttrs).Ok?
    ensures PercentChanges(t, countries, levelTwo, calcAttrs, levelTwoName, preName, postName).error ==
      CountryBlock(t, countries[i], levelTwo, calcAttrs).error
  {
    i := GatherFirstError(CountrySteps(t, countries, levelTwo, calcAttrs));
  }

  /** Every row of the table belongs to one of the countries, as its
      search pattern, and to one of the categories. */
  lemma PercentChangesMember(t: Table, countries: seq<string>, levelTwo: seq<string>, calcAttrs: seq<string>,
                             levelTwoName: string, preName: string, postName: string, x: ChangeRow)
    requires WellFormed(t)
    requires PercentChanges(t, countries, levelTwo, calcAttrs, levelTwoName, preName, postName).Ok?
    requires x in PercentChanges(t, countries, levelTwo, calcAttrs, levelTwoName, preName, postName).value.rows
    ensures x.country in countries && x.group in levelTwo
  {
    var i := GatherMember(CountrySteps(t, countries, levelTwo, calcAttrs), x);
    CountryBlockMember(t, countries[i], levelTwo, calcAttrs, x);
  }
}
