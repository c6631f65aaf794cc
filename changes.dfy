/** `calculate_percent_change`: per country, per event period and per
    (category, attribute) pair, the mean of the attribute over the periods
    before and after the event; one row per country, category and year,
    sorted within each country and concatenated in the order of the
    countries. */
module Changes {
  import opened Tables
  import opened Ordering
  import opened Events
  import opened Windows
  import opened Gathering

  /** The numbers of a column, in order, skipping missing cells; a string
      cell makes `mean` raise. */
  function Numbers(cells: seq<Value>, col: string): (r: Result<seq<real>>)
    ensures r.Ok? <==> forall i :: 0 <= i < |cells| ==> !cells[i].Str?
    ensures r.Err? ==> r.error == NonNumericCell(col)
    ensures r.Ok? ==> forall x | x in r.value :: Num(x) in cells
    ensures r.Ok? ==> (|r.value| == 0 <==> forall i :: 0 <= i < |cells| ==> !cells[i].Num?)
    decreases |cells|
  {
    if |cells| == 0 then Ok([])
    else
      var n := |cells| - 1;
      var prev :- Numbers(cells[..n], col);
      assert forall v | v in cells[..n] :: v in cells;
      match cells[n]
      case Str(_) => Err(NonNumericCell(col))
      case Missing => Ok(prev)
      case Num(x) => Ok(prev + [x])
  }

  function Sum(xs: seq<real>): real
    decreases |xs|
  {
    if |xs| == 0 then 0.0 else Sum(xs[..|xs| - 1]) + xs[|xs| - 1]
  }

  lemma {:induction false} SumBounds(xs: seq<real>, lo: real, hi: real)
    requires forall x | x in xs :: lo <= x <= hi
    ensures lo * |xs| as real <= Sum(xs) <= hi * |xs| as real
    decreases |xs|
  {
    if |xs| > 0 {
      var n := |xs| - 1;
      assert forall x | x in xs[..n] :: x in xs;
      SumBounds(xs[..n], lo, hi);
      assert xs[n] in xs;
    }
  }

  /** `Series.mean()`: the average of the numeric cells, NaN (`None`) when
      there is none, an error when a cell is a string. */
  function Mean(cells: seq<Value>, col: string): (r: Result<Option<real>>)
    ensures r.Ok? <==> forall i :: 0 <= i < |cells| ==> !cells[i].Str?
    ensures r.Err? ==> r.error == NonNumericCell(col)
    ensures r.Ok? ==> (r.value.None? <==> forall i :: 0 <= i < |cells| ==> !cells[i].Num?)
  {
    var xs :- Numbers(cells, col);
    if |xs| == 0 then Ok(None) else Ok(Some(Sum(xs) / |xs| as real))
  }

  /** The mean lies between any bounds of the numeric cells. */
  lemma MeanBounds(cells: seq<Value>, col: string, lo: real, hi: real)
    requires Mean(cells, col).Ok? && Mean(cells, col).value.Some?
    requires forall i :: 0 <= i < |cells| && cells[i].Num? ==> lo <= cells[i].x <= hi
    ensures lo <= Mean(cells, col).value.value <= hi
  {
    var xs := Numbers(cells, col).value;
    forall x | x in xs ensures lo <= x <= hi {
      var i :| 0 <= i < |cells| && cells[i] == Num(x);
    }
    SumBounds(xs, lo, hi);
    assert Mean(cells, col).value.value == Sum(xs) / |xs| as real;
    AverageBounds(Sum(xs), |xs| as real, lo, hi);
  }

  /** A total between `lo * n` and `hi * n` averages to between `lo` and `hi`. */
  lemma AverageBounds(sum: real, n: real, lo: real, hi: real)
    requires n > 0.0 && lo * n <= sum <= hi * n
    ensures lo <= sum / n <= hi
  {
    ScaleDown(lo * n, sum, n);
    ScaleDown(sum, hi * n, n);
    Cancel(lo, n);
    Cancel(hi, n);
  }

  lemma ScaleDown(a: real, b: real, n: real)
    requires n > 0.0
    ensures (a <= b) == (a / n <= b / n)
  {
  }

  lemma Cancel(a: real, n: real)
    requires n > 0.0
    ensures a * n / n == a
  {
  }

  /** One row of the change table, with its index (`country`, `group`,
      `year`) and its columns `Period`, `Event`, pre and post means. */
  datatype ChangeRow = ChangeRow(country: string, group: string, year: Value,
                                 period: string, event: Value,
                                 pre: Option<real>, post: Option<real>)

  /** The `% Change` column: `(post - pre) / pre * 100`, NaN when a mean is
      NaN or the pre mean is zero. */
  function PercentChange(pre: Option<real>, post: Option<real>): (r: Option<real>)
    ensures r.Some? <==> pre.Some? && post.Some? && pre.value != 0.0
  {
    if pre.Some? && post.Some? && pre.value != 0.0 then
      Some((post.value - pre.value) / pre.value * 100.0)
    else None
  }

  /** The change is the relative step from pre to post: applying it to the
      pre mean gives back the post mean. */
  lemma PercentChangeInverse(pre: real, post: real)
    requires pre != 0.0
    ensures pre * (1.0 + PercentChange(Some(pre), Some(post)).value / 100.0) == post
  {
    var d := post - pre;
    assert (d / pre * 100.0) / 100.0 == d / pre;
    assert pre * (d / pre) == d;
  }

  /** What one country's loops read: its rows sorted by period, the
      positions of `Period`, `Event` and `Year`, the recorded event periods
      and events, and the category and attribute lists. */
  datatype Scope = Scope(t: Table, rows: seq<Row>, pi: nat, ei: nat, yi: nat, country: string,
                         levelTwo: seq<string>, calcAttrs: seq<string>,
                         periods: seq<string>, events: seq<Value>)

  predicate ScopeOk(s: Scope) {
    && WellFormed(s.t) && Fit(s.rows, s.pi, |s.t.columns|)
    && s.ei < |s.t.columns| && s.yi < |s.t.columns| && |s.periods| == |s.events|
  }

  /** `zip(level_two, calc_attrs)` stops at the shorter list. */
  function Pairs(s: Scope): nat {
    if |s.levelTwo| <= |s.calcAttrs| then |s.levelTwo| else |s.calcAttrs|
  }

  lemma FitColumn(rows: seq<Row>, pi: nat, w: nat, j: nat)
    requires Fit(rows, pi, w) && j < w
    ensures HasColumn(rows, j)
  {
  }

  /** The innermost body for pair `k`: a KeyError when the attribute is not
      a column, then the pre mean and the post mean. */
  function PairRow(s: Scope, q: string, win: Window, event: Value, year: Value, k: nat): (r: Result<ChangeRow>)
    requires ScopeOk(s) && k < Pairs(s)
    ensures r.Ok? ==> r.value.country == s.country && r.value.group == s.levelTwo[k]
    ensures r.Ok? ==> r.value.period == q && r.value.event == event && r.value.year == year
  {
    var col := s.calcAttrs[k];
    var j :- Column(s.t, col);
    var w := |s.t.columns|;
    var before := PreRows(s.rows, s.pi, w, q, win);
    var after := PostRows(s.rows, s.pi, w, q, win);
    FitColumn(before, s.pi, w, j);
    FitColumn(after, s.pi, w, j);
    var pre :- Mean(Cells(before, j), col);
    var post :- Mean(Cells(after, j), col);
    Ok(ChangeRow(s.country, s.levelTwo[k], year, q, event, pre, post))
  }

  /** The row fields every change row of a period shares. */
  predicate RowOf(s: Scope, q: string, x: ChangeRow) {
    x.country == s.country && x.group in s.levelTwo && x.period == q
  }

  /** Pair `k`'s row as one step of the pair loop. */
  function Single(r: Result<ChangeRow>): (x: Result<seq<ChangeRow>>)
    ensures x.Ok? <==> r.Ok?
    ensures x.Ok? ==> x.value == [r.value]
    ensures x.Err? ==> x.error == r.error
  {
    if r.Ok? then Ok([r.value]) else Err(r.error)
  }

  /** The steps of `for group_type, col in zip(level_two, calc_attrs)`. */
  function PairSteps(s: Scope, q: string, win: Window, event: Value, year: Value): (xs: seq<Result<seq<ChangeRow>>>)
    requires ScopeOk(s)
    ensures |xs| == Pairs(s)
    ensures forall k :: 0 <= k < Pairs(s) ==> xs[k] == Single(PairRow(s, q, win, event, year, k))
  {
    seq(Pairs(s), k requires 0 <= k < Pairs(s) => Single(PairRow(s, q, win, event, year, k)))
  }

  /** The pair loop for one row of the period's frame. */
  function PairRows(s: Scope, q: string, win: Window, event: Value, year: Value): Result<seq<ChangeRow>>
    requires ScopeOk(s)
  {
    Gather(PairSteps(s, q, win, event, year))
  }

  /** The steps of `for event, year in zip(spec_events, years)`: one pair
      loop per row of the frame, with that row's event and year. */
  function FrameSteps(s: Scope, q: string, win: Window, frame: seq<Row>): (xs: seq<Result<seq<ChangeRow>>>)
    requires ScopeOk(s) && Fit(frame, s.pi, |s.t.columns|)
    ensures |xs| == |frame|
    ensures forall f :: 0 <= f < |frame| ==>
      (frame[f] in frame && xs[f] == PairRows(s, q, win, frame[f][s.ei], frame[f][s.yi]))
  {
    seq(|frame|, f requires 0 <= f < |frame| =>
      assert frame[f] in frame; PairRows(s, q, win, frame[f][s.ei], frame[f][s.yi]))
  }

  /** The event loop of one period. */
  function FrameRows(s: Scope, q: string, win: Window, frame: seq<Row>): Result<seq<ChangeRow>>
    requires ScopeOk(s) && Fit(frame, s.pi, |s.t.columns|)
  {
    Gather(FrameSteps(s, q, win, frame))
  }

  /** `tmp_df.loc[tmp_df['Period'] == period]`. */
  function Frame(s: Scope, q: string): (r: seq<Row>)
    requires ScopeOk(s)
    ensures Fit(r, s.pi, |s.t.columns|)
  {
    FrameOf(s.rows, s.pi, |s.t.columns|, q)
  }

  /** The body for period `q`: the windows, from the first listing of the
      frame's last and first events, then the event loop. An empty frame
      runs no iteration and raises nothing. */
  function PeriodRows(s: Scope, q: string): Result<seq<ChangeRow>>
    requires ScopeOk(s)
  {
    var frame := Frame(s, q);
    if |frame| == 0 then Ok([])
    else
      assert frame[|frame| - 1] in frame && frame[0] in frame;
      var win :- WindowOf(s.periods, s.events, frame[|frame| - 1][s.ei], frame[0][s.ei]);
      FrameRows(s, q, win, frame)
  }

  /** The steps of `for period in set_of_periods`. */
  function PeriodSteps(s: Scope, qs: seq<string>): (xs: seq<Result<seq<ChangeRow>>>)
    requires ScopeOk(s)
    ensures |xs| == |qs|
    ensures forall m :: 0 <= m < |qs| ==> xs[m] == PeriodRows(s, qs[m])
  {
    seq(|qs|, m requires 0 <= m < |qs| => PeriodRows(s, qs[m]))
  }

  /** The change rows of one country, in loop order. */
  function PeriodsRows(s: Scope, qs: seq<string>): Result<seq<ChangeRow>>
    requires ScopeOk(s)
  {
    Gather(PeriodSteps(s, qs))
  }

  /** `for group_type, col in zip(level_two, calc_attrs)`: one change row
      per pair, appended in pair order; the first failing pair's error
      ends the loop. */
  method PairLoop(s: Scope, q: string, win: Window, event: Value, year: Value) returns (r: Result<seq<ChangeRow>>)
    requires ScopeOk(s)
    ensures r == PairRows(s, q, win, event, year)
  {
    ghost var xs := PairSteps(s, q, win, event, year);
    var acc: seq<ChangeRow> := [];
    for k := 0 to Pairs(s)
      invariant Gather(xs[..k]) == Ok(acc)
    {
      var row := PairRow(s, q, win, event, year, k);
      if row.Err? {
        GatherRaise(xs, k);
        return Err(row.error);
      }
      GatherNext(xs, k, acc);
      acc := acc + [row.value];
    }
    assert xs[..Pairs(s)] == xs;
    return Ok(acc);
  }

  /** `for event, year in zip(spec_events, years)`: the pair loop of each
      frame row, with that row's event and year, in frame order. */
  method FrameLoop(s: Scope, q: string, win: Window, frame: seq<Row>) returns (r: Result<seq<ChangeRow>>)
    requires ScopeOk(s) && Fit(frame, s.pi, |s.t.columns|)
    ensures r == FrameRows(s, q, win, frame)
  {
    ghost var xs := FrameSteps(s, q, win, frame);
    var acc: seq<ChangeRow> := [];
    for f := 0 to |frame|
      invariant Gather(xs[..f]) == Ok(acc)
    {
      assert frame[f] in frame;
      var rows := PairLoop(s, q, win, frame[f][s.ei], frame[f][s.yi]);
      if rows.Err? {
        GatherRaise(xs, f);
        return Err(rows.error);
      }
      GatherNext(xs, f, acc);
      acc := acc + rows.value;
    }
    assert xs[..|frame|] == xs;
    return Ok(acc);
  }

  /** The body of `for period in set_of_periods`: the period's frame, its
      windows when the frame has a row, and the event loop. */
  method PeriodBody(s: Scope, q: string) returns (r: Result<seq<ChangeRow>>)
    requires ScopeOk(s)
    ensures r == PeriodRows(s, q)
  {
    var frame := Frame(s, q);
    if |frame| == 0 {
      return Ok([]);
    }
    assert frame[|frame| - 1] in frame && frame[0] in frame;
    var win := WindowOf(s.periods, s.events, frame[|frame| - 1][s.ei], frame[0][s.ei]);
    if win.Err? {
      return Err(win.error);
    }
    r := FrameLoop(s, q, win.value, frame);
  }

  /** `for period in set_of_periods`: each period's rows, in period order. */
  method PeriodLoop(s: Scope, qs: seq<string>) returns (r: Result<seq<ChangeRow>>)
    requires ScopeOk(s)
    ensures r == PeriodsRows(s, qs)
  {
    ghost var xs := PeriodSteps(s, qs);
    var acc: seq<ChangeRow> := [];
    for m := 0 to |qs|
      invariant Gather(xs[..m]) == Ok(acc)
    {
      var rows := PeriodBody(s, qs[m]);
      if rows.Err? {
        GatherRaise(xs, m);
        return Err(rows.error);
      }
      GatherNext(xs, m, acc);
      acc := acc + rows.value;
    }
    assert xs[..|qs|] == xs;
    return Ok(acc);
  }

  /** The pair loop succeeds exactly when every pair's row does; it then
      holds one row per pair, in pair order. */
  lemma PairRowsShape(s: Scope, q: string, win: Window, event: Value, year: Value)
    requires ScopeOk(s)
    ensures PairRows(s, q, win, event, year).Ok? <==>
      forall k :: 0 <= k < Pairs(s) ==> PairRow(s, q, win, event, year, k).Ok?
    ensures PairRows(s, q, win, event, year).Ok? ==>
      && |PairRows(s, q, win, event, year).value| == Pairs(s)
      && forall k :: 0 <= k < Pairs(s) ==>
           PairRows(s, q, win, event, year).value[k] == PairRow(s, q, win, event, year, k).value
  {
    var xs := PairSteps(s, q, win, event, year);
    GatherOk(xs);
    if Gather(xs).Ok? {
      SizeUniform(xs, 1);
      GatherSize(xs);
      forall k | 0 <= k < Pairs(s)
        ensures Gather(xs).value[k] == PairRow(s, q, win, event, year, k).value
      {
        SizeUniform(xs[..k], 1);
        GatherAt(xs, k, 0);
      }
    }
  }

  /** The event loop succeeds exactly when each frame row's pair loop
      does, and then holds `Pairs(s)` rows per frame row. */
  lemma FrameRowsCount(s: Scope, q: string, win: Window, frame: seq<Row>)
    requires ScopeOk(s) && Fit(frame, s.pi, |s.t.columns|)
    ensures FrameRows(s, q, win, frame).Ok? <==>
      forall f :: 0 <= f < |frame| ==>
        (frame[f] in frame && PairRows(s, q, win, frame[f][s.ei], frame[f][s.yi]).Ok?)
    ensures FrameRows(s, q, win, frame).Ok? ==> |FrameRows(s, q, win, frame).value| == |frame| * Pairs(s)
  {
    var xs := FrameSteps(s, q, win, frame);
    GatherOk(xs);
    if Gather(xs).Ok? {
      forall f | 0 <= f < |frame| ensures xs[f].Ok? && |xs[f].value| == Pairs(s) {
        assert frame[f] in frame;
        PairRowsShape(s, q, win, frame[f][s.ei], frame[f][s.yi]);
      }
      SizeUniform(xs, Pairs(s));
      GatherSize(xs);
    }
  }

  /** Position `Slot(f, k, Pairs(s))` of the event loop holds frame row `f`'s
      change row for pair `k`, with that row's event and year. */
  lemma FrameRowsAt(s: Scope, q: string, win: Window, frame: seq<Row>, f: nat, k: nat)
    requires ScopeOk(s) && Fit(frame, s.pi, |s.t.columns|) && FrameRows(s, q, win, frame).Ok?
    requires f < |frame| && k < Pairs(s)
    ensures frame[f] in frame && PairRow(s, q, win, frame[f][s.ei], frame[f][s.yi], k).Ok?
    ensures var i, rows := Slot(f, k, Pairs(s)), FrameRows(s, q, win, frame).value;
      i < |rows| && rows[i] == PairRow(s, q, win, frame[f][s.ei], frame[f][s.yi], k).value
  {
    assert frame[f] in frame;
    var xs := FrameSteps(s, q, win, frame);
    forall i | 0 <= i < |frame| ensures xs[i].Ok? && |xs[i].value| == Pairs(s) {
      FrameRowsCount(s, q, win, frame);
      assert frame[i] in frame;
      PairRowsShape(s, q, win, frame[i][s.ei], frame[i][s.yi]);
    }
    GatherUniformAt(xs, Pairs(s), f, k);
    PairRowsShape(s, q, win, frame[f][s.ei], frame[f][s.yi]);
  }

  /** A period yields one change row per frame row and pair. */
  lemma PeriodRowsCount(s: Scope, q: string)
    requires ScopeOk(s) && PeriodRows(s, q).Ok?
    ensures |PeriodRows(s, q).value| == |Frame(s, q)| * Pairs(s)
  {
    var frame := Frame(s, q);
    if |frame| > 0 {
      assert frame[|frame| - 1] in frame && frame[0] in frame;
      var win := WindowOf(s.periods, s.events, frame[|frame| - 1][s.ei], frame[0][s.ei]).value;
      FrameRowsCount(s, q, win, frame);
    }
  }

  /** Every row of a period carries the country, one of the categories and
      the period. */
  lemma PeriodRowsMember(s: Scope, q: string, x: ChangeRow)
    requires ScopeOk(s) && PeriodRows(s, q).Ok? && x in PeriodRows(s, q).value
    ensures RowOf(s, q, x)
  {
    var frame := Frame(s, q);
    assert frame[|frame| - 1] in frame && frame[0] in frame;
    var win := WindowOf(s.periods, s.events, frame[|frame| - 1][s.ei], frame[0][s.ei]).value;
    var f := GatherMember(FrameSteps(s, q, win, frame), x);
    assert frame[f] in frame;
    var k := GatherMember(PairSteps(s, q, win, frame[f][s.ei], frame[f][s.yi]), x);
  }

  /** The number of frame rows of each period. */
  function FrameSizes(s: Scope, qs: seq<string>): (ns: seq<nat>)
    requires ScopeOk(s)
    ensures |ns| == |qs| && forall m :: 0 <= m < |qs| ==> ns[m] == |Frame(s, qs[m])|
  {
    seq(|qs|, m requires 0 <= m < |qs| => |Frame(s, qs[m])|)
  }

  /** A country's rows number its periods' frame sizes times the pairs. */
  lemma PeriodsRowsCount(s: Scope, qs: seq<string>)
    requires ScopeOk(s) && PeriodsRows(s, qs).Ok?
    ensures |PeriodsRows(s, qs).value| == Total(FrameSizes(s, qs)) * Pairs(s)
  {
    var xs := PeriodSteps(s, qs);
    var ns := FrameSizes(s, qs);
    GatherOk(xs);
    forall m | 0 <= m < |qs| ensures xs[m].Ok? && |xs[m].value| == ns[m] * Pairs(s) {
      PeriodRowsCount(s, qs[m]);
    }
    SizeScaled(xs, ns, Pairs(s));
    GatherSize(xs);
  }

  /** Every row of a country comes from one of its periods. */
  lemma PeriodsRowsMember(s: Scope, qs: seq<string>, x: ChangeRow) returns (m: nat)
    requires ScopeOk(s) && PeriodsRows(s, qs).Ok? && x in PeriodsRows(s, qs).value
    ensures m < |qs| && RowOf(s, qs[m], x)
  {
    m := GatherMember(PeriodSteps(s, qs), x);
    PeriodRowsMember(s, qs[m], x);
  }

  /** The mean over a column of some rows is defined exactly when none of
      their cells there is a string. */
  lemma MeanOfRowsOk(rows: seq<Row>, j: nat, col: string)
    requires HasColumn(rows, j)
    ensures Mean(Cells(rows, j), col).Ok? <==> forall r: Row | r in rows :: !r[j].Str?
  {
    var cells := Cells(rows, j);
    if forall i :: 0 <= i < |cells| ==> !cells[i].Str? {
      forall r: Row | r in rows ensures !r[j].Str? {
        var i :| 0 <= i < |rows| && rows[i] == r;
        assert cells[i] == r[j];
      }
    } else {
      var i :| 0 <= i < |cells| && cells[i].Str?;
      assert rows[i] in rows;
    }
  }

  /** A pair's row exists exactly when its attribute is a column and no row
      in either window holds a string there. */
  lemma PairRowOk(s: Scope, q: string, win: Window, event: Value, year: Value, k: nat)
    requires ScopeOk(s) && k < Pairs(s)
    ensures PairRow(s, q, win, event, year, k).Ok? <==>
      && s.calcAttrs[k] in s.t.columns
      && forall r: Row | r in s.rows && (InPre(r[s.pi].s, q, win) || InPost(r[s.pi].s, q, win)) ::
           !r[IndexOf(s.t.columns, s.calcAttrs[k]).value].Str?
  {
    var w := |s.t.columns|;
    if s.calcAttrs[k] in s.t.columns {
      var col := s.calcAttrs[k];
      var j := IndexOf(s.t.columns, col).value;
      var before, after := PreRows(s.rows, s.pi, w, q, win), PostRows(s.rows, s.pi, w, q, win);
      FitColumn(before, s.pi, w, j);
      FitColumn(after, s.pi, w, j);
      MeanOfRowsOk(before, j, col);
      MeanOfRowsOk(after, j, col);
      forall r: Row
        ensures r in before <==> r in s.rows && InPre(r[s.pi].s, q, win)
        ensures r in after <==> r in s.rows && InPost(r[s.pi].s, q, win)
      {
        PreRowsMembers(s.rows, s.pi, w, q, win, r);
        PostRowsMembers(s.rows, s.pi, w, q, win, r);
      }
    }
  }

  /** A defined mean over a column is NaN exactly when no cell there is a
      number. */
  lemma MeanOfRowsNone(rows: seq<Row>, j: nat, col: string)
    requires HasColumn(rows, j) && Mean(Cells(rows, j), col).Ok?
    ensures Mean(Cells(rows, j), col).value.None? <==> forall r: Row | r in rows :: !r[j].Num?
  {
    var cells := Cells(rows, j);
    if forall i :: 0 <= i < |cells| ==> !cells[i].Num? {
      forall r: Row | r in rows ensures !r[j].Num? {
        var i :| 0 <= i < |rows| && rows[i] == r;
        assert cells[i] == r[j];
      }
    } else {
      var i :| 0 <= i < |cells| && cells[i].Num?;
      assert rows[i] in rows;
    }
  }

  /** A pair's pre mean is NaN exactly when no row of the pre-window has a
      number in the attribute's column, and likewise the post mean. */
  lemma PairRowMeans(s: Scope, q: string, win: Window, event: Value, year: Value, k: nat) returns (j: nat)
    requires ScopeOk(s) && k < Pairs(s) && PairRow(s, q, win, event, year, k).Ok?
    ensures IndexOf(s.t.columns, s.calcAttrs[k]) == Some(j) && j < |s.t.columns|
    ensures var x := PairRow(s, q, win, event, year, k).value;
      && (x.pre.None? <==> forall r: Row | r in s.rows && InPre(r[s.pi].s, q, win) :: !r[j].Num?)
      && (x.post.None? <==> forall r: Row | r in s.rows && InPost(r[s.pi].s, q, win) :: !r[j].Num?)
  {
    var w := |s.t.columns|;
    var col := s.calcAttrs[k];
    j := IndexOf(s.t.columns, col).value;
    var before, after := PreRows(s.rows, s.pi, w, q, win), PostRows(s.rows, s.pi, w, q, win);
    FitColumn(before, s.pi, w, j);
    FitColumn(after, s.pi, w, j);
    MeanOfRowsNone(before, j, col);
    MeanOfRowsNone(after, j, col);
    forall r: Row
      ensures r in before <==> r in s.rows && InPre(r[s.pi].s, q, win)
      ensures r in after <==> r in s.rows && InPost(r[s.pi].s, q, win)
    {
      PreRowsMembers(s.rows, s.pi, w, q, win, r);
      PostRowsMembers(s.rows, s.pi, w, q, win, r);
    }
  }
  /** A defined mean over a column of some rows lies within any bounds that
      hold for every number the rows hold there. */
  lemma MeanOfRowsBounds(rows: seq<Row>, j: nat, col: string, lo: real, hi: real)
    requires HasColumn(rows, j) && Mean(Cells(rows, j), col).Ok? && Mean(Cells(rows, j), col).value.Some?
    requires forall r: Row | r in rows && r[j].Num? :: lo <= r[j].x <= hi
    ensures lo <= Mean(Cells(rows, j), col).value.value <= hi
  {
    var cells := Cells(rows, j);
    forall i | 0 <= i < |cells| && cells[i].Num? ensures lo <= cells[i].x <= hi {
      assert cells[i] == rows[i][j] && rows[i] in rows;
    }
    MeanBounds(cells, col, lo, hi);
  }

  /** A pair's pre mean comes from the pre-window rows: it lies within any
      bounds that hold for the numbers those rows hold in the attribute's
      column. */
  lemma PreMeanBounds(s: Scope, q: string, win: Window, event: Value, year: Value, k: nat, j: nat, lo: real, hi: real)
    requires ScopeOk(s) && k < Pairs(s) && PairRow(s, q, win, event, year, k).Ok?
    requires IndexOf(s.t.columns, s.calcAttrs[k]) == Some(j)
    requires PairRow(s, q, win, event, year, k).value.pre.Some?
    requires forall r: Row | r in s.rows && InPre(r[s.pi].s, q, win) && r[j].Num? :: lo <= r[j].x <= hi
    ensures lo <= PairRow(s, q, win, event, year, k).value.pre.value <= hi
  {
    var w := |s.t.columns|;
    var before := PreRows(s.rows, s.pi, w, q, win);
    FitColumn(before, s.pi, w, j);
    forall r: Row | r in before && r[j].Num? ensures lo <= r[j].x <= hi {
      PreRowsMembers(s.rows, s.pi, w, q, win, r);
    }
    MeanOfRowsBounds(before, j, s.calcAttrs[k], lo, hi);
  }

  /** A pair's post mean comes from the post-window rows, in the same way. */
  lemma PostMeanBounds(s: Scope, q: string, win: Window, event: Value, year: Value, k: nat, j: nat, lo: real, hi: real)
    requires ScopeOk(s) && k < Pairs(s) && PairRow(s, q, win, event, year, k).Ok?
    requires IndexOf(s.t.columns, s.calcAttrs[k]) == Some(j)
    requires PairRow(s, q, win, event, year, k).value.post.Some?
    requires forall r: Row | r in s.rows && InPost(r[s.pi].s, q, win) && r[j].Num? :: lo <= r[j].x <= hi
    ensures lo <= PairRow(s, q, win, event, year, k).value.post.value <= hi
  {
    var w := |s.t.columns|;
    var after := PostRows(s.rows, s.pi, w, q, win);
    FitColumn(after, s.pi, w, j);
    forall r: Row | r in after && r[j].Num? ensures lo <= r[j].x <= hi {
      PostRowsMembers(s.rows, s.pi, w, q, win, r);
    }
    MeanOfRowsBounds(after, j, s.calcAttrs[k], lo, hi);
  }
}
