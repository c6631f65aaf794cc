/** The event windows of `calculate_percent_change`: the rows of one
    country, sorted by period, and the periods before and after an event. */
module Windows {
  import opened Tables
  import opened Ordering
  import opened Events

  const CountryCol := "Country"

  /** Python's `sub in s` on strings: `sub` occurs in `s` at some offset. */
  predicate Contains(s: string, sub: string)
    decreases |s|
  {
    sub <= s || (|s| > 0 && Contains(s[1..], sub))
  }

  lemma {:induction false} ContainsAt(s: string, sub: string) returns (i: nat)
    requires Contains(s, sub)
    ensures i + |sub| <= |s| && s[i..i + |sub|] == sub
    decreases |s|
  {
    if sub <= s {
      i := 0;
    } else {
      var j := ContainsAt(s[1..], sub);
      i := j + 1;
      assert s[1..][j..j + |sub|] == s[i..i + |sub|];
    }
  }

  lemma {:induction false} ContainsFrom(s: string, sub: string, i: nat)
    requires i + |sub| <= |s| && s[i..i + |sub|] == sub
    ensures Contains(s, sub)
    decreases i
  {
    if i == 0 {
      assert s[..|sub|] == sub;
    } else {
      assert s[1..][i - 1..i - 1 + |sub|] == s[i..i + |sub|];
      ContainsFrom(s[1..], sub, i - 1);
    }
  }

  /** `sub` occurs in `s` at offset `i`. */
  predicate OccursAt(s: string, sub: string, i: nat) {
    i + |sub| <= |s| && s[i..i + |sub|] == sub
  }

  /** `Contains` is the substring relation. */
  lemma ContainsIff(s: string, sub: string)
    ensures Contains(s, sub) <==> exists i: nat :: OccursAt(s, sub, i)
  {
    if Contains(s, sub) {
      var i := ContainsAt(s, sub);
      assert OccursAt(s, sub, i);
    }
    if exists i: nat :: OccursAt(s, sub, i) {
      var i: nat :| OccursAt(s, sub, i);
      ContainsFrom(s, sub, i);
    }
  }

  /** `df['Country'].str.contains(c)` as a row mask: a KeyError without a
      `Country` column, and an error when a country cell is not a string
      (the mask would hold NaN); the pattern is read as plain text. */
  function CountryMask(rows: seq<Row>, ci: nat, c: string): (r: Result<seq<bool>>)
    requires HasColumn(rows, ci)
    ensures r.Ok? <==> forall p :: 0 <= p < |rows| ==> rows[p][ci].Str?
    ensures r.Err? ==> r.error == NonStringCell(CountryCol)
    ensures r.Ok? ==> |r.value| == |rows|
    ensures r.Ok? ==> forall p :: 0 <= p < |rows| ==> (r.value[p] <==> Contains(rows[p][ci].s, c))
    decreases |rows|
  {
    if |rows| == 0 then Ok([])
    else
      var n := |rows| - 1;
      assert rows[n] in rows;
      assert forall r | r in rows[..n] :: r in rows;
      var prev :- CountryMask(rows[..n], ci, c);
      if rows[n][ci].Str? then Ok(prev + [Contains(rows[n][ci].s, c)])
      else Err(NonStringCell(CountryCol))
  }

  /** Every row has cells at all four positions and a string period. */
  predicate Fit(rows: seq<Row>, pi: nat, w: nat) {
    forall r: Row | r in rows :: |r| == w && pi < w && r[pi].Str?
  }

  lemma FilterFit(rows: seq<Row>, keep: seq<bool>, pi: nat, w: nat)
    requires |rows| == |keep| && Fit(rows, pi, w)
    ensures Fit(Filter(rows, keep), pi, w)
  {
    forall r: Row | r in Filter(rows, keep) ensures |r| == w && pi < w && r[pi].Str? {
      FilterMember(rows, keep, r);
    }
  }

  /** Rows ordered by their period string. */
  function PeriodLess(pi: nat): (less: (Row, Row) -> bool) {
    (a: Row, b: Row) => pi < |a| && pi < |b| && a[pi].Str? && b[pi].Str? && StrLess(a[pi].s, b[pi].s)
  }

  lemma PeriodLessStrict(pi: nat)
    ensures StrictOrder(PeriodLess(pi))
  {
    var less := PeriodLess(pi);
    forall a: Row ensures !less(a, a) {
      if pi < |a| && a[pi].Str? {
        StrLessIrreflexive(a[pi].s);
      }
    }
    forall a: Row, b: Row, c: Row | less(a, b) && less(b, c) ensures less(a, c) {
      StrLessTransitive(a[pi].s, b[pi].s, c[pi].s);
    }
  }

  /** A period cell that is not a string. */
  predicate PeriodsAreText(rows: seq<Row>, pi: nat)
    requires HasColumn(rows, pi)
  {
    forall r: Row | r in rows :: r[pi].Str?
  }

  /** `tmp_df.sort_values('Period')`: ascending by period. A non-string
      period, which Python cannot order against a string, is an error here. */
  function SortByPeriod(rows: seq<Row>, pi: nat, w: nat): (r: Result<seq<Row>>)
    requires forall row | row in rows :: |row| == w && pi < w
    ensures r.Ok? <==> PeriodsAreText(rows, pi)
    ensures r.Err? ==> r.error == NonStringCell(PeriodCol)
    ensures r.Ok? ==> Fit(r.value, pi, w)
  {
    if PeriodsAreText(rows, pi) then
      var sorted := SortBy(rows, PeriodLess(pi));
      SortByPermutation(rows, PeriodLess(pi));
      assert forall row | row in sorted :: row in multiset(rows);
      Ok(sorted)
    else Err(NonStringCell(PeriodCol))
  }

  lemma SortByPeriodSorted(rows: seq<Row>, pi: nat, w: nat)
    requires forall row | row in rows :: |row| == w && pi < w
    requires PeriodsAreText(rows, pi)
    ensures var s := SortByPeriod(rows, pi, w).value;
      forall i, j :: 0 <= i < j < |s| ==> !StrLess(s[j][pi].s, s[i][pi].s)
  {
    PeriodLessStrict(pi);
    SortBySorted(rows, PeriodLess(pi));
  }

  /** Sorting by period only reorders the rows. */
  lemma SortByPeriodPermutation(rows: seq<Row>, pi: nat, w: nat)
    requires forall row | row in rows :: |row| == w && pi < w
    requires PeriodsAreText(rows, pi)
    ensures multiset(SortByPeriod(rows, pi, w).value) == multiset(rows)
  {
    SortByPermutation(rows, PeriodLess(pi));
  }

  /** The period strings of a list of cells that are all strings. */
  function Texts(vs: seq<Value>): (r: seq<string>)
    requires forall v | v in vs :: v.Str?
    ensures |r| == |vs| && forall i :: 0 <= i < |vs| ==> Str(r[i]) == vs[i]
  {
    assert forall i :: 0 <= i < |vs| ==> vs[i] in vs;
    seq(|vs|, i requires 0 <= i < |vs| => vs[i].s)
  }

  /** `sorted(set(periods))`: the distinct periods, ascending. */
  function DistinctSorted(ps: seq<string>): (r: seq<string>)
    ensures forall x :: x in r <==> x in ps
  {
    var d := Dedup(ps);
    var r := SortBy(d, (a: string, b: string) => StrLess(a, b));
    SortByPermutation(d, (a: string, b: string) => StrLess(a, b));
    assert forall x :: x in r <==> x in multiset(d);
    r
  }

  /** The distinct periods come out strictly ascending. */
  lemma DistinctSortedIncreasing(ps: seq<string>)
    ensures StrictlyIncreasing(DistinctSorted(ps))
  {
    var less := (a: string, b: string) => StrLess(a, b);
    var d := Dedup(ps);
    var r := SortBy(d, less);
    assert StrictOrder(less) by {
      forall a: string ensures !less(a, a) {
        StrLessIrreflexive(a);
      }
      forall a: string, b: string, c: string | less(a, b) && less(b, c) ensures less(a, c) {
        StrLessTransitive(a, b, c);
      }
    }
    SortBySorted(d, less);
    SortByPermutation(d, less);
    MultisetNoDuplicates(d, r);
    forall i, j | 0 <= i < j < |r| ensures StrLess(r[i], r[j]) {
      assert !StrLess(r[j], r[i]);
      StrLessTotal(r[i], r[j]);
    }
  }

  /** A permutation of a sequence without duplicates has none. */
  lemma MultisetNoDuplicates<T>(a: seq<T>, b: seq<T>)
    requires NoDuplicates(a) && multiset(a) == multiset(b)
    ensures NoDuplicates(b)
  {
    forall x | x in multiset(a) ensures multiset(a)[x] == 1 {
      DistinctCount(a, x);
    }
    forall i, j | 0 <= i < j < |b| ensures b[i] != b[j] {
      TwoPositions(b, i, j);
      assert b[i] in multiset(a);
    }
  }

  /** Two positions holding the same element count it twice. */
  lemma TwoPositions<T>(b: seq<T>, i: nat, j: nat)
    requires i < j < |b|
    ensures multiset(b)[b[i]] >= if b[i] == b[j] then 2 else 1
  {
    assert b == b[..j] + [b[j]] + b[j + 1..];
    assert b[i] in b[..j];
  }

  lemma {:induction false} DistinctCount<T>(a: seq<T>, x: T)
    requires NoDuplicates(a) && x in a
    ensures multiset(a)[x] == 1
    decreases |a|
  {
    var n := |a| - 1;
    assert a == a[..n] + [a[n]];
    if a[n] == x {
      assert x !in a[..n];
    } else {
      DistinctCount(a[..n], x);
    }
  }

  /** The period bounds of an event's windows. */
  datatype Window = Window(lower: Option<string>, upper: Option<string>)

  /** The window bounds: the post-window is bounded by the period after the
      first listing of the period's last event, when there is one; the
      pre-window by the period before the first listing of its first event,
      but only from the third position on (`index - 1 > 0`). An event that is
      not listed raises, the last one first. */
  function WindowOf(periods: seq<string>, events: seq<Value>, last: Value, first: Value): (r: Result<Window>)
    requires |periods| == |events|
    ensures r.Ok? <==> last in events && first in events
    ensures r.Err? ==> r.error == EventNotListed
  {
    var li :- (match IndexOf(events, last) case None => Err(EventNotListed) case Some(i) => Ok(i));
    var upper := if li + 1 < |events| then Some(periods[li + 1]) else None;
    var fi :- (match IndexOf(events, first) case None => Err(EventNotListed) case Some(i) => Ok(i));
    var lower := if (fi as int) - 1 > 0 then Some(periods[fi - 1]) else None;
    Ok(Window(lower, upper))
  }

  /** The bounds exist exactly when the positions say so, and name the
      neighbouring periods. */
  lemma WindowBounds(periods: seq<string>, events: seq<Value>, last: Value, first: Value)
    requires |periods| == |events| && last in events && first in events
    ensures var li, fi := IndexOf(events, last).value, IndexOf(events, first).value;
      var w := WindowOf(periods, events, last, first).value;
      && (w.upper.Some? <==> li + 1 < |events|)
      && (w.upper.Some? ==> w.upper.value == periods[li + 1])
      && (w.lower.Some? <==> fi >= 2)
      && (w.lower.Some? ==> w.lower.value == periods[fi - 1])
  {
  }

  /** The second listed event's pre-window has no lower bound, although
      the first event has a period before it. */
  lemma SecondEventUnbounded(periods: seq<string>, events: seq<Value>, last: Value)
    requires |periods| == |events| >= 2 && last in events && events[0] != events[1]
    ensures WindowOf(periods, events, last, events[1]).value.lower == None
  {
    assert IndexOf(events, events[1]) == Some(1);
  }

  /** Period `s` lies in the pre-window of period `q`. */
  predicate InPre(s: string, q: string, w: Window) {
    StrLess(s, q) && (w.lower.Some? ==> StrLess(w.lower.value, s))
  }

  /** Period `s` lies in the post-window of period `q`. */
  predicate InPost(s: string, q: string, w: Window) {
    StrLess(q, s) && (w.upper.Some? ==> StrLess(s, w.upper.value))
  }

  /** `pre_filter` and `post_filter` as row masks. */
  function PreMask(rows: seq<Row>, pi: nat, w: nat, q: string, win: Window): (keep: seq<bool>)
    requires Fit(rows, pi, w)
    ensures |keep| == |rows|
    ensures forall p :: 0 <= p < |rows| ==> (keep[p] <==> InPre(rows[p][pi].s, q, win))
  {
    seq(|rows|, p requires 0 <= p < |rows| => assert rows[p] in rows; InPre(rows[p][pi].s, q, win))
  }

  function PostMask(rows: seq<Row>, pi: nat, w: nat, q: string, win: Window): (keep: seq<bool>)
    requires Fit(rows, pi, w)
    ensures |keep| == |rows|
    ensures forall p :: 0 <= p < |rows| ==> (keep[p] <==> InPost(rows[p][pi].s, q, win))
  {
    seq(|rows|, p requires 0 <= p < |rows| => assert rows[p] in rows; InPost(rows[p][pi].s, q, win))
  }

  /** `tmp_df.loc[pre_filter]` and `tmp_df.loc[post_filter]`. */
  function PreRows(rows: seq<Row>, pi: nat, w: nat, q: string, win: Window): (r: seq<Row>)
    requires Fit(rows, pi, w)
    ensures Fit(r, pi, w)
  {
    FilterFit(rows, PreMask(rows, pi, w, q, win), pi, w);
    Filter(rows, PreMask(rows, pi, w, q, win))
  }

  function PostRows(rows: seq<Row>, pi: nat, w: nat, q: string, win: Window): (r: seq<Row>)
    requires Fit(rows, pi, w)
    ensures Fit(r, pi, w)
  {
    FilterFit(rows, PostMask(rows, pi, w, q, win), pi, w);
    Filter(rows, PostMask(rows, pi, w, q, win))
  }

  /** The pre-window holds exactly the rows whose period is before `q`
      and, when bounded, after the lower bound. */
  lemma PreRowsMembers(rows: seq<Row>, pi: nat, w: nat, q: string, win: Window, r: Row)
    requires Fit(rows, pi, w)
    ensures r in PreRows(rows, pi, w, q, win) <==> r in rows && InPre(r[pi].s, q, win)
  {
    var keep := PreMask(rows, pi, w, q, win);
    FilterMember(rows, keep, r);
  }

  /** The post-window holds exactly the rows whose period is after `q`
      and, when bounded, before the upper bound. */
  lemma PostRowsMembers(rows: seq<Row>, pi: nat, w: nat, q: string, win: Window, r: Row)
    requires Fit(rows, pi, w)
    ensures r in PostRows(rows, pi, w, q, win) <==> r in rows && InPost(r[pi].s, q, win)
  {
    var keep := PostMask(rows, pi, w, q, win);
    FilterMember(rows, keep, r);
  }

  /** A row never lies in both windows of one period. */
  lemma WindowsDisjoint(rows: seq<Row>, pi: nat, w: nat, q: string, win: Window, r: Row)
    requires Fit(rows, pi, w)
    ensures !(r in PreRows(rows, pi, w, q, win) && r in PostRows(rows, pi, w, q, win))
  {
    PreRowsMembers(rows, pi, w, q, win, r);
    PostRowsMembers(rows, pi, w, q, win, r);
    if r in rows && StrLess(r[pi].s, q) && StrLess(q, r[pi].s) {
      StrLessAsymmetric(r[pi].s, q);
    }
  }

  /** `tmp_df.loc[tmp_df['Period'] == period]`. */
  function FrameMask(rows: seq<Row>, pi: nat, w: nat, q: string): (keep: seq<bool>)
    requires Fit(rows, pi, w)
    ensures |keep| == |rows|
    ensures forall p :: 0 <= p < |rows| ==> (keep[p] <==> rows[p][pi] == Str(q))
  {
    seq(|rows|, p requires 0 <= p < |rows| => assert rows[p] in rows; rows[p][pi] == Str(q))
  }

  function FrameOf(rows: seq<Row>, pi: nat, w: nat, q: string): (r: seq<Row>)
    requires Fit(rows, pi, w)
    ensures Fit(r, pi, w)
  {
    FilterFit(rows, FrameMask(rows, pi, w, q), pi, w);
    Filter(rows, FrameMask(rows, pi, w, q))
  }

  lemma FrameMembers(rows: seq<Row>, pi: nat, w: nat, q: string, r: Row)
    requires Fit(rows, pi, w)
    ensures r in FrameOf(rows, pi, w, q) <==> r in rows && r[pi] == Str(q)
  {
    FilterMember(rows, FrameMask(rows, pi, w, q), r);
  }
}
