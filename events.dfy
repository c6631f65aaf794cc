/** The event metadata of a table: the rows that name an event, and their
    period, event and year cells, in row order. */
module Events {
  import opened Tables

  const EventCol := "Event"
  const PeriodCol := "Period"
  const YearCol := "Year"

  /** Every row has a cell at position `j`. */
  predicate HasColumn(rows: seq<Row>, j: nat) {
    forall r | r in rows :: j < |r|
  }

  /** The cells at position `j`, in row order: `df[c].tolist()`. */
  function Cells(rows: seq<Row>, j: nat): (cells: seq<Value>)
    requires HasColumn(rows, j)
    ensures |cells| == |rows|
    ensures forall p :: 0 <= p < |rows| ==> cells[p] == rows[p][j]
  {
    seq(|rows|, p requires 0 <= p < |rows| => assert rows[p] in rows; rows[p][j])
  }

  lemma FilterHasColumn(rows: seq<Row>, keep: seq<bool>, j: nat)
    requires |rows| == |keep| && HasColumn(rows, j)
    ensures HasColumn(Filter(rows, keep), j)
  {
    forall r | r in Filter(rows, keep) ensures j < |r| {
      FilterMember(rows, keep, r);
    }
  }

  /** `df['Event'].notna()`. */
  function EventFlags(rows: seq<Row>, ei: nat): (keep: seq<bool>)
    requires HasColumn(rows, ei)
    ensures |keep| == |rows|
    ensures forall p :: 0 <= p < |rows| ==> (keep[p] <==> !rows[p][ei].Missing?)
  {
    seq(|rows|, p requires 0 <= p < |rows| => assert rows[p] in rows; !rows[p][ei].Missing?)
  }

  /** `df[df['Event'].notna()]`: the rows naming an event, in row order. */
  function EventRows(rows: seq<Row>, ei: nat): (r: seq<Row>)
    requires HasColumn(rows, ei)
    ensures forall j :: HasColumn(rows, j) ==> HasColumn(r, j)
  {
    var keep := EventFlags(rows, ei);
    forall j | HasColumn(rows, j) ensures HasColumn(Filter(rows, keep), j) {
      FilterHasColumn(rows, keep, j);
    }
    Filter(rows, keep)
  }

  /** The three lists `fetch_events_metadata` returns, position by position. */
  datatype Metadata = Metadata(periods: seq<Value>, events: seq<Value>, years: seq<Value>)

  /** `fetch_events_metadata(df)`: a KeyError for the first of `Event`,
      `Period`, `Year` that is missing, in the order the lookups happen;
      otherwise the period, event and year of every row whose event is
      present. */
  function FetchEventsMetadata(t: Table): (r: Result<Metadata>)
    requires WellFormed(t)
    ensures r.Err? <==> EventCol !in t.columns || PeriodCol !in t.columns || YearCol !in t.columns
    ensures r.Err? ==> r.error == MissingColumn(
      if EventCol !in t.columns then EventCol else if PeriodCol !in t.columns then PeriodCol else YearCol)
    ensures r.Ok? ==> |r.value.periods| == |r.value.events| == |r.value.years|
  {
    var ei :- Column(t, EventCol);
    var pi :- Column(t, PeriodCol);
    var yi :- Column(t, YearCol);
    assert HasColumn(t.rows, ei) && HasColumn(t.rows, pi) && HasColumn(t.rows, yi);
    var stats := EventRows(t.rows, ei);
    Ok(Metadata(Cells(stats, pi), Cells(stats, ei), Cells(stats, yi)))
  }

  /** The column positions `FetchEventsMetadata` reads. */
  lemma MetadataColumns(t: Table) returns (ei: nat, pi: nat, yi: nat)
    requires WellFormed(t) && FetchEventsMetadata(t).Ok?
    ensures IndexOf(t.columns, EventCol) == Some(ei) && IndexOf(t.columns, PeriodCol) == Some(pi)
    ensures IndexOf(t.columns, YearCol) == Some(yi)
    ensures HasColumn(t.rows, ei) && HasColumn(t.rows, pi) && HasColumn(t.rows, yi)
    ensures FetchEventsMetadata(t).value ==
      Metadata(Cells(EventRows(t.rows, ei), pi), Cells(EventRows(t.rows, ei), ei),
               Cells(EventRows(t.rows, ei), yi))
  {
    ei, pi, yi := IndexOf(t.columns, EventCol).value, IndexOf(t.columns, PeriodCol).value,
      IndexOf(t.columns, YearCol).value;
  }

  /** Entry `i` of the three lists comes from one row `p` whose event is
      present, and exactly `i` such rows precede `p`: the lists keep row
      order. */
  lemma MetadataSource(t: Table, i: nat) returns (p: nat)
    requires WellFormed(t) && FetchEventsMetadata(t).Ok?
    requires i < |FetchEventsMetadata(t).value.events|
    ensures p < |t.rows| && |t.rows[p]| == |t.columns|
    ensures var m := FetchEventsMetadata(t).value;
      && !t.rows[p][IndexOf(t.columns, EventCol).value].Missing?
      && m.events[i] == t.rows[p][IndexOf(t.columns, EventCol).value]
      && m.periods[i] == t.rows[p][IndexOf(t.columns, PeriodCol).value]
      && m.years[i] == t.rows[p][IndexOf(t.columns, YearCol).value]
    ensures var keep := EventFlags(t.rows, IndexOf(t.columns, EventCol).value);
      |Filter(t.rows[..p], keep[..p])| == i
  {
    var ei, pi, yi := MetadataColumns(t);
    var keep := EventFlags(t.rows, ei);
    p := FilterSource(t.rows, keep, i);
    assert t.rows[p] in t.rows;
  }

  /** Every row whose event is present contributes its entry. */
  lemma MetadataHas(t: Table, p: nat) returns (i: nat)
    requires WellFormed(t) && FetchEventsMetadata(t).Ok? && p < |t.rows|
    requires IndexOf(t.columns, EventCol).Some? && |t.rows[p]| == |t.columns|
    requires !t.rows[p][IndexOf(t.columns, EventCol).value].Missing?
    ensures i < |FetchEventsMetadata(t).value.events|
    ensures var m := FetchEventsMetadata(t).value;
      && m.events[i] == t.rows[p][IndexOf(t.columns, EventCol).value]
      && m.periods[i] == t.rows[p][IndexOf(t.columns, PeriodCol).value]
      && m.years[i] == t.rows[p][IndexOf(t.columns, YearCol).value]
  {
    var ei, pi, yi := MetadataColumns(t);
    var keep := EventFlags(t.rows, ei);
    FilterAt(t.rows, keep, p);
    i := |Filter(t.rows[..p], keep[..p])|;
  }

  /** No event in the list is missing. */
  lemma MetadataEventsPresent(t: Table, i: nat)
    requires WellFormed(t) && FetchEventsMetadata(t).Ok?
    requires i < |FetchEventsMetadata(t).value.events|
    ensures !FetchEventsMetadata(t).value.events[i].Missing?
  {
    var p := MetadataSource(t, i);
  }
}
