/** The five API routes: the queries of the Queries module, followed by the loops that
    reshape their rows into the lists handed to `jsonify`.  A route either yields its
    list or fails with an Error, which Outcomes.Status maps to the HTTP status. */
module Routes {
  import opened Outcomes
  import opened Text
  import opened Calendar
  import opened Queries

  // ---------------------------------------------------------------------------
  // /api/v1.0/precipitation

  /** One single-key `{date: prcp}` dictionary per query row, in row order. */
  method PrecipitationList(rows: seq<Reading<Option<real>>>) returns (list: seq<map<string, Option<real>>>)
    ensures |list| == |rows|
    ensures forall i :: 0 <= i < |rows| ==> list[i].Keys == {rows[i].date} && list[i][rows[i].date] == rows[i].value
  {
    list := [];
    for i := 0 to |rows|
      invariant |list| == i
      invariant forall k :: 0 <= k < i ==> list[k].Keys == {rows[k].date} && list[k][rows[k].date] == rows[k].value
    {
      var entry: map<string, Option<real>> := map[];
      entry := entry[rows[i].date := rows[i].value];
      list := list + [entry];
    }
  }

  /** The precipitation route: the most active station's (date, prcp) rows of the
      last year of its data, ordered by date, one dictionary each. */
  method Precipitation(ms: seq<Measurement>) returns (r: Result<seq<map<string, Option<real>>>>)
    ensures ms == [] ==> r == Err(EmptyDataset)
    ensures ms != [] && r.Err? ==> r.error == InvalidDate || r.error == DateOverflow
    ensures ms != [] ==> (r.Ok? <==> WindowStart(ms, MostActive(ms).value).Ok?)
    ensures r.Ok? ==> (ms != [] &&
      var s := MostActive(ms).value;
      var rows := PrecipitationRows(ms, s, WindowStart(ms, s).value);
      |r.value| == |rows| &&
      forall i :: 0 <= i < |rows| ==> r.value[i].Keys == {rows[i].date} && r.value[i][rows[i].date] == rows[i].value)
  {
    var active := MostActive(ms);
    if active.Err? {
      return Err(active.error);
    }
    var s := active.value;
    MostActiveHasLatest(ms);
    var window := WindowStart(ms, s);
    if window.Err? {
      return Err(window.error);
    }
    var list := PrecipitationList(PrecipitationRows(ms, s, window.value));
    return Ok(list);
  }

  // ---------------------------------------------------------------------------
  // /api/v1.0/stations

  /** The `station` column of every row of the station table, in storage order,
      duplicates kept. */
  method Stations(table: seq<Station>) returns (ids: seq<string>)
    ensures |ids| == |table|
    ensures forall i :: 0 <= i < |table| ==> ids[i] == table[i].station
  {
    ids := [];
    for i := 0 to |table|
      invariant |ids| == i
      invariant forall k :: 0 <= k < i ==> ids[k] == table[k].station
    {
      ids := ids + [table[i].station];
    }
  }

  // ---------------------------------------------------------------------------
  // /api/v1.0/tobs

  /** The tobs route: the most active station's (date, tobs) rows dated after the
      window start, in storage order.  Every pair comes from such a row and every
      such row is reported. */
  function Tobs(ms: seq<Measurement>): (r: Result<seq<Reading<real>>>)
    ensures ms == [] ==> r == Err(EmptyDataset)
    ensures ms != [] && r.Err? ==> r.error == InvalidDate || r.error == DateOverflow
    ensures ms != [] ==> (r.Ok? <==> WindowStart(ms, MostActive(ms).value).Ok?)
    ensures r.Ok? ==> (ms != [] &&
      var s := MostActive(ms).value;
      var after := WindowStart(ms, s).value;
      (forall x :: x in r.value ==> exists m :: m in ms && m.station == s && Less(after, m.date) && x == Reading(m.date, m.tobs))
      && (forall m :: m in ms && m.station == s && Less(after, m.date) ==> Reading(m.date, m.tobs) in r.value))
    ensures r.Ok? ==> (ms != [] && r.value == TobsRows(ms, MostActive(ms).value, WindowStart(ms, MostActive(ms).value).value))
  {
    match MostActive(ms)
    case Err(e) => Err(e)
    case Ok(s) =>
      MostActiveHasLatest(ms);
      match WindowStart(ms, s)
      case Err(e) => Err(e)
      case Ok(after) => Ok(TobsRows(ms, s, after))
  }

  /** With dates stored in ISO form, the tobs route always reports the most active
      station's latest measurement (unless the window would start before year 1). */
  lemma TobsHoldsLatest(ms: seq<Measurement>, m: Measurement)
    requires ms != [] && m in ms && m.station == MostActive(ms).value
    requires m.date == Latest(ms, m.station).value && IsIsoDate(m.date)
    requires Ordinal(Parse(m.date).value) > 365
    ensures Tobs(ms).Ok? && Reading(m.date, m.tobs) in Tobs(ms).value
  {
    WindowHoldsLatest(ms, m.station);
  }

  // ---------------------------------------------------------------------------
  // /api/v1.0/<start> and /api/v1.0/<start>/<end>

  /** The loop that copies the `tobs` column of the query rows into a list. */
  method Temperatures(rows: seq<Measurement>) returns (temps: seq<real>)
    ensures |temps| == |rows|
    ensures forall i :: 0 <= i < |rows| ==> temps[i] == rows[i].tobs
  {
    temps := [];
    for i := 0 to |rows|
      invariant |temps| == i
      invariant forall k :: 0 <= k < i ==> temps[k] == rows[k].tobs
    {
      temps := temps + [rows[i].tobs];
    }
  }

  /** The temperatures of the most active station's rows in the range. */
  function RangeTemperatures(ms: seq<Measurement>, start: string, end: Option<string>): seq<real>
    requires ms != []
  {
    TobsColumn(SummaryRows(ms, MostActive(ms).value, start, end))
  }

  /** Both summary routes: the most active station's temperatures dated from `start`
      on (and up to `end` when given), reduced to one [min, avg, max] entry; the
      404 failure when there is none. */
  method TemperatureSummary(ms: seq<Measurement>, start: string, end: Option<string>) returns (r: Result<seq<TempSummary>>)
    ensures ms == [] ==> r == Err(EmptyDataset)
    ensures ms != [] ==> (r == Err(NoTemperatureEntries) <==> SummaryRows(ms, MostActive(ms).value, start, end) == [])
    ensures r.Err? ==> ms == [] || r.error == NoTemperatureEntries
    ensures r.Ok? ==> ms != [] && |r.value| == 1 && Summarize(RangeTemperatures(ms, start, end)) == Ok(r.value[0])
  {
    var active := MostActive(ms);
    if active.Err? {
      return Err(active.error);
    }
    var rows := SummaryRows(ms, active.value, start, end);
    var temps := Temperatures(rows);
    assert temps == RangeTemperatures(ms, start, end);
    var summary := Summarize(temps);
    if summary.Err? {
      return Err(summary.error);
    }
    var final: seq<TempSummary> := [];
    final := final + [summary.value];
    return Ok(final);
  }

  /** `/api/v1.0/<start>`: the range is unbounded above. */
  method StartDate(ms: seq<Measurement>, start: string) returns (r: Result<seq<TempSummary>>)
    ensures ms == [] ==> r == Err(EmptyDataset)
    ensures ms != [] ==> (r == Err(NoTemperatureEntries) <==> SummaryRows(ms, MostActive(ms).value, start, None) == [])
    ensures r.Err? ==> ms == [] || r.error == NoTemperatureEntries
    ensures r.Ok? ==> ms != [] && |r.value| == 1 && Summarize(RangeTemperatures(ms, start, None)) == Ok(r.value[0])
  {
    r := TemperatureSummary(ms, start, None);
  }

  /** `/api/v1.0/<start>/<end>`: both bounds inclusive. */
  method StartEndDate(ms: seq<Measurement>, start: string, end: string) returns (r: Result<seq<TempSummary>>)
    ensures ms == [] ==> r == Err(EmptyDataset)
    ensures ms != [] ==> (r == Err(NoTemperatureEntries) <==> SummaryRows(ms, MostActive(ms).value, start, Some(end)) == [])
    ensures r.Err? ==> ms == [] || r.error == NoTemperatureEntries
    ensures r.Ok? ==> ms != [] && |r.value| == 1 && Summarize(RangeTemperatures(ms, start, Some(end))) == Ok(r.value[0])
  {
    r := TemperatureSummary(ms, start, Some(end));
  }

  /** What a summary route reports holds of the rows it selected: the min and max are
      temperatures of the most active station's rows in the range, they bound every
      such temperature, and the mean lies between them. */
  lemma SummaryFromRange(ms: seq<Measurement>, start: string, end: Option<string>, t: TempSummary)
    requires ms != [] && Summarize(RangeTemperatures(ms, start, end)) == Ok(t)
    ensures exists m :: m in ms && m.station == MostActive(ms).value && LessEq(start, m.date)
                        && (end.None? || LessEq(m.date, end.value)) && m.tobs == t.min
    ensures exists m :: m in ms && m.station == MostActive(ms).value && LessEq(start, m.date)
                        && (end.None? || LessEq(m.date, end.value)) && m.tobs == t.max
    ensures forall m :: (m in ms && m.station == MostActive(ms).value && LessEq(start, m.date)
                        && (end.None? || LessEq(m.date, end.value))) ==> t.min <= m.tobs <= t.max
    ensures t.min <= t.avg <= t.max
  {
    SummaryOfRows(SummaryRows(ms, MostActive(ms).value, start, end), t);
  }

  /** A start date after every stored date is answered with the 404 failure. */
  lemma StartAfterAllIsNotFound(ms: seq<Measurement>, start: string, end: Option<string>)
    requires ms != [] && forall m :: m in ms ==> Less(m.date, start)
    ensures RangeTemperatures(ms, start, end) == []
    ensures Summarize(RangeTemperatures(ms, start, end)) == Err(NoTemperatureEntries)
    ensures Status(NoTemperatureEntries) == 404 && ErrorText(NoTemperatureEntries) == Some(NoEntriesMessage)
  {
    StartAfterAll(ms, MostActive(ms).value, start, end);
  }
}
