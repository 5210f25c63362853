/** The query and aggregation logic under the routes, over the two tables held as
    sequences of rows in storage order: picking the most active station, its latest
    date, the window and range filters, ordering by date, and the min/mean/max
    reduction of a temperature list. */
module Queries {
  import opened Outcomes
  import opened Text
  import opened Calendar

  /** A row of the `measurement` table.  `date` is the stored text, `prcp` may be
      NULL. */
  datatype Measurement = Measurement(station: string, date: string, prcp: Option<real>, tobs: real)

  /** A row of the `station` table. */
  datatype Station = Station(station: string, name: string, latitude: real, longitude: real, elevation: real)

  /** A (date, value) row of a two-column query result. */
  datatype Reading<V> = Reading(date: string, value: V)

  // ---------------------------------------------------------------------------
  // Most active station

  /** Rows of station `s`: `count(station)` of its group. */
  function Count(ms: seq<Measurement>, s: string): (n: nat)
    ensures n <= |ms|
    decreases |ms|
  {
    if ms == [] then 0 else (if ms[0].station == s then 1 else 0) + Count(ms[1..], s)
  }

  /** A station has a group exactly when some row names it. */
  lemma {:induction false} CountPositive(ms: seq<Measurement>, s: string)
    ensures Count(ms, s) > 0 <==> exists m :: m in ms && m.station == s
    decreases |ms|
  {
    if ms != [] {
      assert ms == [ms[0]] + ms[1..];
      CountPositive(ms[1..], s);
    }
  }

  /** A station the grouped query may put first: it has rows, and no station has
      more. */
  ghost predicate IsMostActive(ms: seq<Measurement>, s: string)
  {
    Count(ms, s) > 0 && forall t :: Count(ms, t) <= Count(ms, s)
  }

  /** The station among those of `rows` with the most rows in `ms`; among tied
      counts the one whose row comes first. */
  function Busiest(ms: seq<Measurement>, rows: seq<Measurement>): (s: string)
    requires rows != []
    ensures exists m :: m in rows && m.station == s
    ensures forall m :: m in rows ==> Count(ms, m.station) <= Count(ms, s)
    decreases |rows|
  {
    if |rows| == 1 then rows[0].station
    else
      assert rows == [rows[0]] + rows[1..];
      var best := Busiest(ms, rows[1..]);
      if Count(ms, best) <= Count(ms, rows[0].station) then rows[0].station else best
  }

  lemma BusiestIsMostActive(ms: seq<Measurement>)
    requires ms != []
    ensures IsMostActive(ms, Busiest(ms, ms))
  {
    var s := Busiest(ms, ms);
    CountPositive(ms, s);
    forall t
      ensures Count(ms, t) <= Count(ms, s)
    {
      CountPositive(ms, t);
    }
  }

  /** `query(station, count(station)).group_by(station).order_by(count desc)[0][0]`:
      fails on an empty table, otherwise a station with the highest row count. */
  function MostActive(ms: seq<Measurement>): (r: Result<string>)
    ensures r.Err? <==> ms == []
    ensures r.Err? ==> r.error == EmptyDataset
    ensures r.Ok? ==> IsMostActive(ms, r.value)
  {
    if ms == [] then Err(EmptyDataset)
    else
      BusiestIsMostActive(ms);
      Ok(Busiest(ms, ms))
  }

  // ---------------------------------------------------------------------------
  // Latest date of a station

  /** `query(date).filter(station == s).order_by(date desc).first()`: the greatest
      stored date text among the rows of `s`, or None when `s` has no row. */
  function Latest(ms: seq<Measurement>, s: string): (d: Option<string>)
    ensures d.None? <==> forall m :: m in ms ==> m.station != s
    ensures d.Some? ==> exists m :: m in ms && m.station == s && m.date == d.value
    ensures d.Some? ==> forall m :: m in ms && m.station == s ==> LessEq(m.date, d.value)
    decreases |ms|
  {
    if ms == [] then None
    else
      assert ms == [ms[0]] + ms[1..];
      var rest := Latest(ms[1..], s);
      if ms[0].station != s then rest
      else if rest.Some? && Less(ms[0].date, rest.value) then rest
      else
        OrderFacts();
        Some(ms[0].date)
  }

  /** The text `query_date` is compared as: the day 365 days before the latest date
      of `s`, in ISO form. */
  function WindowStart(ms: seq<Measurement>, s: string): (r: Result<string>)
    ensures Latest(ms, s).None? ==> r == Err(EmptyDataset)
    ensures Latest(ms, s).Some? && r.Err? ==> r.error == InvalidDate || r.error == DateOverflow
    ensures r.Ok? ==> Latest(ms, s).Some? && IsIsoDate(r.value)
                      && Parse(Latest(ms, s).value).Ok?
                      && Ordinal(Parse(Latest(ms, s).value).value) - Ordinal(Parse(r.value).value) == 365
  {
    match Latest(ms, s)
    case None => Err(EmptyDataset)
    case Some(latest) =>
      match YearBefore(latest)
      case Err(e) => Err(e)
      case Ok(q) => FormatParse(q); Ok(Format(q))
  }

  /** The most active station has rows, so its latest date exists and the
      `first()` of its date query is never None. */
  lemma MostActiveHasLatest(ms: seq<Measurement>)
    requires ms != []
    ensures Latest(ms, MostActive(ms).value).Some?
  {
    CountPositive(ms, MostActive(ms).value);
  }

  /** When the latest date is stored in ISO form the window always exists unless it
      would start before year 1, and the latest date lies inside it. */
  lemma WindowHoldsLatest(ms: seq<Measurement>, s: string)
    requires Latest(ms, s).Some? && IsIsoDate(Latest(ms, s).value)
    ensures WindowStart(ms, s).Ok? <==> Ordinal(Parse(Latest(ms, s).value).value) > 365
    ensures WindowStart(ms, s).Ok? ==> Less(WindowStart(ms, s).value, Latest(ms, s).value)
  {
    var latest := Latest(ms, s).value;
    var d := Parse(latest).value;
    if WindowStart(ms, s).Ok? {
      var q := YearBefore(latest).value;
      FormatOrder(q, d);
    }
  }

  // ---------------------------------------------------------------------------
  // Filters

  /** The `filter(...)` clauses of the routes' queries, compared as text. */
  datatype Filter =
    | StationAfter(station: string, after: string)                          // station == s, date > after
    | StationBetween(station: string, from: string, to: Option<string>)     // station == s, from <= date [<= to]

  predicate Matches(f: Filter, m: Measurement)
  {
    match f
    case StationAfter(s, after) => m.station == s && Less(after, m.date)
    case StationBetween(s, from, to) => m.station == s && LessEq(from, m.date) && (to.None? || LessEq(m.date, to.value))
  }

  /** The rows a filter keeps, in storage order. */
  function Select(ms: seq<Measurement>, f: Filter): (r: seq<Measurement>)
    ensures |r| <= |ms|
    decreases |ms|
  {
    if ms == [] then [] else (if Matches(f, ms[0]) then [ms[0]] else []) + Select(ms[1..], f)
  }

  /** Exactly the matching rows are kept, each as often as it is stored. */
  lemma {:induction false} SelectKeeps(ms: seq<Measurement>, f: Filter)
    ensures forall m :: multiset(Select(ms, f))[m] == if Matches(f, m) then multiset(ms)[m] else 0
    ensures forall m :: m in Select(ms, f) <==> m in ms && Matches(f, m)
    decreases |ms|
  {
    if ms != [] {
      assert ms == [ms[0]] + ms[1..];
      SelectKeeps(ms[1..], f);
    }
  }

  lemma SelectFirst(ms: seq<Measurement>, f: Filter)
    requires ms != []
    ensures Select(ms, f) == (if Matches(f, ms[0]) then [ms[0]] else []) + Select(ms[1..], f)
  {
  }

  /** Filtering keeps storage order: it distributes over concatenation. */
  lemma {:induction false} SelectConcat(a: seq<Measurement>, b: seq<Measurement>, f: Filter)
    ensures Select(a + b, f) == Select(a, f) + Select(b, f)
    decreases |a|
  {
    if a == [] {
      assert a + b == b;
    } else {
      var head := if Matches(f, a[0]) then [a[0]] else [];
      assert (a + b)[0] == a[0] && (a + b)[1..] == a[1..] + b;
      SelectFirst(a + b, f);
      SelectFirst(a, f);
      SelectConcat(a[1..], b, f);
      assert head + (Select(a[1..], f) + Select(b, f)) == (head + Select(a[1..], f)) + Select(b, f);
    }
  }

  // ---------------------------------------------------------------------------
  // Ordering by date

  predicate SortedByDate<V>(rs: seq<Reading<V>>)
  {
    forall i, j :: 0 <= i < j < |rs| ==> LessEq(rs[i].date, rs[j].date)
  }

  function Insert<V(==)>(x: Reading<V>, rs: seq<Reading<V>>): (r: seq<Reading<V>>)
    requires SortedByDate(rs)
    ensures SortedByDate(r)
    ensures multiset(r) == multiset(rs) + multiset{x}
    ensures forall y :: y in r ==> y == x || y in rs
    decreases |rs|
  {
    if rs == [] then [x]
    else if LessEq(x.date, rs[0].date) then
      PrependSorted(x, rs);
      [x] + rs
    else
      assert rs == [rs[0]] + rs[1..];
      LessTotal(x.date, rs[0].date);
      var tail := Insert(x, rs[1..]);
      HeadFirst(rs);
      ConsSorted(rs[0], tail);
      [rs[0]] + tail
  }

  /** A row no later than every row of a sorted list can go in front of it. */
  lemma ConsSorted<V>(h: Reading<V>, rs: seq<Reading<V>>)
    requires SortedByDate(rs)
    requires forall y :: y in rs ==> LessEq(h.date, y.date)
    ensures SortedByDate([h] + rs)
  {
    var r := [h] + rs;
    forall i, j | 0 <= i < j < |r|
      ensures LessEq(r[i].date, r[j].date)
    {
      if i == 0 {
        assert r[j] == rs[j - 1];
        assert rs[j - 1] in rs;
      } else {
        assert r[i] == rs[i - 1] && r[j] == rs[j - 1];
      }
    }
  }

  /** The first row of a sorted list is no later than any of its rows. */
  lemma HeadFirst<V>(rs: seq<Reading<V>>)
    requires SortedByDate(rs) && rs != []
    ensures forall y :: y in rs ==> LessEq(rs[0].date, y.date)
  {
    forall y | y in rs
      ensures LessEq(rs[0].date, y.date)
    {
      var j :| 0 <= j < |rs| && rs[j] == y;
    }
  }

  /** A row no later than the first row of a sorted list can go in front of it. */
  lemma PrependSorted<V>(x: Reading<V>, rs: seq<Reading<V>>)
    requires SortedByDate(rs) && rs != [] && LessEq(x.date, rs[0].date)
    ensures SortedByDate([x] + rs)
  {
    HeadFirst(rs);
    forall y | y in rs
      ensures LessEq(x.date, y.date)
    {
      LessEqTransitive(x.date, rs[0].date, y.date);
    }
    ConsSorted(x, rs);
  }

  /** `order_by(date)`: the rows in non-decreasing date order; rows with equal dates
      keep their storage order. */
  function SortByDate<V(==)>(rs: seq<Reading<V>>): (r: seq<Reading<V>>)
    ensures SortedByDate(r)
    ensures multiset(r) == multiset(rs)
    decreases |rs|
  {
    if rs == [] then []
    else
      assert rs == [rs[0]] + rs[1..];
      Insert(rs[0], SortByDate(rs[1..]))
  }

  // ---------------------------------------------------------------------------
  // The query results of the routes

  function PrcpOf(rows: seq<Measurement>): seq<Reading<Option<real>>>
  {
    seq(|rows|, i requires 0 <= i < |rows| => Reading(rows[i].date, rows[i].prcp))
  }

  function TobsOf(rows: seq<Measurement>): seq<Reading<real>>
  {
    seq(|rows|, i requires 0 <= i < |rows| => Reading(rows[i].date, rows[i].tobs))
  }

  /** The precipitation query: (date, prcp) of the rows of `s` dated after
      `threshold`, ordered by date. */
  function PrecipitationRows(ms: seq<Measurement>, s: string, threshold: string): (r: seq<Reading<Option<real>>>)
    ensures SortedByDate(r)
    ensures |r| == |Select(ms, StationAfter(s, threshold))|
    ensures multiset(r) == multiset(PrcpOf(Select(ms, StationAfter(s, threshold))))
    ensures forall x :: x in r ==> exists m :: m in ms && m.station == s && Less(threshold, m.date) && x == Reading(m.date, m.prcp)
    ensures forall m :: m in ms && m.station == s && Less(threshold, m.date) ==> Reading(m.date, m.prcp) in r
  {
    var rows := Select(ms, StationAfter(s, threshold));
    SelectKeeps(ms, StationAfter(s, threshold));
    var r := SortByDate(PrcpOf(rows));
    assert |multiset(r)| == |multiset(PrcpOf(rows))|;
    forall x | x in r
      ensures exists m :: m in ms && m.station == s && Less(threshold, m.date) && x == Reading(m.date, m.prcp)
    {
      assert x in multiset(PrcpOf(rows));
      var i :| 0 <= i < |rows| && PrcpOf(rows)[i] == x;
      assert rows[i] in rows;
    }
    forall m | m in ms && m.station == s && Less(threshold, m.date)
      ensures Reading(m.date, m.prcp) in r
    {
      var i :| 0 <= i < |rows| && rows[i] == m;
      assert PrcpOf(rows)[i] == Reading(m.date, m.prcp);
      assert Reading(m.date, m.prcp) in multiset(r);
    }
    r
  }

  /** The tobs query: (date, tobs) of the rows of `s` dated after `threshold`, in
      storage order. */
  function TobsRows(ms: seq<Measurement>, s: string, threshold: string): (r: seq<Reading<real>>)
    ensures r == TobsOf(Select(ms, StationAfter(s, threshold)))
    ensures |r| == |Select(ms, StationAfter(s, threshold))|
    ensures forall x :: x in r ==> exists m :: m in ms && m.station == s && Less(threshold, m.date) && x == Reading(m.date, m.tobs)
    ensures forall m :: m in ms && m.station == s && Less(threshold, m.date) ==> Reading(m.date, m.tobs) in r
  {
    var rows := Select(ms, StationAfter(s, threshold));
    SelectKeeps(ms, StationAfter(s, threshold));
    var r := TobsOf(rows);
    forall x | x in r
      ensures exists m :: m in ms && m.station == s && Less(threshold, m.date) && x == Reading(m.date, m.tobs)
    {
      var i :| 0 <= i < |rows| && r[i] == x;
      assert rows[i] in rows;
    }
    forall m | m in ms && m.station == s && Less(threshold, m.date)
      ensures Reading(m.date, m.tobs) in r
    {
      var i :| 0 <= i < |rows| && rows[i] == m;
      assert r[i] == Reading(m.date, m.tobs);
    }
    r
  }

  /** The summary routes' query: the rows of `s` dated from `start` on, and up to
      `end` when there is one. */
  function SummaryRows(ms: seq<Measurement>, s: string, start: string, end: Option<string>): (r: seq<Measurement>)
    ensures forall m :: m in r <==> m in ms && m.station == s && LessEq(start, m.date) && (end.None? || LessEq(m.date, end.value))
    ensures forall m :: multiset(r)[m] == if m.station == s && LessEq(start, m.date) && (end.None? || LessEq(m.date, end.value)) then multiset(ms)[m] else 0
  {
    SelectKeeps(ms, StationBetween(s, start, end));
    Select(ms, StationBetween(s, start, end))
  }

  /** A start date after every stored date leaves nothing to summarise. */
  lemma StartAfterAll(ms: seq<Measurement>, s: string, start: string, end: Option<string>)
    requires forall m :: m in ms ==> Less(m.date, start)
    ensures SummaryRows(ms, s, start, end) == []
  {
    var r := SummaryRows(ms, s, start, end);
    if r != [] {
      assert r[0] in r;
      LessAsymmetric(r[0].date, start);
      LessIrreflexive(start);
    }
  }

  // ---------------------------------------------------------------------------
  // Summary reduction

  /** `min(xs)`. */
  function Minimum(xs: seq<real>): (lo: real)
    requires xs != []
    ensures lo in xs
    ensures forall x :: x in xs ==> lo <= x
    decreases |xs|
  {
    if |xs| == 1 then xs[0]
    else
      assert xs == [xs[0]] + xs[1..];
      var rest := Minimum(xs[1..]);
      if xs[0] <= rest then xs[0] else rest
  }

  /** `max(xs)`. */
  function Maximum(xs: seq<real>): (hi: real)
    requires xs != []
    ensures hi in xs
    ensures forall x :: x in xs ==> x <= hi
    decreases |xs|
  {
    if |xs| == 1 then xs[0]
    else
      assert xs == [xs[0]] + xs[1..];
      var rest := Maximum(xs[1..]);
      if rest <= xs[0] then xs[0] else rest
  }

  function Sum(xs: seq<real>): real
    decreases |xs|
  {
    if xs == [] then 0.0 else xs[0] + Sum(xs[1..])
  }

  /** The arithmetic mean, as `np.mean` computes it before rounding. */
  function Mean(xs: seq<real>): real
    requires xs != []
  {
    Sum(xs) / (|xs| as real)
  }

  lemma {:induction false} SumBetween(xs: seq<real>, lo: real, hi: real)
    requires forall x :: x in xs ==> lo <= x <= hi
    ensures lo * (|xs| as real) <= Sum(xs) <= hi * (|xs| as real)
    decreases |xs|
  {
    if xs != [] {
      var rest := xs[1..];
      assert forall x :: x in rest ==> x in xs;
      assert xs[0] in xs;
      SumBetween(rest, lo, hi);
      ScaleStep(lo, xs);
      ScaleStep(hi, xs);
    }
  }

  lemma ScaleStep(c: real, xs: seq<real>)
    requires xs != []
    ensures c * (|xs| as real) == c * (|xs[1..]| as real) + c
  {
    var k := |xs[1..]| as real;
    assert |xs| as real == k + 1.0;
  }

  lemma QuotientBetween(s: real, n: real, lo: real, hi: real)
    requires n > 0.0 && lo * n <= s <= hi * n
    ensures lo <= s / n <= hi
  {
    assert (s / n) * n == s;
  }

  lemma MeanBetween(xs: seq<real>)
    requires xs != []
    ensures Minimum(xs) <= Mean(xs) <= Maximum(xs)
  {
    SumBetween(xs, Minimum(xs), Maximum(xs));
    QuotientBetween(Sum(xs), |xs| as real, Minimum(xs), Maximum(xs));
  }

  datatype TempSummary = TempSummary(min: real, avg: real, max: real)

  /** The `tobs` column of the query rows, in row order. */
  function TobsColumn(rows: seq<Measurement>): seq<real>
  {
    seq(|rows|, i requires 0 <= i < |rows| => rows[i].tobs)
  }

  /** The `try` block of the summary routes: min, mean and max of the list, or the
      "no temperature entries" failure when `min` finds the list empty. */
  function Summarize(temps: seq<real>): (r: Result<TempSummary>)
    ensures r.Err? <==> temps == []
    ensures r.Err? ==> r.error == NoTemperatureEntries
    ensures r.Ok? ==> r.value.min in temps && r.value.max in temps
    ensures r.Ok? ==> forall x :: x in temps ==> r.value.min <= x <= r.value.max
    ensures r.Ok? ==> r.value.min <= r.value.avg <= r.value.max
  {
    if temps == [] then Err(NoTemperatureEntries)
    else
      MeanBetween(temps);
      Ok(TempSummary(Minimum(temps), Mean(temps), Maximum(temps)))
  }

  /** A summary of the rows' temperatures speaks of those rows: min and max are
      temperatures of some row, and they bound every row's temperature. */
  lemma SummaryOfRows(rows: seq<Measurement>, t: TempSummary)
    requires Summarize(TobsColumn(rows)) == Ok(t)
    ensures exists m :: m in rows && m.tobs == t.min
    ensures exists m :: m in rows && m.tobs == t.max
    ensures forall m :: m in rows ==> t.min <= m.tobs <= t.max
    ensures t.min <= t.avg <= t.max
  {
    var temps := TobsColumn(rows);
    var i :| 0 <= i < |temps| && temps[i] == t.min;
    assert rows[i] in rows;
    var j :| 0 <= j < |temps| && temps[j] == t.max;
    assert rows[j] in rows;
    forall m | m in rows
      ensures t.min <= m.tobs <= t.max
    {
      var k :| 0 <= k < |rows| && rows[k] == m;
      assert temps[k] in temps;
    }
  }
}
