# Climate observation API: query and aggregation model

The application serves a read-only JSON API over a Hawaii climate dataset. The dataset
has two tables. `measurement` holds one row per station and day: station id, date
stored as text, precipitation and observed temperature (tobs). `station` holds the
station ids and their metadata. All five data routes start from the same question:
which station has the most rows?

- `/api/v1.0/precipitation` finds that station's latest date and steps back 365 days.
  It returns the station's (date, prcp) rows dated after that day, ordered by date,
  as single-key `{date: prcp}` objects.
- `/api/v1.0/stations` lists the station ids of the station table.
- `/api/v1.0/tobs` uses the same trailing-year window and returns (date, tobs) pairs
  in storage order.
- `/api/v1.0/<start>` and `/api/v1.0/<start>/<end>` reduce that station's
  temperatures dated from `start` (and up to `end`) to one `[min, avg, max]` entry.
  When no temperature matches they answer 404 with the fixed message
  "There are no temperature entries for this date range."

This project models that logic in Dafny over the two tables as sequences of rows in
storage order:

- `outcomes.dfy` (module `Outcomes`): the failures a request can end in and their
  HTTP status.
- `text.dfy` (module `Text`): the text order SQLite compares dates with, Python's
  `str.split`, and the decimal digit strings that `int()` reads and `isoformat()`
  writes.
- `calendar.dfy` (module `Calendar`): the proleptic Gregorian calendar as Python's
  `datetime.date` implements it. This covers day numbers (`toordinal`), the
  constructor's range check, subtracting whole days, ISO rendering, and reading a
  stored date by `split('-')` and `int()`.
- `queries.dfy` (module `Queries`): the SQL queries as pure functions. This covers
  most-active station, latest date, trailing-year window, the filters, ordering by
  date, and the min/mean/max reduction.
- `routes.dfy` (module `Routes`): the route bodies. The loops that append to
  `precipitation_list`, `station_list`, `temperature_list` and
  `final_temperature_list` are methods with loop invariants.

Three points about the code that shape the model:

- Ties for the most active station are left to SQLite's `ORDER BY count DESC`, whose
  order among equal counts is unspecified. Every property here holds for any station
  with the highest count (`Queries.IsMostActive`).
- The window is applied by comparing the stored date text with the ISO text of the
  `datetime.date` 365 days before the latest date. `Calendar.FormatOrder` proves that
  this text comparison agrees with calendar order on ISO-formatted dates.
- The precipitation and tobs routes index the result of `first()` without a check.
  That index cannot fail, because the most active station always has rows
  (`Queries.MostActiveHasLatest`).

## Model

| member | source | states |
|---|---|---|
| `Outcomes.Status` | app.py:100-101 | The deliberate failure (no temperature entries) is answered 404; every other failure escapes the route and is a 500. |
| `Outcomes.ErrorText` | app.py:101 | Only the 404 carries an `error` text, and it is exactly "There are no temperature entries for this date range.". |
| `Text.LessTotal` | app.py:45 | `Less`, SQLite's comparison of two text values, is total: any two dates are equal or one is smaller. The text order the date queries sort and compare by is total: any two dates are equal or one is smaller. |
| `Text.LessTransitive` | app.py:49 | The text order is transitive, so ordering rows by date is well defined. |
| `Text.SplitJoin` | app.py:46 | `Split` models `split('-')`. It loses nothing: joining the pieces with `-` gives back the text, and no piece contains `-`. |
| `Text.ParseNat` | app.py:47 | `int()` of a date field succeeds exactly on a non-empty digit string. |
| `Text.PadLess` | app.py:49 | Zero-padded numbers of equal width compare as text exactly as they compare as numbers. |
| `Calendar.OrdinalOrder` | app.py:47-48 | `Valid` is the range check of `date(y, m, d)` and `Ordinal` is `toordinal()`. Day numbers follow calendar order (year, month, day), and two valid dates with equal day numbers are the same date. |
| `Calendar.OrdinalPositive` | app.py:48 | Every valid date has day number at least 1, and only 1 January of year 1 has day number 1. |
| `Calendar.YearStep` | app.py:48 | One year adds 366 days when it is a leap year (divisible by 4, and by 400 when divisible by 100) and 365 otherwise, matching the closed-form day count before a year. |
| `Calendar.PrevDayOrdinal` | app.py:48 | Stepping back one day gives a valid date whose day number is one less. |
| `Calendar.MinusDaysOrdinal` | app.py:48 | `MinusDays` is `d - timedelta(days=n)`. Subtracting n days succeeds exactly when the day number exceeds n. The result is then valid and exactly n day numbers earlier. Otherwise it fails with the overflow error. |
| `Calendar.Parse` | app.py:46-47 | Reading a stored date yields only valid dates; every way it can fail is InvalidDate. |
| `Calendar.FormatParse` | app.py:47-49 | `Format` is `isoformat()`, the text a `date` is compared as. Reading back the ISO text of a valid date gives the same date, so that text is in canonical ISO form. |
| `Calendar.FormatOrder` | app.py:49 | On ISO texts of valid dates, text order coincides with day-number (chronological) order. |
| `Calendar.YearBefore` | app.py:46-48 | The window start is exactly 365 day numbers before the parsed latest date. It exists exactly when that date has day number above 365. An unparsable date gives InvalidDate. |
| `Queries.CountPositive` | app.py:43 | `Count` is the `func.count` of one station's group. A station has a non-empty group exactly when some row names it. |
| `Queries.Busiest` | app.py:43-44 | The chosen station is that of one of the rows, and no row's station has more rows. |
| `Queries.MostActive` | app.py:43-44 | An empty table fails with EmptyDataset (the `[0][0]` index). Otherwise the result is a station that has rows, and no station has strictly more rows. |
| `Queries.Latest` | app.py:45 | None exactly when the station has no row. Otherwise the result is the date of one of the station's rows, and no row of the station has a greater date. |
| `Queries.MostActiveHasLatest` | app.py:44-45 | The most active station always has a latest date, so `first()` never returns None for it. |
| `Queries.WindowStart` | app.py:45-48 | On success the window start is an ISO date exactly 365 days before the station's latest date. Otherwise it is the date-parsing or overflow failure, or EmptyDataset for a station without rows. |
| `Queries.WindowHoldsLatest` | app.py:45-49 | If the latest date is stored in ISO form, the window exists exactly when the latest date's day number exceeds 365, and the latest date is then strictly after the window start. |
| `Queries.SelectKeeps` | app.py:80 | `Select` applies the `filter` clauses of a query (here and at app.py:49, 90 and 112). A filter keeps exactly the matching rows, each with the multiplicity it has in the table. |
| `Queries.SelectConcat` | app.py:80 | Filtering preserves storage order: filtering a concatenation is the concatenation of the filtered parts. |
| `Queries.SortByDate` | app.py:49 | `order_by(date)` yields rows in non-decreasing date order, and they are a permutation of its input. |
| `Queries.PrecipitationRows` | app.py:49 | The precipitation query rows are sorted by date. Each comes from a row of the station dated after the window start, and every such row is present. As a multiset the rows are exactly the (date, prcp) pairs of the selected rows, so each appears as often as in the table. |
| `Queries.TobsRows` | app.py:80 | The result is the (date, tobs) pair of each selected row in storage order, one per row. Each pair comes from a row of the station dated after the window start, and every such row is present. |
| `Queries.SummaryRows` | app.py:112 | The summary query keeps exactly the station's rows with `start <= date` and, when an end is given, `date <= end`, with their multiplicities. |
| `Queries.StartAfterAll` | app.py:90 | A start date after every stored date selects no row. |
| `Queries.Minimum` | app.py:97 | `min` of a non-empty list is one of its elements and no larger than any. |
| `Queries.Maximum` | app.py:99 | `max` of a non-empty list is one of its elements and no smaller than any. |
| `Queries.MeanBetween` | app.py:98 | The exact mean of a non-empty list lies between its min and max. |
| `Queries.SummaryOfRows` | app.py:93-99 | The summary of a set of rows' temperatures speaks of those rows: min and max are some row's temperature, they bound every row's temperature, and the exact mean lies between them. |
| `Queries.Summarize` | app.py:96-101 | An empty list fails with NoTemperatureEntries. A non-empty one yields min and max that are members bounding every element, and the exact mean, which lies between them. |
| `Routes.PrecipitationList` | app.py:52-56 | One dictionary per query row, in row order. Entry i has the single key `date` of row i, mapped to that row's prcp. |
| `Routes.Precipitation` | app.py:43-58 | An empty table gives EmptyDataset. Otherwise the route succeeds exactly when the window exists, and fails only with a date error. On success it returns one single-key dictionary per precipitation row of the most active station, in sorted order. |
| `Routes.Stations` | app.py:63-67 | The station list has one entry per station-table row, in storage order. Entry i is row i's id; nothing is removed or reordered. |
| `Routes.Tobs` | app.py:73-83 | Fails as the precipitation route does. On success the result is the tobs query's rows for the most active station and its window, in storage order. Every pair comes from a row of that station dated after the window start, and every such row is reported. |
| `Routes.TobsHoldsLatest` | app.py:80 | With ISO-formatted dates, the tobs route reports the most active station's latest measurement whenever the window exists. |
| `Routes.Temperatures` | app.py:93-95 | The temperature list has one entry per query row, in row order, the row's tobs (`RangeTemperatures` is that list for the summary query of app.py:90 and 112). |
| `Routes.TemperatureSummary` | app.py:88-106 | An empty table gives EmptyDataset. The 404 failure happens exactly when the station has no row in the range. Otherwise the result is a one-element list holding the summary of exactly those rows' temperatures. |
| `Routes.StartDate` | app.py:86-106 | The same for the open range `date >= start`. |
| `Routes.StartEndDate` | app.py:109-128 | The same for the closed range `start <= date <= end`. |
| `Routes.SummaryFromRange` | app.py:112-126 | The reported min and max are temperatures of the most active station's rows in the range. They bound every such temperature, and the exact mean lies between them. |
| `Routes.StartAfterAllIsNotFound` | app.py:100-101 | A start after every stored date gives the no-temperature failure, answered 404 with the fixed message. |

## Left out

- Flask routing, `jsonify`, the HTML home page, the `print` calls and `app.run`: web and I/O plumbing. Results are Dafny values: a sequence of maps for precipitation, `Reading` pairs for tobs, a one-element sequence of `TempSummary` for the summaries.
- Engine creation, automap reflection and opening and closing the session: database infrastructure. The two tables are given as immutable sequences of rows in storage order.
- `Queries.Summarize`: `avg` is the exact mean over reals. The model does not pin `round(np.mean(...), 0)` in float64, because the rounding and summation order belong to numpy. The reported average is rounded to a whole number, so it can fall outside [min, max] when temperatures are fractional: a single row with tobs 70.4 reports min 70.4, avg 70.0, max 70.4. The bound `min <= avg <= max` carries over to the reported value only for whole-number temperatures. The same applies to `Queries.SummaryOfRows` and `Routes.SummaryFromRange`. Temperatures and precipitation are reals, with no NaN or infinities.
- `Queries.Summarize`: the `"min: X"`, `"avg: Y"`, `"max: Z"` labels are kept abstract as the three fields of `TempSummary`; `str()` of a float is not modelled.
- `Queries.MostActive`: among stations tied for the highest count it returns the one whose first row comes earliest. SQLite's choice among ties is unspecified, and every property proved uses only `IsMostActive`, which holds for any tied station.
- `Queries.SortByDate`: rows with equal dates keep storage order. SQLite's order among equal dates is unspecified.
- `Text.ParseNat`: only non-empty ASCII digit strings are read. Other spellings Python's `int()` accepts (surrounding spaces, a `+` sign, `_` between digits, non-ASCII digits) are treated as InvalidDate.
- `Calendar.Parse`: Python raises different exceptions here (IndexError for fewer than three pieces, ValueError for a bad number or day). All are InvalidDate, because every one becomes the same server error.
- Binding of a `datetime.date` against the text column: `query_date` is compared as its `isoformat()` text, which is what the default `date` adapter of Python's `sqlite3` module passes to SQLite.
- A NULL `tobs`: the model's `tobs` is always a number, since `min` over a list holding `None` fails differently.
- Text comparison is on character codes. SQLite compares UTF-8 bytes, which orders the same way.
