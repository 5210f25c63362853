/** The proleptic Gregorian calendar as Python's `datetime.date` implements it: the
    day numbers `toordinal()` gives (1 January of year 1 is day 1), the constructor's
    range checks, subtracting a `timedelta` of whole days, and the `YYYY-MM-DD` text
    `isoformat()` writes.  A route reads a stored date by splitting it on `-` and
    passing the three `int()`s to `date(...)`; `Parse` models that. */
module Calendar {
  import opened Outcomes
  import opened Text

  const MinYear: int := 1
  const MaxYear: int := 9999

  datatype Date = Date(year: int, month: int, day: int)

  predicate IsLeap(y: int)
  {
    y % 4 == 0 && (y % 100 != 0 || y % 400 == 0)
  }

  function DaysInMonth(y: int, m: int): int
    requires 1 <= m <= 12
  {
    if m == 2 then (if IsLeap(y) then 29 else 28)
    else if m == 4 || m == 6 || m == 9 || m == 11 then 30
    else 31
  }

  function DaysInYear(y: int): int
  {
    if IsLeap(y) then 366 else 365
  }

  /** Days in the months of year `y` before month `m`. */
  function DaysBeforeMonth(y: int, m: int): int
    requires 1 <= m <= 12
  {
    var common := [0, 31, 59, 90, 120, 151, 181, 212, 243, 273, 304, 334];
    common[m - 1] + (if m > 2 && IsLeap(y) then 1 else 0)
  }

  /** Days in the years before year `y`. */
  function DaysBeforeYear(y: int): int
    requires y >= 1
  {
    var p := y - 1;
    p * 365 + p / 4 - p / 100 + p / 400
  }

  /** What `date(y, m, d)` accepts. */
  predicate Valid(d: Date)
  {
    MinYear <= d.year <= MaxYear && 1 <= d.month <= 12 && 1 <= d.day <= DaysInMonth(d.year, d.month)
  }

  /** `d.toordinal()`. */
  function Ordinal(d: Date): int
    requires Valid(d)
  {
    DaysBeforeYear(d.year) + DaysBeforeMonth(d.year, d.month) + d.day
  }

  /** Calendar order: by year, then month, then day. */
  predicate Before(a: Date, b: Date)
  {
    a.year < b.year
    || (a.year == b.year && (a.month < b.month || (a.month == b.month && a.day < b.day)))
  }

  // ---------------------------------------------------------------------------
  // Day numbers

  lemma MonthStep(y: int, m: int)
    requires 1 <= m < 12
    ensures DaysBeforeMonth(y, m + 1) == DaysBeforeMonth(y, m) + DaysInMonth(y, m)
  {
  }

  lemma YearEnd(y: int)
    ensures DaysBeforeMonth(y, 12) + DaysInMonth(y, 12) == DaysInYear(y)
  {
  }

  /** Going from year `y` to `y + 1` adds one multiple of `k` below the year exactly
      when `k` divides `y`. */
  lemma MultipleStep(y: int, k: int)
    requires y >= 1 && (k == 4 || k == 100 || k == 400)
    ensures y / k - (y - 1) / k == if y % k == 0 then 1 else 0
  {
  }

  /** Every year divisible by 400 is divisible by 100, and so by 4. */
  lemma CenturyDivides(y: int)
    ensures y % 400 == 0 ==> y % 100 == 0
    ensures y % 100 == 0 ==> y % 4 == 0
  {
  }

  /** The closed form of `DaysBeforeYear` counts one leap day for each leap year. */
  lemma YearStep(y: int)
    requires y >= 1
    ensures DaysBeforeYear(y + 1) == DaysBeforeYear(y) + DaysInYear(y)
  {
    MultipleStep(y, 4);
    MultipleStep(y, 100);
    MultipleStep(y, 400);
    CenturyDivides(y);
  }

  lemma {:induction false} YearsIncrease(y: int, y': int)
    requires 1 <= y < y'
    ensures DaysBeforeYear(y) + DaysInYear(y) <= DaysBeforeYear(y')
    decreases y' - y
  {
    YearStep(y);
    if y + 1 < y' {
      YearsIncrease(y + 1, y');
    }
  }

  lemma {:induction false} MonthsIncrease(y: int, m: int, m': int)
    requires 1 <= m < m' <= 12
    ensures DaysBeforeMonth(y, m) + DaysInMonth(y, m) <= DaysBeforeMonth(y, m')
    decreases m' - m
  {
    MonthStep(y, m);
    if m + 1 < m' {
      MonthsIncrease(y, m + 1, m');
    }
  }

  /** Day numbers follow calendar order, so `toordinal()` is one-to-one. */
  lemma OrdinalOrder(a: Date, b: Date)
    requires Valid(a) && Valid(b)
    ensures Ordinal(a) < Ordinal(b) <==> Before(a, b)
    ensures Ordinal(a) == Ordinal(b) <==> a == b
  {
    if a.year < b.year {
      BeforeIsEarlier(a, b);
    } else if b.year < a.year {
      BeforeIsEarlier(b, a);
    } else if a.month < b.month {
      BeforeIsEarlier(a, b);
    } else if b.month < a.month {
      BeforeIsEarlier(b, a);
    }
  }

  lemma BeforeIsEarlier(a: Date, b: Date)
    requires Valid(a) && Valid(b) && Before(a, b)
    ensures Ordinal(a) < Ordinal(b)
  {
    if a.year < b.year {
      if a.month < 12 {
        MonthsIncrease(a.year, a.month, 12);
      }
      YearEnd(a.year);
      YearsIncrease(a.year, b.year);
    } else if a.month < b.month {
      MonthsIncrease(a.year, a.month, b.month);
    }
  }

  /** The earliest day the calendar can represent. */
  const FirstDay: Date := Date(MinYear, 1, 1)

  lemma OrdinalPositive(d: Date)
    requires Valid(d)
    ensures Ordinal(d) >= 1
    ensures Ordinal(d) == 1 <==> d == FirstDay
  {
    var p := d.year - 1;
    assert p / 4 >= p / 100;
    if d != FirstDay {
      BeforeIsEarlier(FirstDay, d);
    }
  }

  // ---------------------------------------------------------------------------
  // Stepping back

  /** The day before `d`. */
  function PrevDay(d: Date): Date
    requires Valid(d) && d != FirstDay
  {
    if d.day > 1 then Date(d.year, d.month, d.day - 1)
    else if d.month > 1 then Date(d.year, d.month - 1, DaysInMonth(d.year, d.month - 1))
    else Date(d.year - 1, 12, 31)
  }

  lemma PrevDayOrdinal(d: Date)
    requires Valid(d) && d != FirstDay
    ensures Valid(PrevDay(d))
    ensures Ordinal(PrevDay(d)) == Ordinal(d) - 1
  {
    if d.day > 1 {
      PrevWithinMonth(d);
    } else if d.month > 1 {
      PrevAcrossMonth(d);
    } else {
      PrevAcrossYear(d);
    }
  }

  lemma PrevWithinMonth(d: Date)
    requires Valid(d) && d.day > 1
    ensures PrevDay(d) == Date(d.year, d.month, d.day - 1)
    ensures Valid(PrevDay(d)) && Ordinal(PrevDay(d)) == Ordinal(d) - 1
  {
  }

  lemma PrevAcrossMonth(d: Date)
    requires Valid(d) && d.day == 1 && d.month > 1
    ensures Valid(PrevDay(d)) && Ordinal(PrevDay(d)) == Ordinal(d) - 1
  {
    var e := Date(d.year, d.month - 1, DaysInMonth(d.year, d.month - 1));
    assert PrevDay(d) == e;
    MonthStep(d.year, d.month - 1);
  }

  lemma PrevAcrossYear(d: Date)
    requires Valid(d) && d.day == 1 && d.month == 1 && d.year > 1
    ensures Valid(PrevDay(d)) && Ordinal(PrevDay(d)) == Ordinal(d) - 1
  {
    var e := Date(d.year - 1, 12, 31);
    assert PrevDay(d) == e;
    YearStep(d.year - 1);
    YearEnd(d.year - 1);
  }

  /** `d - timedelta(days=n)`: the date `n` days earlier, or OverflowError when that
      would fall before 1 January of year 1. */
  function MinusDays(d: Date, n: nat): Result<Date>
    requires Valid(d)
    decreases n
  {
    if n == 0 then Ok(d)
    else if d == FirstDay then Err(DateOverflow)
    else MinusDays(PrevDay(d), n - 1)
  }

  /** Subtraction is ordinal arithmetic: it succeeds exactly when the result's day
      number is still positive, and then the day numbers differ by `n`. */
  lemma {:induction false} MinusDaysOrdinal(d: Date, n: nat)
    requires Valid(d)
    ensures MinusDays(d, n).Ok? <==> Ordinal(d) > n
    ensures MinusDays(d, n).Err? ==> MinusDays(d, n).error == DateOverflow
    ensures MinusDays(d, n).Ok? ==> Valid(MinusDays(d, n).value) && Ordinal(MinusDays(d, n).value) == Ordinal(d) - n
    decreases n
  {
    if n > 0 && d == FirstDay {
      OverflowAtFirstDay(d, n);
    } else if n > 0 {
      StepBack(d, n);
    }
  }

  /** Nothing precedes the first day. */
  lemma OverflowAtFirstDay(d: Date, n: nat)
    requires d == FirstDay && n > 0
    ensures MinusDays(d, n).Ok? <==> Ordinal(d) > n
    ensures MinusDays(d, n).Err? ==> MinusDays(d, n).error == DateOverflow
    ensures MinusDays(d, n).Ok? ==> Valid(MinusDays(d, n).value) && Ordinal(MinusDays(d, n).value) == Ordinal(d) - n
  {
    assert MinusDays(d, n) == Err(DateOverflow);
  }

  /** The inductive step of MinusDaysOrdinal, kept apart so that the day number of
      the day before is only seen through PrevDayOrdinal. */
  lemma {:induction false} StepBack(d: Date, n: nat)
    requires Valid(d) && d != FirstDay && n > 0
    ensures MinusDays(d, n).Ok? <==> Ordinal(d) > n
    ensures MinusDays(d, n).Err? ==> MinusDays(d, n).error == DateOverflow
    ensures MinusDays(d, n).Ok? ==> Valid(MinusDays(d, n).value) && Ordinal(MinusDays(d, n).value) == Ordinal(d) - n
    decreases n, 0
  {
    var e := PrevDay(d);
    PrevDayOrdinal(d);
    MinusDaysOrdinal(e, n - 1);
  }

  // ---------------------------------------------------------------------------
  // Text form

  /** `d.isoformat()`: four-digit year, two-digit month and day, zero-padded. */
  function Format(d: Date): string
    requires Valid(d)
  {
    Pad(d.year, 4) + ['-'] + Pad(d.month, 2) + ['-'] + Pad(d.day, 2)
  }

  /** `s.split('-')`, `int()` of the first three pieces and `date(...)` of the three
      numbers; every exception on the way (too few pieces, a piece `int()` rejects, a
      day that does not exist) is InvalidDate. */
  function Parse(s: string): (r: Result<Date>)
    ensures r.Ok? ==> Valid(r.value)
    ensures r.Err? ==> r.error == InvalidDate
  {
    var parts := Split(s, '-');
    if |parts| < 3 then Err(InvalidDate)
    else
      match (ParseNat(parts[0]), ParseNat(parts[1]), ParseNat(parts[2]))
      case (Some(y), Some(m), Some(d)) =>
        if Valid(Date(y, m, d)) then Ok(Date(y, m, d)) else Err(InvalidDate)
      case _ => Err(InvalidDate)
  }

  /** A stored date in canonical ISO form: it parses, and formatting the parsed day
      gives the same text back. */
  predicate IsIsoDate(s: string)
  {
    Parse(s).Ok? && Format(Parse(s).value) == s
  }

  /** Reading back what `isoformat()` wrote gives the same day. */
  lemma FormatParse(d: Date)
    requires Valid(d)
    ensures Parse(Format(d)) == Ok(d)
    ensures IsIsoDate(Format(d))
  {
    var y, m, dd := Pad(d.year, 4), Pad(d.month, 2), Pad(d.day, 2);
    NoSeparator(y);
    NoSeparator(m);
    NoSeparator(dd);
    SplitFirst(y, '-', m + ['-'] + dd);
    SplitFirst(m, '-', dd);
    SplitNone(dd, '-');
    assert Format(d) == y + ['-'] + (m + ['-'] + dd);
    assert Split(Format(d), '-') == [y, m, dd];
    PadValue(d.year, 4);
    PadValue(d.month, 2);
    PadValue(d.day, 2);
  }

  lemma NoSeparator(s: string)
    requires AllDigits(s)
    ensures '-' !in s
  {
  }

  /** On canonical ISO dates, comparing the texts is comparing the days. */
  lemma FormatOrder(a: Date, b: Date)
    requires Valid(a) && Valid(b)
    ensures Less(Format(a), Format(b)) <==> Ordinal(a) < Ordinal(b)
  {
    var ya, ma, da := Pad(a.year, 4), Pad(a.month, 2), Pad(a.day, 2);
    var yb, mb, db := Pad(b.year, 4), Pad(b.month, 2), Pad(b.day, 2);
    assert Format(a) == ya + (['-'] + (ma + (['-'] + da)));
    assert Format(b) == yb + (['-'] + (mb + (['-'] + db)));
    LessConcat(ya, ['-'] + (ma + (['-'] + da)), yb, ['-'] + (mb + (['-'] + db)));
    LessConcat(['-'], ma + (['-'] + da), ['-'], mb + (['-'] + db));
    LessConcat(ma, ['-'] + da, mb, ['-'] + db);
    LessConcat(['-'], da, ['-'], db);
    PadLess(a.year, b.year, 4);
    PadLess(a.month, b.month, 2);
    PadLess(a.day, b.day, 2);
    PadValue(a.year, 4);
    PadValue(b.year, 4);
    PadValue(a.month, 2);
    PadValue(b.month, 2);
    OrdinalOrder(a, b);
  }

  /** The trailing-year step of the precipitation and tobs routes: parse the latest
      stored date and go back 365 days.  On success the two days are exactly 365 day
      numbers apart; it fails on a date that does not parse, and on one within the
      first 365 days of the calendar. */
  function YearBefore(latest: string): (r: Result<Date>)
    ensures Parse(latest).Err? ==> r == Err(InvalidDate)
    ensures Parse(latest).Ok? ==> (r.Ok? <==> Ordinal(Parse(latest).value) > 365)
    ensures r.Err? ==> r.error == InvalidDate || r.error == DateOverflow
    ensures r.Ok? ==> Parse(latest).Ok? && Valid(r.value)
                      && Ordinal(Parse(latest).value) - Ordinal(r.value) == 365
  {
    match Parse(latest)
    case Err(e) => Err(e)
    case Ok(d) => MinusDaysOrdinal(d, 365); MinusDays(d, 365)
  }
}
