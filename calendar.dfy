/**
  The part of Python's `datetime` that DateHour relies on: the proleptic Gregorian
  calendar, naive date-times limited to years 1..9999, and `datetime +/- timedelta`
  done by counting hours since 0001-01-01 00:00.
*/
module Calendar {
  import opened Results

  const MinYear: int := 1
  const MaxYear: int := 9999

  /** Leap-year rule of the Gregorian calendar (Appendix C of RFC 3339). */
  predicate IsLeap(y: int) {
    y % 4 == 0 && (y % 100 != 0 || y % 400 == 0)
  }

  function DaysInMonth(y: int, m: int): (r: int)
    requires 1 <= m <= 12
    ensures 28 <= r <= 31
    ensures r == 29 <==> m == 2 && IsLeap(y)
  {
    if m == 2 then (if IsLeap(y) then 29 else 28)
    else if m == 4 || m == 6 || m == 9 || m == 11 then 30
    else 31
  }

  function DaysInYear(y: int): int {
    if IsLeap(y) then 366 else 365
  }

  /** Days of year `y` that lie in months before `m`; `m == 13` counts the whole year. */
  function DaysBeforeMonth(y: int, m: int): nat
    requires 1 <= m <= 13
  {
    if m == 1 then 0 else DaysBeforeMonth(y, m - 1) + DaysInMonth(y, m - 1)
  }

  /** Days from 0001-01-01 to January 1 of year `y` (the closed form `datetime` uses). */
  function DaysBeforeYear(y: int): int
    requires y >= MinYear
  {
    var a := y - 1;
    365 * a + a / 4 - a / 100 + a / 400
  }

  /** The first hour after the last one `datetime` can represent. */
  const HourLimit: int := 24 * DaysBeforeYear(MaxYear + 1)

  /** A naive `datetime` with no sub-second part. */
  datatype DateTime = DateTime(year: int, month: int, day: int, hour: int, minute: int, second: int) {
    predicate Valid() {
      && MinYear <= year <= MaxYear
      && 1 <= month <= 12
      && 1 <= day <= DaysInMonth(year, month)
      && 0 <= hour <= 23
      && 0 <= minute <= 59
      && 0 <= second <= 59
    }
  }

  /** A date-time truncated to the hour: minutes and seconds are zero. */
  datatype Instant = Instant(year: int, month: int, day: int, hour: int) {
    predicate Valid() {
      && MinYear <= year <= MaxYear
      && 1 <= month <= 12
      && 1 <= day <= DaysInMonth(year, month)
      && 0 <= hour <= 23
    }
  }

  /** `dt.replace(minute=0, second=0, microsecond=0)` */
  function Truncate(dt: DateTime): (i: Instant)
    requires dt.Valid()
    ensures i.Valid() && ToDateTime(i) == dt.(minute := 0, second := 0)
    ensures ToDateTime(i) == dt <==> dt.minute == 0 && dt.second == 0
  {
    Instant(dt.year, dt.month, dt.day, dt.hour)
  }

  function ToDateTime(i: Instant): DateTime {
    DateTime(i.year, i.month, i.day, i.hour, 0, 0)
  }

  /** Chronological order, field by field. */
  predicate Before(i: Instant, j: Instant) {
    || i.year < j.year
    || (i.year == j.year && i.month < j.month)
    || (i.year == j.year && i.month == j.month && i.day < j.day)
    || (i.year == j.year && i.month == j.month && i.day == j.day && i.hour < j.hour)
  }

  /** Whole days from 0001-01-01 to the date of `i` (`toordinal() - 1`). */
  function DayIndex(i: Instant): int
    requires i.Valid()
  {
    DaysBeforeYear(i.year) + DaysBeforeMonth(i.year, i.month) + i.day - 1
  }

  /** Hours from 0001-01-01 00:00 to `i`. */
  function ToHours(i: Instant): (n: int)
    requires i.Valid()
    ensures 0 <= n < HourLimit
  {
    DayWithinYear(i);
    DaysBeforeYearMonotone(i.year + 1, MaxYear + 1);
    24 * DayIndex(i) + i.hour
  }

  /** Locates day `n`, counted from January 1 of year `y`, as (year, day of that year from 0). */
  function YearOf(y: int, n: nat): (r: (int, nat))
    requires y >= MinYear
    ensures r.0 >= y && r.1 < DaysInYear(r.0)
    ensures DaysBeforeYear(r.0) + r.1 == DaysBeforeYear(y) + n
    decreases n
  {
    if n < DaysInYear(y) then (y, n)
    else
      DaysBeforeNextYear(y);
      YearOf(y + 1, n - DaysInYear(y))
  }

  /** Locates day `n` of year `y`, counted from the first of month `m`, as (month, day of month). */
  function MonthOf(y: int, m: int, n: nat): (r: (int, int))
    requires 1 <= m <= 12 && n < DaysBeforeMonth(y, 13) - DaysBeforeMonth(y, m)
    ensures m <= r.0 <= 12 && 1 <= r.1 <= DaysInMonth(y, r.0)
    ensures DaysBeforeMonth(y, r.0) + r.1 - 1 == DaysBeforeMonth(y, m) + n
    decreases 12 - m
  {
    if n < DaysInMonth(y, m) then (m, n + 1)
    else MonthOf(y, m + 1, n - DaysInMonth(y, m))
  }

  /** The instant `n` hours after 0001-01-01 00:00. */
  function FromHours(n: int): (i: Instant)
    requires 0 <= n < HourLimit
    ensures i.Valid() && ToHours(i) == n
  {
    var (y, r) := YearOf(MinYear, n / 24);
    YearBelowLimit(y, n / 24);
    DaysInYearByMonths(y);
    var (m, d) := MonthOf(y, 1, r);
    Instant(y, m, d, n % 24)
  }

  /** `i + timedelta(hours=n)`; None where Python raises OverflowError. */
  function AddHours(i: Instant, n: int): (r: Option<Instant>)
    requires i.Valid()
    ensures r.Some? <==> 0 <= ToHours(i) + n < HourLimit
    ensures r.Some? ==> r.value.Valid() && ToHours(r.value) == ToHours(i) + n
  {
    var h := ToHours(i) + n;
    if 0 <= h < HourLimit then Some(FromHours(h)) else None
  }

  /** The next hour, by the calendar's own rules: the reference for one-hour steps. */
  function NextHour(i: Instant): Instant
    requires i.Valid()
  {
    if i.hour < 23 then Instant(i.year, i.month, i.day, i.hour + 1)
    else if i.day < DaysInMonth(i.year, i.month) then Instant(i.year, i.month, i.day + 1, 0)
    else if i.month < 12 then Instant(i.year, i.month + 1, 1, 0)
    else Instant(i.year + 1, 1, 1, 0)
  }

  // ---------------------------------------------------------------------------
  // Day counting

  lemma DaysInYearByMonths(y: int)
    ensures DaysBeforeMonth(y, 13) == DaysInYear(y)
  {
    assert DaysBeforeMonth(y, 2) == 31;
    assert DaysBeforeMonth(y, 3) == 31 + DaysInMonth(y, 2);
    assert DaysBeforeMonth(y, 4) == 62 + DaysInMonth(y, 2);
    assert DaysBeforeMonth(y, 5) == 92 + DaysInMonth(y, 2);
    assert DaysBeforeMonth(y, 6) == 123 + DaysInMonth(y, 2);
    assert DaysBeforeMonth(y, 7) == 153 + DaysInMonth(y, 2);
    assert DaysBeforeMonth(y, 8) == 184 + DaysInMonth(y, 2);
    assert DaysBeforeMonth(y, 9) == 215 + DaysInMonth(y, 2);
    assert DaysBeforeMonth(y, 10) == 245 + DaysInMonth(y, 2);
    assert DaysBeforeMonth(y, 11) == 276 + DaysInMonth(y, 2);
    assert DaysBeforeMonth(y, 12) == 306 + DaysInMonth(y, 2);
  }

  /** The closed form grows by exactly one year's length from one year to the next. */
  lemma DaysBeforeNextYear(y: int)
    requires y >= MinYear
    ensures DaysBeforeYear(y + 1) == DaysBeforeYear(y) + DaysInYear(y)
  {
    var a := y - 1;
    DivStep(a, 4);
    DivStep(a, 100);
    DivStep(a, 400);
  }

  /** Counting one further crosses a multiple of `d` exactly when it reaches one. */
  lemma DivStep(a: int, d: int)
    requires a >= 0 && d > 0
    ensures (a + 1) / d == a / d + (if (a + 1) % d == 0 then 1 else 0)
  {
    var q, r := a / d, a % d;
    assert a == d * q + r && 0 <= r < d;
    if r + 1 < d {
      DivUnique(a + 1, d, q, r + 1);
      assert (a + 1) % d != 0;
    } else {
      DivUnique(a + 1, d, q + 1, 0);
    }
  }

  lemma DivUnique(a: int, d: int, q: int, r: int)
    requires d > 0 && 0 <= r < d && a == d * q + r
    ensures a / d == q
  {
    var q', r' := a / d, a % d;
    assert a == d * q' + r' && 0 <= r' < d;
    if q' < q {
      assert d * q - d * q' == d * (q - q');
      MulAtLeast(d, q - q');
    } else if q < q' {
      assert d * q' - d * q == d * (q' - q);
      MulAtLeast(d, q' - q);
    }
  }

  lemma MulAtLeast(d: int, k: int)
    requires d > 0 && k >= 1
    ensures d * k >= d
  {
  }

  lemma {:induction false} DaysBeforeYearMonotone(y1: int, y2: int)
    requires MinYear <= y1 <= y2
    ensures DaysBeforeYear(y1) <= DaysBeforeYear(y2)
    ensures y1 < y2 ==> DaysBeforeYear(y1) + DaysInYear(y1) <= DaysBeforeYear(y2)
    decreases y2 - y1
  {
    if y1 < y2 {
      DaysBeforeNextYear(y1);
      DaysBeforeYearMonotone(y1 + 1, y2);
    }
  }

  lemma {:induction false} DaysBeforeMonthMonotone(y: int, m1: int, m2: int)
    requires 1 <= m1 <= m2 <= 13
    ensures DaysBeforeMonth(y, m1) <= DaysBeforeMonth(y, m2)
    ensures m1 < m2 ==> DaysBeforeMonth(y, m1) + DaysInMonth(y, m1) <= DaysBeforeMonth(y, m2)
    decreases m2 - m1
  {
    if m1 < m2 {
      DaysBeforeMonthMonotone(y, m1 + 1, m2);
    }
  }

  /** A valid date falls inside its own year. */
  lemma DayWithinYear(i: Instant)
    requires i.Valid()
    ensures DaysBeforeMonth(i.year, i.month) + i.day - 1 < DaysInYear(i.year)
    ensures DayIndex(i) < DaysBeforeYear(i.year + 1)
  {
    DaysBeforeMonthMonotone(i.year, i.month, 13);
    DaysInYearByMonths(i.year);
    DaysBeforeNextYear(i.year);
  }

  /** An hour before the last year has a following hour that `datetime` can represent. */
  lemma RoomAfter(i: Instant)
    requires i.Valid() && i.year < MaxYear
    ensures ToHours(i) + 1 < HourLimit
  {
    DayWithinYear(i);
    DaysBeforeYearMonotone(i.year + 1, MaxYear + 1);
  }

  lemma YearBelowLimit(y: int, days: int)
    requires y >= MinYear && DaysBeforeYear(y) <= days < DaysBeforeYear(MaxYear + 1)
    ensures y <= MaxYear
  {
    if y > MaxYear {
      DaysBeforeYearMonotone(MaxYear + 1, y);
    }
  }

  // ---------------------------------------------------------------------------
  // Hour counting: order, injectivity, round trips

  /** Counting hours preserves chronological order. */
  lemma BeforeHasFewerHours(i: Instant, j: Instant)
    requires i.Valid() && j.Valid() && Before(i, j)
    ensures ToHours(i) < ToHours(j)
  {
    if i.year < j.year {
      DayWithinYear(i);
      DaysBeforeYearMonotone(i.year, j.year);
    } else if i.month < j.month {
      DaysBeforeMonthMonotone(i.year, i.month, j.month);
    }
  }

  /** `Before` is the order of hour counts: the two agree in both directions. */
  lemma {:induction false} HoursOrder(i: Instant, j: Instant)
    requires i.Valid() && j.Valid()
    ensures Before(i, j) <==> ToHours(i) < ToHours(j)
    ensures i == j <==> ToHours(i) == ToHours(j)
  {
    if Before(i, j) {
      BeforeHasFewerHours(i, j);
    } else if Before(j, i) {
      BeforeHasFewerHours(j, i);
    } else {
      assert i == j;
    }
  }

  lemma FromHoursToHours(i: Instant)
    requires i.Valid()
    ensures FromHours(ToHours(i)) == i
  {
    HoursOrder(FromHours(ToHours(i)), i);
  }

  /** One hour later by counting is the calendar's next hour, across day, month and year ends. */
  lemma NextHourIsOneMore(i: Instant)
    requires i.Valid() && ToHours(i) + 1 < HourLimit
    ensures NextHour(i).Valid()
    ensures ToHours(NextHour(i)) == ToHours(i) + 1
    ensures FromHours(ToHours(i) + 1) == NextHour(i)
  {
    NextHourCount(i);
    HoursOrder(NextHour(i), FromHours(ToHours(i) + 1));
  }

  lemma NextHourCount(i: Instant)
    requires i.Valid() && ToHours(i) + 1 < HourLimit
    ensures NextHour(i).Valid() && ToHours(NextHour(i)) == ToHours(i) + 1
  {
    if i.hour < 23 {
    } else if i.day < DaysInMonth(i.year, i.month) {
    } else if i.month < 12 {
      assert DaysBeforeMonth(i.year, i.month + 1) == DaysBeforeMonth(i.year, i.month) + DaysInMonth(i.year, i.month);
    } else {
      DaysInYearByMonths(i.year);
      DaysBeforeNextYear(i.year);
      assert DayIndex(i) + 1 == DaysBeforeYear(i.year + 1);
      assert i.year < MaxYear;
      assert DayIndex(NextHour(i)) == DaysBeforeYear(i.year + 1);
    }
  }
}
