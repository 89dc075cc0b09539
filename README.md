# date_hour in Dafny

A verified model of the `date_hour` package: the `DateHour` value type and the `TimeRange`
pair built from it.

A `DateHour` is made from one of three things:

- a text in one of six `strptime` layouts, from `YYYY` up to `YYYY-MM-DD HH:MM:SS`;
- a `datetime`;
- another `DateHour`.

The constructor tries the layouts in order, and the first one that matches decides the
granularity: year, month, day or hour. The value is truncated to its hour and stored as the
canonical text `YYYY-MM-DD HH:00:00`. Each DateHour has three derived operations:

- `start` is the first hour of its period;
- `stop` is the last hour of its period;
- `+ n` and `- n` shift from the start of the period and give an hour-granularity DateHour.

A `TimeRange` is a start DateHour and a stop DateHour. If the stop is omitted, it is the last
hour of the start's period.

Modules:

- `Results`: `Option` and `Result` values, which stand for `None` and for raised exceptions.
- `Calendar`: the part of Python's `datetime` the package relies on:
  - the proleptic Gregorian leap rule and month lengths;
  - years 1..9999;
  - hours counted from 0001-01-01 00:00, with the conversion back;
  - `datetime ± timedelta(hours=n)`, with its `OverflowError`.
- `TimeText`: `strftime('%Y-%m-%d %H:%M:%S')` and `strptime` against the six layouts. Fields are
  fixed-width, zero-padded decimal digits.
- `DateHours`: `date_hour/date_hour.py`.
- `TimeRanges`: `date_hour/time_range.py`.

Errors are values:

- `Unparsable(value, supported)` stands for the `ValueError` raised when no layout matches.
- `YearOutOfRange(10000)` stands for the `ValueError` raised by `dt.replace(year=dt.year + 1)`
  for December 9999.
- `DateOverflow` stands for the `OverflowError` raised by a shift outside years 1..9999.

Behaviours of the code worth knowing:

- The code accepts six layouts, including `YYYY-MM-DD HH:MM`.
- `TimeRange` has no length or hour-count method. `TimeRanges.OmittedStopSpan` is a derived
  property of the model, not an operation of the package.
- A `DateHour` passed to `DateHour(...)` or to `TimeRange(...)` is re-read from its canonical
  text. Its granularity therefore becomes `hour` (`DateHours.CanonicalRoundTrip`,
  `TimeRanges.DateHourStartCollapses`).
- The month stop of December 9999 raises instead of giving 9999-12-31 23:00
  (`DateHours.MonthLastHour`).

## Model

| member | source | states |
|---|---|---|
| `Calendar.DaysInMonth` | date_hour/date_hour.py:79-86 | every month has 28..31 days, and 29 exactly for February of a leap year |
| `Calendar.Truncate` | date_hour/date_hour.py:28 | `replace(minute=0, second=0)` gives a valid hour whose date-time is the input with minutes and seconds set to zero; it equals the input exactly when those were already zero |
| `Calendar.ToHours` | date_hour/date_hour.py:107 | every valid instant has an hour count in `0 .. HourLimit`, the range `datetime` can represent |
| `Calendar.FromHours` | date_hour/date_hour.py:107 | every count in range names a valid instant, whose own count is that number |
| `Calendar.FromHoursToHours` | date_hour/date_hour.py:107 | counting the hours of an instant and converting back gives the instant |
| `Calendar.HoursOrder` | date_hour/date_hour.py:72-92 | chronological order of instants is the order of their hour counts, and equal counts mean equal instants |
| `Calendar.AddHours` | date_hour/date_hour.py:106-107 | `dt + timedelta(hours=n)` succeeds exactly when the result stays within years 1..9999, and then lies `n` hours later |
| `Calendar.NextHourIsOneMore` | date_hour/date_hour.py:110-114 | the calendar successor of an hour, which rolls over day, month and year, is one hour later |
| `TimeText.Strptime` | date_hour/date_hour.py:42 | a layout matches only text of its exact width and shape, and yields a valid date-time |
| `TimeText.StrptimePrefix` | date_hour/date_hour.py:10-17 | every layout accepts its own prefix of a rendered valid date-time whose unread fields hold the defaults, and reads exactly that date-time |
| `TimeText.FieldOfPrefix` | date_hour/date_hour.py:42 | a two-digit field is read from the text when the text reaches it, and takes its default otherwise |
| `TimeText.Render` | date_hour/date_hour.py:29 | `strftime('%Y-%m-%d %H:%M:%S')` gives 19 characters in the full layout |
| `TimeText.StrptimeRender` | date_hour/date_hour.py:55-57 | reading rendered text with the full layout gives the date-time back |
| `TimeText.RenderStrptime` | date_hour/date_hour.py:29 | rendering a date-time read with the full layout gives the text back |
| `TimeText.NumPad` | date_hour/date_hour.py:29 | a number written zero-padded in `w` digits reads back as that number |
| `TimeText.PadNum` | date_hour/date_hour.py:42 | a run of digits read as a number and written back in the same width is unchanged |
| `DateHours.FirstMatchSpec` | date_hour/date_hour.py:40-46 | the search over the layouts finds nothing exactly when every layout fails; otherwise the first layout that matches gives the date-time and granularity |
| `DateHours.ParseString` | date_hour/date_hour.py:36-53 | the loop returns the first layout that matches with its granularity, or the error naming the value and the supported layouts exactly when none matches |
| `DateHours.New` | date_hour/date_hour.py:19-33 | a constructed DateHour is valid, and its fields below the granularity hold parsing's defaults |
| `DateHours.Canonical` | date_hour/date_hour.py:28-31 | the stored text has 19 characters and ends in `:00:00` |
| `DateHours.GetDateTime` | date_hour/date_hour.py:55-57 | reading the stored text back gives the DateHour's own hour |
| `DateHours.StartInstant` | date_hour/date_hour.py:59-70 | the start is a valid hour of the period, at 00 unless the granularity is hour |
| `DateHours.StopInstant` | date_hour/date_hour.py:72-92 | the stop fails exactly for a month DateHour of December 9999, with year 10000 out of range; otherwise it is a valid hour of the period, at 23 unless the granularity is hour |
| `DateHours.MonthLastHour` | date_hour/date_hour.py:79-86 | the month branch fails exactly for December 9999, with year 10000 out of range; otherwise it gives the month's last day (29 in a leap February) at 23:00 |
| `DateHours.Start` | date_hour/date_hour.py:94-97 | the `start` text parses back to the start hour, as an hour-granularity DateHour |
| `DateHours.Stop` | date_hour/date_hour.py:99-102 | the `stop` text fails exactly when the stop hour does, and otherwise parses back to the stop hour |
| `DateHours.Add` | date_hour/date_hour.py:110-114 | `p + n` succeeds exactly when the result is within years 1..9999; it is then an hour DateHour `n` hours after the start; otherwise it is the overflow error |
| `DateHours.Sub` | date_hour/date_hour.py:104-108 | `p - n` succeeds exactly when the result is within years 1..9999; it is then an hour DateHour `n` hours before the start; otherwise it is the overflow error |
| `DateHours.ParseByPattern` | date_hour/date_hour.py:10-17 | the layouts have distinct widths, so the one that matches decides the date-time and granularity |
| `DateHours.FromDateTimeIsHour` | date_hour/date_hour.py:20-21 | a `datetime` input gives its truncated hour with granularity hour |
| `DateHours.CanonicalRoundTrip` | date_hour/date_hour.py:11 | the canonical text parses back to the same hour with granularity hour, and so does a DateHour given to the constructor |
| `DateHours.MonthEndIsDayBeforeNext` | date_hour/date_hour.py:81-86 | one day before the first of the next month, with December rolling into January, is the last day of the month |
| `DateHours.SomePatternMatched` | date_hour/date_hour.py:40-43 | a successful parse comes from some layout that matched |
| `DateHours.ParseGranularity` | date_hour/date_hour.py:10-17 | a successful parse had a text of 4, 7, 10, 13, 16 or 19 characters, and its granularity is year, month, day or hour by that length |
| `DateHours.ParseFailure` | date_hour/date_hour.py:48-53 | parsing fails exactly when no layout matches, with the error naming the value and the supported layouts |
| `DateHours.ParsedIsAligned` | date_hour/date_hour.py:26-33 | a parsed DateHour is valid and holds month 1, day 1 and hour 0 below its granularity |
| `DateHours.ParsedStartIsItself` | date_hour/date_hour.py:59-70 | the start of a freshly parsed DateHour is the DateHour itself, and the `start` text is its canonical text |
| `DateHours.CanonicalCompletesInput` | date_hour/date_hour.py:26-29 | the canonical text is the input up to its hour, completed from `0001-01-01 00:00:00` |
| `DateHours.Boundaries` | date_hour/date_hour.py:59-92 | start and stop for each granularity: Jan 1 00 to Dec 31 23, day 1 00 to the month's last day 23, 00 to 23 of the day, or the hour itself |
| `DateHours.StartIsFirstHour` | date_hour/date_hour.py:59-70 | no hour of the period comes before the start |
| `DateHours.StopIsLastHour` | date_hour/date_hour.py:72-92 | no hour of the period comes after the stop |
| `DateHours.StartNotAfterStop` | date_hour/date_hour.py:94-102 | start is not after stop, has no more hours, and both lie in the DateHour's year |
| `DateHours.ShiftIsSingleHour` | date_hour/date_hour.py:69-70 | an hour DateHour starts and stops at its own hour |
| `DateHours.AddIsFromHours` | date_hour/date_hour.py:110-114 | `p + n` is the instant with the start's hour count plus `n` |
| `DateHours.SubIsAddNegated` | date_hour/date_hour.py:104-114 | `p - n` equals `p + (-n)` |
| `DateHours.AddThenSub` | date_hour/date_hour.py:104-114 | adding and then subtracting `n` hours returns to the start of the period |
| `DateHours.AddAdd` | date_hour/date_hour.py:110-114 | two shifts in a row are one shift by the sum |
| `DateHours.AddOneIsNextHour` | date_hour/date_hour.py:110-114 | `p + 1` is the calendar's next hour after the start, across day, month and year ends |
| `DateHours.YearParses` | date_hour/date_hour.py:16 | any four-digit year parses as January 1 00:00 of that year with granularity year |
| `DateHours.PrefixParses` | date_hour/date_hour.py:10-17 | every layout, `YYYY-MM-DD` and `YYYY-MM-DD HH` included, accepts a valid date-time written in it and gives that hour with the layout's granularity (day for `2024-01-15`, hour for `2024-01-15 14`) |
| `DateHours.YearMinusOneHour` | date_hour/date_hour.py:104-108 | one hour before a year DateHour (`DateHour("2024") - 1`) is December 31 23:00 of the year before |
| `DateHours.MonthStopExamples` | date_hour/date_hour.py:79-86 | February 2024 stops on the 29th, February 2023 on the 28th and December 2024 on the 31st, each at 23:00 |
| `DateHours.MonthParses` | date_hour/date_hour.py:15 | any `YYYY-MM` with a month 1..12 parses as day 1 00:00 of that month with granularity month |
| `DateHours.MonthOutOfRangeRejected` | date_hour/date_hour.py:40-53 | `YYYY-MM` with a month 13..99 (`2024-13`) fails with the unparsable-value error |
| `DateHours.DayOutOfRangeRejected` | date_hour/date_hour.py:40-53 | `YYYY-MM-DD` with a day past the month's end (`2024-02-30`) fails with the unparsable-value error |
| `DateHours.NonDigitRejected` | date_hour/date_hour.py:40-53 | a text that does not start with a digit (`not-a-date`) fails with the unparsable-value error |
| `DateHours.NewYearRollover` | date_hour/date_hour.py:110-114 | one hour after December 31 23:00 is January 1 00:00 of the next year |
| `TimeRanges.MakeRange` | date_hour/time_range.py:12-25 | a built range has valid ends, and its start holds parsing's defaults below its granularity |
| `TimeRanges.PeriodEnd` | date_hour/time_range.py:22-23 | an omitted stop, when it exists, is a valid DateHour |
| `TimeRanges.Show` | date_hour/time_range.py:27-28 | the text has 52 characters |
| `TimeRanges.StartIsDateHour` | date_hour/time_range.py:21 | the start is `DateHour(start)`, granularity included; a start that fails makes the range fail with the same error |
| `TimeRanges.OmittedStopIsPeriodEnd` | date_hour/time_range.py:22-23 | an omitted stop is the start's stop hour with granularity hour, so `stop.start == stop.stop == start.stop` |
| `TimeRanges.OmittedStopFailure` | date_hour/time_range.py:21-23 | with the stop omitted, the range fails exactly when the start fails or has no stop, which is a year out of range |
| `TimeRanges.OmittedStopOrdered` | date_hour/time_range.py:21-23 | with the stop omitted, the stop is not before the start |
| `TimeRanges.ExplicitStopIsDateHour` | date_hour/time_range.py:24-25 | an explicit stop is `DateHour(stop)`: the range exists exactly when both ends parse, and a failing stop gives its own error |
| `TimeRanges.ReversedRangeAccepted` | date_hour/time_range.py:24-25 | a range of two years given in reverse order (`TimeRange("2024", "2023")`) is built, with the stop before the start |
| `TimeRanges.DateHourStartCollapses` | date_hour/time_range.py:21-23 | a DateHour given as the start loses its granularity, so the range is that single hour |
| `TimeRanges.ShowLayout` | date_hour/time_range.py:27-28 | the text is `TimeRange(`, the start text, ` - `, the stop text and `)`, at fixed places |
| `TimeRanges.ShowRecovers` | date_hour/time_range.py:27-28 | both hours parse back from their places in the text |
| `TimeRanges.ShowDeterminesHours` | date_hour/time_range.py:27-28 | ranges with the same text have the same start and stop hours |
| `TimeRanges.PeriodSpan` | date_hour/date_hour.py:59-92 | a parsed period spans exactly 24 × days-in-year, 24 × days-in-month, 24 or 1 hours from its start to its stop, both included (a derived quantity) |
| `TimeRanges.OmittedStopSpan` | date_hour/time_range.py:22-23 | a range with the stop omitted covers exactly the hours of the start's period (a derived quantity; the package has no length method) |

## Left out

- Pydantic schema hooks (`__get_pydantic_core_schema__` in both files): they are glue to an external validation framework. The `TimeRange` serializer also refers to `start_str` and `stop_str` attributes that the class does not define.
- The `__main__` demonstration blocks: they only print. `DateHours.YearMinusOneHour` and the other worked examples state some of the same cases.
- `setup.py`: it is packaging only.
- The type check for a value that is neither `str` nor `datetime` (date_hour/date_hour.py:23-24): the `Input` datatype admits only the three accepted kinds.
- The behaviour `DateHour` inherits from `str` (slicing, concatenation, comparison): the model keeps the canonical text as `DateHours.Canonical` and the hour as an `Instant`.
- `strptime` lexical leniency: single-digit `%m`, `%d`, `%H`, `%M` and `%S` fields, whitespace matching and locale. Every field is read as a fixed-width, zero-padded run of ASCII digits.
- The `errors` list in `_parse_string` collects one message per failed layout and is never used. The model keeps only the error that is raised, `Unparsable(value, supported)`. The message's wording is not modelled.
- Microseconds: a `datetime` input is rendered without them, so they never reach the parser.
- Years below 1000: `strftime('%Y')` does not zero-pad them on every platform. The model always writes four digits, so its canonical text re-parses.
- Any length or hour-count method on `TimeRange`: the package has none. `TimeRanges.PeriodSpan` and `TimeRanges.OmittedStopSpan` are derived properties only.
