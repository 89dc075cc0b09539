/**
  TimeRange (date_hour/time_range.py): a start and a stop DateHour. Given only a start,
  the range covers the start's own period, up to the last hour of it.
*/
module TimeRanges {
  import opened Results
  import opened Calendar
  import opened TimeText
  import opened DateHours

  /** The two fields `__init__` sets once and nothing changes afterwards. */
  datatype TimeRange = TimeRange(start: DateHour, stop: DateHour) {
    predicate Valid() {
      start.Valid() && stop.Valid()
    }
  }

  /** `TimeRange(start, stop)`, with `None` for an omitted stop. The start is built first, so its
      error wins; the stop is then built from the given input or, when omitted, from the start. */
  function MakeRange(start: Input, stop: Option<Input>): (r: Result<TimeRange, Error>)
    requires start.Valid() && (stop.Some? ==> stop.value.Valid())
    ensures r.Ok? ==> r.value.Valid() && r.value.start.Aligned()
  {
    match New(start)
    case Err(e) => Err(e)
    case Ok(first) => (
      match (if stop.None? then PeriodEnd(first) else New(stop.value))
      case Err(e) => Err(e)
      case Ok(last) => Ok(TimeRange(first, last)))
  }

  /** The stop of a range whose stop is omitted: `DateHour(start.stop)`, which fails where
      `start.stop` does. */
  function PeriodEnd(first: DateHour): (r: Result<DateHour, Error>)
    requires first.Valid()
    ensures r.Ok? ==> r.value.Valid()
  {
    match Stop(first)
    case Err(e) => Err(e)
    case Ok(t) => FromText(t)
  }

  /** `str(r)`: both canonical texts, in the layout `TimeRange(<start> - <stop>)`. */
  function Show(r: TimeRange): (s: string)
    requires r.Valid()
    ensures |s| == 52
  {
    "TimeRange(" + Canonical(r.start) + " - " + Canonical(r.stop) + ")"
  }

  // ---------------------------------------------------------------------------
  // Construction

  /** The range's start is `DateHour(start)`, granularity included; a start that does not
      parse fails the range with the same error, whatever the stop. */
  lemma StartIsDateHour(start: Input, stop: Option<Input>)
    requires start.Valid() && (stop.Some? ==> stop.value.Valid())
    ensures New(start).Err? ==> MakeRange(start, stop) == Err(New(start).error)
    ensures MakeRange(start, stop).Ok? ==> MakeRange(start, stop).value.start == New(start).value
  {
  }

  /** With the stop omitted, the stop is the last hour of the start's period, as an hour-granularity
      DateHour: `stop.start == stop.stop == start.stop`. */
  lemma {:induction false} OmittedStopIsPeriodEnd(start: Input)
    requires start.Valid() && MakeRange(start, None).Ok?
    ensures var r := MakeRange(start, None).value;
      && r.stop == DateHour(StopInstant(r.start).value, Hour)
      && Stop(r.start) == Ok(Canonical(r.stop))
      && Start(r.stop) == Canonical(r.stop) && Stop(r.stop) == Ok(Canonical(r.stop))
  {
    var r := MakeRange(start, None).value;
    ShiftIsSingleHour(r.stop);
    CanonicalRoundTrip(r.stop);
  }

  /** With the stop omitted, the range fails exactly when the start fails or has no stop
      (a month DateHour of December 9999). */
  lemma OmittedStopFailure(start: Input)
    requires start.Valid()
    ensures MakeRange(start, None).Err? <==> New(start).Err? || StopInstant(New(start).value).Err?
    ensures New(start).Ok? && MakeRange(start, None).Err? ==>
      MakeRange(start, None) == Err(YearOutOfRange(MaxYear + 1))
  {
  }

  /** With the stop omitted, the stop never comes before the start. */
  lemma OmittedStopOrdered(start: Input)
    requires start.Valid() && MakeRange(start, None).Ok?
    ensures var r := MakeRange(start, None).value;
      !Before(r.stop.instant, r.start.instant) && ToHours(r.start.instant) <= ToHours(r.stop.instant)
  {
    var r := MakeRange(start, None).value;
    AlignedStartIsItself(r.start);
    StartNotAfterStop(r.start);
  }

  lemma AlignedStartIsItself(p: DateHour)
    requires p.Valid() && p.Aligned()
    ensures StartInstant(p) == p.instant
  {
  }

  /** An explicit stop is `DateHour(stop)`, parsed on its own: the range exists exactly when
      both ends parse, and nothing relates the stop to the start. */
  lemma ExplicitStopIsDateHour(start: Input, stop: Input)
    requires start.Valid() && stop.Valid()
    ensures MakeRange(start, Some(stop)).Ok? <==> New(start).Ok? && New(stop).Ok?
    ensures New(start).Ok? && New(stop).Err? ==> MakeRange(start, Some(stop)) == Err(New(stop).error)
    ensures MakeRange(start, Some(stop)).Ok? ==> MakeRange(start, Some(stop)).value.stop == New(stop).value
  {
  }

  /** A stop before the start is accepted: `TimeRange("2024", "2023")` is built as it stands. */
  lemma ReversedRangeAccepted(y1: int, y2: int)
    requires MinYear <= y2 < y1 <= MaxYear
    ensures var r := MakeRange(Str(Pad(y1, 4)), Some(Str(Pad(y2, 4))));
      r == Ok(TimeRange(DateHour(Instant(y1, 1, 1, 0), Year), DateHour(Instant(y2, 1, 1, 0), Year)))
      && Before(r.value.stop.instant, r.value.start.instant)
  {
    YearParses(y1);
    YearParses(y2);
  }

  /** A DateHour passed as the start is re-read from its text, so its granularity is lost and,
      with the stop omitted, the range is the single hour the DateHour's text names. */
  lemma DateHourStartCollapses(p: DateHour)
    requires p.Valid()
    ensures MakeRange(Given(p), None) == Ok(TimeRange(DateHour(p.instant, Hour), DateHour(p.instant, Hour)))
  {
    var h := DateHour(p.instant, Hour);
    CanonicalRoundTrip(p);
    ShiftIsSingleHour(h);
    assert PeriodEnd(h) == Ok(h);
  }

  // ---------------------------------------------------------------------------
  // Text

  /** The text shows the start and the stop canonical texts at fixed places. */
  lemma ShowLayout(r: TimeRange)
    requires r.Valid()
    ensures Show(r)[..10] == "TimeRange(" && Show(r)[29..32] == " - " && Show(r)[51..] == ")"
    ensures Show(r)[10..29] == Canonical(r.start) && Show(r)[32..51] == Canonical(r.stop)
  {
  }

  /** Both hours can be read back from the text (as hour-granularity DateHours). */
  lemma ShowRecovers(r: TimeRange)
    requires r.Valid()
    ensures FromText(Show(r)[10..29]) == Ok(DateHour(r.start.instant, Hour))
    ensures FromText(Show(r)[32..51]) == Ok(DateHour(r.stop.instant, Hour))
  {
    ShowLayout(r);
    CanonicalRoundTrip(r.start);
    CanonicalRoundTrip(r.stop);
  }

  /** Ranges with the same text have the same start and stop hours. */
  lemma ShowDeterminesHours(r: TimeRange, q: TimeRange)
    requires r.Valid() && q.Valid() && Show(r) == Show(q)
    ensures r.start.instant == q.start.instant && r.stop.instant == q.stop.instant
  {
    ShowRecovers(r);
    ShowRecovers(q);
  }

  // ---------------------------------------------------------------------------
  // Span (a derived quantity: TimeRange itself has no length or hour count)

  /** Hours in a period of the given granularity starting at `i`. */
  function PeriodHours(g: Gran, i: Instant): nat
    requires i.Valid()
  {
    match g
    case Year => 24 * DaysInYear(i.year)
    case Month => 24 * DaysInMonth(i.year, i.month)
    case Day => 24
    case Hour => 1
  }

  /** A parsed period runs from its start to its stop over exactly its own number of hours. */
  lemma PeriodSpan(p: DateHour)
    requires p.Valid() && p.Aligned() && StopInstant(p).Ok?
    ensures ToHours(StopInstant(p).value) - ToHours(p.instant) + 1 == PeriodHours(p.gran, p.instant)
  {
    Boundaries(p);
    var i := p.instant;
    var last := StopInstant(p).value;
    match p.gran
    case Year =>
      DaysInYearByMonths(i.year);
      assert DayIndex(last) - DayIndex(i) == DaysInYear(i.year) - 1;
    case Month =>
      assert DayIndex(last) - DayIndex(i) == DaysInMonth(i.year, i.month) - 1;
    case Day =>
      assert DayIndex(last) == DayIndex(i);
    case Hour =>
  }

  /** With the stop omitted, the range spans, first and last hour included, exactly the hours of
      the start's period: a whole year, month or day, or one hour. */
  lemma OmittedStopSpan(start: Input)
    requires start.Valid() && MakeRange(start, None).Ok?
    ensures var r := MakeRange(start, None).value;
      ToHours(r.stop.instant) - ToHours(r.start.instant) + 1 == PeriodHours(r.start.gran, r.start.instant)
  {
    OmittedStopIsPeriodEnd(start);
    PeriodSpan(MakeRange(start, None).value.start);
  }
}
