/**
  DateHour (date_hour/date_hour.py): a calendar period given by text of variable
  precision, stored as its hourly instant in the canonical form `YYYY-MM-DD HH:00:00`
  together with the granularity the text was written in.
*/
module DateHours {
  import opened Results
  import opened Calendar
  import opened TimeText

  /** `_format_type`: the precision of the text a DateHour was parsed from. */
  datatype Gran = Year | Month | Day | Hour

  datatype Error =
    | Unparsable(value: string, supported: seq<string>)  // ValueError: no format matched
    | YearOutOfRange(year: int)                           // ValueError from datetime.replace
    | DateOverflow                                        // OverflowError from datetime +/- timedelta

  /** A DateHour: its instant (which its canonical text spells out) and its granularity. */
  datatype DateHour = DateHour(instant: Instant, gran: Gran) {
    predicate Valid() {
      instant.Valid()
    }

    /** The fields finer than the granularity hold the defaults parsing gives them. */
    predicate Aligned() {
      match gran
      case Year => instant.month == 1 && instant.day == 1 && instant.hour == 0
      case Month => instant.day == 1 && instant.hour == 0
      case Day => instant.hour == 0
      case Hour => true
    }
  }

  /** What the constructor is given: text, a `datetime`, or a DateHour (which is a `str`). */
  datatype Input = Str(s: string) | Civil(dt: DateTime) | Given(p: DateHour) {
    predicate Valid() {
      match this
      case Str(_) => true
      case Civil(dt) => dt.Valid()
      case Given(p) => p.Valid()
    }
  }

  /** `_formats`, in the order the constructor tries them. */
  const Formats: seq<(Pattern, Gran)> :=
    [(Seconds, Hour), (Minutes, Hour), (Hours, Hour), (Days, Day), (Months, Month), (Years, Year)]

  /** The format list the error message shows. */
  const Supported: seq<string> := Directives(Formats)

  function Directives(fs: seq<(Pattern, Gran)>): (r: seq<string>)
    ensures |r| == |fs| && forall k :: 0 <= k < |fs| ==> r[k] == fs[k].0.Directive()
  {
    if |fs| == 0 then [] else [fs[0].0.Directive()] + Directives(fs[1..])
  }

  /** What `DateHour(value)` computes from the value's text: the first format that matches wins. */
  function FirstMatch(fs: seq<(Pattern, Gran)>, s: string): (r: Option<(DateTime, Gran)>)
    ensures r.Some? ==> r.value.0.Valid()
  {
    if |fs| == 0 then None
    else match Strptime(s, fs[0].0)
      case Some(dt) => Some((dt, fs[0].1))
      case None => FirstMatch(fs[1..], s)
  }

  /** No format of `fs` before position `k` matches `s`. */
  predicate NoneBefore(fs: seq<(Pattern, Gran)>, s: string, k: int)
    requires k <= |fs|
  {
    forall j :: 0 <= j < k ==> Strptime(s, fs[j].0).None?
  }

  /** First-match search finds nothing exactly when no format matches, and otherwise finds the
      format that matches with none before it. */
  lemma {:induction false} FirstMatchSpec(fs: seq<(Pattern, Gran)>, s: string)
    ensures FirstMatch(fs, s).None? <==> forall k :: 0 <= k < |fs| ==> Strptime(s, fs[k].0).None?
    ensures forall k :: 0 <= k < |fs| && Strptime(s, fs[k].0).Some? && NoneBefore(fs, s, k) ==>
      FirstMatch(fs, s) == Some((Strptime(s, fs[k].0).value, fs[k].1))
  {
    if |fs| > 0 && Strptime(s, fs[0].0).None? {
      FirstMatchSpec(fs[1..], s);
      NoneBeforeTail(fs, s);
    }
  }

  lemma NoneBeforeTail(fs: seq<(Pattern, Gran)>, s: string)
    requires |fs| > 0
    ensures forall k :: 1 <= k < |fs| ==> fs[k] == fs[1..][k - 1]
    ensures forall k :: 1 <= k <= |fs| && NoneBefore(fs, s, k) ==> NoneBefore(fs[1..], s, k - 1)
  {
  }

  /** `_parse_string`, as the function the rest of the model uses. */
  function ParseText(s: string): Result<(DateTime, Gran), Error> {
    match FirstMatch(Formats, s)
    case Some(m) => Ok(m)
    case None => Err(Unparsable(s, Supported))
  }

  /** `_parse_string`: try the formats in order and return on the first that matches. */
  method ParseString(s: string) returns (r: Result<(DateTime, Gran), Error>)
    ensures r.Err? <==> forall k :: 0 <= k < |Formats| ==> Strptime(s, Formats[k].0).None?
    ensures r.Err? ==> r.error == Unparsable(s, Supported)
    ensures r.Ok? ==> exists k :: 0 <= k < |Formats| && NoneBefore(Formats, s, k) &&
                                  Strptime(s, Formats[k].0) == Some(r.value.0) && Formats[k].1 == r.value.1
    ensures r == ParseText(s)
  {
    FirstMatchSpec(Formats, s);
    var i := 0;
    while i < |Formats|
      invariant 0 <= i <= |Formats|
      invariant NoneBefore(Formats, s, i)
    {
      var (fmt, gran) := Formats[i];
      var parsed := Strptime(s, fmt);
      if parsed.Some? {
        return Ok((parsed.value, gran));
      }
      i := i + 1;
    }
    return Err(Unparsable(s, Supported));
  }

  /** `DateHour(s)` for a string `s`. */
  function FromText(s: string): Result<DateHour, Error> {
    match ParseText(s)
    case Err(e) => Err(e)
    case Ok((dt, g)) => Ok(DateHour(Truncate(dt), g))
  }

  /** `DateHour(value)`: a `datetime` is first written in the full layout, a DateHour is its own text. */
  function New(v: Input): (r: Result<DateHour, Error>)
    requires v.Valid()
    ensures r.Ok? ==> r.value.Valid() && r.value.Aligned()
  {
    var s := InputText(v);
    match FromText(s)
    case Err(e) => Err(e)
    case Ok(p) =>
      ParsedIsAligned(s, p);
      Ok(p)
  }

  /** The text the constructor parses. */
  function InputText(v: Input): string
    requires v.Valid()
  {
    match v
    case Str(s) => s
    case Civil(dt) => Render(dt)
    case Given(p) => Canonical(p)
  }

  /** The `str` value of a DateHour. */
  function Canonical(p: DateHour): (s: string)
    requires p.Valid()
    ensures |s| == 19 && s[13..] == ":00:00"
  {
    Render(ToDateTime(p.instant))
  }

  /** `_get_datetime`: the canonical text read back with the full layout. */
  function GetDateTime(p: DateHour): (dt: DateTime)
    requires p.Valid()
    ensures dt == ToDateTime(p.instant)
  {
    StrptimeRender(ToDateTime(p.instant));
    Strptime(Canonical(p), Seconds).value
  }

  /** The hours the period of `p` covers, by its granularity. */
  predicate InPeriod(p: DateHour, i: Instant) {
    match p.gran
    case Year => i.year == p.instant.year
    case Month => i.year == p.instant.year && i.month == p.instant.month
    case Day => i.year == p.instant.year && i.month == p.instant.month && i.day == p.instant.day
    case Hour => i == p.instant
  }

  /** `_get_start_datetime`: the first hour of the period. */
  function StartInstant(p: DateHour): (r: Instant)
    requires p.Valid()
    ensures r.Valid() && InPeriod(p, r) && r.hour == (if p.gran == Hour then p.instant.hour else 0)
  {
    var dt := GetDateTime(p);
    match p.gran
    case Year => Instant(dt.year, 1, 1, 0)
    case Month => Instant(dt.year, dt.month, 1, 0)
    case Day => Instant(dt.year, dt.month, dt.day, 0)
    case Hour => Instant(dt.year, dt.month, dt.day, dt.hour)
  }

  /** `_get_stop_datetime`: the last hour of the period. For a month it is the first of the
      next month, minus one day, at 23:00; building that first day fails in December 9999. */
  function StopInstant(p: DateHour): (r: Result<Instant, Error>)
    requires p.Valid()
    ensures r.Err? <==> p.gran == Month && p.instant.year == MaxYear && p.instant.month == 12
    ensures r.Err? ==> r.error == YearOutOfRange(MaxYear + 1)
    ensures r.Ok? ==> r.value.Valid() && InPeriod(p, r.value)
    ensures r.Ok? && p.gran != Hour ==> r.value.hour == 23
  {
    var dt := GetDateTime(p);
    assert dt.year == p.instant.year && dt.month == p.instant.month;
    match p.gran
    case Year => Ok(Instant(dt.year, 12, 31, 23))
    case Month => MonthLastHour(dt.year, dt.month, dt.hour)
    case Day => Ok(Instant(dt.year, dt.month, dt.day, 23))
    case Hour => Ok(Instant(dt.year, dt.month, dt.day, dt.hour))
  }

  /** The month branch of `_get_stop_datetime`: the first day of the next month, one day back, at
      23:00. Only December 9999 has no next month. */
  function MonthLastHour(y: int, m: int, h: int): (r: Result<Instant, Error>)
    requires MinYear <= y <= MaxYear && 1 <= m <= 12 && 0 <= h <= 23
    ensures r.Err? <==> m == 12 && y == MaxYear
    ensures r.Err? ==> r.error == YearOutOfRange(MaxYear + 1)
    ensures r.Ok? ==> r.value == Instant(y, m, DaysInMonth(y, m), 23)
  {
    if m == 12 && y + 1 > MaxYear then Err(YearOutOfRange(y + 1))
    else
      var next := NextMonthStart(y, m, h);
      MonthEndIsDayBeforeNext(y, m, h);
      match AddHours(next, -24)
      case None => Err(DateOverflow)
      case Some(last) => Ok(Instant(last.year, last.month, last.day, 23))
  }

  /** The first day of the following month, at hour `h` (`dt.replace(...)` in `_get_stop_datetime`). */
  function NextMonthStart(y: int, m: int, h: int): Instant {
    if m == 12 then Instant(y + 1, 1, 1, h) else Instant(y, m + 1, 1, h)
  }

  /** The `start` property: the first hour of the period as canonical text. */
  function Start(p: DateHour): (s: string)
    requires p.Valid()
    ensures FromText(s) == Ok(DateHour(StartInstant(p), Hour))
  {
    CanonicalRoundTrip(DateHour(StartInstant(p), Hour));
    Render(ToDateTime(StartInstant(p)))
  }

  /** The `stop` property: the last hour of the period as canonical text. */
  function Stop(p: DateHour): (r: Result<string, Error>)
    requires p.Valid()
    ensures r.Err? <==> StopInstant(p).Err?
    ensures r.Ok? ==> FromText(r.value) == Ok(DateHour(StopInstant(p).value, Hour))
  {
    match StopInstant(p)
    case Err(e) => Err(e)
    case Ok(i) =>
      CanonicalRoundTrip(DateHour(i, Hour));
      Ok(Render(ToDateTime(i)))
  }

  /** `p + n`: `n` hours after the start of the period, re-read as an hour-granularity DateHour. */
  function Add(p: DateHour, n: int): (r: Result<DateHour, Error>)
    requires p.Valid()
    ensures r.Ok? <==> 0 <= ToHours(StartInstant(p)) + n < HourLimit
    ensures r.Ok? ==> r.value.gran == Hour && r.value.Valid()
    ensures r.Ok? ==> ToHours(r.value.instant) == ToHours(StartInstant(p)) + n
    ensures r.Err? ==> r.error == DateOverflow
  {
    match AddHours(StartInstant(p), n)
    case None => Err(DateOverflow)
    case Some(i) =>
      FromDateTimeIsHour(ToDateTime(i));
      New(Civil(ToDateTime(i)))
  }

  /** `p - n`: `n` hours before the start of the period, re-read as an hour-granularity DateHour. */
  function Sub(p: DateHour, n: int): (r: Result<DateHour, Error>)
    requires p.Valid()
    ensures r.Ok? <==> 0 <= ToHours(StartInstant(p)) - n < HourLimit
    ensures r.Ok? ==> r.value.gran == Hour && r.value.Valid()
    ensures r.Ok? ==> ToHours(r.value.instant) == ToHours(StartInstant(p)) - n
    ensures r.Err? ==> r.error == DateOverflow
  {
    match AddHours(StartInstant(p), -n)
    case None => Err(DateOverflow)
    case Some(i) =>
      FromDateTimeIsHour(ToDateTime(i));
      New(Civil(ToDateTime(i)))
  }

  // ---------------------------------------------------------------------------
  // Parsing

  /** The layouts have distinct lengths, so the one that matches decides the result. */
  lemma ParseByPattern(s: string, k: int)
    requires 0 <= k < |Formats| && Strptime(s, Formats[k].0).Some?
    ensures ParseText(s) == Ok((Strptime(s, Formats[k].0).value, Formats[k].1))
  {
    FirstMatchSpec(Formats, s);
    assert NoneBefore(Formats, s, k);
  }

  /** A `datetime` is written in the full layout and read back as itself, truncated: always hour. */
  lemma FromDateTimeIsHour(dt: DateTime)
    requires dt.Valid()
    ensures New(Civil(dt)) == Ok(DateHour(Truncate(dt), Hour))
  {
    StrptimeRender(dt);
    ParseByPattern(Render(dt), 0);
  }

  /** Canonical text reads back as the same instant, with hour granularity. */
  lemma CanonicalRoundTrip(p: DateHour)
    requires p.Valid()
    ensures FromText(Canonical(p)) == Ok(DateHour(p.instant, Hour))
    ensures New(Given(p)) == Ok(DateHour(p.instant, Hour))
  {
    FromDateTimeIsHour(ToDateTime(p.instant));
  }

  /** The first day of the month after (y, m), one day back, is the month's last day. */
  lemma MonthEndIsDayBeforeNext(y: int, m: int, h: int)
    requires MinYear <= y <= MaxYear && 1 <= m <= 12 && 0 <= h <= 23
    requires m == 12 ==> y < MaxYear
    ensures NextMonthStart(y, m, h).Valid()
    ensures AddHours(NextMonthStart(y, m, h), -24) == Some(Instant(y, m, DaysInMonth(y, m), h))
  {
    var next := NextMonthStart(y, m, h);
    var last := Instant(y, m, DaysInMonth(y, m), h);
    if m == 12 {
      DaysInYearByMonths(y);
      DaysBeforeNextYear(y);
    }
    assert ToHours(last) + 24 == ToHours(next);
    HoursOrder(AddHours(next, -24).value, last);
  }

  /** Some layout matched whenever parsing succeeded. */
  lemma SomePatternMatched(s: string) returns (k: int)
    requires ParseText(s).Ok?
    ensures 0 <= k < |Formats| && Strptime(s, Formats[k].0).Some?
    ensures ParseText(s) == Ok((Strptime(s, Formats[k].0).value, Formats[k].1))
  {
    FirstMatchSpec(Formats, s);
    k :| 0 <= k < |Formats| && Strptime(s, Formats[k].0).Some?;
    ParseByPattern(s, k);
  }

  /** The granularity is fixed by which layout matched, i.e. by the length of the text. */
  lemma {:induction false} ParseGranularity(s: string, p: DateHour)
    requires FromText(s) == Ok(p)
    ensures |s| == 4 || |s| == 7 || |s| == 10 || |s| == 13 || |s| == 16 || |s| == 19
    ensures p.gran == (if |s| == 4 then Year else if |s| == 7 then Month else if |s| == 10 then Day else Hour)
  {
    var k := SomePatternMatched(s);
  }

  /** Parsing fails exactly when no layout matches, and then reports the text and the layouts. */
  lemma ParseFailure(s: string)
    ensures FromText(s).Err? <==> forall k :: 0 <= k < |Formats| ==> Strptime(s, Formats[k].0).None?
    ensures FromText(s).Err? ==> FromText(s).error == Unparsable(s, Supported)
  {
    FirstMatchSpec(Formats, s);
  }

  /** A parsed DateHour holds the defaults below its granularity. */
  lemma {:induction false} ParsedIsAligned(s: string, p: DateHour)
    requires FromText(s) == Ok(p)
    ensures p.Valid() && p.Aligned()
  {
    var k := SomePatternMatched(s);
  }

  /** The start of a freshly parsed DateHour is the DateHour itself. */
  lemma ParsedStartIsItself(s: string, p: DateHour)
    requires FromText(s) == Ok(p)
    ensures p.Valid() && StartInstant(p) == p.instant && Start(p) == Canonical(p)
  {
    ParsedIsAligned(s, p);
  }

  /** Canonical text of the defaults `strptime` fills in for absent fields, with zero minutes and seconds. */
  const Defaults: string := "0001-01-01 00:00:00"

  /** The canonical text is the input up to its hour, completed from `Defaults`: absent month and
      day become 01, an absent hour 00, and minutes and seconds are always 00. */
  lemma {:induction false} CanonicalCompletesInput(s: string, p: DateHour)
    requires FromText(s) == Ok(p)
    ensures |s| <= 13 ==> Canonical(p) == s + Defaults[|s|..]
    ensures |s| > 13 ==> Canonical(p) == s[..13] + Defaults[13..]
  {
    var dt := ParsedDateTime(s, p);
    ParseGranularity(s, p);
    var kept := if |s| > 13 then 13 else |s|;
    CompletedText(s, kept, dt, p.instant);
    assert |s| <= 13 ==> s[..kept] == s;
  }

  /** Rendering the hour read from `s` spells out `s` up to its hour, completed from `Defaults`. */
  lemma CompletedText(s: string, kept: int, dt: DateTime, i: Instant)
    requires Lexes(s) && (|s| == 4 || |s| == 7 || |s| == 10 || |s| == 13 || |s| == 16 || |s| == 19)
    requires kept == (if |s| > 13 then 13 else |s|)
    requires AllDigits(s[..4]) && dt.Valid() && i == Truncate(dt) && dt.year == Num(s[..4])
    requires dt.month == Field(s, 5, 1) && dt.day == Field(s, 8, 1) && dt.hour == Field(s, 11, 0)
    ensures Render(ToDateTime(i)) == s[..kept] + Defaults[kept..]
  {
    var t := s[..kept] + Defaults[kept..];
    CompletedLexes(s, kept);
    assert t[..4] == s[..4];
    PadNum(s[..4]);
    FieldMatches(s, t, kept, 5, 1);
    FieldMatches(s, t, kept, 8, 1);
    FieldMatches(s, t, kept, 11, 0);
    ZeroTail(t, kept);
    PadSmall();
    RenderFromPieces(ToDateTime(i), t);
  }

  /** The date-time a successful parse read, field by field. */
  lemma ParsedDateTime(s: string, p: DateHour) returns (dt: DateTime)
    requires FromText(s) == Ok(p)
    ensures Lexes(s) && 4 <= |s| && dt.Valid() && p.instant == Truncate(dt)
    ensures AllDigits(s[..4]) && dt.year == Num(s[..4])
    ensures dt.month == Field(s, 5, 1) && dt.day == Field(s, 8, 1) && dt.hour == Field(s, 11, 0)
  {
    var k := SomePatternMatched(s);
    dt := Strptime(s, Formats[k].0).value;
  }

  lemma CompletedLexes(s: string, kept: int)
    requires Lexes(s) && kept == (if |s| > 13 then 13 else |s|)
    ensures |s[..kept] + Defaults[kept..]| == 19 && Lexes(s[..kept] + Defaults[kept..])
  {
    var t := s[..kept] + Defaults[kept..];
    forall j | 0 <= j < 19
      ensures if IsSeparatorAt(j) then t[j] == SeparatorAt(j) else IsDigit(t[j])
    {
      if j < kept { assert t[j] == s[j]; } else { assert t[j] == Defaults[j]; }
    }
  }

  lemma ZeroTail(t: string, kept: int)
    requires 0 <= kept <= 13 && |t| == 19 && t[kept..] == Defaults[kept..]
    ensures t[14..16] == "00" && t[17..19] == "00"
  {
    forall j | 14 <= j < 19 ensures t[j] == Defaults[j] {
      assert t[j] == t[kept..][j - kept];
    }
    assert t[14..16] == [t[14], t[15]] && t[17..19] == [t[17], t[18]];
  }

  /** One two-digit field of the completed text renders as the parsed value of that field. */
  lemma FieldMatches(s: string, t: string, kept: int, at: int, absent: int)
    requires Lexes(s) && |s| <= 19 && kept == (if |s| > 13 then 13 else |s|)
    requires at == 5 || at == 8 || at == 11
    requires absent == (if at == 11 then 0 else 1)
    requires t == s[..kept] + Defaults[kept..]
    requires kept == 4 || kept == 7 || kept == 10 || kept == 13
    ensures AllDigits(t[at..at + 2]) && Pad(Field(s, at, absent), 2) == t[at..at + 2]
  {
    assert t[at..at + 2] == [t[at], t[at + 1]];
    if at + 2 <= |s| {
      assert at + 2 <= kept;
      assert t[at] == s[at] && t[at + 1] == s[at + 1];
      assert s[at..at + 2] == [s[at], s[at + 1]];
      assert AllDigits(s[at..at + 2]) by {
        assert !IsSeparatorAt(at) && !IsSeparatorAt(at + 1);
      }
      PadNum(s[at..at + 2]);
    } else {
      assert kept <= at;
      assert t[at] == Defaults[at] && t[at + 1] == Defaults[at + 1];
      DefaultField(at);
      assert t[at..at + 2] == Defaults[at..at + 2];
    }
  }

  /** The default month, day and hour fields, as `Defaults` spells them. */
  lemma DefaultField(at: int)
    requires at == 5 || at == 8 || at == 11
    ensures Defaults[at..at + 2] == Pad(if at == 11 then 0 else 1, 2)
    ensures Defaults[at..at + 2] == [Defaults[at], Defaults[at + 1]]
  {
    PadSmall();
    if at == 5 {
      assert Defaults[5..7] == "01";
    } else if at == 8 {
      assert Defaults[8..10] == "01";
    } else {
      assert Defaults[11..13] == "00";
    }
  }

  // ---------------------------------------------------------------------------
  // Period boundaries

  /** The boundaries of each granularity: a year runs from Jan 1 00:00 to Dec 31 23:00, a month from
      day 1 00:00 to its last day (29 in a leap February) at 23:00, a day from 00:00 to 23:00. */
  lemma Boundaries(p: DateHour)
    requires p.Valid()
    ensures var i := p.instant;
      StartInstant(p) == match p.gran
        case Year => Instant(i.year, 1, 1, 0)
        case Month => Instant(i.year, i.month, 1, 0)
        case Day => Instant(i.year, i.month, i.day, 0)
        case Hour => i
    ensures var i := p.instant;
      StopInstant(p).Ok? ==> StopInstant(p).value == match p.gran
        case Year => Instant(i.year, 12, 31, 23)
        case Month => Instant(i.year, i.month, DaysInMonth(i.year, i.month), 23)
        case Day => Instant(i.year, i.month, i.day, 23)
        case Hour => i
  {
  }

  /** `start` is the first hour of the period: no hour of the period comes before it. */
  lemma StartIsFirstHour(p: DateHour, i: Instant)
    requires p.Valid() && i.Valid() && InPeriod(p, i)
    ensures !Before(i, StartInstant(p))
  {
    Boundaries(p);
  }

  /** `stop` is the last hour of the period: no hour of the period comes after it. */
  lemma StopIsLastHour(p: DateHour, i: Instant)
    requires p.Valid() && StopInstant(p).Ok? && i.Valid() && InPeriod(p, i)
    ensures !Before(StopInstant(p).value, i)
  {
    Boundaries(p);
  }

  /** Start never comes after stop, and both lie in the year of the DateHour. */
  lemma StartNotAfterStop(p: DateHour)
    requires p.Valid() && StopInstant(p).Ok?
    ensures !Before(StopInstant(p).value, StartInstant(p))
    ensures ToHours(StartInstant(p)) <= ToHours(StopInstant(p).value)
    ensures StartInstant(p).year == StopInstant(p).value.year == p.instant.year
  {
    StopIsLastHour(p, StartInstant(p));
    HoursOrder(StopInstant(p).value, StartInstant(p));
  }

  // ---------------------------------------------------------------------------
  // Shifting

  /** A shifted DateHour is a single hour: its start and its stop are its own instant. */
  lemma ShiftIsSingleHour(q: DateHour)
    requires q.Valid() && q.gran == Hour
    ensures StartInstant(q) == q.instant && StopInstant(q) == Ok(q.instant)
    ensures Start(q) == Canonical(q) && Stop(q) == Ok(Canonical(q))
  {
  }

  /** Shifting lands on the hour counted from the start of the period. */
  lemma {:induction false} AddIsFromHours(p: DateHour, n: int)
    requires p.Valid() && Add(p, n).Ok?
    ensures Add(p, n) == Ok(DateHour(FromHours(ToHours(StartInstant(p)) + n), Hour))
  {
    HoursOrder(Add(p, n).value.instant, FromHours(ToHours(StartInstant(p)) + n));
  }

  /** `p - n` is `p + (-n)`. */
  lemma SubIsAddNegated(p: DateHour, n: int)
    requires p.Valid()
    ensures Sub(p, n) == Add(p, -n)
  {
  }

  /** Adding and then subtracting the same number of hours returns to the start of the period. */
  lemma {:induction false} AddThenSub(p: DateHour, n: int)
    requires p.Valid() && Add(p, n).Ok?
    ensures Sub(Add(p, n).value, n) == Ok(DateHour(StartInstant(p), Hour))
  {
    var q := Add(p, n).value;
    ShiftIsSingleHour(q);
    var r := Sub(q, n);
    assert r.Ok? && ToHours(r.value.instant) == ToHours(StartInstant(p));
    HoursOrder(r.value.instant, StartInstant(p));
    assert r.value == DateHour(StartInstant(p), Hour);
  }

  /** Two shifts in a row are one shift by the sum. */
  lemma {:induction false} AddAdd(p: DateHour, a: int, b: int)
    requires p.Valid() && Add(p, a).Ok?
    ensures Add(Add(p, a).value, b) == Add(p, a + b)
  {
    var q := Add(p, a).value;
    ShiftIsSingleHour(q);
    var r1, r2 := Add(q, b), Add(p, a + b);
    if r1.Ok? {
      var x, y := r1.value.instant, r2.value.instant;
      assert ToHours(x) == ToHours(y);
      HoursOrder(x, y);
      assert r1.value == r2.value;
    }
  }

  /** Adding one hour moves to the calendar's next hour after the start, across any boundary. */
  lemma AddOneIsNextHour(p: DateHour)
    requires p.Valid() && Add(p, 1).Ok?
    ensures Add(p, 1).value == DateHour(NextHour(StartInstant(p)), Hour)
  {
    AddIsFromHours(p, 1);
    NextHourIsOneMore(StartInstant(p));
  }

  // ---------------------------------------------------------------------------
  // Worked examples

  /** Any four-digit year parses with year granularity, as January 1 00:00 of that year. */
  lemma YearParses(y: int)
    requires MinYear <= y <= MaxYear
    ensures FromText(Pad(y, 4)) == Ok(DateHour(Instant(y, 1, 1, 0), Year))
  {
    var s := Pad(y, 4);
    assert Lexes(s) by {
      assert forall k :: 0 <= k < 4 ==> !IsSeparatorAt(k);
    }
    assert Pow10(4) == 10000;
    NumPad(y, 4);
    assert s[..4] == s;
    assert Strptime(s, Years) == Some(DateTime(y, 1, 1, 0, 0, 0));
    ParseByPattern(s, 5);
  }

  /** Each layout accepts a valid date-time written in it, with the fields it does not read at their
      defaults, and gives the granularity the layout stands for: `2024-01-15` is a day,
      `2024-01-15 14` an hour. */
  lemma PrefixParses(dt: DateTime, k: int)
    requires dt.Valid() && 0 <= k < |Formats| && DefaultsBelow(dt, Formats[k].0)
    ensures var t := Render(dt)[..Formats[k].0.Width()];
      FromText(t) == Ok(DateHour(Truncate(dt), Formats[k].1))
  {
    var t := Render(dt)[..Formats[k].0.Width()];
    StrptimePrefix(dt, Formats[k].0);
    ParseByPattern(t, k);
  }

  /** One hour before a year is the last hour of the previous year: `DateHour("2024") - 1` is 2023-12-31 23:00. */
  lemma YearMinusOneHour(y: int)
    requires MinYear < y <= MaxYear
    ensures Sub(DateHour(Instant(y, 1, 1, 0), Year), 1) == Ok(DateHour(Instant(y - 1, 12, 31, 23), Hour))
  {
    var p := DateHour(Instant(y, 1, 1, 0), Year);
    var last := Instant(y - 1, 12, 31, 23);
    RoomAfter(last);
    NextHourIsOneMore(last);
    assert NextHour(last) == StartInstant(p);
    HoursOrder(Sub(p, 1).value.instant, last);
  }

  /** One hour after the last hour of a year is the first hour of the next. */
  lemma NewYearRollover(y: int)
    requires MinYear <= y < MaxYear
    ensures Add(DateHour(Instant(y, 12, 31, 23), Hour), 1) == Ok(DateHour(Instant(y + 1, 1, 1, 0), Hour))
  {
    var p := DateHour(Instant(y, 12, 31, 23), Hour);
    ShiftIsSingleHour(p);
    RoomAfter(p.instant);
    NextHourIsOneMore(p.instant);
    assert NextHour(p.instant) == Instant(y + 1, 1, 1, 0);
    AddOneIsNextHour(p);
  }

  /** A month DateHour stops on the month's last day at 23:00, unless it is December 9999. */
  lemma MonthStop(y: int, m: int)
    requires MinYear <= y <= MaxYear && 1 <= m <= 12
    ensures m == 12 && y == MaxYear ==> StopInstant(DateHour(Instant(y, m, 1, 0), Month)) == Err(YearOutOfRange(MaxYear + 1))
    ensures m < 12 || y < MaxYear ==> StopInstant(DateHour(Instant(y, m, 1, 0), Month)) == Ok(Instant(y, m, DaysInMonth(y, m), 23))
  {
  }

  /** February ends on the 29th in 2024 and on the 28th in 2023; December 2024 ends on the 31st. */
  lemma MonthStopExamples()
    ensures StopInstant(DateHour(Instant(2024, 2, 1, 0), Month)) == Ok(Instant(2024, 2, 29, 23))
    ensures StopInstant(DateHour(Instant(2023, 2, 1, 0), Month)) == Ok(Instant(2023, 2, 28, 23))
    ensures StopInstant(DateHour(Instant(2024, 12, 1, 0), Month)) == Ok(Instant(2024, 12, 31, 23))
  {
    MonthStop(2024, 2);
    MonthStop(2023, 2);
    MonthStop(2024, 12);
  }

  /** `YYYY-MM` written from its fields, and its shape. */
  lemma MonthText(y: nat, m: nat)
    ensures var s := Pad(y, 4) + "-" + Pad(m, 2);
      |s| == 7 && Lexes(s) && s[..4] == Pad(y, 4) && s[5..7] == Pad(m, 2)
  {
    var s := Pad(y, 4) + "-" + Pad(m, 2);
    forall k | 0 <= k < 7
      ensures if IsSeparatorAt(k) then s[k] == SeparatorAt(k) else IsDigit(s[k])
    {
      if k < 4 {
        assert s[k] == Pad(y, 4)[k];
      } else if k > 4 {
        assert s[k] == Pad(m, 2)[k - 5];
      }
    }
  }

  /** `YYYY-MM-DD` written from its fields, and its shape. */
  lemma DayText(y: nat, m: nat, d: nat)
    ensures var s := Pad(y, 4) + "-" + Pad(m, 2) + "-" + Pad(d, 2);
      |s| == 10 && Lexes(s) && s[..4] == Pad(y, 4) && s[5..7] == Pad(m, 2) && s[8..10] == Pad(d, 2)
  {
    var t := Pad(y, 4) + "-" + Pad(m, 2);
    var s := t + "-" + Pad(d, 2);
    MonthText(y, m);
    forall k | 0 <= k < 10
      ensures if IsSeparatorAt(k) then s[k] == SeparatorAt(k) else IsDigit(s[k])
    {
      if k < 7 {
        assert s[k] == t[k];
      } else if k > 7 {
        assert s[k] == Pad(d, 2)[k - 8];
      }
    }
    assert s[..7] == t;
  }

  /** A year and month parses with month granularity, as day 1 00:00 of that month (`2024-02`). */
  lemma MonthParses(y: int, m: int)
    requires MinYear <= y <= MaxYear && 1 <= m <= 12
    ensures FromText(Pad(y, 4) + "-" + Pad(m, 2)) == Ok(DateHour(Instant(y, m, 1, 0), Month))
  {
    var s := Pad(y, 4) + "-" + Pad(m, 2);
    MonthText(y, m);
    assert Pow10(4) == 10000 && Pow10(2) == 100;
    NumPad(y, 4);
    NumPad(m, 2);
    assert Strptime(s, Months) == Some(DateTime(y, m, 1, 0, 0, 0));
    ParseByPattern(s, 4);
  }

  /** A month number past 12 is rejected (`2024-13`). */
  lemma MonthOutOfRangeRejected(y: int, m: int)
    requires 0 <= y <= MaxYear && 12 < m < 100
    ensures var s := Pad(y, 4) + "-" + Pad(m, 2);
      FromText(s) == Err(Unparsable(s, Supported))
  {
    var s := Pad(y, 4) + "-" + Pad(m, 2);
    MonthNotRead(y, m);
    assert forall k :: 0 <= k < |Formats| && k != 4 ==> |s| != Formats[k].0.Width();
    ParseFailure(s);
  }

  lemma MonthNotRead(y: int, m: int)
    requires 0 <= y <= MaxYear && 12 < m < 100
    ensures |Pad(y, 4) + "-" + Pad(m, 2)| == 7
    ensures Strptime(Pad(y, 4) + "-" + Pad(m, 2), Months).None?
  {
    var s := Pad(y, 4) + "-" + Pad(m, 2);
    MonthText(y, m);
    assert Pow10(2) == 100;
    NumPad(m, 2);
    assert Field(s, 5, 1) == m;
  }

  /** A day past the end of its month is rejected (`2024-02-30`, or `2023-02-29`). */
  lemma DayOutOfRangeRejected(y: int, m: int, d: int)
    requires 0 <= y <= MaxYear && 1 <= m <= 12 && DaysInMonth(y, m) < d < 100
    ensures var s := Pad(y, 4) + "-" + Pad(m, 2) + "-" + Pad(d, 2);
      FromText(s) == Err(Unparsable(s, Supported))
  {
    var s := Pad(y, 4) + "-" + Pad(m, 2) + "-" + Pad(d, 2);
    DayNotRead(y, m, d);
    assert forall k :: 0 <= k < |Formats| && k != 3 ==> |s| != Formats[k].0.Width();
    ParseFailure(s);
  }

  lemma DayNotRead(y: int, m: int, d: int)
    requires 0 <= y <= MaxYear && 1 <= m <= 12 && DaysInMonth(y, m) < d < 100
    ensures |Pad(y, 4) + "-" + Pad(m, 2) + "-" + Pad(d, 2)| == 10
    ensures Strptime(Pad(y, 4) + "-" + Pad(m, 2) + "-" + Pad(d, 2), Days).None?
  {
    var s := Pad(y, 4) + "-" + Pad(m, 2) + "-" + Pad(d, 2);
    DayText(y, m, d);
    assert Pow10(4) == 10000 && Pow10(2) == 100;
    NumPad(y, 4);
    NumPad(m, 2);
    NumPad(d, 2);
    assert Num(s[..4]) == y && Field(s, 5, 1) == m && Field(s, 8, 1) == d;
    assert !DateTime(y, m, d, 0, 0, 0).Valid();
  }

  /** Text that does not start with a digit is rejected (`not-a-date`). */
  lemma NonDigitRejected(s: string)
    requires |s| > 0 && !IsDigit(s[0])
    ensures FromText(s) == Err(Unparsable(s, Supported))
  {
    assert !Lexes(s) by {
      assert !IsSeparatorAt(0);
    }
    ParseFailure(s);
  }
}
