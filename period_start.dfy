/** `calculate_hours_since_period_start` (main.py): whole hours from the
    first midnight of the current day, week (from Monday), month, quarter or
    year to the current Asia/Shanghai wall-clock time, cut to the minute. */
module PeriodStart {
  import opened Wrappers
  import opened Numeric
  import opened Text
  import opened Calendar

  datatype Period = Day | Week | Month | Quarter | Year

  /** The period's key as the report and `chose_report` spell it. */
  function PeriodKey(p: Period): string {
    match p
    case Day => "day"
    case Week => "week"
    case Month => "month"
    case Quarter => "quarter"
    case Year => "year"
  }

  const ValidPeriods: seq<string> := ["day", "week", "month", "quarter", "year"]

  /** `period.lower()` checked against the five keys. */
  function ParsePeriod(period: string): (r: Option<Period>)
    ensures r.Some? <==> Lower(period) in ValidPeriods
    ensures r.Some? ==> PeriodKey(r.value) == Lower(period)
  {
    var key := Lower(period);
    if key == "day" then Some(Day)
    else if key == "week" then Some(Week)
    else if key == "month" then Some(Month)
    else if key == "quarter" then Some(Quarter)
    else if key == "year" then Some(Year)
    else None
  }

  /** The `ValueError` raised for an unknown period. */
  datatype PeriodError = InvalidPeriod(period: string)

  /** First month of the quarter holding month `m`. */
  function QuarterStartMonth(m: int): (q: int)
    requires 1 <= m <= 12
    ensures q in {1, 4, 7, 10} && q <= m < q + 3
  {
    ((m - 1) / 3) * 3 + 1
  }

  /** Day ordinal of the period's first day; it never lies after today. */
  function StartOrdinal(p: Period, now: DateTime): (s: int)
    requires ValidDateTime(now)
    ensures 1 <= s <= DayOrdinal(now)
  {
    OrdinalPositive(now);
    MonthStartsOrdered(now);
    match p
    case Day => DayOrdinal(now)
    case Week => DayOrdinal(now) - WeekdayOfOrdinal(DayOrdinal(now))
    case Month => Ordinal(now.year, now.month, 1)
    case Quarter => Ordinal(now.year, QuarterStartMonth(now.month), 1)
    case Year => Ordinal(now.year, 1, 1)
  }

  /** January 1 ≤ the quarter's first day ≤ the month's first day ≤ today. */
  lemma MonthStartsOrdered(now: DateTime)
    requires ValidDateTime(now)
    ensures Ordinal(now.year, 1, 1) <= Ordinal(now.year, QuarterStartMonth(now.month), 1)
    ensures Ordinal(now.year, QuarterStartMonth(now.month), 1) <= Ordinal(now.year, now.month, 1)
    ensures Ordinal(now.year, now.month, 1) <= DayOrdinal(now)
  {
    var y, m := now.year, now.month;
    var q := QuarterStartMonth(m);
    if 1 < q {
      DaysBeforeMonthGrows(y, 1, q);
    }
    if q < m {
      DaysBeforeMonthGrows(y, q, m);
    }
  }

  lemma OrdinalPositive(now: DateTime)
    requires ValidDateTime(now)
    ensures DayOrdinal(now) >= 1 && DayOrdinal(now) - WeekdayOfOrdinal(DayOrdinal(now)) >= 1
  {
    var p := now.year - 1;
    assert p / 4 - p / 100 + p / 400 >= 0;
  }

  /** Minutes from the period's first midnight to `now` with its seconds dropped. */
  function MinutesSinceStart(p: Period, now: DateTime): (m: int)
    requires ValidDateTime(now)
    ensures m >= 0
  {
    (DayOrdinal(now) - StartOrdinal(p, now)) * 1440 + now.hour * 60 + now.minute
  }

  /** Python's `round(total_seconds / 3600)`: the minute count divided by 60,
      rounded half to even. */
  function Hours(p: Period, now: DateTime): int
    requires ValidDateTime(now)
  {
    RoundHalfEven(MinutesSinceStart(p, now), 60)
  }

  /** The whole operation: an unknown period is an error, otherwise the hours
      since the period began. */
  function HoursSincePeriodStart(period: string, now: DateTime): (r: Result<int, PeriodError>)
    requires ValidDateTime(now)
    ensures r.Err? <==> Lower(period) !in ValidPeriods
    ensures r.Err? ==> r.error == InvalidPeriod(period)
    ensures r.Ok? ==> r.value >= 0
  {
    match ParsePeriod(period)
    case None => Err(InvalidPeriod(period))
    case Some(p) => Ok(Hours(p, now))
  }

  /** The period is matched case-insensitively: a key in any case gives the
      same figure as the lower-case key. */
  lemma KeyCaseInsensitive(p: Period, period: string, now: DateTime)
    requires ValidDateTime(now) && Lower(period) == PeriodKey(p)
    ensures HoursSincePeriodStart(period, now) == Ok(Hours(p, now))
  {
    assert Lower(period) in ValidPeriods;
  }

  /** The week starts on the Monday on or before today. */
  lemma WeekStartsMonday(now: DateTime)
    requires ValidDateTime(now)
    ensures WeekdayOfOrdinal(StartOrdinal(Week, now)) == 0
    ensures DayOrdinal(now) - StartOrdinal(Week, now) == WeekdayOfOrdinal(DayOrdinal(now))
  {
    BackToMonday(DayOrdinal(now));
  }

  lemma BackToMonday(o: int)
    ensures WeekdayOfOrdinal(o - WeekdayOfOrdinal(o)) == 0
  {
    var w := WeekdayOfOrdinal(o);
    var k := (o + 6) / 7;
    assert o + 6 == 7 * k + w;
    assert o - w + 6 == 7 * k;
  }

  /** How many whole days the period can already have run: 0 for a day, up
      to 6 for a week, 30 for a month, 91 for a quarter, 365 for a year. */
  function MaxElapsedDays(p: Period): nat {
    match p
    case Day => 0
    case Week => 6
    case Month => 30
    case Quarter => 91
    case Year => 365
  }

  lemma {:induction false} ElapsedDaysBound(p: Period, now: DateTime)
    requires ValidDateTime(now)
    ensures DayOrdinal(now) - StartOrdinal(p, now) <= MaxElapsedDays(p)
  {
    match p
    case Day =>
    case Week =>
    case Month =>
    case Quarter =>
      var q := QuarterStartMonth(now.month);
      assert DaysBeforeMonth(now.year, now.month) + DaysInMonth(now.year, now.month)
        <= DaysBeforeMonth(now.year, q) + 92;
    case Year =>
      MonthFitsYear(now.year, now.month);
  }

  /** The result stays within the period's length: at most 24, 168, 744,
      2208 or 8784 hours. */
  lemma HoursBound(p: Period, now: DateTime)
    requires ValidDateTime(now)
    ensures 0 <= Hours(p, now) <= (MaxElapsedDays(p) + 1) * 24
  {
    ElapsedDaysBound(p, now);
    var e := DayOrdinal(now) - StartOrdinal(p, now);
    MulMonotone(e, MaxElapsedDays(p), 1440);
    RoundHalfEvenMonotone(MinutesSinceStart(p, now), (MaxElapsedDays(p) + 1) * 1440, 60);
    assert RoundHalfEven((MaxElapsedDays(p) + 1) * 1440, 60) == (MaxElapsedDays(p) + 1) * 24;
  }

  /** Longer periods start no later: day ≤ month ≤ quarter ≤ year in hours
      elapsed, and day ≤ week. */
  lemma PeriodsNested(now: DateTime)
    requires ValidDateTime(now)
    ensures Hours(Day, now) <= Hours(Week, now)
    ensures Hours(Day, now) <= Hours(Month, now) <= Hours(Quarter, now) <= Hours(Year, now)
  {
    MonthStartsOrdered(now);
    assert StartOrdinal(Year, now) <= StartOrdinal(Quarter, now) <= StartOrdinal(Month, now);
    MulMonotone(DayOrdinal(now) - StartOrdinal(Month, now), DayOrdinal(now) - StartOrdinal(Quarter, now), 1440);
    MulMonotone(DayOrdinal(now) - StartOrdinal(Quarter, now), DayOrdinal(now) - StartOrdinal(Year, now), 1440);
    RoundHalfEvenMonotone(MinutesSinceStart(Day, now), MinutesSinceStart(Week, now), 60);
    RoundHalfEvenMonotone(MinutesSinceStart(Day, now), MinutesSinceStart(Month, now), 60);
    RoundHalfEvenMonotone(MinutesSinceStart(Month, now), MinutesSinceStart(Quarter, now), 60);
    RoundHalfEvenMonotone(MinutesSinceStart(Quarter, now), MinutesSinceStart(Year, now), 60);
  }

  /** At 12:30 on Tuesday 2024-03-05 the day has run 12.5 hours, rounded to
      the even 12; the week began on Monday (36.5 → 36); the quarter and the
      year both began on January 1, 64 days earlier in the leap year 2024
      (1548.5 → 1548). */
  lemma ExampleTuesday()
    ensures HoursSincePeriodStart("day", DateTime(2024, 3, 5, 12, 30, 59)) == Ok(12)
    ensures HoursSincePeriodStart("WEEK", DateTime(2024, 3, 5, 12, 30, 59)) == Ok(36)
    ensures HoursSincePeriodStart("Quarter", DateTime(2024, 3, 5, 12, 30, 59)) == Ok(1548)
    ensures HoursSincePeriodStart("decade", DateTime(2024, 3, 5, 12, 30, 59)).Err?
  {
    var now := DateTime(2024, 3, 5, 12, 30, 59);
    LowerExamples();
    assert DayOrdinal(now) == 738950;
    assert WeekdayOfOrdinal(738950) == 1;
    assert Ordinal(2024, 1, 1) == 738886;
  }

  lemma LowerExamples()
    ensures Lower("day") == "day" && Lower("WEEK") == "week"
    ensures Lower("Quarter") == "quarter" && Lower("decade") == "decade"
  {
    assert Lower("WEEK") == "week";
    assert Lower("Quarter") == "quarter";
  }
}
