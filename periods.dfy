/**
 * Retention periods: what `Retention.Align` (main.go:54-73) computes for a
 * timestamp, as functions of the retention's alias and duration.
 *
 * Timestamps are integer seconds since 1970-01-01T00:00:00Z and every
 * calendar computation is done in UTC.  Period keys are a datatype: one
 * constructor per layout the program formats a period with, holding exactly
 * the fields that layout prints.
 */
module Periods {
  import opened Civil

  const Hour := 3600
  const Day := 24 * Hour

  /** Unix time of 0001-01-01T00:00:00Z, Go's zero time, relative to which `Time.Truncate` rounds. */
  const ZeroTime := -62135596800

  /** The retention aliases: hourly, daily, weekly, monthly and yearly. */
  datatype Kind = Hourly | Daily | Weekly | Monthly | Yearly

  /** The fixed part of a retention: its alias, truncation duration (seconds) and keep count. */
  datatype Policy = Policy(alias: Kind, duration: int, keep: int)

  /** The duration the retention-spec parser gives each alias (main.go:104-118); monthly and yearly get none. */
  function DurationOf(k: Kind): int {
    match k
    case Hourly => Hour
    case Daily => Day
    case Weekly => 7 * Day
    case Monthly => 0
    case Yearly => 0
  }

  predicate WellFormed(p: Policy) {
    p.duration == DurationOf(p.alias)
  }

  /** A retention period, as the text its layout would print. */
  datatype PeriodKey =
    | HourKey(date: Date, hour: int)      // layout "2006-01-02T15"
    | DayKey(date: Date)                  // layout "2006-01-02"
    | WeekKey(isoYear: int, week: int)    // "%d-W%02d" of the ISO week
    | MonthKey(year: int, month: int)     // layout "2006-01"
    | YearKey(year: int)                  // layout "2006"

  /** Go's `Time.Truncate`: round t down to a multiple of d counted from the zero time; no change when d <= 0. */
  function Truncate(t: int, d: int): int {
    if d <= 0 then t else t - (t - ZeroTime) % d
  }

  /** Truncation rounds down: the result is the largest multiple of d, counted from the zero time, not after t. */
  lemma TruncateRoundsDown(t: int, d: int)
    requires d > 0
    ensures Truncate(t, d) == ZeroTime + (t - ZeroTime) / d * d
    ensures Truncate(t, d) <= t < Truncate(t, d) + d
  {
  }

  /** The ISO 8601 week of the UTC day holding t (Go's `Time.ISOWeek`). */
  function IsoWeekAt(t: int): IsoWeek {
    IsoWeekOf(t / Day)
  }

  /** `Format(start, layout)` with the layout the parser gives each non-weekly alias. */
  function FormatKey(alias: Kind, start: int): PeriodKey
    requires alias != Weekly
  {
    var date := CivilFromDays(start / Day);
    match alias
    case Hourly => HourKey(date, start % Day / Hour)
    case Daily => DayKey(date)
    case Monthly => MonthKey(date.year, date.month)
    case Yearly => YearKey(date.year)
  }

  /** Midnight of the Monday that starts the ISO week holding t. */
  function WeekStart(t: int): int {
    MondayOf(t / Day) * Day
  }

  /** The start of t's period: the week's Monday for weekly, else t truncated to the duration. */
  function PeriodStart(p: Policy, t: int): int {
    if p.alias == Weekly then WeekStart(t) else Truncate(t, p.duration)
  }

  /** The key of t's period: the ISO week for weekly, else the period start formatted with the alias's layout. */
  function PeriodKeyOf(p: Policy, t: int): PeriodKey {
    if p.alias == Weekly then
      var w := IsoWeekAt(t);
      WeekKey(w.year, w.week)
    else
      FormatKey(p.alias, Truncate(t, p.duration))
  }

  lemma TruncateToHour(t: int)
    ensures Truncate(t, Hour) == t / Hour * Hour
    ensures Truncate(t, Hour) / Day == t / Hour / 24
    ensures Truncate(t, Hour) % Day / Hour == t / Hour % 24
  {
    var q := t / Hour;
    assert Truncate(t, Hour) == q * Hour;
    assert q * Hour == (q / 24) * Day + (q % 24) * Hour;
  }

  lemma TruncateToDay(t: int)
    ensures Truncate(t, Day) == t / Day * Day
  {
  }

  /**
   * Hourly: the period starts at t rounded down to the hour, and two times
   * share a key exactly when they fall in the same hour.
   */
  lemma HourlyPeriod(p: Policy, t1: int, t2: int)
    requires p.alias == Hourly && WellFormed(p)
    ensures PeriodStart(p, t1) == t1 / Hour * Hour
    ensures PeriodStart(p, t1) <= t1 < PeriodStart(p, t1) + Hour
    ensures PeriodKeyOf(p, t1) == PeriodKeyOf(p, t2) <==> t1 / Hour == t2 / Hour
  {
    TruncateToHour(t1);
    TruncateToHour(t2);
    var q1, q2 := t1 / Hour, t2 / Hour;
    if PeriodKeyOf(p, t1) == PeriodKeyOf(p, t2) {
      CivilFromDaysInjective(q1 / 24, q2 / 24);
      assert q1 == 24 * (q1 / 24) + q1 % 24;
      assert q2 == 24 * (q2 / 24) + q2 % 24;
    }
  }

  lemma DailyKey(p: Policy, t: int)
    requires p.alias == Daily && WellFormed(p)
    ensures PeriodStart(p, t) == t / Day * Day
    ensures PeriodKeyOf(p, t) == DayKey(CivilFromDays(t / Day))
  {
    TruncateToDay(t);
    assert t / Day * Day / Day == t / Day;
  }

  /**
   * Daily: the period starts at t rounded down to midnight, and two times
   * share a key exactly when they fall on the same day.
   */
  lemma DailyPeriod(p: Policy, t1: int, t2: int)
    requires p.alias == Daily && WellFormed(p)
    ensures PeriodStart(p, t1) == t1 / Day * Day
    ensures PeriodStart(p, t1) <= t1 < PeriodStart(p, t1) + Day
    ensures PeriodKeyOf(p, t1) == PeriodKeyOf(p, t2) <==> t1 / Day == t2 / Day
  {
    DailyKey(p, t1);
    DailyKey(p, t2);
    CivilFromDaysInjective(t1 / Day, t2 / Day);
  }

  /**
   * Monthly: with no duration the start is t itself, and the key names
   * month m of year y exactly when t's day lies inside that month.
   */
  lemma MonthlyPeriod(p: Policy, t: int, y: int, m: int)
    requires p.alias == Monthly && WellFormed(p)
    requires 1 <= m <= 12
    ensures PeriodStart(p, t) == t
    ensures PeriodKeyOf(p, t) == MonthKey(y, m) <==>
              DaysFromCivil(Date(y, m, 1)) <= t / Day < DaysFromCivil(Date(y, m, 1)) + DaysInMonth(y, m)
  {
    var d := CivilFromDays(t / Day);
    assert PeriodKeyOf(p, t) == MonthKey(d.year, d.month);
    InMonthIff(t / Day, y, m);
  }

  /**
   * Yearly: with no duration the start is t itself, and the key names year
   * y exactly when t's day lies inside that year.
   */
  lemma YearlyPeriod(p: Policy, t: int, y: int)
    requires p.alias == Yearly && WellFormed(p)
    ensures PeriodStart(p, t) == t
    ensures PeriodKeyOf(p, t) == YearKey(y) <==> YearStart(y) <= t / Day < YearStart(y + 1)
  {
    assert PeriodKeyOf(p, t) == YearKey(CivilFromDays(t / Day).year);
    InYearIff(t / Day, y);
  }

  lemma WeekStartFacts(t: int)
    ensures var s := WeekStart(t);
      && s % Day == 0 && s / Day == MondayOf(t / Day) && (s - Day) / Day == MondayOf(t / Day) - 1
      && s <= t < s + 7 * Day
  {
  }

  /**
   * Weekly: the period starts at midnight of a Monday at most six days
   * before t, in t's ISO week, and the day before it is in another ISO week.
   */
  lemma WeeklyStartIsMonday(p: Policy, t: int)
    requires p.alias == Weekly
    ensures var s := PeriodStart(p, t);
      && s % Day == 0 && IsoWeekday(s / Day) == 1
      && s <= t < s + 7 * Day
      && IsoWeekAt(s) == IsoWeekAt(t)
      && IsoWeekAt(s - Day) != IsoWeekAt(s)
  {
    assert PeriodStart(p, t) == WeekStart(t);
    WeekStartFacts(t);
    MondayStartsIsoWeek(t / Day);
  }

  /** The ISO weeks of midnight of day z and of the midnight before it. */
  lemma IsoWeekAtMidnight(z: int)
    ensures IsoWeekAt(z * Day) == IsoWeekOf(z) && IsoWeekAt(z * Day - Day) == IsoWeekOf(z - 1)
  {
    MidnightOfDay(z, z);
  }

  /** Midnight of day z lies in day z, and the midnight a day earlier is midnight of day z - 1. */
  lemma MidnightOfDay(z: int, m: int)
    ensures z * Day / Day == z && z * Day - Day == (z - 1) * Day && (z - 1) * Day / Day == z - 1
    ensures z * Day == m * Day <==> z == m
  {
  }

  lemma SameWeekStartIff(t1: int, t2: int)
    ensures IsoWeekAt(t1) == IsoWeekAt(t2) <==> WeekStart(t1) == WeekStart(t2)
  {
    MidnightOfDay(MondayOf(t1 / Day), MondayOf(t2 / Day));
    SameIsoWeekIffSameMonday(t1 / Day, t2 / Day);
  }

  /** Weekly: two times share a key exactly when their weeks start on the same Monday. */
  lemma WeeklyKeyIff(p: Policy, t1: int, t2: int)
    requires p.alias == Weekly
    ensures PeriodKeyOf(p, t1) == PeriodKeyOf(p, t2) <==> PeriodStart(p, t1) == PeriodStart(p, t2)
  {
    assert PeriodStart(p, t1) == WeekStart(t1) && PeriodStart(p, t2) == WeekStart(t2);
    assert PeriodKeyOf(p, t1) == PeriodKeyOf(p, t2) <==> IsoWeekAt(t1) == IsoWeekAt(t2);
    SameWeekStartIff(t1, t2);
  }

  /**
   * The ISO week-year is not the calendar year: noon on 2024-12-30 and on
   * 2025-01-02 are both in week 1 of 2025, while 2024-12-29 is in week 52
   * of 2024.
   */
  lemma WeeklyKeyAcrossNewYear(p: Policy)
    requires p.alias == Weekly
    ensures PeriodKeyOf(p, DaysFromCivil(Date(2024, 12, 30)) * Day + 12 * Hour) == WeekKey(2025, 1)
    ensures PeriodKeyOf(p, DaysFromCivil(Date(2025, 1, 2)) * Day + 12 * Hour) == WeekKey(2025, 1)
    ensures PeriodKeyOf(p, DaysFromCivil(Date(2024, 12, 29)) * Day + 12 * Hour) == WeekKey(2024, 52)
  {
    var t1 := DaysFromCivil(Date(2024, 12, 30)) * Day + 12 * Hour;
    var t2 := DaysFromCivil(Date(2025, 1, 2)) * Day + 12 * Hour;
    var t3 := DaysFromCivil(Date(2024, 12, 29)) * Day + 12 * Hour;
    assert t1 / Day == 20087 && t2 / Day == 20090 && t3 / Day == 20086 by {
      assert DaysFromCivil(Date(2024, 12, 30)) == 20087;
      assert DaysFromCivil(Date(2025, 1, 2)) == 20090;
      assert DaysFromCivil(Date(2024, 12, 29)) == 20086;
    }
    WeekOneOf2025();
  }

  lemma WeekOneOf2025()
    ensures IsoWeekOf(20087) == IsoWeek(2025, 1) && IsoWeekOf(20090) == IsoWeek(2025, 1)
    ensures IsoWeekOf(20086) == IsoWeek(2024, 52)
  {
    assert YearStart(2024) == 19723 && YearStart(2025) == 20089 && YearStart(2026) == 20454;
    assert WeekThursday(20087) == 20090 && WeekThursday(20090) == 20090 && WeekThursday(20086) == 20083;
    IsoWeekFromThursday(20087, 2025);
    IsoWeekFromThursday(20090, 2025);
    IsoWeekFromThursday(20086, 2024);
  }
}
