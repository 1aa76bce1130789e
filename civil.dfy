/**
 * Proleptic Gregorian calendar arithmetic on day numbers: day 0 is
 * 1970-01-01 (UTC), negative numbers count back before it.  This stands in
 * for the calendar decomposition done by Go's `time` package when it
 * formats a time or computes its ISO 8601 week.
 */
module Civil {

  /** A calendar date; a valid one has `1 <= month <= 12` and a day inside the month. */
  datatype Date = Date(year: int, month: int, day: int)

  /** An ISO 8601 week date without the weekday: the week-numbering year and the week. */
  datatype IsoWeek = IsoWeek(year: int, week: int)

  predicate IsLeapYear(y: int) {
    y % 4 == 0 && (y % 100 != 0 || y % 400 == 0)
  }

  function YearLength(y: int): int {
    if IsLeapYear(y) then 366 else 365
  }

  /** Number of leap years among the years 1 .. y-1 (floor division keeps it right for y <= 0). */
  function LeapYearsBefore(y: int): int {
    (y - 1) / 4 - (y - 1) / 100 + (y - 1) / 400
  }

  /** Day number of January 1 of year y. */
  function YearStart(y: int): int {
    365 * (y - 1970) + LeapYearsBefore(y) - LeapYearsBefore(1970)
  }

  lemma NextYearStart(y: int)
    ensures YearStart(y + 1) == YearStart(y) + YearLength(y)
  {
    CountStep4(y);
    CountStep100(y);
    CountStep400(y);
  }

  /** Going from y - 1 to y adds one multiple of 4 exactly when y is one. */
  lemma CountStep4(y: int)
    ensures y / 4 - (y - 1) / 4 == if y % 4 == 0 then 1 else 0
  {
  }

  lemma CountStep100(y: int)
    ensures y / 100 - (y - 1) / 100 == if y % 100 == 0 then 1 else 0
  {
  }

  lemma CountStep400(y: int)
    ensures y / 400 - (y - 1) / 400 == if y % 400 == 0 then 1 else 0
  {
  }

  /** Later years start later, by at least 365 days a year. */
  lemma {:induction false} YearStartIncreasing(a: int, b: int)
    requires a <= b
    ensures YearStart(a) + 365 * (b - a) <= YearStart(b)
    decreases b - a
  {
    if a < b {
      YearStartIncreasing(a, b - 1);
      NextYearStart(b - 1);
    }
  }

  /** The year that day z falls in. */
  function YearOf(z: int): (y: int)
    ensures YearStart(y) <= z < YearStart(y + 1)
  {
    if z < 0 then YearAtOrBelow(z, 1969) else YearAtOrAbove(z, 1970)
  }

  function YearAtOrAbove(z: int, y: int): (r: int)
    requires YearStart(y) <= z
    ensures y <= r && YearStart(r) <= z < YearStart(r + 1)
    decreases z - YearStart(y)
  {
    NextYearStart(y);
    if z < YearStart(y + 1) then y else YearAtOrAbove(z, y + 1)
  }

  function YearAtOrBelow(z: int, y: int): (r: int)
    requires z < YearStart(y + 1)
    ensures r <= y && YearStart(r) <= z < YearStart(r + 1)
    decreases YearStart(y + 1) - z
  {
    NextYearStart(y);
    if YearStart(y) <= z then y else YearAtOrBelow(z, y - 1)
  }

  /** The year of a day is the only year whose span holds it. */
  lemma YearOfUnique(z: int, y: int)
    requires YearStart(y) <= z < YearStart(y + 1)
    ensures YearOf(z) == y
  {
    var r := YearOf(z);
    if r < y {
      YearStartIncreasing(r + 1, y);
    } else if r > y {
      YearStartIncreasing(y + 1, r);
    }
  }

  /** Days of year y before the first of month m; m = 13 gives the length of the year. */
  function MonthStart(y: int, m: int): int
    requires 1 <= m <= 13
  {
    var common := [0, 31, 59, 90, 120, 151, 181, 212, 243, 273, 304, 334, 365][m - 1];
    if m > 2 && IsLeapYear(y) then common + 1 else common
  }

  function DaysInMonth(y: int, m: int): int
    requires 1 <= m <= 12
  {
    MonthStart(y, m + 1) - MonthStart(y, m)
  }

  lemma MonthStartIncreasing(y: int, m: int)
    requires 1 <= m <= 12
    ensures 28 <= DaysInMonth(y, m) <= 31
    ensures MonthStart(y, 1) == 0 && MonthStart(y, 13) == YearLength(y)
  {
  }

  lemma {:induction false} MonthStartMonotone(y: int, a: int, b: int)
    requires 1 <= a <= b <= 13
    ensures MonthStart(y, a) <= MonthStart(y, b)
    decreases b - a
  {
    if a < b {
      MonthStartIncreasing(y, b - 1);
      MonthStartMonotone(y, a, b - 1);
    }
  }

  /** The month that holds day `yday` (counted from 0) of year y. */
  function MonthOf(y: int, yday: int): (m: int)
    requires 0 <= yday < YearLength(y)
    ensures 1 <= m <= 12 && MonthStart(y, m) <= yday < MonthStart(y, m + 1)
  {
    MonthAtOrBelow(y, yday, 12)
  }

  function MonthAtOrBelow(y: int, yday: int, m: int): (r: int)
    requires 1 <= m <= 12 && 0 <= yday < MonthStart(y, m + 1)
    ensures 1 <= r <= m && MonthStart(y, r) <= yday < MonthStart(y, r + 1)
    decreases m
  {
    if MonthStart(y, m) <= yday then m else MonthAtOrBelow(y, yday, m - 1)
  }

  predicate ValidDate(d: Date) {
    1 <= d.month <= 12 && 1 <= d.day <= DaysInMonth(d.year, d.month)
  }

  /** Day number of a date. */
  function DaysFromCivil(d: Date): int
    requires 1 <= d.month <= 12
  {
    YearStart(d.year) + MonthStart(d.year, d.month) + d.day - 1
  }

  /** The calendar date of day z; `DaysFromCivil` undoes it. */
  function CivilFromDays(z: int): (d: Date)
    ensures ValidDate(d) && DaysFromCivil(d) == z
  {
    var y := YearOf(z);
    NextYearStart(y);
    var m := MonthOf(y, z - YearStart(y));
    Date(y, m, z - YearStart(y) - MonthStart(y, m) + 1)
  }

  /** The other round trip: every valid date is the date of its own day number. */
  lemma CivilFromDaysOfDate(d: Date)
    requires ValidDate(d)
    ensures CivilFromDays(DaysFromCivil(d)) == d
  {
    var z := DaysFromCivil(d);
    MonthStartMonotone(d.year, d.month + 1, 13);
    MonthStartIncreasing(d.year, d.month);
    NextYearStart(d.year);
    YearOfUnique(z, d.year);
    var m := MonthOf(d.year, z - YearStart(d.year));
    if m < d.month {
      MonthStartMonotone(d.year, m + 1, d.month);
    } else if m > d.month {
      MonthStartMonotone(d.year, d.month + 1, m);
    }
  }

  /** Day z falls in month m of year y exactly when it lies between that month's first day and the next month's. */
  lemma InMonthIff(z: int, y: int, m: int)
    requires 1 <= m <= 12
    ensures var d := CivilFromDays(z);
      d.year == y && d.month == m <==>
      DaysFromCivil(Date(y, m, 1)) <= z < DaysFromCivil(Date(y, m, 1)) + DaysInMonth(y, m)
  {
    var first := DaysFromCivil(Date(y, m, 1));
    if first <= z < first + DaysInMonth(y, m) {
      CivilFromDaysOfDate(Date(y, m, z - first + 1));
    }
  }

  /** Day z falls in year y exactly when it lies between that year's first day and the next year's. */
  lemma InYearIff(z: int, y: int)
    ensures CivilFromDays(z).year == y <==> YearStart(y) <= z < YearStart(y + 1)
  {
    assert CivilFromDays(z).year == YearOf(z);
    if YearStart(y) <= z < YearStart(y + 1) {
      YearOfUnique(z, y);
    }
  }

  /** Distinct days have distinct dates. */
  lemma CivilFromDaysInjective(a: int, b: int)
    ensures CivilFromDays(a) == CivilFromDays(b) <==> a == b
  {
  }

  /** ISO 8601 day of the week of day z: 1 is Monday, 7 is Sunday (1970-01-01 was a Thursday). */
  function IsoWeekday(z: int): (wd: int)
    ensures 1 <= wd <= 7
  {
    (z + 3) % 7 + 1
  }

  /** The Thursday of the Monday-to-Sunday week holding day z; ISO 8601 gives the whole week to that Thursday's year. */
  function WeekThursday(z: int): int {
    z - IsoWeekday(z) + 4
  }

  /**
   * The ISO 8601 week of day z, computed as Go's `Time.ISOWeek` does: move to
   * the week's Thursday, take that day's year and its 0-based day of the year d;
   * the week is d / 7 + 1.
   */
  function IsoWeekOf(z: int): (w: IsoWeek)
    ensures 1 <= w.week <= 53
  {
    var th := WeekThursday(z);
    var y := YearOf(th);
    NextYearStart(y);
    IsoWeek(y, (th - YearStart(y)) / 7 + 1)
  }

  /** The ISO week of z is read off its Thursday: that day's year, and its 0-based day of that year / 7 + 1. */
  lemma IsoWeekFromThursday(z: int, y: int)
    requires YearStart(y) <= WeekThursday(z) < YearStart(y + 1)
    ensures IsoWeekOf(z) == IsoWeek(y, (WeekThursday(z) - YearStart(y)) / 7 + 1)
  {
    YearOfUnique(WeekThursday(z), y);
  }

  /** Week 1 of an ISO year is the week that holds January 4 (section 3.2.2 of ISO 8601). */
  lemma JanuaryFourthInWeekOne(y: int)
    ensures IsoWeekOf(YearStart(y) + 3) == IsoWeek(y, 1)
  {
    var th := WeekThursday(YearStart(y) + 3);
    NextYearStart(y);
    YearOfUnique(th, y);
  }

  /** The day before z is in the same ISO week exactly when z is not a Monday. */
  lemma PreviousDaySameWeek(z: int)
    ensures IsoWeekOf(z - 1) == IsoWeekOf(z) <==> IsoWeekday(z) != 1
  {
    if IsoWeekday(z) != 1 {
      assert WeekThursday(z - 1) == WeekThursday(z);
    } else {
      assert WeekThursday(z - 1) == WeekThursday(z) - 7;
    }
  }

  lemma SameWeekOfYear(a: int, b: int, s: int)
    requires (WeekThursday(a) - s) / 7 == (WeekThursday(b) - s) / 7
    ensures WeekThursday(a) == WeekThursday(b)
  {
    var ta, tb := WeekThursday(a), WeekThursday(b);
    // day 0 was a Thursday, so every Thursday is a multiple of 7
    assert ta == 7 * ((a + 3) / 7);
    assert tb == 7 * ((b + 3) / 7);
    assert -7 < ta - tb < 7;
  }

  /** Two days share an ISO week exactly when they share a Thursday, that is, a Monday-to-Sunday week. */
  lemma SameIsoWeekIff(a: int, b: int)
    ensures IsoWeekOf(a) == IsoWeekOf(b) <==> WeekThursday(a) == WeekThursday(b)
  {
    var ta, tb := WeekThursday(a), WeekThursday(b);
    if IsoWeekOf(a) == IsoWeekOf(b) {
      var y := YearOf(ta);
      assert YearOf(tb) == y;
      SameWeekOfYear(a, b, YearStart(y));
    }
  }

  /** The Monday of the ISO week holding day z. */
  function MondayOf(z: int): (m: int)
    ensures z - 6 <= m <= z && IsoWeekday(m) == 1 && WeekThursday(m) == WeekThursday(z)
  {
    z - IsoWeekday(z) + 1
  }

  /** The Monday of z's week is in z's ISO week, and the Sunday before it is not. */
  lemma MondayStartsIsoWeek(z: int)
    ensures IsoWeekOf(MondayOf(z)) == IsoWeekOf(z)
    ensures IsoWeekOf(MondayOf(z) - 1) != IsoWeekOf(MondayOf(z))
  {
    SameIsoWeekIff(MondayOf(z), z);
    PreviousDaySameWeek(MondayOf(z));
  }

  /** Every day from the Monday of tz's week up to tz has that same Monday. */
  lemma SameMondayBetween(z: int, tz: int)
    requires MondayOf(tz) <= z <= tz
    ensures MondayOf(z) == MondayOf(tz)
  {
  }

  /** Weeks compared as year * 100 + week, as the program does: with 1 <= week <= 53 that compares the pairs. */
  lemma WeekCodeIff(a: IsoWeek, b: IsoWeek)
    requires 1 <= a.week <= 53 && 1 <= b.week <= 53
    ensures a.year * 100 + a.week == b.year * 100 + b.week <==> a == b
  {
  }

  /**
   * Walking back from a day z between the Monday of tz's week and tz: z is in
   * tz's week, and the day before has another week code exactly when z is
   * that Monday.
   */
  lemma WalkBackDay(z: int, tz: int)
    requires MondayOf(tz) <= z <= tz
    ensures IsoWeekOf(z) == IsoWeekOf(tz)
    ensures var w, nw := IsoWeekOf(z), IsoWeekOf(z - 1);
      nw.year * 100 + nw.week != w.year * 100 + w.week <==> z == MondayOf(tz)
  {
    SameMondayBetween(z, tz);
    SameIsoWeekIffSameMonday(z, tz);
    PreviousDaySameWeek(z);
    WeekCodeIff(IsoWeekOf(z - 1), IsoWeekOf(z));
  }

  /** Two days share an ISO week exactly when they share a Monday. */
  lemma SameIsoWeekIffSameMonday(a: int, b: int)
    ensures IsoWeekOf(a) == IsoWeekOf(b) <==> MondayOf(a) == MondayOf(b)
  {
    SameIsoWeekIff(a, b);
  }
}
