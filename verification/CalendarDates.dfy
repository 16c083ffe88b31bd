/** The calendar against the civil dates that it stands for, in plain numbers: how long months are, which day is
    which date, which instants a day has, and which day of the week it is. */
module CalendarDates {
  import opened Calendar

  const MONTH_LENGTHS: seq<int> := [31, 28, 31, 30, 31, 30, 31, 31, 30, 31, 30, 31]

  predicate IsGregorianLeap(year: int) {
    year % 400 == 0 || (year % 4 == 0 && year % 100 != 0)
  }

  /** The dates of a month are those up to its length, and February has one more in a leap year. */
  lemma DatesExactly(year: int, month: int, d: int)
    ensures IsDate(year, month, d) <==>
            0 <= month < 12 && 1 <= d <= MONTH_LENGTHS[month] + if month == 1 && IsGregorianLeap(year) then 1 else 0
  {}

  lemma DaysBeforeStep(month: int, leap: bool)
    requires 0 <= month < 12
    ensures DaysInMonth(month, leap) == BeforeMonth(month + 2, leap) - BeforeMonth(month + 1, leap)
  {}

  /** How many days of the year lie before a month that is counted from 1; month 13 ends the year. */
  function BeforeMonth(m: int, leap: bool): int {
    (367 * m - 362) / 12 + if m <= 2 then 0 else if leap then -1 else -2
  }

  lemma {:induction false} DaysBeforeIsFormula(month: int, leap: bool)
    requires 0 <= month <= 12
    ensures DaysBefore(month, leap) == BeforeMonth(month + 1, leap)
    decreases month
  {
    if month == 0 {
    } else {
      DaysBeforeIsFormula(month - 1, leap);
      DaysBeforeStep(month - 1, leap);
    }
  }

  lemma DaysOfYear(y: int)
    ensures YearStart(y) == 365 * (y - 1970) + (y - 1969) / 4 - (y - 1901) / 100 + (y - 1601) / 400
  {
    YearStartIsFormula(y);
  }

  lemma DayIsCount(day: int)
    ensures var y, m, d := Year(day), Month(day), DayOfMonth(day);
            day == YearStart(y) + BeforeMonth(m + 1, IsLeap(y)) + d - 1
  {
    hide BeforeMonth, YearStart;
    DaysBeforeIsFormula(Month(day), IsLeap(Year(day)));
  }

  /** Every day is the date that year, month and day of the month name, by the usual count of days. */
  lemma DayIsCivilDate(day: int)
    ensures var y, m, d := Year(day), Month(day) + 1, DayOfMonth(day);
            && 1 <= m <= 12
            && 1 <= d <= MONTH_LENGTHS[m - 1] + (if m == 2 && IsGregorianLeap(y) then 1 else 0)
            && day == 365 * (y - 1970) + (y - 1969) / 4 - (y - 1901) / 100 + (y - 1601) / 400
                      + (367 * m - 362) / 12 + (if m <= 2 then 0 else if IsGregorianLeap(y) then -1 else -2) + d - 1
  {
    hide Year, Month, DayOfMonth, YearStart, IsDate, IsLeap, IsGregorianLeap;
    var y := Year(day);
    DateRoundTrip(day);
    DatesExactly(y, Month(day), DayOfMonth(day));
    DaysOfYear(y);
    DayIsCount(day);
    LeapYears(y);
  }

  lemma LeapYears(y: int)
    ensures IsLeap(y) == IsGregorianLeap(y)
  {
    CyclesNest(y);
  }

  /** A day has the 86400000 milliseconds from its start to its end. */
  lemma InstantsOfDay(day: int, ms: int)
    ensures DayOf(ms) == day <==> day * 86400000 <= ms < day * 86400000 + 86400000
    ensures DayOf(ms) == day ==> StartOfDay(ms) == day * 86400000 && EndOfDay(ms) == day * 86400000 + 86399999
  {}

  /** 1970-01-05 was a Monday, and weeks have seven days. */
  lemma WeekdaysRepeat(weeks: int, n: int)
    requires 0 <= n < 7
    ensures IsoWeekday(4 + 7 * weeks + n) == n + 1
    ensures Monday(4 + 7 * weeks + n) == 4 + 7 * weeks
  {}

  lemma KnownYear(year: int, start: int, next: int, day: int)
    requires start == YearStart(year) && next == YearStart(year + 1) && start <= day < next
    ensures Year(day) == year
  {
    YearUnique(day, year);
  }

  lemma YearStartsAt2000()
    ensures YearStart(1999) == 10592 && YearStart(2000) == 10957 && YearStart(2001) == 11323
  {
    hide YearStart;
    YearStartIsFormula(1999);
    YearStartIsFormula(2000);
    YearStartIsFormula(2001);
  }

  /** January 1st of 2000 was a Saturday of week 52 of 1999. */
  lemma FirstOf2000()
    ensures DayNumber(2000, 0, 1) == 10957 && IsoWeekday(10957) == 6
    ensures IsoWeekYear(10957) == 1999 && IsoWeek(10957) == 52
  {
    hide YearStart, Year;
    YearStartsAt2000();
    KnownYear(1999, 10592, 10957, 10955);
    assert Thursday(10957) == 10955;
  }

  lemma YearStartsAt2024()
    ensures YearStart(2024) == 19723 && YearStart(2025) == 20089
  {
    hide YearStart;
    YearStartIsFormula(2024);
    YearStartIsFormula(2025);
  }

  /** February 29th of 2024 was a Thursday of week 9. */
  lemma LeapDayOf2024()
    ensures DayNumber(2024, 1, 29) == 19782 && IsoWeekday(19782) == 4
    ensures IsoWeekYear(19782) == 2024 && IsoWeek(19782) == 9
  {
    hide YearStart, Year;
    YearStartsAt2024();
    KnownYear(2024, 19723, 20089, 19782);
    assert Thursday(19782) == 19782;
  }
}
