/** The UTC calendar that the grouping code reads its dates with: instants are milliseconds since
    1970-01-01T00:00:00Z, days are counted from that day, and years are those of the proleptic
    Gregorian calendar. Week dates follow section 4.1.4 of ISO 8601:2004: weeks start on Monday and a
    week belongs to the calendar year that holds its Thursday. */
module Calendar {

  const MS_PER_DAY := 86400000

  function DayOf(ms: int): int {
    ms / MS_PER_DAY
  }

  function StartOfDay(ms: int): int {
    DayOf(ms) * MS_PER_DAY
  }

  function EndOfDay(ms: int): int {
    StartOfDay(ms) + MS_PER_DAY - 1
  }

  // ----- Calendar dates

  predicate IsLeap(year: int) {
    year % 4 == 0 && (year % 100 != 0 || year % 400 == 0)
  }

  function DaysInYear(year: int): int {
    if IsLeap(year) then 366 else 365
  }

  /** The day number of January 1st, year by year from 1970. */
  function YearStart(year: int): int
    decreases if year >= 1970 then year - 1970 else 1970 - year
  {
    if year == 1970 then 0
    else if year > 1970 then YearStart(year - 1) + DaysInYear(year - 1)
    else YearStart(year + 1) - DaysInYear(year)
  }

  lemma YearLength(year: int)
    ensures YearStart(year + 1) - YearStart(year) == DaysInYear(year)
  {}

  /** The closed form that section 21.4.1.3 of ECMA-262 gives for it. */
  function YearStartFormula(year: int): int {
    365 * (year - 1970) + (year - 1969) / 4 - (year - 1901) / 100 + (year - 1601) / 400
  }

  lemma QuotientStep(n: int)
    ensures n / 4 - (n - 1) / 4 == if n % 4 == 0 then 1 else 0
    ensures n / 100 - (n - 1) / 100 == if n % 100 == 0 then 1 else 0
    ensures n / 400 - (n - 1) / 400 == if n % 400 == 0 then 1 else 0
  {}

  lemma CyclePosition4(year: int)
    ensures (year - 1968) % 4 == year % 4
  {}

  lemma CyclePosition100(year: int)
    ensures (year - 1900) % 100 == year % 100
  {}

  lemma CyclePosition400(year: int)
    ensures (year - 1600) % 400 == year % 400
  {}

  lemma CyclesNest(year: int)
    ensures year % 400 == 0 ==> year % 100 == 0
    ensures year % 100 == 0 ==> year % 4 == 0
  {}

  lemma FormulaStep(year: int)
    ensures YearStartFormula(year + 1) - YearStartFormula(year) == DaysInYear(year)
  {
    QuotientStep(year - 1968);
    QuotientStep(year - 1900);
    QuotientStep(year - 1600);
    CyclePosition4(year);
    CyclePosition100(year);
    CyclePosition400(year);
    CyclesNest(year);
  }

  lemma {:induction false} YearStartIsFormula(year: int)
    ensures YearStart(year) == YearStartFormula(year)
    decreases if year >= 1970 then year - 1970 else 1970 - year
  {
    if year == 1970 {
      FormulaAtEpoch();
    } else if year > 1970 {
      YearStartIsFormula(year - 1);
      FormulaStep(year - 1);
    } else {
      YearStartIsFormula(year + 1);
      FormulaStep(year);
    }
  }

  lemma FormulaAtEpoch()
    ensures YearStartFormula(1970) == 0
  {}

  lemma {:induction false} YearStartMonotone(y1: int, y2: int)
    requires y1 <= y2
    ensures YearStart(y1) + 365 * (y2 - y1) <= YearStart(y2)
    decreases y2 - y1
  {
    if y1 == y2 {
    } else {
      YearLength(y2 - 1);
      YearStartMonotone(y1, y2 - 1);
    }
  }

  /** Steps from a guessed year to the one that holds the day. */
  function YearFrom(day: int, guess: int): (year: int)
    ensures YearStart(year) <= day < YearStart(year + 1)
    decreases if day < YearStart(guess) then YearStart(guess) - day else day - YearStart(guess)
  {
    YearLength(guess - 1);
    YearLength(guess);
    if day < YearStart(guess - 1) then YearFrom(day, guess - 1)
    else if day < YearStart(guess) then guess - 1
    else if day < YearStart(guess + 1) then guess
    else YearFrom(day, guess + 1)
  }

  function Year(day: int): (year: int)
    ensures YearStart(year) <= day < YearStart(year + 1)
  {
    YearFrom(day, 1970)
  }

  lemma YearUnique(day: int, year: int)
    requires YearStart(year) <= day < YearStart(year + 1)
    ensures Year(day) == year
  {
    if Year(day) < year {
      YearStartMonotone(Year(day) + 1, year);
    } else if Year(day) > year {
      YearStartMonotone(year + 1, Year(day));
    }
  }

  lemma YearMonotone(d1: int, d2: int)
    requires d1 <= d2
    ensures Year(d1) <= Year(d2)
  {
    if Year(d1) > Year(d2) {
      YearStartMonotone(Year(d2) + 1, Year(d1));
    }
  }

  function DayOfYear(day: int): (n: nat)
    ensures n < DaysInYear(Year(day))
  {
    YearLength(Year(day));
    day - YearStart(Year(day))
  }

  function DaysInMonth(month: int, leap: bool): (days: int)
    requires 0 <= month < 12
    ensures 28 <= days <= 31
  {
    if month == 1 then if leap then 29 else 28
    else if month == 3 || month == 5 || month == 8 || month == 10 then 30
    else 31
  }

  /** How many days of the year lie before a month, counting months from 0; month 12 ends the year. */
  function DaysBefore(month: int, leap: bool): nat
    requires 0 <= month <= 12
    decreases month
  {
    if month == 0 then 0 else DaysBefore(month - 1, leap) + DaysInMonth(month - 1, leap)
  }

  lemma MonthsFillYear(leap: bool)
    ensures DaysBefore(12, leap) == if leap then 366 else 365
  {
    assert DaysBefore(3, leap) == if leap then 91 else 90;
    assert DaysBefore(6, leap) == if leap then 182 else 181;
    assert DaysBefore(9, leap) == if leap then 274 else 273;
  }

  function MonthAt(dayOfYear: nat, leap: bool, from: int): (month: int)
    requires 0 <= from < 12
    requires DaysBefore(from, leap) <= dayOfYear < if leap then 366 else 365
    ensures from <= month < 12
    ensures DaysBefore(month, leap) <= dayOfYear < DaysBefore(month + 1, leap)
    decreases 12 - from
  {
    MonthsFillYear(leap);
    if dayOfYear < DaysBefore(from + 1, leap) then from else MonthAt(dayOfYear, leap, from + 1)
  }

  /** The month, from 0 for January. */
  function Month(day: int): (month: int)
    ensures 0 <= month < 12
    ensures var leap := IsLeap(Year(day));
            DaysBefore(month, leap) <= DayOfYear(day) < DaysBefore(month + 1, leap)
  {
    MonthAt(DayOfYear(day), IsLeap(Year(day)), 0)
  }

  /** The day of the month, from 1. */
  function DayOfMonth(day: int): (d: int)
    ensures 1 <= d <= 31
  {
    DayOfYear(day) - DaysBefore(Month(day), IsLeap(Year(day))) + 1
  }

  predicate IsDate(year: int, month: int, d: int) {
    0 <= month < 12 && 1 <= d <= DaysInMonth(month, IsLeap(year))
  }

  function DayNumber(year: int, month: int, d: int): int
    requires IsDate(year, month, d)
  {
    YearStart(year) + DaysBefore(month, IsLeap(year)) + d - 1
  }

  lemma {:induction false} DaysBeforeMonotone(m1: int, m2: int, leap: bool)
    requires 0 <= m1 <= m2 <= 12
    ensures DaysBefore(m1, leap) + 28 * (m2 - m1) <= DaysBefore(m2, leap)
    decreases m2
  {
    if m1 == m2 {
    } else {
      DaysBeforeMonotone(m1, m2 - 1, leap);
    }
  }

  /** A day number and its calendar date determine each other. */
  lemma DateRoundTrip(day: int)
    ensures IsDate(Year(day), Month(day), DayOfMonth(day))
    ensures DayNumber(Year(day), Month(day), DayOfMonth(day)) == day
  {}

  lemma MonthUnique(dayOfYear: nat, leap: bool, m1: int, m2: int)
    requires 0 <= m1 < 12 && DaysBefore(m1, leap) <= dayOfYear < DaysBefore(m1 + 1, leap)
    requires 0 <= m2 < 12 && DaysBefore(m2, leap) <= dayOfYear < DaysBefore(m2 + 1, leap)
    ensures m1 == m2
  {
    hide DaysInMonth;
    if m1 < m2 { DaysBeforeMonotone(m1 + 1, m2, leap); }
    if m2 < m1 { DaysBeforeMonotone(m2 + 1, m1, leap); }
  }

  lemma DayRoundTrip(year: int, month: int, d: int)
    requires IsDate(year, month, d)
    ensures var day := DayNumber(year, month, d);
            Year(day) == year && Month(day) == month && DayOfMonth(day) == d
  {
    var leap := IsLeap(year);
    var day := DayNumber(year, month, d);
    YearLength(year);
    DaysBeforeMonotone(month + 1, 12, leap);
    MonthsFillYear(leap);
    YearUnique(day, year);
    MonthUnique(DayOfYear(day), leap, Month(day), month);
  }

  // ----- ISO week dates

  /** 1 for Monday to 7 for Sunday; day 0 was a Thursday. */
  function IsoWeekday(day: int): (w: int)
    ensures 1 <= w <= 7
  {
    (day + 3) % 7 + 1
  }

  function Monday(day: int): (monday: int)
    ensures monday <= day < monday + 7
  {
    day - (IsoWeekday(day) - 1)
  }

  function Thursday(day: int): int {
    Monday(day) + 3
  }

  function IsoWeekYear(day: int): int {
    Year(Thursday(day))
  }

  function IsoWeek(day: int): (week: int)
    ensures 1 <= week <= 53
  {
    YearLength(Year(Thursday(day)));
    (Thursday(day) - YearStart(IsoWeekYear(day))) / 7 + 1
  }

  /** The Monday that opens week 1: the week of January 4th. */
  function WeekOneStart(year: int): int {
    Monday(YearStart(year) + 3)
  }

  lemma MondayIsMultiple(day: int)
    ensures (Monday(day) + 3) % 7 == 0
  {}

  lemma MondayMonotone(d1: int, d2: int)
    requires d1 <= d2
    ensures Monday(d1) <= Monday(d2)
  {
    MondayIsMultiple(d1);
    MondayIsMultiple(d2);
  }

  lemma WeekOneThursday(year: int)
    ensures (WeekOneStart(year) + 3) % 7 == 0
    ensures YearStart(year) <= WeekOneStart(year) + 3 <= YearStart(year) + 6
  {
    MondayIsMultiple(YearStart(year) + 3);
  }

  lemma WholeWeeks(thursday: int, first: int, yearStart: int)
    requires thursday % 7 == 0 && first % 7 == 0
    requires yearStart <= first <= yearStart + 6 && yearStart <= thursday
    ensures thursday == first + 7 * ((thursday - yearStart) / 7)
  {
    var a, b := thursday / 7, first / 7;
    assert thursday - yearStart == 7 * (a - b) + (first - yearStart);
  }

  /** ISO 8601 counts weeks from the one that holds January 4th; the Thursday rule agrees with that
      count on every day. */
  lemma WeekDatesCountFromWeekOne(day: int)
    ensures var year := IsoWeekYear(day);
            WeekOneStart(year) <= day < WeekOneStart(year + 1)
    ensures day == WeekOneStart(IsoWeekYear(day)) + 7 * (IsoWeek(day) - 1) + (IsoWeekday(day) - 1)
  {
    hide WeekOneStart;
    var year := IsoWeekYear(day);
    MondayIsMultiple(day);
    WeekOneThursday(year);
    WeekOneThursday(year + 1);
    WholeWeeks(Thursday(day), WeekOneStart(year) + 3, YearStart(year));
  }

  lemma IsoWeekYearMonotone(d1: int, d2: int)
    requires d1 <= d2
    ensures IsoWeekYear(d1) <= IsoWeekYear(d2)
  {
    MondayMonotone(d1, d2);
    YearMonotone(Thursday(d1), Thursday(d2));
  }

  lemma IsoWeekMonotone(d1: int, d2: int)
    requires d1 <= d2 && IsoWeekYear(d1) == IsoWeekYear(d2)
    ensures IsoWeek(d1) <= IsoWeek(d2)
  {
    MondayMonotone(d1, d2);
  }

  /** Equal week-year and week number mean the same Monday-to-Sunday week. */
  lemma SameIsoWeek(d1: int, d2: int)
    ensures IsoWeekYear(d1) == IsoWeekYear(d2) && IsoWeek(d1) == IsoWeek(d2) <==> Monday(d1) == Monday(d2)
  {
    WeekDatesCountFromWeekOne(d1);
    WeekDatesCountFromWeekOne(d2);
  }

  /** A date can leave its calendar year only in the last days of December or the first of January. */
  lemma WeekYearIsNear(day: int)
    ensures IsoWeekYear(day) - 1 <= Year(day) <= IsoWeekYear(day) + 1
    ensures Year(day) == IsoWeekYear(day) - 1 ==> Month(day) == 11
    ensures Year(day) == IsoWeekYear(day) + 1 ==> Month(day) == 0
  {
    hide YearStart;
    var wy := IsoWeekYear(day);
    YearLength(wy);
    YearLength(wy - 1);
    YearLength(wy + 1);
    if day < YearStart(wy) {
      YearUnique(day, wy - 1);
    } else if day < YearStart(wy + 1) {
      YearUnique(day, wy);
    } else {
      YearUnique(day, wy + 1);
    }
  }

  lemma MonthMonotone(d1: int, d2: int)
    requires d1 <= d2 && Year(d1) == Year(d2)
    ensures Month(d1) <= Month(d2)
  {
    if Month(d2) < Month(d1) {
      DaysBeforeMonotone(Month(d2) + 1, Month(d1), IsLeap(Year(d1)));
    }
  }
}
