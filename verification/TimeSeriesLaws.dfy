/** What `formatResponse` promises: which unit it picks, that buckets do not mix units, that groups
    come in time order and hold their dates, and that nothing is lost or counted twice. */
module TimeSeriesLaws {
  import opened Calendar
  import opened DateSort
  import opened Options
  import opened TimeSeries

  /** No date lies before year 0: the range in which YYYYMMDD is chronological. */
  ghost predicate FromYearZero(s: seq<Stamp>) {
    forall x :: x in s ==> Year(Day(x)) >= 0
  }

  /** `first` and `last` are the days of the earliest and of the latest date. */
  ghost predicate Spans(s: seq<Stamp>, first: int, last: int) {
    && (exists x :: x in s && Day(x) == first)
    && (exists x :: x in s && Day(x) == last)
    && forall x :: x in s ==> first <= Day(x) <= last
  }

  ghost predicate Chronological(groups: seq<Group>) {
    forall i, j :: 0 <= i < j < |groups| ==> groups[i].end < groups[j].start
  }

  ghost predicate SameUnit(grain: Label, d1: int, d2: int) {
    match grain
    case DAYS => d1 == d2
    case WEEKS => Monday(d1) == Monday(d2)
    case MONTHS => Year(d1) == Year(d2) && Month(d1) == Month(d2)
    case YEARS => IsoWeekYear(d1) == IsoWeekYear(d2)
  }

  // ----- Sorting by day

  lemma SortedByDay(s: seq<Stamp>, i: int, j: int)
    requires FromYearZero(s)
    requires 0 <= i <= j < |s|
    ensures StableSort(s)[i] in s && StableSort(s)[j] in s
    ensures Day(StableSort(s)[i]) <= Day(StableSort(s)[j])
  {
    hide StableSort, YearStart, Year, SortKey;
    var dates := StableSort(s);
    StableSortMeets(s, 0);
    SortKeepsElements(s);
    assert dates[i] in dates && dates[j] in dates;
    if Day(dates[j]) < Day(dates[i]) {
      SortKeyIsChronological(Day(dates[j]), Day(dates[i]));
      assert false;
    }
  }

  lemma SortSpans(s: seq<Stamp>)
    requires FromYearZero(s) && s != []
    ensures Spans(s, Day(StableSort(s)[0]), Day(StableSort(s)[|s| - 1]))
  {
    var dates := StableSort(s);
    SortedByDay(s, 0, |s| - 1);
    SortKeepsElements(s);
    forall x | x in s
      ensures Day(dates[0]) <= Day(x) <= Day(dates[|s| - 1])
    {
      var i :| 0 <= i < |s| && dates[i] == x;
      SortedByDay(s, 0, i);
      SortedByDay(s, i, |s| - 1);
    }
  }

  /** The dates of a year lie on one day, or the year is one whose days are sorted forwards. */
  ghost predicate SortsForwards(dates: seq<Stamp>, year: int) {
    year >= 0 || forall x, y :: x in dates && y in dates && Year(Day(x)) == Year(Day(y)) == year ==> Day(x) == Day(y)
  }

  lemma LeastKeyIsEarliest(dates: seq<Stamp>, m: Stamp, first: int, last: int)
    requires Spans(dates, first, last) && m in dates && forall x :: x in dates ==> Key(m) <= Key(x)
    ensures Day(m) == first <==> SortsForwards(dates, Year(first))
  {
    var f :| f in dates && Day(f) == first;
    if Day(m) != first {
      SortKeyIsChronological(first, Day(m));
    } else {
      forall x | x in dates && Day(x) != first && Year(Day(x)) == Year(first)
        ensures Year(first) >= 0
      {
        SortKeyIsChronological(first, Day(x));
      }
    }
  }

  lemma GreatestKeyIsLatest(dates: seq<Stamp>, m: Stamp, first: int, last: int)
    requires Spans(dates, first, last) && m in dates && forall x :: x in dates ==> Key(x) <= Key(m)
    ensures Day(m) == last <==> SortsForwards(dates, Year(last))
  {
    var l :| l in dates && Day(l) == last;
    if Day(m) != last {
      SortKeyIsChronological(Day(m), last);
    } else {
      forall x | x in dates && Day(x) != last && Year(Day(x)) == Year(last)
        ensures Year(last) >= 0
      {
        SortKeyIsChronological(Day(x), last);
      }
    }
  }

  lemma SortedEnds(dates: seq<Stamp>)
    requires dates != []
    ensures var sorted := StableSort(dates);
            && sorted[0] in dates && sorted[|dates| - 1] in dates
            && (forall x :: x in dates ==> Key(sorted[0]) <= Key(x) <= Key(sorted[|dates| - 1]))
  {
    hide StableSort, Key;
    var sorted := StableSort(dates);
    StableSortMeets(dates, 0);
    SortKeepsElements(dates);
    assert sorted[0] in sorted && sorted[|dates| - 1] in sorted;
    forall x | x in dates
      ensures Key(sorted[0]) <= Key(x) <= Key(sorted[|dates| - 1])
    {
      var i :| 0 <= i < |sorted| && sorted[i] == x;
    }
  }

  /** What the program takes for the first and last day are those days, unless the first or the last year
      is negative and has dates on several days. */
  lemma SortFindsEnds(s: seq<Stamp>, first: int, last: int)
    requires s != [] && Spans(s, first, last)
    ensures Day(StableSort(s)[0]) == first && Day(StableSort(s)[|s| - 1]) == last <==> EndsSortForwards(s, first, last)
  {
    SortedEnds(s);
    LeastKeyIsEarliest(s, StableSort(s)[0], first, last);
    GreatestKeyIsLatest(s, StableSort(s)[|s| - 1], first, last);
  }

  ghost predicate EndsSortForwards(s: seq<Stamp>, first: int, last: int) {
    SortsForwards(s, Year(first)) && SortsForwards(s, Year(last))
  }

  // ----- The label

  /** f is the day that the sort puts first: the earliest, or, when that lies in a negative year, the latest day of
      its year that occurs. */
  ghost predicate SortedFirst(s: seq<Stamp>, first: int, f: int) {
    && (exists x :: x in s && Day(x) == f)
    && Year(f) == Year(first)
    && (if Year(first) >= 0 then f == first else forall x :: x in s && Year(Day(x)) == Year(first) ==> Day(x) <= f)
  }

  /** l is the day that the sort puts last: the latest, or, when that lies in a negative year, the earliest day of
      its year that occurs. */
  ghost predicate SortedLast(s: seq<Stamp>, last: int, l: int) {
    && (exists x :: x in s && Day(x) == l)
    && Year(l) == Year(last)
    && (if Year(last) >= 0 then l == last else forall x :: x in s && Year(Day(x)) == Year(last) ==> l <= Day(x))
  }

  lemma LeastKeyIsSortedFirst(s: seq<Stamp>, first: int, last: int, f: int, m: Stamp)
    requires Spans(s, first, last) && SortedFirst(s, first, f)
    requires m in s && forall x :: x in s ==> Key(m) <= Key(x)
    ensures Day(m) == f
  {
    hide SortKey;
    var x :| x in s && Day(x) == f;
    YearMonotone(first, Day(m));
    if Day(m) < f {
      YearMonotone(Day(m), f);
      SortKeyIsChronological(Day(m), f);
    } else if Day(m) > f {
      SortKeyIsChronological(f, Day(m));
    }
  }

  lemma GreatestKeyIsSortedLast(s: seq<Stamp>, first: int, last: int, l: int, m: Stamp)
    requires Spans(s, first, last) && SortedLast(s, last, l)
    requires m in s && forall x :: x in s ==> Key(x) <= Key(m)
    ensures Day(m) == l
  {
    hide SortKey;
    var x :| x in s && Day(x) == l;
    YearMonotone(Day(m), last);
    if Day(m) > l {
      YearMonotone(l, Day(m));
      SortKeyIsChronological(l, Day(m));
    } else if Day(m) < l {
      SortKeyIsChronological(Day(m), l);
    }
  }

  /** All data have such days. */
  lemma SortedEndsExist(s: seq<Stamp>, first: int, last: int)
    requires s != [] && Spans(s, first, last)
    ensures SortedFirst(s, first, Day(StableSort(s)[0])) && SortedLast(s, last, Day(StableSort(s)[|s| - 1]))
  {
    SortedEnds(s);
    LeastKeyExists(s, first, last, StableSort(s)[0]);
    GreatestKeyExists(s, first, last, StableSort(s)[|s| - 1]);
  }

  lemma LeastKeyExists(s: seq<Stamp>, first: int, last: int, m: Stamp)
    requires Spans(s, first, last) && m in s && forall x :: x in s ==> Key(m) <= Key(x)
    ensures SortedFirst(s, first, Day(m))
  {
    hide SortKey, Year;
    var x :| x in s && Day(x) == first;
    if first < Day(m) { SortKeyIsChronological(first, Day(m)); }
    forall y | y in s && Year(Day(y)) == Year(first) < 0
      ensures Day(y) <= Day(m)
    {
      if Day(m) < Day(y) { SortKeyIsChronological(Day(m), Day(y)); }
    }
  }

  lemma GreatestKeyExists(s: seq<Stamp>, first: int, last: int, m: Stamp)
    requires Spans(s, first, last) && m in s && forall x :: x in s ==> Key(x) <= Key(m)
    ensures SortedLast(s, last, Day(m))
  {
    hide SortKey, Year;
    var x :| x in s && Day(x) == last;
    if Day(m) < last { SortKeyIsChronological(Day(m), last); }
    forall y | y in s && Year(Day(y)) == Year(last) < 0
      ensures Day(m) <= Day(y)
    {
      if Day(y) < Day(m) { SortKeyIsChronological(Day(y), Day(m)); }
    }
  }

  /** The label for all data, with whatever ends the sort finds. */
  lemma LabelOfData(s: seq<Stamp>, first: int, last: int, f: int, l: int)
    requires s != [] && Spans(s, first, last) && SortedFirst(s, first, f) && SortedLast(s, last, l)
    ensures LabelFor(s, None) == ChosenLabel(f, l)
    ensures EndsSortForwards(s, first, last) <==> f == first && l == last
  {
    hide ChosenLabel, Year, Key, StableSort, EndsSortForwards, SortedFirst, SortedLast;
    SortedEnds(s);
    LeastKeyIsSortedFirst(s, first, last, f, StableSort(s)[0]);
    GreatestKeyIsSortedLast(s, first, last, l, StableSort(s)[|s| - 1]);
    SortFindsEnds(s, first, last);
  }

  lemma SortedEndsAreWithin(s: seq<Stamp>, first: int, last: int, f: int, l: int)
    requires Spans(s, first, last) && SortedFirst(s, first, f) && SortedLast(s, last, l)
    ensures first <= f <= last && first <= l <= last
    ensures Year(first) == Year(last) < 0 ==> f == last && l == first
    ensures !(Year(first) == Year(last) < 0) ==> f <= l
  {
    YearMonotone(first, last);
    if l < f { YearMonotone(l, f); }
  }

  lemma WeekYearsOfSpan(first: int, last: int)
    requires first <= last
    ensures ChosenLabel(first, last) != YEARS ==> IsoWeekYear(first) == IsoWeekYear(last)
    ensures ChosenLabel(first, last) == MONTHS ==> Year(first) == Year(last)
  {
    IsoWeekYearMonotone(first, last);
    if ChosenLabel(first, last) == MONTHS {
      WeekYearIsNear(first);
      WeekYearIsNear(last);
      YearMonotone(first, last);
    }
  }

  lemma MonthsApart(first: int, last: int)
    requires Year(first) == Year(last) && Month(first) + 2 <= Month(last)
    ensures first + 28 < last
  {
    DaysBeforeMonotone(Month(first) + 1, Month(last), IsLeap(Year(first)));
  }

  lemma LabelOfSpan(f: int, l: int)
    requires f <= l
    ensures ChosenLabel(f, l) == YEARS <==> IsoWeekYear(f) != IsoWeekYear(l)
    ensures ChosenLabel(f, l) == DAYS <==> Monday(f) == Monday(l)
    ensures ChosenLabel(f, l) == MONTHS <==>
            IsoWeekYear(f) == IsoWeekYear(l) && Year(f) == Year(l) && Month(f) + 2 <= Month(l)
  {
    hide Year, Monday;
    IsoWeekYearMonotone(f, l);
    SameIsoWeek(f, l);
    WeekYearsOfSpan(f, l);
    if Year(f) == Year(l) && Month(f) + 2 <= Month(l) {
      MonthsApart(f, l);
    }
  }

  lemma LabelOfBackwardSpan(first: int, last: int)
    requires first <= last && Year(first) == Year(last)
    ensures ChosenLabel(last, first) == if IsoWeek(first) == IsoWeek(last) then DAYS else WEEKS
  {
    IsoWeekYearMonotone(first, last);
    MonthMonotone(first, last);
  }

  /** The chosen label in calendar terms, for all data. Within one negative year it is days when the first and the
      last date have the same week number, and weeks otherwise. Else, between the days that the sort takes for the
      ends: years when they lie in different ISO week-years, days when they lie in one ISO week, months when they
      share both years and lie at least two months apart, and weeks otherwise. */
  lemma ChosenLabelMeans(s: seq<Stamp>, first: int, last: int, f: int, l: int)
    requires s != [] && Spans(s, first, last) && SortedFirst(s, first, f) && SortedLast(s, last, l)
    ensures Year(first) == Year(last) < 0 ==>
              LabelFor(s, None) == if IsoWeek(first) == IsoWeek(last) then DAYS else WEEKS
    ensures !(Year(first) == Year(last) < 0) ==>
              && f <= l
              && (LabelFor(s, None) == YEARS <==> IsoWeekYear(f) != IsoWeekYear(l))
              && (LabelFor(s, None) == DAYS <==> Monday(f) == Monday(l))
              && (LabelFor(s, None) == MONTHS <==>
                    IsoWeekYear(f) == IsoWeekYear(l) && Year(f) == Year(l) && Month(f) + 2 <= Month(l))
  {
    hide Year, Monday, Month, IsoWeek, IsoWeekYear, ChosenLabel, LabelFor, SortedFirst, SortedLast;
    LabelOfData(s, first, last, f, l);
    SortedEndsAreWithin(s, first, last, f, l);
    if Year(first) == Year(last) < 0 {
      LabelOfBackwardSpan(first, last);
    } else {
      LabelOfSpan(f, l);
    }
  }

  // ----- Buckets

  /** The calendar unit that numbers the label's units from the start holds all days from first to last: the ISO
      week holds its weekdays, the ISO week-year its weeks, the year its months. */
  predicate Fits(grain: Label, first: int, last: int) {
    match grain
    case DAYS => Monday(first) == Monday(last)
    case WEEKS => IsoWeekYear(first) == IsoWeekYear(last)
    case MONTHS => Year(first) == Year(last)
    case YEARS => true
  }

  /** Dates share a bucket exactly when they share the calendar unit that the label names, and units grow with
      time. */
  ghost predicate BucketsNameUnits(grain: Label, s: seq<Stamp>) {
    forall x, y :: x in s && y in s ==>
      && (y in Bucket(grain, s, Unit(grain, Day(x))) <==> SameUnit(grain, Day(x), Day(y)))
      && (Day(x) <= Day(y) ==> Unit(grain, Day(x)) <= Unit(grain, Day(y)))
  }

  lemma WeekdayMeans(d1: int, d2: int)
    requires Monday(d1) == Monday(d2)
    ensures IsoWeekday(d1) - IsoWeekday(d2) == d1 - d2
  {}

  lemma FitsWithin(grain: Label, first: int, last: int, d1: int, d2: int)
    requires Fits(grain, first, last) && first <= d1 <= d2 <= last
    ensures Fits(grain, d1, d2)
  {
    IsoWeekYearMonotone(first, d1);
    IsoWeekYearMonotone(d1, d2);
    IsoWeekYearMonotone(d2, last);
    YearMonotone(first, d1);
    YearMonotone(d1, d2);
    YearMonotone(d2, last);
    MondayMonotone(first, d1);
    MondayMonotone(d1, d2);
    MondayMonotone(d2, last);
  }

  lemma UnitMeansForwards(grain: Label, d1: int, d2: int)
    requires Fits(grain, d1, d2) && d1 <= d2
    ensures Unit(grain, d1) == Unit(grain, d2) <==> SameUnit(grain, d1, d2)
    ensures Unit(grain, d1) <= Unit(grain, d2)
  {
    IsoWeekYearMonotone(d1, d2);
    match grain
    case DAYS => WeekdayMeans(d1, d2);
    case WEEKS => SameIsoWeek(d1, d2); IsoWeekMonotone(d1, d2);
    case MONTHS => MonthMonotone(d1, d2);
    case YEARS =>
  }

  /** Under a label that fits, equal units mean the same calendar unit, and units grow with time. */
  lemma UnitMeans(grain: Label, first: int, last: int, d1: int, d2: int)
    requires Fits(grain, first, last) && first <= d1 <= last && first <= d2 <= last
    ensures Unit(grain, d1) == Unit(grain, d2) <==> SameUnit(grain, d1, d2)
    ensures d1 <= d2 ==> Unit(grain, d1) <= Unit(grain, d2)
  {
    hide Unit, Fits, Monday, Month, Year, IsoWeekYear;
    if d1 <= d2 {
      FitsWithin(grain, first, last, d1, d2);
      UnitMeansForwards(grain, d1, d2);
    } else {
      FitsWithin(grain, first, last, d2, d1);
      UnitMeansForwards(grain, d2, d1);
    }
  }

  lemma BucketsDoNotMix(grain: Label, s: seq<Stamp>, first: int, last: int)
    requires Spans(s, first, last) && Fits(grain, first, last)
    ensures BucketsNameUnits(grain, s)
  {
    hide Unit, Bucket, Fits, SameUnit;
    forall x, y | x in s && y in s
      ensures y in Bucket(grain, s, Unit(grain, Day(x))) <==> SameUnit(grain, Day(x), Day(y))
      ensures Day(x) <= Day(y) ==> Unit(grain, Day(x)) <= Unit(grain, Day(y))
    {
      UnitMeans(grain, first, last, Day(x), Day(y));
    }
  }

  /** Where a unit starts again from its first number. */
  lemma WeekdayResets(first: int, last: int) returns (d: int)
    requires first <= last && Monday(first) != Monday(last)
    ensures first <= d < last && IsoWeekday(d) > IsoWeekday(d + 1)
  {
    d := Monday(first) + 6;
    MondayIsMultiple(first);
    MondayIsMultiple(last);
    MondayMonotone(first, last);
  }

  lemma WeekOneMonotone(y1: int, y2: int)
    requires y1 <= y2
    ensures WeekOneStart(y1) + 350 * (y2 - y1) <= WeekOneStart(y2)
  {
    YearStartMonotone(y1, y2);
    WeekOneThursday(y1);
    WeekOneThursday(y2);
  }

  lemma WeekYearUnique(day: int, year: int)
    requires WeekOneStart(year) <= day < WeekOneStart(year + 1)
    ensures IsoWeekYear(day) == year
  {
    hide IsoWeekYear, WeekOneStart;
    WeekDatesCountFromWeekOne(day);
    if IsoWeekYear(day) < year {
      WeekOneMonotone(IsoWeekYear(day) + 1, year);
    } else if IsoWeekYear(day) > year {
      WeekOneMonotone(year + 1, IsoWeekYear(day));
    }
  }

  lemma FirstWeek(year: int, day: int)
    requires day == WeekOneStart(year)
    ensures IsoWeek(day) == 1
  {
    hide IsoWeek, IsoWeekYear, WeekOneStart;
    WeekOneMonotone(year, year + 1);
    WeekYearUnique(day, year);
    WeekDatesCountFromWeekOne(day);
  }

  lemma LastWeek(year: int, day: int)
    requires day == WeekOneStart(year + 1) - 1
    ensures IsoWeek(day) > 1
  {
    hide IsoWeek, IsoWeekYear, WeekOneStart;
    WeekOneMonotone(year, year + 1);
    WeekYearUnique(day, year);
    WeekDatesCountFromWeekOne(day);
  }

  lemma WeekResets(first: int, last: int) returns (d: int)
    requires first <= last && IsoWeekYear(first) != IsoWeekYear(last)
    ensures first <= d < last && IsoWeek(d) > IsoWeek(d + 1)
  {
    hide IsoWeek, IsoWeekYear, WeekOneStart;
    var year := IsoWeekYear(first);
    IsoWeekYearMonotone(first, last);
    WeekDatesCountFromWeekOne(first);
    WeekDatesCountFromWeekOne(last);
    WeekOneMonotone(year + 1, IsoWeekYear(last));
    d := WeekOneStart(year + 1) - 1;
    WeekOneMonotone(year, year + 1);
    LastWeek(year, d);
    FirstWeek(year + 1, d + 1);
  }

  lemma MonthResets(first: int, last: int) returns (d: int)
    requires first <= last && Year(first) != Year(last)
    ensures first <= d < last && Month(d) > Month(d + 1)
  {
    hide YearStart;
    var year := Year(first);
    YearMonotone(first, last);
    YearStartMonotone(year + 1, Year(last));
    d := YearStart(year + 1) - 1;
    YearLength(year);
    assert IsDate(year, 11, 31) && DayNumber(year, 11, 31) == d by { MonthsFillYear(IsLeap(year)); }
    DayRoundTrip(year, 11, 31);
    assert IsDate(year + 1, 0, 1) && DayNumber(year + 1, 0, 1) == d + 1;
    DayRoundTrip(year + 1, 0, 1);
  }

  lemma UnitResets(grain: Label, first: int, last: int) returns (d: int)
    requires first <= last && !Fits(grain, first, last)
    ensures first <= d < last && Unit(grain, d) > Unit(grain, d + 1)
  {
    hide Year, Monday, Month, IsoWeek, IsoWeekday, IsoWeekYear;
    match grain
    case DAYS => d := WeekdayResets(first, last);
    case WEEKS => d := WeekResets(first, last);
    case MONTHS => d := MonthResets(first, last);
    case YEARS => assert false;
  }

  lemma StampOn(day: int) returns (x: Stamp)
    ensures Day(x) == day
  {
    x := Stamp("", day * MS_PER_DAY);
  }

  lemma UnitsShrink(grain: Label, s: seq<Stamp>, x: Stamp, y: Stamp)
    requires x in s && y in s && Day(x) <= Day(y) && Unit(grain, Day(x)) > Unit(grain, Day(y))
    ensures !BucketsNameUnits(grain, s)
  {
    hide Unit, Bucket, SameUnit;
  }

  /** A label, requested or chosen, sorts all data between two days into the calendar units that it names if and
      only if it fits those days. */
  lemma FitsExactly(grain: Label, first: int, last: int)
    requires first <= last
    ensures Fits(grain, first, last) <==> forall s :: Spans(s, first, last) ==> BucketsNameUnits(grain, s)
  {
    hide Fits, Unit, Bucket, BucketsNameUnits, SameUnit, Day;
    if Fits(grain, first, last) {
      forall s | Spans(s, first, last)
        ensures BucketsNameUnits(grain, s)
      {
        BucketsDoNotMix(grain, s, first, last);
      }
    } else {
      var d := UnitResets(grain, first, last);
      var a := StampOn(first);
      var x := StampOn(d);
      var y := StampOn(d + 1);
      var z := StampOn(last);
      var s := [a, x, y, z];
      assert a in s && x in s && y in s && z in s;
      assert Spans(s, first, last);
      UnitsShrink(grain, s, x, y);
    }
  }

  /** The chosen label fits whenever the sort finds the earliest and the latest day. */
  lemma ChosenLabelFits(s: seq<Stamp>, first: int, last: int)
    requires s != [] && Spans(s, first, last) && EndsSortForwards(s, first, last)
    ensures Fits(LabelFor(s, None), first, last)
  {
    hide Year, Month, IsoWeek, IsoWeekYear, EndsSortForwards;
    SortFindsEnds(s, first, last);
    WeekYearsOfSpan(first, last);
    SameIsoWeek(first, last);
  }

  // ----- The groups of a response

  /** The dates that group i of the response adds up. */
  function DatesOf(grain: Label, s: seq<Stamp>, i: nat): seq<Stamp>
    requires i < |GroupBy(grain, s).keys|
  {
    Bucket(grain, s, GroupBy(grain, s).keys[i])
  }

  lemma IntervalHoldsDates(data: Data, dates: seq<Stamp>)
    requires Uniform(data) && Within(dates, data) && FromYearZero(dates) && dates != []
    ensures Within(StableSort(dates), data)
    ensures var group := MakeGroup(data, StableSort(dates));
            && (forall x :: x in dates ==> group.start <= x.time <= group.end)
            && (exists x :: x in dates && group.start == StartOfDay(x.time))
            && (exists x :: x in dates && group.end == EndOfDay(x.time))
  {
    SortKeepsElements(dates);
    SortSpans(dates);
    var sorted := StableSort(dates);
    assert sorted[0] in dates && sorted[|dates| - 1] in dates;
  }

  /** A group opens with the day of its earliest date and closes with the day of its latest, so it holds
      the instant of each of its dates although the sort looks at days only. */
  lemma GroupHoldsItsDates(data: Data, s: seq<Stamp>, wanted: Option<Label>, i: nat)
    requires Uniform(data) && Within(s, data) && FromYearZero(s) && s != []
    requires i < |GroupBy(LabelFor(s, wanted), s).keys|
    ensures var dates := DatesOf(LabelFor(s, wanted), s, i);
            var groups := Format(data, s, wanted).groups;
            && |groups| == |GroupBy(LabelFor(s, wanted), s).keys|
            && dates != []
            && (forall x :: x in dates ==> groups[i].start <= x.time <= groups[i].end)
            && (exists x :: x in dates && groups[i].start == StartOfDay(x.time))
            && (exists x :: x in dates && groups[i].end == EndOfDay(x.time))
  {
    var grain := LabelFor(s, wanted);
    GroupByIsGrouping(grain, s, data);
    assert GroupBy(grain, s).keys[i] in GroupBy(grain, s).keys;
    IntervalHoldsDates(data, DatesOf(grain, s, i));
  }

  /** In general a group's interval holds its dates exactly when the dates of its earliest year and those
      of its latest year are not on different days of a negative year, which are sorted backwards. */
  lemma IntervalHoldsDatesExactly(data: Data, dates: seq<Stamp>, first: int, last: int)
    requires Uniform(data) && Within(dates, data) && dates != [] && Spans(dates, first, last)
    ensures Within(StableSort(dates), data)
    ensures var group := MakeGroup(data, StableSort(dates));
            (forall x :: x in dates ==> group.start <= x.time <= group.end) <==>
            EndsSortForwards(dates, first, last)
  {
    hide Year;
    SortKeepsElements(dates);
    SortedEnds(dates);
    var sorted := StableSort(dates);
    SortFindsEnds(dates, first, last);
    IntervalOfDays(dates, first, last, sorted[0], sorted[|dates| - 1]);
  }

  lemma IntervalOfDays(dates: seq<Stamp>, first: int, last: int, a: Stamp, b: Stamp)
    requires Spans(dates, first, last) && a in dates && b in dates
    ensures (forall x :: x in dates ==> StartOfDay(a.time) <= x.time <= EndOfDay(b.time)) <==>
            Day(a) == first && Day(b) == last
  {
    if Day(a) != first {
      var f :| f in dates && Day(f) == first;
      assert f.time < StartOfDay(a.time);
    }
    if Day(b) != last {
      var l :| l in dates && Day(l) == last;
      assert l.time > EndOfDay(b.time);
    }
  }

  lemma GroupEnds(data: Data, s: seq<Stamp>, wanted: Option<Label>, i: nat) returns (a: Stamp, b: Stamp)
    requires Uniform(data) && Within(s, data) && s != []
    requires i < |GroupBy(LabelFor(s, wanted), s).keys|
    ensures var dates := DatesOf(LabelFor(s, wanted), s, i);
            var groups := Format(data, s, wanted).groups;
            && |groups| == |GroupBy(LabelFor(s, wanted), s).keys|
            && dates != [] && Within(dates, data) && Within(StableSort(dates), data)
            && groups[i] == MakeGroup(data, StableSort(dates))
            && a in dates && groups[i].start == StartOfDay(a.time)
            && b in dates && groups[i].end == EndOfDay(b.time)
  {
    hide StableSort, Bucket, Unit, Uniform, DayOf, SumUp, LabelFor, Units, ObjectKeys, InKeyOrder, Key;
    var grain := LabelFor(s, wanted);
    var dates := DatesOf(grain, s, i);
    GroupByIsGrouping(grain, s, data);
    assert GroupBy(grain, s).keys[i] in GroupBy(grain, s).keys;
    SortedEnds(dates);
    SortKeepsElements(dates);
    a, b := StableSort(dates)[0], StableSort(dates)[|dates| - 1];
  }

  /** Whatever the sort within a bucket did, its interval begins and ends on days of its own dates; so groups
      of larger units lie later. */
  lemma GroupsCompare(data: Data, s: seq<Stamp>, wanted: Option<Label>, first: int, last: int, i: nat, j: nat)
    requires Uniform(data) && Within(s, data) && s != [] && Spans(s, first, last)
    requires Fits(LabelFor(s, wanted), first, last)
    requires var keys := GroupBy(LabelFor(s, wanted), s).keys; i < |keys| && j < |keys| && keys[i] != keys[j]
    ensures var keys := GroupBy(LabelFor(s, wanted), s).keys;
            var groups := Format(data, s, wanted).groups;
            && |groups| == |keys|
            && (groups[i].end < groups[j].start <==> keys[i] < keys[j])
  {
    hide LabelFor, Format, Unit, StableSort, Fits, GroupBy, SameUnit;
    var _, x := GroupEnds(data, s, wanted, i);
    var y, _ := GroupEnds(data, s, wanted, j);
    BucketsDoNotMix(LabelFor(s, wanted), s, first, last);
    DayOrder(x, y);
  }

  lemma DayOrder(x: Stamp, y: Stamp)
    ensures EndOfDay(x.time) < StartOfDay(y.time) <==> Day(x) < Day(y)
  {}

  ghost predicate Ascending(keys: seq<int>) {
    forall i, j :: 0 <= i < j < |keys| ==> keys[i] < keys[j]
  }

  lemma KeysOfNamedUnits(s: seq<Stamp>, grain: Label, unit: int)
    requires exists x :: x in s && Unit(grain, Day(x)) == unit
    ensures unit in GroupBy(grain, s).keys
  {
    GroupByIsGrouping(grain, s, map x | x in s :: Number(0.0));
  }

  lemma KeysAreOrdered(grain: Label, s: seq<Stamp>)
    requires s != []
    ensures GroupBy(grain, s).keys != [] && InKeyOrder(GroupBy(grain, s).keys)
  {
    GroupByIsGrouping(grain, s, map x | x in s :: Number(0.0));
    KeysOfNamedUnits(s, grain, Unit(grain, Day(s[0])));
  }

  lemma GroupCount(data: Data, s: seq<Stamp>, wanted: Option<Label>)
    requires Uniform(data) && Within(s, data) && s != []
    ensures |Format(data, s, wanted).groups| == |GroupBy(LabelFor(s, wanted), s).keys|
  {
    hide GroupBy, LabelFor, StableSort;
  }

  lemma ChronologicalIsAscending(data: Data, s: seq<Stamp>, wanted: Option<Label>, first: int, last: int)
    requires Uniform(data) && Within(s, data) && s != [] && Spans(s, first, last)
    requires Fits(LabelFor(s, wanted), first, last)
    ensures Chronological(Format(data, s, wanted).groups) <==> Ascending(GroupBy(LabelFor(s, wanted), s).keys)
  {
    hide LabelFor, Format, Fits, GroupBy, Uniform, Within, Spans;
    var groups, keys := Format(data, s, wanted).groups, GroupBy(LabelFor(s, wanted), s).keys;
    KeysAreOrdered(LabelFor(s, wanted), s);
    GroupCount(data, s, wanted);
    forall i, j | 0 <= i < j < |keys|
      ensures groups[i].end < groups[j].start <==> keys[i] < keys[j]
    {
      GroupsCompare(data, s, wanted, first, last, i, j);
    }
  }

  lemma SpanKeys(s: seq<Stamp>, first: int, last: int)
    requires Spans(s, first, last)
    ensures IsoWeekYear(first) in GroupBy(YEARS, s).keys && IsoWeekYear(last) in GroupBy(YEARS, s).keys
  {
    KeysOfNamedUnits(s, YEARS, IsoWeekYear(first));
    KeysOfNamedUnits(s, YEARS, IsoWeekYear(last));
  }

  predicate Exceeds(k: int, keys: seq<int>) {
    forall u :: u in keys ==> u < k
  }

  /** A name that appears for the first time is larger than all before it. */
  predicate AppearInOrder(written: seq<int>) {
    forall j :: 0 <= j < |written| ==> written[j] in written[..j] || Exceeds(written[j], written[..j])
  }

  lemma AppearNext(front: seq<int>, k: int)
    ensures AppearInOrder(front + [k]) <==> AppearInOrder(front) && (k in front || Exceeds(k, front))
  {
    var all := front + [k];
    forall j | 0 <= j < |front|
      ensures all[..j] == front[..j] && all[j] == front[j]
    {}
    assert all[..|front|] == front && all[|front|] == k;
  }

  /** Negative names are enumerated as they first appear. */
  lemma {:induction false} NegativeNamesAscend(written: seq<int>)
    requires forall u :: u in written ==> u < 0
    ensures Ascending(ObjectKeys(written)) <==> AppearInOrder(written)
  {
    if written == [] {
    } else {
      var front, k := written[..|written| - 1], written[|written| - 1];
      assert written == front + [k];
      assert k in written && forall u :: u in front ==> u in written;
      NegativeNamesAscend(front);
      ObjectKeysAreOrdered(front);
      AppearNext(front, k);
      AscendingNext(ObjectKeys(front), k);
    }
  }

  lemma AscendingNext(keys: seq<int>, k: int)
    ensures Ascending(keys + [k]) <==> Ascending(keys) && Exceeds(k, keys)
  {
    var all := keys + [k];
    assert all[|keys|] == k && forall i :: 0 <= i < |keys| ==> all[i] == keys[i];
    if Ascending(all) {
      forall u | u in keys
        ensures u < k
      {
        var i :| 0 <= i < |keys| && keys[i] == u;
        assert all[i] < all[|keys|];
      }
      forall i, j | 0 <= i < j < |keys|
        ensures keys[i] < keys[j]
      {
        assert all[i] < all[j];
      }
    }
    if Ascending(keys) && Exceeds(k, keys) {
      forall i, j | 0 <= i < j < |all|
        ensures all[i] < all[j]
      {
        assert all[i] == keys[i] && keys[i] in keys;
        if j < |keys| { assert keys[i] < keys[j]; }
      }
    }
  }

  lemma NegativeYearsAscend(s: seq<Stamp>)
    requires forall x :: x in s ==> IsoWeekYear(Day(x)) < 0
    ensures Ascending(GroupBy(YEARS, s).keys) <==> AppearInOrder(Units(YEARS, s))
  {
    hide IsoWeekYear;
    UnitsMembers(YEARS, s);
    NegativeNamesAscend(Units(YEARS, s));
  }

  lemma NaturalNamesAscend(keys: seq<int>)
    requires InKeyOrder(keys) && forall u :: u in keys ==> u >= 0
    ensures Ascending(keys)
  {
    forall i, j | 0 <= i < j < |keys|
      ensures keys[i] < keys[j]
    {
      assert keys[j] in keys;
    }
  }

  lemma UnitIsNatural(grain: Label, s: seq<Stamp>, u: int)
    requires u in GroupBy(grain, s).keys && grain != YEARS
    ensures u >= 0
  {
    GroupByIsGrouping(grain, s, map x | x in s :: Number(0.0));
  }

  lemma DateOfKey(grain: Label, s: seq<Stamp>, u: int) returns (x: Stamp)
    requires u in GroupBy(grain, s).keys
    ensures x in s && Unit(grain, Day(x)) == u
  {
    hide Unit, Day;
    GroupByIsGrouping(grain, s, map y | y in s :: Number(0.0));
    x :| x in s && Unit(grain, Day(x)) == u;
  }

  lemma YearsWithin(s: seq<Stamp>, first: int, last: int, u: int)
    requires Spans(s, first, last) && u in GroupBy(YEARS, s).keys
    ensures IsoWeekYear(first) <= u <= IsoWeekYear(last)
  {
    hide IsoWeekYear, GroupBy;
    var x := DateOfKey(YEARS, s, u);
    IsoWeekYearMonotone(first, Day(x));
    IsoWeekYearMonotone(Day(x), last);
  }

  lemma YearsAscendExactly(s: seq<Stamp>, first: int, last: int)
    requires s != [] && Spans(s, first, last)
    ensures Ascending(GroupBy(YEARS, s).keys) <==>
            || IsoWeekYear(first) >= 0
            || IsoWeekYear(first) == IsoWeekYear(last)
            || (IsoWeekYear(last) < 0 && AppearInOrder(Units(YEARS, s)))
  {
    hide GroupBy, IsoWeekYear, AppearInOrder;
    var keys := GroupBy(YEARS, s).keys;
    KeysAreOrdered(YEARS, s);
    if IsoWeekYear(first) >= 0 {
      forall u | u in keys
        ensures u >= 0
      {
        YearsWithin(s, first, last, u);
      }
      NaturalNamesAscend(keys);
    } else if IsoWeekYear(first) == IsoWeekYear(last) {
      if |keys| > 1 {
        YearsWithin(s, first, last, keys[0]);
        YearsWithin(s, first, last, keys[1]);
        assert false;
      }
    } else if IsoWeekYear(last) < 0 {
      forall x | x in s
        ensures IsoWeekYear(Day(x)) < 0
      {
        IsoWeekYearMonotone(Day(x), last);
      }
      NegativeYearsAscend(s);
    } else {
      SpanKeys(s, first, last);
      var a :| 0 <= a < |keys| && keys[a] == IsoWeekYear(first);
      var b :| 0 <= b < |keys| && keys[b] == IsoWeekYear(last);
    }
  }

  /** Under a label that fits, requested or chosen, the groups come in time order, one after the other without
      overlap, exactly unless they are years and some but not all of the week-years are negative, or all are and
      do not appear in ascending order: a negative week-year is no array index, so its group is enumerated last. */
  lemma ChronologyExactly(data: Data, s: seq<Stamp>, wanted: Option<Label>, first: int, last: int)
    requires Uniform(data) && Within(s, data) && s != [] && Spans(s, first, last)
    requires Fits(LabelFor(s, wanted), first, last)
    ensures Chronological(Format(data, s, wanted).groups) <==>
            || LabelFor(s, wanted) != YEARS
            || IsoWeekYear(first) >= 0
            || IsoWeekYear(first) == IsoWeekYear(last)
            || (IsoWeekYear(last) < 0 && AppearInOrder(Units(YEARS, s)))
  {
    hide Format, Fits, GroupBy, IsoWeekYear, AppearInOrder, LabelFor;
    var grain := LabelFor(s, wanted);
    ChronologicalIsAscending(data, s, wanted, first, last);
    if grain == YEARS {
      YearsAscendExactly(s, first, last);
    } else {
      KeysAreOrdered(grain, s);
      forall u | u in GroupBy(grain, s).keys
        ensures u >= 0
      {
        UnitIsNatural(grain, s, u);
      }
      NaturalNamesAscend(GroupBy(grain, s).keys);
    }
  }

  lemma OthersStayOutside(data: Data, s: seq<Stamp>, wanted: Option<Label>, first: int, last: int, x: Stamp, i: nat)
    requires Uniform(data) && Within(s, data) && x in s && Spans(s, first, last)
    requires Fits(LabelFor(s, wanted), first, last)
    requires i < |GroupBy(LabelFor(s, wanted), s).keys| && x !in DatesOf(LabelFor(s, wanted), s, i)
    ensures var groups := Format(data, s, wanted).groups;
            i < |groups| && !(groups[i].start <= x.time <= groups[i].end)
  {
    hide LabelFor, Format, Unit, StableSort, Fits, GroupBy, SameUnit;
    var a, b := GroupEnds(data, s, wanted, i);
    BucketsDoNotMix(LabelFor(s, wanted), s, first, last);
  }

  /** Under a label that fits, a date of the input falls into the interval of its own group and of no other,
      exactly as far as the days of that group's first and last year are sorted forwards. */
  lemma DateFallsInItsGroupOnly(data: Data, s: seq<Stamp>, wanted: Option<Label>, first: int, last: int,
                                i: nat, a: int, b: int)
    requires Uniform(data) && Within(s, data) && s != [] && Spans(s, first, last)
    requires Fits(LabelFor(s, wanted), first, last)
    requires i < |GroupBy(LabelFor(s, wanted), s).keys| && Spans(DatesOf(LabelFor(s, wanted), s, i), a, b)
    ensures i < |Format(data, s, wanted).groups|
    ensures var group, dates := Format(data, s, wanted).groups[i], DatesOf(LabelFor(s, wanted), s, i);
            (forall x :: x in s ==> (group.start <= x.time <= group.end <==> x in dates)) <==>
            EndsSortForwards(dates, a, b)
  {
    hide LabelFor, Format, Unit, StableSort, EndsSortForwards, Fits, GroupBy;
    var dates := DatesOf(LabelFor(s, wanted), s, i);
    var _, _ := GroupEnds(data, s, wanted, i);
    IntervalHoldsDatesExactly(data, dates, a, b);
    forall x | x in s && x !in dates
      ensures !(Format(data, s, wanted).groups[i].start <= x.time <= Format(data, s, wanted).groups[i].end)
    {
      OthersStayOutside(data, s, wanted, first, last, x, i);
    }
  }

  /** The response itself opens with an instant, not with a day: that of the earliest day's key that was
      enumerated first. It ends with the latest day. So it covers every date exactly when the sort finds those
      days and that key is the earliest of its day. */
  lemma ResponseSpan(data: Data, s: seq<Stamp>, wanted: Option<Label>, first: int, last: int)
    requires Uniform(data) && Within(s, data) && Spans(s, first, last) && s != []
    ensures var response := Format(data, s, wanted);
            && WithKey(s, SortKey(first)) != []
            && (EndsSortForwards(s, first, last) ==>
                  && response.start == WithKey(s, SortKey(first))[0].time
                  && response.end == last * MS_PER_DAY + MS_PER_DAY - 1)
            && ((forall x :: x in s ==> response.start <= x.time <= response.end) <==>
                  && EndsSortForwards(s, first, last)
                  && forall x :: x in s && Day(x) == first ==> WithKey(s, SortKey(first))[0].time <= x.time)
  {
    hide EndsSortForwards, SortKey, Groups, GroupBy, StableSort;
    var dates := StableSort(s);
    SortFindsEnds(s, first, last);
    SortedEnds(s);
    StableSortMeets(s, SortKey(first));
    var f :| f in s && Day(f) == first;
    WithKeyOnlyThat(s, SortKey(first));
    assert f in WithKey(s, SortKey(first));
    FirstWithKey(dates);
    var l :| l in s && Day(l) == last;
    assert f.time < StartOfDay(f.time) + MS_PER_DAY && l.time >= StartOfDay(l.time);
  }

  lemma {:induction false} FirstWithKey(s: seq<Stamp>)
    requires s != []
    ensures WithKey(s, Key(s[0])) != [] && WithKey(s, Key(s[0]))[0] == s[0]
  {
    if |s| == 1 {
      assert s == [s[0]];
    } else {
      FirstWithKey(s[..|s| - 1]);
    }
  }
}
