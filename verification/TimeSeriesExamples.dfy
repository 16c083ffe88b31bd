/** Data on which `formatResponse` falls short: each lemma computes what the program does with it. */
module TimeSeriesExamples {
  import opened Calendar
  import opened DateSort
  import opened Options
  import opened TimeSeries
  import opened TimeSeriesLaws

  const FIRST_OF_YEAR_MINUS_ONE := -719893
  const FIRST_OF_YEAR_ZERO := -719528

  lemma YearStartsAroundZero()
    ensures YearStart(-1) == FIRST_OF_YEAR_MINUS_ONE && YearStart(0) == FIRST_OF_YEAR_ZERO && YearStart(1) == -719162
  {
    hide YearStart;
    YearStartIsFormula(-1);
    YearStartIsFormula(0);
    YearStartIsFormula(1);
  }

  /** January 1st of year 0 belongs to week-year -1, and January 3rd to week-year 0. */
  lemma YearZeroOpensInWeekYearMinusOne()
    ensures IsDate(0, 0, 1) && DayNumber(0, 0, 1) == FIRST_OF_YEAR_ZERO
    ensures Year(FIRST_OF_YEAR_ZERO) == 0 && IsoWeekYear(FIRST_OF_YEAR_ZERO) == -1
    ensures Year(FIRST_OF_YEAR_ZERO + 2) == 0 && IsoWeekYear(FIRST_OF_YEAR_ZERO + 2) == 0
  {
    hide YearStart;
    YearStartsAroundZero();
    YearUnique(FIRST_OF_YEAR_ZERO, 0);
    YearUnique(FIRST_OF_YEAR_ZERO + 2, 0);
    assert Thursday(FIRST_OF_YEAR_ZERO) == FIRST_OF_YEAR_ZERO - 2;
    YearUnique(FIRST_OF_YEAR_ZERO - 2, -1);
    assert Thursday(FIRST_OF_YEAR_ZERO + 2) == FIRST_OF_YEAR_ZERO + 5;
    YearUnique(FIRST_OF_YEAR_ZERO + 5, 0);
  }

  lemma SpanOfTwo(x: Stamp, y: Stamp)
    requires Day(x) <= Day(y)
    ensures Spans([x, y], Day(x), Day(y))
  {
    assert x in [x, y] && y in [x, y];
  }

  lemma LabelOfForwardSpan(s: seq<Stamp>, first: int, last: int)
    requires s != [] && Spans(s, first, last) && Year(first) >= 0 && IsoWeekYear(first) < IsoWeekYear(last)
    ensures LabelFor(s, None) == YEARS && Fits(YEARS, first, last)
  {
    hide Year, IsoWeekYear, Month, IsoWeek, StableSort;
    YearMonotone(first, last);
    SortFindsEnds(s, first, last);
  }

  /** 0000-01-01 and 0000-01-03: the group of the earlier date comes last. */
  lemma YearZeroIsOutOfOrder(data: Data, x: Stamp, y: Stamp)
    requires Day(x) == FIRST_OF_YEAR_ZERO && Day(y) == FIRST_OF_YEAR_ZERO + 2
    requires Uniform(data) && Within([x, y], data)
    ensures LabelFor([x, y], None) == YEARS && !Chronological(Format(data, [x, y], None).groups)
  {
    hide Year, IsoWeekYear, Format, Unit, GroupBy, LabelFor, Chronological, AppearInOrder, Uniform, Within, Spans;
    YearZeroOpensInWeekYearMinusOne();
    SpanOfTwo(x, y);
    LabelOfForwardSpan([x, y], Day(x), Day(y));
    ChronologyExactly(data, [x, y], None, Day(x), Day(y));
  }

  lemma YearMinusOneSortsBackwards()
    ensures Year(FIRST_OF_YEAR_MINUS_ONE) == Year(FIRST_OF_YEAR_MINUS_ONE + 1) == -1
    ensures Month(FIRST_OF_YEAR_MINUS_ONE) == Month(FIRST_OF_YEAR_MINUS_ONE + 1) == 0
    ensures SortKey(FIRST_OF_YEAR_MINUS_ONE) > SortKey(FIRST_OF_YEAR_MINUS_ONE + 1)
  {
    hide YearStart, SortKey;
    YearStartsAroundZero();
    assert DayNumber(-1, 0, 1) == FIRST_OF_YEAR_MINUS_ONE && DayNumber(-1, 0, 2) == FIRST_OF_YEAR_MINUS_ONE + 1;
    DayRoundTrip(-1, 0, 1);
    DayRoundTrip(-1, 0, 2);
    SortKeyIsChronological(FIRST_OF_YEAR_MINUS_ONE, FIRST_OF_YEAR_MINUS_ONE + 1);
  }

  lemma SortOfTwo(x: Stamp, y: Stamp)
    ensures StableSort([x, y]) == if Key(x) > Key(y) then [y, x] else [x, y]
  {
    hide Key;
    assert [x, y][..1] == [x] && [x][..0] == [];
    assert StableSort([]) == [];
    assert StableSort([x]) == Insert([], x) == [x];
    assert StableSort([x, y]) == Insert([x], y);
    assert Insert([], y) == [y];
  }

  /** A bucket with January 1st and 2nd of year -1 is sorted backwards, and its interval ends before it starts. */
  lemma BackwardGroup(data: Data, x: Stamp, y: Stamp)
    requires Day(x) == FIRST_OF_YEAR_MINUS_ONE && Day(y) == FIRST_OF_YEAR_MINUS_ONE + 1
    requires Uniform(data) && Within(StableSort([x, y]), data)
    ensures MakeGroup(data, StableSort([x, y])).end < MakeGroup(data, StableSort([x, y])).start
  {
    hide SortKey, StableSort, Year, SumUp, Uniform, Within, StartOfDay, EndOfDay;
    YearMinusOneSortsBackwards();
    SortOfTwo(x, y);
    DayOrder(x, y);
  }

  /** If these two are a group of the response, that group holds neither of them. */
  lemma BackwardGroupOf(data: Data, s: seq<Stamp>, wanted: Option<Label>, i: nat, x: Stamp, y: Stamp)
    requires Uniform(data) && Within(s, data) && s != []
    requires Day(x) == FIRST_OF_YEAR_MINUS_ONE && Day(y) == FIRST_OF_YEAR_MINUS_ONE + 1
    requires i < |GroupBy(LabelFor(s, wanted), s).keys| && DatesOf(LabelFor(s, wanted), s, i) == [x, y]
    ensures i < |Format(data, s, wanted).groups|
    ensures Format(data, s, wanted).groups[i].end < Format(data, s, wanted).groups[i].start
  {
    hide LabelFor, Format, GroupBy, DatesOf, MakeGroup, StableSort, Day;
    var _, _ := GroupEnds(data, s, wanted, i);
    BackwardGroup(data, x, y);
  }

  lemma BucketOfTwo(grain: Label, x: Stamp, y: Stamp, unit: int)
    requires Unit(grain, Day(x)) == Unit(grain, Day(y)) == unit
    ensures Bucket(grain, [x, y], unit) == [x, y]
    ensures GroupBy(grain, [x, y]).keys == [unit]
  {
    hide Unit, Day;
    var s := [x, y];
    assert s[..1] == [x] && [x][..0] == [];
    assert Bucket(grain, [x], unit) == [] + [x] == [x];
    var units := Units(grain, s);
    assert units == [unit, unit] && units[..1] == [unit] && [unit][..0] == [];
    assert ObjectKeys([unit]) == InsertName([], unit) == [unit];
  }

  /** January 1st and 2nd of year -1 under the label MONTHS: the response has one group, which ends before it
      starts. */
  lemma YearMinusOneIsMissed(data: Data, x: Stamp, y: Stamp)
    requires Day(x) == FIRST_OF_YEAR_MINUS_ONE && Day(y) == FIRST_OF_YEAR_MINUS_ONE + 1
    requires Uniform(data) && Within([x, y], data)
    ensures var groups := Format(data, [x, y], Some(MONTHS)).groups;
            |groups| == 1 && groups[0].end < groups[0].start
  {
    hide Format, Bucket, GroupBy, Uniform, Within, Year, Month, SortKey, Day;
    YearMinusOneSortsBackwards();
    BucketOfTwo(MONTHS, x, y, 0);
    BackwardGroupOf(data, [x, y], Some(MONTHS), 0, x, y);
    GroupCount(data, [x, y], Some(MONTHS));
  }

  lemma BucketOfThree(grain: Label, x: Stamp, y: Stamp, z: Stamp, unit: int)
    requires Unit(grain, Day(x)) == Unit(grain, Day(y)) == unit != Unit(grain, Day(z))
    ensures Bucket(grain, [x, y, z], unit) == [x, y]
  {
    hide Unit, Day;
    BucketOfTwo(grain, x, y, unit);
    assert [x, y, z][..2] == [x, y] && [x, y] + [] == [x, y];
  }

  lemma KeysOfThree(grain: Label, x: Stamp, y: Stamp, z: Stamp, unit: int)
    requires Unit(grain, Day(x)) == Unit(grain, Day(y)) == unit < 0 <= Unit(grain, Day(z))
    ensures GroupBy(grain, [x, y, z]).keys == [Unit(grain, Day(z)), unit]
  {
    hide Unit, Day, Bucket;
    var s, other := [x, y, z], Unit(grain, Day(z));
    BucketOfTwo(grain, x, y, unit);
    var units := Units(grain, s);
    assert units[..2] == Units(grain, [x, y]) && units[2] == other;
    assert InsertIndex([unit], other) == [other] + [unit];
  }

  lemma WeekYearMinusTwo()
    ensures IsoWeekYear(FIRST_OF_YEAR_MINUS_ONE) == IsoWeekYear(FIRST_OF_YEAR_MINUS_ONE + 1) == -2
  {
    hide YearStart;
    YearStartsAroundZero();
    YearLength(-2);
    assert Thursday(FIRST_OF_YEAR_MINUS_ONE) == FIRST_OF_YEAR_MINUS_ONE - 1;
    assert Thursday(FIRST_OF_YEAR_MINUS_ONE + 1) == FIRST_OF_YEAR_MINUS_ONE - 1;
    YearUnique(FIRST_OF_YEAR_MINUS_ONE - 1, -2);
  }

  lemma LabelOfThree(x: Stamp, y: Stamp, z: Stamp)
    requires Day(x) < Day(y) < Day(z) && Year(Day(x)) == Year(Day(y)) < 0 <= Year(Day(z))
    requires IsoWeekYear(Day(y)) < IsoWeekYear(Day(z))
    ensures LabelFor([x, y, z], None) == YEARS
  {
    hide LabelFor, Year, IsoWeekYear, Day, Month, Monday;
    var s := [x, y, z];
    assert x in s && y in s && z in s;
    assert SortedFirst(s, Day(x), Day(y)) && SortedLast(s, Day(z), Day(z));
    ChosenLabelMeans(s, Day(x), Day(z), Day(y), Day(z));
  }

  /** With a third date in a week-year from 0 on and no label requested, the label is YEARS, and the second group is
      that of the two. */
  lemma YearMinusOneIsMissedByDefault(data: Data, x: Stamp, y: Stamp, z: Stamp)
    requires Day(x) == FIRST_OF_YEAR_MINUS_ONE && Day(y) == FIRST_OF_YEAR_MINUS_ONE + 1
    requires Day(z) > Day(y) && Year(Day(z)) >= 0 && IsoWeekYear(Day(z)) >= 0
    requires Uniform(data) && Within([x, y, z], data)
    ensures LabelFor([x, y, z], None) == YEARS
    ensures var groups := Format(data, [x, y, z], None).groups;
            |groups| == 2 && groups[1].end < groups[1].start
  {
    hide Format, Bucket, GroupBy, Uniform, Within, Year, IsoWeekYear, Month, SortKey, Day, LabelFor;
    YearMinusOneSortsBackwards();
    WeekYearMinusTwo();
    LabelOfThree(x, y, z);
    BucketOfThree(YEARS, x, y, z, -2);
    KeysOfThree(YEARS, x, y, z, -2);
    BackwardGroupOf(data, [x, y, z], None, 1, x, y);
    GroupCount(data, [x, y, z], None);
  }

  const FIRST_OF_YEAR_MINUS_THREE := -720623

  lemma WednesdaysOfYearMinusThree()
    ensures Year(FIRST_OF_YEAR_MINUS_THREE) == Year(FIRST_OF_YEAR_MINUS_THREE + 364) == -3
    ensures IsoWeek(FIRST_OF_YEAR_MINUS_THREE) == IsoWeek(FIRST_OF_YEAR_MINUS_THREE + 364) == 1
  {
    hide YearStart;
    YearStartIsFormula(-3);
    YearStartIsFormula(-2);
    assert YearStart(-3) == FIRST_OF_YEAR_MINUS_THREE && YearStart(-2) == FIRST_OF_YEAR_MINUS_THREE + 365;
    YearLength(-2);
    YearUnique(FIRST_OF_YEAR_MINUS_THREE, -3);
    YearUnique(FIRST_OF_YEAR_MINUS_THREE + 364, -3);
    assert Thursday(FIRST_OF_YEAR_MINUS_THREE) == FIRST_OF_YEAR_MINUS_THREE + 1;
    assert Thursday(FIRST_OF_YEAR_MINUS_THREE + 364) == FIRST_OF_YEAR_MINUS_THREE + 365;
    YearUnique(FIRST_OF_YEAR_MINUS_THREE + 1, -3);
    YearUnique(FIRST_OF_YEAR_MINUS_THREE + 365, -2);
  }

  lemma YearMinusThreeIsDays(x: Stamp, y: Stamp, z: Stamp)
    requires Day(x) == FIRST_OF_YEAR_MINUS_THREE && Day(y) == Day(x) + 7 && Day(z) == Day(x) + 364
    ensures LabelFor([x, y, z], None) == DAYS
  {
    hide LabelFor, Year, IsoWeek, IsoWeekYear, Month, Monday, Day;
    var s := [x, y, z];
    assert x in s && y in s && z in s;
    WednesdaysOfYearMinusThree();
    YearMonotone(Day(x), Day(y));
    YearMonotone(Day(y), Day(z));
    assert SortedFirst(s, Day(x), Day(z)) && SortedLast(s, Day(z), Day(x));
    ChosenLabelMeans(s, Day(x), Day(z), Day(z), Day(x));
  }

  /** January 1st, January 8th and December 31st of year -3: the sort takes the last for the first, the two week
      numbers are equal, the label is DAYS, and all three are added up as one day. */
  lemma YearMinusThreeIsMixed(x: Stamp, y: Stamp, z: Stamp)
    requires Day(x) == FIRST_OF_YEAR_MINUS_THREE && Day(y) == Day(x) + 7 && Day(z) == Day(x) + 364
    ensures LabelFor([x, y, z], None) == DAYS && !Fits(DAYS, Day(x), Day(z))
    ensures forall d :: d in [x, y, z] ==> d in Bucket(DAYS, [x, y, z], Unit(DAYS, Day(x)))
  {
    hide LabelFor, Year, Day, Bucket;
    YearMinusThreeIsDays(x, y, z);
  }

  /** Two keys of one day, the later one written first: the response starts after the other. */
  lemma ResponseStartsLate(data: Data, x: Stamp, y: Stamp, wanted: Option<Label>)
    requires x.time == 1000 && y.time == 0 && Uniform(data) && Within([x, y], data)
    ensures Format(data, [x, y], wanted).start == x.time > y.time
  {
    hide SortKey, StableSort, Year, GroupBy, Groups;
    SortOfTwo(x, y);
  }
}
