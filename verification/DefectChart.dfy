/** The chart series of views/english/partial/stopsPerDefectTypeGraphsForFactory.ejs: counts that come
    week by week are turned into one series per defect type. */
module DefectChart {
  import opened Options
  import opened Sequences

  datatype Entry = Entry(name: string, count: int)

  /** The data of one week, an object in the order of its properties. */
  type Week = seq<Entry>

  const WEEK := "weekNumber"

  datatype Series = Series(name: string, data: seq<int>)

  ghost predicate IsObject(week: Week) {
    forall i, j :: 0 <= i < j < |week| ==> week[i].name != week[j].name
  }

  ghost predicate AreObjects(weeks: seq<Week>) {
    forall week :: week in weeks ==> IsObject(week)
  }

  function Property(week: Week, name: string): Option<int> {
    if week == [] then None
    else if week[|week| - 1].name == name then Some(week[|week| - 1].count)
    else Property(week[..|week| - 1], name)
  }

  // ----- What the loops compute

  /** The counts of one type, week after week, for the weeks that have the type. */
  function SeriesOf(weeks: seq<Week>, name: string): seq<int> {
    if weeks == [] then []
    else
      var count := Property(weeks[|weeks| - 1], name);
      SeriesOf(weeks[..|weeks| - 1], name) + if count.Some? then [count.value] else []
  }

  function Sum(counts: seq<int>): int {
    if counts == [] then 0 else Sum(counts[..|counts| - 1]) + counts[|counts| - 1]
  }

  function WeekTotal(week: Week): int {
    if week == [] then 0
    else
      var e := week[|week| - 1];
      WeekTotal(week[..|week| - 1]) + if e.name == WEEK then 0 else e.count
  }

  function GrandTotal(weeks: seq<Week>): int {
    if weeks == [] then 0 else GrandTotal(weeks[..|weeks| - 1]) + WeekTotal(weeks[|weeks| - 1])
  }

  /** The tallest week, or 0. */
  function Limit(weeks: seq<Week>): int {
    if weeks == [] then 0 else Max(Limit(weeks[..|weeks| - 1]), WeekTotal(weeks[|weeks| - 1]))
  }

  function Max(a: int, b: int): int {
    if a > b then a else b
  }

  ghost predicate IsStep(weeks: seq<Week>, totalStops: int, step: int) {
    && step <= totalStops
    && (forall week, e :: week in weeks && e in week && e.name != WEEK && e.count != 0 ==> step <= e.count)
    && (step == totalStops ||
        exists week, e :: week in weeks && e in week && e.name != WEEK && e.count != 0 && e.count == step)
  }

  /** The total of several series. */
  function TotalOf(weeks: seq<Week>, names: seq<string>): int {
    if names == [] then 0 else TotalOf(weeks, names[..|names| - 1]) + Sum(SeriesOf(weeks, names[|names| - 1]))
  }

  /** The types in order of first appearance, after a further week. */
  function WeekTypes(names: seq<string>, week: Week): seq<string> {
    if week == [] then names
    else
      var before, name := WeekTypes(names, week[..|week| - 1]), week[|week| - 1].name;
      if name == WEEK || name in before then before else before + [name]
  }

  function Types(weeks: seq<Week>): seq<string> {
    if weeks == [] then [] else WeekTypes(Types(weeks[..|weeks| - 1]), weeks[|weeks| - 1])
  }

  /** The types of a list, each once. */
  ghost predicate AreTypesOf(names: seq<string>, weeks: seq<Week>) {
    Distinct(names) && forall name :: name in names <==> name != WEEK && SeriesOf(weeks, name) != []
  }

  // ----- The loops

  /** The first loop of the doughnut chart. */
  method MonthTotals(weeks: seq<Week>) returns (point: int, horizontal: int, vertical: int, oil: int, total: int)
    ensures point == Sum(SeriesOf(weeks, "Point"))
    ensures horizontal == Sum(SeriesOf(weeks, "Horizontal"))
    ensures vertical == Sum(SeriesOf(weeks, "Vertical"))
    ensures oil == Sum(SeriesOf(weeks, "Oil"))
    ensures total == point + horizontal + vertical + oil
  {
    point, horizontal, vertical, oil := 0, 0, 0, 0;
    for n := 0 to |weeks|
      invariant point == Sum(SeriesOf(weeks[..n], "Point"))
      invariant horizontal == Sum(SeriesOf(weeks[..n], "Horizontal"))
      invariant vertical == Sum(SeriesOf(weeks[..n], "Vertical"))
      invariant oil == Sum(SeriesOf(weeks[..n], "Oil"))
    {
      var data := weeks[n];
      SumGrows(weeks, n, "Point");
      SumGrows(weeks, n, "Horizontal");
      SumGrows(weeks, n, "Vertical");
      SumGrows(weeks, n, "Oil");
      if Property(data, "Point").GetOr(0) != 0 {
        point := point + Property(data, "Point").value;
      }
      if Property(data, "Horizontal").GetOr(0) != 0 {
        horizontal := horizontal + Property(data, "Horizontal").value;
      }
      if Property(data, "Vertical").GetOr(0) != 0 {
        vertical := vertical + Property(data, "Vertical").value;
      }
      if Property(data, "Oil").GetOr(0) != 0 {
        oil := oil + Property(data, "Oil").value;
      }
    }
    assert weeks[..|weeks|] == weeks;
    total := point + horizontal + vertical + oil;
  }

  lemma SumGrows(weeks: seq<Week>, n: nat, name: string)
    requires n < |weeks|
    ensures Sum(SeriesOf(weeks[..n + 1], name)) == Sum(SeriesOf(weeks[..n], name)) + Property(weeks[n], name).GetOr(0)
  {
    assert weeks[..n + 1][..n] == weeks[..n];
    var before, count := SeriesOf(weeks[..n], name), Property(weeks[n], name);
    if count.Some? {
      assert (before + [count.value])[..|before|] == before;
    } else {
      assert before + [] == before;
    }
  }

  function Somes(counts: seq<int>): (r: seq<Option<int>>)
    ensures |r| == |counts|
  {
    seq(|counts|, i requires 0 <= i < |counts| => Some(counts[i]))
  }

  function Values(counts: seq<Option<int>>): (r: seq<int>)
    ensures |r| == |counts|
  {
    seq(|counts|, i requires 0 <= i < |counts| => counts[i].GetOr(0))
  }

  /** The table while the weeks `seen` have been read: each series still has its leading `undefined`. */
  ghost predicate Collected(seen: seq<Week>, names: seq<string>, complete: map<string, seq<Option<int>>>) {
    && AreTypesOf(names, seen)
    && (forall name :: name in complete <==> name in names)
    && forall name :: name in complete ==> complete[name] == [None] + Somes(SeriesOf(seen, name))
  }

  lemma SeriesWithEntry(weeks: seq<Week>, week: Week, e: Entry, name: string)
    requires IsObject(week + [e])
    ensures SeriesOf(weeks + [week + [e]], name) ==
            if e.name == name then SeriesOf(weeks + [week], name) + [e.count] else SeriesOf(weeks + [week], name)
    ensures e.name == name ==> Property(week, name).None?
  {
    assert (weeks + [week + [e]])[..|weeks|] == weeks && (weeks + [week])[..|weeks|] == weeks;
    assert (week + [e])[..|week|] == week;
    if e.name == name {
      forall i | 0 <= i < |week|
        ensures week[i].name != name
      {
        assert (week + [e])[i].name != (week + [e])[|week|].name;
      }
      NoProperty(week, name);
      assert SeriesOf(weeks, name) + [] == SeriesOf(weeks, name);
    }
  }

  lemma {:induction false} NoProperty(week: Week, name: string)
    requires forall i :: 0 <= i < |week| ==> week[i].name != name
    ensures Property(week, name).None?
  {
    if week == [] {
    } else {
      NoProperty(week[..|week| - 1], name);
    }
  }

  /** Reading one more property adds its count to its own series and to no other. */
  lemma EntryIsCollected(weeks: seq<Week>, week: Week, e: Entry, names: seq<string>,
                         complete: map<string, seq<Option<int>>>)
    requires IsObject(week + [e]) && Collected(weeks + [week], names, complete) && e.name != WEEK
    ensures var more := if e.name in complete then names else names + [e.name];
            var grown := (if e.name in complete then complete[e.name] else [None]) + [Some(e.count)];
            Collected(weeks + [week + [e]], more, complete[e.name := grown])
  {
    hide SeriesOf;
    var seen := weeks + [week + [e]];
    var more := if e.name in complete then names else names + [e.name];
    var grown := (if e.name in complete then complete[e.name] else [None]) + [Some(e.count)];
    forall name
      ensures SeriesOf(seen, name) == if e.name == name then SeriesOf(weeks + [week], name) + [e.count]
                                      else SeriesOf(weeks + [week], name)
    {
      SeriesWithEntry(weeks, week, e, name);
    }
    assert grown == [None] + Somes(SeriesOf(seen, e.name));
    assert more == names || more == names + [e.name];
  }

  lemma WeekNumberIsSkipped(weeks: seq<Week>, week: Week, e: Entry, names: seq<string>,
                            complete: map<string, seq<Option<int>>>)
    requires IsObject(week + [e]) && Collected(weeks + [week], names, complete) && e.name == WEEK
    ensures Collected(weeks + [week + [e]], names, complete)
  {
    forall name | name != WEEK
      ensures SeriesOf(weeks + [week + [e]], name) == SeriesOf(weeks + [week], name)
    {
      SeriesWithEntry(weeks, week, e, name);
    }
  }

  lemma EmptyWeek(weeks: seq<Week>, names: seq<string>, complete: map<string, seq<Option<int>>>)
    requires Collected(weeks, names, complete)
    ensures Collected(weeks + [[]], names, complete)
  {
    forall name
      ensures SeriesOf(weeks + [[]], name) == SeriesOf(weeks, name)
    {
      assert (weeks + [[]])[..|weeks|] == weeks;
    }
  }

  /** One week of the bar chart's loop. */
  method ReadWeek(ghost weeks: seq<Week>, week: Week, names: seq<string>,
                  completeDefects: map<string, seq<Option<int>>>)
    returns (newNames: seq<string>, newDefects: map<string, seq<Option<int>>>, totalCount: int)
    requires IsObject(week) && Collected(weeks, names, completeDefects)
    ensures Collected(weeks + [week], newNames, newDefects)
    ensures newNames == WeekTypes(names, week)
    ensures totalCount == WeekTotal(week)
  {
    hide Collected;
    newNames, newDefects, totalCount := names, completeDefects, 0;
    EmptyWeek(weeks, names, completeDefects);
    assert week[..0] == [];
    WeekTotalGrows([], Entry("", 0));
    for n := 0 to |week|
      invariant Collected(weeks + [week[..n]], newNames, newDefects)
      invariant newNames == WeekTypes(names, week[..n])
      invariant totalCount == WeekTotal(week[..n])
    {
      var e := week[n];
      assert week[..n + 1] == week[..n] + [e];
      WeekTotalGrows(week[..n], e);
      WeekTypesGrow(names, week[..n], e);
      KnownTypes(weeks + [week[..n]], newNames, newDefects);
      if e.name != WEEK {
        EntryIsCollected(weeks, week[..n], e, newNames, newDefects);
        totalCount := totalCount + e.count;
        if e.name in newDefects {
          newDefects := newDefects[e.name := newDefects[e.name] + [Some(e.count)]];
        } else {
          newDefects := newDefects[e.name := [None, Some(e.count)]];
          newNames := newNames + [e.name];
        }
        assert [None] + [Some(e.count)] == [None, Some(e.count)];
      } else {
        WeekNumberIsSkipped(weeks, week[..n], e, newNames, newDefects);
      }
    }
    assert week[..|week|] == week;
  }

  lemma WeekTypesGrow(names: seq<string>, week: Week, e: Entry)
    ensures WeekTypes(names, week + [e]) ==
            var before := WeekTypes(names, week);
            if e.name == WEEK || e.name in before then before else before + [e.name]
  {
    assert (week + [e])[..|week|] == week;
  }

  lemma KnownTypes(seen: seq<Week>, names: seq<string>, complete: map<string, seq<Option<int>>>)
    requires Collected(seen, names, complete)
    ensures forall name :: name in complete <==> name in names
  {}

  lemma WeekTotalGrows(week: Week, e: Entry)
    ensures WeekTotal(week + [e]) == WeekTotal(week) + if e.name == WEEK then 0 else e.count
    ensures WeekTotal([]) == 0
  {
    assert (week + [e])[..|week|] == week;
  }

  /** The smallest count of a week that is not 0, or the given step if that is smaller. */
  method SmallestCount(week: Week, stepSize: int) returns (smallest: int)
    ensures IsStep([week], stepSize, smallest)
  {
    smallest := stepSize;
    for n := 0 to |week|
      invariant smallest <= stepSize
      invariant forall k :: 0 <= k < n && week[k].name != WEEK && week[k].count != 0 ==> smallest <= week[k].count
      invariant smallest == stepSize ||
                (exists k :: 0 <= k < n && week[k].name != WEEK && week[k].count == smallest != 0)
    {
      var e := week[n];
      if e.name != WEEK && e.count != 0 && e.count < smallest {
        smallest := e.count;
      }
    }
    if smallest != stepSize {
      var k :| 0 <= k < |week| && week[k].name != WEEK && week[k].count == smallest != 0;
      assert week[k] in week && week in [week];
    }
  }

  lemma StepsCompose(weeks: seq<Week>, week: Week, totalStops: int, before: int, after: int)
    requires IsStep(weeks, totalStops, before) && IsStep([week], before, after)
    ensures IsStep(weeks + [week], totalStops, after)
  {
    if after != before {
      var e :| e in week && e.name != WEEK && e.count == after != 0;
      assert week in weeks + [week] && e in week;
    } else if before != totalStops {
      var w, e :| w in weeks && e in w && e.name != WEEK && e.count == before != 0;
      assert w in weeks + [week] && e in w;
    }
  }

  /** The loops of the bar chart: the series with the leading `undefined` cut off, the week labels, the
      tallest week and the smallest count. */
  method BarChart(weeks: seq<Week>, totalStops: int)
    returns (dataset: seq<Series>, labels: seq<Option<int>>, limit: int, stepSize: int)
    requires AreObjects(weeks)
    ensures AreTypesOf(Types(weeks), weeks)
    ensures |dataset| == |Types(weeks)| && forall i :: 0 <= i < |dataset| ==> dataset[i].name == Types(weeks)[i]
    ensures forall i :: 0 <= i < |dataset| ==> dataset[i].data == SeriesOf(weeks, dataset[i].name)
    ensures |labels| == |weeks| && forall n :: 0 <= n < |weeks| ==> labels[n] == Property(weeks[n], "weekNumber")
    ensures limit == Limit(weeks)
    ensures IsStep(weeks, totalStops, stepSize)
  {
    hide SeriesOf, IsStep, WeekTypes, WeekTotal, Property, AreObjects, IsObject;
    var names: seq<string>, completeDefects: map<string, seq<Option<int>>> := [], map[];
    labels, limit, stepSize := [], 0, totalStops;
    NothingCollected(totalStops);
    for n := 0 to |weeks|
      invariant Collected(weeks[..n], names, completeDefects)
      invariant names == Types(weeks[..n])
      invariant |labels| == n && forall k :: 0 <= k < n ==> labels[k] == Property(weeks[k], WEEK)
      invariant limit == Limit(weeks[..n])
      invariant IsStep(weeks[..n], totalStops, stepSize)
    {
      var totalCount;
      OneWeek(weeks, n);
      names, completeDefects, totalCount := ReadWeek(weeks[..n], weeks[n], names, completeDefects);
      var smallest := SmallestCount(weeks[n], stepSize);
      StepsCompose(weeks[..n], weeks[n], totalStops, stepSize, smallest);
      stepSize := smallest;
      limit := Max(limit, totalCount);
      labels := labels + [Property(weeks[n], WEEK)];
      assert weeks[..n + 1] == weeks[..n] + [weeks[n]] && weeks[..n + 1][..n] == weeks[..n];
    }
    assert weeks[..|weeks|] == weeks;
    dataset := [];
    for i := 0 to |names|
      invariant |dataset| == i
      invariant forall k :: 0 <= k < i ==> dataset[k].name == names[k] && dataset[k].data == SeriesOf(weeks, names[k])
    {
      assert names[i] in names;
      var column := completeDefects[names[i]];
      assert Values(column[1..]) == SeriesOf(weeks, names[i]);
      dataset := dataset + [Series(names[i], Values(column[1..]))];
    }
  }

  lemma OneWeek(weeks: seq<Week>, n: nat)
    requires AreObjects(weeks) && n < |weeks|
    ensures IsObject(weeks[n])
  {
    assert weeks[n] in weeks;
  }

  lemma NothingCollected(totalStops: int)
    ensures Collected([], [], map[]) && IsStep([], totalStops, totalStops)
  {}

  /** One more property adds its type at the end, unless it is the week number or the type is there already. */
  lemma TypesGrow(weeks: seq<Week>, week: Week, e: Entry)
    ensures Types([]) == [] && Types(weeks + [[]]) == Types(weeks)
    ensures Types(weeks + [week + [e]]) ==
            var before := Types(weeks + [week]);
            if e.name == "weekNumber" || e.name in before then before else before + [e.name]
  {
    assert (weeks + [week + [e]])[..|weeks|] == weeks && (weeks + [week])[..|weeks|] == weeks;
    assert (weeks + [[]])[..|weeks|] == weeks;
    WeekTypesGrow(Types(weeks), week, e);
  }

  // ----- Conservation and alignment

  lemma {:induction false} TotalWithEntry(weeks: seq<Week>, week: Week, e: Entry, names: seq<string>)
    requires IsObject(week + [e]) && Distinct(names)
    ensures TotalOf(weeks + [week + [e]], names) ==
            TotalOf(weeks + [week], names) + if e.name in names then e.count else 0
  {
    if names == [] {
    } else {
      var front, name := names[..|names| - 1], names[|names| - 1];
      assert names == front + [name];
      TotalWithEntry(weeks, week, e, front);
      SeriesWithEntry(weeks, week, e, name);
      var before := SeriesOf(weeks + [week], name);
      assert (before + [e.count])[..|before|] == before;
    }
  }

  lemma {:induction false} TotalWithWeek(weeks: seq<Week>, week: Week, names: seq<string>)
    requires IsObject(week) && Distinct(names) && WEEK !in names
    requires forall e :: e in week && e.name != WEEK ==> e.name in names
    ensures TotalOf(weeks + [week], names) == TotalOf(weeks, names) + WeekTotal(week)
  {
    if week == [] {
      TotalWithNothing(weeks, names);
    } else {
      var front, e := week[..|week| - 1], week[|week| - 1];
      assert week == front + [e] && e in week;
      TotalWithWeek(weeks, front, names);
      TotalWithEntry(weeks, front, e, names);
    }
  }

  lemma {:induction false} TotalWithNothing(weeks: seq<Week>, names: seq<string>)
    ensures TotalOf(weeks + [[]], names) == TotalOf(weeks, names)
  {
    if names == [] {
    } else {
      var series := SeriesOf(weeks, names[|names| - 1]);
      TotalWithNothing(weeks, names[..|names| - 1]);
      assert (weeks + [[]])[..|weeks|] == weeks && series + [] == series;
    }
  }

  lemma {:induction false} TotalOfNothing(names: seq<string>)
    ensures TotalOf([], names) == 0
  {
    if names == [] {
    } else {
      TotalOfNothing(names[..|names| - 1]);
    }
  }

  lemma {:induction false} TotalIsGrandTotal(weeks: seq<Week>, names: seq<string>)
    requires AreObjects(weeks) && Distinct(names) && WEEK !in names
    requires forall week, e :: week in weeks && e in week && e.name != WEEK ==> e.name in names
    ensures TotalOf(weeks, names) == GrandTotal(weeks)
  {
    if weeks == [] {
      TotalOfNothing(names);
    } else {
      var front, week := weeks[..|weeks| - 1], weeks[|weeks| - 1];
      assert weeks == front + [week] && week in weeks;
      forall w, e | w in front && e in w && e.name != WEEK
        ensures e.name in names
      {
        assert w in weeks;
      }
      TotalIsGrandTotal(front, names);
      TotalWithWeek(front, week, names);
    }
  }

  lemma {:induction false} EntryIsInSeries(weeks: seq<Week>, week: Week, e: Entry)
    requires week in weeks && e in week
    ensures SeriesOf(weeks, e.name) != []
  {
    var last := weeks[|weeks| - 1];
    if last == week {
      EntryIsProperty(week, e);
    } else {
      assert weeks == weeks[..|weeks| - 1] + [last];
      EntryIsInSeries(weeks[..|weeks| - 1], week, e);
    }
  }

  lemma {:induction false} EntryIsProperty(week: Week, e: Entry)
    requires e in week
    ensures Property(week, e.name).Some?
  {
    var last := week[|week| - 1];
    if last.name == e.name {
    } else {
      assert week == week[..|week| - 1] + [last];
      EntryIsProperty(week[..|week| - 1], e);
    }
  }

  /** Turning weeks into series loses no count: the series add up to all counts of all weeks. */
  lemma SeriesConserveCounts(weeks: seq<Week>, names: seq<string>)
    requires AreObjects(weeks) && AreTypesOf(names, weeks)
    ensures TotalOf(weeks, names) == GrandTotal(weeks)
  {
    forall week, e | week in weeks && e in week && e.name != WEEK
      ensures e.name in names
    {
      EntryIsInSeries(weeks, week, e);
    }
    TotalIsGrandTotal(weeks, names);
  }

  /** A series has one bar for each week, and the right one, exactly when every week has the type: a
      week without it shifts all later bars to the left. */
  lemma {:induction false} SeriesIsAligned(weeks: seq<Week>, name: string)
    ensures |SeriesOf(weeks, name)| <= |weeks|
    ensures (|SeriesOf(weeks, name)| == |weeks|
             && forall n :: 0 <= n < |weeks| ==> Property(weeks[n], name) == Some(SeriesOf(weeks, name)[n]))
            <==> forall n :: 0 <= n < |weeks| ==> Property(weeks[n], name).Some?
    ensures |SeriesOf(weeks, name)| == |weeks| ==> forall n :: 0 <= n < |weeks| ==> Property(weeks[n], name).Some?
  {
    if weeks == [] {
    } else {
      var front := weeks[..|weeks| - 1];
      SeriesIsAligned(front, name);
      assert forall n :: 0 <= n < |front| ==> front[n] == weeks[n];
    }
  }

  /** A first week without the type: the count of the second week is drawn at the first. */
  lemma MissingWeekShifts(weeks: seq<Week>)
    requires weeks == [[], [Entry("Point", 5)]]
    ensures Property(weeks[0], "Point").None? && Property(weeks[1], "Point") == Some(5)
    ensures SeriesOf(weeks, "Point") == [5]
  {
    assert weeks[..1] == [[]] && weeks[..1][..0] == [];
    assert SeriesOf(weeks[..1], "Point") == [];
  }

  /** There is one such step: week numbers and zeros do not count. */
  lemma StepIsUnique(weeks: seq<Week>, totalStops: int, a: int, b: int)
    requires IsStep(weeks, totalStops, a) && IsStep(weeks, totalStops, b)
    ensures a == b
  {}

  lemma StepOfOneWeek(weeks: seq<Week>, step: int)
    requires weeks == [[Entry("weekNumber", 1), Entry("Point", 0), Entry("Oil", 7), Entry("Vertical", 8)]]
    ensures IsStep(weeks, 9, step) <==> step == 7
    ensures IsStep(weeks, 5, step) <==> step == 5
  {
    var week := weeks[0];
    assert week in weeks && week[2] in week && week[2] == Entry("Oil", 7);
    assert forall w :: w in weeks ==> w == week;
    assert forall e :: e in week ==> e == week[0] || e == week[1] || e == week[2] || e == week[3];
  }

  /** The limit is the height of the tallest week. */
  lemma {:induction false} LimitIsTallest(weeks: seq<Week>)
    ensures Limit(weeks) >= 0 && forall week :: week in weeks ==> WeekTotal(week) <= Limit(weeks)
    ensures Limit(weeks) == 0 || exists week :: week in weeks && WeekTotal(week) == Limit(weeks)
  {
    if weeks == [] {
    } else {
      var front, last := weeks[..|weeks| - 1], weeks[|weeks| - 1];
      assert weeks == front + [last];
      LimitIsTallest(front);
      if Limit(weeks) == WeekTotal(last) {
        assert last in weeks;
      }
    }
  }
}
