/** The grouping of dated values in src/utils/response.ts. */
module TimeSeries {
  import opened Calendar
  import opened DateSort
  import opened Options
  import opened Sequences

  datatype Label = DAYS | WEEKS | MONTHS | YEARS

  /** A datum: a number, or a flat record of numbers. */
  datatype Value = Number(n: real) | Record(fields: map<string, real>)

  type Data = map<Stamp, Value>

  datatype Group = Group(start: int, end: int, data: Option<Value>)

  datatype Response = Empty | Response(grain: Label, groups: seq<Group>, start: int, end: int)

  /** An object whose properties are arrays of dates: its property names in enumeration order. */
  datatype Grouped = Grouped(keys: seq<int>, at: map<int, seq<Stamp>>)

  ghost predicate Uniform(data: Data) {
    (forall x :: x in data ==> data[x].Number?) || (forall x :: x in data ==> data[x].Record?)
  }

  ghost predicate Within(s: seq<Stamp>, data: Data) {
    forall x :: x in s ==> x in data
  }

  function Day(x: Stamp): int {
    DayOf(x.time)
  }

  // ----- Grouping

  function Unit(grain: Label, day: int): int {
    match grain
    case DAYS => IsoWeekday(day)
    case WEEKS => IsoWeek(day)
    case MONTHS => Month(day)
    case YEARS => IsoWeekYear(day)
  }

  /** Puts an array-index name among the others of its kind, which are enumerated in ascending order
      and before all other names. */
  function InsertIndex(keys: seq<int>, k: int): seq<int> {
    if keys == [] || keys[0] < 0 || k < keys[0] then [k] + keys
    else [keys[0]] + InsertIndex(keys[1..], k)
  }

  function InsertName(keys: seq<int>, k: int): seq<int> {
    if k in keys then keys else if k < 0 then keys + [k] else InsertIndex(keys, k)
  }

  /** The names of an object whose properties were written in this order. */
  function ObjectKeys(written: seq<int>): seq<int> {
    if written == [] then []
    else InsertName(ObjectKeys(written[..|written| - 1]), written[|written| - 1])
  }

  function Units(grain: Label, s: seq<Stamp>): seq<int> {
    seq(|s|, i requires 0 <= i < |s| => Unit(grain, Day(s[i])))
  }

  /** The dates of one unit, in their old order. */
  function Bucket(grain: Label, s: seq<Stamp>, unit: int): (bucket: seq<Stamp>)
    ensures forall x :: x in bucket <==> x in s && Unit(grain, Day(x)) == unit
  {
    if s == [] then []
    else
      var front, x := s[..|s| - 1], s[|s| - 1];
      assert s == front + [x];
      Bucket(grain, front, unit) + (if Unit(grain, Day(x)) == unit then [x] else [])
  }

  function GroupBy(grain: Label, s: seq<Stamp>): Grouped {
    var units := Units(grain, s);
    Grouped(ObjectKeys(units), map u | u in units :: Bucket(grain, s, u))
  }

  // ----- Adding up

  function Field(fields: map<string, real>, name: string): real {
    if name in fields then fields[name] else 0.0
  }

  ghost predicate Alike(sum: Option<Value>, v: Value) {
    sum.Some? ==> sum.value.Number? == v.Number?
  }

  function Add(sum: Option<Value>, v: Value): (r: Value)
    requires Alike(sum, v)
    ensures r.Number? == v.Number?
  {
    match v
    case Number(n) => Number((if sum.Some? then sum.value.n else 0.0) + n)
    case Record(fields) =>
      var before := if sum.Some? then sum.value.fields else map[];
      Record(map name | name in before.Keys + fields.Keys :: Field(fields, name) + Field(before, name))
  }

  function SumUp(data: Data, s: seq<Stamp>): (sum: Option<Value>)
    requires Uniform(data) && Within(s, data)
    ensures sum.Some? <==> s != []
    ensures forall x :: x in data ==> Alike(sum, data[x])
  {
    if s == [] then None
    else
      assert s[|s| - 1] in s;
      assert forall x :: x in s[..|s| - 1] ==> x in s;
      Some(Add(SumUp(data, s[..|s| - 1]), data[s[|s| - 1]]))
  }

  // ----- The response

  /** One group of the response, from the sorted dates of a bucket. */
  function MakeGroup(data: Data, dates: seq<Stamp>): Group
    requires Uniform(data) && Within(dates, data) && dates != []
  {
    Group(StartOfDay(dates[0].time), EndOfDay(dates[|dates| - 1].time), SumUp(data, dates))
  }

  /** The grain for dates that span these two days. */
  function ChosenLabel(first: int, last: int): Label {
    if IsoWeekYear(last) - IsoWeekYear(first) > 0 then YEARS
    else if IsoWeek(last) - IsoWeek(first) == 0 then DAYS
    else if Month(last) - Month(first) <= 1 then WEEKS
    else MONTHS
  }

  ghost predicate IsGrouping(data: Data, grouped: Grouped) {
    forall k :: k in grouped.keys ==> k in grouped.at && grouped.at[k] != [] && Within(grouped.at[k], data)
  }

  lemma SortKeepsElements(s: seq<Stamp>)
    ensures forall x :: x in StableSort(s) <==> x in s
  {
    StableSortMeets(s, 0);
    forall x
      ensures x in StableSort(s) <==> x in s
    {
      assert x in multiset(StableSort(s)) <==> x in multiset(s);
    }
  }

  function GroupAt(data: Data, grouped: Grouped, k: int): Group
    requires Uniform(data) && k in grouped.at && grouped.at[k] != [] && Within(grouped.at[k], data)
  {
    SortKeepsElements(grouped.at[k]);
    MakeGroup(data, StableSort(grouped.at[k]))
  }

  function Groups(data: Data, grouped: Grouped): (groups: seq<Group>)
    requires Uniform(data) && IsGrouping(data, grouped)
    ensures |groups| == |grouped.keys|
  {
    seq(|grouped.keys|, i requires 0 <= i < |grouped.keys| => GroupAt(data, grouped, grouped.keys[i]))
  }

  function LabelFor(s: seq<Stamp>, wanted: Option<Label>): Label
    requires s != []
  {
    if wanted.Some? then wanted.value
    else
      var dates := StableSort(s);
      ChosenLabel(Day(dates[0]), Day(dates[|dates| - 1]))
  }

  /** What `formatResponse` returns for data whose keys are enumerated in this order. */
  function Format(data: Data, s: seq<Stamp>, wanted: Option<Label>): (response: Response)
    requires Uniform(data) && Within(s, data)
    ensures response.Empty? <==> s == []
  {
    if s == [] then Empty
    else
      var dates := StableSort(s);
      var grain := LabelFor(s, wanted);
      GroupByIsGrouping(grain, s, data);
      Response(grain, Groups(data, GroupBy(grain, s)), dates[0].time, EndOfDay(dates[|dates| - 1].time))
  }

  // ----- The key order of objects

  ghost predicate InKeyOrder(keys: seq<int>) {
    && Distinct(keys)
    && (forall i, j :: 0 <= i < j < |keys| && keys[j] >= 0 ==> 0 <= keys[i] < keys[j])
  }

  lemma {:induction false} InsertIndexMembers(keys: seq<int>, k: int)
    ensures forall u :: u in InsertIndex(keys, k) <==> u == k || u in keys
  {
    if keys == [] || keys[0] < 0 || k < keys[0] {
    } else {
      InsertIndexMembers(keys[1..], k);
      assert keys == [keys[0]] + keys[1..];
    }
  }

  lemma {:induction false} InsertIndexOrder(keys: seq<int>, k: int)
    requires InKeyOrder(keys) && k >= 0 && k !in keys
    ensures InKeyOrder(InsertIndex(keys, k))
  {
    if keys == [] || keys[0] < 0 || k < keys[0] {
      assert keys != [] && keys[0] < 0 ==> forall j :: 0 < j < |keys| ==> keys[j] < 0;
    } else {
      var rest := InsertIndex(keys[1..], k);
      InsertIndexOrder(keys[1..], k);
      InsertIndexMembers(keys[1..], k);
      forall j | 0 <= j < |rest|
        ensures keys[0] != rest[j] && (rest[j] >= 0 ==> keys[0] < rest[j])
      {
        assert rest[j] in rest;
      }
    }
  }

  /** An object enumerates each property once: array indices upwards, then the others. */
  lemma {:induction false} ObjectKeysAreOrdered(written: seq<int>)
    ensures forall u :: u in ObjectKeys(written) <==> u in written
    ensures InKeyOrder(ObjectKeys(written))
  {
    if written == [] {
    } else {
      var front, k := written[..|written| - 1], written[|written| - 1];
      assert written == front + [k];
      ObjectKeysAreOrdered(front);
      var keys := ObjectKeys(front);
      if k >= 0 && k !in keys {
        InsertIndexMembers(keys, k);
        InsertIndexOrder(keys, k);
      }
    }
  }

  lemma UnitsMembers(grain: Label, s: seq<Stamp>)
    ensures forall u :: u in Units(grain, s) <==> exists x :: x in s && Unit(grain, Day(x)) == u
  {
    var units := Units(grain, s);
    forall u | u in units
      ensures exists x :: x in s && Unit(grain, Day(x)) == u
    {
      var i :| 0 <= i < |s| && units[i] == u;
      assert s[i] in s;
    }
    forall x | x in s
      ensures Unit(grain, Day(x)) in units
    {
      var i :| 0 <= i < |s| && s[i] == x;
      assert units[i] == Unit(grain, Day(x));
    }
  }

  /** The groups are non-empty buckets of the input, one for each unit that occurs. */
  lemma GroupByIsGrouping(grain: Label, s: seq<Stamp>, data: Data)
    requires Within(s, data)
    ensures IsGrouping(data, GroupBy(grain, s))
    ensures InKeyOrder(GroupBy(grain, s).keys)
    ensures forall u :: u in GroupBy(grain, s).keys <==> exists x :: x in s && Unit(grain, Day(x)) == u
    ensures forall u :: u in GroupBy(grain, s).keys ==> GroupBy(grain, s).at[u] == Bucket(grain, s, u) != []
  {
    ObjectKeysAreOrdered(Units(grain, s));
    UnitsMembers(grain, s);
    forall u | u in GroupBy(grain, s).keys
      ensures Bucket(grain, s, u) != []
    {
      var x :| x in s && Unit(grain, Day(x)) == u;
      assert x in Bucket(grain, s, u);
    }
  }

  // ----- The methods

  /** The inner loop of `prepareResponseGroups`, over the dates of one group. */
  method AddUp(data: Data, values: seq<Stamp>) returns (groupData: Option<Value>)
    requires Uniform(data) && Within(values, data)
    ensures groupData == SumUp(data, values)
  {
    groupData := None;
    for n := 0 to |values|
      invariant groupData == SumUp(data, values[..n])
    {
      var element := data[values[n]];
      assert values[..n + 1][..n] == values[..n];
      match element {
        case Number(amount) =>
          groupData := Some(Number((if groupData.Some? then groupData.value.n else 0.0) + amount));
        case Record(fields) =>
          var before := if groupData.Some? then groupData.value.fields else map[];
          groupData := Some(Record(map name | name in before.Keys + fields.Keys
                                     :: Field(fields, name) + Field(before, name)));
      }
    }
    assert values[..|values|] == values;
  }

  method PrepareResponseGroups(data: Data, groupedData: Grouped) returns (groups: seq<Group>)
    requires Uniform(data) && IsGrouping(data, groupedData)
    ensures groups == Groups(data, groupedData)
  {
    hide StableSort;
    groups := [];
    var keys := groupedData.keys;
    for n := 0 to |keys|
      invariant |groups| == n
      invariant forall i :: 0 <= i < n ==> groups[i] == GroupAt(data, groupedData, keys[i])
    {
      assert keys[n] in groupedData.keys;
      var bucket := groupedData.at[keys[n]];
      var values := new Stamp[|bucket|](i requires 0 <= i < |bucket| => bucket[i]);
      assert values[..] == bucket;
      SortDates(values);
      SortKeepsElements(bucket);
      var dates := values[..];
      var groupData := AddUp(data, dates);
      groups := groups + [Group(StartOfDay(dates[0].time), EndOfDay(dates[|dates| - 1].time), groupData)];
    }
  }

  method FormatResponse(data: Data, keys: seq<Stamp>, labelWanted: Option<Label>) returns (response: Response)
    requires Uniform(data) && Within(keys, data)
    ensures response == Format(data, keys, labelWanted)
  {
    hide Month, Bucket, Within, YearStart, Year, DaysBefore, ObjectKeys, Thursday;
    var dates := new Stamp[|keys|](i requires 0 <= i < |keys| => keys[i]);
    assert dates[..] == keys;
    SortDates(dates);
    if dates.Length == 0 {
      return Empty;
    }
    var start, end := dates[0], dates[dates.Length - 1];
    var diffInWeeks := IsoWeek(Day(end)) - IsoWeek(Day(start));
    var diffInMonth := Month(Day(end)) - Month(Day(start));
    var diffInYear := IsoWeekYear(Day(end)) - IsoWeekYear(Day(start));
    var grain: Label;
    if labelWanted.None? {
      if diffInYear > 0 {
        grain := YEARS;
      } else if diffInWeeks == 0 {
        grain := DAYS;
      } else if diffInMonth <= 1 {
        grain := WEEKS;
      } else {
        grain := MONTHS;
      }
    } else {
      grain := labelWanted.value;
    }
    var groupedData := GroupBy(grain, keys);
    GroupByIsGrouping(grain, keys, data);
    var groups := PrepareResponseGroups(data, groupedData);
    return Response(grain, groups, start.time, EndOfDay(end.time));
  }
}
