/** The groups of a response share out the dates, and their sums add up to the sum of all values. */
module TimeSeriesTotals {
  import opened Calendar
  import opened DateSort
  import opened Options
  import opened Sequences
  import opened TimeSeries

  /** All dates, group after group, as the response lists them. */
  function Flattened(grain: Label, s: seq<Stamp>, keys: seq<int>): seq<Stamp> {
    if keys == [] then [] else StableSort(Bucket(grain, s, keys[0])) + Flattened(grain, s, keys[1..])
  }

  lemma SortedBucketGrows(grain: Label, s: seq<Stamp>, x: Stamp, unit: int)
    ensures multiset(StableSort(Bucket(grain, s + [x], unit))) ==
            multiset(StableSort(Bucket(grain, s, unit)))
            + (if Unit(grain, Day(x)) == unit then multiset{x} else multiset{})
  {
    assert (s + [x])[..|s|] == s;
    StableSortMeets(Bucket(grain, s + [x], unit), 0);
    StableSortMeets(Bucket(grain, s, unit), 0);
  }

  lemma {:induction false} FlattenedGrows(grain: Label, s: seq<Stamp>, x: Stamp, keys: seq<int>)
    requires Distinct(keys)
    ensures multiset(Flattened(grain, s + [x], keys)) ==
            multiset(Flattened(grain, s, keys)) + (if Unit(grain, Day(x)) in keys then multiset{x} else multiset{})
  {
    hide Unit, StableSort, DayOf, Bucket;
    if keys == [] {
    } else {
      FlattenedGrows(grain, s, x, keys[1..]);
      assert keys == [keys[0]] + keys[1..];
      SortedBucketGrows(grain, s, x, keys[0]);
    }
  }

  lemma {:induction false} FlattenedNothing(grain: Label, keys: seq<int>)
    ensures Flattened(grain, [], keys) == []
  {
    if keys == [] {
    } else {
      FlattenedNothing(grain, keys[1..]);
    }
  }

  lemma {:induction false} FlattenedElements(grain: Label, s: seq<Stamp>, keys: seq<int>)
    requires Distinct(keys)
    requires forall x :: x in s ==> Unit(grain, Day(x)) in keys
    ensures multiset(Flattened(grain, s, keys)) == multiset(s)
  {
    if s == [] {
      FlattenedNothing(grain, keys);
    } else {
      var front, x := s[..|s| - 1], s[|s| - 1];
      assert s == front + [x];
      FlattenedElements(grain, front, keys);
      FlattenedGrows(grain, front, x, keys);
    }
  }

  /** For every label, the groups share out the input: each date goes to one group, as often as it
      occurs. */
  lemma GroupsPartitionDates(grain: Label, s: seq<Stamp>)
    ensures multiset(Flattened(grain, s, GroupBy(grain, s).keys)) == multiset(s)
  {
    GroupByIsGrouping(grain, s, map x | x in s :: Number(0.0));
    FlattenedElements(grain, s, GroupBy(grain, s).keys);
  }

  /** The number, or one field of the record; a missing field counts as 0. */
  function Amount(v: Value, name: Option<string>): real {
    match v
    case Number(n) => if name.None? then n else 0.0
    case Record(fields) => if name.Some? && name.value in fields then fields[name.value] else 0.0
  }

  function Total(data: Data, s: seq<Stamp>, name: Option<string>): real
    requires Within(s, data)
  {
    if s == [] then 0.0
    else
      assert s[|s| - 1] in s;
      assert forall x :: x in s[..|s| - 1] ==> x in s;
      Total(data, s[..|s| - 1], name) + Amount(data[s[|s| - 1]], name)
  }

  function GroupTotal(groups: seq<Group>, name: Option<string>): real {
    if groups == [] then 0.0
    else
      var data := groups[|groups| - 1].data;
      GroupTotal(groups[..|groups| - 1], name) + if data.Some? then Amount(data.value, name) else 0.0
  }

  lemma AddAmount(sum: Option<Value>, v: Value, name: Option<string>)
    requires Alike(sum, v)
    ensures Amount(Add(sum, v), name) == (if sum.Some? then Amount(sum.value, name) else 0.0) + Amount(v, name)
  {}

  lemma {:induction false} SumUpIsTotal(data: Data, s: seq<Stamp>, name: Option<string>)
    requires Uniform(data) && Within(s, data)
    ensures (if s == [] then 0.0 else Amount(SumUp(data, s).value, name)) == Total(data, s, name)
  {
    if s == [] {
    } else {
      var front, x := s[..|s| - 1], s[|s| - 1];
      assert x in s && forall y :: y in front ==> y in s;
      SumUpIsTotal(data, front, name);
      AddAmount(SumUp(data, front), data[x], name);
    }
  }

  lemma {:induction false} TotalAppends(data: Data, s: seq<Stamp>, t: seq<Stamp>, name: Option<string>)
    requires Within(s, data) && Within(t, data)
    ensures Within(s + t, data)
    ensures Total(data, s + t, name) == Total(data, s, name) + Total(data, t, name)
  {
    if t == [] {
      assert s + t == s;
    } else {
      var front, x := t[..|t| - 1], t[|t| - 1];
      assert x in t && forall y :: y in front ==> y in t;
      TotalAppends(data, s, front, name);
      assert (s + t)[..|s + t| - 1] == s + front;
    }
  }

  lemma TotalOfOne(data: Data, x: Stamp, name: Option<string>)
    requires Within([x], data)
    ensures Total(data, [x], name) == Amount(data[x], name)
  {
    assert [x][..0] == [];
  }

  lemma TotalWithout(data: Data, s: seq<Stamp>, i: nat, name: Option<string>)
    requires Within(s, data) && i < |s|
    ensures Within(s[..i] + s[i + 1..], data)
    ensures Total(data, s, name) == Total(data, s[..i] + s[i + 1..], name) + Amount(data[s[i]], name)
  {
    hide Total, Amount;
    var before, x, after := s[..i], s[i], s[i + 1..];
    assert Within(before, data) && Within([x], data) && Within(after, data);
    TotalAppends(data, before, after, name);
    TotalAppends(data, before, [x], name);
    TotalAppends(data, before + [x], after, name);
    assert s == before + [x] + after;
    TotalOfOne(data, x, name);
  }

  lemma ElementsWithout(s: seq<Stamp>, i: nat)
    requires i < |s|
    ensures multiset(s[..i] + s[i + 1..]) == multiset(s) - multiset{s[i]}
  {
    assert s == s[..i] + [s[i]] + s[i + 1..];
  }

  /** The place in a permutation of s of its first element. */
  lemma FindFirst(s: seq<Stamp>, t: seq<Stamp>) returns (i: nat)
    requires multiset(s) == multiset(t) && s != []
    ensures i < |t| && t[i] == s[0]
    ensures multiset(s[..0] + s[1..]) == multiset(t[..i] + t[i + 1..])
  {
    assert s[0] in multiset(t);
    i :| 0 <= i < |t| && t[i] == s[0];
    ElementsWithout(s, 0);
    ElementsWithout(t, i);
  }

  lemma NothingPermutesNothing(t: seq<Stamp>)
    requires multiset(t) == multiset([])
    ensures t == []
  {
    assert |multiset(t)| == |t|;
  }

  /** A total depends on which dates are added, not on their order. */
  lemma {:induction false} TotalOfPermutation(data: Data, s: seq<Stamp>, t: seq<Stamp>, name: Option<string>)
    requires Within(s, data) && Within(t, data) && multiset(s) == multiset(t)
    ensures Total(data, s, name) == Total(data, t, name)
    decreases |s|
  {
    if s == [] {
      NothingPermutesNothing(t);
    } else {
      var i := FindFirst(s, t);
      TotalWithout(data, s, 0, name);
      TotalWithout(data, t, i, name);
      TotalOfPermutation(data, s[..0] + s[1..], t[..i] + t[i + 1..], name);
    }
  }

  lemma {:induction false} FlattenedAppends(grain: Label, s: seq<Stamp>, keys: seq<int>, k: int)
    ensures Flattened(grain, s, keys + [k]) == Flattened(grain, s, keys) + StableSort(Bucket(grain, s, k))
  {
    hide StableSort, Bucket;
    if keys == [] {
      assert [k][1..] == [];
    } else {
      FlattenedAppends(grain, s, keys[1..], k);
      assert (keys + [k])[1..] == keys[1..] + [k];
    }
  }

  /** A group's sum is the total of its dates. */
  lemma GroupSum(data: Data, s: seq<Stamp>, grain: Label, i: nat, name: Option<string>)
    requires Uniform(data) && Within(s, data)
    requires i < |GroupBy(grain, s).keys| && IsGrouping(data, GroupBy(grain, s))
    ensures var dates := StableSort(Bucket(grain, s, GroupBy(grain, s).keys[i]));
            var sum := Groups(data, GroupBy(grain, s))[i].data;
            && Within(dates, data)
            && sum.Some? && Amount(sum.value, name) == Total(data, dates, name)
  {
    hide Unit, StableSort, DayOf, Bucket, Uniform, InKeyOrder, Units, ObjectKeys, Amount, SumUp, Total;
    var k := GroupBy(grain, s).keys[i];
    GroupByIsGrouping(grain, s, data);
    assert k in GroupBy(grain, s).keys;
    SortKeepsElements(Bucket(grain, s, k));
    SumUpIsTotal(data, StableSort(Bucket(grain, s, k)), name);
  }

  lemma GroupTotalNext(groups: seq<Group>, n: nat, name: Option<string>)
    requires 0 < n <= |groups|
    ensures GroupTotal(groups[..n], name) == GroupTotal(groups[..n - 1], name)
            + if groups[n - 1].data.Some? then Amount(groups[n - 1].data.value, name) else 0.0
  {
    assert groups[..n][..n - 1] == groups[..n - 1];
  }

  lemma NothingTotals(data: Data, name: Option<string>)
    ensures Within([], data) && Total(data, [], name) == 0.0
  {}

  lemma {:induction false} GroupTotalIsTotal(data: Data, s: seq<Stamp>, grain: Label, n: nat, name: Option<string>)
    requires Uniform(data) && Within(s, data)
    requires n <= |GroupBy(grain, s).keys| && IsGrouping(data, GroupBy(grain, s))
    ensures Within(Flattened(grain, s, GroupBy(grain, s).keys[..n]), data)
    ensures GroupTotal(Groups(data, GroupBy(grain, s))[..n], name) ==
            Total(data, Flattened(grain, s, GroupBy(grain, s).keys[..n]), name)
  {
    hide StableSort, Bucket, Uniform, GroupBy, Groups, Amount, IsGrouping, Total, Within;
    var keys, groups := GroupBy(grain, s).keys, Groups(data, GroupBy(grain, s));
    if n == 0 {
      NothingTotals(data, name);
      assert keys[..0] == [] && groups[..0] == [];
    } else {
      var dates := StableSort(Bucket(grain, s, keys[n - 1]));
      GroupSum(data, s, grain, n - 1, name);
      GroupTotalIsTotal(data, s, grain, n - 1, name);
      FlattenedAppends(grain, s, keys[..n - 1], keys[n - 1]);
      assert keys[..n] == keys[..n - 1] + [keys[n - 1]];
      GroupTotalNext(groups, n, name);
      TotalAppends(data, Flattened(grain, s, keys[..n - 1]), dates, name);
    }
  }

  /** Nothing is lost or counted twice: for every label, requested or chosen, the sums of the groups add
      up to the sum of all values, and field by field for records. */
  lemma TotalsAreConserved(data: Data, s: seq<Stamp>, wanted: Option<Label>, name: Option<string>)
    requires Uniform(data) && Within(s, data) && s != []
    ensures GroupTotal(Format(data, s, wanted).groups, name) == Total(data, s, name)
  {
    var grain := LabelFor(s, wanted);
    var keys := GroupBy(grain, s).keys;
    GroupByIsGrouping(grain, s, data);
    GroupTotalIsTotal(data, s, grain, |keys|, name);
    assert keys[..|keys|] == keys;
    var groups := Groups(data, GroupBy(grain, s));
    assert groups[..|keys|] == groups;
    GroupsPartitionDates(grain, s);
    TotalOfPermutation(data, Flattened(grain, s, keys), s, name);
  }

  function FieldsOf(v: Value): set<string> {
    if v.Record? then v.fields.Keys else {}
  }

  lemma AddFields(sum: Option<Value>, v: Value)
    requires Alike(sum, v)
    ensures FieldsOf(Add(sum, v)) == FieldsOf(v) + if sum.Some? then FieldsOf(sum.value) else {}
  {}

  lemma Split(s: seq<Stamp>)
    requires s != []
    ensures forall x :: x in s <==> x in s[..|s| - 1] || x == s[|s| - 1]
  {
    assert s == s[..|s| - 1] + [s[|s| - 1]];
  }

  /** A sum has the fields of what was added. */
  lemma {:induction false} SumFields(data: Data, s: seq<Stamp>, name: string)
    requires Uniform(data) && Within(s, data) && s != []
    ensures name in FieldsOf(SumUp(data, s).value) <==> exists x :: x in s && name in FieldsOf(data[x])
  {
    hide Add, FieldsOf;
    var front, x := s[..|s| - 1], s[|s| - 1];
    Split(s);
    AddFields(SumUp(data, front), data[x]);
    if front == [] {
      assert forall y :: y in s ==> y == x;
    } else {
      SumFields(data, front, name);
    }
  }

  /** The response has the requested label, or else the chosen one, and a group for each bucket, whose sum has the
      fields of its dates. */
  lemma ResponseParts(data: Data, s: seq<Stamp>, wanted: Option<Label>, i: nat)
    requires Uniform(data) && Within(s, data) && s != []
    requires i < |GroupBy(if wanted.Some? then wanted.value else LabelFor(s, None), s).keys|
    ensures var grain := if wanted.Some? then wanted.value else LabelFor(s, None);
            var response := Format(data, s, wanted);
            var dates := StableSort(Bucket(grain, s, GroupBy(grain, s).keys[i]));
            && response.grain == grain
            && |response.groups| == |GroupBy(grain, s).keys|
            && dates != [] && Within(dates, data)
            && response.groups[i].data == SumUp(data, dates)
            && forall name :: name in FieldsOf(SumUp(data, dates).value) <==>
                              exists x :: x in dates && name in FieldsOf(data[x])
  {
    hide StableSort, Bucket, Uniform, Units, ObjectKeys, SumUp, FieldsOf;
    var grain := if wanted.Some? then wanted.value else LabelFor(s, None);
    GroupByIsGrouping(grain, s, data);
    var bucket := Bucket(grain, s, GroupBy(grain, s).keys[i]);
    assert GroupBy(grain, s).keys[i] in GroupBy(grain, s).keys;
    SortKeepsElements(bucket);
    forall name
      ensures name in FieldsOf(SumUp(data, StableSort(bucket)).value) <==>
              exists x :: x in StableSort(bucket) && name in FieldsOf(data[x])
    {
      SumFields(data, StableSort(bucket), name);
    }
  }
}
