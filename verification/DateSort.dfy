/** `sortDates` of src/utils/response.ts: the in-place sort of date keys by calendar day. */
module DateSort {
  import opened Calendar

  /** A key of the data record: its text, and the instant that text is read as. */
  datatype Stamp = Stamp(text: string, time: int)

  /** The number that the eight or more digits YYYYMMDD read as; the digits of a negative year carry
      one minus sign in front of the whole text. */
  function SortKey(day: int): int {
    var year := Year(day);
    var monthAndDay := 100 * (Month(day) + 1) + DayOfMonth(day);
    if year >= 0 then 10000 * year + monthAndDay else 10000 * year - monthAndDay
  }

  function Key(x: Stamp): int {
    SortKey(DayOf(x.time))
  }

  lemma SortKeyParts(day: int)
    ensures var year := Year(day);
            if year >= 0 then 10000 * year + 101 <= SortKey(day) <= 10000 * year + 1231
            else 10000 * year - 1231 <= SortKey(day) <= 10000 * year - 101
  {
  }

  lemma SortKeyWithinYear(d1: int, d2: int)
    requires d1 < d2 && Year(d1) == Year(d2)
    ensures Year(d1) >= 0 ==> SortKey(d1) < SortKey(d2)
    ensures Year(d1) < 0 ==> SortKey(d1) > SortKey(d2)
  {
    MonthMonotone(d1, d2);
    assert Month(d1) == Month(d2) ==> DayOfMonth(d1) < DayOfMonth(d2);
  }

  /** The sort key tells days apart and orders them as the calendar does, except for two days of one
      negative year, which it orders backwards. */
  lemma SortKeyIsChronological(d1: int, d2: int)
    requires d1 < d2
    ensures SortKey(d1) != SortKey(d2)
    ensures SortKey(d1) < SortKey(d2) <==> !(Year(d1) == Year(d2) < 0)
  {
    YearMonotone(d1, d2);
    if Year(d1) == Year(d2) {
      SortKeyWithinYear(d1, d2);
    } else {
      SortKeyParts(d1);
      SortKeyParts(d2);
    }
  }

  ghost predicate Sorted(s: seq<Stamp>) {
    forall i, j :: 0 <= i < j < |s| ==> Key(s[i]) <= Key(s[j])
  }

  /** Places x after every element whose key does not exceed its own. */
  function Insert(s: seq<Stamp>, x: Stamp): (r: seq<Stamp>)
    ensures |r| == |s| + 1
  {
    if s == [] then [x]
    else if Key(s[|s| - 1]) > Key(x) then Insert(s[..|s| - 1], x) + [s[|s| - 1]]
    else s + [x]
  }

  function StableSort(s: seq<Stamp>): (r: seq<Stamp>)
    ensures |r| == |s|
  {
    if s == [] then [] else Insert(StableSort(s[..|s| - 1]), s[|s| - 1])
  }

  /** The elements with one key, in order. */
  function WithKey(s: seq<Stamp>, k: int): seq<Stamp> {
    if s == [] then []
    else if Key(s[|s| - 1]) == k then WithKey(s[..|s| - 1], k) + [s[|s| - 1]]
    else WithKey(s[..|s| - 1], k)
  }

  lemma {:induction false} InsertElements(s: seq<Stamp>, x: Stamp)
    ensures multiset(Insert(s, x)) == multiset(s) + multiset{x}
  {
    if s == [] {
    } else {
      assert s == s[..|s| - 1] + [s[|s| - 1]];
      InsertElements(s[..|s| - 1], x);
    }
  }

  lemma {:induction false} InsertSorted(s: seq<Stamp>, x: Stamp)
    requires Sorted(s)
    ensures Sorted(Insert(s, x))
  {
    hide Key;
    if s == [] || Key(s[|s| - 1]) <= Key(x) {
    } else {
      var front, last := s[..|s| - 1], s[|s| - 1];
      InsertSorted(front, x);
      InsertElements(front, x);
      forall i | 0 <= i < |s|
        ensures Key(Insert(front, x)[i]) <= Key(last)
      {
        assert Insert(front, x)[i] in multiset(Insert(front, x));
        assert Insert(front, x)[i] == x || Insert(front, x)[i] in front;
      }
    }
  }

  lemma {:induction false} InsertWithKey(s: seq<Stamp>, x: Stamp, k: int)
    requires Sorted(s)
    ensures WithKey(Insert(s, x), k) == WithKey(s, k) + (if Key(x) == k then [x] else [])
  {
    hide Key;
    if s == [] {
    } else {
      var front, last := s[..|s| - 1], s[|s| - 1];
      if Key(last) > Key(x) {
        InsertWithKey(front, x, k);
        assert Insert(s, x)[..|s|] == Insert(front, x);
        if Key(last) == k && Key(x) == k {
          assert false;
        }
      } else {
        assert (s + [x])[..|s|] == s;
      }
    }
  }

  /** The sort is ordered, keeps every element, and keeps elements of one day in their old order. */
  lemma {:induction false} StableSortMeets(s: seq<Stamp>, k: int)
    ensures Sorted(StableSort(s))
    ensures multiset(StableSort(s)) == multiset(s)
    ensures WithKey(StableSort(s), k) == WithKey(s, k)
  {
    if s == [] {
    } else {
      var front, last := s[..|s| - 1], s[|s| - 1];
      assert s == front + [last];
      StableSortMeets(front, k);
      InsertElements(StableSort(front), last);
      InsertSorted(StableSort(front), last);
      InsertWithKey(StableSort(front), last, k);
    }
  }

  lemma {:induction false} WithKeyOnlyThat(s: seq<Stamp>, k: int)
    ensures forall x :: x in WithKey(s, k) <==> x in s && Key(x) == k
  {
    if s == [] {
    } else {
      assert s == s[..|s| - 1] + [s[|s| - 1]];
      WithKeyOnlyThat(s[..|s| - 1], k);
    }
  }

  lemma SameMembers(r1: seq<Stamp>, r2: seq<Stamp>)
    requires forall k :: WithKey(r1, k) == WithKey(r2, k)
    ensures forall x :: x in r1 <==> x in r2
  {
    forall x
      ensures x in r1 <==> x in r2
    {
      WithKeyOnlyThat(r1, Key(x));
      WithKeyOnlyThat(r2, Key(x));
    }
  }

  /** Ordered sequences that agree day by day are equal: whatever stable sort the engine runs, it
      returns `StableSort(s)`. */
  lemma {:induction false} StableSortUnique(r1: seq<Stamp>, r2: seq<Stamp>)
    requires Sorted(r1) && Sorted(r2)
    requires forall k :: WithKey(r1, k) == WithKey(r2, k)
    ensures r1 == r2
  {
    hide Key;
    SameMembers(r1, r2);
    assert r1 == [] <==> r2 == [] by {
      if r1 != [] { assert r1[0] in r1; }
      if r2 != [] { assert r2[0] in r2; }
    }
    if r1 == [] || r2 == [] {
    } else {
      var x1, x2 := r1[|r1| - 1], r2[|r2| - 1];
      assert Key(x1) == Key(x2) by {
        assert x1 in r1 && x1 in r2 && x2 in r1 && x2 in r2;
      }
      var k := Key(x1);
      var f1, f2 := r1[..|r1| - 1], r2[..|r2| - 1];
      assert WithKey(f1, k) + [x1] == WithKey(r1, k) == WithKey(r2, k) == WithKey(f2, k) + [x2];
      assert x1 == (WithKey(f1, k) + [x1])[|WithKey(f1, k)|] == x2;
      assert WithKey(f1, k) == (WithKey(f1, k) + [x1])[..|WithKey(f1, k)|] == WithKey(f2, k);
      forall j
        ensures WithKey(f1, j) == WithKey(f2, j)
      {
        assert j != k ==> WithKey(f1, j) == WithKey(r1, j) == WithKey(r2, j) == WithKey(f2, j);
      }
      StableSortUnique(f1, f2);
    }
  }

  lemma {:induction false} InsertPastLarger(s: seq<Stamp>, x: Stamp, j: nat)
    requires j <= |s|
    requires forall i :: j <= i < |s| ==> Key(s[i]) > Key(x)
    ensures Insert(s, x) == Insert(s[..j], x) + s[j..]
  {
    hide Key;
    if j < |s| {
      var front := s[..|s| - 1];
      InsertPastLarger(front, x, j);
      assert front[..j] == s[..j];
      assert s[j..] == front[j..] + [s[|s| - 1]];
    } else {
      assert s[..j] == s;
    }
  }

  lemma InsertBefore(s: seq<Stamp>, x: Stamp, j: nat)
    requires j <= |s|
    requires forall i :: j <= i < |s| ==> Key(s[i]) > Key(x)
    requires j > 0 ==> Key(s[j - 1]) <= Key(x)
    ensures Insert(s, x) == s[..j] + [x] + s[j..]
  {
    hide Key;
    InsertPastLarger(s, x, j);
  }

  /** Moves the element at n down to its place among the sorted elements before it. */
  method InsertInPlace(dates: array<Stamp>, n: nat)
    requires n < dates.Length
    modifies dates
    ensures dates[..n + 1] == Insert(old(dates[..n]), old(dates[n]))
    ensures dates[n + 1..] == old(dates[n + 1..])
  {
    hide Key, Insert;
    ghost var sorted, rest := dates[..n], dates[n + 1..];
    var x := dates[n];
    var j := n;
    while j > 0 && Key(dates[j - 1]) > Key(x)
      invariant 0 <= j <= n
      invariant forall i :: 0 <= i < j ==> dates[i] == sorted[i]
      invariant forall i :: j < i <= n ==> dates[i] == sorted[i - 1]
      invariant dates[n + 1..] == rest
      invariant forall i :: j <= i < n ==> Key(sorted[i]) > Key(x)
    {
      dates[j] := dates[j - 1];
      j := j - 1;
    }
    dates[j] := x;
    InsertBefore(sorted, x, j);
    assert dates[..n + 1] == sorted[..j] + [x] + sorted[j..];
  }

  /** `sortDates`: the array is sorted in place. */
  method SortDates(dates: array<Stamp>)
    modifies dates
    ensures dates[..] == StableSort(old(dates[..]))
  {
    hide Insert;
    ghost var was := dates[..];
    for n := 0 to dates.Length
      invariant dates[..n] == StableSort(was[..n])
      invariant dates[n..] == was[n..]
    {
      assert dates[n] == was[n] && dates[n + 1..] == was[n + 1..];
      InsertInPlace(dates, n);
      assert was[..n + 1][..n] == was[..n];
    }
    assert dates[..dates.Length] == dates[..] && was[..dates.Length] == was;
  }
}
