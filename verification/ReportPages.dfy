/** The paging loops of views/english/savings.ejs: what the template writes for machines and stops, as a
    sequence of page openings, entries, page numbers and page closings. */
module ReportPages {

  datatype Kind = MACHINES | STOPS

  datatype Event =
    | Open
    | Machine(i: nat, onPage: int)   // with the counter that its border depends on
    | Stop(i: nat)
    | PageNumber(n: int)
    | Close

  /** A page with the entries from `from` up to but not including `to`. */
  datatype Page = Page(from: nat, to: nat, number: int)

  function PageSize(kind: Kind): nat {
    if kind == MACHINES then 3 else 33
  }

  function Min(a: nat, b: nat): nat {
    if a < b then a else b
  }

  /** The pages for the entries from `from` on. */
  function Pages(kind: Kind, count: nat, from: nat, number: int): seq<Page>
    decreases count - from
  {
    if from >= count then []
    else
      var to := from + PageSize(kind);
      [Page(from, Min(to, count), number)] + Pages(kind, count, to, number + 1)
  }

  function Entry(kind: Kind, i: nat, from: nat): Event
    requires from <= i
  {
    if kind == MACHINES then Machine(i, i - from + 1) else Stop(i)
  }

  function Entries(kind: Kind, from: nat, to: nat): (entries: seq<Event>)
    requires from <= to
    ensures |entries| == to - from
    ensures forall k :: 0 <= k < |entries| ==> entries[k] == Entry(kind, from + k, from)
  {
    seq(to - from, k requires 0 <= k < to - from => Entry(kind, from + k, from))
  }

  lemma EntriesGrow(kind: Kind, from: nat, to: nat)
    requires from <= to
    ensures Entries(kind, from, to + 1) == Entries(kind, from, to) + [Entry(kind, to, from)]
  {
    var a, b := Entries(kind, from, to + 1), Entries(kind, from, to) + [Entry(kind, to, from)];
    forall k | 0 <= k < to + 1 - from
      ensures a[k] == b[k]
    {
      assert k == to - from ==> from + k == to;
    }
  }

  function PageEvents(kind: Kind, page: Page): seq<Event>
    requires page.from <= page.to
  {
    [Open] + Entries(kind, page.from, page.to) + [PageNumber(page.number), Close]
  }

  predicate Ordered(pages: seq<Page>) {
    forall page :: page in pages ==> page.from <= page.to
  }

  function Document(kind: Kind, pages: seq<Page>): seq<Event>
    requires Ordered(pages)
  {
    if pages == [] then []
    else
      assert pages[0] in pages;
      PageEvents(kind, pages[0]) + Document(kind, pages[1..])
  }

  lemma {:induction false} PagesAreOrdered(kind: Kind, count: nat, from: nat, number: int)
    ensures Ordered(Pages(kind, count, from, number))
    decreases count - from
  {
    if from >= count {
    } else {
      PagesAreOrdered(kind, count, from + PageSize(kind), number + 1);
    }
  }

  function Section(kind: Kind, count: nat, from: nat, number: int): seq<Event> {
    PagesAreOrdered(kind, count, from, number);
    Document(kind, Pages(kind, count, from, number))
  }

  /** A section is its first page and the section after it. */
  lemma SectionOpens(kind: Kind, count: nat, from: nat, number: int)
    requires from < count
    ensures var to := from + PageSize(kind);
            Section(kind, count, from, number) ==
            PageEvents(kind, Page(from, Min(to, count), number)) + Section(kind, count, Min(to, count), number + 1)
  {
    var to := from + PageSize(kind);
    PagesAreOrdered(kind, count, from, number);
    assert Pages(kind, count, from, number)[1..] == Pages(kind, count, to, number + 1);
    assert to >= count ==> Pages(kind, count, to, number + 1) == Pages(kind, count, count, number + 1);
  }

  // ----- The loops

  /** Where a loop stands before entry i: `closed` are the events up to the last closed page, and `from`
      the first entry after it. */
  ghost predicate Writing(kind: Kind, count: nat, i: nat, from: nat, number: int,
                          closed: seq<Event>, events: seq<Event>, whole: seq<Event>) {
    && from <= i && (i < count ==> from % PageSize(kind) == 0 && i < from + PageSize(kind))
    && closed + Section(kind, count, from, number) == whole
    && events == (if i == from then closed else closed + [Open] + Entries(kind, from, i))
    && (i >= count ==> i == from)
  }

  lemma PageCloses(kind: Kind, count: nat, i: nat, from: nat, number: int,
                   closed: seq<Event>, events: seq<Event>, whole: seq<Event>)
    requires from <= i < count && i + 1 == Min(from + PageSize(kind), count)
    requires closed + Section(kind, count, from, number) == whole
    requires events == closed + [Open] + Entries(kind, from, i + 1)
    ensures events + [PageNumber(number)] + [Close] + Section(kind, count, i + 1, number + 1) == whole
    ensures |Pages(kind, count, from, number)| == 1 + |Pages(kind, count, i + 1, number + 1)|
  {
    SectionOpens(kind, count, from, number);
    PageCountStep(kind, count, from, number);
    var rest := Section(kind, count, i + 1, number + 1);
    assert events + [PageNumber(number)] + [Close] + rest ==
           closed + (PageEvents(kind, Page(from, i + 1, number)) + rest);
  }

  method MachinePages(ckmCount: nat, pageNumber: int) returns (events: seq<Event>, nextNumber: int)
    ensures events == Section(MACHINES, ckmCount, 0, pageNumber)
    ensures nextNumber == pageNumber + |Pages(MACHINES, ckmCount, 0, pageNumber)|
  {
    hide Pages, Entries, Section;
    events := [];
    nextNumber := pageNumber;
    ghost var whole := Section(MACHINES, ckmCount, 0, pageNumber);
    ghost var closed, from := [], 0;
    var ckmCountOnPage := 0;
    for i := 0 to ckmCount
      invariant Writing(MACHINES, ckmCount, i, from, nextNumber, closed, events, whole)
      invariant nextNumber + |Pages(MACHINES, ckmCount, from, nextNumber)| ==
                pageNumber + |Pages(MACHINES, ckmCount, 0, pageNumber)|
      invariant ckmCountOnPage == if i == from then 0 else i - from + 1
    {
      if i % 3 == 0 {
        ckmCountOnPage := ckmCountOnPage + 1;
        events := events + [Open];
      }
      assert events == closed + [Open] + Entries(MACHINES, from, i) by { NoEntries(MACHINES, from); }
      events := events + [Machine(i, ckmCountOnPage)];
      EntriesGrow(MACHINES, from, i);
      assert events == closed + [Open] + Entries(MACHINES, from, i + 1);
      ckmCountOnPage := ckmCountOnPage + 1;
      if (i + 1) % 3 == 0 || i == ckmCount - 1 {
        PageCloses(MACHINES, ckmCount, i, from, nextNumber, closed, events, whole);
        events := events + [PageNumber(nextNumber)];
        nextNumber := nextNumber + 1;
        ckmCountOnPage := 0;
        events := events + [Close];
        closed, from := events, i + 1;
      }
    }
    SectionEnds(MACHINES, ckmCount, from, nextNumber);
  }

  method StopPages(stops: nat, pageNumber: int) returns (events: seq<Event>, nextNumber: int)
    ensures events == Section(STOPS, stops, 0, pageNumber)
    ensures nextNumber == pageNumber + |Pages(STOPS, stops, 0, pageNumber)|
  {
    hide Pages, Entries, Section;
    events := [];
    nextNumber := pageNumber;
    ghost var whole := Section(STOPS, stops, 0, pageNumber);
    ghost var closed, from := [], 0;
    for i := 0 to stops
      invariant Writing(STOPS, stops, i, from, nextNumber, closed, events, whole)
      invariant nextNumber + |Pages(STOPS, stops, from, nextNumber)| ==
                pageNumber + |Pages(STOPS, stops, 0, pageNumber)|
    {
      if i % 33 == 0 {
        events := events + [Open];
      }
      assert events == closed + [Open] + Entries(STOPS, from, i) by { NoEntries(STOPS, from); }
      events := events + [Stop(i)];
      EntriesGrow(STOPS, from, i);
      assert events == closed + [Open] + Entries(STOPS, from, i + 1);
      if (i + 1) % 33 == 0 || i == stops - 1 {
        PageCloses(STOPS, stops, i, from, nextNumber, closed, events, whole);
        events := events + [PageNumber(nextNumber)];
        nextNumber := nextNumber + 1;
        events := events + [Close];
        closed, from := events, i + 1;
      }
    }
    SectionEnds(STOPS, stops, from, nextNumber);
  }

  lemma NoEntries(kind: Kind, from: nat)
    ensures Entries(kind, from, from) == []
  {}

  lemma PageCountStep(kind: Kind, count: nat, from: nat, number: int)
    requires from < count
    ensures |Pages(kind, count, from, number)| ==
            1 + |Pages(kind, count, Min(from + PageSize(kind), count), number + 1)|
  {}

  lemma SectionEnds(kind: Kind, count: nat, from: nat, number: int)
    requires from >= count
    ensures Section(kind, count, from, number) == [] && Pages(kind, count, from, number) == []
  {}

  /** The whole report: the front page, the machines, then the stops. */
  method Report(ckmCount: nat, stops: nat) returns (events: seq<Event>)
    ensures events == ReportEvents(ckmCount, stops)
  {
    var pageNumber := 1;
    events := [Open, PageNumber(pageNumber), Close];
    pageNumber := pageNumber + 1;
    var machines, next := MachinePages(ckmCount, pageNumber);
    var table, _ := StopPages(stops, next);
    events := events + machines + table;
  }

  function ReportEvents(ckmCount: nat, stops: nat): seq<Event> {
    [Open, PageNumber(1), Close]
    + Section(MACHINES, ckmCount, 0, 2)
    + Section(STOPS, stops, 0, 2 + |Pages(MACHINES, ckmCount, 0, 2)|)
  }

  // ----- What a reader of the report sees

  /** Pages open and close in turn, and every entry and number stands on an open page. */
  predicate Balanced(events: seq<Event>, open: bool) {
    if events == [] then !open
    else match events[0]
      case Open => !open && Balanced(events[1..], true)
      case Close => open && Balanced(events[1..], false)
      case _ => open && Balanced(events[1..], open)
  }

  /** The entries of one kind, in the order in which they are printed. */
  function Printed(kind: Kind, events: seq<Event>): seq<nat> {
    if events == [] then []
    else
      var e := events[|events| - 1];
      Printed(kind, events[..|events| - 1])
      + if kind == MACHINES && e.Machine? then [e.i] else if kind == STOPS && e.Stop? then [e.i] else []
  }

  function Numbers(events: seq<Event>): seq<int> {
    if events == [] then []
    else
      var e := events[|events| - 1];
      Numbers(events[..|events| - 1]) + if e.PageNumber? then [e.n] else []
  }

  function Range(from: int, to: int): (range: seq<int>)
    requires from <= to
    ensures |range| == to - from
  {
    seq(to - from, k requires 0 <= k < to - from => from + k)
  }

  lemma {:induction false} NumbersAppend(a: seq<Event>, b: seq<Event>)
    ensures Numbers(a + b) == Numbers(a) + Numbers(b)
  {
    if b == [] {
      assert a + b == a;
    } else {
      var front := b[..|b| - 1];
      NumbersAppend(a, front);
      assert (a + b)[..|a + b| - 1] == a + front;
    }
  }

  lemma {:induction false} PrintedAppends(kind: Kind, a: seq<Event>, b: seq<Event>)
    ensures Printed(kind, a + b) == Printed(kind, a) + Printed(kind, b)
    ensures Numbers(a + b) == Numbers(a) + Numbers(b)
  {
    hide Numbers;
    NumbersAppend(a, b);
    if b == [] {
      assert a + b == a;
    } else {
      var front := b[..|b| - 1];
      PrintedAppends(kind, a, front);
      assert (a + b)[..|a + b| - 1] == a + front;
    }
  }

  lemma {:induction false} BalancedAppends(a: seq<Event>, b: seq<Event>, open: bool)
    requires Balanced(a, open) && Balanced(b, false)
    ensures Balanced(a + b, open)
  {
    if a == [] {
      assert a + b == b;
    } else {
      assert (a + b)[1..] == a[1..] + b;
      match a[0]
      case Open => BalancedAppends(a[1..], b, true);
      case Close => BalancedAppends(a[1..], b, false);
      case _ => BalancedAppends(a[1..], b, open);
    }
  }

  lemma {:induction false} EntriesHaveNoNumber(kind: Kind, from: nat, end: nat)
    requires from <= end
    ensures Numbers(Entries(kind, from, end)) == []
    decreases end
  {
    if from >= end {
    } else {
      EntriesHaveNoNumber(kind, from, end - 1);
      EntriesGrow(kind, from, end - 1);
      assert Entries(kind, from, end)[..end - from - 1] == Entries(kind, from, end - 1);
    }
  }

  lemma NothingIsPrinted()
    ensures Balanced([], false) && Numbers([]) == [] && forall kind :: Printed(kind, []) == []
  {}

  lemma RangeGrows(from: int, end: int)
    requires from < end
    ensures Range(from, end) == Range(from, end - 1) + [end - 1]
  {}

  lemma PrintedGrows(kind: Kind, events: seq<Event>, e: Event)
    ensures Printed(kind, events + [e]) == Printed(kind, events)
            + if kind == MACHINES && e.Machine? then [e.i] else if kind == STOPS && e.Stop? then [e.i] else []
  {
    assert (events + [e])[..|events|] == events;
  }

  lemma {:induction false} EntriesArePrinted(kind: Kind, from: nat, end: nat)
    requires from <= end
    ensures Printed(kind, Entries(kind, from, end)) == Range(from, end)
    ensures forall other :: other != kind ==> Printed(other, Entries(kind, from, end)) == []
    ensures Numbers(Entries(kind, from, end)) == []
    decreases end
  {
    hide Numbers, Printed, Range;
    EntriesHaveNoNumber(kind, from, end);
    if from >= end {
      NothingIsPrinted();
      assert Entries(kind, from, end) == [] && Range(from, end) == [];
    } else {
      EntriesArePrinted(kind, from, end - 1);
      EntriesGrow(kind, from, end - 1);
      RangeGrows(from, end);
      forall k: Kind
        ensures Printed(k, Entries(kind, from, end)) ==
                Printed(k, Entries(kind, from, end - 1)) + if k == kind then [end - 1] else []
      {
        PrintedGrows(k, Entries(kind, from, end - 1), Entry(kind, end - 1, from));
      }
    }
  }

  lemma {:induction false} EntriesStayOnPage(kind: Kind, entries: seq<Event>, rest: seq<Event>)
    requires forall k :: 0 <= k < |entries| ==> entries[k].Machine? || entries[k].Stop?
    requires Balanced(rest, true)
    ensures Balanced(entries + rest, true)
  {
    if entries == [] {
      assert entries + rest == rest;
    } else {
      EntriesStayOnPage(kind, entries[1..], rest);
      assert (entries + rest)[1..] == entries[1..] + rest;
    }
  }

  lemma PageIsPrinted(kind: Kind, page: Page)
    requires page.from <= page.to
    ensures Balanced(PageEvents(kind, page), false)
    ensures Printed(kind, PageEvents(kind, page)) == Range(page.from, page.to)
    ensures forall other :: other != kind ==> Printed(other, PageEvents(kind, page)) == []
    ensures Numbers(PageEvents(kind, page)) == [page.number]
  {
    var entries, foot := Entries(kind, page.from, page.to), [PageNumber(page.number), Close];
    assert foot[1..] == [Close] && [Close][1..] == [];
    assert Balanced(foot, true);
    EntriesStayOnPage(kind, entries, foot);
    assert PageEvents(kind, page) == [Open] + (entries + foot);
    assert PageEvents(kind, page)[1..] == entries + foot;
    EntriesArePrinted(kind, page.from, page.to);
    assert foot[..1] == [PageNumber(page.number)] && foot[..1][..0] == [];
    forall k: Kind
      ensures Printed(k, PageEvents(kind, page)) == Printed(k, entries)
      ensures Numbers(PageEvents(kind, page)) == [page.number]
    {
      PrintedAppends(k, [Open] + entries, foot);
      PrintedAppends(k, [Open], entries);
      assert [Open][..0] == [];
    }
  }

  /** A section prints its entries once each, in order, on balanced pages with consecutive numbers. */
  lemma {:induction false} SectionIsPrinted(kind: Kind, count: nat, from: nat, number: int)
    requires from <= count
    ensures var events := Section(kind, count, from, number);
            && Balanced(events, false)
            && Printed(kind, events) == Range(from, count)
            && (forall other :: other != kind ==> Printed(other, events) == [])
            && Numbers(events) == Range(number, number + |Pages(kind, count, from, number)|)
    decreases count - from
  {
    hide Printed, Numbers, Balanced, PageEvents, Section, Pages;
    if from == count {
      SectionEnds(kind, count, from, number);
      NothingIsPrinted();
    } else {
      var to := Min(from + PageSize(kind), count);
      var page := Page(from, to, number);
      var rest := Section(kind, count, to, number + 1);
      SectionOpens(kind, count, from, number);
      PageCountStep(kind, count, from, number);
      SectionIsPrinted(kind, count, to, number + 1);
      PageIsPrinted(kind, page);
      BalancedAppends(PageEvents(kind, page), rest, false);
      forall k: Kind
        ensures Printed(k, PageEvents(kind, page) + rest) == Printed(k, PageEvents(kind, page)) + Printed(k, rest)
        ensures Numbers(PageEvents(kind, page) + rest) == [number] + Numbers(rest)
      {
        PrintedAppends(k, PageEvents(kind, page), rest);
      }
      assert Range(from, to) + Range(to, count) == Range(from, count);
      var n := |Pages(kind, count, to, number + 1)|;
      assert [number] + Range(number + 1, number + 1 + n) == Range(number, number + 1 + n);
    }
  }

  function Ceiling(n: nat, d: nat): nat
    requires d > 0
  {
    (n + d - 1) / d
  }

  lemma {:induction false} PageCount(kind: Kind, count: nat, from: nat, number: int)
    requires from <= count
    ensures |Pages(kind, count, from, number)| == Ceiling(count - from, PageSize(kind))
    decreases count - from
  {
    if from >= count {
    } else {
      var to := from + PageSize(kind);
      if to <= count { PageCount(kind, count, to, number + 1); }
    }
  }

  /** No page is empty or holds more entries than fit, and pages start at multiples of the page size. */
  lemma {:induction false} PagesFit(kind: Kind, count: nat, from: nat, number: int)
    requires from % PageSize(kind) == 0
    ensures forall page :: page in Pages(kind, count, from, number) ==>
              && page.from < page.to <= page.from + PageSize(kind) && page.to <= count
              && page.from % PageSize(kind) == 0
    decreases count - from
  {
    if from >= count {
    } else {
      PagesFit(kind, count, from + PageSize(kind), number + 1);
    }
  }

  lemma PageCounters(from: nat, to: nat, number: int)
    requires from % 3 == 0 && from <= to <= from + 3
    ensures forall e :: e in PageEvents(MACHINES, Page(from, to, number)) && e.Machine? ==> e.onPage == e.i % 3 + 1
  {
    var entries := Entries(MACHINES, from, to);
    forall e | e in entries
      ensures e.onPage == e.i % 3 + 1
    {
      var k :| 0 <= k < |entries| && e == entries[k];
    }
  }

  /** The counter that a machine is printed with is its place on the page, 1 to 3. */
  lemma {:induction false} CounterIsPlace(count: nat, from: nat, number: int)
    requires from % 3 == 0
    ensures forall e :: e in Section(MACHINES, count, from, number) && e.Machine? ==> e.onPage == e.i % 3 + 1
    decreases count - from
  {
    hide Section, PageEvents;
    if from >= count {
      SectionEnds(MACHINES, count, from, number);
    } else {
      var to := Min(from + 3, count);
      SectionOpens(MACHINES, count, from, number);
      PageCounters(from, to, number);
      if from + 3 <= count {
        CounterIsPlace(count, from + 3, number + 1);
      } else {
        SectionEnds(MACHINES, count, to, number + 1);
      }
    }
  }

  /** The report opens and closes its pages in turn, prints every machine and every stop exactly once and
      in order, and numbers its pages 1, 2, 3, ... without a gap up to one for the front page, one for
      every three machines and one for every 33 stops. */
  lemma ReportIsComplete(ckmCount: nat, stops: nat)
    ensures var events := ReportEvents(ckmCount, stops);
            && Balanced(events, false)
            && Printed(MACHINES, events) == Range(0, ckmCount)
            && Printed(STOPS, events) == Range(0, stops)
            && Numbers(events) == Range(1, 2 + Ceiling(ckmCount, 3) + Ceiling(stops, 33))
  {
    hide Section, Pages, Printed, Numbers, Balanced;
    var n := |Pages(MACHINES, ckmCount, 0, 2)|;
    var front := [Open, PageNumber(1), Close];
    var machines, table := Section(MACHINES, ckmCount, 0, 2), Section(STOPS, stops, 0, 2 + n);
    PageCount(MACHINES, ckmCount, 0, 2);
    PageCount(STOPS, stops, 0, 2 + n);
    SectionIsPrinted(MACHINES, ckmCount, 0, 2);
    SectionIsPrinted(STOPS, stops, 0, 2 + n);
    FrontPageIsPrinted();
    BalancedAppends(front, machines, false);
    BalancedAppends(front + machines, table, false);
    forall k: Kind
      ensures Printed(k, front + machines + table) == Printed(k, machines) + Printed(k, table)
      ensures Numbers(front + machines + table) == [1] + Numbers(machines) + Numbers(table)
    {
      PrintedAppends(k, front, machines);
      PrintedAppends(k, front + machines, table);
    }
  }

  lemma OneEvent(kind: Kind, e: Event)
    requires e == Open || e == Close || e.PageNumber?
    ensures Printed(kind, [e]) == [] && Numbers([e]) == if e.PageNumber? then [e.n] else []
  {
    assert [e][..0] == [];
  }

  lemma FrontPageIsPrinted()
    ensures var front := [Open, PageNumber(1), Close];
            Balanced(front, false) && Numbers(front) == [1] && forall k :: Printed(k, front) == []
  {
    var front := [Open, PageNumber(1), Close];
    assert front[1..] == [PageNumber(1), Close] && front[1..][1..] == [Close] && front[1..][1..][1..] == [];
    assert front == [Open] + [PageNumber(1)] + [Close];
    forall k: Kind
      ensures Printed(k, front) == [] && Numbers(front) == [1]
    {
      OneEvent(k, Open);
      OneEvent(k, PageNumber(1));
      OneEvent(k, Close);
      PrintedAppends(k, [Open], [PageNumber(1)]);
      PrintedAppends(k, [Open] + [PageNumber(1)], [Close]);
    }
  }

  /** A page number stands here exactly if the page closes next. */
  predicate NumberBeforeClose(events: seq<Event>, k: nat)
    requires k < |events|
  {
    events[k].PageNumber? <==> k + 1 < |events| && events[k + 1] == Close
  }

  /** A page number is the last thing on its page, and every page has one. */
  predicate NumberIsLast(events: seq<Event>) {
    forall k :: 0 <= k < |events| ==> NumberBeforeClose(events, k)
  }

  lemma NumbersStayLast(a: seq<Event>, b: seq<Event>)
    requires NumberIsLast(a) && NumberIsLast(b) && (b == [] || b[0] == Open)
    ensures NumberIsLast(a + b)
  {
    var events := a + b;
    forall k | 0 <= k < |events|
      ensures NumberBeforeClose(events, k)
    {
      if k < |a| {
        assert NumberBeforeClose(a, k);
      } else {
        assert NumberBeforeClose(b, k - |a|);
      }
    }
  }

  lemma PageNumberIsLast(kind: Kind, page: Page)
    requires page.from <= page.to
    ensures NumberIsLast(PageEvents(kind, page)) && PageEvents(kind, page)[0] == Open
  {}

  lemma {:induction false} SectionNumbersAreLast(kind: Kind, count: nat, from: nat, number: int)
    requires from <= count
    ensures var events := Section(kind, count, from, number);
            NumberIsLast(events) && (events == [] || events[0] == Open)
    decreases count - from
  {
    hide PageEvents, Section, NumberIsLast;
    if from == count {
      SectionEnds(kind, count, from, number);
      NothingIsLast();
    } else {
      var to := Min(from + PageSize(kind), count);
      SectionOpens(kind, count, from, number);
      PageNumberIsLast(kind, Page(from, to, number));
      SectionNumbersAreLast(kind, count, to, number + 1);
      NumbersStayLast(PageEvents(kind, Page(from, to, number)), Section(kind, count, to, number + 1));
    }
  }

  lemma NothingIsLast()
    ensures NumberIsLast([]) && NumberIsLast([Open, PageNumber(1), Close])
  {}

  lemma ReportNumbersAreLast(ckmCount: nat, stops: nat)
    ensures NumberIsLast(ReportEvents(ckmCount, stops))
  {
    hide Section, Pages, NumberIsLast;
    var front := [Open, PageNumber(1), Close];
    var machines := Section(MACHINES, ckmCount, 0, 2);
    var n := |Pages(MACHINES, ckmCount, 0, 2)|;
    NothingIsLast();
    SectionNumbersAreLast(MACHINES, ckmCount, 0, 2);
    SectionNumbersAreLast(STOPS, stops, 0, 2 + n);
    NumbersStayLast(front, machines);
    NumbersStayLast(front + machines, Section(STOPS, stops, 0, 2 + n));
  }
}
