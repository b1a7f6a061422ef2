/**
 * The event query of `upcoming_events` and `upcoming_events_feed`: approved
 * events whose [start_date, end_date] overlaps the window (both bounds
 * inclusive), in ascending start-date order, at most `limit` of them.
 * The database's ORDER BY is modelled by an insertion sort; the order among
 * equal start dates is not guaranteed by the database and no property below
 * depends on it.
 */
module Selector {
  import opened Calendar
  import opened Window

  /** The fields of a stored event that the query and the feed read. */
  datatype Event = Event(
    id: nat,
    title: string,
    description: string,
    locationText: string,
    startDate: ValidDate,
    endDate: ValidDate,
    approved: bool)

  /** `Event.start_date <= end AND Event.end_date >= start`. */
  predicate Overlaps(e: Event, w: Span)
  {
    LessEq(e.startDate, w.end) && LessEq(w.start, e.endDate)
  }

  /** The three conditions of the query's filter. */
  predicate Qualifies(e: Event, w: Span)
  {
    Overlaps(e, w) && e.approved
  }

  /** For an ordered event and an ordered window, the filter's overlap test holds exactly when they share a day. */
  lemma OverlapsShareDay(e: Event, w: Span)
    requires LessEq(e.startDate, e.endDate) && LessEq(w.start, w.end)
    ensures Overlaps(e, w) <==>
              exists d: Date :: LessEq(e.startDate, d) && LessEq(d, e.endDate) && LessEq(w.start, d) && LessEq(d, w.end)
  {
    if Overlaps(e, w) {
      var d := if LessEq(e.startDate, w.start) then w.start else e.startDate;
      assert LessEq(e.startDate, d) && LessEq(d, e.endDate) && LessEq(w.start, d) && LessEq(d, w.end);
    }
  }

  /** The events that pass the filter, in store order. */
  function Qualifying(events: seq<Event>, w: Span): (r: seq<Event>)
    ensures forall x :: x in r <==> x in events && Qualifies(x, w)
    ensures multiset(r) <= multiset(events)
    ensures |r| <= |events|
  {
    if events == [] then []
    else
      assert events == [events[0]] + events[1..];
      (if Qualifies(events[0], w) then [events[0]] else []) + Qualifying(events[1..], w)
  }

  /** Every qualifying event is kept as often as the store holds it, every other one not at all. */
  lemma {:induction false} QualifyingCount(events: seq<Event>, w: Span, x: Event)
    ensures multiset(Qualifying(events, w))[x] == if Qualifies(x, w) then multiset(events)[x] else 0
  {
    if events != [] {
      QualifyingCount(events[1..], w, x);
      var head := if Qualifies(events[0], w) then [events[0]] else [];
      assert events == [events[0]] + events[1..];
      assert multiset(Qualifying(events, w)) == multiset(head) + multiset(Qualifying(events[1..], w));
      assert multiset(events) == multiset([events[0]]) + multiset(events[1..]);
    }
  }

  predicate SortedByStart(s: seq<Event>)
  {
    forall i, j :: 0 <= i < j < |s| ==> LessEq(s[i].startDate, s[j].startDate)
  }

  /** Places `e` in front of the first event that does not start before it. */
  function Insert(e: Event, s: seq<Event>): (r: seq<Event>)
    requires SortedByStart(s)
    ensures SortedByStart(r)
    ensures multiset(r) == multiset(s) + multiset{e}
  {
    if s == [] || LessEq(e.startDate, s[0].startDate) then [e] + s
    else
      var rest := Insert(e, s[1..]);
      HeadBound(e, s, rest);
      ConsSorted(s[0], rest);
      assert s == [s[0]] + s[1..];
      [s[0]] + rest
  }

  /** What goes after the head of a sorted sequence, `e` included when it starts later, starts no earlier than the head. */
  lemma HeadBound(e: Event, s: seq<Event>, rest: seq<Event>)
    requires SortedByStart(s) && s != [] && !LessEq(e.startDate, s[0].startDate)
    requires multiset(rest) == multiset(s[1..]) + multiset{e}
    ensures forall j :: 0 <= j < |rest| ==> LessEq(s[0].startDate, rest[j].startDate)
  {
    forall j | 0 <= j < |rest| ensures LessEq(s[0].startDate, rest[j].startDate) {
      assert rest[j] in multiset(rest);
      if rest[j] != e {
        assert rest[j] in multiset(s[1..]);
        var k :| 0 <= k < |s| - 1 && s[1..][k] == rest[j];
        assert s[k + 1] == rest[j];
      }
    }
  }

  /** An event that starts no later than every event of a sorted sequence can go in front of it. */
  lemma ConsSorted(x: Event, rest: seq<Event>)
    requires SortedByStart(rest)
    requires forall j :: 0 <= j < |rest| ==> LessEq(x.startDate, rest[j].startDate)
    ensures SortedByStart([x] + rest)
  {
    var r := [x] + rest;
    forall i, j | 0 <= i < j < |r| ensures LessEq(r[i].startDate, r[j].startDate) {
      assert r[j] == rest[j - 1];
      if i > 0 {
        assert r[i] == rest[i - 1];
      }
    }
  }

  /** `ORDER BY start_date ASC`. */
  function SortByStart(s: seq<Event>): (r: seq<Event>)
    ensures SortedByStart(r)
    ensures multiset(r) == multiset(s)
  {
    if s == [] then []
    else
      assert s == [s[0]] + s[1..];
      Insert(s[0], SortByStart(s[1..]))
  }

  /** A prefix and the rest of a sequence split its multiset. */
  lemma SplitMultiset(s: seq<Event>, k: nat)
    requires k <= |s|
    ensures multiset(s) - multiset(s[..k]) == multiset(s[k..])
    ensures multiset(s[..k]) <= multiset(s)
  {
    assert s == s[..k] + s[k..];
  }

  /** In a sorted sequence every event of a prefix starts no later than any event after it. */
  lemma SortedSplit(s: seq<Event>, k: nat)
    requires SortedByStart(s) && k <= |s|
    ensures forall x, y | x in s[..k] && y in multiset(s[k..]) :: LessEq(x.startDate, y.startDate)
  {
    forall x, y | x in s[..k] && y in multiset(s[k..]) ensures LessEq(x.startDate, y.startDate) {
      var i :| 0 <= i < k && s[..k][i] == x;
      assert y in s[k..];
      var j :| 0 <= j < |s| - k && s[k..][j] == y;
      assert s[i] == x && s[k + j] == y;
    }
  }

  lemma AllQualify(s: seq<Event>, q: seq<Event>, w: Span)
    requires multiset(s) == multiset(q)
    requires forall x :: x in q ==> Qualifies(x, w)
    ensures forall i :: 0 <= i < |s| ==> Qualifies(s[i], w)
  {
    forall i | 0 <= i < |s| ensures Qualifies(s[i], w) {
      assert s[i] in multiset(q);
    }
  }

  /**
   * The query result. A negative `limit` (which `int()` accepts) is read as no
   * limit, as SQLite does; the properties are stated for `limit >= 0`.
   */
  function Select(events: seq<Event>, w: Span): (r: seq<Event>)
    ensures forall i :: 0 <= i < |r| ==> Qualifies(r[i], w)
    ensures SortedByStart(r)
  {
    var q := Qualifying(events, w);
    var s := SortByStart(q);
    AllQualify(s, q, w);
    s[..Cut(w, |s|)]
  }

  /** How many events of `n` qualifying ones the limit keeps. */
  function Cut(w: Span, n: nat): (k: nat)
    ensures k <= n
    ensures w.limit >= 0 ==> k == if w.limit < n then w.limit else n
    ensures w.limit < 0 ==> k == n
  {
    if 0 <= w.limit < n then w.limit else n
  }

  /** The selection takes `min(limit, number qualifying)` events and only qualifying ones. */
  lemma SelectSize(events: seq<Event>, w: Span)
    ensures multiset(Select(events, w)) <= multiset(Qualifying(events, w))
    ensures |Select(events, w)| == Cut(w, |Qualifying(events, w)|)
    ensures Cut(w, |Qualifying(events, w)|) == |Qualifying(events, w)| ==>
              multiset(Select(events, w)) == multiset(Qualifying(events, w))
  {
    var q := Qualifying(events, w);
    var s := SortByStart(q);
    SplitMultiset(s, Cut(w, |s|));
    assert |s| == |multiset(q)| == |q|;
    assert s[..|s|] == s;
  }

  /** No qualifying event is left out while one that starts later is included. */
  lemma SelectEarliest(events: seq<Event>, w: Span)
    ensures forall x, y | x in Select(events, w) && y in multiset(Qualifying(events, w)) - multiset(Select(events, w)) ::
              LessEq(x.startDate, y.startDate)
  {
    var q := Qualifying(events, w);
    var s := SortByStart(q);
    SplitMultiset(s, Cut(w, |s|));
    SortedSplit(s, Cut(w, |s|));
  }

  /** The window need not be ordered: an event covering an inverted window still matches. */
  lemma InvertedWindowCanMatch()
    ensures var e := Event(1, "t", "d", "l", Date(2024, 2, 1), Date(2024, 4, 1), true);
            Select([e], Span(10, Date(2024, 3, 10), Date(2024, 3, 1))) == [e]
  {
    var e := Event(1, "t", "d", "l", Date(2024, 2, 1), Date(2024, 4, 1), true);
    var w := Span(10, Date(2024, 3, 10), Date(2024, 3, 1));
    assert Qualifying([e], w) == [e];
    assert SortByStart([e]) == [e];
  }
}
