/**
 * `getEventsForDate`: the events stored for one calendar date, ordered by
 * start time.  The ordering is that of the source's stable sort with
 * `a.startTime.localeCompare(b.startTime)`, which for "HH:MM" strings is
 * JavaScript's string order.
 */
module EventIndex {
  import opened Wrappers
  import opened Strings
  import opened Seqs
  import opened Calendar
  import opened Events

  function DateIs(ds: string): Event -> bool {
    (e: Event) => e.date == ds
  }

  function StartIs(t: string): Event -> bool {
    (e: Event) => e.startTime == t
  }

  /** Inserts x before the first element that does not start before it. */
  function InsertByStart(x: Event, s: seq<Event>): seq<Event>
    decreases |s|
  {
    if s == [] || !StrLess(s[0].startTime, x.startTime) then [x] + s
    else [s[0]] + InsertByStart(x, s[1..])
  }

  /** The stable sort of s by start time (insertion sort). */
  function SortByStart(s: seq<Event>): seq<Event>
    decreases |s|
  {
    if s == [] then [] else InsertByStart(s[0], SortByStart(s[1..]))
  }

  predicate SortedByStart(s: seq<Event>) {
    forall i, j :: 0 <= i < j < |s| ==> !StrLess(s[j].startTime, s[i].startTime)
  }

  /** `getEventsForDate(date)`: nothing for a padding cell (null), else that date's events by start time. */
  function GetEventsForDate(date: Option<Date>, events: seq<Event>): (r: seq<Event>)
    ensures |r| <= |events|
  {
    match date
    case None => []
    case Some(d) =>
      var sameDay := Filter(events, DateIs(FormatDate(d)));
      SortByStartSorted(sameDay);
      assert |multiset(SortByStart(sameDay))| == |multiset(sameDay)|;
      SortByStart(sameDay)
  }

  // ---------------------------------------------------------------------
  // The sort

  lemma {:induction false} InsertByStartSorted(x: Event, s: seq<Event>)
    requires SortedByStart(s)
    ensures SortedByStart(InsertByStart(x, s))
    ensures multiset(InsertByStart(x, s)) == multiset(s) + multiset{x}
    decreases |s|
  {
    if s == [] || !StrLess(s[0].startTime, x.startTime) {
      var r := [x] + s;
      forall i, j | 0 <= i < j < |r|
        ensures !StrLess(r[j].startTime, r[i].startTime)
      {
        if i == 0 {
          if StrLess(r[j].startTime, x.startTime) {
            if j > 1 {
              StrLessTotal(s[0].startTime, r[j].startTime);
              if StrLess(s[0].startTime, r[j].startTime) {
                StrLessTransitive(s[0].startTime, r[j].startTime, x.startTime);
              }
            }
          }
        }
      }
    } else {
      var rest := InsertByStart(x, s[1..]);
      InsertByStartSorted(x, s[1..]);
      var r := [s[0]] + rest;
      assert multiset(rest) == multiset(s[1..]) + multiset{x};
      assert s == [s[0]] + s[1..];
      forall i, j | 0 <= i < j < |r|
        ensures !StrLess(r[j].startTime, r[i].startTime)
      {
        if i == 0 {
          // every element of rest is x or an element of s[1..], none of which starts before s[0]
          assert r[j] in multiset(rest);
          assert r[j] in multiset(s[1..]) || r[j] == x;
          if r[j] == x {
            StrLessAsymmetric(s[0].startTime, x.startTime);
          } else {
            var k :| 0 <= k < |s[1..]| && s[1..][k] == r[j];
            assert s[k + 1] == r[j];
          }
        }
      }
    }
  }

  /** The sort orders by start time and is a permutation of its input. */
  lemma {:induction false} SortByStartSorted(s: seq<Event>)
    ensures SortedByStart(SortByStart(s))
    ensures multiset(SortByStart(s)) == multiset(s)
    decreases |s|
  {
    if s != [] {
      SortByStartSorted(s[1..]);
      InsertByStartSorted(s[0], SortByStart(s[1..]));
      assert s == [s[0]] + s[1..];
    }
  }

  /** Insertion only moves x past elements that start strictly earlier, so events with equal start keep their order. */
  lemma {:induction false} InsertByStartStable(x: Event, s: seq<Event>, t: string)
    ensures Filter(InsertByStart(x, s), StartIs(t)) == Filter([x] + s, StartIs(t))
    decreases |s|
  {
    if s != [] && StrLess(s[0].startTime, x.startTime) {
      InsertByStartStable(x, s[1..], t);
      FilterConcat([s[0]], InsertByStart(x, s[1..]), StartIs(t));
      FilterConcat([x], s[1..], StartIs(t));
      FilterConcat([s[0]], [x] + s[1..], StartIs(t));
      FilterConcat([x], s, StartIs(t));
      assert s == [s[0]] + s[1..];
      FilterConcat([s[0]], s[1..], StartIs(t));
      if s[0].startTime == t && x.startTime == t {
        StrLessIrreflexive(t);
      }
    }
  }

  /** The sort is stable: the events with any one start time come out in their input order. */
  lemma {:induction false} SortByStartStable(s: seq<Event>, t: string)
    ensures Filter(SortByStart(s), StartIs(t)) == Filter(s, StartIs(t))
    decreases |s|
  {
    if s != [] {
      SortByStartStable(s[1..], t);
      InsertByStartStable(s[0], SortByStart(s[1..]), t);
      FilterConcat([s[0]], SortByStart(s[1..]), StartIs(t));
      FilterConcat([s[0]], s[1..], StartIs(t));
      assert s == [s[0]] + s[1..];
    }
  }

  // ---------------------------------------------------------------------
  // The index

  /**
   * The events for a date are exactly the stored events whose date string is
   * that date's, each as often as it is stored, sorted by start time, with
   * events of equal start time in their stored order.
   */
  lemma GetEventsForDateSpec(d: Date, events: seq<Event>)
    ensures var r := GetEventsForDate(Some(d), events);
      && SortedByStart(r)
      && (forall e :: e in r <==> e in events && e.date == FormatDate(d))
      && (forall e :: multiset(r)[e] == if e.date == FormatDate(d) then multiset(events)[e] else 0)
      && (forall t :: Filter(r, StartIs(t)) == Filter(Filter(events, DateIs(FormatDate(d))), StartIs(t)))
  {
    var onDate := Filter(events, DateIs(FormatDate(d)));
    SortByStartSorted(onDate);
    FilterMultiset(events, DateIs(FormatDate(d)));
    var r := GetEventsForDate(Some(d), events);
    forall e
      ensures e in r <==> e in events && e.date == FormatDate(d)
    {
      assert e in r <==> e in multiset(r);
      assert e in onDate <==> e in multiset(onDate);
    }
    forall t
      ensures Filter(r, StartIs(t)) == Filter(onDate, StartIs(t))
    {
      SortByStartStable(onDate, t);
    }
  }

  /** A padding cell has no events. */
  lemma GetEventsForNull(events: seq<Event>)
    ensures GetEventsForDate(None, events) == []
  {
  }

  /** No event is listed under two different dates. */
  lemma GetEventsForDateDisjoint(a: Date, b: Date, events: seq<Event>)
    requires a != b
    ensures forall e :: e in GetEventsForDate(Some(a), events) ==> e !in GetEventsForDate(Some(b), events)
  {
    GetEventsForDateSpec(a, events);
    GetEventsForDateSpec(b, events);
    if FormatDate(a) == FormatDate(b) {
      FormatDateInjective(a, b);
    }
  }
}
