/**
 * `calculateEventPosition`: where an event's box goes on a time grid.  The
 * week and day views pass the hourly labels (every other half-hour slot)
 * and double the indices, so positions are counted in half-hour rows.
 */
module Layout {
  import opened Strings
  import opened TimeSlots
  import opened Events

  /** `timeSlots.findIndex(slot => slot >= t)`: the first slot not before t, or -1 when every slot is before t. */
  function FindIndexAtLeast(slots: seq<string>, t: string): (r: int)
    ensures -1 <= r < |slots|
    ensures r == -1 ==> forall i :: 0 <= i < |slots| ==> StrLess(slots[i], t)
    ensures 0 <= r ==> !StrLess(slots[r], t) && forall i :: 0 <= i < r ==> StrLess(slots[i], t)
    decreases |slots|
  {
    if slots == [] then -1
    else if !StrLess(slots[0], t) then 0
    else
      var k := FindIndexAtLeast(slots[1..], t);
      if k == -1 then -1 else k + 1
  }

  datatype Position = Position(start: int, duration: int)

  /** `calculateEventPosition(event, timeSlots)`. */
  function CalculateEventPosition(event: Event, timeSlots: seq<string>): (p: Position)
    ensures p.start % 2 == 0 && p.duration % 2 == 0 && p.duration >= 2
    ensures 0 <= p.start && (p.start < 2 * |timeSlots| || p.start == 0)
  {
    var startIndex := FindIndexAtLeast(timeSlots, event.startTime);
    var endIndex := FindIndexAtLeast(timeSlots, event.endTime);
    var start := if startIndex != -1 then startIndex else 0;
    var end := if endIndex != -1 then endIndex else |timeSlots|;
    var duration := if end - start > 1 then end - start else 1;
    Position(start * 2, duration * 2)
  }

  /** `timeSlots.filter((_, index) => index % 2 === 0)`: the slots at even indices. */
  function HourlySlots(timeSlots: seq<string>): (r: seq<string>)
    ensures |r| == (|timeSlots| + 1) / 2
    ensures forall i :: 0 <= i < |r| ==> r[i] == timeSlots[2 * i]
  {
    if |timeSlots| <= 1 then timeSlots
    else [timeSlots[0]] + HourlySlots(timeSlots[2..])
  }

  /** i is the row of t: the first slot that is not before t. */
  ghost predicate FirstAtLeast(slots: seq<string>, t: string, i: int) {
    0 <= i < |slots| && !StrLess(slots[i], t) && forall j :: 0 <= j < i ==> StrLess(slots[j], t)
  }

  /** Every slot is before t: the lookup misses. */
  ghost predicate NoneAtLeast(slots: seq<string>, t: string) {
    forall j :: 0 <= j < |slots| ==> StrLess(slots[j], t)
  }

  lemma FindIndexAtLeastIs(slots: seq<string>, t: string, i: int)
    requires FirstAtLeast(slots, t, i) || (NoneAtLeast(slots, t) && i == -1)
    ensures FindIndexAtLeast(slots, t) == i
  {
  }

  /**
   * The position, stated by the rows: the start row is the first slot not
   * before the start time (0 when there is none), the end row the first slot
   * not before the end time (the number of slots when there is none), and the
   * span is at least one row; both are then doubled.
   */
  lemma PositionFromRows(event: Event, slots: seq<string>, s: int, e: int)
    requires FirstAtLeast(slots, event.startTime, s) || (NoneAtLeast(slots, event.startTime) && s == 0)
    requires FirstAtLeast(slots, event.endTime, e) || (NoneAtLeast(slots, event.endTime) && e == |slots|)
    ensures CalculateEventPosition(event, slots) == Position(2 * s, 2 * (if e - s > 1 then e - s else 1))
  {
    FindIndexAtLeastIs(slots, event.startTime, if FirstAtLeast(slots, event.startTime, s) then s else -1);
    FindIndexAtLeastIs(slots, event.endTime, if FirstAtLeast(slots, event.endTime, e) then e else -1);
  }

  /**
   * For an event that ends after it starts, the box never runs past the end
   * of the grid; and an event starting after the last slot falls back to a
   * box covering the whole grid.
   */
  lemma PositionWithinGrid(event: Event, slots: seq<string>)
    requires StrLess(event.startTime, event.endTime) && |slots| > 0
    ensures var p := CalculateEventPosition(event, slots);
      && p.start + p.duration <= 2 * |slots|
      && (NoneAtLeast(slots, event.startTime) ==> p == Position(0, 2 * |slots|))
  {
    var si := FindIndexAtLeast(slots, event.startTime);
    var ei := FindIndexAtLeast(slots, event.endTime);
    if si == -1 {
      if ei != -1 {
        StrLessTransitive(slots[ei], event.startTime, event.endTime);
      }
    } else if ei != -1 && ei < si {
      if StrLess(slots[ei], event.startTime) {
        StrLessTransitive(slots[ei], event.startTime, event.endTime);
      }
    }
  }

  // ---------------------------------------------------------------------
  // The hourly grid of the week and day views

  /** The 48 half-hour labels `getTimeSlots` returns. */
  predicate DaySlots(timeSlots: seq<string>) {
    |timeSlots| == 48 && forall i :: 0 <= i < 48 ==> timeSlots[i] == SlotLabel(i)
  }

  /** The 24 labels "00:00" .. "23:00". */
  predicate HourLabels(hours: seq<string>) {
    |hours| == 24 && forall h :: 0 <= h < 24 ==> hours[h] == Hhmm(h, 0)
  }

  /** The hourly labels of the day grid are "00:00" .. "23:00". */
  lemma HourlyDayGrid(timeSlots: seq<string>)
    requires DaySlots(timeSlots)
    ensures HourLabels(HourlySlots(timeSlots))
  {
    var hours := HourlySlots(timeSlots);
    forall h | 0 <= h < 24
      ensures hours[h] == Hhmm(h, 0)
    {
      assert hours[h] == SlotLabel(2 * h);
    }
  }

  /**
   * Looking up a well-formed time h:m among the hourly labels: an
   * on-the-hour time finds its own hour, a later one the next hour, and a
   * time after 23:00 misses.
   */
  lemma HourlyRow(hours: seq<string>, h: nat, m: nat)
    requires HourLabels(hours)
    requires h < 24 && m < 60
    ensures FindIndexAtLeast(hours, Hhmm(h, m))
      == if m == 0 then h else if h < 23 then h + 1 else -1
  {
    forall k | 0 <= k < 24
      ensures StrLess(hours[k], Hhmm(h, m)) <==> k < h || (k == h && 0 < m)
    {
      HhmmOrder(k, 0, h, m);
    }
    var i := if m == 0 then h else if h < 23 then h + 1 else -1;
    FindIndexAtLeastIs(hours, Hhmm(h, m), i);
  }

  /**
   * An event from h1:m1 to h2:m2 on the hourly grid, as the week and day
   * views draw it: each time is rounded up to a whole hour, a start after
   * 23:00 falls back to row 0 and an end after 23:00 to the end of the day,
   * and the rows are half-hour rows.
   */
  lemma PositionOnHourlyGrid(event: Event, timeSlots: seq<string>, h1: nat, m1: nat, h2: nat, m2: nat)
    requires DaySlots(timeSlots)
    requires h1 < 24 && m1 < 60 && h2 < 24 && m2 < 60
    requires event.startTime == Hhmm(h1, m1) && event.endTime == Hhmm(h2, m2)
    ensures var s := if m1 == 0 then h1 else if h1 < 23 then h1 + 1 else 0;
      var e := if m2 == 0 then h2 else if h2 < 23 then h2 + 1 else 24;
      CalculateEventPosition(event, HourlySlots(timeSlots)) == Position(2 * s, 2 * (if e - s > 1 then e - s else 1))
  {
    HourlyDayGrid(timeSlots);
    PositionOnHours(event, HourlySlots(timeSlots), h1, m1, h2, m2);
  }

  lemma PositionOnHours(event: Event, hours: seq<string>, h1: nat, m1: nat, h2: nat, m2: nat)
    requires HourLabels(hours)
    requires h1 < 24 && m1 < 60 && h2 < 24 && m2 < 60
    requires event.startTime == Hhmm(h1, m1) && event.endTime == Hhmm(h2, m2)
    ensures var s := if m1 == 0 then h1 else if h1 < 23 then h1 + 1 else 0;
      var e := if m2 == 0 then h2 else if h2 < 23 then h2 + 1 else 24;
      CalculateEventPosition(event, hours) == Position(2 * s, 2 * (if e - s > 1 then e - s else 1))
  {
    HourlyRow(hours, h1, m1);
    HourlyRow(hours, h2, m2);
  }

  /** The 09:00-10:30 event starts at half-hour row 18 and spans 4 rows. */
  lemma NineToTenThirty(event: Event, timeSlots: seq<string>)
    requires DaySlots(timeSlots)
    requires event.startTime == "09:00" && event.endTime == "10:30"
    ensures CalculateEventPosition(event, HourlySlots(timeSlots)) == Position(18, 4)
  {
    Pad2Digits(9);
    Pad2Digits(0);
    Pad2Digits(10);
    Pad2Digits(30);
    assert Hhmm(9, 0) == "09:00" && Hhmm(10, 30) == "10:30";
    PositionOnHourlyGrid(event, timeSlots, 9, 0, 10, 30);
  }
}
