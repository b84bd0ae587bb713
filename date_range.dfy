/**
 * The calendar cells of the month view (`getDaysInMonth`) and the day
 * columns of the week view (`getWeekDays`).
 */
module DateRange {
  import opened Wrappers
  import opened Calendar

  /** The Sunday on or before d. */
  function SundayOnOrBefore(d: Date): Date {
    AddDays(d, -DayOfWeek(d))
  }

  /** The seven days of d's week, Sunday first. */
  function WeekOf(d: Date): (w: seq<Date>)
    ensures |w| == 7
  {
    seq(7, i => AddDays(SundayOnOrBefore(d), i))
  }

  /**
   * `getDaysInMonth(date)`: one null (None) per weekday before the first of
   * the month, then every date of the month in order.  The month's length is
   * read off "day 0 of the next month".  All three dates come from the
   * constructor, so for an anchor in a year from 0 to 99 the grid is that of
   * the same month in 1900 + year.
   */
  method GetDaysInMonth(date: Date) returns (days: seq<Option<Date>>)
    ensures var y := FullYear(date.year);
      var lead := DayOfWeek(Ymd(y, date.month, 1));
      && |days| == lead + DaysInMonth(y, date.month)
      && (forall k :: 0 <= k < lead ==> days[k] == None)
      && (forall k :: lead <= k < |days| ==> days[k] == Some(Ymd(y, date.month, k - lead + 1)))
  {
    var year := date.year;
    var month := date.month;
    var firstDay := NewDate(year, month, 1);
    var lastDay := NewDate(year, month + 1, 0);
    var daysInMonth := lastDay.day;
    ghost var fullYear := FullYear(year);
    assert firstDay == Ymd(fullYear, month, 1) by { NewDateInRange(year, month, 1); }
    assert daysInMonth == DaysInMonth(fullYear, month) by { NewDateDayZero(year, month); }
    var startingDayOfWeek := DayOfWeek(firstDay);

    days := [];
    var i := 0;
    while i < startingDayOfWeek
      invariant 0 <= i <= startingDayOfWeek
      invariant |days| == i && forall k :: 0 <= k < i ==> days[k] == None
    {
      days := days + [None];
      i := i + 1;
    }
    var day := 1;
    while day <= daysInMonth
      invariant 1 <= day <= daysInMonth + 1
      invariant |days| == startingDayOfWeek + day - 1
      invariant forall k :: 0 <= k < startingDayOfWeek ==> days[k] == None
      invariant forall k :: startingDayOfWeek <= k < |days| ==> days[k] == Some(NewDate(year, month, k - startingDayOfWeek + 1))
    {
      days := days + [Some(NewDate(year, month, day))];
      day := day + 1;
    }
    forall k | startingDayOfWeek <= k < |days|
      ensures days[k] == Some(Ymd(fullYear, month, k - startingDayOfWeek + 1))
    {
      NewDateInRange(year, month, k - startingDayOfWeek + 1);
    }
  }

  /**
   * `getWeekDays(date)`: the Sunday on or before date, found by moving back
   * `getDay()` days with `setDate`, and the six days after it.
   */
  method GetWeekDays(date: Date) returns (days: seq<Date>)
    ensures days == WeekOf(date)
  {
    var day := DayOfWeek(date);
    var startOfWeek := MakeDate(date.year, date.month, date.day - day);
    StartOfWeek(date);
    ghost var week := WeekOf(date);
    days := [];
    var i := 0;
    while i < 7
      invariant 0 <= i <= 7
      invariant days == week[..i]
    {
      var weekDay := MakeDate(startOfWeek.year, startOfWeek.month, startOfWeek.day + i);
      WeekDayFrom(date, startOfWeek, i);
      assert week[..i + 1] == week[..i] + [week[i]];
      days := days + [weekDay];
      i := i + 1;
    }
    assert week[..7] == week;
  }

  /** Moving back `getDay()` days with `setDate` reaches the Sunday on or before the date. */
  lemma StartOfWeek(date: Date)
    ensures MakeDate(date.year, date.month, date.day - DayOfWeek(date)) == SundayOnOrBefore(date)
  {
    SetDateShift(date, -DayOfWeek(date));
  }

  /** `setDate(startOfWeek.getDate() + i)` is day i of the week. */
  lemma WeekDayFrom(date: Date, startOfWeek: Date, i: int)
    requires startOfWeek == SundayOnOrBefore(date) && 0 <= i < 7
    ensures MakeDate(startOfWeek.year, startOfWeek.month, startOfWeek.day + i) == WeekOf(date)[i]
  {
    SetDateShift(startOfWeek, i);
  }

  /**
   * A week runs Sunday (weekday 0) to Saturday (weekday 6) over seven
   * consecutive days, across month and year ends, and contains its anchor
   * date, at the anchor's own weekday.
   */
  lemma WeekOfShape(d: Date)
    ensures var w := WeekOf(d);
      && (forall i :: 0 <= i < 7 ==> DayOfWeek(w[i]) == i)
      && (forall i :: 0 <= i < 6 ==> w[i + 1] == NextDay(w[i]))
      && (forall i :: 0 <= i < 7 ==> DayNumber(w[i]) == DayNumber(w[0]) + i)
      && DayNumber(w[0]) <= DayNumber(d) <= DayNumber(w[6])
      && w[DayOfWeek(d)] == d
  {
    var w := WeekOf(d);
    forall i | 0 <= i < 7
      ensures DayOfWeek(w[i]) == i && DayNumber(w[i]) == DayNumber(w[0]) + i
    {
      WeekDayAt(d, i);
      WeekDayAt(d, 0);
    }
    forall i | 0 <= i < 6
      ensures w[i + 1] == NextDay(w[i])
    {
      AddDaysAdd(SundayOnOrBefore(d), i, 1);
    }
    AnchorInWeek(d);
  }

  lemma WeekDayAt(d: Date, i: int)
    requires 0 <= i < 7
    ensures DayOfWeek(WeekOf(d)[i]) == i
    ensures DayNumber(WeekOf(d)[i]) == DayNumber(d) - DayOfWeek(d) + i
  {
    var s := SundayOnOrBefore(d);
    var w := AddDays(s, i);
    assert WeekOf(d)[i] == w;
    SundayFacts(d);
    AddDaysNumber(s, i);
    WeekdayAfterSunday(s, w, i);
  }

  /** A date i days after a Sunday, for i below 7, falls on weekday i. */
  lemma WeekdayAfterSunday(s: Date, w: Date, i: int)
    requires 0 <= i < 7
    requires (DayNumber(s) + 4) % 7 == 0 && DayNumber(w) == DayNumber(s) + i
    ensures DayOfWeek(w) == i
  {
    MultipleOfSevenPlus(DayNumber(s) + 4, i);
  }

  /** The Sunday on or before d is a Sunday, DayOfWeek(d) days before d. */
  lemma SundayFacts(d: Date)
    ensures (DayNumber(SundayOnOrBefore(d)) + 4) % 7 == 0
    ensures DayNumber(SundayOnOrBefore(d)) == DayNumber(d) - DayOfWeek(d)
  {
    AddDaysNumber(d, -DayOfWeek(d));
    RoundDownToSeven(DayNumber(d) + 4);
  }

  lemma RoundDownToSeven(n: int)
    ensures (n - n % 7) % 7 == 0
  {
    DivUnique(n - n % 7, 7, n / 7, 0);
  }

  lemma MultipleOfSevenPlus(n: int, i: int)
    requires n % 7 == 0 && 0 <= i < 7
    ensures (n + i) % 7 == i
  {
    DivUnique(n + i, 7, n / 7, i);
  }

  lemma AnchorInWeek(d: Date)
    ensures WeekOf(d)[DayOfWeek(d)] == d
  {
    AddDaysAdd(d, -DayOfWeek(d), DayOfWeek(d));
  }

  /** February 2024 (a leap year) starts on a Thursday: four empty cells, then 29 days, 33 cells in all. */
  lemma February2024Grid()
    ensures DayOfWeek(Ymd(2024, 1, 1)) == 4 && DaysInMonth(2024, 1) == 29
  {
  }
}
