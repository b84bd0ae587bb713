/**
 * The navigator: `navigate(direction)` moves the anchor date by one period
 * of the current view, and `getNavigationTitle` names the period shown.
 */
module Navigation {
  import opened Strings
  import opened Calendar
  import opened DateRange

  datatype View = Month | Week | Day

  const MonthNames: seq<string> := [
    "January", "February", "March", "April", "May", "June",
    "July", "August", "September", "October", "November", "December"
  ]

  /**
   * The anchor date after one `navigate(direction)` step: in the month view
   * `setMonth(getMonth() + direction)`, which keeps the day of the month and
   * lets it overflow; in the week and day views `setDate(getDate() + 7 *
   * direction)` and `setDate(getDate() + direction)`.
   */
  function NavigateDate(current: Date, view: View, direction: int): (r: Date)
    ensures view == Month ==> var t := 12 * current.year + current.month + direction;
      t <= 12 * r.year + r.month <= t + 1
  {
    match view
    case Month =>
      SetMonthWindow(current, direction);
      MakeDate(current.year, current.month + direction, current.day)
    case Week => MakeDate(current.year, current.month, current.day + 7 * direction)
    case Day => MakeDate(current.year, current.month, current.day + direction)
  }

  /** `setMonth(getMonth() + direction)` lands in the target month or, when the day overflows, the one after. */
  lemma SetMonthWindow(d: Date, direction: int)
    ensures var t := 12 * d.year + d.month + direction;
      var r := MakeDate(d.year, d.month + direction, d.day);
      t <= 12 * r.year + r.month <= t + 1
  {
    var m := d.month + direction;
    var t := 12 * d.year + m;
    MakeDateMonthCarry(d.year, m, d.day);
    DivUnique(t, 12, d.year + m / 12, m % 12);
    var ty, tm := t / 12, t % 12;
    if d.day <= DaysInMonth(ty, tm) {
      MakeDateInRange(ty, tm, d.day);
    } else {
      MakeDateOverflow(ty, tm, d.day);
    }
  }

  /**
   * `getNavigationTitle()`: "Month YYYY" for the month view; for the week
   * view "Month D-D, YYYY" when the week lies in one month and
   * "Month D - Month D, YYYY" when it does not, with the year of its Sunday;
   * "Month D, YYYY" for the day view.
   */
  function GetNavigationTitle(current: Date, view: View): string {
    match view
    case Month => MonthNames[current.month] + " " + IntToString(current.year)
    case Week =>
      var weekDays := WeekOf(current);
      WeekRangeTitle(weekDays[0], weekDays[6])
    case Day => MonthNames[current.month] + " " + NatToString(current.day) + ", " + IntToString(current.year)
  }

  /** The week-view title from the week's first and last day; the year is the first day's. */
  function WeekRangeTitle(start: Date, end: Date): string {
    if start.month == end.month then
      MonthNames[start.month] + " " + NatToString(start.day) + "-" + NatToString(end.day) + ", " + IntToString(start.year)
    else
      MonthNames[start.month] + " " + NatToString(start.day) + " - " + MonthNames[end.month] + " "
        + NatToString(end.day) + ", " + IntToString(start.year)
  }

  // ---------------------------------------------------------------------
  // Stepping

  /** In the day and week views a step moves the date by exactly one day or seven days, across month and year ends. */
  lemma NavigateByDays(d: Date, direction: int)
    ensures NavigateDate(d, Day, direction) == AddDays(d, direction)
    ensures NavigateDate(d, Week, direction) == AddDays(d, 7 * direction)
  {
    SetDateShift(d, direction);
    SetDateShift(d, 7 * direction);
  }

  /** A week step lands seven days away on the same weekday. */
  lemma WeekStepKeepsWeekday(d: Date, direction: int)
    ensures DayNumber(NavigateDate(d, Week, direction)) == DayNumber(d) + 7 * direction
    ensures DayOfWeek(NavigateDate(d, Week, direction)) == DayOfWeek(d)
  {
    var e := NavigateDate(d, Week, direction);
    assert e == AddDays(d, 7 * direction) by {
      NavigateByDays(d, direction);
    }
    AddDaysNumber(d, 7 * direction);
    SameWeekday(d, e, direction);
  }

  /** Dates a whole number of weeks apart fall on the same weekday. */
  lemma SameWeekday(a: Date, b: Date, k: int)
    requires DayNumber(b) == DayNumber(a) + 7 * k
    ensures DayOfWeek(b) == DayOfWeek(a)
  {
    ShiftByWeeks(DayNumber(a) + 4, k);
  }

  lemma ShiftByWeeks(n: int, k: int)
    ensures (n + 7 * k) % 7 == n % 7
  {
    DivUnique(n + 7 * k, 7, n / 7 + k, n % 7);
  }

  /** In the day and week views, stepping forward and then back (or back and then forward) returns to the date. */
  lemma NavigateRoundTrip(d: Date, view: View, direction: int)
    requires view != Month
    ensures NavigateDate(NavigateDate(d, view, direction), view, -direction) == d
  {
    var k := if view == Day then direction else 7 * direction;
    NavigateByDays(d, direction);
    var e := AddDays(d, k);
    assert NavigateDate(d, view, direction) == e;
    NavigateByDays(e, -direction);
    assert NavigateDate(e, view, -direction) == AddDays(e, -k);
    AddDaysInverse(d, k);
  }

  /**
   * In the month view the month index moves by `direction` (the year absorbs
   * the carry) and the day of the month is kept when the target month has
   * it; otherwise the surplus days spill into the month after the target.
   */
  lemma NavigateMonth(d: Date, direction: int)
    ensures var t := 12 * d.year + d.month + direction;
      var n := DaysInMonth(t / 12, t % 12);
      var r := NavigateDate(d, Month, direction);
      if d.day <= n then r == Ymd(t / 12, t % 12, d.day)
      else 12 * r.year + r.month == t + 1 && r.day == d.day - n
  {
    var m := d.month + direction;
    var t := 12 * d.year + m;
    MakeDateMonthCarry(d.year, m, d.day);
    DivUnique(t, 12, d.year + m / 12, m % 12);
    var ty, tm := t / 12, t % 12;
    if d.day <= DaysInMonth(ty, tm) {
      MakeDateInRange(ty, tm, d.day);
    } else {
      MakeDateOverflow(ty, tm, d.day);
    }
  }

  /**
   * In a leap year, January 31 plus one month is March 2, and one month
   * back from March 2 is February 2: a month step is not undone by the
   * opposite step.
   */
  lemma JanuaryThirtyFirst(y: int)
    requires IsLeapYear(y)
    ensures NavigateDate(Ymd(y, 0, 31), Month, 1) == Ymd(y, 2, 2)
    ensures NavigateDate(Ymd(y, 2, 2), Month, -1) == Ymd(y, 1, 2)
  {
    MakeDateOverflow(y, 1, 31);
    MakeDateInRange(y, 1, 2);
  }

  // ---------------------------------------------------------------------
  // Titles

  lemma MonthNameFacts()
    ensures forall m :: 0 <= m < 12 ==> ' ' !in MonthNames[m] && ',' !in MonthNames[m]
    ensures forall a, b :: 0 <= a < 12 && 0 <= b < 12 && MonthNames[a] == MonthNames[b] ==> a == b
  {
  }

  /** The month title names the month: two anchors get the same month title exactly when they lie in the same month. */
  lemma MonthTitleIdentifiesMonth(a: Date, b: Date)
    ensures GetNavigationTitle(a, Month) == GetNavigationTitle(b, Month) <==> a.year == b.year && a.month == b.month
  {
    if GetNavigationTitle(a, Month) == GetNavigationTitle(b, Month) {
      MonthNameFacts();
      SplitAtSeparator(MonthNames[a.month], IntToString(a.year), MonthNames[b.month], IntToString(b.year), ' ');
      IntToStringInjective(a.year, b.year);
    }
  }

  /**
   * Every title opens with the name of the anchor's month and closes with its
   * year; in the week view the anchor is the week's Sunday.
   */
  lemma TitleFrame(current: Date, view: View)
    ensures var anchor := if view == Week then WeekOf(current)[0] else current;
      var name, year, r := MonthNames[anchor.month], IntToString(anchor.year), GetNavigationTitle(current, view);
      |name| + |year| < |r| && r[..|name|] == name && r[|r| - |year|..] == year
  {
    match view
    case Month =>
      Framed(MonthNames[current.month], " ", IntToString(current.year));
    case Day =>
      Framed(MonthNames[current.month], " " + NatToString(current.day) + ", ", IntToString(current.year));
    case Week =>
      WeekTitleFrame(WeekOf(current)[0], WeekOf(current)[6]);
  }

  lemma WeekTitleFrame(start: Date, end: Date)
    ensures var name, year, r := MonthNames[start.month], IntToString(start.year), WeekRangeTitle(start, end);
      |name| + |year| < |r| && r[..|name|] == name && r[|r| - |year|..] == year
  {
    if start.month == end.month {
      FramedSix(MonthNames[start.month], " ", NatToString(start.day), "-", NatToString(end.day), ", ", IntToString(start.year));
    } else {
      FramedSix(MonthNames[start.month], " ", NatToString(start.day), " - " + MonthNames[end.month] + " ",
        NatToString(end.day), ", ", IntToString(start.year));
    }
  }

  /** The day title names the date: two anchors get the same day title exactly when they are the same date. */
  lemma DayTitleIdentifiesDate(a: Date, b: Date)
    ensures GetNavigationTitle(a, Day) == GetNavigationTitle(b, Day) <==> a == b
  {
    if GetNavigationTitle(a, Day) == GetNavigationTitle(b, Day) {
      MonthNameFacts();
      var ra := NatToString(a.day) + ", " + IntToString(a.year);
      var rb := NatToString(b.day) + ", " + IntToString(b.year);
      assert GetNavigationTitle(a, Day) == MonthNames[a.month] + " " + ra;
      assert GetNavigationTitle(b, Day) == MonthNames[b.month] + " " + rb;
      SplitAtSeparator(MonthNames[a.month], ra, MonthNames[b.month], rb, ' ');
      DayAndYear(a.day, a.year, b.day, b.year);
    }
  }

  /** "D, YYYY" determines the day and the year. */
  lemma DayAndYear(da: nat, ya: int, db: nat, yb: int)
    requires NatToString(da) + ", " + IntToString(ya) == NatToString(db) + ", " + IntToString(yb)
    ensures da == db && ya == yb
  {
    DigitsHaveNoSeparators(NatToString(da));
    DigitsHaveNoSeparators(NatToString(db));
    SplitAtComma(NatToString(da), IntToString(ya), NatToString(db), IntToString(yb));
    NatToStringInjective(da, db);
    IntToStringInjective(ya, yb);
  }

  /** The last day of a week is its Sunday plus six days, in the same month or the next one. */
  lemma WeekEnd(d: Date)
    ensures var s := SundayOnOrBefore(d);
      var n := DaysInMonth(s.year, s.month);
      WeekOf(d)[6] == if s.day + 6 <= n then Ymd(s.year, s.month, s.day + 6)
                      else if s.month < 11 then Ymd(s.year, s.month + 1, s.day + 6 - n)
                      else Ymd(s.year + 1, 0, s.day + 6 - n)
  {
    var s := SundayOnOrBefore(d);
    SetDateShift(s, 6);
    if s.day + 6 <= DaysInMonth(s.year, s.month) {
      MakeDateInRange(s.year, s.month, s.day + 6);
    } else {
      MakeDateOverflow(s.year, s.month, s.day + 6);
    }
  }

  /**
   * The week title in terms of the week's Sunday s: "Month D-D+6, YYYY" when
   * the Saturday is in s's month, and otherwise s's month and day, the next
   * month and the Saturday's day, with s's year, even when the Saturday is in
   * the next year.
   */
  lemma WeekTitle(d: Date)
    ensures var s := SundayOnOrBefore(d);
      var n := DaysInMonth(s.year, s.month);
      GetNavigationTitle(d, Week) ==
        if s.day + 6 <= n then
          MonthNames[s.month] + " " + NatToString(s.day) + "-" + NatToString(s.day + 6) + ", " + IntToString(s.year)
        else
          MonthNames[s.month] + " " + NatToString(s.day) + " - " + MonthNames[if s.month < 11 then s.month + 1 else 0] + " "
            + NatToString(s.day + 6 - n) + ", " + IntToString(s.year)
  {
    var s := SundayOnOrBefore(d);
    var w := WeekOf(d);
    assert w[0] == AddDays(s, 0) == s;
    WeekEnd(d);
    var e := w[6];
    var n := DaysInMonth(s.year, s.month);
    if s.day + 6 <= n {
      assert e.month == s.month && e.day == s.day + 6;
    } else {
      assert e.month != s.month;
      assert e.month == (if s.month < 11 then s.month + 1 else 0) && e.day == s.day + 6 - n;
    }
  }

  /**
   * When December 31 is a Wednesday, its week runs from December 28 to
   * January 3 and the title carries the year of the Sunday, not of the
   * Saturday.
   */
  lemma YearEndWeekTitle(y: int)
    requires DayOfWeek(Ymd(y, 11, 31)) == 3
    ensures GetNavigationTitle(Ymd(y, 11, 31), Week) == "December 28 - January 3, " + IntToString(y)
  {
    var d: Date := Ymd(y, 11, 31);
    assert GetNavigationTitle(d, Week) == (MonthNames[11] + " " + NatToString(28) + " - " + MonthNames[0] + " "
      + NatToString(3) + ", ") + IntToString(y) by {
      YearEndSunday(y);
      WeekTitle(d);
    }
    YearEndPrefix();
  }

  lemma YearEndPrefix()
    ensures MonthNames[11] + " " + NatToString(28) + " - " + MonthNames[0] + " " + NatToString(3) + ", "
      == "December 28 - January 3, "
  {
    assert MonthNames[11] == "December" && MonthNames[0] == "January";
    assert NatToString(28) == "28" && NatToString(3) == "3";
  }

  lemma YearEndSunday(y: int)
    requires DayOfWeek(Ymd(y, 11, 31)) == 3
    ensures SundayOnOrBefore(Ymd(y, 11, 31)) == Ymd(y, 11, 28)
  {
    AddDaysByNumber(Ymd(y, 11, 31), -3, Ymd(y, 11, 28));
  }
}
