/**
 * Local calendar dates as the scheduler's JavaScript `Date` values carry them:
 * a year, a month index 0..11 (0 = January, as `getMonth()` returns it) and a
 * day of the month.  Dates are proleptic Gregorian, with astronomical year
 * numbering, as in JavaScript.  Day arithmetic is counted from 1970-01-01,
 * a Thursday.
 */
module Calendar {
  import opened Strings
  import opened Wrappers

  datatype Ymd = Ymd(year: int, month: int, day: int)

  predicate IsLeapYear(y: int) {
    y % 4 == 0 && (y % 100 != 0 || y % 400 == 0)
  }

  function DaysInMonth(y: int, m: int): (n: int)
    requires 0 <= m < 12
    ensures 28 <= n <= 31
  {
    if m == 1 then (if IsLeapYear(y) then 29 else 28)
    else if m == 3 || m == 5 || m == 8 || m == 10 then 30
    else 31
  }

  predicate IsValid(d: Ymd) {
    0 <= d.month < 12 && 1 <= d.day <= DaysInMonth(d.year, d.month)
  }

  /** A date that exists on the calendar, as every normalised JavaScript `Date` does. */
  type Date = d: Ymd | IsValid(d) witness Ymd(1970, 0, 1)

  function YearLength(y: int): int {
    if IsLeapYear(y) then 366 else 365
  }

  /** The number of days of year y before the first of month m (m == 12 gives the whole year). */
  function DaysBeforeMonth(y: int, m: int): int
    requires 0 <= m <= 12
  {
    [0, 31, 59, 90, 120, 151, 181, 212, 243, 273, 304, 334, 365][m]
      + (if m >= 2 && IsLeapYear(y) then 1 else 0)
  }

  /** The number of leap years among 1..x (for x < 1, minus those among x+1..0). */
  function LeapYearsThrough(x: int): int {
    x / 4 - x / 100 + x / 400
  }

  /** The number of days from 1970-01-01 to the first of January of year y. */
  function DaysBeforeYear(y: int): int {
    365 * (y - 1970) + LeapYearsThrough(y - 1) - LeapYearsThrough(1969)
  }

  /** Days since 1970-01-01 (negative before it). */
  function DayNumber(d: Date): int {
    DaysBeforeYear(d.year) + DaysBeforeMonth(d.year, d.month) + d.day - 1
  }

  /** `getDay()`: 0 = Sunday .. 6 = Saturday. */
  function DayOfWeek(d: Date): (w: int)
    ensures 0 <= w < 7
  {
    (DayNumber(d) + 4) % 7
  }

  function NextDay(d: Date): Date {
    if d.day < DaysInMonth(d.year, d.month) then Ymd(d.year, d.month, d.day + 1)
    else if d.month < 11 then Ymd(d.year, d.month + 1, 1)
    else Ymd(d.year + 1, 0, 1)
  }

  function PrevDay(d: Date): Date {
    if d.day > 1 then Ymd(d.year, d.month, d.day - 1)
    else if d.month > 0 then Ymd(d.year, d.month - 1, DaysInMonth(d.year, d.month - 1))
    else Ymd(d.year - 1, 11, 31)
  }

  /** The date k days after d (before it, for negative k). */
  function AddDays(d: Date, k: int): Date
    decreases if k < 0 then -k else k
  {
    if k == 0 then d
    else if k > 0 then AddDays(NextDay(d), k - 1)
    else AddDays(PrevDay(d), k + 1)
  }

  /**
   * The date JavaScript builds from a year, a month index and a day of the
   * month that may lie outside their ranges (`new Date(y, m, d)`, `setDate`,
   * `setMonth`): the month index is first carried into the year, and the day
   * is then counted from the first of that month, so that day 0 is the last
   * day of the month before and day 32 lies in the month after.  This is the
   * MakeDay operation of the ECMAScript specification.
   */
  function MakeDate(y: int, m: int, d: int): Date {
    AddDays(Ymd(y + m / 12, m % 12, 1), d - 1)
  }

  /** MakeFullYear: the date constructor reads a year from 0 to 99 as 1900 + year. */
  function FullYear(y: int): int {
    if 0 <= y <= 99 then 1900 + y else y
  }

  /**
   * `new Date(year, month, day)`: the year passes through FullYear and the
   * result is then normalised as MakeDate does.  `setDate` and `setMonth` do
   * not apply FullYear.
   */
  function NewDate(y: int, m: int, d: int): Date {
    MakeDate(FullYear(y), m, d)
  }

  /** `formatDate`: the date as "YYYY-MM-DD", years outside 0..9999 as "+YYYYYY" or "-YYYYYY". */
  function FormatDate(d: Date): (r: string)
    ensures |r| == |IsoYear(d.year)| + 6 && r[|r| - 6] == '-' && r[|r| - 3] == '-'
    ensures 0 <= d.year <= 9999 ==>
      |r| == 10 && AllDigits(r[..4]) && AllDigits(r[5..7]) && AllDigits(r[8..])
  {
    Pad2Facts(d.month + 1);
    Pad2Facts(d.day);
    IsoYearLength(d.year);
    IsoYear(d.year) + "-" + Pad2(d.month + 1) + "-" + Pad2(d.day)
  }

  function IsoYear(y: int): string {
    if 0 <= y <= 9999 then PadStart(NatToString(y), 4, '0')
    else (if y < 0 then "-" else "+") + PadStart(NatToString(if y < 0 then -y else y), 6, '0')
  }

  /** Reads a "YYYY-MM-DD" string back into a date; None when it is not the rendering of one. */
  function ParseDate(s: string): Option<Date> {
    if |s| < 10 then None else ParseParts(s[..|s| - 6], s[|s| - 6..])
  }

  /** A year field and the six characters "-MM-DD" after it. */
  function ParseParts(ys: string, rest: string): Option<Date>
    requires |rest| == 6
  {
    if rest[0] != '-' || rest[3] != '-' || !AllDigits(rest[1..3]) || !AllDigits(rest[4..]) then None
    else ParseFields(ys, rest[1..3], rest[4..])
  }

  /** The date named by a year field, a month number 1..12 and a day number, when there is one. */
  function ParseFields(ys: string, mm: string, dd: string): Option<Date>
    requires AllDigits(mm) && AllDigits(dd)
  {
    match ParseYear(ys)
    case None => None
    case Some(y) =>
      var d := Ymd(y, DigitsValue(mm) - 1, DigitsValue(dd));
      if IsValid(d) then Some(d) else None
  }

  function ParseYear(ys: string): Option<int> {
    if ys == [] then None
    else if ys[0] == '+' && AllDigits(ys[1..]) then Some(DigitsValue(ys[1..]))
    else if ys[0] == '-' && AllDigits(ys[1..]) then Some(0 - DigitsValue(ys[1..]) as int)
    else if |ys| == 4 && AllDigits(ys) then Some(DigitsValue(ys))
    else None
  }

  // ---------------------------------------------------------------------
  // Month and year lengths, leap years

  lemma DaysBeforeMonthStep(y: int, m: int)
    requires 0 <= m < 12
    ensures DaysBeforeMonth(y, m + 1) == DaysBeforeMonth(y, m) + DaysInMonth(y, m)
  {
  }

  /** February has 29 days exactly in leap years, and the twelve months add up to the year. */
  lemma MonthLengths(y: int)
    ensures DaysInMonth(y, 1) == 29 <==> IsLeapYear(y)
    ensures DaysBeforeMonth(y, 12) == YearLength(y)
  {
  }

  lemma DivStep(x: int, k: int)
    requires k > 0
    ensures x / k - (x - 1) / k == (if x % k == 0 then 1 else 0)
  {
    var q, r := (x - 1) / k, (x - 1) % k;
    assert x == k * q + r + 1;
    if r + 1 == k {
      assert x == k * (q + 1);
      DivUnique(x, k, q + 1, 0);
    } else {
      DivUnique(x, k, q, r + 1);
    }
  }

  lemma DivUnique(x: int, k: int, q: int, r: int)
    requires k > 0 && 0 <= r < k && x == k * q + r
    ensures x / k == q && x % k == r
  {
    var q', r' := x / k, x % k;
    assert k * (q' - q) == r - r';
    MulBetween(k, q' - q);
  }

  lemma MulBetween(k: int, t: int)
    requires k > 0 && -k < k * t < k
    ensures t == 0
  {
  }

  lemma LeapYearsStep(y: int)
    ensures LeapYearsThrough(y) - LeapYearsThrough(y - 1) == (if IsLeapYear(y) then 1 else 0)
  {
    DivStep(y, 4);
    DivStep(y, 100);
    DivStep(y, 400);
    if y % 400 == 0 {
      DivUnique(y, 100, 4 * (y / 400), 0);
    }
    if y % 100 == 0 {
      DivUnique(y, 4, 25 * (y / 100), 0);
    }
  }

  /** Consecutive years are one year length apart. */
  lemma DaysBeforeYearStep(y: int)
    ensures DaysBeforeYear(y + 1) == DaysBeforeYear(y) + YearLength(y)
  {
    LeapYearsStep(y);
  }

  lemma {:induction false} DaysBeforeYearMonotonic(a: int, b: int)
    requires a < b
    ensures DaysBeforeYear(a + 1) <= DaysBeforeYear(b)
    decreases b - a
  {
    if a + 1 < b {
      DaysBeforeYearMonotonic(a, b - 1);
      DaysBeforeYearStep(b - 1);
    }
  }

  // ---------------------------------------------------------------------
  // Day numbers

  lemma DayNumberWithinYear(d: Date)
    ensures DaysBeforeYear(d.year) <= DayNumber(d) < DaysBeforeYear(d.year + 1)
  {
    DaysBeforeYearStep(d.year);
    DaysBeforeMonthStep(d.year, d.month);
  }

  /** Different dates have different day numbers. */
  lemma DayNumberInjective(a: Date, b: Date)
    requires DayNumber(a) == DayNumber(b)
    ensures a == b
  {
    DayNumberWithinYear(a);
    DayNumberWithinYear(b);
    if a.year < b.year {
      DaysBeforeYearMonotonic(a.year, b.year);
    } else if b.year < a.year {
      DaysBeforeYearMonotonic(b.year, a.year);
    } else {
      DaysBeforeMonthStep(a.year, a.month);
      DaysBeforeMonthStep(b.year, b.month);
    }
  }

  lemma NextDayNumber(d: Date)
    ensures DayNumber(NextDay(d)) == DayNumber(d) + 1
  {
    DaysBeforeMonthStep(d.year, d.month);
    if d.month == 11 {
      DaysBeforeYearStep(d.year);
    }
  }

  lemma PrevDayNumber(d: Date)
    ensures DayNumber(PrevDay(d)) == DayNumber(d) - 1
  {
    if d.month > 0 {
      DaysBeforeMonthStep(d.year, d.month - 1);
    } else {
      DaysBeforeYearStep(d.year - 1);
    }
  }

  /** Adding k days moves the day number by exactly k. */
  lemma {:induction false} AddDaysNumber(d: Date, k: int)
    ensures DayNumber(AddDays(d, k)) == DayNumber(d) + k
    decreases if k < 0 then -k else k
  {
    if k > 0 {
      NextDayNumber(d);
      AddDaysNumber(NextDay(d), k - 1);
    } else if k < 0 {
      PrevDayNumber(d);
      AddDaysNumber(PrevDay(d), k + 1);
    }
  }

  /** The date with a given day number h days away from d is AddDays(d, h). */
  lemma AddDaysByNumber(d: Date, k: int, e: Date)
    requires DayNumber(e) == DayNumber(d) + k
    ensures AddDays(d, k) == e
  {
    AddDaysNumber(d, k);
    DayNumberInjective(AddDays(d, k), e);
  }

  lemma AddDaysAdd(d: Date, a: int, b: int)
    ensures AddDays(AddDays(d, a), b) == AddDays(d, a + b)
  {
    AddDaysNumber(d, a);
    AddDaysNumber(AddDays(d, a), b);
    AddDaysByNumber(d, a + b, AddDays(AddDays(d, a), b));
  }

  /** Going k days forward and then k days back returns to the starting date. */
  lemma AddDaysInverse(d: Date, k: int)
    ensures AddDays(AddDays(d, k), -k) == d
  {
    AddDaysAdd(d, k, -k);
  }

  lemma AddDaysOne(d: Date)
    ensures AddDays(d, 1) == NextDay(d) && AddDays(d, -1) == PrevDay(d)
  {
  }

  /** Each day is one weekday later than the day before it, wrapping from Saturday to Sunday. */
  lemma DayOfWeekAddDays(d: Date, k: int)
    ensures DayOfWeek(AddDays(d, k)) == (DayOfWeek(d) + k) % 7
  {
    AddDaysNumber(d, k);
    var n := DayNumber(d) + 4;
    assert DayOfWeek(AddDays(d, k)) == (n + k) % 7;
    DivUnique(n, 7, n / 7, n % 7);
    DivUnique(n + k, 7, (n + k) / 7, (n + k) % 7);
    DivUnique(n % 7 + k, 7, (n % 7 + k) / 7, (n % 7 + k) % 7);
    ModShift(n, k);
  }

  lemma ModShift(n: int, k: int)
    ensures (n + k) % 7 == (n % 7 + k) % 7
  {
    var q := n / 7;
    assert n == 7 * q + n % 7;
    var m := n % 7 + k;
    var q2, r2 := m / 7, m % 7;
    assert m == 7 * q2 + r2;
    DivUnique(n + k, 7, q + q2, r2);
  }

  // ---------------------------------------------------------------------
  // JavaScript date normalisation

  /** In-range arguments are taken as they are: `new Date(y, m, d)` is the date (y, m, d). */
  lemma MakeDateInRange(y: int, m: int, d: int)
    requires 0 <= m < 12 && 1 <= d <= DaysInMonth(y, m)
    ensures MakeDate(y, m, d) == Ymd(y, m, d)
  {
    DivUnique(m, 12, 0, m);
    var first: Date := Ymd(y, m, 1);
    AddDaysByNumber(first, d - 1, Ymd(y, m, d));
  }

  /** `new Date(y, m, d)` for a day that exists in month m of FullYear(y) is that date, in year FullYear(y). */
  lemma NewDateInRange(y: int, m: int, d: int)
    requires 0 <= m < 12 && 1 <= d <= DaysInMonth(FullYear(y), m)
    ensures NewDate(y, m, d) == Ymd(FullYear(y), m, d)
  {
    MakeDateInRange(FullYear(y), m, d);
  }

  /** `new Date(y, m + 1, 0)` is the last day of month m of FullYear(y). */
  lemma NewDateDayZero(y: int, m: int)
    requires 0 <= m < 12
    ensures NewDate(y, m + 1, 0) == Ymd(FullYear(y), m, DaysInMonth(FullYear(y), m))
  {
    MakeDateDayZero(FullYear(y), m);
  }

  /**
   * The constructor and `setDate` part ways on two-digit years: in year 0,
   * `new Date(0, 1, 1)` is 1 February 1900, a Thursday in a 28-day month,
   * while day 1 of February of year 0 itself is a Tuesday in a 29-day month.
   */
  lemma TwoDigitYear()
    ensures NewDate(0, 1, 1) == Ymd(1900, 1, 1) && MakeDate(0, 1, 1) == Ymd(0, 1, 1)
    ensures DayOfWeek(Ymd(1900, 1, 1)) == 4 && DaysInMonth(1900, 1) == 28
    ensures DayOfWeek(Ymd(0, 1, 1)) == 2 && DaysInMonth(0, 1) == 29
  {
    assert FullYear(0) == 1900;
    NewDateInRange(0, 1, 1);
    MakeDateInRange(0, 1, 1);
    YearZeroFebruary();
    NineteenHundredFebruary();
  }

  /** 1 February 1900 was a Thursday, in a common year (1900 is not a multiple of 400). */
  lemma NineteenHundredFebruary()
    ensures DayOfWeek(Ymd(1900, 1, 1)) == 4 && DaysInMonth(1900, 1) == 28
  {
    assert !IsLeapYear(1900) by {
      DivUnique(1900, 4, 475, 0);
      DivUnique(1900, 100, 19, 0);
      DivUnique(1900, 400, 4, 300);
    }
    assert LeapYearsThrough(1899) == 460 by {
      DivUnique(1899, 4, 474, 3);
      DivUnique(1899, 100, 18, 99);
      DivUnique(1899, 400, 4, 299);
    }
    assert LeapYearsThrough(1969) == 477 by {
      DivUnique(1969, 4, 492, 1);
      DivUnique(1969, 100, 19, 69);
      DivUnique(1969, 400, 4, 369);
    }
    assert DayNumber(Ymd(1900, 1, 1)) == -25536;
    DivUnique(-25536 + 4, 7, -3648, 4);
  }

  /** 1 February of year 0 (1 BC) was a Tuesday, in a leap year. */
  lemma YearZeroFebruary()
    ensures DayOfWeek(Ymd(0, 1, 1)) == 2 && DaysInMonth(0, 1) == 29
  {
    assert LeapYearsThrough(-1) == -1 by {
      DivUnique(-1, 4, -1, 3);
      DivUnique(-1, 100, -1, 99);
      DivUnique(-1, 400, -1, 399);
    }
    assert DayNumber(Ymd(0, 1, 1)) == -719497;
    DivUnique(-719497 + 4, 7, -102785, 2);
  }

  /** `setDate(getDate() + k)` moves a date by exactly k days, across month and year ends. */
  lemma SetDateShift(d: Date, k: int)
    ensures MakeDate(d.year, d.month, d.day + k) == AddDays(d, k)
  {
    var first: Date := Ymd(d.year, d.month, 1);
    assert MakeDate(d.year, d.month, d.day + k) == AddDays(first, d.day - 1 + k) by {
      DivUnique(d.month, 12, 0, d.month);
    }
    assert AddDays(first, d.day - 1) == d by {
      AddDaysByNumber(first, d.day - 1, d);
    }
    AddDaysAdd(first, d.day - 1, k);
  }

  /** Day 0 of the month after m is the last day of month m: how the source finds a month's length. */
  lemma MakeDateDayZero(y: int, m: int)
    requires 0 <= m < 12
    ensures MakeDate(y, m + 1, 0) == Ymd(y, m, DaysInMonth(y, m))
  {
    if m < 11 {
      DivUnique(m + 1, 12, 0, m + 1);
    } else {
      DivUnique(m + 1, 12, 1, 0);
    }
    AddDaysOne(Ymd(y + (m + 1) / 12, (m + 1) % 12, 1));
  }

  /**
   * `setMonth(m)` keeps the day of the month and lets it overflow: when the
   * target month is long enough the date is (y', m', day); otherwise the
   * surplus days spill into the month after the target.
   */
  lemma MakeDateOverflow(y: int, m: int, d: int)
    requires 0 <= m < 12 && DaysInMonth(y, m) < d <= DaysInMonth(y, m) + 28
    ensures MakeDate(y, m, d) == (if m < 11 then Ymd(y, m + 1, d - DaysInMonth(y, m))
                                  else Ymd(y + 1, 0, d - DaysInMonth(y, m)))
  {
    DivUnique(m, 12, 0, m);
    var first: Date := Ymd(y, m, 1);
    var e: Date := if m < 11 then Ymd(y, m + 1, d - DaysInMonth(y, m)) else Ymd(y + 1, 0, d - DaysInMonth(y, m));
    DaysBeforeMonthStep(y, m);
    if m == 11 {
      DaysBeforeYearStep(y);
    }
    AddDaysByNumber(first, d - 1, e);
  }

  /** The month index is carried into the year: month 12 is January of the next year, month -1 December of the one before. */
  lemma MakeDateMonthCarry(y: int, m: int, d: int)
    ensures MakeDate(y, m, d) == MakeDate(y + m / 12, m % 12, d)
  {
    DivUnique(m % 12, 12, 0, m % 12);
  }

  // ---------------------------------------------------------------------
  // Date strings

  lemma IsoYearLength(y: int)
    ensures 0 <= y <= 9999 ==> |IsoYear(y)| == 4 && AllDigits(IsoYear(y))
  {
    if 0 <= y <= 9999 {
      NatToStringLength(y, 4);
      DigitsValueOfPadded(y, 4);
    }
  }

  lemma ParseYearIsoYear(y: int)
    ensures ParseYear(IsoYear(y)) == Some(y)
  {
    var a := if y < 0 then -y else y;
    DigitsValueOfPadded(a, if 0 <= y <= 9999 then 4 else 6);
    if 0 <= y <= 9999 {
      IsoYearLength(y);
      assert IsoYear(y)[0] != '+' && IsoYear(y)[0] != '-' by {
        assert IsDigit(IsoYear(y)[0]);
      }
    } else {
      var p := PadStart(NatToString(a), 6, '0');
      assert IsoYear(y)[1..] == p;
    }
  }

  /** How `ParseDate` reads a string assembled from a year, two month digits and two day digits. */
  lemma ParseDateOf(ys: string, mm: string, dd: string)
    requires |ys| >= 4 && |mm| == 2 && |dd| == 2
    ensures ParseDate(ys + "-" + mm + "-" + dd) == ParseParts(ys, "-" + mm + "-" + dd)
  {
    SplitDateString(ys, mm, dd);
  }

  lemma ParsePartsOf(ys: string, mm: string, dd: string)
    requires |mm| == 2 && |dd| == 2 && AllDigits(mm) && AllDigits(dd)
    ensures ParseParts(ys, "-" + mm + "-" + dd) == ParseFields(ys, mm, dd)
  {
    DateTail(mm, dd);
  }

  lemma SplitDateString(ys: string, mm: string, dd: string)
    requires |mm| == 2 && |dd| == 2
    ensures var s := ys + "-" + mm + "-" + dd;
      |s| == |ys| + 6 && s[..|s| - 6] == ys && s[|s| - 6..] == "-" + mm + "-" + dd
  {
    var s := ys + "-" + mm + "-" + dd;
    assert s == ys + ("-" + mm + "-" + dd);
  }

  lemma DateTail(mm: string, dd: string)
    requires |mm| == 2 && |dd| == 2
    ensures var r := "-" + mm + "-" + dd;
      |r| == 6 && r[0] == '-' && r[3] == '-' && r[1..3] == mm && r[4..] == dd
  {
  }

  /** Reading a formatted date back gives the date: `formatDate` loses nothing. */
  lemma ParseFormatDate(d: Date)
    ensures ParseDate(FormatDate(d)) == Some(d)
  {
    var ys := IsoYear(d.year);
    var mm, dd := Pad2(d.month + 1), Pad2(d.day);
    Pad2Facts(d.month + 1);
    Pad2Facts(d.day);
    assert |ys| >= 4 by {
      IsoYearLength(d.year);
    }
    ParseDateOf(ys, mm, dd);
    ParsePartsOf(ys, mm, dd);
    ParseYearIsoYear(d.year);
    assert ParseFields(ys, mm, dd) == Some(d);
    assert FormatDate(d) == ys + "-" + mm + "-" + dd;
  }

  /** Different dates format to different strings. */
  lemma FormatDateInjective(a: Date, b: Date)
    requires FormatDate(a) == FormatDate(b)
    ensures a == b
  {
    ParseFormatDate(a);
    ParseFormatDate(b);
  }
}
