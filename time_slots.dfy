/**
 * The day's time grid: the 48 half-hour labels "00:00" .. "23:30", the
 * 24-hour "HH:MM" strings events carry, and their 12-hour rendering.
 */
module TimeSlots {
  import opened Strings
  import opened Wrappers

  /** The zero-padded 24-hour time "HH:MM". */
  function Hhmm(h: nat, m: nat): string {
    Pad2(h) + ":" + Pad2(m)
  }

  /** The i-th half-hour label of the day. */
  function SlotLabel(i: nat): string
    requires i < 48
  {
    Hhmm(i / 2, 30 * (i % 2))
  }

  /** `getTimeSlots`: every hour 0..23 at minutes 00 and 30, in that order. */
  method GetTimeSlots() returns (slots: seq<string>)
    ensures |slots| == 48
    ensures forall i :: 0 <= i < 48 ==> slots[i] == SlotLabel(i)
  {
    slots := [];
    var hour := 0;
    while hour < 24
      invariant 0 <= hour <= 24
      invariant |slots| == 2 * hour
      invariant forall i :: 0 <= i < |slots| ==> slots[i] == SlotLabel(i)
    {
      var minute := 0;
      while minute < 60
        invariant minute == 0 || minute == 30 || minute == 60
        invariant |slots| == 2 * hour + minute / 30
        invariant forall i :: 0 <= i < |slots| ==> slots[i] == SlotLabel(i)
      {
        var timeStr := Pad2(hour) + ":" + Pad2(minute);
        assert timeStr == SlotLabel(|slots|);
        slots := slots + [timeStr];
        minute := minute + 30;
      }
      hour := hour + 1;
    }
  }

  /**
   * `formatTime`: "H:MM AM" / "H:MM PM".  The text before the first ':' is
   * read as by `parseInt` (its leading digits; NaN when there are none) and
   * the text between the first and second ':' is kept as the minutes
   * ("undefined" when there is no ':').  Hour 0 and 12 show as 12.
   */
  function FormatTime(timeStr: string): (r: string)
    ensures |r| >= 3 && (r[|r| - 3..] == " AM" || r[|r| - 3..] == " PM")
    ensures var hour := ParseIntPrefix(timeStr[..IndexOf(timeStr, ':')]);
      r[|r| - 3..] == " PM" <==> hour.Some? && hour.value >= 12
  {
    var colon := IndexOf(timeStr, ':');
    var hours := timeStr[..colon];
    var minutes :=
      if colon == |timeStr| then "undefined"
      else var rest := timeStr[colon + 1..]; rest[..IndexOf(rest, ':')];
    match ParseIntPrefix(hours)
    case None =>
      var r := "12:" + minutes + " AM";
      assert r[|r| - 3..] == " AM" && " AM"[1] != " PM"[1];
      r
    case Some(hour) =>
      var displayHour := if hour % 12 == 0 then 12 else hour % 12;
      var ampm := if hour >= 12 then "PM" else "AM";
      var r := NatToString(displayHour) + ":" + minutes + " " + ampm;
      assert r[|r| - 3..] == " " + ampm && " AM"[1] != " PM"[1];
      r
  }

  /** Reads a 12-hour "H:MM AM" / "H:MM PM" string back into a 24-hour (hour, minute) pair. */
  function ParseTime12(s: string): Option<(nat, nat)> {
    var colon := IndexOf(s, ':');
    if colon == 0 || colon + 6 != |s| then None
    else Clock12Fields(s[..colon], s[colon + 1..colon + 3], s[colon + 3..])
  }

  /** The hour digits, the two minute digits and " AM" / " PM" of a 12-hour time. */
  function Clock12Fields(hs: string, ms: string, rest: string): Option<(nat, nat)>
    requires |rest| == 3
  {
    if !AllDigits(hs) || !AllDigits(ms) || rest[0] != ' ' then None
    else
      var display, minute, suffix := DigitsValue(hs), DigitsValue(ms), rest[1..];
      if display < 1 || display > 12 then None
      else if suffix == "AM" then Some((display % 12, minute))
      else if suffix == "PM" then Some((display % 12 + 12, minute))
      else None
  }

  // ---------------------------------------------------------------------
  // Order of time strings

  /** Comparing "HH:MM" strings as JavaScript does compares hours first, then minutes. */
  lemma HhmmOrder(h1: nat, m1: nat, h2: nat, m2: nat)
    requires h1 < 100 && m1 < 100 && h2 < 100 && m2 < 100
    ensures StrLess(Hhmm(h1, m1), Hhmm(h2, m2)) <==> h1 < h2 || (h1 == h2 && m1 < m2)
  {
    Pad2Facts(h1);
    Pad2Facts(h2);
    Pad2Order(h1, h2);
    Pad2Order(m1, m2);
    StrLessConcat(Pad2(h1), Pad2(h2), ":", ":");
    StrLessIrreflexive(":");
    StrLessConcat(Pad2(h1) + ":", Pad2(h2) + ":", Pad2(m1), Pad2(m2));
    assert Pad2(h1) + ":" == Pad2(h2) + ":" <==> h1 == h2 by {
      if Pad2(h1) + ":" == Pad2(h2) + ":" {
        assert Pad2(h1) == (Pad2(h1) + ":")[..2];
        assert Pad2(h2) == (Pad2(h2) + ":")[..2];
      }
    }
  }

  /**
   * For well-formed times, string order is the order of minutes since
   * midnight, at every boundary from 00:00 to 23:59: comparing the strings
   * is as good as comparing the times.
   */
  lemma TimeOrderIsMinuteOrder(h1: nat, m1: nat, h2: nat, m2: nat)
    requires h1 < 24 && m1 < 60 && h2 < 24 && m2 < 60
    ensures StrLess(Hhmm(h1, m1), Hhmm(h2, m2)) <==> 60 * h1 + m1 < 60 * h2 + m2
  {
    HhmmOrder(h1, m1, h2, m2);
  }

  /** The labels are strictly increasing in JavaScript's string order. */
  lemma SlotsStrictlyIncreasing()
    ensures forall i, j :: 0 <= i < j < 48 ==> StrLess(SlotLabel(i), SlotLabel(j))
  {
    forall i, j | 0 <= i < j < 48
      ensures StrLess(SlotLabel(i), SlotLabel(j))
    {
      HhmmOrder(i / 2, 30 * (i % 2), j / 2, 30 * (j % 2));
    }
  }

  // ---------------------------------------------------------------------
  // 12-hour rendering

  /** The hour a 12-hour clock shows for a 24-hour hour: 0 and 12 show as 12. */
  function DisplayHour(h: nat): nat {
    if h % 12 == 0 then 12 else h % 12
  }

  /** "h:MM AM" or "h:MM PM" for the 24-hour time h:m. */
  function Clock12(h: nat, m: nat): string {
    NatToString(DisplayHour(h)) + ":" + Pad2(m) + " " + (if h >= 12 then "PM" else "AM")
  }

  /** For "HH:MM", `formatTime` shows the 12-hour hour, the minutes as given, and AM below 12 and PM from 12. */
  lemma FormatTimeOfHhmm(h: nat, m: nat)
    requires h < 24 && m < 60
    ensures FormatTime(Hhmm(h, m)) == Clock12(h, m)
  {
    var s := Hhmm(h, m);
    Pad2Facts(h);
    Pad2Facts(m);
    assert s == Pad2(h) + (":" + Pad2(m));
    IndexOfConcat(Pad2(h), ":" + Pad2(m), ':');
    assert IndexOf(s, ':') == 2;
    assert s[..2] == Pad2(h);
    assert s[3..] == Pad2(m);
    IndexOfConcat(Pad2(m), [], ':');
    assert Pad2(m) + [] == Pad2(m);
    DigitPrefixOfDigits(Pad2(h), []);
    assert Pad2(h) + [] == Pad2(h);
    assert Pad2(h)[..2] == Pad2(h);
  }

  lemma ParseTime12Of(dh: nat, m: nat, pm: bool)
    requires 1 <= dh <= 12 && m < 100
    ensures ParseTime12(NatToString(dh) + ":" + Pad2(m) + " " + (if pm then "PM" else "AM"))
      == Some((dh % 12 + (if pm then 12 else 0), m))
  {
    var ampm := if pm then "PM" else "AM";
    Pad2Facts(m);
    Clock12Parts(NatToString(dh), Pad2(m), ampm);
    assert ParseTime12(NatToString(dh) + ":" + Pad2(m) + " " + ampm) == Clock12Fields(NatToString(dh), Pad2(m), " " + ampm);
    Clock12FieldsOf(dh, m, pm);
  }

  lemma Clock12FieldsOf(dh: nat, m: nat, pm: bool)
    requires 1 <= dh <= 12 && m < 100
    ensures Clock12Fields(NatToString(dh), Pad2(m), " " + (if pm then "PM" else "AM"))
      == Some((dh % 12 + (if pm then 12 else 0), m))
  {
    Pad2Facts(m);
    DigitsValueOfNatToString(dh);
    assert (" " + (if pm then "PM" else "AM"))[1..] == if pm then "PM" else "AM";
  }

  /** Where the fields of "H:MM AM" sit. */
  lemma Clock12Parts(ds: string, mm: string, ampm: string)
    requires AllDigits(ds) && |mm| == 2 && |ampm| == 2
    ensures var s := ds + ":" + mm + " " + ampm;
      && IndexOf(s, ':') == |ds| && |s| == |ds| + 6
      && s[..|ds|] == ds && s[|ds| + 1..|ds| + 3] == mm && s[|ds| + 3..] == " " + ampm
  {
    var tail := ":" + mm + " " + ampm;
    var s := ds + tail;
    assert ds + ":" + mm + " " + ampm == s;
    assert forall k :: 0 <= k < |ds| ==> ds[k] != ':' by {
      forall k | 0 <= k < |ds| ensures ds[k] != ':' {
        assert IsDigit(ds[k]);
      }
    }
    IndexOfConcat(ds, tail, ':');
  }

  /** Reading a 12-hour rendering back gives the 24-hour time. */
  lemma ParseClock12(h: nat, m: nat)
    requires h < 24 && m < 60
    ensures ParseTime12(Clock12(h, m)) == Some((h, m))
  {
    TwelveHourClock(h);
    ParseTime12Of(DisplayHour(h), m, h >= 12);
  }

  /** The 12-hour rendering loses nothing: reading it back gives the 24-hour time. */
  lemma FormatTimeRoundTrip(h: nat, m: nat)
    requires h < 24 && m < 60
    ensures ParseTime12(FormatTime(Hhmm(h, m))) == Some((h, m))
  {
    FormatTimeOfHhmm(h, m);
    ParseClock12(h, m);
  }

  /** The 12-hour clock shows 1..12, and display hour and AM/PM together give back the 24-hour hour. */
  lemma TwelveHourClock(h: nat)
    requires h < 24
    ensures 1 <= DisplayHour(h) <= 12 && DisplayHour(h) % 12 + (if h >= 12 then 12 else 0) == h
  {
  }
}
