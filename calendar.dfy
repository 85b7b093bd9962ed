/** `draw_calendar`: the number of days in a month, worked out as "the first
    of the next month minus one day", and one text line per day naming the
    catalog events held that day. */
module Calendar {
  import opened Wrappers
  import opened Text
  import opened Dates
  import opened Catalog
  import Filter

  /** `datetime.date` refuses a year, month and day that name no date
      (ValueError). */
  datatype CalendarError = InvalidDate(year: int, month: int, day: int)

  /** `(datetime.date(year, month + 1, 1) - datetime.timedelta(days=1)).day`,
      exactly as written: the month is increased without a rollover, so
      December asks for month 13 and fails. */
  function DaysInMonth(year: int, month: int): (r: Result<nat, CalendarError>)
    requires ValidDate(year, month, 1)
    ensures r.Ok? <==> month <= 11
    ensures r.Ok? ==> r.value == LastDayOfMonth(year, month)
    ensures r.Err? ==> r.error == InvalidDate(year, 13, 1)
  {
    var next := month + 1;
    if !ValidDate(year, next, 1) then Err(InvalidDate(year, next, 1))
    else Ok(PrevDay(year, next, 1).2)
  }

  /** The as-written computation fails on every December date. */
  lemma DecemberFails(year: int)
    requires 1 <= year <= 9999
    ensures DaysInMonth(year, 12) == Err(InvalidDate(year, 13, 1))
    ensures LastDayOfMonth(year, 12) == 31
  {
  }

  /** `f"{year}-{str(month).zfill(2)}-{str(day).zfill(2)}"`. */
  function DayString(year: nat, month: nat, day: nat): string
  {
    NatToString(year) + "-" + ZFill(NatToString(month), 2) + "-" + ZFill(NatToString(day), 2)
  }

  /** `[m["name"] for m in catalog if m["date"] == dayStr]`: the names of the
      events held on that day, in catalog order. */
  function NamesOn(catalog: seq<Marathon>, dayStr: string): (names: seq<string>)
    ensures |names| <= |catalog|
  {
    if catalog == [] then []
    else
      var rest := NamesOn(catalog[1..], dayStr);
      if catalog[0].date == dayStr then [catalog[0].name] + rest else rest
  }

  /** A name is listed exactly when some event of that name is held that day. */
  lemma {:induction false} NamesOnMembers(catalog: seq<Marathon>, dayStr: string)
    ensures forall n :: n in NamesOn(catalog, dayStr) <==>
      exists e :: e in catalog && e.date == dayStr && e.name == n
  {
    if catalog != [] {
      NamesOnMembers(catalog[1..], dayStr);
      assert forall e :: e in catalog <==> e == catalog[0] || e in catalog[1..];
    }
  }

  /** No event held that day: no names. */
  lemma {:induction false} NamesOnNone(catalog: seq<Marathon>, dayStr: string)
    requires forall j | 0 <= j < |catalog| :: catalog[j].date != dayStr
    ensures NamesOn(catalog, dayStr) == []
    decreases |catalog|
  {
    if catalog != [] {
      assert forall j | 0 <= j < |catalog| - 1 :: catalog[1..][j] == catalog[j + 1];
      NamesOnNone(catalog[1..], dayStr);
    }
  }

  /** Exactly one event held that day: its name alone. */
  lemma {:induction false} NamesOnSingle(catalog: seq<Marathon>, dayStr: string, k: nat)
    requires k < |catalog| && catalog[k].date == dayStr
    requires forall j | 0 <= j < |catalog| && j != k :: catalog[j].date != dayStr
    ensures NamesOn(catalog, dayStr) == [catalog[k].name]
    decreases |catalog|
  {
    assert forall j | 0 <= j < |catalog| - 1 :: catalog[1..][j] == catalog[j + 1];
    if k == 0 {
      NamesOnNone(catalog[1..], dayStr);
    } else {
      NamesOnSingle(catalog[1..], dayStr, k - 1);
    }
  }

  /** The names of two stretches of the catalog come out one after the
      other: earlier events are listed first. */
  lemma {:induction false} NamesOnAppend(c1: seq<Marathon>, c2: seq<Marathon>, dayStr: string)
    ensures NamesOn(c1 + c2, dayStr) == NamesOn(c1, dayStr) + NamesOn(c2, dayStr)
    decreases |c1|
  {
    if c1 == [] {
      assert c1 + c2 == c2;
    } else {
      NamesOnAppend(c1[1..], c2, dayStr);
      assert (c1 + c2)[1..] == c1[1..] + c2;
    }
  }

  /** The comprehension walks the catalog in order and appends the name of
      each event held that day, once per event. */
  lemma NamesOnInOrder(catalog: seq<Marathon>, dayStr: string)
    requires catalog != []
    ensures var init, last := catalog[..|catalog| - 1], catalog[|catalog| - 1];
      NamesOn(catalog, dayStr) == NamesOn(init, dayStr) + if last.date == dayStr then [last.name] else []
  {
    var init, last := catalog[..|catalog| - 1], catalog[|catalog| - 1];
    NamesOnAppend(init, [last], dayStr);
    assert catalog == init + [last];
  }

  /** The grid line for `day`: the day number, followed by ": " and the
      names joined with ", " when at least one event is held that day. */
  function GridLine(catalog: seq<Marathon>, year: nat, month: nat, day: nat): string
  {
    var names := NamesOn(catalog, DayString(year, month, day));
    if names != [] then NatToString(day) + ": " + Join(names, ", ") else NatToString(day)
  }

  /** The lines of `draw_calendar(date)` for the date's year and month (the
      day of `date` plays no part), or the error the month length raises. */
  method DrawCalendar(year: int, month: int) returns (r: Result<seq<string>, CalendarError>)
    requires ValidDate(year, month, 1)
    ensures r.Err? <==> month == 12
    ensures r.Err? ==> r.error == InvalidDate(year, 13, 1)
    ensures r.Ok? ==> |r.value| == LastDayOfMonth(year, month)
    ensures r.Ok? ==> forall i | 0 <= i < |r.value| :: r.value[i] == GridLine(Marathons, year, month, i + 1)
  {
    var daysInMonth := DaysInMonth(year, month);
    if daysInMonth.Err? {
      return Err(daysInMonth.error);
    }
    var monthGrid := [];
    for day := 1 to daysInMonth.value + 1
      invariant |monthGrid| == day - 1
      invariant forall i | 0 <= i < |monthGrid| :: monthGrid[i] == GridLine(Marathons, year, month, i + 1)
    {
      var dayStr := DayString(year, month, day);
      var marathonsOnDay := NamesOn(Marathons, dayStr);
      var line := if marathonsOnDay != [] then NatToString(day) + ": " + Join(marathonsOnDay, ", ")
                  else NatToString(day);
      monthGrid := monthGrid + [line];
    }
    return Ok(monthGrid);
  }

  /** A line starts with its day number, and is nothing more exactly when
      no catalog event is held that day. */
  lemma GridLineShape(catalog: seq<Marathon>, year: nat, month: nat, day: nat)
    ensures var line, d := GridLine(catalog, year, month, day), NatToString(day);
      |d| <= |line| && line[..|d|] == d
    ensures (GridLine(catalog, year, month, day) == NatToString(day)) <==>
      forall e | e in catalog :: e.date != DayString(year, month, day)
  {
    var names := NamesOn(catalog, DayString(year, month, day));
    var d := NatToString(day);
    NamesOnMembers(catalog, DayString(year, month, day));
    if names != [] {
      var line := d + ": " + Join(names, ", ");
      assert line[..|d|] == d;
      assert |line| > |d|;
      assert names[0] in names;
    } else {
      assert d[..|d|] == d;
      forall e | e in catalog ensures e.date != DayString(year, month, day) {
        assert e.name !in names;
      }
    }
  }

  /** Each event held on a day is named on that day's line. */
  lemma GridLineNamesEvent(catalog: seq<Marathon>, year: nat, month: nat, day: nat, e: Marathon)
    requires e in catalog && e.date == DayString(year, month, day)
    ensures Contains(GridLine(catalog, year, month, day), e.name)
  {
    var names := NamesOn(catalog, DayString(year, month, day));
    assert e.name in names by {
      NamesOnMembers(catalog, DayString(year, month, day));
    }
    var k :| 0 <= k < |names| && names[k] == e.name;
    JoinContainsParts(names, ", ", k);
    ContainsAfter(NatToString(day) + ": ", Join(names, ", "), e.name);
  }

  /** `str(n)` of a day or month (1 to 99) padded to two characters. */
  lemma TwoDigits(n: nat)
    requires n < 100
    ensures |ZFill(NatToString(n), 2)| == 2
    ensures AllDigits(ZFill(NatToString(n), 2)) && DigitsValue(ZFill(NatToString(n), 2)) == n
  {
    NatToStringLength(n, 2);
    assert Pow10(2) == 100;
    ZFillValue(NatToString(n), 2);
  }

  /** Reading the day string back with `strptime` gives the day it was
      written for, for four-digit years. */
  lemma DayStringParses(year: nat, month: nat, day: nat)
    requires ValidDate(year, month, day) && 1000 <= year
    ensures ParseIsoDate(DayString(year, month, day)) == Some((year, month, day))
  {
    var y, m, d := NatToString(year), ZFill(NatToString(month), 2), ZFill(NatToString(day), 2);
    NatToStringLength(year, 4);
    NatToStringLength(year, 3);
    assert Pow10(4) == 10000 && Pow10(3) == 1000;
    TwoDigits(month);
    TwoDigits(day);
    var s := DayString(year, month, day);
    assert s == y + "-" + m + "-" + d;
    assert s[..4] == y && s[5..7] == m && s[8..] == d;
  }

  /** Different days of one month have different day strings, so an event
      is listed on at most one line. */
  lemma DayStringInjective(year: nat, month: nat, day1: nat, day2: nat)
    requires ValidDate(year, month, day1) && ValidDate(year, month, day2)
    requires DayString(year, month, day1) == DayString(year, month, day2)
    ensures day1 == day2
  {
    var s1, s2 := DayString(year, month, day1), DayString(year, month, day2);
    var d1, d2 := ZFill(NatToString(day1), 2), ZFill(NatToString(day2), 2);
    TwoDigits(day1);
    TwoDigits(day2);
    assert s1[|s1| - 2..] == d1;
    assert s2[|s2| - 2..] == d2;
  }

  /** An event the calendar shows in a month passes the filter's month test
      for that month's selector value `str(month)`. */
  lemma CalendarAgreesWithFilter(e: Marathon, year: nat, month: nat, day: nat)
    requires ValidDate(year, month, day) && 1000 <= year
    requires e.date == DayString(year, month, day)
    ensures Filter.MonthHit(e, NatToString(month))
  {
    DayStringParses(year, month, day);
    ParseIntOfPadded(month, 0);
  }
}
