/** The parts of Python's `datetime` that the application relies on: the
    proleptic Gregorian calendar, date validity, day ordinals (so that
    "date minus one day" has a meaning) and parsing "YYYY-MM-DD" text. */
module Dates {
  import opened Wrappers
  import opened Text

  predicate IsLeap(year: int)
  {
    year % 4 == 0 && (year % 100 != 0 || year % 400 == 0)
  }

  /** Days in `month` of `year`, by the Gregorian rule. */
  function MonthLength(year: int, month: int): nat
    requires 1 <= month <= 12
  {
    if month == 2 then (if IsLeap(year) then 29 else 28)
    else if month == 4 || month == 6 || month == 9 || month == 11 then 30
    else 31
  }

  /** A day of the proleptic Gregorian calendar (year 1 onwards). */
  predicate CalendarDate(year: int, month: int, day: int)
  {
    1 <= year && 1 <= month <= 12 && 1 <= day <= MonthLength(year, month)
  }

  /** A date that `datetime.date` accepts: years 1 to 9999. */
  predicate ValidDate(year: int, month: int, day: int)
  {
    CalendarDate(year, month, day) && year <= 9999
  }

  function DaysBeforeYear(year: int): int
    requires 1 <= year
  {
    var y := year - 1;
    y * 365 + y / 4 - y / 100 + y / 400
  }

  function DaysBeforeMonth(year: int, month: int): int
    requires 1 <= month <= 12
  {
    [0, 31, 59, 90, 120, 151, 181, 212, 243, 273, 304, 334][month - 1]
    + if month > 2 && IsLeap(year) then 1 else 0
  }

  /** `date(year, month, day).toordinal()`: January 1 of year 1 is day 1. */
  function ToOrdinal(year: int, month: int, day: int): int
    requires 1 <= year && 1 <= month <= 12
  {
    DaysBeforeYear(year) + DaysBeforeMonth(year, month) + day
  }

  lemma YearLength(year: int)
    requires 2 <= year
    ensures DaysBeforeYear(year) == DaysBeforeYear(year - 1) + if IsLeap(year - 1) then 366 else 365
  {
    var y := year - 2;
    assert (y + 1) / 4 == y / 4 + (if (y + 1) % 4 == 0 then 1 else 0);
    assert (y + 1) / 100 == y / 100 + (if (y + 1) % 100 == 0 then 1 else 0);
    assert (y + 1) / 400 == y / 400 + (if (y + 1) % 400 == 0 then 1 else 0);
  }

  /** `date - timedelta(days=1)`: the calendar day whose ordinal is one less. */
  function PrevDay(year: int, month: int, day: int): (r: (int, int, int))
    requires CalendarDate(year, month, day) && ToOrdinal(year, month, day) > 1
    ensures CalendarDate(r.0, r.1, r.2)
    ensures ToOrdinal(r.0, r.1, r.2) + 1 == ToOrdinal(year, month, day)
  {
    if day > 1 then (year, month, day - 1)
    else if month > 1 then (year, month - 1, MonthLength(year, month - 1))
    else
      YearLength(year);
      (year - 1, 12, 31)
  }

  /** The first day of the month after `month`, rolling December over into
      January of the next year. */
  function NextMonthStart(year: int, month: int): (r: (int, int, int))
    requires 1 <= year && 1 <= month <= 12
    ensures CalendarDate(r.0, r.1, r.2) && r.2 == 1
  {
    if month < 12 then (year, month + 1, 1) else (year + 1, 1, 1)
  }

  /** The day of the month of "the first of the next month, minus one day",
      with the December rollover: the last day of `month`. */
  function LastDayOfMonth(year: int, month: int): (r: nat)
    requires 1 <= year && 1 <= month <= 12
    ensures CalendarDate(year, month, r) && !CalendarDate(year, month, r + 1)
    ensures var n := NextMonthStart(year, month); ToOrdinal(year, month, r) + 1 == ToOrdinal(n.0, n.1, n.2)
  {
    var n := NextMonthStart(year, month);
    PrevDay(n.0, n.1, n.2).2
  }

  /** The month lengths by the Gregorian rule, for every month including
      December. */
  lemma LastDayRule(year: int, month: int)
    requires 1 <= year && 1 <= month <= 12
    ensures month == 2 && IsLeap(year) ==> LastDayOfMonth(year, month) == 29
    ensures month == 2 && !IsLeap(year) ==> LastDayOfMonth(year, month) == 28
    ensures month in {4, 6, 9, 11} ==> LastDayOfMonth(year, month) == 30
    ensures month in {1, 3, 5, 7, 8, 10, 12} ==> LastDayOfMonth(year, month) == 31
  {
  }

  /** `datetime.strptime(s, "%Y-%m-%d")` for zero-padded text: four digits,
      '-', two digits, '-', two digits, naming a valid date; anything else
      raises ValueError, modelled as None. */
  function ParseIsoDate(s: string): (r: Option<(int, int, int)>)
    ensures r.Some? ==> ValidDate(r.value.0, r.value.1, r.value.2)
  {
    if |s| == 10 && s[4] == '-' && s[7] == '-'
       && AllDigits(s[..4]) && AllDigits(s[5..7]) && AllDigits(s[8..])
    then
      var year, month, day := DigitsValue(s[..4]), DigitsValue(s[5..7]), DigitsValue(s[8..]);
      if ValidDate(year, month, day) then Some((year, month, day)) else None
    else None
  }

  /** `.month` of the parsed date, or None where parsing raises. */
  function DateMonth(s: string): (r: Option<int>)
    ensures r.Some? ==> 1 <= r.value <= 12
  {
    match ParseIsoDate(s)
    case Some(date) => Some(date.1)
    case None => None
  }
}
