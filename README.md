# Korean marathon schedule: filter, calendar and weather cache

`test2.py` is a Streamlit page listing six Korean marathons. Three pieces of
sequential logic sit between its widgets, and this project models and proves
all three:

- **`filter_marathons`** scans the fixed catalog in order. It keeps an event
  when three tests pass:
  - the lower-cased search term occurs in the lower-cased name or location;
  - no month is chosen, or the month of the event's `YYYY-MM-DD` date is
    `int(month)`;
  - no distance is chosen, or the event's distance is `float(distance)`.

  The tests run left to right with Python's short-circuit `and`/`or`. So
  `int(month)`, `float(distance)` and `strptime` are only evaluated once the
  earlier tests have passed. When one of them raises, the whole call raises.
- **`draw_calendar`** does two things:
  - it computes the length of a month as "the first of the next month minus
    one day";
  - it writes one line per day. The line is the day number, followed by the
    names of the events held that day when there are any.
- **`get_weather`** is a process-wide memo table from location to the fetched
  weather payload:
  - a hit returns the stored value;
  - a successful fetch is stored and returned;
  - a failed fetch returns `None` and stores nothing.

The modules are as follows:

- `Wrappers`: `Option` and `Result`. Python exceptions become `None` or
  `Err`.
- `Text`: the string built-ins the code uses: `lower`, substring `in`,
  `int`, `float`, `str`, `zfill` and `join`.
- `Dates`: the part of `datetime` the code uses:
  - the Gregorian leap rule and month lengths;
  - ordinals, as in `toordinal`;
  - the day before a date;
  - `strptime` with `"%Y-%m-%d"`.
- `Catalog`: the six events.
- `Filter`: `filter_marathons`.
  - `Keep` is the loop's test, evaluated as Python does.
  - `Select` is the scan as a function.
  - `FilterMarathons` is the loop itself, proved equal to `Select`.
- `Calendar`: `draw_calendar`.
  - `DaysInMonth` is the month length exactly as written.
  - `DrawCalendar` is the day loop.
- `Weather`: `get_weather`.
  - `Lookup` is one lookup as a function.
  - `WeatherCache` is the table as a class whose method updates it in place.
    A ghost log records the requests sent.
- `FilterExamples` and `CalendarExamples`: the filter and the calendar worked
  out on the real catalog.

Two facts about the code are worth stating up front:

- The catalog has four 42.195 km events (ids 1 to 4).
- `draw_calendar` raises for December instead of rolling over into January
  (see Findings).

## Model

| member | source | states |
|---|---|---|
| Catalog.CatalogIdsUnique | test2.py:7-14 | the catalog has six events with ids 1 to 6 in order and positive distances, and no event occurs twice |
| Text.NatToString | test2.py:98 | `str(n)` is a non-empty digit string whose value is `n`, with no leading zero unless `n` is 0 |
| Text.NatToStringLength | test2.py:98 | `str(n)` has at most `k` digits exactly when `n < 10^k` |
| Text.ZFillValue | test2.py:98 | `zfill(width)` on digits gives `max(width, len)` characters, all digits, with the same value |
| Text.ParseIntOfPadded | test2.py:40 | `int` reads back `str(n).zfill(w)` as `n` for every width |
| Text.ParseDecimalExtendsParseInt | test2.py:40-41 | wherever `int(s)` succeeds, `float(s)` succeeds with the same value |
| Text.PointIndex | test2.py:41 | the index found is the first '.', or the length when there is none |
| Text.ParseInt | test2.py:40 | `int(s)`: an optional sign and one or more ASCII digits, with their value; any other text is the ValueError |
| Text.ParseDecimal | test2.py:41 | `float(s)`: an optional sign, digits with at most one '.', and at least one digit, with the exact value; any other text is the ValueError |
| Text.Lower | test2.py:39 | `s.lower()` on ASCII: the same length, with each capital letter replaced by its small letter |
| Text.Contains | test2.py:39 | `needle in hay`: the needle is a prefix of the hay or occurs in its tail |
| Text.ZFill | test2.py:98 | `s.zfill(width)` for unsigned digits: zeros are added on the left up to `width` characters |
| Text.Join | test2.py:100 | `sep.join(parts)`: the parts in order with `sep` between neighbours |
| Text.LowerIdentity | test2.py:39 | `lower` leaves text without ASCII capitals unchanged |
| Text.ContainsIff | test2.py:39 | the recursive substring test `needle in hay` holds exactly when the needle occurs at some position |
| Text.ContainsAt | test2.py:39 | a needle found at a position is `in` the hay |
| Text.NotContainsMissing | test2.py:39 | a needle with a character the hay lacks is not `in` it |
| Text.ContainsEmpty | test2.py:39 | the empty string is `in` every string |
| Text.ContainsAfter | test2.py:100 | text written before the hay does not hide a needle |
| Text.JoinContainsParts | test2.py:100 | every part is `in` `sep.join(parts)` |
| Dates.ValidDate | test2.py:94 | `datetime.date(y, m, d)` accepts exactly years 1..9999, months 1..12 and days up to the Gregorian month length; any other argument is the ValueError |
| Dates.ToOrdinal | test2.py:94 | `date.toordinal()`: days in the earlier years, plus days in the earlier months of the year, plus the day |
| Dates.PrevDay | test2.py:94 | `date - timedelta(days=1)` is a calendar date whose ordinal is one less |
| Dates.LastDayOfMonth | test2.py:94 | with the December rollover, the day before the next month's first is a date of the month, its day + 1 is not, and its ordinal is one below the next month's first |
| Dates.LastDayRule | test2.py:94 | that day is 28 or 29 for February by the leap rule, 30 for April, June, September and November, and 31 for the rest, December included |
| Dates.ParseIsoDate | test2.py:40 | `strptime(s, "%Y-%m-%d")` returns only valid dates |
| Dates.DateMonth | test2.py:40 | `.month` of a parsed date lies in 1..12 |
| Filter.SearchHit | test2.py:39 | the lowered search term is `in` the lowered name or the lowered location |
| Filter.MonthHit | test2.py:40 | no month is chosen, or the month of the parsed event date equals `int(month)` |
| Filter.DistanceHit | test2.py:41 | no distance is chosen, or `float(distance)` equals the event's distance |
| Filter.Matches | test2.py:39-41 | all three tests hold, read declaratively and without evaluation order |
| Filter.Select | test2.py:37-43 | the scan: events in catalog order, each appended when its test returns `True`, the first test that raises ending the call with its error |
| Filter.Keep | test2.py:39-41 | the short-circuit test returns `True` exactly when the search, month and distance tests all hold |
| Filter.KeepRaises | test2.py:39-41 | the test raises exactly when the search test passes and then either the date or the month fails to parse, or the month test passes and the distance fails to parse |
| Filter.SelectIsSubsequence | test2.py:37-43 | the result is an order-preserving subsequence of the catalog |
| Filter.SubsequenceLength | test2.py:37-43 | a subsequence is no longer than the catalog |
| Filter.SubsequenceMembers | test2.py:37-43 | every element of a subsequence is in the catalog |
| Filter.SubsequenceDistinct | test2.py:37-43 | a subsequence of a catalog without repeats has no repeats |
| Filter.SelectMembers | test2.py:38-42 | an event is in the result exactly when it is in the catalog and passes all three tests |
| Filter.SelectFails | test2.py:38-42 | the scan raises exactly when some event's test raises, and then with the error of the first such event |
| Filter.SelectErrorPersists | test2.py:38-42 | once a prefix of the catalog raises, the whole scan raises with that error |
| Filter.SelectAppend | test2.py:38-42 | scanning a concatenation gives the first part's result followed by the second part's |
| Filter.SelectAllMatching | test2.py:38-42 | when every event passes, the result is the whole input in order |
| Filter.SelectNoneMatching | test2.py:38-42 | when every event fails without raising, the result is empty |
| Filter.SelectSuffix | test2.py:38-42 | when the first `k` events fail and the rest pass, the result is the tail from `k` |
| Filter.SelectPrefix | test2.py:38-42 | when the first `k` events pass and the rest fail, the result is the prefix up to `k` |
| Filter.SelectEverything | test2.py:39-41 | empty search term, month and distance return the whole catalog in order |
| Filter.UnparsableMonthRaises | test2.py:40 | a non-empty month that `int` rejects raises as soon as one event passes the search test, and otherwise the result is empty |
| Filter.UnparsableDistanceRaises | test2.py:41 | a non-empty distance that `float` rejects raises as soon as one event passes the search and month tests, and otherwise the result is empty |
| Filter.FilterMarathons | test2.py:36-43 | the loop returns the scan's result or error; a result is an order-preserving subsequence of the catalog, at most six long, with no event twice |
| Calendar.DaysInMonth | test2.py:94 | as written: succeeds exactly for months 1 to 11, with the Gregorian month length; for December it raises on `date(year, 13, 1)` |
| Calendar.DecemberFails | test2.py:94 | every December raises, although December has 31 days |
| Calendar.DayString | test2.py:98 | `f"{year}-{str(month).zfill(2)}-{str(day).zfill(2)}"` |
| Calendar.GridLine | test2.py:100 | the line for a day: `"d: n1, n2"` when events are held that day, otherwise `str(d)` |
| Calendar.NamesOn | test2.py:99 | the list of names on a day is no longer than the catalog |
| Calendar.NamesOnMembers | test2.py:99 | a name is listed exactly when some event of that name is held that day |
| Calendar.NamesOnNone | test2.py:99 | with no event on the day, no names are listed |
| Calendar.NamesOnSingle | test2.py:99 | with exactly one event on the day, its name alone is listed |
| Calendar.NamesOnAppend | test2.py:99 | the names of earlier catalog events come before the names of later ones |
| Calendar.NamesOnInOrder | test2.py:99 | the comprehension appends, in catalog order and once per event, the name of each event held that day |
| Calendar.DrawCalendar | test2.py:92-102 | fails exactly for December, with the `date(year, 13, 1)` error; otherwise there is one line per day of the month, line `i` being the grid line of day `i + 1` |
| Calendar.GridLineShape | test2.py:100 | each line starts with its day number, and is the bare number exactly when no event is held that day |
| Calendar.GridLineNamesEvent | test2.py:99-100 | every event held on a day is named on that day's line |
| Calendar.TwoDigits | test2.py:98 | `str(n).zfill(2)` for `n < 100` is two digits with value `n` |
| Calendar.DayStringParses | test2.py:98 | the day string of a date with a four-digit year parses back, with `strptime`, to that date |
| Calendar.DayStringInjective | test2.py:98-99 | for any year, different days of a month have different day strings, so an event is listed on at most one line |
| Calendar.CalendarAgreesWithFilter | test2.py:40 | for a four-digit year, an event shown in a month's grid passes the filter's month test for `str(month)`; for a shorter year `%Y` rejects the day string, so the filter raises instead |
| Weather.Lookup | test2.py:20-33 | one call on the table: a hit returns the stored value and leaves the table alone; a miss consults the fetch, and either stores and returns the data or returns `None` |
| Weather.LookupOnlyAdds | test2.py:20-33 | a lookup never removes or overwrites an entry; it adds at most the looked-up location, with the value it returns |
| Weather.LookupThenHit | test2.py:21-22 | after a lookup that returned a value, a later lookup of the same location returns that value and leaves the table unchanged, whatever the network would say |
| Weather.LookupFailure | test2.py:31-33 | a failed fetch returns `None` exactly on a miss and leaves the table unchanged |
| Weather.WeatherCache.constructor | test2.py:17 | the table starts empty, with no request sent |
| Weather.WeatherCache.GetWeather | test2.py:20-33 | the value returned and the new table are those of `Lookup`; a hit returns the stored value and sends no request; a miss sends one request; every cached location was requested |
| Weather.LookupTwice | test2.py:20-33 | two lookups of a new location send one request when the first fetch succeeds, and two when it fails |
| FilterExamples.SearchNovember | test2.py:36-43 | month "11" selects exactly the Jeju and Gwangju events |
| FilterExamples.SearchFullMarathon | test2.py:36-43 | distance "42.195" selects the first four events, in order |
| FilterExamples.SearchGyeongjuInMay | test2.py:36-43 | "경주" with month "5" selects only the Gyeongju event |
| FilterExamples.SearchMarathonWord | test2.py:36-43 | "마라톤" selects every event |
| FilterExamples.SearchNothing | test2.py:36-43 | a term found nowhere selects nothing, even with a month or distance that would not parse |
| FilterExamples.MonthNotANumber | test2.py:40 | month "abc" with an empty search term raises `ValueError` |
| CalendarExamples.November2024Length | test2.py:94 | November 2024 has 30 days, February 2024 has 29 and February 2023 has 28 |
| CalendarExamples.November5 | test2.py:97-100 | 5 November 2024 lists the Jeju half marathon |
| CalendarExamples.November19 | test2.py:97-100 | 19 November 2024 lists the Gwangju 10 km |
| CalendarExamples.November1 | test2.py:97-100 | 1 November 2024 is the bare day number |

## Left out

- The Streamlit calls are presentation only: `st.title`, `st.subheader`,
  `st.text_input`, `st.selectbox`, `st.button`, `st.write`, `st.table` and
  `st.error`.
  - This includes the calendar's heading line and its final `"\n".join`.
  - It also includes the error message `get_weather` shows.
- The HTTP request and `response.json()` are the network. They are one
  oracle, passed in as a function, that yields a decoded document or fails.
  Any decoded body is cached, whatever its HTTP status.
- The pandas table and the weather display string, including
  `weather['main']['temp']`, format an opaque payload.
- The total distance in the statistics is a floating-point sum.
- `datetime.date.today()` reads the environment. The calendar takes the year
  and month as parameters, and the day plays no part.
- Text.ParseDecimal: distances are exact reals, and `float(distance)` is an exact
  parse of an optionally signed decimal numeral. Several things are not
  modelled:
  - IEEE rounding and equality;
  - surrounding whitespace, underscores and exponents;
  - `inf` and `nan`.
- Text.ParseInt: `int(month)` is an optionally signed digit string. Whitespace
  and underscores are not modelled.
- Text.ParseInt, Text.ParseDecimal: `int` and `float` also accept non-ASCII
  decimal digits, such as Arabic-Indic digits. The model takes only '0' to
  '9'. The page's select boxes only ever send ASCII numerals.
- Filter.Keep: inherits the limits of Text.ParseInt and Text.ParseDecimal
  above for the month and distance tests.
- Text.Lower: `str.lower` is modelled on ASCII letters only. Every catalog
  name and location is Hangul, which lower-casing leaves unchanged.
- Dates.ParseIsoDate: `strptime` is modelled for zero-padded text only.
  - The unpadded forms it also accepts, such as `2024-5-1`, are not.
  - Years are limited to 1..9999, as `datetime` allows.
  - Every catalog date is zero-padded.
- Text.ZFill: modelled for unsigned digit strings, the only kind the code
  pads. The sign handling of `zfill` is not modelled.
- Weather.WeatherCache: the request log is ghost state. It records that a hit
  sends nothing and a miss sends exactly one request.

## Findings

| source | as written | input that shows it | evidently intended | confidence | as-written member | corrected member |
|---|---|---|---|---|---|---|
| test2.py:94 | `datetime.date(date.year, date.month + 1, 1)` passes month 13 for December | any December date, e.g. `draw_calendar(date(2024, 12, 1))` raises `ValueError` | the next month's first is 1 January of the next year, so December has 31 days | not executed | Calendar.DecemberFails | Dates.LastDayOfMonth |
