# Room reservations page: a verified model

`xlsx_to_html.js` reads a spreadsheet of room reservations and writes one
HTML page. Each sheet row holds a room label (column 0), a month name
(column 2) and a day (column 3). The page shows:

- the header row;
- the reservations from today onwards, sorted by date;
- a "Filter by Room" dropdown listing each booked room once.

A small script in the page hides the rows of the rooms not selected.

This project models the pure logic of that pipeline in Dafny and proves its
properties:

- **Reading a row's date** (`Reservations`, on top of `Calendar`, `JsDate`,
  `JsString` and `Cells`):
  - The month cell is lower-cased, trimmed and looked up among the twelve
    English month names; a miss gives -1.
  - The day cell keeps only its digits; no digits gives 0.
  - The date is `new Date(todayYear, month, day)` with JavaScript's
    normalisation of out-of-range parts (day 0, Feb 30, month -1). Years
    0..99 read as 1900..1999, as the Date constructor does.
  - When the month is before today's and today is in November or December,
    `setFullYear(todayYear + 1)` moves the date into next year.
  - A time value beyond ECMA-262's 8.64e15 ms limit is NaN, modelled as
    `None`.
- **Filter and sort** (`Pipeline`, `DateSort`, `Lists`): keep the rows whose
  date is real and not before today, stable-sort them by date, and put the
  header back on top.
- **Dropdown identifiers** (`RoomIds`): for the room cell of each kept row:
  - falsy cells are skipped;
  - the rest are converted to a string, trimmed, and stripped of one leading
    `"Room: "`;
  - the results are deduplicated as a JavaScript `Set` would, then sorted in
    UTF-16 code-unit order.

  The options markup starts with "Show All Rooms".
- **Page-side filter** (`RoomFilter`): a data row is shown when the selection
  is empty or equals the row's trimmed, prefix-stripped room text. A row
  without a room cell is left as it was.
- **Worked examples** (`Scenarios`): two whole sheets on fixed days,
  computed end to end, and one row with an unknown month dated on two
  days.

Dates are canonical `Civil(year, month0, day)` triples. `DayNumber` is
ECMA-262's MakeDay: DayFromYear with floor division, then the month table,
then `day - 1`. The time value is that day number times 86 400 000 ms. The
current day is a parameter; time zones are taken as UTC.

Some consequences of the code are easy to misread; the model follows the
code:

- **Rollover months.** The rollover test is `today.getMonth() > 9`, so it
  fires only in November and December, not from October (the comment at
  xlsx_to_html.js:122 mentions only December and January).
- **Unknown months and day 0 give real dates.** A month index of -1, a day
  of 0 and a day past the month's end are normalised by the Date
  constructor into real dates. They do not become invalid dates. With a
  day from 1 to 31, an unknown month becomes that day of December of the
  previous year:
  - it is dropped as past from January to October;
  - in November and December it rolls over to December of next year and is
    shown (`Reservations.UnknownMonthIsKeptInNovember`).

  Other days are carried on from that December too: day 0 is November 30
  of the previous year (a row without month and day cells gets exactly
  this, `Reservations.ShortRowDate`), and a day above 31 runs into this
  year: day 45 with an unknown month is January 14, kept on any day up to
  January 14; in November and December it rolls over to January 14 of next
  year and is kept as well.
- **Invalid dates are revived by the rollover.** When the rollover applies,
  an out-of-range (NaN) candidate is revived. `setFullYear` starts a NaN
  date from 1970-01-01, so the result is January 1 of next year, and that
  row is shown.

## Model

| member | source | states |
|---|---|---|
| Reservations.IndexOfSpec | xlsx_to_html.js:118 | `indexOf` returns the first position holding the text, and -1 exactly when no name equals it |
| Reservations.MonthIndexSpec | xlsx_to_html.js:115-118 | a month index names the month whose name is the lower-cased, trimmed cell text; -1 exactly when that text is none of the twelve names |
| Reservations.MonthIndexOfName | xlsx_to_html.js:115-118 | each of the twelve names is found at its own 0-based position |
| Reservations.MonthIndexIgnoresCase | xlsx_to_html.js:118 | upper- or lower-case letters in the month cell give the same index |
| Reservations.MonthIndexIgnoresPadding | xlsx_to_html.js:118 | a month name with white space around it is still found at its position |
| Reservations.DayOfMonthOfDigitText | xlsx_to_html.js:119 | the day is the number its digits spell, whatever non-digit text surrounds them ("5th", "Day 5") |
| Reservations.DayOfMonthOfNumber | xlsx_to_html.js:119 | a numeric day cell gives its magnitude, because the minus sign is not a digit |
| Reservations.DayOfMonthWithoutDigits | xlsx_to_html.js:119 | a cell without digits, a blank one included, gives day 0 |
| Reservations.UndefinedIsNoDate | xlsx_to_html.js:118-119 | a missing cell reads "undefined", which is no month name (index -1) and has no digits (day 0) |
| Reservations.ShortRowReadsNoDate | xlsx_to_html.js:118-119 | a row too short to reach the month column reads month -1 and day 0 |
| Reservations.NoMonthNoDay | xlsx_to_html.js:120 | `new Date(y, -1, 0)` is November 30 of the year before |
| Reservations.ShortRowDate | xlsx_to_html.js:118-126 | a row without month and day cells is dated November 30 of last year and dropped before November; in November and December it is dated November 30 of next year and kept |
| Reservations.NoDateBeforeNovember | xlsx_to_html.js:120-126 | before November, month -1 with day 0 gives last November 30, which is dropped |
| Reservations.NoDateInNovember | xlsx_to_html.js:120-126 | in November and December, month -1 with day 0 rolls over to November 30 of next year, which is kept |
| JsString.KeepDigitsAround | xlsx_to_html.js:119 | removing non-digits from text around a digit run leaves exactly that run |
| JsString.DigitsValueOfNatToString | xlsx_to_html.js:119 | parsing the decimal digits of n gives n back |
| JsString.TrimPadded | xlsx_to_html.js:118 | trim removes exactly the surrounding white space from text that does not start or end with white space |
| JsString.TrimIdempotent | xlsx_to_html.js:139 | trimming twice is trimming once |
| JsString.ToLowerAsciiIdempotent | xlsx_to_html.js:118 | lower-casing twice is lower-casing once |
| Calendar.NormaliseDayNumber | xlsx_to_html.js:120 | normalising out-of-range month and day parts keeps the day number, so the result is the same instant |
| Calendar.DayNumberOrder | xlsx_to_html.js:126-127 | comparing day numbers of real dates is comparing (year, month, day) lexicographically |
| Calendar.DayNumberInjective | xlsx_to_html.js:126-127 | two real dates with the same day number are the same date |
| JsDate.TimeRangeInDays | xlsx_to_html.js:126 | the date is not NaN exactly when its midnight time value is within 8.64e15 ms of the epoch |
| JsDate.FromPartsIsMakeDay | xlsx_to_html.js:120 | the constructed date exists exactly when MakeDay is within 10^8 days, and then has MakeDay's day number |
| JsDate.FromPartsLeapDay | xlsx_to_html.js:120 | Feb 29 of a common year is normalised to Mar 1 |
| JsDate.NewDateOfRealDay | xlsx_to_html.js:120 | `new Date(y, m, d)` of a real day in range is that day |
| JsDate.SetFullYearKeepsMonthAndDay | xlsx_to_html.js:123 | setFullYear keeps month and day when the new year has that day |
| JsDate.SetFullYearLeapDay | xlsx_to_html.js:123 | the only day missing in the new year is Feb 29, which becomes Mar 1 |
| JsDate.SetFullYearOfInvalid | xlsx_to_html.js:123 | setFullYear on a NaN date gives January 1 of the new year |
| JsDate.NextYearOfRealDay | xlsx_to_html.js:120-123 | constructing a real day and then setting next year gives the same day of next year |
| Reservations.RolloverSetsNextYear | xlsx_to_html.js:120-123 | with the rollover, the year is today's + 1 and month and day stay, except Feb 29 becoming Mar 1 |
| Reservations.NoRolloverOfRealDay | xlsx_to_html.js:120-123 | without the rollover a real day is booked in today's year |
| Reservations.RolloverOfRealDay | xlsx_to_html.js:120-123 | with the rollover a real day is booked for the same day of next year |
| Reservations.RolloverRevivesInvalidDate | xlsx_to_html.js:120-126 | with the rollover, a NaN candidate becomes January 1 of next year and is kept |
| Reservations.RolledOverIsKept | xlsx_to_html.js:123-126 | every real rolled-over date passes the filter |
| Reservations.PastMonthIsDropped | xlsx_to_html.js:120-126 | from January to October a real day in an earlier month is dropped |
| Reservations.UnknownMonthIsPreviousDecember | xlsx_to_html.js:118-120 | month -1 is normalised into December of the previous year |
| Reservations.UnknownMonthIsDroppedBeforeNovember | xlsx_to_html.js:118-126 | before November an unknown month gives last December and is dropped |
| Reservations.UnknownMonthIsKeptInNovember | xlsx_to_html.js:118-126 | in November and December an unknown month gives December of next year and is kept |
| Reservations.TodayIsKept | xlsx_to_html.js:120-126 | a reservation for today derives today's date and passes the inclusive filter |
| Reservations.OnOrAfterIsDateOrder | xlsx_to_html.js:126 | the filter keeps a date exactly when it is real and its day is not before today's |
| DateSort.SortByDaySorted | xlsx_to_html.js:127 | the sort puts entries in non-decreasing date order |
| DateSort.SortByDayMembers | xlsx_to_html.js:127 | the sort neither adds nor loses an entry |
| DateSort.SortByDayRows | xlsx_to_html.js:127-128 | the sorted rows are a permutation of the input rows |
| DateSort.SortByDayStable | xlsx_to_html.js:127 | entries of the same date keep their input order |
| DateSort.StableSortIsUnique | xlsx_to_html.js:127 | any date-ordered arrangement that keeps each date's input order is this sort's result |
| Pipeline.DataRows | xlsx_to_html.js:110-111 | the sheet is its header row followed by the data rows |
| Pipeline.GridContract | xlsx_to_html.js:110-131 | the grid is the sheet's first row unchanged, then a permutation of the kept data rows: a data row appears exactly when its date is real and not before today, and the rows are in non-decreasing date order |
| Pipeline.KeptEntriesMembers | xlsx_to_html.js:117-126 | the kept entries are exactly the kept rows, each tagged with its own derived day |
| Pipeline.KeptEntriesShort | xlsx_to_html.js:126 | the filter never yields more entries than there are rows |
| Pipeline.KeptEntriesAppend | xlsx_to_html.js:117-126 | mapping and filtering work row by row: two sheets filtered apart give what they give joined |
| Pipeline.KeptEntriesSingle | xlsx_to_html.js:117-126 | one row yields its dated entry exactly when it is kept |
| Pipeline.BodyIsUpcomingRows | xlsx_to_html.js:126-128 | a data row is emitted exactly when its derived date is real and not before today |
| Pipeline.NoPastReservation | xlsx_to_html.js:126 | every emitted row has a real date whose day is not before today's |
| Pipeline.BodyPermutesKeptRows | xlsx_to_html.js:127-128 | the emitted rows are the kept rows rearranged, with none duplicated, lost or changed |
| Pipeline.BodyIsSortedByDate | xlsx_to_html.js:127 | emitted rows are kept rows in non-decreasing order of derived date |
| Pipeline.BodyIsStable | xlsx_to_html.js:127 | rows of the same date keep their sheet order |
| Pipeline.BodyIsAnyStableSort | xlsx_to_html.js:127-128 | any stable sort by date emits exactly these rows |
| Pipeline.IdsAreKeptRooms | xlsx_to_html.js:135-149 | the dropdown lists, strictly ascending, exactly the identifiers of the kept rows' room cells |
| RoomIds.StripRoomPrefix | xlsx_to_html.js:140-142 | one leading "Room: " is removed when present, and the text is otherwise unchanged |
| RoomIds.StripRoomPrefixOfPrefixed | xlsx_to_html.js:140-142 | "Room: " followed by an identifier gives the identifier, and only one prefix goes |
| RoomIds.RoomTextOfLabel | xlsx_to_html.js:139-142 | a padded "Room: id" label gives id |
| RoomIds.BarePrefixStays | xlsx_to_html.js:139-142 | a bare "Room: " is trimmed to "Room:" first and then kept |
| RoomIds.BlankLabelGivesEmptyId | xlsx_to_html.js:138-143 | a white-space-only label is truthy yet yields the empty identifier |
| RoomIds.Dedupe | xlsx_to_html.js:135-145 | the Set holds each identifier once, and exactly the identifiers added |
| RoomIds.SortStrings | xlsx_to_html.js:149 | the sort keeps length and members |
| RoomIds.SortStringsPermutes | xlsx_to_html.js:149 | the sort is a permutation |
| RoomIds.DropdownIdsSpec | xlsx_to_html.js:135-149 | the identifiers are strictly ascending in code-unit order, and are exactly those some row's room cell yields |
| RoomIds.DropdownIdsDetermined | xlsx_to_html.js:135-149 | the list depends only on which identifiers occur, not on row order or repetition |
| RoomIds.StrictlySortedUnique | xlsx_to_html.js:149 | a strictly ascending list is fixed by its members |
| JsString.CodeUnitLeTotal | xlsx_to_html.js:149 | the default string order compares every pair |
| JsString.CodeUnitLeAntisymmetric | xlsx_to_html.js:149 | two strings each not after the other are equal |
| JsString.CodeUnitLeTransitive | xlsx_to_html.js:149 | the default string order is transitive |
| JsString.CodeUnitLeIsUtf16Order | xlsx_to_html.js:149 | the per-character comparison is the comparison of UTF-16 code-unit sequences |
| RoomIds.OptionsStartWithShowAll | xlsx_to_html.js:147-151 | the options markup always begins with the "Show All Rooms" option |
| RoomIds.BuildOptionsHtml | xlsx_to_html.js:147-151 | the loop's string is the rendering of the dropdown entries |
| RoomFilter.ShowAllShowsEveryRow | xlsx_to_html.js:87-88 | the empty selection shows every row that has a room cell |
| RoomFilter.LastSelectionWins | xlsx_to_html.js:77-93 | filtering again overrides the earlier filter's decisions |
| RoomFilter.ApplyFilterIdempotent | xlsx_to_html.js:77-93 | re-selecting the same entry changes nothing |
| RoomFilter.TableTextOfCell | xlsx_to_html.js:79-85 | the text the filter reads from a truthy cell gives that cell's identifier; blank cells read "" and the number 0 reads "0" |
| RoomFilter.SelectionShowsItsRooms | xlsx_to_html.js:77-93 | a selected identifier shows exactly the rows whose room cell yields it, plus number-0 cells for "0", and "" shows all |
| RoomFilter.OfferedRoomIsShown | xlsx_to_html.js:77-93 | applyFilter called with any identifier the dropdown offers shows at least one row |
| RoomFilter.ZeroRoomCellMatchesZero | xlsx_to_html.js:79-87 | a room cell holding the number 0 yields no identifier, but the selection "0" shows its row |
| Scenarios.June1Example | xlsx_to_html.js:110-151 | on 2024-06-01, bookings for June 5, May 20 and July 1 give header, June 5, July 1 and the single identifier A101 |
| Scenarios.Dec15Example | xlsx_to_html.js:110-151 | on 2024-12-15, January 10 moves to 2025 and is listed after December 20; the identifiers are A101, B202 |
| Scenarios.SmarchInJune | xlsx_to_html.js:117-126 | on 2024-06-01 the month "Smarch" dates the row 2023-12-03, and it is dropped |
| Scenarios.SmarchInNovember | xlsx_to_html.js:117-126 | on 2024-11-15 the same row is dated 2025-12-03, and it is kept |

## Left out

- Reading the workbook and building the table markup (`xlsx.readFile`,
  `sheet_to_json`, `aoa_to_sheet`, `sheet_to_html`) are calls into a library
  that is not part of this model. The sheet is given as rows of cells, and
  the model of the server side stops at the grid of rows.
- Writing the file, the console messages (including the row count) and the
  top-level `try`/`catch` are I/O.
- The CSS, the page chrome and the footer are fixed template text.
- RoomFilter.TableRooms: the page-side filter reads the table that
  `sheet_to_html` renders, and that library is not part of this model. The
  model assumes every data row has a first-column cell whose text content
  is `String(v)` of the room value, or "" when the cell is blank.
- The page script's DOM wiring (`addEventListener`, `querySelectorAll`,
  `style.display`) is left out. Only the visibility decision per row is
  modelled, as a list of shown flags.
- Reading the clock and the time zone are left out. Today is a parameter at
  midnight, and dates are compared as UTC day numbers, so daylight-saving
  shifts are not modelled.
- Cell values are blank, text or integer. Fractional numbers, booleans and
  Excel date serials are not modelled.
- Reservations.DayOfMonthOfNumber: numeric cells are integers of at most
  2^53 - 1 in magnitude (the `SafeInt` bound on `Number`). Beyond that,
  `String` rounds the digits and from 10^21 on writes exponent form
  ("1e+21"), which changes both the day read from the cell and the room
  identifier. Larger numbers are not modelled.
- `toLowerCase` is restricted to ASCII letters. Unicode case mappings are
  not modelled. This does not change the month lookup: the only non-ASCII
  character that lower-cases to a single ASCII letter is the Kelvin sign,
  and no month name contains a "k".
- The model of `parseInt` reads any number of digits exactly. Digit strings
  beyond 2^53 would lose precision in JavaScript. Such a day lies far
  beyond the time-value range in both, so the date is NaN either way.
- HTML escaping: the code escapes nothing, so option values and labels are
  written as they are.
- RoomFilter.OfferedRoomIsShown: the selection the page passes to
  applyFilter is taken to be the offered identifier itself. The browser
  reads the unescaped `value="…"` attribute, so this holds only for
  identifiers without a `"` and without a character reference such as
  `&amp;`; for `a"b` the page selects `a` and hides every `a"b` row.
- A sheet without any row would make the header `undefined`. The model
  renders it as an empty header row.
