/** Deriving a reservation's date from its month-name and day cells, with
    the year-end rollover, and the rule deciding which reservations are
    still to come. */
module Reservations {
  import opened Options
  import opened Calendar
  import opened JsDate
  import opened JsString
  import opened Cells

  const MonthNames: seq<string> := ["january", "february", "march", "april", "may", "june",
    "july", "august", "september", "october", "november", "december"]

  /** Array.prototype.indexOf on a list of strings. */
  function IndexOf(names: seq<string>, x: string): (r: int)
    ensures -1 <= r < |names|
  {
    if |names| == 0 then -1
    else if names[0] == x then 0
    else
      var k := IndexOf(names[1..], x);
      if k == -1 then -1 else k + 1
  }

  /** IndexOf finds the first occurrence, and -1 means there is none. */
  lemma {:induction false} IndexOfSpec(names: seq<string>, x: string)
    ensures var r := IndexOf(names, x);
      (0 <= r ==> names[r] == x && forall j :: 0 <= j < r ==> names[j] != x)
      && (r == -1 <==> x !in names)
    decreases |names|
  {
    if |names| > 0 && names[0] != x {
      IndexOfSpec(names[1..], x);
      assert names == [names[0]] + names[1..];
    }
  }

  /** The month cell as it is looked up: lower-cased, then trimmed. */
  function MonthText(c: Cell): (s: string) {
    Trim(ToLowerAscii(ToJsString(c)))
  }

  /** The 0-based month a month cell names, or -1 for any other text. */
  function MonthIndex(c: Cell): (m: int)
    ensures -1 <= m < 12
  {
    IndexOf(MonthNames, MonthText(c))
  }

  /** A month index names the month whose name the cell's text is, and -1
      means the text is no month name. */
  lemma MonthIndexSpec(c: Cell)
    ensures 0 <= MonthIndex(c) ==> MonthNames[MonthIndex(c)] == MonthText(c)
    ensures MonthIndex(c) == -1 <==> MonthText(c) !in MonthNames
  {
    IndexOfSpec(MonthNames, MonthText(c));
  }

  /** The day cell's digit characters read as one decimal number; no
      digits at all gives 0. */
  function DayOfMonth(c: Cell): (d: nat) {
    DigitsValue(KeepDigits(ToJsString(c)))
  }

  /** The rollover test: the month is before today's and today is in
      November or December (0-based month above 9). */
  predicate RollsOver(monthIndex: int, today: Civil) {
    monthIndex < today.month && today.month > 9
  }

  /** The date a month index and day number give: `new Date(todayYear,
      mIdx, dNum)`, moved to the next year by setFullYear when the
      rollover test holds. */
  function ReservationDate(m: int, d: nat, today: Civil): (r: Option<Civil>) {
    if RollsOver(m, today) then SetFullYear(NewDate(today.year, m, d), today.year + 1)
    else NewDate(today.year, m, d)
  }

  /** The reservation date derived from a row's month and day cells. */
  function DeriveDate(row: Row, today: Civil): (r: Option<Civil>) {
    ReservationDate(MonthIndex(CellAt(row, MonthColumn)), DayOfMonth(CellAt(row, DateColumn)), today)
  }

  /** The filter test: a real date, not before today. */
  predicate OnOrAfter(r: Option<Civil>, today: Civil)
    requires IsDate(today)
  {
    r.Some? && IsDate(r.value) && TimeValue(r.value) >= TimeValue(today)
  }

  predicate Keep(row: Row, today: Civil)
    requires IsDate(today)
  {
    OnOrAfter(DeriveDate(row, today), today)
  }

  /** The day number a kept row is sorted by. */
  function KeptDay(row: Row, today: Civil): (n: int)
    requires IsDate(today) && Keep(row, today)
  {
    DayNumber(DeriveDate(row, today).value)
  }

  /** Comparing midnight time values is comparing day numbers, hence
      comparing calendar dates. */
  lemma OnOrAfterIsDateOrder(r: Option<Civil>, today: Civil)
    requires IsDate(today)
    requires r.Some? ==> IsDate(r.value)
    ensures OnOrAfter(r, today) <==> r.Some? && DayNumber(r.value) >= DayNumber(today)
  {
  }

  /** The names are lower-case and unpadded already. */
  lemma MonthNameIsOwnText(i: nat)
    requires i < 12
    ensures ToLowerAscii(MonthNames[i]) == MonthNames[i]
    ensures Trim(MonthNames[i]) == MonthNames[i]
  {
    assert LowerAsciiWord(MonthNames[i]);
    LowerAsciiWordIsOwnText(MonthNames[i]);
  }

  lemma MonthNamesDistinct()
    ensures forall j, k :: 0 <= j < k < 12 ==> MonthNames[j] != MonthNames[k]
  {
  }

  /** Each month name, written as the sheet would hold it, is found at its
      own position. */
  lemma MonthIndexOfName(i: nat)
    requires i < 12
    ensures MonthIndex(Text(MonthNames[i])) == i
  {
    MonthNameIsOwnText(i);
    MonthNamesDistinct();
    assert MonthText(Text(MonthNames[i])) == MonthNames[i];
    IndexOfSpec(MonthNames, MonthNames[i]);
  }

  /** Case does not matter to the lookup. */
  lemma MonthIndexIgnoresCase(s: string)
    ensures MonthIndex(Text(s)) == MonthIndex(Text(ToLowerAscii(s)))
  {
    ToLowerAsciiIdempotent(s);
    assert MonthText(Text(s)) == MonthText(Text(ToLowerAscii(s)));
  }

  /** A month name with white space around it is still found. */
  lemma MonthIndexIgnoresPadding(w1: string, i: nat, w2: string)
    requires AllWhitespace(w1) && AllWhitespace(w2)
    requires i < 12
    ensures MonthIndex(Text(w1 + MonthNames[i] + w2)) == i
  {
    var name := MonthNames[i];
    MonthNameIsOwnText(i);
    ToLowerAsciiAppend(w1 + name, w2);
    ToLowerAsciiAppend(w1, name);
    ToLowerAsciiWhitespace(w1);
    ToLowerAsciiWhitespace(w2);
    assert ToLowerAscii(w1 + name + w2) == w1 + name + w2;
    TrimPadded(w1, name, w2);
    assert MonthText(Text(w1 + name + w2)) == name;
    MonthIndexOfName(i);
  }

  /** The day is the number written by the cell's digits alone, whatever
      non-digit text surrounds them: "5th" and "Day 5" both give 5. */
  lemma DayOfMonthOfDigitText(before: string, n: nat, after: string)
    requires NoDigits(before) && NoDigits(after)
    ensures DayOfMonth(Text(before + NatToString(n) + after)) == n
  {
    KeepDigitsAround(before, NatToString(n), after);
    DigitsValueOfNatToString(n);
  }

  /** A numeric day cell gives its magnitude (the sign is not a digit). */
  lemma DayOfMonthOfNumber(n: SafeInt)
    ensures DayOfMonth(Number(n)) == if n < 0 then -n else n
  {
    if n < 0 {
      var t := NatToString(-n);
      assert ToJsString(Number(n)) == "-" + t;
      KeepDigitsAppend("-", t);
      NoDigitsKept("-");
      KeepDigitsOfDigits(t);
      assert KeepDigits("-" + t) == t;
      DigitsValueOfNatToString(-n);
    } else {
      KeepDigitsOfDigits(NatToString(n));
      DigitsValueOfNatToString(n);
    }
  }

  /** A cell without digits, a blank one included, gives day 0. */
  lemma DayOfMonthWithoutDigits(c: Cell)
    requires NoDigits(ToJsString(c))
    ensures DayOfMonth(c) == 0
  {
    NoDigitsKept(ToJsString(c));
  }

  /** Without the rollover the date is the normalised candidate. */
  lemma NoRolloverKeepsCandidate(m: int, d: nat, today: Civil)
    requires !RollsOver(m, today)
    ensures ReservationDate(m, d, today) == NewDate(today.year, m, d)
  {
  }

  lemma RolloverIsSetFullYear(m: int, d: nat, today: Civil)
    requires RollsOver(m, today)
    ensures ReservationDate(m, d, today) == SetFullYear(NewDate(today.year, m, d), today.year + 1)
  {
  }

  /** With the rollover the year becomes today's year + 1 while the month
      and day stay, save Feb 29 of a common year becoming Mar 1. */
  lemma RolloverSetsNextYear(m: int, d: nat, today: Civil)
    requires RollsOver(m, today)
    requires NewDate(today.year, m, d).Some? && ReservationDate(m, d, today).Some?
    ensures var c, r := NewDate(today.year, m, d).value, ReservationDate(m, d, today).value;
      r.year == today.year + 1 &&
      if c.day <= DaysInMonth(today.year + 1, c.month)
      then r.month == c.month && r.day == c.day
      else c.month == 1 && c.day == 29 && r.month == 2 && r.day == 1
  {
    RolloverIsSetFullYear(m, d, today);
    var c := NewDate(today.year, m, d).value;
    if c.day <= DaysInMonth(today.year + 1, c.month) {
      SetFullYearKeepsMonthAndDay(c, today.year + 1);
    } else {
      SetFullYearLeapDay(c, today.year + 1);
    }
  }

  /** Without the rollover a real day is booked for that day of today's
      year. */
  lemma NoRolloverOfRealDay(m: int, d: nat, today: Civil)
    requires !RollsOver(m, today)
    requires !(0 <= today.year <= 99)
    requires Canonical(Civil(today.year, m, d))
    requires -100_000_000 <= DayNumber(Civil(today.year, m, d)) <= 100_000_000
    ensures ReservationDate(m, d, today) == Some(Civil(today.year, m, d))
  {
    var y := today.year;
    NewDateOfRealDay(y, m, d);
    assert NewDate(y, m, d) == Some(Civil(y, m, d));
    NoRolloverKeepsCandidate(m, d, today);
  }

  /** A real day of a month before today's, in November or December,
      is booked for that day of next year. */
  lemma RolloverOfRealDay(m: int, d: nat, today: Civil)
    requires RollsOver(m, today)
    requires !(0 <= today.year <= 99)
    requires Canonical(Civil(today.year, m, d)) && d <= DaysInMonth(today.year + 1, m)
    requires -100_000_000 <= DayNumber(Civil(today.year, m, d))
    requires DayNumber(Civil(today.year + 1, m, d)) <= 100_000_000
    ensures ReservationDate(m, d, today) == Some(Civil(today.year + 1, m, d))
  {
    NextYearOfRealDay(today.year, m, d);
    RolloverIsSetFullYear(m, d, today);
  }

  /** A candidate beyond the time-value range is not dropped by the
      rollover but revived as January 1 of the next year, because
      setFullYear reads a NaN date as 1970-01-01. */
  lemma RolloverRevivesInvalidDate(m: int, d: nat, today: Civil)
    requires IsDate(today)
    requires RollsOver(m, today)
    requires NewDate(today.year, m, d).None?
    requires -100_000_000 <= DayNumber(Civil(today.year + 1, 0, 1)) <= 100_000_000
    ensures ReservationDate(m, d, today) == Some(Civil(today.year + 1, 0, 1))
    ensures OnOrAfter(ReservationDate(m, d, today), today)
  {
    RolloverIsSetFullYear(m, d, today);
    SetFullYearOfInvalid(today.year + 1);
    RolledOverIsKept(m, d, today);
  }

  /** Every rolled-over date that is valid lies in next year, so it is
      always kept. */
  lemma RolledOverIsKept(m: int, d: nat, today: Civil)
    requires IsDate(today)
    requires RollsOver(m, today)
    requires ReservationDate(m, d, today).Some?
    ensures OnOrAfter(ReservationDate(m, d, today), today)
  {
    DayNumberOrder(today, ReservationDate(m, d, today).value);
  }

  /** Before November nothing rolls over: a real day in a month already
      past this year is dropped (years 0..99 excepted, since the Date
      constructor reads them as 1900..1999). */
  lemma PastMonthIsDropped(m: int, d: nat, today: Civil)
    requires IsDate(today)
    requires !(0 <= today.year <= 99)
    requires 0 <= m < today.month <= 9
    requires 1 <= d <= DaysInMonth(today.year, m)
    ensures !OnOrAfter(ReservationDate(m, d, today), today)
  {
    FromPartsInMonth(today.year, m, d);
    assert m / 12 == 0 && m % 12 == m;
    var r := ReservationDate(m, d, today);
    if r.Some? {
      DayNumberOrder(r.value, today);
    }
  }

  /** A month text that names no month gives index -1, which the Date
      constructor carries back into December of the year before: an
      unknown month yields a real date, not an invalid one. */
  lemma UnknownMonthIsPreviousDecember(y: int, d: nat)
    requires !(0 <= y <= 99)
    requires 1 <= d <= 31
    requires -100_000_000 <= DayNumber(Civil(y - 1, 11, d)) <= 100_000_000
    ensures NewDate(y, -1, d) == Some(Civil(y - 1, 11, d))
  {
    assert y + -1 / 12 == y - 1 && -1 % 12 == 11;
  }

  /** Before November a row with an unknown month lands in last December
      and is dropped as past. */
  lemma UnknownMonthIsDroppedBeforeNovember(d: nat, today: Civil)
    requires IsDate(today)
    requires !(0 <= today.year <= 99) && today.month <= 9
    requires 1 <= d <= 31
    requires -100_000_000 <= DayNumber(Civil(today.year - 1, 11, d))
    ensures ReservationDate(-1, d, today) == Some(Civil(today.year - 1, 11, d))
    ensures !OnOrAfter(ReservationDate(-1, d, today), today)
  {
    var c := Civil(today.year - 1, 11, d);
    DayNumberOrder(c, today);
    UnknownMonthIsPreviousDecember(today.year, d);
  }

  /** In November and December a row with an unknown month rolls over to
      December of next year and is kept. */
  lemma UnknownMonthIsKeptInNovember(d: nat, today: Civil)
    requires IsDate(today)
    requires !(0 <= today.year <= 99) && today.month > 9
    requires 1 <= d <= 31
    requires -100_000_000 <= DayNumber(Civil(today.year - 1, 11, d))
    requires DayNumber(Civil(today.year + 1, 11, d)) <= 100_000_000
    ensures ReservationDate(-1, d, today) == Some(Civil(today.year + 1, 11, d))
    ensures OnOrAfter(ReservationDate(-1, d, today), today)
  {
    var n := Civil(today.year + 1, 11, d);
    UnknownMonthRollsOver(d, today);
    DayNumberOrder(today, n);
    OnOrAfterIsDateOrder(Some(n), today);
  }

  lemma UnknownMonthRollsOver(d: nat, today: Civil)
    requires !(0 <= today.year <= 99) && today.month > 9
    requires 1 <= d <= 31
    requires -100_000_000 <= DayNumber(Civil(today.year - 1, 11, d))
    requires DayNumber(Civil(today.year + 1, 11, d)) <= 100_000_000
    ensures ReservationDate(-1, d, today) == Some(Civil(today.year + 1, 11, d))
  {
    var y := today.year;
    UnknownMonthNextYear(y, d);
    assert SetFullYear(NewDate(y, -1, d), y + 1) == Some(Civil(y + 1, 11, d));
    RolloverIsSetFullYear(-1, d, today);
  }

  /** The rollover step for an unknown month: last December moved to next
      year. */
  lemma UnknownMonthNextYear(y: int, d: nat)
    requires !(0 <= y <= 99)
    requires 1 <= d <= 31
    requires -100_000_000 <= DayNumber(Civil(y - 1, 11, d))
    requires DayNumber(Civil(y + 1, 11, d)) <= 100_000_000
    ensures SetFullYear(NewDate(y, -1, d), y + 1) == Some(Civil(y + 1, 11, d))
  {
    var c := Civil(y - 1, 11, d);
    DayNumberOrder(c, Civil(y + 1, 11, d));
    UnknownMonthIsPreviousDecember(y, d);
    SetFullYearOfRealDay(c, y + 1);
  }

  /** "undefined", the text of a missing cell, is no month name and holds
      no digit. */
  lemma UndefinedIsNoDate()
    ensures MonthIndex(Empty) == -1
    ensures DayOfMonth(Empty) == 0
  {
    UndefinedIsNoMonth();
    UndefinedIsNoDay();
  }

  /** "undefined" names no month. */
  lemma UndefinedIsNoMonth()
    ensures MonthIndex(Empty) == -1
  {
    var u := ToJsString(Empty);
    assert u == "undefined";
    assert LowerAsciiWord(u);
    LowerAsciiWordIsOwnText(u);
    assert MonthText(Empty) == u;
    assert forall i :: 0 <= i < 12 ==> |MonthNames[i]| != 9 || MonthNames[i][0] != 'u';
    MonthIndexSpec(Empty);
  }

  /** "undefined" holds no digit, so it reads as day 0. */
  lemma UndefinedIsNoDay()
    ensures DayOfMonth(Empty) == 0
  {
    assert ToJsString(Empty) == "undefined";
    assert NoDigits(ToJsString(Empty));
    DayOfMonthWithoutDigits(Empty);
  }

  /** A row too short to reach the month column reads both date cells as
      undefined: month -1, day 0. */
  lemma ShortRowReadsNoDate(row: Row)
    requires |row| <= MonthColumn
    ensures MonthIndex(CellAt(row, MonthColumn)) == -1
    ensures DayOfMonth(CellAt(row, DateColumn)) == 0
  {
    UndefinedIsNoDate();
  }

  /** Month -1, day 0 is November 30 of the year before. */
  lemma NoMonthNoDay(y: int)
    requires !(0 <= y <= 99)
    requires -100_000_000 <= DayNumber(Civil(y - 1, 10, 30)) <= 100_000_000
    ensures NewDate(y, -1, 0) == Some(Civil(y - 1, 10, 30))
  {
    assert y + -1 / 12 == y - 1 && -1 % 12 == 11;
    assert PrevMonth(y - 1, 11) == Civil(y - 1, 10, 1);
    assert Normalise(y - 1, 10, 30) == Civil(y - 1, 10, 30);
    assert Normalise(y - 1, 11, 0) == Civil(y - 1, 10, 30);
  }

  /** A row without month and day cells is dated November 30: of last
      year, and dropped, before November; of next year, and kept, in
      November and December. */
  lemma ShortRowDate(row: Row, today: Civil)
    requires IsDate(today) && |row| <= MonthColumn
    requires !(0 <= today.year <= 99)
    requires -100_000_000 <= DayNumber(Civil(today.year - 1, 10, 30))
    requires DayNumber(Civil(today.year + 1, 10, 30)) <= 100_000_000
    ensures DeriveDate(row, today) ==
      Some(Civil(if today.month > 9 then today.year + 1 else today.year - 1, 10, 30))
    ensures Keep(row, today) <==> today.month > 9
  {
    ShortRowReadsNoDate(row);
    assert DeriveDate(row, today) == ReservationDate(-1, 0, today);
    if today.month > 9 {
      NoDateInNovember(today);
    } else {
      NoDateBeforeNovember(today);
    }
  }

  /** Before November month -1, day 0 is last November 30, already past. */
  lemma NoDateBeforeNovember(today: Civil)
    requires IsDate(today) && today.month <= 9
    requires !(0 <= today.year <= 99)
    requires -100_000_000 <= DayNumber(Civil(today.year - 1, 10, 30))
    ensures ReservationDate(-1, 0, today) == Some(Civil(today.year - 1, 10, 30))
    ensures !OnOrAfter(ReservationDate(-1, 0, today), today)
  {
    var last := Civil(today.year - 1, 10, 30);
    DayNumberOrder(last, today);
    NoMonthNoDay(today.year);
    NoRolloverKeepsCandidate(-1, 0, today);
  }

  /** In November and December month -1, day 0 rolls over to November 30
      of next year, which is still to come. */
  lemma NoDateInNovember(today: Civil)
    requires IsDate(today) && today.month > 9
    requires !(0 <= today.year <= 99)
    requires -100_000_000 <= DayNumber(Civil(today.year - 1, 10, 30))
    requires DayNumber(Civil(today.year + 1, 10, 30)) <= 100_000_000
    ensures ReservationDate(-1, 0, today) == Some(Civil(today.year + 1, 10, 30))
    ensures OnOrAfter(ReservationDate(-1, 0, today), today)
  {
    var next := Civil(today.year + 1, 10, 30);
    NoDateRollsOver(today);
    DayNumberOrder(today, next);
    OnOrAfterIsDateOrder(Some(next), today);
  }

  lemma NoDateRollsOver(today: Civil)
    requires !(0 <= today.year <= 99) && today.month > 9
    requires -100_000_000 <= DayNumber(Civil(today.year - 1, 10, 30))
    requires DayNumber(Civil(today.year + 1, 10, 30)) <= 100_000_000
    ensures ReservationDate(-1, 0, today) == Some(Civil(today.year + 1, 10, 30))
  {
    var y := today.year;
    NoMonthNoDayNextYear(y);
    assert SetFullYear(NewDate(y, -1, 0), y + 1) == Some(Civil(y + 1, 10, 30));
    RolloverIsSetFullYear(-1, 0, today);
  }

  /** The rollover step for month -1, day 0: last November 30 moved to
      next year. */
  lemma NoMonthNoDayNextYear(y: int)
    requires !(0 <= y <= 99)
    requires -100_000_000 <= DayNumber(Civil(y - 1, 10, 30))
    requires DayNumber(Civil(y + 1, 10, 30)) <= 100_000_000
    ensures SetFullYear(NewDate(y, -1, 0), y + 1) == Some(Civil(y + 1, 10, 30))
  {
    var last := Civil(y - 1, 10, 30);
    DayNumberOrder(last, Civil(y + 1, 10, 30));
    NoMonthNoDay(y);
    SetFullYearOfRealDay(last, y + 1);
  }

  /** A reservation for today itself is kept: the comparison is inclusive. */
  lemma TodayIsKept(today: Civil)
    requires IsDate(today)
    requires !(0 <= today.year <= 99)
    ensures ReservationDate(today.month, today.day, today) == Some(today)
    ensures OnOrAfter(Some(today), today)
  {
    assert today.month / 12 == 0 && today.month % 12 == today.month;
    FromPartsInMonth(today.year, today.month, today.day);
    FromPartsIsMakeDay(today.year, today.month, today.day);
  }
}
