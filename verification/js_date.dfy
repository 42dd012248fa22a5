/** The part of JavaScript's Date object the reservation pipeline relies on:
    the (year, month, day) constructor, setFullYear and the time-value range
    limit (sections 21.4.1 and 21.4.4 of ECMA-262). Times of day are always
    midnight here and local time is taken to be UTC. A date is either
    `Some(c)` with `c` canonical, or `None` for a Date whose time value is
    NaN. */
module JsDate {
  import opened Options
  import opened Calendar

  const MsPerDay: int := 86_400_000
  /** TimeClip turns any time value of larger magnitude into NaN. */
  const MaxTimeValue: int := 8_640_000_000_000_000

  /** Milliseconds since the epoch at midnight starting `c`. */
  function TimeValue(c: Civil): (t: int)
    requires 0 <= c.month < 12
  {
    DayNumber(c) * MsPerDay
  }

  /** TimeClip's range, counted in days: midnight of `c` is at most
      8.64e15 ms from the epoch (see `TimeRangeInDays`). */
  predicate InTimeRange(c: Civil)
    requires 0 <= c.month < 12
  {
    -100_000_000 <= DayNumber(c) <= 100_000_000
  }

  /** The time-value limit is exactly 10^8 days either side of the epoch. */
  lemma TimeRangeInDays(c: Civil)
    requires 0 <= c.month < 12
    ensures InTimeRange(c) <==> -MaxTimeValue <= TimeValue(c) <= MaxTimeValue
  {
    var n := DayNumber(c);
    assert TimeValue(c) == n * 86_400_000;
  }

  /** A date a Date object can hold: `getTime()` is not NaN. */
  predicate IsDate(c: Civil) {
    Canonical(c) && InTimeRange(c)
  }

  /** MakeDay of ECMA-262: the month is carried into the year by floor
      division, then `d - 1` days are counted from that month's first. */
  function MakeDay(y: int, m: int, d: int): (n: int) {
    DayNumber(Civil(y + m / 12, m % 12, d))
  }

  /** The date with components (y, m, d) after normalisation, or NaN when
      the result lies beyond the time-value range. No two-digit year
      mapping: this is the path setFullYear takes. */
  function FromParts(y: int, m: int, d: int): (r: Option<Civil>)
    ensures r.Some? ==> IsDate(r.value)
  {
    var c := Normalise(y + m / 12, m % 12, d);
    if InTimeRange(c) then Some(c) else None
  }

  /** FromParts yields a date exactly when MakeDay lands within TimeClip's
      range of plus or minus 10^8 days, and then it is the date whose day
      number MakeDay computed. */
  lemma FromPartsIsMakeDay(y: int, m: int, d: int)
    ensures FromParts(y, m, d).Some? <==> -100_000_000 <= MakeDay(y, m, d) <= 100_000_000
    ensures FromParts(y, m, d).Some? ==> DayNumber(FromParts(y, m, d).value) == MakeDay(y, m, d)
  {
    NormaliseDayNumber(y + m / 12, m % 12, d);
  }

  /** Components already naming a real day come back unchanged. */
  lemma FromPartsInMonth(y: int, m: int, d: int)
    requires 0 <= m < 12 && 1 <= d <= DaysInMonth(y, m)
    ensures FromParts(y, m, d).Some? ==> FromParts(y, m, d).value == Civil(y, m, d)
  {
    FromPartsIsMakeDay(y, m, d);
    var r := FromParts(y, m, d);
    assert y + m / 12 == y && m % 12 == m;
    if r.Some? {
      DayNumberInjective(r.value, Civil(y, m, d));
    }
  }

  /** A real day within the time-value range comes back unchanged. */
  lemma FromPartsOfRealDay(y: int, m: int, d: int)
    requires Canonical(Civil(y, m, d))
    requires -100_000_000 <= DayNumber(Civil(y, m, d)) <= 100_000_000
    ensures FromParts(y, m, d) == Some(Civil(y, m, d))
  {
    assert m / 12 == 0 && m % 12 == m;
    FromPartsIsMakeDay(y, m, d);
    FromPartsInMonth(y, m, d);
  }

  /** Feb 29 of a common year comes back as Mar 1. */
  lemma FromPartsLeapDay(y: int)
    requires !IsLeapYear(y)
    ensures FromParts(y, 1, 29).Some? ==> FromParts(y, 1, 29).value == Civil(y, 2, 1)
  {
    FromPartsIsMakeDay(y, 1, 29);
    var r := FromParts(y, 1, 29);
    assert 1 / 12 == 0 && 1 % 12 == 1;
    MonthStartStep(y, 1);
    assert MakeDay(y, 1, 29) == DayNumber(Civil(y, 2, 1));
    if r.Some? {
      assert Canonical(Civil(y, 2, 1));
      DayNumberInjective(r.value, Civil(y, 2, 1));
    }
  }

  /** The year `new Date(y, m, d)` actually uses: 0..99 mean 1900..1999. */
  function ConstructorYear(y: int): (year: int) {
    if 0 <= y <= 99 then 1900 + y else y
  }

  /** `new Date(y, m, d)` with integer arguments. */
  function NewDate(y: int, m: int, d: int): (r: Option<Civil>)
    ensures r.Some? ==> IsDate(r.value)
  {
    FromParts(ConstructorYear(y), m, d)
  }

  /** `new Date(y, m, d)` of a real day whose year is not read as 19yy. */
  lemma NewDateOfRealDay(y: int, m: int, d: int)
    requires !(0 <= y <= 99)
    requires Canonical(Civil(y, m, d))
    requires -100_000_000 <= DayNumber(Civil(y, m, d)) <= 100_000_000
    ensures NewDate(y, m, d) == Some(Civil(y, m, d))
  {
    FromPartsOfRealDay(y, m, d);
  }

  /** `date.setFullYear(y)`: the year is replaced, the month and day of
      the month are kept (see the lemmas below). A NaN date is first read
      as time value +0, that is 1970-01-01. */
  function SetFullYear(date: Option<Civil>, y: int): (r: Option<Civil>)
    requires date.Some? ==> Canonical(date.value)
    ensures r.Some? ==> IsDate(r.value) && r.value.year == y
  {
    var base := if date.None? then Civil(1970, 0, 1) else date.value;
    if base.day <= DaysInMonth(y, base.month) then
      FromPartsInMonth(y, base.month, base.day);
      FromParts(y, base.month, base.day)
    else
      MissingDayIsLeapDay(base, y);
      FromPartsLeapDay(y);
      FromParts(y, 1, 29)
  }

  /** A day that exists in the new year keeps its month and day. */
  lemma SetFullYearKeepsMonthAndDay(c: Civil, y: int)
    requires Canonical(c) && c.day <= DaysInMonth(y, c.month)
    ensures SetFullYear(Some(c), y).Some? ==> SetFullYear(Some(c), y) == Some(Civil(y, c.month, c.day))
  {
    FromPartsInMonth(y, c.month, c.day);
  }

  /** Moving a real day to a year that has it, within the time-value
      range, gives that day of that year. */
  lemma SetFullYearOfRealDay(c: Civil, y: int)
    requires Canonical(c) && c.day <= DaysInMonth(y, c.month)
    requires -100_000_000 <= DayNumber(Civil(y, c.month, c.day)) <= 100_000_000
    ensures SetFullYear(Some(c), y) == Some(Civil(y, c.month, c.day))
  {
    SetFullYearKeepsMonthAndDay(c, y);
    FromPartsOfRealDay(y, c.month, c.day);
  }

  /** `setFullYear(y + 1)` on `new Date(y, m, d)` moves a real day to the
      same day of the next year when that day exists there. */
  lemma NextYearOfRealDay(y: int, m: int, d: int)
    requires !(0 <= y <= 99)
    requires Canonical(Civil(y, m, d)) && d <= DaysInMonth(y + 1, m)
    requires -100_000_000 <= DayNumber(Civil(y, m, d))
    requires DayNumber(Civil(y + 1, m, d)) <= 100_000_000
    ensures SetFullYear(NewDate(y, m, d), y + 1) == Some(Civil(y + 1, m, d))
  {
    var c := Civil(y, m, d);
    assert NewDate(y, m, d) == Some(c) by {
      NewDateOfRealDay(y, m, d);
    }
    assert SetFullYear(Some(c), y + 1) == Some(Civil(y + 1, m, d)) by {
      assert DayNumber(c) < DayNumber(Civil(y + 1, m, d)) by {
        DayNumberOrder(c, Civil(y + 1, m, d));
      }
      SetFullYearOfRealDay(c, y + 1);
    }
  }

  /** The only day that does not exist in the new year is Feb 29, which
      becomes Mar 1. */
  lemma SetFullYearLeapDay(c: Civil, y: int)
    requires Canonical(c) && c.day > DaysInMonth(y, c.month)
    ensures c.month == 1 && c.day == 29 && !IsLeapYear(y)
    ensures SetFullYear(Some(c), y).Some? ==> SetFullYear(Some(c), y) == Some(Civil(y, 2, 1))
  {
    MissingDayIsLeapDay(c, y);
    FromPartsLeapDay(y);
  }

  /** setFullYear on a NaN date gives January 1 of the new year. */
  lemma SetFullYearOfInvalid(y: int)
    requires -100_000_000 <= DayNumber(Civil(y, 0, 1)) <= 100_000_000
    ensures SetFullYear(None, y) == Some(Civil(y, 0, 1))
  {
    FromPartsInMonth(y, 0, 1);
    FromPartsIsMakeDay(y, 0, 1);
    assert MakeDay(y, 0, 1) == DayNumber(Civil(y, 0, 1));
  }
}
