/** Proleptic Gregorian calendar arithmetic in the form ECMAScript's Date
    object defines it (section 21.4.1 of ECMA-262): a day number counts the
    days since 1970-01-01, months are 0-based. */
module Calendar {

  /** A calendar date with a 0-based month, as getFullYear(), getMonth() and
      getDate() report it. Only `Canonical` values name a real day. */
  datatype Civil = Civil(year: int, month: int, day: int)

  predicate IsLeapYear(y: int) {
    y % 4 == 0 && (y % 100 != 0 || y % 400 == 0)
  }

  function DaysInYear(y: int): (n: int) {
    if IsLeapYear(y) then 366 else 365
  }

  function DaysInMonth(y: int, m: int): (n: int)
    requires 0 <= m < 12
    ensures 28 <= n <= 31
    ensures n == 29 <==> m == 1 && IsLeapYear(y)
  {
    if m == 1 then (if IsLeapYear(y) then 29 else 28)
    else if m == 3 || m == 5 || m == 8 || m == 10 then 30
    else 31
  }

  /** Days from 1970-01-01 to January 1 of year `y` (DayFromYear of ECMA-262;
      Dafny's `/` by a positive constant is the floor the standard asks for). */
  function DayFromYear(y: int): (n: int) {
    365 * (y - 1970) + (y - 1969) / 4 - (y - 1901) / 100 + (y - 1601) / 400
  }

  /** Days from January 1 to the first day of month `m` (the cumulative
      table behind MonthFromTime in ECMA-262). */
  function DaysBeforeMonth(y: int, m: int): (n: int)
    requires 0 <= m < 12
    ensures 0 <= n <= 335
  {
    var table := [0, 31, 59, 90, 120, 151, 181, 212, 243, 273, 304, 334];
    table[m] + (if m >= 2 && IsLeapYear(y) then 1 else 0)
  }

  predicate Canonical(c: Civil) {
    0 <= c.month < 12 && 1 <= c.day <= DaysInMonth(c.year, c.month)
  }

  /** Only February's length depends on the year: a day of a real date
      that is missing from the same month of year `y` is Feb 29, and `y`
      is a common year. */
  lemma MissingDayIsLeapDay(c: Civil, y: int)
    requires Canonical(c) && c.day > DaysInMonth(y, c.month)
    ensures c.month == 1 && c.day == 29 && !IsLeapYear(y)
  {
  }

  /** The day number of `c`; for a day outside its month this is the day
      that many days past the month's first, as MakeDay counts it. */
  function DayNumber(c: Civil): (n: int)
    requires 0 <= c.month < 12
  {
    DayFromYear(c.year) + DaysBeforeMonth(c.year, c.month) + c.day - 1
  }

  function NextMonth(y: int, m: int): (c: Civil)
    requires 0 <= m < 12
    ensures 0 <= c.month < 12 && c.day == 1
  {
    if m == 11 then Civil(y + 1, 0, 1) else Civil(y, m + 1, 1)
  }

  function PrevMonth(y: int, m: int): (c: Civil)
    requires 0 <= m < 12
    ensures 0 <= c.month < 12 && c.day == 1
    ensures NextMonth(c.year, c.month) == Civil(y, m, 1)
  {
    if m == 0 then Civil(y - 1, 11, 1) else Civil(y, m - 1, 1)
  }

  lemma FloorStep4(n: int)
    ensures (n + 1) / 4 - n / 4 == if (n + 1) % 4 == 0 then 1 else 0
  {
  }

  lemma FloorStep100(n: int)
    ensures (n + 1) / 100 - n / 100 == if (n + 1) % 100 == 0 then 1 else 0
  {
  }

  lemma FloorStep400(n: int)
    ensures (n + 1) / 400 - n / 400 == if (n + 1) % 400 == 0 then 1 else 0
  {
  }

  lemma ShiftMod4(y: int)
    ensures (y - 1968) % 4 == y % 4
  {
    assert y - 1968 == 4 * (y / 4 - 492) + y % 4;
  }

  lemma ShiftMod100(y: int)
    ensures (y - 1900) % 100 == y % 100
  {
    assert y - 1900 == 100 * (y / 100 - 19) + y % 100;
  }

  lemma ShiftMod400(y: int)
    ensures (y - 1600) % 400 == y % 400
  {
    assert y - 1600 == 400 * (y / 400 - 4) + y % 400;
  }

  /** A year is as long as the gap between its DayFromYear and the next. */
  lemma DayFromYearStep(y: int)
    ensures DayFromYear(y + 1) == DayFromYear(y) + DaysInYear(y)
  {
    FloorStep4(y - 1969);
    FloorStep100(y - 1901);
    FloorStep400(y - 1601);
    ShiftMod4(y);
    ShiftMod100(y);
    ShiftMod400(y);
    DivisibilityChain(y);
    var a := (y - 1968) / 4 - (y - 1969) / 4;
    var b := (y - 1900) / 100 - (y - 1901) / 100;
    var c := (y - 1600) / 400 - (y - 1601) / 400;
    assert DayFromYear(y + 1) - DayFromYear(y) == 365 + a - b + c;
    if y % 4 != 0 {
      assert a == 0 && b == 0 && c == 0;
    } else if y % 100 != 0 {
      assert a == 1 && b == 0 && c == 0;
    } else if y % 400 != 0 {
      assert a == 1 && b == 1 && c == 0;
    } else {
      assert a == 1 && b == 1 && c == 1;
    }
  }

  /** Divisibility by 400 implies divisibility by 100, which implies
      divisibility by 4. */
  lemma DivisibilityChain(y: int)
    ensures y % 400 == 0 ==> y % 100 == 0
    ensures y % 100 == 0 ==> y % 4 == 0
  {
    if y % 400 == 0 {
      var t := 4 * (y / 400);
      assert y == 100 * t;
      MultipleMod100(t);
    }
    if y % 100 == 0 {
      var t := 25 * (y / 100);
      assert y == 4 * t;
      MultipleMod4(t);
    }
  }

  lemma MultipleMod4(t: int)
    ensures (4 * t) % 4 == 0
  {
  }

  lemma MultipleMod100(t: int)
    ensures (100 * t) % 100 == 0
  {
  }

  /** The first of the next month lies exactly one month length later. */
  lemma MonthStartStep(y: int, m: int)
    requires 0 <= m < 12
    ensures DayNumber(NextMonth(y, m)) == DayNumber(Civil(y, m, 1)) + DaysInMonth(y, m)
  {
    if m == 11 {
      DayFromYearStep(y);
    }
  }

  /** Carries an out-of-range day into neighbouring months (and years) until
      it names a real day: what `new Date(y, m, d)` does with Feb 30 or
      day 0. `NormaliseDayNumber` shows the result is the canonical name of
      the same day number. */
  function Normalise(y: int, m: int, d: int): (c: Civil)
    requires 0 <= m < 12
    ensures Canonical(c)
    decreases if d < 1 then 1 else 0, if d < 1 then 1 - d else d
  {
    if d < 1 then
      var p := PrevMonth(y, m);
      Normalise(p.year, p.month, d + DaysInMonth(p.year, p.month))
    else if d > DaysInMonth(y, m) then
      var n := NextMonth(y, m);
      Normalise(n.year, n.month, d - DaysInMonth(y, m))
    else
      Civil(y, m, d)
  }

  /** Normalising keeps the day number. */
  lemma {:induction false} NormaliseDayNumber(y: int, m: int, d: int)
    requires 0 <= m < 12
    ensures DayNumber(Normalise(y, m, d)) == DayNumber(Civil(y, m, d))
    decreases if d < 1 then 1 else 0, if d < 1 then 1 - d else d
  {
    if d < 1 {
      var p := PrevMonth(y, m);
      MonthStartStep(p.year, p.month);
      NormaliseDayNumber(p.year, p.month, d + DaysInMonth(p.year, p.month));
    } else if d > DaysInMonth(y, m) {
      var n := NextMonth(y, m);
      MonthStartStep(y, m);
      NormaliseDayNumber(n.year, n.month, d - DaysInMonth(y, m));
    }
  }

  /** A canonical date's day number falls inside its own year. */
  lemma DayNumberWithinYear(c: Civil)
    requires Canonical(c)
    ensures DayFromYear(c.year) <= DayNumber(c) < DayFromYear(c.year + 1)
  {
    DayFromYearStep(c.year);
  }

  /** Later years start later. */
  lemma {:induction false} DayFromYearMonotone(a: int, b: int)
    requires a < b
    ensures DayFromYear(a) < DayFromYear(b)
    decreases b - a
  {
    DayFromYearStep(a);
    if a + 1 < b {
      DayFromYearMonotone(a + 1, b);
    }
  }

  /** A month ends where the next one begins. */
  lemma DaysBeforeMonthStep(y: int, m: int)
    requires 0 <= m < 11
    ensures DaysBeforeMonth(y, m + 1) == DaysBeforeMonth(y, m) + DaysInMonth(y, m)
  {
  }

  /** Every day of month `m` comes before the first of any later month. */
  lemma {:induction false} MonthEndsBefore(y: int, m: int, k: int)
    requires 0 <= m < k < 12
    ensures DaysBeforeMonth(y, m) + DaysInMonth(y, m) <= DaysBeforeMonth(y, k)
    decreases k - m
  {
    DaysBeforeMonthStep(y, m);
    if m + 1 < k {
      MonthEndsBefore(y, m + 1, k);
    }
  }

  /** Within one year, day numbers follow (month, day) order. */
  lemma SameYearOrder(a: Civil, b: Civil)
    requires Canonical(a) && Canonical(b) && a.year == b.year
    ensures DayNumber(a) < DayNumber(b) <==>
      a.month < b.month || (a.month == b.month && a.day < b.day)
  {
    if a.month < b.month {
      MonthEndsBefore(a.year, a.month, b.month);
    } else if b.month < a.month {
      MonthEndsBefore(a.year, b.month, a.month);
    }
  }

  /** Across years, day numbers follow the year. */
  lemma EarlierYearOrder(a: Civil, b: Civil)
    requires Canonical(a) && Canonical(b) && a.year < b.year
    ensures DayNumber(a) < DayNumber(b)
  {
    DayNumberWithinYear(a);
    DayNumberWithinYear(b);
    if a.year + 1 < b.year {
      DayFromYearMonotone(a.year + 1, b.year);
    }
  }

  /** Day numbers order canonical dates exactly as (year, month, day) does,
      so comparing time values compares calendar dates. */
  lemma DayNumberOrder(a: Civil, b: Civil)
    requires Canonical(a) && Canonical(b)
    ensures DayNumber(a) < DayNumber(b) <==>
      a.year < b.year
      || (a.year == b.year && a.month < b.month)
      || (a.year == b.year && a.month == b.month && a.day < b.day)
  {
    if a.year < b.year {
      EarlierYearOrder(a, b);
    } else if b.year < a.year {
      EarlierYearOrder(b, a);
    } else {
      SameYearOrder(a, b);
    }
  }

  /** A day number names exactly one canonical date, so the date
      `Normalise` returns is the one YearFromTime, MonthFromTime and
      DateFromTime would read back from the time value. */
  lemma DayNumberInjective(a: Civil, b: Civil)
    requires Canonical(a) && Canonical(b)
    requires DayNumber(a) == DayNumber(b)
    ensures a == b
  {
    DayNumberOrder(a, b);
    DayNumberOrder(b, a);
  }
}
