/** Worked examples of the pipeline on small sheets: which rows survive,
    the order they come out in, and the dropdown's identifiers. Each
    example names its sheet and its day through equalities in `requires`,
    and general helpers carry the reasoning. */
module Scenarios {
  import opened Options
  import opened Calendar
  import opened JsDate
  import opened JsString
  import opened Cells
  import opened Reservations
  import opened DateSort
  import opened RoomIds
  import opened Lists
  import opened Pipeline

  const Header: Row := [Text("Room"), Empty, Text("Month"), Text("Date")]

  /** A reservation row: room label, an unused column, month name, day. */
  function Booking(room: string, month: string, day: string): (row: Row) {
    [Text(room), Empty, Text(month), Text(day)]
  }

  // ---- Cells ------------------------------------------------------------

  /** A month name in any ASCII case is found at its position. */
  lemma MonthOfWord(s: string, i: nat)
    requires i < 12 && ToLowerAscii(s) == MonthNames[i]
    ensures MonthIndex(Text(s)) == i
  {
    MonthIndexIgnoresCase(s);
    MonthIndexOfName(i);
  }

  /** A day cell holding the decimal text of `n`. */
  lemma DayOfWord(n: nat)
    ensures DayOfMonth(Text(NatToString(n))) == n
  {
    KeepDigitsOfDigits(NatToString(n));
    DigitsValueOfNatToString(n);
  }

  /** A "Room: <id>" label whose identifier does not end in white space. */
  lemma RoomOfLabel(id: string)
    requires |id| > 0 && !IsWhitespace(id[|id| - 1])
    ensures RoomKey(Text(RoomPrefix + id)) == Some(id)
  {
    var t := RoomPrefix + id;
    assert t[0] == 'R' && t[|t| - 1] == id[|id| - 1];
    TrimUnpadded(t);
    StripRoomPrefixOfPrefixed(id);
  }

  /** What the pipeline reads from a booking row built from a room
      identifier, a month name and the decimal text of a day. */
  lemma BookingReads(row: Row, id: string, month: string, m: nat, n: nat)
    requires row == Booking(RoomPrefix + id, month, NatToString(n))
    requires |id| > 0 && !IsWhitespace(id[|id| - 1])
    requires m < 12 && ToLowerAscii(month) == MonthNames[m]
    ensures RoomKey(CellAt(row, RoomColumn)) == Some(id)
    ensures MonthIndex(CellAt(row, MonthColumn)) == m
    ensures DayOfMonth(CellAt(row, DateColumn)) == n
  {
    assert CellAt(row, RoomColumn) == Text(RoomPrefix + id);
    assert CellAt(row, MonthColumn) == Text(month);
    assert CellAt(row, DateColumn) == Text(NatToString(n));
    RoomOfLabel(id);
    MonthOfWord(month, m);
    DayOfWord(n);
  }

  // ---- Rows -------------------------------------------------------------

  /** A row whose derived date is `c` is kept exactly when `c` is not
      before today, and is then sorted by `c`'s day number. */
  lemma KeptAt(row: Row, today: Civil, c: Civil)
    requires IsDate(today) && IsDate(c)
    requires DeriveDate(row, today) == Some(c)
    ensures Keep(row, today) <==> DayNumber(c) >= DayNumber(today)
    ensures Keep(row, today) ==> KeptDay(row, today) == DayNumber(c)
  {
    OnOrAfterIsDateOrder(Some(c), today);
  }

  /** List shapes, stated once for any element type. */
  lemma Shapes<T>(h: T, a: T, b: T, c: T)
    ensures [h, a, b, c][1..] == [a, b, c]
    ensures [h, a, b][1..] == [a, b]
    ensures [h] + [a, b] == [h, a, b]
  {
  }

  lemma RowsOfTwo(x: Dated, y: Dated)
    ensures Rows([x, y]) == [x.row, y.row]
  {
  }

  /** Sorting two entries swaps them exactly when the first is later. */
  lemma SortTwo(x: Dated, y: Dated)
    ensures SortByDay([x, y]) == if x.day <= y.day then [x, y] else [y, x]
  {
    assert [x][..0] == [];
    assert [x, y][..1] == [x];
    if y.day < x.day {
      assert Insert([x], y) == Insert([], y) + [x];
    }
  }

  /** Two rows of the same room give that one identifier. */
  lemma OneRoom(a: Row, b: Row, id: string)
    requires RoomKey(CellAt(a, RoomColumn)) == Some(id)
    requires RoomKey(CellAt(b, RoomColumn)) == Some(id)
    ensures DropdownIds([a, b]) == [id]
  {
    PairKeys(a, b, id, id);
    IdsOfOne([a, b], id);
  }

  /** A dropdown list with one identifier. */
  lemma IdsOfOne(rows: seq<Row>, id: string)
    requires forall x :: x in DropdownIds(rows) <==> x == id
    ensures DropdownIds(rows) == [id]
  {
    DropdownIdsSpec(rows);
    StrictlySortedUnique(DropdownIds(rows), [id]);
  }

  /** The identifiers two rows yield. */
  lemma PairKeys(a: Row, b: Row, ida: string, idb: string)
    requires RoomKey(CellAt(a, RoomColumn)) == Some(ida)
    requires RoomKey(CellAt(b, RoomColumn)) == Some(idb)
    ensures forall x :: x in DropdownIds([a, b]) <==> x == ida || x == idb
  {
    var rows := [a, b];
    DropdownIdsSpec(rows);
    forall x
      ensures HasRoomKey(rows, x) <==> x == ida || x == idb
    {
      if x == ida {
        assert a in rows;
      }
      if x == idb {
        assert b in rows;
      }
    }
  }

  /** Two distinct identifiers, the first not after the second, make up
      a dropdown list that has exactly them. */
  lemma IdsOfPair(rows: seq<Row>, ida: string, idb: string)
    requires forall x :: x in DropdownIds(rows) <==> x == ida || x == idb
    requires ida != idb && CodeUnitLe(ida, idb)
    ensures DropdownIds(rows) == [ida, idb]
  {
    DropdownIdsSpec(rows);
    assert StrictlySorted([ida, idb]);
    StrictlySortedUnique(DropdownIds(rows), [ida, idb]);
  }

  /** Two rows of different rooms give both identifiers in code-unit
      order, whichever row comes first. */
  lemma TwoRooms(a: Row, b: Row, ida: string, idb: string)
    requires RoomKey(CellAt(a, RoomColumn)) == Some(ida)
    requires RoomKey(CellAt(b, RoomColumn)) == Some(idb)
    requires ida != idb && CodeUnitLe(ida, idb)
    ensures DropdownIds([a, b]) == [ida, idb]
    ensures DropdownIds([b, a]) == [ida, idb]
  {
    PairKeys(a, b, ida, idb);
    IdsOfPair([a, b], ida, idb);
    PairKeys(b, a, idb, ida);
    IdsOfPair([b, a], ida, idb);
  }

  /** The page for a sheet with a header, given its body and the body's
      identifiers. */
  lemma ProcessOf(data: seq<Row>, today: Civil, body: seq<Row>, ids: seq<string>)
    requires IsDate(today) && |data| > 0
    requires Body(data, today) == body && DropdownIds(body) == ids
    ensures Process(data, today) == Output([data[0]] + body, ids)
  {
  }

  /** The sorted rows of three bookings where the middle one has passed
      and the others are in date order. */
  lemma MiddleBody(a: Row, b: Row, c: Row, today: Civil, x: Dated, y: Dated)
    requires IsDate(today)
    requires KeptEntries([a], today) == [x] && x.row == a
    requires KeptEntries([b], today) == []
    requires KeptEntries([c], today) == [y] && y.row == c
    requires x.day <= y.day
    ensures Rows(SortByDay(KeptEntries([a, b, c], today))) == [a, c]
  {
    FlatMapDropsMiddle(a, b, c, EntryOf(today), x, y);
    SortTwo(x, y);
    RowsOfTwo(x, y);
  }

  /** The sorted rows of two kept bookings listed latest first. */
  lemma SwappedBody(a: Row, b: Row, today: Civil, x: Dated, y: Dated)
    requires IsDate(today)
    requires KeptEntries([a], today) == [x] && x.row == a
    requires KeptEntries([b], today) == [y] && y.row == b
    requires y.day < x.day
    ensures Rows(SortByDay(KeptEntries([a, b], today))) == [b, a]
  {
    FlatMapPair(a, b, EntryOf(today), x, y);
    SortTwo(x, y);
    RowsOfTwo(y, x);
  }

  /** A sheet of three bookings where the middle one has passed and the
      other two, of one room, are in date order. */
  lemma MiddleRowDropped(h: Row, a: Row, b: Row, c: Row, today: Civil, x: Dated, y: Dated, id: string)
    requires IsDate(today)
    requires KeptEntries([a], today) == [x] && x.row == a
    requires KeptEntries([b], today) == []
    requires KeptEntries([c], today) == [y] && y.row == c
    requires x.day <= y.day
    requires RoomKey(CellAt(a, RoomColumn)) == Some(id)
    requires RoomKey(CellAt(c, RoomColumn)) == Some(id)
    ensures Process([h, a, b, c], today) == Output([h, a, c], [id])
  {
    var data := [h, a, b, c];
    Shapes(h, a, b, c);
    MiddleBody(a, b, c, today, x, y);
    OneRoom(a, c, id);
    ProcessOf(data, today, [a, c], [id]);
  }

  /** A sheet of two bookings, both kept, listed latest first. */
  lemma PairSwapped(h: Row, a: Row, b: Row, today: Civil, x: Dated, y: Dated, ida: string, idb: string)
    requires IsDate(today)
    requires KeptEntries([a], today) == [x] && x.row == a
    requires KeptEntries([b], today) == [y] && y.row == b
    requires y.day < x.day
    requires RoomKey(CellAt(a, RoomColumn)) == Some(ida)
    requires RoomKey(CellAt(b, RoomColumn)) == Some(idb)
    requires ida != idb && CodeUnitLe(ida, idb)
    ensures Process([h, a, b], today) == Output([h, b, a], [ida, idb])
  {
    var data := [h, a, b];
    Shapes(h, a, b, b);
    Shapes(h, b, a, a);
    SwappedBody(a, b, today, x, y);
    TwoRooms(a, b, ida, idb);
    ProcessOf(data, today, [b, a], [ida, idb]);
  }

  /** A row naming a real day of a month that does not roll over is
      booked for that day of this year. */
  lemma RowThisYear(row: Row, today: Civil, m: int, d: nat)
    requires IsDate(today) && !(0 <= today.year <= 99)
    requires MonthIndex(CellAt(row, MonthColumn)) == m
    requires DayOfMonth(CellAt(row, DateColumn)) == d
    requires !RollsOver(m, today)
    requires Canonical(Civil(today.year, m, d))
    requires -100_000_000 <= DayNumber(Civil(today.year, m, d)) <= 100_000_000
    ensures DeriveDate(row, today) == Some(Civil(today.year, m, d))
    ensures Keep(row, today) <==> DayNumber(Civil(today.year, m, d)) >= DayNumber(today)
    ensures Keep(row, today) ==> KeptDay(row, today) == DayNumber(Civil(today.year, m, d))
  {
    NoRolloverOfRealDay(m, d, today);
    KeptAt(row, today, Civil(today.year, m, d));
  }

  /** A row naming a real day of a month that rolls over is booked for
      that day of next year. */
  lemma RowNextYear(row: Row, today: Civil, m: int, d: nat)
    requires IsDate(today) && !(0 <= today.year <= 99)
    requires MonthIndex(CellAt(row, MonthColumn)) == m
    requires DayOfMonth(CellAt(row, DateColumn)) == d
    requires RollsOver(m, today)
    requires Canonical(Civil(today.year, m, d)) && d <= DaysInMonth(today.year + 1, m)
    requires -100_000_000 <= DayNumber(Civil(today.year, m, d))
    requires DayNumber(Civil(today.year + 1, m, d)) <= 100_000_000
    ensures DeriveDate(row, today) == Some(Civil(today.year + 1, m, d))
    ensures Keep(row, today) <==> DayNumber(Civil(today.year + 1, m, d)) >= DayNumber(today)
    ensures Keep(row, today) ==> KeptDay(row, today) == DayNumber(Civil(today.year + 1, m, d))
  {
    RolloverOfRealDay(m, d, today);
    KeptAt(row, today, Civil(today.year + 1, m, d));
  }

  /** The day numbers of the dates the examples use. */
  lemma KnownDays()
    ensures DayNumber(Civil(2023, 11, 3)) == 19694
    ensures DayNumber(Civil(2024, 0, 10)) == 19732
    ensures DayNumber(Civil(2024, 4, 20)) == 19863
    ensures DayNumber(Civil(2024, 5, 1)) == 19875
    ensures DayNumber(Civil(2024, 5, 5)) == 19879
    ensures DayNumber(Civil(2024, 6, 1)) == 19905
    ensures DayNumber(Civil(2024, 10, 15)) == 20042
    ensures DayNumber(Civil(2024, 11, 15)) == 20072
    ensures DayNumber(Civil(2024, 11, 20)) == 20077
    ensures DayNumber(Civil(2025, 0, 10)) == 20098
    ensures DayNumber(Civil(2025, 11, 3)) == 20425
  {
  }

  // ---- Today is 2024-06-01 ---------------------------------------------

  lemma June5Cells(row: Row)
    requires row == Booking("Room: A101", "June", "5")
    ensures RoomKey(CellAt(row, RoomColumn)) == Some("A101")
    ensures MonthIndex(CellAt(row, MonthColumn)) == 5
    ensures DayOfMonth(CellAt(row, DateColumn)) == 5
  {
    assert "Room: A101" == RoomPrefix + "A101" && "5" == NatToString(5);
    assert ToLowerAscii("June") == MonthNames[5];
    BookingReads(row, "A101", "June", 5, 5);
  }

  lemma June5Row(row: Row, today: Civil)
    requires today == Civil(2024, 5, 1)
    requires MonthIndex(CellAt(row, MonthColumn)) == 5
    requires DayOfMonth(CellAt(row, DateColumn)) == 5
    ensures IsDate(today)
    ensures DeriveDate(row, today) == Some(Civil(2024, 5, 5))
    ensures Keep(row, today) && KeptDay(row, today) == 19879
  {
    KnownDays();
    RowThisYear(row, today, 5, 5);
  }

  lemma June5Entry(row: Row, today: Civil)
    requires today == Civil(2024, 5, 1)
    requires MonthIndex(CellAt(row, MonthColumn)) == 5
    requires DayOfMonth(CellAt(row, DateColumn)) == 5
    ensures IsDate(today)
    ensures KeptEntries([row], today) == [Dated(row, 19879)]
  {
    June5Row(row, today);
    KeptEntriesSingle(row, today);
  }

  lemma May20Cells(row: Row)
    requires row == Booking("Room: B202", "May", "20")
    ensures RoomKey(CellAt(row, RoomColumn)) == Some("B202")
    ensures MonthIndex(CellAt(row, MonthColumn)) == 4
    ensures DayOfMonth(CellAt(row, DateColumn)) == 20
  {
    assert "Room: B202" == RoomPrefix + "B202" && "20" == NatToString(20);
    assert ToLowerAscii("May") == MonthNames[4];
    BookingReads(row, "B202", "May", 4, 20);
  }

  lemma May20Row(row: Row, today: Civil)
    requires today == Civil(2024, 5, 1)
    requires MonthIndex(CellAt(row, MonthColumn)) == 4
    requires DayOfMonth(CellAt(row, DateColumn)) == 20
    ensures IsDate(today)
    ensures DeriveDate(row, today) == Some(Civil(2024, 4, 20))
    ensures !Keep(row, today)
  {
    KnownDays();
    RowThisYear(row, today, 4, 20);
  }

  lemma May20Entry(row: Row, today: Civil)
    requires today == Civil(2024, 5, 1)
    requires MonthIndex(CellAt(row, MonthColumn)) == 4
    requires DayOfMonth(CellAt(row, DateColumn)) == 20
    ensures IsDate(today)
    ensures KeptEntries([row], today) == []
  {
    May20Row(row, today);
    KeptEntriesSingle(row, today);
  }

  lemma July1Cells(row: Row)
    requires row == Booking("Room: A101", "July", "1")
    ensures RoomKey(CellAt(row, RoomColumn)) == Some("A101")
    ensures MonthIndex(CellAt(row, MonthColumn)) == 6
    ensures DayOfMonth(CellAt(row, DateColumn)) == 1
  {
    assert "Room: A101" == RoomPrefix + "A101" && "1" == NatToString(1);
    assert ToLowerAscii("July") == MonthNames[6];
    BookingReads(row, "A101", "July", 6, 1);
  }

  lemma July1Row(row: Row, today: Civil)
    requires today == Civil(2024, 5, 1)
    requires MonthIndex(CellAt(row, MonthColumn)) == 6
    requires DayOfMonth(CellAt(row, DateColumn)) == 1
    ensures IsDate(today)
    ensures DeriveDate(row, today) == Some(Civil(2024, 6, 1))
    ensures Keep(row, today) && KeptDay(row, today) == 19905
  {
    KnownDays();
    RowThisYear(row, today, 6, 1);
  }

  lemma July1Entry(row: Row, today: Civil)
    requires today == Civil(2024, 5, 1)
    requires MonthIndex(CellAt(row, MonthColumn)) == 6
    requires DayOfMonth(CellAt(row, DateColumn)) == 1
    ensures IsDate(today)
    ensures KeptEntries([row], today) == [Dated(row, 19905)]
  {
    July1Row(row, today);
    KeptEntriesSingle(row, today);
  }

  /** What the example sheet's three bookings contribute on 2024-06-01. */
  lemma June1Rows(a: Row, b: Row, c: Row, today: Civil)
    requires today == Civil(2024, 5, 1)
    requires a == Booking("Room: A101", "June", "5")
    requires b == Booking("Room: B202", "May", "20")
    requires c == Booking("Room: A101", "July", "1")
    ensures IsDate(today)
    ensures KeptEntries([a], today) == [Dated(a, 19879)]
    ensures KeptEntries([b], today) == []
    ensures KeptEntries([c], today) == [Dated(c, 19905)]
    ensures RoomKey(CellAt(a, RoomColumn)) == Some("A101")
    ensures RoomKey(CellAt(c, RoomColumn)) == Some("A101")
  {
    June5Cells(a);
    June5Entry(a, today);
    May20Cells(b);
    May20Entry(b, today);
    July1Cells(c);
    July1Entry(c, today);
  }

  /** On 2024-06-01 the sheet with bookings for June 5 (A101), May 20
      (B202) and July 1 (A101) shows the header, then June 5, then July 1;
      the dropdown offers A101 only. */
  lemma June1Example(data: seq<Row>, today: Civil)
    requires today == Civil(2024, 5, 1)
    requires data == [Header, Booking("Room: A101", "June", "5"),
      Booking("Room: B202", "May", "20"), Booking("Room: A101", "July", "1")]
    ensures IsDate(today)
    ensures Process(data, today) == Output([data[0], data[1], data[3]], ["A101"])
  {
    var h, a, b, c := Header, Booking("Room: A101", "June", "5"),
      Booking("Room: B202", "May", "20"), Booking("Room: A101", "July", "1");
    June1Rows(a, b, c, today);
    MiddleRowDropped(h, a, b, c, today, Dated(a, 19879), Dated(c, 19905), "A101");
  }

  // ---- Today is 2024-12-15 ---------------------------------------------

  lemma Jan10Cells(row: Row)
    requires row == Booking("Room: A101", "January", "10")
    ensures RoomKey(CellAt(row, RoomColumn)) == Some("A101")
    ensures MonthIndex(CellAt(row, MonthColumn)) == 0
    ensures DayOfMonth(CellAt(row, DateColumn)) == 10
  {
    assert "Room: A101" == RoomPrefix + "A101" && "10" == NatToString(10);
    assert ToLowerAscii("January") == MonthNames[0];
    BookingReads(row, "A101", "January", 0, 10);
  }

  /** In December a January booking is for next January. */
  lemma Jan10Row(row: Row, today: Civil)
    requires today == Civil(2024, 11, 15)
    requires MonthIndex(CellAt(row, MonthColumn)) == 0
    requires DayOfMonth(CellAt(row, DateColumn)) == 10
    ensures IsDate(today)
    ensures DeriveDate(row, today) == Some(Civil(2025, 0, 10))
    ensures Keep(row, today) && KeptDay(row, today) == 20098
  {
    KnownDays();
    RowNextYear(row, today, 0, 10);
  }

  lemma Jan10Entry(row: Row, today: Civil)
    requires today == Civil(2024, 11, 15)
    requires MonthIndex(CellAt(row, MonthColumn)) == 0
    requires DayOfMonth(CellAt(row, DateColumn)) == 10
    ensures IsDate(today)
    ensures KeptEntries([row], today) == [Dated(row, 20098)]
  {
    Jan10Row(row, today);
    KeptEntriesSingle(row, today);
  }

  lemma Dec20Cells(row: Row)
    requires row == Booking("Room: B202", "December", "20")
    ensures RoomKey(CellAt(row, RoomColumn)) == Some("B202")
    ensures MonthIndex(CellAt(row, MonthColumn)) == 11
    ensures DayOfMonth(CellAt(row, DateColumn)) == 20
  {
    assert "Room: B202" == RoomPrefix + "B202" && "20" == NatToString(20);
    assert ToLowerAscii("December") == MonthNames[11];
    BookingReads(row, "B202", "December", 11, 20);
  }

  /** A December booking stays in this year. */
  lemma Dec20Row(row: Row, today: Civil)
    requires today == Civil(2024, 11, 15)
    requires MonthIndex(CellAt(row, MonthColumn)) == 11
    requires DayOfMonth(CellAt(row, DateColumn)) == 20
    ensures IsDate(today)
    ensures DeriveDate(row, today) == Some(Civil(2024, 11, 20))
    ensures Keep(row, today) && KeptDay(row, today) == 20077
  {
    KnownDays();
    RowThisYear(row, today, 11, 20);
  }

  lemma Dec20Entry(row: Row, today: Civil)
    requires today == Civil(2024, 11, 15)
    requires MonthIndex(CellAt(row, MonthColumn)) == 11
    requires DayOfMonth(CellAt(row, DateColumn)) == 20
    ensures IsDate(today)
    ensures KeptEntries([row], today) == [Dated(row, 20077)]
  {
    Dec20Row(row, today);
    KeptEntriesSingle(row, today);
  }

  /** What the example sheet's two bookings contribute on 2024-12-15. */
  lemma Dec15Rows(a: Row, b: Row, today: Civil)
    requires today == Civil(2024, 11, 15)
    requires a == Booking("Room: A101", "January", "10")
    requires b == Booking("Room: B202", "December", "20")
    ensures IsDate(today)
    ensures KeptEntries([a], today) == [Dated(a, 20098)]
    ensures KeptEntries([b], today) == [Dated(b, 20077)]
    ensures RoomKey(CellAt(a, RoomColumn)) == Some("A101")
    ensures RoomKey(CellAt(b, RoomColumn)) == Some("B202")
  {
    Jan10Cells(a);
    Jan10Entry(a, today);
    Dec20Cells(b);
    Dec20Entry(b, today);
  }

  lemma A101BeforeB202()
    ensures "A101" != "B202" && CodeUnitLe("A101", "B202")
  {
    assert "A101"[0] != "B202"[0];
  }

  /** On 2024-12-15 a sheet listing January 10 (A101) before December 20
      (B202) shows December 20 first, the January booking having moved to
      2025; the dropdown offers A101 then B202. */
  lemma Dec15Example(data: seq<Row>, today: Civil)
    requires today == Civil(2024, 11, 15)
    requires data == [Header, Booking("Room: A101", "January", "10"),
      Booking("Room: B202", "December", "20")]
    ensures IsDate(today)
    ensures Process(data, today) == Output([data[0], data[2], data[1]], ["A101", "B202"])
  {
    var h, a, b := Header, Booking("Room: A101", "January", "10"),
      Booking("Room: B202", "December", "20");
    Dec15Rows(a, b, today);
    A101BeforeB202();
    PairSwapped(h, a, b, today, Dated(a, 20098), Dated(b, 20077), "A101", "B202");
  }

  // ---- A month name that does not exist ------------------------------

  /** A word of letters that is no month name in any case reads as
      month -1. */
  lemma NoMonthOfWord(s: string)
    requires LowerAsciiWord(ToLowerAscii(s)) && ToLowerAscii(s) !in MonthNames
    ensures MonthIndex(Text(s)) == -1
  {
    var l := ToLowerAscii(s);
    MonthIndexIgnoresCase(s);
    LowerAsciiWordIsOwnText(l);
    assert MonthText(Text(l)) == l;
    MonthIndexSpec(Text(l));
  }

  lemma SmarchIsNoMonth()
    ensures LowerAsciiWord(ToLowerAscii("Smarch")) && ToLowerAscii("Smarch") !in MonthNames
  {
    assert ToLowerAscii("Smarch") == "smarch";
    assert forall i :: 0 <= i < 12 ==> |MonthNames[i]| != 6 || MonthNames[i][0] == 'a';
  }

  /** "Smarch" is no month name, and its day cell reads 3. */
  lemma SmarchCells(row: Row)
    requires row == Booking("Room: C303", "Smarch", "3")
    ensures MonthIndex(CellAt(row, MonthColumn)) == -1
    ensures DayOfMonth(CellAt(row, DateColumn)) == 3
  {
    assert CellAt(row, MonthColumn) == Text("Smarch");
    assert CellAt(row, DateColumn) == Text(NatToString(3));
    SmarchIsNoMonth();
    NoMonthOfWord("Smarch");
    DayOfWord(3);
  }

  /** On 2024-06-01 the row is dated 2023-12-03 and dropped as past. */
  lemma SmarchInJune(row: Row, today: Civil)
    requires today == Civil(2024, 5, 1)
    requires row == Booking("Room: C303", "Smarch", "3")
    ensures IsDate(today)
    ensures DeriveDate(row, today) == Some(Civil(2023, 11, 3))
    ensures !Keep(row, today)
  {
    SmarchCells(row);
    KnownDays();
    UnknownMonthIsDroppedBeforeNovember(3, today);
  }

  /** On 2024-11-15 the same row rolls over to 2025-12-03 and is shown. */
  lemma SmarchInNovember(row: Row, today: Civil)
    requires today == Civil(2024, 10, 15)
    requires row == Booking("Room: C303", "Smarch", "3")
    ensures IsDate(today)
    ensures DeriveDate(row, today) == Some(Civil(2025, 11, 3))
    ensures Keep(row, today)
  {
    SmarchCells(row);
    KnownDays();
    UnknownMonthIsKeptInNovember(3, today);
  }
}
