/** The whole transformation from the sheet's rows to what the page shows:
    the header row, the upcoming reservations sorted by date, and the room
    identifiers offered by the dropdown. */
module Pipeline {
  import opened Options
  import opened Lists
  import opened Calendar
  import opened JsDate
  import opened Cells
  import opened Reservations
  import opened DateSort
  import opened RoomIds

  /** `data[0]`; a sheet without rows has no header, rendered as an empty
      row. */
  function HeaderRow(data: seq<Row>): (header: Row) {
    if |data| > 0 then data[0] else []
  }

  /** `data.slice(1)`: the rows below the header. */
  function DataRows(data: seq<Row>): (rows: seq<Row>)
    ensures |data| > 0 ==> data == [HeaderRow(data)] + rows
    ensures |data| == 0 ==> rows == []
  {
    if |data| > 0 then data[1..] else []
  }

  /** What one row contributes to the map and filter steps: itself with
      the day number of its derived date when it is kept, nothing when it
      is not. */
  function Entry(today: Civil, row: Row): (e: seq<Dated>)
    ensures |e| <= 1
  {
    if IsDate(today) && Keep(row, today) then [Dated(row, KeptDay(row, today))] else []
  }

  function EntryOf(today: Civil): (f: Row -> seq<Dated>) {
    row => Entry(today, row)
  }

  /** The map and filter steps: the rows that are kept, each with the day
      number of its derived date, in sheet order. */
  function KeptEntries(rows: seq<Row>, today: Civil): (r: seq<Dated>)
    requires IsDate(today)
  {
    FlatMap(rows, EntryOf(today))
  }

  /** The rows that survive the filter, in sheet order. */
  function KeptRows(rows: seq<Row>, today: Civil): (r: seq<Row>)
    requires IsDate(today)
  {
    Rows(KeptEntries(rows, today))
  }

  /** The rendered grid and the dropdown's identifiers. */
  datatype Output = Output(grid: seq<Row>, ids: seq<string>)

  /** The sorted data rows below the header. */
  function Body(data: seq<Row>, today: Civil): (body: seq<Row>)
    requires IsDate(today)
  {
    Rows(SortByDay(KeptEntries(DataRows(data), today)))
  }

  /** The page contents for sheet rows `data` on day `today`. */
  function Process(data: seq<Row>, today: Civil): (out: Output)
    requires IsDate(today)
    ensures |out.grid| > 0 && out.grid[0] == HeaderRow(data)
  {
    var body := Body(data, today);
    Output([HeaderRow(data)] + body, DropdownIds(body))
  }

  /** The kept entries are exactly the kept rows, each tagged with its own
      day. */
  lemma KeptEntriesMembers(rows: seq<Row>, today: Civil)
    requires IsDate(today)
    ensures forall y :: y in KeptEntries(rows, today) <==>
      y.row in rows && Keep(y.row, today) && y.day == KeptDay(y.row, today)
  {
    FlatMapMembers(rows, EntryOf(today));
  }

  /** No more entries than rows. */
  lemma KeptEntriesShort(rows: seq<Row>, today: Civil)
    requires IsDate(today)
    ensures |KeptEntries(rows, today)| <= |rows|
  {
    FlatMapShort(rows, EntryOf(today));
  }

  /** The filter works row by row: filtering two sheets one after the
      other gives the same entries as filtering them joined. */
  lemma KeptEntriesAppend(s: seq<Row>, t: seq<Row>, today: Civil)
    requires IsDate(today)
    ensures KeptEntries(s + t, today) == KeptEntries(s, today) + KeptEntries(t, today)
  {
    FlatMapAppend(s, t, EntryOf(today));
  }

  /** A single row contributes its entry exactly when it is kept. */
  lemma KeptEntriesSingle(row: Row, today: Civil)
    requires IsDate(today)
    ensures KeptEntries([row], today) == if Keep(row, today) then [Dated(row, KeptDay(row, today))] else []
  {
    FlatMapSingle(row, EntryOf(today));
  }

  /** Helper: the entries of a sorted list of kept entries. */
  lemma SortedEntryIsKept(rows: seq<Row>, today: Civil, i: nat)
    requires IsDate(today)
    requires i < |SortByDay(KeptEntries(rows, today))|
    ensures var y := SortByDay(KeptEntries(rows, today))[i];
      y.row in rows && Keep(y.row, today) && y.day == KeptDay(y.row, today)
  {
    var e := KeptEntries(rows, today);
    SortByDayMembers(e);
    KeptEntriesMembers(rows, today);
    assert SortByDay(e)[i] in SortByDay(e);
  }

  /** The header row comes first and unchanged, the data rows follow. */
  lemma GridIsHeaderThenBody(data: seq<Row>, today: Civil)
    requires IsDate(today)
    ensures Process(data, today).grid == [HeaderRow(data)] + Body(data, today)
    ensures |Process(data, today).grid| == 1 + |KeptRows(DataRows(data), today)|
  {
  }

  /** The page's table: the sheet's first row unchanged, then each
      upcoming reservation once, in date order, with no other row. */
  lemma GridContract(data: seq<Row>, today: Civil)
    requires IsDate(today) && |data| > 0
    ensures var grid := Process(data, today).grid;
      grid[0] == data[0] &&
      var rows := grid[1..];
      multiset(rows) == multiset(KeptRows(data[1..], today))
      && (forall r :: r in rows <==> r in data[1..] && Keep(r, today))
      && (forall i :: 0 <= i < |rows| ==> Keep(rows[i], today))
      && (forall i, j :: 0 <= i < j < |rows| ==> KeptDay(rows[i], today) <= KeptDay(rows[j], today))
  {
    var body := Body(data, today);
    assert Process(data, today).grid[1..] == body by {
      GridIsHeaderThenBody(data, today);
    }
    assert DataRows(data) == data[1..];
    BodyIsUpcomingRows(data, today);
    BodyPermutesKeptRows(data, today);
    BodyIsSortedByDate(data, today);
  }

  /** A data row is emitted exactly when its derived date is a real date
      on or after today. */
  lemma BodyIsUpcomingRows(data: seq<Row>, today: Civil)
    requires IsDate(today)
    ensures forall r :: r in Body(data, today) <==> r in DataRows(data) && Keep(r, today)
  {
    forall r
      ensures r in Body(data, today) <==> r in DataRows(data) && Keep(r, today)
    {
      if r in Body(data, today) {
        EmittedRowIsKept(DataRows(data), today, r);
      }
      if r in DataRows(data) && Keep(r, today) {
        KeptRowIsEmitted(DataRows(data), today, r);
      }
    }
  }

  lemma EmittedRowIsKept(rows: seq<Row>, today: Civil, r: Row)
    requires IsDate(today)
    requires r in Rows(SortByDay(KeptEntries(rows, today)))
    ensures r in rows && Keep(r, today)
  {
    var body := Rows(SortByDay(KeptEntries(rows, today)));
    var i :| 0 <= i < |body| && body[i] == r;
    SortedEntryIsKept(rows, today, i);
  }

  lemma KeptRowIsEmitted(rows: seq<Row>, today: Civil, r: Row)
    requires IsDate(today)
    requires r in rows && Keep(r, today)
    ensures r in Rows(SortByDay(KeptEntries(rows, today)))
  {
    var e := KeptEntries(rows, today);
    var y := Dated(r, KeptDay(r, today));
    KeptEntriesMembers(rows, today);
    assert y in e;
    SortByDayMembers(e);
    EntryRowIsListed(SortByDay(e), y);
  }

  lemma EntryRowIsListed(s: seq<Dated>, y: Dated)
    requires y in s
    ensures y.row in Rows(s)
  {
    var i :| 0 <= i < |s| && s[i] == y;
    assert Rows(s)[i] == y.row;
  }

  /** No reservation before today is shown: every emitted row's derived
      date is real and not earlier than today. */
  lemma NoPastReservation(data: seq<Row>, today: Civil, r: Row)
    requires IsDate(today)
    requires r in Body(data, today)
    ensures DeriveDate(r, today).Some?
    ensures DayNumber(DeriveDate(r, today).value) >= DayNumber(today)
  {
    BodyIsUpcomingRows(data, today);
    OnOrAfterIsDateOrder(DeriveDate(r, today), today);
  }

  /** The emitted rows are the kept rows rearranged: none is lost,
      duplicated or invented, and no cell is changed. */
  lemma BodyPermutesKeptRows(data: seq<Row>, today: Civil)
    requires IsDate(today)
    ensures multiset(Body(data, today)) == multiset(KeptRows(DataRows(data), today))
  {
    SortByDayRows(KeptEntries(DataRows(data), today));
  }

  /** Emitted rows are in order of derived date. */
  lemma BodyIsSortedByDate(data: seq<Row>, today: Civil)
    requires IsDate(today)
    ensures forall i :: 0 <= i < |Body(data, today)| ==> Keep(Body(data, today)[i], today)
    ensures forall i, j :: 0 <= i < j < |Body(data, today)| ==>
      KeptDay(Body(data, today)[i], today) <= KeptDay(Body(data, today)[j], today)
  {
    var rows := DataRows(data);
    var s := SortByDay(KeptEntries(rows, today));
    SortByDaySorted(KeptEntries(rows, today));
    forall i | 0 <= i < |s|
      ensures Keep(s[i].row, today) && s[i].day == KeptDay(s[i].row, today)
    {
      SortedEntryIsKept(rows, today, i);
    }
  }

  /** Rows of the same date keep their sheet order. */
  lemma BodyIsStable(data: seq<Row>, today: Civil, k: int)
    requires IsDate(today)
    ensures var e := KeptEntries(DataRows(data), today);
      Rows(OnDay(SortByDay(e), k)) == Rows(OnDay(e, k))
  {
    SortByDayStable(KeptEntries(DataRows(data), today), k);
  }

  /** Any arrangement of the kept entries that is ordered by date and keeps
      the sheet order within each date, which is what a stable sort with
      the date comparator returns, lists exactly the emitted rows. */
  lemma BodyIsAnyStableSort(data: seq<Row>, today: Civil, t: seq<Dated>)
    requires IsDate(today)
    requires SortedByDay(t)
    requires forall k :: OnDay(t, k) == OnDay(KeptEntries(DataRows(data), today), k)
    ensures Rows(t) == Body(data, today)
  {
    StableSortIsUnique(KeptEntries(DataRows(data), today), t);
  }

  /** The dropdown offers, in ascending code-unit order and once each,
      exactly the identifiers of the emitted rows' room cells. */
  lemma IdsAreKeptRooms(data: seq<Row>, today: Civil)
    requires IsDate(today)
    ensures StrictlySorted(Process(data, today).ids)
    ensures forall id :: id in Process(data, today).ids <==>
      exists r :: r in DataRows(data) && Keep(r, today) && RoomKey(CellAt(r, RoomColumn)) == Some(id)
  {
    var body := Body(data, today);
    DropdownIdsSpec(body);
    BodyIsUpcomingRows(data, today);
    forall id
      ensures HasRoomKey(body, id) <==>
        exists r :: r in DataRows(data) && Keep(r, today) && RoomKey(CellAt(r, RoomColumn)) == Some(id)
    {
      if HasRoomKey(body, id) {
        var r :| r in body && RoomKey(CellAt(r, RoomColumn)) == Some(id);
        assert r in DataRows(data) && Keep(r, today);
      }
      if exists r :: r in DataRows(data) && Keep(r, today) && RoomKey(CellAt(r, RoomColumn)) == Some(id) {
        var r :| r in DataRows(data) && Keep(r, today) && RoomKey(CellAt(r, RoomColumn)) == Some(id);
        assert r in body;
      }
    }
  }
}
