/** The page script's room filter: choosing an entry in the dropdown shows
    the data rows whose room cell names that room and hides the others.
    The table's header row is never touched. */
module RoomFilter {
  import opened Options
  import opened JsString
  import opened Cells
  import opened RoomIds

  /** The visibility test for a row whose room cell reads `cellText`. */
  predicate Visible(selection: string, cellText: string) {
    selection == "" || RoomText(cellText) == selection
  }

  /** The room cells of the rendered data rows: the text of each row's room
      cell, or None for a row without one. The header row is not among
      them. */
  function TableRooms(body: seq<Row>): (rooms: seq<Option<string>>)
    ensures |rooms| == |body|
    ensures forall i :: 0 <= i < |body| ==> rooms[i] == Some(DisplayText(CellAt(body[i], RoomColumn)))
  {
    seq(|body|, i requires 0 <= i < |body| => Some(DisplayText(CellAt(body[i], RoomColumn))))
  }

  /** applyFilter: `shown` holds whether each data row is displayed; rows
      with a room cell get the visibility test's answer, rows without one
      keep their state. */
  function ApplyFilter(selection: string, rooms: seq<Option<string>>, shown: seq<bool>): (after: seq<bool>)
    requires |rooms| == |shown|
    ensures |after| == |shown|
    ensures forall i :: 0 <= i < |rooms| && rooms[i].None? ==> after[i] == shown[i]
    ensures forall i :: 0 <= i < |rooms| && rooms[i].Some? ==> (after[i] <==> Visible(selection, rooms[i].value))
  {
    seq(|shown|, i requires 0 <= i < |shown| =>
      if rooms[i].Some? then Visible(selection, rooms[i].value) else shown[i])
  }

  /** "Show All Rooms" displays every row that has a room cell. */
  lemma ShowAllShowsEveryRow(rooms: seq<Option<string>>, shown: seq<bool>, i: nat)
    requires |rooms| == |shown| && i < |rooms| && rooms[i].Some?
    ensures ApplyFilter("", rooms, shown)[i]
  {
  }

  /** Only the latest selection matters: filtering again overrides every
      decision the earlier filter made. */
  lemma LastSelectionWins(a: string, b: string, rooms: seq<Option<string>>, shown: seq<bool>)
    requires |rooms| == |shown|
    ensures ApplyFilter(b, rooms, ApplyFilter(a, rooms, shown)) == ApplyFilter(b, rooms, shown)
  {
  }

  /** Re-selecting the same entry changes nothing. */
  lemma ApplyFilterIdempotent(a: string, rooms: seq<Option<string>>, shown: seq<bool>)
    requires |rooms| == |shown|
    ensures ApplyFilter(a, rooms, ApplyFilter(a, rooms, shown)) == ApplyFilter(a, rooms, shown)
  {
    LastSelectionWins(a, a, rooms, shown);
  }

  /** The text the filter reads from a rendered room cell leads to the
      cell's identifier; a falsy cell, which has none, reads as "" or,
      for the number 0, as "0". */
  lemma TableTextOfCell(c: Cell)
    ensures Truthy(c) ==> RoomText(DisplayText(c)) == RoomKey(c).value
    ensures c.Empty? || c == Text("") ==> RoomText(DisplayText(c)) == ""
    ensures c == Number(0) ==> RoomText(DisplayText(c)) == "0"
  {
    if c == Number(0) {
      ZeroCellText();
    } else if c.Empty? || c == Text("") {
      BlankCellText(c);
    }
  }

  lemma ZeroCellText()
    ensures RoomText(DisplayText(Number(0))) == "0"
  {
    var t := DisplayText(Number(0));
    assert t == "0";
    TrimPadded("", t, "");
    assert "" + t + "" == t;
    assert !StartsWith(t, RoomPrefix);
  }

  lemma BlankCellText(c: Cell)
    requires c.Empty? || c == Text("")
    ensures RoomText(DisplayText(c)) == ""
  {
    assert DisplayText(c) == "";
    TrimPadded("", "", "");
    assert "" + "" + "" == "";
  }

  /** Choosing a room identifier shows exactly the rows whose room cell
      yields it, save that an identifier "0" also shows rows whose room
      cell is the number 0 (falsy, so they never yield an identifier
      themselves) and that the identifier "" shows every row. */
  lemma SelectionShowsItsRooms(body: seq<Row>, id: string, shown: seq<bool>, i: nat)
    requires |shown| == |body| && i < |body|
    ensures ApplyFilter(id, TableRooms(body), shown)[i] <==>
      id == ""
      || RoomKey(CellAt(body[i], RoomColumn)) == Some(id)
      || (id == "0" && CellAt(body[i], RoomColumn) == Number(0))
  {
    var c := CellAt(body[i], RoomColumn);
    TableTextOfCell(c);
    assert TableRooms(body)[i] == Some(DisplayText(c));
  }

  /** Every identifier the dropdown offers shows at least one row. */
  lemma OfferedRoomIsShown(body: seq<Row>, id: string, shown: seq<bool>)
    requires |shown| == |body|
    requires id in DropdownIds(body)
    ensures exists i :: 0 <= i < |body| && ApplyFilter(id, TableRooms(body), shown)[i]
  {
    DropdownIdsSpec(body);
    var r :| r in body && RoomKey(CellAt(r, RoomColumn)) == Some(id);
    var i :| 0 <= i < |body| && body[i] == r;
    SelectionShowsItsRooms(body, id, shown, i);
  }

  /** A row whose room cell is the number 0 adds no identifier but is
      shown when an identifier "0" from another row is selected. */
  lemma ZeroRoomCellMatchesZero(body: seq<Row>, shown: seq<bool>, i: nat)
    requires |shown| == |body| && i < |body|
    requires CellAt(body[i], RoomColumn) == Number(0)
    ensures RoomKey(CellAt(body[i], RoomColumn)).None?
    ensures ApplyFilter("0", TableRooms(body), shown)[i]
  {
    SelectionShowsItsRooms(body, "0", shown, i);
  }
}
