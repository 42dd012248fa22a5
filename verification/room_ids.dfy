/** The room filter's identifiers: each kept row's room cell, trimmed and
    without a leading "Room: ", collected into a set, listed in the
    default sort order and rendered as `<option>` elements after a
    "Show All Rooms" entry. */
module RoomIds {
  import opened Options
  import opened JsString
  import opened Cells

  const RoomPrefix: string := "Room: "

  /** Removes one leading "Room: ", if there is one. */
  function StripRoomPrefix(s: string): (r: string)
    ensures |r| <= |s| && r == s[|s| - |r|..]
    ensures StartsWith(s, RoomPrefix) ==> s == RoomPrefix + r
    ensures !StartsWith(s, RoomPrefix) ==> r == s
  {
    if StartsWith(s, RoomPrefix) then s[|RoomPrefix|..] else s
  }

  /** A room label as the page compares it: trimmed, then without the
      prefix. The same steps run when collecting identifiers and when a
      table cell is compared with the selection. */
  function RoomText(s: string): (r: string) {
    StripRoomPrefix(Trim(s))
  }

  /** The identifier a room cell contributes, or None for a falsy cell. */
  function RoomKey(c: Cell): (k: Option<string>)
    ensures k.Some? <==> Truthy(c)
  {
    if Truthy(c) then Some(RoomText(ToJsString(c))) else None
  }

  /** Some row of `rows` has a room cell whose identifier is `id`. */
  predicate HasRoomKey(rows: seq<Row>, id: string) {
    exists r :: r in rows && RoomKey(CellAt(r, RoomColumn)) == Some(id)
  }

  /** The identifiers in the order the loop adds them to the set. */
  function RoomKeys(rows: seq<Row>): (keys: seq<string>) {
    if |rows| == 0 then []
    else
      var k := RoomKey(CellAt(rows[|rows| - 1], RoomColumn));
      RoomKeys(rows[..|rows| - 1]) + (if k.Some? then [k.value] else [])
  }

  predicate Distinct(s: seq<string>) {
    forall i, j :: 0 <= i < j < |s| ==> s[i] != s[j]
  }

  /** The elements of a JavaScript Set built by adding `s` in order: each
      string once, at its first occurrence. */
  function Dedupe(s: seq<string>): (r: seq<string>)
    ensures Distinct(r)
    ensures forall x :: x in r <==> x in s
  {
    if |s| == 0 then []
    else
      var d := Dedupe(s[..|s| - 1]);
      assert forall x :: x in s <==> x in s[..|s| - 1] || x == s[|s| - 1] by {
        assert s == s[..|s| - 1] + [s[|s| - 1]];
      }
      if s[|s| - 1] in d then d else d + [s[|s| - 1]]
  }

  /** Ascending in code-unit order with no repetition. */
  predicate StrictlySorted(s: seq<string>) {
    forall i, j :: 0 <= i < j < |s| ==> CodeUnitLe(s[i], s[j]) && s[i] != s[j]
  }

  /** Inserts `x` before the first element not below it. */
  function InsertString(x: string, s: seq<string>): (r: seq<string>)
    ensures |r| == |s| + 1
    ensures forall y :: y in r <==> y == x || y in s
  {
    if |s| == 0 then [x]
    else if CodeUnitLe(x, s[0]) then [x] + s
    else [s[0]] + InsertString(x, s[1..])
  }

  /** Array.prototype.sort without a comparator, on strings. */
  function SortStrings(s: seq<string>): (r: seq<string>)
    ensures |r| == |s|
    ensures forall y :: y in r <==> y in s
  {
    if |s| == 0 then [] else InsertString(s[0], SortStrings(s[1..]))
  }

  lemma {:induction false} InsertStringMultiset(x: string, s: seq<string>)
    ensures multiset(InsertString(x, s)) == multiset(s) + multiset{x}
  {
    if |s| > 0 && !CodeUnitLe(x, s[0]) {
      InsertStringMultiset(x, s[1..]);
      assert s == [s[0]] + s[1..];
    }
  }

  /** Sorting rearranges the strings: each occurs as often as before. */
  lemma {:induction false} SortStringsPermutes(s: seq<string>)
    ensures multiset(SortStrings(s)) == multiset(s)
  {
    if |s| > 0 {
      SortStringsPermutes(s[1..]);
      InsertStringMultiset(s[0], SortStrings(s[1..]));
      assert s == [s[0]] + s[1..];
    }
  }

  /** The identifiers listed in the dropdown, in order. */
  function DropdownIds(rows: seq<Row>): (ids: seq<string>) {
    SortStrings(Dedupe(RoomKeys(rows)))
  }

  lemma {:induction false} RoomKeysMembers(rows: seq<Row>)
    ensures forall id :: id in RoomKeys(rows) <==> HasRoomKey(rows, id)
  {
    if |rows| > 0 {
      var init, last := rows[..|rows| - 1], rows[|rows| - 1];
      RoomKeysMembers(init);
      assert rows == init + [last];
      forall id
        ensures HasRoomKey(rows, id) <==> HasRoomKey(init, id) || RoomKey(CellAt(last, RoomColumn)) == Some(id)
      {
        HasRoomKeyAppend(init, last, id);
      }
    }
  }

  /** Helper: a key of `init + [last]` is a key of `init` or of `last`. */
  lemma HasRoomKeyAppend(init: seq<Row>, last: Row, id: string)
    ensures HasRoomKey(init + [last], id) <==> HasRoomKey(init, id) || RoomKey(CellAt(last, RoomColumn)) == Some(id)
  {
    if HasRoomKey(init + [last], id) {
      HasRoomKeySplit(init, last, id);
    }
    if HasRoomKey(init, id) {
      HasRoomKeyGrow(init, last, id);
    }
    assert last in init + [last];
  }

  lemma HasRoomKeySplit(init: seq<Row>, last: Row, id: string)
    requires HasRoomKey(init + [last], id)
    ensures HasRoomKey(init, id) || RoomKey(CellAt(last, RoomColumn)) == Some(id)
  {
    var r :| r in init + [last] && RoomKey(CellAt(r, RoomColumn)) == Some(id);
    if r != last {
      assert r in init;
    }
  }

  lemma HasRoomKeyGrow(init: seq<Row>, last: Row, id: string)
    requires HasRoomKey(init, id)
    ensures HasRoomKey(init + [last], id)
  {
    var r :| r in init && RoomKey(CellAt(r, RoomColumn)) == Some(id);
    assert r in init + [last];
  }

  lemma {:induction false} InsertStringSorted(x: string, s: seq<string>)
    requires StrictlySorted(s) && x !in s
    ensures StrictlySorted(InsertString(x, s))
  {
    if |s| > 0 && !CodeUnitLe(x, s[0]) {
      CodeUnitLeTotal(x, s[0]);
      InsertStringSorted(x, s[1..]);
      var r := InsertString(x, s);
      forall j | 0 < j < |r|
        ensures CodeUnitLe(r[0], r[j]) && r[0] != r[j]
      {
        assert r[j] in InsertString(x, s[1..]);
      }
    } else if |s| > 0 {
      forall j | 0 <= j < |s|
        ensures CodeUnitLe(x, s[j])
      {
        if j > 0 {
          CodeUnitLeTransitive(x, s[0], s[j]);
        }
      }
    }
  }

  /** Sorting distinct strings lists them in strictly ascending order. */
  lemma {:induction false} SortStringsSorted(s: seq<string>)
    requires Distinct(s)
    ensures StrictlySorted(SortStrings(s))
  {
    if |s| > 0 {
      SortStringsSorted(s[1..]);
      assert s[0] !in s[1..];
      InsertStringSorted(s[0], SortStrings(s[1..]));
    }
  }

  /** The dropdown lists each identifier of a row once, in ascending
      code-unit order, and nothing else. */
  lemma DropdownIdsSpec(rows: seq<Row>)
    ensures StrictlySorted(DropdownIds(rows))
    ensures forall id :: id in DropdownIds(rows) <==> HasRoomKey(rows, id)
  {
    SortStringsSorted(Dedupe(RoomKeys(rows)));
    RoomKeysMembers(rows);
  }

  /** A strictly ascending list is fixed by its elements. */
  lemma {:induction false} StrictlySortedUnique(a: seq<string>, b: seq<string>)
    requires StrictlySorted(a) && StrictlySorted(b)
    requires forall x :: x in a <==> x in b
    ensures a == b
    decreases |a|
  {
    if |a| == 0 {
      if |b| > 0 {
        FirstIsMember(b);
        assert false;
      }
    } else if |b| == 0 {
      FirstIsMember(a);
      assert false;
    } else {
      SameFirst(a, b);
      assert a == [a[0]] + a[1..] && b == [b[0]] + b[1..];
      forall x
        ensures x in a[1..] <==> x in b[1..]
      {
        if x in a[1..] {
          var k :| 1 <= k < |a| && a[k] == x;
          assert x != a[0] && x in b;
          var m :| 0 <= m < |b| && b[m] == x;
          assert m != 0 && b[m] == b[1..][m - 1];
        }
        if x in b[1..] {
          var k :| 1 <= k < |b| && b[k] == x;
          assert x != b[0] && x in a;
          var m :| 0 <= m < |a| && a[m] == x;
          assert m != 0 && a[m] == a[1..][m - 1];
        }
      }
      StrictlySortedUnique(a[1..], b[1..]);
    }
  }

  lemma FirstIsMember(s: seq<string>)
    requires 0 < |s|
    ensures s[0] in s
  {
  }

  /** Helper for uniqueness: both lists start with their least element. */
  lemma SameFirst(a: seq<string>, b: seq<string>)
    requires StrictlySorted(a) && StrictlySorted(b) && 0 < |a| && 0 < |b|
    requires forall x :: x in a <==> x in b
    ensures a[0] == b[0]
  {
    assert a[0] in b && b[0] in a;
    var i :| 0 <= i < |b| && b[i] == a[0];
    var j :| 0 <= j < |a| && a[j] == b[0];
    if i > 0 && j > 0 {
      CodeUnitLeAntisymmetric(a[0], b[0]);
    }
  }

  /** The dropdown depends only on which identifiers occur, not on the
      order, number or multiplicity of the rows carrying them. */
  lemma DropdownIdsDetermined(a: seq<Row>, b: seq<Row>)
    requires forall id :: HasRoomKey(a, id) <==> HasRoomKey(b, id)
    ensures DropdownIds(a) == DropdownIds(b)
  {
    DropdownIdsSpec(a);
    DropdownIdsSpec(b);
    StrictlySortedUnique(DropdownIds(a), DropdownIds(b));
  }

  /** "Room: " followed by an identifier gives the identifier back, and
      only one prefix is removed. */
  lemma StripRoomPrefixOfPrefixed(id: string)
    ensures StripRoomPrefix(RoomPrefix + id) == id
  {
    assert (RoomPrefix + id)[..|RoomPrefix|] == RoomPrefix;
  }

  /** A label "Room: <id>", padded with white space, names room `id`
      when `id` does not end in white space. */
  lemma RoomTextOfLabel(w1: string, id: string, w2: string)
    requires AllWhitespace(w1) && AllWhitespace(w2)
    requires |id| > 0 && !IsWhitespace(id[|id| - 1])
    ensures RoomText(w1 + RoomPrefix + id + w2) == id
  {
    var text := RoomPrefix + id;
    assert text[0] == RoomPrefix[0];
    assert text[|text| - 1] == id[|id| - 1];
    assert w1 + RoomPrefix + id + w2 == w1 + text + w2;
    TrimPadded(w1, text, w2);
    StripRoomPrefixOfPrefixed(id);
  }

  /** The prefix alone is trimmed to "Room:" before the prefix test, so it
      is no longer a prefix and stays. */
  lemma BarePrefixStays()
    ensures RoomText(RoomPrefix) == "Room:"
  {
    var t := "Room:";
    assert RoomPrefix == "" + t + " ";
    TrimPadded("", t, " ");
    assert !StartsWith(t, RoomPrefix);
  }

  /** A text cell of white space only is truthy yet yields the empty
      identifier, the value the "Show All Rooms" entry already has. */
  lemma BlankLabelGivesEmptyId(w: string)
    requires |w| > 0 && AllWhitespace(w)
    ensures RoomKey(Text(w)) == Some("")
  {
    TrimPadded(w, "", "");
    assert w + "" + "" == w;
  }

  /** One `<option>` of the dropdown. */
  datatype Choice = Choice(value: string, caption: string)

  const ShowAll: Choice := Choice("", "Show All Rooms")

  /** The dropdown entries: "Show All Rooms" with the empty value first,
      then one entry per identifier whose value is its label. */
  function DropdownChoices(ids: seq<string>): (cs: seq<Choice>)
    ensures |cs| == |ids| + 1 && cs[0] == ShowAll
    ensures forall i :: 0 <= i < |ids| ==> cs[i + 1].value == ids[i] && cs[i + 1].caption == ids[i]
  {
    [ShowAll] + seq(|ids|, i requires 0 <= i < |ids| => Choice(ids[i], ids[i]))
  }

  /** The markup of one entry; values are not escaped. */
  function RenderChoice(c: Choice): (html: string) {
    OptionOpen + c.value + OptionMiddle + c.caption + OptionClose
  }

  const OptionOpen: string := "<option value=\""
  const OptionMiddle: string := "\">"
  const OptionClose: string := "</option>"

  function RenderChoices(cs: seq<Choice>): (html: string) {
    if |cs| == 0 then "" else RenderChoices(cs[..|cs| - 1]) + RenderChoice(cs[|cs| - 1])
  }

  lemma DropdownChoicesAppend(ids: seq<string>, id: string)
    ensures DropdownChoices(ids + [id]) == DropdownChoices(ids) + [Choice(id, id)]
  {
  }

  /** The "Show All Rooms" option as the page writes it. */
  const ShowAllHtml: string := "<option value=\"\">Show All Rooms</option>"

  lemma ShowAllMarkup()
    ensures RenderChoices([ShowAll]) == ShowAllHtml
  {
    assert [ShowAll][..0] == [];
  }

  /** The markup always opens with the "Show All Rooms" option. */
  lemma {:induction false} OptionsStartWithShowAll(ids: seq<string>)
    ensures StartsWith(RenderChoices(DropdownChoices(ids)), ShowAllHtml)
    decreases |ids|
  {
    if |ids| == 0 {
      ShowAllMarkup();
      assert DropdownChoices(ids) == [ShowAll];
      StartsWithSelf(ShowAllHtml);
    } else {
      var init := ids[..|ids| - 1];
      var before := RenderChoices(DropdownChoices(init));
      var last := RenderChoice(Choice(ids[|ids| - 1], ids[|ids| - 1]));
      OptionsStartWithShowAll(init);
      NextOption(ids, |ids| - 1);
      assert ids[..|ids|] == ids;
      assert RenderChoices(DropdownChoices(ids)) == before + last;
      StartsWithAppend(before, ShowAllHtml, last);
    }
  }

  /** The options markup built by appending one `<option>` per identifier
      to the "Show All Rooms" option, as the page script's loop does. */
  method BuildOptionsHtml(ids: seq<string>) returns (html: string)
    ensures html == RenderChoices(DropdownChoices(ids))
  {
    html := ShowAllHtml;
    ShowAllMarkup();
    assert DropdownChoices(ids[..0]) == [ShowAll];
    var i := 0;
    while i < |ids|
      invariant 0 <= i <= |ids|
      invariant html == RenderChoices(DropdownChoices(ids[..i]))
    {
      var id := ids[i];
      html := html + (OptionOpen + id + OptionMiddle + id + OptionClose);
      NextOption(ids, i);
      i := i + 1;
    }
    assert ids[..i] == ids;
  }

  /** Helper for the loop: one more identifier appends its option. */
  lemma NextOption(ids: seq<string>, i: nat)
    requires i < |ids|
    ensures RenderChoices(DropdownChoices(ids[..i + 1]))
      == RenderChoices(DropdownChoices(ids[..i])) + RenderChoice(Choice(ids[i], ids[i]))
  {
    var cs := DropdownChoices(ids[..i]);
    assert ids[..i + 1] == ids[..i] + [ids[i]];
    DropdownChoicesAppend(ids[..i], ids[i]);
    var cs' := cs + [Choice(ids[i], ids[i])];
    assert cs'[..|cs'| - 1] == cs;
  }
}
