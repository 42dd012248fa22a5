/** Sorting kept rows by their reservation day. The comparator only ever
    compares day numbers and Array.prototype.sort is stable, so the result
    is determined: the rows ordered by day, rows of the same day in their
    original order. `SortByDay` computes it by insertion, and
    `StableSortIsUnique` shows that any order with those two properties is
    this one. */
module DateSort {
  import opened Cells

  /** A row tagged with the day number it is sorted by. */
  datatype Dated = Dated(row: Row, day: int)

  predicate SortedByDay(s: seq<Dated>) {
    forall i, j :: 0 <= i < j < |s| ==> s[i].day <= s[j].day
  }

  /** Drops the tags, keeping the rows in order. */
  function Rows(s: seq<Dated>): (r: seq<Row>)
    ensures |r| == |s|
    ensures forall i :: 0 <= i < |s| ==> r[i] == s[i].row
  {
    seq(|s|, i requires 0 <= i < |s| => s[i].row)
  }

  /** The entries of day `k`, in the order they occur in `s`. */
  function OnDay(s: seq<Dated>, k: int): (r: seq<Dated>) {
    if |s| == 0 then []
    else OnDay(s[..|s| - 1], k) + (if s[|s| - 1].day == k then [s[|s| - 1]] else [])
  }

  /** Inserts `x` after every entry whose day is not later than its own. */
  function Insert(s: seq<Dated>, x: Dated): (r: seq<Dated>)
    ensures |r| == |s| + 1
  {
    if |s| == 0 then [x]
    else if s[|s| - 1].day <= x.day then s + [x]
    else Insert(s[..|s| - 1], x) + [s[|s| - 1]]
  }

  /** Stable sort by day, inserting the entries one at a time. */
  function SortByDay(s: seq<Dated>): (r: seq<Dated>)
    ensures |r| == |s|
  {
    if |s| == 0 then [] else Insert(SortByDay(s[..|s| - 1]), s[|s| - 1])
  }

  lemma {:induction false} OnDayAppend(a: seq<Dated>, b: seq<Dated>, k: int)
    ensures OnDay(a + b, k) == OnDay(a, k) + OnDay(b, k)
    decreases |b|
  {
    if |b| == 0 {
      assert a + b == a;
    } else {
      assert (a + b)[..|a + b| - 1] == a + b[..|b| - 1];
      OnDayAppend(a, b[..|b| - 1], k);
    }
  }

  /** OnDay picks out entries of `s`, all of day `k`. */
  lemma {:induction false} OnDayMembers(s: seq<Dated>, k: int)
    ensures forall y :: y in OnDay(s, k) ==> y in s && y.day == k
  {
    if |s| > 0 {
      OnDayMembers(s[..|s| - 1], k);
      assert s == s[..|s| - 1] + [s[|s| - 1]];
    }
  }

  /** Every entry of `s` turns up under its own day. */
  lemma {:induction false} OnDayOfMember(s: seq<Dated>, i: nat)
    requires i < |s|
    ensures s[i] in OnDay(s, s[i].day)
  {
    if i < |s| - 1 {
      OnDayOfMember(s[..|s| - 1], i);
    }
  }

  /** Inserting keeps an upper bound on the days. */
  lemma {:induction false} InsertBounded(s: seq<Dated>, x: Dated, b: int)
    requires forall i :: 0 <= i < |s| ==> s[i].day <= b
    requires x.day <= b
    ensures forall i :: 0 <= i < |s| + 1 ==> Insert(s, x)[i].day <= b
  {
    if |s| > 0 && s[|s| - 1].day > x.day {
      InsertBounded(s[..|s| - 1], x, b);
    }
  }

  lemma {:induction false} InsertSorted(s: seq<Dated>, x: Dated)
    requires SortedByDay(s)
    ensures SortedByDay(Insert(s, x))
  {
    if |s| > 0 && s[|s| - 1].day > x.day {
      var init, last := s[..|s| - 1], s[|s| - 1];
      InsertSorted(init, x);
      InsertBounded(init, x, last.day);
    }
  }

  /** Inserting adds `x` and nothing else. */
  lemma {:induction false} InsertMembers(s: seq<Dated>, x: Dated)
    ensures forall y :: y in Insert(s, x) <==> y == x || y in s
  {
    if |s| > 0 && s[|s| - 1].day > x.day {
      var init, last := s[..|s| - 1], s[|s| - 1];
      InsertMembers(init, x);
      assert s == init + [last];
    }
  }

  lemma {:induction false} InsertRows(s: seq<Dated>, x: Dated)
    ensures multiset(Rows(Insert(s, x))) == multiset(Rows(s)) + multiset{x.row}
  {
    if |s| == 0 {
    } else if s[|s| - 1].day <= x.day {
      assert Rows(s + [x]) == Rows(s) + [x.row];
    } else {
      var init, last := s[..|s| - 1], s[|s| - 1];
      InsertRows(init, x);
      assert Rows(Insert(init, x) + [last]) == Rows(Insert(init, x)) + [last.row];
      assert Rows(s) == Rows(init) + [last.row];
    }
  }

  /** Inserting into a sorted sequence appends to the inserted entry's day
      group: it goes after the entries of its own day already there. */
  lemma {:induction false} InsertOnDay(s: seq<Dated>, x: Dated, k: int)
    requires SortedByDay(s)
    ensures OnDay(Insert(s, x), k) == OnDay(s, k) + (if x.day == k then [x] else [])
  {
    if |s| == 0 {
      assert [x][..0] == [];
    } else if s[|s| - 1].day <= x.day {
      assert (s + [x])[..|s|] == s;
    } else {
      var init, last := s[..|s| - 1], s[|s| - 1];
      InsertOnDay(init, x, k);
      var r := Insert(init, x) + [last];
      assert r[..|r| - 1] == Insert(init, x);
    }
  }

  lemma {:induction false} SortByDaySorted(s: seq<Dated>)
    ensures SortedByDay(SortByDay(s))
  {
    if |s| > 0 {
      SortByDaySorted(s[..|s| - 1]);
      InsertSorted(SortByDay(s[..|s| - 1]), s[|s| - 1]);
    }
  }

  /** Sorting neither adds nor loses an entry (with `SortByDayRows`,
      not even a duplicate). */
  lemma {:induction false} SortByDayMembers(s: seq<Dated>)
    ensures forall y :: y in SortByDay(s) <==> y in s
  {
    if |s| > 0 {
      var init, last := s[..|s| - 1], s[|s| - 1];
      SortByDayMembers(init);
      InsertMembers(SortByDay(init), last);
      assert s == init + [last];
    }
  }

  /** The sorted rows are the input rows rearranged. */
  lemma {:induction false} SortByDayRows(s: seq<Dated>)
    ensures multiset(Rows(SortByDay(s))) == multiset(Rows(s))
  {
    if |s| > 0 {
      SortByDayRows(s[..|s| - 1]);
      InsertRows(SortByDay(s[..|s| - 1]), s[|s| - 1]);
      assert Rows(s) == Rows(s[..|s| - 1]) + [s[|s| - 1].row];
    }
  }

  /** Stability: the entries of each day keep their input order. */
  lemma {:induction false} SortByDayStable(s: seq<Dated>, k: int)
    ensures OnDay(SortByDay(s), k) == OnDay(s, k)
  {
    if |s| > 0 {
      var init := s[..|s| - 1];
      SortByDayStable(init, k);
      SortByDaySorted(init);
      InsertOnDay(SortByDay(init), s[|s| - 1], k);
    }
  }

  /** Two day-sorted sequences holding the same entries for every day, in
      the same order, are equal. */
  lemma {:induction false} SortedByDayUnique(t: seq<Dated>, u: seq<Dated>)
    requires SortedByDay(t) && SortedByDay(u)
    requires forall k :: OnDay(t, k) == OnDay(u, k)
    ensures t == u
    decreases |t|
  {
    if |t| == 0 {
      EmptyAgrees(t, u);
    } else if |u| == 0 {
      EmptyAgrees(u, t);
    } else {
      LastEntriesAgree(t, u);
      var t', u', a := t[..|t| - 1], u[..|u| - 1], t[|t| - 1];
      assert t == t' + [a];
      assert u == u' + [a];
      PrefixesAgree(t', u', a);
      SortedPrefix(t);
      SortedPrefix(u);
      SortedByDayUnique(t', u');
    }
  }

  lemma SortedPrefix(s: seq<Dated>)
    requires SortedByDay(s) && 0 < |s|
    ensures SortedByDay(s[..|s| - 1])
  {
  }

  /** Helper for uniqueness: only the empty sequence has no entry on any
      day. */
  lemma EmptyAgrees(t: seq<Dated>, u: seq<Dated>)
    requires |t| == 0
    requires forall k :: OnDay(t, k) == OnDay(u, k)
    ensures |u| == 0
  {
    if |u| > 0 {
      OnDayOfMember(u, |u| - 1);
      assert false;
    }
  }

  /** Helper for uniqueness: both sequences end with the same entry. */
  lemma LastEntriesAgree(t: seq<Dated>, u: seq<Dated>)
    requires SortedByDay(t) && SortedByDay(u) && 0 < |t| && 0 < |u|
    requires forall k :: OnDay(t, k) == OnDay(u, k)
    ensures t[|t| - 1] == u[|u| - 1]
  {
    var a, b := t[|t| - 1], u[|u| - 1];
    LastDaysAgree(t, u);
    var group := OnDay(t, a.day);
    assert group == OnDay(u, a.day);
    assert group == OnDay(t[..|t| - 1], a.day) + [a];
    assert group == OnDay(u[..|u| - 1], a.day) + [b];
    assert group[|group| - 1] == a;
  }

  /** Helper for uniqueness: both sequences end on the same day. */
  lemma LastDaysAgree(t: seq<Dated>, u: seq<Dated>)
    requires SortedByDay(t) && SortedByDay(u) && 0 < |t| && 0 < |u|
    requires forall k :: OnDay(t, k) == OnDay(u, k)
    ensures t[|t| - 1].day == u[|u| - 1].day
  {
    var a, b := t[|t| - 1], u[|u| - 1];
    if a.day < b.day {
      assert OnDay(t, b.day) == OnDay(u, b.day);
      LastDayIsMax(t, u, b);
      assert false;
    } else if b.day < a.day {
      assert OnDay(t, a.day) == OnDay(u, a.day);
      LastDayIsMax(u, t, a);
      assert false;
    }
  }

  /** Helper for uniqueness: with the last entries equal, the rest agree
      day by day too. */
  lemma PrefixesAgree(t: seq<Dated>, u: seq<Dated>, a: Dated)
    requires forall k :: OnDay(t + [a], k) == OnDay(u + [a], k)
    ensures forall k :: OnDay(t, k) == OnDay(u, k)
  {
    forall k
      ensures OnDay(t, k) == OnDay(u, k)
    {
      var tail := if a.day == k then [a] else [];
      var pt, pu := OnDay(t, k), OnDay(u, k);
      assert (t + [a])[..|t|] == t;
      assert (u + [a])[..|u|] == u;
      assert OnDay(t + [a], k) == pt + tail;
      assert OnDay(u + [a], k) == pu + tail;
      assert |pt| == |pu|;
      assert pt == (pt + tail)[..|pt|];
      assert pu == (pu + tail)[..|pu|];
    }
  }

  /** Helper for uniqueness: the last entry of `u` has a day that `t`, whose
      days all stay below it, cannot hold. */
  lemma LastDayIsMax(t: seq<Dated>, u: seq<Dated>, b: Dated)
    requires SortedByDay(t) && 0 < |t| && 0 < |u| && b == u[|u| - 1]
    requires t[|t| - 1].day < b.day
    ensures OnDay(t, b.day) != OnDay(u, b.day)
  {
    OnDayOfMember(u, |u| - 1);
    OnDayMembers(t, b.day);
  }

  /** Whatever stable sorting algorithm produced `t`, it is `SortByDay`'s
      result. */
  lemma StableSortIsUnique(s: seq<Dated>, t: seq<Dated>)
    requires SortedByDay(t)
    requires forall k :: OnDay(t, k) == OnDay(s, k)
    ensures t == SortByDay(s)
  {
    SortByDaySorted(s);
    forall k
      ensures OnDay(t, k) == OnDay(SortByDay(s), k)
    {
      SortByDayStable(s, k);
    }
    SortedByDayUnique(t, SortByDay(s));
  }
}
