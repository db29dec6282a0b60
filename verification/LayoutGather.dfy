/** Emptying a layout into one list (libAfterBase/layout.c): the rows one in front of the other, each from left
    to right, and the switched-off elements at the end. */
module LayoutGather {
  import opened Common
  import opened LayoutGrid

  /** The elements of row r to the right of column c, from left to right. */
  ghost function RowSeq(grid: Grid, r: nat, c: int): seq<LayoutElem>
    requires -1 <= c
    decreases MAX_SIZE - c
  {
    if c >= MAX_SIZE then []
    else
      var n := Next(RowSet(grid, r), c);
      if n < MAX_SIZE && Slot(r, n) in grid then [grid[Slot(r, n)]] + RowSeq(grid, r, n) else []
  }

  /** The rows before n, the last one in front. */
  ghost function RowsBackwards(grid: Grid, n: nat): seq<LayoutElem>
  {
    if n == 0 then [] else RowSeq(grid, n - 1, -1) + RowsBackwards(grid, n - 1)
  }

  /** The k-th of s, and past its last the end. */
  ghost function Link(s: seq<LayoutElem>, k: nat, end: LayoutElem?): LayoutElem?
  {
    if k < |s| then s[k] else end
  }

  /** A list leads from head through s, and on to end. */
  ghost predicate Leads(head: LayoutElem?, s: seq<LayoutElem>, end: LayoutElem?, all: set<LayoutElem>)
    reads all`right
  {
    && head == Link(s, 0, end) && (forall k :: 0 <= k < |s| ==> s[k] in all)
    && forall k {:trigger s[k].right} :: 0 <= k < |s| ==> s[k].right == Link(s, k + 1, end)
  }

  ghost predicate InRow(grid: Grid, r: nat, c: int, e: LayoutElem)
  {
    exists s :: s in grid && s.row == r && s.col > c && grid[s] == e
  }

  /** The elements of a row stand in it, in the order of their columns. */
  lemma {:induction false} RowSeqIs(grid: Grid, r: nat, c: int)
    requires -1 <= c
    ensures forall k :: 0 <= k < |RowSeq(grid, r, c)| ==> InRow(grid, r, c, RowSeq(grid, r, c)[k])
    ensures forall s :: s in grid && s.row == r && c < s.col < MAX_SIZE ==> grid[s] in RowSeq(grid, r, c)
    decreases MAX_SIZE - c
  {
    if c < MAX_SIZE {
      var n := Next(RowSet(grid, r), c);
      forall s | s in grid && s.row == r && c < s.col < MAX_SIZE ensures n <= s.col {
        assert s.col in RowSet(grid, r);
      }
      if n < MAX_SIZE {
        assert n in RowSet(grid, r);
        RowSeqIs(grid, r, n);
        var row, rest := RowSeq(grid, r, c), RowSeq(grid, r, n);
        assert row == [grid[Slot(r, n)]] + rest;
        forall k | 0 <= k < |row| ensures InRow(grid, r, c, row[k]) {
          assert k > 0 ==> row[k] == rest[k - 1] && InRow(grid, r, n, rest[k - 1]);
        }
        forall s | s in grid && s.row == r && c < s.col < MAX_SIZE ensures grid[s] in RowSeq(grid, r, c) {
          assert s.col == n ==> s == Slot(r, n);
        }
      }
    }
  }

  /** A linked row leads through its elements. */
  lemma {:induction false} RowLeads(rows: seq<LayoutElem?>, grid: Grid, elems: set<LayoutElem>, r: nat, c: int)
    requires RowLinked(rows, grid, elems) && Placed(grid, elems) && -1 <= c < MAX_SIZE
    ensures Leads(RightOf(grid, r, c), RowSeq(grid, r, c), null, elems)
    decreases MAX_SIZE - c
  {
    var n := Next(RowSet(grid, r), c);
    if n < MAX_SIZE && Slot(r, n) in grid {
      RowLeads(rows, grid, elems, r, n);
      var row, rest := RowSeq(grid, r, c), RowSeq(grid, r, n);
      assert row == [grid[Slot(r, n)]] + rest;
      forall k | 0 <= k < |row| ensures row[k] in elems && row[k].right == Link(row, k + 1, null) {
        if k > 0 {
          assert row[k] == rest[k - 1] && rest[k - 1].right == Link(rest, k, null);
        } else {
          assert row[0].right == RightOf(grid, r, n);
        }
      }
    } else {
      assert n in RowSet(grid, r) <==> Slot(r, n) in grid;
    }
  }

  lemma LeadsOn(head: LayoutElem?, s: seq<LayoutElem>, mid: LayoutElem?, t: seq<LayoutElem>, end: LayoutElem?,
                all: set<LayoutElem>)
    requires Leads(head, s, mid, all) && Leads(mid, t, end, all)
    ensures Leads(head, s + t, end, all)
  {
    var r := s + t;
    forall k | 0 <= k < |r| ensures r[k] in all && r[k].right == Link(r, k + 1, end) {
      if k < |s| {
        assert r[k] == s[k] && s[k].right == Link(s, k + 1, mid);
      } else {
        assert r[k] == t[k - |s|] && t[k - |s|].right == Link(t, k - |s| + 1, end);
      }
    }
  }

  /** The elements of a row know their row, and are in the order of their columns. */
  lemma {:induction false} RowSeqAscends(grid: Grid, elems: set<LayoutElem>, r: nat, c: int)
    requires Placed(grid, elems) && -1 <= c
    ensures forall k :: 0 <= k < |RowSeq(grid, r, c)| ==> InRowOf(RowSeq(grid, r, c)[k], elems, r, c)
    ensures Ascends(RowSeq(grid, r, c))
    decreases MAX_SIZE - c
  {
    if c < MAX_SIZE {
      var n := Next(RowSet(grid, r), c);
      if n < MAX_SIZE && Slot(r, n) in grid {
        RowSeqAscends(grid, elems, r, n);
        var row, rest := RowSeq(grid, r, c), RowSeq(grid, r, n);
        assert row == [grid[Slot(r, n)]] + rest;
        forall k | 0 <= k < |row| ensures InRowOf(row[k], elems, r, c) {
          assert k > 0 ==> row[k] == rest[k - 1] && InRowOf(rest[k - 1], elems, r, n);
        }
        forall j, k | 0 <= j < k < |row| ensures row[j].column < row[k].column {
          assert row[k] == rest[k - 1] && InRowOf(rest[k - 1], elems, r, n);
          assert j > 0 ==> row[j] == rest[j - 1];
        }
      }
    }
  }

  ghost predicate InRowOf(e: LayoutElem, elems: set<LayoutElem>, r: nat, c: int)
    reads e`row, e`column
  {
    e in elems && e.row == r && e.column > c
  }

  ghost predicate Ascends(row: seq<LayoutElem>)
    reads set e | e in row
  {
    forall j, k :: 0 <= j < k < |row| ==> row[j].column < row[k].column
  }

  /** Hangs the list from head onto the end of a row, and clears the links down from the row. */
  method TakeRow(rowHead: LayoutElem, head: LayoutElem?, ghost row: seq<LayoutElem>, ghost list: seq<LayoutElem>,
                 ghost all: set<LayoutElem>)
    requires Leads(rowHead, row, null, all) && row != [] && Leads(head, list, null, all)
    requires Distinct(row) && forall j, k :: 0 <= j < |row| && 0 <= k < |list| ==> row[j] != list[k]
    modifies all`right, all`below
    ensures Leads(rowHead, row + list, null, all)
    ensures forall e :: e in all && e !in row ==> e.right == old(e.right) && e.below == old(e.below)
    ensures forall e :: e in row ==> e.below == null
  {
    var elem := rowHead;
    ghost var k: nat := 0;
    while elem.right != null
      invariant k < |row| && elem == row[k] && Leads(rowHead, row, null, all) && Leads(head, list, null, all)
      invariant forall e :: e in all && e !in row ==> e.right == old(e.right) && e.below == old(e.below)
      invariant forall j :: 0 <= j < k ==> row[j].below == null
      decreases |row| - k
    {
      elem.below := null;
      elem, k := elem.right, k + 1;
    }
    assert elem.right == Link(row, k + 1, null);
    assert forall j :: 0 <= j < |list| ==> list[j] != elem;
    elem.below := null;
    elem.right := head;
    assert Leads(rowHead, row, head, all);
    LeadsOn(rowHead, row, head, list, null, all);
  }

  /** Rows from i on still lead through their elements; the ones before are empty. */
  ghost predicate RowsLeft(rows: seq<LayoutElem?>, grid: Grid, elems: set<LayoutElem>, i: nat)
    reads elems`right
  {
    && i <= |rows| && (forall r :: 0 <= r < i ==> rows[r] == null)
    && forall r :: i <= r < |rows| ==> Leads(rows[r], RowSeq(grid, r, -1), null, elems)
  }

  /** What has been gathered: rows before i, and the switched-off elements. */
  ghost function Gathered(grid: Grid, off: seq<LayoutElem>, i: nat): seq<LayoutElem>
  {
    RowsBackwards(grid, i) + off
  }

  lemma RowsStart(rows: seq<LayoutElem?>, grid: Grid, elems: set<LayoutElem>)
    requires RowLinked(rows, grid, elems) && Placed(grid, elems)
    ensures RowsLeft(rows, grid, elems, 0)
  {
    forall r | 0 <= r < |rows| ensures Leads(rows[r], RowSeq(grid, r, -1), null, elems) {
      RowLeads(rows, grid, elems, r, -1);
    }
  }

  ghost predicate AllIn(row: seq<LayoutElem>, elems: set<LayoutElem>, r: int)
    reads elems`row
  {
    forall k :: 0 <= k < |row| ==> row[k] in elems && row[k].row == r
  }

  /** A row holds exactly the elements that say so, each once. */
  lemma RowMembers(grid: Grid, elems: set<LayoutElem>, r: nat)
    requires Placed(grid, elems)
    ensures AllIn(RowSeq(grid, r, -1), elems, r)
    ensures forall e :: e in elems && e.row == r ==> e in RowSeq(grid, r, -1)
    ensures Distinct(RowSeq(grid, r, -1))
  {
    RowSeqIs(grid, r, -1);
    RowSeqAscends(grid, elems, r, -1);
    var row := RowSeq(grid, r, -1);
    forall k | 0 <= k < |row| ensures row[k] in elems && row[k].row == r {
      assert InRowOf(row[k], elems, r, -1);
    }
    forall e | e in elems && e.row == r ensures e in row {
      assert grid[Slot(e.row, e.column)] == e;
    }
    assert Ascends(row);
  }

  lemma GatheredStep(grid: Grid, off: seq<LayoutElem>, i: nat)
    ensures Gathered(grid, off, i + 1) == RowSeq(grid, i, -1) + Gathered(grid, off, i) && Gathered(grid, off, 0) == off
  {
  }

  ghost predicate AllBefore(list: seq<LayoutElem>, elems: set<LayoutElem>, off: seq<LayoutElem>, i: int)
    reads elems`row
  {
    forall k :: 0 <= k < |list| ==> list[k] in off || (list[k] in elems && list[k].row < i)
  }

  /** What has been gathered are the elements of the rows before i, and those switched off. */
  lemma {:induction false} GatheredMembers(grid: Grid, elems: set<LayoutElem>, off: seq<LayoutElem>, i: nat)
    requires Placed(grid, elems) && elems !! SetOf(off) && Distinct(off)
    ensures AllBefore(Gathered(grid, off, i), elems, off, i)
    ensures forall e :: e in off || (e in elems && e.row < i) ==> e in Gathered(grid, off, i)
    ensures Distinct(Gathered(grid, off, i))
  {
    hide RowSeq, Placed, Gathered, Distinct;
    if i == 0 {
      GatheredStep(grid, off, 0);
    } else {
      GatheredMembers(grid, elems, off, i - 1);
      RowMembers(grid, elems, i - 1);
      GatheredStep(grid, off, i - 1);
      var row, list := RowSeq(grid, i - 1, -1), Gathered(grid, off, i - 1);
      forall j, k | 0 <= j < |row| && 0 <= k < |list| ensures row[j] != list[k] {
        assert list[k] in off ==> list[k] in SetOf(off);
      }
      JoinMembers(row, list);
    }
  }

  /** Rows come last to first, each from left to right, and the switched-off elements at the end. */
  ghost predicate InOrder(list: seq<LayoutElem>, n: nat, elems: set<LayoutElem>, i: int)
    reads elems`row, elems`column
  {
    && n <= |list| && (forall k :: 0 <= k < n ==> list[k] in elems && list[k].row < i)
    && forall j, k :: 0 <= j < k < n ==>
      list[j].row > list[k].row || (list[j].row == list[k].row && list[j].column < list[k].column)
  }

  lemma {:induction false} GatheredInOrder(grid: Grid, elems: set<LayoutElem>, off: seq<LayoutElem>, i: nat) returns (n: nat)
    requires Placed(grid, elems)
    ensures InOrder(Gathered(grid, off, i), n, elems, i) && Gathered(grid, off, i)[n..] == off
  {
    hide RowSeq, Placed, Gathered;
    if i == 0 {
      n := 0;
      GatheredStep(grid, off, 0);
    } else {
      var m := GatheredInOrder(grid, elems, off, i - 1);
      RowMembers(grid, elems, i - 1);
      RowSeqAscends(grid, elems, i - 1, -1);
      GatheredStep(grid, off, i - 1);
      var row, list := RowSeq(grid, i - 1, -1), Gathered(grid, off, i - 1);
      n := |row| + m;
      assert (row + list)[n..] == list[m..];
    }
  }

  lemma JoinMembers(a: seq<LayoutElem>, b: seq<LayoutElem>)
    requires Distinct(a) && Distinct(b) && forall j, k :: 0 <= j < |a| && 0 <= k < |b| ==> a[j] != b[k]
    ensures Distinct(a + b) && forall e :: e in a + b <==> e in a || e in b
  {
  }

  /** A row has nothing in common with another, or with what has been gathered from earlier rows. */
  lemma RowsApart(grid: Grid, elems: set<LayoutElem>, off: seq<LayoutElem>, i: nat, r: nat)
    requires Placed(grid, elems) && elems !! SetOf(off) && Distinct(off)
    ensures var row, list, other := RowSeq(grid, i, -1), Gathered(grid, off, i), RowSeq(grid, r, -1);
      && (forall j, k :: 0 <= j < |row| && 0 <= k < |list| ==> row[j] != list[k])
      && (forall k :: 0 <= k < |other| ==> other[k] in elems && (r != i ==> other[k] !in row))
  {
    hide RowSeq, Placed, Gathered, Distinct;
    RowMembers(grid, elems, r);
    RowMembers(grid, elems, i);
    GatheredMembers(grid, elems, off, i);
    var row, list, other := RowSeq(grid, i, -1), Gathered(grid, off, i), RowSeq(grid, r, -1);
    forall j, k | 0 <= j < |row| && 0 <= k < |list| ensures row[j] != list[k] {
      assert list[k] in off ==> list[k] in SetOf(off);
    }
  }

  /** Empties one row into the list. */
  method GatherRow(layout: Layout, i: nat, head: LayoutElem?, ghost all: set<LayoutElem>) returns (head': LayoutElem?)
    requires RowsLeft(layout.rows, layout.grid, layout.elems, i) && i < |layout.rows|
    requires Placed(layout.grid, layout.elems) && layout.elems !! SetOf(layout.off) && Distinct(layout.off)
    requires all == layout.elems + SetOf(layout.off) && Leads(head, Gathered(layout.grid, layout.off, i), null, all)
    modifies layout`rows, all`right, all`below
    ensures RowsLeft(layout.rows, layout.grid, layout.elems, i + 1) && |layout.rows| == |old(layout.rows)|
    ensures Leads(head', Gathered(layout.grid, layout.off, i + 1), null, all)
    ensures forall e :: e in all && e !in RowSeq(layout.grid, i, -1) ==> e.below == old(e.below)
    ensures forall e :: e in layout.elems && e.row == i ==> e.below == null
  {
    hide Placed, Gathered, RowSeq, Distinct, AllIn;
    ghost var grid, elems, off := layout.grid, layout.elems, layout.off;
    ghost var row, list := RowSeq(grid, i, -1), Gathered(grid, off, i);
    RowMembers(grid, elems, i);
    RowsApart(grid, elems, off, i, i);
    GatheredStep(grid, off, i);
    head' := head;
    var rowHead := layout.rows[i];
    assert Leads(rowHead, row, null, elems);
    if rowHead != null {
      forall r | i < r < |layout.rows| ensures forall k :: 0 <= k < |RowSeq(grid, r, -1)| ==>
          RowSeq(grid, r, -1)[k] in elems && RowSeq(grid, r, -1)[k] !in row {
        RowsApart(grid, elems, off, i, r);
      }
      TakeRow(rowHead, head, row, list, all);
      head' := rowHead;
      layout.rows := layout.rows[i := null];
    } else {
      assert row == [] && row + list == list;
    }
  }

  /** Empties the layout: its elements end up in one list, row by row from the last to the first, with the
      switched-off ones behind them. Nothing happens if there is no element in the grid. */
  method Gather(layout: Layout) returns (head: LayoutElem?, ghost list: seq<LayoutElem>)
    requires layout.Valid()
    modifies layout, layout.elems, layout.stash
    ensures layout.Valid() && |layout.rows| == |old(layout.rows)| && |layout.cols| == |old(layout.cols)|
    ensures if old(layout.grid) == map[] then head == null && list == [] && layout.grid == map[] && layout.off == old(layout.off)
            else layout.grid == map[] && layout.off == []
                 && list == Gathered(old(layout.grid), old(layout.off), |layout.rows|)
                 && Leads(head, list, null, old(layout.elems) + old(layout.stash))
    ensures old(layout.grid) != map[] ==> forall e :: e in old(layout.elems) || e in old(layout.stash) ==> e in list
    ensures Distinct(list)
    ensures forall e :: e in list && e in old(layout.elems) ==> e.below == null
  {
    hide RowLinked, ColLinked, Placed, Listed, Fits, Gathered, RowsLeft, Leads, Distinct, SetOf;
    ghost var grid, elems, off, all := layout.grid, layout.elems, layout.off, layout.elems + layout.stash;
    ListedIs(layout.disabled, off, layout.stash, all);
    NoneThere(grid, elems);
    if layout.count == 0 {
      NothingIsDistinct();
      return null, [];
    }
    RowsStart(layout.rows, grid, elems);
    GatheredMembers(grid, elems, off, |layout.rows|);
    RowsWithin(layout.rows, grid, elems);
    OffMembers(off);
    head := GatherRows(layout, all);
    list := Gathered(grid, off, |layout.rows|);
    Clear(layout);
  }

  lemma NothingIsDistinct()
    ensures Distinct<LayoutElem>([])
  {
  }

  lemma OffMembers(off: seq<LayoutElem>)
    ensures forall e :: e in SetOf(off) <==> e in off
  {
  }

  lemma ListedIs(head: LayoutElem?, off: seq<LayoutElem>, stash: set<LayoutElem>, all: set<LayoutElem>)
    requires Listed(head, off, stash) && stash <= all
    ensures stash == SetOf(off) && Distinct(off) && Leads(head, off, null, all)
  {
    forall k | 0 <= k < |off| ensures off[k].right == Link(off, k + 1, null) {
      assert off[k].right == Nth(off, k + 1);
    }
  }

  lemma RowsWithin(rows: seq<LayoutElem?>, grid: Grid, elems: set<LayoutElem>)
    requires RowLinked(rows, grid, elems) && Placed(grid, elems)
    ensures forall e :: e in elems ==> e.row < |rows|
  {
    forall e | e in elems ensures e.row < |rows| {
      assert Slot(e.row, e.column) in grid;
    }
  }

  method GatherRows(layout: Layout, ghost all: set<LayoutElem>) returns (head: LayoutElem?)
    requires RowsLeft(layout.rows, layout.grid, layout.elems, 0) && Placed(layout.grid, layout.elems)
    requires layout.elems !! SetOf(layout.off) && Distinct(layout.off) && all == layout.elems + SetOf(layout.off)
    requires Leads(layout.disabled, layout.off, null, all)
    modifies layout`rows, all`right, all`below
    ensures |layout.rows| == |old(layout.rows)| && forall r :: 0 <= r < |layout.rows| ==> layout.rows[r] == null
    ensures Leads(head, Gathered(layout.grid, layout.off, |layout.rows|), null, all)
    ensures forall e :: e in layout.elems && e.row < |layout.rows| ==> e.below == null
  {
    hide Placed, Gathered, RowSeq, Leads, Distinct;
    head := layout.disabled;
    GatheredStep(layout.grid, layout.off, 0);
    for i := 0 to |layout.rows|
      invariant |layout.rows| == |old(layout.rows)| && RowsLeft(layout.rows, layout.grid, layout.elems, i)
      invariant Placed(layout.grid, layout.elems)
      invariant Leads(head, Gathered(layout.grid, layout.off, i), null, all)
      invariant forall e :: e in layout.elems && e.row < i ==> e.below == null
    {
      RowMembers(layout.grid, layout.elems, i);
      head := GatherRow(layout, i, head, all);
    }
  }

  /** The lists of the layout are empty now. */
  method Clear(layout: Layout)
    requires forall r :: 0 <= r < |layout.rows| ==> layout.rows[r] == null
    modifies layout
    ensures layout.Valid() && layout.grid == map[] && layout.off == [] && layout.rows == old(layout.rows)
    ensures |layout.cols| == |old(layout.cols)|
  {
    for i := 0 to |layout.cols|
      invariant |layout.cols| == |old(layout.cols)| && layout.rows == old(layout.rows)
      invariant forall c :: 0 <= c < i ==> layout.cols[c] == null
    {
      layout.cols := layout.cols[i := null];
    }
    layout.disabled, layout.count := null, 0;
    layout.grid, layout.elems, layout.off, layout.stash := map[], {}, [], {};
  }
}