/** The grid of libAfterBase/layout.c: elements linked along their row and along their column, and a list
    of elements that are switched off for now. */
module LayoutGrid {
  import opened Common

  const MAX_SIZE := 64

  class LayoutElem {
    var row: nat
    var column: nat
    var hSpan: nat
    var vSpan: nat
    var bw: nat
    var context: int
    var x: int
    var y: int
    var width: int
    var height: int
    var right: LayoutElem?
    var below: LayoutElem?

    constructor (context: int, bw: nat)
      ensures this.context == context && this.bw == bw && right == null && below == null
    {
      this.context, this.bw, right, below := context, bw, null, null;
      row, column, hSpan, vSpan, x, y, width, height := 0, 0, 1, 1, 0, 0, 0, 0;
    }
  }

  datatype Slot = Slot(row: nat, col: nat)

  type Grid = map<Slot, LayoutElem>

  // ---------------------------------------------------------------- neighbours

  /** The first member of s after place c, MAX_SIZE when there is none. */
  ghost function Next(s: set<nat>, c: int): (n: int)
    ensures c < MAX_SIZE ==> c < n <= MAX_SIZE
    ensures forall k: nat :: c < k < n && k < MAX_SIZE ==> k !in s
    ensures -1 <= c && n < MAX_SIZE ==> n in s
    decreases MAX_SIZE - c
  {
    if c + 1 >= MAX_SIZE then MAX_SIZE
    else if c + 1 >= 0 && c + 1 in s then c + 1
    else Next(s, c + 1)
  }

  /** That first member is the only place with these two properties. */
  lemma NextIs(s: set<nat>, c: int, n: nat)
    requires c < n <= MAX_SIZE && -1 <= c && (forall k: nat :: c < k < n ==> k !in s) && (n < MAX_SIZE ==> n in s)
    ensures Next(s, c) == n
  {
    var m := Next(s, c);
    assert m < n ==> m in s;
  }

  ghost function RowSet(grid: Grid, r: nat): (cs: set<nat>)
    ensures forall c: nat :: c in cs <==> Slot(r, c) in grid
  {
    set s | s in grid && s.row == r :: s.col
  }

  ghost function ColSet(grid: Grid, c: nat): (rs: set<nat>)
    ensures forall r: nat :: r in rs <==> Slot(r, c) in grid
  {
    set s | s in grid && s.col == c :: s.row
  }

  ghost function At(grid: Grid, r: int, c: int): LayoutElem?
  {
    if r >= 0 && c >= 0 && Slot(r, c) in grid then grid[Slot(r, c)] else null
  }

  /** The first element of row r to the right of column c. */
  ghost function RightOf(grid: Grid, r: nat, c: int): LayoutElem?
  {
    At(grid, r, Next(RowSet(grid, r), c))
  }

  /** The first element of column c below row r. */
  ghost function BelowOf(grid: Grid, r: int, c: nat): LayoutElem?
  {
    At(grid, Next(ColSet(grid, c), r), c)
  }

  lemma NextAfterInsert(s: set<nat>, p: nat, c: int)
    requires p < MAX_SIZE && -1 <= c < MAX_SIZE
    ensures Next(s + {p}, c) == if c < p <= Next(s, c) then p else Next(s, c)
  {
    NextIs(s + {p}, c, if c < p <= Next(s, c) then p else Next(s, c));
  }

  lemma NextAfterRemove(s: set<nat>, p: nat, c: int)
    requires p < MAX_SIZE && -1 <= c < MAX_SIZE
    ensures Next(s - {p}, c) == if Next(s, c) == p then Next(s, p) else Next(s, c)
  {
    NextIs(s - {p}, c, if Next(s, c) == p then Next(s, p) else Next(s, c));
  }

  lemma RightAfterInsert(grid: Grid, r0: nat, c0: nat, e: LayoutElem, r: nat, c: int)
    requires c0 < MAX_SIZE && -1 <= c < MAX_SIZE
    ensures RightOf(grid[Slot(r0, c0) := e], r, c) ==
            if r == r0 && c < c0 <= Next(RowSet(grid, r0), c) then e else RightOf(grid, r, c)
  {
    var after := grid[Slot(r0, c0) := e];
    assert Slot(r0, c0) in after;
    assert RowSet(after, r) == if r == r0 then RowSet(grid, r) + {c0} else RowSet(grid, r);
    NextAfterInsert(RowSet(grid, r), c0, c);
  }

  lemma BelowAfterInsert(grid: Grid, r0: nat, c0: nat, e: LayoutElem, r: int, c: nat)
    requires r0 < MAX_SIZE && -1 <= r < MAX_SIZE
    ensures BelowOf(grid[Slot(r0, c0) := e], r, c) ==
            if c == c0 && r < r0 <= Next(ColSet(grid, c0), r) then e else BelowOf(grid, r, c)
  {
    var after := grid[Slot(r0, c0) := e];
    assert Slot(r0, c0) in after;
    assert ColSet(after, c) == if c == c0 then ColSet(grid, c) + {r0} else ColSet(grid, c);
    NextAfterInsert(ColSet(grid, c), r0, r);
  }

  /** With c the last occupied column before h, only what follows c changes when h is filled. */
  lemma RightAfterLink(grid: Grid, v: nat, h: nat, e: LayoutElem, c: int, r: nat, k: int)
    requires -1 <= c < h <= Next(RowSet(grid, v), c) && h < MAX_SIZE && (c < 0 || Slot(v, c) in grid)
    requires -1 <= k < MAX_SIZE && (k == -1 || Slot(r, k) in grid || (r == v && k == h))
    ensures RightOf(grid[Slot(v, h) := e], r, k) == if r == v && k == c then e else RightOf(grid, r, k)
  {
    RightAfterInsert(grid, v, h, e, r, k);
    assert c >= 0 ==> c in RowSet(grid, v);
    assert r == v && k >= 0 && k != h ==> k in RowSet(grid, v);
  }

  lemma BelowAfterLink(grid: Grid, v: nat, h: nat, e: LayoutElem, r: int, k: int, c: nat)
    requires -1 <= r < v <= Next(ColSet(grid, h), r) && v < MAX_SIZE && (r < 0 || Slot(r, h) in grid)
    requires -1 <= k < MAX_SIZE && (k == -1 || Slot(k, c) in grid || (c == h && k == v))
    ensures BelowOf(grid[Slot(v, h) := e], k, c) == if c == h && k == r then e else BelowOf(grid, k, c)
  {
    BelowAfterInsert(grid, v, h, e, k, c);
    assert r >= 0 ==> r in ColSet(grid, h);
    assert c == h && k >= 0 && k != v ==> k in ColSet(grid, h);
  }

  lemma RightAfterRemove(grid: Grid, r0: nat, c0: nat, r: nat, c: int)
    requires c0 < MAX_SIZE && -1 <= c < MAX_SIZE
    ensures RightOf(grid - {Slot(r0, c0)}, r, c) ==
            if r == r0 && Next(RowSet(grid, r0), c) == c0 then RightOf(grid, r0, c0) else RightOf(grid, r, c)
  {
    var after := grid - {Slot(r0, c0)};
    assert RowSet(after, r) == if r == r0 then RowSet(grid, r) - {c0} else RowSet(grid, r) by {
      forall k | k in RowSet(grid, r) && (r != r0 || k != c0) ensures k in RowSet(after, r) {
        assert Slot(r, k) in after;
      }
    }
    NextAfterRemove(RowSet(grid, r), c0, c);
  }

  lemma BelowAfterRemove(grid: Grid, r0: nat, c0: nat, r: int, c: nat)
    requires r0 < MAX_SIZE && -1 <= r < MAX_SIZE
    ensures BelowOf(grid - {Slot(r0, c0)}, r, c) ==
            if c == c0 && Next(ColSet(grid, c0), r) == r0 then BelowOf(grid, r0, c0) else BelowOf(grid, r, c)
  {
    var after := grid - {Slot(r0, c0)};
    assert ColSet(after, c) == if c == c0 then ColSet(grid, c) - {r0} else ColSet(grid, c) by {
      forall k | k in ColSet(grid, c) && (c != c0 || k != r0) ensures k in ColSet(after, c) {
        assert Slot(k, c) in after;
      }
    }
    NextAfterRemove(ColSet(grid, c), r0, r);
  }

  /** With c the last occupied column before h, only what follows c changes when h is emptied. */
  lemma RightAfterUnlink(grid: Grid, v: nat, h: nat, c: int, r: nat, k: int)
    requires -1 <= c < h == Next(RowSet(grid, v), c) && h < MAX_SIZE && (c < 0 || Slot(v, c) in grid)
    requires -1 <= k < MAX_SIZE && (k == -1 || (Slot(r, k) in grid && (r != v || k != h)))
    ensures RightOf(grid - {Slot(v, h)}, r, k) == if r == v && k == c then RightOf(grid, v, h) else RightOf(grid, r, k)
  {
    RightAfterRemove(grid, v, h, r, k);
    assert c >= 0 ==> c in RowSet(grid, v);
    assert r == v && k >= 0 ==> k in RowSet(grid, v);
  }

  lemma BelowAfterUnlink(grid: Grid, v: nat, h: nat, r: int, k: int, c: nat)
    requires -1 <= r < v == Next(ColSet(grid, h), r) && v < MAX_SIZE && (r < 0 || Slot(r, h) in grid)
    requires -1 <= k < MAX_SIZE && (k == -1 || (Slot(k, c) in grid && (c != h || k != v)))
    ensures BelowOf(grid - {Slot(v, h)}, k, c) == if c == h && k == r then BelowOf(grid, v, h) else BelowOf(grid, k, c)
  {
    BelowAfterRemove(grid, v, h, k, c);
    assert r >= 0 ==> r in ColSet(grid, h);
    assert c == h && k >= 0 ==> k in ColSet(grid, h);
  }

  // ---------------------------------------------------------------- links

  /** Every row leads through its elements from left to right. */
  ghost predicate RowLinked(rows: seq<LayoutElem?>, grid: Grid, elems: set<LayoutElem>)
    reads elems`right
  {
    && (forall r :: 0 <= r < |rows| ==> rows[r] == RightOf(grid, r, -1))
    && forall s :: s in grid ==> s.row < |rows| && grid[s] in elems && grid[s].right == RightOf(grid, s.row, s.col)
  }

  /** Every column leads through its elements from top to bottom. */
  ghost predicate ColLinked(cols: seq<LayoutElem?>, grid: Grid, elems: set<LayoutElem>)
    reads elems`below
  {
    && (forall c :: 0 <= c < |cols| ==> cols[c] == BelowOf(grid, -1, c))
    && forall s :: s in grid ==> s.col < |cols| && grid[s] in elems && grid[s].below == BelowOf(grid, s.row, s.col)
  }

  /** The elements know their slots, and stay within the grid. */
  ghost predicate Placed(grid: Grid, elems: set<LayoutElem>)
    reads elems`row, elems`column
  {
    && (forall s :: s in grid ==> grid[s] in elems && grid[s].row == s.row < MAX_SIZE && grid[s].column == s.col < MAX_SIZE)
    && forall e :: e in elems ==> Slot(e.row, e.column) in grid && grid[Slot(e.row, e.column)] == e
  }

  ghost predicate Fits(elems: set<LayoutElem>, height: nat, width: nat)
    reads elems`row, elems`column, elems`hSpan, elems`vSpan
  {
    forall e :: e in elems ==>
      && e.hSpan >= 1 && e.column + e.hSpan <= MAX_SIZE && e.column + e.hSpan <= width
      && e.vSpan >= 1 && e.row + e.vSpan <= MAX_SIZE && e.row + e.vSpan <= height
  }

  lemma FitMore(elems: set<LayoutElem>, height: nat, width: nat, height': nat, width': nat)
    requires Fits(elems, height, width) && height <= height' && width <= width'
    ensures Fits(elems, height', width')
  {
  }

  lemma LinksOf(rows: seq<LayoutElem?>, cols: seq<LayoutElem?>, grid: Grid, elems: set<LayoutElem>, s: Slot, e: LayoutElem)
    requires RowLinked(rows, grid, elems) && ColLinked(cols, grid, elems) && s in grid && e !in elems
    ensures grid[s] in elems && grid[s] !in Filled(grid, elems, s.row, s.col, e) && s.row < |rows| && s.col < |cols|
    ensures grid[s].right == RightOf(grid, s.row, s.col) && grid[s].below == BelowOf(grid, s.row, s.col)
  {
  }

  ghost function Nth(off: seq<LayoutElem>, i: nat): LayoutElem?
  {
    if i < |off| then off[i] else null
  }

  /** The switched-off elements, from the head of their list. */
  ghost predicate Listed(head: LayoutElem?, off: seq<LayoutElem>, stash: set<LayoutElem>)
    reads stash`right
  {
    && SetOf(off) == stash && (forall i :: 0 <= i < |off| ==> off[i] in stash)
    && head == Nth(off, 0)
    && (forall i {:trigger off[i].right} :: 0 <= i < |off| ==> off[i].right == Nth(off, i + 1))
    && forall i, j :: 0 <= i < j < |off| ==> off[i] != off[j]
  }

  /** The elements once elem has taken its slot. */
  ghost function Filled(grid: Grid, elems: set<LayoutElem>, v: nat, h: nat, elem: LayoutElem): set<LayoutElem>
  {
    (if Slot(v, h) in grid then elems - {grid[Slot(v, h)]} else elems) + {elem}
  }

  lemma PlacedAfter(grid: Grid, elems: set<LayoutElem>, elem: LayoutElem, height: nat, width: nat)
    requires Placed(grid, elems) && elem.row < MAX_SIZE && elem.column < MAX_SIZE && elem !in elems
    requires Fits(elems, height, width)
    requires elem.hSpan >= 1 && elem.column + elem.hSpan <= MAX_SIZE && elem.column + elem.hSpan <= width
    requires elem.vSpan >= 1 && elem.row + elem.vSpan <= MAX_SIZE && elem.row + elem.vSpan <= height
    ensures var grid', elems' := grid[Slot(elem.row, elem.column) := elem], Filled(grid, elems, elem.row, elem.column, elem);
            Placed(grid', elems') && Fits(elems', height, width) && elems' <= elems + {elem}
  {
  }

  function ClampSlot(slot: nat): nat
  {
    if slot >= MAX_SIZE then MAX_SIZE - 1 else slot
  }

  function ClampSpan(span: nat, slot: nat): nat
    requires slot < MAX_SIZE
  {
    if span > MAX_SIZE - slot then MAX_SIZE - slot else span
  }

  lemma RowsGrow(rows: seq<LayoutElem?>, grid: Grid, elems: set<LayoutElem>, n: nat)
    requires RowLinked(rows, grid, elems)
    ensures RowLinked(rows + seq(n, _ => null), grid, elems)
  {
    var more := rows + seq(n, _ => null);
    forall r | 0 <= r < |more| ensures more[r] == RightOf(grid, r, -1) {
      if r >= |rows| {
        assert RowSet(grid, r) == {};
      }
    }
  }

  lemma ColsGrow(cols: seq<LayoutElem?>, grid: Grid, elems: set<LayoutElem>, n: nat)
    requires ColLinked(cols, grid, elems)
    ensures ColLinked(cols + seq(n, _ => null), grid, elems)
  {
    var more := cols + seq(n, _ => null);
    forall c | 0 <= c < |more| ensures more[c] == BelowOf(grid, -1, c) {
      if c >= |cols| {
        assert ColSet(grid, c) == {};
      }
    }
  }

  /** The two walks meet exactly at a filled slot; past an empty one they lead on to its neighbours. */
  lemma WalksMeet(grid: Grid, elems: set<LayoutElem>, v: nat, h: nat, c: int, r: int)
    requires Placed(grid, elems) && v < MAX_SIZE && h < MAX_SIZE
    requires -1 <= c < h <= Next(RowSet(grid, v), c) && -1 <= r < v <= Next(ColSet(grid, h), r)
    ensures var cur, cur2 := RightOf(grid, v, c), BelowOf(grid, r, h);
            if Slot(v, h) in grid then cur == cur2 == grid[Slot(v, h)]
            else (cur == null || cur != cur2) && cur == RightOf(grid, v, h) && cur2 == BelowOf(grid, v, h)
  {
    assert h in RowSet(grid, v) <==> Slot(v, h) in grid;
    assert v in ColSet(grid, h) <==> Slot(v, h) in grid;
    if Slot(v, h) !in grid {
      NextIs(RowSet(grid, v), h, Next(RowSet(grid, v), c));
      NextIs(ColSet(grid, h), v, Next(ColSet(grid, h), r));
    }
  }

  /** With c the last occupied column before h, the rows are linked around elem once the row, or the element in
      column c, leads to it. */
  lemma RowLinkedWith(rows: seq<LayoutElem?>, grid: Grid, elems: set<LayoutElem>, elem: LayoutElem, v: nat, h: nat, c: int)
    requires v < |rows| && h < MAX_SIZE && -1 <= c < h <= Next(RowSet(grid, v), c) && (c >= 0 ==> Slot(v, c) in grid)
    requires forall r :: 0 <= r < |rows| ==> rows[r] == if r == v && c < 0 then elem else RightOf(grid, r, -1)
    requires forall s :: s in grid ==> s.row < |rows| && s.col < MAX_SIZE
    requires forall s :: s in grid && s != Slot(v, h) ==>
      && grid[s] in Filled(grid, elems, v, h, elem)
      && grid[s].right == if s.row == v && s.col == c then elem else RightOf(grid, s.row, s.col)
    requires elem.right == RightOf(grid, v, h)
    ensures RowLinked(rows, grid[Slot(v, h) := elem], Filled(grid, elems, v, h, elem))
  {
    hide RightOf, Next, RowSet;
    var grid' := grid[Slot(v, h) := elem];
    forall r | 0 <= r < |rows| ensures rows[r] == RightOf(grid', r, -1) {
      RightAfterLink(grid, v, h, elem, c, r, -1);
    }
    forall s | s in grid' ensures s.row < |rows| && grid'[s].right == RightOf(grid', s.row, s.col) {
      RightAfterLink(grid, v, h, elem, c, s.row, s.col);
    }
  }

  lemma ColLinkedWith(cols: seq<LayoutElem?>, grid: Grid, elems: set<LayoutElem>, elem: LayoutElem, v: nat, h: nat, r: int)
    requires h < |cols| && v < MAX_SIZE && -1 <= r < v <= Next(ColSet(grid, h), r) && (r >= 0 ==> Slot(r, h) in grid)
    requires forall c :: 0 <= c < |cols| ==> cols[c] == if c == h && r < 0 then elem else BelowOf(grid, -1, c)
    requires forall s :: s in grid ==> s.col < |cols| && s.row < MAX_SIZE
    requires forall s :: s in grid && s != Slot(v, h) ==>
      && grid[s] in Filled(grid, elems, v, h, elem)
      && grid[s].below == if s.col == h && s.row == r then elem else BelowOf(grid, s.row, s.col)
    requires elem.below == BelowOf(grid, v, h)
    ensures ColLinked(cols, grid[Slot(v, h) := elem], Filled(grid, elems, v, h, elem))
  {
    hide BelowOf, Next, ColSet;
    var grid' := grid[Slot(v, h) := elem];
    forall c | 0 <= c < |cols| ensures cols[c] == BelowOf(grid', -1, c) {
      BelowAfterLink(grid, v, h, elem, r, -1, c);
    }
    forall s | s in grid' ensures s.col < |cols| && grid'[s].below == BelowOf(grid', s.row, s.col) {
      BelowAfterLink(grid, v, h, elem, r, s.row, s.col);
    }
  }

  /** And they are linked without the element in column h once the row, or the element in column c, leads past it. */
  lemma RowLinkedWithout(rows: seq<LayoutElem?>, grid: Grid, elems: set<LayoutElem>, v: nat, h: nat, c: int)
    requires v < |rows| && h < MAX_SIZE && -1 <= c < h == Next(RowSet(grid, v), c) && (c >= 0 ==> Slot(v, c) in grid)
    requires forall r :: 0 <= r < |rows| ==> rows[r] == if r == v && c < 0 then RightOf(grid, v, h) else RightOf(grid, r, -1)
    requires forall s :: s in grid && s != Slot(v, h) ==>
      && s.row < |rows| && s.col < MAX_SIZE && grid[s] in elems
      && grid[s].right == if s.row == v && s.col == c then RightOf(grid, v, h) else RightOf(grid, s.row, s.col)
    ensures RowLinked(rows, grid - {Slot(v, h)}, elems)
  {
    hide RightOf, Next, RowSet;
    var grid' := grid - {Slot(v, h)};
    forall r | 0 <= r < |rows| ensures rows[r] == RightOf(grid', r, -1) {
      RightAfterUnlink(grid, v, h, c, r, -1);
    }
    forall s | s in grid' ensures s.row < |rows| && grid'[s] in elems && grid'[s].right == RightOf(grid', s.row, s.col) {
      RightAfterUnlink(grid, v, h, c, s.row, s.col);
    }
  }

  lemma ColLinkedWithout(cols: seq<LayoutElem?>, grid: Grid, elems: set<LayoutElem>, v: nat, h: nat, r: int)
    requires h < |cols| && v < MAX_SIZE && -1 <= r < v == Next(ColSet(grid, h), r) && (r >= 0 ==> Slot(r, h) in grid)
    requires forall c :: 0 <= c < |cols| ==> cols[c] == if c == h && r < 0 then BelowOf(grid, v, h) else BelowOf(grid, -1, c)
    requires forall s :: s in grid && s != Slot(v, h) ==>
      && s.col < |cols| && s.row < MAX_SIZE && grid[s] in elems
      && grid[s].below == if s.col == h && s.row == r then BelowOf(grid, v, h) else BelowOf(grid, s.row, s.col)
    ensures ColLinked(cols, grid - {Slot(v, h)}, elems)
  {
    hide BelowOf, Next, ColSet;
    var grid' := grid - {Slot(v, h)};
    forall c | 0 <= c < |cols| ensures cols[c] == BelowOf(grid', -1, c) {
      BelowAfterUnlink(grid, v, h, r, -1, c);
    }
    forall s | s in grid' ensures s.col < |cols| && grid'[s] in elems && grid'[s].below == BelowOf(grid', s.row, s.col) {
      BelowAfterUnlink(grid, v, h, r, s.row, s.col);
    }
  }

  /** Each element has its own slot. */
  lemma OwnSlots(grid: Grid, elems: set<LayoutElem>, s: Slot)
    requires Placed(grid, elems) && s in grid
    ensures grid[s] in elems && s.row < MAX_SIZE && s.col < MAX_SIZE
    ensures forall t :: t in grid && t != s ==> grid[t] != grid[s]
  {
  }

  class Layout {
    var rows: seq<LayoutElem?>
    var cols: seq<LayoutElem?>
    var disabled: LayoutElem?
    var count: nat

    /** What stands where, the elements in the grid, and those switched off. */
    ghost var grid: Grid
    ghost var elems: set<LayoutElem>
    ghost var off: seq<LayoutElem>
    ghost var stash: set<LayoutElem>

    ghost predicate Valid()
      reads this, elems, stash
    {
      && RowLinked(rows, grid, elems) && ColLinked(cols, grid, elems) && Placed(grid, elems)
      && Listed(disabled, off, stash) && stash !! elems
      && Fits(elems, |rows|, |cols|) && Fits(stash, |rows|, |cols|)
      && count == |grid|
    }

    constructor (dimX: nat, dimY: nat)
      requires dimX > 0 && dimY > 0
      ensures Valid() && grid == map[] && off == [] && |rows| == dimY && |cols| == dimX
    {
      rows, cols := seq(dimY, _ => null), seq(dimX, _ => null);
      disabled, count, grid, elems, off, stash := null, 0, map[], {}, [], {};
    }

    lemma Pieces()
      requires Valid()
      ensures RowLinked(rows, grid, elems) && ColLinked(cols, grid, elems) && Placed(grid, elems)
      ensures Listed(disabled, off, stash) && stash !! elems && count == |grid|
      ensures Fits(elems, |rows|, |cols|) && Fits(stash, |rows|, |cols|)
    {
    }

    lemma AllThere()
      requires RowLinked(rows, grid, elems) && ColLinked(cols, grid, elems) && Placed(grid, elems)
      requires Listed(disabled, off, stash) && stash !! elems && count == |grid|
      requires Fits(elems, |rows|, |cols|) && Fits(stash, |rows|, |cols|)
      ensures Valid()
    {
    }

    /** Walks row v up to column h: the last element left of it, and the first that is not. */
    method FindInRow(v: nat, h: nat) returns (prev: LayoutElem?, cur: LayoutElem?, ghost c: int)
      requires RowLinked(rows, grid, elems) && Placed(grid, elems) && v < |rows| && h < MAX_SIZE
      ensures -1 <= c < h <= Next(RowSet(grid, v), c) && cur == RightOf(grid, v, c)
      ensures prev == (if c < 0 then null else At(grid, v, c)) && (c >= 0 ==> prev != null)
    {
      prev, cur, c := null, rows[v], -1;
      while cur != null && cur.column < h
        invariant -1 <= c < h && cur == RightOf(grid, v, c)
        invariant prev == (if c < 0 then null else At(grid, v, c)) && (c >= 0 ==> prev != null)
        decreases h - c
      {
        prev, cur, c := cur, cur.right, cur.column;
      }
    }

    /** Walks column h down to row v. */
    method FindInCol(v: nat, h: nat) returns (prev: LayoutElem?, cur: LayoutElem?, ghost r: int)
      requires ColLinked(cols, grid, elems) && Placed(grid, elems) && h < |cols| && v < MAX_SIZE
      ensures -1 <= r < v <= Next(ColSet(grid, h), r) && cur == BelowOf(grid, r, h)
      ensures prev == (if r < 0 then null else At(grid, r, h)) && (r >= 0 ==> prev != null)
    {
      prev, cur, r := null, cols[h], -1;
      while cur != null && cur.row < v
        invariant -1 <= r < v && cur == BelowOf(grid, r, h)
        invariant prev == (if r < 0 then null else At(grid, r, h)) && (r >= 0 ==> prev != null)
        decreases v - r
      {
        prev, cur, r := cur, cur.below, cur.row;
      }
    }

    /** Points the row at elem, whose own link already leads on. */
    method LinkInRow(prev: LayoutElem?, elem: LayoutElem, v: nat, h: nat, ghost c: int, ghost grid': Grid,
                     ghost elems': set<LayoutElem>)
      requires RowLinked(rows, grid, elems) && Placed(grid, elems) && elem !in elems && v < |rows| && h < MAX_SIZE
      requires -1 <= c < h <= Next(RowSet(grid, v), c) && elem.right == RightOf(grid, v, h)
      requires prev == (if c < 0 then null else At(grid, v, c)) && (c >= 0 ==> prev != null)
      requires grid' == grid[Slot(v, h) := elem] && elems' == Filled(grid, elems, v, h, elem)
      modifies `rows, elems`right
      ensures RowLinked(rows, grid', elems') && |rows| == |old(rows)| && elem.right == old(elem.right)
    {
      hide RightOf, Next, RowSet;
      if c >= 0 {
        OwnSlots(grid, elems, Slot(v, c));
      }
      if prev == null {
        rows := rows[v := elem];
      } else {
        prev.right := elem;
      }
      RowLinkedWith(rows, grid, elems, elem, v, h, c);
    }

    method LinkInCol(prev: LayoutElem?, elem: LayoutElem, v: nat, h: nat, ghost r: int, ghost grid': Grid,
                     ghost elems': set<LayoutElem>)
      requires ColLinked(cols, grid, elems) && Placed(grid, elems) && elem !in elems && h < |cols| && v < MAX_SIZE
      requires -1 <= r < v <= Next(ColSet(grid, h), r) && elem.below == BelowOf(grid, v, h)
      requires prev == (if r < 0 then null else At(grid, r, h)) && (r >= 0 ==> prev != null)
      requires grid' == grid[Slot(v, h) := elem] && elems' == Filled(grid, elems, v, h, elem)
      modifies `cols, elems`below
      ensures ColLinked(cols, grid', elems') && |cols| == |old(cols)| && elem.below == old(elem.below)
    {
      hide BelowOf, Next, ColSet;
      if r >= 0 {
        OwnSlots(grid, elems, Slot(r, h));
      }
      if prev == null {
        cols := cols[h := elem];
      } else {
        prev.below := elem;
      }
      ColLinkedWith(cols, grid, elems, elem, v, h, r);
    }

    /** Makes room for at least the given number of rows and columns. */
    method Grow(height: nat, width: nat)
      requires Valid()
      modifies `rows, `cols
      ensures Valid() && |rows| == Max(|old(rows)|, height) && |cols| == Max(|old(cols)|, width)
    {
      hide Valid;
      if |cols| < width {
        AddCols(width - |cols|);
      }
      if |rows| < height {
        AddRows(height - |rows|);
      }
    }

    method AddCols(n: nat)
      requires Valid()
      modifies `cols
      ensures Valid() && |cols| == |old(cols)| + n
    {
      hide *;
      Pieces();
      FitMore(elems, |rows|, |cols|, |rows|, |cols| + n);
      FitMore(stash, |rows|, |cols|, |rows|, |cols| + n);
      ColsGrow(cols, grid, elems, n);
      cols := cols + seq(n, _ => null);
      AllThere();
    }

    method AddRows(n: nat)
      requires Valid()
      modifies `rows
      ensures Valid() && |rows| == |old(rows)| + n
    {
      hide *;
      Pieces();
      FitMore(elems, |rows|, |cols|, |rows| + n, |cols|);
      FitMore(stash, |rows|, |cols|, |rows| + n, |cols|);
      RowsGrow(rows, grid, elems, n);
      rows := rows + seq(n, _ => null);
      AllThere();
    }

    /** Gives elem the links of the element whose place it takes, or those to its neighbours. The element that has
        to make room is the third result. */
    method Aim(elem: LayoutElem, v: nat, h: nat)
        returns (prev: LayoutElem?, prev2: LayoutElem?, displaced: LayoutElem?, ghost c: int, ghost r: int)
      requires RowLinked(rows, grid, elems) && ColLinked(cols, grid, elems) && Placed(grid, elems)
      requires elem !in elems && v < |rows| && h < |cols| && v < MAX_SIZE && h < MAX_SIZE
      modifies `count, elem`right, elem`below
      ensures elem.right == RightOf(grid, v, h) && elem.below == BelowOf(grid, v, h)
      ensures -1 <= c < h <= Next(RowSet(grid, v), c) && -1 <= r < v <= Next(ColSet(grid, h), r)
      ensures prev == (if c < 0 then null else At(grid, v, c)) && (c >= 0 ==> prev != null)
      ensures prev2 == (if r < 0 then null else At(grid, r, h)) && (r >= 0 ==> prev2 != null)
      ensures count == if Slot(v, h) in grid then old(count) else old(count) + 1
      ensures displaced == if Slot(v, h) in grid then grid[Slot(v, h)] else null
    {
      hide *;
      var cur, cur2;
      prev, cur, c := FindInRow(v, h);
      prev2, cur2, r := FindInCol(v, h);
      WalksMeet(grid, elems, v, h, c, r);
      if Slot(v, h) in grid {
        LinksOf(rows, cols, grid, elems, Slot(v, h), elem);
      }
      if cur != null && cur == cur2 {
        elem.right, elem.below := cur.right, cur.below;
        displaced := cur;
      } else {
        elem.right, elem.below := cur, cur2;
        count := count + 1;
        displaced := null;
      }
    }

    /** Both links of elem, and both links to it. */
    method Link(elem: LayoutElem, v: nat, h: nat, ghost grid': Grid, ghost elems': set<LayoutElem>)
      requires RowLinked(rows, grid, elems) && ColLinked(cols, grid, elems) && Placed(grid, elems)
      requires elem !in elems && v < |rows| && h < |cols| && v < MAX_SIZE && h < MAX_SIZE
      requires grid' == grid[Slot(v, h) := elem] && elems' == Filled(grid, elems, v, h, elem)
      modifies `rows, `cols, `count, elems`right, elems`below, elem`right, elem`below
      ensures RowLinked(rows, grid', elems') && ColLinked(cols, grid', elems')
      ensures |rows| == |old(rows)| && |cols| == |old(cols)|
      ensures count == if Slot(v, h) in grid then old(count) else old(count) + 1
    {
      hide *;
      if Slot(v, h) in grid {
        LinksOf(rows, cols, grid, elems, Slot(v, h), elem);
      }
      var prev, prev2, displaced, c, r := Aim(elem, v, h);
      assert RowLinked(rows, grid, elems) && ColLinked(cols, grid, elems) && Placed(grid, elems);
      LinkInRow(prev, elem, v, h, c, grid', elems');
      assert ColLinked(cols, grid, elems) && Placed(grid, elems);
      LinkInCol(prev2, elem, v, h, r, grid', elems');
      assert RowLinked(rows, grid', elems');
      if displaced != null {
        displaced.right, displaced.below := null, null;
      }
    }

    /** The new grid, once everything is linked to it. */
    ghost method Adopt(grid': Grid, elems': set<LayoutElem>)
      requires RowLinked(rows, grid', elems') && ColLinked(cols, grid', elems') && Placed(grid', elems')
      requires Listed(disabled, off, stash) && stash !! elems' && count == |grid'|
      requires Fits(elems', |rows|, |cols|) && Fits(stash, |rows|, |cols|)
      modifies `grid, `elems
      ensures Valid() && grid == grid' && elems == elems'
    {
      hide RowLinked, ColLinked, Placed, Listed, Fits;
      grid, elems := grid', elems';
    }

    /** Puts elem into its slot, in place of what was there; the grid grows to hold its span. */
    method Insert(elem: LayoutElem, hSlot: nat, vSlot: nat, hSpan: nat, vSpan: nat)
      requires Valid() && elem !in elems && elem !in stash && hSpan >= 1 && vSpan >= 1
      modifies this, elems`right, elems`below, elem`right, elem`below, elem`row, elem`column, elem`hSpan, elem`vSpan
      ensures Valid() && off == old(off) && stash == old(stash)
      ensures var v, h := ClampSlot(vSlot), ClampSlot(hSlot);
        && grid == old(grid)[Slot(v, h) := elem] && elems == Filled(old(grid), old(elems), v, h, elem)
        && elem.hSpan == ClampSpan(hSpan, h) && elem.vSpan == ClampSpan(vSpan, v)
        && |cols| == Max(|old(cols)|, h + elem.hSpan) && |rows| == Max(|old(rows)|, v + elem.vSpan)
      ensures elem.column == (if hSlot < 64 then hSlot else 63) && elem.row == (if vSlot < 64 then vSlot else 63)
      ensures elem.hSpan == Min(hSpan, 64 - elem.column) && elem.vSpan == Min(vSpan, 64 - elem.row)
    {
      hide RowLinked, ColLinked, Placed, Listed, Fits, Filled, RightOf, BelowOf, RowSet, ColSet, At, Next;
      var h, v := ClampSlot(hSlot), ClampSlot(vSlot);
      var hs, vs := ClampSpan(hSpan, h), ClampSpan(vSpan, v);
      Grow(v + vs, h + hs);
      ghost var grid', elems' := grid[Slot(v, h) := elem], Filled(grid, elems, v, h, elem);
      assert Placed(grid, elems);
      assert Listed(disabled, off, stash) && Fits(stash, |rows|, |cols|) && stash !! elems && elem !in stash;
      Link(elem, v, h, grid', elems');
      assert Listed(disabled, off, stash) && Fits(stash, |rows|, |cols|);
      SetPlace(elem, v, h, vs, hs, grid, elems, |rows|, |cols|);
      Adopt(grid', elems');
    }

    /** Points the row past elem. */
    method UnlinkInRow(prev: LayoutElem?, elem: LayoutElem, v: nat, h: nat, ghost c: int)
      requires RowLinked(rows, grid, elems) && Placed(grid, elems) && Slot(v, h) in grid && grid[Slot(v, h)] == elem
      requires -1 <= c < h == Next(RowSet(grid, v), c)
      requires prev == (if c < 0 then null else At(grid, v, c)) && (c >= 0 ==> prev != null)
      modifies `rows, elems`right
      ensures RowLinked(rows, grid - {Slot(v, h)}, elems - {elem}) && |rows| == |old(rows)|
    {
      hide RightOf, Next, RowSet;
      OwnSlots(grid, elems, Slot(v, h));
      if c >= 0 {
        OwnSlots(grid, elems, Slot(v, c));
      }
      if prev == null {
        rows := rows[v := elem.right];
      } else {
        prev.right := elem.right;
      }
      RowLinkedWithout(rows, grid, elems - {elem}, v, h, c);
    }

    /** Looks for elem down its column, and points the column past it. */
    method UnlinkInCol(elem: LayoutElem, ghost v: nat, h: nat)
      requires ColLinked(cols, grid, elems) && Placed(grid, elems) && Slot(v, h) in grid && grid[Slot(v, h)] == elem
      modifies `cols, elems`below
      ensures ColLinked(cols, grid - {Slot(v, h)}, elems - {elem}) && |cols| == |old(cols)|
    {
      hide Next, ColSet, BelowOf;
      var prev: LayoutElem?, cur := null, cols[h];
      ghost var r := -1;
      GapAbove(grid, elems, r, v, h);
      while cur != null && cur != elem
        invariant -1 <= r < v && cur == BelowOf(grid, r, h)
        invariant prev == (if r < 0 then null else At(grid, r, h)) && (r >= 0 ==> prev != null)
        decreases v - r
        modifies {}
      {
        GapAbove(grid, elems, r, v, h);
        prev, cur, r := cur, cur.below, cur.row;
      }
      GapAbove(grid, elems, r, v, h);
      PassColumn(prev, elem, v, h, r);
    }

    method PassColumn(prev: LayoutElem?, elem: LayoutElem, ghost v: nat, h: nat, ghost r: int)
      requires ColLinked(cols, grid, elems) && Placed(grid, elems) && Slot(v, h) in grid && grid[Slot(v, h)] == elem
      requires -1 <= r < v == Next(ColSet(grid, h), r)
      requires prev == (if r < 0 then null else At(grid, r, h)) && (r >= 0 ==> prev != null)
      modifies `cols, elems`below
      ensures ColLinked(cols, grid - {Slot(v, h)}, elems - {elem}) && |cols| == |old(cols)|
    {
      hide BelowOf, Next, ColSet;
      OwnSlots(grid, elems, Slot(v, h));
      if r >= 0 {
        OwnSlots(grid, elems, Slot(r, h));
      }
      if prev == null {
        cols := cols[h := elem.below];
      } else {
        prev.below := elem.below;
      }
      ColLinkedWithout(cols, grid, elems - {elem}, v, h, r);
    }

    /** The first element of row i with this context, and the element the row reaches it from. */
    method FindInOneRow(i: nat, context: int) returns (prev: LayoutElem?, elem: LayoutElem?, ghost c: int)
      requires RowLinked(rows, grid, elems) && Placed(grid, elems) && i < |rows|
      ensures elem == null ==> forall s :: s in grid && s.row == i ==> grid[s].context != context
      ensures elem != null ==>
        && elem in elems && elem.context == context && -1 <= c < elem.column == Next(RowSet(grid, i), c) && elem.row == i
        && prev == (if c < 0 then null else At(grid, i, c)) && (c >= 0 ==> prev != null)
        && forall s :: s in grid && s.row == i && s.col < elem.column ==> grid[s].context != context
    {
      hide Next, RowSet, RightOf;
      prev, elem, c := null, rows[i], -1;
      while elem != null && elem.context != context
        invariant -1 <= c < MAX_SIZE && elem == RightOf(grid, i, c)
        invariant prev == (if c < 0 then null else At(grid, i, c)) && (c >= 0 ==> prev != null)
        invariant forall s :: s in grid && s.row == i && s.col <= c ==> grid[s].context != context
        decreases MAX_SIZE - c
      {
        GapBefore(grid, elems, i, c);
        prev, elem, c := elem, elem.right, elem.column;
      }
      GapBefore(grid, elems, i, c);
    }

    /** The first element with this context, row by row, and the element its row reaches it from. */
    method FindContext(context: int) returns (prev: LayoutElem?, elem: LayoutElem?, ghost c: int)
      requires RowLinked(rows, grid, elems) && Placed(grid, elems)
      ensures elem == null ==> forall e :: e in elems ==> e.context != context
      ensures elem != null ==>
        && elem in elems && elem.context == context && -1 <= c < elem.column == Next(RowSet(grid, elem.row), c)
        && prev == (if c < 0 then null else At(grid, elem.row, c)) && (c >= 0 ==> prev != null)
        && forall s :: s in grid && Before(s, Slot(elem.row, elem.column)) ==> grid[s].context != context
    {
      for i := 0 to |rows|
        invariant forall s :: s in grid && s.row < i ==> grid[s].context != context
      {
        prev, elem, c := FindInOneRow(i, context);
        if elem != null {
          return;
        }
      }
      return null, null, -1;
    }

    /** Points its row and its column past elem. */
    method Unlink(prev: LayoutElem?, elem: LayoutElem, v: nat, h: nat, ghost c: int)
      requires RowLinked(rows, grid, elems) && ColLinked(cols, grid, elems) && Placed(grid, elems)
      requires Slot(v, h) in grid && grid[Slot(v, h)] == elem && -1 <= c < h == Next(RowSet(grid, v), c)
      requires prev == (if c < 0 then null else At(grid, v, c)) && (c >= 0 ==> prev != null)
      modifies `rows, `cols, elems`right, elems`below
      ensures RowLinked(rows, grid - {Slot(v, h)}, elems - {elem}) && ColLinked(cols, grid - {Slot(v, h)}, elems - {elem})
      ensures |rows| == |old(rows)| && |cols| == |old(cols)|
    {
      hide *;
      UnlinkInRow(prev, elem, v, h, c);
      assert ColLinked(cols, grid, elems) && Placed(grid, elems);
      UnlinkInCol(elem, v, h);
      assert RowLinked(rows, grid - {Slot(v, h)}, elems - {elem});
    }

    /** Takes elem out of the grid. */
    method TakeOut(prev: LayoutElem?, elem: LayoutElem, ghost c: int)
      requires Valid() && elem in elems && -1 <= c < elem.column == Next(RowSet(grid, elem.row), c)
      requires prev == (if c < 0 then null else At(grid, elem.row, c)) && (c >= 0 ==> prev != null)
      modifies this, elems`right, elems`below
      ensures Valid() && off == old(off) && stash == old(stash) && elem !in stash
      ensures grid == old(grid) - {Slot(elem.row, elem.column)} && elems == old(elems) - {elem}
      ensures |rows| == |old(rows)| && |cols| == |old(cols)|
    {
      hide *;
      Pieces();
      PlacedWithout(grid, elems, elem, |rows|, |cols|);
      ghost var grid', elems' := grid - {Slot(elem.row, elem.column)}, elems - {elem};
      Unlink(prev, elem, elem.row, elem.column, c);
      assert Placed(grid', elems') && Fits(elems', |rows|, |cols|);
      assert Listed(disabled, off, stash) && Fits(stash, |rows|, |cols|);
      CountDown(grid', elems');
    }

    /** One element less, everything else being ready for it. */
    method CountDown(ghost grid': Grid, ghost elems': set<LayoutElem>)
      requires RowLinked(rows, grid', elems') && ColLinked(cols, grid', elems') && Placed(grid', elems')
      requires Listed(disabled, off, stash) && stash !! elems' && count == |grid'| + 1
      requires Fits(elems', |rows|, |cols|) && Fits(stash, |rows|, |cols|)
      modifies `count, `grid, `elems
      ensures Valid() && grid == grid' && elems == elems'
    {
      hide *;
      count := count - 1;
      Adopt(grid', elems');
    }

    /** Takes out the first element with this context; the others keep their slots. */
    method Extract(context: int) returns (elem: LayoutElem?)
      requires Valid()
      modifies this, elems`right, elems`below
      ensures Valid() && off == old(off) && stash == old(stash) && |rows| == |old(rows)| && |cols| == |old(cols)|
      ensures elem == null ==> grid == old(grid) && elems == old(elems) && forall e :: e in elems ==> e.context != context
      ensures elem != null ==>
        && elem in old(elems) && elem.context == context
        && grid == old(grid) - {Slot(elem.row, elem.column)} && elems == old(elems) - {elem}
        && forall s :: s in grid && Before(s, Slot(elem.row, elem.column)) ==> grid[s].context != context
    {
      hide RowLinked, ColLinked, Placed, Listed, Fits, RightOf, BelowOf, RowSet, ColSet, At, Next;
      elem := null;
      NoneThere(grid, elems);
      if count > 0 {
        var prev, found, c := FindContext(context);
        elem := found;
        if elem != null {
          TakeOut(prev, elem, c);
        }
      }
    }

    /** Moves elem from the grid to the head of the switched-off elements. */
    method Disable(prev: LayoutElem?, elem: LayoutElem, ghost c: int)
      requires Valid() && elem in elems && -1 <= c < elem.column == Next(RowSet(grid, elem.row), c)
      requires prev == (if c < 0 then null else At(grid, elem.row, c)) && (c >= 0 ==> prev != null)
      modifies this, elems`right, elems`below
      ensures Valid() && off == [elem] + old(off) && stash == {elem} + old(stash)
      ensures grid == old(grid) - {Slot(elem.row, elem.column)} && elems == old(elems) - {elem}
      ensures |rows| == |old(rows)| && |cols| == |old(cols)|
    {
      hide RowLinked, ColLinked, Placed, Listed, RightOf, BelowOf, RowSet, ColSet, At, Next;
      TakeOut(prev, elem, c);
      Stash(elem);
    }

    method Stash(elem: LayoutElem)
      requires Valid() && elem !in elems && elem !in stash && Fits({elem}, |rows|, |cols|)
      modifies `disabled, `off, `stash, elem`right, elem`below
      ensures Valid() && off == [elem] + old(off) && stash == {elem} + old(stash)
    {
      hide RowLinked, ColLinked, Placed, Listed, Fits;
      elem.below := null;
      elem.right := disabled;
      assert Listed(disabled, off, stash) && Fits(stash, |rows|, |cols|) && Fits({elem}, |rows|, |cols|);
      assert RowLinked(rows, grid, elems) && ColLinked(cols, grid, elems);
      ListedPush(elem, disabled, off, stash, |rows|, |cols|);
      disabled, off, stash := elem, [elem] + off, {elem} + stash;
    }

    /** Puts the i-th switched-off element back into its slot; prev leads to it in their list. */
    method Enable(prev: LayoutElem?, elem: LayoutElem, ghost i: nat)
      requires Valid() && i < |off| && elem == off[i] && prev == if i == 0 then null else off[i - 1]
      modifies this, elems`right, elems`below, stash`right, stash`below,
               stash`row, stash`column, stash`hSpan, stash`vSpan
      ensures Valid() && off == old(off[..i] + off[i + 1..]) && stash == old(stash) - {elem}
      ensures var s := old(Slot(elem.row, elem.column));
        grid == old(grid)[s := elem] && elems == Filled(old(grid), old(elems), s.row, s.col, elem)
      ensures elem.hSpan == old(elem.hSpan) && elem.vSpan == old(elem.vSpan)
      ensures |rows| == |old(rows)| && |cols| == |old(cols)|
    {
      hide RowLinked, ColLinked, Placed, Listed, Filled;
      Unstash(prev, elem, i);
      if elem.column + elem.hSpan <= |cols| && elem.row + elem.vSpan <= |rows| {
        Insert(elem, elem.column, elem.row, elem.hSpan, elem.vSpan);
      } else {
        assert false;
      }
    }

    method Unstash(prev: LayoutElem?, elem: LayoutElem, ghost i: nat)
      requires Valid() && i < |off| && elem == off[i] && prev == if i == 0 then null else off[i - 1]
      modifies `disabled, `off, `stash, stash`right
      ensures Valid() && off == old(off[..i] + off[i + 1..]) && stash == old(stash) - {elem}
      ensures elem in old(stash) && elem !in elems && Fits({elem}, |rows|, |cols|)
    {
      hide RowLinked, ColLinked, Placed, Listed, Fits;
      DropOne(disabled, off, stash, i, |rows|, |cols|);
      CutStash(prev, elem, i);
      assert RowLinked(rows, grid, elems) && ColLinked(cols, grid, elems) && Placed(grid, elems) && Fits(elems, |rows|, |cols|);
      off, stash := off[..i] + off[i + 1..], stash - {elem};
    }

    method CutStash(prev: LayoutElem?, elem: LayoutElem, ghost i: nat)
      requires Listed(disabled, off, stash) && i < |off| && elem == off[i] && prev == if i == 0 then null else off[i - 1]
      modifies `disabled, stash`right
      ensures Listed(disabled, off[..i] + off[i + 1..], stash - {elem})
    {
      if prev == null {
        disabled := elem.right;
      } else {
        prev.right := elem.right;
      }
      elem.right := null;
      ListedWithout(disabled, off, stash, i);
    }

    /** Switching an element off and on again restores the grid down to every link. */
    method DisableThenEnable(prev: LayoutElem?, elem: LayoutElem, ghost c: int)
      requires Valid() && elem in elems && -1 <= c < elem.column == Next(RowSet(grid, elem.row), c)
      requires prev == (if c < 0 then null else At(grid, elem.row, c)) && (c >= 0 ==> prev != null)
      modifies this, elems`right, elems`below, elem, stash
      ensures Valid() && grid == old(grid) && off == old(off) && stash == old(stash) && elems == old(elems)
      ensures rows == old(rows) && cols == old(cols) && count == old(count)
      ensures forall s :: s in grid ==> grid[s].right == old(grid[s].right) && grid[s].below == old(grid[s].below)
    {
      hide RowLinked, ColLinked, Placed, Listed, Fits, RightOf, BelowOf, RowSet, ColSet, At, Next, Filled;
      ghost var s, others := Slot(elem.row, elem.column), stash;
      PlacedWithout(grid, elems, elem, |rows|, |cols|);
      BackInPlace(grid, elems, s, elem);
      Disable(prev, elem, c);
      assert off[..0] + off[1..] == old(off);
      Enable(null, elem, 0);
      assert stash == others;
      SameSlotsSameLinks();
    }

    /** A layout with the same elements in the same slots as at some other moment is linked as it was then, down to
        every pointer, whatever calls lie between. */
    twostate lemma SameSlotsSameLinks()
      requires old(Valid()) && Valid()
      requires grid == old(grid) && |rows| == old(|rows|) && |cols| == old(|cols|)
      ensures rows == old(rows) && cols == old(cols) && elems == old(elems)
      ensures forall s :: s in grid ==> grid[s].right == old(grid[s].right) && grid[s].below == old(grid[s].below)
    {
      hide RightOf, BelowOf, Fits, Listed;
      assert RowLinked(rows, grid, elems) && ColLinked(cols, grid, elems) && Placed(grid, elems);
      assert old(RowLinked(rows, grid, elems)) && old(ColLinked(cols, grid, elems)) && old(Placed(grid, elems));
      forall r | 0 <= r < |rows| ensures rows[r] == old(rows)[r] {}
      forall c | 0 <= c < |cols| ensures cols[c] == old(cols)[c] {}
      assert forall e :: e in elems <==> e in old(elems);
    }
  }

  lemma BackInPlace(grid: Grid, elems: set<LayoutElem>, s: Slot, elem: LayoutElem)
    requires s in grid && grid[s] == elem && elem in elems
    ensures (grid - {s})[s := elem] == grid && Filled(grid - {s}, elems - {elem}, s.row, s.col, elem) == elems
  {
  }

  lemma ListedWithout(head: LayoutElem?, off: seq<LayoutElem>, stash: set<LayoutElem>, i: nat)
    requires i < |off| && (forall p, q :: 0 <= p < q < |off| ==> off[p] != off[q])
    requires SetOf(off) == stash && head == Nth(off, if i == 0 then 1 else 0)
    requires forall k {:trigger off[k].right} :: 0 <= k < |off| && k != i ==>
        off[k].right == Nth(off, if k + 1 == i then i + 1 else k + 1)
    ensures Listed(head, off[..i] + off[i + 1..], stash - {off[i]})
  {
    var rest := off[..i] + off[i + 1..];
    forall e | e in off && e != off[i] ensures e in rest {
      var p :| 0 <= p < |off| && off[p] == e;
      assert rest[if p < i then p else p - 1] == e;
    }
    forall k | 0 <= k < |rest| ensures rest[k].right == Nth(rest, k + 1) {
      assert rest[k] == off[if k < i then k else k + 1];
    }
  }

  lemma DropOne(head: LayoutElem?, off: seq<LayoutElem>, stash: set<LayoutElem>, i: nat, height: nat, width: nat)
    requires i < |off| && Listed(head, off, stash) && Fits(stash, height, width)
    ensures off[i] in stash && Fits(stash - {off[i]}, height, width) && Fits({off[i]}, height, width)
  {
  }

  lemma ListedPush(elem: LayoutElem, head: LayoutElem?, off: seq<LayoutElem>, stash: set<LayoutElem>, height: nat, width: nat)
    requires Listed(head, off, stash) && elem !in stash && elem.right == head
    requires Fits({elem}, height, width) && Fits(stash, height, width)
    ensures Listed(elem, [elem] + off, {elem} + stash)
    ensures Fits({elem} + stash, height, width)
  {
  }

  lemma NoneThere(grid: Grid, elems: set<LayoutElem>)
    requires Placed(grid, elems)
    ensures |grid| == 0 ==> elems == {}
  {
  }

  lemma PlacedWithout(grid: Grid, elems: set<LayoutElem>, elem: LayoutElem, height: nat, width: nat)
    requires Placed(grid, elems) && elem in elems && Fits(elems, height, width)
    ensures Slot(elem.row, elem.column) in grid && grid[Slot(elem.row, elem.column)] == elem
    ensures |grid - {Slot(elem.row, elem.column)}| == |grid| - 1
    ensures Placed(grid - {Slot(elem.row, elem.column)}, elems - {elem}) && Fits(elems - {elem}, height, width)
  {
  }

  /** The first element below r stands above a filled slot, or in it. */
  lemma GapAbove(grid: Grid, elems: set<LayoutElem>, r: int, v: nat, h: nat)
    requires Placed(grid, elems) && -1 <= r < v && Slot(v, h) in grid
    ensures var e := BelowOf(grid, r, h);
            && e != null && e in elems && e.column == h && r < e.row == Next(ColSet(grid, h), r) <= v
            && grid[Slot(e.row, h)] == e
  {
    assert v in ColSet(grid, h);
  }

  /** Nothing stands between a place and the element it leads to. */
  lemma GapBefore(grid: Grid, elems: set<LayoutElem>, r: nat, c: int)
    requires Placed(grid, elems) && -1 <= c < MAX_SIZE
    ensures var e := RightOf(grid, r, c);
            if e == null then forall s :: s in grid && s.row == r ==> s.col <= c
            else e in elems && e.row == r && c < e.column == Next(RowSet(grid, r), c)
                 && forall s :: s in grid && s.row == r ==> s.col <= c || s.col >= e.column
  {
    forall s | s in grid && s.row == r && s.col > c ensures s.col >= Next(RowSet(grid, r), c) {
      assert s.col in RowSet(grid, r);
    }
  }

  /** Row by row, from left to right. */
  ghost predicate Before(s: Slot, t: Slot)
  {
    s.row < t.row || (s.row == t.row && s.col < t.col)
  }

  /** The element learns its place. */
  method SetPlace(elem: LayoutElem, v: nat, h: nat, vs: nat, hs: nat, ghost grid: Grid, ghost elems: set<LayoutElem>,
                  ghost height: nat, ghost width: nat)
    requires Placed(grid, elems) && elem !in elems && v < MAX_SIZE && h < MAX_SIZE && Fits(elems, height, width)
    requires hs >= 1 && h + hs <= MAX_SIZE && h + hs <= width && vs >= 1 && v + vs <= MAX_SIZE && v + vs <= height
    modifies elem`row, elem`column, elem`hSpan, elem`vSpan
    ensures elem.hSpan == hs && elem.vSpan == vs && elem.row == v && elem.column == h
    ensures var grid', elems' := grid[Slot(v, h) := elem], Filled(grid, elems, v, h, elem);
            Placed(grid', elems') && Fits(elems', height, width) && elems' <= elems + {elem}
  {
    hide Placed, Fits, Filled;
    elem.hSpan, elem.vSpan, elem.row, elem.column := hs, vs, v, h;
    assert Placed(grid, elems) && Fits(elems, height, width);
    PlacedAfter(grid, elems, elem, height, width);
  }
}
