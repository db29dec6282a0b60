/** Resizing a layout (libAfterBase/layout.c): column and row sizes become positions, and every element in
    the grid gets the rectangle its slots and spans stand for. */
module LayoutResize {
  import opened Common
  import opened LayoutGrid
  import S = LayoutSizes

  /** Where column i ends: the start and all sizes up to it. */
  ghost function Edge(start: int, sizes: seq<int>, i: int): int
  {
    start + S.Sum(sizes[..if i < -1 then 0 else if i >= |sizes| then |sizes| else i + 1])
  }

  lemma {:induction false} SumSplit(s: seq<int>, i: nat)
    requires i < |s|
    ensures S.Sum(s[..i + 1]) == S.Sum(s[..i]) + s[i]
  {
    if i == 0 {
      assert s[..1] == [s[0]] && s[..0] == [];
      assert S.Sum([s[0]]) == s[0] + S.Sum([]);
    } else {
      assert s[..i + 1][1..] == s[1..][..i] && s[..i][1..] == s[1..][..i - 1];
      SumSplit(s[1..], i - 1);
    }
  }

  lemma EdgeStep(start: int, sizes: seq<int>, i: nat)
    requires i < |sizes|
    ensures Edge(start, sizes, i) == Edge(start, sizes, i - 1) + sizes[i] && Edge(start, sizes, -1) == start
  {
    SumSplit(sizes, i);
    assert sizes[..0] == [];
  }

  /** The gap before column i: none before the first, before an empty one, or where nothing came before. */
  ghost function Gap(spacing: int, start: int, sizes: seq<int>, i: int): int
  {
    if 0 < i < |sizes| && sizes[i] > 0 && Edge(start, sizes, i - 1) > start then spacing else 0
  }

  /** Column i, from p on for w, ends where the sizes say, and starts a gap after the end of the one before it. */
  ghost predicate Spot(spacing: int, start: int, sizes: seq<int>, i: int, p: int, w: int)
  {
    p + w == Edge(start, sizes, i) && p == Edge(start, sizes, i - 1) + Gap(spacing, start, sizes, i)
  }

  ghost predicate Spaced(spacing: int, start: int, sizes: seq<int>, pos: seq<int>, size: seq<int>)
  {
    |pos| == |size| == |sizes| && forall i :: 0 <= i < |sizes| ==> Spot(spacing, start, sizes, i, pos[i], size[i])
  }

  /** From the end of one column, the spot of the next. */
  lemma NextSpot(spacing: int, start: int, sizes: seq<int>, i: nat)
    requires i < |sizes|
    ensures var p := Edge(start, sizes, i - 1);
      if i > 0 && sizes[i] > 0 && p > start then Spot(spacing, start, sizes, i, p + spacing, sizes[i] - spacing)
      else Spot(spacing, start, sizes, i, p, sizes[i])
    ensures i == 0 ==> Edge(start, sizes, i - 1) == start
    ensures forall p, w :: Spot(spacing, start, sizes, i, p, w) ==> p + w == Edge(start, sizes, i)
  {
    EdgeStep(start, sizes, i);
  }

  /** Turns sizes into positions, taking the gaps out of the sizes. */
  method ApplySizes(spacing: nat, start: int, size: array<int>, pos: array<int>)
    requires size.Length == pos.Length > 0 && size != pos
    modifies size, pos
    ensures Spaced(spacing, start, old(size[..]), pos[..], size[..])
  {
    hide Edge, Spot;
    ghost var sizes := size[..];
    pos[0] := start;
    NextSpot(spacing, start, sizes, 0);
    for i := 1 to size.Length
      invariant forall k :: i <= k < size.Length ==> size[k] == sizes[k]
      invariant forall k :: 0 <= k < i ==> Spot(spacing, start, sizes, k, pos[k], size[k])
    {
      NextSpot(spacing, start, sizes, i - 1);
      NextSpot(spacing, start, sizes, i);
      pos[i] := pos[i - 1] + size[i - 1];
      if size[i] > 0 && pos[i] > start {
        pos[i] := pos[i] + spacing;
        size[i] := size[i] - spacing;
      }
    }
  }

  lemma {:induction false} EdgesAscend(start: int, sizes: seq<int>, i: int, j: int)
    requires S.NonNegative(sizes) && -1 <= i <= j < |sizes|
    ensures Edge(start, sizes, i) <= Edge(start, sizes, j)
    decreases j
  {
    if i < j {
      EdgeStep(start, sizes, j);
      EdgesAscend(start, sizes, i, j - 1);
    }
  }

  // ---------------------------------------------------------------- the elements

  /** The element covers its slot and its span, border included. */
  ghost predicate Covers(e: LayoutElem, xs: seq<int>, ws: seq<int>, ys: seq<int>, hs: seq<int>)
    reads e
  {
    && 1 <= e.hSpan && e.column + e.hSpan <= |xs| == |ws| && 1 <= e.vSpan && e.row + e.vSpan <= |ys| == |hs|
    && e.x == xs[e.column] && e.y == ys[e.row]
    && (var k := e.column + e.hSpan - 1; e.x + e.width + 2 * e.bw == xs[k] + ws[k])
    && (var k := e.row + e.vSpan - 1; e.y + e.height + 2 * e.bw == ys[k] + hs[k])
  }

  method PlaceElem(e: LayoutElem, xs: array<int>, ws: array<int>, ys: array<int>, hs: array<int>)
    requires 1 <= e.hSpan && e.column + e.hSpan <= xs.Length == ws.Length
    requires 1 <= e.vSpan && e.row + e.vSpan <= ys.Length == hs.Length
    modifies e`x, e`y, e`width, e`height
    ensures Covers(e, xs[..], ws[..], ys[..], hs[..])
  {
    var k := e.column + e.hSpan - 1;
    var w := xs[k] + ws[k] - xs[e.column];
    k := e.row + e.vSpan - 1;
    var h := ys[k] + hs[k] - ys[e.row];
    e.x, e.y := xs[e.column], ys[e.row];
    e.width, e.height := w - 2 * e.bw, h - 2 * e.bw;
  }

  /** The first rows, and in row i the first columns, are done. */
  ghost predicate Done(grid: Grid, elems: set<LayoutElem>, i: int, c: int, xs: seq<int>, ws: seq<int>, ys: seq<int>, hs: seq<int>)
    reads elems
  {
    forall s :: s in grid && grid[s] in elems && (s.row < i || (s.row == i && s.col <= c)) ==> Covers(grid[s], xs, ws, ys, hs)
  }

  lemma RowStep(grid: Grid, elems: set<LayoutElem>, rows: seq<LayoutElem?>, e: LayoutElem, width: nat)
    requires RowLinked(rows, grid, elems) && Placed(grid, elems) && Fits(elems, |rows|, width) && e in elems
    ensures e.right == RightOf(grid, e.row, e.column) && e.column < MAX_SIZE
    ensures Slot(e.row, e.column) in grid && grid[Slot(e.row, e.column)] == e
    ensures 1 <= e.hSpan && e.column + e.hSpan <= width && 1 <= e.vSpan && e.row + e.vSpan <= |rows|
  {
  }

  lemma RowStart(grid: Grid, elems: set<LayoutElem>, rows: seq<LayoutElem?>, i: nat)
    requires RowLinked(rows, grid, elems) && i < |rows|
    ensures rows[i] == RightOf(grid, i, -1)
  {
  }

  lemma AllDone(grid: Grid, elems: set<LayoutElem>, rows: seq<LayoutElem?>, xs: seq<int>, ws: seq<int>,
                ys: seq<int>, hs: seq<int>)
    requires RowLinked(rows, grid, elems) && Placed(grid, elems) && Done(grid, elems, |rows|, -1, xs, ws, ys, hs)
    ensures forall e :: e in elems ==> Covers(e, xs, ws, ys, hs)
  {
  }

  /** Every element of the grid gets its rectangle. */
  method PlaceElems(layout: Layout, xs: array<int>, ws: array<int>, ys: array<int>, hs: array<int>)
    requires layout.Valid()
    requires xs.Length == ws.Length == |layout.cols| && ys.Length == hs.Length == |layout.rows|
    modifies layout.elems`x, layout.elems`y, layout.elems`width, layout.elems`height
    ensures layout.Valid()
    ensures forall e :: e in layout.elems ==> Covers(e, xs[..], ws[..], ys[..], hs[..])
  {
    assert Done(layout.grid, layout.elems, 0, -1, xs[..], ws[..], ys[..], hs[..]);
    hide RowLinked, ColLinked, Placed, Listed, Fits, RightOf, Done;
    for i := 0 to |layout.rows|
      invariant layout.Valid() && Done(layout.grid, layout.elems, i, -1, xs[..], ws[..], ys[..], hs[..])
    {
      PlaceRow(layout, i, xs, ws, ys, hs);
    }
    AllDone(layout.grid, layout.elems, layout.rows, xs[..], ws[..], ys[..], hs[..]);
  }

  method PlaceRow(layout: Layout, i: nat, xs: array<int>, ws: array<int>, ys: array<int>, hs: array<int>)
    requires layout.Valid() && i < |layout.rows| && Done(layout.grid, layout.elems, i, -1, xs[..], ws[..], ys[..], hs[..])
    requires xs.Length == ws.Length == |layout.cols| && ys.Length == hs.Length == |layout.rows|
    modifies layout.elems`x, layout.elems`y, layout.elems`width, layout.elems`height
    ensures layout.Valid() && Done(layout.grid, layout.elems, i + 1, -1, xs[..], ws[..], ys[..], hs[..])
  {
    hide RowLinked, ColLinked, Placed, Listed, Fits, RightOf, Done;
    var e := layout.rows[i];
    ghost var c := -1;
    RowStart(layout.grid, layout.elems, layout.rows, i);
    while e != null
      invariant layout.Valid() && -1 <= c < MAX_SIZE && e == RightOf(layout.grid, i, c)
      invariant Done(layout.grid, layout.elems, i, c, xs[..], ws[..], ys[..], hs[..])
      decreases MAX_SIZE - c
    {
      GapBefore(layout.grid, layout.elems, i, c);
      RowStep(layout.grid, layout.elems, layout.rows, e, |layout.cols|);
      PlaceNext(layout.grid, layout.elems, i, c, e, xs, ws, ys, hs);
      e, c := e.right, e.column;
    }
    GapBefore(layout.grid, layout.elems, i, c);
    RowIsDone(layout.grid, layout.elems, i, c, xs[..], ws[..], ys[..], hs[..]);
  }

  lemma RowIsDone(grid: Grid, elems: set<LayoutElem>, i: nat, c: int, xs: seq<int>, ws: seq<int>, ys: seq<int>, hs: seq<int>)
    requires Done(grid, elems, i, c, xs, ws, ys, hs) && forall s :: s in grid && s.row == i ==> s.col <= c
    ensures Done(grid, elems, i + 1, -1, xs, ws, ys, hs)
  {
  }

  method PlaceNext(ghost grid: Grid, ghost elems: set<LayoutElem>, ghost i: nat, ghost c: int, e: LayoutElem,
                   xs: array<int>, ws: array<int>, ys: array<int>, hs: array<int>)
    requires Done(grid, elems, i, c, xs[..], ws[..], ys[..], hs[..]) && e in elems && e.row == i
    requires Slot(i, e.column) in grid && grid[Slot(i, e.column)] == e
    requires forall s :: s in grid && s.row == i ==> s.col <= c || s.col >= e.column
    requires 1 <= e.hSpan && e.column + e.hSpan <= xs.Length == ws.Length
    requires 1 <= e.vSpan && e.row + e.vSpan <= ys.Length == hs.Length
    modifies e`x, e`y, e`width, e`height
    ensures Done(grid, elems, i, e.column, xs[..], ws[..], ys[..], hs[..])
  {
    hide Covers;
    PlaceElem(e, xs, ws, ys, hs);
  }

  // ---------------------------------------------------------------- the whole of it

  /** The space around and between the elements. */
  datatype Margins = Margins(west: int, east: int, north: int, south: int, vBorder: nat, hBorder: nat,
                             hSpacing: nat, vSpacing: nat)

  /** What is left of a width or a height inside the margins, in 32-bit unsigned arithmetic. */
  function Inner(total: nat, before: int, after: int, border: nat): nat
  {
    (total - (before + after + 2 * border)) % UINT
  }

  /** One direction: shares out the total, and turns the shares into positions. */
  method FitAxis(oldTotal: nat, newTotal: nat, spacing: nat, start: int, size: array<int>, fixed: array<int>, pos: array<int>)
    requires size.Length == fixed.Length == pos.Length > 0 && size != fixed && size != pos
    modifies size, pos
    ensures Spaced(spacing, start, S.Adjusted(oldTotal, newTotal, old(fixed[..]), old(size[..])), pos[..], size[..])
  {
    S.AdjustSizes(oldTotal, newTotal, size, fixed);
    ApplySizes(spacing, start, size, pos);
  }

  /** The positions and sizes along one direction fill the room inside the margins: what starts in the first slot starts
      behind the first margin and the border, and what ends in the last slot ends in front of the other. */
  ghost predicate Fills(pos: seq<int>, size: seq<int>, total: int, before: int, after: int, border: nat)
  {
    && |pos| == |size| > 0 && pos[0] == before + border && pos[|pos| - 1] + size[|size| - 1] == total - after - border
  }

  /** With a flexible column, and a total that leaves room for the margins. */
  lemma AxisFills(spacing: nat, before: int, after: int, border: nat, oldTotal: nat, total: int, fixed: seq<int>,
                  sizes: seq<int>, pos: seq<int>, size: seq<int>)
    requires |fixed| == |sizes| && S.Flexible(fixed) > 0 && 0 <= total - before - after - 2 * border < UINT / 2
    requires Spaced(spacing, before + border, S.Adjusted(oldTotal, total - before - after - 2 * border, fixed, sizes), pos, size)
    ensures Fills(pos, size, total, before, after, border)
  {
    hide S.Adjusted, S.Sum, S.Flexible, Gap;
    var newTotal, start := total - before - after - 2 * border, before + border;
    var adjusted := S.Adjusted(oldTotal, newTotal, fixed, sizes);
    S.SpaceIsConserved(oldTotal, newTotal, fixed, sizes);
    SomeColumn(fixed);
    var last := |sizes| - 1;
    assert adjusted[..|sizes|] == adjusted;
    assert Edge(start, adjusted, last) == start + newTotal;
    EdgeStep(start, adjusted, 0);
    SpotFirst(spacing, start, adjusted, pos, size);
    assert Spot(spacing, start, adjusted, last, pos[last], size[last]);
  }

  lemma SomeColumn(fixed: seq<int>)
    requires S.Flexible(fixed) > 0
    ensures |fixed| > 0
  {
  }

  lemma SpotFirst(spacing: nat, start: int, sizes: seq<int>, pos: seq<int>, size: seq<int>)
    requires Spaced(spacing, start, sizes, pos, size) && |sizes| > 0
    ensures pos[0] == start
  {
    hide S.Sum;
    EdgeStep(start, sizes, 0);
    assert Spot(spacing, start, sizes, 0, pos[0], size[0]);
  }

  /** Then every element in the first column starts at the left border, and every one that reaches the last column
      ends at the right one, its own border included; and so with rows. */
  ghost predicate Bordered(e: LayoutElem, cols: nat, rows: nat, m: Margins, width: int, height: int, wide: bool, high: bool)
    reads e
  {
    && (wide && e.column == 0 ==> e.x == m.west + m.vBorder)
    && (wide && e.column + e.hSpan == cols ==> e.x + e.width + 2 * e.bw == width - m.east - m.vBorder)
    && (high && e.row == 0 ==> e.y == m.north + m.hBorder)
    && (high && e.row + e.vSpan == rows ==> e.y + e.height + 2 * e.bw == height - m.south - m.hBorder)
  }

  lemma CoversFilled(e: LayoutElem, m: Margins, width: int, height: int, wide: bool, high: bool,
                     xs: seq<int>, ws: seq<int>, ys: seq<int>, hs: seq<int>)
    requires Covers(e, xs, ws, ys, hs)
    requires wide ==> Fills(xs, ws, width, m.west, m.east, m.vBorder)
    requires high ==> Fills(ys, hs, height, m.north, m.south, m.hBorder)
    ensures Bordered(e, |xs|, |ys|, m, width, height, wide, high)
  {
  }

  /** The total leaves room inside the margins, and some column can take it. */
  ghost predicate Roomy(total: int, before: int, after: int, border: nat, fixed: seq<int>)
  {
    0 <= total - before - after - 2 * border < UINT / 2 && S.Flexible(fixed) > 0
  }

  /** Fits the layout into a width and a height, unless it has them already. The current and the fixed sizes
      of its columns and rows are taken as they come. */
  method MoveResize(layout: Layout, m: Margins, oldWidth: nat, oldHeight: nat, width: nat, height: nat, force: bool,
                    ws: array<int>, fixedWs: array<int>, xs: array<int>, hs: array<int>, fixedHs: array<int>, ys: array<int>)
      returns (changed: bool, newWidth: nat, newHeight: nat)
    requires layout.Valid() && |layout.cols| > 0 && |layout.rows| > 0
    requires ws.Length == fixedWs.Length == xs.Length == |layout.cols| && ws != fixedWs && ws != xs
    requires hs.Length == fixedHs.Length == ys.Length == |layout.rows| && hs != fixedHs && hs != ys
    requires hs != ws && hs != xs && hs != fixedWs && ys != ws && ys != xs && fixedHs != ws && fixedHs != xs
    modifies ws, xs, hs, ys, layout.elems`x, layout.elems`y, layout.elems`width, layout.elems`height
    ensures layout.Valid() && newWidth == Inner(width, m.east, m.west, m.vBorder)
    ensures newHeight == Inner(height, m.north, m.south, m.hBorder)
    ensures changed <==> force || newWidth != oldWidth || newHeight != oldHeight
    ensures changed ==>
      && Spaced(m.hSpacing, m.west + m.vBorder, S.Adjusted(oldWidth, newWidth, old(fixedWs[..]), old(ws[..])), xs[..], ws[..])
      && Spaced(m.vSpacing, m.north + m.hBorder, S.Adjusted(oldHeight, newHeight, old(fixedHs[..]), old(hs[..])), ys[..], hs[..])
      && forall e :: e in layout.elems ==> Covers(e, xs[..], ws[..], ys[..], hs[..])
    ensures changed ==> forall e :: e in layout.elems ==>
      Bordered(e, |layout.cols|, |layout.rows|, m, width, height,
               Roomy(width, m.west, m.east, m.vBorder, old(fixedWs[..])), Roomy(height, m.north, m.south, m.hBorder, old(fixedHs[..])))
    ensures !changed ==> ws[..] == old(ws[..]) && hs[..] == old(hs[..])
  {
    hide *;
    ghost var fw, fh, ow, oh := fixedWs[..], fixedHs[..], ws[..], hs[..];
    newWidth := Inner(width, m.east, m.west, m.vBorder);
    newHeight := Inner(height, m.north, m.south, m.hBorder);
    if newWidth == oldWidth && newHeight == oldHeight && !force {
      return false, newWidth, newHeight;
    }
    FitAxis(oldWidth, newWidth, m.hSpacing, m.west + m.vBorder, ws, fixedWs, xs);
    ghost var w, x := ws[..], xs[..];
    assert hs[..] == oh && fixedHs[..] == fh;
    FitAxis(oldHeight, newHeight, m.vSpacing, m.north + m.hBorder, hs, fixedHs, ys);
    ghost var h, y := hs[..], ys[..];
    assert Spaced(m.vSpacing, m.north + m.hBorder, S.Adjusted(oldHeight, newHeight, fh, oh), y, h);
    assert ws[..] == w && xs[..] == x;
    assert layout.Valid();
    PlaceElems(layout, xs, ws, ys, hs);
    assert ws[..] == w && xs[..] == x && hs[..] == h && ys[..] == y;
    changed := true;
    if Roomy(width, m.west, m.east, m.vBorder, fw) {
      RoomInside(width, m.west, m.east, m.vBorder, fw);
      AxisFills(m.hSpacing, m.west, m.east, m.vBorder, oldWidth, width, fw, ow, x, w);
    }
    if Roomy(height, m.north, m.south, m.hBorder, fh) {
      RoomInside(height, m.north, m.south, m.hBorder, fh);
      AxisFills(m.vSpacing, m.north, m.south, m.hBorder, oldHeight, height, fh, oh, y, h);
    }
    forall e | e in layout.elems
      ensures Bordered(e, |layout.cols|, |layout.rows|, m, width, height,
        Roomy(width, m.west, m.east, m.vBorder, fw), Roomy(height, m.north, m.south, m.hBorder, fh))
    {
      CoversFilled(e, m, width, height, Roomy(width, m.west, m.east, m.vBorder, fw),
                   Roomy(height, m.north, m.south, m.hBorder, fh), x, w, y, h);
    }
  }

  lemma RoomInside(total: nat, before: int, after: int, border: nat, fixed: seq<int>)
    requires Roomy(total, before, after, border, fixed)
    ensures S.Flexible(fixed) > 0 && 0 <= total - before - after - 2 * border < UINT / 2
    ensures Inner(total, before, after, border) == Inner(total, after, before, border) == total - before - after - 2 * border
  {
  }

  /** In a resized layout with a flexible column, whatever spans to the last column ends exactly at the inner
      edge, border included. */
  lemma LastColumnMeetsTheEdge(m: Margins, oldWidth: nat, newWidth: nat, fixed: seq<int>, sizes: seq<int>,
                               xs: seq<int>, ws: seq<int>, ys: seq<int>, hs: seq<int>, e: LayoutElem)
    requires |fixed| == |sizes| && S.Flexible(fixed) > 0 && newWidth < UINT / 2
    requires Spaced(m.hSpacing, m.west + m.vBorder, S.Adjusted(oldWidth, newWidth, fixed, sizes), xs, ws)
    requires Covers(e, xs, ws, ys, hs) && e.column + e.hSpan == |sizes|
    ensures e.x + e.width + 2 * e.bw == m.west + m.vBorder + newWidth
  {
    var adjusted := S.Adjusted(oldWidth, newWidth, fixed, sizes);
    S.SpaceIsConserved(oldWidth, newWidth, fixed, sizes);
    assert adjusted[..|sizes|] == adjusted;
    assert Spot(m.hSpacing, m.west + m.vBorder, adjusted, |sizes| - 1, xs[|sizes| - 1], ws[|sizes| - 1]);
  }

  /** Elements on separate columns do not overlap, as long as no size has gone negative. */
  lemma SeparateColumnsDoNotOverlap(spacing: nat, start: int, sizes: seq<int>, xs: seq<int>, ws: seq<int>,
                                    ys: seq<int>, hs: seq<int>, e: LayoutElem, f: LayoutElem)
    requires S.NonNegative(sizes) && Spaced(spacing, start, sizes, xs, ws)
    requires Covers(e, xs, ws, ys, hs) && Covers(f, xs, ws, ys, hs) && e.column + e.hSpan <= f.column
    ensures e.x + e.width + 2 * e.bw <= f.x
  {
    var k := e.column + e.hSpan - 1;
    assert Spot(spacing, start, sizes, k, xs[k], ws[k]);
    assert Spot(spacing, start, sizes, f.column, xs[f.column], ws[f.column]);
    EdgesAscend(start, sizes, k, f.column - 1);
  }

  /** Where a column has a gap in front of it, the gap lies between the elements as well. */
  lemma GapsSeparate(spacing: nat, start: int, sizes: seq<int>, xs: seq<int>, ws: seq<int>,
                     ys: seq<int>, hs: seq<int>, e: LayoutElem, f: LayoutElem)
    requires S.NonNegative(sizes) && Spaced(spacing, start, sizes, xs, ws)
    requires Covers(e, xs, ws, ys, hs) && Covers(f, xs, ws, ys, hs) && e.column + e.hSpan <= f.column
    requires sizes[f.column] > 0 && S.Sum(sizes[..f.column]) > 0
    ensures e.x + e.width + 2 * e.bw + spacing <= f.x
  {
    var k := e.column + e.hSpan - 1;
    assert Spot(spacing, start, sizes, k, xs[k], ws[k]);
    assert Spot(spacing, start, sizes, f.column, xs[f.column], ws[f.column]);
    EdgesAscend(start, sizes, k, f.column - 1);
  }

  // ---------------------------------------------------------------- gaps

  /** Where nothing has a size yet, the next column starts at the start, and an empty column takes up nothing. */
  lemma FirstStartsAtStart(spacing: nat, start: int, sizes: seq<int>, xs: seq<int>, ws: seq<int>, j: nat)
    requires Spaced(spacing, start, sizes, xs, ws) && j < |sizes| && forall k :: 0 <= k < j ==> sizes[k] == 0
    ensures xs[j] == start && ws[j] == sizes[j]
  {
    assert Spot(spacing, start, sizes, j, xs[j], ws[j]);
    EmptyEdges(start, sizes, -1, j - 1);
    EdgeStep(start, sizes, j);
  }

  /** Of two columns with nothing but empty ones between, the second starts exactly the spacing after the first, and
      gives the spacing up from its size. */
  lemma NextStartsAfterGap(spacing: nat, start: int, sizes: seq<int>, xs: seq<int>, ws: seq<int>, i: nat, j: nat)
    requires S.NonNegative(sizes) && Spaced(spacing, start, sizes, xs, ws) && i < j < |sizes|
    requires sizes[i] > 0 && sizes[j] > 0 && forall k :: i < k < j ==> sizes[k] == 0
    ensures xs[j] == xs[i] + ws[i] + spacing && ws[j] == sizes[j] - spacing
    ensures forall k :: i < k < j ==> xs[k] == xs[i] + ws[i] && ws[k] == 0
  {
    assert Spot(spacing, start, sizes, i, xs[i], ws[i]) && Spot(spacing, start, sizes, j, xs[j], ws[j]);
    EmptyEdges(start, sizes, i, j - 1);
    EdgeStep(start, sizes, i);
    EdgeStep(start, sizes, j);
    EdgesAscend(start, sizes, -1, i - 1);
    forall k | i < k < j ensures xs[k] == xs[i] + ws[i] && ws[k] == 0 {
      assert Spot(spacing, start, sizes, k, xs[k], ws[k]);
      EmptyEdges(start, sizes, i, k - 1);
      EdgeStep(start, sizes, k);
    }
  }

  lemma {:induction false} EmptyEdges(start: int, sizes: seq<int>, i: int, j: int)
    requires -1 <= i <= j < |sizes| && forall k :: i < k <= j ==> sizes[k] == 0
    ensures Edge(start, sizes, j) == Edge(start, sizes, i)
    ensures Edge(start, sizes, -1) == start
    decreases j
  {
    assert sizes[..0] == [];
    if i < j {
      EdgeStep(start, sizes, j);
      EmptyEdges(start, sizes, i, j - 1);
    }
  }
}
