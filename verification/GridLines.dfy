/** The grid lines of libAfterBase/layout.c: segments along bands, sorted by the band they have on screen,
    with overlapping segments of equal gravity merged. */
module GridLines {
  import opened Common

  /** A segment from start to end, both included, on a band; its position is absolute or in the virtual
      desktop. Gravities say how windows behave near it. */
  datatype Line = Line(absolute: bool, band: int, start: int, end: int, above: int, below: int)

  /** A coordinate on the screen; shift is how far the view has moved over the virtual desktop. */
  function Real(l: Line, coordinate: int, shift: int): int
  {
    if l.absolute then coordinate else coordinate - shift
  }

  function Combine(a: int, b: int): int
  {
    if a < 0 then Min(a, b) else if b < 0 then b else Max(a, b)
  }

  /** The same kind of line on the same band, meeting in more than an end. */
  predicate Meets(l: Line, n: Line, across: int, along: int)
  {
    && Real(l, l.band, across) == Real(n, n.band, across) && l.absolute == n.absolute
    && Real(l, l.start, along) < Real(n, n.end, along) && Real(l, l.end, along) > Real(n, n.start, along)
  }

  predicate Merges(l: Line, n: Line, across: int, along: int)
  {
    Meets(l, n, across, along) && l.above == n.above && l.below == n.below
  }

  predicate Coincides(l: Line, n: Line, across: int, along: int)
  {
    && Meets(l, n, across, along)
    && Real(l, l.start, along) == Real(n, n.start, along) && Real(l, l.end, along) == Real(n, n.end, along)
  }

  /** The search passes l: it does not take n up, and does not come after it. */
  predicate Passes(l: Line, n: Line, across: int, along: int)
  {
    && !Merges(l, n, across, along) && !Coincides(l, n, across, along)
    && Real(l, l.band, across) <= Real(n, n.band, across)
  }

  /** Where the search that has reached i ends. */
  ghost function Stop(lines: seq<Line>, n: Line, across: int, along: int, i: nat): (k: nat)
    requires i <= |lines|
    ensures i <= k <= |lines|
    ensures forall j :: i <= j < k ==> Passes(lines[j], n, across, along)
    ensures k < |lines| ==> !Passes(lines[k], n, across, along)
    decreases |lines| - i
  {
    if i == |lines| || !Passes(lines[i], n, across, along) then i else Stop(lines, n, across, along, i + 1)
  }

  /** The lines once n has been added. */
  ghost function Added(lines: seq<Line>, n: Line, across: int, along: int): seq<Line>
  {
    var k := Stop(lines, n, across, along, 0);
    if k < |lines| && Merges(lines[k], n, across, along) then
      lines[k := lines[k].(start := Min(lines[k].start, n.start), end := Max(lines[k].end, n.end))]
    else if k < |lines| && Coincides(lines[k], n, across, along) then
      lines[k := lines[k].(above := Combine(lines[k].above, n.above), below := Combine(lines[k].below, n.below))]
    else
      lines[..k] + [n] + lines[k..]
  }

  // ---------------------------------------------------------------- what adding means

  ghost predicate Sorted(lines: seq<Line>, across: int)
  {
    forall i, j :: 0 <= i < j < |lines| ==> Real(lines[i], lines[i].band, across) <= Real(lines[j], lines[j].band, across)
  }

  /** A point of a band of one kind, whatever the gravity there. */
  ghost predicate On(l: Line, absolute: bool, band: int, p: int)
  {
    l.absolute == absolute && l.band == band && l.start <= p <= l.end
  }

  ghost predicate Covered(lines: seq<Line>, absolute: bool, band: int, p: int)
  {
    exists i :: 0 <= i < |lines| && On(lines[i], absolute, band, p)
  }

  lemma StaysSorted(lines: seq<Line>, n: Line, across: int, along: int)
    requires Sorted(lines, across)
    ensures Sorted(Added(lines, n, across, along), across)
  {
  }

  /** Adding a segment covers its points and no others. */
  lemma CoversExactly(lines: seq<Line>, n: Line, across: int, along: int, absolute: bool, band: int, p: int)
    ensures Covered(Added(lines, n, across, along), absolute, band, p) <==>
            Covered(lines, absolute, band, p) || On(n, absolute, band, p)
  {
    var k, after := Stop(lines, n, across, along, 0), Added(lines, n, across, along);
    if i :| 0 <= i < |lines| && On(lines[i], absolute, band, p) {
      assert On(after[if |after| > |lines| && i >= k then i + 1 else i], absolute, band, p);
    }
    if On(n, absolute, band, p) {
      assert On(after[k], absolute, band, p);
    }
    if i :| 0 <= i < |after| && On(after[i], absolute, band, p) && i != k {
      assert On(lines[if |after| > |lines| && i > k then i - 1 else i], absolute, band, p);
    }
    if On(after[k], absolute, band, p) && !On(n, absolute, band, p) {
      assert On(lines[k], absolute, band, p);
    }
  }

  /** Any order of combining gravities gives the same: the smallest, if one is negative, or else the largest. */
  lemma CombiningIsCommutative(a: int, b: int, c: int)
    ensures Combine(a, b) == Combine(b, a) && Combine(a, Combine(b, c)) == Combine(Combine(a, b), c) && Combine(a, a) == a
  {
  }

  // ---------------------------------------------------------------- what becomes of the lines

  /** Line l takes n up: both lie on one band, overlap in more than an end, and have the same gravities or the
      same ends. */
  ghost predicate Takes(l: Line, n: Line)
  {
    && l.absolute == n.absolute && l.band == n.band && l.start < n.end && n.start < l.end
    && ((l.above == n.above && l.below == n.below) || (l.start == n.start && l.end == n.end))
  }

  /** Of two gravities a negative one prevails, the smaller if there are two; otherwise the larger. */
  ghost predicate Prevails(g: int, a: int, b: int)
  {
    (g == a || g == b) && if a < 0 || b < 0 then g <= a && g <= b else g >= a && g >= b
  }

  /** The first line that can take the new one up does: one of the same gravities grows to span both, one of the same
      ends combines the gravities. All others stay. */
  lemma TakenUp(lines: seq<Line>, n: Line, across: int, along: int, k: nat)
    requires Sorted(lines, across) && k < |lines| && Takes(lines[k], n) && forall j :: 0 <= j < k ==> !Takes(lines[j], n)
    ensures var after, l := Added(lines, n, across, along), lines[k];
      && |after| == |lines| && (forall j :: 0 <= j < |lines| && j != k ==> after[j] == lines[j])
      && after[k].absolute == l.absolute && after[k].band == l.band
      && after[k].start <= l.start && after[k].start <= n.start && (after[k].start == l.start || after[k].start == n.start)
      && after[k].end >= l.end && after[k].end >= n.end && (after[k].end == l.end || after[k].end == n.end)
      && Prevails(after[k].above, l.above, n.above) && Prevails(after[k].below, l.below, n.below)
  {
    forall j | 0 <= j < k ensures Passes(lines[j], n, across, along) {
      assert Real(lines[j], lines[j].band, across) <= Real(lines[k], lines[k].band, across);
    }
    StopsAt(lines, n, across, along, 0, k);
  }

  /** If none can, the new line is put behind the last one whose place on the screen is not beyond its own. */
  lemma PutInOrder(lines: seq<Line>, n: Line, across: int, along: int) returns (k: nat)
    requires Sorted(lines, across) && forall j :: 0 <= j < |lines| ==> !Takes(lines[j], n)
    ensures k <= |lines| && Added(lines, n, across, along) == lines[..k] + [n] + lines[k..]
    ensures var place := (l: Line) => if l.absolute then l.band else l.band - across;
      && (forall j :: 0 <= j < k ==> place(lines[j]) <= place(n))
      && (forall j :: k <= j < |lines| ==> place(lines[j]) > place(n))
  {
    k := Stop(lines, n, across, along, 0);
  }

  lemma {:induction false} StopsAt(lines: seq<Line>, n: Line, across: int, along: int, i: nat, k: nat)
    requires i <= k < |lines| && !Passes(lines[k], n, across, along)
    requires forall j :: i <= j < k ==> Passes(lines[j], n, across, along)
    ensures Stop(lines, n, across, along, i) == k
    decreases k - i
  {
    if i < k {
      StopsAt(lines, n, across, along, i + 1, k);
    }
  }

  ghost function AddedAll(lines: seq<Line>, ns: seq<Line>, across: int, along: int): seq<Line>
  {
    if ns == [] then lines else Added(AddedAll(lines, ns[..|ns| - 1], across, along), ns[|ns| - 1], across, along)
  }

  /** A list built segment by segment is sorted, and covers exactly the points of its segments. */
  lemma {:induction false} BuiltListIsUnion(ns: seq<Line>, across: int, along: int)
    ensures var lines := AddedAll([], ns, across, along);
      && Sorted(lines, across)
      && forall absolute, band, p :: Covered(lines, absolute, band, p) <==> Covered(ns, absolute, band, p)
  {
    if ns != [] {
      var m := |ns| - 1;
      var before, n := AddedAll([], ns[..m], across, along), ns[m];
      BuiltListIsUnion(ns[..m], across, along);
      StaysSorted(before, n, across, along);
      forall absolute, band, p
        ensures Covered(Added(before, n, across, along), absolute, band, p) <==> Covered(ns, absolute, band, p)
      {
        CoversExactly(before, n, across, along, absolute, band, p);
        LastOne(ns, absolute, band, p);
      }
    }
  }

  lemma LastOne(ns: seq<Line>, absolute: bool, band: int, p: int)
    requires ns != []
    ensures Covered(ns, absolute, band, p) <==> Covered(ns[..|ns| - 1], absolute, band, p) || On(ns[|ns| - 1], absolute, band, p)
  {
    var m := |ns| - 1;
    if i :| 0 <= i < |ns| && On(ns[i], absolute, band, p) && i < m {
      assert On(ns[..m][i], absolute, band, p);
    }
    if i :| 0 <= i < m && On(ns[..m][i], absolute, band, p) {
      assert On(ns[i], absolute, band, p);
    }
  }

  // ---------------------------------------------------------------- the linked lists

  class GridLine {
    var next: GridLine?
    const absolute: bool
    const band: int
    var start: int
    var end: int
    var above: int
    var below: int

    constructor (l: Line)
      ensures View() == l && next == null
    {
      next, absolute, band, start, end, above, below := null, l.absolute, l.band, l.start, l.end, l.above, l.below;
    }

    function View(): Line
      reads `start, `end, `above, `below
    {
      Line(absolute, band, start, end, above, below)
    }
  }

  ghost function Nth(nodes: seq<GridLine>, i: nat): GridLine?
  {
    if i < |nodes| then nodes[i] else null
  }

  /** The list from head runs through exactly these nodes, each once. */
  ghost predicate Listed(head: GridLine?, nodes: seq<GridLine>, all: set<GridLine>)
    reads all`next
  {
    && head == Nth(nodes, 0)
    && (forall i :: 0 <= i < |nodes| ==> nodes[i] in all)
    && (forall i {:trigger nodes[i].next} :: 0 <= i < |nodes| ==> nodes[i].next == Nth(nodes, i + 1))
    && (forall i, j :: 0 <= i < j < |nodes| ==> nodes[i] != nodes[j])
  }

  ghost predicate Views(nodes: seq<GridLine>, lines: seq<Line>, all: set<GridLine>)
    reads all`start, all`end, all`above, all`below
  {
    |nodes| == |lines| && forall i :: 0 <= i < |nodes| ==> nodes[i] in all && nodes[i].View() == lines[i]
  }

  lemma StopStays(lines: seq<Line>, n: Line, across: int, along: int, i: nat)
    requires i < |lines|
    ensures Passes(lines[i], n, across, along) ==> Stop(lines, n, across, along, i) == Stop(lines, n, across, along, i + 1)
    ensures !Passes(lines[i], n, across, along) ==> Stop(lines, n, across, along, i) == i
  {
  }

  /** Links a new line in before the k-th of the list. */
  method Splice(head: GridLine?, prev: GridLine?, line: GridLine, ghost k: nat, ghost nodes: seq<GridLine>,
                ghost all: set<GridLine>) returns (head': GridLine?)
    requires Listed(head, nodes, all) && k <= |nodes| && line !in all
    requires prev == (if k == 0 then null else nodes[k - 1])
    modifies all`next, line`next
    ensures Listed(head', nodes[..k] + [line] + nodes[k..], all + {line})
  {
    head' := head;
    if prev == null {
      line.next := head;
      head' := line;
    } else {
      line.next := prev.next;
      prev.next := line;
    }
    LinkedIn(head', nodes, all, k, line);
  }

  /** The list with a line before its k-th node, once the node in front of it, or the head, leads to it. */
  lemma LinkedIn(head: GridLine?, nodes: seq<GridLine>, all: set<GridLine>, k: nat, line: GridLine)
    requires k <= |nodes| && line !in all && (forall i :: 0 <= i < |nodes| ==> nodes[i] in all)
    requires forall i, j :: 0 <= i < j < |nodes| ==> nodes[i] != nodes[j]
    requires forall i {:trigger nodes[i].next} :: 0 <= i < |nodes| ==>
      nodes[i].next == if i + 1 == k then line else Nth(nodes, i + 1)
    requires line.next == Nth(nodes, k) && head == if k == 0 then line else Nth(nodes, 0)
    ensures Listed(head, nodes[..k] + [line] + nodes[k..], all + {line})
  {
    var after := nodes[..k] + [line] + nodes[k..];
    forall i | 0 <= i < |after| ensures after[i].next == Nth(after, i + 1) {
      assert i < k ==> after[i] == nodes[i];
      assert i > k ==> after[i] == nodes[i - 1];
    }
  }

  /** Adds a line to the list from head: merges it into the first line that can take it, or links it in
      after the last line that does not come after it on the screen. */
  method AddToList(head: GridLine?, n: Line, across: int, along: int, ghost nodes: seq<GridLine>,
                   ghost lines: seq<Line>, ghost all: set<GridLine>)
      returns (head': GridLine?, line: GridLine?, ghost nodes': seq<GridLine>)
    requires Listed(head, nodes, all) && Views(nodes, lines, all)
    modifies all
    ensures line != null ==> fresh(line) && line.View() == n
    ensures line == null <==> |Added(lines, n, across, along)| == |lines|
    ensures Listed(head', nodes', if line == null then all else all + {line})
    ensures Views(nodes', Added(lines, n, across, along), if line == null then all else all + {line})
  {
    hide Stop, Listed, Views;
    head', line, nodes' := head, null, nodes;
    var prev: GridLine?, l := null, head;
    ghost var i := 0;
    Entry(head, nodes, lines, all, i);
    while l != null
      invariant i <= |nodes| == |lines| && l == Nth(nodes, i) && prev == (if i == 0 then null else nodes[i - 1])
      invariant Stop(lines, n, across, along, i) == Stop(lines, n, across, along, 0)
      invariant Listed(head, nodes, all) && Views(nodes, lines, all)
      decreases |nodes| - i
    {
      Entry(head, nodes, lines, all, i);
      StopStays(lines, n, across, along, i);
      var v := l.View();
      if Meets(v, n, across, along) {
        if v.above == n.above && v.below == n.below {
          Widen(l, n, i, nodes, lines, all);
          return;
        }
        if Coincides(v, n, across, along) {
          Strengthen(l, n, i, nodes, lines, all);
          return;
        }
      }
      if Real(v, v.band, across) > Real(n, n.band, across) {
        break;
      }
      prev, l, i := l, l.next, i + 1;
    }
    StopHere(lines, n, across, along, i);
    line := new GridLine(n);
    head' := Splice(head, prev, line, i, nodes, all);
    assert Views(nodes, lines, all);
    nodes' := nodes[..i] + [line] + nodes[i..];
    ViewsInsert(nodes, lines, all, line, i);
  }

  lemma Entry(head: GridLine?, nodes: seq<GridLine>, lines: seq<Line>, all: set<GridLine>, i: nat)
    requires Listed(head, nodes, all) && Views(nodes, lines, all) && i <= |nodes|
    ensures |nodes| == |lines| && head == Nth(nodes, 0)
    ensures forall j, k :: 0 <= j < k < |nodes| ==> nodes[j] != nodes[k]
    ensures i < |nodes| ==> nodes[i] in all && nodes[i].View() == lines[i] && nodes[i].next == Nth(nodes, i + 1)
  {
  }

  lemma StopHere(lines: seq<Line>, n: Line, across: int, along: int, i: nat)
    requires i <= |lines| && (i < |lines| ==> !Passes(lines[i], n, across, along))
    ensures Stop(lines, n, across, along, i) == i
  {
  }

  lemma ViewsInsert(nodes: seq<GridLine>, lines: seq<Line>, all: set<GridLine>, line: GridLine, i: nat)
    requires Views(nodes, lines, all) && i <= |nodes|
    ensures Views(nodes[..i] + [line] + nodes[i..], lines[..i] + [line.View()] + lines[i..], all + {line})
  {
  }

  method Widen(l: GridLine, n: Line, ghost i: nat, ghost nodes: seq<GridLine>, ghost lines: seq<Line>, ghost all: set<GridLine>)
    requires Views(nodes, lines, all) && i < |nodes| == |lines| && nodes[i] == l
    requires forall j, k :: 0 <= j < k < |nodes| ==> nodes[j] != nodes[k]
    modifies l`start, l`end
    ensures Views(nodes, lines[i := lines[i].(start := Min(lines[i].start, n.start), end := Max(lines[i].end, n.end))], all)
  {
    l.start, l.end := Min(l.start, n.start), Max(l.end, n.end);
  }

  method Strengthen(l: GridLine, n: Line, ghost i: nat, ghost nodes: seq<GridLine>, ghost lines: seq<Line>,
                    ghost all: set<GridLine>)
    requires Views(nodes, lines, all) && i < |nodes| == |lines| && nodes[i] == l
    requires forall j, k :: 0 <= j < k < |nodes| ==> nodes[j] != nodes[k]
    modifies l`above, l`below
    ensures Views(nodes, lines[i := lines[i].(above := Combine(lines[i].above, n.above),
                                              below := Combine(lines[i].below, n.below))], all)
  {
    l.above, l.below := Combine(l.above, n.above), Combine(l.below, n.below);
  }

  class Grid {
    var hLines: GridLine?
    var vLines: GridLine?
    var currVx: int
    var currVy: int

    /** The nodes of both lists, and the lines they stand for. */
    ghost var hNodes: seq<GridLine>
    ghost var vNodes: seq<GridLine>
    ghost var horizontal: seq<Line>
    ghost var vertical: seq<Line>
    ghost var hAll: set<GridLine>
    ghost var vAll: set<GridLine>

    ghost predicate Valid()
      reads this, hAll, vAll
    {
      && Listed(hLines, hNodes, hAll) && Views(hNodes, horizontal, hAll)
      && Listed(vLines, vNodes, vAll) && Views(vNodes, vertical, vAll)
      && hAll !! vAll
    }

    constructor (vx: int, vy: int)
      ensures Valid() && horizontal == [] && vertical == [] && currVx == vx && currVy == vy
    {
      hLines, vLines, currVx, currVy := null, null, vx, vy;
      hNodes, vNodes, horizontal, vertical, hAll, vAll := [], [], [], [], {}, {};
    }

    /** Adds a line to the list of its direction; null when an existing line has taken it up. */
    method AddGridLine(n: Line, isVertical: bool) returns (line: GridLine?)
      requires Valid()
      modifies this, hAll, vAll
      ensures Valid() && currVx == old(currVx) && currVy == old(currVy)
      ensures vertical == if isVertical then Added(old(vertical), n, currVx, currVy) else old(vertical)
      ensures horizontal == if isVertical then old(horizontal) else Added(old(horizontal), n, currVy, currVx)
      ensures line != null ==> fresh(line) && line.View() == n
      ensures line == null <==> if isVertical then |vertical| == |old(vertical)| else |horizontal| == |old(horizontal)|
    {
      hide *;
      Pieces();
      if isVertical {
        line := AddVertical(n);
      } else {
        line := AddHorizontal(n);
      }
    }

    lemma Pieces()
      ensures Valid() <==>
        && Listed(hLines, hNodes, hAll) && Views(hNodes, horizontal, hAll)
        && Listed(vLines, vNodes, vAll) && Views(vNodes, vertical, vAll)
        && hAll !! vAll
    {
    }

    method AddVertical(n: Line) returns (line: GridLine?)
      requires Valid()
      modifies `vLines, `vNodes, `vertical, `vAll, vAll
      ensures Valid() && vertical == Added(old(vertical), n, currVx, currVy)
      ensures line != null ==> fresh(line) && line.View() == n
      ensures line == null <==> |vertical| == |old(vertical)|
    {
      hide *;
      Pieces();
      vLines, line, vNodes := AddToList(vLines, n, currVx, currVy, vNodes, vertical, vAll);
      vertical, vAll := Added(vertical, n, currVx, currVy), if line == null then vAll else vAll + {line};
      Pieces();
    }

    method AddHorizontal(n: Line) returns (line: GridLine?)
      requires Valid()
      modifies `hLines, `hNodes, `horizontal, `hAll, hAll
      ensures Valid() && horizontal == Added(old(horizontal), n, currVy, currVx)
      ensures line != null ==> fresh(line) && line.View() == n
      ensures line == null <==> |horizontal| == |old(horizontal)|
    {
      hide *;
      Pieces();
      hLines, line, hNodes := AddToList(hLines, n, currVy, currVx, hNodes, horizontal, hAll);
      horizontal, hAll := Added(horizontal, n, currVy, currVx), if line == null then hAll else hAll + {line};
      Pieces();
    }
  }
}
