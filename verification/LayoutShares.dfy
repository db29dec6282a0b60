/** Where each column of a resized layout ends up (libAfterBase/layout.c), in terms of the sizes and totals alone: the
    quotient that keeps its part of the whole, and equal parts of what is over. */
module LayoutShares {
  import opened Common
  import opened Arithmetic
  import opened LayoutSizes

  // ---------------------------------------------------------------- plain arithmetic

  /** No size is negative, and nothing reaches 2^31. */
  ghost predicate Small(newTotal: nat, fixed: seq<int>, sizes: seq<int>)
  {
    && |fixed| == |sizes| && newTotal < UINT / 2
    && forall i :: 0 <= i < |sizes| && fixed[i] == 0 ==> 0 <= sizes[i] * newTotal < UINT / 2 && sizes[i] >= 0
  }

  /** The part of the new total that a size was of the old one. */
  function Kept(size: int, oldTotal: nat, newTotal: nat): int
  {
    if oldTotal == 0 then 0 else size * newTotal / oldTotal
  }

  /** What the flexible columns keep together. */
  function AllKept(oldTotal: nat, newTotal: nat, fixed: seq<int>, sizes: seq<int>): int
    requires |fixed| == |sizes|
  {
    if sizes == [] then 0
    else (if fixed[0] == 0 then Kept(sizes[0], oldTotal, newTotal) else 0) + AllKept(oldTotal, newTotal, fixed[1..], sizes[1..])
  }

  /** How many flexible columns keep nothing. */
  function Lost(oldTotal: nat, newTotal: nat, fixed: seq<int>, sizes: seq<int>): (n: nat)
    requires |fixed| == |sizes|
  {
    if sizes == [] then 0
    else
      var one := if fixed[0] == 0 && Kept(sizes[0], oldTotal, newTotal) == 0 then 1 else 0;
      one + Lost(oldTotal, newTotal, fixed[1..], sizes[1..])
  }

  function Clamp(x: int, hi: int): int
  {
    if x <= 0 then 0 else if x >= hi then hi else x
  }

  lemma KeptIsShare(size: int, oldTotal: nat, newTotal: nat)
    requires 0 <= size && 0 <= size * newTotal < UINT / 2
    ensures Share(size, oldTotal, newTotal) == Kept(size, oldTotal, newTotal) >= 0 && Kept(0, oldTotal, newTotal) == 0
    ensures oldTotal > 0 ==> Ratio(size, oldTotal, newTotal) == Kept(size, oldTotal, newTotal)
  {
    assert 0 * newTotal == 0;
    if oldTotal > 0 {
      var p := size * newTotal;
      assert p % UINT == p;
      QuotientBelow(p, oldTotal);
    }
  }

  lemma QuotientBelow(p: nat, d: nat)
    requires d > 0
    ensures 0 <= p / d <= p
  {
    ProductsAscend(1, d, p);
    MeanBound(p, d, p);
  }

  lemma SmallTail(newTotal: nat, fixed: seq<int>, sizes: seq<int>)
    requires Small(newTotal, fixed, sizes) && sizes != []
    ensures Small(newTotal, fixed[1..], sizes[1..])
    ensures fixed[0] == 0 ==> 0 <= sizes[0] * newTotal < UINT / 2 && sizes[0] >= 0
  {
    assert forall i :: 0 <= i < |sizes| - 1 ==> sizes[1..][i] == sizes[i + 1] && fixed[1..][i] == fixed[i + 1];
  }

  // ---------------------------------------------------------------- the first two passes, column by column

  /** The fixed columns are served in order, as far as the total goes. */
  lemma {:induction false} FixedGets(available: int, fixed: seq<int>, sizes: seq<int>, i: nat)
    requires |fixed| == |sizes| && i < |sizes|
    ensures FixedPass(available, fixed, sizes).sizes[i] ==
      if fixed[i] == 0 then sizes[i] else if fixed[i] < 0 then 0 else Clamp(available - Wanted(fixed[..i]), fixed[i])
    decreases |sizes|
  {
    if i > 0 {
      var given := if fixed[0] < 0 || available <= 0 then 0 else Min(available, fixed[0]);
      FixedGets(if fixed[0] > 0 then available - given else available, fixed[1..], sizes[1..], i - 1);
      assert fixed[..i][1..] == fixed[1..][..i - 1];
    }
  }

  lemma RatioStep(available: int, oldTotal: nat, newTotal: nat, fixed: seq<int>, sizes: seq<int>)
    requires Small(newTotal, fixed, sizes) && sizes != []
    ensures var given := if fixed[0] != 0 then 0 else Clamp(available, Kept(sizes[0], oldTotal, newTotal));
      var rest := RatioPass(available - given, oldTotal, newTotal, fixed[1..], sizes[1..]);
      && RatioPass(available, oldTotal, newTotal, fixed, sizes)
        == Pass([if fixed[0] != 0 then sizes[0] else given] + rest.sizes, rest.left)
      && (fixed[0] == 0 ==> Kept(sizes[0], oldTotal, newTotal) >= 0)
  {
    hide Ratio, Kept;
    SmallTail(newTotal, fixed, sizes);
    if fixed[0] == 0 {
      KeptIsShare(sizes[0], oldTotal, newTotal);
    }
  }

  lemma KeptStep(oldTotal: nat, newTotal: nat, fixed: seq<int>, sizes: seq<int>, i: nat)
    requires |fixed| == |sizes| && 0 < i <= |sizes|
    ensures AllKept(oldTotal, newTotal, fixed[..i], sizes[..i]) ==
      (if fixed[0] == 0 then Kept(sizes[0], oldTotal, newTotal) else 0)
      + AllKept(oldTotal, newTotal, fixed[1..][..i - 1], sizes[1..][..i - 1])
  {
    assert fixed[..i][1..] == fixed[1..][..i - 1] && sizes[..i][1..] == sizes[1..][..i - 1];
  }

  lemma NothingKept(oldTotal: nat, newTotal: nat)
    ensures AllKept(oldTotal, newTotal, [], []) == 0
  {
  }

  lemma {:induction false} AllKeptIsNonNegative(oldTotal: nat, newTotal: nat, fixed: seq<int>, sizes: seq<int>, i: nat)
    requires Small(newTotal, fixed, sizes) && i <= |sizes|
    ensures AllKept(oldTotal, newTotal, fixed[..i], sizes[..i]) >= 0
    decreases i
  {
    hide Kept, AllKept;
    if i == 0 {
      NothingKept(oldTotal, newTotal);
    } else {
      SmallTail(newTotal, fixed, sizes);
      KeptStep(oldTotal, newTotal, fixed, sizes, i);
      AllKeptIsNonNegative(oldTotal, newTotal, fixed[1..], sizes[1..], i - 1);
      if fixed[0] == 0 {
        KeptIsShare(sizes[0], oldTotal, newTotal);
      }
    }
  }

  /** So are the flexible ones that had a size. */
  lemma {:induction false} RatioGets(available: int, oldTotal: nat, newTotal: nat, fixed: seq<int>, sizes: seq<int>, i: nat)
    requires Small(newTotal, fixed, sizes) && i < |sizes|
    ensures RatioPass(available, oldTotal, newTotal, fixed, sizes).sizes[i] ==
      if fixed[i] != 0 then sizes[i]
      else Clamp(available - AllKept(oldTotal, newTotal, fixed[..i], sizes[..i]), Kept(sizes[i], oldTotal, newTotal))
    decreases |sizes|
  {
    hide Kept, AllKept, RatioPass;
    SmallTail(newTotal, fixed, sizes);
    RatioStep(available, oldTotal, newTotal, fixed, sizes);
    if i == 0 {
      NothingKept(oldTotal, newTotal);
    } else {
      var given := if fixed[0] != 0 then 0 else Clamp(available, Kept(sizes[0], oldTotal, newTotal));
      RatioGets(available - given, oldTotal, newTotal, fixed[1..], sizes[1..], i - 1);
      KeptStep(oldTotal, newTotal, fixed, sizes, i);
      AllKeptIsNonNegative(oldTotal, newTotal, fixed[1..], sizes[1..], i - 1);
    }
  }

  lemma {:induction false} RatioLeaves(available: int, oldTotal: nat, newTotal: nat, fixed: seq<int>, sizes: seq<int>)
    requires Small(newTotal, fixed, sizes) && available >= 0
    ensures RatioPass(available, oldTotal, newTotal, fixed, sizes).left
      == Max(available - AllKept(oldTotal, newTotal, fixed, sizes), 0)
    ensures AllKept(oldTotal, newTotal, fixed, sizes) >= 0
    decreases |sizes|
  {
    hide Kept;
    if sizes != [] {
      SmallTail(newTotal, fixed, sizes);
      RatioStep(available, oldTotal, newTotal, fixed, sizes);
      var given := if fixed[0] != 0 then 0 else Clamp(available, Kept(sizes[0], oldTotal, newTotal));
      RatioLeaves(available - given, oldTotal, newTotal, fixed[1..], sizes[1..]);
    }
  }

  // ---------------------------------------------------------------- the last two

  /** The first of the columns that keep nothing get the part, one after the other. */
  lemma {:induction false} EmptyGets(available: int, empty: nat, part: int, fixed: seq<int>, sizes: seq<int>, i: nat)
    requires |fixed| == |sizes| && i < |sizes| && part >= 1
    requires part == 1 || empty * part <= Max(available, 0)
    ensures EmptyPass(available, empty, part, fixed, sizes).sizes[i] ==
      if fixed[i] == 0 && sizes[i] == 0 && Empty(fixed[..i], sizes[..i]) < Served(available, empty, part) then part else sizes[i]
    decreases |sizes|
  {
    hide Served;
    ServedStep(available, empty, part);
    if empty > 0 && available > 0 {
      EmptyPrefix(fixed, sizes, i);
      if sizes[0] == 0 && fixed[0] == 0 {
        if i > 0 {
          EmptyGets(available - part, empty - 1, part, fixed[1..], sizes[1..], i - 1);
        }
      } else if i > 0 {
        EmptyGets(available, empty, part, fixed[1..], sizes[1..], i - 1);
      }
    }
  }

  /** How many columns get a part. */
  function Served(available: int, empty: nat, part: int): nat
  {
    if available <= 0 then 0 else if part == 1 then Min(empty, available) else empty
  }

  lemma ServedStep(available: int, empty: nat, part: int)
    requires part >= 1 && (part == 1 || empty * part <= Max(available, 0))
    ensures available <= 0 || empty == 0 ==> Served(available, empty, part) == 0
    ensures available > 0 && empty > 0 ==>
      && Served(available, empty, part) == 1 + Served(available - part, empty - 1, part)
      && available >= part && (part == 1 || (empty - 1) * part <= available - part)
  {
    if available > 0 && empty > 0 {
      assert (empty - 1) * part == empty * part - part;
      if empty > 1 {
        ProductsAscend(1, empty - 1, part);
      }
    }
  }

  lemma EmptyPrefix(fixed: seq<int>, sizes: seq<int>, i: nat)
    requires |fixed| == |sizes| && i < |sizes|
    ensures Empty(fixed[..i], sizes[..i]) ==
      if i == 0 then 0 else (if fixed[0] == 0 && sizes[0] == 0 then 1 else 0) + Empty(fixed[1..][..i - 1], sizes[1..][..i - 1])
  {
    if i > 0 {
      assert fixed[..i][1..] == fixed[1..][..i - 1] && sizes[..i][1..] == sizes[1..][..i - 1];
    }
  }

  lemma {:induction false} EmptyLeaves(available: int, empty: nat, part: int, fixed: seq<int>, sizes: seq<int>)
    requires |fixed| == |sizes| && part >= 1 && available >= 0 && empty <= Empty(fixed, sizes)
    requires part == 1 || empty * part <= available
    ensures EmptyPass(available, empty, part, fixed, sizes).left == available - Served(available, empty, part) * part
    decreases |sizes|
  {
    hide Served;
    ServedStep(available, empty, part);
    if empty > 0 && available > 0 {
      if sizes[0] == 0 && fixed[0] == 0 {
        Distributes(1, Served(available - part, empty - 1, part), part);
        EmptyLeaves(available - part, empty - 1, part, fixed[1..], sizes[1..]);
      } else {
        EmptyLeaves(available, empty, part, fixed[1..], sizes[1..]);
      }
    }
  }

  // ---------------------------------------------------------------- every column

  /** What the fixed columns leave of the new total. */
  function Room(newTotal: nat, fixed: seq<int>): int
  {
    newTotal - Min(newTotal, Wanted(fixed))
  }

  /** Equal parts of what is over, a pixel at least; the last column gets the remainder. */
  ghost function Extra(over: int, fixed: seq<int>, i: nat): int
    requires over > 0 ==> Flexible(fixed) > 0
  {
    if over <= 0 then 0
    else if LastFlexible(fixed, i) then over - (Flexible(fixed) - 1) * Max(over / Flexible(fixed), 1)
    else Max(over / Flexible(fixed), 1)
  }

  /** The size of column i after the first two passes. */
  ghost function Second(oldTotal: nat, newTotal: nat, fixed: seq<int>, sizes: seq<int>, i: nat): int
    requires i < |sizes| == |fixed|
  {
    if fixed[i] < 0 then 0
    else if fixed[i] > 0 then Clamp(newTotal - Wanted(fixed[..i]), fixed[i])
    else Clamp(Room(newTotal, fixed) - AllKept(oldTotal, newTotal, fixed[..i], sizes[..i]), Kept(sizes[i], oldTotal, newTotal))
  }

  lemma FirstTwo(oldTotal: nat, newTotal: nat, fixed: seq<int>, sizes: seq<int>) returns (two: Pass)
    requires Small(newTotal, fixed, sizes)
    ensures var one := FixedPass(Signed(newTotal), fixed, sizes);
      two == RatioPass(one.left, oldTotal, newTotal, fixed, one.sizes) && Empty(fixed, one.sizes) == Empty(fixed, sizes)
    ensures |two.sizes| == |sizes|
    ensures two.left == Max(Room(newTotal, fixed) - AllKept(oldTotal, newTotal, fixed, sizes), 0)
    ensures forall i :: 0 <= i < |sizes| ==> two.sizes[i] == Second(oldTotal, newTotal, fixed, sizes, i)
  {
    hide FixedPass, RatioPass, Kept, AllKept, Wanted, Empty, Clamp;
    var one := FixedPass(Signed(newTotal), fixed, sizes);
    FixedKeeps(Signed(newTotal), fixed, sizes);
    two := RatioPass(one.left, oldTotal, newTotal, fixed, one.sizes);
    forall i | 0 <= i < |sizes|
      ensures one.sizes[i] == if fixed[i] == 0 then sizes[i] else if fixed[i] < 0 then 0 else Clamp(newTotal - Wanted(fixed[..i]), fixed[i])
    {
      FixedGets(Signed(newTotal), fixed, sizes, i);
    }
    SameFlexible(oldTotal, newTotal, fixed, sizes, one.sizes);
    SameKept(oldTotal, newTotal, fixed, sizes, one.sizes);
    RatioLeaves(one.left, oldTotal, newTotal, fixed, one.sizes);
    forall i | 0 <= i < |sizes| ensures two.sizes[i] == Second(oldTotal, newTotal, fixed, sizes, i) {
      RatioGets(one.left, oldTotal, newTotal, fixed, one.sizes, i);
      SameKept(oldTotal, newTotal, fixed[..i], sizes[..i], one.sizes[..i]);
    }
  }

  lemma {:induction false} SameKept(oldTotal: nat, newTotal: nat, fixed: seq<int>, sizes: seq<int>, one: seq<int>)
    requires |fixed| == |sizes| == |one| && forall i :: 0 <= i < |sizes| && fixed[i] == 0 ==> one[i] == sizes[i]
    ensures AllKept(oldTotal, newTotal, fixed, one) == AllKept(oldTotal, newTotal, fixed, sizes)
  {
    hide Kept;
    if sizes != [] {
      SameKept(oldTotal, newTotal, fixed[1..], sizes[1..], one[1..]);
    }
  }

  /** A fixed column gets what it wants as far as the total goes, one after the other. */
  lemma FixedColumn(oldTotal: nat, newTotal: nat, fixed: seq<int>, sizes: seq<int>, i: nat)
    requires Small(newTotal, fixed, sizes) && i < |sizes| && fixed[i] != 0
    ensures Adjusted(oldTotal, newTotal, fixed, sizes)[i] ==
      if fixed[i] < 0 then 0 else Clamp(newTotal - Wanted(fixed[..i]), fixed[i])
  {
    hide FixedPass, RatioPass, EmptyPass, SpreadPass, Kept, AllKept, Wanted, Empty, Clamp, Flexible;
    var two := FirstTwo(oldTotal, newTotal, fixed, sizes);
    var e := Empty(fixed, sizes);
    var three := BeforeSpread(oldTotal, newTotal, fixed, sizes);
    if two.left > 0 && e > 0 {
      PartTells(two.left, e);
      EmptyGets(two.left, e, Part(two.left, e), fixed, two.sizes, i);
    }
    if three.left > 0 && Flexible(fixed) > 0 {
      SpreadGains(three.left, Part(three.left, Flexible(fixed)), fixed, three.sizes, i);
    }
  }

  lemma PartTells(available: int, n: nat)
    requires available > 0 && n > 0
    ensures Part(available, n) >= 1 && (Part(available, n) == 1 || n * Part(available, n) <= available)
    ensures Served(available, n, Part(available, n)) == Min(n, available)
  {
    var q := available / n;
    assert q * n <= available < q * n + n;
    if n > available {
      if q >= 1 {
        ProductsAscend(1, q, n);
      }
    } else if q > 1 {
      assert n * q == q * n;
    }
  }

  /** Where the shares use up the room, a flexible column keeps its part of the whole as far as the room goes. */
  lemma SqueezedColumn(oldTotal: nat, newTotal: nat, fixed: seq<int>, sizes: seq<int>, i: nat)
    requires Small(newTotal, fixed, sizes) && i < |sizes| && fixed[i] == 0
    requires Room(newTotal, fixed) <= AllKept(oldTotal, newTotal, fixed, sizes)
    ensures Adjusted(oldTotal, newTotal, fixed, sizes)[i] ==
      Clamp(Room(newTotal, fixed) - AllKept(oldTotal, newTotal, fixed[..i], sizes[..i]), Kept(sizes[i], oldTotal, newTotal))
  {
    hide FixedPass, RatioPass, EmptyPass, SpreadPass, Kept, AllKept, Wanted, Empty, Clamp, Flexible;
    var two := FirstTwo(oldTotal, newTotal, fixed, sizes);
  }

  /** Where room is left, it keeps its part of the whole. The columns that were empty get equal parts of what is left,
      or others that keep nothing and come before them do; then all flexible columns get equal parts of the rest. */
  lemma StretchedColumn(oldTotal: nat, newTotal: nat, fixed: seq<int>, sizes: seq<int>, i: nat)
    requires Small(newTotal, fixed, sizes) && i < |sizes| && fixed[i] == 0
    requires Room(newTotal, fixed) > AllKept(oldTotal, newTotal, fixed, sizes)
    ensures Flexible(fixed) > 0
    ensures var rest, e := Room(newTotal, fixed) - AllKept(oldTotal, newTotal, fixed, sizes), Empty(fixed, sizes);
      var part := if e > 0 then Max(rest / e, 1) else 0;
      var kept := Kept(sizes[i], oldTotal, newTotal);
      Adjusted(oldTotal, newTotal, fixed, sizes)[i] ==
        (if kept == 0 && Lost(oldTotal, newTotal, fixed[..i], sizes[..i]) < Min(e, rest) then part else kept)
        + Extra(rest - Min(e, rest) * part, fixed, i)
  {
    hide FixedPass, RatioPass, EmptyPass, SpreadPass, Kept, AllKept, Wanted, Empty, Lost, Flexible;
    var rest, e := Room(newTotal, fixed) - AllKept(oldTotal, newTotal, fixed, sizes), Empty(fixed, sizes);
    var two := FirstTwo(oldTotal, newTotal, fixed, sizes);
    AllServed(oldTotal, newTotal, fixed, sizes, two.sizes);
    var three := BeforeSpread(oldTotal, newTotal, fixed, sizes);
    SomeFlexible(fixed, i);
    if e > 0 {
      PartTells(rest, e);
      LostAtLeast(oldTotal, newTotal, fixed, sizes, two.sizes);
      EmptyGets(rest, e, Part(rest, e), fixed, two.sizes, i);
      EmptyLeaves(rest, e, Part(rest, e), fixed, two.sizes);
    }
    if three.left > 0 {
      SpreadGains(three.left, Part(three.left, Flexible(fixed)), fixed, three.sizes, i);
    }
  }

  lemma SomeFlexible(fixed: seq<int>, i: nat)
    requires i < |fixed| && fixed[i] == 0
    ensures Flexible(fixed) > 0
  {
    NoneFlexible(fixed);
  }

  /** With room left, every flexible column has been given what it keeps. */
  lemma AllServed(oldTotal: nat, newTotal: nat, fixed: seq<int>, sizes: seq<int>, two: seq<int>)
    requires Small(newTotal, fixed, sizes) && |two| == |sizes|
    requires Room(newTotal, fixed) > AllKept(oldTotal, newTotal, fixed, sizes)
    requires forall i :: 0 <= i < |sizes| ==> two[i] == Second(oldTotal, newTotal, fixed, sizes, i)
    ensures forall i :: 0 <= i < |sizes| && fixed[i] == 0 ==> two[i] == Kept(sizes[i], oldTotal, newTotal)
    ensures forall i :: 0 <= i < |sizes| ==> Lost(oldTotal, newTotal, fixed[..i], sizes[..i]) == Empty(fixed[..i], two[..i])
  {
    hide Kept, AllKept, Wanted, Lost, Empty;
    forall i | 0 <= i < |sizes| && fixed[i] == 0 ensures two[i] == Kept(sizes[i], oldTotal, newTotal) {
      KeptUpTo(oldTotal, newTotal, fixed, sizes, i);
      KeptIsShare(sizes[i], oldTotal, newTotal);
    }
    forall i | 0 <= i < |sizes| ensures Lost(oldTotal, newTotal, fixed[..i], sizes[..i]) == Empty(fixed[..i], two[..i]) {
      LostIsEmpty(oldTotal, newTotal, fixed[..i], sizes[..i], two[..i]);
    }
  }

  /** What the columns up to one of them keep is no more than what all keep. */
  lemma {:induction false} KeptUpTo(oldTotal: nat, newTotal: nat, fixed: seq<int>, sizes: seq<int>, i: nat)
    requires Small(newTotal, fixed, sizes) && i < |sizes| && fixed[i] == 0
    ensures AllKept(oldTotal, newTotal, fixed[..i], sizes[..i]) + Kept(sizes[i], oldTotal, newTotal)
      <= AllKept(oldTotal, newTotal, fixed, sizes)
    decreases i
  {
    hide Kept, AllKept;
    SmallTail(newTotal, fixed, sizes);
    assert fixed[..|sizes|] == fixed && sizes[..|sizes|] == sizes;
    assert fixed[1..][..|sizes| - 1] == fixed[1..] && sizes[1..][..|sizes| - 1] == sizes[1..];
    KeptStep(oldTotal, newTotal, fixed, sizes, |sizes|);
    if i == 0 {
      NothingKept(oldTotal, newTotal);
      AllKeptIsNonNegative(oldTotal, newTotal, fixed[1..], sizes[1..], |sizes| - 1);
    } else {
      KeptStep(oldTotal, newTotal, fixed, sizes, i);
      KeptUpTo(oldTotal, newTotal, fixed[1..], sizes[1..], i - 1);
    }
  }

  lemma {:induction false} LostIsEmpty(oldTotal: nat, newTotal: nat, fixed: seq<int>, sizes: seq<int>, two: seq<int>)
    requires |fixed| == |sizes| == |two|
    requires forall i :: 0 <= i < |sizes| && fixed[i] == 0 ==> two[i] == Kept(sizes[i], oldTotal, newTotal)
    ensures Lost(oldTotal, newTotal, fixed, sizes) == Empty(fixed, two)
  {
    hide Kept;
    if sizes != [] {
      LostIsEmpty(oldTotal, newTotal, fixed[1..], sizes[1..], two[1..]);
    }
  }

  lemma {:induction false} LostAtLeast(oldTotal: nat, newTotal: nat, fixed: seq<int>, sizes: seq<int>, two: seq<int>)
    requires Small(newTotal, fixed, sizes) && |two| == |sizes|
    requires forall i :: 0 <= i < |sizes| && fixed[i] == 0 ==> two[i] == Kept(sizes[i], oldTotal, newTotal)
    ensures Empty(fixed, sizes) <= Empty(fixed, two)
  {
    hide Kept;
    if sizes != [] {
      SmallTail(newTotal, fixed, sizes);
      if fixed[0] == 0 {
        KeptIsShare(sizes[0], oldTotal, newTotal);
      }
      LostAtLeast(oldTotal, newTotal, fixed[1..], sizes[1..], two[1..]);
    }
  }

  // ---------------------------------------------------------------- keeping one's part of the whole

  lemma RoomKept(oldTotal: nat, newTotal: nat, fixed: seq<int>, sizes: seq<int>, i: nat)
    requires Small(newTotal, fixed, sizes) && i < |sizes| && Empty(fixed, sizes) == 0
    requires Wanted(fixed) + AllKept(oldTotal, newTotal, fixed, sizes) <= newTotal
    ensures fixed[i] != 0 ==> Adjusted(oldTotal, newTotal, fixed, sizes)[i] == Max(fixed[i], 0)
    ensures fixed[i] == 0 ==> Flexible(fixed) > 0
    ensures var part, rest := Kept(sizes[i], oldTotal, newTotal), newTotal - Wanted(fixed) - AllKept(oldTotal, newTotal, fixed, sizes);
      fixed[i] == 0 ==> Adjusted(oldTotal, newTotal, fixed, sizes)[i] == part + Extra(rest, fixed, i)
  {
    hide Kept, AllKept, Wanted, Adjusted, Lost, Empty, Flexible, LastFlexible, Extra;
    NothingExtra(fixed, i);
    AllKeptIsNonNegative(oldTotal, newTotal, fixed, sizes, |sizes|);
    assert fixed[..|sizes|] == fixed && sizes[..|sizes|] == sizes;
    if fixed[i] != 0 {
      WantedUpTo(fixed, i);
      FixedColumn(oldTotal, newTotal, fixed, sizes, i);
    } else {
      SomeFlexible(fixed, i);
      if Room(newTotal, fixed) == AllKept(oldTotal, newTotal, fixed, sizes) {
        SqueezedColumn(oldTotal, newTotal, fixed, sizes, i);
        KeptUpTo(oldTotal, newTotal, fixed, sizes, i);
        KeptIsShare(sizes[i], oldTotal, newTotal);
      } else {
        StretchedColumn(oldTotal, newTotal, fixed, sizes, i);
      }
    }
  }

  /** If there is room for what all columns want and keep, a fixed column ends at what it wants, and, with none empty, a
      flexible one at its part of the whole and an equal part of what is left. */
  lemma RoomForAll(oldTotal: nat, newTotal: nat, fixed: seq<int>, sizes: seq<int>, i: nat)
    requires Small(newTotal, fixed, sizes) && oldTotal > 0 && i < |sizes| && Empty(fixed, sizes) == 0
    requires Wanted(fixed) + AllKept(oldTotal, newTotal, fixed, sizes) <= newTotal
    ensures fixed[i] != 0 ==> Adjusted(oldTotal, newTotal, fixed, sizes)[i] == Max(fixed[i], 0)
    ensures fixed[i] == 0 ==> Flexible(fixed) > 0
    ensures var part, rest := sizes[i] * newTotal / oldTotal, newTotal - Wanted(fixed) - AllKept(oldTotal, newTotal, fixed, sizes);
      fixed[i] == 0 ==> Adjusted(oldTotal, newTotal, fixed, sizes)[i] == part + Extra(rest, fixed, i)
  {
    hide AllKept, Wanted, Adjusted, Empty, Flexible, Extra, Small;
    RoomKept(oldTotal, newTotal, fixed, sizes, i);
  }

  lemma {:induction false} WantedUpTo(fixed: seq<int>, i: nat)
    requires i < |fixed|
    ensures Wanted(fixed[..i]) + Max(fixed[i], 0) <= Wanted(fixed)
    decreases i
  {
    if i > 0 {
      assert fixed[..i][1..] == fixed[1..][..i - 1];
      WantedUpTo(fixed[1..], i - 1);
    }
  }

  /** With only flexible columns, none of them empty, that fill the old total, every column but the last ends at its
      part of the new total, rounded down, or at one pixel more; the last one is off by less than a pixel for each column. */
  lemma PartsAreKept(oldTotal: nat, newTotal: nat, fixed: seq<int>, sizes: seq<int>, i: nat)
    requires Small(newTotal, fixed, sizes) && i < |sizes| && oldTotal > 0 && Sum(sizes) == oldTotal
    requires forall k :: 0 <= k < |sizes| ==> fixed[k] == 0 && sizes[k] > 0
    ensures var a, part := Adjusted(oldTotal, newTotal, fixed, sizes)[i], sizes[i] * newTotal / oldTotal;
      && (i < |sizes| - 1 ==> a == part || a == part + 1)
      && (i == |sizes| - 1 ==> part - |sizes| < a < part + |sizes|)
  {
    hide Adjusted, AllKept, Small, Sum;
    PartsOrMore(oldTotal, newTotal, fixed, sizes, i);
  }

  lemma {:induction false} PartsOrMore(oldTotal: nat, newTotal: nat, fixed: seq<int>, sizes: seq<int>, i: nat)
    requires Small(newTotal, fixed, sizes) && i < |sizes| && oldTotal > 0 && Sum(sizes) == oldTotal
    requires forall k :: 0 <= k < |sizes| ==> fixed[k] == 0 && sizes[k] > 0
    ensures var a, part := Adjusted(oldTotal, newTotal, fixed, sizes)[i], Kept(sizes[i], oldTotal, newTotal);
      && (i < |sizes| - 1 ==> a == part || a == part + 1)
      && (i == |sizes| - 1 ==> part - |sizes| < a < part + |sizes|)
  {
    assert |fixed| == |sizes|;
    hide *;
    AllFlexible(fixed, sizes);
    LastOfAll(fixed, i);
    KeptNearly(oldTotal, newTotal, fixed, sizes);
    RoomKept(oldTotal, newTotal, fixed, sizes, i);
    var rest := newTotal - Wanted(fixed) - AllKept(oldTotal, newTotal, fixed, sizes);
    ExtraPixel(rest, fixed, i);
  }

  lemma NothingExtra(fixed: seq<int>, i: nat)
    ensures Extra(0, fixed, i) == 0
  {
  }

  lemma ExtraPixel(rest: nat, fixed: seq<int>, i: nat)
    requires i < |fixed| == Flexible(fixed) && rest < |fixed| && (LastFlexible(fixed, i) <==> i == |fixed| - 1)
    ensures i < |fixed| - 1 ==> Extra(rest, fixed, i) == if rest == 0 then 0 else 1
    ensures i == |fixed| - 1 ==> Extra(rest, fixed, i) == if rest == 0 then 0 else rest - (|fixed| - 1)
  {
    hide Flexible, LastFlexible;
    if rest > 0 {
      FewerThan(rest, |fixed|);
    }
  }

  lemma LastOfAll(fixed: seq<int>, i: nat)
    requires i < |fixed| && forall k :: 0 <= k < |fixed| ==> fixed[k] == 0
    ensures LastFlexible(fixed, i) <==> i == |fixed| - 1
  {
    if i < |fixed| - 1 {
      assert fixed[i + 1] == 0;
    }
  }

  lemma FewerThan(x: nat, n: nat)
    requires 0 < x < n
    ensures Max(x / n, 1) == 1 && (n - 1) * 1 == n - 1
  {
    Quotient(x, n, 0);
  }

  lemma {:induction false} AllFlexible(fixed: seq<int>, sizes: seq<int>)
    requires |fixed| == |sizes| && forall k :: 0 <= k < |sizes| ==> fixed[k] == 0 && sizes[k] > 0
    ensures Flexible(fixed) == |fixed| && Empty(fixed, sizes) == 0 && Wanted(fixed) == 0
  {
    if sizes != [] {
      assert forall k :: 0 <= k < |sizes| - 1 ==> fixed[1..][k] == fixed[k + 1] && sizes[1..][k] == sizes[k + 1];
      AllFlexible(fixed[1..], sizes[1..]);
    }
  }

  /** Rounding down loses less than a pixel for each column. */
  lemma KeptNearly(oldTotal: nat, newTotal: nat, fixed: seq<int>, sizes: seq<int>)
    requires Small(newTotal, fixed, sizes) && oldTotal > 0 && Sum(sizes) == oldTotal
    requires forall k :: 0 <= k < |sizes| ==> fixed[k] == 0
    ensures newTotal - |sizes| < AllKept(oldTotal, newTotal, fixed, sizes) <= newTotal
  {
    var k := AllKept(oldTotal, newTotal, fixed, sizes);
    KeptTimes(oldTotal, newTotal, fixed, sizes);
    assert sizes != [];
    var d := newTotal - k;
    assert d * oldTotal == newTotal * oldTotal - k * oldTotal;
    assert 0 <= d * oldTotal < |sizes| * oldTotal;
    if d < 0 {
      Multiples(d, oldTotal);
    } else if d >= |sizes| {
      ProductsAscend(|sizes|, d, oldTotal);
    }
  }

  lemma {:induction false} KeptTimes(oldTotal: nat, newTotal: nat, fixed: seq<int>, sizes: seq<int>)
    requires |fixed| == |sizes| && oldTotal > 0 && forall k :: 0 <= k < |sizes| ==> fixed[k] == 0
    ensures var k, s := AllKept(oldTotal, newTotal, fixed, sizes) * oldTotal, Sum(sizes) * newTotal;
      k <= s && (sizes != [] ==> s < k + |sizes| * oldTotal)
  {
    if sizes != [] {
      assert forall k :: 0 <= k < |sizes| - 1 ==> fixed[1..][k] == fixed[k + 1];
      KeptTimes(oldTotal, newTotal, fixed[1..], sizes[1..]);
      var a, b := Kept(sizes[0], oldTotal, newTotal), AllKept(oldTotal, newTotal, fixed[1..], sizes[1..]);
      var x, y := sizes[0], Sum(sizes[1..]);
      Rounded(x * newTotal, oldTotal);
      Distributes(a, b, oldTotal);
      Distributes(x, y, newTotal);
      Distributes(1, |sizes| - 1, oldTotal);
    }
  }

  lemma Rounded(x: int, d: nat)
    requires d > 0
    ensures x / d * d <= x < x / d * d + d
  {
  }

  lemma Distributes(a: int, b: int, c: int)
    ensures (a + b) * c == a * c + b * c
  {
  }
}
