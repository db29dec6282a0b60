/** Sharing out a width among the columns of a layout, and turning column sizes into positions
    (libAfterBase/layout.c). A fixed size is positive; a column with fixed size 0 is flexible, one with a
    negative fixed size is hidden. Heights of rows go the same way. */
module LayoutSizes {
  import opened Common
  import opened Arithmetic

  /** A 32-bit unsigned value read back as a signed one. */
  function Signed(x: int): (r: int)
    ensures 0 <= x < UINT / 2 ==> r == x
  {
    var u := x % UINT;
    if u < UINT / 2 then u else u - UINT
  }

  ghost function Sum(s: seq<int>): int
  {
    if s == [] then 0 else s[0] + Sum(s[1..])
  }

  /** The sizes after a pass, and the space left to share out. */
  datatype Pass = Pass(sizes: seq<int>, left: int)

  // ---------------------------------------------------------------- what each pass makes of the sizes

  /** First pass: the fixed columns take what they want, as long as there is something left. */
  function FixedPass(available: int, fixed: seq<int>, sizes: seq<int>): (r: Pass)
    requires |fixed| == |sizes|
    ensures |r.sizes| == |sizes|
    decreases |sizes|
  {
    if sizes == [] then Pass([], available)
    else
      var given := if fixed[0] < 0 || available <= 0 then 0 else Min(available, fixed[0]);
      var rest := FixedPass(if fixed[0] > 0 then available - given else available, fixed[1..], sizes[1..]);
      Pass([if fixed[0] == 0 then sizes[0] else given] + rest.sizes, rest.left)
  }

  /** The share of a flexible column that keeps its part of the whole, in 32-bit unsigned arithmetic. */
  function Ratio(size: int, oldTotal: nat, newTotal: nat): int
    requires oldTotal > 0
  {
    Signed((size * newTotal) % UINT / oldTotal)
  }

  /** Second pass: the flexible columns that had a size keep their part of the whole, in order. */
  function RatioPass(available: int, oldTotal: nat, newTotal: nat, fixed: seq<int>, sizes: seq<int>): (r: Pass)
    requires |fixed| == |sizes|
    ensures |r.sizes| == |sizes|
    decreases |sizes|
  {
    if sizes == [] then Pass([], available)
    else if fixed[0] != 0 || sizes[0] == 0 then
      var rest := RatioPass(available, oldTotal, newTotal, fixed[1..], sizes[1..]);
      Pass([sizes[0]] + rest.sizes, rest.left)
    else
      var given := if available <= 0 || oldTotal == 0 then 0 else Min(Ratio(sizes[0], oldTotal, newTotal), available);
      var rest := RatioPass(available - given, oldTotal, newTotal, fixed[1..], sizes[1..]);
      Pass([given] + rest.sizes, rest.left)
  }

  /** Third pass: the empty flexible columns get equal parts, while there is something left. */
  function EmptyPass(available: int, empty: nat, part: int, fixed: seq<int>, sizes: seq<int>): (r: Pass)
    requires |fixed| == |sizes|
    ensures |r.sizes| == |sizes|
    decreases |sizes|
  {
    if sizes == [] || empty == 0 || available <= 0 then Pass(sizes, available)
    else if sizes[0] == 0 && fixed[0] == 0 then
      var rest := EmptyPass(available - part, empty - 1, part, fixed[1..], sizes[1..]);
      Pass([part] + rest.sizes, rest.left)
    else
      var rest := EmptyPass(available, empty, part, fixed[1..], sizes[1..]);
      Pass([sizes[0]] + rest.sizes, rest.left)
  }

  /** Fourth pass: all flexible columns get equal parts; the last of them gets what is left, even if negative. */
  function SpreadPass(available: int, flexible: nat, part: int, fixed: seq<int>, sizes: seq<int>): (r: seq<int>)
    requires |fixed| == |sizes|
    ensures |r| == |sizes|
    decreases |sizes|
  {
    if sizes == [] || flexible == 0 then sizes
    else if fixed[0] == 0 then
      [sizes[0] + if flexible == 1 then available else part]
      + SpreadPass(available - part, flexible - 1, part, fixed[1..], sizes[1..])
    else
      [sizes[0]] + SpreadPass(available, flexible, part, fixed[1..], sizes[1..])
  }

  /** Equal parts of what is left, at least one pixel each. */
  function Part(available: int, n: nat): int
    requires available > 0 && n > 0
  {
    Max(available / n, 1)
  }

  function Flexible(fixed: seq<int>): (n: nat)
    ensures n <= |fixed|
  {
    if fixed == [] then 0 else (if fixed[0] == 0 then 1 else 0) + Flexible(fixed[1..])
  }

  function Empty(fixed: seq<int>, sizes: seq<int>): (n: nat)
    requires |fixed| == |sizes|
  {
    if sizes == [] then 0 else (if fixed[0] == 0 && sizes[0] == 0 then 1 else 0) + Empty(fixed[1..], sizes[1..])
  }

  /** The sizes after three passes, and what is left then. */
  function BeforeSpread(oldTotal: nat, newTotal: nat, fixed: seq<int>, sizes: seq<int>): (r: Pass)
    requires |fixed| == |sizes|
    ensures |r.sizes| == |sizes|
  {
    var one := FixedPass(Signed(newTotal), fixed, sizes);
    var two := RatioPass(one.left, oldTotal, newTotal, fixed, one.sizes);
    var empty := Empty(fixed, one.sizes);
    if two.left > 0 && empty > 0 then EmptyPass(two.left, empty, Part(two.left, empty), fixed, two.sizes) else two
  }

  function Adjusted(oldTotal: nat, newTotal: nat, fixed: seq<int>, sizes: seq<int>): (r: seq<int>)
    requires |fixed| == |sizes|
    ensures |r| == |sizes|
  {
    var three := BeforeSpread(oldTotal, newTotal, fixed, sizes);
    var n := Flexible(fixed);
    if three.left > 0 && n > 0 then SpreadPass(three.left, n, Part(three.left, n), fixed, three.sizes) else three.sizes
  }

  // ---------------------------------------------------------------- conservation

  /** What the fixed columns want together. */
  function Wanted(fixed: seq<int>): (w: nat)
  {
    if fixed == [] then 0 else Max(fixed[0], 0) + Wanted(fixed[1..])
  }

  ghost function FlexSum(fixed: seq<int>, sizes: seq<int>): int
    requires |fixed| == |sizes|
  {
    if sizes == [] then 0 else (if fixed[0] == 0 then sizes[0] else 0) + FlexSum(fixed[1..], sizes[1..])
  }

  lemma {:induction false} FixedKeeps(available: int, fixed: seq<int>, sizes: seq<int>)
    requires |fixed| == |sizes|
    ensures var r := FixedPass(available, fixed, sizes);
      var taken := Min(Max(available, 0), Wanted(fixed));
      && r.left == available - taken && Sum(r.sizes) == FlexSum(fixed, sizes) + taken
      && FlexSum(fixed, r.sizes) == FlexSum(fixed, sizes)
    decreases |sizes|
  {
    if sizes != [] {
      var given := if fixed[0] < 0 || available <= 0 then 0 else Min(available, fixed[0]);
      FixedKeeps(if fixed[0] > 0 then available - given else available, fixed[1..], sizes[1..]);
    }
  }

  lemma {:induction false} RatioKeeps(available: int, oldTotal: nat, newTotal: nat, fixed: seq<int>, sizes: seq<int>)
    requires |fixed| == |sizes|
    ensures var r := RatioPass(available, oldTotal, newTotal, fixed, sizes);
      && Sum(r.sizes) - FlexSum(fixed, r.sizes) == Sum(sizes) - FlexSum(fixed, sizes)
      && FlexSum(fixed, r.sizes) + r.left == available
      && (available >= 0 ==> r.left >= 0) && (available < 0 ==> r.left == available)
    decreases |sizes|
  {
    if sizes != [] {
      var given := if fixed[0] != 0 || sizes[0] == 0 || available <= 0 || oldTotal == 0 then 0
                   else Min(Ratio(sizes[0], oldTotal, newTotal), available);
      RatioKeeps(available - given, oldTotal, newTotal, fixed[1..], sizes[1..]);
    }
  }

  lemma {:induction false} EmptyKeeps(available: int, empty: nat, part: int, fixed: seq<int>, sizes: seq<int>)
    requires |fixed| == |sizes| && part >= 1 && (part == 1 || empty * part <= available)
    ensures var r := EmptyPass(available, empty, part, fixed, sizes);
      && Sum(r.sizes) + r.left == Sum(sizes) + available
      && (available >= 0 ==> r.left >= 0) && (available < 0 ==> r.left == available)
      && Sum(r.sizes) - FlexSum(fixed, r.sizes) == Sum(sizes) - FlexSum(fixed, sizes)
    decreases |sizes|
  {
    if sizes == [] || empty == 0 || available <= 0 {
    } else if sizes[0] == 0 && fixed[0] == 0 {
      assert (empty - 1) * part == empty * part - part;
      EmptyKeeps(available - part, empty - 1, part, fixed[1..], sizes[1..]);
    } else {
      EmptyKeeps(available, empty, part, fixed[1..], sizes[1..]);
    }
  }

  /** Handing everything to the flexible columns leaves nothing over, however small the parts. */
  lemma {:induction false} SpreadKeeps(available: int, part: int, fixed: seq<int>, sizes: seq<int>)
    requires |fixed| == |sizes|
    ensures Flexible(fixed) > 0 ==> Sum(SpreadPass(available, Flexible(fixed), part, fixed, sizes)) == Sum(sizes) + available
    decreases |sizes|
  {
    if sizes != [] && Flexible(fixed) > 0 {
      SpreadKeeps(if fixed[0] == 0 then available - part else available, part, fixed[1..], sizes[1..]);
    }
  }

  lemma {:induction false} NoFlexibleNoSum(fixed: seq<int>, sizes: seq<int>)
    requires |fixed| == |sizes| && Flexible(fixed) == 0
    ensures FlexSum(fixed, sizes) == 0 && Empty(fixed, sizes) == 0
  {
    if sizes != [] {
      NoFlexibleNoSum(fixed[1..], sizes[1..]);
    }
  }

  lemma PartFits(available: int, n: nat)
    requires available > 0 && n > 0
    ensures var part := Part(available, n); part >= 1 && (part == 1 || n * part <= available)
  {
    assert n * (available / n) <= available;
  }

  /** The sizes add up to the new total exactly if some column is flexible, and to as much of it as the
      fixed columns want if none is; a total that reads back as negative counts as nothing. */
  lemma SpaceIsConserved(oldTotal: nat, newTotal: nat, fixed: seq<int>, sizes: seq<int>)
    requires |fixed| == |sizes|
    ensures var total := Max(Signed(newTotal), 0);
      Sum(Adjusted(oldTotal, newTotal, fixed, sizes)) == if Flexible(fixed) > 0 then total else Min(total, Wanted(fixed))
  {
    var one := FixedPass(Signed(newTotal), fixed, sizes);
    FixedKeeps(Signed(newTotal), fixed, sizes);
    var two := RatioPass(one.left, oldTotal, newTotal, fixed, one.sizes);
    RatioKeeps(one.left, oldTotal, newTotal, fixed, one.sizes);
    var empty := Empty(fixed, one.sizes);
    if two.left > 0 && empty > 0 {
      PartFits(two.left, empty);
      EmptyKeeps(two.left, empty, Part(two.left, empty), fixed, two.sizes);
    }
    var three := BeforeSpread(oldTotal, newTotal, fixed, sizes);
    if Flexible(fixed) > 0 {
      if three.left > 0 {
        SpreadKeeps(three.left, Part(three.left, Flexible(fixed)), fixed, three.sizes);
      }
    } else {
      NoFlexibleNoSum(fixed, sizes);
      NoFlexibleNoSum(fixed, one.sizes);
      NoFlexibleNoSum(fixed, two.sizes);
    }
  }

  // ---------------------------------------------------------------- sign

  ghost predicate NonNegative(s: seq<int>)
  {
    forall i :: 0 <= i < |s| ==> s[i] >= 0
  }

  /** i is the last flexible column. */
  ghost predicate LastFlexible(fixed: seq<int>, i: nat)
  {
    i < |fixed| && fixed[i] == 0 && forall j :: i < j < |fixed| ==> fixed[j] != 0
  }

  /** The old sizes are not negative, and neither are the shares they ask for (ShareSign). */
  ghost predicate Sound(oldTotal: nat, newTotal: nat, fixed: seq<int>, sizes: seq<int>)
  {
    |fixed| == |sizes| && forall i :: 0 <= i < |sizes| && fixed[i] == 0 ==>
      sizes[i] >= 0 && (oldTotal == 1 ==> (sizes[i] * newTotal) % UINT < UINT / 2)
  }

  lemma {:induction false} FixedIsNonNegative(available: int, fixed: seq<int>, sizes: seq<int>)
    requires |fixed| == |sizes| && forall i :: 0 <= i < |sizes| && fixed[i] == 0 ==> sizes[i] >= 0
    ensures NonNegative(FixedPass(available, fixed, sizes).sizes)
    ensures forall i :: 0 <= i < |sizes| && fixed[i] == 0 ==> FixedPass(available, fixed, sizes).sizes[i] == sizes[i]
    decreases |sizes|
  {
    if sizes != [] {
      var given := if fixed[0] < 0 || available <= 0 then 0 else Min(available, fixed[0]);
      FixedIsNonNegative(if fixed[0] > 0 then available - given else available, fixed[1..], sizes[1..]);
    }
  }

  /** A share is negative only of an old total of 1, if the product reads back as negative then. */
  lemma ShareSign(size: int, oldTotal: nat, newTotal: nat)
    requires oldTotal > 0 && size >= 0
    ensures Ratio(size, oldTotal, newTotal) < 0 <==> oldTotal == 1 && (size * newTotal) % UINT >= UINT / 2
  {
    if oldTotal > 1 {
      Halved((size * newTotal) % UINT, oldTotal);
    }
  }

  lemma Halved(x: nat, d: nat)
    requires x < UINT && d > 1
    ensures 0 <= x / d < UINT / 2
  {
    var q, r := x / d, x % d;
    assert x == q * d + r && r >= 0;
    ProductsAscend(2, d, q);
  }

  lemma {:induction false} RatioPassIsNonNegative(available: int, oldTotal: nat, newTotal: nat, fixed: seq<int>, sizes: seq<int>)
    requires Sound(oldTotal, newTotal, fixed, sizes) && NonNegative(sizes)
    ensures NonNegative(RatioPass(available, oldTotal, newTotal, fixed, sizes).sizes)
    decreases |sizes|
  {
    if sizes != [] {
      if fixed[0] == 0 && oldTotal > 0 {
        ShareSign(sizes[0], oldTotal, newTotal);
      }
      var given := if fixed[0] != 0 || sizes[0] == 0 || available <= 0 || oldTotal == 0 then 0
                   else Min(Ratio(sizes[0], oldTotal, newTotal), available);
      RatioPassIsNonNegative(available - given, oldTotal, newTotal, fixed[1..], sizes[1..]);
    }
  }

  lemma {:induction false} EmptyIsNonNegative(available: int, empty: nat, part: int, fixed: seq<int>, sizes: seq<int>)
    requires |fixed| == |sizes| && part >= 1 && NonNegative(sizes)
    ensures NonNegative(EmptyPass(available, empty, part, fixed, sizes).sizes)
    decreases |sizes|
  {
    if sizes == [] || empty == 0 || available <= 0 {
    } else if sizes[0] == 0 && fixed[0] == 0 {
      EmptyIsNonNegative(available - part, empty - 1, part, fixed[1..], sizes[1..]);
    } else {
      EmptyIsNonNegative(available, empty, part, fixed[1..], sizes[1..]);
    }
  }

  lemma {:induction false} NoneFlexible(fixed: seq<int>)
    ensures Flexible(fixed) == 0 <==> forall j :: 0 <= j < |fixed| ==> fixed[j] != 0
  {
    if fixed != [] {
      NoneFlexible(fixed[1..]);
      assert forall j :: 0 < j < |fixed| ==> fixed[j] == fixed[1..][j - 1];
      assert forall j :: 0 <= j < |fixed| - 1 ==> fixed[1..][j] == fixed[j + 1];
    }
  }

  /** What each column has gained by the last pass. */
  lemma {:induction false} SpreadGains(available: int, part: int, fixed: seq<int>, sizes: seq<int>, i: nat)
    requires |fixed| == |sizes| && i < |sizes|
    ensures var n := Flexible(fixed);
      SpreadPass(available, n, part, fixed, sizes)[i] == sizes[i] +
        (if fixed[i] != 0 then 0 else if LastFlexible(fixed, i) then available - (n - 1) * part else part)
    decreases |sizes|
  {
    var n, rest := Flexible(fixed), fixed[1..];
    NoneFlexible(fixed);
    NoneFlexible(rest);
    assert forall j :: 0 < j < |fixed| ==> fixed[j] == rest[j - 1];
    assert forall j :: 0 <= j < |rest| ==> rest[j] == fixed[j + 1];
    if i > 0 {
      SpreadGains(if fixed[0] == 0 then available - part else available, part, rest, sizes[1..], i - 1);
      assert (n - 1) * part == (n - 2) * part + part;
    }
  }

  /** After three passes: no size ends up negative, except where a few pixels go round to more columns than
      there are pixels and the last of them pays for it. */
  lemma SignAfterThreePasses(oldTotal: nat, newTotal: nat, fixed: seq<int>, sizes: seq<int>, last: nat)
    requires Sound(oldTotal, newTotal, fixed, sizes) && LastFlexible(fixed, last)
    ensures var three := BeforeSpread(oldTotal, newTotal, fixed, sizes);
      var n := Flexible(fixed);
      NonNegative(Adjusted(oldTotal, newTotal, fixed, sizes)) <==>
        !(0 < three.left < n && three.sizes[last] < n - 1 - three.left)
  {
    var three, n := BeforeSpread(oldTotal, newTotal, fixed, sizes), Flexible(fixed);
    BeforeSpreadIsNonNegative(oldTotal, newTotal, fixed, sizes);
    NoneFlexible(fixed);
    if three.left > 0 {
      SpreadSign(three.left, fixed, three.sizes, last);
    }
  }

  lemma SpreadSign(available: int, fixed: seq<int>, sizes: seq<int>, last: nat)
    requires |fixed| == |sizes| && NonNegative(sizes) && LastFlexible(fixed, last) && available > 0 && Flexible(fixed) > 0
    ensures var n := Flexible(fixed);
      NonNegative(SpreadPass(available, n, Part(available, n), fixed, sizes)) <==>
        !(available < n && sizes[last] < n - 1 - available)
  {
    var n := Flexible(fixed);
    var part := Part(available, n);
    var spread := SpreadPass(available, n, part, fixed, sizes);
    LastPart(available, n);
    forall i | 0 <= i < |sizes| ensures spread[i] == sizes[i] +
        (if fixed[i] != 0 then 0 else if i == last then available - (n - 1) * part else part) {
      SpreadGains(available, part, fixed, sizes, i);
    }
    assert spread[last] == sizes[last] + available - (n - 1) * part;
  }

  lemma LastPart(available: int, n: nat)
    requires available > 0 && n > 0
    ensures var rest := available - (n - 1) * Part(available, n);
      Part(available, n) >= 1 && if available < n then rest == available - (n - 1) else rest >= 1
  {
    var q := available / n;
    assert q * n <= available < q * n + n;
    assert (n - 1) * q == q * n - q;
    assert q == 0 <==> available < n;
  }

  lemma BeforeSpreadIsNonNegative(oldTotal: nat, newTotal: nat, fixed: seq<int>, sizes: seq<int>)
    requires Sound(oldTotal, newTotal, fixed, sizes)
    ensures NonNegative(BeforeSpread(oldTotal, newTotal, fixed, sizes).sizes)
  {
    var one := FixedPass(Signed(newTotal), fixed, sizes);
    FixedIsNonNegative(Signed(newTotal), fixed, sizes);
    var two := RatioPass(one.left, oldTotal, newTotal, fixed, one.sizes);
    RatioPassIsNonNegative(one.left, oldTotal, newTotal, fixed, one.sizes);
    var empty := Empty(fixed, one.sizes);
    if two.left > 0 && empty > 0 {
      EmptyIsNonNegative(two.left, empty, Part(two.left, empty), fixed, two.sizes);
    }
  }

  // ---------------------------------------------------------------- sign, from the inputs

  /** What a flexible column of this size asks for. */
  function Share(size: int, oldTotal: nat, newTotal: nat): int
  {
    if oldTotal == 0 then 0 else Ratio(size, oldTotal, newTotal)
  }

  function Shares(oldTotal: nat, newTotal: nat, fixed: seq<int>, sizes: seq<int>): int
    requires |fixed| == |sizes|
  {
    if sizes == [] then 0
    else (if fixed[0] == 0 then Share(sizes[0], oldTotal, newTotal) else 0) + Shares(oldTotal, newTotal, fixed[1..], sizes[1..])
  }

  /** What the fixed columns leave to the flexible ones. */
  function Remaining(newTotal: nat, fixed: seq<int>): int
  {
    Signed(newTotal) - Min(Max(Signed(newTotal), 0), Wanted(fixed))
  }

  /** What is still left when the flexible columns have their shares, and the empty ones their equal parts. */
  function Over(oldTotal: nat, newTotal: nat, fixed: seq<int>, sizes: seq<int>): int
    requires |fixed| == |sizes|
  {
    var rest, e := Remaining(newTotal, fixed) - Shares(oldTotal, newTotal, fixed, sizes), Empty(fixed, sizes);
    if rest <= 0 then 0 else if e == 0 then rest else if rest < e then 0 else rest % e
  }

  /** Every flexible column that had a size keeps at least a pixel of it. */
  predicate AllKeepSome(oldTotal: nat, newTotal: nat, fixed: seq<int>, sizes: seq<int>)
    requires |fixed| == |sizes|
  {
    forall i :: 0 <= i < |sizes| && fixed[i] == 0 && sizes[i] != 0 ==> Share(sizes[i], oldTotal, newTotal) != 0
  }

  /** The size of column i by then. The part of an empty column goes to another that has lost its size, if
      there is one in front of it. */
  function SizeBefore(oldTotal: nat, newTotal: nat, fixed: seq<int>, sizes: seq<int>, i: nat): int
    requires |fixed| == |sizes| && i < |sizes|
  {
    var rest, e := Remaining(newTotal, fixed) - Shares(oldTotal, newTotal, fixed, sizes), Empty(fixed, sizes);
    if sizes[i] == 0 && e > 0 && AllKeepSome(oldTotal, newTotal, fixed, sizes) then rest / e
    else Share(sizes[i], oldTotal, newTotal)
  }

  /** No size ends up negative, except where fewer pixels are over than there are flexible columns, and the
      last of these is too small to pay for the others. */
  lemma WhenSizesStayNonNegative(oldTotal: nat, newTotal: nat, fixed: seq<int>, sizes: seq<int>, last: nat)
    requires Sound(oldTotal, newTotal, fixed, sizes) && LastFlexible(fixed, last)
    ensures var over, n := Over(oldTotal, newTotal, fixed, sizes), Flexible(fixed);
      NonNegative(Adjusted(oldTotal, newTotal, fixed, sizes)) <==>
        !(0 < over < n && SizeBefore(oldTotal, newTotal, fixed, sizes, last) < n - 1 - over)
  {
    SignAfterThreePasses(oldTotal, newTotal, fixed, sizes, last);
    ThreePasses(oldTotal, newTotal, fixed, sizes, last);
  }

  /** What three passes leave, and leave the last flexible column with. */
  lemma ThreePasses(oldTotal: nat, newTotal: nat, fixed: seq<int>, sizes: seq<int>, last: nat)
    requires Sound(oldTotal, newTotal, fixed, sizes) && LastFlexible(fixed, last)
    ensures var three, over := BeforeSpread(oldTotal, newTotal, fixed, sizes), Over(oldTotal, newTotal, fixed, sizes);
      && (three.left > 0 <==> over > 0) && (over > 0 ==> three.left == over)
      && (over > 0 ==> three.sizes[last] == SizeBefore(oldTotal, newTotal, fixed, sizes, last))
  {
    hide Adjusted, Share, Flexible, FixedPass, RatioPass, EmptyPass, Part, Empty, Shares, Remaining, Signed;
    var one := FixedPass(Signed(newTotal), fixed, sizes);
    TwoPasses(oldTotal, newTotal, fixed, sizes);
    var two := RatioPass(one.left, oldTotal, newTotal, fixed, one.sizes);
    if two.left > 0 && Empty(fixed, sizes) > 0 {
      ThirdPass(two.left, Empty(fixed, sizes), fixed, two.sizes, last);
    }
  }

  lemma TwoPasses(oldTotal: nat, newTotal: nat, fixed: seq<int>, sizes: seq<int>)
    requires Sound(oldTotal, newTotal, fixed, sizes)
    ensures var one := FixedPass(Signed(newTotal), fixed, sizes);
      var two := RatioPass(one.left, oldTotal, newTotal, fixed, one.sizes);
      var rest := Remaining(newTotal, fixed) - Shares(oldTotal, newTotal, fixed, sizes);
      && Empty(fixed, one.sizes) == Empty(fixed, sizes)
      && (two.left > 0 <==> rest > 0)
      && (rest > 0 ==>
        && two.left == rest
        && (forall i :: 0 <= i < |sizes| && fixed[i] == 0 ==>
             two.sizes[i] == Share(sizes[i], oldTotal, newTotal) && (sizes[i] == 0 ==> two.sizes[i] == 0))
        && Empty(fixed, two.sizes) >= Empty(fixed, sizes)
        && (Empty(fixed, two.sizes) == Empty(fixed, sizes) <==> AllKeepSome(oldTotal, newTotal, fixed, sizes)))
  {
    hide Ratio, FixedPass, RatioPass, Empty, Shares, Signed;
    var one := FixedPass(Signed(newTotal), fixed, sizes);
    FixedKeeps(Signed(newTotal), fixed, sizes);
    FixedIsNonNegative(Signed(newTotal), fixed, sizes);
    SameFlexible(oldTotal, newTotal, fixed, sizes, one.sizes);
    assert Sound(oldTotal, newTotal, fixed, one.sizes);
    RatioExact(one.left, oldTotal, newTotal, fixed, one.sizes);
    var two := RatioPass(one.left, oldTotal, newTotal, fixed, one.sizes);
    if two.left > 0 {
      ShareOfNothing(oldTotal, newTotal);
      CountZeros(oldTotal, newTotal, fixed, one.sizes, two.sizes);
      SameKeep(oldTotal, newTotal, fixed, sizes, one.sizes);
    }
  }

  lemma ThirdPass(available: int, empty: nat, fixed: seq<int>, two: seq<int>, last: nat)
    requires |fixed| == |two| && 0 < available && 0 < empty <= Empty(fixed, two) && LastFlexible(fixed, last)
    ensures var p := EmptyPass(available, empty, Part(available, empty), fixed, two);
      && p.left == (if available < empty then 0 else available % empty)
      && (available >= empty ==>
          p.sizes[last] == if two[last] == 0 && Empty(fixed, two) == empty then available / empty else two[last])
  {
    if available < empty {
      PartOfFew(available, empty);
      EmptyShort(available, empty, fixed, two);
    } else {
      PartOfMany(available, empty);
      EmptyExact(available, empty, Part(available, empty), fixed, two, last);
    }
  }

  lemma PartOfFew(available: int, n: nat)
    requires 0 < available < n
    ensures Part(available, n) == 1
  {
    assert available / n == 0;
  }

  lemma PartOfMany(available: int, n: nat)
    requires available >= n > 0
    ensures Part(available, n) == available / n >= 1 && n * Part(available, n) <= available
    ensures available - n * Part(available, n) == available % n
  {
    var q := available / n;
    assert available == q * n + available % n && available % n < n;
    assert (q - 1) * n == q * n - n && q * n - n + n > 0;
    Multiples(q - 1, n);
  }

  lemma SameKeep(oldTotal: nat, newTotal: nat, fixed: seq<int>, sizes: seq<int>, one: seq<int>)
    requires |fixed| == |sizes| == |one| && forall i :: 0 <= i < |sizes| && fixed[i] == 0 ==> one[i] == sizes[i]
    ensures AllKeepSome(oldTotal, newTotal, fixed, sizes) <==> AllKeepSome(oldTotal, newTotal, fixed, one)
  {
  }

  /** Shares and empty columns are a matter of the flexible columns alone. */
  lemma {:induction false} SameFlexible(oldTotal: nat, newTotal: nat, fixed: seq<int>, sizes: seq<int>, one: seq<int>)
    requires |fixed| == |sizes| == |one| && forall i :: 0 <= i < |sizes| && fixed[i] == 0 ==> one[i] == sizes[i]
    ensures Shares(oldTotal, newTotal, fixed, one) == Shares(oldTotal, newTotal, fixed, sizes)
    ensures Empty(fixed, one) == Empty(fixed, sizes)
  {
    if sizes != [] {
      SameFlexible(oldTotal, newTotal, fixed[1..], sizes[1..], one[1..]);
    }
  }

  /** The second pass hands out all shares, or all there is. */
  lemma {:induction false} RatioExact(available: int, oldTotal: nat, newTotal: nat, fixed: seq<int>, sizes: seq<int>)
    requires Sound(oldTotal, newTotal, fixed, sizes)
    ensures var p, r := RatioPass(available, oldTotal, newTotal, fixed, sizes), Shares(oldTotal, newTotal, fixed, sizes);
      && r >= 0
      && p.left == (if available < 0 then available else if r >= available then 0 else available - r)
      && (r < available ==> forall i :: 0 <= i < |sizes| && fixed[i] == 0 ==> p.sizes[i] == Share(sizes[i], oldTotal, newTotal))
    decreases |sizes|
  {
    if sizes != [] {
      var f, s := fixed[1..], sizes[1..];
      assert Sound(oldTotal, newTotal, f, s) by {
        assert forall i :: 0 <= i < |s| ==> s[i] == sizes[i + 1] && f[i] == fixed[i + 1];
      }
      if fixed[0] != 0 || sizes[0] == 0 {
        ShareOfNothing(oldTotal, newTotal);
        RatioExact(available, oldTotal, newTotal, f, s);
      } else {
        ShareIsNonNegative(sizes[0], oldTotal, newTotal);
        var given := if available <= 0 || oldTotal == 0 then 0 else Min(Ratio(sizes[0], oldTotal, newTotal), available);
        RatioExact(available - given, oldTotal, newTotal, f, s);
      }
    }
  }

  lemma ShareOfNothing(oldTotal: nat, newTotal: nat)
    ensures Share(0, oldTotal, newTotal) == 0
  {
    assert 0 * newTotal == 0;
  }

  lemma ShareIsNonNegative(size: int, oldTotal: nat, newTotal: nat)
    requires size >= 0 && (oldTotal == 1 ==> (size * newTotal) % UINT < UINT / 2)
    ensures Share(size, oldTotal, newTotal) >= 0
  {
    if oldTotal > 0 {
      ShareSign(size, oldTotal, newTotal);
    }
  }

  /** After the second pass at least the empty columns are empty, and no others if all keep some of their size. */
  lemma {:induction false} CountZeros(oldTotal: nat, newTotal: nat, fixed: seq<int>, sizes: seq<int>, two: seq<int>)
    requires |fixed| == |sizes| == |two|
    requires forall i :: 0 <= i < |sizes| && fixed[i] == 0 ==> two[i] == Share(sizes[i], oldTotal, newTotal)
    ensures Empty(fixed, two) >= Empty(fixed, sizes)
    ensures Empty(fixed, two) == Empty(fixed, sizes) <==> AllKeepSome(oldTotal, newTotal, fixed, sizes)
  {
    if sizes != [] {
      var f, s, t := fixed[1..], sizes[1..], two[1..];
      ShareOfNothing(oldTotal, newTotal);
      assert forall i :: 0 <= i < |s| ==> f[i] == fixed[i + 1] && s[i] == sizes[i + 1] && t[i] == two[i + 1];
      CountZeros(oldTotal, newTotal, f, s, t);
      assert AllKeepSome(oldTotal, newTotal, fixed, sizes) <==>
        (fixed[0] == 0 && sizes[0] != 0 ==> Share(sizes[0], oldTotal, newTotal) != 0) && AllKeepSome(oldTotal, newTotal, f, s);
    }
  }

  /** With fewer pixels than empty columns nothing is left. */
  lemma {:induction false} EmptyShort(available: int, empty: nat, fixed: seq<int>, sizes: seq<int>)
    requires |fixed| == |sizes| && 0 <= available <= empty && available <= Empty(fixed, sizes)
    ensures EmptyPass(available, empty, 1, fixed, sizes).left == 0
    decreases |sizes|
  {
    if sizes != [] && available > 0 {
      if sizes[0] == 0 && fixed[0] == 0 {
        EmptyShort(available - 1, empty - 1, fixed[1..], sizes[1..]);
      } else {
        EmptyShort(available, empty, fixed[1..], sizes[1..]);
      }
    }
  }

  /** With enough of them every part is handed out, to the first columns that are empty. */
  lemma {:induction false} EmptyExact(available: int, empty: nat, part: int, fixed: seq<int>, sizes: seq<int>, last: nat)
    requires |fixed| == |sizes| && part >= 1 && empty * part <= available && empty <= Empty(fixed, sizes)
    requires LastFlexible(fixed, last)
    ensures var p := EmptyPass(available, empty, part, fixed, sizes);
      && p.left == available - empty * part
      && p.sizes[last] == if sizes[last] == 0 && Empty(fixed, sizes) == empty then part else sizes[last]
    decreases |sizes|
  {
    if empty == 0 {
      assert empty * part == 0;
      if sizes[last] == 0 {
        SomeEmpty(fixed, sizes, last);
      }
    } else {
      var f, s, zero := fixed[1..], sizes[1..], sizes[0] == 0 && fixed[0] == 0;
      assert empty * part == (empty - 1) * part + part;
      assert (empty - 1) * part >= 0;
      assert forall j :: 0 <= j < |f| ==> f[j] == fixed[j + 1];
      if last == 0 {
        NothingFlexible(f, s);
        assert zero && empty == 1;
        if s != [] {
          assert EmptyPass(available - part, 0, part, f, s) == Pass(s, available - part);
        }
      } else {
        assert LastFlexible(f, last - 1);
        if zero {
          EmptyExact(available - part, empty - 1, part, f, s, last - 1);
        } else {
          EmptyExact(available, empty, part, f, s, last - 1);
        }
      }
    }
  }

  lemma {:induction false} NothingFlexible(fixed: seq<int>, sizes: seq<int>)
    requires |fixed| == |sizes| && forall j :: 0 <= j < |fixed| ==> fixed[j] != 0
    ensures Empty(fixed, sizes) == 0
  {
    if sizes != [] {
      NothingFlexible(fixed[1..], sizes[1..]);
    }
  }

  lemma {:induction false} SomeEmpty(fixed: seq<int>, sizes: seq<int>, i: nat)
    requires |fixed| == |sizes| && i < |sizes| && fixed[i] == 0 && sizes[i] == 0
    ensures Empty(fixed, sizes) > 0
  {
    if i > 0 {
      SomeEmpty(fixed[1..], sizes[1..], i - 1);
    }
  }

  /** Three flexible columns of 2, 2 and 1 in a width of 5, squeezed into 3: the last one ends up at -1. */
  lemma LastColumnCanGoNegative()
    ensures Adjusted(5, 3, [0, 0, 0], [2, 2, 1]) == [2, 2, -1]
  {
    hide FixedPass, RatioPass, EmptyPass, SpreadPass;
    SqueezedTwoPasses();
    SqueezedLastPass();
  }

  lemma SqueezedTwoPasses()
    ensures FixedPass(3, [0, 0, 0], [2, 2, 1]) == Pass([2, 2, 1], 3) && Signed(3) == 3
    ensures RatioPass(3, 5, 3, [0, 0, 0], [2, 2, 1]) == Pass([1, 1, 0], 1)
  {
    assert FixedPass(3, [0], [1]) == Pass([1], 3);
    assert FixedPass(3, [0, 0], [2, 1]) == Pass([2, 1], 3);
    assert Ratio(2, 5, 3) == 1 && Ratio(1, 5, 3) == 0;
    assert RatioPass(1, 5, 3, [0], [1]) == Pass([0], 1);
    assert RatioPass(2, 5, 3, [0, 0], [2, 1]) == Pass([1, 0], 1);
  }

  lemma SqueezedLastPass()
    ensures SpreadPass(1, 3, 1, [0, 0, 0], [1, 1, 0]) == [2, 2, -1]
    ensures Flexible([0, 0, 0]) == 3 && Empty([0, 0, 0], [2, 2, 1]) == 0 && Part(1, 3) == 1
  {
    LosingLastPass();
    assert Empty([0], [1]) == 0 && Empty([0, 0], [2, 1]) == 0;
  }

  /** A share that reads back as negative stays so: a column of 1000 out of a width of 1, next to an empty one,
      stretched to 3000000. */
  lemma ShareCanBeNegative()
    ensures Adjusted(1, 3000000, [0, 0], [1000, 0]) == [3000000000 - UINT, UINT - 2997000000]
    ensures !Sound(1, 3000000, [0, 0], [1000, 0])
  {
    hide FixedPass, RatioPass, EmptyPass;
    StretchedPasses();
    assert Empty([0], [0]) == 1 && Part(UINT - 2997000000, 1) == UINT - 2997000000;
    assert [0, 0][0] == 0 && [1000, 0][0] == 1000;
  }

  lemma StretchedPasses()
    ensures FixedPass(3000000, [0, 0], [1000, 0]) == Pass([1000, 0], 3000000) && Signed(3000000) == 3000000
    ensures RatioPass(3000000, 1, 3000000, [0, 0], [1000, 0]) == Pass([3000000000 - UINT, 0], UINT - 2997000000)
    ensures EmptyPass(UINT - 2997000000, 1, UINT - 2997000000, [0, 0], [3000000000 - UINT, 0])
      == Pass([3000000000 - UINT, UINT - 2997000000], 0)
  {
    assert FixedPass(3000000, [0], [0]) == Pass([0], 3000000);
    assert Ratio(1000, 1, 3000000) == 3000000000 - UINT;
    assert RatioPass(UINT - 2997000000, 1, 3000000, [0], [0]) == Pass([0], UINT - 2997000000);
    assert EmptyPass(UINT - 2997000000, 1, UINT - 2997000000, [0], [0]) == Pass([UINT - 2997000000], 0);
  }

  /** An empty last column goes without its part when a column in front of it has lost its size: columns of 1, 0
      and 0 in a width of 100, squeezed into 3. */
  lemma EmptyColumnCanMissItsPart()
    ensures Adjusted(100, 3, [0, 0, 0], [1, 0, 0]) == [2, 2, -1]
    ensures SizeBefore(100, 3, [0, 0, 0], [1, 0, 0], 2) == 0 && !AllKeepSome(100, 3, [0, 0, 0], [1, 0, 0])
  {
    hide FixedPass, RatioPass, EmptyPass, SpreadPass;
    LosingTwoPasses();
    LosingThirdPass();
    LosingLastPass();
    assert [1, 0, 0][0] != 0 && Part(3, 2) == 1 && Part(1, 3) == 1;
    hide Part;
  }

  lemma LosingTwoPasses()
    ensures FixedPass(3, [0, 0, 0], [1, 0, 0]) == Pass([1, 0, 0], 3)
    ensures RatioPass(3, 100, 3, [0, 0, 0], [1, 0, 0]) == Pass([0, 0, 0], 3)
    ensures Ratio(1, 100, 3) == 0 && Ratio(0, 100, 3) == 0 && Signed(3) == 3
  {
    assert FixedPass(3, [0], [0]) == Pass([0], 3);
    assert FixedPass(3, [0, 0], [0, 0]) == Pass([0, 0], 3);
    assert RatioPass(3, 100, 3, [0], [0]) == Pass([0], 3);
    assert RatioPass(3, 100, 3, [0, 0], [0, 0]) == Pass([0, 0], 3);
  }

  lemma LosingThirdPass()
    ensures EmptyPass(3, 2, 1, [0, 0, 0], [0, 0, 0]) == Pass([1, 1, 0], 1)
    ensures Empty([0, 0, 0], [1, 0, 0]) == 2
  {
    assert EmptyPass(1, 0, 1, [0], [0]) == Pass([0], 1);
    assert EmptyPass(2, 1, 1, [0, 0], [0, 0]) == Pass([1, 0], 1);
    assert Empty([0], [0]) == 1 && Empty([0, 0], [0, 0]) == 2;
  }

  lemma LosingLastPass()
    ensures SpreadPass(1, 3, 1, [0, 0, 0], [1, 1, 0]) == [2, 2, -1]
    ensures Flexible([0, 0, 0]) == 3
  {
    assert SpreadPass(-1, 1, 1, [0], [0]) == [-1];
    assert SpreadPass(0, 2, 1, [0, 0], [1, 0]) == [2, -1];
    assert Flexible([0]) == 1 && Flexible([0, 0]) == 2;
  }

  /** Without a flexible column no size is negative. */
  lemma FixedStayNonNegative(oldTotal: nat, newTotal: nat, fixed: seq<int>, sizes: seq<int>)
    requires Sound(oldTotal, newTotal, fixed, sizes) && Flexible(fixed) == 0
    ensures NonNegative(Adjusted(oldTotal, newTotal, fixed, sizes))
  {
    BeforeSpreadIsNonNegative(oldTotal, newTotal, fixed, sizes);
  }

  // ---------------------------------------------------------------- nothing to do

  /** Every column has what it wants. */
  ghost predicate Settled(fixed: seq<int>, sizes: seq<int>)
  {
    |fixed| == |sizes| && forall i :: 0 <= i < |sizes| ==>
      (fixed[i] > 0 ==> sizes[i] == fixed[i]) && (fixed[i] < 0 ==> sizes[i] == 0) && sizes[i] >= 0
  }

  /** One step of the first pass over columns that have what they want. */
  lemma FixedUnfolds(available: int, fixed: seq<int>, sizes: seq<int>)
    requires |fixed| == |sizes| && sizes != []
    requires sizes[0] >= 0 && (fixed[0] > 0 ==> sizes[0] == fixed[0] <= available) && (fixed[0] < 0 ==> sizes[0] == 0)
    ensures var rest := FixedPass(if fixed[0] > 0 then available - fixed[0] else available, fixed[1..], sizes[1..]);
      FixedPass(available, fixed, sizes) == Pass([sizes[0]] + rest.sizes, rest.left)
    ensures Sum(sizes) == sizes[0] + Sum(sizes[1..])
    ensures FlexSum(fixed, sizes) == (if fixed[0] == 0 then sizes[0] else 0) + FlexSum(fixed[1..], sizes[1..])
  {
  }

  lemma NoColumns(available: int, fixed: seq<int>, sizes: seq<int>)
    requires |fixed| == |sizes| && sizes == []
    ensures FixedPass(available, fixed, sizes) == Pass(sizes, available) && Sum(sizes) == FlexSum(fixed, sizes) == 0
  {
  }

  lemma {:induction false} FixedLeaves(available: int, fixed: seq<int>, sizes: seq<int>)
    requires |fixed| == |sizes| && Settled(fixed, sizes) && available >= Sum(sizes)
    ensures FixedPass(available, fixed, sizes) == Pass(sizes, available - Sum(sizes) + FlexSum(fixed, sizes))
    ensures Sum(sizes) >= FlexSum(fixed, sizes) >= 0
    decreases |sizes|
  {
    hide *;
    if sizes == [] {
      NoColumns(available, fixed, sizes);
    } else {
      SettledRest(fixed, sizes);
      FixedUnfolds(available, fixed, sizes);
      FixedLeaves(if fixed[0] > 0 then available - fixed[0] else available, fixed[1..], sizes[1..]);
      assert [sizes[0]] + sizes[1..] == sizes;
    }
  }

  lemma SettledRest(fixed: seq<int>, sizes: seq<int>)
    requires Settled(fixed, sizes) && sizes != []
    ensures Settled(fixed[1..], sizes[1..]) && Sum(sizes[1..]) >= 0 && Sum(sizes) == sizes[0] + Sum(sizes[1..])
    ensures sizes[0] >= 0 && (fixed[0] > 0 ==> sizes[0] == fixed[0]) && (fixed[0] < 0 ==> sizes[0] == 0)
  {
    assert forall k :: 0 <= k < |sizes| - 1 ==> sizes[1..][k] == sizes[k + 1] && fixed[1..][k] == fixed[k + 1];
    SumIsNonNegative(sizes[1..]);
  }

  lemma {:induction false} SumIsNonNegative(s: seq<int>)
    requires NonNegative(s)
    ensures Sum(s) >= 0
  {
    if s != [] {
      SumIsNonNegative(s[1..]);
    }
  }

  lemma RatioOfSame(size: nat, total: nat)
    requires total > 0 && size * total < UINT / 2
    ensures Ratio(size, total, total) == size
  {
    var p := size * total;
    assert size * (total - 1) >= 0 && p == size * (total - 1) + size;
    Quotient(p, total, size);
  }

  /** One step of the second pass over a column that keeps its size. */
  lemma RatioUnfolds(available: int, total: nat, fixed: seq<int>, sizes: seq<int>)
    requires |fixed| == |sizes| && sizes != [] && total > 0 && sizes[0] >= 0
    requires Ratio(sizes[0], total, total) == sizes[0] && (fixed[0] == 0 ==> sizes[0] <= available)
    ensures var rest := RatioPass(if fixed[0] == 0 then available - sizes[0] else available, total, total, fixed[1..], sizes[1..]);
      RatioPass(available, total, total, fixed, sizes) == Pass([sizes[0]] + rest.sizes, rest.left)
    ensures FlexSum(fixed, sizes) == (if fixed[0] == 0 then sizes[0] else 0) + FlexSum(fixed[1..], sizes[1..])
  {
  }

  lemma {:induction false} RatioLeaves(total: nat, fixed: seq<int>, sizes: seq<int>)
    requires Settled(fixed, sizes) && total > 0
    requires forall i :: 0 <= i < |sizes| ==> sizes[i] * total < UINT / 2
    ensures RatioPass(FlexSum(fixed, sizes), total, total, fixed, sizes) == Pass(sizes, 0)
    ensures FlexSum(fixed, sizes) >= 0
    decreases |sizes|
  {
    if sizes != [] {
      SettledRest(fixed, sizes);
      RatioOfSame(sizes[0], total);
      assert FlexSum(fixed, sizes) == (if fixed[0] == 0 then sizes[0] else 0) + FlexSum(fixed[1..], sizes[1..]);
      hide Ratio, Sum, Settled, RatioPass, FlexSum;
      RatioLeaves(total, fixed[1..], sizes[1..]);
      RatioUnfolds(FlexSum(fixed, sizes), total, fixed, sizes);
      assert [sizes[0]] + sizes[1..] == sizes;
    }
  }

  /** Resizing to the same total leaves columns alone that already fill it. */
  lemma SameTotalChangesNothing(total: nat, fixed: seq<int>, sizes: seq<int>)
    requires Settled(fixed, sizes) && 0 < Sum(sizes) == total < UINT / 2
    requires forall i :: 0 <= i < |sizes| ==> sizes[i] * total < UINT / 2
    ensures Adjusted(total, total, fixed, sizes) == sizes
  {
    FixedLeaves(total, fixed, sizes);
    RatioLeaves(total, fixed, sizes);
  }

  // ---------------------------------------------------------------- the passes in place

  ghost function Tail(s: seq<int>, i: nat): (r: seq<int>)
    requires i <= |s|
    ensures |r| == |s| - i
  {
    s[i..]
  }

  /** In place: the columns before i are done, the others are as they were. */
  ghost predicate Partly(s: seq<int>, done: seq<int>, was: seq<int>, i: nat)
  {
    |s| == |done| == |was| && i <= |s| && forall k :: 0 <= k < |s| ==> s[k] == if k < i then done[k] else was[k]
  }

  lemma PartlyStarts(done: seq<int>, was: seq<int>)
    requires |done| == |was|
    ensures Partly(was, done, was, 0)
  {
  }

  lemma PartlyStep(s: seq<int>, done: seq<int>, was: seq<int>, i: nat)
    requires Partly(s, done, was, i) && i < |s|
    ensures |s| == |done| == |was| && s[i] == was[i] && Partly(s[i := done[i]], done, was, i + 1)
  {
  }

  lemma PartlyEnds(s: seq<int>, done: seq<int>, was: seq<int>, i: nat)
    requires Partly(s, done, was, i) && forall k :: i <= k < |was| && k < |done| ==> done[k] == was[k]
    ensures s == done
  {
  }

  /** Shares out newTotal among the columns, in place. */
  method AdjustSizes(oldTotal: nat, newTotal: nat, sizes: array<int>, fixed: array<int>)
    requires sizes.Length == fixed.Length && sizes != fixed
    modifies sizes
    ensures sizes[..] == Adjusted(oldTotal, newTotal, fixed[..], old(sizes[..]))
  {
    var available := Signed(newTotal);
    available := AllotFixed(available, sizes, fixed);
    var empty: nat, flexible: nat;
    ghost var one := sizes[..];
    available, empty, flexible := AllotByRatio(available, oldTotal, newTotal, sizes, fixed);
    if available > 0 && empty > 0 {
      available := FillEmpty(available, empty, sizes, fixed);
    }
    assert Pass(sizes[..], available) == BeforeSpread(oldTotal, newTotal, fixed[..], old(sizes[..]));
    if available > 0 && flexible > 0 {
      Spread(available, flexible, sizes, fixed);
    }
  }

  lemma FixedStep(all: Pass, available: int, f: seq<int>, was: seq<int>, i: nat)
    requires i < |f| == |was| == |all.sizes|
    requires Pass(Tail(all.sizes, i), all.left) == FixedPass(available, Tail(f, i), Tail(was, i))
    ensures var given := if f[i] < 0 || available <= 0 then 0 else Min(available, f[i]);
      var next := FixedPass(if f[i] > 0 then available - given else available, Tail(f, i + 1), Tail(was, i + 1));
      && all.sizes[i] == (if f[i] == 0 then was[i] else given) && Pass(Tail(all.sizes, i + 1), all.left) == next
  {
    assert f[i..][1..] == Tail(f, i + 1) && was[i..][1..] == Tail(was, i + 1) && all.sizes[i..][1..] == Tail(all.sizes, i + 1);
    assert all.sizes[i..][0] == all.sizes[i];
  }

  lemma FixedEnds(all: Pass, available: int, f: seq<int>, was: seq<int>)
    requires |f| == |was| == |all.sizes|
    requires Pass(Tail(all.sizes, |f|), all.left) == FixedPass(available, Tail(f, |f|), Tail(was, |f|))
    ensures all.left == available
  {
  }

  method AllotFixed(total: int, sizes: array<int>, fixed: array<int>) returns (available: int)
    requires sizes.Length == fixed.Length && sizes != fixed
    modifies sizes
    ensures Pass(sizes[..], available) == FixedPass(total, fixed[..], old(sizes[..]))
  {
    available := total;
    ghost var was, f := sizes[..], fixed[..];
    ghost var all := FixedPass(total, f, was);
    assert f[0..] == f && was[0..] == was && all.sizes[0..] == all.sizes;
    PartlyStarts(all.sizes, was);
    hide Tail, FixedPass, Partly;
    for i := 0 to sizes.Length
      invariant fixed[..] == f && Partly(sizes[..], all.sizes, was, i)
      invariant Pass(Tail(all.sizes, i), all.left) == FixedPass(available, Tail(f, i), Tail(was, i))
    {
      ghost var s := sizes[..];
      FixedStep(all, available, f, was, i);
      PartlyStep(s, all.sizes, was, i);
      if fixed[i] < 0 {
        sizes[i] := 0;
      } else if fixed[i] > 0 {
        if available <= 0 {
          sizes[i] := 0;
        } else {
          sizes[i] := Min(available, fixed[i]);
          available := available - sizes[i];
        }
      }
      assert sizes[..] == s[i := all.sizes[i]];
    }
    FixedEnds(all, available, f, was);
    PartlyEnds(sizes[..], all.sizes, was, sizes.Length);
  }

  /** The columns before i are done: all holds what the pass makes of the rest, and the counts add up. */
  ghost predicate RatioAt(all: Pass, available: int, empty: nat, flexible: nat, oldTotal: nat, newTotal: nat,
                          f: seq<int>, was: seq<int>, i: nat)
  {
    && i <= |f| == |was| == |all.sizes|
    && Pass(Tail(all.sizes, i), all.left) == RatioPass(available, oldTotal, newTotal, Tail(f, i), Tail(was, i))
    && empty + Empty(Tail(f, i), Tail(was, i)) == Empty(f, was) && flexible + Flexible(Tail(f, i)) == Flexible(f)
  }

  lemma RatioStep(all: Pass, available: int, empty: nat, flexible: nat, oldTotal: nat, newTotal: nat, f: seq<int>,
                  was: seq<int>, i: nat)
    requires RatioAt(all, available, empty, flexible, oldTotal, newTotal, f, was, i) && i < |f| == |was| == |all.sizes|
    ensures var given := if f[i] != 0 || was[i] == 0 then was[i] else if available <= 0 || oldTotal == 0 then 0
                         else Min(Ratio(was[i], oldTotal, newTotal), available);
      && all.sizes[i] == given
      && RatioAt(all, if f[i] != 0 then available else available - given,
                 if f[i] == 0 && was[i] == 0 then empty + 1 else empty, if f[i] == 0 then flexible + 1 else flexible,
                 oldTotal, newTotal, f, was, i + 1)
  {
    assert Tail(f, i)[1..] == Tail(f, i + 1) && Tail(was, i)[1..] == Tail(was, i + 1);
    assert Tail(all.sizes, i)[1..] == Tail(all.sizes, i + 1) && Tail(all.sizes, i)[0] == all.sizes[i];
  }

  lemma RatioEnds(total: int, available: int, empty: nat, flexible: nat, oldTotal: nat, newTotal: nat,
                  f: seq<int>, was: seq<int>)
    requires |f| == |was|
    ensures RatioAt(RatioPass(total, oldTotal, newTotal, f, was), total, 0, 0, oldTotal, newTotal, f, was, 0)
    ensures var all := RatioPass(total, oldTotal, newTotal, f, was);
      RatioAt(all, available, empty, flexible, oldTotal, newTotal, f, was, |f|) ==>
        available == all.left && empty == Empty(f, was) && flexible == Flexible(f)
  {
    assert Tail(f, 0) == f && Tail(was, 0) == was;
    var all := RatioPass(total, oldTotal, newTotal, f, was);
    assert Tail(all.sizes, 0) == all.sizes;
  }

  method AllotByRatio(total: int, oldTotal: nat, newTotal: nat, sizes: array<int>, fixed: array<int>)
      returns (available: int, empty: nat, flexible: nat)
    requires sizes.Length == fixed.Length && sizes != fixed
    modifies sizes
    ensures Pass(sizes[..], available) == RatioPass(total, oldTotal, newTotal, fixed[..], old(sizes[..]))
    ensures empty == Empty(fixed[..], old(sizes[..])) && flexible == Flexible(fixed[..])
  {
    hide RatioAt, RatioPass, Ratio, Empty, Flexible;
    available, empty, flexible := total, 0, 0;
    ghost var was, f := sizes[..], fixed[..];
    ghost var all := RatioPass(total, oldTotal, newTotal, f, was);
    RatioEnds(total, total, 0, 0, oldTotal, newTotal, f, was);
    PartlyStarts(all.sizes, was);
    hide Partly;
    for i := 0 to sizes.Length
      invariant fixed[..] == f && Partly(sizes[..], all.sizes, was, i)
      invariant RatioAt(all, available, empty, flexible, oldTotal, newTotal, f, was, i)
    {
      ghost var s := sizes[..];
      RatioStep(all, available, empty, flexible, oldTotal, newTotal, f, was, i);
      PartlyStep(s, all.sizes, was, i);
      if fixed[i] == 0 {
        flexible := flexible + 1;
        var oldSize := sizes[i];
        if oldSize == 0 {
          empty := empty + 1;
        } else if available <= 0 || oldTotal == 0 {
          sizes[i] := 0;
        } else {
          sizes[i] := Min(Ratio(oldSize, oldTotal, newTotal), available);
        }
        available := available - sizes[i];
      }
      assert sizes[..] == s[i := all.sizes[i]];
    }
    RatioEnds(total, available, empty, flexible, oldTotal, newTotal, f, was);
    PartlyEnds(sizes[..], all.sizes, was, sizes.Length);
  }

  /** The columns before i are done, and all holds what the pass makes of the rest. */
  ghost predicate EmptyAt(all: Pass, available: int, empty: nat, part: int, f: seq<int>, was: seq<int>, i: nat)
  {
    && i <= |f| == |was| == |all.sizes|
    && Pass(Tail(all.sizes, i), all.left) == EmptyPass(available, empty, part, Tail(f, i), Tail(was, i))
  }

  lemma EmptyStarts(available: int, empty: nat, part: int, f: seq<int>, was: seq<int>)
    requires |f| == |was|
    ensures EmptyAt(EmptyPass(available, empty, part, f, was), available, empty, part, f, was, 0)
  {
    assert Tail(f, 0) == f && Tail(was, 0) == was;
    var all := EmptyPass(available, empty, part, f, was);
    assert Tail(all.sizes, 0) == all.sizes;
  }

  lemma EmptyStep(all: Pass, available: int, empty: nat, part: int, f: seq<int>, was: seq<int>, i: nat)
    requires EmptyAt(all, available, empty, part, f, was, i) && i < |f| && empty > 0 && available > 0
    ensures |f| == |was| == |all.sizes| && var given := was[i] == 0 && f[i] == 0;
      && all.sizes[i] == (if given then part else was[i])
      && EmptyAt(all, if given then available - part else available, if given then empty - 1 else empty, part, f, was, i + 1)
  {
    assert Tail(f, i)[1..] == Tail(f, i + 1) && Tail(was, i)[1..] == Tail(was, i + 1);
    assert Tail(all.sizes, i)[1..] == Tail(all.sizes, i + 1) && Tail(all.sizes, i)[0] == all.sizes[i];
  }

  method EqualPart(available: int, n: nat) returns (newSize: int)
    requires available > 0 && n > 0
    ensures newSize == Part(available, n)
  {
    newSize := available / n;
    if newSize <= 0 {
      newSize := 1;
    }
  }

  method FillEmpty(total: int, emptyCount: nat, sizes: array<int>, fixed: array<int>) returns (available: int)
    requires sizes.Length == fixed.Length && sizes != fixed && total > 0 && emptyCount > 0
    modifies sizes
    ensures Pass(sizes[..], available) == EmptyPass(total, emptyCount, Part(total, emptyCount), fixed[..], old(sizes[..]))
  {
    hide Part;
    available := total;
    var empty, i := emptyCount, 0;
    var newSize := EqualPart(total, emptyCount);
    ghost var was, f := sizes[..], fixed[..];
    ghost var all := EmptyPass(total, emptyCount, newSize, f, was);
    EmptyStarts(total, emptyCount, newSize, f, was);
    PartlyStarts(all.sizes, was);
    hide EmptyAt, EmptyPass, Partly;
    while i < sizes.Length && empty > 0
      invariant 0 <= i <= sizes.Length && available > 0
      invariant fixed[..] == f && Partly(sizes[..], all.sizes, was, i)
      invariant EmptyAt(all, available, empty, newSize, f, was, i)
    {
      ghost var s := sizes[..];
      EmptyStep(all, available, empty, newSize, f, was, i);
      PartlyStep(s, all.sizes, was, i);
      i := i + 1;
      if sizes[i - 1] == 0 && fixed[i - 1] == 0 {
        sizes[i - 1] := newSize;
        empty := empty - 1;
        available := available - newSize;
        assert sizes[..] == s[i - 1 := all.sizes[i - 1]];
        if available <= 0 {
          break;
        }
      }
      assert sizes[..] == s[i - 1 := all.sizes[i - 1]];
    }
    EmptyStops(all, available, empty, newSize, f, was, i);
    PartlyEnds(sizes[..], all.sizes, was, i);
  }

  lemma EmptyStops(all: Pass, available: int, empty: nat, part: int, f: seq<int>, was: seq<int>, i: nat)
    requires EmptyAt(all, available, empty, part, f, was, i) && (i == |f| || empty == 0 || available <= 0)
    ensures all.left == available && |f| == |was| == |all.sizes| && forall k :: i <= k < |f| ==> all.sizes[k] == was[k]
  {
    assert forall k :: i <= k < |f| ==> all.sizes[k] == Tail(all.sizes, i)[k - i] && was[k] == Tail(was, i)[k - i];
  }

  ghost predicate SpreadAt(all: seq<int>, available: int, flexible: nat, part: int, f: seq<int>, was: seq<int>, i: nat)
  {
    i <= |f| == |was| == |all| && Tail(all, i) == SpreadPass(available, flexible, part, Tail(f, i), Tail(was, i))
  }

  lemma SpreadStarts(available: int, flexible: nat, part: int, f: seq<int>, was: seq<int>)
    requires |f| == |was|
    ensures SpreadAt(SpreadPass(available, flexible, part, f, was), available, flexible, part, f, was, 0)
  {
    assert Tail(f, 0) == f && Tail(was, 0) == was;
    var all := SpreadPass(available, flexible, part, f, was);
    assert Tail(all, 0) == all;
  }

  lemma SpreadStep(all: seq<int>, available: int, flexible: nat, part: int, f: seq<int>, was: seq<int>, i: nat)
    requires SpreadAt(all, available, flexible, part, f, was, i) && i < |f| && flexible > 0
    ensures |f| == |was| == |all|
    ensures all[i] == was[i] + if f[i] != 0 then 0 else if flexible == 1 then available else part
    ensures f[i] == 0 ==> SpreadAt(all, available - part, flexible - 1, part, f, was, i + 1)
    ensures f[i] != 0 ==> SpreadAt(all, available, flexible, part, f, was, i + 1)
  {
    assert Tail(f, i)[1..] == Tail(f, i + 1) && Tail(was, i)[1..] == Tail(was, i + 1);
    assert Tail(all, i)[1..] == Tail(all, i + 1) && Tail(all, i)[0] == all[i];
  }

  method Spread(total: int, count: nat, sizes: array<int>, fixed: array<int>)
    requires sizes.Length == fixed.Length && sizes != fixed && total > 0 && count > 0
    modifies sizes
    ensures sizes[..] == SpreadPass(total, count, Part(total, count), fixed[..], old(sizes[..]))
  {
    hide Part;
    var available, flexible, i := total, count, 0;
    var newSize := EqualPart(total, count);
    ghost var was, f := sizes[..], fixed[..];
    ghost var all := SpreadPass(total, count, newSize, f, was);
    SpreadStarts(total, count, newSize, f, was);
    PartlyStarts(all, was);
    hide SpreadAt, SpreadPass, Partly;
    while i < sizes.Length && flexible > 0
      invariant 0 <= i <= sizes.Length
      invariant fixed[..] == f && Partly(sizes[..], all, was, i)
      invariant SpreadAt(all, available, flexible, newSize, f, was, i)
    {
      ghost var s := sizes[..];
      SpreadStep(all, available, flexible, newSize, f, was, i);
      PartlyStep(s, all, was, i);
      if fixed[i] == 0 {
        if flexible == 1 {
          sizes[i] := sizes[i] + available;
        } else {
          sizes[i] := sizes[i] + newSize;
        }
        available := available - newSize;
        flexible := flexible - 1;
      }
      assert sizes[..] == s[i := all[i]];
      i := i + 1;
    }
    SpreadStops(all, available, flexible, newSize, f, was, i);
    PartlyEnds(sizes[..], all, was, i);
  }

  lemma SpreadStops(all: seq<int>, available: int, flexible: nat, part: int, f: seq<int>, was: seq<int>, i: nat)
    requires SpreadAt(all, available, flexible, part, f, was, i) && (i == |f| || flexible == 0)
    ensures |f| == |was| == |all| && forall k :: i <= k < |f| ==> all[k] == was[k]
  {
    assert forall k :: i <= k < |f| ==> all[k] == Tail(all, i)[k - i] && was[k] == Tail(was, i)[k - i];
  }
}
