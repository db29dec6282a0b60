/** Narrowing a glyph in place (libAfterImage/asfont_glyph.c): the columns of each row fall into as many
    groups as the new width, by an error that is carried along, and each group becomes its mean. */
module GlyphScale {
  import opened Common
  import opened Arithmetic

  // ---------------------------------------------------------------- groups of columns

  /** The group that column i falls into when from columns become to. */
  function Group(i: nat, from: nat, to: nat): nat
    requires from > 0
  {
    i * to / from
  }

  /** The columns before n in group k, and what they add up to. */
  ghost function Members(from: nat, to: nat, k: int, n: nat): nat
    requires from > 0
  {
    if n == 0 then 0 else Members(from, to, k, n - 1) + if Group(n - 1, from, to) == k then 1 else 0
  }

  ghost function Total(row: seq<Byte>, to: nat, k: int, n: nat): nat
    requires n <= |row|
  {
    if n == 0 then 0 else Total(row, to, k, n - 1) + if Group(n - 1, |row|, to) == k then row[n - 1] else 0
  }

  lemma {:induction false} TotalBound(row: seq<Byte>, to: nat, k: int, n: nat)
    requires n <= |row| && |row| > 0
    ensures Total(row, to, k, n) <= 255 * Members(|row|, to, k, n)
  {
    if n > 0 {
      TotalBound(row, to, k, n - 1);
    }
  }

  /** The mean of group k, rounded down. */
  ghost function Mean(row: seq<Byte>, to: nat, k: int): Byte
    requires |row| > 0
  {
    var n := Members(|row|, to, k, |row|);
    TotalBound(row, to, k, |row|);
    if n == 0 then 0 else MeanBound(Total(row, to, k, |row|), n, 255); Total(row, to, k, |row|) / n
  }

  ghost function ScaledRow(row: seq<Byte>, to: nat): (r: seq<Byte>)
    requires |row| > 0
    ensures |r| == to
  {
    seq(to, k => Mean(row, to, k))
  }

  // ---------------------------------------------------------------- the error that is carried along

  /** After i columns and k groups, the error lies within half a row's width. */
  ghost predicate Balanced(i: nat, k: nat, eps: int, from: nat, to: nat)
  {
    eps == i * to - k * from - from / 2 && -(from / 2) <= eps && 2 * eps < from
  }

  /** The error tells exactly when a group closes. */
  lemma ClosesGroup(i: nat, k: nat, eps: int, from: nat, to: nat)
    requires 1 <= to <= from && Balanced(i, k, eps, from, to)
    ensures Group(i, from, to) == k
    ensures if 2 * (eps + to) >= from then Balanced(i + 1, k + 1, eps + to - from, from, to)
            else Balanced(i + 1, k, eps + to, from, to)
  {
    assert (i + 1) * to == i * to + to && (k + 1) * from == k * from + from;
    assert 0 <= i * to - k * from < from;
    Quotient(i * to, from, k);
  }

  /** The last column closes the last group. */
  lemma EndsBalanced(k: nat, eps: int, from: nat, to: nat)
    requires 1 <= to <= from && Balanced(from, k, eps, from, to)
    ensures k == to
  {
    ClosesGroup(from, k, eps, from, to);
    assert from * to == to * from;
    Quotient(from * to, from, to);
  }

  /** The groups are consecutive: from one column to the next, the same or the next group. */
  lemma GroupStep(i: nat, from: nat, to: nat)
    requires 1 <= to <= from
    ensures Group(i + 1, from, to) == Group(i, from, to) || Group(i + 1, from, to) == Group(i, from, to) + 1
  {
    var q, r := i * to / from, i * to % from;
    assert i * to == q * from + r && (i + 1) * to == i * to + to && (q + 1) * from == q * from + from;
    Quotient((i + 1) * to, from, if r + to < from then q else q + 1);
  }

  /** There are exactly to groups. */
  lemma GroupEnds(from: nat, to: nat)
    requires 1 <= to <= from
    ensures Group(0, from, to) == 0 && Group(from, from, to) == to
  {
    assert from * to == to * from;
    Quotient(0, from, 0);
    Quotient(from * to, from, to);
  }

  lemma {:induction false} GroupWithin(i: nat, from: nat, to: nat)
    requires 1 <= to <= from
    ensures Group(i, from, to) <= i
  {
    if i == 0 {
      GroupEnds(from, to);
    } else {
      GroupWithin(i - 1, from, to);
      GroupStep(i - 1, from, to);
    }
  }

  /** Every column before the end falls into one of the to groups. */
  lemma GroupExists(i: nat, from: nat, to: nat)
    requires 1 <= to <= from && i < from
    ensures Group(i, from, to) < to
  {
    var q, r := i * to / from, i * to % from;
    assert i * to == q * from + r && from * to == to * from;
    assert (i - from) * to == i * to - from * to && (q - to) * from == q * from - to * from;
    Multiples(i - from, to);
    Multiples(q - to, from);
  }

  lemma {:induction false} GroupsAscend(i: nat, j: nat, from: nat, to: nat)
    requires 1 <= to <= from && i <= j
    ensures Group(i, from, to) <= Group(j, from, to)
    decreases j
  {
    if i < j {
      GroupStep(j - 1, from, to);
      GroupsAscend(i, j - 1, from, to);
    }
  }

  /** Columns outside group k add nothing to it. */
  lemma {:induction false} NothingOutside(row: seq<Byte>, to: nat, k: int, m: nat, n: nat)
    requires m <= n <= |row| && |row| > 0
    requires forall i :: m <= i < n ==> Group(i, |row|, to) != k
    ensures Total(row, to, k, n) == Total(row, to, k, m) && Members(|row|, to, k, n) == Members(|row|, to, k, m)
  {
    if m < n {
      NothingOutside(row, to, k, m, n - 1);
    }
  }

  /** When column i is the last of its group, the group's sum is complete and the next one is empty so far. */
  lemma GroupComplete(row: seq<Byte>, to: nat, k: nat, i: nat)
    requires 1 <= to <= |row| && i < |row| && Group(i, |row|, to) == k && Group(i + 1, |row|, to) == k + 1
    ensures var from := |row|;
      && Total(row, to, k, i + 1) == Total(row, to, k, from) && Members(from, to, k, i + 1) == Members(from, to, k, from)
      && Total(row, to, k + 1, i + 1) == 0 && Members(from, to, k + 1, i + 1) == 0
  {
    var from := |row|;
    forall j | i + 1 <= j < from ensures Group(j, from, to) != k {
      GroupsAscend(i + 1, j, from, to);
    }
    forall j | 0 <= j < i + 1 ensures Group(j, from, to) != k + 1 {
      GroupsAscend(j, i, from, to);
    }
    NothingOutside(row, to, k, i + 1, from);
    NothingOutside(row, to, k + 1, 0, i + 1);
  }

  /** Every group has a member, and every column is a member of one of the first to groups. */
  lemma {:induction false} GroupsAreFilled(from: nat, to: nat, n: nat, k: nat)
    requires 1 <= to <= from && 0 < n <= from && k < Group(n, from, to)
    ensures Members(from, to, k, n) > 0
    decreases n
  {
    GroupEnds(from, to);
    GroupStep(n - 1, from, to);
    if k < Group(n - 1, from, to) && n > 1 {
      GroupsAreFilled(from, to, n - 1, k);
    }
  }

  // ---------------------------------------------------------------- what a scaled row shows

  /** What the pixels of a stretch add up to. */
  ghost function Sum(s: seq<Byte>): nat {
    if s == [] then 0 else Sum(s[..|s| - 1]) + s[|s| - 1]
  }

  /** The first column that lies k rows' widths or more from the left, when each column counts for to. */
  ghost function First(k: nat, from: nat, to: nat): nat
    requires to > 0
  {
    (k * from + to - 1) / to
  }

  lemma FirstReaches(i: nat, k: nat, from: nat, to: nat)
    requires to > 0
    ensures First(k, from, to) <= i <==> k * from <= i * to
  {
    var q, r := First(k, from, to), (k * from + to - 1) % to;
    assert k * from + to - 1 == q * to + r && (i - q) * to == i * to - q * to;
    Multiples(i - q, to);
  }

  /** A group is the stretch of columns from its first one to the first one of the next group. */
  lemma GroupIsStretch(i: nat, k: nat, from: nat, to: nat)
    requires 1 <= to <= from
    ensures Group(i, from, to) == k <==> First(k, from, to) <= i < First(k + 1, from, to)
  {
    hide First;
    FirstReaches(i, k, from, to);
    FirstReaches(i, k + 1, from, to);
    QuotientReaches(i * to, from, k);
    QuotientReaches(i * to, from, k + 1);
  }

  lemma {:induction false} StretchAddsUp(row: seq<Byte>, to: nat, k: nat, n: nat)
    requires 1 <= to <= |row| && First(k, |row|, to) <= n <= First(k + 1, |row|, to) && n <= |row|
    ensures var lo := First(k, |row|, to);
      Total(row, to, k, n) == Sum(row[lo..n]) && Members(|row|, to, k, n) == n - lo
    decreases n
  {
    hide Group;
    var lo := First(k, |row|, to);
    if n == lo {
      forall i | 0 <= i < n ensures Group(i, |row|, to) != k {
        GroupIsStretch(i, k, |row|, to);
      }
      NothingOutside(row, to, k, 0, n);
    } else {
      StretchAddsUp(row, to, k, n - 1);
      GroupIsStretch(n - 1, k, |row|, to);
      assert row[lo..n][..n - 1 - lo] == row[lo..n - 1];
    }
  }

  /** Every pixel of a scaled row is the mean, rounded down, of the stretch of the row that lies over it: from column
      k * from / to, rounded up, to the one before (k + 1) * from / to, rounded up. */
  lemma PixelIsMeanOfStretch(row: seq<Byte>, to: nat, k: nat)
    requires 1 <= to <= |row| && k < to
    ensures var lo, hi := (k * |row| + to - 1) / to, ((k + 1) * |row| + to - 1) / to;
      lo < hi <= |row| && ScaledRow(row, to)[k] == Sum(row[lo..hi]) / (hi - lo)
  {
    hide Group;
    var from := |row|;
    var lo, hi := First(k, from, to), First(k + 1, from, to);
    assert (k + 1) * from == k * from + from && from * to == to * from;
    ProductsAscend(k + 1, to, from);
    FirstReaches(from, k + 1, from, to);
    StretchFilled(row, to, k);
    forall i | hi <= i < from ensures Group(i, from, to) != k {
      GroupIsStretch(i, k, from, to);
    }
    StretchAddsUp(row, to, k, hi);
    NothingOutside(row, to, k, hi, from);
  }

  /** Each group starts before the next one. */
  lemma StretchFilled(row: seq<Byte>, to: nat, k: nat)
    requires 1 <= to <= |row|
    ensures First(k, |row|, to) < First(k + 1, |row|, to)
  {
    var from := |row|;
    var q, r := First(k, from, to), (k * from + to - 1) % to;
    assert k * from + to - 1 == q * to + r && (k + 1) * from == k * from + from;
    FirstReaches(q, k + 1, from, to);
  }

  // ---------------------------------------------------------------- one row in place

  /** The row at base, before column i: k groups are done, and the sum and count of the next are running. */
  ghost predicate Scaling(row: seq<Byte>, to: nat, i: nat, k: nat, sum: int, count: int, eps: int)
  {
    && i <= |row| && 1 <= to <= |row| && Balanced(i, k, eps, |row|, to)
    && sum == Total(row, to, k, i) && count == Members(|row|, to, k, i)
  }

  lemma ScalingStarts(row: seq<Byte>, to: nat)
    requires 1 <= to <= |row|
    ensures Scaling(row, to, 0, 0, 0, 0, -(|row| / 2))
  {
  }

  lemma ScalingStep(row: seq<Byte>, to: nat, i: nat, k: nat, sum: int, count: int, eps: int)
    requires Scaling(row, to, i, k, sum, count, eps) && i < |row|
    ensures k <= i && k < to && count + 1 >= 1
    ensures if 2 * (eps + to) >= |row|
      then sum + row[i] >= 0 && Mean(row, to, k) == (sum + row[i]) / (count + 1)
           && Scaling(row, to, i + 1, k + 1, 0, 0, eps + to - |row|)
      else Scaling(row, to, i + 1, k, sum + row[i], count + 1, eps + to)
  {
    ClosesGroup(i, k, eps, |row|, to);
    GroupWithin(i, |row|, to);
    GroupExists(i, |row|, to);
    if 2 * (eps + to) >= |row| {
      ClosesGroup(i + 1, k + 1, eps + to - |row|, |row|, to);
      GroupComplete(row, to, k, i);
    }
  }

  /** Scales one row of the buffer where it stands. */
  method ScaleRow(buffer: array<Byte>, base: nat, from: nat, to: nat)
    requires base + from <= buffer.Length && 1 <= to <= from
    modifies buffer
    ensures buffer[base..base + to] == ScaledRow(old(buffer[base..base + from]), to)
    ensures forall j :: 0 <= j < buffer.Length && !(base <= j < base + from) ==> buffer[j] == old(buffer[j])
  {
    hide Scaling, Mean;
    ghost var row := buffer[base..base + from];
    var sum: int, count: int, eps: int, k: nat := 0, 0, -(from / 2), 0;
    ScalingStarts(row, to);
    for i := 0 to from
      invariant 0 <= k && Scaling(row, to, i, k, sum, count, eps)
      invariant forall j :: i <= j < from ==> buffer[base + j] == row[j]
      invariant forall j :: 0 <= j < k && j < from ==> buffer[base + j] == Mean(row, to, j)
      invariant forall j :: 0 <= j < buffer.Length && !(base <= j < base + from) ==> buffer[j] == old(buffer[j])
    {
      ScalingStep(row, to, i, k, sum, count, eps);
      sum := sum + buffer[base + i];
      count := count + 1;
      eps := eps + to;
      if eps + eps >= from {
        var mean: Byte := if count > 1 then sum / count else sum;
        buffer[base + k] := mean;
        sum, count, k, eps := 0, 0, k + 1, eps - from;
      }
    }
    ScalingEnds(row, to, k, sum, count, eps);
  }

  lemma ScalingEnds(row: seq<Byte>, to: nat, k: nat, sum: int, count: int, eps: int)
    requires Scaling(row, to, |row|, k, sum, count, eps)
    ensures k == to
  {
    EndsBalanced(k, eps, |row|, to);
  }

  // ---------------------------------------------------------------- the whole picture

  /** Where row r starts, when rows lie stride bytes apart. */
  ghost function Start(r: int, stride: nat): int
  {
    r * stride
  }

  /** The first w bytes of row r, when rows lie stride bytes apart. */
  ghost function Strip(s: seq<Byte>, stride: nat, w: nat, r: int): seq<Byte>
  {
    var i := Start(r, stride);
    if 0 <= i && i + w <= |s| then s[i..i + w] else []
  }

  lemma RowsApart(stride: nat, r: int, q: int)
    ensures r < q ==> Start(r, stride) + stride <= Start(q, stride)
    ensures 0 <= r ==> 0 <= Start(r, stride)
    ensures Start(0, stride) == 0 && Start(r + 1, stride) == Start(r, stride) + stride
  {
    assert (r + 1) * stride == r * stride + stride;
    if r < q {
      ProductsAscend(r + 1, q, stride);
    }
    if 0 <= r {
      ProductsAscend(0, r, stride);
    }
  }

  /** Copies a stretch of the buffer further to the front. */
  method CopyRow(buffer: array<Byte>, l: nat, k: nat, to: nat)
    requires l <= k && k + to <= buffer.Length
    modifies buffer
    ensures buffer[l..l + to] == old(buffer[k..k + to])
    ensures forall j :: 0 <= j < buffer.Length && !(l <= j < l + to) ==> buffer[j] == old(buffer[j])
  {
    ghost var was := buffer[..];
    for i := 0 to to
      invariant buffer[l..l + i] == was[k..k + i]
      invariant forall j :: 0 <= j < buffer.Length && !(l <= j < l + i) ==> buffer[j] == was[j]
    {
      buffer[l + i] := buffer[k + i];
    }
  }

  /** Rows before n are scaled, the later ones are as they were; all still from bytes apart. */
  ghost predicate Scaled(s: seq<Byte>, was: seq<Byte>, from: nat, to: nat, height: nat, n: nat)
  {
    && |s| == |was| >= Start(height, from) && 1 <= to <= from
    && (forall r :: 0 <= r < height ==> |Strip(was, from, from, r)| == from)
    && (forall r :: 0 <= r < n && r < height ==> Strip(s, from, to, r) == ScaledRow(Strip(was, from, from, r), to))
    && (forall r :: n <= r < height ==> Strip(s, from, from, r) == Strip(was, from, from, r))
  }

  /** All rows are scaled; those before n stand to bytes apart, the later ones still from bytes apart. */
  ghost predicate Packed(s: seq<Byte>, was: seq<Byte>, from: nat, to: nat, height: nat, n: nat)
  {
    && |s| == |was| >= Start(height, from) && 1 <= to <= from
    && (forall r :: 0 <= r < height ==> |Strip(was, from, from, r)| == from)
    && (forall r :: 0 <= r < height ==>
         Strip(s, if r < n then to else from, to, r) == ScaledRow(Strip(was, from, from, r), to))
  }

  lemma ScalingBegins(s: seq<Byte>, from: nat, to: nat, height: nat)
    requires 1 <= to <= from && |s| >= Start(height, from)
    ensures Scaled(s, s, from, to, height, 0)
  {
    forall r | 0 <= r < height ensures |Strip(s, from, from, r)| == from {
      RowsApart(from, r, height);
    }
  }

  /** The bytes outside lo..hi are the same in both. */
  ghost predicate SameOutside(s: seq<Byte>, t: seq<Byte>, lo: int, hi: int)
  {
    |s| == |t| && forall j :: 0 <= j < |s| && !(lo <= j < hi) ==> t[j] == s[j]
  }

  lemma StripStays(s: seq<Byte>, t: seq<Byte>, lo: int, hi: int, stride: nat, w: nat, r: int)
    requires SameOutside(s, t, lo, hi) && (Start(r, stride) + w <= lo || hi <= Start(r, stride))
    ensures Strip(t, stride, w, r) == Strip(s, stride, w, r)
  {
    hide Start;
  }

  lemma OneStrip(s: seq<Byte>, stride: nat, w: nat, r: int)
    ensures var i := Start(r, stride);
      0 <= i && i + w <= |s| ==> Strip(s, stride, w, r) == s[i..i + w]
  {
  }

  lemma RowScaled(s: seq<Byte>, t: seq<Byte>, was: seq<Byte>, from: nat, to: nat, height: nat, n: nat)
    requires Scaled(s, was, from, to, height, n) && n < height && |s| == |t|
    requires 0 <= Start(n, from) && Start(n, from) + from <= |s|
    requires t[Start(n, from)..Start(n, from) + to] == ScaledRow(s[Start(n, from)..Start(n, from) + from], to)
    requires SameOutside(s, t, Start(n, from), Start(n, from) + from)
    ensures Scaled(t, was, from, to, height, n + 1)
  {
    hide Start, ScaledRow, SameOutside, Strip;
    OneStrip(s, from, from, n);
    OneStrip(t, from, to, n);
    forall r | 0 <= r < height && r != n
      ensures r < n ==> Strip(t, from, to, r) == Strip(s, from, to, r)
      ensures r > n ==> Strip(t, from, from, r) == Strip(s, from, from, r)
    {
      RowsApart(from, r, n);
      RowsApart(from, n, r);
      StripStays(s, t, Start(n, from), Start(n, from) + from, from, if r < n then to else from, r);
    }
  }

  lemma PackingBegins(s: seq<Byte>, was: seq<Byte>, from: nat, to: nat, height: nat)
    requires Scaled(s, was, from, to, height, height)
    ensures Packed(s, was, from, to, height, 1)
  {
    RowsApart(from, 0, 0);
    RowsApart(to, 0, 0);
  }

  lemma RowPacked(s: seq<Byte>, t: seq<Byte>, was: seq<Byte>, from: nat, to: nat, height: nat, n: nat)
    requires Packed(s, was, from, to, height, n) && n < height && |s| == |t|
    requires 0 <= Start(n, to) <= Start(n, from) && Start(n, from) + to <= |s|
    requires t[Start(n, to)..Start(n, to) + to] == s[Start(n, from)..Start(n, from) + to]
    requires SameOutside(s, t, Start(n, to), Start(n, to) + to)
    ensures Packed(t, was, from, to, height, n + 1)
  {
    hide Start, ScaledRow, SameOutside, Strip;
    OneStrip(s, from, to, n);
    OneStrip(t, to, to, n);
    forall r | 0 <= r < height && r != n
      ensures r < n ==> Strip(t, to, to, r) == Strip(s, to, to, r)
      ensures r > n ==> Strip(t, from, to, r) == Strip(s, from, to, r)
    {
      RowsApart(to, r, n);
      RowsApart(from, n, r);
      StripStays(s, t, Start(n, to), Start(n, to) + to, if r < n then to else from, to, r);
    }
  }

  /** Scales every row where it stands, then packs the rows together. */
  method ScaleDown(buffer: array<Byte>, from: nat, to: nat, height: nat)
    requires 1 <= to <= from && 2 <= height && buffer.Length >= height * from
    modifies buffer
    ensures forall r :: 0 <= r < height ==> |Strip(old(buffer[..]), from, from, r)| == from
    ensures forall r :: 0 <= r < height ==>
      Strip(buffer[..], to, to, r) == ScaledRow(Strip(old(buffer[..]), from, from, r), to)
  {
    hide ScaledRow, Strip;
    ScaleRows(buffer, from, to, height);
    PackRows(buffer, from, to, height, old(buffer[..]));
  }

  method ScaleRows(buffer: array<Byte>, from: nat, to: nat, height: nat)
    requires 1 <= to <= from && buffer.Length >= Start(height, from)
    modifies buffer
    ensures Scaled(buffer[..], old(buffer[..]), from, to, height, height)
  {
    hide Scaled, ScaledRow, Strip;
    ghost var was := buffer[..];
    ScalingBegins(was, from, to, height);
    for l := 0 to height
      invariant Scaled(buffer[..], was, from, to, height, l)
    {
      RowsApart(from, l, height);
      ghost var before := buffer[..];
      ScaleRow(buffer, l * from, from, to);
      RowScaled(before, buffer[..], was, from, to, height, l);
    }
  }

  method PackRows(buffer: array<Byte>, from: nat, to: nat, height: nat, ghost was: seq<Byte>)
    requires 2 <= height && Scaled(buffer[..], was, from, to, height, height)
    requires 1 <= to <= from && buffer.Length >= Start(height, from)
    modifies buffer
    ensures Packed(buffer[..], was, from, to, height, height)
  {
    hide Scaled, Packed, ScaledRow, Strip, Start;
    PackingBegins(buffer[..], was, from, to, height);
    var l: nat, k: nat := to, from;
    ghost var n := 1;
    RowsApart(to, 0, 1);
    RowsApart(from, 0, 1);
    while true
      invariant 1 <= n < height && l == Start(n, to) && k == Start(n, from) && Packed(buffer[..], was, from, to, height, n)
      decreases height - n
    {
      RowsApart(from, n, height);
      RowsInOrder(from, to, n);
      ghost var before := buffer[..];
      CopyRow(buffer, l, k, to);
      RowPacked(before, buffer[..], was, from, to, height, n);
      RowsApart(from, n, n);
      LastRow(to, n, height);
      l, k, n := l + to, k + from, n + 1;
      if l >= to * height {
        break;
      }
    }
  }

  lemma RowsInOrder(from: nat, to: nat, n: nat)
    requires to <= from
    ensures Start(n, to) <= Start(n, from)
  {
    assert n * to == to * n && n * from == from * n;
    ProductsAscend(to, from, n);
  }

  lemma LastRow(w: nat, n: nat, height: nat)
    requires n < height && w > 0
    ensures Start(n + 1, w) == Start(n, w) + w && (Start(n + 1, w) >= w * height <==> n + 1 == height)
  {
    assert (height - n - 1) * w == w * height - n * w - w && (n + 1) * w == n * w + w;
    Multiples(height - n - 1, w);
  }
}