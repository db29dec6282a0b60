/** When the matcher (libAfterBase/regexp.c) finds every text of the pattern it searches for: the skip table does no
    harm to a row in which no character fits two symbols. */
module MatchComplete {
  import opened Common
  import opened CharClass
  import opened PatternLanguage
  import opened CompiledPattern
  import opened MatchAnswer
  import opened MatchMeaning

  // ---------------------------------------------------------------- conditions on the pattern

  /** Some character fits two symbols of the row. */
  ghost predicate Repeats(syms: seq<Sym>)
  {
    exists a, b, c: Byte :: a < b && Fits(syms, a, c) && Fits(syms, b, c)
  }

  ghost predicate Fits(syms: seq<Sym>, k: int, c: Byte)
  {
    0 <= k < |syms| && Has(syms[k].code, c)
  }

  /** The matcher looks for the row of part i from left to right: its place is settled by neither side. */
  ghost predicate Movable(pat: Pattern, l: nat, i: nat)
  {
    && Reached(pat, l, i) && l <= i < |pat| && pat[i].syms != [] && Stars(pat[i + 1..]) > 0
    && if i == l then Stars(pat[..l + 1]) > 0 else pat[i].lead < 0
  }

  /** A row that is looked at, with a '*' in front of it, stands left of part i. */
  ghost predicate RowBefore(pat: Pattern, l: nat, i: nat)
  {
    exists k :: 0 <= k < |pat| && RowAfterStar(pat, l, i, k)
  }

  ghost predicate RowAfterStar(pat: Pattern, l: nat, i: nat, k: nat)
  {
    Reached(pat, l, k) && k < i && k < |pat| && pat[k].syms != [] && Stars(pat[..k + 1]) > 0
  }

  /** Any row that comes after part i has a '*' between. */
  ghost predicate StarFollows(pat: Pattern, l: nat, i: nat)
  {
    forall k :: i < k < |pat| && Reached(pat, l, k) && pat[k].syms != [] ==> Stars(pat[i + 1..k + 1]) > 0
  }

  /** No other row stands at a fixed distance from a movable one. */
  ghost predicate Loose(pat: Pattern, l: nat, i: nat)
  {
    StarFollows(pat, l, i) && (i == l < |pat| && pat[l].lead >= 0 ==> !RowBefore(pat, l, l))
  }

  ghost predicate AllLoose(pat: Pattern)
    requires pat != []
  {
    forall i :: 0 <= i < |pat| && Movable(pat, Longest(pat), i) ==> Loose(pat, Longest(pat), i)
  }

  /** No character fits two symbols of a movable row. */
  ghost predicate NoneRepeats(pat: Pattern)
    requires pat != []
  {
    forall i :: 0 <= i < |pat| && Movable(pat, Longest(pat), i) ==> !Repeats(pat[i].syms)
  }

  /** Some row up to the longest part loses the '*' in front of it, and with it the freedom to stand further off the
      row before. */
  ghost predicate Cut(pat: Pattern)
    requires pat != []
  {
    exists i :: 0 <= i < |pat| && CutAt(pat, Longest(pat), i)
  }

  ghost predicate CutAt(pat: Pattern, l: nat, i: nat)
  {
    Reached(pat, l, i) && i <= l < |pat| && pat[i].lead < 0 && pat[i].syms != [] && RowBefore(pat, l, i)
  }

  // ---------------------------------------------------------------- skips

  /** Where the comparison of a row has stopped, everything to the right has fitted. */
  lemma {:induction false} RowStopIs(syms: seq<Sym>, s: Text, start: int, offset: int)
    requires 0 <= start && start - 1 <= offset < start + |syms| && offset < |s|
    ensures var stop := RowStop(syms, s, start, offset);
      && (forall k :: stop < k <= offset ==> Hit(syms[k - start], s[k]))
      && (stop >= start ==> !Hit(syms[stop - start], s[stop]))
    decreases offset - start
  {
    if offset >= start && Hit(syms[offset - start], s[offset]) {
      RowStopIs(syms, s, start, offset - 1);
    }
  }

  lemma {:induction false} SkipForIs(codes: seq<Code>, n: nat, c: Byte, j: nat)
    requires n <= |codes| && j < n && Has(codes[j], c)
    ensures var r := SkipFor(codes, n, c); j <= r < n && Has(codes[r], c)
  {
    if !Has(codes[n - 1], c) {
      SkipForIs(codes, n - 1, c, j);
    }
  }

  lemma FitsOnce(syms: seq<Sym>, c: Byte, a: int, b: int)
    requires Fits(syms, a, c) && Fits(syms, b, c) && !Repeats(syms)
    ensures a == b
  {
  }

  /** The entry of the skip table for a character that fits only one symbol of the row. */
  lemma SkipForOne(syms: seq<Sym>, c: Byte, j: nat)
    requires j < |syms| && Fits(syms, |syms| - 1 - j, c) && !Repeats(syms)
    ensures SkipFor(BackwardCodes(syms), |syms|, c) == j
  {
    hide Repeats;
    var codes := BackwardCodes(syms);
    SkipForIs(codes, |syms|, c, j);
    FitsOnce(syms, c, |syms| - 1 - SkipFor(codes, |syms|, c), |syms| - 1 - j);
  }

  lemma SkipIs(syms: seq<Sym>, s: Text, start: int)
    requires 0 <= start && start + |syms| <= |s| && syms != [] && !RowHits(syms, s, start)
    ensures var pos := start + |syms| - 1;
      var stop := RowStop(syms, s, start, pos);
      && start <= stop <= pos && (forall k :: stop < k <= pos ==> Hit(syms[k - start], s[k]))
      && Skip(syms, s, start) == Max(pos - stop + 1, SkipFor(BackwardCodes(syms), |syms|, s[stop]))
  {
    var pos := start + |syms| - 1;
    RowStopIs(syms, s, start, pos);
    RowStopTells(syms, s, start, pos);
    AllHit(syms, s, start);
  }

  lemma AllHit(syms: seq<Sym>, s: Text, start: int)
    requires 0 <= start && start + |syms| <= |s|
    ensures (forall k :: start <= k < start + |syms| ==> Hit(syms[k - start], s[k])) ==> RowHits(syms, s, start)
  {
    if forall k :: start <= k < start + |syms| ==> Hit(syms[k - start], s[k]) {
      forall j | 0 <= j < |syms| ensures Hit(syms[j], s[start + j]) {
        assert Hit(syms[start + j - start], s[start + j]);
      }
    }
  }

  /** The row does not move past the next place where it fits. */
  lemma SkipIsSafe(syms: seq<Sym>, s: Text, start: int, d: nat)
    requires 0 <= start && start + |syms| <= |s| && d > 0 && syms != [] && !Repeats(syms)
    requires !RowHits(syms, s, start) && RowHits(syms, s, start + d)
    ensures Skip(syms, s, start) <= d
  {
    var n, pos := |syms|, start + |syms| - 1;
    SkipIs(syms, s, start);
    hide RowStop, Has, SkipFor, Skip, Repeats;
    var stop := RowStop(syms, s, start, pos);
    if d < n {
      HitFits(syms, s, start + d, n - 1 - d);
      assert start + d + (n - 1 - d) == pos;
      assert stop < pos ==> Hit(syms[pos - start], s[pos]);
      if stop == pos {
        SkipForOne(syms, s[pos], d);
      } else {
        FitsOnce(syms, s[pos], n - 1, n - 1 - d);
      }
    }
  }

  lemma HitFits(syms: seq<Sym>, s: Text, at: int, k: nat)
    requires RowHits(syms, s, at) && k < |syms|
    ensures 0 <= at && at + k < |s| && Fits(syms, k, s[at + k])
  {
    assert Hit(syms[k], s[at + k]);
  }

  /** After a row that has fitted in vain the matcher moves on past the whole of it, and one more if none of its
      characters fits twice. */
  lemma SkipAfterHit(syms: seq<Sym>, s: Text, start: nat)
    requires RowHits(syms, s, start)
    ensures Skip(syms, s, start) > |syms| && (syms != [] && !Repeats(syms) ==> Skip(syms, s, start) == |syms| + 1)
  {
    hide Repeats;
    RowStopTells(syms, s, start, start + |syms| - 1);
    hide RowStop, SkipFor;
    forall k | start <= k < start + |syms| ensures Hit(syms[k - start], s[k]) {
      assert Hit(syms[k - start], s[start + (k - start)]);
    }
    if syms != [] && !Repeats(syms) {
      HitFits(syms, s, start, 0);
      SkipForOne(syms, s[start], |syms| - 1);
    }
  }

  lemma SearchGoesOn(pat: Pattern, l: nat, i: nat, s: Text, left: bool, right: bool, start: int, end: int)
    requires Heading(l, |pat|, i, left, right) && i < |pat|
    requires Lead0(pat[i]) <= start < end && start + |pat[i].syms| <= end <= |s|
    requires Search(pat, l, i, s, left, right, start + Skip(pat[i].syms, s, start), end)
    ensures Search(pat, l, i, s, left, right, start, end)
  {
  }

  /** The search comes to a place where the row fits and its sides do, if each earlier one where the row fits is more
      than the row's length before it, or good enough itself. So it goes on when a row has fitted in vain. */
  lemma {:induction false} SearchReaches(pat: Pattern, l: nat, i: nat, s: Text, left: bool, right: bool, start: int,
                                         end: int, f: int)
    requires Heading(l, |pat|, i, left, right) && i < |pat| && pat[i].syms != []
    requires Lead0(pat[i]) <= start <= f && f + |pat[i].syms| <= end <= |s|
    requires f == start || !Repeats(pat[i].syms)
    requires RowHits(pat[i].syms, s, f)
    requires forall h :: start <= h <= f && RowHits(pat[i].syms, s, h) ==>
      h + |pat[i].syms| < f || Sides(pat, l, i, s[..h - Lead0(pat[i])], s[h + |pat[i].syms|..], left, right)
    ensures Search(pat, l, i, s, left, right, start, end)
    decreases f - start
  {
    hide RowHits, Sides, Skip, Repeats, Search;
    var x, y := s[..start - Lead0(pat[i])], s[start + |pat[i].syms|..];
    if RowHits(pat[i].syms, s, start) && Sides(pat, l, i, x, y, left, right) {
      SearchFolds(pat, l, i, s, left, right, start, end);
    } else {
      if RowHits(pat[i].syms, s, start) {
        SkipAfterHit(pat[i].syms, s, start);
      } else {
        SkipIsSafe(pat[i].syms, s, start, f - start);
      }
      SearchReaches(pat, l, i, s, left, right, start + Skip(pat[i].syms, s, start), end, f);
      SearchGoesOn(pat, l, i, s, left, right, start, end);
    }
  }

  // ---------------------------------------------------------------- room to the left and to the right

  /** Before the first row a '*' takes up whatever comes. */
  lemma {:induction false} AddInFront(u: Pattern, w: Text, v: Text)
    requires Lang(u, v) && Stars(u) > 0 && forall k :: 0 <= k < |u| && u[k].syms != [] ==> Stars(u[..k + 1]) > 0
    ensures Lang(u, w + v)
    decreases |u|
  {
    var n := LangHead(u, v);
    if u[0].lead < 0 {
      MoreInFront(u[0], w, v, n);
      assert (w + v)[|w| + n + |u[0].syms|..] == v[n + |u[0].syms|..];
      LangCons(u, w + v, |w| + n);
    } else {
      NoRowFirst(u);
      var x := (w + v)[n..];
      var w' := x[..|w|];
      assert x == w' + v[n..];
      assert v[n + |u[0].syms|..] == v[n..];
      AddInFront(u[1..], w', v[n..]);
      assert HeadFits(u[0], w + v, n);
      LangCons(u, w + v, n);
    }
  }

  lemma MoreInFront(p: Part, w: Text, v: Text, n: int)
    requires HeadFits(p, v, n) && p.lead < 0
    ensures HeadFits(p, w + v, |w| + n)
  {
    forall k | 0 <= k < |p.syms| ensures Allows(p.syms[k], (w + v)[|w| + n + k]) {
      assert (w + v)[|w| + n + k] == v[n + k];
    }
  }

  lemma NoRowFirst(u: Pattern)
    requires u != [] && u[0].lead >= 0
    requires Stars(u) > 0 && forall k :: 0 <= k < |u| && u[k].syms != [] ==> Stars(u[..k + 1]) > 0
    ensures u[0].syms == [] && Stars(u[1..]) > 0
    ensures forall k :: 0 <= k < |u[1..]| && u[1..][k].syms != [] ==> Stars(u[1..][..k + 1]) > 0
  {
    assert u[..1][1..] == [] && u[..0 + 1] == u[..1];
    forall k | 0 <= k < |u[1..]| && u[1..][k].syms != [] ensures Stars(u[1..][..k + 1]) > 0 {
      assert u[..k + 2][1..] == u[1..][..k + 1];
      assert u[k + 1].syms != [] && Stars(u[..(k + 1) + 1]) > 0;
    }
  }

  /** Behind the last row a '*' takes up whatever is left. */
  lemma {:induction false} AnyEnd(u: Pattern, s: Text, a: nat, b: nat)
    requires a <= |s| && Width(u) <= b <= |s| && Lang(u, s[..a]) && ValidPattern(u)
    requires Stars(u) > 0 && forall k :: 0 <= k < |u| && u[k].syms != [] ==> Stars(u[..k + 1]) == 0
    ensures Lang(u, s[..b])
    decreases |u|
  {
    if u[0].lead < 0 {
      StarFirst(u);
      OnlyWildcards(u, s[..b]);
    } else {
      var n := LangHead(u, s[..a]);
      var m := n + |u[0].syms|;
      StarLater(u);
      assert s[..a][m..] == s[m..][..a - m] && s[..b][m..] == s[m..][..b - m];
      AnyEnd(u[1..], s[m..], a - m, b - m);
      forall k | 0 <= k < |u[0].syms| ensures Allows(u[0].syms[k], s[..b][n + k]) {
        assert s[..b][n + k] == s[..a][n + k];
      }
      LangCons(u, s[..b], n);
    }
  }

  lemma StarFirst(u: Pattern)
    requires u != [] && u[0].lead < 0
    requires forall k :: 0 <= k < |u| && u[k].syms != [] ==> Stars(u[..k + 1]) == 0
    ensures forall k :: 0 <= k < |u| ==> u[k].syms == []
  {
    forall k | 0 <= k < |u| ensures u[k].syms == [] {
      StarSince(u, 0, k + 1);
    }
  }

  lemma StarLater(u: Pattern)
    requires u != [] && u[0].lead >= 0 && Stars(u) > 0 && ValidPattern(u)
    requires forall k :: 0 <= k < |u| && u[k].syms != [] ==> Stars(u[..k + 1]) == 0
    ensures Stars(u[1..]) > 0 && ValidPattern(u[1..])
    ensures forall k :: 0 <= k < |u[1..]| && u[1..][k].syms != [] ==> Stars(u[1..][..k + 1]) == 0
  {
    forall k | 0 <= k < |u[1..]| && u[1..][k].syms != [] ensures Stars(u[1..][..k + 1]) == 0 {
      assert u[..k + 2][1..] == u[1..][..k + 1];
      assert u[k + 1].syms != [] && Stars(u[..(k + 1) + 1]) == 0;
    }
  }

  // ---------------------------------------------------------------- to the left there is one place

  /** Left of the longest part at most one '*' is left in the pattern searched for. */
  ghost predicate StarOnce(pat: Pattern, q: Pattern, l: nat)
    requires |q| == |pat|
  {
    forall j :: 0 <= j < l < |pat| && Reached(pat, l, j) && q[j + 1].lead < 0 ==> Stars(q[..j + 1]) == 0
  }

  lemma SoughtStarOnce(pat: Pattern)
    requires pat != [] && ValidPattern(pat) && !Gap(pat[Longest(pat)])
    ensures StarOnce(pat, Sought(pat), Longest(pat))
  {
    var q, l := Sought(pat), Longest(pat);
    var m := Seen(pat, l);
    hide LeftEdge, RightEdge, Longest, Stars;
    forall j | 0 <= j < l && Reached(pat, l, j) && q[j + 1].lead < 0 ensures Stars(q[..j + 1]) == 0 {
      assert m[j + 1] == pat[j + 1] && !Gap(pat[j + 1]);
      NarrowStars(m, l, j + 1);
    }
  }

  lemma TargetLeft(q: Pattern, j: nat, x: Text) returns (m: int)
    requires j + 1 < |q| && Target(q, j, x, true, false)
    ensures LeftTargetAt(q, j, x, m)
    ensures Stars(q[..j + 1]) == 0 ==> m == Width(q[..j + 1])
    ensures m >= Width(q[..j + 1]) >= Lead0(q[j]) + |q[j].syms|
  {
    m :| LeftTargetAt(q, j, x, m);
    LangWidth(q[..j + 1], x[..m]);
    SplitAt(q, j);
  }

  /** The one place for the row of part j, and what is left of it. */
  lemma LeftPlace(pat: Pattern, q: Pattern, l: nat, j: nat, x: Text) returns (start: nat)
    requires Aligned(pat, q, l, j) && !Gap(pat[j]) && j < l < |pat| && NoNegation(q)
    requires Target(q, j, x, true, false) && (q[j + 1].lead < 0 ==> Stars(q[..j + 1]) == 0)
    ensures WindowOf(pat, j, x, true, false) == Window(start, start + |pat[j].syms|)
    ensures Lead0(pat[j]) <= start && start + |pat[j].syms| <= |x| && RowHits(pat[j].syms, x, start)
    ensures j > 0 ==> Target(q, j - 1, x[..start - Lead0(pat[j])], true, false)
  {
    hide Lang, LeadIn, RowHits, RowAt, NoNegation, Target, Width, Stars;
    var m := TargetLeft(q, j, x);
    var n := |q[j].syms|;
    SplitAt(q, j);
    SplitAt(q, j + 1);
    start := if Stars(q[..j + 1]) == 0 then Width(q[..j + 1]) - n else |x| - n;
    assert start + n == m;
    RowBeforeCut(q, j, x, start);
    RowPlain(q, j);
    HitsAreMatchesWithoutNegation(q[j].syms, x, start);
    if j > 0 {
      LeadInToLeft(q, j, x, start);
    }
  }

  lemma RowPlain(q: Pattern, j: nat)
    requires NoNegation(q) && j < |q|
    ensures NoNegatedSym(q[j].syms)
  {
    assert q[j] in q;
  }

  lemma AnswerFolds(pat: Pattern, l: nat, i: nat, s: Text, left: bool, right: bool)
    requires Heading(l, |pat|, i, left, right) && i < |pat| && |s| >= |pat[i].syms|
    requires var w := WindowOf(pat, i, s, left, right);
      || Gap(pat[i]) || (pat[i].syms == [] && |s| == pat[i].lead)
      || (w.Window? && Search(pat, l, i, s, left, right, w.start, w.end))
    ensures Answer(pat, l, i, s, left, right)
  {
    hide Search;
  }

  lemma {:induction false} LeftFound(pat: Pattern, q: Pattern, l: nat, j: nat, x: Text)
    requires Facing(pat, q, l) && Reached(pat, l, j) && j < l && NoNegation(q) && StarOnce(pat, q, l)
    requires Target(q, j, x, true, false)
    ensures Heading(l, |pat|, j, true, false) && Answer(pat, l, j, x, true, false)
    decreases j
  {
    hide Answer, Search, Target, NoNegation, LeftEdge, RightEdge, WindowOf, RowHits;
    var m := TargetLeft(q, j, x);
    RowAligned(pat, q, l, j);
    assert Aligned(pat, q, l, j);
    if !Gap(pat[j]) {
      var start := LeftPlace(pat, q, l, j, x);
      if j > 0 {
        NeighboursReached(pat, q, l, j, true, false);
        LeftFound(pat, q, l, j - 1, x[..start - Lead0(pat[j])]);
      }
      SidesFold(pat, l, j, x[..start - Lead0(pat[j])], x[start + |pat[j].syms|..], true, false);
      SearchFolds(pat, l, j, x, true, false, start, start + |pat[j].syms|);
    }
    AnswerFolds(pat, l, j, x, true, false);
  }

  lemma SidesFold(pat: Pattern, l: nat, i: nat, x: Text, y: Text, left: bool, right: bool)
    requires Heading(l, |pat|, i, left, right)
    requires left && i > 0 ==> Heading(l, |pat|, i - 1, true, false) && Answer(pat, l, i - 1, x, true, false)
    requires right && i + 1 < |pat| ==> Heading(l, |pat|, i + 1, false, true) && Answer(pat, l, i + 1, y, false, true)
    ensures Sides(pat, l, i, x, y, left, right)
  {
    hide Answer;
  }

  // ---------------------------------------------------------------- to the right

  /** What is asked of the parts from the longest one on. */
  ghost predicate Harmless(pat: Pattern, q: Pattern, l: nat)
  {
    && Facing(pat, q, l) && NoNegation(q)
    && (forall i :: l < i < |pat| && Reached(pat, l, i) ==> q[i] == pat[i])
    && (forall i :: 0 <= i < |pat| && Movable(pat, l, i) ==> StarFollows(pat, l, i) && !Repeats(pat[i].syms))
    && (Movable(pat, l, l) && q[l].lead >= 0 ==> !RowBefore(pat, l, l))
  }

  lemma SoughtHarmless(pat: Pattern)
    requires pat != [] && ValidPattern(pat) && NoNegation(Sought(pat))
    requires AllLoose(pat) && NoneRepeats(pat) && !Cut(pat)
    ensures Harmless(pat, Sought(pat), Longest(pat))
  {
    var l := Longest(pat);
    SoughtFaces(pat);
    hide Facing, LeftEdge, RightEdge, Longest, NoNegation, Stars, Repeats, RowBefore;
    if Movable(pat, l, l) && pat[l].lead < 0 {
      assert !CutAt(pat, l, l);
    }
  }

  /** Behind a movable row the rest of the pattern does not care how much comes in front of it. */
  lemma RestMoves(pat: Pattern, q: Pattern, l: nat, i: nat, w: Text, v: Text)
    requires Harmless(pat, q, l) && Movable(pat, l, i) && Lang(q[i + 1..], v)
    ensures Lang(q[i + 1..], w + v)
  {
    hide *;
    HarmlessFaces(pat, q, l, i);
    RestHasStar(pat, q, l, i);
    var u := q[i + 1..];
    forall k | 0 <= k < |u| && u[k].syms != [] ensures Stars(u[..k + 1]) > 0 {
      RestRow(pat, q, l, i, i + 1 + k);
      assert u[..k + 1] == q[i + 1..i + 1 + k + 1];
    }
    AddInFront(u, w, v);
  }

  lemma RestHasStar(pat: Pattern, q: Pattern, l: nat, i: nat)
    requires Harmless(pat, q, l) && Movable(pat, l, i) && i < |pat| == |q|
    ensures Stars(q[i + 1..]) > 0
  {
    hide Stars, LeftEdge, RightEdge, Repeats, NoNegation;
    assert Aligned(pat, q, l, i);
  }

  lemma RestRow(pat: Pattern, q: Pattern, l: nat, i: nat, j: nat)
    requires Harmless(pat, q, l) && Movable(pat, l, i) && i < j < |pat| == |q| && q[j].syms != []
    ensures Stars(q[i + 1..j + 1]) > 0
  {
    hide Stars, LeftEdge, RightEdge, Repeats, NoNegation, IsLongest, ValidPattern, RowBefore;
    assert Reached(pat, l, j);
    assert Stars(pat[i + 1..j + 1]) > 0;
    assert q[i + 1..j + 1] == pat[i + 1..j + 1] by {
      forall h | i < h <= j ensures q[h] == pat[h] {
        assert Reached(pat, l, h);
      }
    }
  }

  /** If the row of part i is movable, its first place is as good as any. */
  lemma FirstPlace(pat: Pattern, q: Pattern, l: nat, i: nat, s: Text, h: nat, f: nat)
    requires Harmless(pat, q, l) && Movable(pat, l, i) && h <= f && f + |pat[i].syms| <= |s|
    requires Lang(q[i + 1..], s[f + |pat[i].syms|..])
    ensures Lang(q[i + 1..], s[h + |pat[i].syms|..])
  {
    hide Lang, Harmless, Movable;
    HarmlessFaces(pat, q, l, i);
    var n := |pat[i].syms|;
    assert s[h + n..] == s[h + n..f + n] + s[f + n..];
    RestMoves(pat, q, l, i, s[h + n..f + n], s[f + n..]);
  }

  lemma HarmlessFaces(pat: Pattern, q: Pattern, l: nat, i: nat)
    requires Harmless(pat, q, l) && Movable(pat, l, i)
    ensures Facing(pat, q, l) && i < |pat| == |q| && !Repeats(pat[i].syms)
  {
  }

  /** Where the row of part j stands in the text, among the places the matcher tries. */
  lemma RightPlace(pat: Pattern, q: Pattern, l: nat, j: nat, y: Text) returns (f: nat)
    requires Aligned(pat, q, l, j) && l < j && q[j] == pat[j] && Reached(pat, l, j) && !Gap(pat[j])
    requires NoNegation(q) && Lang(q[j..], y)
    ensures var w, n := WindowOf(pat, j, y, false, true), |pat[j].syms|;
      w.Window? && Lead0(pat[j]) <= w.start <= f && f + n <= w.end <= |y| && (f == w.start || Movable(pat, l, j))
    ensures RowHits(pat[j].syms, y, f) && Lang(q[j + 1..], y[f + |pat[j].syms|..])
  {
    hide NoNegation, Lang, LeftEdge, RightEdge, RowHits, RowAt;
    assert q[j..][0] == q[j] && q[j..][1..] == q[j + 1..];
    f := LangHead(q[j..], y);
    HeadTells(q[j], y, f);
    SplitAt(pat, j);
    LangWidth(q[j + 1..], y[f + |q[j].syms|..]);
    RowPlain(q, j);
    HitsAreMatchesWithoutNegation(q[j].syms, y, f);
  }

  lemma {:induction false} RightFound(pat: Pattern, q: Pattern, l: nat, j: nat, y: Text)
    requires Harmless(pat, q, l) && l < j < |pat| && Reached(pat, l, j) && Lang(q[j..], y)
    ensures Heading(l, |pat|, j, false, true) && Answer(pat, l, j, y, false, true)
    decreases |pat| - j
  {
    hide Answer, Search, Lang, NoNegation, LeftEdge, RightEdge, WindowOf, RowHits, Repeats, Facing, Movable;
    var n := |pat[j].syms|;
    FacingAligned(pat, q, l, j);
    RightWidth(q, j, y);
    if !Gap(pat[j]) {
      var f := RightPlace(pat, q, l, j, y);
      var w := WindowOf(pat, j, y, false, true);
      forall h | w.start <= h <= f && RowHits(pat[j].syms, y, h)
        ensures Sides(pat, l, j, y[..h - Lead0(pat[j])], y[h + n..], false, true)
      {
        if h < f {
          FirstPlace(pat, q, l, j, y, h, f);
        }
        if j + 1 < |pat| {
          NeighboursReached(pat, q, l, j, false, true);
          RightFound(pat, q, l, j + 1, y[h + n..]);
        }
        SidesFold(pat, l, j, y[..h - Lead0(pat[j])], y[h + n..], false, true);
      }
      if n > 0 {
        if f > w.start {
          HarmlessFaces(pat, q, l, j);
        }
        SearchReaches(pat, l, j, y, false, true, w.start, w.end, f);
      } else {
        MovableHasRow(pat, l, j);
        SearchFolds(pat, l, j, y, false, true, w.start, w.end);
      }
    }
    AnswerFolds(pat, l, j, y, false, true);
  }

  lemma MovableHasRow(pat: Pattern, l: nat, j: nat)
    ensures Movable(pat, l, j) ==> j < |pat| && pat[j].syms != []
  {
  }

  lemma FacingAligned(pat: Pattern, q: Pattern, l: nat, j: nat)
    requires Facing(pat, q, l) && Reached(pat, l, j)
    ensures Aligned(pat, q, l, j)
  {
  }

  lemma RightWidth(q: Pattern, j: nat, y: Text)
    requires j < |q| && Lang(q[j..], y)
    ensures |y| >= |q[j].syms|
  {
    LangWidth(q[j..], y);
    SplitAt(q, j);
  }

  // ---------------------------------------------------------------- the longest part

  /** Where the row of part l stands, and what the parts on both sides need of the text. */
  lemma SomePlace(q: Pattern, l: nat, s: Text) returns (f: nat)
    requires l < |q| && NoNegation(q) && Lang(q, s)
    ensures RowHits(q[l].syms, s, f) && f + |q[l].syms| <= |s|
    ensures Lang(q[l + 1..], s[f + |q[l].syms|..]) && LeadIn(q, l, s[..f])
    ensures f >= Lead0(q[l]) + Width(q[..l]) && f + |q[l].syms| + Width(q[l + 1..]) <= |s|
    ensures Stars(q[..l + 1]) == 0 ==> f == Lead0(q[l]) + Width(q[..l])
    ensures Stars(q[l + 1..]) == 0 ==> f + |q[l].syms| + Width(q[l + 1..]) == |s|
  {
    hide *;
    assert q[..l + 1] + q[l + 1..] == q;
    var e := LangSplit(q[..l + 1], q[l + 1..], s);
    LangWidth(q[..l + 1], s[..e]);
    LangWidth(q[l + 1..], s[e..]);
    SplitAt(q, l);
    f := e - |q[l].syms|;
    RowBeforeCut(q, l, s, f);
    RowPlain(q, l);
    HitsAreMatchesWithoutNegation(q[l].syms, s, f);
  }

  /** The matcher tries this place, and if it tries others as well the row is movable. */
  lemma PlaceInWindow(pat: Pattern, q: Pattern, l: nat, s: Text, f: nat)
    requires pat != [] && l == Longest(pat) && Aligned(pat, q, l, l) && !Gap(pat[l])
    requires f >= Lead0(q[l]) + Width(q[..l]) && f + |q[l].syms| + Width(q[l + 1..]) <= |s|
    requires Stars(q[..l + 1]) == 0 ==> f == Lead0(q[l]) + Width(q[..l])
    requires Stars(q[l + 1..]) == 0 ==> f + |q[l].syms| + Width(q[l + 1..]) == |s|
    ensures var w, n := WindowOf(pat, l, s, true, true), |pat[l].syms|;
      && w.Window? && Lead0(pat[l]) + Width(q[..l]) <= w.start <= f && f + n <= w.end <= |s|
      && (f == w.start || Movable(pat, l, l))
  {
    hide Longest, LeftEdge, RightEdge, Width, Stars;
    NoRowIsLast(pat, l);
    NoStars();
  }

  lemma NoStars()
    ensures Stars([]) == 0
  {
  }

  /** A longest part without symbols is the last part. */
  lemma NoRowIsLast(pat: Pattern, l: nat)
    requires pat != [] && l == Longest(pat)
    ensures pat[l].syms == [] ==> pat[l + 1..] == []
  {
    assert l + 1 < |pat| ==> |pat[l + 1].syms| < |pat[l].syms|;
  }

  /** With a '*' in front of the row, what is before it can stay where it is. */
  lemma LeadInStays(q: Pattern, l: nat, s: Text, f: nat, h: nat)
    requires l < |q| && q[l].lead < 0 && Stars(q[..l]) == 0
    requires Width(q[..l]) <= h <= f <= |s| && LeadIn(q, l, s[..f])
    ensures LeadIn(q, l, s[..h])
  {
    hide Lang, Stars, Width;
    var m :| LeadInAt(q, l, s[..f], m);
    LangWidth(q[..l], s[..f][..m]);
    assert s[..h][..m] == s[..f][..m];
    assert LeadInAt(q, l, s[..h], m);
  }

  /** Without one, a '*' behind all rows before it gives way. */
  lemma LeadInShrinks(q: Pattern, l: nat, s: Text, f: nat, h: nat)
    requires l < |q| && q[l].lead >= 0 && ValidPattern(q[..l]) && Stars(q[..l]) > 0
    requires forall k :: 0 <= k < l && q[..l][k].syms != [] ==> Stars(q[..l][..k + 1]) == 0
    requires q[l].lead + Width(q[..l]) <= h <= f <= |s| && LeadIn(q, l, s[..f])
    ensures LeadIn(q, l, s[..h])
  {
    hide Lang, Stars, Width, ValidPattern;
    var m :| LeadInAt(q, l, s[..f], m);
    assert s[..f][..m] == s[..m] && s[..h][..h - q[l].lead] == s[..h - q[l].lead];
    AnyEnd(q[..l], s, m, h - q[l].lead);
    assert LeadInAt(q, l, s[..h], h - q[l].lead);
  }

  /** Any place up to there leaves the parts to the left what they need. */
  lemma LeadInMoves(pat: Pattern, q: Pattern, l: nat, s: Text, f: nat, h: nat)
    requires Harmless(pat, q, l) && l < |pat| == |q| && StarOnce(pat, q, l) && !Gap(pat[l])
    requires h == f || Movable(pat, l, l)
    requires Lead0(q[l]) + Width(q[..l]) <= h <= f <= |s| && LeadIn(q, l, s[..f])
    ensures LeadIn(q, l, s[..h])
  {
    hide *;
    if h < f {
      LeadIs(q[l]);
      if q[l].lead < 0 {
        NoStarBefore(pat, q, l);
        LeadInStays(q, l, s, f, h);
      } else {
        StarBefore(pat, q, l);
        LeadInShrinks(q, l, s, f, h);
      }
    }
  }

  lemma LeadIs(p: Part)
    ensures Lead0(p) == if p.lead < 0 then 0 else p.lead
  {
  }

  lemma NoStarBefore(pat: Pattern, q: Pattern, l: nat)
    requires l < |pat| == |q| && StarOnce(pat, q, l) && !Gap(pat[l]) && q[l].lead < 0
    ensures Stars(q[..l]) == 0
  {
    assert l > 0 ==> Reached(pat, l, l - 1);
  }

  lemma StarBefore(pat: Pattern, q: Pattern, l: nat)
    requires Harmless(pat, q, l) && l < |pat| == |q| && Movable(pat, l, l) && q[l].lead >= 0 && !Gap(pat[l])
    ensures ValidPattern(q[..l]) && Stars(q[..l]) > 0
    ensures forall k :: 0 <= k < l && q[..l][k].syms != [] ==> Stars(q[..l][..k + 1]) == 0
  {
    hide Repeats, NoNegation, LeftEdge, RightEdge, Longest, RowBefore, Stars;
    assert Aligned(pat, q, l, l);
    SplitAt(q, l);
    RowsBeforeStar(pat, q, l);
  }

  lemma RowsBeforeStar(pat: Pattern, q: Pattern, l: nat)
    requires Facing(pat, q, l) && !RowBefore(pat, l, l)
    ensures ValidPattern(q[..l])
    ensures forall k :: 0 <= k < l && q[..l][k].syms != [] ==> Stars(q[..l][..k + 1]) == 0
  {
    hide LeftEdge, RightEdge, Stars, Width;
    forall k | 0 <= k < l && q[..l][k].syms != [] ensures Stars(q[..l][..k + 1]) == 0 {
      assert Reached(pat, l, k);
      assert Aligned(pat, q, l, k);
      assert !RowAfterStar(pat, l, l, k);
      assert q[..l][..k + 1] == q[..k + 1];
    }
  }

  lemma LongestFound(pat: Pattern, q: Pattern, l: nat, s: Text)
    requires pat != [] && l == Longest(pat) && Harmless(pat, q, l) && Lang(q, s)
    requires l < |pat| && (!Gap(pat[l]) ==> StarOnce(pat, q, l))
    ensures Heading(l, |pat|, l, true, true) && Answer(pat, l, l, s, true, true)
  {
    hide *;
    LongestFaces(pat, q, l);
    AlignedRow(pat, q, l, l);
    var f := SomePlace(q, l, s);
    if !Gap(pat[l]) {
      PlaceInWindow(pat, q, l, s, f);
      LongestTried(pat, q, l, s, WindowOf(pat, l, s, true, true), f);
    }
    AnswerFolds(pat, l, l, s, true, true);
  }

  lemma LongestTried(pat: Pattern, q: Pattern, l: nat, s: Text, w: Window, f: nat)
    requires Harmless(pat, q, l) && l < |pat| == |q| && StarOnce(pat, q, l) && !Gap(pat[l]) && w.Window?
    requires Heading(l, |pat|, l, true, true) && Reached(pat, l, l)
    requires Lead0(pat[l]) + Width(q[..l]) <= w.start <= f && f + |pat[l].syms| <= w.end <= |s|
    requires (f == w.start || Movable(pat, l, l)) && RowHits(pat[l].syms, s, f)
    requires LeadIn(q, l, s[..f]) && Lang(q[l + 1..], s[f + |pat[l].syms|..])
    ensures Search(pat, l, l, s, true, true, w.start, w.end)
  {
    hide *;
    forall h | w.start <= h <= f && RowHits(pat[l].syms, s, h)
      ensures Sides(pat, l, l, s[..h - Lead0(pat[l])], s[h + |pat[l].syms|..], true, true)
    {
      LongestSides(pat, q, l, s, f, h);
    }
    LongestSearch(pat, q, l, s, w, f);
  }

  lemma LongestFaces(pat: Pattern, q: Pattern, l: nat)
    requires pat != [] && l == Longest(pat) && Harmless(pat, q, l)
    ensures Aligned(pat, q, l, l) && NoNegation(q) && Reached(pat, l, l) && l < |pat| == |q|
    ensures Heading(l, |pat|, l, true, true)
  {
  }

  lemma AlignedRow(pat: Pattern, q: Pattern, l: nat, i: nat)
    requires Aligned(pat, q, l, i)
    ensures i < |pat| == |q| && q[i].syms == pat[i].syms && Lead0(q[i]) == Lead0(pat[i])
  {
  }

  lemma LongestSearch(pat: Pattern, q: Pattern, l: nat, s: Text, w: Window, f: nat)
    requires Harmless(pat, q, l) && Heading(l, |pat|, l, true, true) && w.Window?
    requires var n := |pat[l].syms|;
      && Lead0(pat[l]) <= w.start <= f && f + n <= w.end <= |s|
      && (f == w.start || Movable(pat, l, l)) && RowHits(pat[l].syms, s, f)
      && forall h :: w.start <= h <= f && RowHits(pat[l].syms, s, h) ==>
        Sides(pat, l, l, s[..h - Lead0(pat[l])], s[h + n..], true, true)
    ensures Search(pat, l, l, s, true, true, w.start, w.end)
  {
    hide *;
    HeadingTells(l, |pat|, l, true, true);
    MovableHasRow(pat, l, l);
    if f > w.start {
      HarmlessFaces(pat, q, l, l);
    }
    if pat[l].syms != [] {
      SearchReaches(pat, l, l, s, true, true, w.start, w.end, f);
    } else {
      SearchFolds(pat, l, l, s, true, true, w.start, w.end);
    }
  }

  lemma LongestSides(pat: Pattern, q: Pattern, l: nat, s: Text, f: nat, h: nat)
    requires Harmless(pat, q, l) && StarOnce(pat, q, l) && !Gap(pat[l]) && (h == f || Movable(pat, l, l))
    requires Heading(l, |pat|, l, true, true) && Reached(pat, l, l)
    requires Lead0(pat[l]) + Width(q[..l]) <= h <= f && f + |pat[l].syms| <= |s|
    requires LeadIn(q, l, s[..f]) && Lang(q[l + 1..], s[f + |pat[l].syms|..])
    ensures Sides(pat, l, l, s[..h - Lead0(pat[l])], s[h + |pat[l].syms|..], true, true)
  {
    hide *;
    HarmlessIsFacing(pat, q, l);
    FacingAligned(pat, q, l, l);
    AlignedRow(pat, q, l, l);
    NeighboursReached(pat, q, l, l, true, true);
    if l > 0 {
      LeadInMoves(pat, q, l, s, f, h);
      LeadInToLeft(q, l, s, h);
      LeftFound(pat, q, l, l - 1, s[..h - Lead0(pat[l])]);
    }
    if l + 1 < |pat| {
      if h < f {
        FirstPlace(pat, q, l, l, s, h, f);
      }
      RightFound(pat, q, l, l + 1, s[h + |pat[l].syms|..]);
    }
    SidesFold(pat, l, l, s[..h - Lead0(pat[l])], s[h + |pat[l].syms|..], true, true);
  }

  lemma HarmlessIsFacing(pat: Pattern, q: Pattern, l: nat)
    requires Harmless(pat, q, l)
    ensures Facing(pat, q, l) && NoNegation(q) && l < |pat| == |q|
  {
  }

  /** Every text of the pattern searched for is found, if no movable row repeats a character. */
  lemma FindsAllItSeeks(pat: Pattern, s: Text)
    requires pat != [] && ValidPattern(pat) && NoNegation(Sought(pat))
    requires AllLoose(pat) && NoneRepeats(pat) && !Cut(pat) && Lang(Sought(pat), s)
    ensures Matches(pat, s)
  {
    hide *;
    var q, l := Sought(pat), Longest(pat);
    SoughtFaces(pat);
    SoughtHarmless(pat);
    LangWidth(q, s);
    MatchesFolds(pat, s);
    if !Gap(pat[l]) {
      SoughtStarOnce(pat);
    }
    LongestFound(pat, q, l, s);
  }

  lemma MatchesFolds(pat: Pattern, s: Text)
    requires pat != []
    ensures Longest(pat) < |pat| && Heading(Longest(pat), |pat|, Longest(pat), true, true)
    ensures Matches(pat, s) <==> |s| >= Width(pat) && Answer(pat, Longest(pat), Longest(pat), s, true, true)
  {
    hide Answer;
  }
}
