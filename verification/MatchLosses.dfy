/** When the matcher (libAfterBase/regexp.c) finds every text of a pattern, and a text it does not find if a movable
    row has a character in two symbols. */
module MatchLosses {
  import opened Common
  import opened CharClass
  import opened PatternLanguage
  import opened CompiledPattern
  import opened PatternCompiler
  import opened PatternSamples
  import opened MatchAnswer
  import opened MatchMeaning
  import opened MatchComplete
  import opened MatchSought

  // ---------------------------------------------------------------- a row that jumps over its place

  /** Character c belongs to symbol p, which is not the last one, and to the last one or one in front of p. */
  ghost predicate Twin(syms: seq<Sym>, p: int, c: Byte)
  {
    p < |syms| - 1 && Fits(syms, p, c) && (Fits(syms, |syms| - 1, c) || exists a :: a < p && Fits(syms, a, c))
  }

  lemma TwinOf(syms: seq<Sym>) returns (p: nat, c: Byte)
    requires Repeats(syms)
    ensures Twin(syms, p, c)
  {
    var a, b, x: Byte :| a < b && Fits(syms, a, x) && Fits(syms, b, x);
    c := x;
    p := if b == |syms| - 1 then a else b;
  }

  lemma {:induction false} SkipForNone(codes: seq<Code>, n: nat, c: Byte)
    requires n <= |codes| && forall j :: 0 <= j < n ==> !Has(codes[j], c)
    ensures SkipFor(codes, n, c) == |codes|
  {
    if n > 0 {
      SkipForNone(codes, n - 1, c);
    }
  }

  /** The skip for a filler. */
  lemma SkipForFiller(syms: seq<Sym>)
    requires forall k: int :: !Fits(syms, k, FILLER)
    ensures SkipFor(BackwardCodes(syms), |syms|, FILLER) == |syms|
  {
    hide SkipFor, Has;
    var codes := BackwardCodes(syms);
    forall j | 0 <= j < |syms| ensures !Has(codes[j], FILLER) {
      assert !Fits(syms, |syms| - 1 - j, FILLER);
    }
    SkipForNone(codes, |syms|, FILLER);
  }

  /** The skip for a character of symbol a. */
  lemma SkipForFit(syms: seq<Sym>, a: int, c: Byte)
    requires Fits(syms, a, c)
    ensures SkipFor(BackwardCodes(syms), |syms|, c) >= |syms| - 1 - a
  {
    hide SkipFor, Has;
    SkipForIs(BackwardCodes(syms), |syms|, c, |syms| - 1 - a);
  }

  /** With d fillers in front of the row, as many as come after the twin, the row tried at the first of them goes
      past its place. */
  lemma JumpsOver(syms: seq<Sym>, s: Text, st: nat, p: nat, c: Byte)
    requires Twin(syms, p, c) && forall k: int :: !Fits(syms, k, FILLER)
    requires var d := |syms| - 1 - p;
      RowHits(syms, s, st + d) && s[st + d + p] == c && forall k :: st <= k < st + d ==> s[k] == FILLER
    ensures !RowHits(syms, s, st) && Skip(syms, s, st) > |syms| - 1 - p
  {
    hide RowStop, Skip, RowHits, SkipFor, Fits;
    var n, d := |syms|, |syms| - 1 - p;
    HitFits(syms, s, st + d, p);
    if RowHits(syms, s, st) {
      HitFits(syms, s, st, 0);
    }
    SkipIs(syms, s, st);
    var stop := RowStop(syms, s, st, st + n - 1);
    if stop < st + d {
      SkipForFiller(syms);
    } else {
      var u := stop - st - d;
      HitFits(syms, s, st + d, u);
      SkipForFit(syms, u, s[stop]);
      if u == p {
        StopMisses(syms, s, st, d);
        var a :| a < p && Fits(syms, a, c);
        SkipForFit(syms, a, c);
      }
    }
  }

  lemma StopMisses(syms: seq<Sym>, s: Text, st: nat, d: nat)
    requires st + |syms| <= |s| && syms != [] && RowHits(syms, s, st + d)
    ensures var stop := RowStop(syms, s, st, st + |syms| - 1);
      stop >= st ==> !Fits(syms, stop - st, s[stop])
  {
    RowStopIs(syms, s, st, st + |syms| - 1);
    var stop := RowStop(syms, s, st, st + |syms| - 1);
    if stop >= st {
      assert Hit(syms[stop - st], s[st + d + (stop - st)]);
    }
  }

  // ---------------------------------------------------------------- a search in vain

  /** The place where a search succeeds. */
  lemma {:induction false} SearchFinds(pat: Pattern, l: nat, i: nat, s: Text, left: bool, right: bool, start: int,
                                       end: int) returns (st: nat)
    requires Heading(l, |pat|, i, left, right) && Search(pat, l, i, s, left, right, start, end)
    ensures i < |pat| && start <= st && Lead0(pat[i]) <= st && st + |pat[i].syms| <= end <= |s|
    ensures RowHits(pat[i].syms, s, st)
    ensures Sides(pat, l, i, s[..st - Lead0(pat[i])], s[st + |pat[i].syms|..], left, right)
    decreases end - start
  {
    hide *;
    SearchUnfolds(pat, l, i, s, left, right, start, end);
    if RowHits(pat[i].syms, s, start)
      && Sides(pat, l, i, s[..start - Lead0(pat[i])], s[start + |pat[i].syms|..], left, right)
    {
      st := start;
    } else {
      st := SearchFinds(pat, l, i, s, left, right, start + Skip(pat[i].syms, s, start), end);
    }
  }

  lemma SidesTell(pat: Pattern, l: nat, i: nat, x: Text, y: Text, left: bool, right: bool)
    requires Heading(l, |pat|, i, left, right) && Sides(pat, l, i, x, y, left, right)
    ensures right && i + 1 < |pat| ==> Heading(l, |pat|, i + 1, false, true) && Answer(pat, l, i + 1, y, false, true)
  {
    hide Answer;
  }

  /** If only one place is to be tried, or the skip goes past the end, and what is to the right does not follow, the
      search is in vain. */
  lemma OneTry(pat: Pattern, l: nat, i: nat, s: Text, left: bool, right: bool, start: nat, d: nat)
    requires Heading(l, |pat|, i, left, right) && i < |pat| && start + d + |pat[i].syms| <= |s| && Lead0(pat[i]) <= start
    requires Skip(pat[i].syms, s, start) > d
    requires !RowHits(pat[i].syms, s, start)
      || !Sides(pat, l, i, s[..start - Lead0(pat[i])], s[start + |pat[i].syms|..], left, right)
    ensures !Search(pat, l, i, s, left, right, start, start + d + |pat[i].syms|)
  {
    hide *;
    var end := start + d + |pat[i].syms|;
    if Search(pat, l, i, s, left, right, start, end) {
      SearchUnfolds(pat, l, i, s, left, right, start, end);
      SearchUnfolds(pat, l, i, s, left, right, start + Skip(pat[i].syms, s, start), end);
    }
  }

  /** In front of a '*' the window of a call to the right leaves as many places as there are characters to spare. */
  lemma RightWindow(pat: Pattern, l: nat, j: nat, v: Text, d: nat)
    requires Heading(l, |pat|, j, false, true) && !Gap(pat[j]) && Stars(pat[j + 1..]) > 0
    requires |v| == Width(pat[j..]) + d && d > 0
    requires Answer(pat, l, j, v, false, true)
    ensures var lead := Lead0(pat[j]);
      Search(pat, l, j, v, false, true, lead, lead + (if pat[j].lead < 0 then d else 0) + |pat[j].syms|)
  {
    hide Search, Width, Stars;
    SplitAt(pat, j);
    Starless(pat, j);
  }

  lemma Starless(pat: Pattern, j: nat)
    requires j < |pat|
    ensures Stars(pat[..j + 1]) == 0 ==> pat[j].lead >= 0
  {
    SplitAt(pat, j);
  }

  // ---------------------------------------------------------------- the row with a twin

  /** Part i has a movable row with a twin, in a pattern without negated symbols among those looked at. */
  ghost predicate Jumpy(pat: Pattern, q: Pattern, l: nat, i: nat, p: nat, c: Byte)
  {
    && Canonical(pat) && Facing(pat, q, l) && NoNegation(q) && Movable(pat, l, i) && Twin(pat[i].syms, p, c)
    && SameBehind(pat, q, l)
  }

  /** Behind part l, up to the next gap, the patterns are the same; further on nothing is left but question marks. */
  ghost predicate SameBehind(pat: Pattern, q: Pattern, l: nat)
    requires l < |pat| == |q|
  {
    && (forall k :: l < k <= RightEdge(pat, l) ==> q[k] == pat[k])
    && Stars(q[RightEdge(pat, l) + 1..]) == 0 && Width(q[RightEdge(pat, l) + 1..]) == Width(pat[RightEdge(pat, l) + 1..])
  }

  /** The row with c at its symbol p. */
  ghost function TwinRow(y: Part, p: nat, c: Byte): (row: Text)
    requires CanonicalPart(y) && p < |y.syms|
    ensures |row| == |y.syms|
  {
    SampleRow(y)[p := c]
  }

  lemma TwinRowSpells(y: Part, p: nat, c: Byte)
    requires CanonicalPart(y) && p < |y.syms| && Fits(y.syms, p, c) && NoNegatedSym(y.syms)
    ensures Spells(TwinRow(y, p, c), y) && TwinRow(y, p, c)[p] == c
  {
    assert y.syms[p] in y.syms;
  }

  /** A row that spells its part is hit where it stands. */
  lemma SpelledHits(row: Text, y: Part, s: Text, at: nat)
    requires Spells(row, y) && NoNegatedSym(y.syms) && at + |row| <= |s| && s[at..at + |row|] == row
    ensures RowHits(y.syms, s, at)
  {
    forall k | 0 <= k < |y.syms| ensures Hit(y.syms[k], s[at + k]) {
      assert s[at + k] == s[at..at + |row|][k] == row[k];
      assert y.syms[k] in y.syms;
    }
  }

  lemma JumpyTells(pat: Pattern, q: Pattern, l: nat, i: nat, p: nat, c: Byte)
    requires Jumpy(pat, q, l, i, p, c)
    ensures l <= i < |pat| == |q| && Canonical(pat) && CanonicalPart(pat[i]) && p < |pat[i].syms| - 1
    ensures Spells(TwinRow(pat[i], p, c), pat[i]) && TwinRow(pat[i], p, c)[p] == c && NoNegatedSym(pat[i].syms)
    ensures Twin(pat[i].syms, p, c) && (forall k: int :: !Fits(pat[i].syms, k, FILLER))
    ensures Stars(pat[i + 1..]) > 0 && (l < i ==> pat[i].lead < 0) && |pat[i].syms| <= |pat[l].syms|
    ensures Reached(pat, l, i) && NoNegation(q) && Facing(pat, q, l)
  {
    NoFillerFits(pat, i);
    hide Longest, LeftEdge, RightEdge, Stars;
    assert Aligned(pat, q, l, i);
    RowPlain(q, i);
    TwinRowSpells(pat[i], p, c);
  }

  lemma CanonicalAt(pat: Pattern, i: nat)
    requires Canonical(pat) && i < |pat|
    ensures CanonicalPart(pat[i])
  {
  }

  /** The text that the matcher does not find, from part j on. */
  ghost function JumpText(pat: Pattern, i: nat, j: nat, p: nat, c: Byte): (s: Text)
    requires j <= i < |pat| && Canonical(pat) && p < |pat[i].syms|
  {
    CanonicalSlice(pat, j, j);
    CanonicalAt(pat, i);
    Stretched(pat[j..], i - j, |pat[i].syms| - 1 - p, TwinRow(pat[i], p, c))
  }

  lemma JumpTextIs(pat: Pattern, i: nat, j: nat, p: nat, c: Byte)
    requires j <= i < |pat| && Canonical(pat) && p < |pat[i].syms|
    ensures Canonical(pat[j..]) && CanonicalPart(pat[i]) && CanonicalPart(pat[j])
    ensures JumpText(pat, i, j, p, c) == Stretched(pat[j..], i - j, |pat[i].syms| - 1 - p, TwinRow(pat[i], p, c))
    ensures |JumpText(pat, i, j, p, c)| == Width(pat[j..]) + |pat[i].syms| - 1 - p
  {
    hide Stretched, SampleRow, Width;
    CanonicalSlice(pat, j, j);
    CanonicalAt(pat, i);
    CanonicalAt(pat, j);
    StretchedSize(pat[j..], i - j, |pat[i].syms| - 1 - p, TwinRow(pat[i], p, c));
  }

  lemma JumpTextHead(pat: Pattern, i: nat, j: nat, p: nat, c: Byte)
    requires j < i < |pat| && Canonical(pat) && p < |pat[i].syms|
    ensures CanonicalPart(pat[j])
    ensures JumpText(pat, i, j, p, c)
      == Fillers(Lead0(pat[j])) + (SampleRow(pat[j]) + JumpText(pat, i, j + 1, p, c))
  {
    hide *;
    JumpTextIs(pat, i, j, p, c);
    JumpTextIs(pat, i, j + 1, p, c);
    StretchedHead(pat[j..], i - j, |pat[i].syms| - 1 - p, TwinRow(pat[i], p, c));
    assert pat[j..][1..] == pat[j + 1..];
  }

  lemma JumpTextAt(pat: Pattern, i: nat, p: nat, c: Byte)
    requires i < |pat| && Canonical(pat) && p < |pat[i].syms|
    ensures CanonicalPart(pat[i]) && Canonical(pat[i + 1..])
    ensures JumpText(pat, i, i, p, c)
      == Fillers(|pat[i].syms| - 1 - p + Lead0(pat[i])) + (TwinRow(pat[i], p, c) + Sample(pat[i + 1..]))
  {
    hide *;
    JumpTextIs(pat, i, i, p, c);
    StretchedHead(pat[i..], 0, |pat[i].syms| - 1 - p, TwinRow(pat[i], p, c));
    assert pat[i..][1..] == pat[i + 1..];
  }

  lemma RowBehindFillers(s: Text, st: nat, n: nat, row: Text, rest: Text)
    requires st <= |s| && s[st..] == Fillers(n) + (row + rest)
    ensures st + n + |row| <= |s| && s[st + n..st + n + |row|] == row && forall k :: st <= k < st + n ==> s[k] == FILLER
  {
    var t := s[st..];
    assert |t| == n + |row| + |rest| && t[n..n + |row|] == row;
    assert s[st + n..st + n + |row|] == t[n..n + |row|];
    forall k | st <= k < st + n ensures s[k] == FILLER {
      assert s[k] == s[st..][k - st];
    }
  }

  /** Where the row with the twin is next, the matcher goes past it. */
  lemma TwinSkipped(pat: Pattern, q: Pattern, l: nat, i: nat, p: nat, c: Byte, s: Text, st: nat)
    requires Jumpy(pat, q, l, i, p, c) && i < |pat| && p < |pat[i].syms|
    requires st + Lead0(pat[i]) <= |s| && s[st..] == JumpText(pat, i, i, p, c)
    ensures var at, n := st + Lead0(pat[i]), |pat[i].syms|;
      at + n - 1 - p + n <= |s| && !RowHits(pat[i].syms, s, at) && Skip(pat[i].syms, s, at) > n - 1 - p
  {
    hide *;
    JumpyTells(pat, q, l, i, p, c);
    JumpTextAt(pat, i, p, c);
    var at, n, d, row := st + Lead0(pat[i]), |pat[i].syms|, |pat[i].syms| - 1 - p, TwinRow(pat[i], p, c);
    RowBehindFillers(s, st, d + Lead0(pat[i]), row, Sample(pat[i + 1..]));
    SpelledHits(row, pat[i], s, at + d);
    assert s[at + d + p] == s[at + d..at + d + n][p];
    JumpsOver(pat[i].syms, s, at, p, c);
  }

  // ---------------------------------------------------------------- the text is not found

  /** Parts of a fixed width at the end take the end of the text. */
  lemma EndTaken(a: Pattern, b: Pattern, x: Text, z: Text, e: nat)
    requires Stars(b) == 0 && Width(b) == |z| && e <= |x + z| && Lang(a + b, (x + z)[e..])
    ensures e <= |x| && Lang(a, x[e..])
  {
    hide *;
    var y := (x + z)[e..];
    var m := LangSplit(a, b, y);
    LangWidth(b, y[m..]);
    assert y[..m] == x[e..];
  }

  /** To the right of the longest part a row finds no place but the first with room for all that comes behind. */
  lemma NoLaterRow(pat: Pattern, q: Pattern, l: nat, i: nat, j: nat, p: nat, c: Byte, st: nat)
    requires Jumpy(pat, q, l, i, p, c) && l < j < i < |pat| == |q| && p < |pat[i].syms|
    requires pat[j].lead < 0 && pat[j].syms != [] && st > 0 && RowHits(pat[j].syms, JumpText(pat, i, j, p, c), st)
    ensures st + |pat[j].syms| <= |JumpText(pat, i, j, p, c)|
    ensures !Lang(q[j + 1..], JumpText(pat, i, j, p, c)[st + |pat[j].syms|..])
  {
    hide *;
    JumpyTells(pat, q, l, i, p, c);
    var r, v, e := RightEdge(pat, l) + 1, JumpText(pat, i, j, p, c), st + |pat[j].syms|;
    BehindTells(pat, q, l, i, j, p, c, r);
    JumpTextUpTo(pat, i, j, p, c, r);
    HitsAreMatchesWithoutNegation(pat[j].syms, v, st);
    RowWithin(pat[j].syms, v, st);
    var u, d, row := pat[j..r], |pat[i].syms| - 1 - p, TwinRow(pat[i], p, c);
    var x := Stretched(u, i - j, d, row);
    if Lang(q[j + 1..], v[e..]) {
      EndTaken(u[1..], q[r..], x, Sample(pat[r..]), e);
      RowInPrefix(pat[j].syms, v, st, |x|);
      assert v[..|x|] == x;
      NoLaterPlace(u, i - j, d, row, st);
    }
  }

  lemma JumpTextUpTo(pat: Pattern, i: nat, j: nat, p: nat, c: Byte, r: nat)
    requires j <= i < r <= |pat| && Canonical(pat) && p < |pat[i].syms|
    ensures Canonical(pat[j..r]) && Canonical(pat[r..]) && CanonicalPart(pat[i]) && |Sample(pat[r..])| == Width(pat[r..])
    ensures JumpText(pat, i, j, p, c)
      == Stretched(pat[j..r], i - j, |pat[i].syms| - 1 - p, TwinRow(pat[i], p, c)) + Sample(pat[r..])
  {
    hide *;
    CanonicalSlice(pat, j, r);
    CanonicalSlice(pat, r, r);
    JumpTextIs(pat, i, j, p, c);
    StretchedUpTo(pat[j..], i - j, |pat[i].syms| - 1 - p, TwinRow(pat[i], p, c), r - j);
    assert pat[j..][..r - j] == pat[j..r] && pat[j..][r - j..] == pat[r..];
    SampleFits(pat[r..]);
  }

  lemma RowInPrefix(syms: seq<Sym>, s: Text, at: int, e: nat)
    requires RowAt(syms, s, at) && at + |syms| <= e <= |s|
    ensures RowAt(syms, s[..e], at)
  {
    forall k | 0 <= k < |syms| ensures Allows(syms[k], s[..e][at + k]) {
      assert s[..e][at + k] == s[at + k];
    }
  }

  lemma BehindTells(pat: Pattern, q: Pattern, l: nat, i: nat, j: nat, p: nat, c: Byte, r: nat)
    requires Jumpy(pat, q, l, i, p, c) && l < j < i < |pat| && r == RightEdge(pat, l) + 1
    ensures i < r <= |pat| == |q| && q[j + 1..] == pat[j..r][1..] + q[r..] && Stars(q[r..]) == 0
    ensures Width(q[r..]) == Width(pat[r..]) && NoNegation(pat[j..r]) && Canonical(pat[j..r]) && pat[j..r][0] == pat[j]
    ensures pat[j..r][i - j] == pat[i]
  {
    hide LeftEdge, RightEdge, Longest, Stars, Width, CanonicalPart;
    CanonicalSlice(pat, j, r);
    forall y | y in pat[j..r] ensures NoNegatedSym(y.syms) {
      var k :| 0 <= k < r - j && pat[j..r][k] == y;
      assert q[j + k] == y && q[j + k] in q;
    }
  }

  /** No call to the right finds the text, on the way to the row with the twin. */
  lemma {:induction false} RightFails(pat: Pattern, q: Pattern, l: nat, i: nat, j: nat, p: nat, c: Byte)
    requires Jumpy(pat, q, l, i, p, c) && l < j <= i < |pat| == |q| && p < |pat[i].syms| && Canonical(pat)
    ensures Heading(l, |pat|, j, false, true) && !Answer(pat, l, j, JumpText(pat, i, j, p, c), false, true)
    decreases i - j
  {
    hide *;
    JumpyTells(pat, q, l, i, p, c);
    RightOfLongest(pat, q, l, i, j);
    JumpTextIs(pat, i, j, p, c);
    var v, d, n := JumpText(pat, i, j, p, c), |pat[i].syms| - 1 - p, |pat[j].syms|;
    if Answer(pat, l, j, v, false, true) {
      var lead := Lead0(pat[j]);
      RightWindow(pat, l, j, v, d);
      if j == i {
        assert v[0..] == v;
        LeadIs(pat[i]);
        TwinSkipped(pat, q, l, i, p, c, v, 0);
        OneTry(pat, l, i, v, false, true, 0, d);
      } else {
        JumpTextHead(pat, i, j, p, c);
        RightFails(pat, q, l, i, j + 1, p, c);
        var st := SearchFinds(pat, l, j, v, false, true, lead, lead + (if pat[j].lead < 0 then d else 0) + n);
        SidesTell(pat, l, j, v[..st - lead], v[st + n..], false, true);
        SampleRowSize(pat[j]);
        assert v[lead + n..] == JumpText(pat, i, j + 1, p, c);
        LeadIs(pat[j]);
        RowOrFixed(pat[j]);
        NoLaterRow(pat, q, l, i, j, p, c, st);
        SplitAt(pat, j);
        RightIsSound(pat, q, l, j, v[st + n..]);
      }
    }
  }

  lemma RowOrFixed(p: Part)
    requires !Gap(p)
    ensures p.lead < 0 ==> p.syms != []
  {
  }

  lemma SampleRowSize(p: Part)
    requires CanonicalPart(p)
    ensures |SampleRow(p)| == |p.syms| && |Fillers(Lead0(p))| == Lead0(p)
  {
  }

  lemma RightOfLongest(pat: Pattern, q: Pattern, l: nat, i: nat, j: nat)
    requires Facing(pat, q, l) && Reached(pat, l, i) && l < j <= i < |pat| && pat[i].syms != [] && pat[i].lead < 0
    requires Stars(pat[i + 1..]) > 0
    ensures Reached(pat, l, j) && Heading(l, |pat|, j, false, true) && !Gap(pat[j]) && Stars(pat[j + 1..]) > 0
  {
    hide LeftEdge, Stars;
    if j < i {
      StarFrom(pat, i, j + 1);
    }
  }

  lemma RightIsSound(pat: Pattern, q: Pattern, l: nat, j: nat, y: Text)
    requires Facing(pat, q, l) && Reached(pat, l, j) && Heading(l, |pat|, j, false, true) && !Gap(pat[j])
    requires j + 1 < |pat| && |y| >= Width(pat[j + 1..])
    requires Heading(l, |pat|, j + 1, false, true) && Answer(pat, l, j + 1, y, false, true)
    ensures j + 1 < |q| && Lang(q[j + 1..], y)
  {
    hide Facing, Answer, Lang, LeftEdge, RightEdge, Width, Stars;
    NeighboursReached(pat, q, l, j, false, true);
    FacingAligned(pat, q, l, j);
    AnswerIsSound(pat, q, l, j + 1, y, false, true);
  }

  // ---------------------------------------------------------------- the longest part, and the whole text

  /** The window of the longest part, in front of a '*', leaves as many places as there are characters to spare. */
  lemma LongestWindow(pat: Pattern, l: nat, s: Text, d: nat)
    requires Heading(l, |pat|, l, true, true) && !Gap(pat[l]) && Stars(pat[l + 1..]) > 0
    requires |s| == Width(pat) + d && d > 0
    requires Answer(pat, l, l, s, true, true)
    ensures var start := Lead0(pat[l]) + Width(pat[..l]);
      Search(pat, l, l, s, true, true, start, start + (if Stars(pat[..l + 1]) == 0 then 0 else d) + |pat[l].syms|)
  {
    hide Search, Width, Stars;
    SplitAt(pat, l);
  }

  /** The longest row has its place at once, and moves on past the text to spare when the rest does not follow. */
  lemma LongestFails(pat: Pattern, q: Pattern, l: nat, i: nat, p: nat, c: Byte)
    requires Jumpy(pat, q, l, i, p, c) && l < |pat| == |q| && i < |pat| && p < |pat[i].syms| && Canonical(pat)
    ensures Heading(l, |pat|, l, true, true) && !Answer(pat, l, l, JumpText(pat, i, 0, p, c), true, true)
  {
    hide *;
    JumpyTells(pat, q, l, i, p, c);
    LongestIsRow(pat, q, l, i, p, c);
    JumpTextIs(pat, i, 0, p, c);
    JumpTextIs(pat, i, l, p, c);
    StretchedFrom(pat, i, |pat[i].syms| - 1 - p, TwinRow(pat[i], p, c), l);
    SampleFits(pat[..l]);
    assert pat[0..] == pat;
    var s, d, n, w := JumpText(pat, i, 0, p, c), |pat[i].syms| - 1 - p, |pat[l].syms|, Width(pat[..l]);
    var start := Lead0(pat[l]) + w;
    assert s[w..] == JumpText(pat, i, l, p, c);
    if Answer(pat, l, l, s, true, true) {
      LongestWindow(pat, l, s, d);
      SplitAt(pat, l);
      var spare := if Stars(pat[..l + 1]) == 0 then 0 else d;
      if i == l {
        MovableStars(pat, l);
        JumpTextAt(pat, i, p, c);
        TwinSkipped(pat, q, l, i, p, c, s, w);
      } else {
        LongestStands(pat, q, l, i, p, c, s, w);
        SkipAfterHit(pat[l].syms, s, start);
        RightFails(pat, q, l, i, l + 1, p, c);
        SidesTellNot(pat, l, s[..start - Lead0(pat[l])], s[start + n..]);
      }
      OneTry(pat, l, l, s, true, true, start, spare);
    }
  }

  lemma MovableStars(pat: Pattern, l: nat)
    requires Movable(pat, l, l)
    ensures Stars(pat[..l + 1]) > 0
  {
  }

  lemma LongestIsRow(pat: Pattern, q: Pattern, l: nat, i: nat, p: nat, c: Byte)
    requires Jumpy(pat, q, l, i, p, c)
    ensures l < |pat| && Heading(l, |pat|, l, true, true) && !Gap(pat[l]) && Stars(pat[l + 1..]) > 0
    ensures CanonicalPart(pat[l]) && NoNegatedSym(pat[l].syms) && (i == l ==> Movable(pat, l, l))
  {
    hide *;
    JumpyTells(pat, q, l, i, p, c);
    JumpyMoves(pat, q, l, i, p, c);
    FacingAligned(pat, q, l, l);
    AlignedRow(pat, q, l, l);
    RowPlain(q, l);
    CanonicalAt(pat, l);
    if l < i {
      StarFrom(pat, i, l + 1);
    }
  }

  lemma JumpyMoves(pat: Pattern, q: Pattern, l: nat, i: nat, p: nat, c: Byte)
    requires Jumpy(pat, q, l, i, p, c)
    ensures Movable(pat, l, i) && Reached(pat, l, l) && Heading(l, |pat|, l, true, true)
    ensures |pat[l].syms| > 0 ==> !Gap(pat[l])
  {
  }

  lemma LongestStands(pat: Pattern, q: Pattern, l: nat, i: nat, p: nat, c: Byte, s: Text, w: nat)
    requires Jumpy(pat, q, l, i, p, c) && l < i < |pat| == |q| && p < |pat[i].syms| && Canonical(pat)
    requires w <= |s| && s[w..] == JumpText(pat, i, l, p, c)
    ensures var e := w + Lead0(pat[l]) + |pat[l].syms|;
      && RowHits(pat[l].syms, s, w + Lead0(pat[l])) && e <= |s| && s[e..] == JumpText(pat, i, l + 1, p, c)
  {
    hide *;
    LongestIsRow(pat, q, l, i, p, c);
    JumpTextHead(pat, i, l, p, c);
    SampleRowSize(pat[l]);
    SampleRowSpells(pat[l]);
    var at, n := w + Lead0(pat[l]), |pat[l].syms|;
    assert s[at..at + n] == s[w..][at - w..at - w + n] == SampleRow(pat[l]);
    assert s[at + n..] == s[w..][at - w + n..];
    SpelledHits(SampleRow(pat[l]), pat[l], s, at);
  }

  lemma SampleRowSpells(p: Part)
    requires CanonicalPart(p)
    ensures Spells(SampleRow(p), p)
  {
  }

  lemma SidesTellNot(pat: Pattern, l: nat, x: Text, y: Text)
    requires Heading(l, |pat|, l, true, true) && l + 1 < |pat|
    requires Heading(l, |pat|, l + 1, false, true) && !Answer(pat, l, l + 1, y, false, true)
    ensures !Sides(pat, l, l, x, y, true, true)
  {
    hide Answer;
  }

  // ---------------------------------------------------------------- every text found, or not

  lemma SoughtJumpy(pat: Pattern, i: nat, p: nat, c: Byte)
    requires pat != [] && Canonical(pat) && NoNegation(Sought(pat)) && Movable(pat, Longest(pat), i)
    requires i < |pat| && Twin(pat[i].syms, p, c)
    ensures Jumpy(pat, Sought(pat), Longest(pat), i, p, c)
  {
    hide Canonical, NoNegation, Sought, Movable, Twin, SameBehind, Facing;
    CanonicalIsValid(pat);
    SoughtFaces(pat);
    SoughtBehind(pat);
  }

  lemma SoughtBehind(pat: Pattern)
    requires pat != [] && ValidPattern(pat)
    ensures SameBehind(pat, Sought(pat), Longest(pat))
  {
    hide Longest, LeftEdge, RightEdge, Stars, Width, Sought;
    var r := RightEdge(pat, Longest(pat)) + 1;
    NothingBehind(pat, r);
    SameUpToGap(pat);
    SoughtWidths(pat, r);
    NoStarInside(Sought(pat)[r..]);
  }

  lemma SameUpToGap(pat: Pattern)
    requires pat != [] && ValidPattern(pat)
    ensures forall k :: Longest(pat) < k <= RightEdge(pat, Longest(pat)) ==> Sought(pat)[k] == pat[k]
  {
    hide Longest, LeftEdge, RightEdge, Stars, Sought;
    forall k | Longest(pat) < k <= RightEdge(pat, Longest(pat)) ensures Sought(pat)[k] == pat[k] {
      SoughtPart(pat, k);
    }
  }

  lemma NothingBehind(pat: Pattern, r: nat)
    requires pat != [] && r == RightEdge(pat, Longest(pat)) + 1
    ensures forall k :: r <= k < |pat| ==> Sought(pat)[k].lead >= 0
  {
    hide Longest, LeftEdge, Stars;
    forall k | r <= k < |pat| ensures Sought(pat)[k].lead >= 0 {
      assert Seen(pat, Longest(pat))[k].lead >= 0;
    }
  }

  /** What is in front of the longest row takes more fillers, if it is its row that is movable. */
  lemma FillersInFront(pat: Pattern, l: nat, d: nat)
    requires Canonical(pat) && Movable(pat, l, l) && pat[l].lead >= 0 && !RowBefore(pat, l, l)
    ensures Lang(pat[..l], Sample(pat[..l]) + Fillers(d))
  {
    var k := LeftEdge(pat, l);
    UsedToFillers(pat, l, k);
    hide *;
    CanonicalSlice(pat, k, l);
    CanonicalSlice(pat, k, k);
    assert pat[..l] == pat[..k] + pat[k..l];
    SampleThenFillers(pat[..k], pat[k..l], d);
  }

  lemma SampleThenFillers(a: Pattern, u: Pattern, d: nat)
    requires Canonical(a) && Canonical(u) && ValidPattern(u) && Stars(u) > 0
    requires forall j :: 0 <= j < |u| && u[j].syms != [] ==> Stars(u[..j + 1]) == 0
    ensures Canonical(a + u) && Lang(a + u, Sample(a + u) + Fillers(d))
  {
    hide *;
    SampleJoin(a, u);
    SampleFits(a);
    SampleFits(u);
    var s := Sample(u) + Fillers(d);
    assert s[..|Sample(u)|] == Sample(u) && s[..|s|] == s;
    AnyEnd(u, s, |Sample(u)|, |s|);
    LangJoin(a, u, Sample(a), s);
    assert Sample(a) + s == Sample(a + u) + Fillers(d);
  }

  lemma UsedToFillers(pat: Pattern, l: nat, k: nat)
    requires Canonical(pat) && Movable(pat, l, l) && pat[l].lead >= 0 && !RowBefore(pat, l, l)
    requires l < |pat| && k == LeftEdge(pat, l)
    ensures k <= l && ValidPattern(pat[k..l]) && Stars(pat[k..l]) > 0
    ensures forall j :: 0 <= j < l - k && pat[k..l][j].syms != [] ==> Stars(pat[k..l][..j + 1]) == 0
  {
    hide LeftEdge, RightEdge, Stars, Canonical;
    CanonicalIsValid(pat);
    MovableStars(pat, l);
    SplitAt(pat, l);
    if k > 0 {
      StarFrom(pat[..l], k, k);
      assert pat[..l][k..] == pat[k..l];
    } else {
      assert pat[..l] == pat[k..l];
    }
    forall j | 0 <= j < l - k && pat[k..l][j].syms != [] ensures Stars(pat[k..l][..j + 1]) == 0 {
      RowTooEarly(pat, l, k, j);
    }
  }

  lemma RowTooEarly(pat: Pattern, l: nat, k: nat, j: nat)
    requires !RowBefore(pat, l, l) && l < |pat| && k == LeftEdge(pat, l) && k + j < l && pat[k + j].syms != []
    ensures Stars(pat[k..l][..j + 1]) == 0
  {
    assert Reached(pat, l, k + j);
    hide LeftEdge, RightEdge, Stars;
    assert !RowAfterStar(pat, l, l, k + j);
    if k > 0 {
      StarSince(pat, k, k + j + 1);
    } else {
      assert pat[k..l][..j + 1] == pat[..k + j + 1];
    }
  }

  /** A movable row, and no row before it stands at a fixed distance from it. */
  ghost predicate Unheld(pat: Pattern, l: nat, i: nat)
  {
    Movable(pat, l, i) && (i == l < |pat| && pat[l].lead >= 0 ==> !RowBefore(pat, l, l))
  }

  /** A movable row that repeats a character loses a text, unless another row holds it in place. */
  lemma TwinLoses(pat: Pattern, i: nat) returns (s: Text)
    requires pat != [] && Canonical(pat) && NoNegation(Sought(pat)) && i < |pat|
    requires Unheld(pat, Longest(pat), i) && Repeats(pat[i].syms)
    ensures Lang(pat, s) && !Matches(pat, s)
  {
    hide *;
    var q, l := Sought(pat), Longest(pat);
    var p, c := TwinOf(pat[i].syms);
    UnheldTells(pat, l, i);
    SoughtJumpy(pat, i, p, c);
    JumpyTells(pat, q, l, i, p, c);
    JumpTextIs(pat, i, 0, p, c);
    assert pat[0..] == pat;
    s := JumpText(pat, i, 0, p, c);
    if pat[i].lead >= 0 {
      FillersInFront(pat, l, |pat[i].syms| - 1 - p);
    }
    StretchedFits(pat, i, |pat[i].syms| - 1 - p, TwinRow(pat[i], p, c));
    LongestFails(pat, q, l, i, p, c);
    MatchesFolds(pat, s);
  }

  lemma UnheldTells(pat: Pattern, l: nat, i: nat)
    requires Unheld(pat, l, i)
    ensures Movable(pat, l, i) && (i == l < |pat| && pat[l].lead >= 0 ==> !RowBefore(pat, l, l))
  {
  }

  lemma LooseNeverHeld(pat: Pattern)
    requires pat != []
    requires forall i :: 0 <= i < |pat| && Unheld(pat, Longest(pat), i) ==> !Repeats(pat[i].syms)
    ensures AllLoose(pat) ==> NoneRepeats(pat)
  {
    hide Longest, Movable, Repeats, RowBefore, StarFollows;
  }

  /** What holds of every pattern that loses no text. */
  lemma FoundThenHarmless(pat: Pattern)
    requires pat != [] && Canonical(pat) && forall s :: Lang(pat, s) ==> Matches(pat, s)
    ensures NoNegation(Sought(pat)) && !Cut(pat)
    ensures forall i :: 0 <= i < |pat| && Unheld(pat, Longest(pat), i) ==> !Repeats(pat[i].syms)
    ensures AllLoose(pat) ==> NoneRepeats(pat)
  {
    hide *;
    CanonicalIsValid(pat);
    SampleFits(pat);
    MatchMeans(pat, Sample(pat));
    forall s | Lang(pat, s) ensures Lang(Sought(pat), s) {
      MatchMeans(pat, s);
    }
    SoughtExactly(pat);
    forall i | 0 <= i < |pat| && Unheld(pat, Longest(pat), i) ensures !Repeats(pat[i].syms) {
      if Repeats(pat[i].syms) {
        var s := TwinLoses(pat, i);
      }
    }
    LooseNeverHeld(pat);
  }

  /** Where no row stands at a fixed distance from a movable one: the matcher finds every text of the pattern exactly
      if no symbol that is looked at is negated, no row loses the '*' in front of it, and no movable row has a character
      in two symbols. */
  lemma FindsAllExactly(pat: Pattern)
    requires pat != [] && Canonical(pat) && AllLoose(pat)
    ensures (forall s :: Lang(pat, s) ==> Matches(pat, s))
      <==> NoNegation(Sought(pat)) && !Cut(pat) && NoneRepeats(pat)
  {
    hide *;
    if forall s :: Lang(pat, s) ==> Matches(pat, s) {
      FoundThenHarmless(pat);
    } else if NoNegation(Sought(pat)) && !Cut(pat) && NoneRepeats(pat) {
      CanonicalIsValid(pat);
      forall s | Lang(pat, s) ensures Matches(pat, s) {
        SoughtHasAll(pat, s);
        FindsAllItSeeks(pat, s);
      }
    }
  }

  /** A word between two '*' is always found exactly if no character belongs to two of its symbols. */
  lemma StarredWordExactly(w: seq<Sym>)
    requires w != [] && Canonical([Part(-1, w), Part(-1, [])]) && NoNegatedSym(w)
    ensures var pat := [Part(-1, w), Part(-1, [])];
      (forall s :: Lang(pat, s) ==> Matches(pat, s)) <==> !Repeats(w)
  {
    var pat := [Part(-1, w), Part(-1, [])];
    hide Canonical, Lang, Matches, Repeats, AllLoose, NoneRepeats, Cut, NoNegation, Movable;
    StarredWord(w);
    OneRowMoves(pat);
    FindsAllExactly(pat);
  }

  lemma StarredWord(w: seq<Sym>)
    requires w != [] && NoNegatedSym(w)
    ensures var pat := [Part(-1, w), Part(-1, [])];
      Longest(pat) == 0 && NoNegation(Sought(pat)) && Movable(pat, 0, 0)
  {
    var pat := [Part(-1, w), Part(-1, [])];
    assert pat[1..] == [pat[1]] && [pat[1]][1..] == [];
    assert Longest(pat) == 0;
    assert LeftEdge(pat, 0) == 0 && RightEdge(pat, 0) == 1;
    assert pat[..1] == [pat[0]] && [pat[0]][1..] == [];
    assert pat[0 + 1..] == [pat[1]];
    assert Stars([pat[1]]) == 1 && Stars([pat[0]]) == 1;
    forall p | p in Sought(pat) ensures NoNegatedSym(p.syms) {
      assert p == Sought(pat)[0] || p == Sought(pat)[1];
    }
  }

  lemma OneRowMoves(pat: Pattern)
    requires |pat| == 2 && Longest(pat) == 0 && pat[0].lead < 0 && pat[1].syms == [] && Movable(pat, 0, 0)
    ensures AllLoose(pat) && !Cut(pat) && (NoneRepeats(pat) <==> !Repeats(pat[0].syms))
  {
    hide Repeats, Longest, LeftEdge, RightEdge, Stars;
  }
}
