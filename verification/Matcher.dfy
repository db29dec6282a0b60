/** match_substring and match_wild_reg_exp (libAfterBase/regexp.c): start at the longest part, then
    work outwards, each part pinned as far as the offsets allow. */
module Matcher {
  import opened Common
  import opened CharClass
  import opened PatternLanguage
  import opened CompiledPattern
  import opened MatchAnswer
  import opened MatchMeaning

  // ---------------------------------------------------------------- one symbol, one row

  /** Scans one symbol's code for c and, on a hit, moves on to the code of the next symbol. */
  method ScanSymbol(symbols: seq<Byte>, at: nat, c: Byte, ghost code: Code, ghost rest: seq<Byte>)
    returns (hit: bool, next: nat)
    requires WellFormed(code) && Reading(symbols, at, code, rest)
    ensures hit == Has(code, c)
    ensures hit ==> next <= |symbols| && symbols[next..] == rest
  {
    hide *;
    NoZeroInside(code);
    NothingHas();
    ReadingAt(symbols, at, code, rest);
    var sym: nat := at;
    ghost var left := code;
    hit := false;
    while symbols[sym] != 0
      invariant sym < |symbols| && Reading(symbols, sym, left, rest) && 0 !in left
      invariant !hit && WellFormed(left) && Has(code, c) == Has(left, c)
      decreases |left|
    {
      ReadingAt(symbols, sym, left, rest);
      CodeStep(left);
      HasStep(left, c);
      if symbols[sym] == RANGE {
        sym := sym + 1;
        var r1 := symbols[sym];
        sym := sym + 1;
        if c >= r1 && c <= symbols[sym] {
          ReadingOn(symbols, sym - 2, left, rest, 2);
          hit, left := true, left[2..];
          break;
        }
        ReadingOn(symbols, sym - 2, left, rest, 3);
        left := left[3..];
      } else {
        if c == symbols[sym] {
          hit := true;
          break;
        }
        ReadingOn(symbols, sym, left, rest, 1);
        left := left[1..];
      }
      sym := sym + 1;
    }
    ReadingAt(symbols, sym, left, rest);
    next := sym;
    if hit {
      next := SkipSymbol(symbols, sym, left, rest);
    }
  }

  /** Goes on to the code of the next symbol. */
  method SkipSymbol(symbols: seq<Byte>, at: nat, ghost code: Code, ghost rest: seq<Byte>) returns (next: nat)
    requires Reading(symbols, at, code, rest) && 0 !in code
    ensures next <= |symbols| && symbols[next..] == rest
  {
    hide *;
    next := at;
    ghost var left := code;
    ReadingAt(symbols, next, left, rest);
    while symbols[next] != 0
      invariant next < |symbols| && Reading(symbols, next, left, rest) && 0 !in left
      decreases |left|
    {
      ReadingAt(symbols, next, left, rest);
      ReadingOn(symbols, next, left, rest, 1);
      next := next + 1;
      left := left[1..];
    }
    ReadingAt(symbols, next, left, rest);
    next := next + 1;
  }

  /** Compares one row right to left, as far as it fits. c is the last character compared. */
  method CompareRow(r: RegExp, s: Text, start: nat, pos: int, ghost p: Part) returns (offset: int, c: Byte)
    requires ValidPart(p) && RowOf(r, p)
    requires pos == start + r.size - 1 && pos < |s|
    ensures offset == RowStop(p.syms, s, start, pos)
    ensures offset < start <==> RowHits(p.syms, s, start)
    ensures c == if p.syms == [] then 0 else s[Max(offset, start)]
  {
    hide *;
    RowBegins(r, p);
    RowStopIsHit(p.syms, s, start);
    ghost var codes, stop := BackwardCodes(p.syms), RowStop(p.syms, s, start, pos);
    var sym: nat, neg: nat := 0, 0;
    c := 0;
    offset := pos;
    while offset >= start
      invariant start - 1 <= offset <= pos && neg == pos - offset
      invariant sym <= |r.symbols| && r.symbols[sym..] == Flat(codes[neg..])
      invariant stop == RowStop(p.syms, s, start, offset)
      invariant c == if offset == pos then 0 else s[offset + 1]
    {
      NextSymbol(r, p, sym, neg);
      RowStopStep(p.syms, s, start, offset);
      c := s[offset];
      var hit, next := ScanSymbol(r.symbols, sym, c, codes[neg], Flat(codes[neg + 1..]));
      if !hit || r.negation[neg] {
        MaxIs(offset, start);
        return;
      }
      sym, neg, offset := next, neg + 1, offset - 1;
    }
    RowStopStep(p.syms, s, start, offset);
    MaxIs(offset, start);
  }

  lemma MaxIs(a: int, b: int)
    ensures Max(a, b) == if a < b then b else a
  {
  }

  lemma RowStopStep(syms: seq<Sym>, s: Text, start: int, offset: int)
    requires 0 <= start && start - 1 <= offset < start + |syms| && offset < |s|
    ensures RowStop(syms, s, start, offset) ==
      if offset < start || syms[offset - start].negate || !Has(syms[offset - start].code, s[offset]) then offset
      else RowStop(syms, s, start, offset - 1)
  {
  }

  lemma RowBegins(r: RegExp, p: Part)
    requires RowOf(r, p)
    ensures r.size == |p.syms| && r.symbols[0..] == Flat(BackwardCodes(p.syms)[0..])
  {
    assert BackwardCodes(p.syms)[0..] == BackwardCodes(p.syms);
  }

  lemma NextSymbol(r: RegExp, p: Part, sym: nat, neg: nat)
    requires ValidPart(p) && RowOf(r, p) && neg < |p.syms|
    requires sym <= |r.symbols| && r.symbols[sym..] == Flat(BackwardCodes(p.syms)[neg..])
    ensures var codes, y := BackwardCodes(p.syms), p.syms[|p.syms| - 1 - neg];
      && codes[neg] == y.code && WellFormed(y.code) && neg < |r.negation| && r.negation[neg] == y.negate
      && Reading(r.symbols, sym, codes[neg], Flat(codes[neg + 1..]))
  {
    var codes := BackwardCodes(p.syms);
    assert codes[neg..][1..] == codes[neg + 1..];
    assert p.syms[|p.syms| - 1 - neg] in p.syms;
  }

  /** The comparison gets past the start exactly if every symbol hits. */
  lemma RowStopIsHit(syms: seq<Sym>, s: Text, start: nat)
    requires start + |syms| <= |s|
    ensures RowStop(syms, s, start, start + |syms| - 1) < start <==> RowHits(syms, s, start)
  {
    var pos := start + |syms| - 1;
    RowStopTells(syms, s, start, pos);
    if RowHits(syms, s, start) {
      forall k | start <= k <= pos ensures Hit(syms[k - start], s[k]) {
        assert s[start + (k - start)] == s[k];
      }
    } else if forall k :: start <= k <= pos ==> Hit(syms[k - start], s[k]) {
      forall k | 0 <= k < |syms| ensures Hit(syms[k], s[start + k]) {
        assert syms[start + k - start] == syms[k];
      }
      assert false;
    }
  }

  // ---------------------------------------------------------------- the search

  lemma AlignedWithItself(pat: Pattern, l: nat, i: nat)
    requires i < |pat|
    ensures Aligned(pat, pat, l, i)
  {
  }

  method TryLeft(w: WildRegExp, i: nat, x: Text, y: Text, left: bool, right: bool, ghost pat: Pattern)
    returns (bres: int)
    requires Compiled(w, pat) && Heading(w.longest, |pat|, i, left, right) && SidesRoom(pat, i, x, y, left, right)
    ensures bres == if left && i > 0 ==> Answer(pat, w.longest, i - 1, x, true, false) then 0 else -1
    decreases Rank(|pat|, i, left, right), 0
  {
    hide *;
    HeadingOn(w.longest, |pat|, i, left, right);
    bres := 0;
    if left && i > 0 {
      RoomLeft(pat, i, x, y, left, right);
      bres := MatchSubstring(w, i - 1, x, true, false, pat);
    }
  }

  method TryRight(w: WildRegExp, i: nat, x: Text, y: Text, left: bool, right: bool, ghost pat: Pattern)
    returns (bres: int)
    requires Compiled(w, pat) && Heading(w.longest, |pat|, i, left, right) && SidesRoom(pat, i, x, y, left, right)
    ensures bres == if right && i + 1 < |pat| ==> Answer(pat, w.longest, i + 1, y, false, true) then 0 else -1
    decreases Rank(|pat|, i, left, right), 0
  {
    hide *;
    PartsOf(w, pat);
    HeadingOn(w.longest, |pat|, i, left, right);
    bres := 0;
    if right && i + 1 < |w.parts| {
      RoomRight(pat, i, x, y, left, right);
      bres := MatchSubstring(w, i + 1, y, false, true, pat);
    }
  }

  lemma RoomLeft(pat: Pattern, i: nat, x: Text, y: Text, left: bool, right: bool)
    requires 0 < i < |pat| && left && SidesRoom(pat, i, x, y, left, right)
    ensures Room(pat, i - 1, x, true, false)
  {
  }

  lemma RoomRight(pat: Pattern, i: nat, x: Text, y: Text, left: bool, right: bool)
    requires i + 1 < |pat| && right && SidesRoom(pat, i, x, y, left, right)
    ensures Room(pat, i + 1, y, false, true)
  {
  }

  lemma HeadingOn(l: nat, n: nat, i: nat, left: bool, right: bool)
    requires Heading(l, n, i, left, right)
    ensures i < n && (right && i + 1 < n ==> Heading(l, n, i + 1, false, true) && Rank(n, i + 1, false, true) < Rank(n, i, left, right))
    ensures left && i > 0 ==> Heading(l, n, i - 1, true, false) && Rank(n, i - 1, true, false) < Rank(n, i, left, right)
  {
  }

  lemma PartsOf(w: WildRegExp, pat: Pattern)
    requires Compiled(w, pat)
    ensures |w.parts| == |pat| && pat != [] && w.longest == Longest(pat) && ValidPattern(pat)
    ensures w.hardTotal + w.softTotal == Width(pat)
  {
  }

  lemma PartOf(w: WildRegExp, pat: Pattern, i: nat)
    requires Compiled(w, pat) && i < |pat|
    ensures |w.parts| == |pat| && ValidPart(pat[i]) && Represents(w.parts[i], pat[i]) && OffsetsOf(w.parts[i], pat, i)
  {
  }

  /** The row matched: now the parts to the left in x, then the parts to the right in y. */
  method TrySides(w: WildRegExp, i: nat, x: Text, y: Text, left: bool, right: bool, ghost pat: Pattern)
    returns (bres: int)
    requires Compiled(w, pat) && Heading(w.longest, |pat|, i, left, right) && SidesRoom(pat, i, x, y, left, right)
    ensures bres == if Sides(pat, w.longest, i, x, y, left, right) then 0 else -1
    decreases Rank(|pat|, i, left, right), 1
  {
    hide Room, Answer, Compiled;
    bres := TryLeft(w, i, x, y, left, right, pat);
    if bres == 0 {
      bres := TryRight(w, i, x, y, left, right, pat);
    }
  }

  /** Compares the row at one place, and works out how far to move on from there. */
  method TryRow(w: WildRegExp, i: nat, s: Text, start: nat, pos: int, ghost pat: Pattern) returns (hit: bool, skip: nat)
    requires Compiled(w, pat) && i < |w.parts| && i < |pat| && pos == start + w.parts[i].size - 1
    requires w.parts[i].size == |pat[i].syms| && start + |pat[i].syms| <= |s|
    ensures hit <==> RowHits(pat[i].syms, s, start)
    ensures skip == Skip(pat[i].syms, s, start) >= 1
  {
    hide *;
    PartOf(w, pat, i);
    LeadOf(w.parts[i], pat[i]);
    var r := w.parts[i];
    var offset, c := CompareRow(r, s, start, pos, pat[i]);
    SkipIs(r, pat[i], s, start, offset, c);
    hit := offset < start;
    skip := pos - offset + 1;
    if skip < r.skip[c] {
      skip := r.skip[c];
    }
  }

  lemma LeadOf(r: RegExp, p: Part)
    requires Represents(r, p)
    ensures r.size == |p.syms| && RowOf(r, p) && Lead0(p) == if r.leadLen < 0 then 0 else r.leadLen
  {
  }

  lemma SkipIs(r: RegExp, p: Part, s: Text, start: nat, offset: int, c: Byte)
    requires Represents(r, p) && start + |p.syms| <= |s| && offset == RowStop(p.syms, s, start, start + |p.syms| - 1)
    requires c == if p.syms == [] then 0 else s[Max(offset, start)]
    ensures |r.skip| == 256 && start + |p.syms| - offset >= 1
    ensures var k := start + |p.syms| - offset; Skip(p.syms, s, start) == if k < r.skip[c] then r.skip[c] else k
  {
  }

  /** The window, as the offsets and flags give it. */
  method FindWindow(r: RegExp, i: nat, s: Text, left: bool, right: bool, ghost pat: Pattern)
    returns (ok: bool, start: int, end: int)
    requires i < |pat| && Represents(r, pat[i]) && OffsetsOf(r, pat, i)
    ensures WindowOf(pat, i, s, left, right) == if ok then Window.Window(start, end) else Nowhere
  {
    var len, size := |s|, r.size;
    var leadLen := if r.leadLen < 0 then 0 else r.leadLen;
    ok := true;
    start := if left then r.leftOffset else leadLen;
    end := if right then len - r.rightOffset else len;
    if r.leftFixed || (!left && r.leadLen >= 0) {
      if r.rightFixed {
        if end - start != size {
          ok := false;
        }
      } else {
        end := start + size;
      }
    } else if r.rightFixed || !right {
      start := end - size;
    }
  }

  /** One call of match_substring on part i. `left` and `right` are the direction bits. */
  method MatchSubstring(w: WildRegExp, i: nat, s: Text, left: bool, right: bool, ghost pat: Pattern) returns (res: int)
    requires Compiled(w, pat) && Heading(w.longest, |pat|, i, left, right) && Room(pat, i, s, left, right)
    ensures res == if Answer(pat, w.longest, i, s, left, right) then 0 else -1
    decreases Rank(|pat|, i, left, right), 4
  {
    hide Compiled, Room, Search;
    PartOf(w, pat, i);
    var r := w.parts[i];
    var len, size := |s|, r.size;
    if len < size {
      return -1;
    }
    if size == 0 && (r.leadLen < 0 || len == r.leadLen) {
      return 0;
    }
    hide Tried, WindowOf;
    AlignedWithItself(pat, w.longest, i);
    WindowMeans(pat, pat, w.longest, i, s, left, right);
    var ok, start, end := FindWindow(r, i, s, left, right, pat);
    if !ok {
      return -1;
    }
    res := SearchFrom(w, i, s, left, right, start, end, pat);
  }

  /** The places of the window one after the other, as far apart as the skips say. */
  method SearchFrom(w: WildRegExp, i: nat, s: Text, left: bool, right: bool, from: int, end: int, ghost pat: Pattern)
    returns (res: int)
    requires Compiled(w, pat) && Heading(w.longest, |pat|, i, left, right) && Room(pat, i, s, left, right)
    requires Tried(pat, i, s, left, right, from, end)
    ensures res == if Search(pat, w.longest, i, s, left, right, from, end) then 0 else -1
    decreases Rank(|pat|, i, left, right), 3
  {
    hide *;
    HeadingTells(w.longest, |pat|, i, left, right);
    PartOf(w, pat, i);
    LeadOf(w.parts[i], pat[i]);
    ghost var found := Search(pat, w.longest, i, s, left, right, from, end);
    var size, lead := w.parts[i].size, if w.parts[i].leadLen < 0 then 0 else w.parts[i].leadLen;
    var start, pos := from, from + size - 1;
    while pos < end
      invariant pos == start + size - 1 && Tried(pat, i, s, left, right, start, end)
      invariant found == Search(pat, w.longest, i, s, left, right, start, end)
      decreases end - pos
    {
      LeastStart(pat, i, s, left, right, start, end);
      GoodPlace(pat, i, s, left, right, start, end);
      OneMorePlace(pat, w.longest, i, s, left, right, start, end);
      var hit, skip := TryRow(w, i, s, start, pos, pat);
      if hit {
        var before, after := s[..start - lead], s[pos + 1..];
        RoomOnBothSides(pat, i, s, left, right, start, before, after);
        var bres := TrySides(w, i, before, after, left, right, pat);
        if bres == 0 {
          return 0;
        }
      }
      TriedOn(pat, i, s, left, right, start, end, skip);
      pos := pos + skip;
      start := start + skip;
    }
    SearchIsOver(pat, w.longest, i, s, left, right, start, end);
    return -1;
  }

  lemma OneMorePlace(pat: Pattern, l: nat, i: nat, s: Text, left: bool, right: bool, start: int, end: int)
    requires Heading(l, |pat|, i, left, right) && Lead0(pat[i]) <= start && start + |pat[i].syms| <= end <= |s|
    ensures Search(pat, l, i, s, left, right, start, end) <==>
      || (RowHits(pat[i].syms, s, start)
          && Sides(pat, l, i, s[..start - Lead0(pat[i])], s[start + |pat[i].syms|..], left, right))
      || Search(pat, l, i, s, left, right, start + Skip(pat[i].syms, s, start), end)
  {
  }

  lemma SearchIsOver(pat: Pattern, l: nat, i: nat, s: Text, left: bool, right: bool, start: int, end: int)
    requires Heading(l, |pat|, i, left, right) && start + |pat[i].syms| > end
    ensures !Search(pat, l, i, s, left, right, start, end)
  {
  }

  /** Does the whole text match? 0 says yes, -1 says no. A yes is always right for the pattern searched for: the
      text matches with every '*' but the first, as far as the longest part, taken for nothing, and with no
      more than the width of what lies beyond a gap. A no is right, as far as that pattern goes, whenever it
      keeps at most one '*' or the text is as short as can be; a negated symbol is never found to match. */
  method MatchWildRegExp(s: Text, w: WildRegExp, ghost pat: Pattern) returns (res: int)
    requires Compiled(w, pat)
    ensures res == if Matches(pat, s) then 0 else -1
    ensures pat != []
    ensures res == 0 ==> Lang(Sought(pat), s) && NoNegation(Sought(pat))
    ensures SurelyFound(pat, s) ==> res == 0
    ensures NothingHidden(pat) && res == 0 ==> Lang(pat, s) && NoNegation(pat)
    ensures NothingHidden(pat) && Stars(pat) <= 1 ==> (res == 0 <==> Lang(pat, s) && NoNegation(pat))
  {
    PartsOf(w, pat);
    hide Compiled, Sought, NothingHidden, Answer;
    MatchMeans(pat, s);
    if NothingHidden(pat) {
      SoughtIsWritten(pat, s);
    }
    if |s| < w.hardTotal + w.softTotal {
      return -1;
    }
    res := MatchSubstring(w, w.longest, s, true, true, pat);
  }
}
