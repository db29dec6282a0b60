/** What match_substring and match_wild_reg_exp (libAfterBase/regexp.c) answer, step by step: the tests, the
    window, the places tried and the skips between them. The meaning of the answer is another matter. */
module MatchAnswer {
  import opened Common
  import opened CharClass
  import opened PatternLanguage
  import opened CompiledPattern

  // ---------------------------------------------------------------- one row

  /** How the matcher tests a symbol: a negated one never hits, whatever the character. */
  ghost predicate Hit(y: Sym, c: Byte)
  {
    !y.negate && Has(y.code, c)
  }

  ghost predicate RowHits(syms: seq<Sym>, s: Text, at: int)
  {
    0 <= at && at + |syms| <= |s| && forall k :: 0 <= k < |syms| ==> Hit(syms[k], s[at + k])
  }

  /** Where the comparison from right to left stops: at the first miss, or in front of the row. */
  ghost function RowStop(syms: seq<Sym>, s: Text, start: int, offset: int): (stop: int)
    requires 0 <= start && start - 1 <= offset < start + |syms| && offset < |s|
    ensures start - 1 <= stop <= offset
    decreases offset - start
  {
    if offset < start || !Hit(syms[offset - start], s[offset]) then offset else RowStop(syms, s, start, offset - 1)
  }

  lemma {:induction false} RowStopTells(syms: seq<Sym>, s: Text, start: int, offset: int)
    requires 0 <= start && start - 1 <= offset < start + |syms| && offset < |s|
    ensures RowStop(syms, s, start, offset) < start <==> forall k :: start <= k <= offset ==> Hit(syms[k - start], s[k])
    decreases offset - start
  {
    if offset >= start && Hit(syms[offset - start], s[offset]) {
      RowStopTells(syms, s, start, offset - 1);
    }
  }

  /** How far the row moves on after it was tried in vain: past the last character compared, and further if
      the skip table says so. */
  ghost function Skip(syms: seq<Sym>, s: Text, start: int): (n: nat)
    requires 0 <= start && start + |syms| <= |s|
    ensures n >= 1
  {
    var pos := start + |syms| - 1;
    var stop := RowStop(syms, s, start, pos);
    var c: Byte := if syms == [] then 0 else s[if stop < start then start else stop];
    Max(pos - stop + 1, SkipFor(BackwardCodes(syms), |syms|, c))
  }

  // ---------------------------------------------------------------- one call

  /** Calls to the left stay left of the longest part, calls to the right stay right of it. */
  ghost predicate Heading(longest: nat, n: nat, i: nat, left: bool, right: bool)
  {
    longest < n && i < n && (left || right) &&
    if left && right then i == longest else if left then i < longest else i > longest
  }

  /** Each call in either direction has fewer parts left to look at. */
  ghost function Rank(n: nat, i: nat, left: bool, right: bool): nat {
    if left && right then n + 1 else if left then i else if i < n then n - i else 0
  }

  /** The starting points to be tried for a row that must end by `end`. */
  datatype Window = Nowhere | Window(start: int, end: int)

  ghost function WindowOf(pat: Pattern, i: nat, s: Text, left: bool, right: bool): Window
    requires i < |pat|
  {
    var start := Lead0(pat[i]) + if left then Width(pat[..i]) else 0;
    var end := if right then |s| - Width(pat[i + 1..]) else |s|;
    var size, rightFixed := |pat[i].syms|, Stars(pat[i + 1..]) == 0;
    if Stars(pat[..i + 1]) == 0 || (!left && pat[i].lead >= 0) then
      if !rightFixed then Window(start, start + size) else if end - start != size then Nowhere else Window(start, end)
    else if rightFixed || !right then Window(end - size, end)
    else Window(start, end)
  }

  /** The answer to one call on part i. `left` and `right` are the direction bits. */
  ghost predicate Answer(pat: Pattern, l: nat, i: nat, s: Text, left: bool, right: bool)
    requires Heading(l, |pat|, i, left, right)
    decreases Rank(|pat|, i, left, right), 2, 0
  {
    if |s| < |pat[i].syms| then false
    else if pat[i].syms == [] && (pat[i].lead < 0 || |s| == pat[i].lead) then true
    else
      var w := WindowOf(pat, i, s, left, right);
      w.Window? && Search(pat, l, i, s, left, right, w.start, w.end)
  }

  /** The search from one starting point on. No row is tried outside the text. */
  ghost predicate Search(pat: Pattern, l: nat, i: nat, s: Text, left: bool, right: bool, start: int, end: int)
    requires Heading(l, |pat|, i, left, right)
    decreases Rank(|pat|, i, left, right), 1, if start < end then end - start else 0
  {
    var n := |pat[i].syms|;
    Within(pat, i, s, start, end) &&
    (|| (RowHits(pat[i].syms, s, start)
         && Sides(pat, l, i, s[..start - Lead0(pat[i])], s[start + n..], left, right))
     || (start < end && Search(pat, l, i, s, left, right, start + Skip(pat[i].syms, s, start), end)))
  }

  ghost predicate Within(pat: Pattern, i: nat, s: Text, start: int, end: int)
    requires i < |pat|
  {
    Lead0(pat[i]) <= start && start + |pat[i].syms| <= end <= |s|
  }

  /** The parts to the left in x, then the parts to the right in y. */
  ghost predicate Sides(pat: Pattern, l: nat, i: nat, x: Text, y: Text, left: bool, right: bool)
    requires Heading(l, |pat|, i, left, right)
    decreases Rank(|pat|, i, left, right), 0, 0
  {
    && (left && i > 0 ==> Answer(pat, l, i - 1, x, true, false))
    && (right && i + 1 < |pat| ==> Answer(pat, l, i + 1, y, false, true))
  }

  /** Does the matcher find the whole text to match? */
  ghost predicate Matches(pat: Pattern, s: Text)
  {
    pat != [] && |s| >= Width(pat) && var l := Longest(pat); Answer(pat, l, l, s, true, true)
  }
}
