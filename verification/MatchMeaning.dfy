/** What the answers of the matcher mean: the text is in the language of the pattern that is really searched
    for. That pattern is not always the one that was written. */
module MatchMeaning {
  import opened Common
  import opened CharClass
  import opened PatternLanguage
  import opened CompiledPattern
  import opened MatchAnswer

  // ---------------------------------------------------------------- the pattern really searched for

  /** Wildcards with a '*' among them, and no symbols. At such a part the matcher is content with any text. */
  predicate Gap(p: Part)
  {
    p.syms == [] && p.lead < 0
  }

  /** The last gap in front of part i, or else the first part. */
  function LeftEdge(pat: Pattern, i: nat): (k: nat)
    requires i < |pat|
    ensures k <= i && (k > 0 ==> k < i && Gap(pat[k])) && forall j :: k < j < i ==> !Gap(pat[j])
  {
    if i == 0 then 0 else if Gap(pat[i - 1]) then i - 1 else LeftEdge(pat, i - 1)
  }

  /** The first gap behind part i, or else the last part. */
  function RightEdge(pat: Pattern, i: nat): (k: nat)
    requires i < |pat|
    ensures i <= k < |pat| && (k < |pat| - 1 ==> i < k && Gap(pat[k])) && forall j :: i < j < k ==> !Gap(pat[j])
    decreases |pat| - i
  {
    if i + 1 == |pat| then i else if Gap(pat[i + 1]) then i + 1 else RightEdge(pat, i + 1)
  }

  /** Beyond its gaps on either side of the longest part, nothing but the width of the pattern is looked at. */
  ghost function Seen(pat: Pattern, l: nat): (q: Pattern)
    requires l < |pat|
    ensures |q| == |pat|
  {
    seq(|pat|, i requires 0 <= i < |pat| =>
      if LeftEdge(pat, l) <= i <= RightEdge(pat, l) then pat[i] else Part(Lead0(pat[i]) + |pat[i].syms|, []))
  }

  /** Working leftwards the search gives up all freedom but one: it lets only the first '*' stretch.
      Every other '*' at or in front of part l is treated as if it were not there. */
  ghost function Narrow(pat: Pattern, l: nat): (q: Pattern)
    ensures |q| == |pat|
  {
    seq(|pat|, i requires 0 <= i < |pat| =>
      if i <= l && pat[i].lead < 0 && Stars(pat[..i]) > 0 && pat[i].syms != [] then pat[i].(lead := 0) else pat[i])
  }

  ghost function Sought(pat: Pattern): (q: Pattern)
    requires pat != []
    ensures |q| == |pat|
  {
    Narrow(Seen(pat, Longest(pat)), Longest(pat))
  }

  /** Nothing but wildcards lies beyond the gaps. */
  ghost predicate NothingHidden(pat: Pattern)
    requires pat != []
  {
    forall i :: 0 <= i < |pat| && !(LeftEdge(pat, Longest(pat)) <= i <= RightEdge(pat, Longest(pat))) ==> pat[i].syms == []
  }

  // ---------------------------------------------------------------- how the two patterns compare

  ghost predicate Tighter(q: Pattern, pat: Pattern)
  {
    |q| == |pat| && forall i :: 0 <= i < |pat| ==>
      q[i].syms == pat[i].syms && (q[i].lead == pat[i].lead || (pat[i].lead < 0 && q[i].lead == 0))
  }

  /** Whatever matches the narrowed pattern matches the pattern. */
  lemma TighterSound(q: Pattern, pat: Pattern, s: Text)
    requires Tighter(q, pat)
    ensures Lang(q, s) ==> Lang(pat, s)
  {
    if Lang(q, s) {
      var f :| Fit(q, s, f);
      TighterFit(q, pat, s, f);
    }
  }

  lemma {:induction false} TighterFit(q: Pattern, pat: Pattern, s: Text, f: seq<int>)
    requires Tighter(q, pat) && Fit(q, s, f)
    ensures Fit(pat, s, f)
  {
    if q != [] {
      TighterFit(q[1..], pat[1..], s[f[0] + |q[0].syms|..], f[1..]);
    }
  }

  /** Part by part as wide as the other, and with no '*' where the other has none. */
  ghost predicate AsWide(q: Pattern, pat: Pattern)
  {
    |q| == |pat| && forall i :: 0 <= i < |pat| ==>
      Lead0(q[i]) + |q[i].syms| == Lead0(pat[i]) + |pat[i].syms| && (q[i].lead < 0 ==> pat[i].lead < 0)
  }

  lemma {:induction false} SameWidth(q: Pattern, pat: Pattern)
    requires AsWide(q, pat)
    ensures Width(q) == Width(pat) && (Stars(pat) == 0 ==> Stars(q) == 0)
  {
    if q != [] {
      SameWidth(q[1..], pat[1..]);
    }
  }

  /** Where the patterns have a '*' at part k, both have one up to any later part. */
  lemma {:induction false} StarSince(pat: Pattern, k: nat, i: nat)
    requires k < i <= |pat| && pat[k].lead < 0
    ensures Stars(pat[..i]) > 0
    decreases i
  {
    SplitAt(pat, i - 1);
    if k < i - 1 {
      StarSince(pat, k, i - 1);
    }
  }

  lemma {:induction false} StarFrom(pat: Pattern, k: nat, i: nat)
    requires i <= k < |pat| && pat[k].lead < 0
    ensures Stars(pat[i..]) > 0
    decreases k - i
  {
    SplitAt(pat, i);
    if i < k {
      StarFrom(pat, k, i + 1);
    }
  }

  /** Narrowing takes no last '*' away. */
  lemma {:induction false} NarrowStars(pat: Pattern, l: nat, k: nat)
    requires k <= |pat|
    ensures Stars(Narrow(pat, l)[..k]) == 0 <==> Stars(pat[..k]) == 0
  {
    if k > 0 {
      NarrowStars(pat, l, k - 1);
      SplitAt(pat, k - 1);
      SplitAt(Narrow(pat, l), k - 1);
    }
  }

  /** Part i means the same in pat, which the matcher follows, and in q, which it searches for: as far as the
      offsets and flags around it go, and except for a '*' behind another one. */
  ghost predicate Aligned(pat: Pattern, q: Pattern, l: nat, i: nat)
  {
    && i < |pat| == |q| && q[i].syms == pat[i].syms
    && (q[i].lead == pat[i].lead || (pat[i].lead < 0 && q[i].lead == 0 && i <= l && pat[i].syms != []))
    && Width(q[..i]) == Width(pat[..i]) && Width(q[i + 1..]) == Width(pat[i + 1..])
    && (!Gap(pat[i]) ==>
         && (Stars(q[..i + 1]) == 0 <==> Stars(pat[..i + 1]) == 0)
         && (Stars(pat[i + 1..]) == 0 ==> Stars(q[i + 1..]) == 0)
         && (i >= l && Stars(q[i + 1..]) == 0 ==> Stars(pat[i + 1..]) == 0))
  }

  ghost predicate Reached(pat: Pattern, l: nat, i: nat)
  {
    l < |pat| && LeftEdge(pat, l) <= i <= RightEdge(pat, l)
  }

  /** q is what the matcher searches for when it follows pat. */
  ghost predicate Facing(pat: Pattern, q: Pattern, l: nat)
  {
    && l < |pat| == |q| && ValidPattern(q) && IsLongest(pat, l)
    && (forall i :: Reached(pat, l, i) ==> Aligned(pat, q, l, i))
    && (forall i :: 0 <= i < |pat| && !Reached(pat, l, i) ==> q[i].syms == [])
  }

  lemma SoughtAligned(pat: Pattern, l: nat, i: nat)
    requires l < |pat| && Reached(pat, l, i) && ValidPattern(pat)
    ensures Aligned(pat, Narrow(Seen(pat, l), l), l, i)
  {
    hide LeftEdge, RightEdge, Width, Stars, Longest;
    var m := Seen(pat, l);
    var q := Narrow(m, l);
    SeenParts(pat, l);
    SameWidth(q[..i], pat[..i]);
    SameWidth(q[i + 1..], pat[i + 1..]);
    if !Gap(pat[i]) {
      NarrowStars(m, l, i + 1);
      SeenStarsLeft(pat, l, i);
      if i >= l {
        NarrowRight(m, l, i);
        SeenStarsRight(pat, l, i);
      }
    }
  }

  lemma SeenParts(pat: Pattern, l: nat)
    requires l < |pat| && ValidPattern(pat)
    ensures AsWide(Narrow(Seen(pat, l), l), pat) && AsWide(Seen(pat, l), pat)
    ensures ValidPattern(Narrow(Seen(pat, l), l))
  {
  }

  lemma SeenStarsLeft(pat: Pattern, l: nat, i: nat)
    requires l < |pat| && Reached(pat, l, i) && ValidPattern(pat)
    ensures Stars(Seen(pat, l)[..i + 1]) == 0 <==> Stars(pat[..i + 1]) == 0
  {
    var m, k := Seen(pat, l), LeftEdge(pat, l);
    if k > 0 {
      StarSince(m, k, i + 1);
      StarSince(pat, k, i + 1);
    } else {
      assert m[..i + 1] == pat[..i + 1];
    }
  }

  lemma SeenStarsRight(pat: Pattern, l: nat, i: nat)
    requires l < |pat| && Reached(pat, l, i) && ValidPattern(pat) && i >= l && !Gap(pat[i])
    ensures Stars(Seen(pat, l)[i + 1..]) == 0 <==> Stars(pat[i + 1..]) == 0
  {
    var m, k := Seen(pat, l), RightEdge(pat, l);
    if k < |pat| - 1 {
      StarFrom(m, k, i + 1);
      StarFrom(pat, k, i + 1);
    } else {
      assert m[i + 1..] == pat[i + 1..];
    }
  }

  lemma NarrowRight(pat: Pattern, l: nat, i: nat)
    requires l <= i < |pat|
    ensures Narrow(pat, l)[i + 1..] == pat[i + 1..]
  {
  }

  lemma SoughtFaces(pat: Pattern)
    requires pat != [] && ValidPattern(pat)
    ensures Facing(pat, Sought(pat), Longest(pat)) && Width(Sought(pat)) == Width(pat)
  {
    var l := Longest(pat);
    SeenParts(pat, l);
    SameWidth(Sought(pat), pat);
    forall i | Reached(pat, l, i) ensures Aligned(pat, Sought(pat), l, i) {
      SoughtAligned(pat, l, i);
    }
    hide LeftEdge, RightEdge, Longest;
    forall i | 0 <= i < |pat| && !Reached(pat, l, i) ensures Sought(pat)[i].syms == [] {
      assert Seen(pat, l)[i].syms == [];
    }
  }

  // ---------------------------------------------------------------- what a call is asked

  ghost predicate LeftTargetAt(parts: Pattern, i: nat, s: Text, m: int)
    requires i + 1 < |parts|
  {
    0 <= m <= |s| && (m == |s| || parts[i + 1].lead < 0) && Lang(parts[..i + 1], s[..m])
  }

  /** The question match_substring answers. To the left the text may run past the parts when the
      part to the right of them starts with '*'. */
  ghost predicate Target(parts: Pattern, i: nat, s: Text, left: bool, right: bool)
    requires i < |parts| && (!right ==> i + 1 < |parts|)
  {
    if left && right then Lang(parts, s)
    else if right then Lang(parts[i..], s)
    else exists m :: LeftTargetAt(parts, i, s, m)
  }

  /** The parts a call looks at. */
  ghost function Covered(parts: Pattern, i: nat, left: bool, right: bool): Pattern
    requires i < |parts|
  {
    if left && right then parts else if right then parts[i..] else parts[..i + 1]
  }

  /** The room every caller leaves: enough characters for all the parts still to be placed. */
  ghost predicate Room(parts: Pattern, i: nat, s: Text, left: bool, right: bool)
    requires i < |parts| && (!right ==> i + 1 < |parts|)
  {
    if left && right then |s| >= Width(parts)
    else if right then |s| >= Width(parts[i..])
    else && |s| >= Width(parts[..i + 1])
         && (Stars(parts[..i + 1]) == 0 && parts[i + 1].lead >= 0 ==> |s| == Width(parts[..i + 1]))
  }

  /** Everything the offsets and flags enforce about the place where a row is tried. */
  ghost predicate Placed(parts: Pattern, i: nat, s: Text, left: bool, right: bool, start: int)
    requires i < |parts|
  {
    var least := Lead0(parts[i]) + if left then Width(parts[..i]) else 0;
    var after := |s| - (start + |parts[i].syms|);
    && least <= start && after >= (if right then Width(parts[i + 1..]) else 0)
    && ((if left then Stars(parts[..i + 1]) == 0 else parts[i].lead >= 0) ==> start == least)
    && (right && Stars(parts[i + 1..]) == 0 ==> after == Width(parts[i + 1..]))
    && (!right && Stars(parts[..i + 1]) != 0 ==> after == 0)
  }

  /** The starting points up to the end are good places; more than one only with a '*' on either side. */
  ghost predicate Tried(parts: Pattern, i: nat, s: Text, left: bool, right: bool, start: int, end: int)
    requires i < |parts|
  {
    var n := |parts[i].syms|;
    && (start + n <= end ==> Placed(parts, i, s, left, right, start) && end <= |s|)
    && (start + n < end ==>
         && right && end == |s| - Width(parts[i + 1..]) && Stars(parts[i + 1..]) != 0
         && if left then Stars(parts[..i + 1]) != 0 else parts[i].lead < 0)
  }

  lemma TriedOn(parts: Pattern, i: nat, s: Text, left: bool, right: bool, start: int, end: int, k: nat)
    requires i < |parts| && Tried(parts, i, s, left, right, start, end) && start + |parts[i].syms| <= end && k > 0
    ensures Tried(parts, i, s, left, right, start + k, end)
  {
  }

  ghost predicate Answered(pat: Pattern, i: nat, s: Text, left: bool, right: bool)
    requires i < |pat| && (!right ==> i + 1 < |pat|)
  {
    Target(pat, i, s, left, right) && NoNegation(Covered(pat, i, left, right))
  }

  /** There is one place for everything: at most one '*', or a text just long enough. */
  ghost predicate Pinned(parts: Pattern, i: nat, s: Text, left: bool, right: bool)
    requires i < |parts|
  {
    Stars(parts) <= 1 || |s| == Width(Covered(parts, i, left, right))
  }

  ghost predicate Wanted(pat: Pattern, i: nat, s: Text, left: bool, right: bool)
    requires i < |pat| && (!right ==> i + 1 < |pat|)
  {
    Pinned(pat, i, s, left, right) && Answered(pat, i, s, left, right)
  }

  /** x is the text handed to the left of the row at start, y the text handed to the right of it. */
  ghost predicate Around(pat: Pattern, i: nat, s: Text, start: nat, x: Text, y: Text)
    requires i < |pat|
  {
    && Lead0(pat[i]) <= start && start + |pat[i].syms| <= |s|
    && x == s[..start - Lead0(pat[i])] && y == s[start + |pat[i].syms|..]
  }

  ghost predicate SidesRoom(pat: Pattern, i: nat, x: Text, y: Text, left: bool, right: bool)
    requires i < |pat|
  {
    && (left && i > 0 ==> Room(pat, i - 1, x, true, false))
    && (right && i + 1 < |pat| ==> Room(pat, i + 1, y, false, true))
  }

  ghost predicate SidesAnswered(pat: Pattern, i: nat, x: Text, y: Text, left: bool, right: bool)
    requires i < |pat|
  {
    && (left && i > 0 ==> Answered(pat, i - 1, x, true, false))
    && (right && i + 1 < |pat| ==> Answered(pat, i + 1, y, false, true))
  }

  ghost predicate SidesWanted(pat: Pattern, i: nat, x: Text, y: Text, left: bool, right: bool)
    requires i < |pat|
  {
    && (left && i > 0 ==> Wanted(pat, i - 1, x, true, false))
    && (right && i + 1 < |pat| ==> Wanted(pat, i + 1, y, false, true))
  }

  lemma RoomOnBothSides(parts: Pattern, i: nat, s: Text, left: bool, right: bool, start: nat, x: Text, y: Text)
    requires i < |parts| && (!right ==> i + 1 < |parts|) && (left || right)
    requires Room(parts, i, s, left, right) && Placed(parts, i, s, left, right, start) && Around(parts, i, s, start, x, y)
    ensures SidesRoom(parts, i, x, y, left, right)
  {
    SplitAt(parts, i);
  }

  // ---------------------------------------------------------------- from a found row to an answer

  lemma LeadInFromLeft(parts: Pattern, i: nat, s: Text, start: nat)
    requires i < |parts| && start <= |s| && Lead0(parts[i]) <= start
    requires i == 0 && parts[0].lead >= 0 ==> start == parts[0].lead
    requires i > 0 ==> Target(parts, i - 1, s[..start - Lead0(parts[i])], true, false)
    ensures LeadIn(parts, i, s[..start])
  {
    if i == 0 {
      LangNothing();
      assert parts[..0] == [] && s[..start][..0] == [];
      assert LeadInAt(parts, i, s[..start], 0);
    } else {
      var t := s[..start - Lead0(parts[i])];
      var m :| LeftTargetAt(parts, i - 1, t, m);
      assert t[..m] == s[..start][..m];
      assert LeadInAt(parts, i, s[..start], m);
    }
  }

  lemma RowFoundToPrefix(parts: Pattern, i: nat, s: Text, start: nat)
    requires i < |parts|
    requires RowAt(parts[i].syms, s, start) && LeadIn(parts, i, s[..start])
    ensures Lang(parts[..i + 1], s[..start + |parts[i].syms|])
  {
    var e := start + |parts[i].syms|;
    assert s[..e][..start] == s[..start];
    forall k | 0 <= k < |parts[i].syms| ensures Allows(parts[i].syms[k], s[..e][start + k]) {
      assert s[..e][start + k] == s[start + k];
    }
    RowToPrefix(parts, i, s[..e]);
  }

  lemma Found(parts: Pattern, i: nat, s: Text, left: bool, right: bool, start: nat)
    requires i < |parts| && (left || right)
    requires (!right ==> i + 1 < |parts|) && (!left ==> 0 < i)
    requires Room(parts, i, s, left, right) && Placed(parts, i, s, left, right, start)
    requires RowAt(parts[i].syms, s, start)
    requires left && i > 0 ==> Target(parts, i - 1, s[..start - Lead0(parts[i])], true, false)
    requires right && i + 1 < |parts| ==> Target(parts, i + 1, s[start + |parts[i].syms|..], false, true)
    ensures Target(parts, i, s, left, right)
  {
    SplitAt(parts, i);
    var e := start + |parts[i].syms|;
    if right && i + 1 == |parts| {
      assert parts[i + 1..] == [] && s[e..] == [];
      LangNothing();
    }
    if left {
      if i == 0 {
        assert parts[..0] == [];
      }
      LeadInFromLeft(parts, i, s, start);
      RowFoundToPrefix(parts, i, s, start);
      if right {
        LangJoin(parts[..i + 1], parts[i + 1..], s[..e], s[e..]);
        assert parts[..i + 1] + parts[i + 1..] == parts && s[..e] + s[e..] == s;
      } else {
        assert LeftTargetAt(parts, i, s, e);
      }
    } else {
      assert HeadFits(parts[i], s, start);
      SuffixStartsWithLead(parts, i, s, start);
    }
  }

  // ---------------------------------------------------------------- with one place to look

  lemma OneStarPins(parts: Pattern, i: nat)
    requires i < |parts| && Stars(parts) <= 1
    ensures Stars(parts[..i + 1]) + Stars(parts[i + 1..]) == Stars(parts)
  {
    SplitAt(parts, i);
  }

  lemma OnlyCut(parts: Pattern, i: nat, s: Text, right: bool, start: nat)
    requires i < |parts|
    requires (!right ==> i + 1 < |parts|) && Pinned(parts, i, s, true, right)
    requires Room(parts, i, s, true, right) && Placed(parts, i, s, true, right, start)
    requires Target(parts, i, s, true, right)
    ensures var e := start + |parts[i].syms|; Lang(parts[..i + 1], s[..e]) && (right ==> Lang(parts[i + 1..], s[e..]))
  {
    SplitAt(parts, i);
    var m: nat;
    if right {
      assert parts[..i + 1] + parts[i + 1..] == parts;
      m := LangSplit(parts[..i + 1], parts[i + 1..], s);
      LangWidth(parts[i + 1..], s[m..]);
    } else {
      m :| LeftTargetAt(parts, i, s, m);
      SplitAt(parts, i + 1);
    }
    LangWidth(parts[..i + 1], s[..m]);
  }

  /** Where the row of part i must start when there is but one place for it. */
  lemma OnlyPlace(parts: Pattern, i: nat, s: Text, left: bool, right: bool, start: nat)
    requires i < |parts| && (left || right)
    requires (!right ==> i + 1 < |parts|) && (!left ==> 0 < i) && Pinned(parts, i, s, left, right)
    requires Room(parts, i, s, left, right) && Placed(parts, i, s, left, right, start)
    requires Target(parts, i, s, left, right)
    ensures RowAt(parts[i].syms, s, start)
    ensures left && i > 0 ==> Target(parts, i - 1, s[..start - Lead0(parts[i])], true, false)
    ensures right && i + 1 < |parts| ==> Target(parts, i + 1, s[start + |parts[i].syms|..], false, true)
  {
    if left {
      OnlyCut(parts, i, s, right, start);
      RowBeforeCut(parts, i, s, start);
      if i > 0 {
        LeadInToLeft(parts, i, s, start);
      }
    } else {
      SplitAt(parts, i);
      assert parts[i..][0] == parts[i] && parts[i..][1..] == parts[i + 1..];
      var n := LangHead(parts[i..], s);
      LangWidth(parts[i + 1..], s[n + |parts[i].syms|..]);
      assert n == start;
    }
  }

  lemma RowBeforeCut(parts: Pattern, i: nat, s: Text, start: nat)
    requires i < |parts| && start + |parts[i].syms| <= |s|
    requires Lang(parts[..i + 1], s[..start + |parts[i].syms|])
    ensures RowAt(parts[i].syms, s, start) && LeadIn(parts, i, s[..start])
  {
    var e := start + |parts[i].syms|;
    PrefixToRow(parts, i, s[..e]);
    assert s[..e][..start] == s[..start];
    forall k | 0 <= k < |parts[i].syms| ensures Allows(parts[i].syms[k], s[start + k]) {
      assert s[..e][start + k] == s[start + k];
    }
  }

  lemma LeadInToLeft(parts: Pattern, i: nat, s: Text, start: nat)
    requires 0 < i < |parts| && start <= |s| && Lead0(parts[i]) <= start
    requires LeadIn(parts, i, s[..start])
    ensures Target(parts, i - 1, s[..start - Lead0(parts[i])], true, false)
  {
    var t := s[..start - Lead0(parts[i])];
    var m :| LeadInAt(parts, i, s[..start], m);
    assert t[..m] == s[..start][..m];
    assert LeftTargetAt(parts, i - 1, t, m);
  }

  lemma NegationParts(parts: Pattern, i: nat, left: bool, right: bool)
    requires i < |parts| && (left || right)
    ensures NoNegation(Covered(parts, i, left, right)) <==>
            && NoNegatedSym(parts[i].syms)
            && (left && i > 0 ==> NoNegation(Covered(parts, i - 1, true, false)))
            && (right && i + 1 < |parts| ==> NoNegation(Covered(parts, i + 1, false, true)))
  {
    var c := Covered(parts, i, left, right);
    var pre := if left then parts[..i] else [];
    var post := if right then parts[i + 1..] else [];
    assert c == pre + [parts[i]] + post;
    assert left && i > 0 ==> pre == Covered(parts, i - 1, true, false);
    assert right && i + 1 < |parts| ==> post == Covered(parts, i + 1, false, true);
    if NoNegation(c) {
      assert parts[i] in c;
    }
  }

  lemma HitsAreMatchesWithoutNegation(syms: seq<Sym>, s: Text, at: int)
    ensures RowHits(syms, s, at) ==> RowAt(syms, s, at) && NoNegatedSym(syms)
    ensures RowAt(syms, s, at) && NoNegatedSym(syms) ==> RowHits(syms, s, at)
  {
    if RowHits(syms, s, at) {
      forall k | 0 <= k < |syms| ensures Allows(syms[k], s[at + k]) && !syms[k].negate {
        assert Hit(syms[k], s[at + k]);
      }
    } else if RowAt(syms, s, at) && NoNegatedSym(syms) {
      forall k | 0 <= k < |syms| ensures Hit(syms[k], s[at + k]) {
        assert Allows(syms[k], s[at + k]) && syms[k] in syms;
      }
    }
  }

  lemma AnswersCombine(pat: Pattern, i: nat, s: Text, left: bool, right: bool, start: nat, x: Text, y: Text)
    requires i < |pat| && (left || right)
    requires (!right ==> i + 1 < |pat|) && (!left ==> 0 < i)
    requires Room(pat, i, s, left, right) && Placed(pat, i, s, left, right, start) && Around(pat, i, s, start, x, y)
    requires RowHits(pat[i].syms, s, start)
    requires SidesAnswered(pat, i, x, y, left, right)
    ensures Answered(pat, i, s, left, right)
  {
    HitsAreMatchesWithoutNegation(pat[i].syms, s, start);
    Found(pat, i, s, left, right, start);
    NegationParts(pat, i, left, right);
  }

  lemma WantedPassesOn(pat: Pattern, i: nat, s: Text, left: bool, right: bool, start: nat, x: Text, y: Text)
    requires i < |pat| && (left || right)
    requires (!right ==> i + 1 < |pat|) && (!left ==> 0 < i)
    requires Room(pat, i, s, left, right) && Placed(pat, i, s, left, right, start) && Around(pat, i, s, start, x, y)
    requires Wanted(pat, i, s, left, right)
    ensures RowHits(pat[i].syms, s, start)
    ensures SidesWanted(pat, i, x, y, left, right)
  {
    OnlyPlace(pat, i, s, left, right, start);
    NegationParts(pat, i, left, right);
    HitsAreMatchesWithoutNegation(pat[i].syms, s, start);
    PinnedPassesOn(pat, i, s, left, right, start, x, y);
  }

  lemma PinnedPassesOn(pat: Pattern, i: nat, s: Text, left: bool, right: bool, start: nat, x: Text, y: Text)
    requires i < |pat| && (left || right) && (!right ==> i + 1 < |pat|) && (!left ==> 0 < i)
    requires Placed(pat, i, s, left, right, start) && Around(pat, i, s, start, x, y) && Pinned(pat, i, s, left, right)
    ensures left && i > 0 ==> Pinned(pat, i - 1, x, true, false)
    ensures right && i + 1 < |pat| ==> Pinned(pat, i + 1, y, false, true)
  {
    SplitAt(pat, i);
  }

  // ---------------------------------------------------------------- a part without symbols

  /** Wildcards alone have any text that is long enough, and without a '*' of the right length. */
  lemma {:induction false} OnlyWildcards(parts: Pattern, s: Text)
    requires ValidPattern(parts) && (forall i :: 0 <= i < |parts| ==> parts[i].syms == [])
    requires |s| >= Width(parts) && (Stars(parts) > 0 || |s| == Width(parts))
    ensures Lang(parts, s) && NoNegation(parts)
    decreases |parts|
  {
    if parts == [] {
      LangNothing();
    } else {
      var rest := parts[1..];
      assert forall i :: 0 <= i < |rest| ==> rest[i] == parts[i + 1];
      var n := if parts[0].lead >= 0 then parts[0].lead else if Stars(rest) > 0 then 0 else |s| - Width(rest);
      OnlyWildcards(rest, s[n..]);
      assert HeadFits(parts[0], s, n);
      LangCons(parts, s, n);
    }
  }

  lemma {:induction false} NoWidthNoSymbols(parts: Pattern)
    requires Width(parts) == 0
    ensures forall i :: 0 <= i < |parts| ==> parts[i].syms == []
  {
    if parts != [] {
      NoWidthNoSymbols(parts[1..]);
      assert forall i :: 1 <= i < |parts| ==> parts[i] == parts[1..][i - 1];
    }
  }

  lemma CoveredWildcards(q: Pattern, i: nat, s: Text, left: bool, right: bool)
    requires i < |q| && (left || right) && (!right ==> i + 1 < |q|) && ValidPattern(q)
    requires var c := Covered(q, i, left, right);
      && (forall k :: 0 <= k < |c| ==> c[k].syms == [])
      && |s| >= Width(c) && (Stars(c) > 0 || |s| == Width(c))
    ensures Answered(q, i, s, left, right)
  {
    var c := Covered(q, i, left, right);
    assert ValidPattern(c) by {
      assert forall k :: 0 <= k < |c| ==> c[k] == q[if left then k else i + k];
    }
    OnlyWildcards(c, s);
    if !right {
      assert s[..|s|] == s;
      assert LeftTargetAt(q, i, s, |s|);
    }
  }

  /** A gap is answered at once, and rightly: all that is searched for beyond it are wildcards. */
  lemma GapAnswered(pat: Pattern, q: Pattern, l: nat, i: nat, s: Text, left: bool, right: bool)
    requires Facing(pat, q, l) && Reached(pat, l, i) && Heading(l, |pat|, i, left, right)
    requires Room(q, i, s, left, right) && Gap(pat[i])
    ensures Answered(q, i, s, left, right)
  {
    assert Aligned(pat, q, l, i);
    var c := Covered(q, i, left, right);
    forall k | 0 <= k < |c| ensures c[k].syms == [] {
      var j := if left then k else i + k;
      assert c[k] == q[j];
      if Reached(pat, l, j) {
        assert Aligned(pat, q, l, j);
      }
    }
    SplitAt(q, i);
    CoveredWildcards(q, i, s, left, right);
  }

  /** So is a part that is nothing but question marks, if they are all there is room for. */
  lemma QuestionsAnswered(pat: Pattern, q: Pattern, l: nat, i: nat, s: Text, left: bool, right: bool)
    requires Facing(pat, q, l) && Reached(pat, l, i) && Heading(l, |pat|, i, left, right)
    requires Room(q, i, s, left, right) && pat[i].syms == [] && pat[i].lead >= 0 && |s| == pat[i].lead
    ensures Answered(q, i, s, left, right)
  {
    hide *;
    HeadingTells(l, |pat|, i, left, right);
    PartAligned(pat, q, l, i);
    WidthAround(q, i, s, left, right);
    var pre, post := if left then q[..i] else [], if right then q[i + 1..] else [];
    NoWidthNoSymbols(pre);
    NoWidthNoSymbols(post);
    CoveredIs(q, i, left, right);
    NoSymbolsAround(pre, q[i], post);
    CoveredWildcards(q, i, s, left, right);
  }

  lemma PartAligned(pat: Pattern, q: Pattern, l: nat, i: nat)
    requires Facing(pat, q, l) && Reached(pat, l, i) && i < |pat| && pat[i].syms == [] && pat[i].lead >= 0
    ensures i < |q| == |pat| && q[i].syms == [] && q[i].lead == pat[i].lead && ValidPattern(q)
  {
    assert Aligned(pat, q, l, i);
  }

  lemma CoveredIs(q: Pattern, i: nat, left: bool, right: bool)
    requires i < |q| && (left || right)
    ensures Covered(q, i, left, right) == (if left then q[..i] else []) + [q[i]] + (if right then q[i + 1..] else [])
  {
  }

  lemma NoSymbolsAround(pre: Pattern, p: Part, post: Pattern)
    requires p.syms == [] && forall k :: 0 <= k < |pre| ==> pre[k].syms == []
    requires forall k :: 0 <= k < |post| ==> post[k].syms == []
    ensures forall k :: 0 <= k < |pre + [p] + post| ==> (pre + [p] + post)[k].syms == []
  {
  }

  /** There is no room for anything else. */
  lemma WidthAround(q: Pattern, i: nat, s: Text, left: bool, right: bool)
    requires i < |q| && (left || right) && (!right ==> i + 1 < |q|)
    requires Room(q, i, s, left, right) && q[i].syms == [] && |s| == q[i].lead
    ensures |s| == Width(Covered(q, i, left, right))
    ensures Width(if left then q[..i] else []) == 0 && Width(if right then q[i + 1..] else []) == 0
  {
    SplitAt(q, i);
  }

  // ---------------------------------------------------------------- the window

  /** With no '*' among the parts a call covers, the length of the text is settled. */
  lemma ExactLength(parts: Pattern, i: nat, s: Text, left: bool, right: bool)
    requires i < |parts| && (left || right)
    requires (!right ==> i + 1 < |parts|) && Target(parts, i, s, left, right)
    requires (if left then Stars(parts[..i + 1]) == 0 else parts[i].lead >= 0) && Stars(parts[i + 1..]) == 0
    ensures |s| == Width(Covered(parts, i, left, right))
  {
    SplitAt(parts, i);
    if left && right {
      LangWidth(parts, s);
    } else if right {
      LangWidth(parts[i..], s);
    } else {
      SplitAt(parts, i + 1);
      var m :| LeftTargetAt(parts, i, s, m);
      assert parts[i + 1..][0] == parts[i + 1];
      LangWidth(parts[..i + 1], s[..m]);
      assert s[..m] == s;
    }
  }

  /** The window has a good place in it, and there is no other if the text is wanted. */
  lemma WindowMeans(pat: Pattern, q: Pattern, l: nat, i: nat, s: Text, left: bool, right: bool)
    requires Heading(l, |pat|, i, left, right) && Aligned(pat, q, l, i) && !Gap(pat[i])
    requires Room(q, i, s, left, right) && |s| >= |pat[i].syms|
    ensures var w := WindowOf(pat, i, s, left, right);
      && (w.Nowhere? ==> !Wanted(q, i, s, left, right))
      && (w.Window? ==> Tried(q, i, s, left, right, w.start, w.end))
      && (w.Window? && Wanted(q, i, s, left, right) ==> w.start + |pat[i].syms| == w.end)
  {
    hide Answered;
    SplitAt(q, i);
    if Wanted(q, i, s, left, right) {
      WantedLength(q, i, s, left, right);
    }
  }

  /** A text that is wanted is as long as it has to be, if a '*' is not let do as it likes on either side. */
  lemma WantedLength(q: Pattern, i: nat, s: Text, left: bool, right: bool)
    requires i < |q| && (left || right) && (!right ==> i + 1 < |q|) && Wanted(q, i, s, left, right)
    ensures (if left then Stars(q[..i + 1]) == 0 else q[i].lead >= 0) && Stars(q[i + 1..]) == 0 ==>
      |s| == Width(Covered(q, i, left, right))
    ensures |s| == Width(Covered(q, i, left, right)) || Stars(q[..i + 1]) == 0 || Stars(q[i + 1..]) == 0
  {
    if (if left then Stars(q[..i + 1]) == 0 else q[i].lead >= 0) && Stars(q[i + 1..]) == 0 {
      ExactLength(q, i, s, left, right);
    }
    if Stars(q) <= 1 {
      OneStarPins(q, i);
    }
  }

  // ---------------------------------------------------------------- the answer

  lemma AnswerIsSound(pat: Pattern, q: Pattern, l: nat, i: nat, s: Text, left: bool, right: bool)
    requires Facing(pat, q, l) && Reached(pat, l, i) && Heading(l, |pat|, i, left, right)
    requires Room(q, i, s, left, right) && Answer(pat, l, i, s, left, right)
    ensures Answered(q, i, s, left, right)
    decreases Rank(|pat|, i, left, right), 2, 0
  {
    hide Answered, Room, Tried, Search;
    assert Aligned(pat, q, l, i);
    if Gap(pat[i]) {
      GapAnswered(pat, q, l, i, s, left, right);
    } else if pat[i].syms == [] && |s| == pat[i].lead {
      QuestionsAnswered(pat, q, l, i, s, left, right);
    } else {
      WindowMeans(pat, q, l, i, s, left, right);
      var w := WindowOf(pat, i, s, left, right);
      SearchIsSound(pat, q, l, i, s, left, right, w.start, w.end);
    }
  }

  lemma SearchIsSound(pat: Pattern, q: Pattern, l: nat, i: nat, s: Text, left: bool, right: bool, start: int, end: int)
    requires Facing(pat, q, l) && Reached(pat, l, i) && Heading(l, |pat|, i, left, right) && !Gap(pat[i])
    requires Room(q, i, s, left, right) && Tried(q, i, s, left, right, start, end)
    requires Search(pat, l, i, s, left, right, start, end)
    ensures Answered(q, i, s, left, right)
    decreases Rank(|pat|, i, left, right), 1, if start < end then end - start else 0
  {
    hide *;
    HeadingTells(l, |pat|, i, left, right);
    RowAligned(pat, q, l, i);
    var n, lead := |pat[i].syms|, Lead0(pat[i]);
    SearchUnfolds(pat, l, i, s, left, right, start, end);
    var x, y := s[..start - lead], s[start + n..];
    if RowHits(pat[i].syms, s, start) && Sides(pat, l, i, x, y, left, right) {
      GoodPlace(q, i, s, left, right, start, end);
      RoomOnBothSides(q, i, s, left, right, start, x, y);
      SidesAreSound(pat, q, l, i, x, y, left, right);
      AnswersCombine(q, i, s, left, right, start, x, y);
    } else {
      var k := Skip(pat[i].syms, s, start);
      TriedOn(q, i, s, left, right, start, end, k);
      SearchIsSound(pat, q, l, i, s, left, right, start + k, end);
    }
  }

  lemma HeadingTells(l: nat, n: nat, i: nat, left: bool, right: bool)
    requires Heading(l, n, i, left, right)
    ensures i < n && (left || right) && (!right ==> i + 1 < n) && (!left ==> 0 < i)
  {
  }

  lemma RowAligned(pat: Pattern, q: Pattern, l: nat, i: nat)
    requires Facing(pat, q, l) && Reached(pat, l, i)
    ensures i < |pat| == |q| && q[i].syms == pat[i].syms && Lead0(q[i]) == Lead0(pat[i]) >= 0
  {
    assert Aligned(pat, q, l, i);
  }

  lemma SearchUnfolds(pat: Pattern, l: nat, i: nat, s: Text, left: bool, right: bool, start: int, end: int)
    requires Heading(l, |pat|, i, left, right) && Search(pat, l, i, s, left, right, start, end)
    ensures i < |pat| && Lead0(pat[i]) <= start && start + |pat[i].syms| <= end <= |s|
    ensures var x, y := s[..start - Lead0(pat[i])], s[start + |pat[i].syms|..];
      || (RowHits(pat[i].syms, s, start) && Sides(pat, l, i, x, y, left, right))
      || (start < end && Search(pat, l, i, s, left, right, start + Skip(pat[i].syms, s, start), end))
  {
  }

  lemma GoodPlace(q: Pattern, i: nat, s: Text, left: bool, right: bool, start: int, end: int)
    requires i < |q| && Tried(q, i, s, left, right, start, end) && start + |q[i].syms| <= end
    requires Lead0(q[i]) <= start
    ensures Placed(q, i, s, left, right, start) && end <= |s|
    ensures Around(q, i, s, start, s[..start - Lead0(q[i])], s[start + |q[i].syms|..])
  {
  }

  /** Unless part i is a gap, its neighbours are reached as well, by calls of a lower rank. */
  lemma NeighboursReached(pat: Pattern, q: Pattern, l: nat, i: nat, left: bool, right: bool)
    requires Facing(pat, q, l) && Reached(pat, l, i) && Heading(l, |pat|, i, left, right) && !Gap(pat[i])
    ensures i < |pat| == |q|
    ensures left && i > 0 ==> Reached(pat, l, i - 1) && Heading(l, |pat|, i - 1, true, false)
    ensures left && i > 0 ==> Rank(|pat|, i - 1, true, false) < Rank(|pat|, i, left, right)
    ensures right && i + 1 < |pat| ==> Reached(pat, l, i + 1) && Heading(l, |pat|, i + 1, false, true)
    ensures right && i + 1 < |pat| ==> Rank(|pat|, i + 1, false, true) < Rank(|pat|, i, left, right)
  {
  }

  lemma SidesUnfold(pat: Pattern, q: Pattern, l: nat, i: nat, x: Text, y: Text, left: bool, right: bool)
    requires Heading(l, |pat|, i, left, right) && |q| == |pat| && SidesRoom(q, i, x, y, left, right)
    ensures i < |pat|
    ensures Sides(pat, l, i, x, y, left, right) <==>
      && (left && i > 0 ==> Answer(pat, l, i - 1, x, true, false))
      && (right && i + 1 < |pat| ==> Answer(pat, l, i + 1, y, false, true))
    ensures left && i > 0 ==> Room(q, i - 1, x, true, false)
    ensures right && i + 1 < |pat| ==> Room(q, i + 1, y, false, true)
    ensures SidesWanted(q, i, x, y, left, right) <==>
      && (left && i > 0 ==> Wanted(q, i - 1, x, true, false))
      && (right && i + 1 < |pat| ==> Wanted(q, i + 1, y, false, true))
    ensures SidesAnswered(q, i, x, y, left, right) <==>
      && (left && i > 0 ==> Answered(q, i - 1, x, true, false))
      && (right && i + 1 < |pat| ==> Answered(q, i + 1, y, false, true))
  {
  }

  lemma SidesAreSound(pat: Pattern, q: Pattern, l: nat, i: nat, x: Text, y: Text, left: bool, right: bool)
    requires Facing(pat, q, l) && Reached(pat, l, i) && Heading(l, |pat|, i, left, right) && !Gap(pat[i])
    requires SidesRoom(q, i, x, y, left, right) && Sides(pat, l, i, x, y, left, right)
    ensures SidesAnswered(q, i, x, y, left, right)
    decreases Rank(|pat|, i, left, right), 0, 0
  {
    hide *;
    NeighboursReached(pat, q, l, i, left, right);
    SidesUnfold(pat, q, l, i, x, y, left, right);
    if left && i > 0 {
      AnswerIsSound(pat, q, l, i - 1, x, true, false);
    }
    if right && i + 1 < |pat| {
      AnswerIsSound(pat, q, l, i + 1, y, false, true);
    }
  }

  lemma AnswerIsComplete(pat: Pattern, q: Pattern, l: nat, i: nat, s: Text, left: bool, right: bool)
    requires Facing(pat, q, l) && Reached(pat, l, i) && Heading(l, |pat|, i, left, right)
    requires Room(q, i, s, left, right) && Wanted(q, i, s, left, right)
    ensures Answer(pat, l, i, s, left, right)
    decreases Rank(|pat|, i, left, right), 2, 0
  {
    assert Aligned(pat, q, l, i);
    RoomForRow(q, i, s, left, right);
    hide Wanted, Room, Tried, Search;
    if !(pat[i].syms == [] && (pat[i].lead < 0 || |s| == pat[i].lead)) {
      WindowMeans(pat, q, l, i, s, left, right);
      var w := WindowOf(pat, i, s, left, right);
      SearchIsComplete(pat, q, l, i, s, left, right, w.start, w.end);
    }
  }

  lemma RoomForRow(q: Pattern, i: nat, s: Text, left: bool, right: bool)
    requires i < |q| && (left || right) && (!right ==> i + 1 < |q|) && Room(q, i, s, left, right)
    ensures |s| >= |q[i].syms|
  {
    SplitAt(q, i);
  }

  lemma SearchIsComplete(pat: Pattern, q: Pattern, l: nat, i: nat, s: Text, left: bool, right: bool, start: int, end: int)
    requires Facing(pat, q, l) && Reached(pat, l, i) && Heading(l, |pat|, i, left, right) && !Gap(pat[i])
    requires Room(q, i, s, left, right) && Tried(q, i, s, left, right, start, end) && start + |pat[i].syms| == end
    requires Wanted(q, i, s, left, right)
    ensures Search(pat, l, i, s, left, right, start, end)
    decreases Rank(|pat|, i, left, right), 1, 0
  {
    hide *;
    HeadingTells(l, |pat|, i, left, right);
    RowAligned(pat, q, l, i);
    LeastStart(q, i, s, left, right, start, end);
    GoodPlace(q, i, s, left, right, start, end);
    var n := |pat[i].syms|;
    var x, y := s[..start - Lead0(pat[i])], s[start + n..];
    RoomOnBothSides(q, i, s, left, right, start, x, y);
    WantedPassesOn(q, i, s, left, right, start, x, y);
    SidesAreComplete(pat, q, l, i, x, y, left, right);
    SearchFolds(pat, l, i, s, left, right, start, end);
  }

  lemma LeastStart(q: Pattern, i: nat, s: Text, left: bool, right: bool, start: int, end: int)
    requires i < |q| && Tried(q, i, s, left, right, start, end) && start + |q[i].syms| <= end
    ensures Lead0(q[i]) <= start
  {
  }

  lemma SearchFolds(pat: Pattern, l: nat, i: nat, s: Text, left: bool, right: bool, start: int, end: int)
    requires Heading(l, |pat|, i, left, right) && Lead0(pat[i]) <= start && start + |pat[i].syms| <= end <= |s|
    requires RowHits(pat[i].syms, s, start)
    requires Sides(pat, l, i, s[..start - Lead0(pat[i])], s[start + |pat[i].syms|..], left, right)
    ensures Search(pat, l, i, s, left, right, start, end)
  {
  }

  lemma SidesAreComplete(pat: Pattern, q: Pattern, l: nat, i: nat, x: Text, y: Text, left: bool, right: bool)
    requires Facing(pat, q, l) && Reached(pat, l, i) && Heading(l, |pat|, i, left, right) && !Gap(pat[i])
    requires SidesRoom(q, i, x, y, left, right) && SidesWanted(q, i, x, y, left, right)
    ensures Sides(pat, l, i, x, y, left, right)
    decreases Rank(|pat|, i, left, right), 0, 0
  {
    hide *;
    NeighboursReached(pat, q, l, i, left, right);
    SidesUnfold(pat, q, l, i, x, y, left, right);
    if left && i > 0 {
      AnswerIsComplete(pat, q, l, i - 1, x, true, false);
    }
    if right && i + 1 < |pat| {
      AnswerIsComplete(pat, q, l, i + 1, y, false, true);
    }
  }

  /** The text is in the language of the pattern searched for, and there is but one place for everything. */
  ghost predicate SurelyFound(pat: Pattern, s: Text)
    requires pat != []
  {
    var q := Sought(pat);
    Lang(q, s) && NoNegation(q) && (Stars(q) <= 1 || |s| == Width(q))
  }

  /** A text that matches is in the language of the pattern searched for, which has no negated symbol then. A
      text of that language matches whenever there is at most one '*', or the text is as short as can be. */
  lemma MatchMeans(pat: Pattern, s: Text)
    requires pat != [] && ValidPattern(pat)
    ensures Matches(pat, s) ==> Lang(Sought(pat), s) && NoNegation(Sought(pat))
    ensures SurelyFound(pat, s) ==> Matches(pat, s)
  {
    var q, l := Sought(pat), Longest(pat);
    SoughtFaces(pat);
    hide Facing, Sought, Answer;
    if Matches(pat, s) {
      AnswerIsSound(pat, q, l, l, s, true, true);
    }
    if SurelyFound(pat, s) {
      LangWidth(q, s);
      AnswerIsComplete(pat, q, l, l, s, true, true);
    }
  }

  /** With nothing hidden, what is found is in the language of the pattern as it was written. With at most one
      '*' besides, that pattern is the one searched for. */
  lemma SoughtIsWritten(pat: Pattern, s: Text)
    requires pat != [] && ValidPattern(pat) && NothingHidden(pat)
    ensures Lang(Sought(pat), s) ==> Lang(pat, s)
    ensures NoNegation(Sought(pat)) <==> NoNegation(pat)
    ensures Stars(pat) <= 1 ==> Sought(pat) == pat
  {
    var q := Sought(pat);
    SoughtIsTighter(pat);
    hide LeftEdge, RightEdge, Sought, NothingHidden, Stars, Longest;
    TighterSound(q, pat, s);
    SameNegation(q, pat);
    if Stars(pat) <= 1 {
      SoughtIsPattern(pat);
    }
  }

  lemma SoughtIsTighter(pat: Pattern)
    requires pat != [] && ValidPattern(pat) && NothingHidden(pat)
    ensures Tighter(Sought(pat), pat)
  {
    hide LeftEdge, RightEdge, Longest, Stars;
  }

  lemma SameNegation(q: Pattern, pat: Pattern)
    requires Tighter(q, pat)
    ensures NoNegation(q) <==> NoNegation(pat)
  {
    forall i | 0 <= i < |pat| ensures q[i] in q && pat[i] in pat && q[i].syms == pat[i].syms {}
    if NoNegation(q) {
      forall p | p in pat ensures NoNegatedSym(p.syms) {
        var i :| 0 <= i < |pat| && pat[i] == p;
        assert q[i] in q;
      }
    }
  }

  lemma SoughtIsPattern(pat: Pattern)
    requires pat != [] && ValidPattern(pat) && NothingHidden(pat) && Stars(pat) <= 1
    ensures Sought(pat) == pat
  {
    var l := Longest(pat);
    var m := Seen(pat, l);
    forall i | 0 <= i < |pat| ensures m[i] == pat[i] {
      if !Reached(pat, l, i) && pat[i].lead < 0 {
        var k := if i < l then LeftEdge(pat, l) else RightEdge(pat, l);
        TwoStars(pat, if i < k then i else k, if i < k then k else i);
      }
    }
    assert m == pat;
    forall i | 0 <= i < |pat| ensures Narrow(pat, l)[i] == pat[i] {
      if pat[i].lead < 0 {
        SplitAt(pat, i);
      }
    }
  }

  lemma TwoStars(pat: Pattern, i: nat, k: nat)
    requires i < k < |pat| && pat[i].lead < 0 && pat[k].lead < 0
    ensures Stars(pat) >= 2
  {
    SplitAt(pat, k);
    StarSince(pat, i, k);
    StarFrom(pat, k, k);
  }
}
