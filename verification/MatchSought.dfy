/** Whether the pattern the matcher (libAfterBase/regexp.c) searches for has every text of the pattern that was
    written: it has, unless a row loses the '*' in front of it. */
module MatchSought {
  import opened Common
  import opened CharClass
  import opened PatternLanguage
  import opened CompiledPattern
  import opened PatternCompiler
  import opened PatternSamples
  import opened MatchAnswer
  import opened MatchMeaning
  import opened MatchComplete

  // ---------------------------------------------------------------- what is searched for, against what was written

  /** The parts are the same, or wildcards that make do with as little and take as much as there is. */
  ghost predicate Replaces(b: Pattern, a: Pattern)
  {
    b == a || (ValidPattern(b) && (forall k :: 0 <= k < |b| ==> b[k].syms == []) && Width(b) == Width(a) && Stars(b) > 0)
  }

  lemma ReplacedFits(b: Pattern, a: Pattern, s: Text)
    requires Replaces(b, a) && Lang(a, s)
    ensures Lang(b, s)
  {
    LangWidth(a, s);
    if b != a {
      OnlyWildcards(b, s);
    }
  }

  lemma EndsReplaced(a: Pattern, b: Pattern, c: Pattern, x: Pattern, y: Pattern, s: Text)
    requires Replaces(x, a) && Replaces(y, c) && Lang(a + (b + c), s)
    ensures Lang(x + (b + y), s)
  {
    hide *;
    var i := LangSplit(a, b + c, s);
    var j := LangSplit(b, c, s[i..]);
    ReplacedFits(x, a, s[..i]);
    ReplacedFits(y, c, s[i..][j..]);
    LangJoin(b, y, s[i..][..j], s[i..][j..]);
    assert s[i..][..j] + s[i..][j..] == s[i..];
    assert s[..i] + s[i..] == s;
    LangJoin(x, b + y, s[..i], s[i..]);
  }

  /** Looking past what is hidden loses no text. */
  lemma SeenHasAll(pat: Pattern, l: nat, s: Text)
    requires l < |pat| && ValidPattern(pat) && Lang(pat, s)
    ensures Lang(Seen(pat, l), s)
  {
    hide *;
    var m := Seen(pat, l);
    var c := SeenFront(pat, l);
    var e := SeenBack(pat, l);
    assert pat == pat[..c] + (pat[c..e] + pat[e..]);
    assert m == m[..c] + (pat[c..e] + m[e..]);
    EndsReplaced(pat[..c], pat[c..e], pat[e..], m[..c], m[e..], s);
  }

  lemma SeenAt(pat: Pattern, l: nat, i: nat)
    requires l < |pat| && i < |pat|
    ensures LeftEdge(pat, l) <= l <= RightEdge(pat, l) < |pat|
    ensures LeftEdge(pat, l) <= i <= RightEdge(pat, l) ==> Seen(pat, l)[i] == pat[i]
    ensures i < LeftEdge(pat, l) || i > RightEdge(pat, l) ==> Seen(pat, l)[i].syms == []
    ensures 0 < i == LeftEdge(pat, l) || |pat| - 1 > i == RightEdge(pat, l) ==> Gap(pat[i])
  {
  }

  lemma SeenFront(pat: Pattern, l: nat) returns (c: nat)
    requires l < |pat| && ValidPattern(pat)
    ensures c <= l && Replaces(Seen(pat, l)[..c], pat[..c])
    ensures forall i :: c <= i <= l ==> Seen(pat, l)[i] == pat[i]
  {
    hide Width, Stars, RightEdge, LeftEdge, Seen;
    var m, k := Seen(pat, l), LeftEdge(pat, l);
    SeenAt(pat, l, k);
    c := if k > 0 then k + 1 else 0;
    forall i | 0 <= i <= l ensures (c <= i ==> m[i] == pat[i]) && (i < c ==> m[i].syms == []) {
      SeenAt(pat, l, i);
    }
    SeenParts(pat, l);
    if k > 0 {
      SameWidth(m[..c], pat[..c]);
      StarSince(m, k, c);
    }
  }

  lemma SeenBack(pat: Pattern, l: nat) returns (e: nat)
    requires l < |pat| && ValidPattern(pat)
    ensures l < e <= |pat| && Replaces(Seen(pat, l)[e..], pat[e..])
    ensures forall i :: l <= i < e ==> Seen(pat, l)[i] == pat[i]
  {
    hide Width, Stars, RightEdge, LeftEdge, Seen;
    var m, k := Seen(pat, l), RightEdge(pat, l);
    SeenAt(pat, l, k);
    e := if k < |pat| - 1 then k else |pat|;
    forall i | l <= i < |pat| ensures (i < e ==> m[i] == pat[i]) && (e <= i ==> m[i].syms == []) {
      SeenAt(pat, l, i);
    }
    SeenParts(pat, l);
    if k < |pat| - 1 {
      SameWidth(m[e..], pat[e..]);
      StarFrom(m, k, e);
    }
  }

  /** A part that loses its '*'. */
  ghost predicate Narrowed(m: Pattern, l: nat, i: nat)
  {
    i < |m| && i <= l && m[i].lead < 0 && Stars(m[..i]) > 0 && m[i].syms != []
  }

  /** No row in front of part i has a '*' in front of it. */
  ghost predicate NoRowSince(m: Pattern, i: nat)
    requires i <= |m|
  {
    forall k :: 0 <= k < i && m[k].syms != [] ==> Stars(m[..k + 1]) == 0
  }

  /** If only wildcards stand between the '*' that is kept and the one that is lost, no text is lost. */
  lemma NarrowHasAll(m: Pattern, l: nat, i: nat, s: Text)
    requires ValidPattern(m) && Narrowed(m, l, i) && NoRowSince(m, i) && Lang(m, s)
    requires Narrow(m, l)[..i] == m[..i] && Narrow(m, l)[i + 1..] == m[i + 1..]
    ensures Lang(Narrow(m, l), s)
  {
    var q := Narrow(m, l);
    hide Lang, Stars, LeadIn, RowAt;
    assert m == m[..i + 1] + m[i + 1..] && q == q[..i + 1] + q[i + 1..];
    var e := LangSplit(m[..i + 1], m[i + 1..], s);
    LangWidth(m[..i + 1], s[..e]);
    SplitAt(m, i);
    var f := e - |m[i].syms|;
    RowBeforeCut(m, i, s, f);
    LeadInAtOnce(m, i, s, f);
    LeadInOnce(q, i, s, f);
    RowFoundToPrefix(q, i, s, f);
    LangJoin(q[..i + 1], q[i + 1..], s[..e], s[e..]);
    assert s[..e] + s[e..] == s;
  }

  lemma LeadInAtOnce(m: Pattern, i: nat, s: Text, f: nat)
    requires ValidPattern(m) && i < |m| && Stars(m[..i]) > 0 && NoRowSince(m, i) && f <= |s| && LeadIn(m, i, s[..f])
    ensures Lang(m[..i], s[..f])
  {
    hide Lang, Stars;
    var a :| LeadInAt(m, i, s[..f], a);
    LangWidth(m[..i], s[..f][..a]);
    assert s[..f][..a] == s[..a];
    forall k | 0 <= k < i && m[..i][k].syms != [] ensures Stars(m[..i][..k + 1]) == 0 {
      assert m[..i][..k + 1] == m[..k + 1];
    }
    AnyEnd(m[..i], s, a, f);
  }

  lemma LeadInOnce(q: Pattern, i: nat, s: Text, f: nat)
    requires i < |q| && q[i].lead == 0 && f <= |s| && Lang(q[..i], s[..f])
    ensures LeadIn(q, i, s[..f])
  {
    assert s[..f][..f] == s[..f];
    assert LeadInAt(q, i, s[..f], f);
  }

  /** Every text of the pattern is one of the pattern searched for, if no row loses the '*' in front of it. */
  lemma SoughtHasAll(pat: Pattern, s: Text)
    requires pat != [] && ValidPattern(pat) && !Cut(pat) && Lang(pat, s)
    ensures Lang(Sought(pat), s)
  {
    var l := Longest(pat);
    var m := Seen(pat, l);
    SeenParts(pat, l);
    SeenHasAll(pat, l, s);
    hide Lang, LeftEdge, RightEdge, Longest, Stars, Cut;
    if i: nat :| Narrowed(m, l, i) {
      CutOnce(pat, i);
      NarrowHasAll(m, l, i, s);
    } else {
      forall i | 0 <= i < |m| ensures Narrow(m, l)[i] == m[i] {
        assert !Narrowed(m, l, i);
      }
      assert Narrow(m, l) == m;
    }
  }

  lemma NoneBefore(pat: Pattern, l: nat, j: nat, k: nat)
    requires l < |pat| && ValidPattern(pat) && k < j && Narrowed(Seen(pat, l), l, j) && Seen(pat, l)[k].syms != []
    requires !CutAt(pat, l, j)
    ensures Stars(Seen(pat, l)[..k + 1]) == 0
  {
    hide Stars, LeftEdge, RightEdge;
    assert Reached(pat, l, j) && Reached(pat, l, k);
    SeenStarsLeft(pat, l, k);
    assert !RowAfterStar(pat, l, j, k);
  }

  lemma CutOnce(pat: Pattern, i: nat)
    requires pat != [] && ValidPattern(pat) && !Cut(pat) && Narrowed(Seen(pat, Longest(pat)), Longest(pat), i)
    ensures var l := Longest(pat);
      var m := Seen(pat, l);
      NoRowSince(m, i) && Narrow(m, l)[..i] == m[..i] && Narrow(m, l)[i + 1..] == m[i + 1..]
  {
    var l := Longest(pat);
    var m := Seen(pat, l);
    hide Stars, Longest, LeftEdge, RightEdge, Seen, CutAt;
    forall k, j | 0 <= k < j && Narrowed(m, l, j) && m[k].syms != [] ensures Stars(m[..k + 1]) == 0 {
      assert !CutAt(pat, l, j);
      NoneBefore(pat, l, j, k);
    }
    OtherwiseSame(m, l, i);
  }

  lemma OtherwiseSame(m: Pattern, l: nat, i: nat)
    requires Narrowed(m, l, i)
    requires forall k, j :: 0 <= k < j && Narrowed(m, l, j) && m[k].syms != [] ==> Stars(m[..k + 1]) == 0
    ensures Narrow(m, l)[..i] == m[..i] && Narrow(m, l)[i + 1..] == m[i + 1..]
  {
    hide Stars;
    forall j | 0 <= j < |m| && j != i ensures Narrow(m, l)[j] == m[j] {
      var a, b := if i < j then i else j, if i < j then j else i;
      StarBehind(m, a);
      assert !Narrowed(m, l, j);
    }
  }

  lemma StarBehind(m: Pattern, a: nat)
    requires a < |m|
    ensures m[a].lead < 0 ==> Stars(m[..a + 1]) > 0
  {
    if m[a].lead < 0 {
      StarSince(m, a, a + 1);
    }
  }

  lemma {:induction false} SampleOfWildcards(u: Pattern)
    requires Canonical(u) && forall k :: 0 <= k < |u| ==> u[k].syms == []
    ensures forall x :: 0 <= x < |Sample(u)| ==> Sample(u)[x] == FILLER
  {
    if u != [] {
      SampleHead(u);
      assert SampleRow(u[0]) == [];
      SampleOfWildcards(u[1..]);
    }
  }

  lemma {:induction false} NoStarInside(u: Pattern)
    requires forall k :: 0 <= k < |u| ==> u[k].lead >= 0
    ensures Stars(u) == 0
  {
    if u != [] {
      NoStarInside(u[1..]);
    }
  }

  /** Fillers reach from the end of row k to the row of part i, and there is one more than the parts between need. */
  lemma FillersBetween(pat: Pattern, i: nat, k: nat, d: nat, row: Text, x: nat)
    requires k < i < |pat| && Canonical(pat) && forall j :: k < j < i ==> pat[j].syms == []
    requires Width(pat[..k + 1]) <= x < Width(pat[..i]) + d
    ensures x < |Stretched(pat, i, d, row)| && Stretched(pat, i, d, row)[x] == FILLER
  {
    hide *;
    StretchedIs(pat, i, d, row);
    CanonicalSlice(pat, k + 1, i);
    CanonicalSlice(pat, k + 1, k + 1);
    SampleFits(pat[..k + 1]);
    SampleFits(pat[..i]);
    SampleJoin(pat[..k + 1], pat[k + 1..i]);
    assert pat[..i] == pat[..k + 1] + pat[k + 1..i];
    SampleOfWildcards(pat[k + 1..i]);
  }

  lemma {:induction false} LastRowBefore(pat: Pattern, i: nat, k: nat) returns (j: nat)
    requires k < i <= |pat| && pat[k].syms != []
    ensures k <= j < i && pat[j].syms != [] && forall h :: j < h < i ==> pat[h].syms == []
    decreases i
  {
    if pat[i - 1].syms != [] {
      j := i - 1;
    } else {
      j := LastRowBefore(pat, i - 1, k);
    }
  }

  /** Part i of the pattern searched for has lost its '*', and stands at a fixed distance behind the row of part k. */
  ghost predicate FixedBehind(pat: Pattern, q: Pattern, i: nat, k: nat)
  {
    && k < i < |pat| == |q| && pat[i].lead < 0 && q[i] == pat[i].(lead := 0) && pat[i].syms != []
    && q[k].syms == pat[k].syms != [] && (forall j :: k < j < i ==> pat[j].syms == [] && q[j].lead >= 0)
    && Width(q[..i]) == Width(pat[..i]) && Width(q[i + 1..]) == Width(pat[i + 1..])
    && Width(q[..k + 1]) == Width(pat[..k + 1])
  }

  /** What is searched for at a part that is looked at. */
  lemma SoughtPart(pat: Pattern, i: nat)
    requires pat != [] && ValidPattern(pat) && Reached(pat, Longest(pat), i) && i < |pat|
    ensures Sought(pat)[i] ==
      if i <= Longest(pat) && pat[i].lead < 0 && pat[i].syms != [] && Stars(pat[..i]) > 0 then pat[i].(lead := 0)
      else pat[i]
  {
    var l := Longest(pat);
    var m := Seen(pat, l);
    hide Longest, RightEdge, Stars;
    if pat[i].syms != [] && i > 0 {
      assert Reached(pat, l, i - 1);
      hide LeftEdge;
      SeenStarsLeft(pat, l, i - 1);
    }
  }

  lemma SoughtWidths(pat: Pattern, i: nat)
    requires pat != [] && ValidPattern(pat) && i <= |pat|
    ensures Width(Sought(pat)[..i]) == Width(pat[..i]) && Width(Sought(pat)[i..]) == Width(pat[i..])
  {
    SeenParts(pat, Longest(pat));
    hide Width, Longest, LeftEdge, RightEdge, Stars, Seen, Narrow;
    SameWidth(Sought(pat)[..i], pat[..i]);
    SameWidth(Sought(pat)[i..], pat[i..]);
  }

  /** The row of part i is to lose its '*', and the row of part k is the last one before. */
  ghost predicate CutBehind(pat: Pattern, l: nat, i: nat, k: nat)
  {
    && k < i <= l < |pat| && pat[i].lead < 0 && pat[i].syms != [] && pat[k].syms != [] && Stars(pat[..i]) > 0
    && (forall j :: k < j < i ==> pat[j].syms == [] && !Gap(pat[j])) && (forall j :: k <= j <= i ==> Reached(pat, l, j))
  }

  lemma CutRows(pat: Pattern) returns (i: nat, k: nat)
    requires pat != [] && Cut(pat)
    ensures CutBehind(pat, Longest(pat), i, k)
  {
    var l := Longest(pat);
    hide Longest, RightEdge, Stars;
    i :| 0 <= i < |pat| && CutAt(pat, l, i);
    var r: nat :| r < |pat| && RowAfterStar(pat, l, i, r);
    k := LastRowBefore(pat, i, r);
    StarsGrow(pat, r + 1, i);
  }

  lemma CutIsFixed(pat: Pattern, i: nat, k: nat)
    requires pat != [] && ValidPattern(pat) && CutBehind(pat, Longest(pat), i, k)
    ensures FixedBehind(pat, Sought(pat), i, k)
  {
    hide Longest, RightEdge, LeftEdge, Stars, Width, Sought, Reached;
    forall j | k <= j < i
      ensures Sought(pat)[j].syms == pat[j].syms && (k < j ==> Sought(pat)[j].lead >= 0) {
      SoughtPart(pat, j);
    }
    SoughtPart(pat, i);
    SoughtWidths(pat, i);
    SoughtWidths(pat, i + 1);
    SoughtWidths(pat, k + 1);
  }

  lemma {:induction false} StarsGrow(u: Pattern, i: nat, j: nat)
    requires i <= j <= |u|
    ensures Stars(u[..i]) <= Stars(u[..j])
    decreases j
  {
    if i < j {
      StarsGrow(u, i, j - 1);
      SplitAt(u, j - 1);
    }
  }

  lemma NoFillerFits(pat: Pattern, i: nat)
    requires Canonical(pat) && i < |pat|
    ensures CanonicalPart(pat[i]) && forall k: int :: !Fits(pat[i].syms, k, FILLER)
  {
    assert CanonicalPart(pat[i]);
    forall k: int ensures !Fits(pat[i].syms, k, FILLER) {
      if 0 <= k < |pat[i].syms| {
        SomeMember(pat[i].syms[k]);
      }
    }
  }

  /** Where the row of part k has to end, no filler stands. */
  lemma RowHasToEnd(pat: Pattern, q: Pattern, i: nat, k: nat, s: Text, f: nat)
    requires Canonical(pat) && FixedBehind(pat, q, i, k) && NoNegation(q) && f <= |s|
    requires Lang(q[..i], s[..f]) && Width(pat[k + 1..i]) < f
    ensures s[f - Width(pat[k + 1..i]) - 1] != FILLER
  {
    hide Lang, Canonical, NoNegation, Width, Stars, LeadIn, RowHits;
    var e := f - Width(pat[k + 1..i]);
    assert q[..i] == q[..k + 1] + q[k + 1..i] && pat[..i] == pat[..k + 1] + pat[k + 1..i];
    WidthSum(q[..k + 1], q[k + 1..i]);
    WidthSum(pat[..k + 1], pat[k + 1..i]);
    var c := LangSplit(q[..k + 1], q[k + 1..i], s[..f]);
    LangWidth(q[k + 1..i], s[..f][c..]);
    NoStarInside(q[k + 1..i]);
    assert c == e && s[..f][..c] == s[..e];
    LangWidth(q[..k + 1], s[..e]);
    SplitAt(q, k);
    RowBeforeCut(q, k, s, e - |q[k].syms|);
    RowPlain(q, k);
    HitsAreMatchesWithoutNegation(q[k].syms, s, e - |q[k].syms|);
    HitFits(q[k].syms, s, e - |q[k].syms|, |q[k].syms| - 1);
    NoFillerFits(pat, k);
  }

  /** Then the pattern searched for has no text in which one more filler stands between the two. */
  lemma NoRoomBetween(pat: Pattern, q: Pattern, i: nat, k: nat)
    requires Canonical(pat) && FixedBehind(pat, q, i, k) && NoNegation(q)
    ensures CanonicalPart(pat[i]) && !Lang(q, Stretched(pat, i, 1, SampleRow(pat[i])))
  {
    hide Lang, Canonical, Sample, Stretched, RowHits, LeadIn, NoNegation, Width, Stars, SampleRow;
    NoFillerFits(pat, i);
    var row := SampleRow(pat[i]);
    var s := Stretched(pat, i, 1, row);
    StretchedSize(pat, i, 1, row);
    SplitAt(pat, i);
    if Lang(q, s) {
      var f := SomePlace(q, i, s);
      assert pat[..i] == pat[..k + 1] + pat[k + 1..i];
      WidthSum(pat[..k + 1], pat[k + 1..i]);
      if f == Width(pat[..i]) {
        FillersBetween(pat, i, k, 1, row, f);
        HitFits(q[i].syms, s, f, 0);
      } else {
        LeadInIsAll(q, i, s, f);
        FillersBetween(pat, i, k, 1, row, f - Width(pat[k + 1..i]) - 1);
        RowHasToEnd(pat, q, i, k, s, f);
      }
    }
  }

  lemma LeadInIsAll(q: Pattern, i: nat, s: Text, f: nat)
    requires i < |q| && q[i].lead == 0 && f <= |s| && LeadIn(q, i, s[..f])
    ensures Lang(q[..i], s[..f])
  {
    var m :| LeadInAt(q, i, s[..f], m);
    assert s[..f][..m] == s[..f];
  }

  /** Every text of the pattern is one of the pattern searched for exactly if no row loses the '*' in front of it. */
  lemma SoughtExactly(pat: Pattern)
    requires pat != [] && Canonical(pat) && NoNegation(Sought(pat))
    ensures (forall s :: Lang(pat, s) ==> Lang(Sought(pat), s)) <==> !Cut(pat)
  {
    hide *;
    CanonicalIsValid(pat);
    if Cut(pat) {
      var i, k := CutRows(pat);
      CutIsFixed(pat, i, k);
      CutLoses(pat, Sought(pat), i, k);
    } else {
      forall s | Lang(pat, s) ensures Lang(Sought(pat), s) {
        SoughtHasAll(pat, s);
      }
    }
  }

  lemma CutLoses(pat: Pattern, q: Pattern, i: nat, k: nat)
    requires Canonical(pat) && FixedBehind(pat, q, i, k) && NoNegation(q)
    ensures exists s :: Lang(pat, s) && !Lang(q, s)
  {
    hide Lang, Canonical, NoNegation, Stretched;
    NoRoomBetween(pat, q, i, k);
    StretchedFits(pat, i, 1, SampleRow(pat[i]));
    assert !Lang(q, Stretched(pat, i, 1, SampleRow(pat[i])));
  }
}
