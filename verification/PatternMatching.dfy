/** From the text of a pattern to an answer (libAfterBase/regexp.c), and when that answer can be trusted. */
module PatternMatching {
  import opened Common
  import opened CharClass
  import opened PatternLanguage
  import opened CompiledPattern
  import opened PatternParser
  import opened PatternCompiler
  import opened PatternPrinter
  import opened PatternSamples
  import opened MatchAnswer
  import opened MatchMeaning
  import opened Matcher
  import opened MatchComplete
  import opened MatchSought
  import opened MatchLosses

  // ---------------------------------------------------------------- a list of strings

  /** A string of the list before its first NULL that the matcher finds. */
  ghost predicate FoundAt(pat: Pattern, list: seq<Option<Text>>, i: int)
  {
    0 <= i < |list| && (forall j :: 0 <= j <= i ==> list[j].Some?) && Matches(pat, list[i].value)
  }

  method MatchStringList(list: seq<Option<Text>>, w: WildRegExp, ghost pat: Pattern) returns (res: int)
    requires Compiled(w, pat)
    ensures res == 0 || res == -1
    ensures res == 0 <==> exists i :: FoundAt(pat, list, i)
  {
    hide Compiled, Matches, Lang, NoNegation, Stars, Sought, NothingHidden, SurelyFound;
    res := -1;
    for i := 0 to |list|
      invariant res == -1 && forall j :: 0 <= j < i ==> list[j].Some? && !Matches(pat, list[j].value)
    {
      if list[i].None? {
        break;
      }
      res := MatchWildRegExp(list[i].value, w, pat);
      if res >= 0 {
        assert FoundAt(pat, list, i);
        break;
      }
    }
  }

  // ---------------------------------------------------------------- nothing but texts of the language

  lemma SoughtIsCanonical(pat: Pattern)
    requires pat != [] && Canonical(pat)
    ensures Canonical(Sought(pat)) && (NoNegation(pat) ==> NoNegation(Sought(pat)))
  {
    var q := Sought(pat);
    hide LeftEdge, RightEdge, Longest, Stars;
    forall i | 0 <= i < |q| ensures CanonicalPart(q[i]) && (NoNegation(pat) ==> NoNegatedSym(q[i].syms)) {
      assert CanonicalPart(pat[i]) && pat[i] in pat;
    }
  }

  /** A negation-free pattern finds nothing but texts of its language exactly if no part beyond a gap has a
      symbol. */
  lemma SoundExactly(pat: Pattern)
    requires pat != [] && Canonical(pat) && NoNegation(pat)
    ensures NothingHidden(pat) <==> forall s :: Matches(pat, s) ==> Lang(pat, s)
  {
    CanonicalIsValid(pat);
    if NothingHidden(pat) {
      forall s | Matches(pat, s) ensures Lang(pat, s) {
        MatchMeans(pat, s);
        SoughtIsWritten(pat, s);
      }
    } else {
      var s := FoundOutside(pat);
    }
  }

  /** A hidden symbol lets a text through that does not have it. */
  lemma FoundOutside(pat: Pattern) returns (s: Text)
    requires pat != [] && Canonical(pat) && NoNegation(pat) && !NothingHidden(pat)
    ensures Matches(pat, s) && !Lang(pat, s)
  {
    hide Sought, Sample, Matches, Lang, Stars, Width, NothingHidden, ValidPattern, Longest, LeftEdge, RightEdge;
    CanonicalIsValid(pat);
    SoughtIsCanonical(pat);
    SampleFits(Sought(pat));
    s := Sample(Sought(pat));
    var i := HiddenPart(pat);
    assert SurelyFound(pat, s);
    MatchMeans(pat, s);
    SampleAt(Sought(pat), i, Lead0(pat[i]));
    if Lang(pat, s) {
      Forced(pat, s, i);
      FillerFitsNot(pat, i, s, Width(pat[..i]) + Lead0(pat[i]));
    }
  }

  lemma FillerFitsNot(pat: Pattern, i: nat, s: Text, at: nat)
    requires Canonical(pat) && NoNegation(pat) && i < |pat| && pat[i].syms != [] && at < |s| && s[at] == FILLER
    ensures !RowAt(pat[i].syms, s, at)
  {
    assert CanonicalPart(pat[i]) && pat[i] in pat && pat[i].syms[0] in pat[i].syms;
    SomeMember(pat[i].syms[0]);
    assert s[at + 0] == FILLER && !Allows(pat[i].syms[0], s[at + 0]);
  }

  lemma HiddenPart(pat: Pattern) returns (i: nat)
    requires pat != [] && ValidPattern(pat) && !NothingHidden(pat)
    ensures i < |pat| && pat[i].syms != [] && Lead0(Sought(pat)[i]) > Lead0(pat[i])
    ensures Width(Sought(pat)[..i]) == Width(pat[..i]) && Width(Sought(pat)) == Width(pat)
  {
    var l := Longest(pat);
    i :| 0 <= i < |pat| && !(LeftEdge(pat, l) <= i <= RightEdge(pat, l)) && pat[i].syms != [];
    SeenParts(pat, l);
    hide LeftEdge, RightEdge, Longest, Width, Stars;
    SameWidth(Sought(pat)[..i], pat[..i]);
    SameWidth(Sought(pat), pat);
  }

  // ---------------------------------------------------------------- exactly the texts of the language

  /** What keeps the matcher to the language of the pattern: nothing hidden beyond a gap, no row cut off from its '*',
      no movable row with a character in two symbols or with another row at a fixed distance. */
  ghost predicate Reliable(pat: Pattern)
    requires pat != []
  {
    NothingHidden(pat) && !Cut(pat) && NoneRepeats(pat) && AllLoose(pat)
  }

  /** Without negation, and where no row stands at a fixed distance from a movable one, these conditions are met
      exactly if the matcher finds all texts of the language and no others. */
  lemma RightExactly(pat: Pattern)
    requires pat != [] && Canonical(pat) && NoNegation(pat) && AllLoose(pat)
    ensures (forall s :: Matches(pat, s) <==> Lang(pat, s)) <==> NothingHidden(pat) && !Cut(pat) && NoneRepeats(pat)
  {
    hide *;
    SoundExactly(pat);
    SoughtIsCanonical(pat);
    FindsAllExactly(pat);
  }

  // ---------------------------------------------------------------- from the text

  /** So it is for every text of a pattern without negation marks. */
  lemma FindsOnlyItsLanguage(data: Text)
    requires Compilable(data) && PatternFrom(data, 0).Parts? && PatternFrom(data, 0).parts != []
    requires NoNegation(PatternFrom(data, 0).parts)
    ensures var pat := PatternFrom(data, 0).parts;
      NothingHidden(pat) <==> forall s :: Matches(pat, s) ==> Lang(pat, s)
  {
    hide NothingHidden, Matches, Lang, NoNegation;
    ParsedIsCanonical(data, 0);
    SoundExactly(PatternFrom(data, 0).parts);
  }

  /** And where no row stands at a fixed distance from a movable one, the matcher finds just the language of the text
      if, and only if, the other conditions are met as well. */
  lemma FindsExactlyItsLanguage(data: Text)
    requires Compilable(data) && PatternFrom(data, 0).Parts? && PatternFrom(data, 0).parts != []
    requires NoNegation(PatternFrom(data, 0).parts) && AllLoose(PatternFrom(data, 0).parts)
    ensures var pat := PatternFrom(data, 0).parts;
      (forall s :: Matches(pat, s) <==> Lang(pat, s)) <==> Reliable(pat)
  {
    hide NothingHidden, Matches, Lang, NoNegation, Cut, NoneRepeats, AllLoose, PatternFrom, FitFrom, ZeroFree;
    ParsedIsCanonical(data, 0);
    RightExactly(PatternFrom(data, 0).parts);
  }

  /** No class in the text is empty: something stands between its brackets. */
  ghost predicate ClassesFilled(data: Text)
  {
    forall p: nat :: At(data, p) == OPEN ==> SymAt(data, p).0.Some?
  }

  /** Then only the last part of the pattern can be without symbols, and nothing is hidden. */
  lemma FilledClassesHideNothing(data: Text)
    requires ZeroFree(data) && ClassesFilled(data) && PatternFrom(data, 0).Parts? && PatternFrom(data, 0).parts != []
    ensures NothingHidden(PatternFrom(data, 0).parts)
  {
    OnlyTailIsEmpty(data, 0);
    var pat := PatternFrom(data, 0).parts;
    var l := Longest(pat);
    assert LeftEdge(pat, l) == 0 && RightEdge(pat, l) == |pat| - 1;
  }

  lemma {:induction false} OnlyTailIsEmpty(data: Text, p: nat)
    requires ZeroFree(data) && ClassesFilled(data) && PatternFrom(data, p).Parts?
    ensures OnlyTailEmpty(PatternFrom(data, p).parts)
    decreases |data| - p
  {
    if p < |data| {
      var (lead, q) := Wild(data, p, 0);
      var (syms, e) := RowFrom(data, q);
      if lead != 0 || syms != [] {
        OnlyTailIsEmpty(data, e);
        WildStops(data, p, 0);
        if syms == [] {
          EmptyRowEndsText(data, q);
        }
      }
    }
  }

  /** A row without symbols that stands before no wildcard stands at the end of the text. */
  lemma EmptyRowEndsText(data: Text, q: nat)
    requires ZeroFree(data) && ClassesFilled(data) && At(data, q) !in IN_ROW && RowFrom(data, q).0 == []
    ensures RowFrom(data, q).1 >= |data|
  {
    forall k | 0 <= k < |data| ensures data[k] != 0 {
      assert data[k] in data;
    }
    assert At(data, q) != OPEN;
  }

  // ---------------------------------------------------------------- compiled and matched

  lemma TextReliable(data: Text, s: Text)
    requires Compilable(data)
    ensures PatternFrom(data, 0).Parts? && PatternFrom(data, 0).parts != [] ==>
      var pat := PatternFrom(data, 0).parts;
      NoNegation(pat) && Reliable(pat) ==> (Matches(pat, s) <==> Lang(pat, s))
  {
    hide PatternFrom, FitFrom, ZeroFree, Matches, Lang, NoNegation, NothingHidden, Cut, NoneRepeats, AllLoose, Canonical;
    if PatternFrom(data, 0).Parts? && PatternFrom(data, 0).parts != [] {
      var pat := PatternFrom(data, 0).parts;
      ParsedIsCanonical(data, 0);
      if NoNegation(pat) && Reliable(pat) {
        RightExactly(pat);
      }
    }
  }

  /** Compiles a pattern and tries it on a string. */
  method CompileAndMatch(data: Text, s: Text) returns (compiled: bool, res: int)
    requires Compilable(data)
    ensures compiled <==> PatternFrom(data, 0).Parts? && PatternFrom(data, 0).parts != []
    ensures compiled ==> var pat := PatternFrom(data, 0).parts;
      && res == (if Matches(pat, s) then 0 else -1)
      && (NothingHidden(pat) && res == 0 ==> Lang(pat, s) && NoNegation(pat))
      && (NothingHidden(pat) && Stars(pat) <= 1 ==> (res == 0 <==> Lang(pat, s) && NoNegation(pat)))
      && (NoNegation(pat) && Reliable(pat) ==> (res == 0 <==> Lang(pat, s)))
  {
    hide *;
    TextReliable(data, s);
    var b, raw := CompileWildRegExp(data);
    if !b.Built? {
      return false, 1;
    }
    compiled := true;
    res := MatchWildRegExp(s, b.w, PatternFrom(data, 0).parts);
  }
}
