/** Texts on which the matcher (libAfterBase/regexp.c) answers against the language of its pattern: a part beyond an
    empty class is not looked at, a second '*' does not stretch, the skip table goes too far, and a negated symbol
    fits nothing; and one on which compiling does not end. */
module PatternExamples {
  import opened Common
  import opened CharClass
  import opened PatternLanguage
  import opened CompiledPattern
  import opened PatternParser
  import opened PatternCompiler
  import opened PatternPrinter
  import opened MatchAnswer
  import opened MatchMeaning
  import opened PatternMatching

  const LETTER_A: Byte := 97
  const LETTER_B: Byte := 98
  const LETTER_C: Byte := 99

  function Single(c: Byte): Sym { Sym(false, [c]) }

  function Word(t: Text): (syms: seq<Sym>)
    ensures |syms| == |t|
  {
    if t == [] then [] else [Single(t[0])] + Word(t[1..])
  }

  // ---------------------------------------------------------------- reading letters

  lemma WordIs(x: Byte, y: Byte)
    ensures Word([x]) == [Single(x)] && Word([y]) == [Single(y)]
    ensures Word([x, x, y]) == [Single(x), Single(x), Single(y)]
  {
    var t: Text := [x, x, y];
    assert t[1..] == [x, y] && [x, y][1..] == [y] && [y][1..] == [] && [x][1..] == [];
    assert Word([]) == [];
    assert Word([y]) == [Single(y)] && Word([x]) == [Single(x)];
    assert Word([x, y]) == [Single(x)] + Word([y]);
    assert Word(t) == [Single(x)] + Word([x, y]);
  }

  predicate Letters(t: Text) {
    forall k :: 0 <= k < |t| ==> t[k] in [LETTER_A, LETTER_B, LETTER_C]
  }

  /** A run of letters up to a wildcard or the end is a row of single characters. */
  lemma {:induction false} WordReads(data: Text, p: nat, t: Text)
    requires Letters(t) && p + |t| <= |data| && data[p..p + |t|] == t && At(data, p + |t|) in [0, STAR]
    ensures RowFrom(data, p) == (Word(t), p + |t|)
    ensures t != [] ==> At(data, p) == t[0]
    decreases |t|
  {
    hide Canon;
    if t == [] {
      assert SymAt(data, p) == (None, p);
    } else {
      var c := t[0];
      assert data[p] == data[p..p + |t|][0] == c;
      assert data[p + 1..p + |t|] == data[p..p + |t|][1..] == t[1..];
      WordReads(data, p + 1, t[1..]);
      CanonOfOne(c);
      assert SymAt(data, p) == (Some(Sym(false, [c])), p + 1);
    }
  }

  /** A '*', then letters, then whatever more there is. */
  lemma StarReads(data: Text, p: nat, t: Text)
    requires Letters(t) && t != [] && At(data, p) == STAR && p + 1 + |t| <= |data|
    requires data[p + 1..p + 1 + |t|] == t && At(data, p + 1 + |t|) in [0, STAR] && PatternFrom(data, p + 1 + |t|).Parts?
    ensures PatternFrom(data, p) == Parts([Part(-1, Word(t))] + PatternFrom(data, p + 1 + |t|).parts)
  {
    hide RowFrom, Word, PatternFrom;
    WordReads(data, p + 1, t);
    assert Wild(data, p, 0) == Wild(data, p + 1, -1) == (-1, p + 1);
    PartReads(data, p, -1, p + 1, Word(t), p + 1 + |t|);
  }

  lemma PartReads(data: Text, p: nat, lead: int, q: nat, syms: seq<Sym>, e: nat)
    requires p < |data| && Wild(data, p, 0) == (lead, q) && RowFrom(data, q) == (syms, e)
    requires (lead != 0 || syms != []) && PatternFrom(data, e).Parts?
    ensures PatternFrom(data, p) == Parts([Part(lead, syms)] + PatternFrom(data, e).parts)
  {
  }

  lemma NothingReads(data: Text)
    ensures PatternFrom(data, |data|) == Parts([])
  {
  }

  lemma OneHas(c: Byte, x: Byte)
    requires c != RANGE
    ensures Has([c], x) <==> x == c
  {
    assert [c][1..] == [];
  }

  // ---------------------------------------------------------------- an empty class

  lemma EmptyClass(data: Text, p: nat)
    requires p + 1 < |data| && data[p] == OPEN && data[p + 1] == CLOSE
    ensures SymAt(data, p) == (None, p + 2) && RowFrom(data, p) == ([], p + 2)
  {
    hide Canon;
    assert MultiPart(data, p + 1) == (None, p + 1);
    assert ClassBody(data, p + 1, []) == ([], p + 1);
  }

  /** "a*[]b": the empty class ends its row before it has begun, and leaves a part without symbols inside. */
  lemma EmptyClassReads()
    ensures PatternFrom([LETTER_A, STAR, OPEN, CLOSE, LETTER_B], 0)
      == Parts([Part(0, [Single(LETTER_A)]), Part(-1, []), Part(0, [Single(LETTER_B)])])
  {
    hide Canon, ClassBody, MultiPart, RowFrom, PatternFrom;
    var data: Text := [LETTER_A, STAR, OPEN, CLOSE, LETTER_B];
    assert [LETTER_A][1..] == [] && [LETTER_B][1..] == [];
    NothingReads(data);
    WordReads(data, 4, [LETTER_B]);
    PartReads(data, 4, 0, 4, Word([LETTER_B]), 5);
    EmptyClass(data, 2);
    assert Wild(data, 1, 0) == Wild(data, 2, -1) == (-1, 2);
    PartReads(data, 1, -1, 2, [], 4);
    WordReads(data, 0, [LETTER_A]);
    PartReads(data, 0, 0, 0, Word([LETTER_A]), 1);
    assert Word([LETTER_A]) == [Single(LETTER_A)] && Word([LETTER_B]) == [Single(LETTER_B)];
  }

  /** The matcher is content with such a part whatever lies before it: of "xb" it compares the b, and never
      the a. */
  lemma EmptyClassHidesWhatIsBefore(x: Byte)
    requires x != LETTER_A
    ensures var pat := [Part(0, [Single(LETTER_A)]), Part(-1, []), Part(0, [Single(LETTER_B)])];
      Matches(pat, [x, LETTER_B]) && !Lang(pat, [x, LETTER_B])
  {
    hide PatternFrom, Matches, Lang, NoNegation, Stars, ValidPattern, Sought, SurelyFound, Single;
    var pa, pe, pb := Part(0, [Single(LETTER_A)]), Part(-1, []), Part(0, [Single(LETTER_B)]);
    var pat, s: Text := [pa, pe, pb], [x, LETTER_B];
    var q := [Part(1, []), pe, pb];
    SoughtBehindGap();
    GapTakesAnything(x);
    Countable(pat, q);
    MatchMeans(pat, s);
    WrongStart(pat, s, LETTER_A);
  }

  lemma SoughtBehindGap()
    ensures var pa, pe, pb := Part(0, [Single(LETTER_A)]), Part(-1, []), Part(0, [Single(LETTER_B)]);
      Sought([pa, pe, pb]) == [Part(1, []), pe, pb]
  {
    var pa, pe, pb := Part(0, [Single(LETTER_A)]), Part(-1, []), Part(0, [Single(LETTER_B)]);
    var pat := [pa, pe, pb];
    assert Longest(pat) == 2;
    assert LeftEdge(pat, 2) == 1 && RightEdge(pat, 2) == 2;
    assert Seen(pat, 2) == [Part(1, []), pe, pb];
    assert Sought(pat) == [Part(1, []), pe, pb];
  }

  lemma GapTakesAnything(x: Byte)
    ensures Lang([Part(1, []), Part(-1, []), Part(0, [Single(LETTER_B)])], [x, LETTER_B])
  {
    var q, s: Text := [Part(1, []), Part(-1, []), Part(0, [Single(LETTER_B)])], [x, LETTER_B];
    OneHas(LETTER_B, LETTER_B);
    LangNothing();
    assert q[1..] == [q[1], q[2]] && q[1..][1..] == [q[2]] && [q[2]][1..] == [];
    LangOne(q[2], [LETTER_B]);
    assert s[1..] == [LETTER_B] && s[1..][0..] == [LETTER_B];
    LangCons(q[1..], s[1..], 0);
    LangCons(q, s, 1);
  }

  lemma Countable(pat: Pattern, q: Pattern)
    requires pat == [Part(0, [Single(LETTER_A)]), Part(-1, []), Part(0, [Single(LETTER_B)])]
    requires q == [Part(1, []), Part(-1, []), Part(0, [Single(LETTER_B)])] == Sought(pat)
    ensures ValidPattern(pat) && NoNegation(q) && Stars(q) == 1
    ensures forall s :: SurelyFound(pat, s) <==> Lang(q, s)
  {
    hide Sought, Lang;
    assert [LETTER_A][1..] == [] && [LETTER_B][1..] == [];
    assert q[1..] == [q[1], q[2]] && q[1..][1..] == [q[2]] && [q[2]][1..] == [];
    assert Stars([q[2]]) == 0 && Stars([q[1], q[2]]) == 1;
    forall p | p in q ensures NoNegatedSym(p.syms) {}
    forall i | 0 <= i < 3 ensures ValidPart(pat[i]) {}
  }

  lemma WrongStart(pat: Pattern, s: Text, c: Byte)
    requires pat != [] && pat[0] == Part(0, [Single(c)]) && c != RANGE && s != [] && s[0] != c
    ensures !Lang(pat, s)
  {
    if Lang(pat, s) {
      var n := LangHead(pat, s);
      assert n == 0 && Allows(pat[0].syms[0], s[n + 0]);
      OneHas(c, s[0]);
    }
  }

  // ---------------------------------------------------------------- a second '*'

  /** "*a*b" never finds "axb", though the pattern's language has it: the '*' before b is taken for
      nothing. */
  lemma SecondStarIsLost(a: Byte, b: Byte, x: Byte)
    requires a > RANGE && b > RANGE && x != a
    ensures var pat := [Part(-1, [Single(a)]), Part(-1, [Single(b)])];
      Lang(pat, [a, x, b]) && !Matches(pat, [a, x, b])
  {
    hide *;
    var pat, s: Text := [Part(-1, [Single(a)]), Part(-1, [Single(b)])], [a, x, b];
    StarsStretch(a, b, x);
    SoughtIsNarrow(a, b);
    MatchMeans(pat, s);
  }

  lemma StarsStretch(a: Byte, b: Byte, x: Byte)
    requires a > RANGE && b > RANGE && x != a
    ensures var pa, pb := Part(-1, [Single(a)]), Part(-1, [Single(b)]);
      Lang([pa, pb], [a, x, b]) && !Lang([pa, pb.(lead := 0)], [a, x, b]) && ValidPattern([pa, pb])
  {
    var pa, pb, s: Text := Part(-1, [Single(a)]), Part(-1, [Single(b)]), [a, x, b];
    var pat, q := [pa, pb], [pa, pb.(lead := 0)];
    assert [a][1..] == [] && [b][1..] == [] && pat[1..] == [pb] && q[1..] == [q[1]];
    LangOne(pb, [x, b]);
    assert HeadFits(pa, s, 0) && s[1..] == [x, b];
    LangCons(pat, s, 0);
    assert WellFormed([a]) && WellFormed([b]);
    forall i | 0 <= i < 2 ensures ValidPart(pat[i]) {}
    if Lang(q, s) {
      var n := LangHead(q, s);
      LangOne(q[1], s[n + 1..]);
      assert n == 1 && Allows(pa.syms[0], s[n + 0]);
      OneHas(a, x);
    }
  }

  lemma SoughtIsNarrow(a: Byte, b: Byte)
    ensures Sought([Part(-1, [Single(a)]), Part(-1, [Single(b)])]) == [Part(-1, [Single(a)]), Part(0, [Single(b)])]
  {
    var pat := [Part(-1, [Single(a)]), Part(-1, [Single(b)])];
    assert Longest(pat) == 1 && LeftEdge(pat, 1) == 0 && RightEdge(pat, 1) == 1;
    assert Seen(pat, 1) == pat;
    assert pat[..0] == [] && pat[..1] == [pat[0]] && [pat[0]][1..] == [];
    assert Sought(pat) == [Part(-1, [Single(a)]), Part(0, [Single(b)])];
  }

  // ---------------------------------------------------------------- the skip table

  /** "*aab*c" never finds "aaabc": tried at the start, the row misses at its b, where the text has an a. The skip
      table knows the place of the first a of the row only, and moves the row on by two. */
  lemma SkipTableLoses(a: Byte, b: Byte, c: Byte)
    requires a > RANGE && b > RANGE && c > RANGE && a != b
    ensures var pat := [Part(-1, [Single(a), Single(a), Single(b)]), Part(-1, [Single(c)])];
      Lang(pat, [a, a, a, b, c]) && !Matches(pat, [a, a, a, b, c])
  {
    hide *;
    var p0, p1 := Part(-1, [Single(a), Single(a), Single(b)]), Part(-1, [Single(c)]);
    var pat, s: Text := [p0, p1], [a, a, a, b, c];
    OneStepOn(a, b, c);
    SkipsTwo(a, b, c);
    NotFromTwo(a, b, c);
  }

  lemma OneStepOn(a: Byte, b: Byte, c: Byte)
    requires a > RANGE && b > RANGE && c > RANGE
    ensures Lang([Part(-1, [Single(a), Single(a), Single(b)]), Part(-1, [Single(c)])], [a, a, a, b, c])
  {
    var p0, p1, s: Text := Part(-1, [Single(a), Single(a), Single(b)]), Part(-1, [Single(c)]), [a, a, a, b, c];
    OneHas(a, a);
    OneHas(b, b);
    OneHas(c, c);
    LangOne(p1, [c]);
    assert [p0, p1][1..] == [p1] && s[4..] == [c];
    assert HeadFits(p0, s, 1);
    LangCons([p0, p1], s, 1);
  }

  lemma SkipsTwo(a: Byte, b: Byte, c: Byte)
    requires a > RANGE && b > RANGE && a != b
    ensures Skip([Single(a), Single(a), Single(b)], [a, a, a, b, c], 0) == 2
    ensures !RowHits([Single(a), Single(a), Single(b)], [a, a, a, b, c], 0)
  {
    var syms, s: Text := [Single(a), Single(a), Single(b)], [a, a, a, b, c];
    OneHas(b, a);
    OneHas(a, a);
    assert RowStop(syms, s, 0, 2) == 2;
    assert BackwardCodes(syms)[2] == [a];
    assert SkipFor(BackwardCodes(syms), 3, a) == 2;
    assert !Hit(syms[2], s[0 + 2]);
  }

  lemma NotFromTwo(a: Byte, b: Byte, c: Byte)
    requires var syms := [Single(a), Single(a), Single(b)];
      Skip(syms, [a, a, a, b, c], 0) == 2 && !RowHits(syms, [a, a, a, b, c], 0)
    ensures !Matches([Part(-1, [Single(a), Single(a), Single(b)]), Part(-1, [Single(c)])], [a, a, a, b, c])
  {
    hide Skip, RowHits, Sides;
    var p0, p1, s: Text := Part(-1, [Single(a), Single(a), Single(b)]), Part(-1, [Single(c)]), [a, a, a, b, c];
    var pat := [p0, p1];
    assert pat[1..] == [p1] && [p1][1..] == [] && pat[..0] == [] && pat[..1] == [p0] && [p0][1..] == [];
    assert Longest(pat) == 0;
    assert WindowOf(pat, 0, s, true, true) == Window(0, 4);
    assert !Search(pat, 0, 0, s, true, true, 2, 4);
    assert !Search(pat, 0, 0, s, true, true, 0, 4);
  }

  // ---------------------------------------------------------------- a negated symbol

  /** "[!a]" has the text "b", and the matcher does not find it: it takes every negated symbol for a miss. */
  lemma NegationNeverFits(a: Byte, b: Byte)
    requires a > RANGE && a != b
    ensures var pat := [Part(0, [Sym(true, [a])])]; Lang(pat, [b]) && !Matches(pat, [b])
  {
    hide Sought, Matches;
    var p := Part(0, [Sym(true, [a])]);
    OneHas(a, b);
    LangOne(p, [b]);
    assert WellFormed([a]) by {
      assert [a][1..] == [];
    }
    forall i | 0 <= i < 1 ensures ValidPart([p][i]) {}
    NegatedIsSought(p);
    MatchMeans([p], [b]);
  }

  lemma NegatedIsSought(p: Part)
    requires p.syms != [] && p.syms[0].negate && p.lead >= 0
    ensures !NoNegation(Sought([p]))
  {
    assert Longest([p]) == 0;
    assert Sought([p]) == [p];
    assert p in [p] && p.syms[0] in p.syms;
  }

  lemma NegatedReads()
    ensures PatternFrom([OPEN, BANG, LETTER_A, CLOSE], 0) == Parts([Part(0, [Sym(true, [LETTER_A])])])
  {
    hide Canon, PatternFrom;
    var data: Text := [OPEN, BANG, LETTER_A, CLOSE];
    NothingReads(data);
    CanonOfOne(LETTER_A);
    assert SingleChar(data, 2, IN_CLASS) == (LETTER_A, 3) && SingleChar(data, 3, IN_CLASS) == (0, 3);
    assert Enumeration(data, 3, [LETTER_A]) == ([LETTER_A], 3);
    assert MultiPart(data, 2) == (Some([LETTER_A]), 3);
    assert ClassBody(data, 2, []) == ([] + [LETTER_A], 3);
    assert [] + [LETTER_A] == [LETTER_A];
    assert SymAt(data, 0) == (Some(Sym(true, [LETTER_A])), 4);
    assert SymAt(data, 4) == (None, 4);
    assert RowFrom(data, 4) == ([], 4);
    RowStarts(data, 0);
    assert [Sym(true, [LETTER_A])] + [] == [Sym(true, [LETTER_A])];
    PartReads(data, 0, 0, 0, [Sym(true, [LETTER_A])], 4);
  }

  // ---------------------------------------------------------------- a range to the top

  const TOP: Byte := 255

  /** "[a-\xff]": the class compiles to a range on which the loop that fills the skip table never ends. */
  lemma RangeToTheTop()
    ensures var data: Text := [OPEN, LETTER_A, DASH, TOP, CLOSE];
      && PatternFrom(data, 0) == Parts([Part(0, [Sym(false, [RANGE, LETTER_A, TOP])])])
      && !RangesEnd([RANGE, LETTER_A, TOP]) && !Compilable(data)
      && !(exists n :: CharAfter(LETTER_A, n) > TOP)
  {
    hide Canon, PatternFrom;
    var data: Text := [OPEN, LETTER_A, DASH, TOP, CLOSE];
    var code := [RANGE, LETTER_A, TOP];
    NothingReads(data);
    CanonOfTopRange(LETTER_A);
    RangesEndExactly(code);
    assert code[3..] == [];
    assert MultiPart(data, 1) == (Some(code), 4);
    assert ClassBody(data, 1, []) == ([] + code, 4);
    assert [] + code == code;
    assert SymAt(data, 0) == (Some(Sym(false, code)), 5);
    assert SymAt(data, 5) == (None, 5);
    assert RowFrom(data, 5) == ([], 5);
    RowStarts(data, 0);
    assert [Sym(false, code)] + [] == [Sym(false, code)];
    PartReads(data, 0, 0, 0, [Sym(false, code)], 5);
    assert !FitRow(data, 0) && Wild(data, 0, 0) == (0, 0);
    RangeLoopEnds(LETTER_A, TOP);
  }

  lemma CanonOfTopRange(lo: Byte)
    requires 2 <= lo < 254
    ensures Canon([RANGE, lo, TOP]) == [RANGE, lo, TOP]
  {
    var code := [RANGE, lo, TOP];
    var sc := Marks(code);
    assert code[3..] == [];
    assert forall c: Byte :: Denotes(code, c) <==> lo <= c;
    SkipUnmarked(sc, 2, lo);
    RunEndIs(sc, lo, TOP);
  }

  lemma {:induction false} SkipUnmarked(sc: Scale, i: nat, lo: Byte)
    requires i <= lo < 255 && forall k :: i <= k < lo ==> !sc[k]
    ensures Runs(sc, i) == Runs(sc, lo)
    decreases lo - i
  {
    if i < lo {
      SkipUnmarked(sc, i + 1, lo);
    }
  }

  // ---------------------------------------------------------------- how a pattern is printed

  const RANGES: Code := [RANGE, 97, 99, 101, 103, RANGE, 112, 114]

  lemma RangeStep(lo: Byte, hi: Byte, rest: Code, partType: nat)
    ensures PrintCode([RANGE, lo, hi] + rest, partType) == PrintRange(lo, hi, partType) + PrintCode(rest, 2)
    ensures forall t :: PrintCode([], t) == []
  {
    assert ([RANGE, lo, hi] + rest)[3..] == rest;
  }

  lemma SingleStep(c: Byte, rest: Code, partType: nat)
    requires c != RANGE
    ensures PrintCode([c] + rest, partType) == PrintSingle(c, partType) + PrintCode(rest, 0)
  {
    assert ([c] + rest)[1..] == rest;
  }

  /** "[a-c,eg,p-r]". */
  function RangesText(): Text
  {
    [91] + [97, 45, 99] + [44, 101] + [103] + [44, 112, 45, 114] + [93]
  }

  lemma RangesPrint()
    ensures PrintSym(Sym(false, RANGES)) == RangesText()
  {
    hide PrintCode, PrintRange, PrintSingle;
    var last: Code := [RANGE, 112, 114];
    RangeStep(112, 114, [], 0);
    SingleStep(103, last, 0);
    SingleStep(101, [103] + last, 2);
    RangeStep(97, 99, [101] + ([103] + last), 1);
    PiecesPrint();
    assert last + [] == last;
    assert RANGES == [RANGE, 97, 99] + ([101] + ([103] + last));
    Bracketed([91], [97, 45, 99], [44, 101], [103], [44, 112, 45, 114], [93]);
  }

  lemma PiecesPrint()
    ensures PrintRange(112, 114, 0) == [44, 112, 45, 114] && PrintRange(97, 99, 1) == [97, 45, 99]
    ensures PrintSingle(101, 2) == [44, 101] && PrintSingle(103, 0) == [103]
  {
  }

  lemma Bracketed(a: Text, b: Text, c: Text, d: Text, e: Text, f: Text)
    ensures a + [] + (b + (c + (d + (e + [])))) + f == a + b + c + d + e + f
  {
  }

  lemma SinglesPrint()
    ensures PrintSym(Sym(true, [33])) == [91, 33, 92, 33, 93] && PrintSym(Single(42)) == [92, 42]
    ensures PrintSym(Single(92)) == [92] && PrintLead(2) == [63, 63] && PrintLead(-1) == [42]
  {
    hide PrintCode;
    SingleStep(33, [], 0);
    SingleStep(42, [], 0);
    SingleStep(92, [], 0);
    RangeStep(1, 1, [], 0);
    assert [33 as Byte] + [] == [33] && [42 as Byte] + [] == [42] && [92 as Byte] + [] == [92];
  }

  /** Ranges and runs in a class, with a comma between them; single characters without brackets, unless they are negated;
      question marks and a star; and a backslash in front of what would read as something else:
      "\*[a-c,eg,p-r]??[!\!]\*". */
  lemma PrintsLiterally()
    ensures var ranges, bang := Sym(false, RANGES), Sym(true, [33]);
      Print([Part(0, [Single(42), ranges]), Part(2, [bang, Single(92)]), Part(-1, [])])
        == [92, 42] + RangesText() + [63, 63] + [91, 33, 92, 33, 93] + [92] + [42]
  {
    hide *;
    var ranges, bang := Sym(false, RANGES), Sym(true, [33]);
    RangesPrint();
    SinglesPrint();
    RowOfTwo(Single(42), ranges);
    RowOfTwo(bang, Single(92));
    ThreePrint(Part(0, [Single(42), ranges]), Part(2, [bang, Single(92)]), Part(-1, []));
    NothingPrints();
    Flattened([92, 42], RangesText(), [63, 63], [91, 33, 92, 33, 93], [92], [42]);
  }

  lemma Flattened(a: Text, b: Text, c: Text, d: Text, e: Text, f: Text)
    ensures [] + ((a + b) + (c + ((d + e) + (f + [])))) == a + b + c + d + e + f
  {
  }

  lemma ThreePrint(a: Part, b: Part, c: Part)
    ensures Print([a, b, c]) == PrintLead(a.lead) + (PrintRow(a.syms)
      + (PrintLead(b.lead) + (PrintRow(b.syms) + (PrintLead(c.lead) + PrintRow(c.syms)))))
  {
    hide PrintLead, PrintRow;
    PrintStep(a, [b, c]);
    PrintStep(b, [c]);
    PrintStep(c, []);
    NothingPrints();
    assert [a] + [b, c] == [a, b, c] && [b] + [c] == [b, c] && [c] + [] == [c];
    assert PrintRow(c.syms) + [] == PrintRow(c.syms);
  }

  lemma PrintStep(p: Part, pat: Pattern)
    ensures Print([p] + pat) == PrintLead(p.lead) + (PrintRow(p.syms) + Print(pat))
  {
    assert ([p] + pat)[1..] == pat;
  }

  lemma NothingPrints()
    ensures Print([]) == [] && PrintRow([]) == [] && PrintLead(0) == []
  {
  }

  lemma RowOfTwo(y: Sym, z: Sym)
    ensures PrintRow([y, z]) == PrintSym(y) + PrintSym(z)
  {
    assert [y, z][1..] == [z] && [z][1..] == [];
    assert PrintRow([z]) == PrintSym(z) + PrintRow([]);
    hide PrintSym;
  }

  // ---------------------------------------------------------------- the answers

  lemma ThreeTextsRead()
    ensures PatternFrom([STAR, LETTER_A, STAR, LETTER_B], 0)
      == Parts([Part(-1, [Single(LETTER_A)]), Part(-1, [Single(LETTER_B)])])
    ensures PatternFrom([STAR, LETTER_A, LETTER_A, LETTER_B, STAR, LETTER_C], 0)
      == Parts([Part(-1, [Single(LETTER_A), Single(LETTER_A), Single(LETTER_B)]), Part(-1, [Single(LETTER_C)])])
  {
    hide PatternFrom, RowFrom, Word;
    var d, e: Text := [STAR, LETTER_A, STAR, LETTER_B], [STAR, LETTER_A, LETTER_A, LETTER_B, STAR, LETTER_C];
    var t: Text := [LETTER_A, LETTER_A, LETTER_B];
    NothingReads(d);
    StarReads(d, 2, [LETTER_B]);
    StarReads(d, 0, [LETTER_A]);
    NothingReads(e);
    StarReads(e, 4, [LETTER_C]);
    StarReads(e, 0, t);
    WordIs(LETTER_A, LETTER_B);
    WordIs(LETTER_C, LETTER_C);
  }

  /** What the code answers to "a*[]b" on "xb", to "*a*b" on "axb", to "*aab*c" on "aaabc", and to "[!a]" on "b". */
  method WrongAnswers(x: Byte) returns (hidden: int, star: int, skip: int, negated: int)
    requires x != LETTER_A
    ensures hidden == 0 && star == -1 && skip == -1 && negated == -1
  {
    hide PatternFrom, Matches, Lang, NothingHidden, Stars, NoNegation, Compilable;
    EmptyClassReads();
    EmptyClassHidesWhatIsBefore(x);
    ThreeTextsRead();
    SecondStarIsLost(LETTER_A, LETTER_B, x);
    SkipTableLoses(LETTER_A, LETTER_B, LETTER_C);
    NegatedReads();
    NegationNeverFits(LETTER_A, LETTER_B);
    AllCompilable();
    var b;
    b, hidden := CompileAndMatch([LETTER_A, STAR, OPEN, CLOSE, LETTER_B], [x, LETTER_B]);
    b, star := CompileAndMatch([STAR, LETTER_A, STAR, LETTER_B], [LETTER_A, x, LETTER_B]);
    b, skip := CompileAndMatch([STAR, LETTER_A, LETTER_A, LETTER_B, STAR, LETTER_C],
                               [LETTER_A, LETTER_A, LETTER_A, LETTER_B, LETTER_C]);
    b, negated := CompileAndMatch([OPEN, BANG, LETTER_A, CLOSE], [LETTER_B]);
  }

  lemma AllCompilable()
    ensures Compilable([LETTER_A, STAR, OPEN, CLOSE, LETTER_B]) && Compilable([STAR, LETTER_A, STAR, LETTER_B])
    ensures Compilable([STAR, LETTER_A, LETTER_A, LETTER_B, STAR, LETTER_C]) && Compilable([OPEN, BANG, LETTER_A, CLOSE])
  {
    hide Compilable;
    OrdinaryIsCompilable([LETTER_A, STAR, OPEN, CLOSE, LETTER_B]);
    OrdinaryIsCompilable([STAR, LETTER_A, STAR, LETTER_B]);
    OrdinaryIsCompilable([STAR, LETTER_A, LETTER_A, LETTER_B, STAR, LETTER_C]);
    OrdinaryIsCompilable([OPEN, BANG, LETTER_A, CLOSE]);
  }
}
