/** When the text printed for a compiled pattern (libAfterBase/regexp.c) compiles to that pattern again: exactly
    when no gap is in it and every backslash stands in front of a character that completes it. */
module PatternBackslash {
  import opened Common
  import opened CharClass
  import opened PatternLanguage
  import opened CompiledPattern
  import opened PatternParser
  import opened PatternCompiler
  import opened PatternPrinter
  import opened PatternRoundTrip
  import opened PatternCounting

  // ---------------------------------------------------------------- classes with a backslash

  /** A backslash with a closing bracket right behind it, both single characters. */
  predicate Closes(code: Code)
  {
    code != [] &&
    if code[0] == RANGE && |code| >= 3 then Closes(code[3..])
    else (code[0] == BACKSLASH && |code| >= 2 && code[1] == CLOSE) || Closes(code[1..])
  }

  lemma {:induction false} ClosesAt(code: Code, from: int)
    requires Rising(code, from) && Closes(code)
    ensures from <= BACKSLASH
  {
    if code[0] == RANGE {
      ClosesAt(code[3..], code[2] as int + 1);
    } else if !(code[0] == BACKSLASH && |code| >= 2 && code[1] == CLOSE) {
      ClosesAt(code[1..], code[0] as int + 1);
    }
  }

  /** The byte that follows a piece of a class. */
  lemma NextByte(code: Code, partType: nat, t: Text)
    requires Plain(code)
    requires code == [] || partType == 2 || (partType == 0 && (code[0] == RANGE || code[0] > CLOSE))
    ensures var x := PrintCode(code, partType) + ([CLOSE] + t); x != [] && x[0] != BACKSLASH
  {
  }

  /** Unless it closes, a class has no backslash that is followed by another in the text. */
  lemma {:induction false} CodeApart(data: Text, p: nat, code: Code, partType: nat, t: Text, from: int)
    requires Rising(code, from) && Plain(code) && !Closes(code)
    requires Rest(data, p, PrintCode(code, partType) + ([CLOSE] + t))
    ensures Stock(data, p, BACKSLASH) == Stock(data, p + |PrintCode(code, partType)|, BACKSLASH)
    decreases |code|
  {
    hide Stock, Rest, PrintSingle, PrintRange;
    var u := [CLOSE] + t;
    if code != [] {
      if code[0] == RANGE {
        var piece, rest := PrintRange(code[1], code[2], partType), PrintCode(code[3..], 2);
        Regroup(piece, rest, u);
        NextByte(code[3..], 2, t);
        RangePrinted(data, p, code[1], code[2], partType, rest + u, BACKSLASH);
        CodeApart(data, p + |piece|, code[3..], 2, t, code[2] as int + 1);
      } else {
        var piece, rest := PrintSingle(code[0], partType), PrintCode(code[1..], 0);
        Regroup(piece, rest, u);
        if code[0] == BACKSLASH {
          NextByte(code[1..], 0, t);
        }
        SinglePrinted(data, p, code[0], partType, rest + u, BACKSLASH);
        CodeApart(data, p + |piece|, code[1..], 0, t, code[0] as int + 1);
      }
    }
  }

  lemma ClassApart(data: Text, p: nat, y: Sym, t: Text)
    requires CanonicalSym(y) && IsClass(y) && !Closes(y.code) && Rest(data, p, PrintSym(y) + t)
    ensures Rest(data, p + |PrintSym(y)|, t)
    ensures Stock(data, p, BACKSLASH) == Stock(data, p + |PrintSym(y)|, BACKSLASH)
  {
    hide Stock, Rest, PrintCode, PrintSym, Canon;
    var inside := PrintCode(y.code, TypeOf(y.code));
    CanonicalRises(y.code);
    ClassSplits(y, t);
    BytePrinted(data, p, OPEN, Bang(y) + (inside + ([CLOSE] + t)), BACKSLASH);
    BangPrinted(data, p + 1, y, inside + ([CLOSE] + t), BACKSLASH);
    var at := p + 1 + |Bang(y)|;
    CodePrinted(data, at, y.code, TypeOf(y.code), [CLOSE] + t, BACKSLASH);
    CodeApart(data, at, y.code, TypeOf(y.code), t, 2);
    BytePrinted(data, at + |inside|, CLOSE, t, BACKSLASH);
  }

  lemma {:induction false} DenotesSum(a: Code, b: Code, c: Byte)
    requires Plain(a)
    ensures Denotes(a + b, c) <==> Denotes(a, c) || Denotes(b, c)
  {
    if a == [] {
      assert a + b == b;
    } else if a[0] == RANGE {
      DenotesSum(a[3..], b, c);
      assert (a + b)[3..] == a[3..] + b;
    } else {
      DenotesSum(a[1..], b, c);
      assert (a + b)[1..] == a[1..] + b;
    }
  }

  /** A code that has not come to the closing bracket yet. */
  ghost predicate StillOpen(code: Code)
  {
    Plain(code) && !Denotes(code, CLOSE)
  }

  lemma OpenSum(a: Code, b: Code)
    requires StillOpen(a) && StillOpen(b)
    ensures StillOpen(a + b)
  {
    PlainJoin(a, b);
    DenotesSum(a, b, CLOSE);
  }

  lemma OpenOne(c: Byte)
    requires 2 <= c && c != CLOSE
    ensures StillOpen([c])
  {
    assert [c][1..] == [];
  }

  lemma OpenRange(lo: Byte, hi: Byte)
    requires 2 <= lo < hi < CLOSE
    ensures StillOpen([RANGE, lo, hi])
  {
    assert [RANGE, lo, hi][3..] == [];
  }

  /** What is left to read of a class that closes early. */
  ghost predicate Closing(data: Text, p: nat, code: Code, partType: nat, t: Text, from: int)
  {
    Rising(code, from) && Plain(code) && Closes(code) && Rest(data, p, ClassText(code, partType, t))
  }

  lemma ClosingStarts(data: Text, p: nat, code: Code, partType: nat, t: Text, from: int)
    requires Closing(data, p, code, partType, t, from) && from >= 2
    ensures code != [] && (code[0] == RANGE ==>
      |code| >= 3 && 2 <= code[1] < code[2] < BACKSLASH && Rising(code[3..], code[2] as int + 1) && Closes(code[3..]))
    ensures code[0] != RANGE && code[0] != BACKSLASH ==>
      2 <= code[0] < BACKSLASH && Rising(code[1..], code[0] as int + 1) && Closes(code[1..])
    ensures code[0] == BACKSLASH ==> |code| >= 2 && code[1] == CLOSE
  {
    if code[0] == RANGE {
      ClosesAt(code[3..], code[2] as int + 1);
    } else if Closes(code[1..]) {
      ClosesAt(code[1..], code[0] as int + 1);
    }
  }

  /** The backslash takes the one that is to escape the bracket, and the bracket stands bare. */
  lemma BracketBare(data: Text, p: nat, code: Code, t: Text)
    requires Plain(code) && |code| >= 2 && code[0] == BACKSLASH && code[1] == CLOSE
    requires Rest(data, p, ClassText(code, 0, t))
    ensures SingleChar(data, p, IN_CLASS) == (BACKSLASH, p + 2) && At(data, p + 2) == CLOSE
    ensures SingleChar(data, p + 2, IN_CLASS) == (0, p + 2)
  {
    hide Plain, ClassText, PrintSingle, Rest;
    ClassTextSingle(code, 0, t);
    ClassTextSingle(code[1..], 0, t);
    var more := ClassText(code[1..][1..], 0, t);
    SingleShape(BACKSLASH, ClassText(code[1..], 0, t));
    SingleShape(CLOSE, more);
    assert [BACKSLASH, CLOSE] + more == [BACKSLASH] + ([CLOSE] + more);
    RestHead(data, p, BACKSLASH, [BACKSLASH] + ([CLOSE] + more));
    RestHead(data, p + 1, BACKSLASH, [CLOSE] + more);
    RestHead(data, p + 2, CLOSE, more);
  }

  lemma EnumUnfolds(data: Text, p: nat, acc: Code, c: Byte, q: nat)
    requires SingleChar(data, p, IN_CLASS) == (c, q)
    ensures c == 0 ==> Enumeration(data, p, acc) == (acc, q)
    ensures c != 0 ==> Enumeration(data, p, acc) == Enumeration(data, q, acc + [c])
  {
  }

  /** A run of single characters ends at the bare bracket, or in front of a range that comes before it. */
  lemma {:induction false} EnumCloses(data: Text, p: nat, code: Code, acc: Code, t: Text, from: int)
    returns (rest: Code, next: int)
    requires Closing(data, p, code, 0, t, from) && from >= 2 && StillOpen(acc)
    ensures var r := Enumeration(data, p, acc);
      && StillOpen(r.0)
      && (At(data, r.1) == CLOSE
          || (|rest| <= |code| && rest != [] && rest[0] == RANGE && next >= 2 && Closing(data, r.1, rest, 0, t, next)))
    decreases |code|
  {
    hide *;
    ClosingStarts(data, p, code, 0, t, from);
    ClosingTells(data, p, code, 0, t, from);
    rest, next := code, from;
    if code[0] == RANGE {
      ClassTextStart(data, p, code, 0, t);
      CommaEnds(data, p);
      EnumUnfolds(data, p, acc, 0, p);
    } else if code[0] == BACKSLASH {
      BracketBare(data, p, code, t);
      EnumUnfolds(data, p, acc, BACKSLASH, p + 2);
      EnumUnfolds(data, p + 2, acc + [BACKSLASH], 0, p + 2);
      LetterFacts();
      OpenOne(BACKSLASH);
      OpenSum(acc, [BACKSLASH]);
    } else {
      ClosingStep(data, p, code, t, from);
      var q := SingleChar(data, p, IN_CLASS).1;
      EnumUnfolds(data, p, acc, code[0], q);
      LetterFacts();
      OpenOne(code[0]);
      OpenSum(acc, [code[0]]);
      rest, next := EnumCloses(data, q, code[1..], acc + [code[0]], t, code[0] as int + 1);
    }
  }

  lemma LetterFacts()
    ensures BACKSLASH == 92 && CLOSE == 93 && RANGE == 1
  {
  }

  lemma ClosingTells(data: Text, p: nat, code: Code, partType: nat, t: Text, from: int)
    requires Closing(data, p, code, partType, t, from)
    ensures Plain(code) && Rest(data, p, ClassText(code, partType, t))
  {
  }

  lemma CommaEnds(data: Text, p: nat)
    requires At(data, p) == COMMA
    ensures SingleChar(data, p, IN_CLASS) == (0, p)
  {
  }

  lemma ClosingStep(data: Text, p: nat, code: Code, t: Text, from: int)
    requires Closing(data, p, code, 0, t, from) && from >= 2 && code != [] && code[0] != RANGE && code[0] != BACKSLASH
    ensures var (c, q) := SingleChar(data, p, IN_CLASS);
      c == code[0] != 0 && Closing(data, q, code[1..], 0, t, code[0] as int + 1) && At(data, q) != DASH
    ensures 2 <= code[0] < BACKSLASH
  {
    ClosingStarts(data, p, code, 0, t, from);
    hide Closes, Rising, Rest;
    ClassTextSingle(code, 0, t);
    SingleShape(code[0], ClassText(code[1..], 0, t));
    ReadChar(data, p, code[0], IN_CLASS, ClassText(code[1..], 0, t));
    ClassTextStart(data, SingleChar(data, p, IN_CLASS).1, code[1..], 0, t);
  }

  /** One piece of such a class. */
  lemma PieceCloses(data: Text, p: nat, code: Code, t: Text, from: int) returns (rest: Code, partType: nat, next: int)
    requires Closing(data, p, code, TypeOf(code), t, from) && from >= 2
    ensures var (part, q) := MultiPart(data, p);
      && part.Some? && StillOpen(part.value)
      && (At(data, q) == CLOSE
          || (|rest| < |code| && rest != [] && (partType == 2 || (partType == 0 && rest[0] == RANGE)) && next >= 2
              && Closing(data, q, rest, partType, t, next)))
  {
    hide *;
    ClosingStarts(data, p, code, TypeOf(code), t, from);
    ClosingTells(data, p, code, TypeOf(code), t, from);
    TypeIs(code);
    LetterFacts();
    if code[0] == RANGE {
      rest, partType, next := code[3..], 2, code[2] as int + 1;
      WritableBelow(code[1]);
      WritableBelow(code[2]);
      RangeRead(data, p, code, t);
      OpenRange(code[1], code[2]);
      TakeThree(code);
      ClosingIs(data, MultiPart(data, p).1, rest, 2, t, next);
    } else if code[0] == BACKSLASH {
      rest, partType, next := [], 0, 2;
      BracketBare(data, p, code, t);
      DashIsNot();
      SinglesUnfold(data, p, BACKSLASH, p + 2);
      EnumUnfolds(data, p + 2, [BACKSLASH], 0, p + 2);
      OpenOne(BACKSLASH);
    } else {
      partType := 0;
      ClosingStep(data, p, code, t, from);
      var q := SingleChar(data, p, IN_CLASS).1;
      SinglesUnfold(data, p, code[0], q);
      OpenOne(code[0]);
      rest, next := EnumCloses(data, q, code[1..], [code[0]], t, code[0] as int + 1);
    }
  }

  lemma WritableBelow(c: Byte)
    requires 2 <= c < BACKSLASH
    ensures Writable(c)
  {
  }

  lemma DashIsNot()
    ensures DASH != CLOSE
  {
  }

  lemma ClosingIs(data: Text, p: nat, code: Code, partType: nat, t: Text, from: int)
    requires Rising(code, from) && Plain(code) && Closes(code) && Rest(data, p, ClassText(code, partType, t))
    ensures Closing(data, p, code, partType, t, from) && code != []
  {
  }

  /** So the class is read without its closing bracket. */
  lemma {:induction false} BodyCloses(data: Text, p: nat, code: Code, acc: Code, t: Text, from: int)
    requires Closing(data, p, code, TypeOf(code), t, from) && from >= 2 && StillOpen(acc)
    ensures StillOpen(ClassBody(data, p, acc).0)
    decreases |code|
  {
    hide *;
    var rest, partType, next := PieceCloses(data, p, code, t, from);
    var (part, q) := MultiPart(data, p);
    BodyUnfolds(data, p, acc, part.value, q);
    OpenSum(acc, part.value);
    if At(data, q) != CLOSE {
      ClosingParts(data, q, rest, partType, t, next);
      CommaThenRest(data, q, rest, partType, t);
      ClassTextStart(data, q + 1, rest, TypeOf(rest), t);
      ClosingIs(data, q + 1, rest, TypeOf(rest), t, next);
      BodyCloses(data, q + 1, rest, acc + part.value, t, next);
    }
  }

  lemma ClosingParts(data: Text, p: nat, code: Code, partType: nat, t: Text, from: int)
    requires Closing(data, p, code, partType, t, from)
    ensures Rising(code, from) && Plain(code) && Closes(code) && Rest(data, p, ClassText(code, partType, t))
  {
  }

  lemma {:induction false} ClosesHas(code: Code, from: int)
    requires Rising(code, from) && Plain(code) && Closes(code)
    ensures Denotes(code, CLOSE)
  {
    if code[0] == RANGE {
      ClosesHas(code[3..], code[2] as int + 1);
    } else if code[0] == BACKSLASH && |code| >= 2 && code[1] == CLOSE {
      assert Denotes(code[1..], CLOSE);
    } else {
      ClosesHas(code[1..], code[0] as int + 1);
    }
  }

  lemma ClassMisread(data: Text, p: nat, y: Sym, t: Text)
    requires CanonicalSym(y) && IsClass(y) && Closes(y.code) && Rest(data, p, PrintSym(y) + t)
    ensures SymAt(data, p).0.Some? ==> Canon(SymAt(data, p).0.value.code) != y.code
  {
    hide *;
    CanonicalParts(y);
    CanonicalRises(y.code);
    ClosesHas(y.code, 2);
    TypeIs(y.code);
    var bang, body := Bang(y), ClassText(y.code, TypeOf(y.code), t);
    ClassShape(y, t);
    RestHead(data, p, OPEN, bang + body);
    RestCut(data, p + 1, bang, body);
    var start := p + 1 + |bang|;
    BangIs(y);
    ClassTextStart(data, start, y.code, TypeOf(y.code), t);
    ClosingIs(data, start, y.code, TypeOf(y.code), t, 2);
    NothingOpen();
    BodyCloses(data, start, y.code, [], t, 2);
    ClassBegins(data, p, y, bang);
    if SymAt(data, p).0.Some? {
      StaysOpen(SymAt(data, p).0.value.code);
    }
  }

  lemma CanonicalParts(y: Sym)
    requires CanonicalSym(y)
    ensures Plain(y.code) && Canon(y.code) == y.code && y.code != []
    ensures IsClass(y) <==> |y.code| > 1 || y.negate
  {
  }

  lemma NothingOpen()
    ensures StillOpen([])
  {
  }

  lemma StaysOpen(code: Code)
    requires StillOpen(code)
    ensures !Denotes(Canon(code), CLOSE)
  {
    CanonKeepsMembers(code, CLOSE);
  }

  lemma ClassBegins(data: Text, p: nat, y: Sym, bang: Text)
    requires At(data, p) == OPEN && bang == Bang(y) && (y.negate ==> At(data, p + 1) == BANG)
    requires !y.negate ==> At(data, p + 1) != BANG
    ensures SymAt(data, p).0.Some? ==> SymAt(data, p).0.value.code == ClassBody(data, p + 1 + |bang|, []).0
  {
  }

  // ---------------------------------------------------------------- a row that reads back

  /** What the parser makes of the text from p on. */
  ghost predicate Reads(data: Text, p: nat, syms: seq<Sym>, tail: Pattern)
  {
    RowFrom(data, p).0 == syms && PatternFrom(data, RowFrom(data, p).1) == Parts(tail)
  }

  /** What the printer has written there. */
  ghost predicate Written(data: Text, p: nat, syms: seq<Sym>, tail: Pattern)
  {
    && ZeroFree(data) && (forall y :: y in syms ==> CanonicalSym(y)) && Canonical(tail)
    && Rest(data, p, PrintRow(syms) + Print(tail))
  }

  /** The parser has enough to take. */
  lemma ReadsTake(data: Text, p: nat, syms: seq<Sym>, tail: Pattern, c: Byte)
    requires ZeroFree(data) && Reads(data, p, syms, tail) && Counted(c)
    ensures RowNeeds(syms, c) + AllNeed(tail, c) <= Stock(data, p, c)
  {
    hide Stock, RowNeeds, AllNeed, ZeroFree, PatternFrom;
    RowTakes(data, p, c);
    PatternTakes(data, RowFrom(data, p).1, c);
  }

  /** A row that stops where no wildcard stands has come to the end, or to an empty class, which takes a bracket. */
  lemma RowStops(data: Text, p: nat, e: nat)
    requires ZeroFree(data) && At(data, p) !in IN_ROW && RowFrom(data, p) == ([], e)
    ensures e >= |data| || Stock(data, e, OPEN) < Stock(data, p, OPEN)
  {
    hide Stock, ClassBody;
    forall k | 0 <= k < |data| ensures data[k] != 0 {
      assert data[k] in data;
    }
    assert SymAt(data, p) == (None, e);
    if At(data, p) == OPEN {
      ClassTakes(data, p, OPEN);
    }
  }

  /** Behind such a stop no parts can follow that the text has no brackets for. */
  lemma NoPartsFollow(data: Text, p: nat, e: nat, tail: Pattern)
    requires ZeroFree(data) && At(data, p) !in IN_ROW && RowFrom(data, p) == ([], e)
    requires tail != [] && Stock(data, p, OPEN) <= AllNeed(tail, OPEN)
    ensures PatternFrom(data, e) != Parts(tail)
  {
    hide RowFrom, Wild, Stock, AllNeed, ZeroFree;
    RowStops(data, p, e);
    if PatternFrom(data, e) == Parts(tail) {
      PatternTakes(data, e, OPEN);
    }
  }

  lemma TailTells(data: Text, p: nat, tail: Pattern)
    requires tail != [] && PatternFrom(data, p) == Parts(tail)
    ensures p < |data| && Wild(data, p, 0).0 == tail[0].lead
    ensures tail[0].lead != 0 || tail[0].syms != []
    ensures Reads(data, Wild(data, p, 0).1, tail[0].syms, tail[1..])
  {
    hide Wild, RowFrom;
    var (lead, q) := Wild(data, p, 0);
    var (syms, e) := RowFrom(data, q);
    assert tail == [Part(lead, syms)] + PatternFrom(data, e).parts;
    assert tail[1..] == PatternFrom(data, e).parts;
  }

  lemma WildTells(data: Text, p: nat)
    ensures At(data, p) in IN_ROW ==> Wild(data, p, 0).0 != 0
    ensures At(data, p) !in IN_ROW ==> Wild(data, p, 0) == (0, p)
  {
  }

  /** The first byte of what the rest of a pattern prints. */
  lemma TailStarts(data: Text, p: nat, tail: Pattern)
    requires Canonical(tail) && Rest(data, p, Print(tail)) && (tail != [] ==> tail[0].lead != 0 || tail[0].syms != [])
    ensures tail == [] ==> p == |data|
    ensures tail != [] && tail[0].lead != 0 ==> At(data, p) in IN_ROW
    ensures tail != [] && tail[0].lead == 0 ==> At(data, p) !in IN_ROW
  {
    hide Canonical, CanonicalPart, CanonicalSym, PrintRow;
    if tail != [] {
      TextStarts(tail);
      assert Print(tail) == PrintLead(tail[0].lead) + (PrintRow(tail[0].syms) + Print(tail[1..]));
      assert Print(tail) != [] ==> data[p] == data[p..][0] == Print(tail)[0];
    }
  }

  /** After the last symbol of a row comes the wildcard of the next part, or nothing. */
  lemma RowEndForced(data: Text, p: nat, tail: Pattern)
    requires Written(data, p, [], tail) && Reads(data, p, [], tail)
    ensures RowFrom(data, p).1 == p && Rest(data, p, Print(tail)) && (tail != [] ==> tail[0].lead != 0)
  {
    hide RowFrom, PatternFrom, Wild, Canonical, ZeroFree, Stock, AllNeed, PrintRow, Print;
    NoText();
    assert [] + Print(tail) == Print(tail);
    var e := RowFrom(data, p).1;
    if tail != [] {
      TailTells(data, e, tail);
    }
    TailStarts(data, p, tail);
    if tail != [] && tail[0].lead == 0 {
      PatternPrinted(data, p, tail, OPEN);
      NoPartsFollow(data, p, e, tail);
      assert false;
    }
    RowIsOver(data, p);
  }

  lemma NeedsSplit(syms: seq<Sym>, c: Byte)
    requires syms != []
    ensures RowNeeds(syms, c) == Needs(syms[0], c) + RowNeeds(syms[1..], c)
    ensures Needs(syms[0], BACKSLASH) >= if BACKSLASH in syms[0].code then 1 else 0
  {
    OccursIn(syms[0].code, BACKSLASH);
  }

  lemma WrittenOn(data: Text, p: nat, syms: seq<Sym>, tail: Pattern)
    requires Written(data, p, syms, tail) && syms != []
    ensures CanonicalSym(syms[0]) && Rest(data, p, PrintSym(syms[0]) + (PrintRow(syms[1..]) + Print(tail)))
    ensures Written(data, p + |PrintSym(syms[0])|, syms[1..], tail)
  {
    hide PrintSym, Canonical, CanonicalSym, ZeroFree;
    assert syms[0] in syms;
    Regroup(PrintSym(syms[0]), PrintRow(syms[1..]), Print(tail));
    RestCut(data, p, PrintSym(syms[0]), PrintRow(syms[1..]) + Print(tail));
  }

  lemma WrittenTells(data: Text, p: nat, syms: seq<Sym>, tail: Pattern)
    requires Written(data, p, syms, tail)
    ensures ZeroFree(data) && Canonical(tail)
    ensures Stock(data, p, OPEN) <= RowNeeds(syms, OPEN) + AllNeed(tail, OPEN)
    ensures Stock(data, p, BACKSLASH) <= RowNeeds(syms, BACKSLASH) + AllNeed(tail, BACKSLASH)
  {
    hide Stock, RowNeeds, AllNeed, ZeroFree, Canonical, Rest;
    RestPrinted(data, p, syms, tail, OPEN);
    RestPrinted(data, p, syms, tail, BACKSLASH);
  }

  lemma ReadsOn(data: Text, p: nat, syms: seq<Sym>, tail: Pattern)
    requires Reads(data, p, syms, tail) && syms != []
    ensures var (y, q) := SymAt(data, p);
      y.Some? && Compact(y.value) == syms[0] && Reads(data, q, syms[1..], tail) && RowFrom(data, p).1 == RowFrom(data, q).1
    ensures At(data, p) != 0 && At(data, p) !in IN_ROW
  {
    hide Canon, PatternFrom, SymAt;
    RowStarts(data, p);
    if At(data, p) == 0 || At(data, p) in IN_ROW {
      RowIsOver(data, p);
      assert false;
    }
  }

  /** A class with a backslash does not read back. */
  lemma ClassForced(data: Text, p: nat, syms: seq<Sym>, tail: Pattern)
    requires Written(data, p, syms, tail) && syms != [] && IsClass(syms[0]) && BACKSLASH in syms[0].code
    ensures !Reads(data, p, syms, tail)
  {
    hide *;
    var y, x := syms[0], PrintRow(syms[1..]) + Print(tail);
    WrittenOn(data, p, syms, tail);
    if Reads(data, p, syms, tail) {
      ReadsOn(data, p, syms, tail);
      CompactIs(SymAt(data, p).0.value);
      if Closes(y.code) {
        ClassMisread(data, p, y, x);
      } else {
        ClassApart(data, p, y, x);
        WrittenTells(data, p, syms, tail);
        WrittenTells(data, p + |PrintSym(y)|, syms[1..], tail);
        CountedTells();
        ReadsTake(data, p, syms, tail, BACKSLASH);
        NeedsSplit(syms, BACKSLASH);
      }
    }
  }

  lemma CountedTells()
    ensures Counted(OPEN) && Counted(BACKSLASH)
  {
  }

  /** A backslash is followed by another in the text, or there would not be enough of them. */
  lemma PairForced(data: Text, p: nat, syms: seq<Sym>, tail: Pattern)
    requires Written(data, p, syms, tail) && Reads(data, p, syms, tail)
    requires syms != [] && syms[0] == Sym(false, [BACKSLASH])
    ensures At(data, p) == BACKSLASH == At(data, p + 1)
    ensures Written(data, p + 1, syms[1..], tail) && Reads(data, p + 2, syms[1..], tail)
    ensures RowFrom(data, p).1 == RowFrom(data, p + 2).1
  {
    hide Written, Reads, Stock, RowNeeds, AllNeed, RowFrom, CanonicalSym, Needs, Rest, PrintSym;
    var x := PrintRow(syms[1..]) + Print(tail);
    WrittenOn(data, p, syms, tail);
    LoneSym(syms[0]);
    RestHead(data, p, BACKSLASH, x);
    WrittenTells(data, p, syms, tail);
    WrittenTells(data, p + 1, syms[1..], tail);
    ReadsTake(data, p, syms, tail, BACKSLASH);
    NeedsSplit(syms, BACKSLASH);
    StockStep(data, p, BACKSLASH);
    ReadsOn(data, p, syms, tail);
    assert SymAt(data, p).1 == p + 2;
  }

  /** A backslash is not the last of its row. */
  lemma LastForced(data: Text, p: nat, syms: seq<Sym>, tail: Pattern)
    requires Written(data, p, syms, tail) && syms == [Sym(false, [BACKSLASH])]
    ensures !Reads(data, p, syms, tail)
  {
    hide *;
    if Reads(data, p, syms, tail) {
      LetterFacts();
      PairForced(data, p, syms, tail);
      assert syms[1..] == [];
      EndTells(data, p + 1, tail);
      var e := RowFrom(data, p + 2).1;
      ReadsTells(data, p + 2, [], tail);
      if tail != [] {
        TailTells(data, e, tail);
      }
      TailStarts(data, p + 1, tail);
      WildTells(data, p + 2);
      RowChars();
      if At(data, p + 2) in IN_ROW {
        RowIsOver(data, p + 2);
      } else {
        StockFalls(data, p + 1, p + 2, OPEN);
        NoPartsFollow(data, p + 2, e, tail);
      }
    }
  }

  lemma RowChars()
    ensures BACKSLASH !in IN_ROW && BACKSLASH != 0
    ensures forall data: Text, p: nat :: p >= |data| ==> At(data, p) == 0
  {
  }

  lemma EndTells(data: Text, p: nat, tail: Pattern)
    requires Written(data, p, [], tail)
    ensures Rest(data, p, Print(tail)) && ZeroFree(data) && Canonical(tail)
    ensures Stock(data, p, OPEN) <= AllNeed(tail, OPEN)
  {
    hide ZeroFree, Canonical, Print, Stock, AllNeed;
    NoText();
    assert [] + Print(tail) == Print(tail);
    PatternPrinted(data, p, tail, OPEN);
  }

  lemma ReadsTells(data: Text, p: nat, syms: seq<Sym>, tail: Pattern)
    requires Reads(data, p, syms, tail)
    ensures RowFrom(data, p) == (syms, RowFrom(data, p).1) && PatternFrom(data, RowFrom(data, p).1) == Parts(tail)
  {
  }

  /** The symbol behind a backslash completes it. */
  lemma NextForced(data: Text, p: nat, syms: seq<Sym>, tail: Pattern)
    requires Written(data, p, syms, tail) && Reads(data, p, syms, tail)
    requires |syms| > 1 && syms[0] == Sym(false, [BACKSLASH])
    ensures Completes(syms[1])
    ensures Written(data, p + 3, syms[2..], tail) && Reads(data, p + 3, syms[2..], tail)
    ensures RowFrom(data, p).1 == RowFrom(data, p + 3).1
  {
    hide *;
    var z := syms[1];
    PairForced(data, p, syms, tail);
    assert syms[1..][0] == z && syms[1..][1..] == syms[2..];
    WrittenOn(data, p + 1, syms[1..], tail);
    ReadsOn(data, p + 2, syms[1..], tail);
    var x := PrintRow(syms[2..]) + Print(tail);
    BackslashStarts(data, p + 1, z, x);
    var c := z.code[0];
    WrittenTells(data, p + 1 + |PrintSym(z)|, syms[2..], tail);
    CountedTells();
    if c == BACKSLASH {
      ReadsTake(data, p + 2, syms[1..], tail, BACKSLASH);
      NeedsSplit(syms[1..], BACKSLASH);
      assert false;
    } else if c == OPEN {
      SymTakes(data, p + 2, OPEN);
      ReadsTake(data, SymAt(data, p + 2).1, syms[2..], tail, OPEN);
      CompactIs(SymAt(data, p + 2).0.value);
      StockStep(data, p + 2, OPEN);
      OneBracket(z.code);
      assert false;
    } else {
      BareRead(data, p + 2, c);
    }
  }

  lemma OneBracket(code: Code)
    requires code == [OPEN]
    ensures Occurs(code, OPEN) == 1
  {
    assert code[1..] == [];
  }

  /** A symbol that is printed with a backslash in front is a single character, the backslash itself or a special
      one. */
  lemma BackslashStarts(data: Text, p: nat, z: Sym, x: Text)
    requires CanonicalSym(z) && Rest(data, p, PrintSym(z) + x) && At(data, p) == BACKSLASH
    ensures z == Sym(false, [z.code[0]]) && |PrintSym(z)| == if z.code[0] == BACKSLASH then 1 else 2
    ensures z.code[0] == BACKSLASH ==> BACKSLASH in z.code
    ensures z.code[0] != BACKSLASH ==> z.code[0] in SPECIAL && At(data, p + 1) == z.code[0]
  {
    hide CanonicalSym, PrintSym;
    if IsClass(z) {
      ClassSplits(z, x);
      RestHead(data, p, OPEN, Bang(z) + (PrintCode(z.code, TypeOf(z.code)) + ([CLOSE] + x)));
      assert false;
    } else {
      CanonicalParts(z);
      LoneSym(z);
      CharStarts(data, p, z.code[0], x);
    }
  }

  lemma CharStarts(data: Text, p: nat, c: Byte, x: Text)
    requires Rest(data, p, PlaceSingleChar(c) + x) && At(data, p) == BACKSLASH
    ensures c == BACKSLASH || (c in SPECIAL && At(data, p + 1) == c)
  {
    if c in SPECIAL {
      assert PlaceSingleChar(c) + x == [BACKSLASH] + ([c] + x);
      RestHead(data, p, BACKSLASH, [c] + x);
      RestHead(data, p + 1, c, x);
    } else {
      RestHead(data, p, c, x);
    }
  }

  lemma BareRead(data: Text, p: nat, c: Byte)
    requires At(data, p) == c && c in SPECIAL && c !in IN_ROW && c != OPEN
    ensures SymAt(data, p).1 == p + 1
    ensures Completes(Sym(false, [c]))
  {
  }

  lemma CompletedGrows(syms: seq<Sym>)
    requires syms != []
    ensures BACKSLASH !in syms[0].code && Completed(syms[1..]) ==> Completed(syms)
    ensures |syms| > 1 && syms[0] == Sym(false, [BACKSLASH]) && Completes(syms[1]) && Completed(syms[2..]) ==> Completed(syms)
  {
    forall k | 1 <= k < |syms| ensures syms[k] == syms[1..][k - 1] {}
    if |syms| > 1 && Completes(syms[1]) && Completed(syms[2..]) {
      forall k | 2 <= k < |syms| ensures syms[k] == syms[2..][k - 2] {}
      assert BACKSLASH !in syms[1].code;
    }
  }

  /** A row that reads back as it was written has its backslashes completed, and ends where its text ends. */
  lemma {:induction false} RowForced(data: Text, p: nat, syms: seq<Sym>, tail: Pattern)
    requires Written(data, p, syms, tail) && Reads(data, p, syms, tail)
    ensures Completed(syms) && Rest(data, RowFrom(data, p).1, Print(tail)) && (tail != [] ==> tail[0].lead != 0)
    decreases |syms|
  {
    hide *;
    if syms == [] {
      RowEndForced(data, p, tail);
      NothingToComplete();
    } else {
      var y := syms[0];
      WrittenOn(data, p, syms, tail);
      CanonicalParts(y);
      CompletedGrows(syms);
      if BACKSLASH !in y.code {
        PrintableIs(y);
        SymRead(data, p, y, PrintRow(syms[1..]) + Print(tail));
        ReadsOn(data, p, syms, tail);
        WrittenEnds(data, p, y, SymAt(data, p).1, PrintRow(syms[1..]) + Print(tail));
        RowForced(data, SymAt(data, p).1, syms[1..], tail);
      } else if IsClass(y) {
        ClassForced(data, p, syms, tail);
      } else {
        LoneSym(y);
        if |syms| == 1 {
          LastForced(data, p, syms, tail);
        } else {
          NextForced(data, p, syms, tail);
          RowForced(data, p + 3, syms[2..], tail);
        }
      }
    }
  }

  lemma NothingToComplete()
    ensures Completed([])
  {
  }

  lemma PrintableIs(y: Sym)
    requires CanonicalSym(y) && BACKSLASH !in y.code
    ensures PrintableSym(y)
  {
  }

  /** Two places with the same text left are one. */
  lemma WrittenEnds(data: Text, p: nat, y: Sym, q: nat, x: Text)
    requires Rest(data, p, PrintSym(y) + x) && Rest(data, q, x)
    ensures q == p + |PrintSym(y)|
  {
  }

  // ---------------------------------------------------------------- a pattern that reads back

  lemma {:induction false} PatternForced(data: Text, p: nat, pat: Pattern)
    requires ZeroFree(data) && Canonical(pat) && Rest(data, p, Print(pat)) && PatternFrom(data, p) == Parts(pat)
    ensures Printable(pat)
    decreases |pat|
  {
    hide *;
    if pat == [] {
      NothingToPrint();
    } else {
      var part, tail := pat[0], pat[1..];
      CanonicalTail(pat);
      TailTells(data, p, pat);
      var q := Wild(data, p, 0).1;
      if part.syms != [] {
        LeadForced(data, p, pat);
        RowForced(data, q, part.syms, tail);
        ReadsTells(data, q, part.syms, tail);
        PatternForced(data, RowFrom(data, q).1, tail);
      } else if tail != [] {
        EmptyPartForced(data, p, pat);
      } else {
        NothingToPrint();
      }
      PrintableGrows(pat);
    }
  }

  lemma NothingToPrint()
    ensures Printable([]) && Completed([])
  {
  }

  lemma PrintableGrows(pat: Pattern)
    requires Canonical(pat) && pat != [] && (pat[0].lead != 0 || pat[0].syms != [])
    requires Printable(pat[1..]) && Completed(pat[0].syms)
    requires pat[1..] != [] ==> pat[0].syms != [] && pat[1..][0].lead != 0
    ensures Printable(pat)
  {
    hide Canonical, Completed;
    forall i | 1 <= i < |pat| ensures pat[i] == pat[1..][i - 1] {}
  }

  /** The wildcards in front of a row are read as they were written. */
  lemma LeadForced(data: Text, p: nat, pat: Pattern)
    requires ZeroFree(data) && Canonical(pat) && Rest(data, p, Print(pat)) && pat != [] && pat[0].syms != []
    ensures Written(data, Wild(data, p, 0).1, pat[0].syms, pat[1..])
  {
    hide ZeroFree, Canonical, CanonicalPart, CanonicalSym, PrintRow, PrintLead, Rest, Wild;
    CanonicalTail(pat);
    TextStarts(pat);
    LeadRead(data, p, pat[0].lead, PrintRow(pat[0].syms) + Print(pat[1..]));
  }

  /** A part without symbols is the last. */
  lemma EmptyPartForced(data: Text, p: nat, pat: Pattern)
    requires ZeroFree(data) && Canonical(pat) && Rest(data, p, Print(pat)) && |pat| > 1 && pat[0].syms == []
    ensures PatternFrom(data, p) != Parts(pat)
  {
    hide ZeroFree, Canonical, CanonicalPart, CanonicalSym, RowFrom, PatternFrom, Wild, Stock, AllNeed, Rest, Print;
    if PatternFrom(data, p) == Parts(pat) {
      TailTells(data, p, pat);
      var q := Wild(data, p, 0).1;
      var e := RowFrom(data, q).1;
      PatternPrinted(data, p, pat, OPEN);
      EmptyNeedsNothing(pat, OPEN);
      StockFalls(data, p, q, OPEN);
      WildStops(data, p, 0);
      NoPartsFollow(data, q, e, pat[1..]);
    }
  }

  lemma EmptyNeedsNothing(pat: Pattern, c: Byte)
    requires pat != [] && pat[0].syms == []
    ensures AllNeed(pat, c) == AllNeed(pat[1..], c)
  {
  }

  // ---------------------------------------------------------------- printing is plain

  lemma {:induction false} CodeTextIsZeroFree(code: Code, partType: nat)
    requires Plain(code)
    ensures ZeroFree(PrintCode(code, partType))
  {
    if code != [] {
      if code[0] == RANGE {
        CodeTextIsZeroFree(code[3..], 2);
        ZeroFreeJoin(PrintRange(code[1], code[2], partType), PrintCode(code[3..], 2));
      } else {
        CodeTextIsZeroFree(code[1..], 0);
        ZeroFreeJoin(PrintSingle(code[0], partType), PrintCode(code[1..], 0));
      }
    }
  }

  lemma ZeroFreeJoin(a: Text, b: Text)
    requires ZeroFree(a) && ZeroFree(b)
    ensures ZeroFree(a + b)
  {
  }

  lemma SymTextIsZeroFree(y: Sym)
    requires CanonicalSym(y)
    ensures ZeroFree(PrintSym(y))
  {
    hide PrintCode, Canon;
    CodeTextIsZeroFree(y.code, TypeOf(y.code));
  }

  lemma {:induction false} RowTextIsZeroFree(syms: seq<Sym>)
    requires forall y :: y in syms ==> CanonicalSym(y)
    ensures ZeroFree(PrintRow(syms))
  {
    hide CanonicalSym, PrintSym, ZeroFree;
    if syms == [] {
      EmptyIsZeroFree();
    } else {
      SymTextIsZeroFree(syms[0]);
      RowTextIsZeroFree(syms[1..]);
      ZeroFreeJoin(PrintSym(syms[0]), PrintRow(syms[1..]));
    }
  }

  lemma EmptyIsZeroFree()
    ensures ZeroFree([])
  {
  }

  lemma {:induction false} PrintIsZeroFree(pat: Pattern)
    requires Canonical(pat)
    ensures ZeroFree(Print(pat))
  {
    hide Canonical, CanonicalPart, CanonicalSym, PrintRow, ZeroFree;
    if pat == [] {
      EmptyIsZeroFree();
    } else {
      CanonicalTail(pat);
      LeadIsZeroFree(pat[0].lead);
      RowTextIsZeroFree(pat[0].syms);
      PrintIsZeroFree(pat[1..]);
      ZeroFreeJoin(PrintRow(pat[0].syms), Print(pat[1..]));
      ZeroFreeJoin(PrintLead(pat[0].lead), PrintRow(pat[0].syms) + Print(pat[1..]));
    }
  }

  lemma LeadIsZeroFree(lead: int)
    ensures ZeroFree(PrintLead(lead))
  {
  }

  // ---------------------------------------------------------------- the round trip

  /** The text printed for a pattern reads back as that pattern exactly if the pattern has no gap and all its
      backslashes are completed. */
  lemma ReadsBackExactly(pat: Pattern)
    requires Canonical(pat)
    ensures PatternFrom(Print(pat), 0) == Parts(pat) <==> NoGap(pat) && AllCompleted(pat)
  {
    hide Canonical, NoGap, AllCompleted, PatternFrom, Print, ZeroFree;
    var data := Print(pat);
    assert data[0..] == data;
    if PatternFrom(data, 0) == Parts(pat) {
      PrintIsZeroFree(pat);
      PatternForced(data, 0, pat);
    }
    if Printable(pat) {
      PatternRead(data, 0, pat);
    }
  }

  /** So compiling the text kept with a compiled pattern gives the same pattern again exactly if that pattern has no
      gap and all its backslashes are completed. */
  lemma CompileAgain(data: Text)
    requires Compilable(data) && PatternFrom(data, 0).Parts?
    ensures var pat := PatternFrom(data, 0).parts;
      PatternFrom(Print(pat), 0) == PatternFrom(data, 0) <==> NoGap(pat) && AllCompleted(pat)
  {
    hide NoGap, AllCompleted, Print;
    ParsedIsCanonical(data, 0);
    ReadsBackExactly(PatternFrom(data, 0).parts);
  }

  /** A lone backslash is printed as an escape with nothing behind it; in front of an exclamation mark it comes
      back. */
  lemma OneOfTwoReadsBack()
    ensures var y, z := Sym(false, [BACKSLASH]), Sym(false, [BANG]);
      && !Completed([y]) && Completed([y, z])
      && PatternFrom(Print([Part(0, [y])]), 0) != Parts([Part(0, [y])])
      && PatternFrom(Print([Part(0, [y, z])]), 0) == Parts([Part(0, [y, z])])
  {
    hide Print, PatternFrom, CanonicalSym;
    var y, z := Sym(false, [BACKSLASH]), Sym(false, [BANG]);
    CanonOfOne(BACKSLASH);
    CanonOfOne(BANG);
    OneIsCanonical(BACKSLASH);
    OneIsCanonical(BANG);
    var one, two := [Part(0, [y])], [Part(0, [y, z])];
    assert Canonical(one) && Canonical(two);
    assert !Completed(one[0].syms) by {
      assert one[0].syms[0] == y;
    }
    assert Completed(two[0].syms);
    ReadsBackExactly(one);
    ReadsBackExactly(two);
  }

  lemma OneIsCanonical(c: Byte)
    requires 2 <= c <= 254
    ensures CanonicalSym(Sym(false, [c]))
  {
    CanonOfOne(c);
    assert [c][1..] == [];
  }
}
