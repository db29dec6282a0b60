/** Printing a pattern and reading the text back gives the same pattern. */
module PatternRoundTrip {
  import opened Common
  import opened CharClass
  import opened PatternLanguage
  import opened PatternParser
  import opened PatternCompiler
  import opened PatternPrinter

  /** Symbols the printer writes in full: a backslash is never escaped. */
  ghost predicate PrintableSym(y: Sym)
  {
    CanonicalSym(y) && BACKSLASH !in y.code
  }

  /** A character of its own that is printed with a backslash in front, and read the same without it. */
  predicate Completes(y: Sym)
  {
    !y.negate && |y.code| == 1 && y.code[0] in [BANG, COMMA, DASH, CLOSE]
  }

  /** Every backslash is a symbol of its own and stands in front of such a character. The printed text of the two
      is an escaped backslash and the bare character. */
  ghost predicate Completed(syms: seq<Sym>)
  {
    forall k :: 0 <= k < |syms| && BACKSLASH in syms[k].code ==>
      syms[k] == Sym(false, [BACKSLASH]) && k + 1 < |syms| && Completes(syms[k + 1])
  }

  /** Only the first part has no wildcard in front, and only the last part has no symbols, in which case it has
      wildcards. */
  ghost predicate NoGap(pat: Pattern)
  {
    forall i :: 0 <= i < |pat| ==>
      (i > 0 || pat[i].syms == [] ==> pat[i].lead != 0) && (pat[i].syms == [] ==> i == |pat| - 1)
  }

  ghost predicate AllCompleted(pat: Pattern)
  {
    forall i :: 0 <= i < |pat| ==> Completed(pat[i].syms)
  }

  /** Patterns whose printed text has the same meaning for the parser. */
  ghost predicate Printable(pat: Pattern)
  {
    Canonical(pat) && NoGap(pat) && AllCompleted(pat)
  }

  // ---------------------------------------------------------------- what is left to read

  /** x is all that is left of the text from p on. */
  ghost predicate Rest(data: Text, p: nat, x: Text)
  {
    p <= |data| && data[p..] == x
  }

  lemma RestCut(data: Text, p: nat, a: Text, t: Text)
    requires Rest(data, p, a + t)
    ensures Rest(data, p + |a|, t)
    ensures a != [] ==> At(data, p) == a[0]
  {
    assert |data| == p + |a| + |t|;
    assert data[p + |a|..] == data[p..][|a|..] == (a + t)[|a|..] == t;
    assert a != [] ==> data[p] == data[p..][0] == (a + t)[0];
  }

  lemma RestHead(data: Text, p: nat, c: Byte, t: Text)
    requires Rest(data, p, [c] + t)
    ensures At(data, p) == c && Rest(data, p + 1, t)
  {
    RestCut(data, p, [c], t);
  }

  ghost predicate Writable(c: Byte)
  {
    2 <= c && c != BACKSLASH
  }

  lemma ReadChar(data: Text, p: nat, c: Byte, reserved: seq<Byte>, t: Text)
    requires Rest(data, p, PlaceSingleChar(c) + t) && Writable(c)
    requires reserved == IN_CLASS || reserved == IN_ROW
    ensures var r := SingleChar(data, p, reserved); r.0 == c && Rest(data, r.1, t)
    ensures At(data, p) != 0 && At(data, p) !in SPECIAL
  {
    RestCut(data, p, PlaceSingleChar(c), t);
    if c in SPECIAL {
      assert PlaceSingleChar(c) + t == [BACKSLASH] + ([c] + t);
      RestHead(data, p, BACKSLASH, [c] + t);
      RestHead(data, p + 1, c, t);
    }
  }

  // ---------------------------------------------------------------- classes

  function Singles(code: Code): (k: nat)
    ensures k <= |code| && (k < |code| ==> code[k] == RANGE)
  {
    if code == [] || code[0] == RANGE then 0 else 1 + Singles(code[1..])
  }

  ghost predicate Clean(code: Code)
  {
    Plain(code) && BACKSLASH !in code
  }

  /** In a class the text goes on with the rest of the code, the closing bracket, and t. */
  function ClassText(code: Code, partType: nat, t: Text): Text {
    PrintCode(code, partType) + ([CLOSE] + t)
  }

  lemma ClassTextSingle(code: Code, partType: nat, t: Text)
    requires Plain(code) && code != [] && code[0] != RANGE
    ensures ClassText(code, partType, t) == PrintSingle(code[0], partType) + ClassText(code[1..], 0, t)
    ensures 2 <= code[0] && Plain(code[1..])
    ensures Clean(code) ==> Writable(code[0]) && Clean(code[1..])
  {
    assert code[0] in code;
    Regroup(PrintSingle(code[0], partType), PrintCode(code[1..], 0), [CLOSE] + t);
  }

  lemma ClassTextRange(code: Code, partType: nat, t: Text)
    requires Plain(code) && code != [] && code[0] == RANGE
    ensures |code| >= 3
    ensures ClassText(code, partType, t) == PrintRange(code[1], code[2], partType) + ClassText(code[3..], 2, t)
    ensures 2 <= code[1] && 2 <= code[2] && Plain(code[3..])
    ensures Clean(code) ==> Writable(code[1]) && Writable(code[2]) && Clean(code[3..])
  {
    assert code[1] in code && code[2] in code;
    Regroup(PrintRange(code[1], code[2], partType), PrintCode(code[3..], 2), [CLOSE] + t);
  }

  /** The first byte of what is left in a class. */
  lemma ClassTextStart(data: Text, p: nat, code: Code, partType: nat, t: Text)
    requires Plain(code) && Rest(data, p, ClassText(code, partType, t))
    ensures code == [] ==> At(data, p) == CLOSE
    ensures code != [] && partType == 0 && code[0] == RANGE ==> At(data, p) == COMMA
    ensures code != [] && partType == 2 ==> At(data, p) == COMMA
    ensures code != [] && partType == TypeOf(code) ==> At(data, p) != CLOSE && At(data, p) != BANG
    ensures At(data, p) != DASH
  {
    if code == [] {
      assert ClassText(code, partType, t) == [CLOSE] + t;
      RestHead(data, p, CLOSE, t);
    } else if code[0] == RANGE {
      ClassTextRange(code, partType, t);
      RestCut(data, p, PrintRange(code[1], code[2], partType), ClassText(code[3..], 2, t));
    } else {
      ClassTextSingle(code, partType, t);
      RestCut(data, p, PrintSingle(code[0], partType), ClassText(code[1..], 0, t));
    }
  }

  /** Sequence facts, kept apart so that the proofs below need not find them. */
  lemma TakeCons(acc: Code, code: Code, k: nat)
    requires 0 < k <= |code|
    ensures code[..k] == [code[0]] + code[1..][..k - 1] && code[k..] == code[1..][k - 1..]
    ensures acc + code[..k] == (acc + [code[0]]) + code[1..][..k - 1]
  {
  }

  lemma TakeAll(acc: Code, code: Code, k: nat)
    requires k <= |code|
    ensures acc + code == (acc + code[..k]) + code[k..]
    ensures code[k..] == [] ==> code[..k] == code
    ensures acc + [] == acc && code[0..] == code && code[..0] == []
  {
  }

  lemma {:induction false} EnumRead(data: Text, p: nat, code: Code, acc: Code, t: Text)
    requires Clean(code) && Rest(data, p, ClassText(code, 0, t))
    ensures var k := Singles(code); var r := Enumeration(data, p, acc);
            r.0 == acc + code[..k] && Clean(code[k..]) && Rest(data, r.1, ClassText(code[k..], 0, t))
    decreases |code|
  {
    var k := Singles(code);
    ClassTextStart(data, p, code, 0, t);
    if k == 0 {
      TakeAll(acc, code, 0);
    } else {
      ClassTextSingle(code, 0, t);
      SingleShape(code[0], ClassText(code[1..], 0, t));
      ReadChar(data, p, code[0], IN_CLASS, ClassText(code[1..], 0, t));
      EnumRead(data, SingleChar(data, p, IN_CLASS).1, code[1..], acc + [code[0]], t);
      TakeCons(acc, code, k);
    }
  }

  lemma RangeShape(lo: Byte, hi: Byte, rest: Text)
    ensures PrintRange(lo, hi, 1) + rest == PlaceSingleChar(lo) + ([DASH] + (PlaceSingleChar(hi) + rest))
  {
  }

  lemma RangeUnfolds(data: Text, p: nat, lo: Byte, q: nat, hi: Byte, e: nat)
    requires SingleChar(data, p, IN_CLASS) == (lo, q) && lo != 0 && At(data, q) == DASH
    requires SingleChar(data, q + 1, IN_CLASS) == (hi, e) && hi != 0
    ensures MultiPart(data, p) == (Some([RANGE, lo, hi]), e)
  {
  }

  /** The first piece of a class is one range, or the single characters up to the next range. */
  lemma RangeRead(data: Text, p: nat, code: Code, t: Text)
    requires Plain(code) && |code| >= 3 && code[0] == RANGE && Writable(code[1]) && Writable(code[2])
    requires Rest(data, p, ClassText(code, 1, t))
    ensures Plain(code[3..])
    ensures var r := MultiPart(data, p);
            r.0 == Some(code[..3]) && Rest(data, r.1, ClassText(code[3..], 2, t))
  {
    hide *;
    ClassTextRange(code, 1, t);
    var lo, hi, rest := code[1], code[2], ClassText(code[3..], 2, t);
    RangeShape(lo, hi, rest);
    ReadChar(data, p, lo, IN_CLASS, [DASH] + (PlaceSingleChar(hi) + rest));
    var q := SingleChar(data, p, IN_CLASS).1;
    RestHead(data, q, DASH, PlaceSingleChar(hi) + rest);
    ReadChar(data, q + 1, hi, IN_CLASS, rest);
    RangeUnfolds(data, p, lo, q, hi, SingleChar(data, q + 1, IN_CLASS).1);
    TakeThree(code);
  }

  lemma TakeThree(code: Code)
    requires |code| >= 3
    ensures code[..3] == [code[0], code[1], code[2]]
  {
  }

  lemma SinglesUnfold(data: Text, p: nat, c: Byte, q: nat)
    requires SingleChar(data, p, IN_CLASS) == (c, q) && c != 0 && At(data, q) != DASH
    ensures var r := Enumeration(data, q, [c]); MultiPart(data, p) == (Some(r.0), r.1)
  {
  }

  lemma SinglesRead(data: Text, p: nat, code: Code, t: Text)
    requires Clean(code) && code != [] && code[0] != RANGE && Rest(data, p, ClassText(code, 0, t))
    ensures var k := Singles(code); var r := MultiPart(data, p);
            k > 0 && r.0 == Some(code[..k]) && Clean(code[k..]) && Rest(data, r.1, ClassText(code[k..], 0, t))
  {
    TakeCons([], code, Singles(code));
    ClassTextSingle(code, 0, t);
    SingleShape(code[0], ClassText(code[1..], 0, t));
    ReadChar(data, p, code[0], IN_CLASS, ClassText(code[1..], 0, t));
    var q := SingleChar(data, p, IN_CLASS).1;
    ClassTextStart(data, q, code[1..], 0, t);
    SinglesUnfold(data, p, code[0], q);
    EnumRead(data, q, code[1..], [code[0]], t);
  }

  lemma SingleShape(c: Byte, rest: Text)
    ensures PrintSingle(c, 0) + rest == PlaceSingleChar(c) + rest
  {
  }

  lemma RangeComma(lo: Byte, hi: Byte, partType: nat)
    requires partType != 1
    ensures PrintRange(lo, hi, partType) == [COMMA] + PrintRange(lo, hi, 1)
  {
  }

  lemma SingleComma(c: Byte, partType: nat)
    requires partType != 0
    ensures PrintSingle(c, partType) == [COMMA] + PrintSingle(c, 0)
  {
  }

  /** What follows a piece of a class: the end, or a comma and the rest. */
  lemma CommaThenRest(data: Text, q: nat, rest: Code, partType: nat, t: Text)
    requires Plain(rest) && rest != [] && (partType == 2 || (partType == 0 && rest[0] == RANGE))
    requires Rest(data, q, ClassText(rest, partType, t))
    ensures At(data, q) == COMMA && Rest(data, q + 1, ClassText(rest, TypeOf(rest), t))
  {
    hide *;
    TypeIs(rest);
    if rest[0] == RANGE {
      ClassTextRange(rest, partType, t);
      ClassTextRange(rest, 1, t);
      RangeComma(rest[1], rest[2], partType);
      Regroup([COMMA], PrintRange(rest[1], rest[2], 1), ClassText(rest[3..], 2, t));
    } else {
      ClassTextSingle(rest, partType, t);
      ClassTextSingle(rest, 0, t);
      SingleComma(rest[0], partType);
      Regroup([COMMA], PrintSingle(rest[0], 0), ClassText(rest[1..], 0, t));
    }
    RestHead(data, q, COMMA, ClassText(rest, TypeOf(rest), t));
  }

  lemma BodyUnfolds(data: Text, p: nat, acc: Code, part: Code, q: nat)
    requires MultiPart(data, p) == (Some(part), q)
    ensures At(data, q) == CLOSE ==> ClassBody(data, p, acc) == (acc + part, q)
    ensures At(data, q) == COMMA && At(data, q + 1) != CLOSE ==> ClassBody(data, p, acc) == ClassBody(data, q + 1, acc + part)
  {
  }

  lemma CleanIsPlain(code: Code)
    requires Clean(code)
    ensures Plain(code)
  {
  }

  lemma NoClassText(partType: nat, t: Text)
    ensures ClassText([], partType, t) == [CLOSE] + t
  {
  }

  lemma {:induction false} BodyRead(data: Text, p: nat, code: Code, acc: Code, t: Text)
    requires Clean(code) && code != [] && Rest(data, p, ClassText(code, TypeOf(code), t))
    ensures var r := ClassBody(data, p, acc);
            r.0 == acc + code && Rest(data, r.1, [CLOSE] + t)
    decreases |code|
  {
    hide *;
    TypeIs(code);
    CleanIsPlain(code);
    var k, partType;
    if code[0] == RANGE {
      ClassTextRange(code, 1, t);
      RangeRead(data, p, code, t);
      k, partType := 3, 2;
    } else {
      SinglesRead(data, p, code, t);
      k, partType := Singles(code), 0;
    }
    var rest, q := code[k..], MultiPart(data, p).1;
    BodyUnfolds(data, p, acc, code[..k], q);
    TakeAll(acc, code, k);
    CleanIsPlain(rest);
    ClassTextStart(data, q, rest, partType, t);
    if rest == [] {
      NoClassText(partType, t);
    } else {
      CommaThenRest(data, q, rest, partType, t);
      ClassTextStart(data, q + 1, rest, TypeOf(rest), t);
      BodyRead(data, q + 1, rest, acc + code[..k], t);
    }
  }

  // ---------------------------------------------------------------- symbols and rows

  function Bang(y: Sym): Text { if y.negate then [BANG] else [] }

  lemma PrintableIsClean(y: Sym)
    requires PrintableSym(y)
    ensures Clean(y.code) && y.code != []
  {
  }

  lemma BangIs(y: Sym)
    ensures Bang(y) == if y.negate then [BANG] else []
  {
  }

  lemma ClassShape(y: Sym, t: Text)
    requires |y.code| > 1 || y.negate
    ensures PrintSym(y) + t == [OPEN] + (Bang(y) + ClassText(y.code, TypeOf(y.code), t))
  {
  }

  lemma ClassUnfolds(data: Text, p: nat, y: Sym, q: nat)
    requires At(data, p) == OPEN && (At(data, p + 1) == BANG) == y.negate && y.code != []
    requires ClassBody(data, p + 1 + |Bang(y)|, []) == ([] + y.code, q)
    ensures SymAt(data, p) == (Some(y), q + 1)
  {
    assert [] + y.code == y.code;
  }

  lemma ClassRead(data: Text, p: nat, y: Sym, t: Text)
    requires PrintableSym(y) && (|y.code| > 1 || y.negate) && Rest(data, p, PrintSym(y) + t)
    ensures var r := SymAt(data, p); r.0 == Some(y) && Rest(data, r.1, t)
    ensures At(data, p) == OPEN
  {
    hide *;
    PrintableIsClean(y);
    BangIs(y);
    var bang, body := Bang(y), ClassText(y.code, TypeOf(y.code), t);
    ClassShape(y, t);
    RestHead(data, p, OPEN, bang + body);
    RestCut(data, p + 1, bang, body);
    var start := p + 1 + |bang|;
    ClassTextStart(data, start, y.code, TypeOf(y.code), t);
    BodyRead(data, start, y.code, [], t);
    RestHead(data, ClassBody(data, start, []).1, CLOSE, t);
    ClassUnfolds(data, p, y, ClassBody(data, start, []).1);
  }

  lemma SymRead(data: Text, p: nat, y: Sym, t: Text)
    requires PrintableSym(y) && Rest(data, p, PrintSym(y) + t)
    ensures var r := SymAt(data, p); r.0 == Some(y) && Rest(data, r.1, t)
    ensures At(data, p) != 0 && At(data, p) !in IN_ROW
  {
    if |y.code| > 1 || y.negate {
      ClassRead(data, p, y, t);
    } else {
      assert y.code == [y.code[0]] && y.code[1..] == [] && y.code[0] in y.code;
      assert PrintCode(y.code, 0) == PrintSingle(y.code[0], 0) + PrintCode([], 0);
      assert PrintSym(y) == PlaceSingleChar(y.code[0]);
      ReadChar(data, p, y.code[0], IN_ROW, t);
    }
  }

  /** No symbol looks like a wildcard. */
  lemma SymStarts(y: Sym)
    requires CanonicalSym(y)
    ensures PrintSym(y) != [] && PrintSym(y)[0] !in IN_ROW && PrintSym(y)[0] != 0
  {
    if |y.code| == 1 && !y.negate {
      LoneSym(y);
    }
  }

  lemma LoneSym(y: Sym)
    requires CanonicalSym(y) && |y.code| == 1 && !y.negate
    ensures y == Sym(false, [y.code[0]]) && 2 <= y.code[0] && PrintSym(y) == PlaceSingleChar(y.code[0])
  {
    assert y.code == [y.code[0]] && y.code[1..] == [];
    assert PrintCode(y.code, 0) == PrintSingle(y.code[0], 0) + PrintCode([], 0);
  }

  /** A symbol in front of a row. */
  lemma RowGrows(data: Text, p: nat, y: Sym, q: nat)
    requires SymAt(data, p) == (Some(y), q) && CanonicalSym(y)
    ensures RowFrom(data, p) == ([y] + RowFrom(data, q).0, RowFrom(data, q).1)
  {
  }

  /** A backslash and the character that completes it. */
  lemma PairRead(data: Text, p: nat, y: Sym, z: Sym, t: Text)
    requires y == Sym(false, [BACKSLASH]) && CanonicalSym(y) && CanonicalSym(z) && Completes(z)
    requires Rest(data, p, PrintSym(y) + (PrintSym(z) + t))
    ensures SymAt(data, p) == (Some(y), p + 2) && SymAt(data, p + 2) == (Some(z), p + 3) && Rest(data, p + 3, t)
    ensures At(data, p) == BACKSLASH
  {
    hide CanonicalSym, PrintSym;
    LoneSym(y);
    LoneSym(z);
    var c := z.code[0];
    RestHead(data, p, BACKSLASH, PrintSym(z) + t);
    assert PrintSym(z) + t == [BACKSLASH] + ([c] + t);
    RestHead(data, p + 1, BACKSLASH, [c] + t);
    RestHead(data, p + 2, c, t);
  }

  lemma CompletedAfter(syms: seq<Sym>, n: nat)
    requires Completed(syms) && n <= |syms|
    ensures Completed(syms[n..])
  {
  }

  lemma {:induction false} RowRead(data: Text, p: nat, syms: seq<Sym>, t: Text)
    requires (forall y :: y in syms ==> CanonicalSym(y)) && Completed(syms) && Rest(data, p, PrintRow(syms) + t)
    requires t == [] || t[0] in IN_ROW
    ensures var r := RowFrom(data, p); r.0 == syms && Rest(data, r.1, t)
    decreases |syms|
  {
    hide CanonicalSym, SymAt, RowFrom, PrintSym;
    if syms == [] {
      assert [] + t == t;
      assert t != [] ==> data[p] == data[p..][0];
      RowIsOver(data, p);
    } else {
      var y, rest := syms[0], PrintRow(syms[1..]);
      Regroup(PrintSym(y), rest, t);
      assert y in syms;
      CompletedAfter(syms, 1);
      if BACKSLASH in y.code {
        var z, more := syms[1], PrintRow(syms[2..]);
        assert z in syms && syms[1..][0] == z && syms[1..][1..] == syms[2..];
        Regroup(PrintSym(z), more, t);
        PairRead(data, p, y, z, more + t);
        CompletedAfter(syms, 2);
        RowRead(data, p + 3, syms[2..], t);
        RowGrows(data, p + 2, z, p + 3);
        RowGrows(data, p, y, p + 2);
        assert syms == [y] + ([z] + syms[2..]);
      } else {
        assert PrintableSym(y);
        SymRead(data, p, y, rest + t);
        RowRead(data, SymAt(data, p).1, syms[1..], t);
        RowGrows(data, p, y, SymAt(data, p).1);
      }
    }
  }

  lemma RowIsOver(data: Text, p: nat)
    requires At(data, p) == 0 || At(data, p) in IN_ROW
    ensures SymAt(data, p) == (None, p) && RowFrom(data, p) == ([], p)
  {
  }

  // ---------------------------------------------------------------- wildcards and patterns

  lemma {:induction false} WildRead(data: Text, p: nat, n: nat, count: nat, t: Text)
    requires Rest(data, p, seq(n, _ => QUESTION) + t) && (t == [] || t[0] !in IN_ROW)
    ensures var r := Wild(data, p, count); r.0 == count + n && Rest(data, r.1, t)
    decreases n
  {
    if n == 0 {
      assert seq(0, _ => QUESTION) + t == t;
      assert t != [] ==> data[p] == data[p..][0];
    } else {
      assert seq(n, _ => QUESTION) + t == [QUESTION] + (seq(n - 1, _ => QUESTION) + t);
      RestHead(data, p, QUESTION, seq(n - 1, _ => QUESTION) + t);
      WildRead(data, p + 1, n - 1, count + 1, t);
    }
  }

  lemma LeadRead(data: Text, p: nat, lead: int, t: Text)
    requires lead >= -1 && Rest(data, p, PrintLead(lead) + t) && (t == [] || t[0] !in IN_ROW)
    ensures var r := Wild(data, p, 0); r.0 == lead && Rest(data, r.1, t)
    ensures lead != 0 ==> At(data, p) in IN_ROW
  {
    RestCut(data, p, PrintLead(lead), t);
    if lead < 0 {
      assert t != [] ==> data[p + 1] == data[p + 1..][0];
    } else {
      WildRead(data, p, lead, 0, t);
    }
  }

  /** The text of a row starts with no wildcard, the text of a later part with one. */
  lemma TextStarts(pat: Pattern)
    requires Canonical(pat) && pat != []
    ensures pat[0].lead != 0 ==> Print(pat) != [] && Print(pat)[0] in IN_ROW
    ensures pat[0].syms != [] ==> var x := PrintRow(pat[0].syms) + Print(pat[1..]); x != [] && x[0] !in IN_ROW
  {
    assert CanonicalPart(pat[0]);
    if pat[0].syms != [] {
      assert pat[0].syms[0] in pat[0].syms;
      SymStarts(pat[0].syms[0]);
    }
  }

  lemma PrintableAfter(pat: Pattern)
    requires Printable(pat) && pat != []
    ensures Printable(pat[1..]) && Canonical(pat) && Canonical(pat[1..])
    ensures CanonicalPart(pat[0]) && Completed(pat[0].syms)
    ensures pat[1..] != [] ==> pat[0].syms != [] && pat[1].lead != 0
    ensures pat[1..] == [] ==> pat == [pat[0]]
    ensures pat[0].lead != 0 || pat[0].syms != []
  {
    var rest := pat[1..];
    forall i | 0 <= i < |rest| ensures CanonicalPart(rest[i]) && Completed(rest[i].syms) {
      assert rest[i] == pat[i + 1];
    }
  }

  /** A part in front of a pattern. */
  lemma PatternGrows(data: Text, p: nat, lead: int, q: nat, syms: seq<Sym>, e: nat)
    requires p < |data| && Wild(data, p, 0) == (lead, q) && RowFrom(data, q) == (syms, e)
    requires (lead != 0 || syms != []) && PatternFrom(data, e).Parts?
    ensures PatternFrom(data, p) == Parts([Part(lead, syms)] + PatternFrom(data, e).parts)
  {
  }

  /** Reading back what is printed: the same leads, symbols and negation marks. */
  lemma {:induction false} PatternRead(data: Text, p: nat, pat: Pattern)
    requires Printable(pat) && Rest(data, p, Print(pat))
    ensures PatternFrom(data, p) == Parts(pat)
    decreases |pat|
  {
    hide Printable, Canonical, CanonicalSym, Completed, RowFrom, Wild, PrintRow, PrintLead;
    if pat != [] {
      var part, tail := pat[0], Print(pat[1..]);
      var rest := PrintRow(part.syms) + tail;
      PrintableAfter(pat);
      TextStarts(pat);
      if pat[1..] != [] {
        assert pat[1..][0] == pat[1];
        TextStarts(pat[1..]);
      } else {
        NoText();
      }
      LeadRead(data, p, part.lead, rest);
      var q := Wild(data, p, 0).1;
      RowRead(data, q, part.syms, tail);
      PatternRead(data, RowFrom(data, q).1, pat[1..]);
      SomethingThere(data, p, pat);
      PatternGrows(data, p, part.lead, q, part.syms, RowFrom(data, q).1);
      assert pat == [Part(part.lead, part.syms)] + pat[1..];
    }
  }

  lemma NoText()
    ensures Print([]) == [] && PrintRow([]) == []
  {
  }

  lemma SomethingThere(data: Text, p: nat, pat: Pattern)
    requires Canonical(pat) && pat != [] && (pat[0].lead != 0 || pat[0].syms != []) && Rest(data, p, Print(pat))
    ensures p < |data|
  {
    TextStarts(pat);
  }

  /** The text kept with a compiled pattern reads back as the same pattern, so it prints as itself. */
  lemma RawIsFixpoint(pat: Pattern)
    requires Printable(pat)
    ensures PatternFrom(Print(pat), 0) == Parts(pat)
    ensures Print(PatternFrom(Print(pat), 0).parts) == Print(pat)
  {
    assert Print(pat)[0..] == Print(pat);
    PatternRead(Print(pat), 0, pat);
  }
}
