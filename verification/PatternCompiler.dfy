/** From text to compiled pattern (libAfterBase/regexp.c): parse_reg_exp, parse_wild_reg_exp and the
    last step of compile_wild_reg_exp_sized. */
module PatternCompiler {
  import opened Common
  import opened CharClass
  import opened PatternLanguage
  import opened CompiledPattern
  import opened PatternParser

  // ---------------------------------------------------------------- canonical codes

  /** No character of the code is 0 or 1, which have other uses. */
  ghost predicate Plain(code: Code)
  {
    code == [] ||
    if code[0] == RANGE then |code| >= 3 && 2 <= code[1] && 2 <= code[2] && Plain(code[3..])
    else 2 <= code[0] && Plain(code[1..])
  }

  lemma {:induction false} PlainFacts(code: Code)
    requires Plain(code)
    ensures WellFormed(code) && !Denotes(code, RANGE) && !Has(code, RANGE)
    ensures code != [] ==> exists c: Byte :: 2 <= c && Denotes(code, c)
  {
    if code != [] {
      if code[0] == RANGE {
        PlainFacts(code[3..]);
        assert Denotes(code, code[1]);
      } else {
        PlainFacts(code[1..]);
        assert Denotes(code, code[0]);
      }
    }
  }

  lemma {:induction false} PlainJoin(a: Code, b: Code)
    requires Plain(a) && Plain(b)
    ensures Plain(a + b)
  {
    if a == [] {
      assert a + b == b;
    } else if a[0] == RANGE {
      PlainJoin(a[3..], b);
      assert (a + b)[3..] == a[3..] + b;
    } else {
      PlainJoin(a[1..], b);
      assert (a + b)[1..] == a[1..] + b;
    }
  }

  lemma EmitOnePlain(r: Run)
    requires 2 <= r.lo <= r.hi
    ensures Plain(Emit(r))
  {
    if r.lo + 1 == r.hi {
      assert Emit(r)[1..] == [r.hi] && [r.hi][1..] == [];
    } else if r.lo < r.hi {
      assert Emit(r)[3..] == [];
    } else {
      assert Emit(r)[1..] == [];
    }
  }

  lemma {:induction false} EmitPlain(runs: seq<Run>, from: int)
    requires Ascending(runs, from) && from >= 2
    ensures Plain(EmitAll(runs))
  {
    if runs != [] {
      EmitPlain(runs[1..], runs[0].hi + 2);
      EmitOnePlain(runs[0]);
      PlainJoin(Emit(runs[0]), EmitAll(runs[1..]));
    }
  }

  /** The canonical form of any code is plain, and is its own canonical form. */
  lemma CanonPlain(code: Code)
    ensures Plain(Canon(code)) && Canon(Canon(code)) == Canon(code)
  {
    RunsAscend(Marks(code), 2, 2);
    EmitPlain(Runs(Marks(code), 2), 2);
    CanonIsIdempotent(code);
  }

  /** Nothing is left of a class exactly if it has no character from 2 to 254. */
  lemma CanonIsLost(code: Code)
    ensures Canon(code) == [] <==> forall c: Byte :: 2 <= c <= 254 ==> !Denotes(code, c)
  {
    CanonPlain(code);
    PlainFacts(Canon(code));
    if Canon(code) != [] {
      var c: Byte :| 2 <= c && Denotes(Canon(code), c);
      CanonKeepsMembers(code, c);
      assert Denotes(code, if c == 255 then 254 else c);
    }
    forall c: Byte | 2 <= c <= 254 && Denotes(code, c) ensures Canon(code) != [] {
      CanonKeepsMembers(code, c);
    }
  }

  lemma {:induction false} RangesEndTells(runs: seq<Run>, from: int)
    requires Ascending(runs, from) && from >= 2
    ensures RangesEnd(EmitAll(runs)) <==> forall r :: r in runs ==> r.hi < 255 || r.lo >= 254
  {
    if runs == [] {
    } else {
      var r, rest := runs[0], runs[1..];
      RangesEndTells(rest, r.hi + 2);
      RangesEndOne(r, EmitAll(rest));
      assert runs == [r] + rest;
    }
  }

  lemma RangesEndOne(r: Run, rest: Code)
    requires 2 <= r.lo <= r.hi
    ensures RangesEnd(Emit(r) + rest) <==> (r.hi < 255 || r.lo >= 254) && RangesEnd(rest)
  {
    var code := Emit(r) + rest;
    if r.lo == r.hi {
      assert code[1..] == rest;
    } else if r.lo + 1 == r.hi {
      assert code[1..] == [r.hi] + rest && code[1..][1..] == rest;
    } else {
      assert code[3..] == rest;
    }
  }

  /** Compiling a class leads to a range that goes up to 255 exactly if it has the three last characters. */
  lemma RangesEndExactly(code: Code)
    ensures RangesEnd(Canon(code)) <==> !(Denotes(code, 253) && Denotes(code, 254) && Denotes(code, 255))
  {
    hide Denotes, RangesEnd, EmitAll;
    var sc := Marks(code);
    var runs := Runs(sc, 2);
    RunsAscend(sc, 2, 2);
    RangesEndTells(runs, 2);
    RunsCover(sc, 2, 253);
    RunsCover(sc, 2, 254);
    RunsCover(sc, 2, 255);
    if sc[253] && sc[254] && sc[255] {
      var r :| r in runs && r.lo <= 255 <= r.hi;
      var x :| x in runs && x.lo <= 253 <= x.hi;
      TopRuns(runs, 2, x, r);
    }
  }

  /** Runs have a gap between them, so no two hold 253 and 255. */
  lemma {:induction false} TopRuns(runs: seq<Run>, from: int, x: Run, y: Run)
    requires Ascending(runs, from) && x in runs && y in runs && x.lo <= 253 <= x.hi && y.hi == 255
    requires InRuns(runs, 254)
    ensures y.lo <= 253
  {
    if y.lo > 253 {
      var z :| z in runs && z.lo <= 254 <= z.hi;
      RunsApart(runs, from, x, y);
      RunsApart(runs, from, x, z);
      RunsApart(runs, from, z, y);
    }
  }

  lemma {:induction false} RunsApart(runs: seq<Run>, from: int, x: Run, y: Run)
    requires Ascending(runs, from) && x in runs && y in runs
    ensures x == y || x.hi + 2 <= y.lo || y.hi + 2 <= x.lo
  {
    if x == runs[0] && y != x {
      AscendingBound(runs[1..], runs[0].hi + 2, y);
    } else if y == runs[0] && y != x {
      AscendingBound(runs[1..], runs[0].hi + 2, x);
    } else if x != y {
      RunsApart(runs[1..], runs[0].hi + 2, x, y);
    }
  }

  /** A single character is its own canonical form. */
  lemma CanonOfOne(c: Byte)
    requires 2 <= c <= 254
    ensures Canon([c]) == [c]
  {
    CanonAscends([c]);
    var runs :| Ascending(runs, 2) && Canon([c]) == EmitAll(runs);
    forall x: Byte | 2 <= x ensures InRuns(runs, x) <==> x == c {
      CanonKeepsMembers([c], x);
      EmitHas(runs, 2, x);
      assert [c][1..] == [];
    }
    OnlyRun(runs, c);
    assert runs[1..] == [];
    assert EmitAll(runs[1..]) == [];
    assert EmitAll(runs) == Emit(runs[0]) + EmitAll(runs[1..]) == [c];
  }

  /** The two characters a code cannot hold alone. */
  lemma CanonOfOther(c: Byte)
    requires c < 2 || c == 255
    ensures Canon([c]) == []
  {
    assert [c][1..] == [];
    CanonIsLost([c]);
  }

  lemma OnlyRun(runs: seq<Run>, c: Byte)
    requires Ascending(runs, 2) && forall x: Byte :: 2 <= x ==> (InRuns(runs, x) <==> x == c)
    requires c >= 2
    ensures runs == [Run(c, c)]
  {
    assert InRuns(runs, c);
    assert runs != [];
    assert runs[0] in runs && InRuns(runs, runs[0].lo) && InRuns(runs, runs[0].hi);
    if |runs| > 1 {
      assert runs[1..][0] == runs[1] && runs[1] in runs && InRuns(runs, runs[1].lo);
      assert false;
    }
  }

  // ---------------------------------------------------------------- texts the compiler can do with

  /** The code of a symbol, as it stands in the text, is fit for the compiler: every range mark has its two
      ends, something is left of it in canonical form, and no range then goes up to 255. */
  ghost predicate FitCode(code: Code)
  {
    WellFormed(code) && Canon(code) != [] && RangesEnd(Canon(code))
  }

  ghost predicate FitRow(data: Text, p: nat)
    decreases |data| - p
  {
    var (y, q) := SymAt(data, p);
    y.Some? ==> FitCode(y.value.code) && FitRow(data, q)
  }

  /** Every symbol the parser comes to is fit. Short of a range mark it reads past the end of the code, and on
      a range up to 255 the loop over it does not end. */
  ghost predicate FitFrom(data: Text, p: nat)
    decreases |data| - p
  {
    p < |data| ==>
      var (lead, q) := Wild(data, p, 0);
      FitRow(data, q) && var (syms, e) := RowFrom(data, q); lead != 0 || syms != [] ==> FitFrom(data, e)
  }

  ghost predicate Compilable(data: Text)
  {
    ZeroFree(data) && FitFrom(data, 0)
  }

  /** What fitness comes to for a class: range marks aside, it has a character from 2 to 254, and not all of the
      last three. */
  lemma FitCodeExactly(code: Code)
    ensures FitCode(code) <==>
      && WellFormed(code) && (exists c: Byte :: 2 <= c <= 254 && Denotes(code, c))
      && !(Denotes(code, 253) && Denotes(code, 254) && Denotes(code, 255))
  {
    CanonIsLost(code);
    RangesEndExactly(code);
  }

  // ---------------------------------------------------------------- ordinary texts

  /** No character is 0, 1 or 255. */
  ghost predicate OrdinaryText(data: Text)
  {
    forall c :: c in data ==> 2 <= c <= 254
  }

  ghost predicate Ordinary(code: Code)
  {
    code == [] ||
    if code[0] == RANGE then
      |code| >= 3 && 2 <= code[1] <= 254 && 2 <= code[2] <= 254 && Ordinary(code[3..])
    else 2 <= code[0] <= 254 && Ordinary(code[1..])
  }

  lemma {:induction false} OrdinaryFacts(code: Code)
    requires Ordinary(code)
    ensures WellFormed(code) && !Denotes(code, 255)
    ensures code != [] ==> exists c: Byte :: 2 <= c <= 254 && Denotes(code, c)
  {
    if code != [] {
      if code[0] == RANGE {
        OrdinaryFacts(code[3..]);
        assert Denotes(code, code[1]);
      } else {
        OrdinaryFacts(code[1..]);
        assert Denotes(code, code[0]);
      }
    }
  }

  lemma {:induction false} OrdinaryJoin(a: Code, b: Code)
    requires Ordinary(a) && Ordinary(b)
    ensures Ordinary(a + b)
  {
    if a == [] {
      assert a + b == b;
    } else if a[0] == RANGE {
      OrdinaryJoin(a[3..], b);
      assert (a + b)[3..] == a[3..] + b;
    } else {
      OrdinaryJoin(a[1..], b);
      assert (a + b)[1..] == a[1..] + b;
    }
  }

  lemma SingleCharOrdinary(data: Text, p: nat, reserved: seq<Byte>)
    requires OrdinaryText(data)
    ensures var c := SingleChar(data, p, reserved).0; c == 0 || 2 <= c <= 254
  {
    assert p < |data| ==> data[p] in data;
    assert p + 1 < |data| ==> data[p + 1] in data;
  }

  lemma {:induction false} EnumerationOrdinary(data: Text, p: nat, acc: Code)
    requires OrdinaryText(data) && Ordinary(acc)
    ensures Ordinary(Enumeration(data, p, acc).0)
    decreases |data| - p
  {
    var (c, q) := SingleChar(data, p, IN_CLASS);
    SingleCharOrdinary(data, p, IN_CLASS);
    if c != 0 {
      assert [c][1..] == [];
      OrdinaryJoin(acc, [c]);
      EnumerationOrdinary(data, q, acc + [c]);
    }
  }

  lemma MultiPartOrdinary(data: Text, p: nat)
    requires OrdinaryText(data)
    ensures MultiPart(data, p).0.Some? ==> Ordinary(MultiPart(data, p).0.value)
  {
    var (c, q) := SingleChar(data, p, IN_CLASS);
    SingleCharOrdinary(data, p, IN_CLASS);
    if c != 0 {
      var d := SingleChar(data, q + 1, IN_CLASS).0;
      SingleCharOrdinary(data, q + 1, IN_CLASS);
      assert [c][1..] == [] && [RANGE, c, d][3..] == [];
      EnumerationOrdinary(data, q, [c]);
    }
  }

  lemma {:induction false} ClassBodyOrdinary(data: Text, p: nat, acc: Code)
    requires OrdinaryText(data) && Ordinary(acc)
    ensures Ordinary(ClassBody(data, p, acc).0)
    decreases |data| - p
  {
    var (part, q) := MultiPart(data, p);
    MultiPartOrdinary(data, p);
    if part.Some? {
      OrdinaryJoin(acc, part.value);
      var next := if At(data, q) == COMMA then q + 1 else q;
      if At(data, next) != CLOSE {
        ClassBodyOrdinary(data, next, acc + part.value);
      }
    }
  }

  lemma SymOrdinary(data: Text, p: nat)
    requires OrdinaryText(data)
    ensures SymAt(data, p).0.Some? ==> Ordinary(SymAt(data, p).0.value.code)
  {
    if At(data, p) == OPEN {
      ClassBodyOrdinary(data, if At(data, p + 1) == BANG then p + 2 else p + 1, []);
    } else {
      var c := SingleChar(data, p, IN_ROW).0;
      SingleCharOrdinary(data, p, IN_ROW);
      assert [c][1..] == [];
    }
  }

  lemma {:induction false} OrdinaryRow(data: Text, p: nat)
    requires OrdinaryText(data)
    ensures FitRow(data, p)
    decreases |data| - p
  {
    hide Canon, Denotes, RangesEnd, ClassBody, Ordinary, OrdinaryText;
    var (y, q) := SymAt(data, p);
    if y.Some? {
      SymOrdinary(data, p);
      OrdinaryFacts(y.value.code);
      FitCodeExactly(y.value.code);
      OrdinaryRow(data, q);
    }
  }

  lemma {:induction false} OrdinaryFrom(data: Text, p: nat)
    requires OrdinaryText(data)
    ensures FitFrom(data, p)
    decreases |data| - p
  {
    hide FitRow, RowFrom, OrdinaryText;
    if p < |data| {
      var (lead, q) := Wild(data, p, 0);
      var (syms, e) := RowFrom(data, q);
      OrdinaryRow(data, q);
      if lead != 0 || syms != [] {
        OrdinaryFrom(data, e);
      }
    }
  }

  /** Texts of ordinary characters are fit. */
  lemma OrdinaryIsCompilable(data: Text)
    requires OrdinaryText(data)
    ensures Compilable(data)
  {
    OrdinaryFrom(data, 0);
  }

  // ---------------------------------------------------------------- rows in canonical form

  /** What a symbol looks like once it has been through the compiler. */
  ghost predicate CanonicalSym(y: Sym)
  {
    Plain(y.code) && y.code != [] && Canon(y.code) == y.code
  }

  ghost predicate Canonical(pat: Pattern)
  {
    forall i :: 0 <= i < |pat| ==> CanonicalPart(pat[i])
  }

  ghost predicate CanonicalPart(p: Part)
  {
    p.lead >= -1 && forall y :: y in p.syms ==> CanonicalSym(y)
  }

  lemma {:induction false} RowCanonical(data: Text, p: nat)
    requires FitRow(data, p)
    ensures forall y :: y in RowFrom(data, p).0 ==> CanonicalSym(y) && RangesEnd(y.code)
    decreases |data| - p
  {
    hide Canon, Plain, RangesEnd;
    var (y, q) := SymAt(data, p);
    if y.Some? {
      CanonPlain(y.value.code);
      RowCanonical(data, q);
    }
  }

  // ---------------------------------------------------------------- rows, turned around

  function Codes(syms: seq<Sym>): (codes: seq<Code>)
    ensures |codes| == |syms|
  {
    seq(|syms|, k requires 0 <= k < |syms| => syms[k].code)
  }

  function Backward(codes: seq<Code>): (r: seq<Code>)
    ensures |r| == |codes|
  {
    seq(|codes|, k requires 0 <= k < |codes| => codes[|codes| - 1 - k])
  }

  lemma {:induction false} FlatSnoc(codes: seq<Code>, code: Code)
    ensures Flat(codes + [code]) == Flat(codes) + (code + [0])
  {
    if codes == [] {
      assert codes + [code] == [code] && [code][1..] == [];
    } else {
      assert (codes + [code])[1..] == codes[1..] + [code];
      FlatSnoc(codes[1..], code);
    }
  }

  lemma {:induction false} FlatEnds(codes: seq<Code>)
    ensures codes != [] ==> |Flat(codes)| > 0 && Flat(codes)[|Flat(codes)| - 1] == 0
  {
    if codes != [] {
      assert codes == codes[..|codes| - 1] + [codes[|codes| - 1]];
      FlatSnoc(codes[..|codes| - 1], codes[|codes| - 1]);
    }
  }

  lemma FlatStep(codes: seq<Code>, k: nat)
    requires k < |codes|
    ensures codes[k] in codes && Flat(codes[..k + 1]) == Flat(codes[..k]) + (codes[k] + [0])
    ensures Flat(codes[..k]) != [] ==> Flat(codes[..k])[|Flat(codes[..k])| - 1] == 0
  {
    assert codes[..k + 1] == codes[..k] + [codes[k]];
    FlatSnoc(codes[..k], codes[k]);
    FlatEnds(codes[..k]);
  }

  /** Copies the codes of a buffer back to front. No code is empty. */
  method ReverseRows(buf: seq<Byte>, size: nat, ghost codes: seq<Code>) returns (dst: seq<Byte>)
    requires buf == Flat(codes) && size == |codes| && (forall c :: c in codes ==> c != [] && 0 !in c)
    ensures dst == Flat(Backward(codes))
  {
    dst := [];
    var next: int := |buf| - 1;
    ghost var back := Backward(codes);
    assert codes[..size] == codes && back[..0] == [];
    for i := 0 to size
      invariant next == |Flat(codes[..size - i])| - 1 && next < |buf|
      invariant buf[..next + 1] == Flat(codes[..size - i])
      invariant dst == Flat(back[..i])
    {
      ghost var k := size - i - 1;
      ghost var code, before := codes[k], Flat(codes[..k]);
      FlatStep(codes, k);
      FlatStep(back, i);
      var copied;
      copied, next := CopyRow(buf, next, before, code);
      dst := dst + copied;
    }
    assert back[..size] == back;
  }

  /** Steps back over one code, ending on the terminator in front of it, and copies it with its own. */
  method CopyRow(buf: seq<Byte>, end: nat, ghost before: seq<Byte>, ghost code: Code)
    returns (copied: seq<Byte>, next: int)
    requires end < |buf| && buf[..end + 1] == before + (code + [0])
    requires code != [] && 0 !in code && (before != [] ==> before[|before| - 1] == 0)
    ensures copied == code + [0] && next == |before| - 1 && next < |buf| && buf[..next + 1] == before
  {
    forall k | 0 <= k < |code| ensures buf[|before| + k] == code[k] != 0 {
      assert buf[..end + 1][|before| + k] == code[k] && code[k] in code;
    }
    assert end == |before| + |code| && buf[end] == buf[..end + 1][end] == 0;
    assert before != [] ==> buf[|before| - 1] == buf[..end + 1][|before| - 1] == 0;
    next := end - 1;
    while next > 0 && buf[next] != 0
      invariant |before| - 1 <= next < end && next >= 0
    {
      assert next >= |before| ==> buf[next] == code[next - |before|];
      next := next - 1;
    }
    assert next >= |before| ==> buf[next] == code[next - |before|] != 0;
    var src := if buf[next] != 0 then next else next + 1;
    assert src == |before|;
    if buf[next] != 0 {
      next := next - 1;
    }
    copied := [];
    while buf[src] != 0
      invariant |before| <= src <= end && copied == code[..src - |before|]
      decreases end - src
    {
      assert buf[src] == code[src - |before|];
      copied := copied + [buf[src]];
      src := src + 1;
    }
    copied := copied + [0];
    assert buf[..next + 1] == buf[..end + 1][..|before|];
  }

  method ReverseMarks(negBuf: seq<bool>) returns (negation: seq<bool>)
    ensures |negation| == |negBuf| && forall k :: 0 <= k < |negBuf| ==> negation[k] == negBuf[|negBuf| - 1 - k]
  {
    negation := [];
    for i := 0 to |negBuf|
      invariant |negation| == i && forall k :: 0 <= k < i ==> negation[k] == negBuf[|negBuf| - 1 - k]
    {
      negation := negation + [negBuf[|negBuf| - 1 - i]];
    }
  }

  // ---------------------------------------------------------------- parts and patterns

  /** One part: its symbols as long as they last, each optimized, then the row turned around. */
  method ParseRegExp(leadLen: int, data: Text, p: nat) returns (r: Option<RegExp>, q: nat)
    requires FitRow(data, p)
    ensures q == RowFrom(data, p).1
    ensures var syms := RowFrom(data, p).0;
            if leadLen == 0 && syms == [] then r.None? else r.Some? && Represents(r.value, Part(leadLen, syms))
  {
    RowCanonical(data, p);
    var sym;
    sym, q := ParseSym(data, p);
    RowStarts(data, p);
    if leadLen == 0 && sym.None? {
      return None, q;
    }
    hide Canon, CanonicalSym, SymAt, RowFrom, FitRow, Plain, Flat, RangesEnd, WellFormed;
    var buf, negBuf, size;
    buf, negBuf, size, q := ReadRow(data, sym, q, p);
    ghost var syms := RowFrom(data, p).0;
    var symbols, negation := TurnRow(buf, negBuf, size, syms);
    var skip := FixSkipTable(symbols, size, BackwardCodes(syms));
    r := Some(RegExp(leadLen, size, symbols, negation, skip, 0, 0, false, false));
  }

  /** The symbols of a row from the first one on, optimized one after the other. */
  method ReadRow(data: Text, first: Option<Sym>, from: nat, ghost p: nat)
    returns (buf: seq<Byte>, negBuf: seq<bool>, size: nat, q: nat)
    requires FitRow(data, p) && SymAt(data, p) == (first, from)
    ensures q == RowFrom(data, p).1
    ensures var syms := RowFrom(data, p).0;
      && buf == Flat(Codes(syms)) && size == |syms| == |negBuf|
      && forall k :: 0 <= k < size ==> negBuf[k] == syms[k].negate
  {
    hide *;
    ghost var row := RowFrom(data, p);
    var sym := first;
    q := from;
    buf, negBuf, size := [], [], 0;
    ghost var syms: seq<Sym>, at := [], p;
    NoCodes();
    while sym.Some?
      invariant FitRow(data, at) && (sym, q) == SymAt(data, at) && row.1 == RowFrom(data, at).1
      invariant row.0 == syms + RowFrom(data, at).0
      invariant buf == Flat(Codes(syms)) && size == |syms| == |negBuf|
      invariant forall k :: 0 <= k < size ==> negBuf[k] == syms[k].negate
      decreases sym.Some?, row.1 - q
    {
      FitStarts(data, at);
      RowStarts(data, at);
      RowStarts(data, q);
      ghost var y := Sym(sym.value.negate, Canon(sym.value.code));
      ghost var rest := RowFrom(data, q).0;
      assert syms + ([y] + rest) == (syms + [y]) + rest;
      buf := AddCode(buf, sym.value.code, syms, y);
      negBuf, size := negBuf + [sym.value.negate], size + 1;
      syms, at := syms + [y], q;
      sym, q := ParseSym(data, q);
    }
    RowStarts(data, at);
    assert row.0 == syms;
  }

  lemma FitStarts(data: Text, p: nat)
    requires FitRow(data, p)
    ensures var (y, q) := SymAt(data, p); y.Some? ==> WellFormed(y.value.code) && FitRow(data, q)
  {
  }

  lemma NoCodes()
    ensures Codes([]) == [] && Flat([]) == []
  {
  }

  /** A row starts with its first symbol, in canonical form. */
  lemma RowStarts(data: Text, p: nat)
    ensures var (y, q) := SymAt(data, p);
      RowFrom(data, p) == if y.None? then ([], q)
        else ([Sym(y.value.negate, Canon(y.value.code))] + RowFrom(data, q).0, RowFrom(data, q).1)
    ensures SymAt(data, p).0.Some? ==> SymAt(data, p).1 > p
    ensures RowFrom(data, p).1 >= SymAt(data, p).1 >= p
  {
  }

  method AddCode(buf: seq<Byte>, code: Code, ghost syms: seq<Sym>, ghost y: Sym) returns (out: seq<Byte>)
    requires WellFormed(code) && buf == Flat(Codes(syms)) && y.code == Canon(code)
    ensures out == Flat(Codes(syms + [y]))
  {
    var optimized := Optimize(code);
    assert Codes(syms + [y]) == Codes(syms) + [y.code];
    FlatSnoc(Codes(syms), y.code);
    out := buf + optimized;
  }

  method TurnRow(buf: seq<Byte>, negBuf: seq<bool>, size: nat, ghost syms: seq<Sym>)
    returns (symbols: seq<Byte>, negation: seq<bool>)
    requires buf == Flat(Codes(syms)) && size == |syms| == |negBuf|
    requires forall k :: 0 <= k < size ==> negBuf[k] == syms[k].negate
    requires forall y :: y in syms ==> CanonicalSym(y) && RangesEnd(y.code)
    ensures symbols == Flat(BackwardCodes(syms)) && negation == BackwardNegation(syms)
    ensures forall code :: code in BackwardCodes(syms) ==> WellFormed(code) && RangesEnd(code)
  {
    hide Canon, Plain, Flat, CanonicalSym, RangesEnd, WellFormed;
    CodesAreFine(syms);
    symbols := ReverseRows(buf, size, Codes(syms));
    negation := ReverseMarks(negBuf);
    assert Backward(Codes(syms)) == BackwardCodes(syms);
  }

  lemma CodesAreFine(syms: seq<Sym>)
    requires forall y :: y in syms ==> CanonicalSym(y) && RangesEnd(y.code)
    ensures forall code :: code in Codes(syms) ==> code != [] && 0 !in code
    ensures forall code :: code in BackwardCodes(syms) ==> WellFormed(code) && RangesEnd(code)
  {
    forall k | 0 <= k < |syms| ensures var code := syms[k].code; code != [] && 0 !in code && WellFormed(code) && RangesEnd(code) {
      assert CanonicalSym(syms[k]);
      PlainFacts(syms[k].code);
      NoZeroInside(syms[k].code);
    }
    forall k | 0 <= k < |syms| ensures BackwardCodes(syms)[k] == syms[|syms| - 1 - k].code {}
  }

  /** Everything but the offsets: the parts, the totals, and the longest part, the last of its size. */
  ghost predicate Assembled(w: WildRegExp, pat: Pattern)
  {
    && pat != [] && ValidPattern(pat) && AllRepresent(w.parts, pat) && w.longest == Longest(pat)
    && w.maxSize == |pat[w.longest].syms|
    && w.hardTotal == Symbols(pat) && w.softTotal == Width(pat) - Symbols(pat) && w.wildcardsNum == Stars(pat)
  }

  datatype Built = Overran | Null | Built(w: WildRegExp)

  ghost predicate BuildsAs(b: Built, o: Outcome)
  {
    match o
    case Overrun => b.Overran?
    case Parts(pat) => if pat == [] then b.Null? else b.Built? && Assembled(b.w, pat)
  }

  /** Wildcards, a row, and then whatever more there is; the parts are put together tail first. */
  method ParseWildRegExp(data: Text, p: nat) returns (b: Built)
    requires ZeroFree(data) && FitFrom(data, p)
    ensures BuildsAs(b, PatternFrom(data, p))
    decreases |data| - p
  {
    if p > |data| {
      return Overran;
    }
    if At(data, p) == 0 {
      return Null;
    }
    var count, q := ParseWild(data, p);
    var r;
    r, q := ParseRegExp(count, data, q);
    if r.None? {
      return Null;
    }
    ghost var part := Part(count, RowFrom(data, Wild(data, p, 0).1).0);
    RowWellFormed(data, Wild(data, p, 0).1);
    assert PatternFrom(data, p) == match PatternFrom(data, q)
                                   case Overrun => Overrun
                                   case Parts(pat) => Parts([part] + pat);
    var rest := ParseWildRegExp(data, q);
    b := Join(r.value, rest, part, PatternFrom(data, q));
  }

  /** The part just read, in front of what the rest of the text gave. */
  method Join(r: RegExp, rest: Built, ghost part: Part, ghost o: Outcome) returns (b: Built)
    requires BuildsAs(rest, o) && Represents(r, part) && ValidPart(part)
    ensures BuildsAs(b, match o case Overrun => Overrun case Parts(pat) => Parts([part] + pat))
  {
    match rest {
      case Overran => b := Overran;
      case Null =>
        assert [part] + [] == [part] && [part][1..] == [];
        b := Built(WildRegExp([r], 0, r.size, r.size,
                              if r.leadLen > 0 then r.leadLen else 0, if r.leadLen < 0 then 1 else 0));
      case Built(w) =>
        b := Built(Prepend(r, w));
        PrependAssembles(r, w, part, o.parts);
    }
  }

  lemma RowWellFormed(data: Text, p: nat)
    requires FitRow(data, p)
    ensures forall y :: y in RowFrom(data, p).0 ==> WellFormed(y.code)
  {
    RowCanonical(data, p);
    forall y | y in RowFrom(data, p).0 ensures WellFormed(y.code) {
      PlainFacts(y.code);
    }
  }

  /** Puts a part in front. It becomes the longest only if it is strictly longer. */
  function Prepend(r: RegExp, w: WildRegExp): WildRegExp {
    WildRegExp([r] + w.parts,
               if w.maxSize < r.size then 0 else w.longest + 1,
               if w.maxSize < r.size then r.size else w.maxSize,
               w.hardTotal + r.size,
               if r.leadLen >= 0 then w.softTotal + r.leadLen else w.softTotal,
               if r.leadLen >= 0 then w.wildcardsNum else w.wildcardsNum + 1)
  }

  lemma PrependAssembles(r: RegExp, w: WildRegExp, part: Part, pat: Pattern)
    requires Assembled(w, pat) && Represents(r, part) && ValidPart(part)
    ensures Assembled(Prepend(r, w), [part] + pat)
  {
    var all := [part] + pat;
    var v := Prepend(r, w);
    assert all[1..] == pat;
    forall i | 0 <= i < |all| ensures ValidPart(all[i]) && Represents(v.parts[i], all[i])
                                      && |all[i].syms| <= v.maxSize {
      if i > 0 {
        assert all[i] == pat[i - 1] && ValidPart(pat[i - 1]) && Represents(w.parts[i - 1], pat[i - 1]);
      }
    }
  }

  lemma {:induction false} WildStops(data: Text, p: nat, count: int)
    requires count >= -1
    ensures At(data, Wild(data, p, count).1) !in IN_ROW
    decreases |data| - p
  {
    if At(data, p) == STAR {
      WildStops(data, p + 1, -1);
    } else if At(data, p) == QUESTION {
      WildStops(data, p + 1, if count >= 0 then count + 1 else count);
    }
  }

  /** Every symbol of a parsed pattern is in canonical form. */
  lemma {:induction false} ParsedIsCanonical(data: Text, p: nat)
    requires FitFrom(data, p) && PatternFrom(data, p).Parts?
    ensures Canonical(PatternFrom(data, p).parts)
    decreases |data| - p
  {
    if p < |data| {
      var (lead, q) := Wild(data, p, 0);
      var (syms, e) := RowFrom(data, q);
      RowCanonical(data, q);
      if lead != 0 || syms != [] {
        ParsedIsCanonical(data, e);
      }
    }
  }
}
