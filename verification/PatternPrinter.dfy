/** flatten_wild_reg_exp (libAfterBase/regexp.c): printing a compiled pattern as text. */
module PatternPrinter {
  import opened Common
  import opened CharClass
  import opened PatternLanguage
  import opened CompiledPattern
  import opened PatternParser
  import opened PatternCompiler

  /** The characters printed with a backslash in front. The backslash itself is not among them. */
  const SPECIAL := [STAR, QUESTION, OPEN, CLOSE, BANG, COMMA, DASH]

  function PlaceSingleChar(c: Byte): Text {
    if c in SPECIAL then [BACKSLASH, c] else [c]
  }

  /** The inside of a class. The part type says what was printed last: 0 single, 1 nothing but a range
      comes first, 2 range. A comma goes between single characters and ranges and between ranges. */
  function PrintCode(code: Code, partType: nat): Text {
    if code == [] then []
    else if code[0] == RANGE && |code| >= 3 then PrintRange(code[1], code[2], partType) + PrintCode(code[3..], 2)
    else PrintSingle(code[0], partType) + PrintCode(code[1..], 0)
  }

  function PrintRange(lo: Byte, hi: Byte, partType: nat): Text {
    (if partType != 1 then [COMMA] else []) + PlaceSingleChar(lo) + [DASH] + PlaceSingleChar(hi)
  }

  function PrintSingle(c: Byte, partType: nat): Text {
    (if partType != 0 then [COMMA] else []) + PlaceSingleChar(c)
  }

  function TypeOf(code: Code): nat {
    if code != [] && code[0] == RANGE then 1 else 0
  }

  function PrintSym(y: Sym): Text {
    var inside := PrintCode(y.code, TypeOf(y.code));
    if |y.code| > 1 || y.negate then [OPEN] + (if y.negate then [BANG] else []) + inside + [CLOSE] else inside
  }

  function PrintRow(syms: seq<Sym>): Text {
    if syms == [] then [] else PrintSym(syms[0]) + PrintRow(syms[1..])
  }

  function PrintLead(lead: int): Text {
    if lead < 0 then [STAR] else seq(lead, _ => QUESTION)
  }

  function Print(pat: Pattern): Text {
    if pat == [] then [] else PrintLead(pat[0].lead) + (PrintRow(pat[0].syms) + Print(pat[1..]))
  }

  // ---------------------------------------------------------------- the printer

  lemma {:induction false} FlatJoin(a: seq<Code>, b: seq<Code>)
    ensures Flat(a + b) == Flat(a) + Flat(b)
  {
    if a == [] {
      assert a + b == b;
    } else {
      assert (a + b)[1..] == a[1..] + b;
      FlatJoin(a[1..], b);
    }
  }

  lemma FlatSplit(codes: seq<Code>, k: nat)
    requires k < |codes|
    ensures Flat(codes) == Flat(codes[..k]) + (codes[k] + [0] + Flat(codes[k + 1..]))
    ensures Flat(codes[..k + 1]) == Flat(codes[..k]) + (codes[k] + [0])
    ensures Flat(codes[..k]) != [] ==> Flat(codes[..k])[|Flat(codes[..k])| - 1] == 0
  {
    assert codes == codes[..k] + codes[k..] && codes[k..][1..] == codes[k + 1..];
    FlatJoin(codes[..k], codes[k..]);
    FlatStep(codes, k);
  }

  /** Prints the symbol whose code starts at `at`. */
  method PrintSymbol(symbols: seq<Byte>, at: nat, negated: bool, ghost code: Code, ghost rest: seq<Byte>)
    returns (text: Text)
    requires WellFormed(code) && code != [] && Reading(symbols, at, code, rest)
    ensures text == PrintSym(Sym(negated, code))
  {
    NoZeroInside(code);
    ReadingOn(symbols, at, code, rest, 1);
    ReadingAt(symbols, at + 1, code[1..], rest);
    hide Reading, WellFormed;
    text := PrintInside(symbols, at, code, rest);
    if symbols[at + 1] != 0 || negated {
      text := [OPEN] + (if negated then [BANG] else []) + text + [CLOSE];
    }
  }

  method PrintInside(symbols: seq<Byte>, at: nat, ghost code: Code, ghost rest: seq<Byte>) returns (text: Text)
    requires WellFormed(code) && code != [] && Reading(symbols, at, code, rest)
    ensures text == PrintCode(code, TypeOf(code))
  {
    hide *;
    NoZeroInside(code);
    ReadingAt(symbols, at, code, rest);
    TypeIs(code);
    text := [];
    var ptr: nat, partType: nat := at, if symbols[at] == RANGE then 1 else 0;
    ghost var left, inside := code, PrintCode(code, partType);
    while symbols[ptr] != 0
      invariant ptr < |symbols| && Reading(symbols, ptr, left, rest) && 0 !in left
      invariant WellFormed(left) && inside == text + PrintCode(left, partType)
      decreases |left|
    {
      ReadingAt(symbols, ptr, left, rest);
      CodeStep(left);
      PrintCodeStep(left, partType);
      if symbols[ptr] == RANGE {
        ReadingOn(symbols, ptr, left, rest, 3);
        text := AppendRange(text, symbols[ptr + 1], symbols[ptr + 2], partType, PrintCode(left[3..], 2));
        ptr, partType, left := ptr + 2, 2, left[3..];
      } else {
        ReadingOn(symbols, ptr, left, rest, 1);
        text := AppendSingle(text, symbols[ptr], partType, PrintCode(left[1..], 0));
        partType, left := 0, left[1..];
      }
      ptr := ptr + 1;
    }
    ReadingAt(symbols, ptr, left, rest);
    PrintCodeStep(left, partType);
  }

  lemma TypeIs(code: Code)
    ensures TypeOf(code) == if code != [] && code[0] == RANGE then 1 else 0
  {
  }

  lemma PrintCodeStep(code: Code, partType: nat)
    ensures code == [] ==> PrintCode(code, partType) == []
    ensures (|code| >= 3 && code[0] == RANGE) ==>
      PrintCode(code, partType) == PrintRange(code[1], code[2], partType) + PrintCode(code[3..], 2)
    ensures (code != [] && code[0] != RANGE) ==>
      PrintCode(code, partType) == PrintSingle(code[0], partType) + PrintCode(code[1..], 0)
  {
  }

  /** Prints one range, then one single character; `rest` is what is still to come. */
  method AppendRange(text: Text, lo: Byte, hi: Byte, partType: nat, ghost rest: Text) returns (out: Text)
    ensures out == text + PrintRange(lo, hi, partType)
    ensures out + rest == text + (PrintRange(lo, hi, partType) + rest)
  {
    out := text;
    if partType != 1 {
      out := out + [COMMA];
    }
    out := out + PlaceSingleChar(lo) + [DASH] + PlaceSingleChar(hi);
    assert out == text + PrintRange(lo, hi, partType);
  }

  method AppendSingle(text: Text, c: Byte, partType: nat, ghost rest: Text) returns (out: Text)
    ensures out == text + PrintSingle(c, partType)
    ensures out + rest == text + (PrintSingle(c, partType) + rest)
  {
    out := text;
    if partType != 0 {
      out := out + [COMMA];
    }
    out := out + PlaceSingleChar(c);
    assert out == text + PrintSingle(c, partType);
  }

  lemma Regroup(a: Text, b: Text, c: Text)
    ensures a + (b + c) == (a + b) + c
  {
  }

  /** The place of the last terminator of a row of non-empty codes. */
  method LastTerminator(symbols: seq<Byte>, size: nat, ghost codes: seq<Code>) returns (tail: int)
    requires symbols == Flat(codes) && size == |codes| && (forall c :: c in codes ==> c != [] && 0 !in c)
    ensures size > 0 ==> tail == |symbols| - 1
  {
    tail := 0;
    assert codes[..size] == codes;
    for i := 0 to size
      invariant if i == 0 then tail == 0 else tail == |Flat(codes[..i])| - 1
    {
      ghost var before, code := Flat(codes[..i]), codes[i];
      FlatSplit(codes, i);
      assert code in codes && |code| > 0;
      ghost var start := |before|;
      forall t | start <= t < start + |code| ensures symbols[t] != 0 {
        assert symbols[t] == code[t - start] && code[t - start] in code;
      }
      assert symbols[start + |code|] == (code + [0] + Flat(codes[i + 1..]))[|code|];
      tail := tail + 1;
      while symbols[tail] != 0
        invariant start <= tail <= start + |code|
        decreases |symbols| - tail
      {
        tail := tail + 1;
      }
    }
  }

  /** Steps back from a terminator to the start of the code it closes. */
  method StepBack(symbols: seq<Byte>, end: nat, ghost before: seq<Byte>, ghost code: Code)
    returns (at: nat, tail: nat)
    requires end < |symbols| && symbols[..end + 1] == before + (code + [0])
    requires code != [] && 0 !in code && (before != [] ==> |before| > 1 && before[|before| - 1] == 0)
    ensures at == |before| && tail == (if before == [] then 0 else |before| - 1)
  {
    forall k | 0 <= k < |code| ensures symbols[|before| + k] == code[k] != 0 {
      assert symbols[..end + 1][|before| + k] == code[k] && code[k] in code;
    }
    assert end == |before| + |code|;
    assert before != [] ==> symbols[|before| - 1] == symbols[..end + 1][|before| - 1] == 0;
    var ptr := end - 1;
    while ptr > 0 && symbols[ptr] != 0
      invariant |before| - 1 <= ptr < end && ptr >= 0
    {
      assert ptr >= |before| ==> symbols[|before| + (ptr - |before|)] != 0;
      ptr := ptr - 1;
    }
    assert ptr >= |before| ==> symbols[|before| + (ptr - |before|)] != 0;
    tail := ptr;
    at := if ptr > 0 then ptr + 1 else ptr;
  }

  ghost predicate PrintableRow(syms: seq<Sym>)
  {
    forall y :: y in syms ==> WellFormed(y.code) && y.code != []
  }

  method PrintPrevious(symbols: seq<Byte>, end: nat, negated: bool, ghost codes: seq<Code>, ghost i: nat)
    returns (one: Text, tail: nat)
    requires symbols == Flat(codes) && i < |codes| && end == |Flat(codes[..i + 1])| - 1
    requires forall c :: c in codes ==> c != [] && 0 !in c && WellFormed(c)
    ensures one == PrintSym(Sym(negated, codes[i]))
    ensures i > 0 ==> tail == |Flat(codes[..i])| - 1
  {
    RowLayout(symbols, codes, i);
    ghost var before, code, rest := Flat(codes[..i]), codes[i], Flat(codes[i + 1..]);
    assert code in codes && Reading(symbols, |before|, code, rest);
    var at;
    at, tail := StepBack(symbols, end, before, code);
    one := PrintSymbol(symbols, at, negated, code, rest);
  }

  lemma BackwardPrintable(syms: seq<Sym>)
    requires PrintableRow(syms)
    ensures forall c :: c in BackwardCodes(syms) ==> c != [] && 0 !in c && WellFormed(c)
  {
    var codes := BackwardCodes(syms);
    forall c | c in codes ensures c != [] && 0 !in c && WellFormed(c) {
      var k :| 0 <= k < |codes| && codes[k] == c;
      assert syms[|syms| - 1 - k] in syms;
      NoZeroInside(c);
    }
  }

  lemma PrintRowStep(syms: seq<Sym>, k: nat, text: Text)
    requires k < |syms|
    ensures text + PrintRow(syms[k..]) == (text + PrintSym(syms[k])) + PrintRow(syms[k + 1..])
  {
    assert syms[k..][1..] == syms[k + 1..];
    Regroup(text, PrintSym(syms[k]), PrintRow(syms[k + 1..]));
  }

  /** Prints one row, walking its codes from the last stored to the first. */
  method FlattenRow(symbols: seq<Byte>, negation: seq<bool>, size: nat, ghost syms: seq<Sym>) returns (text: Text)
    requires PrintableRow(syms) && size == |syms|
    requires symbols == Flat(BackwardCodes(syms)) && negation == BackwardNegation(syms)
    ensures text == PrintRow(syms)
  {
    hide *;
    ghost var codes := BackwardCodes(syms);
    BackwardPrintable(syms);
    var tail := LastTerminator(symbols, size, codes);
    text := [];
    ghost var whole, rest := PrintRow(syms), PrintRow(syms);
    NoRow();
    assert codes[..size] == codes && syms[0..] == syms && syms[size..] == [];
    for i := size downto 0
      invariant i > 0 ==> tail == |Flat(codes[..i])| - 1
      invariant rest == PrintRow(syms[size - i..]) && text + rest == whole
    {
      BackwardAt(syms, i);
      FlatEnds(codes[..i + 1]);
      PrintRowStep(syms, size - i - 1, text);
      rest := PrintRow(syms[size - i..]);
      var one;
      one, tail := PrintPrevious(symbols, tail, negation[i], codes, i);
      text := text + one;
    }
  }

  lemma BackwardAt(syms: seq<Sym>, i: nat)
    requires i < |syms|
    ensures Sym(BackwardNegation(syms)[i], BackwardCodes(syms)[i]) == syms[|syms| - i - 1]
  {
  }

  lemma NoRow()
    ensures PrintRow([]) == []
  {
  }

  lemma RowLayout(symbols: seq<Byte>, codes: seq<Code>, i: nat)
    requires symbols == Flat(codes) && i < |codes| && forall c :: c in codes ==> c != []
    ensures var before := Flat(codes[..i]);
            && |Flat(codes[..i + 1])| <= |symbols|
            && symbols[..|Flat(codes[..i + 1])|] == before + (codes[i] + [0])
            && |before| <= |symbols| && symbols[|before|..] == codes[i] + [0] + Flat(codes[i + 1..])
            && (before != [] ==> |before| > 1 && before[|before| - 1] == 0)
            && (i > 0 ==> before != [])
  {
    FlatSplit(codes, i);
    if i > 0 {
      FlatSplit(codes, i - 1);
      assert codes[i - 1] in codes;
    }
  }

  lemma PrintHead(pat: Pattern, i: nat, before: Text)
    requires i < |pat|
    ensures before + Print(pat[i..]) == ((before + PrintLead(pat[i].lead)) + PrintRow(pat[i].syms)) + Print(pat[i + 1..])
  {
    assert pat[i..][1..] == pat[i + 1..];
    var l, r, t := PrintLead(pat[i].lead), PrintRow(pat[i].syms), Print(pat[i + 1..]);
    Regroup(before, l, r + t);
    Regroup(before + l, r, t);
  }

  method AppendLead(text: Text, lead: int) returns (out: Text)
    ensures out == text + PrintLead(lead)
  {
    out := text;
    if lead < 0 {
      out := out + [STAR];
    } else {
      for k := 0 to lead
        invariant out == text + seq(k, _ => QUESTION)
      {
        out := out + [QUESTION];
      }
    }
  }

  /** Prints the whole pattern. */
  method FlattenWildRegExp(parts: seq<RegExp>, ghost pat: Pattern) returns (text: Text)
    requires AllRepresent(parts, pat) && forall p :: p in pat ==> PrintableRow(p.syms) && ValidPart(p)
    ensures text == Print(pat)
  {
    text := [];
    assert pat[0..] == pat;
    for i := 0 to |parts|
      invariant text + Print(pat[i..]) == Print(pat)
    {
      var curr := parts[i];
      assert Represents(curr, pat[i]) && pat[i] in pat;
      PrintHead(pat, i, text);
      text := AppendLead(text, curr.leadLen);
      var row := FlattenRow(curr.symbols, curr.negation, curr.size, pat[i].syms);
      text := text + row;
    }
    assert pat[|parts|..] == [];
  }

  /** Parses, prints and places a pattern. What the parser accepts comes out fit for the matcher. */
  method CompileWildRegExp(data: Text) returns (b: Built, raw: Text)
    requires Compilable(data)
    ensures match PatternFrom(data, 0)
            case Overrun => b.Overran?
            case Parts(pat) => if pat == [] then b.Null? else b.Built? && Compiled(b.w, pat) && raw == Print(pat)
  {
    raw := [];
    b := ParseWildRegExp(data, 0);
    if b.Built? {
      ghost var pat := PatternFrom(data, 0).parts;
      ParsedIsCanonical(data, 0);
      forall p | p in pat ensures PrintableRow(p.syms) && ValidPart(p) {
        forall y | y in p.syms ensures WellFormed(y.code) && y.code != [] {
          PlainFacts(y.code);
        }
      }
      raw := FlattenWildRegExp(b.w.parts, pat);
      var parts := MakeOffsets(b.w.parts, pat);
      b := Built(b.w.(parts := parts));
    }
  }
}
