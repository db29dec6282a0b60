/** A count over the text of a pattern (libAfterBase/regexp.c) that the parser draws on and the printer fills: the
    opening brackets, or the pairs of backslashes. The parser takes a bracket for every class and every bracket it
    yields, and a pair of backslashes for every backslash it yields; the printer provides no more than that. */
module PatternCounting {
  import opened Common
  import opened CharClass
  import opened PatternLanguage
  import opened CompiledPattern
  import opened PatternParser
  import opened PatternCompiler
  import opened PatternPrinter
  import opened PatternRoundTrip

  predicate Counted(c: Byte) { c == OPEN || c == BACKSLASH }

  /** From p on: how many opening brackets there are, or how many pairs of backslashes, none in two pairs. */
  function Stock(data: Text, p: nat, c: Byte): nat
    decreases |data| - p
  {
    if p >= |data| then 0
    else if c == BACKSLASH then
      if data[p] == BACKSLASH && At(data, p + 1) == BACKSLASH then 1 + Stock(data, p + 2, c) else Stock(data, p + 1, c)
    else (if data[p] == c then 1 else 0) + Stock(data, p + 1, c)
  }

  /** How often c is written in a code. */
  function Occurs(code: Code, c: Byte): nat {
    if code == [] then 0 else (if code[0] == c then 1 else 0) + Occurs(code[1..], c)
  }

  function IsClass(y: Sym): bool { |y.code| > 1 || y.negate }

  function Needs(y: Sym, c: Byte): nat {
    Occurs(y.code, c) + if c == OPEN && IsClass(y) then 1 else 0
  }

  function RowNeeds(syms: seq<Sym>, c: Byte): nat {
    if syms == [] then 0 else Needs(syms[0], c) + RowNeeds(syms[1..], c)
  }

  function AllNeed(pat: Pattern, c: Byte): nat {
    if pat == [] then 0 else RowNeeds(pat[0].syms, c) + AllNeed(pat[1..], c)
  }

  lemma {:induction false} OccursSum(a: Code, b: Code, c: Byte)
    ensures Occurs(a + b, c) == Occurs(a, c) + Occurs(b, c)
  {
    if a == [] {
      assert a + b == b;
    } else {
      assert (a + b)[1..] == a[1..] + b;
      OccursSum(a[1..], b, c);
    }
  }

  lemma {:induction false} OccursIn(code: Code, c: Byte)
    ensures Occurs(code, c) > 0 <==> c in code
  {
    if code != [] {
      OccursIn(code[1..], c);
      assert code == [code[0]] + code[1..];
    }
  }

  lemma {:induction false} StockStep(data: Text, p: nat, c: Byte)
    ensures Stock(data, p + 1, c) <= Stock(data, p, c) <= Stock(data, p + 1, c) + 1
    ensures At(data, p) == BACKSLASH == At(data, p + 1) ==> Stock(data, p, BACKSLASH) == 1 + Stock(data, p + 2, BACKSLASH)
    ensures At(data, p) != BACKSLASH || At(data, p + 1) != BACKSLASH ==>
      Stock(data, p, BACKSLASH) == Stock(data, p + 1, BACKSLASH)
    ensures Stock(data, p, OPEN) == Stock(data, p + 1, OPEN) + if At(data, p) == OPEN then 1 else 0
    decreases |data| - p
  {
    if p < |data| {
      StockStep(data, p + 1, c);
    }
  }

  lemma {:induction false} StockFalls(data: Text, p: nat, q: nat, c: Byte)
    requires p <= q
    ensures Stock(data, q, c) <= Stock(data, p, c)
    decreases q - p
  {
    if p < q {
      StockStep(data, p, c);
      StockFalls(data, p + 1, q, c);
    }
  }

  // ---------------------------------------------------------------- canonical codes

  /** The bytes of a code go up, leaving the range marks aside. */
  ghost predicate Rising(code: Code, from: int)
  {
    code == [] ||
    if code[0] == RANGE then |code| >= 3 && from <= code[1] < code[2] && Rising(code[3..], code[2] as int + 1)
    else from <= code[0] && Rising(code[1..], code[0] as int + 1)
  }

  lemma {:induction false} RunsRise(runs: seq<Run>, from: int)
    requires Ascending(runs, from) && from >= 2
    ensures Rising(EmitAll(runs), from)
  {
    if runs != [] {
      var r, rest := runs[0], EmitAll(runs[1..]);
      RunsRise(runs[1..], r.hi + 2);
      RiseLater(rest, r.hi + 2, r.hi + 1);
      var code := EmitAll(runs);
      if r.lo == r.hi {
        assert code[1..] == rest;
      } else if r.lo + 1 == r.hi {
        assert code[1..] == [r.hi] + rest && code[1..][1..] == rest;
      } else {
        assert code[3..] == rest;
      }
    }
  }

  lemma RiseLater(code: Code, from: int, earlier: int)
    requires Rising(code, from) && earlier <= from
    ensures Rising(code, earlier)
  {
  }

  lemma {:induction false} OccursOnce(code: Code, from: int, c: Byte)
    requires Rising(code, from) && c >= 2
    ensures Occurs(code, c) <= if c < from then 0 else 1
  {
    if code != [] {
      if code[0] == RANGE {
        OccursOnce(code[3..], code[2] as int + 1, c);
        assert code == [code[0], code[1], code[2]] + code[3..];
        OccursSum([code[0], code[1], code[2]], code[3..], c);
        OccursThree(code[0], code[1], code[2], c);
      } else {
        OccursOnce(code[1..], code[0] as int + 1, c);
      }
    }
  }

  lemma OccursThree(x: Byte, y: Byte, z: Byte, c: Byte)
    ensures Occurs([x, y, z], c) == (if x == c then 1 else 0) + (if y == c then 1 else 0) + (if z == c then 1 else 0)
  {
    assert [x, y, z][1..] == [y, z] && [y, z][1..] == [z] && [z][1..] == [];
    assert Occurs([z], c) == if z == c then 1 else 0;
    assert Occurs([y, z], c) == (if y == c then 1 else 0) + Occurs([z], c);
  }

  /** Where members begin or end, a code has that character written out. */
  lemma {:induction false} EdgeIsWritten(code: Code, c: Byte, next: Byte)
    requires Denotes(code, c) && !Denotes(code, next) && (next == c + 1 || next == c - 1)
    ensures c in code
  {
    if code[0] == RANGE && |code| >= 3 {
      if Denotes(code[3..], c) {
        EdgeIsWritten(code[3..], c, next);
        assert code == code[..3] + code[3..];
      }
    } else if code[0] != c {
      EdgeIsWritten(code[1..], c, next);
      assert code == code[..1] + code[1..];
    }
  }

  /** What is written in ascending runs is the first or the last of a run, with a gap next to it. */
  lemma {:induction false} WrittenIsEdge(runs: seq<Run>, from: int, c: Byte)
    requires Ascending(runs, from) && from >= 2 && c >= 2 && c in EmitAll(runs)
    ensures from <= c && InRuns(runs, c) && (!InRunsAt(runs, c - 1) || !InRunsAt(runs, c + 1))
  {
    var r, rest := runs[0], runs[1..];
    assert r in runs;
    if c in Emit(r) {
      var x := if c == r.lo then c - 1 else c + 1;
      if InRunsAt(runs, x) {
        var z :| z in runs && z.lo <= x <= z.hi;
        assert z != r;
        AscendingBound(rest, r.hi + 2, z);
        assert false;
      }
    } else {
      WrittenIsEdge(rest, r.hi + 2, c);
      forall x | x == c - 1 || x == c + 1 ensures InRunsAt(runs, x) ==> InRunsAt(rest, x) {}
    }
  }

  ghost predicate InRunsAt(runs: seq<Run>, x: int)
  {
    exists r :: r in runs && r.lo <= x <= r.hi
  }

  lemma CanonWritesNoMore(code: Code, c: Byte)
    requires 3 <= c <= 253
    ensures Occurs(Canon(code), c) <= Occurs(code, c)
  {
    var runs := Runs(Marks(code), 2);
    RunsAscend(Marks(code), 2, 2);
    RunsRise(runs, 2);
    OccursOnce(Canon(code), 2, c);
    OccursIn(Canon(code), c);
    OccursIn(code, c);
    if c in Canon(code) {
      WrittenIsEdge(runs, 2, c);
      RunsCover(Marks(code), 2, c);
      if !InRunsAt(runs, c - 1) {
        RunsCover(Marks(code), 2, c - 1);
        EdgeIsWritten(code, c, c - 1);
      } else {
        RunsCover(Marks(code), 2, c + 1);
        EdgeIsWritten(code, c, c + 1);
      }
    }
  }

  lemma CanonicalRises(code: Code)
    requires Canon(code) == code
    ensures Rising(code, 2)
  {
    RunsAscend(Marks(code), 2, 2);
    RunsRise(Runs(Marks(code), 2), 2);
  }

  // ---------------------------------------------------------------- what reading takes

  lemma CharTakes(data: Text, p: nat, reserved: seq<Byte>, c: Byte)
    requires Counted(c)
    ensures var r := SingleChar(data, p, reserved);
      Stock(data, r.1, c) + (if r.0 == c then 1 else 0) <= Stock(data, p, c)
  {
    StockStep(data, p, c);
    StockStep(data, p + 1, c);
  }

  lemma {:induction false} EnumTakes(data: Text, p: nat, acc: Code, c: Byte)
    requires Counted(c)
    ensures var r := Enumeration(data, p, acc); Stock(data, r.1, c) + Occurs(r.0, c) <= Stock(data, p, c) + Occurs(acc, c)
    decreases |data| - p
  {
    var (x, q) := SingleChar(data, p, IN_CLASS);
    CharTakes(data, p, IN_CLASS, c);
    if x != 0 {
      OccursSum(acc, [x], c);
      assert [x][1..] == [] && Occurs([x], c) == if x == c then 1 else 0;
      EnumTakes(data, q, acc + [x], c);
    }
  }

  lemma PieceTakes(data: Text, p: nat, c: Byte)
    requires Counted(c)
    ensures var r := MultiPart(data, p);
      Stock(data, r.1, c) + (if r.0.Some? then Occurs(r.0.value, c) else 0) <= Stock(data, p, c)
  {
    var (x, q) := SingleChar(data, p, IN_CLASS);
    CharTakes(data, p, IN_CLASS, c);
    StockStep(data, q, c);
    CharTakes(data, q + 1, IN_CLASS, c);
    OccursThree(RANGE, x, SingleChar(data, q + 1, IN_CLASS).0, c);
    assert [x][1..] == [] && Occurs([x], c) == if x == c then 1 else 0;
    EnumTakes(data, q, [x], c);
  }

  lemma {:induction false} BodyTakes(data: Text, p: nat, acc: Code, c: Byte)
    requires Counted(c)
    ensures var r := ClassBody(data, p, acc); Stock(data, r.1, c) + Occurs(r.0, c) <= Stock(data, p, c) + Occurs(acc, c)
    decreases |data| - p
  {
    hide MultiPart, Stock, Occurs;
    var (part, q) := MultiPart(data, p);
    PieceTakes(data, p, c);
    if part.Some? {
      OccursSum(acc, part.value, c);
      StockStep(data, q, c);
      var next := if At(data, q) == COMMA then q + 1 else q;
      if At(data, next) != CLOSE {
        BodyTakes(data, next, acc + part.value, c);
      }
    }
  }

  /** A symbol in the form the compiler gives it. */
  ghost function Compact(y: Sym): Sym { Sym(y.negate, Canon(y.code)) }

  lemma ClassTakes(data: Text, p: nat, c: Byte)
    requires Counted(c) && At(data, p) == OPEN
    ensures var (y, q) := SymAt(data, p);
      Stock(data, q, c) + (if c == OPEN then 1 else 0) + (if y.Some? then Occurs(y.value.code, c) else 0) <= Stock(data, p, c)
  {
    hide ClassBody, Stock;
    StockStep(data, p, c);
    StockStep(data, p + 1, c);
    var start := if At(data, p + 1) == BANG then p + 2 else p + 1;
    BodyTakes(data, start, [], c);
    StockStep(data, ClassBody(data, start, []).1, c);
  }

  lemma LoneTakes(data: Text, p: nat, c: Byte)
    requires Counted(c) && At(data, p) != OPEN
    ensures var (y, q) := SymAt(data, p);
      && Stock(data, q, c) + (if y.Some? then Occurs(y.value.code, c) else 0) <= Stock(data, p, c)
      && (y.Some? ==> y.value == Sym(false, [y.value.code[0]]))
  {
    hide Stock;
    CharTakes(data, p, IN_ROW, c);
    var x := SingleChar(data, p, IN_ROW).0;
    assert [x][1..] == [] && Occurs([x], c) == if x == c then 1 else 0;
  }

  lemma SymTakes(data: Text, p: nat, c: Byte)
    requires Counted(c)
    ensures var (y, q) := SymAt(data, p);
      && Stock(data, q, c) + (if y.Some? then Needs(Compact(y.value), c) else 0) <= Stock(data, p, c)
      && (c == OPEN && At(data, p) == OPEN ==>
            Stock(data, q, c) + 1 + (if y.Some? then Occurs(Canon(y.value.code), c) else 0) <= Stock(data, p, c))
  {
    hide *;
    var (y, q) := SymAt(data, p);
    if y.Some? {
      CountedIs(c);
      CanonWritesNoMore(y.value.code, c);
      NeedsIs(Compact(y.value), c);
      CompactIs(y.value);
    }
    if At(data, p) == OPEN {
      ClassTakes(data, p, c);
    } else {
      LoneTakes(data, p, c);
      if y.Some? {
        if 2 <= y.value.code[0] <= 254 {
          CanonOfOne(y.value.code[0]);
        } else {
          CanonOfOther(y.value.code[0]);
          OccursNone(c);
        }
      }
    }
  }

  lemma CountedIs(c: Byte)
    requires Counted(c)
    ensures 3 <= c <= 253
  {
  }

  lemma CompactIs(y: Sym)
    ensures Compact(y).code == Canon(y.code) && Compact(y).negate == y.negate
  {
  }

  lemma NeedsIs(y: Sym, c: Byte)
    ensures Needs(y, c) <= Occurs(y.code, c) + if c == OPEN then 1 else 0
    ensures |y.code| <= 1 && !y.negate ==> Needs(y, c) == Occurs(y.code, c)
  {
  }

  lemma OccursNone(c: Byte)
    ensures Occurs([], c) == 0
  {
  }

  lemma {:induction false} RowTakes(data: Text, p: nat, c: Byte)
    requires Counted(c)
    ensures var r := RowFrom(data, p); Stock(data, r.1, c) + RowNeeds(r.0, c) <= Stock(data, p, c)
    decreases |data| - p
  {
    hide Canon, SymAt, Stock, Needs;
    var (y, q) := SymAt(data, p);
    SymTakes(data, p, c);
    if y.Some? {
      RowTakes(data, q, c);
      RowStarts(data, p);
      assert RowFrom(data, p).0[1..] == RowFrom(data, q).0;
    }
  }

  lemma {:induction false} PatternTakes(data: Text, p: nat, c: Byte)
    requires Counted(c) && PatternFrom(data, p).Parts?
    ensures AllNeed(PatternFrom(data, p).parts, c) <= Stock(data, p, c)
    decreases |data| - p
  {
    hide Stock, RowNeeds, RowFrom, Wild;
    if p < |data| {
      var (lead, q) := Wild(data, p, 0);
      var (syms, e) := RowFrom(data, q);
      StockFalls(data, p, q, c);
      RowTakes(data, q, c);
      if lead != 0 || syms != [] {
        PatternTakes(data, e, c);
        assert PatternFrom(data, p).parts[1..] == PatternFrom(data, e).parts;
      }
    }
  }

  // ---------------------------------------------------------------- what printing provides

  lemma BytePrinted(data: Text, p: nat, b: Byte, t: Text, c: Byte)
    requires Counted(c) && Rest(data, p, [b] + t) && b != BACKSLASH && b != c
    ensures Stock(data, p, c) == Stock(data, p + 1, c) && Rest(data, p + 1, t)
  {
    RestHead(data, p, b, t);
    StockStep(data, p, c);
  }

  /** A printed character provides for itself; a backslash may not even do that. */
  lemma CharPrinted(data: Text, p: nat, x: Byte, t: Text, c: Byte)
    requires Counted(c) && Rest(data, p, PlaceSingleChar(x) + t) && x >= 2
    ensures var q := p + |PlaceSingleChar(x)|;
      && Rest(data, q, t) && Stock(data, p, c) <= Stock(data, q, c) + (if x == c then 1 else 0)
      && (c == BACKSLASH && !(x == BACKSLASH && t != [] && t[0] == BACKSLASH) ==> Stock(data, p, c) == Stock(data, q, c))
  {
    hide Stock;
    RestCut(data, p, PlaceSingleChar(x), t);
    if x in SPECIAL {
      assert PlaceSingleChar(x) + t == [BACKSLASH] + ([x] + t);
      RestHead(data, p, BACKSLASH, [x] + t);
      RestHead(data, p + 1, x, t);
      StockStep(data, p, c);
      StockStep(data, p + 1, c);
    } else {
      RestHead(data, p, x, t);
      StockStep(data, p, c);
      assert t != [] ==> data[p + 1] == data[p + 1..][0];
    }
  }

  lemma CommaPrinted(data: Text, p: nat, comma: bool, t: Text, c: Byte) returns (q: nat)
    requires Counted(c) && Rest(data, p, (if comma then [COMMA] else []) + t)
    ensures q == p + (if comma then 1 else 0) && Rest(data, q, t) && Stock(data, p, c) == Stock(data, q, c)
  {
    q := p;
    if comma {
      BytePrinted(data, p, COMMA, t, c);
      q := p + 1;
    } else {
      assert [] + t == t;
    }
  }

  lemma SingleSplits(x: Byte, partType: nat, t: Text)
    ensures PrintSingle(x, partType) + t == (if partType != 0 then [COMMA] else []) + (PlaceSingleChar(x) + t)
  {
  }

  lemma RangeSplits(lo: Byte, hi: Byte, partType: nat, t: Text)
    ensures PrintRange(lo, hi, partType) + t
      == (if partType != 1 then [COMMA] else []) + (PlaceSingleChar(lo) + ([DASH] + (PlaceSingleChar(hi) + t)))
  {
  }

  /** Where nothing follows a backslash that would make it a pair, nothing is provided for it. */
  ghost predicate Apart(x: Byte, t: Text)
  {
    !(x == BACKSLASH && t != [] && t[0] == BACKSLASH)
  }

  lemma SinglePrinted(data: Text, p: nat, x: Byte, partType: nat, t: Text, c: Byte)
    requires Counted(c) && Rest(data, p, PrintSingle(x, partType) + t) && x >= 2
    ensures var q := p + |PrintSingle(x, partType)|;
      && Rest(data, q, t) && Stock(data, p, c) <= Stock(data, q, c) + (if x == c then 1 else 0)
      && (c == BACKSLASH && Apart(x, t) ==> Stock(data, p, c) == Stock(data, q, c))
  {
    hide Stock, PlaceSingleChar, Rest;
    SingleSplits(x, partType, t);
    var q := CommaPrinted(data, p, partType != 0, PlaceSingleChar(x) + t, c);
    CharPrinted(data, q, x, t, c);
  }

  lemma RangePrinted(data: Text, p: nat, lo: Byte, hi: Byte, partType: nat, t: Text, c: Byte)
    requires Counted(c) && Rest(data, p, PrintRange(lo, hi, partType) + t) && lo >= 2 && hi >= 2
    ensures var q := p + |PrintRange(lo, hi, partType)|;
      && Rest(data, q, t)
      && Stock(data, p, c) <= Stock(data, q, c) + (if lo == c then 1 else 0) + (if hi == c then 1 else 0)
      && (c == BACKSLASH && Apart(hi, t) ==> Stock(data, p, c) == Stock(data, q, c))
  {
    hide Stock, PlaceSingleChar, Rest;
    RangeSplits(lo, hi, partType, t);
    var afterLo := [DASH] + (PlaceSingleChar(hi) + t);
    var q := CommaPrinted(data, p, partType != 1, PlaceSingleChar(lo) + afterLo, c);
    CharPrinted(data, q, lo, afterLo, c);
    var d := q + |PlaceSingleChar(lo)|;
    BytePrinted(data, d, DASH, PlaceSingleChar(hi) + t, c);
    CharPrinted(data, d + 1, hi, t, c);
  }

  lemma {:induction false} CodePrinted(data: Text, p: nat, code: Code, partType: nat, t: Text, c: Byte)
    requires Counted(c) && Plain(code) && Rest(data, p, PrintCode(code, partType) + t)
    ensures var q := p + |PrintCode(code, partType)|;
      Rest(data, q, t) && Stock(data, p, c) <= Stock(data, q, c) + Occurs(code, c)
    decreases |code|
  {
    hide Stock, Rest, PrintSingle, PrintRange;
    if code == [] {
      assert [] + t == t;
    } else if code[0] == RANGE {
      var piece, rest := PrintRange(code[1], code[2], partType), PrintCode(code[3..], 2);
      Regroup(piece, rest, t);
      RangePrinted(data, p, code[1], code[2], partType, rest + t, c);
      CodePrinted(data, p + |piece|, code[3..], 2, t, c);
      assert code == [code[0], code[1], code[2]] + code[3..];
      OccursSum([code[0], code[1], code[2]], code[3..], c);
      OccursThree(code[0], code[1], code[2], c);
    } else {
      var piece, rest := PrintSingle(code[0], partType), PrintCode(code[1..], 0);
      Regroup(piece, rest, t);
      SinglePrinted(data, p, code[0], partType, rest + t, c);
      CodePrinted(data, p + |piece|, code[1..], 0, t, c);
    }
  }

  lemma ClassSplits(y: Sym, t: Text)
    requires IsClass(y)
    ensures PrintSym(y) + t == [OPEN] + (Bang(y) + (PrintCode(y.code, TypeOf(y.code)) + ([CLOSE] + t)))
    ensures |PrintSym(y)| == |Bang(y)| + |PrintCode(y.code, TypeOf(y.code))| + 2
  {
    hide PrintCode;
  }

  lemma BangPrinted(data: Text, p: nat, y: Sym, t: Text, c: Byte)
    requires Counted(c) && Rest(data, p, Bang(y) + t)
    ensures Rest(data, p + |Bang(y)|, t) && Stock(data, p, c) == Stock(data, p + |Bang(y)|, c)
  {
    if y.negate {
      BytePrinted(data, p, BANG, t, c);
    } else {
      assert [] + t == t;
    }
  }

  lemma SymPrinted(data: Text, p: nat, y: Sym, t: Text, c: Byte)
    requires Counted(c) && CanonicalSym(y) && Rest(data, p, PrintSym(y) + t)
    ensures var q := p + |PrintSym(y)|; Rest(data, q, t) && Stock(data, p, c) <= Stock(data, q, c) + Needs(y, c)
  {
    hide Stock, Rest, PrintCode, PrintSym;
    if IsClass(y) {
      var inside := PrintCode(y.code, TypeOf(y.code));
      ClassSplits(y, t);
      RestHead(data, p, OPEN, Bang(y) + (inside + ([CLOSE] + t)));
      StockStep(data, p, c);
      BangPrinted(data, p + 1, y, inside + ([CLOSE] + t), c);
      var at := p + 1 + |Bang(y)|;
      CodePrinted(data, at, y.code, TypeOf(y.code), [CLOSE] + t, c);
      BytePrinted(data, at + |inside|, CLOSE, t, c);
    } else {
      LoneSym(y);
      CharPrinted(data, p, y.code[0], t, c);
      assert y.code == [y.code[0]] && y.code[1..] == [];
    }
  }

  lemma {:induction false} RowPrinted(data: Text, p: nat, syms: seq<Sym>, t: Text, c: Byte)
    requires Counted(c) && (forall y :: y in syms ==> CanonicalSym(y)) && Rest(data, p, PrintRow(syms) + t)
    ensures var q := p + |PrintRow(syms)|; Rest(data, q, t) && Stock(data, p, c) <= Stock(data, q, c) + RowNeeds(syms, c)
    decreases |syms|
  {
    hide Stock, Rest, PrintSym, CanonicalSym, Needs;
    if syms == [] {
      assert [] + t == t;
    } else {
      var y, rest := syms[0], PrintRow(syms[1..]);
      Regroup(PrintSym(y), rest, t);
      SymPrinted(data, p, y, rest + t, c);
      RowPrinted(data, p + |PrintSym(y)|, syms[1..], t, c);
    }
  }

  lemma {:induction false} LeadPrinted(data: Text, p: nat, n: nat, t: Text, c: Byte)
    requires Counted(c) && Rest(data, p, seq(n, _ => QUESTION) + t)
    ensures Rest(data, p + n, t) && Stock(data, p, c) == Stock(data, p + n, c)
    decreases n
  {
    hide Stock;
    if n == 0 {
      assert seq(0, _ => QUESTION) + t == t;
    } else {
      assert seq(n, _ => QUESTION) + t == [QUESTION] + (seq(n - 1, _ => QUESTION) + t);
      BytePrinted(data, p, QUESTION, seq(n - 1, _ => QUESTION) + t, c);
      LeadPrinted(data, p + 1, n - 1, t, c);
    }
  }

  lemma CanonicalTail(pat: Pattern)
    requires Canonical(pat) && pat != []
    ensures CanonicalPart(pat[0]) && Canonical(pat[1..]) && pat[0].lead >= -1
    ensures forall y :: y in pat[0].syms ==> CanonicalSym(y)
  {
    assert CanonicalPart(pat[0]);
    forall i | 0 <= i < |pat[1..]| ensures CanonicalPart(pat[1..][i]) {
      assert pat[1..][i] == pat[i + 1];
    }
  }

  lemma {:induction false} PatternPrinted(data: Text, p: nat, pat: Pattern, c: Byte)
    requires Counted(c) && Canonical(pat) && Rest(data, p, Print(pat))
    ensures Stock(data, p, c) <= AllNeed(pat, c)
    decreases |pat|
  {
    hide Rest, Canonical, CanonicalPart, CanonicalSym, PrintRow, RowNeeds, Stock;
    if pat == [] {
      EndReached(data, p, c);
    } else {
      var lead, row, tail := pat[0].lead, PrintRow(pat[0].syms), Print(pat[1..]);
      CanonicalTail(pat);
      if lead < 0 {
        BytePrinted(data, p, STAR, row + tail, c);
      } else {
        LeadPrinted(data, p, lead, row + tail, c);
      }
      var q := p + |PrintLead(lead)|;
      RowPrinted(data, q, pat[0].syms, tail, c);
      PatternPrinted(data, q + |row|, pat[1..], c);
    }
  }

  lemma EndReached(data: Text, p: nat, c: Byte)
    requires Rest(data, p, [])
    ensures p == |data| && Stock(data, p, c) == 0
  {
  }

  /** From a symbol of a row on, the text provides what is needed and no more. */
  lemma RestPrinted(data: Text, p: nat, syms: seq<Sym>, tail: Pattern, c: Byte)
    requires Counted(c) && (forall y :: y in syms ==> CanonicalSym(y)) && Canonical(tail)
    requires Rest(data, p, PrintRow(syms) + Print(tail))
    ensures Stock(data, p, c) <= RowNeeds(syms, c) + AllNeed(tail, c)
  {
    hide *;
    RowPrinted(data, p, syms, Print(tail), c);
    PatternPrinted(data, p + |PrintRow(syms)|, tail, c);
  }
}
