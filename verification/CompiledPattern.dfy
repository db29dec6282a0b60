/** The compiled form of a pattern (libAfterBase/regexp.c): symbol rows stored back to front,
    skip tables, and the offsets that tell the matcher how much room each side needs. */
module CompiledPattern {
  import opened Common
  import opened CharClass
  import opened PatternLanguage

  datatype RegExp = RegExp(
    leadLen: int, size: nat, symbols: seq<Byte>, negation: seq<bool>, skip: seq<nat>,
    leftOffset: int, rightOffset: int, leftFixed: bool, rightFixed: bool)

  datatype WildRegExp = WildRegExp(
    parts: seq<RegExp>, longest: nat, maxSize: nat, hardTotal: nat, softTotal: nat, wildcardsNum: nat)

  /** Codes laid out one after the other, each closed by a zero. */
  function Flat(codes: seq<Code>): seq<Byte> {
    if codes == [] then [] else codes[0] + [0] + Flat(codes[1..])
  }

  /** The codes of a row, last symbol first, as the matcher scans them. */
  function BackwardCodes(syms: seq<Sym>): (codes: seq<Code>)
    ensures |codes| == |syms|
  {
    seq(|syms|, k requires 0 <= k < |syms| => syms[|syms| - 1 - k].code)
  }

  function BackwardNegation(syms: seq<Sym>): (neg: seq<bool>)
    ensures |neg| == |syms|
  {
    seq(|syms|, k requires 0 <= k < |syms| => syms[|syms| - 1 - k].negate)
  }

  /** The entry of the skip table for c: the last of the first n codes that has c, or the row size. */
  ghost function SkipFor(codes: seq<Code>, n: nat, c: Byte): (r: nat)
    requires n <= |codes|
    ensures r < n || r == |codes|
  {
    if n == 0 then |codes| else if Has(codes[n - 1], c) then n - 1 else SkipFor(codes, n - 1, c)
  }

  ghost predicate IsSkipTable(skip: seq<nat>, codes: seq<Code>)
  {
    |skip| == 256 && forall c: Byte :: skip[c] == SkipFor(codes, |codes|, c)
  }

  ghost predicate RowOf(r: RegExp, p: Part)
  {
    && r.size == |p.syms|
    && r.symbols == Flat(BackwardCodes(p.syms))
    && r.negation == BackwardNegation(p.syms)
    && IsSkipTable(r.skip, BackwardCodes(p.syms))
  }

  ghost predicate Represents(r: RegExp, p: Part)
  {
    r.leadLen == p.lead && RowOf(r, p)
  }

  ghost predicate OffsetsOf(r: RegExp, pat: Pattern, i: nat)
    requires i < |pat|
  {
    && LeftOf(r, pat, i)
    && r.rightOffset == Width(pat[i + 1..])
    && r.rightFixed == (Stars(pat[i + 1..]) == 0)
  }

  ghost predicate LeftOf(r: RegExp, pat: Pattern, i: nat)
    requires i < |pat|
  {
    r.leftOffset == Width(pat[..i]) + Lead0(pat[i]) && r.leftFixed == (Stars(pat[..i + 1]) == 0)
  }

  ghost predicate IsLongest(pat: Pattern, l: nat)
  {
    l < |pat| && forall i :: 0 <= i < |pat| ==> |pat[i].syms| <= |pat[l].syms|
  }

  /** The longest part, the last one if there are several of that size. */
  ghost function Longest(pat: Pattern): (l: nat)
    requires pat != []
    ensures IsLongest(pat, l) && forall i :: l < i < |pat| ==> |pat[i].syms| < |pat[l].syms|
  {
    if |pat| == 1 then 0
    else
      var r := Longest(pat[1..]);
      assert forall i :: 1 <= i < |pat| ==> pat[i] == pat[1..][i - 1];
      if |pat[0].syms| > |pat[1..][r].syms| then 0 else r + 1
  }

  ghost predicate Compiled(w: WildRegExp, pat: Pattern)
  {
    && pat != [] && ValidPattern(pat) && AllRepresent(w.parts, pat)
    && (forall i :: 0 <= i < |pat| ==> OffsetsOf(w.parts[i], pat, i))
    && w.longest == Longest(pat)
    && w.hardTotal + w.softTotal == Width(pat)
  }

  // ---------------------------------------------------------------- skip tables

  /** Fills the skip table. Later rows overwrite earlier ones. No range may reach 255: the source
      counts it up in an unsigned char and would never leave it. */
  method FixSkipTable(symbols: seq<Byte>, size: nat, ghost codes: seq<Code>) returns (skip: seq<nat>)
    requires symbols == Flat(codes) && size == |codes|
    requires forall code :: code in codes ==> WellFormed(code) && RangesEnd(code)
    ensures IsSkipTable(skip, codes)
  {
    skip := seq(256, _ => size);
    var ptr: nat := 0;
    for i := 0 to size
      invariant ptr <= |symbols| && symbols[ptr..] == Flat(codes[i..])
      invariant |skip| == 256 && forall c: Byte :: skip[c] == SkipFor(codes, i, c)
    {
      assert codes[i..][1..] == codes[i + 1..] && codes[i] in codes;
      assert Reading(symbols, ptr, codes[i], Flat(codes[i + 1..]));
      skip, ptr := MarkSymbol(skip, symbols, ptr, i, codes[i], Flat(codes[i + 1..]));
    }
  }

  /** From `at` on: what is left of the code being read, its terminator, and the codes behind it. */
  ghost predicate Reading(symbols: seq<Byte>, at: nat, left: Code, rest: seq<Byte>)
  {
    at <= |symbols| && symbols[at..] == left + [0] + rest
  }

  lemma ReadingOn(symbols: seq<Byte>, at: nat, left: Code, rest: seq<Byte>, k: nat)
    requires Reading(symbols, at, left, rest) && k <= |left|
    ensures Reading(symbols, at + k, left[k..], rest) && at + k < |symbols|
  {
    assert |symbols| == at + |left| + 1 + |rest|;
    assert symbols[at + k..] == symbols[at..][k..];
    assert (left + [0] + rest)[k..] == left[k..] + [0] + rest;
  }

  lemma ReadingAt(symbols: seq<Byte>, at: nat, left: Code, rest: seq<Byte>)
    requires Reading(symbols, at, left, rest) && 0 !in left
    ensures at < |symbols| && (symbols[at] == 0 <==> left == [])
    ensures forall j :: 0 <= j < |left| ==> at + j < |symbols| && symbols[at + j] == left[j]
    ensures left == [] ==> at + 1 <= |symbols| && symbols[at + 1..] == rest
  {
    assert |symbols| == at + |left| + 1 + |rest|;
    forall j | 0 <= j < |left| ensures symbols[at + j] == left[j] {
      assert symbols[at + j] == symbols[at..][j] == (left + [0] + rest)[j];
    }
    assert symbols[at] == symbols[at..][0] == (left + [0] + rest)[0];
    if left == [] {
      assert symbols[at + 1..] == symbols[at..][1..] == ([] + [0] + rest)[1..] == rest;
    } else {
      assert left[0] in left;
    }
  }

  /** The first piece of a code, a range or a single character, and what it denotes. */
  lemma CodeStep(left: Code)
    requires WellFormed(left) && left != []
    ensures left[0] == RANGE ==> (|left| >= 3 && WellFormed(left[3..]))
    ensures left[0] != RANGE ==> WellFormed(left[1..])
  {
  }

  lemma HasStep(left: Code, c: Byte)
    requires WellFormed(left) && left != []
    ensures (left[0] == RANGE && |left| >= 3) ==> (Has(left, c) <==> left[1] <= c <= left[2] || Has(left[3..], c))
    ensures left[0] != RANGE ==> (Has(left, c) <==> left[0] == c || Has(left[1..], c))
  {
  }

  /** No range of the code goes up to 255, where the loop over its characters would not end. */
  ghost predicate RangesEnd(code: Code)
  {
    code == [] ||
    if code[0] == RANGE && |code| >= 3 then (code[2] < 255 || code[1] > code[2]) && RangesEnd(code[3..])
    else RangesEnd(code[1..])
  }

  /** The counter of that loop is an unsigned char: what it is after n steps from lo. */
  ghost function CharAfter(lo: Byte, n: nat): Byte
  {
    if n == 0 then lo else if CharAfter(lo, n - 1) == 255 then 0 else CharAfter(lo, n - 1) + 1
  }

  /** So the loop over a range comes to its end exactly if the range does not go up to 255. */
  lemma RangeLoopEnds(lo: Byte, hi: Byte)
    ensures (exists n :: CharAfter(lo, n) > hi) <==> hi < 255
  {
    if lo > hi {
      assert CharAfter(lo, 0) > hi;
    } else if hi < 255 {
      CountsUp(lo, hi + 1 - lo);
    }
  }

  lemma {:induction false} CountsUp(lo: Byte, n: nat)
    requires lo + n <= 255
    ensures CharAfter(lo, n) == lo + n
  {
    if n > 0 {
      CountsUp(lo, n - 1);
    }
  }

  /** Points every character of one symbol at row position i, and steps past the symbol. */
  method MarkSymbol(skip0: seq<nat>, symbols: seq<Byte>, at: nat, i: nat, ghost code: Code, ghost rest: seq<Byte>)
    returns (skip: seq<nat>, ptr: nat)
    requires |skip0| == 256 && WellFormed(code) && RangesEnd(code)
    requires Reading(symbols, at, code, rest)
    requires forall c: Byte :: skip0[c] != i
    ensures |skip| == 256 && forall c: Byte :: skip[c] == if Has(code, c) then i else skip0[c]
    ensures ptr <= |symbols| && symbols[ptr..] == rest
  {
    hide Reading, Has, WellFormed;
    skip, ptr := skip0, at;
    ghost var left := code;
    NoZeroInside(left);
    ReadingAt(symbols, ptr, left, rest);
    while symbols[ptr] != 0
      invariant ptr < |symbols| && Reading(symbols, ptr, left, rest)
      invariant WellFormed(left) && 0 !in left && RangesEnd(left) && |skip| == 256
      invariant forall c: Byte :: skip[c] == i || skip[c] == skip0[c]
      invariant forall c: Byte :: Has(code, c) <==> skip[c] == i || Has(left, c)
      decreases |left|
    {
      ReadingAt(symbols, ptr, left, rest);
      CodeStep(left);
      forall c: Byte ensures (left[0] == RANGE && |left| >= 3) ==> (Has(left, c) <==> left[1] <= c <= left[2] || Has(left[3..], c))
        ensures left[0] != RANGE ==> (Has(left, c) <==> left[0] == c || Has(left[1..], c)) {
        HasStep(left, c);
      }
      if symbols[ptr] == RANGE {
        ReadingOn(symbols, ptr, left, rest, 3);
        ptr := ptr + 2;
        skip := MarkRange(skip, symbols[ptr - 1], symbols[ptr], i);
        left := left[3..];
      } else {
        ReadingOn(symbols, ptr, left, rest, 1);
        skip := skip[symbols[ptr] := i];
        left := left[1..];
      }
      ptr := ptr + 1;
    }
    ReadingAt(symbols, ptr, left, rest);
    NothingHas();
    ptr := ptr + 1;
  }

  lemma NothingHas()
    ensures forall c: Byte :: !Has([], c)
  {
  }

  method MarkRange(skip0: seq<nat>, lo: Byte, hi: Byte, i: nat) returns (skip: seq<nat>)
    requires |skip0| == 256 && (hi < 255 || lo > hi)
    ensures |skip| == 256 && forall c: Byte :: skip[c] == if lo <= c <= hi then i else skip0[c]
  {
    skip := skip0;
    var c: int := lo;
    while c <= hi
      invariant lo <= c && (if lo <= hi then c <= hi + 1 else c == lo) && |skip| == 256
      invariant forall x: Byte :: skip[x] == if lo <= x < c then i else skip0[x]
    {
      skip := skip[c := i];
      c := c + 1;
    }
  }

  // ---------------------------------------------------------------- offsets

  ghost predicate AllRepresent(parts: seq<RegExp>, pat: Pattern)
  {
    |parts| == |pat| && forall i :: 0 <= i < |pat| ==> Represents(parts[i], pat[i])
  }

  /** Two walks over the parts: head to tail for the left side, tail to head for the right side. */
  method MakeOffsets(parts: seq<RegExp>, ghost pat: Pattern) returns (out: seq<RegExp>)
    requires AllRepresent(parts, pat)
    ensures AllRepresent(out, pat)
    ensures forall i :: 0 <= i < |pat| ==> OffsetsOf(out[i], pat, i)
  {
    out := LeftOffsets(parts, pat);
    out := RightOffsets(out, pat);
  }

  lemma LeftSet(r: RegExp, pat: Pattern, i: nat, offset: int, fixed: bool)
    requires i < |pat| && Represents(r, pat[i])
    requires offset == Width(pat[..i]) + Lead0(pat[i]) && fixed == (Stars(pat[..i + 1]) == 0)
    ensures var r' := r.(leftOffset := offset, leftFixed := fixed); Represents(r', pat[i]) && LeftOf(r', pat, i)
    ensures r.leadLen == pat[i].lead && r.size == |pat[i].syms|
  {
    hide IsSkipTable;
  }

  lemma RowWidths(pat: Pattern)
    ensures pat[|pat|..] == [] && pat[..0] == [] && Width([]) == 0 && Stars([]) == 0
  {
  }

  method LeftOffsets(parts: seq<RegExp>, ghost pat: Pattern) returns (out: seq<RegExp>)
    requires AllRepresent(parts, pat)
    ensures AllRepresent(out, pat)
    ensures forall i :: 0 <= i < |pat| ==> LeftOf(out[i], pat, i)
  {
    out := parts;
    var offset, fixed := 0, true;
    hide Represents, LeftOf, Width, Stars;
    RowWidths(pat);
    for i := 0 to |parts|
      invariant AllRepresent(out, pat)
      invariant offset == Width(pat[..i]) && fixed == (Stars(pat[..i]) == 0)
      invariant forall j :: 0 <= j < i ==> LeftOf(out[j], pat, j)
    {
      SplitAt(pat, i);
      RepresentsLead(out[i], pat[i]);
      if out[i].leadLen < 0 {
        fixed := false;
      } else {
        offset := offset + out[i].leadLen;
      }
      LeftSet(out[i], pat, i, offset, fixed);
      out := out[i := out[i].(leftOffset := offset, leftFixed := fixed)];
      offset := offset + out[i].size;
    }
  }

  lemma RepresentsLead(r: RegExp, p: Part)
    requires Represents(r, p)
    ensures r.leadLen == p.lead
  {
  }

  lemma RightSet(r: RegExp, pat: Pattern, i: nat, offset: int, fixed: bool)
    requires i < |pat| && Represents(r, pat[i]) && LeftOf(r, pat, i)
    requires offset == Width(pat[i + 1..]) && fixed == (Stars(pat[i + 1..]) == 0)
    ensures var r' := r.(rightOffset := offset, rightFixed := fixed);
      Represents(r', pat[i]) && LeftOf(r', pat, i) && OffsetsOf(r', pat, i)
    ensures r.leadLen == pat[i].lead && r.size == |pat[i].syms|
  {
    hide IsSkipTable;
  }

  method RightOffsets(parts: seq<RegExp>, ghost pat: Pattern) returns (out: seq<RegExp>)
    requires AllRepresent(parts, pat)
    requires forall i :: 0 <= i < |pat| ==> LeftOf(parts[i], pat, i)
    ensures AllRepresent(out, pat)
    ensures forall i :: 0 <= i < |pat| ==> OffsetsOf(out[i], pat, i)
  {
    out := parts;
    var offset, fixed := 0, true;
    hide Represents, LeftOf, OffsetsOf, Width, Stars;
    RowWidths(pat);
    for i := |parts| downto 0
      invariant AllRepresent(out, pat)
      invariant offset == Width(pat[i..]) && fixed == (Stars(pat[i..]) == 0)
      invariant forall j :: 0 <= j < |pat| ==> LeftOf(out[j], pat, j)
      invariant forall j :: i <= j < |pat| ==> OffsetsOf(out[j], pat, j)
    {
      SplitAt(pat, i);
      RightSet(out[i], pat, i, offset, fixed);
      out := out[i := out[i].(rightOffset := offset, rightFixed := fixed)];
      if out[i].leadLen < 0 {
        fixed := false;
      } else {
        offset := offset + out[i].leadLen;
      }
      offset := offset + out[i].size;
    }
  }
}
