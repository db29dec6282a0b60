/** Reading the text of a pattern (libAfterBase/regexp.c): functions that say what each parser
    yields, and the parsers themselves, which walk a pointer over the text. */
module PatternParser {
  import opened Common
  import opened CharClass
  import opened PatternLanguage
  import opened CompiledPattern

  const BANG: Byte := 33
  const STAR: Byte := 42
  const COMMA: Byte := 44
  const DASH: Byte := 45
  const QUESTION: Byte := 63
  const OPEN: Byte := 91
  const BACKSLASH: Byte := 92
  const CLOSE: Byte := 93

  const IN_CLASS := [CLOSE, COMMA]
  const IN_ROW := [STAR, QUESTION]

  /** A C string: 0 stands at its end and nowhere else. */
  ghost predicate ZeroFree(data: Text)
  {
    0 !in data
  }

  /** Reading at or past the end yields the terminating zero. */
  function At(data: Text, p: nat): Byte { if p < |data| then data[p] else 0 }

  // ---------------------------------------------------------------- what the parsers yield

  /** One character and the place after it. 0 stands for a reserved character, which is not taken,
      or the end. A backslash takes the next byte whatever it is, even the terminator. */
  function SingleChar(data: Text, p: nat, reserved: seq<Byte>): (r: (Byte, nat))
    ensures r.1 >= p && (r.0 != 0 ==> p < |data| && p < r.1 <= |data|)
  {
    var c := At(data, p);
    if c == 0 || c in reserved then (0, p)
    else if c == BACKSLASH then (At(data, p + 1), p + 2)
    else (c, p + 1)
  }

  function Enumeration(data: Text, p: nat, acc: Code): (r: (Code, nat))
    ensures r.1 >= p && acc <= r.0
    decreases |data| - p
  {
    var (c, q) := SingleChar(data, p, IN_CLASS);
    if c == 0 then (acc, q) else Enumeration(data, q, acc + [c])
  }

  /** One comma-separated piece of a class: a range, or a run of single characters. */
  function MultiPart(data: Text, p: nat): (r: (Option<Code>, nat))
    ensures r.1 >= p && (r.0.Some? ==> p < |data| && r.1 > p && r.0.value != [])
  {
    var (c, q) := SingleChar(data, p, IN_CLASS);
    if c == 0 then (None, q)
    else if At(data, q) == DASH then
      var (d, e) := SingleChar(data, q + 1, IN_CLASS);
      if d == 0 then (None, e) else (Some([RANGE, c, d]), e)
    else
      var (code, e) := Enumeration(data, q, [c]);
      (Some(code), e)
  }

  function ClassBody(data: Text, p: nat, acc: Code): (r: (Code, nat))
    ensures r.1 >= p
    decreases |data| - p
  {
    var (part, q) := MultiPart(data, p);
    if part.None? then (acc, q)
    else
      var next := if At(data, q) == COMMA then q + 1 else q;
      if At(data, next) == CLOSE then (acc + part.value, next)
      else ClassBody(data, next, acc + part.value)
  }

  /** One symbol: a class in brackets, or a single character. None for the end of a row and for an
      empty class, which is skipped. */
  function SymAt(data: Text, p: nat): (r: (Option<Sym>, nat))
    ensures r.1 >= p && (r.0.Some? ==> r.1 > p && p < |data| && r.0.value.code != [])
  {
    if At(data, p) == OPEN then
      var negate := At(data, p + 1) == BANG;
      var (code, q) := ClassBody(data, if negate then p + 2 else p + 1, []);
      (if code == [] then None else Some(Sym(negate, code)), q + 1)
    else
      var (c, q) := SingleChar(data, p, IN_ROW);
      (if c == 0 then None else Some(Sym(false, [c])), q)
  }

  /** A row of symbols, each with its code in canonical form. */
  ghost function RowFrom(data: Text, p: nat): (r: (seq<Sym>, nat))
    ensures r.1 >= p && (r.0 != [] ==> r.1 > p)
    decreases |data| - p
  {
    var (y, q) := SymAt(data, p);
    if y.None? then ([], q)
    else var (rest, e) := RowFrom(data, q); ([Sym(y.value.negate, Canon(y.value.code))] + rest, e)
  }

  function Wild(data: Text, p: nat, count: int): (r: (int, nat))
    requires count >= -1
    ensures r.0 >= -1 && r.1 >= p && (count != 0 ==> r.0 != 0) && (r.0 != count ==> r.1 > p)
    decreases |data| - p
  {
    if At(data, p) == STAR then Wild(data, p + 1, -1)
    else if At(data, p) == QUESTION then Wild(data, p + 1, if count >= 0 then count + 1 else count)
    else (count, p)
  }

  /** Reading past the terminator has no meaning; otherwise a list of parts, empty for NULL. */
  datatype Outcome = Overrun | Parts(parts: Pattern)

  ghost function PatternFrom(data: Text, p: nat): Outcome
    decreases |data| - p
  {
    if p > |data| then Overrun
    else if p == |data| then Parts([])
    else
      var (lead, q) := Wild(data, p, 0);
      var (syms, e) := RowFrom(data, q);
      if lead == 0 && syms == [] then Parts([])
      else
        var rest := PatternFrom(data, e);
        if rest.Overrun? then Overrun else Parts([Part(lead, syms)] + rest.parts)
  }

  // ---------------------------------------------------------------- the parsers

  method ParseSingleChar(data: Text, p: nat, reserved: seq<Byte>) returns (c: Byte, q: nat)
    ensures (c, q) == SingleChar(data, p, reserved)
  {
    c, q := At(data, p), p;
    if c != 0 {
      var i := 0;
      while i < |reserved|
        invariant i <= |reserved| && c !in reserved[..i]
      {
        if c == reserved[i] {
          return 0, p;
        }
        i := i + 1;
      }
      if c == BACKSLASH {
        q := q + 1;
        c := At(data, q);
      }
      q := q + 1;
    }
  }

  method ParseMultiPart(data: Text, p: nat) returns (part: Option<Code>, q: nat)
    ensures (part, q) == MultiPart(data, p)
  {
    var c;
    c, q := ParseSingleChar(data, p, IN_CLASS);
    if c == 0 {
      return None, q;
    }
    if At(data, q) == DASH {
      var first := c;
      c, q := ParseSingleChar(data, q + 1, IN_CLASS);
      return if c == 0 then None else Some([RANGE, first, c]), q;
    }
    ghost var whole := Enumeration(data, q, [c]);
    var code := [c];
    c, q := ParseSingleChar(data, q, IN_CLASS);
    while c != 0
      invariant whole == if c == 0 then (code, q) else Enumeration(data, q, code + [c])
      decreases |data| - q, c
    {
      code := code + [c];
      c, q := ParseSingleChar(data, q, IN_CLASS);
    }
    part := Some(code);
  }

  lemma BodyStep(data: Text, p: nat, acc: Code)
    ensures var (part, q) := MultiPart(data, p);
      var next := if At(data, q) == COMMA then q + 1 else q;
      ClassBody(data, p, acc) ==
        if part.None? then (acc, q)
        else if At(data, next) == CLOSE then (acc + part.value, next)
        else ClassBody(data, next, acc + part.value)
  {
  }

  /** The pieces of a class up to its closing bracket. */
  method ParseClass(data: Text, p: nat) returns (code: Code, ptr: nat)
    ensures (code, ptr) == ClassBody(data, p, [])
  {
    hide *;
    code, ptr := [], p;
    ghost var whole := ClassBody(data, p, []);
    var more := true;
    while more
      invariant whole == if more then ClassBody(data, ptr, code) else (code, ptr)
      decreases more, |data| - ptr
    {
      BodyStep(data, ptr, code);
      var part;
      part, ptr := ParseMultiPart(data, ptr);
      if part.None? {
        break;
      }
      code := code + part.value;
      if At(data, ptr) == COMMA {
        ptr := ptr + 1;
      }
      more := At(data, ptr) != CLOSE;
    }
  }

  method ParseSym(data: Text, p: nat) returns (sym: Option<Sym>, q: nat)
    ensures (sym, q) == SymAt(data, p)
  {
    hide ClassBody, SingleChar;
    if At(data, p) == OPEN {
      var negate, ptr := false, p + 1;
      if At(data, ptr) == BANG {
        negate, ptr := true, ptr + 1;
      }
      var code;
      code, ptr := ParseClass(data, ptr);
      return if code == [] then None else Some(Sym(negate, code)), ptr + 1;
    }
    var c;
    c, q := ParseSingleChar(data, p, IN_ROW);
    sym := if c == 0 then None else Some(Sym(false, [c]));
  }

  /** A run of wildcards takes in all that stand there, and counts unless there is a '*' among them. */
  lemma WildMeans(data: Text, p: nat)
    requires p <= |data|
    ensures var (lead, q) := Wild(data, p, 0);
      && p <= q <= |data| && At(data, q) != STAR && At(data, q) != QUESTION
      && (forall k :: p <= k < q ==> data[k] == STAR || data[k] == QUESTION)
      && lead == if STAR in data[p..q] then -1 else q - p
  {
    WildCounts(data, p, 0);
  }

  lemma {:induction false} WildCounts(data: Text, p: nat, count: int)
    requires p <= |data| && count >= -1
    ensures var (lead, q) := Wild(data, p, count);
      && p <= q <= |data| && At(data, q) != STAR && At(data, q) != QUESTION
      && (forall k :: p <= k < q ==> data[k] == STAR || data[k] == QUESTION)
      && lead == if count < 0 || STAR in data[p..q] then -1 else count + q - p
    decreases |data| - p
  {
    if p < |data| && (data[p] == STAR || data[p] == QUESTION) {
      var next := if data[p] == STAR || count < 0 then -1 else count + 1;
      WildCounts(data, p + 1, next);
      var q := Wild(data, p + 1, next).1;
      assert data[p..q] == [data[p]] + data[p + 1..q];
    }
  }

  method ParseWild(data: Text, p: nat) returns (count: int, q: nat)
    ensures (count, q) == Wild(data, p, 0)
    ensures p <= |data| ==>
      && p <= q <= |data| && At(data, q) != STAR && At(data, q) != QUESTION
      && (forall k :: p <= k < q ==> data[k] == STAR || data[k] == QUESTION)
      && count == if STAR in data[p..q] then -1 else q - p
  {
    if p <= |data| {
      WildMeans(data, p);
    }
    count, q := 0, p;
    while true
      invariant count >= -1 && Wild(data, p, 0) == Wild(data, q, count)
      decreases |data| - q
    {
      if At(data, q) == STAR {
        count := -1;
      } else if At(data, q) == QUESTION {
        if count >= 0 {
          count := count + 1;
        }
      } else {
        break;
      }
      q := q + 1;
    }
  }
}
