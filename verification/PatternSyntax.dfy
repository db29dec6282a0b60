/** How a pattern may be written (libAfterBase/regexp.c): characters with or without a backslash, ranges and runs of
    characters in classes, classes and characters in rows, rows behind any mixture of wildcards. Every text of this
    form reads as it is meant, whatever way of writing has been chosen. */
module PatternSyntax {
  import opened Common
  import opened CharClass
  import opened PatternLanguage
  import opened PatternParser
  import opened PatternCompiler
  import opened PatternRoundTrip

  function Ascii(c: char): (b: Byte)
    requires (c as int) < 256
  {
    c as int
  }

  // ---------------------------------------------------------------- characters

  /** A character as it is written. */
  datatype Ch = Ch(escaped: bool, c: Byte)

  function ChText(x: Ch): (t: Text)
    ensures t != []
  {
    if x.escaped then [Ascii('\\'), x.c] else [x.c]
  }

  /** Behind a backslash any character may stand; without one, none that is barred, and no backslash. */
  predicate Written(x: Ch, barred: seq<Byte>)
  {
    x.c != 0 && (!x.escaped ==> x.c != Ascii('\\') && x.c !in barred)
  }

  lemma ChReads(data: Text, p: nat, x: Ch, barred: seq<Byte>, t: Text)
    requires Written(x, barred) && Rest(data, p, ChText(x) + t) && Ascii('\\') !in barred
    ensures SingleChar(data, p, barred) == (x.c, p + |ChText(x)|) && Rest(data, p + |ChText(x)|, t)
    ensures At(data, p) == ChText(x)[0] != 0 && At(data, p) !in barred
  {
    RestCut(data, p, ChText(x), t);
    if x.escaped {
      assert ChText(x) + t == [Ascii('\\')] + ([x.c] + t);
      RestHead(data, p, Ascii('\\'), [x.c] + t);
      RestHead(data, p + 1, x.c, t);
    }
  }

  // ---------------------------------------------------------------- classes

  datatype Piece = Range(from: Ch, to: Ch) | Run(chars: seq<Ch>)

  /** A piece of a class, with a comma behind it or none. */
  datatype Item = Item(piece: Piece, comma: bool)

  function InClass(): (barred: seq<Byte>) { [Ascii(']'), Ascii(',')] }

  function RunText(chars: seq<Ch>): Text
  {
    if chars == [] then [] else ChText(chars[0]) + RunText(chars[1..])
  }

  function PieceText(piece: Piece): Text
  {
    match piece
    case Range(a, b) => ChText(a) + ([Ascii('-')] + ChText(b))
    case Run(chars) => RunText(chars)
  }

  function Comma(item: Item): Text { if item.comma then [Ascii(',')] else [] }

  function ItemsText(items: seq<Item>): Text
  {
    if items == [] then [] else PieceText(items[0].piece) + (Comma(items[0]) + ItemsText(items[1..]))
  }

  /** A run has a character, and its second one is not a bare dash, which would make the two a range. */
  predicate ProperPiece(piece: Piece)
  {
    match piece
    case Range(a, b) => Written(a, InClass()) && Written(b, InClass())
    case Run(chars) =>
      && chars != [] && (forall x :: x in chars ==> Written(x, InClass()))
      && (|chars| > 1 ==> chars[1] != Ch(false, Ascii('-')))
  }

  /** Between a run and what follows there is a comma. */
  predicate ProperItems(items: seq<Item>)
  {
    items != [] ==>
      && ProperPiece(items[0].piece) && ProperItems(items[1..])
      && (items[0].piece.Run? && |items| > 1 ==> items[0].comma)
  }

  function CharsOf(chars: seq<Ch>): Code
  {
    if chars == [] then [] else [chars[0].c] + CharsOf(chars[1..])
  }

  function PieceCode(piece: Piece): Code
  {
    match piece
    case Range(a, b) => [RANGE, a.c, b.c]
    case Run(chars) => CharsOf(chars)
  }

  function ItemsCode(items: seq<Item>): Code
  {
    if items == [] then [] else PieceCode(items[0].piece) + ItemsCode(items[1..])
  }

  lemma RunStep(chars: seq<Ch>, acc: Code, t: Text)
    ensures chars == [] ==> RunText(chars) == [] && CharsOf(chars) == [] && acc + [] == acc && [] + t == t
    ensures chars != [] ==>
      && RunText(chars) + t == ChText(chars[0]) + (RunText(chars[1..]) + t)
      && |RunText(chars)| == |ChText(chars[0])| + |RunText(chars[1..])|
      && acc + CharsOf(chars) == (acc + [chars[0].c]) + CharsOf(chars[1..])
  {
  }

  lemma EnumStep(data: Text, p: nat, acc: Code, c: Byte, q: nat)
    requires SingleChar(data, p, IN_CLASS) == (c, q)
    ensures Enumeration(data, p, acc) == if c == 0 then (acc, q) else Enumeration(data, q, acc + [c])
  {
  }

  lemma {:induction false} RunReads(data: Text, p: nat, chars: seq<Ch>, acc: Code, t: Text)
    requires (forall x :: x in chars ==> Written(x, InClass())) && Rest(data, p, RunText(chars) + t)
    requires t == [] || t[0] in InClass()
    ensures var q := p + |RunText(chars)|; Enumeration(data, p, acc) == (acc + CharsOf(chars), q) && Rest(data, q, t)
    decreases |chars|
  {
    hide Enumeration, SingleChar, RunText, CharsOf, ChText, Rest, Written;
    RunStep(chars, acc, t);
    if chars == [] {
      AtBar(data, p, t);
      EnumStep(data, p, acc, 0, p);
    } else {
      var x, more := chars[0], RunText(chars[1..]);
      assert Written(x, InClass());
      ChReads(data, p, x, InClass(), more + t);
      NotZero(x, InClass());
      EnumStep(data, p, acc, x.c, p + |ChText(x)|);
      RunReads(data, p + |ChText(x)|, chars[1..], acc + [x.c], t);
    }
  }

  lemma AtBar(data: Text, p: nat, t: Text)
    requires Rest(data, p, t) && (t == [] || t[0] in InClass())
    ensures SingleChar(data, p, IN_CLASS) == (0, p) && At(data, p) != Ascii('-')
  {
    if t != [] {
      assert t == [t[0]] + t[1..];
      RestHead(data, p, t[0], t[1..]);
    }
  }

  lemma NotZero(x: Ch, barred: seq<Byte>)
    requires Written(x, barred)
    ensures x.c != 0
  {
  }

  lemma PieceReads(data: Text, p: nat, piece: Piece, t: Text)
    requires ProperPiece(piece) && Rest(data, p, PieceText(piece) + t)
    requires piece.Run? ==> t == [] || t[0] in InClass()
    ensures var q := p + |PieceText(piece)|; MultiPart(data, p) == (Some(PieceCode(piece)), q) && Rest(data, q, t)
    ensures At(data, p) != Ascii(']') && At(data, p) != Ascii(',') && PieceCode(piece) != []
  {
    hide Rest, MultiPart, ChText, Written, RunText, CharsOf;
    match piece
    case Range(a, b) => RangeReads(data, p, a, b, t);
    case Run(chars) => RunPieceReads(data, p, chars, t);
  }

  lemma RangeReads(data: Text, p: nat, a: Ch, b: Ch, t: Text)
    requires Written(a, InClass()) && Written(b, InClass())
    requires Rest(data, p, (ChText(a) + ([Ascii('-')] + ChText(b))) + t)
    ensures var q := p + |ChText(a)| + 1 + |ChText(b)|;
      MultiPart(data, p) == (Some([RANGE, a.c, b.c]), q) && Rest(data, q, t)
    ensures At(data, p) != Ascii(']') && At(data, p) != Ascii(',')
  {
    hide Rest, SingleChar, ChText, Written, Enumeration;
    assert [Ascii('-')] + ChText(b) + t == [Ascii('-')] + (ChText(b) + t);
    assert (ChText(a) + ([Ascii('-')] + ChText(b))) + t == ChText(a) + ([Ascii('-')] + (ChText(b) + t));
    ChReads(data, p, a, InClass(), [Ascii('-')] + (ChText(b) + t));
    RestHead(data, p + |ChText(a)|, Ascii('-'), ChText(b) + t);
    ChReads(data, p + |ChText(a)| + 1, b, InClass(), t);
    NotZero(a, InClass());
    NotZero(b, InClass());
  }

  lemma RunPieceReads(data: Text, p: nat, chars: seq<Ch>, t: Text)
    requires ProperPiece(Piece.Run(chars)) && Rest(data, p, RunText(chars) + t) && (t == [] || t[0] in InClass())
    ensures var q := p + |RunText(chars)|; MultiPart(data, p) == (Some(CharsOf(chars)), q) && Rest(data, q, t)
    ensures At(data, p) != Ascii(']') && At(data, p) != Ascii(',') && CharsOf(chars) != []
  {
    hide Rest, SingleChar, ChText, Written, RunText, CharsOf, Enumeration;
    var x, more := chars[0], chars[1..];
    RunStep(chars, [], t);
    assert Written(x, InClass());
    ChReads(data, p, x, InClass(), RunText(more) + t);
    NotZero(x, InClass());
    var q := p + |ChText(x)|;
    AfterFirst(data, q, more, t);
    RunReads(data, q, more, [x.c], t);
    assert [] + CharsOf(chars) == CharsOf(chars) && [] + [x.c] == [x.c];
  }

  lemma AfterFirst(data: Text, p: nat, chars: seq<Ch>, t: Text)
    requires (forall x :: x in chars ==> Written(x, InClass())) && Rest(data, p, RunText(chars) + t)
    requires (t == [] || t[0] in InClass()) && (chars != [] ==> chars[0] != Ch(false, Ascii('-')))
    ensures At(data, p) != Ascii('-')
  {
    if chars == [] {
      assert RunText(chars) + t == t;
      AtBar(data, p, t);
    } else {
      assert RunText(chars) + t == ChText(chars[0]) + (RunText(chars[1..]) + t);
      ChReads(data, p, chars[0], InClass(), RunText(chars[1..]) + t);
    }
  }

  /** A character and a dash with nothing behind: the two mean nothing, and end the class. */
  function TailText(tail: Option<Ch>): Text
  {
    if tail.Some? then ChText(tail.value) + [Ascii('-')] else []
  }

  /** What ends the pieces of a class: a character and a dash, if there is one, and the closing bracket, a comma where a
      piece should start, or the end of the text. */
  predicate ProperEnd(items: seq<Item>, tail: Option<Ch>, end: Text, t: Text)
  {
    && (end == [Ascii(']')] || end == [Ascii(',')] || (end == [] && t == []))
    && (tail.Some? ==> Written(tail.value, InClass()))
    && (items != [] ==>
         var last := items[|items| - 1];
         && (tail.Some? ==> last.piece.Range? || last.comma)
         && (tail.None? && end == [Ascii(',')] ==> last.comma))
  }

  lemma TailReads(data: Text, p: nat, tail: Option<Ch>, end: Text, t: Text)
    requires ProperEnd([], tail, end, t) && Rest(data, p, TailText(tail) + (end + t))
    ensures var q := p + |TailText(tail)|; MultiPart(data, p) == (None, q) && Rest(data, q, end + t)
    ensures tail.Some? ==> At(data, p) != Ascii(']') && At(data, p) != Ascii(',')
    ensures tail.None? ==> At(data, p) == if end == [] then 0 else end[0]
  {
    var e := end + t;
    assert e == [] || e[0] in InClass();
    if tail.Some? {
      assert TailText(tail) + e == ChText(tail.value) + ([Ascii('-')] + e);
      ChReads(data, p, tail.value, InClass(), [Ascii('-')] + e);
      var q := p + |ChText(tail.value)|;
      RestHead(data, q, Ascii('-'), e);
      AtBar(data, q + 1, e);
    } else {
      assert TailText(tail) + e == e;
      AtBar(data, p, e);
      if end != [] {
        assert e == [end[0]] + t;
        RestHead(data, p, end[0], t);
      }
    }
  }

  lemma {:induction false} ItemsRead(data: Text, p: nat, items: seq<Item>, tail: Option<Ch>, end: Text, acc: Code, t: Text)
    requires ProperItems(items) && ProperEnd(items, tail, end, t)
    requires Rest(data, p, ItemsText(items) + (TailText(tail) + (end + t)))
    ensures var q := p + |ItemsText(items)| + |TailText(tail)|;
      ClassBody(data, p, acc) == (acc + ItemsCode(items), q) && Rest(data, q, end + t)
    ensures items != [] ==> ItemsCode(items) != [] && At(data, p) != Ascii(']') && At(data, p) != Ascii(',')
    ensures items == [] ==> ItemsCode(items) == [] && (At(data, p) == Ascii(']') <==> tail.None? && end == [Ascii(']')])
    decreases |items|
  {
    hide *;
    if items == [] {
      NoItems(acc, TailText(tail) + (end + t));
      TailReads(data, p, tail, end, t);
      BodyOver(data, p, acc, p + |TailText(tail)|);
      EndTells(items, tail, end, t);
    } else {
      var item, rest, after := items[0], items[1..], TailText(tail) + (end + t);
      var comma, more := Comma(item), ItemsText(rest);
      ItemsTell(items);
      EndTells(items, tail, end, t);
      assert items == [item] + rest;
      CommaTells(item, rest, tail, end, t);
      Grouped(PieceText(item.piece), comma, more, after);
      Appended(acc, PieceCode(item.piece), ItemsCode(rest));
      PieceReads(data, p, item.piece, comma + (more + after));
      var q := p + |PieceText(item.piece)|;
      RestCut(data, q, comma, more + after);
      ItemsRead(data, q + |comma|, rest, tail, end, acc + PieceCode(item.piece), t);
      NextIsComma(data, q, item, rest, tail, end, t);
      BodyStep(data, p, acc, PieceCode(item.piece), q, item);
      NoTail(tail);
    }
  }

  lemma NoTail(tail: Option<Ch>)
    ensures tail.None? ==> TailText(tail) == []
  {
  }

  lemma NoItems(acc: Code, after: Text)
    ensures ItemsText([]) == [] && ItemsCode([]) == [] && acc + [] == acc && [] + after == after
  {
  }

  lemma BodyOver(data: Text, p: nat, acc: Code, q: nat)
    requires MultiPart(data, p) == (None, q)
    ensures ClassBody(data, p, acc) == (acc, q)
  {
  }

  lemma EndTells(items: seq<Item>, tail: Option<Ch>, end: Text, t: Text)
    requires ProperEnd(items, tail, end, t)
    ensures ProperEnd(if items == [] then [] else items[1..], tail, end, t)
    ensures Ascii(']') != Ascii(',') && Ascii(']') != 0 && Ascii(',') != 0
    ensures end == [Ascii(']')] || end == [Ascii(',')] || (end == [] && t == [])
    ensures |items| == 1 && !items[0].comma ==> (tail.Some? ==> items[0].piece.Range?) && (tail.None? ==> end != [Ascii(',')])
  {
  }

  /** Behind a piece without a comma there is none. */
  lemma NextIsComma(data: Text, q: nat, item: Item, rest: seq<Item>, tail: Option<Ch>, end: Text, t: Text)
    requires Rest(data, q, Comma(item) + (ItemsText(rest) + (TailText(tail) + (end + t))))
    requires ProperEnd(rest, tail, end, t) && ProperItems(rest)
    requires rest == [] && !item.comma && tail.None? ==> end != [Ascii(',')]
    ensures if item.comma then At(data, q) == Ascii(',') else At(data, q) != Ascii(',')
  {
    hide ItemsText, ProperItems, PieceText, ProperPiece, TailText, Rest;
    var after := ItemsText(rest) + (TailText(tail) + (end + t));
    if item.comma {
      RestHead(data, q, Ascii(','), after);
    } else {
      assert Comma(item) + after == after;
      if rest == [] {
        NoItems([], TailText(tail) + (end + t));
        TailReads(data, q, tail, end, t);
      } else {
        ItemsTell(rest);
        Grouped(PieceText(rest[0].piece), Comma(rest[0]), ItemsText(rest[1..]), TailText(tail) + (end + t));
        PieceStarts(data, q, rest[0].piece, Comma(rest[0]) + (ItemsText(rest[1..]) + (TailText(tail) + (end + t))));
      }
    }
  }

  lemma PieceStarts(data: Text, p: nat, piece: Piece, t: Text)
    requires ProperPiece(piece) && Rest(data, p, PieceText(piece) + t)
    ensures At(data, p) != Ascii(']') && At(data, p) != Ascii(',') && At(data, p) == ChText(FirstChar(piece))[0]
  {
    hide Rest;
    var x := FirstChar(piece);
    var more := PieceText(piece)[|ChText(x)|..] + t;
    assert PieceText(piece) + t == ChText(x) + more;
    ChReads(data, p, x, InClass(), more);
  }

  function FirstChar(piece: Piece): Ch
  {
    match piece
    case Range(a, b) => a
    case Run(chars) => if chars == [] then Ch(true, 0) else chars[0]
  }

  /** What stands in front of the rest of a class. */
  lemma ItemsTell(items: seq<Item>)
    requires items != [] && ProperItems(items)
    ensures ProperPiece(items[0].piece) && ProperItems(items[1..])
    ensures ItemsText(items) == PieceText(items[0].piece) + (Comma(items[0]) + ItemsText(items[1..]))
    ensures ItemsCode(items) == PieceCode(items[0].piece) + ItemsCode(items[1..])
    ensures items[0].piece.Run? && items[1..] != [] ==> items[0].comma
    ensures items[1..] == [] ==> ItemsText(items[1..]) == [] && ItemsCode(items[1..]) == []
  {
  }

  lemma CommaTells(item: Item, rest: seq<Item>, tail: Option<Ch>, end: Text, t: Text)
    requires ProperEnd([item] + rest, tail, end, t) && (item.piece.Run? && rest != [] ==> item.comma)
    ensures var next := Comma(item) + (ItemsText(rest) + (TailText(tail) + (end + t)));
      item.piece.Run? ==> next == [] || next[0] in InClass()
  {
    hide ItemsText;
    var items, after := [item] + rest, TailText(tail) + (end + t);
    if item.piece.Run? && !item.comma {
      NoItems([], after);
      assert rest == [] && items[|items| - 1] == item;
      assert after == end + t;
      assert Comma(item) + (ItemsText(rest) + after) == end + t;
    }
  }

  lemma Grouped(a: Text, b: Text, c: Text, d: Text)
    ensures (a + (b + c)) + d == a + (b + (c + d))
  {
  }

  lemma Appended(acc: Code, a: Code, b: Code)
    ensures acc + (a + b) == (acc + a) + b && a + [] == a
  {
  }

  lemma BodyStep(data: Text, p: nat, acc: Code, part: Code, q: nat, item: Item)
    requires MultiPart(data, p) == (Some(part), q)
    requires if item.comma then At(data, q) == Ascii(',') else At(data, q) != Ascii(',')
    ensures var next := q + |Comma(item)|;
      ClassBody(data, p, acc) == if At(data, next) == Ascii(']') then (acc + part, next) else ClassBody(data, next, acc + part)
  {
  }

  // ---------------------------------------------------------------- brackets

  /** What is written in brackets, with a comma in place of the closing one if a piece should start there. */
  datatype Bracket = Bracket(negate: bool, items: seq<Item>, tail: Option<Ch>, comma: bool)

  function Bang(negate: bool): Text { if negate then [Ascii('!')] else [] }

  function Closer(b: Bracket): Text { if b.comma then [Ascii(',')] else [Ascii(']')] }

  /** All of it up to what closes it. */
  function OpenText(b: Bracket): Text
  {
    [Ascii('[')] + (Bang(b.negate) + (ItemsText(b.items) + TailText(b.tail)))
  }

  /** A bare exclamation mark at the start would negate it. */
  predicate ProperBracket(b: Bracket, end: Text, t: Text)
  {
    && ProperItems(b.items) && ProperEnd(b.items, b.tail, end, t)
    && (b.negate || FirstIn(b) != Ch(false, Ascii('!')))
  }

  function FirstIn(b: Bracket): Ch
  {
    if b.items != [] then FirstChar(b.items[0].piece) else if b.tail.Some? then b.tail.value else Ch(true, 0)
  }

  lemma BracketOpens(data: Text, p: nat, b: Bracket, end: Text, t: Text)
    requires ProperBracket(b, end, t) && Rest(data, p, OpenText(b) + (end + t))
    ensures At(data, p) == Ascii('[') && (At(data, p + 1) == Ascii('!') <==> b.negate)
    ensures Rest(data, p + 1 + |Bang(b.negate)|, ItemsText(b.items) + (TailText(b.tail) + (end + t)))
    ensures ProperItems(b.items) && ProperEnd(b.items, b.tail, end, t)
  {
    hide ItemsText, ProperItems, Rest, TailText;
    var inside := ItemsText(b.items) + (TailText(b.tail) + (end + t));
    assert OpenText(b) + (end + t) == [Ascii('[')] + (Bang(b.negate) + inside) by {
      Grouped([Ascii('[')], Bang(b.negate), ItemsText(b.items) + TailText(b.tail), end + t);
      assert ItemsText(b.items) + TailText(b.tail) + (end + t) == inside;
    }
    RestHead(data, p, Ascii('['), Bang(b.negate) + inside);
    RestCut(data, p + 1, Bang(b.negate), inside);
    if !b.negate {
      NoBang(data, p + 1, b, end, t);
    }
  }

  lemma NoBang(data: Text, p: nat, b: Bracket, end: Text, t: Text)
    requires ProperBracket(b, end, t) && !b.negate
    requires Rest(data, p, ItemsText(b.items) + (TailText(b.tail) + (end + t)))
    ensures At(data, p) != Ascii('!')
  {
    hide ItemsText, ProperItems, Rest, TailText, ProperEnd, ChText, FirstChar;
    BareBang(FirstIn(b));
    if b.items != [] {
      ItemsStart(data, p, b.items, TailText(b.tail) + (end + t));
    } else {
      NoItems([], TailText(b.tail) + (end + t));
      TailStarts(data, p, b.tail, end, t);
    }
  }

  /** Only the bare exclamation mark is written as one. */
  lemma BareBang(x: Ch)
    ensures x != Ch(false, Ascii('!')) ==> ChText(x)[0] != Ascii('!')
  {
  }

  lemma ItemsStart(data: Text, p: nat, items: seq<Item>, after: Text)
    requires items != [] && ProperItems(items) && Rest(data, p, ItemsText(items) + after)
    ensures At(data, p) == ChText(FirstChar(items[0].piece))[0]
  {
    hide *;
    ItemsTell(items);
    var piece, more := items[0].piece, Comma(items[0]) + ItemsText(items[1..]);
    assert ItemsText(items) + after == PieceText(piece) + (more + after);
    PieceStarts(data, p, piece, more + after);
  }

  lemma TailStarts(data: Text, p: nat, tail: Option<Ch>, end: Text, t: Text)
    requires ProperEnd([], tail, end, t) && Rest(data, p, TailText(tail) + (end + t))
    ensures At(data, p) == if tail.Some? then ChText(tail.value)[0] else if end == [] then 0 else end[0]
    ensures end != [] ==> end[0] != Ascii('!')
  {
    hide Rest, ChText;
    TailReads(data, p, tail, end, t);
    if tail.Some? {
      assert TailText(tail) + (end + t) == ChText(tail.value) + ([Ascii('-')] + (end + t));
      ChReads(data, p, tail.value, InClass(), [Ascii('-')] + (end + t));
    }
  }

  /** A class is what its pieces say, and with no pieces there is no symbol. */
  lemma BracketReads(data: Text, p: nat, b: Bracket, end: Text, t: Text)
    requires ProperBracket(b, end, t) && Rest(data, p, OpenText(b) + (end + t))
    ensures var q := p + |OpenText(b)| + 1;
      SymAt(data, p) == (if b.items == [] then None else Some(Sym(b.negate, ItemsCode(b.items))), q)
    ensures At(data, p) == Ascii('[') && Rest(data, p + |OpenText(b)|, end + t)
  {
    hide ItemsText, ItemsCode, ProperItems, ProperEnd, TailText, SymAt, Rest, ProperBracket;
    BracketOpens(data, p, b, end, t);
    var start := p + 1 + |Bang(b.negate)|;
    ItemsRead(data, start, b.items, b.tail, end, [], t);
    var q := start + |ItemsText(b.items)| + |TailText(b.tail)|;
    ClassEnds(data, p, b.negate, ItemsCode(b.items), start, q);
    assert b.items == [] <==> ItemsCode(b.items) == [];
  }

  lemma ClassEnds(data: Text, p: nat, negate: bool, code: Code, start: nat, q: nat)
    requires At(data, p) == Ascii('[') && (At(data, p + 1) == Ascii('!') <==> negate) && start == p + 1 + |Bang(negate)|
    requires ClassBody(data, start, []) == ([] + code, q)
    ensures SymAt(data, p) == (if code == [] then None else Some(Sym(negate, code)), q + 1)
  {
    assert [] + code == code;
  }

  lemma ClosedBracket(b: Bracket, t: Text)
    requires ProperBracket(b, Closer(b), [])
    ensures ProperBracket(b, Closer(b), t)
  {
  }

  lemma ClosedReads(data: Text, p: nat, b: Bracket, t: Text)
    requires ProperBracket(b, Closer(b), []) && Rest(data, p, (OpenText(b) + Closer(b)) + t)
    ensures var q := p + |OpenText(b)| + 1;
      SymAt(data, p) == (if b.items == [] then None else Some(Sym(b.negate, ItemsCode(b.items))), q) && Rest(data, q, t)
    ensures At(data, p) == Ascii('[')
  {
    ClosedBracket(b, t);
    hide ProperBracket, OpenText, ItemsCode, SymAt, Rest;
    assert (OpenText(b) + Closer(b)) + t == OpenText(b) + (Closer(b) + t);
    BracketReads(data, p, b, Closer(b), t);
    assert Closer(b) + t == [Closer(b)[0]] + t;
    RestHead(data, p + |OpenText(b)|, Closer(b)[0], t);
  }

  // ---------------------------------------------------------------- symbols

  datatype Symbol = One(x: Ch) | Class(b: Bracket)

  function InRow(): (barred: seq<Byte>) { [Ascii('*'), Ascii('?')] }

  function SymbolText(y: Symbol): Text
  {
    match y
    case One(x) => ChText(x)
    case Class(b) => OpenText(b) + Closer(b)
  }

  /** A bare bracket opens a class. */
  predicate ProperSymbol(y: Symbol)
  {
    match y
    case One(x) => Written(x, InRow()) && x != Ch(false, Ascii('['))
    case Class(b) => b.items != [] && ProperBracket(b, Closer(b), [])
  }

  function SymbolCode(y: Symbol): Code
  {
    match y
    case One(x) => [x.c]
    case Class(b) => ItemsCode(b.items)
  }

  function Negated(y: Symbol): bool { y.Class? && y.b.negate }

  lemma OneReads(data: Text, p: nat, x: Ch, t: Text)
    requires ProperSymbol(One(x)) && Rest(data, p, ChText(x) + t)
    ensures var q := p + |ChText(x)|; SymAt(data, p) == (Some(Sym(false, [x.c])), q) && Rest(data, q, t)
    ensures At(data, p) != 0 && At(data, p) !in InRow()
  {
    ChReads(data, p, x, InRow(), t);
    hide Rest;
  }

  lemma SymbolReads(data: Text, p: nat, y: Symbol, t: Text)
    requires ProperSymbol(y) && Rest(data, p, SymbolText(y) + t)
    ensures var q := p + |SymbolText(y)|;
      SymAt(data, p) == (Some(Sym(Negated(y), SymbolCode(y))), q) && Rest(data, q, t)
    ensures At(data, p) != 0 && At(data, p) !in InRow()
  {
    hide SymAt, Rest, OpenText, ItemsCode, ProperBracket;
    match y
    case One(x) => OneReads(data, p, x, t);
    case Class(b) => ClosedReads(data, p, b, t);
  }

  // ---------------------------------------------------------------- rows

  function RowOfText(row: seq<Symbol>): Text
  {
    if row == [] then [] else SymbolText(row[0]) + RowOfText(row[1..])
  }

  /** The symbols of a row, each class in canonical form. */
  ghost function RowMeant(row: seq<Symbol>): seq<Sym>
  {
    if row == [] then [] else [Sym(Negated(row[0]), Canon(SymbolCode(row[0])))] + RowMeant(row[1..])
  }

  /** A row may end with a class without pieces, which means nothing. */
  function Closing(closed: Option<Bracket>): Text
  {
    if closed.None? then [] else OpenText(closed.value) + Closer(closed.value)
  }

  predicate ProperClosing(closed: Option<Bracket>)
  {
    closed.Some? ==> closed.value.items == [] && ProperBracket(closed.value, Closer(closed.value), [])
  }

  lemma RowEnds(data: Text, p: nat, closed: Option<Bracket>, t: Text)
    requires Rest(data, p, Closing(closed) + t) && ProperClosing(closed) && (closed.None? ==> t == [] || t[0] in InRow())
    ensures SymAt(data, p) == (None, p + |Closing(closed)|) && Rest(data, p + |Closing(closed)|, t)
  {
    hide Rest, OpenText, ProperBracket;
    if closed.None? {
      assert Closing(closed) + t == t;
      WildEndsRow(data, p, t);
    } else {
      ClosedReads(data, p, closed.value, t);
    }
  }

  lemma WildEndsRow(data: Text, p: nat, t: Text)
    requires Rest(data, p, t) && (t == [] || t[0] in InRow())
    ensures SymAt(data, p) == (None, p)
  {
    if t != [] {
      assert t == [t[0]] + t[1..];
      RestHead(data, p, t[0], t[1..]);
    }
  }

  lemma {:induction false} RowReads(data: Text, p: nat, row: seq<Symbol>, closed: Option<Bracket>, t: Text)
    requires (forall y :: y in row ==> ProperSymbol(y)) && Rest(data, p, RowOfText(row) + (Closing(closed) + t))
    requires ProperClosing(closed) && (closed.None? ==> t == [] || t[0] in InRow())
    ensures var q := p + |RowOfText(row)| + |Closing(closed)|; RowFrom(data, p) == (RowMeant(row), q) && Rest(data, q, t)
    decreases |row|
  {
    hide Canon, SymAt, Closing, ProperClosing, SymbolText, SymbolCode, ProperSymbol, Rest;
    if row == [] {
      assert [] + (Closing(closed) + t) == Closing(closed) + t;
      RowEnds(data, p, closed, t);
    } else {
      var y, rest := row[0], RowOfText(row[1..]) + (Closing(closed) + t);
      assert RowOfText(row) + (Closing(closed) + t) == SymbolText(y) + rest;
      SymbolReads(data, p, y, rest);
      RowReads(data, p + |SymbolText(y)|, row[1..], closed, t);
    }
  }

  // ---------------------------------------------------------------- patterns

  /** Wildcards, then a row, which may end with an empty class. */
  datatype Chunk = Chunk(wild: Text, row: seq<Symbol>, closed: Option<Bracket>)

  function ChunksText(chunks: seq<Chunk>): Text
  {
    if chunks == [] then []
    else chunks[0].wild + (RowOfText(chunks[0].row) + (Closing(chunks[0].closed) + ChunksText(chunks[1..])))
  }

  /** No chunk means nothing at all, and a row that is not closed by an empty class ends at a wildcard. */
  predicate Proper(chunks: seq<Chunk>)
  {
    chunks != [] ==>
      && (forall c :: c in chunks[0].wild ==> c in InRow()) && (forall y :: y in chunks[0].row ==> ProperSymbol(y))
      && (chunks[0].wild != [] || chunks[0].row != []) && ProperClosing(chunks[0].closed)
      && (chunks[0].closed.None? && |chunks| > 1 ==> chunks[0].row != [] && chunks[1].wild != [])
      && Proper(chunks[1..])
  }

  /** A '*' anywhere among the wildcards takes any number of characters; without one, one for each question mark. */
  ghost function ChunksMeant(chunks: seq<Chunk>): Pattern
  {
    if chunks == [] then []
    else
      var wild := chunks[0].wild;
      [Part(if Ascii('*') in wild then -1 else |wild|, RowMeant(chunks[0].row))] + ChunksMeant(chunks[1..])
  }

  lemma WildReads(data: Text, p: nat, wild: Text, t: Text)
    requires (forall c :: c in wild ==> c in InRow()) && Rest(data, p, wild + t) && (t == [] || t[0] !in InRow())
    ensures Wild(data, p, 0) == (if Ascii('*') in wild then -1 else |wild|, p + |wild|) && Rest(data, p + |wild|, t)
  {
    RestCut(data, p, wild, t);
    WildMeans(data, p);
    var q, e := Wild(data, p, 0).1, p + |wild|;
    assert data[p..e] == wild;
    forall k | p <= k < e ensures data[k] in InRow() {
      assert data[k] == wild[k - p] && wild[k - p] in wild;
    }
    if t != [] {
      RestHead(data, e, t[0], t[1..]);
    }
    assert q == e;
  }

  /** Whatever stands behind the wildcards of a chunk is no wildcard. */
  lemma RowBegins(chunks: seq<Chunk>)
    requires chunks != [] && Proper(chunks)
    ensures var t := RowOfText(chunks[0].row) + (Closing(chunks[0].closed) + ChunksText(chunks[1..]));
      t == [] || t[0] !in InRow()
  {
    hide ChunksText, ProperItems;
    var chunk, tail := chunks[0], ChunksText(chunks[1..]);
    if chunk.row != [] {
      var y := chunk.row[0];
      assert ProperSymbol(y);
      assert SymbolText(y) != [] && SymbolText(y)[0] !in InRow();
      assert RowOfText(chunk.row) != [] && RowOfText(chunk.row)[0] == SymbolText(y)[0];
    } else if chunk.closed.None? {
      NoChunks();
      assert chunks[1..] == [];
    }
  }

  lemma NoChunks()
    ensures ChunksText([]) == [] && ChunksMeant([]) == []
  {
  }

  /** What follows a row that is not closed. */
  lemma NextBegins(chunks: seq<Chunk>)
    requires chunks != [] && Proper(chunks) && chunks[0].closed.None?
    ensures var t := ChunksText(chunks[1..]); t == [] || t[0] in InRow()
  {
    if chunks[1..] != [] {
      assert chunks[1..][0] == chunks[1] && chunks[1].wild[0] in chunks[1].wild;
    }
  }

  lemma ChunkTells(chunks: seq<Chunk>)
    requires chunks != [] && Proper(chunks)
    ensures Proper(chunks[1..]) && ProperClosing(chunks[0].closed) && (forall c :: c in chunks[0].wild ==> c in InRow())
    ensures (forall y :: y in chunks[0].row ==> ProperSymbol(y)) && (chunks[0].wild != [] || chunks[0].row != [])
    ensures ChunksText(chunks)
      == chunks[0].wild + (RowOfText(chunks[0].row) + (Closing(chunks[0].closed) + ChunksText(chunks[1..])))
  {
  }

  lemma RowMeantSize(row: seq<Symbol>)
    ensures RowMeant(row) == [] <==> row == []
  {
  }

  lemma {:induction false} ChunksRead(data: Text, p: nat, chunks: seq<Chunk>)
    requires Proper(chunks) && Rest(data, p, ChunksText(chunks))
    ensures PatternFrom(data, p) == Parts(ChunksMeant(chunks))
    decreases |chunks|
  {
    hide *;
    if chunks == [] {
      NoChunks();
      RestEnds(data, p);
    } else {
      var chunk, tail := chunks[0], ChunksText(chunks[1..]);
      ChunkTells(chunks);
      RowBegins(chunks);
      var rest := RowOfText(chunk.row) + (Closing(chunk.closed) + tail);
      WildReads(data, p, chunk.wild, rest);
      var q := p + |chunk.wild|;
      if chunk.closed.None? {
        NextBegins(chunks);
      }
      RowReads(data, q, chunk.row, chunk.closed, tail);
      var e := q + |RowOfText(chunk.row)| + |Closing(chunk.closed)|;
      ChunksRead(data, e, chunks[1..]);
      RowMeantSize(chunk.row);
      ChunkTakes(data, p, chunk.wild, rest);
      PatternGrows(data, p, if Ascii('*') in chunk.wild then -1 else |chunk.wild|, q, RowMeant(chunk.row), e);
      ChunksMeantStep(chunks);
    }
  }

  lemma RestEnds(data: Text, p: nat)
    requires Rest(data, p, [])
    ensures PatternFrom(data, p) == Parts([])
  {
  }

  lemma ChunkTakes(data: Text, p: nat, wild: Text, rest: Text)
    requires Rest(data, p, wild + rest) && (wild != [] || rest != [])
    ensures p < |data|
  {
  }

  lemma ChunksMeantStep(chunks: seq<Chunk>)
    requires chunks != []
    ensures var lead := if Ascii('*') in chunks[0].wild then -1 else |chunks[0].wild|;
      ChunksMeant(chunks) == [Part(lead, RowMeant(chunks[0].row))] + ChunksMeant(chunks[1..])
    ensures chunks[0].row != [] ==> RowOfText(chunks[0].row) != []
  {
  }

  /** Every text of this form reads as it is meant. */
  lemma ReadsAsMeant(chunks: seq<Chunk>)
    requires Proper(chunks)
    ensures PatternFrom(ChunksText(chunks), 0) == Parts(ChunksMeant(chunks))
  {
    assert ChunksText(chunks)[0..] == ChunksText(chunks);
    ChunksRead(ChunksText(chunks), 0, chunks);
  }

  // ---------------------------------------------------------------- where reading stops

  /** More text can follow the chunks: the last row is closed, or ends at a wildcard. */
  predicate OpenTo(chunks: seq<Chunk>, u: Text)
  {
    && Proper(chunks)
    && (chunks != [] && chunks[|chunks| - 1].closed.None? ==> chunks[|chunks| - 1].row != [] && u != [] && u[0] in InRow())
  }

  /** A pattern in front of what has been read. */
  ghost function Before(pat: Pattern, o: Outcome): Outcome
  {
    if o.Overrun? then Overrun else Parts(pat + o.parts)
  }

  lemma {:induction false} ChunksReadOn(data: Text, p: nat, chunks: seq<Chunk>, u: Text)
    requires OpenTo(chunks, u) && Rest(data, p, ChunksText(chunks) + u)
    ensures var q := p + |ChunksText(chunks)|;
      PatternFrom(data, p) == Before(ChunksMeant(chunks), PatternFrom(data, q)) && Rest(data, q, u)
    decreases |chunks|
  {
    hide *;
    if chunks == [] {
      NoChunks();
      assert [] + u == u;
      BeforeNothing(PatternFrom(data, p));
    } else {
      var chunk, tail := chunks[0], ChunksText(chunks[1..]) + u;
      OpenTells(chunks, u);
      ChunkTells(chunks);
      FourGrouped(chunk.wild, RowOfText(chunk.row), Closing(chunk.closed), ChunksText(chunks[1..]), u);
      var rest := RowOfText(chunk.row) + (Closing(chunk.closed) + tail);
      WildReads(data, p, chunk.wild, rest);
      var q := p + |chunk.wild|;
      RowReads(data, q, chunk.row, chunk.closed, tail);
      var e := q + |RowOfText(chunk.row)| + |Closing(chunk.closed)|;
      ChunksReadOn(data, e, chunks[1..], u);
      RowMeantSize(chunk.row);
      ChunksMeantStep(chunks);
      ChunkTakes(data, p, chunk.wild, rest);
      var lead := if Ascii('*') in chunk.wild then -1 else |chunk.wild|;
      OnePart(data, p, lead, q, RowMeant(chunk.row), e);
      BeforeBefore([Part(lead, RowMeant(chunk.row))], ChunksMeant(chunks[1..]), PatternFrom(data, e + |ChunksText(chunks[1..])|));
    }
  }

  lemma FourGrouped(a: Text, b: Text, c: Text, d: Text, u: Text)
    ensures (a + (b + (c + d))) + u == a + (b + (c + (d + u)))
  {
  }

  lemma BeforeNothing(o: Outcome)
    ensures Before([], o) == o
  {
    if o.Parts? {
      assert [] + o.parts == o.parts;
    }
  }

  lemma BeforeBefore(a: Pattern, b: Pattern, o: Outcome)
    ensures Before(a, Before(b, o)) == Before(a + b, o)
  {
    if o.Parts? {
      assert a + (b + o.parts) == (a + b) + o.parts;
    }
  }

  lemma OnePart(data: Text, p: nat, lead: int, q: nat, syms: seq<Sym>, e: nat)
    requires p < |data| && Wild(data, p, 0) == (lead, q) && RowFrom(data, q) == (syms, e)
    ensures PatternFrom(data, p) ==
      if lead == 0 && syms == [] then Parts([]) else Before([Part(lead, syms)], PatternFrom(data, e))
  {
  }

  lemma OpenTells(chunks: seq<Chunk>, u: Text)
    requires chunks != [] && OpenTo(chunks, u)
    ensures OpenTo(chunks[1..], u) && Proper(chunks)
    ensures var tail := ChunksText(chunks[1..]) + u; chunks[0].closed.None? ==> tail != [] && tail[0] in InRow()
    ensures var rest := RowOfText(chunks[0].row) + (Closing(chunks[0].closed) + (ChunksText(chunks[1..]) + u));
      rest != [] ==> rest[0] !in InRow()
    ensures chunks[0].wild != [] || chunks[0].row != []
    ensures chunks[0].row != [] ==> RowOfText(chunks[0].row) != []
  {
    hide ChunksText, ProperItems, OpenText, ProperBracket;
    ChunkTells(chunks);
    var chunk, more := chunks[0], chunks[1..];
    if more == [] {
      NoChunks();
      assert [] + u == u;
    } else {
      assert more[0] == chunks[1] && more[|more| - 1] == chunks[|chunks| - 1];
      if chunk.closed.None? {
        NextBegins(chunks);
        ChunkTells(more);
        assert ChunksText(more) != [];
      }
    }
    if chunk.row != [] {
      RowStart(chunk.row);
    } else if chunk.closed.Some? {
      assert Closing(chunk.closed) != [] && Closing(chunk.closed)[0] == Ascii('[') by {
        BracketStart(chunk.closed.value);
      }
    }
  }

  lemma BracketStart(b: Bracket)
    ensures OpenText(b) != [] && OpenText(b)[0] == Ascii('[') && Ascii('[') !in InRow()
  {
  }

  lemma RowStart(row: seq<Symbol>)
    requires row != [] && ProperSymbol(row[0])
    ensures RowOfText(row) != [] && RowOfText(row)[0] !in InRow()
  {
    hide ItemsText;
    var y := row[0];
    if y.Class? {
      BracketStart(y.b);
    }
    assert SymbolText(y) != [] && SymbolText(y)[0] !in InRow();
  }

  /** What the text breaks off with: a class that is not closed, or a backslash with nothing behind. */
  function Broken(b: Option<Bracket>): Text
  {
    if b.Some? then OpenText(b.value) else [Ascii('\\')]
  }

  lemma BrokenReads(data: Text, p: nat, b: Option<Bracket>)
    requires Rest(data, p, Broken(b)) && (b.Some? ==> ProperBracket(b.value, [], []))
    ensures SymAt(data, p).0 == (if b.Some? && b.value.items != [] then Some(Sym(b.value.negate, ItemsCode(b.value.items))) else None)
    ensures SymAt(data, p).1 == |data| + 1
  {
    hide ItemsText, ItemsCode, ProperBracket, OpenText;
    if b.Some? {
      assert Broken(b) == OpenText(b.value) + ([] + []);
      BracketReads(data, p, b.value, [], []);
    }
  }

  /** Then the parser runs past the end of the text, unless what breaks off is nothing but an empty class or a
      backslash in a place where a part would begin. */
  lemma BreaksOff(chunks: seq<Chunk>, wild: Text, row: seq<Symbol>, b: Option<Bracket>)
    requires (forall c :: c in wild ==> c in InRow()) && (forall y :: y in row ==> ProperSymbol(y))
    requires b.Some? ==> ProperBracket(b.value, [], [])
    requires OpenTo(chunks, wild + (RowOfText(row) + Broken(b)))
    ensures PatternFrom(ChunksText(chunks) + (wild + (RowOfText(row) + Broken(b))), 0) ==
      if wild == [] && row == [] && (b.None? || b.value.items == []) then Parts(ChunksMeant(chunks)) else Overrun
  {
    hide *;
    var u := wild + (RowOfText(row) + Broken(b));
    var data := ChunksText(chunks) + u;
    RestAll(data);
    ChunksReadOn(data, 0, chunks, u);
    var p := |ChunksText(chunks)|;
    BrokenStart(row, b);
    WildReads(data, p, wild, RowOfText(row) + Broken(b));
    var q := p + |wild|;
    var r := BrokenRow(data, q, row, b);
    BrokenPart(data, p, if Ascii('*') in wild then -1 else |wild|, q, r.0, r.1);
    NoStar(wild);
    BeforeOutcome(ChunksMeant(chunks));
  }

  lemma RestAll(data: Text)
    ensures Rest(data, 0, data)
  {
    assert data[0..] == data;
  }

  lemma NoStar(wild: Text)
    requires forall c :: c in wild ==> c in InRow()
    ensures (if Ascii('*') in wild then -1 else |wild|) == 0 <==> wild == []
  {
  }

  lemma BeforeOutcome(pat: Pattern)
    ensures Before(pat, Overrun) == Overrun && Before(pat, Parts([])) == Parts(pat)
  {
    assert pat + [] == pat;
  }

  lemma BrokenStart(row: seq<Symbol>, b: Option<Bracket>)
    requires forall y :: y in row ==> ProperSymbol(y)
    ensures var t := RowOfText(row) + Broken(b); t != [] && t[0] !in InRow()
  {
    hide OpenText, ProperSymbol, SymbolText;
    if b.Some? {
      BracketStart(b.value);
    }
    if row != [] {
      assert ProperSymbol(row[0]);
      RowStart(row);
    }
  }

  lemma BrokenRow(data: Text, q: nat, row: seq<Symbol>, b: Option<Bracket>) returns (r: (seq<Sym>, nat))
    requires (forall y :: y in row ==> ProperSymbol(y)) && Rest(data, q, RowOfText(row) + Broken(b))
    requires b.Some? ==> ProperBracket(b.value, [], [])
    ensures r == RowFrom(data, q) && r.1 > |data| && (r.0 == [] <==> row == [] && (b.None? || b.value.items == []))
  {
    hide Canon, SymAt, ProperSymbol, SymbolText, Broken, ItemsCode, ProperBracket, Rest;
    RowReadsAny(data, q, row, Broken(b));
    BrokenReads(data, q + |RowOfText(row)|, b);
    PastEnd(data);
    r := RowFrom(data, q);
  }

  lemma PastEnd(data: Text)
    ensures RowFrom(data, |data| + 1) == ([], |data| + 1)
  {
  }

  /** After the row come whatever symbols there are. */
  lemma {:induction false} RowReadsAny(data: Text, p: nat, row: seq<Symbol>, t: Text)
    requires (forall y :: y in row ==> ProperSymbol(y)) && Rest(data, p, RowOfText(row) + t)
    ensures var q := p + |RowOfText(row)|;
      && Rest(data, q, t) && RowFrom(data, p) == (RowMeant(row) + RowFrom(data, q).0, RowFrom(data, q).1)
    ensures RowMeant(row) == [] <==> row == []
    decreases |row|
  {
    hide Canon, SymAt, SymbolText, SymbolCode, ProperSymbol, Rest;
    if row == [] {
      assert [] + t == t;
      assert RowMeant(row) + RowFrom(data, p).0 == RowFrom(data, p).0;
    } else {
      var y, rest := row[0], RowOfText(row[1..]) + t;
      assert RowOfText(row) + t == SymbolText(y) + rest;
      SymbolReads(data, p, y, rest);
      RowReadsAny(data, p + |SymbolText(y)|, row[1..], t);
      var more := RowFrom(data, p + |RowOfText(row)|).0;
      var head := Sym(Negated(y), Canon(SymbolCode(y)));
      assert ([head] + RowMeant(row[1..])) + more == [head] + (RowMeant(row[1..]) + more);
    }
  }

  lemma BrokenPart(data: Text, p: nat, lead: int, q: nat, syms: seq<Sym>, e: nat)
    requires p < |data| && Wild(data, p, 0) == (lead, q) && RowFrom(data, q) == (syms, e) && e > |data|
    ensures PatternFrom(data, p) == if lead == 0 && syms == [] then Parts([]) else Overrun
  {
  }

  /** An empty class where a part would begin ends the pattern, whatever comes behind. */
  lemma EmptyClassEnds(chunks: seq<Chunk>, b: Bracket, t: Text)
    requires b.items == [] && ProperBracket(b, Closer(b), [])
    requires OpenTo(chunks, (OpenText(b) + Closer(b)) + t)
    ensures PatternFrom(ChunksText(chunks) + ((OpenText(b) + Closer(b)) + t), 0) == Parts(ChunksMeant(chunks))
  {
    hide *;
    var u := (OpenText(b) + Closer(b)) + t;
    var data := ChunksText(chunks) + u;
    RestAll(data);
    ChunksReadOn(data, 0, chunks, u);
    var p := |ChunksText(chunks)|;
    ClosedReads(data, p, b, t);
    NothingHere(data, p);
    BeforeOutcome(ChunksMeant(chunks));
  }

  lemma NothingHere(data: Text, p: nat)
    requires SymAt(data, p).0 == None && At(data, p) == Ascii('[')
    ensures PatternFrom(data, p) == Parts([])
  {
  }

  // ---------------------------------------------------------------- what a class has

  /** The characters of a range, whichever end is written first, and those of a run. */
  predicate InPiece(piece: Piece, c: Byte)
  {
    match piece
    case Range(a, b) => a.c <= c <= b.c || b.c <= c <= a.c
    case Run(chars) => c in CharsOf(chars)
  }

  /** No character is the one that marks ranges in the code. */
  predicate Unmarked(piece: Piece)
  {
    piece.Run? ==> RANGE !in CharsOf(piece.chars)
  }

  lemma {:induction false} RunDenotes(chars: Code, code: Code, c: Byte)
    requires RANGE !in chars
    ensures Denotes(chars + code, c) <==> c in chars || Denotes(code, c)
  {
    if chars == [] {
      assert chars + code == code;
    } else {
      assert (chars + code)[1..] == chars[1..] + code;
      RunDenotes(chars[1..], code, c);
    }
  }

  lemma {:induction false} ItemsDenote(items: seq<Item>, c: Byte)
    requires forall k :: 0 <= k < |items| ==> Unmarked(items[k].piece)
    ensures Denotes(ItemsCode(items), c) <==> exists k :: 0 <= k < |items| && InPiece(items[k].piece, c)
  {
    if items != [] {
      var rest := items[1..];
      ItemsDenote(rest, c);
      assert forall k :: 1 <= k < |items| ==> items[k] == rest[k - 1];
      match items[0].piece {
        case Range(a, b) => assert ([RANGE, a.c, b.c] + ItemsCode(rest))[3..] == ItemsCode(rest);
        case Run(chars) => RunDenotes(CharsOf(chars), ItemsCode(rest), c);
      }
      if k :| 0 <= k < |rest| && InPiece(rest[k].piece, c) {
        assert InPiece(items[k + 1].piece, c);
      }
      if k :| 0 <= k < |items| && InPiece(items[k].piece, c) && !InPiece(items[0].piece, c) {
        assert InPiece(rest[k - 1].piece, c);
      }
    }
  }

  /** A class has the characters of its pieces and no others, as far as the code that is kept tells them. */
  lemma ClassHas(items: seq<Item>, c: Byte)
    requires ProperItems(items) && (forall k :: 0 <= k < |items| ==> Unmarked(items[k].piece)) && 2 <= c < 255
    ensures Has(Canon(ItemsCode(items)), c) <==> exists k :: 0 <= k < |items| && InPiece(items[k].piece, c)
  {
    ItemsDenote(items, c);
    CanonKeepsMembers(ItemsCode(items), c);
  }
}
