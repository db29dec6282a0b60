/** Printing a geometry (libAfterBase/parse.c). Numbers are written at the end of the buffer and copied from
    there to the text at its start. The place to copy from is counted from the end of the text written so far,
    but used as if counted from the start of the buffer: so a number that is not the first thing printed is
    copied together with as many characters in front of it as the text is long, whatever these are. */
module GeometryPrinter {
  import opened Common
  import opened GeometryText

  const BUFFER_SIZE := 256
  const CARD32 := 0x1_0000_0000

  /** The widths, heights and magnitudes that fit into 32 bits. */
  predicate Printable(g: Geometry)
  {
    && (g.width.Some? ==> g.width.value < CARD32) && (g.height.Some? ==> g.height.value < CARD32)
    && (g.x.Some? ==> Magnitude(g.x.value) < CARD32) && (g.y.Some? ==> Magnitude(g.y.value) < CARD32)
  }

  lemma {:induction false} DecimalLength(n: nat, k: nat, limit: nat)
    requires n < limit && limit == Power10(k) && k > 0
    ensures |Decimal(n)| <= k
    decreases k
  {
    if n >= 10 {
      DecimalLength(n / 10, k - 1, Power10(k - 1));
    }
  }

  function Power10(k: nat): (p: nat)
    ensures p > 0 && (k == 0 ==> p == 1)
  {
    if k == 0 then 1 else 10 * Power10(k - 1)
  }

  lemma TenDigits(n: nat)
    requires n < CARD32
    ensures |Decimal(n)| <= 10
  {
    assert Power10(5) == 100000 by {
      assert Power10(2) == 100 && Power10(3) == 1000 && Power10(4) == 10000;
    }
    assert Power10(10) == 10_000_000_000 by {
      assert Power10(7) == 10000000 && Power10(9) == 1000000000;
    }
    DecimalLength(n, 10, Power10(10));
  }

  /** Writes a number in decimal, and a NUL, at the end of the size characters that start at from; returns
      where its first digit is, counted from there. */
  method IntToBufferEnd(buffer: array<char>, from: nat, size: nat, val: nat) returns (index: nat)
    requires from + size <= buffer.Length && 12 <= size && val < CARD32
    modifies buffer
    ensures index + |Decimal(val)| + 1 == size
    ensures buffer[from + index..from + size] == Decimal(val) + ['\0']
    ensures forall j :: 0 <= j < buffer.Length && !(from + index <= j < from + size) ==> buffer[j] == old(buffer[j])
  {
    hide *;
    TenDigits(val);
    DecimalStep(val);
    ghost var was, hi, tail := buffer[..], from + size, "\0";
    var i: int, v := size - 1, val;
    TailStarts(was, hi);
    PutChar(buffer, from + i, '\0', was, hi, "");
    i := i - 1;
    if val == 0 {
      PutChar(buffer, from + i, '0', was, hi, tail);
      tail := "0" + tail;
      i := i - 1;
    } else {
      NothingWritten(val, tail);
      while v > 0 && i > 0
        invariant 0 <= i <= size - 2 && |tail| == size - 1 - i
        invariant Decimal(val) + "\0" == (if v > 0 then Decimal(v) else "") + tail
        invariant Tail(buffer[..], was, from + i + 1, hi, tail)
        decreases v
      {
        DecimalStep(v);
        PutChar(buffer, from + i, Digit(v % 10), was, hi, tail);
        DigitMoves(if v >= 10 then Decimal(v / 10) else "", Digit(v % 10), tail);
        tail := [Digit(v % 10)] + tail;
        i := i - 1;
        v := v / 10;
      }
    }
    index := i + 1;
    TailTells(buffer[..], was, from + index, hi, tail);
  }

  /** From lo to hi the buffer has this text; everywhere else it is what it was. */
  ghost predicate Tail(now: string, was: string, lo: int, hi: int, text: string)
  {
    && 0 <= lo <= hi <= |was| == |now|
    && now[lo..hi] == text && now[..lo] == was[..lo] && now[hi..] == was[hi..]
  }

  lemma TailStarts(was: string, hi: nat)
    requires hi <= |was|
    ensures Tail(was, was, hi, hi, "")
  {
  }

  lemma NothingWritten(v: nat, tail: string)
    ensures Decimal(v) + tail == Decimal(v) + tail && "" + tail == tail
  {
  }

  lemma DigitMoves(front: string, digit: char, tail: string)
    ensures (front + [digit]) + tail == front + ([digit] + tail)
  {
  }

  /** Writes one character in front of the text at the end. */
  method PutChar(buffer: array<char>, k: nat, c: char, ghost was: string, ghost hi: nat, ghost text: string)
    requires Tail(buffer[..], was, k + 1, hi, text)
    requires k < buffer.Length
    modifies buffer
    ensures Tail(buffer[..], was, k, hi, [c] + text)
  {
    ghost var before := buffer[..];
    buffer[k] := c;
    ghost var now := buffer[..];
    assert now == before[k := c];
    assert now[k..hi] == [c] + before[k + 1..hi];
    assert now[..k] == before[..k + 1][..k] == was[..k + 1][..k];
  }

  lemma TailTells(now: string, was: string, lo: nat, hi: nat, text: string)
    requires Tail(now, was, lo, hi, text)
    ensures hi <= |now| == |was| && now[lo..hi] == text
    ensures forall j :: 0 <= j < |now| && !(lo <= j < hi) ==> now[j] == was[j]
  {
    forall j | 0 <= j < |now| && !(lo <= j < hi) ensures now[j] == was[j] {
      if j < lo {
        assert now[j] == now[..lo][j] && was[j] == was[..lo][j];
      } else {
        assert now[j] == now[hi..][j - hi] && was[j] == was[hi..][j - hi];
      }
    }
  }

  lemma DecimalStep(v: nat)
    ensures Decimal(v) == (if v >= 10 then Decimal(v / 10) else "") + [Digit(v % 10)]
    ensures v == 0 ==> Decimal(v) == "0"
  {
  }

  // ---------------------------------------------------------------- what is printed

  /** The buffer, as far as numbers have been written at its end, and the text so far. */
  datatype Page = Page(mem: string, text: string)

  /** The characters up to the first NUL. */
  function UpToNul(s: string): (r: string)
    ensures |r| <= |s|
  {
    if s == "" || s[0] == '\0' then "" else [s[0]] + UpToNul(s[1..])
  }

  /** The buffer with a number at its end. */
  function Put(mem: string, v: nat): (r: string)
    ensures |mem| == BUFFER_SIZE && v < CARD32 ==> |r| == BUFFER_SIZE
  {
    if |mem| == BUFFER_SIZE && v < CARD32 then
      TenDigits(v);
      mem[..BUFFER_SIZE - 1 - |Decimal(v)|] + Decimal(v) + ['\0']
    else mem
  }

  /** A number printed after the text so far: as many characters in front of it come along as the text is long. */
  function Field(p: Page, v: nat): Page
  {
    var mem := Put(p.mem, v);
    var from := BUFFER_SIZE - 1 - |Decimal(v)| - |p.text|;
    Page(mem, if 0 <= from <= |mem| then p.text + UpToNul(mem[from..]) else p.text)
  }

  function Add(p: Page, s: string): Page
  {
    p.(text := p.text + s)
  }

  function PrintWidth(p: Page, g: Geometry): Page
  {
    if g.width.Some? then Field(p, g.width.value) else p
  }

  function PrintHeight(p: Page, g: Geometry): Page
  {
    if g.height.Some? then Field(Add(p, "x"), g.height.value) else p
  }

  function PrintOffset(p: Page, c: Coord): Page
  {
    Field(Add(p, SignText(c)), Magnitude(c))
  }

  function PrintX(p: Page, g: Geometry): Page
  {
    if g.x.Some? then PrintOffset(p, g.x.value) else if g.y.Some? then Add(p, "+") else p
  }

  function PrintY(p: Page, g: Geometry): Page
  {
    if g.y.Some? then PrintOffset(p, g.y.value) else p
  }

  /** What is printed for a geometry into a buffer that holds mem to begin with. */
  function Printed(mem: string, g: Geometry): string
  {
    PrintY(PrintX(PrintHeight(PrintWidth(Page(mem, ""), g), g), g), g).text
  }

  // ---------------------------------------------------------------- printing in place

  /** The text is at the start of the buffer, and its end is as the page says. */
  ghost predicate Shows(buffer: array<char>, pos: nat, p: Page, bound: nat)
    reads buffer
  {
    && buffer.Length == BUFFER_SIZE == |p.mem| && pos == |p.text| <= bound <= BUFFER_SIZE
    && buffer[..pos] == p.text && buffer[168..] == p.mem[168..]
  }

  method AddChar(buffer: array<char>, pos: nat, c: char, ghost p: Page, ghost bound: nat) returns (pos': nat)
    requires Shows(buffer, pos, p, bound) && bound < 168
    modifies buffer
    ensures Shows(buffer, pos', Add(p, [c]), bound + 1)
  {
    buffer[pos] := c;
    pos' := pos + 1;
    assert buffer[..pos'] == buffer[..pos] + [c];
  }

  /** Copies characters from val_pos on to the end of the text, up to a NUL. */
  method CopyUp(buffer: array<char>, pos: nat, from: nat) returns (pos': nat)
    requires buffer.Length == BUFFER_SIZE && buffer[BUFFER_SIZE - 1] == '\0'
    requires 168 <= from < BUFFER_SIZE && pos + (BUFFER_SIZE - 1 - from) <= 168
    modifies buffer
    ensures buffer[168..] == old(buffer[168..])
    ensures pos' <= pos + (BUFFER_SIZE - 1 - from) && buffer[..pos'] == old(buffer[..pos] + UpToNul(buffer[from..]))
  {
    pos' := pos;
    var k := from;
    ghost var high, start := buffer[168..], buffer[..pos];
    ghost var all := start + UpToNul(buffer[from..]);
    while buffer[k] != '\0'
      invariant from <= k < BUFFER_SIZE && pos' == pos + (k - from)
      invariant buffer[168..] == high && buffer[..pos'] + UpToNul(buffer[k..]) == all
      decreases BUFFER_SIZE - k
    {
      ghost var rest, done := buffer[k..], buffer[..pos'];
      assert buffer[k..] == high[k - 168..];
      assert UpToNul(rest) == [rest[0]] + UpToNul(rest[1..]);
      assert k != BUFFER_SIZE - 1 by {
        assert high[|high| - 1] == '\0';
      }
      buffer[pos'] := buffer[k];
      assert buffer[168..] == high;
      assert buffer[k + 1..] == high[k + 1 - 168..] == rest[1..];
      pos', k := pos' + 1, k + 1;
      assert buffer[..pos'] == done + [rest[0]];
    }
    assert UpToNul(buffer[k..]) == "";
  }

  /** Prints a number after the text so far. */
  method PrintField(buffer: array<char>, pos: nat, v: nat, ghost p: Page, ghost bound: nat) returns (pos': nat)
    requires Shows(buffer, pos, p, bound) && bound <= 77 && v < CARD32
    modifies buffer
    ensures Shows(buffer, pos', Field(p, v), 2 * bound + 10)
  {
    TenDigits(v);
    ghost var d, was := Decimal(v), buffer[..];
    hide Decimal;
    var val_pos := IntToBufferEnd(buffer, pos, BUFFER_SIZE - pos, v);
    ghost var mem := Put(p.mem, v);
    ghost var from := BUFFER_SIZE - 1 - |d|;
    assert buffer[from..] == d + ['\0'];
    assert mem[..from] == p.mem[..from] && mem[from..] == d + ['\0'];
    assert buffer[168..] == mem[168..] by {
      assert buffer[168..] == buffer[168..from] + buffer[from..];
      assert mem[168..] == mem[168..from] + mem[from..];
      assert buffer[168..from] == was[168..from] == p.mem[168..from];
    }
    assert buffer[val_pos..] == buffer[168..][val_pos - 168..] == mem[val_pos..];
    assert buffer[..pos] == was[..pos];
    pos' := CopyUp(buffer, pos, val_pos);
  }

  /** Prints a geometry, using a buffer of its own that may hold anything to begin with. */
  method FormatGeometry(g: Geometry, buffer: array<char>) returns (text: string)
    requires Printable(g) && buffer.Length == BUFFER_SIZE
    modifies buffer
    ensures text == Printed(old(buffer[..]), g)
  {
    ghost var p := Page(buffer[..], "");
    hide Shows, Field, SignText;
    assert Shows(buffer, 0, p, 0) by {
      ShowsNothing(buffer);
    }
    var pos: nat := 0;
    if g.width.Some? {
      pos := PrintField(buffer, pos, g.width.value, p, 0);
    }
    p := PrintWidth(p, g);
    assert Shows(buffer, pos, p, if g.width.Some? then 10 else 0);
    MoreRoom(buffer, pos, p, if g.width.Some? then 10 else 0, 10);
    if g.height.Some? {
      pos := AddChar(buffer, pos, 'x', p, 10);
      pos := PrintField(buffer, pos, g.height.value, Add(p, "x"), 11);
    }
    p := PrintHeight(p, g);
    MoreRoom(buffer, pos, p, if g.height.Some? then 32 else 10, 32);
    if g.x.Some? {
      pos := PrintCoord(buffer, pos, g.x.value, p, 32);
    } else if g.y.Some? {
      pos := AddChar(buffer, pos, '+', p, 32);
    }
    p := PrintX(p, g);
    MoreRoom(buffer, pos, p, if g.x.Some? then 76 else if g.y.Some? then 33 else 32, 76);
    if g.y.Some? {
      pos := PrintCoord(buffer, pos, g.y.value, p, 76);
    }
    p := PrintY(p, g);
    MoreRoom(buffer, pos, p, if g.y.Some? then 164 else 76, 164);
    text := TextOf(buffer, pos, p, 164);
  }

  method PrintCoord(buffer: array<char>, pos: nat, c: Coord, ghost p: Page, ghost bound: nat) returns (pos': nat)
    requires Shows(buffer, pos, p, bound) && bound < 77 && Magnitude(c) < CARD32
    modifies buffer
    ensures Shows(buffer, pos', PrintOffset(p, c), 2 * bound + 12)
  {
    hide Shows, Field;
    var sign := if c.negative || c.value < 0 then '-' else '+';
    pos' := AddChar(buffer, pos, sign, p, bound);
    assert SignText(c) == [sign];
    pos' := PrintField(buffer, pos', Magnitude(c), Add(p, SignText(c)), bound + 1);
  }

  lemma ShowsNothing(buffer: array<char>)
    requires buffer.Length == BUFFER_SIZE
    ensures Shows(buffer, 0, Page(buffer[..], ""), 0)
  {
    assert buffer[168..] == buffer[..][168..];
  }

  lemma MoreRoom(buffer: array<char>, pos: nat, p: Page, bound: nat, more: nat)
    requires Shows(buffer, pos, p, bound) && bound <= more <= BUFFER_SIZE
    ensures Shows(buffer, pos, p, more)
  {
  }

  method TextOf(buffer: array<char>, pos: nat, ghost p: Page, ghost bound: nat) returns (text: string)
    requires Shows(buffer, pos, p, bound)
    ensures text == p.text
  {
    text := buffer[..pos];
  }

  // ---------------------------------------------------------------- when that is right

  lemma {:induction false} UpToNulIs(s: string, rest: string)
    requires AllDigits(s)
    ensures UpToNul(s + ['\0'] + rest) == s
  {
    if s == "" {
    } else {
      assert (s + ['\0'] + rest)[1..] == s[1..] + ['\0'] + rest;
      UpToNulIs(s[1..], rest);
      assert s == [s[0]] + s[1..];
    }
  }

  /** The first number of a text is printed as it should be. */
  lemma FirstFieldIsRight(mem: string, v: nat)
    requires |mem| == BUFFER_SIZE && v < CARD32
    ensures Field(Page(mem, ""), v).text == Decimal(v)
  {
    TenDigits(v);
    var after, from := Put(mem, v), BUFFER_SIZE - 1 - |Decimal(v)|;
    assert after[from..] == Decimal(v) + ['\0'] + "";
    UpToNulIs(Decimal(v), "");
  }

  /** A number printed after other text, where the buffer holds nothing but digits from a nine on, is too large. */
  lemma LaterFieldIsTooLarge(p: Page, v: nat) returns (n: string)
    requires |p.mem| == BUFFER_SIZE && v < CARD32 && 0 < |p.text| <= 100 && |Decimal(v)| <= 10
    requires var from := BUFFER_SIZE - 1 - |Decimal(v)|;
      AllDigits(p.mem[from - |p.text|..from]) && p.mem[from - |p.text|] == '9'
    ensures Field(p, v).text == p.text + n && n != "" && AllDigits(n) && Number(0, n) > v
  {
    TenDigits(v);
    var d, k := Decimal(v), |p.text|;
    var from := BUFFER_SIZE - 1 - |d|;
    var after, extra := Put(p.mem, v), p.mem[from - k..from];
    n := extra + d;
    assert after[from - k..] == n + ['\0'] + "";
    UpToNulIs(n, "");
    NumberJoin(0, extra, d);
    assert extra[0] == '9' && DigitValue('9') == 9;
    NumberGrows(9, extra[1..]);
    NumberGrows(Number(0, extra), d);
    NumberOfDecimal(v);
  }

  /** A buffer full of nines. */
  function Nines(): (s: string)
    ensures |s| == BUFFER_SIZE && forall i :: 0 <= i < BUFFER_SIZE ==> s[i] == '9'
  {
    seq(BUFFER_SIZE, _ => '9')
  }

  /** After the width, a buffer of nines still holds digits, and nines from before the width's on. */
  lemma WidthInNines(g: Geometry, sep: string, v: nat) returns (n: string)
    requires Printable(g) && v < CARD32 && 1 <= |sep| <= 2
    ensures var p := Add(PrintWidth(Page(Nines(), ""), g), sep);
      Field(p, v).text == WidthText(g) + sep + n && n != "" && AllDigits(n) && Number(0, n) > v
  {
    var p := PrintWidth(Page(Nines(), ""), g);
    TenDigits(v);
    if g.width.Some? {
      TenDigits(g.width.value);
      FirstFieldIsRight(Nines(), g.width.value);
    }
    n := LaterFieldIsTooLarge(Add(p, sep), v);
  }

  ghost predicate Follows(tail: string)
  {
    tail == "" || !IsDigit(tail[0])
  }

  /** Whatever is printed after the height starts with a sign. */
  lemma OffsetsFollow(p: Page, g: Geometry) returns (tail: string)
    ensures PrintY(PrintX(p, g), g).text == p.text + tail && Follows(tail)
  {
    hide Field, SignText;
    var q := PrintX(p, g);
    var xs := FieldAfter(p, g.x, if g.y.Some? then "+" else "");
    var ys := FieldAfter(q, g.y, "");
    tail := xs + ys;
    assert p.text + xs + ys == p.text + tail;
    assert Add(q, "").text == q.text;
  }

  lemma FieldAfter(p: Page, c: Option<Coord>, otherwise: string) returns (tail: string)
    requires otherwise == "" || otherwise == "+"
    ensures (if c.Some? then PrintOffset(p, c.value) else Add(p, otherwise)).text == p.text + tail
    ensures Follows(tail) && (c.Some? ==> tail != "") && (c.None? ==> tail == otherwise)
  {
    if c.Some? {
      var q := Add(p, SignText(c.value));
      var full := Field(q, Magnitude(c.value)).text;
      assert q.text <= full;
      tail := full[|p.text|..];
      assert tail[0] == full[|p.text|] == SignText(c.value)[0];
    } else {
      tail := otherwise;
    }
  }

  /** A text with a width, if any, in front. */
  lemma ReadsWidth(g: Geometry, rest: string)
    requires Follows(rest)
    ensures g.width.Some? ==> SignedInt(WidthText(g) + rest) == Signed(g.width.value, 0, rest)
    ensures g.width.None? ==> WidthText(g) + rest == rest
  {
    if g.width.Some? {
      NumberOfDecimal(g.width.value);
      ReadsOne("", 0, WidthText(g), rest);
      assert WidthText(g) + rest == "" + (WidthText(g) + rest);
    }
  }

  lemma ReadsHeight(g: Geometry, n: string, tail: string)
    requires n != "" && AllDigits(n) && Follows(tail)
    ensures Parsed(WidthText(g) + ("x" + (n + tail))).height == Some(Number(0, n))
  {
    ReadsWidth(g, "x" + (n + tail));
    hide SignedInt, WidthText, Number;
    ReadsOne("x", 4, n, tail);
  }

  lemma ReadsOffset(g: Geometry, sgn: string, sign: int, n: string, tail: string)
    requires n != "" && AllDigits(n) && Follows(tail) && SignFor(sgn, sign) && sgn != "" && sign != 4 && sign != 0
    ensures var r, value := Parsed(WidthText(g) + (sgn + (n + tail))), if sign < 0 then -(Number(0, n) as int) else Number(0, n);
      if sign == 1 || sign == -1 then r.x == Some(Coord(value, sign < 0)) else r.y == Some(Coord(value, sign < 0))
  {
    ReadsWidth(g, sgn + (n + tail));
    hide SignedInt, WidthText, Number;
    ReadsOne(sgn, sign, n, tail);
  }

  lemma Grouped(w: string, sgn: string, n: string, tail: string)
    ensures w + sgn + n + tail == w + (sgn + (n + tail)) && n + "" == n
  {
  }

  lemma HeightIsWrong(g: Geometry)
    requires Printable(g) && g.height.Some?
    ensures Parsed(Printed(Nines(), g)) != Normal(g)
  {
    hide Parsed, Field, PrintWidth, PrintX, PrintY, WidthText, Number;
    var p := PrintWidth(Page(Nines(), ""), g);
    var n := WidthInNines(g, "x", g.height.value);
    var tail := OffsetsFollow(PrintHeight(p, g), g);
    Grouped(WidthText(g), "x", n, tail);
    ReadsHeight(g, n, tail);
  }

  lemma XIsWrong(g: Geometry)
    requires Printable(g) && g.height.None? && g.x.Some?
    ensures Parsed(Printed(Nines(), g)) != Normal(g)
  {
    hide Parsed, Field, PrintWidth, WidthText, Number;
    var p, c := PrintWidth(Page(Nines(), ""), g), g.x.value;
    var n := WidthInNines(g, SignText(c), Magnitude(c));
    var tail := FieldAfter(PrintX(p, g), g.y, "");
    assert Printed(Nines(), g) == PrintX(p, g).text + tail == WidthText(g) + SignText(c) + n + tail;
    Grouped(WidthText(g), SignText(c), n, tail);
    ReadsOffset(g, SignText(c), if SignText(c) == "-" then -1 else 1, n, tail);
  }

  lemma YIsWrong(g: Geometry)
    requires Printable(g) && g.height.None? && g.x.None? && g.y.Some?
    ensures Parsed(Printed(Nines(), g)) != Normal(g)
  {
    hide Parsed, Field, PrintWidth, WidthText, Number;
    var p, c := PrintWidth(Page(Nines(), ""), g), g.y.value;
    var sgn := "+" + SignText(c);
    var n := WidthInNines(g, sgn, Magnitude(c));
    Grouped(p.text, "+", SignText(c), "");
    assert Add(Add(p, "+"), SignText(c)) == Add(p, sgn);
    assert Printed(Nines(), g) == WidthText(g) + sgn + n == WidthText(g) + sgn + n + "";
    Grouped(WidthText(g), sgn, n, "");
    ReadsOffset(g, sgn, if sgn == "+-" then -3 else 2, n, "");
  }

  /** A geometry comes back from its text, whatever the buffer held, exactly if there is at most a width to print. */
  lemma PrintsOnlyWidthsReliably(g: Geometry)
    requires Printable(g)
    ensures (forall mem :: |mem| == BUFFER_SIZE ==> Parsed(Printed(mem, g)) == Normal(g))
            <==> g.height.None? && g.x.None? && g.y.None?
  {
    hide Parsed, Normal, Printed;
    if g.height.Some? {
      HeightIsWrong(g);
    } else if g.x.Some? {
      XIsWrong(g);
    } else if g.y.Some? {
      YIsWrong(g);
    } else {
      forall mem | |mem| == BUFFER_SIZE ensures Parsed(Printed(mem, g)) == Normal(g) {
        WidthIsRight(mem, g);
        GeometryRoundTrip(g);
      }
    }
  }

  lemma WidthIsRight(mem: string, g: Geometry)
    requires Printable(g) && |mem| == BUFFER_SIZE && g.height.None? && g.x.None? && g.y.None?
    ensures Printed(mem, g) == Text(g)
  {
    if g.width.Some? {
      FirstFieldIsRight(mem, g.width.value);
    }
  }

  // ---------------------------------------------------------------- where what comes along does no harm

  function Zeros(k: nat): (s: string)
    ensures |s| == k && AllDigits(s) && forall i :: 0 <= i < k ==> s[i] == '0'
  {
    seq(k, _ => '0')
  }

  lemma {:induction false} ZerosCountNothing(k: nat, digits: string)
    ensures Number(0, Zeros(k) + digits) == Number(0, digits)
  {
    if k == 0 {
      assert Zeros(k) + digits == digits;
    } else {
      var s := Zeros(k) + digits;
      assert s[0] == '0' && s[1..] == Zeros(k - 1) + digits;
      ZerosCountNothing(k - 1, digits);
    }
  }

  /** In front of its last n characters and the closing NUL the buffer holds nothing but zeros. */
  ghost predicate Clean(mem: string, n: nat)
  {
    |mem| == BUFFER_SIZE && n < BUFFER_SIZE && forall k :: 0 <= k < BUFFER_SIZE - 1 - n ==> mem[k] == '0'
  }

  /** There a number at least as long as those before is printed with zeros in front, and so reads as itself. */
  lemma FieldOnZeros(p: Page, v: nat, before: nat) returns (n: string)
    requires Clean(p.mem, before) && v < CARD32 && before <= |Decimal(v)| && |p.text| <= 77
    ensures Field(p, v).text == p.text + n && n != "" && AllDigits(n) && Number(0, n) == v
    ensures Clean(Field(p, v).mem, |Decimal(v)|) && |n| == |p.text| + |Decimal(v)| && |Decimal(v)| <= 10
  {
    TenDigits(v);
    NumberOfDecimal(v);
    var d, k := Decimal(v), |p.text|;
    hide Decimal, Number;
    var mem := Put(p.mem, v);
    var from := BUFFER_SIZE - 1 - |d| - k;
    n := Zeros(k) + d;
    assert mem[from..] == n + ['\0'] + "";
    UpToNulIs(n, "");
    ZerosCountNothing(k, d);
  }

  function Length(v: nat): nat { |Decimal(v)| }

  /** How many characters at the end of the buffer the last of three numbers takes up. */
  function Last(a: Option<nat>, b: Option<nat>, c: Option<nat>): nat
  {
    if c.Some? then Length(c.value) else if b.Some? then Length(b.value) else if a.Some? then Length(a.value) else 0
  }

  function Amount(c: Option<Coord>): Option<nat>
  {
    if c.Some? then Some(Magnitude(c.value)) else None
  }

  /** No number of the geometry is shorter than the one before it. */
  ghost predicate Growing(g: Geometry)
  {
    && (g.height.Some? ==> Last(None, None, g.width) <= Length(g.height.value))
    && (g.x.Some? ==> Last(None, g.width, g.height) <= Length(Magnitude(g.x.value)))
    && (g.y.Some? ==> Last(g.width, g.height, Amount(g.x)) <= Length(Magnitude(g.y.value)))
  }

  /** In a buffer of zeros a geometry whose numbers do not get shorter is printed as what it is. */
  lemma PrintedOnZeros(g: Geometry)
    requires Printable(g) && Growing(g)
    ensures Parsed(Printed(Zeros(BUFFER_SIZE), g)) == Normal(g)
  {
    hide Parsed, Field, PrintWidth, PrintHeight, PrintX, PrintY, Number, Length, SignedInt, NormalCoord;
    var p := Page(Zeros(BUFFER_SIZE), "");
    var p1 := PrintWidth(p, g);
    var p2 := PrintHeight(p1, g);
    var p3 := PrintX(p2, g);
    var wn := WidthOnZeros(p, g);
    var hn := HeightOnZeros(p1, g);
    var xn := XOnZeros(p2, g);
    var yn := YOnZeros(p3, g);
    var o := xn + yn;
    var h := hn + o;
    OffsetsOnZeros(g, xn, yn);
    assert Printed(Zeros(BUFFER_SIZE), g) == wn + h;
    if g.height.Some? {
      HeightRead(hn[1..], o);
      assert h == "x" + (hn[1..] + o);
    } else {
      assert h == o;
    }
    if g.width.Some? {
      WidthRead(wn, h);
    } else {
      assert wn + h == h;
      NoWidthRead(h);
    }
  }

  lemma WidthOnZeros(p: Page, g: Geometry) returns (n: string)
    requires Printable(g) && p == Page(Zeros(BUFFER_SIZE), "")
    ensures PrintWidth(p, g).text == n && Clean(PrintWidth(p, g).mem, Last(None, None, g.width)) && |n| <= 10
    ensures if g.width.Some? then n != "" && AllDigits(n) && Number(0, n) == g.width.value else n == ""
  {
    n := "";
    if g.width.Some? {
      n := FieldOnZeros(p, g.width.value, 0);
    }
  }

  lemma HeightOnZeros(p: Page, g: Geometry) returns (n: string)
    requires Printable(g) && Growing(g) && Clean(p.mem, Last(None, None, g.width)) && |p.text| <= 10
    ensures PrintHeight(p, g).text == p.text + n && Clean(PrintHeight(p, g).mem, Last(None, g.width, g.height))
    ensures |PrintHeight(p, g).text| <= 32 && Follows(n)
    ensures if g.height.Some? then |n| > 1 && n[0] == 'x' && AllDigits(n[1..]) && Number(0, n[1..]) == g.height.value else n == ""
  {
    n := "";
    if g.height.Some? {
      var d := FieldOnZeros(Add(p, "x"), g.height.value, Last(None, None, g.width));
      n := "x" + d;
      assert n[1..] == d;
    }
  }

  /** A coordinate as it is printed. */
  ghost predicate Shown(n: string, c: Option<Coord>)
  {
    if c.None? then n == ""
    else |n| > 1 && n[..1] == SignText(c.value) && AllDigits(n[1..]) && Number(0, n[1..]) == Magnitude(c.value)
  }

  lemma XOnZeros(p: Page, g: Geometry) returns (n: string)
    requires Printable(g) && Growing(g) && Clean(p.mem, Last(None, g.width, g.height)) && |p.text| <= 32
    ensures PrintX(p, g).text == p.text + n && Clean(PrintX(p, g).mem, Last(g.width, g.height, Amount(g.x)))
    ensures |PrintX(p, g).text| <= 76 && Follows(n)
    ensures if g.x.None? && g.y.Some? then n == "+" else Shown(n, g.x)
  {
    n := if g.x.None? && g.y.Some? then "+" else "";
    if g.x.Some? {
      n := CoordOnZeros(p, g.x.value, Last(None, g.width, g.height));
    }
  }

  lemma YOnZeros(p: Page, g: Geometry) returns (n: string)
    requires Printable(g) && Growing(g) && Clean(p.mem, Last(g.width, g.height, Amount(g.x))) && |p.text| <= 76
    ensures PrintY(p, g).text == p.text + n && Shown(n, g.y) && Follows(n)
  {
    n := "";
    if g.y.Some? {
      n := CoordOnZeros(p, g.y.value, Last(g.width, g.height, Amount(g.x)));
    }
  }

  lemma CoordOnZeros(p: Page, c: Coord, before: nat) returns (n: string)
    requires Magnitude(c) < CARD32 && before <= Length(Magnitude(c)) && Clean(p.mem, before) && |p.text| <= 76
    ensures PrintOffset(p, c).text == p.text + n && Clean(PrintOffset(p, c).mem, Length(Magnitude(c)))
    ensures Shown(n, Some(c)) && Follows(n) && |n| <= |p.text| + 12
  {
    var d := FieldOnZeros(Add(p, SignText(c)), Magnitude(c), before);
    n := SignText(c) + d;
    assert n[1..] == d && n[..1] == SignText(c);
    assert p.text + n == p.text + SignText(c) + d;
  }

  lemma OffsetsOnZeros(g: Geometry, xn: string, yn: string)
    requires (if g.x.None? && g.y.Some? then xn == "+" else Shown(xn, g.x)) && Shown(yn, g.y) && Follows(yn)
    ensures ParsedOffsets(SignedInt(xn + yn)) == (Normal(g).x, Normal(g).y) && Follows(xn + yn)
    ensures SignedInt(xn + yn).sign != 0 && SignedInt(xn + yn).sign != 4
  {
    hide SignedInt, Number;
    ReadsEnd();
    if g.y.Some? {
      var y := g.y.value;
      assert yn + "" == yn;
      CoordRead(y, yn, "");
      if g.x.Some? {
        CoordRead(g.x.value, xn, yn);
      } else {
        ReadsOne("+" + SignText(y), if SignText(y) == "-" then -3 else 2, yn[1..], "");
        assert xn + yn == ("+" + SignText(y)) + (yn[1..] + "");
      }
    } else {
      assert xn + yn == xn;
      if g.x.Some? {
        CoordRead(g.x.value, xn, "");
        assert xn + "" == xn;
      }
    }
  }

  lemma CoordRead(c: Coord, n: string, rest: string)
    requires Shown(n, Some(c)) && Follows(rest)
    ensures SignedInt(n + rest) == Signed(NormalCoord(c).value, if NormalCoord(c).negative then -1 else 1, rest)
    ensures Follows(n + rest)
  {
    hide SignedInt, Number;
    var digits := n[1..];
    assert n == SignText(c) + digits;
    assert n + rest == SignText(c) + (digits + rest);
    ReadsOne(SignText(c), if SignText(c) == "-" then -1 else 1, digits, rest);
  }
}
