/** Geometry strings as libAfterBase/parse.c reads them: WIDTHxHEIGHT+X+Y, where a sign of its own in front of
    another sign stands for an X of zero. */
module GeometryText {
  import opened Common

  /** A coordinate; a negative one counts from the far edge, so that -0 is not 0. */
  datatype Coord = Coord(value: int, negative: bool)

  datatype Geometry = Geometry(width: Option<nat>, height: Option<nat>, x: Option<Coord>, y: Option<Coord>)

  // ---------------------------------------------------------------- decimal numbers

  predicate IsDigit(c: char)
  {
    '0' <= c <= '9'
  }

  predicate IsSpace(c: char)
  {
    c == ' ' || '\t' <= c <= '\r'
  }

  predicate AllDigits(s: string)
  {
    forall i :: 0 <= i < |s| ==> IsDigit(s[i])
  }

  function DigitValue(c: char): nat
  {
    if IsDigit(c) then (c - '0') as nat else 0
  }

  function Digit(d: nat): (c: char)
    requires d < 10
    ensures IsDigit(c) && DigitValue(c) == d
  {
    '0' + (d as char)
  }

  /** The number that digits stand for, continuing val. */
  function Number(val: nat, digits: string): nat
    decreases |digits|
  {
    if digits == "" then val else Number(val * 10 + DigitValue(digits[0]), digits[1..])
  }

  /** A number in decimal. */
  function Decimal(n: nat): (s: string)
    ensures |s| > 0 && AllDigits(s)
  {
    if n < 10 then [Digit(n)] else Decimal(n / 10) + [Digit(n % 10)]
  }

  lemma {:induction false} NumberJoin(val: nat, a: string, b: string)
    ensures Number(val, a + b) == Number(Number(val, a), b)
    decreases |a|
  {
    if a == "" {
      assert a + b == b;
    } else {
      assert (a + b)[1..] == a[1..] + b;
      NumberJoin(val * 10 + DigitValue(a[0]), a[1..], b);
    }
  }

  lemma {:induction false} NumberOfDecimal(n: nat)
    ensures Number(0, Decimal(n)) == n
  {
    if n >= 10 {
      NumberOfDecimal(n / 10);
      NumberJoin(0, Decimal(n / 10), [Digit(n % 10)]);
      assert [Digit(n % 10)][1..] == "";
    }
  }

  /** A number in front of a decimal makes the whole larger. */
  lemma {:induction false} NumberGrows(val: nat, digits: string)
    ensures Number(val, digits) >= Number(0, digits) + val
    decreases |digits|
  {
    if digits != "" {
      var d := DigitValue(digits[0]);
      NumberApart(val * 10 + d, d, digits[1..]);
    }
  }

  lemma {:induction false} NumberApart(a: nat, b: nat, digits: string)
    requires a >= b
    ensures Number(a, digits) >= Number(b, digits) + (a - b)
    decreases |digits|
  {
    if digits != "" {
      var d := DigitValue(digits[0]);
      NumberApart(a * 10 + d, b * 10 + d, digits[1..]);
    }
  }

  // ---------------------------------------------------------------- one number with its sign

  /** The digits at the start of a text. */
  function Leading(s: string): (r: string)
    ensures r <= s && AllDigits(r)
  {
    if s == "" || !IsDigit(s[0]) then "" else assert s == [s[0]] + s[1..]; [s[0]] + Leading(s[1..])
  }

  lemma {:induction false} LeadingIs(digits: string, rest: string)
    requires AllDigits(digits) && (rest == "" || !IsDigit(rest[0]))
    ensures Leading(digits + rest) == digits && (digits + rest)[|digits|..] == rest
  {
    if digits == "" {
      assert digits + rest == rest;
    } else {
      assert (digits + rest)[1..] == digits[1..] + rest;
      LeadingIs(digits[1..], rest);
      assert digits == [digits[0]] + digits[1..];
    }
  }

  function SkipSpaces(s: string): string
  {
    if s != "" && IsSpace(s[0]) then SkipSpaces(s[1..]) else s
  }

  /** The sign: 0 none, 1 and -1 plain, 2 and -2 doubled, 3 for -+, -3 for +-, 4 an x, 5 the end of the text;
      and how much of the text it takes up. */
  function Sign(s: string): (r: (int, nat))
    ensures r.1 <= |s|
  {
    if s == "" then (5, 0)
    else if s[0] == '-' then
      if |s| > 1 && s[1] == '-' then (-2, 2) else if |s| > 1 && s[1] == '+' then (3, 2) else (-1, 1)
    else if s[0] == '+' then
      if |s| > 1 && s[1] == '-' then (-3, 2) else if |s| > 1 && s[1] == '+' then (2, 2) else (1, 1)
    else if s[0] == '=' then (0, 1)
    else if s[0] == 'x' || s[0] == 'X' then (4, 1)
    else (0, 0)
  }

  datatype Signed = Signed(val: int, sign: int, rest: string)

  /** The number at the start of a text, with its sign, and what follows. */
  function SignedInt(text: string): Signed
  {
    var s := SkipSpaces(text);
    var (sign, n) := Sign(s);
    var digits := Leading(s[n..]);
    var val: int := Number(0, digits);
    Signed(if sign < 0 then -val else val, sign, s[n + |digits|..])
  }

  method SkipBlanks(tline: string) returns (i: nat)
    ensures i <= |tline| && tline[i..] == SkipSpaces(tline)
  {
    i := 0;
    while i < |tline| && IsSpace(tline[i])
      invariant i <= |tline| && SkipSpaces(tline[i..]) == SkipSpaces(tline)
    {
      assert tline[i..][1..] == tline[i + 1..];
      i := i + 1;
    }
  }

  method ReadSign(tline: string, from: nat) returns (sign: int, i: int)
    requires from <= |tline|
    ensures (sign, i + 1 - from) == Sign(tline[from..])
  {
    i, sign := from, 0;
    if i == |tline| {
      return 5, i - 1;
    }
    var second := if i + 1 < |tline| then tline[i + 1] else '\0';
    match tline[i] {
      case '-' =>
        sign := -1;
        if second == '-' {
          i, sign := i + 1, -2;
        } else if second == '+' {
          i, sign := i + 1, 3;
        }
      case '+' =>
        sign := 1;
        if second == '-' {
          i, sign := i + 1, -3;
        } else if second == '+' {
          i, sign := i + 1, 2;
        }
      case '=' =>
      case 'x' => sign := 4;
      case 'X' => sign := 4;
      case _ => i := i - 1;
    }
  }

  method ReadDigits(tline: string, start: nat) returns (n: nat, i: nat)
    requires start <= |tline|
    ensures n == Number(0, Leading(tline[start..])) && i == start + |Leading(tline[start..])|
  {
    n, i := 0, start;
    ghost var s := tline[start..];
    while i < |tline| && IsDigit(tline[i])
      invariant start <= i <= |tline| && i + |Leading(tline[i..])| == start + |Leading(s)|
      invariant Number(n, Leading(tline[i..])) == Number(0, Leading(s))
    {
      assert tline[i..][1..] == tline[i + 1..] && tline[i..][0] == tline[i];
      assert Leading(tline[i..]) == [tline[i]] + Leading(tline[i + 1..]);
      assert Leading(tline[i..])[1..] == Leading(tline[i + 1..]);
      n := n * 10 + (tline[i] - '0') as nat;
      i := i + 1;
    }
    assert Leading(tline[i..]) == "";
  }

  /** Reads a number with its sign, and returns what follows it. */
  method ParseSignedInt(tline: string) returns (val: int, sign: int, rest: string)
    ensures Signed(val, sign, rest) == SignedInt(tline)
  {
    hide Number, Leading, SkipSpaces, Sign;
    var from := SkipBlanks(tline);
    var i, end;
    var n: int;
    sign, i := ReadSign(tline, from);
    ghost var s, k := tline[from..], i + 1 - from;
    n, end := ReadDigits(tline, i + 1);
    assert s[k..] == tline[i + 1..];
    assert s[k + |Leading(s[k..])|..] == tline[end..];
    val, rest := if sign < 0 then -n else n, tline[end..];
  }

  // ---------------------------------------------------------------- a whole geometry

  /** What the reader makes of a text. */
  function Parsed(tline: string): Geometry
  {
    var a := SignedInt(tline);
    var (width, b) := if a.sign == 0 && a.val >= 0 then (Some(a.val as nat), SignedInt(a.rest)) else (None, a);
    var (height, c) := if b.sign == 4 && b.val >= 0 then (Some(b.val as nat), SignedInt(b.rest)) else (None, b);
    if c.sign == 0 || c.sign == 1 || c.sign == -1 then
      var d := SignedInt(c.rest);
      Geometry(width, height, Some(Coord(c.val, c.sign < 0)), Offset(d))
    else if c.sign != 5 then
      Geometry(width, height, Some(Coord(0, c.sign == -2 || c.sign == 3)), Offset(c))
    else
      Geometry(width, height, None, None)
  }

  function Offset(d: Signed): Option<Coord>
  {
    if d.sign != 5 then Some(Coord(d.val, d.sign < 0)) else None
  }

  lemma SignedIntSign(text: string)
    ensures SignedInt(text).sign >= 0 ==> SignedInt(text).val >= 0
  {
  }

  /** Reads a geometry: the size if there is one, then the offsets. */
  method ParseGeometry(text: string) returns (g: Geometry)
    ensures g == Parsed(text)
  {
    hide SignedInt;
    var width, height, x, y := None, None, None, None;
    var val, sign, tline := ParseSignedInt(text);
    SignedIntSign(text);
    if sign == 0 {
      width := Some(val as nat);
      SignedIntSign(tline);
      val, sign, tline := ParseSignedInt(tline);
    }
    if sign == 4 {
      height := Some(val as nat);
      SignedIntSign(tline);
      val, sign, tline := ParseSignedInt(tline);
    }
    if sign == 0 {
      sign := 1;
    }
    if sign == 1 || sign == -1 {
      x := Some(Coord(val, sign < 0));
      val, sign, tline := ParseSignedInt(tline);
    } else if sign != 5 {
      x := Some(Coord(0, sign == -2 || sign == 3));
    }
    if sign != 5 {
      y := Some(Coord(val, sign < 0));
    }
    g := Geometry(width, height, x, y);
  }

  /** What a coordinate stands for: a negative value, or a negative sign, both make it count from the far edge. */
  function NormalCoord(c: Coord): Coord
  {
    if c.negative || c.value < 0 then Coord(-Magnitude(c), true) else c
  }

  function Magnitude(c: Coord): (m: int)
    ensures m >= 0
  {
    if c.value < 0 then -c.value else c.value
  }

  /** A geometry in normal form: a Y never stands without an X. */
  function Normal(g: Geometry): Geometry
  {
    Geometry(g.width, g.height,
             if g.x.Some? then Some(NormalCoord(g.x.value)) else if g.y.Some? then Some(Coord(0, false)) else None,
             if g.y.Some? then Some(NormalCoord(g.y.value)) else None)
  }

  function SignText(c: Coord): string
  {
    if c.negative || c.value < 0 then "-" else "+"
  }

  function OffsetText(c: Coord): string
  {
    SignText(c) + Decimal(Magnitude(c))
  }

  /** The offsets of a geometry as a text: an X left out before a Y leaves its sign. */
  function OffsetsText(g: Geometry): string
  {
    (if g.x.Some? then OffsetText(g.x.value) else if g.y.Some? then "+" else "")
    + if g.y.Some? then OffsetText(g.y.value) else ""
  }

  function HeightText(g: Geometry): string
  {
    if g.height.Some? then "x" + Decimal(g.height.value) else ""
  }

  function WidthText(g: Geometry): string
  {
    if g.width.Some? then Decimal(g.width.value) else ""
  }

  /** The text of a geometry. */
  function Text(g: Geometry): string
  {
    WidthText(g) + (HeightText(g) + OffsetsText(g))
  }

  /** The signs there are, as texts. */
  ghost predicate SignFor(sgn: string, sign: int)
  {
    || (sgn == "" && sign == 0) || (sgn == "x" && sign == 4) || (sgn == "+" && sign == 1) || (sgn == "-" && sign == -1)
    || (sgn == "++" && sign == 2) || (sgn == "+-" && sign == -3) || (sgn == "--" && sign == -2) || (sgn == "-+" && sign == 3)
    || (sgn == "=" && sign == 0) || (sgn == "X" && sign == 4)
  }

  /** A sign and digits are read as one number, up to what is not a digit. */
  lemma ReadsOne(sgn: string, sign: int, digits: string, rest: string)
    requires SignFor(sgn, sign) && digits != "" && AllDigits(digits) && (rest == "" || !('0' <= rest[0] <= '9'))
    ensures var n: int := Number(0, digits);
      SignedInt(sgn + (digits + rest)) == Signed(if sign < 0 then -n else n, sign, rest)
  {
    hide Number, Leading;
    var s := sgn + (digits + rest);
    assert (digits + rest)[0] == digits[0] && IsDigit(digits[0]);
    assert if sgn == "" then s[0] == digits[0] else s[0] == sgn[0];
    assert |sgn| == 1 ==> s[1] == digits[0];
    assert |sgn| == 2 ==> s[1] == sgn[1];
    assert SkipSpaces(s) == s && Sign(s) == (sign, |sgn|);
    assert s[|sgn|..] == digits + rest;
    LeadingIs(digits, rest);
    assert s[|sgn| + |digits|..] == (digits + rest)[|digits|..];
  }

  lemma ReadsEnd()
    ensures SignedInt("").sign == 5
  {
  }

  /** What the reader makes of the offsets once the size has been read. */
  function ParsedOffsets(c: Signed): (r: (Option<Coord>, Option<Coord>))
  {
    if c.sign == 0 || c.sign == 1 || c.sign == -1 then (Some(Coord(c.val, c.sign < 0)), Offset(SignedInt(c.rest)))
    else if c.sign != 5 then (Some(Coord(0, c.sign == -2 || c.sign == 3)), Offset(c))
    else (None, None)
  }

  lemma OffsetRoundTrip(c: Coord, rest: string)
    requires rest == "" || !IsDigit(rest[0])
    ensures SignedInt(OffsetText(c) + rest) ==
      Signed(NormalCoord(c).value, if NormalCoord(c).negative then -1 else 1, rest)
  {
    var digits := Decimal(Magnitude(c));
    NumberOfDecimal(Magnitude(c));
    ReadsOne(SignText(c), if SignText(c) == "-" then -1 else 1, digits, rest);
    assert OffsetText(c) + rest == SignText(c) + (digits + rest);
  }

  lemma OffsetsRoundTrip(g: Geometry)
    ensures var s := OffsetsText(g);
      && ParsedOffsets(SignedInt(s)) == (Normal(g).x, Normal(g).y)
      && (s == "" || !IsDigit(s[0])) && SignedInt(s).sign != 0 && SignedInt(s).sign != 4
  {
    hide SignedInt, Decimal, Number;
    ReadsEnd();
    if g.y.Some? {
      var y := g.y.value;
      assert OffsetText(y) + "" == OffsetText(y);
      OffsetRoundTrip(y, "");
      if g.x.Some? {
        OffsetRoundTrip(g.x.value, OffsetText(y));
      } else {
        NumberOfDecimal(Magnitude(y));
        ReadsOne("+" + SignText(y), if SignText(y) == "-" then -3 else 2, Decimal(Magnitude(y)), "");
        assert OffsetsText(g) == ("+" + SignText(y)) + (Decimal(Magnitude(y)) + "");
      }
    } else if g.x.Some? {
      OffsetRoundTrip(g.x.value, "");
    }
  }

  /** Reading the text of a geometry gives the geometry back in normal form. */
  lemma GeometryRoundTrip(g: Geometry)
    ensures Parsed(Text(g)) == Normal(g)
  {
    hide SignedInt, Decimal, Number, OffsetsText, NormalCoord;
    var o, h := OffsetsText(g), HeightText(g) + OffsetsText(g);
    OffsetsRoundTrip(g);
    if g.height.Some? {
      NumberOfDecimal(g.height.value);
      ReadsOne("x", 4, Decimal(g.height.value), o);
      assert h == "x" + (Decimal(g.height.value) + o);
    } else {
      assert h == o;
    }
    if g.width.Some? {
      NumberOfDecimal(g.width.value);
      ReadsOne("", 0, Decimal(g.width.value), h);
      assert Text(g) == "" + (Decimal(g.width.value) + h);
    } else {
      assert Text(g) == h;
    }
  }

  // ---------------------------------------------------------------- what is not printed, but read

  /** Blanks in front of a number make no difference. */
  lemma BlanksAreSkipped(blanks: string, text: string)
    requires forall c :: c in blanks ==> c in [' ', '\t', '\n', '\U{000B}', '\U{000C}', '\r']
    ensures SignedInt(blanks + text) == SignedInt(text)
    ensures text == "" || text[0] !in [' ', '\t', '\n', '\U{000B}', '\U{000C}', '\r'] ==> SkipSpaces(blanks + text) == text
  {
    hide Sign, Leading, Number;
    forall c | c in blanks ensures IsSpace(c) {
    }
    SpacesAreSkipped(blanks, text);
  }

  lemma {:induction false} SpacesAreSkipped(spaces: string, text: string)
    requires forall c :: c in spaces ==> IsSpace(c)
    ensures SkipSpaces(spaces + text) == SkipSpaces(text)
  {
    if spaces == "" {
      assert spaces + text == text;
    } else {
      assert (spaces + text)[0] == spaces[0] && (spaces + text)[1..] == spaces[1..] + text;
      SpacesAreSkipped(spaces[1..], text);
    }
  }

  /** Of two signs in a row the second one is that of the number, and the number is never a size. */
  lemma SecondSignCounts(first: char, second: char, digits: string, rest: string)
    requires (first == '+' || first == '-') && (second == '+' || second == '-')
    requires digits != "" && AllDigits(digits) && (rest == "" || !IsDigit(rest[0]))
    ensures var r, n: int := SignedInt([first, second] + (digits + rest)), Number(0, digits);
      && r.val == (if second == '-' then -n else n) && (r.sign < 0 <==> second == '-') && r.rest == rest
      && r.sign != 0 && r.sign != 4 && r.sign != 5
  {
    hide Number, SignedInt;
    var sign := if first == '-' then if second == '-' then -2 else 3 else if second == '-' then -3 else 2;
    ReadsOne([first, second], sign, digits, rest);
  }

  /** A sign in front of another one stands for an X of zero on its side: "--10" is "-0-10", and so with every pair of
      signs, behind every size. */
  lemma DoubledSignIsZero(size: Geometry, first: char, second: char, digits: string, rest: string)
    requires (first == '+' || first == '-') && (second == '+' || second == '-')
    requires digits != "" && AllDigits(digits) && (rest == "" || !IsDigit(rest[0]))
    ensures var n: int := Number(0, digits);
      var g := Parsed(WidthText(size) + (HeightText(size) + ([first, second] + (digits + rest))));
      && g == Parsed(WidthText(size) + (HeightText(size) + ([first] + ("0" + ([second] + (digits + rest))))))
      && g == Geometry(size.width, size.height, Some(Coord(0, first == '-')),
                       Some(Coord(if second == '-' then -n else n, second == '-')))
  {
    hide SignedInt, Number, Decimal;
    var n: int := Number(0, digits);
    var two, apart := [first, second] + (digits + rest), [first] + ("0" + ([second] + (digits + rest)));
    TwoSignsRead(first, second, digits, rest);
    ZeroRead(first, second, digits, rest);
    SizeRead(size, two);
    SizeRead(size, apart);
  }

  lemma TwoSignsRead(first: char, second: char, digits: string, rest: string)
    requires (first == '+' || first == '-') && (second == '+' || second == '-')
    requires digits != "" && AllDigits(digits) && (rest == "" || !IsDigit(rest[0]))
    ensures var n: int := Number(0, digits);
      var c := SignedInt([first, second] + (digits + rest));
      && ParsedOffsets(c) == (Some(Coord(0, first == '-')), Some(Coord(if second == '-' then -n else n, second == '-')))
      && c.sign != 0 && c.sign != 4
  {
    hide SignedInt, Number;
    var sign := if first == '-' then if second == '-' then -2 else 3 else if second == '-' then -3 else 2;
    ReadsOne([first, second], sign, digits, rest);
  }

  lemma ZeroRead(first: char, second: char, digits: string, rest: string)
    requires (first == '+' || first == '-') && (second == '+' || second == '-')
    requires digits != "" && AllDigits(digits) && (rest == "" || !IsDigit(rest[0]))
    ensures var n: int := Number(0, digits);
      var c := SignedInt([first] + ("0" + ([second] + (digits + rest))));
      && ParsedOffsets(c) == (Some(Coord(0, first == '-')), Some(Coord(if second == '-' then -n else n, second == '-')))
      && c.sign != 0 && c.sign != 4
  {
    ZeroIsNothing();
    hide SignedInt, Number;
    ReadsOne([second], if second == '-' then -1 else 1, digits, rest);
    ReadsOne([first], if first == '-' then -1 else 1, "0", [second] + (digits + rest));
  }

  lemma ZeroIsNothing()
    ensures Number(0, "0") == 0 && AllDigits("0")
  {
    assert "0"[1..] == "";
  }

  /** A size is read in front of any offsets. */
  lemma SizeRead(size: Geometry, offsets: string)
    requires var c := SignedInt(offsets); c.sign != 0 && c.sign != 4
    requires offsets == "" || !IsDigit(offsets[0])
    ensures var r := ParsedOffsets(SignedInt(offsets));
      Parsed(WidthText(size) + (HeightText(size) + offsets)) == Geometry(size.width, size.height, r.0, r.1)
  {
    hide SignedInt, Decimal, Number;
    var h := HeightText(size) + offsets;
    if size.height.Some? {
      NumberOfDecimal(size.height.value);
      HeightRead(Decimal(size.height.value), offsets);
      assert h == "x" + (Decimal(size.height.value) + offsets);
    } else {
      assert h == offsets;
    }
    if size.width.Some? {
      NumberOfDecimal(size.width.value);
      WidthRead(Decimal(size.width.value), h);
    } else {
      assert WidthText(size) + h == h;
    }
  }

  /** What the reader makes of a text without a width: its height and offsets. */
  function ParsedHeight(text: string): (r: (Option<nat>, Option<Coord>, Option<Coord>))
  {
    var b := SignedInt(text);
    var (height, c) := if b.sign == 4 && b.val >= 0 then (Some(b.val as nat), SignedInt(b.rest)) else (None, b);
    var offsets := ParsedOffsets(c);
    (height, offsets.0, offsets.1)
  }

  lemma HeightRead(digits: string, offsets: string)
    requires digits != "" && AllDigits(digits) && (offsets == "" || !IsDigit(offsets[0]))
    ensures var r, text := ParsedOffsets(SignedInt(offsets)), "x" + (digits + offsets);
      ParsedHeight(text) == (Some(Number(0, digits)), r.0, r.1) && SignedInt(text).sign == 4
  {
    hide SignedInt, Number;
    ReadsOne("x", 4, digits, offsets);
  }

  lemma WidthRead(digits: string, text: string)
    requires digits != "" && AllDigits(digits) && (text == "" || !IsDigit(text[0]))
    ensures var r := ParsedHeight(text);
      Parsed(digits + text) == Geometry(Some(Number(0, digits)), r.0, r.1, r.2)
  {
    hide SignedInt, Number;
    ReadsOne("", 0, digits, text);
    assert "" + (digits + text) == digits + text;
  }

  /** Without a width the text does not begin with a number of no sign. */
  lemma NoWidthRead(text: string)
    requires SignedInt(text).sign != 0
    ensures var r := ParsedHeight(text); Parsed(text) == Geometry(None, r.0, r.1, r.2)
  {
  }
}
