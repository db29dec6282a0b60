/** The glyph code of libAfterImage/asfont_glyph.c: runs of empty or full pixels become one byte, any other
    pixel one byte with its lowest bit lost; and its reader in libAfterImage/asfont.c. */
module GlyphCode {
  import opened Common

  // ---------------------------------------------------------------- what a code stands for

  /** What the reader makes of the lowest bit that was lost. */
  function Restored(p: Byte): Byte
  {
    if p < 2 then 0 else if p % 2 == 0 then p + 1 else p
  }

  function Repeat(n: nat, p: Byte): (r: seq<Byte>)
    ensures |r| == n
  {
    seq(n, _ => p)
  }

  /** The pixels of one code byte. */
  function Pixels(d: Byte): (r: seq<Byte>)
    ensures 1 <= |r| <= 64
  {
    if d >= 128 then
      var v := (d - 128) * 2;
      [if v != 0 then v + 1 else v]
    else if d >= 64 then Repeat(d - 64 + 1, 255)
    else Repeat(d + 1, 0)
  }

  function Expand(code: seq<Byte>): (r: seq<Byte>)
    ensures |code| <= |r|
  {
    if code == [] then [] else Expand(code[..|code| - 1]) + Pixels(code[|code| - 1])
  }

  ghost function RestoredAll(pixels: seq<Byte>): seq<Byte>
  {
    seq(|pixels|, i requires 0 <= i < |pixels| => Restored(pixels[i]))
  }

  lemma ExpandOneMore(code: seq<Byte>, d: Byte)
    ensures Expand(code + [d]) == Expand(code) + Pixels(d)
  {
    assert (code + [d])[..|code|] == code;
  }

  /** No pixel is off by more than one, and empty and full pixels are exact. */
  lemma RestoredIsClose(p: Byte)
    ensures -1 <= Restored(p) - p <= 1
    ensures p == 0 || p == 255 || (p % 2 == 1 && p != 1) ==> Restored(p) == p
    ensures Restored(Restored(p)) == Restored(p)
  {
  }

  // ---------------------------------------------------------------- the writer

  /** n rows of a picture lie within the source, the first at base, the next each step bytes on. */
  ghost predicate InBounds(size: nat, base: int, width: nat, step: int, n: nat)
    decreases n
  {
    n == 0 || (0 <= base && base + width <= size && InBounds(size, base + step, width, step, n - 1))
  }

  /** The pixels of those rows, row by row. */
  ghost function Rows(src: seq<Byte>, base: int, width: nat, step: int, n: nat): seq<Byte>
    requires InBounds(|src|, base, width, step, n)
    decreases n
  {
    if n == 0 then [] else src[base..base + width] + Rows(src, base + step, width, step, n - 1)
  }

  /** Written so far and still pending: the code, and count + 1 pixels of the same value. */
  ghost predicate Encodes(code: seq<Byte>, count: int, last: Byte, pixels: seq<Byte>)
  {
    && -1 <= count <= 63 && (count > 0 ==> last == 0 || last == 255)
    && Expand(code) + Repeat(count + 1, Restored(last)) == RestoredAll(pixels)
    && |code| + (if count < 0 then 0 else 1) <= |pixels|
  }

  /** The byte for count + 1 pixels of the same value. */
  function Code(count: nat, last: Byte): Byte
    requires count <= 63
  {
    if count == 0 then last / 2 + 128 else if last == 255 then count + 64 else count
  }

  /** How many pixels from the first one on are one byte: a run of empty or of full ones, 64 at most. */
  ghost function RunLength(pixels: seq<Byte>, n: nat): (r: nat)
    requires n <= |pixels| && pixels != []
    ensures n <= r && (n <= 64 && n <= |pixels| ==> r <= 64 && r <= |pixels|)
    decreases |pixels| - n
  {
    if n < |pixels| && n < 64 && (pixels[0] == 0 || pixels[0] == 255) && pixels[n] == pixels[0] then RunLength(pixels, n + 1)
    else n
  }

  /** The pixels with every run taken together as far as it goes. */
  ghost function Packed(pixels: seq<Byte>): seq<Byte>
    decreases |pixels|
  {
    if pixels == [] then []
    else var r := RunLength(pixels, 1); [Code(r - 1, pixels[0])] + Packed(pixels[r..])
  }

  /** count + 1 pixels are pending, and the rest is to come. */
  ghost predicate Packs(all: seq<Byte>, code: seq<Byte>, count: int, last: Byte, rest: seq<Byte>)
  {
    count >= -1 && Packed(all) == code + Packed(Repeat(count + 1, last) + rest)
  }

  lemma {:induction false} RunIs(pixels: seq<Byte>, n: nat, r: nat)
    requires 1 <= n <= r <= 64 && r <= |pixels| && (forall k :: 0 <= k < r ==> pixels[k] == pixels[0])
    requires n == r || pixels[0] == 0 || pixels[0] == 255
    requires r == |pixels| || r == 64 || (pixels[0] != 0 && pixels[0] != 255) || pixels[r] != pixels[0]
    ensures RunLength(pixels, n) == r
    decreases r - n
  {
    if n < r {
      RunIs(pixels, n + 1, r);
    }
  }

  lemma PacksNext(all: seq<Byte>, code: seq<Byte>, count: nat, last: Byte, rest: seq<Byte>)
    requires Packs(all, code, count, last, rest) && count <= 63 && (count == 0 || last == 0 || last == 255)
    requires rest == [] || count == 63 || (last != 0 && last != 255) || rest[0] != last
    ensures Packs(all, code + [Code(count, last)], -1, last, rest)
  {
    hide RunLength, Packed, Code;
    var pixels := Repeat(count + 1, last) + rest;
    RunIs(pixels, 1, count + 1);
    PackedStep(pixels);
    assert pixels[count + 1..] == rest && Repeat(0, last) + rest == rest;
    Joined(code, Code(count, last), Packed(rest));
  }

  lemma PackedStep(pixels: seq<Byte>)
    requires pixels != []
    ensures 1 <= RunLength(pixels, 1) <= 64 && RunLength(pixels, 1) <= |pixels|
    ensures var r := RunLength(pixels, 1); Packed(pixels) == [Code(r - 1, pixels[0])] + Packed(pixels[r..])
  {
  }

  lemma Joined(a: seq<Byte>, x: Byte, b: seq<Byte>)
    ensures a + ([x] + b) == a + [x] + b
  {
  }

  lemma PacksMore(all: seq<Byte>, code: seq<Byte>, count: int, last: Byte, p: Byte, rest: seq<Byte>)
    requires Packs(all, code, count, last, [p] + rest) && (count == -1 || p == last)
    ensures Packs(all, code, count + 1, p, rest)
  {
    assert Repeat(count + 1, last) + ([p] + rest) == Repeat(count + 2, p) + rest;
  }

  /** Taken together like that, the pixels still stand in the code, each restored. */
  lemma {:induction false} PackedExpands(pixels: seq<Byte>)
    ensures Expand(Packed(pixels)) == RestoredAll(pixels)
    decreases |pixels|
  {
    hide RunLength, Packed, Code, Expand, RestoredAll;
    if pixels != [] {
      var r := RunLength(pixels, 1);
      PackedStep(pixels);
      PackedExpands(pixels[r..]);
      ExpandJoin([Code(r - 1, pixels[0])], Packed(pixels[r..]));
      OneRun(pixels, r);
      assert pixels[..r] + pixels[r..] == pixels;
      RestoredJoin(pixels[..r], pixels[r..]);
    } else {
      NothingPacked();
    }
  }

  lemma NothingPacked()
    ensures Expand(Packed([])) == RestoredAll([])
  {
  }

  lemma RestoredJoin(a: seq<Byte>, b: seq<Byte>)
    ensures RestoredAll(a + b) == RestoredAll(a) + RestoredAll(b)
  {
  }

  lemma OneRun(pixels: seq<Byte>, r: nat)
    requires pixels != [] && r == RunLength(pixels, 1)
    ensures 1 <= r <= 64 && r <= |pixels| && Expand([Code(r - 1, pixels[0])]) == RestoredAll(pixels[..r])
  {
    hide Expand, Pixels, Code, RunLength, Restored, RestoredAll, Repeat;
    PackedStep(pixels);
    RunTells(pixels, 1);
    ExpandOneMore([], Code(r - 1, pixels[0]));
    ExpandOfNothing();
    assert [] + [Code(r - 1, pixels[0])] == [Code(r - 1, pixels[0])];
    assert [] + Pixels(Code(r - 1, pixels[0])) == Pixels(Code(r - 1, pixels[0]));
    CodePixels(r - 1, pixels[0]);
    RestoredRun(pixels[..r]);
  }

  lemma ExpandOfNothing()
    ensures Expand([]) == []
  {
  }

  lemma CodePixels(count: nat, last: Byte)
    requires count <= 63 && (count == 0 || last == 0 || last == 255)
    ensures Pixels(Code(count, last)) == Repeat(count + 1, Restored(last))
  {
  }

  lemma RestoredRun(pixels: seq<Byte>)
    requires pixels != [] && forall k :: 0 <= k < |pixels| ==> pixels[k] == pixels[0]
    ensures RestoredAll(pixels) == Repeat(|pixels|, Restored(pixels[0]))
  {
  }

  lemma {:induction false} RunTells(pixels: seq<Byte>, n: nat)
    requires 1 <= n <= |pixels| && n <= 64 && forall k :: 0 <= k < n ==> pixels[k] == pixels[0]
    ensures forall k :: 0 <= k < RunLength(pixels, n) ==> pixels[k] == pixels[0]
    ensures RunLength(pixels, n) > n ==> pixels[0] == 0 || pixels[0] == 255
    decreases |pixels| - n
  {
    if n < |pixels| && n < 64 && (pixels[0] == 0 || pixels[0] == 255) && pixels[n] == pixels[0] {
      RunTells(pixels, n + 1);
    }
  }

  lemma Rejoined(a: seq<Byte>, b: seq<Byte>, c: seq<Byte>)
    ensures a + (b + c) == a + b + c
  {
  }

  lemma {:induction false} ExpandJoin(a: seq<Byte>, b: seq<Byte>)
    ensures Expand(a + b) == Expand(a) + Expand(b)
    decreases |b|
  {
    hide *;
    if b == [] {
      ExpandOfNothing();
      assert a + b == a;
    } else {
      var m := |b| - 1;
      ExpandJoin(a, b[..m]);
      ExpandOneMore(a + b[..m], b[m]);
      ExpandOneMore(b[..m], b[m]);
      LastApart(a, b);
      Rejoined(Expand(a), Expand(b[..m]), Pixels(b[m]));
    }
  }

  lemma LastApart(a: seq<Byte>, b: seq<Byte>)
    requires b != []
    ensures var m := |b| - 1; a + b == a + b[..m] + [b[m]] && b == b[..m] + [b[m]]
  {
  }

  /** The bits of a code byte, as the reader takes them apart: the top bit for a single pixel, else the next one for
      full or empty, and six for the length of the run. */
  lemma PixelsByBits(d: bv8)
    ensures d & 0x80 != 0 ==> var v := (d & 0x7F) << 1; Pixels(d as int) == [(if v != 0 then v + 1 else v) as int]
    ensures d & 0x80 == 0 ==>
      Pixels(d as int) == Repeat((d & 0x3F) as int + 1, if d & 0x40 != 0 then 0xFF else 0)
  {
  }

  /** And as the writer puts them together. */
  lemma CodeByBits(count: bv8, last: bv8)
    requires count <= 63
    ensures Code(count as int, last as int) ==
      (if count == 0 then (last >> 1) | 0x80 else if last == 0xFF then count | 0x40 else count) as int
  {
  }

  lemma EncodesFirst(p: Byte)
    ensures Encodes([], 0, p, [p])
  {
  }

  lemma EncodesRun(code: seq<Byte>, count: nat, last: Byte, pixels: seq<Byte>)
    requires Encodes(code, count, last, pixels) && count < 63 && (last == 0 || last == 255)
    ensures Encodes(code, count + 1, last, pixels + [last])
  {
    assert Repeat(count + 2, Restored(last)) == Repeat(count + 1, Restored(last)) + [Restored(last)];
    assert RestoredAll(pixels + [last]) == RestoredAll(pixels) + [Restored(last)];
  }

  lemma EncodesFlush(code: seq<Byte>, count: nat, last: Byte, pixels: seq<Byte>)
    requires Encodes(code, count, last, pixels)
    ensures Expand(code + [Code(count, last)]) == RestoredAll(pixels)
  {
    ExpandOneMore(code, Code(count, last));
    assert Pixels(Code(count, last)) == Repeat(count + 1, Restored(last));
  }

  lemma EncodesBound(code: seq<Byte>, count: nat, last: Byte, pixels: seq<Byte>)
    requires Encodes(code, count, last, pixels)
    ensures |code| + 1 <= |pixels|
  {
  }

  lemma EncodesNext(code: seq<Byte>, count: nat, last: Byte, pixels: seq<Byte>, p: Byte)
    requires Encodes(code, count, last, pixels)
    ensures Encodes(code + [Code(count, last)], 0, p, pixels + [p])
  {
    EncodesFlush(code, count, last, pixels);
    assert RestoredAll(pixels + [p]) == RestoredAll(pixels) + [Restored(p)];
    assert Repeat(1, Restored(p)) == [Restored(p)];
  }

  /** The pixels from place k of the first of n rows on. */
  ghost function FromHere(src: seq<Byte>, base: int, k: nat, width: nat, step: int, n: nat): seq<Byte>
    requires InBounds(|src|, base, width, step, n) && k <= width
  {
    if n == 0 then [] else src[base + k..base + width] + Rows(src, base + step, width, step, n - 1)
  }

  lemma OnePixelOn(src: seq<Byte>, base: int, k: nat, width: nat, step: int, n: nat)
    requires n > 0 && InBounds(|src|, base, width, step, n) && k < width
    ensures 0 <= base && base + k < |src| && InBounds(|src|, base + step, width, step, n - 1)
    ensures FromHere(src, base, k, width, step, n) == [src[base + k]] +
      if k + 1 < width then FromHere(src, base, k + 1, width, step, n) else FromHere(src, base + step, 0, width, step, n - 1)
  {
    var x, tail, rest := src[base + k], src[base + k + 1..base + width], Rows(src, base + step, width, step, n - 1);
    assert src[base + k..base + width] == [x] + tail;
    assert ([x] + tail) + rest == [x] + (tail + rest);
    if k + 1 == width {
      assert tail == [] && tail + rest == rest;
      RowsFromHere(src, base + step, width, step, n - 1);
    }
  }

  lemma RowsFromHere(src: seq<Byte>, base: int, width: nat, step: int, n: nat)
    requires InBounds(|src|, base, width, step, n)
    ensures FromHere(src, base, 0, width, step, n) == Rows(src, base, width, step, n)
  {
  }

  lemma NothingLeft(src: seq<Byte>, base: int, k: nat, width: nat, step: int)
    requires InBounds(|src|, base, width, step, 0) && k <= width
    ensures FromHere(src, base, k, width, step, 0) == []
  {
  }

  lemma StartsHere(src: seq<Byte>, width: nat, step: int, n: nat)
    requires n > 0 && width > 0 && InBounds(|src|, 0, width, step, n)
    ensures FromHere(src, 0, 0, width, step, n) == Rows(src, 0, width, step, n) && |src| > 0
  {
  }

  /** The byte for count + 1 pixels, at place i of the buffer. */
  method Emit(buffer: array<Byte>, i: nat, count: nat, last: Byte)
    requires i < buffer.Length && count <= 63
    modifies buffer
    ensures buffer[..i + 1] == old(buffer[..i]) + [Code(count, last)]
  {
    if count == 0 {
      buffer[i] := last / 2 + 0x80;
    } else if last == 0xFF {
      buffer[i] := count + 0x40;
    } else {
      buffer[i] := count;
    }
  }

  lemma PendingRun(code: seq<Byte>, count: nat, last: Byte, pixels: seq<Byte>)
    requires Encodes(code, count, last, pixels)
    ensures count == 0 || last == 0 || last == 255
  {
  }

  /** One more pixel: it joins the pending run, or the run is written out and the pixel starts a new one. */
  method Feed(buffer: array<Byte>, i: nat, count: int, last: Byte, p: Byte, ghost done: seq<Byte>,
              ghost all: seq<Byte>, ghost rest: seq<Byte>)
      returns (i': nat, count': int, last': Byte)
    requires |done| < buffer.Length && i <= buffer.Length && -1 <= count <= 63
    requires if count < 0 then done == [] && i == 0 && p == last else Encodes(buffer[..i], count, last, done)
    requires Packs(all, buffer[..i], count, last, [p] + rest)
    modifies buffer
    ensures i' <= buffer.Length && 0 <= count' <= 63 && Encodes(buffer[..i'], count', last', done + [p])
    ensures Packs(all, buffer[..i'], count', last', rest)
  {
    hide Encodes, Code, Packs, Packed;
    if count >= 0 {
      PendingRun(buffer[..i], count, last, done);
    }
    i', count', last' := i, count, last;
    if p != last || (last != 0 && last != 255) || count >= 63 {
      if count >= 0 {
        EncodesBound(buffer[..i], count, last, done);
        EncodesNext(buffer[..i], count, last, done, p);
        PacksNext(all, buffer[..i], count, last, [p] + rest);
        PacksMore(all, buffer[..i] + [Code(count, last)], -1, last, p, rest);
        Emit(buffer, i, count, last);
        i' := i + 1;
      } else {
        EncodesFirst(p);
        PacksMore(all, buffer[..i], count, last, p, rest);
        assert buffer[..i] == [] && done + [p] == [p];
      }
      count', last' := 0, p;
    } else {
      PacksMore(all, buffer[..i], count, last, p, rest);
      if count >= 0 {
        EncodesRun(buffer[..i], count, last, done);
      } else {
        EncodesFirst(p);
        assert buffer[..i] == [] && done + [p] == [p];
      }
      count' := count + 1;
    }
  }

  /** Writes the code of a picture into the buffer, and returns a copy of what it has written. */
  method Compress(src: seq<Byte>, buffer: array<Byte>, width: nat, height: nat, step: int) returns (pixmap: array<Byte>)
    requires width > 0 && height > 0 && InBounds(|src|, 0, width, step, height)
    requires buffer.Length >= |Rows(src, 0, width, step, height)|
    modifies buffer
    ensures fresh(pixmap) && Expand(pixmap[..]) == RestoredAll(Rows(src, 0, width, step, height))
    ensures pixmap.Length <= |Rows(src, 0, width, step, height)|
    ensures pixmap[..] == Packed(Rows(src, 0, width, step, height))
  {
    hide Encodes, Expand, RestoredAll, Code, FromHere, InBounds, Packs, Packed;
    ghost var all := Rows(src, 0, width, step, height);
    StartsHere(src, width, step, height);
    hide Rows;
    var i, k, count, last, left, base := 0, 0, -1, src[0], height, 0;
    ghost var done: seq<Byte> := [];
    PacksFirst(all, last);
    assert buffer[..i] == [];
    while left > 0
      invariant 0 <= left <= height && 0 <= k < width && InBounds(|src|, base, width, step, left)
      invariant done + FromHere(src, base, k, width, step, left) == all
      invariant count == -1 ==> done == [] && i == 0 && left > 0 && base == 0 && k == 0 && last == src[0]
      invariant 0 <= i <= buffer.Length && -1 <= count <= 63
      invariant count >= 0 ==> Encodes(buffer[..i], count, last, done)
      invariant Packs(all, buffer[..i], count, last, FromHere(src, base, k, width, step, left))
      decreases left, width - k
    {
      OnePixelOn(src, base, k, width, step, left);
      var p := src[base + k];
      ghost var rest := if k + 1 < width then FromHere(src, base, k + 1, width, step, left)
                        else FromHere(src, base + step, 0, width, step, left - 1);
      i, count, last := Feed(buffer, i, count, last, p, done, all, rest);
      ghost var before := done;
      done := done + [p];
      k := k + 1;
      if k >= width {
        left, k, base := left - 1, 0, base + step;
      }
      Joined(before, p, FromHere(src, base, k, width, step, left));
    }
    NothingLeft(src, base, k, width, step);
    assert done + [] == done;
    EncodesFlush(buffer[..i], count, last, done);
    EncodesBound(buffer[..i], count, last, done);
    PendingRun(buffer[..i], count, last, done);
    PacksNext(all, buffer[..i], count, last, []);
    PackedWhole(all, buffer[..i] + [Code(count, last)], last);
    Emit(buffer, i, count, last);
    i := i + 1;
    pixmap := CopyOut(buffer, i);
  }

  lemma PacksFirst(all: seq<Byte>, last: Byte)
    ensures Packs(all, [], -1, last, all)
  {
    assert Repeat(0, last) + all == all && [] + Packed(all) == Packed(all);
  }

  lemma PackedWhole(all: seq<Byte>, code: seq<Byte>, last: Byte)
    requires Packs(all, code, -1, last, [])
    ensures code == Packed(all)
  {
    assert Repeat(0, last) + [] == [];
    assert Packed([]) == [];
  }

  method CopyOut(buffer: array<Byte>, n: nat) returns (pixmap: array<Byte>)
    requires n <= buffer.Length
    ensures fresh(pixmap) && pixmap[..] == buffer[..n]
  {
    pixmap := new Byte[n];
    for j := 0 to n
      invariant forall k :: 0 <= k < j ==> pixmap[k] == buffer[k]
    {
      pixmap[j] := buffer[j];
    }
  }

  // ---------------------------------------------------------------- the reader

  /** A pixel at less than full strength, in 32-bit unsigned arithmetic. */
  function Shade(v: Byte, ratio: nat): Byte
  {
    if ratio == 0xFF || v == 0 then v
    else
      var data := (v * ratio) % UINT / 256 + 1;
      if data > 255 then 255 else data
  }

  /** Below full strength a lit pixel becomes its share of the strength and one more, at most full; a strength below
      full never makes a pixel brighter than it is, and more strength never makes one darker. */
  lemma ShadeMeans(v: Byte, ratio: nat)
    requires ratio < 256
    ensures v > 0 && ratio < 255 ==> Shade(v, ratio) == Min(255, v * ratio / 256 + 1)
    ensures (v == 0 <==> Shade(v, ratio) == 0) && Shade(v, ratio) <= v && Shade(v, 255) == v
    ensures forall more :: ratio <= more < 256 ==> Shade(v, ratio) <= Shade(v, more)
  {
    ShareOf(v, ratio);
    if v > 0 {
      forall more | ratio <= more < 256 ensures Shade(v, ratio) <= Shade(v, more) {
        ShareOf(v, more);
        ShareGrows(v, ratio, more);
      }
    }
  }

  lemma ShareOf(v: Byte, ratio: nat)
    requires ratio < 256
    ensures 0 <= v * ratio < UINT && (v > 0 ==> v * ratio / 256 + 1 <= v)
  {
    assert v * ratio <= v * 255;
    assert v > 0 ==> v * 255 < v * 256;
  }

  lemma ShareGrows(v: Byte, ratio: nat, more: nat)
    requires ratio <= more
    ensures v * ratio / 256 <= v * more / 256
  {
    assert v * ratio <= v * more;
  }

  /** What is on the canvas is never darkened, and ends up at the brighter of the two. */
  lemma DrawnMeans(v: Byte, pixels: seq<Byte>, width: nat, row: nat, col: nat, ratio: nat)
    requires row * width + col < |pixels|
    ensures var shade := Shade(pixels[row * width + col], ratio);
      Drawn(v, pixels, width, row, col, ratio) == Max(v, shade)
  {
  }

  /** Where the pixels of the first r code bytes end. */
  ghost function Reach(code: seq<Byte>, r: nat): nat
    requires r <= |code|
  {
    |Expand(code[..r])|
  }

  lemma {:induction false} ExpandPrefix(code: seq<Byte>, r: nat)
    requires r <= |code|
    ensures Reach(code, r) <= |Expand(code)| && Expand(code)[..Reach(code, r)] == Expand(code[..r])
    decreases |code|
  {
    if r < |code| {
      var front := code[..|code| - 1];
      ExpandPrefix(front, r);
      assert front[..r] == code[..r];
    } else {
      assert code[..r] == code;
    }
  }

  /** The next code byte stands for the next stretch of pixels. */
  lemma NextByte(code: seq<Byte>, r: nat)
    requires r < |code|
    ensures var e := Reach(code, r);
      && Reach(code, r + 1) == e + |Pixels(code[r])| <= |Expand(code)|
      && forall m :: e <= m < Reach(code, r + 1) ==> Expand(code)[m] == Pixels(code[r])[0]
  {
    assert code[..r + 1] == code[..r] + [code[r]];
    ExpandOneMore(code[..r], code[r]);
    ExpandPrefix(code, r + 1);
    var all, part := Expand(code), Expand(code[..r + 1]);
    assert forall m :: 0 <= m < |part| ==> all[m] == all[..|part|][m];
  }

  function Brighter(a: Byte, b: Byte): Byte
  {
    if b > a then b else a
  }

  /** n pixels have been delivered; count + 1 more, if any, have been read and are all data. */
  ghost predicate Reading(code: seq<Byte>, r: nat, n: nat, count: int, data: Byte, ratio: nat)
  {
    && r <= |code| && Reach(code, r) <= |Expand(code)|
    && if count < 0 then Reach(code, r) == n
       else Reach(code, r) == n + count + 1 && forall m :: n <= m < Reach(code, r) ==> Shade(Expand(code)[m], ratio) == data
  }

  lemma ReadsFirst(code: seq<Byte>, ratio: nat)
    ensures Reading(code, 0, 0, -1, 0, ratio)
  {
    assert code[..0] == [];
  }

  lemma ReadsOn(code: seq<Byte>, r: nat, n: nat, count: int, data: Byte, ratio: nat)
    requires Reading(code, r, n, count, data, ratio) && n < |Expand(code)|
    ensures count >= 0 ==> data == Shade(Expand(code)[n], ratio) && Reading(code, r, n + 1, count - 1, data, ratio)
    ensures count < 0 ==> r < |code| && var d, c := Shade(Pixels(code[r])[0], ratio), |Pixels(code[r])| - 1;
      d == Shade(Expand(code)[n], ratio) && Reading(code, r + 1, n + 1, c - 1, d, ratio)
  {
    if count < 0 {
      assert code[..|code|] == code;
      NextByte(code, r);
    }
  }

  /** The next pixel, from the byte read last or a new one. */
  method NextPixel(code: seq<Byte>, r: nat, count: int, data: Byte, ratio: nat, ghost n: nat)
      returns (r': nat, count': int, data': Byte)
    requires Reading(code, r, n, count, data, ratio) && n < |Expand(code)|
    ensures Reading(code, r', n + 1, count', data', ratio) && data' == Shade(Expand(code)[n], ratio)
  {
    hide Reading, Expand, Shade;
    ReadsOn(code, r, n, count, data, ratio);
    r', count', data' := r, count, data;
    if count < 0 {
      var d := code[r];
      r' := r + 1;
      if d >= 0x80 {
        data' := (d - 0x80) * 2;
        if data' != 0 {
          data' := data' + 1;
        }
        assert Pixels(d) == [data'];
        ReadsSingle(code, r', n + 1, count - 1, Shade(data', ratio), ratio);
      } else {
        count' := d % 0x40;
        data' := if d >= 0x40 then 0xFF else 0;
        assert Pixels(d) == Repeat(count' + 1, data');
      }
      data' := Shade(data', ratio);
    }
    count' := count' - 1;
  }

  lemma ReadsSingle(code: seq<Byte>, r: nat, n: nat, count: int, data: Byte, ratio: nat)
    requires Reading(code, r, n, -1, data, ratio) && count < 0
    ensures Reading(code, r, n, count, data, ratio)
  {
  }

  /** The pixel for a place of the canvas, the picture starting in row y and column startX. */
  ghost function Drawn(v: Byte, pixels: seq<Byte>, width: nat, row: int, col: int, ratio: nat): Byte
  {
    var n := row * width + col;
    if 0 <= n < |pixels| then Brighter(v, Shade(pixels[n], ratio)) else v
  }

  /** Reads code byte by byte, and raises each pixel of the picture's place on the canvas to what it finds. */
  method Render(code: seq<Byte>, canvas: array2<Byte>, startX: nat, y: nat, width: nat, height: nat, ratio: nat)
    requires startX + width <= canvas.Length1 && y + height <= canvas.Length0
    requires |Expand(code)| >= height * width
    modifies canvas
    ensures forall r, c :: 0 <= r < canvas.Length0 && 0 <= c < canvas.Length1 ==>
      canvas[r, c] == if y <= r < y + height && startX <= c < startX + width
                      then Drawn(old(canvas[r, c]), Expand(code), width, r - y, c - startX, ratio) else old(canvas[r, c])
  {
    hide Reading, Expand, Shade, Drawn;
    var j: nat, k: nat, count: int, data: Byte := 0, 0, -1, 0;
    ghost var all := Expand(code);
    ReadsFirst(code, ratio);
    while j < height
      invariant j <= height && Reading(code, k, j * width, count, data, ratio)
      invariant forall r, c :: 0 <= r < canvas.Length0 && 0 <= c < canvas.Length1 ==>
        canvas[r, c] == if y <= r < y + j && startX <= c < startX + width
                        then Drawn(old(canvas[r, c]), all, width, r - y, c - startX, ratio) else old(canvas[r, c])
    {
      k, count, data := RenderRow(code, canvas, startX, y + j, width, ratio, k, count, data, j);
      j := j + 1;
    }
  }

  /** One row of the picture. */
  method RenderRow(code: seq<Byte>, canvas: array2<Byte>, startX: nat, row: nat, width: nat, ratio: nat,
                   k: nat, count: int, data: Byte, ghost j: nat) returns (k': nat, count': int, data': Byte)
    requires startX + width <= canvas.Length1 && row < canvas.Length0
    requires |Expand(code)| >= (j + 1) * width && Reading(code, k, j * width, count, data, ratio)
    modifies canvas
    ensures Reading(code, k', (j + 1) * width, count', data', ratio)
    ensures forall r, c :: 0 <= r < canvas.Length0 && 0 <= c < canvas.Length1 ==>
      canvas[r, c] == if r == row && startX <= c < startX + width
                      then Drawn(old(canvas[r, c]), Expand(code), width, j, c - startX, ratio) else old(canvas[r, c])
  {
    hide Reading, Expand, Shade, Drawn;
    ghost var all, n := Expand(code), j * width;
    assert (j + 1) * width == n + width;
    k', count', data' := k, count, data;
    var x: nat := 0;
    while x < width
      invariant x <= width && Reading(code, k', n + x, count', data', ratio)
      invariant forall r, c :: 0 <= r < canvas.Length0 && 0 <= c < canvas.Length1 ==>
        canvas[r, c] == if r == row && startX <= c < startX + x
                        then Drawn(old(canvas[r, c]), all, width, j, c - startX, ratio) else old(canvas[r, c])
    {
      k', count', data' := NextPixel(code, k', count', data', ratio, n + x);
      DrawnIs(canvas[row, startX + x], all, width, j, x, ratio);
      if data' > canvas[row, startX + x] {
        canvas[row, startX + x] := data';
      }
      x := x + 1;
    }
  }

  lemma DrawnIs(v: Byte, pixels: seq<Byte>, width: nat, j: nat, x: nat, ratio: nat)
    requires 0 <= j * width + x < |pixels|
    ensures Drawn(v, pixels, width, j, x, ratio) == Brighter(v, Shade(pixels[j * width + x], ratio))
  {
  }
}
