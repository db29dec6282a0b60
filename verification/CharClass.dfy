/** Character classes of the wildcard engine: the byte code of one symbol, and the pass that
    rewrites it into ascending, disjoint runs (libAfterBase/regexp.c). */
module CharClass {

  import opened Common

  /** Marks a range "lo-hi" inside the code of a symbol. */
  const RANGE: Byte := 1

  /** The code of one symbol, without its terminating zero: single characters, and ranges
      written as RANGE, lo, hi. */
  type Code = seq<Byte>

  ghost predicate WellFormed(code: Code)
  {
    code == [] ||
    if code[0] == RANGE then |code| >= 3 && code[1] != 0 && code[2] != 0 && WellFormed(code[3..])
    else code[0] != 0 && WellFormed(code[1..])
  }

  lemma {:induction false} NoZeroInside(code: Code)
    requires WellFormed(code)
    ensures 0 !in code
  {
    if code != [] {
      if code[0] == RANGE {
        NoZeroInside(code[3..]);
        assert code == [code[0], code[1], code[2]] + code[3..];
      } else {
        NoZeroInside(code[1..]);
      }
    }
  }

  /** Membership as the pattern author means it: the ends of a range come in either order. */
  predicate Denotes(code: Code, c: Byte)
  {
    if code == [] then false
    else if code[0] == RANGE && |code| >= 3 then
      code[1] <= c <= code[2] || code[2] <= c <= code[1] || Denotes(code[3..], c)
    else code[0] == c || Denotes(code[1..], c)
  }

  /** Membership as the matcher tests it: a range is tried only in the order written. */
  predicate Has(code: Code, c: Byte)
  {
    if code == [] then false
    else if code[0] == RANGE && |code| >= 3 then code[1] <= c <= code[2] || Has(code[3..], c)
    else code[0] == c || Has(code[1..], c)
  }

  // ---------------------------------------------------------------- the canonical form

  /** A maximal run of adjacent characters. */
  datatype Run = Run(lo: Byte, hi: Byte)

  /** Two adjacent characters are cheaper as two singles than as a range. */
  function Emit(r: Run): Code {
    if r.lo == r.hi then [r.lo] else if r.lo + 1 == r.hi then [r.lo, r.hi] else [RANGE, r.lo, r.hi]
  }

  function EmitAll(runs: seq<Run>): Code {
    if runs == [] then [] else Emit(runs[0]) + EmitAll(runs[1..])
  }

  /** Runs in strictly ascending order with a gap between neighbours, starting at or after `from`. */
  ghost predicate Ascending(runs: seq<Run>, from: int)
  {
    runs == [] || (from <= runs[0].lo <= runs[0].hi && Ascending(runs[1..], runs[0].hi + 2))
  }

  ghost predicate InRuns(runs: seq<Run>, c: Byte)
  {
    exists r :: r in runs && r.lo <= c <= r.hi
  }

  type Scale = s: seq<bool> | |s| == 256 witness seq(256, _ => false)

  function RunEnd(sc: Scale, i: Byte): (e: Byte)
    requires sc[i]
    ensures i <= e && (forall k :: i <= k <= e ==> sc[k]) && (e == 255 || !sc[e + 1])
    decreases 256 - i
  {
    if i < 255 && sc[i + 1] then RunEnd(sc, i + 1) else i
  }

  /** The maximal runs of marked characters from i on; no run starts at 255. */
  function Runs(sc: Scale, i: nat): seq<Run>
    decreases 256 - i
  {
    if i >= 255 then []
    else if !sc[i] then Runs(sc, i + 1)
    else var e := RunEnd(sc, i); [Run(i, e)] + Runs(sc, e + 1)
  }

  ghost function Marks(code: Code): (sc: Scale)
    ensures forall c: Byte :: sc[c] == Denotes(code, c)
  {
    seq(256, c requires 0 <= c < 256 => Denotes(code, c))
  }

  /** What the rewriting pass computes, said without its loops. */
  ghost function Canon(code: Code): Code
  {
    EmitAll(Runs(Marks(code), 2))
  }

  // ---------------------------------------------------------------- the pass itself

  /** Marks every character the code denotes. Both ends of a range are put in order first. */
  method MarkAll(code: Code) returns (scale: Scale)
    requires WellFormed(code)
    ensures forall c: Byte :: scale[c] == Denotes(code, c)
  {
    scale := seq(256, _ => false);
    var p := 0;
    while p < |code|
      invariant p <= |code| && WellFormed(code[p..])
      invariant forall c: Byte :: Denotes(code, c) == (scale[c] || Denotes(code[p..], c))
    {
      ghost var before := scale;
      ghost var rest := code[p..];
      if code[p] == RANGE {
        assert rest[1] == code[p + 1] && rest[2] == code[p + 2] && rest[3..] == code[p + 3..];
        var rStart, rEnd := code[p + 1], code[p + 2];
        if rStart > rEnd {
          rStart, rEnd := rEnd, rStart;
        }
        ghost var lo := rStart;
        while rStart < rEnd
          invariant lo <= rStart <= rEnd
          invariant forall c: Byte :: scale[c] == (before[c] || lo <= c < rStart)
        {
          scale := scale[rStart := true];
          rStart := rStart + 1;
        }
        scale := scale[rEnd := true];
        p := p + 3;
      } else {
        assert rest[1..] == code[p + 1..];
        scale := scale[code[p] := true];
        p := p + 1;
      }
    }
  }

  /** Rewrites a code into its canonical form, followed by the terminating zero. */
  method Optimize(code: Code) returns (trg: seq<Byte>)
    requires WellFormed(code)
    ensures trg == Canon(code) + [0]
  {
    var scale := MarkAll(code);
    assert scale == Marks(code);
    trg := EncodeScale(scale);
  }

  method EncodeScale(scale: Scale) returns (trg: seq<Byte>)
    ensures trg == EmitAll(Runs(scale, 2)) + [0]
  {
    hide *;
    ghost var full := EmitAll(Runs(scale, 2));
    ghost var rest := full;
    trg := [];
    var rStart, rEnd := 0, 2;
    while rEnd < 255
      invariant 2 <= rEnd <= 255 && (rStart == 0 || 2 <= rStart < rEnd)
      invariant rStart != 0 ==> forall k :: rStart <= k < rEnd ==> scale[k]
      invariant rest == EmitAll(Runs(scale, if rStart != 0 then rStart else rEnd))
      invariant full == trg + rest
    {
      if !scale[rEnd] {
        if rStart != 0 {
          RunEndIs(scale, rStart, rEnd - 1);
          NothingToEmit(scale, rEnd + 1);
          rest := EmitAll(Runs(scale, rEnd + 1));
          trg := AppendRun(trg, rStart, rEnd - 1, rest);
          rStart := 0;
        } else {
          NotInRun(scale, rEnd);
        }
      } else if rStart == 0 {
        rStart := rEnd;
      }
      rEnd := rEnd + 1;
    }
    NothingToEmit(scale, 255);
    if rStart != 0 {
      if !scale[rEnd] {
        rEnd := rEnd - 1;
      }
      RunEndIs(scale, rStart, rEnd);
      trg := AppendRun(trg, rStart, rEnd, []);
    }
    trg := trg + [0];
  }

  lemma NotInRun(sc: Scale, i: Byte)
    requires i < 255 && !sc[i]
    ensures Runs(sc, i) == Runs(sc, i + 1)
  {
  }

  lemma NothingToEmit(sc: Scale, i: nat)
    ensures i >= 255 ==> Runs(sc, i) == []
    ensures EmitAll([]) == []
  {
  }

  /** Writes one run; `rest` is what is still to come. */
  method AppendRun(buf: seq<Byte>, rStart: Byte, rEnd: Byte, ghost rest: Code) returns (trg: seq<Byte>)
    requires rStart <= rEnd
    ensures trg == buf + Emit(Run(rStart, rEnd))
    ensures trg + rest == buf + (Emit(Run(rStart, rEnd)) + rest)
  {
    trg := buf;
    if rEnd > rStart + 1 {
      trg := trg + [RANGE];
    }
    trg := trg + [rStart];
    if rEnd > rStart {
      trg := trg + [rEnd];
    }
  }

  lemma RunEndIs(sc: Scale, i: Byte, e: Byte)
    requires 2 <= i <= e && i < 255 && (forall k :: i <= k <= e ==> sc[k]) && (e == 255 || !sc[e + 1])
    ensures sc[i] && RunEnd(sc, i) == e
    ensures Runs(sc, i) == [Run(i, e)] + Runs(sc, e + 1)
    ensures EmitAll(Runs(sc, i)) == Emit(Run(i, e)) + EmitAll(if e + 2 > 255 then [] else Runs(sc, e + 2))
  {
    assert Runs(sc, i)[1..] == Runs(sc, e + 1);
  }

  // ---------------------------------------------------------------- what the pass keeps

  lemma {:induction false} RunsAscend(sc: Scale, i: nat, from: int)
    requires from <= i
    ensures Ascending(Runs(sc, i), from)
    decreases 256 - i
  {
    if i < 255 {
      if !sc[i] {
        RunsAscend(sc, i + 1, from);
      } else {
        var e: int := RunEnd(sc, i);
        assert Runs(sc, i)[1..] == Runs(sc, e + 1);
        if e + 1 < 255 {
          assert Runs(sc, e + 1) == Runs(sc, e + 2);
          RunsAscend(sc, e + 2, e + 2);
        }
      }
    }
  }

  lemma {:induction false} RunsCover(sc: Scale, i: nat, c: Byte)
    requires i <= c
    ensures InRuns(Runs(sc, i), c) <==> sc[c] && (c == 255 ==> i < 255 && sc[254])
    decreases 256 - i
  {
    if i < 255 {
      if !sc[i] {
        if i < c {
          RunsCover(sc, i + 1, c);
        } else {
          forall r | r in Runs(sc, i) ensures r.lo > c {
            RunsAscend(sc, i + 1, i + 1);
            AscendingBound(Runs(sc, i), i + 1, r);
          }
        }
      } else {
        var e: int := RunEnd(sc, i);
        var runs := Runs(sc, i);
        assert runs[1..] == Runs(sc, e + 1) && runs[0] == Run(i, e);
        if c <= e {
          assert runs[0] in runs;
        } else {
          RunsCover(sc, e + 1, c);
          assert InRuns(runs, c) <==> InRuns(runs[1..], c);
        }
      }
    }
  }

  lemma {:induction false} AscendingBound(runs: seq<Run>, from: int, r: Run)
    requires Ascending(runs, from) && r in runs
    ensures from <= r.lo <= r.hi
  {
    if r != runs[0] {
      AscendingBound(runs[1..], runs[0].hi + 2, r);
    }
  }

  /** A run in front of a code, and its members. */
  lemma EmitOne(r: Run, rest: Code, c: Byte)
    requires 2 <= r.lo <= r.hi && WellFormed(rest)
    ensures WellFormed(Emit(r) + rest)
    ensures Has(Emit(r) + rest, c) <==> r.lo <= c <= r.hi || Has(rest, c)
    ensures Denotes(Emit(r) + rest, c) <==> r.lo <= c <= r.hi || Denotes(rest, c)
  {
    var code := Emit(r) + rest;
    if r.lo == r.hi {
      assert code[1..] == rest;
    } else if r.lo + 1 == r.hi {
      assert code[1..] == [r.hi] + rest && code[1..][1..] == rest;
    } else {
      assert code[3..] == rest;
    }
  }

  lemma {:induction false} EmitHas(runs: seq<Run>, from: int, c: Byte)
    requires Ascending(runs, from) && from >= 2
    ensures WellFormed(EmitAll(runs))
    ensures Has(EmitAll(runs), c) <==> InRuns(runs, c)
    ensures Denotes(EmitAll(runs), c) <==> InRuns(runs, c)
  {
    hide Has, Denotes, WellFormed, Emit;
    if runs == [] {
      NoMembers(c);
    } else {
      var r := runs[0];
      EmitHas(runs[1..], r.hi + 2, c);
      EmitOne(r, EmitAll(runs[1..]), c);
      assert InRuns(runs, c) <==> r.lo <= c <= r.hi || InRuns(runs[1..], c) by {
        assert r in runs;
      }
    }
  }

  lemma NoMembers(c: Byte)
    ensures WellFormed([]) && !Has([], c) && !Denotes([], c)
  {
  }

  /** The canonical code has the same members as the code it came from, for every character but
      two: 1 is the range marker and is dropped, and 255 survives only in a run through 254. */
  lemma CanonKeepsMembers(code: Code, c: Byte)
    requires c >= 2
    ensures WellFormed(Canon(code))
    ensures Has(Canon(code), c) <==> Denotes(code, c) && (c == 255 ==> Denotes(code, 254))
    ensures Denotes(Canon(code), c) <==> Has(Canon(code), c)
  {
    var sc := Marks(code);
    RunsAscend(sc, 2, 2);
    EmitHas(Runs(sc, 2), 2, c);
    RunsCover(sc, 2, c);
  }

  /** The one class of the alphabet the pass loses altogether. */
  lemma LoneTopCharacterIsDropped()
    ensures WellFormed([255]) && Denotes([255], 255) && Canon([255]) == []
  {
    var sc := Marks([255]);
    assert [255][1..] == [];
    assert forall i :: 2 <= i < 255 ==> !Denotes([255], i);
    RunsOfNothing(sc, 2);
  }

  lemma {:induction false} RunsOfNothing(sc: Scale, i: nat)
    requires forall k :: i <= k < 255 ==> !sc[k]
    ensures Runs(sc, i) == []
    decreases 256 - i
  {
    if i < 255 {
      RunsOfNothing(sc, i + 1);
    }
  }

  /** The canonical code is a list of ascending runs with gaps between them. */
  lemma CanonAscends(code: Code)
    ensures exists runs :: Ascending(runs, 2) && Canon(code) == EmitAll(runs)
  {
    RunsAscend(Marks(code), 2, 2);
    assert Ascending(Runs(Marks(code), 2), 2);
  }

  lemma {:induction false} SameMarksSameRuns(a: Scale, b: Scale, i: nat)
    requires forall k :: i <= k < 255 ==> a[k] == b[k]
    requires (a[254] && i <= 254) ==> a[255] == b[255]
    ensures Runs(a, i) == Runs(b, i)
    decreases 256 - i
  {
    if i < 255 {
      if !a[i] {
        SameMarksSameRuns(a, b, i + 1);
      } else {
        var e := RunEnd(a, i);
        if e < 255 {
          SameMarksSameRuns(a, b, e + 1);
        }
        if i >= 2 {
          RunEndIs(b, i, e);
        } else {
          RunEndUnique(b, i, e);
        }
      }
    }
  }

  lemma {:induction false} RunEndUnique(sc: Scale, i: Byte, e: Byte)
    requires i <= e && (forall k :: i <= k <= e ==> sc[k]) && (e == 255 || !sc[e + 1])
    ensures RunEnd(sc, i) == e
  {
  }

  /** Canonical form is decided by the members alone, and rewriting it again changes nothing. */
  lemma CanonIsUnique(a: Code, b: Code)
    requires forall c: Byte :: 2 <= c ==> Denotes(a, c) == Denotes(b, c)
    ensures Canon(a) == Canon(b)
  {
    SameMarksSameRuns(Marks(a), Marks(b), 2);
  }

  lemma CanonIsIdempotent(code: Code)
    ensures WellFormed(Canon(code)) && Canon(Canon(code)) == Canon(code)
  {
    CanonKeepsMembers(code, 2);
    forall c: Byte | 2 <= c ensures Denotes(Canon(code), c) <==> Denotes(code, c) && (c == 255 ==> Denotes(code, 254)) {
      CanonKeepsMembers(code, c);
    }
    SameMarksSameRuns(Marks(Canon(code)), Marks(code), 2);
  }

  // ---------------------------------------------------------------- no shorter way

  /** Three neighbours or more are always written as a range, two never. */
  ghost predicate Concise(code: Code)
  {
    code == [] ||
    if code[0] == RANGE then |code| >= 3 && !Near(code[1], code[2], 1) && Concise(code[3..])
    else !(|code| >= 3 && Near(code[0], code[1], 1) && Near(code[0], code[2], 2)) && Concise(code[1..])
  }

  /** b comes at most so many places after a. */
  predicate Near(a: Byte, b: Byte, n: nat)
  {
    var x: int, y: int := a, b;
    x <= y <= x + n
  }

  lemma {:induction false} EmitConcise(runs: seq<Run>, from: int)
    requires Ascending(runs, from) && from >= 2
    ensures Concise(EmitAll(runs))
    ensures EmitAll(runs) != [] ==> EmitAll(runs)[0] == RANGE || EmitAll(runs)[0] >= from
  {
    if runs != [] {
      var r, rest := runs[0], EmitAll(runs[1..]);
      EmitConcise(runs[1..], r.hi + 2);
      var code := Emit(r) + rest;
      if r.lo == r.hi {
        assert code[1..] == rest;
      } else if r.lo + 1 == r.hi {
        assert code[1..] == [r.hi] + rest && code[1..][1..] == rest;
      } else {
        assert code[3..] == rest;
      }
    }
  }

  /** So it is in every canonical code. */
  lemma CanonIsConcise(code: Code)
    ensures Concise(Canon(code))
  {
    RunsAscend(Marks(code), 2, 2);
    EmitConcise(Runs(Marks(code), 2), 2);
  }
}
