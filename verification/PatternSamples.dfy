/** Texts made up for a pattern: as short as its language has them, with a character nowhere in the pattern for all
    that is to be filled in. */
module PatternSamples {
  import opened Common
  import opened CharClass
  import opened PatternLanguage
  import opened PatternCompiler

  /** No symbol of a compiled pattern has the character that marks its ranges. */
  const FILLER: Byte := RANGE

  function Fillers(n: nat): (s: Text)
    ensures |s| == n && forall k :: 0 <= k < n ==> s[k] == FILLER
  {
    seq(n, _ => FILLER)
  }

  lemma CanonicalIsValid(pat: Pattern)
    requires Canonical(pat)
    ensures ValidPattern(pat)
  {
    forall i | 0 <= i < |pat| ensures ValidPart(pat[i]) {
      assert CanonicalPart(pat[i]);
      forall y | y in pat[i].syms ensures WellFormed(y.code) {
        PlainFacts(y.code);
      }
    }
  }

  lemma SomeMember(y: Sym)
    requires CanonicalSym(y)
    ensures !Has(y.code, FILLER) && exists c: Byte :: Has(y.code, c)
  {
    PlainFacts(y.code);
    var c: Byte :| 2 <= c && Denotes(y.code, c);
    CanonKeepsMembers(y.code, c);
  }

  /** A character the symbol allows; the filler only if it is negated. */
  ghost function Member(y: Sym): (c: Byte)
    requires CanonicalSym(y)
    ensures Allows(y, c) && (!y.negate ==> c != FILLER)
  {
    SomeMember(y);
    if y.negate then FILLER else var c: Byte :| Has(y.code, c); c
  }

  ghost function SampleRow(p: Part): (row: Text)
    requires CanonicalPart(p)
    ensures |row| == |p.syms| && forall k :: 0 <= k < |row| ==> Allows(p.syms[k], row[k])
    ensures NoNegatedSym(p.syms) ==> FILLER !in row
  {
    var row := seq(|p.syms|, k requires 0 <= k < |p.syms| => Member(p.syms[k]));
    assert forall k :: 0 <= k < |p.syms| ==> p.syms[k] in p.syms;
    row
  }

  /** A shortest text of a pattern: a character for every symbol, and fillers for all wildcards. */
  ghost function Sample(q: Pattern): (s: Text)
    requires Canonical(q)
  {
    if q == [] then []
    else
      assert CanonicalPart(q[0]);
      Fillers(Lead0(q[0])) + (SampleRow(q[0]) + Sample(q[1..]))
  }

  lemma CanonicalHead(q: Pattern)
    requires q != [] && Canonical(q)
    ensures Canonical(q[1..]) && CanonicalPart(q[0])
    ensures NoNegation(q) ==> NoNegation(q[1..]) && NoNegatedSym(q[0].syms)
  {
    assert q[0] in q && CanonicalPart(q[0]);
    assert forall p :: p in q[1..] ==> p in q;
  }

  lemma CanonicalSlice(q: Pattern, i: nat, j: nat)
    requires Canonical(q) && i <= j <= |q|
    ensures Canonical(q[i..j]) && Canonical(q[i..]) && Canonical(q[..j])
  {
  }

  lemma {:induction false} SampleFits(q: Pattern)
    requires Canonical(q)
    ensures Lang(q, Sample(q)) && |Sample(q)| == Width(q)
  {
    hide Lang, Canonical, CanonicalPart, NoNegation, RowAt;
    if q == [] {
      LangNothing();
    } else {
      CanonicalHead(q);
      SampleFits(q[1..]);
      RowFits(q[0], SampleRow(q[0]), Lead0(q[0]), Sample(q[1..]));
      LangCons(q, Sample(q), Lead0(q[0]));
    }
  }

  lemma RowFits(p: Part, row: Text, n: nat, rest: Text)
    requires |row| == |p.syms| && forall k :: 0 <= k < |row| ==> Allows(p.syms[k], row[k])
    ensures var s := Fillers(n) + (row + rest); RowAt(p.syms, s, n) && s[n + |p.syms|..] == rest
  {
    hide Allows;
    var s := Fillers(n) + (row + rest);
    forall k | 0 <= k < |p.syms| ensures Allows(p.syms[k], s[n + k]) {
      assert s[n + k] == row[k];
    }
  }

  lemma {:induction false} SampleAt(q: Pattern, i: nat, k: nat)
    requires Canonical(q) && i < |q| && k < Lead0(q[i])
    ensures Width(q[..i]) + k < |Sample(q)| && Sample(q)[Width(q[..i]) + k] == FILLER
  {
    assert CanonicalPart(q[0]);
    if i == 0 {
      assert q[..0] == [];
    } else {
      var rest := q[1..];
      SampleAt(rest, i - 1, k);
      assert q[..i][1..] == rest[..i - 1];
      assert Width(q[..i]) == Lead0(q[0]) + |q[0].syms| + Width(rest[..i - 1]);
    }
  }

  /** In a shortest text every row has its place. */
  lemma Forced(pat: Pattern, s: Text, i: nat)
    requires Lang(pat, s) && |s| == Width(pat) && i < |pat|
    ensures RowAt(pat[i].syms, s, Width(pat[..i]) + Lead0(pat[i]))
  {
    hide *;
    var a, b := pat[..i], pat[i..];
    assert a + b == pat && b[0] == pat[i] && b[1..] == pat[i + 1..];
    var m := LangSplit(a, b, s);
    LangWidth(a, s[..m]);
    SplitAt(pat, i);
    var n := LangHead(b, s[m..]);
    HeadTells(b[0], s[m..], n);
    LangWidth(b[1..], s[m..][n + |pat[i].syms|..]);
    RowShift(pat[i].syms, s, m, m + n);
  }

  // ---------------------------------------------------------------- a shortest text, stretched in one place

  /** Characters that allow the symbols of the part. */
  ghost predicate Spells(row: Text, p: Part)
  {
    |row| == |p.syms| && forall k :: 0 <= k < |row| ==> Allows(p.syms[k], row[k])
  }

  /** A shortest text of the pattern, but for d more fillers in front of the row of part i, which is this one. */
  ghost function Stretched(q: Pattern, i: nat, d: nat, row: Text): (s: Text)
    requires i < |q| && Canonical(q)
    decreases i
  {
    CanonicalHead(q);
    if i == 0 then Fillers(d + Lead0(q[0])) + (row + Sample(q[1..]))
    else Fillers(Lead0(q[0])) + (SampleRow(q[0]) + Stretched(q[1..], i - 1, d, row))
  }

  lemma JoinedBehind(f: Text, r: Text, x: Text, y: Text)
    ensures f + (r + (x + y)) == (f + (r + x)) + y
  {
  }

  lemma SampleHead(q: Pattern)
    requires Canonical(q) && q != []
    ensures Canonical(q[1..]) && CanonicalPart(q[0])
    ensures Sample(q) == Fillers(Lead0(q[0])) + (SampleRow(q[0]) + Sample(q[1..]))
  {
    CanonicalHead(q);
  }

  lemma {:induction false} SampleJoin(a: Pattern, b: Pattern)
    requires Canonical(a) && Canonical(b)
    ensures Canonical(a + b) && Sample(a + b) == Sample(a) + Sample(b)
  {
    hide Sample, SampleRow, CanonicalPart;
    SampleOfNothing();
    if a == [] {
      assert a + b == b;
    } else {
      SampleHead(a);
      SampleJoin(a[1..], b);
      assert (a + b)[1..] == a[1..] + b;
      SampleHead(a + b);
      JoinedBehind(Fillers(Lead0(a[0])), SampleRow(a[0]), Sample(a[1..]), Sample(b));
    }
  }

  lemma SampleOfNothing()
    ensures Canonical([]) && Sample([]) == []
  {
  }

  lemma StretchedHead(q: Pattern, i: nat, d: nat, row: Text)
    requires i < |q| && Canonical(q)
    ensures Canonical(q[1..]) && CanonicalPart(q[0])
    ensures Stretched(q, i, d, row) == if i == 0 then Fillers(d + Lead0(q[0])) + (row + Sample(q[1..]))
      else Fillers(Lead0(q[0])) + (SampleRow(q[0]) + Stretched(q[1..], i - 1, d, row))
  {
    CanonicalHead(q);
  }

  /** The parts before part j have a shortest text there. */
  lemma {:induction false} StretchedFrom(q: Pattern, i: nat, d: nat, row: Text, j: nat)
    requires j <= i < |q| && Canonical(q)
    ensures Canonical(q[..j]) && Canonical(q[j..])
    ensures Stretched(q, i, d, row) == Sample(q[..j]) + Stretched(q[j..], i - j, d, row)
  {
    hide *;
    CanonicalSlice(q, j, j);
    SampleOfNothing();
    if j == 0 {
      assert q[0..] == q && q[..0] == [];
    } else {
      StretchedHead(q, i, d, row);
      StretchedFrom(q[1..], i - 1, d, row, j - 1);
      SampleHead(q[..j]);
      assert q[..j][1..] == q[1..][..j - 1] && q[1..][j - 1..] == q[j..];
      JoinedBehind(Fillers(Lead0(q[0])), SampleRow(q[0]), Sample(q[..j][1..]), Stretched(q[j..], i - j, d, row));
    }
  }

  lemma StretchedIs(q: Pattern, i: nat, d: nat, row: Text)
    requires i < |q| && Canonical(q)
    ensures Canonical(q[..i]) && Canonical(q[i + 1..])
    ensures Stretched(q, i, d, row)
      == Sample(q[..i]) + (Fillers(d + Lead0(q[i])) + (row + Sample(q[i + 1..])))
  {
    hide *;
    StretchedFrom(q, i, d, row, i);
    StretchedHead(q[i..], 0, d, row);
    assert q[i..][1..] == q[i + 1..];
  }

  /** The parts from part r on have one as well, if the stretched one comes before them. */
  lemma StretchedUpTo(q: Pattern, i: nat, d: nat, row: Text, r: nat)
    requires i < r <= |q| && Canonical(q)
    ensures Canonical(q[..r]) && Canonical(q[r..])
    ensures Stretched(q, i, d, row) == Stretched(q[..r], i, d, row) + Sample(q[r..])
  {
    hide *;
    CanonicalSlice(q, r, r);
    CanonicalSlice(q, i + 1, r);
    StretchedIs(q, i, d, row);
    StretchedIs(q[..r], i, d, row);
    assert q[..r][..i] == q[..i] && q[..r][i + 1..] == q[i + 1..r] && q[i + 1..] == q[i + 1..r] + q[r..];
    SampleJoin(q[i + 1..r], q[r..]);
  }

  lemma StretchedSize(q: Pattern, i: nat, d: nat, row: Text)
    requires i < |q| && Canonical(q) && |row| == |q[i].syms|
    ensures |Stretched(q, i, d, row)| == Width(q) + d
  {
    hide *;
    StretchedIs(q, i, d, row);
    SampleFits(q[..i]);
    SampleFits(q[i + 1..]);
    SplitAt(q, i);
  }

  /** It is a text of the language if the fillers can be taken by what is in front of the row. */
  lemma StretchedFits(q: Pattern, i: nat, d: nat, row: Text)
    requires i < |q| && Canonical(q) && Spells(row, q[i])
    requires q[i].lead < 0 || Lang(q[..i], Sample(q[..i]) + Fillers(d))
    ensures Lang(q, Stretched(q, i, d, row))
  {
    hide Lang, Canonical, Sample, Stretched, Spells;
    StretchedIs(q, i, d, row);
    var p, a, b := q[i], Sample(q[..i]), Sample(q[i + 1..]);
    SampleFits(q[..i]);
    SampleFits(q[i + 1..]);
    LangLast(p, row, if p.lead < 0 then d else p.lead);
    if p.lead < 0 {
      LangJoin(q[..i], [p], a, Fillers(d) + row);
      assert a + (Fillers(d) + row) + b == Stretched(q, i, d, row);
    } else {
      LangJoin(q[..i], [p], a + Fillers(d), Fillers(p.lead) + row);
      assert Fillers(d + p.lead) == Fillers(d) + Fillers(p.lead);
      assert a + Fillers(d) + (Fillers(p.lead) + row) + b == Stretched(q, i, d, row);
    }
    var e := |a| + d + Lead0(p) + |row|;
    assert Lang(q[..i] + [p], Stretched(q, i, d, row)[..e]) && Stretched(q, i, d, row)[e..] == b;
    LangJoin(q[..i] + [p], q[i + 1..], Stretched(q, i, d, row)[..e], b);
    assert q[..i] + [p] + q[i + 1..] == q;
  }

  lemma LangLast(p: Part, row: Text, n: nat)
    requires Spells(row, p) && Filler(p.lead, n)
    ensures Lang([p], Fillers(n) + row)
  {
    LangOne(p, Fillers(n) + row);
  }

  // ---------------------------------------------------------------- counting what is no filler

  function Solid(s: Text): (n: nat)
    ensures n <= |s|
  {
    if s == [] then 0 else (if s[0] != FILLER then 1 else 0) + Solid(s[1..])
  }

  lemma {:induction false} SolidJoin(a: Text, b: Text)
    ensures Solid(a + b) == Solid(a) + Solid(b)
  {
    if a == [] {
      assert a + b == b;
    } else {
      assert (a + b)[1..] == a[1..] + b;
      SolidJoin(a[1..], b);
    }
  }

  lemma {:induction false} NothingSolid(s: Text)
    requires forall k :: 0 <= k < |s| ==> s[k] == FILLER
    ensures Solid(s) == 0
  {
    if s != [] {
      NothingSolid(s[1..]);
    }
  }

  lemma {:induction false} AllSolid(s: Text)
    requires FILLER !in s
    ensures Solid(s) == |s|
  {
    if s != [] {
      assert s[0] in s && forall x :: x in s[1..] ==> x in s;
      AllSolid(s[1..]);
    }
  }

  lemma FilledSolid(n: nat, row: Text, rest: Text)
    ensures Solid(Fillers(n) + (row + rest)) == Solid(row) + Solid(rest)
  {
    SolidJoin(Fillers(n), row + rest);
    SolidJoin(row, rest);
    NothingSolid(Fillers(n));
  }

  lemma {:induction false} SampleSolid(u: Pattern)
    requires Canonical(u)
    ensures Solid(Sample(u)) <= Symbols(u)
  {
    if u != [] {
      SampleHead(u);
      FilledSolid(Lead0(u[0]), SampleRow(u[0]), Sample(u[1..]));
      SampleSolid(u[1..]);
    }
  }

  lemma {:induction false} StretchedSolid(u: Pattern, i: nat, d: nat, row: Text)
    requires i < |u| && Canonical(u) && |row| == |u[i].syms|
    ensures Solid(Stretched(u, i, d, row)) <= Symbols(u)
    decreases i
  {
    hide Solid, Canonical;
    StretchedHead(u, i, d, row);
    if i == 0 {
      FilledSolid(d + Lead0(u[0]), row, Sample(u[1..]));
      SampleSolid(u[1..]);
      Solid0(row);
    } else {
      FilledSolid(Lead0(u[0]), SampleRow(u[0]), Stretched(u[1..], i - 1, d, row));
      StretchedSolid(u[1..], i - 1, d, row);
      Solid0(SampleRow(u[0]));
    }
  }

  lemma Solid0(s: Text)
    ensures Solid(s) <= |s|
  {
  }

  /** A row without negation stands on characters that are no fillers. */
  lemma RowSolid(p: Part, s: Text, at: nat)
    requires CanonicalPart(p) && NoNegatedSym(p.syms) && RowAt(p.syms, s, at)
    ensures Solid(s[at..at + |p.syms|]) == |p.syms|
  {
    var t := s[at..at + |p.syms|];
    forall k | 0 <= k < |t| ensures t[k] != FILLER {
      assert p.syms[k] in p.syms && Allows(p.syms[k], s[at + k]);
      SomeMember(p.syms[k]);
    }
    AllSolid(t);
  }

  lemma {:induction false} LangSolid(u: Pattern, s: Text)
    requires Canonical(u) && NoNegation(u) && Lang(u, s)
    ensures Solid(s) >= Symbols(u)
  {
    hide Solid, Lang, Canonical, NoNegation, RowAt, CanonicalPart;
    if u != [] {
      CanonicalHead(u);
      var n := LangHead(u, s);
      var e := n + |u[0].syms|;
      HeadTells(u[0], s, n);
      LangSolid(u[1..], s[e..]);
      RowSolid(u[0], s, n);
      assert s == s[..n] + (s[n..e] + s[e..]);
      SolidJoin(s[..n], s[n..e] + s[e..]);
      SolidJoin(s[n..e], s[e..]);
    }
  }

  lemma SolidInThree(x: Text, a: nat, b: nat)
    requires a <= b <= |x|
    ensures Solid(x) == Solid(x[..a]) + Solid(x[a..b]) + Solid(x[b..])
  {
    SolidSplit(x, b);
    SolidSplit(x[..b], a);
    assert x[..b][..a] == x[..a] && x[..b][a..] == x[a..b];
  }

  lemma SolidSplit(x: Text, a: nat)
    requires a <= |x|
    ensures Solid(x) == Solid(x[..a]) + Solid(x[a..])
  {
    SolidJoin(x[..a], x[a..]);
    assert x[..a] + x[a..] == x;
  }

  lemma FirstIsSolid(u: Pattern, i: nat, d: nat, row: Text, st: nat)
    requires 0 < i < |u| && Canonical(u) && NoNegation(u) && u[0].lead < 0 && u[0].syms != []
    requires 0 < st <= |Stretched(u, i, d, row)|
    ensures Solid(Stretched(u, i, d, row)[..st]) > 0
  {
    hide Canonical, CanonicalPart, NoNegation, Stretched;
    CanonicalHead(u);
    StretchedHead(u, i, d, row);
    SampleRowSolid(u[0]);
    assert Stretched(u, i, d, row)[..st][0] == SampleRow(u[0])[0];
  }

  lemma SampleRowSolid(p: Part)
    requires CanonicalPart(p) && NoNegatedSym(p.syms) && p.syms != []
    ensures |SampleRow(p)| == |p.syms| && SampleRow(p)[0] != FILLER
  {
  }

  /** From any later place on there are fewer of them in the text than symbols in the pattern. */
  lemma NoLaterPlace(u: Pattern, i: nat, d: nat, row: Text, st: nat)
    requires 0 < i < |u| && Canonical(u) && NoNegation(u) && |row| == |u[i].syms|
    requires u[0].lead < 0 && u[0].syms != [] && st > 0 && RowAt(u[0].syms, Stretched(u, i, d, row), st)
    ensures st + |u[0].syms| <= |Stretched(u, i, d, row)|
    ensures !Lang(u[1..], Stretched(u, i, d, row)[st + |u[0].syms|..])
  {
    hide *;
    var x, e := Stretched(u, i, d, row), st + |u[0].syms|;
    RowWithin(u[0].syms, x, st);
    CanonicalHead(u);
    StretchedSolid(u, i, d, row);
    RowSolid(u[0], x, st);
    FirstIsSolid(u, i, d, row, st);
    SolidInThree(x, st, e);
    SymbolsHead(u);
    if Lang(u[1..], x[e..]) {
      LangSolid(u[1..], x[e..]);
    }
  }

  lemma RowWithin(syms: seq<Sym>, s: Text, at: int)
    requires RowAt(syms, s, at)
    ensures 0 <= at && at + |syms| <= |s|
  {
  }

  lemma SymbolsHead(u: Pattern)
    requires u != []
    ensures Symbols(u) == |u[0].syms| + Symbols(u[1..])
  {
  }
}
