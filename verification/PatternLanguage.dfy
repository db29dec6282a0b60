/** What a wildcard pattern means: a row of parts, each a lead ('*' or a count of '?') followed by
    a row of symbols. The definitions here know nothing of how the matcher searches. */
module PatternLanguage {
  import opened Common
  import opened CharClass

  type Text = seq<Byte>

  datatype Sym = Sym(negate: bool, code: Code)

  /** The lead is -1 for '*', otherwise the exact number of characters to skip. */
  datatype Part = Part(lead: int, syms: seq<Sym>)

  type Pattern = seq<Part>

  ghost predicate ValidPart(p: Part)
  {
    p.lead >= -1 && forall y :: y in p.syms ==> WellFormed(y.code)
  }

  ghost predicate ValidPattern(parts: Pattern)
  {
    forall i :: 0 <= i < |parts| ==> ValidPart(parts[i])
  }

  /** Only the last part may have no symbols: this is what the compiler builds unless the pattern
      contains an empty class. */
  ghost predicate OnlyTailEmpty(parts: Pattern)
  {
    forall k :: 0 <= k < |parts| - 1 ==> parts[k].syms != []
  }

  // ---------------------------------------------------------------- the language

  ghost predicate Allows(y: Sym, c: Byte)
  {
    Has(y.code, c) != y.negate
  }

  ghost predicate RowAt(syms: seq<Sym>, s: Text, at: int)
  {
    0 <= at && at + |syms| <= |s| && forall k :: 0 <= k < |syms| ==> Allows(syms[k], s[at + k])
  }

  ghost predicate Filler(lead: int, n: int)
  {
    if lead < 0 then n >= 0 else n == lead
  }

  /** s is in the language of the parts: some choice of filler lengths makes every row fit. */
  ghost predicate Lang(parts: Pattern, s: Text)
  {
    exists fillers :: Fit(parts, s, fillers)
  }

  ghost predicate Fit(parts: Pattern, s: Text, fillers: seq<int>)
  {
    |fillers| == |parts| &&
    if parts == [] then s == []
    else HeadFits(parts[0], s, fillers[0]) && Fit(parts[1..], s[fillers[0] + |parts[0].syms|..], fillers[1..])
  }

  /** The first part takes n filler characters, then its row. */
  ghost predicate HeadFits(p: Part, s: Text, n: int)
  {
    Filler(p.lead, n) && RowAt(p.syms, s, n)
  }

  ghost predicate NoNegation(parts: Pattern)
  {
    forall p :: p in parts ==> NoNegatedSym(p.syms)
  }

  ghost predicate NoNegatedSym(syms: seq<Sym>)
  {
    forall y :: y in syms ==> !y.negate
  }

  // ---------------------------------------------------------------- widths

  function Lead0(p: Part): nat { if p.lead < 0 then 0 else p.lead }

  function Width(parts: Pattern): nat {
    if parts == [] then 0 else Lead0(parts[0]) + |parts[0].syms| + Width(parts[1..])
  }

  /** The symbols of all rows. */
  function Symbols(parts: Pattern): nat {
    if parts == [] then 0 else |parts[0].syms| + Symbols(parts[1..])
  }

  function Stars(parts: Pattern): nat {
    if parts == [] then 0 else (if parts[0].lead < 0 then 1 else 0) + Stars(parts[1..])
  }

  lemma {:induction false} WidthSum(a: Pattern, b: Pattern)
    ensures Width(a + b) == Width(a) + Width(b)
    ensures Stars(a + b) == Stars(a) + Stars(b)
  {
    if a == [] {
      assert a + b == b;
    } else {
      assert (a + b)[1..] == a[1..] + b;
      WidthSum(a[1..], b);
    }
  }

  /** Split around one part. */
  lemma SplitAt(parts: Pattern, i: nat)
    requires i < |parts|
    ensures Width(parts[..i + 1]) == Width(parts[..i]) + Lead0(parts[i]) + |parts[i].syms|
    ensures Width(parts[i..]) == Lead0(parts[i]) + |parts[i].syms| + Width(parts[i + 1..])
    ensures Stars(parts[..i + 1]) == Stars(parts[..i]) + if parts[i].lead < 0 then 1 else 0
    ensures Stars(parts[i..]) == Stars(parts[i + 1..]) + if parts[i].lead < 0 then 1 else 0
    ensures Width(parts) == Width(parts[..i]) + Width(parts[i..])
    ensures Stars(parts) == Stars(parts[..i]) + Stars(parts[i..])
  {
    assert parts[..i + 1] == parts[..i] + [parts[i]];
    WidthSum(parts[..i], [parts[i]]);
    assert parts[i..][1..] == parts[i + 1..];
    assert parts == parts[..i] + parts[i..];
    WidthSum(parts[..i], parts[i..]);
  }

  /** A text of the language is at least as long as the fixed characters, and exactly as long when
      there is no '*'. */
  lemma LangWidth(parts: Pattern, s: Text)
    requires Lang(parts, s)
    ensures |s| >= Width(parts)
    ensures Stars(parts) == 0 ==> |s| == Width(parts)
  {
    var fillers :| Fit(parts, s, fillers);
    FitWidth(parts, s, fillers);
  }

  lemma {:induction false} FitWidth(parts: Pattern, s: Text, fillers: seq<int>)
    requires Fit(parts, s, fillers)
    ensures |s| >= Width(parts)
    ensures Stars(parts) == 0 ==> |s| == Width(parts)
  {
    if parts != [] {
      FitWidth(parts[1..], s[fillers[0] + |parts[0].syms|..], fillers[1..]);
    }
  }

  // ---------------------------------------------------------------- taking texts apart

  lemma LangHead(parts: Pattern, s: Text) returns (n: int)
    requires parts != [] && Lang(parts, s)
    ensures HeadFits(parts[0], s, n) && Lang(parts[1..], s[n + |parts[0].syms|..])
  {
    var fillers :| Fit(parts, s, fillers);
    n := fillers[0];
    assert Fit(parts[1..], s[n + |parts[0].syms|..], fillers[1..]);
  }

  lemma HeadTells(p: Part, s: Text, n: int)
    requires HeadFits(p, s, n)
    ensures Lead0(p) <= n && n + |p.syms| <= |s| && RowAt(p.syms, s, n) && (p.lead >= 0 ==> n == p.lead)
  {
  }

  lemma LangCons(parts: Pattern, s: Text, n: int)
    requires parts != [] && HeadFits(parts[0], s, n) && Lang(parts[1..], s[n + |parts[0].syms|..])
    ensures Lang(parts, s)
  {
    var rest :| Fit(parts[1..], s[n + |parts[0].syms|..], rest);
    var fillers := [n] + rest;
    assert fillers[1..] == rest;
    assert Fit(parts, s, fillers);
  }

  lemma LangNothing()
    ensures Lang([], [])
    ensures forall s :: Lang([], s) ==> s == []
  {
    assert Fit([], [], []);
  }

  lemma LangJoin(a: Pattern, b: Pattern, x: Text, y: Text)
    requires Lang(a, x) && Lang(b, y)
    ensures Lang(a + b, x + y)
  {
    var fa :| Fit(a, x, fa);
    var fb :| Fit(b, y, fb);
    FitJoin(a, b, x, y, fa, fb);
  }

  lemma {:induction false} FitJoin(a: Pattern, b: Pattern, x: Text, y: Text, fa: seq<int>, fb: seq<int>)
    requires Fit(a, x, fa) && Fit(b, y, fb)
    ensures Fit(a + b, x + y, fa + fb)
  {
    if a == [] {
      assert a + b == b && x + y == y && fa + fb == fb;
    } else {
      var w := fa[0] + |a[0].syms|;
      FitJoin(a[1..], b, x[w..], y, fa[1..], fb);
      assert (a + b)[1..] == a[1..] + b && (x + y)[w..] == x[w..] + y && (fa + fb)[1..] == fa[1..] + fb;
      assert HeadFits((a + b)[0], x + y, fa[0]);
    }
  }

  lemma LangSplit(a: Pattern, b: Pattern, s: Text) returns (m: nat)
    requires Lang(a + b, s)
    ensures m <= |s| && Lang(a, s[..m]) && Lang(b, s[m..])
  {
    var f :| Fit(a + b, s, f);
    m := FitSplit(a, b, s, f);
  }

  lemma {:induction false} FitSplit(a: Pattern, b: Pattern, s: Text, f: seq<int>) returns (m: nat)
    requires Fit(a + b, s, f)
    ensures m <= |s| && Fit(a, s[..m], f[..|a|]) && Fit(b, s[m..], f[|a|..])
  {
    if a == [] {
      m := 0;
      assert a + b == b && s[0..] == s && f[0..] == f;
    } else {
      assert (a + b)[1..] == a[1..] + b;
      var w := f[0] + |a[0].syms|;
      var m' := FitSplit(a[1..], b, s[w..], f[1..]);
      m := w + m';
      assert s[..m][w..] == s[w..][..m'] && s[m..] == s[w..][m'..];
      assert f[..|a|][1..] == f[1..][..|a| - 1] && f[|a|..] == f[1..][|a| - 1..];
      assert HeadFits(a[0], s[..m], f[0]);
    }
  }

  lemma RowShift(syms: seq<Sym>, s: Text, m: nat, at: int)
    requires m <= at && m <= |s|
    ensures RowAt(syms, s[m..], at - m) <==> RowAt(syms, s, at)
  {
    if at + |syms| <= |s| {
      forall k | 0 <= k < |syms| ensures Allows(syms[k], s[m..][at - m + k]) <==> Allows(syms[k], s[at + k]) {
        assert s[m..][at - m + k] == s[at + k];
      }
    }
  }

  lemma LangOne(p: Part, s: Text)
    ensures Lang([p], s) <==> Filler(p.lead, |s| - |p.syms|) && RowAt(p.syms, s, |s| - |p.syms|)
  {
    LangNothing();
    assert [p][1..] == [];
    if Lang([p], s) {
      var n := LangHead([p], s);
    } else if Filler(p.lead, |s| - |p.syms|) && RowAt(p.syms, s, |s| - |p.syms|) {
      assert s[|s| - |p.syms| + |p.syms|..] == [];
      LangCons([p], s, |s| - |p.syms|);
    }
  }

  /** t is everything in front of the row of part i: a text of the parts before it, then its filler. */
  ghost predicate LeadIn(parts: Pattern, i: nat, t: Text)
    requires i < |parts|
  {
    exists m :: LeadInAt(parts, i, t, m)
  }

  ghost predicate LeadInAt(parts: Pattern, i: nat, t: Text, m: int)
    requires i < |parts|
  {
    0 <= m <= |t| && Lang(parts[..i], t[..m]) && Filler(parts[i].lead, |t| - m)
  }

  ghost predicate RowEnds(parts: Pattern, i: nat, s: Text)
    requires i < |parts|
  {
    var start := |s| - |parts[i].syms|;
    RowAt(parts[i].syms, s, start) && LeadIn(parts, i, s[..start])
  }

  lemma PrefixToRow(parts: Pattern, i: nat, s: Text)
    requires i < |parts| && Lang(parts[..i + 1], s)
    ensures RowEnds(parts, i, s)
  {
    var p := parts[i];
    var start := |s| - |p.syms|;
    assert parts[..i + 1] == parts[..i] + [p];
    var m := LangSplit(parts[..i], [p], s);
    LangOne(p, s[m..]);
    RowShift(p.syms, s, m, start);
    assert s[..start][..m] == s[..m];
    assert LeadInAt(parts, i, s[..start], m);
  }

  lemma RowToPrefix(parts: Pattern, i: nat, s: Text)
    requires i < |parts| && RowEnds(parts, i, s)
    ensures Lang(parts[..i + 1], s)
  {
    var p := parts[i];
    var start := |s| - |p.syms|;
    var m :| LeadInAt(parts, i, s[..start], m);
    assert s[..start][..m] == s[..m];
    RowShift(p.syms, s, m, start);
    LangOne(p, s[m..]);
    LangJoin(parts[..i], [p], s[..m], s[m..]);
    assert s[..m] + s[m..] == s;
    assert parts[..i] + [p] == parts[..i + 1];
  }

  /** The parts from i on match s exactly when some filler, then the row of part i, then the rest. */
  lemma SuffixStartsWithLead(parts: Pattern, i: nat, s: Text, n: nat)
    requires i < |parts|
    requires HeadFits(parts[i], s, n) && Lang(parts[i + 1..], s[n + |parts[i].syms|..])
    ensures Lang(parts[i..], s)
  {
    assert parts[i..][1..] == parts[i + 1..] && parts[i..][0] == parts[i];
    LangCons(parts[i..], s, n);
  }
}
