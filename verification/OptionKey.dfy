/** Configuration options as hash keys (libAfterBase/ashash.c): only the leading option characters of a
    string count, and their case does not. Strings are ASCII, without their closing NUL. */
module OptionKey {
  import HashTable

  type Ascii = c: nat | 1 <= c < 128 witness 1

  const KEY_LIMIT := 0x10000

  /** What the string holds at place i: past its end, the NUL. */
  function At(s: seq<Ascii>, i: nat): nat
  {
    if i < |s| then s[i] else 0
  }

  predicate IsUpper(c: nat) { 65 <= c <= 90 }
  predicate IsLower(c: nat) { 97 <= c <= 122 }
  predicate ValidOptionChar(c: nat) { IsUpper(c) || IsLower(c) || 48 <= c <= 57 || c == 126 || c == 95 }
  function ToLower(c: nat): nat { if IsUpper(c) then c + 32 else c }
  function ToUpper(c: nat): nat { if IsLower(c) then c - 32 else c }

  /** The option a string names: its leading option characters, in lower case. */
  function Option(s: seq<Ascii>): seq<nat>
  {
    if s == [] || !ValidOptionChar(s[0]) then [] else [ToLower(s[0])] + Option(s[1..])
  }

  /** The first characters of the option, each shifted by its place. */
  function Weight(option: seq<nat>, i: nat): nat
  {
    if i == 0 then 0 else Weight(option, i - 1) + (if i <= |option| then option[i - 1] * Pow2(i - 1) else 0)
  }

  function Pow2(i: nat): (p: nat)
    ensures p > 0
  {
    if i == 0 then 1 else 2 * Pow2(i - 1)
  }

  /** The option of a string is its longest prefix of option characters. */
  lemma {:induction false} OptionIsPrefix(s: seq<Ascii>)
    ensures |Option(s)| <= |s|
    ensures forall i :: 0 <= i < |Option(s)| ==> ValidOptionChar(s[i]) && Option(s)[i] == ToLower(s[i])
    ensures !ValidOptionChar(At(s, |Option(s)|))
  {
    if s != [] && ValidOptionChar(s[0]) {
      OptionIsPrefix(s[1..]);
      assert Option(s) == [ToLower(s[0])] + Option(s[1..]);
      assert forall i :: 0 < i < |Option(s)| ==> s[i] == s[1..][i - 1];
    }
  }

  /** The key of an option: its first eight characters, summed with shifts in a 16-bit key, modulo the table size. */
  method HashValue(s: seq<Ascii>, hashSize: nat) returns (key: nat)
    requires 0 < hashSize < KEY_LIMIT
    ensures key == Weight(Option(s), 8) % hashSize
  {
    OptionIsPrefix(s);
    ghost var option := Option(s);
    key := 0;
    var i: nat, shifted: nat := 0, 1;
    while i < 8
      invariant i <= 8 && i <= |option| && shifted == Pow2(i) <= 256
      invariant key == Weight(option, i) <= 127 * (shifted - 1)
      decreases 8 - i
    {
      var c := At(s, i);
      if c == 0 || !ValidOptionChar(c) {
        WeightStops(option, 8);
        break;
      }
      if IsUpper(c) {
        c := ToLower(c);
      }
      NoOverflow(i, c);
      key := (key + c * shifted) % KEY_LIMIT;
      i, shifted := i + 1, 2 * shifted;
    }
    key := key % hashSize;
  }

  lemma NoOverflow(i: nat, c: nat)
    requires i < 8 && c < 128
    ensures Pow2(i) <= 128 == Pow2(7) && c * Pow2(i) <= 127 * Pow2(i)
  {
    assert Pow2(2) == 4 && Pow2(4) == 16 && Pow2(6) == 64 && Pow2(7) == 128;
    PowersGrow(i, 7);
  }

  lemma {:induction false} PowersGrow(i: nat, j: nat)
    requires i <= j
    ensures Pow2(i) <= Pow2(j)
    decreases j - i
  {
    if i < j {
      PowersGrow(i + 1, j);
    }
  }

  lemma {:induction false} WeightStops(option: seq<nat>, n: nat)
    requires |option| <= n
    ensures Weight(option, n) == Weight(option, |option|)
  {
    if |option| < n {
      WeightStops(option, n - 1);
    }
  }

  /** What comparing two strings comes to. */
  function Comparison(s: seq<Ascii>, t: seq<Ascii>): int
  {
    var u: int, v: int := At(s, 0), At(t, 0);
    if s == [] && t == [] then 0
    else if t == [] then if ValidOptionChar(u) then u else 0
    else if s == [] then if ValidOptionChar(v) then 0 - v else 0
    else if !ValidOptionChar(u) then if ValidOptionChar(v) then u - v else 0
    else if ToUpper(u) != ToUpper(v) then ToUpper(u) - ToUpper(v)
    else Comparison(s[1..], t[1..])
  }

  /** Character i of an option, counting from 0; none past its end. */
  function Character(option: seq<nat>, i: nat): nat
  {
    if i < |option| then option[i] else 0
  }

  lemma WeightStep(option: seq<nat>, i: nat)
    ensures Weight(option, i + 1) == Weight(option, i) + Character(option, i) * Pow2(i) && Weight(option, 0) == 0
    ensures Pow2(i + 1) == 2 * Pow2(i) && Pow2(0) == 1
  {
  }

  /** The key written out: the first eight characters of the option, each counting twice as much as the one before. */
  lemma WeightWrittenOut(option: seq<nat>)
    ensures var o := option;
      Weight(o, 8) == Character(o, 0) + 2 * Character(o, 1) + 4 * Character(o, 2) + 8 * Character(o, 3)
        + 16 * Character(o, 4) + 32 * Character(o, 5) + 64 * Character(o, 6) + 128 * Character(o, 7)
  {
    hide Weight, Pow2, Character;
    WeightStep(option, 0);
    WeightStep(option, 1);
    WeightStep(option, 2);
    WeightStep(option, 3);
    WeightStep(option, 4);
    WeightStep(option, 5);
    WeightStep(option, 6);
    WeightStep(option, 7);
  }

  /** The options of strings are words of letters, in lower case, digits, '~' and '_'. */
  lemma OptionSpelled(s: seq<Ascii>, i: nat)
    requires i < |Option(s)|
    ensures i < |s| && var c := s[i] as char;
      Option(s)[i] == if 'A' <= c <= 'Z' then ('a' as int - 'A' as int) + s[i] else s[i]
    ensures var c := s[i] as char; 'A' <= c <= 'Z' || 'a' <= c <= 'z' || '0' <= c <= '9' || c == '~' || c == '_'
  {
    OptionIsPrefix(s);
  }

  /** An option ends at the first character that is none of these. */
  lemma OptionEnds(s: seq<Ascii>)
    ensures |Option(s)| < |s| ==> var c := s[|Option(s)|] as char;
      !('A' <= c <= 'Z' || 'a' <= c <= 'z' || '0' <= c <= '9' || c == '~' || c == '_')
  {
    OptionIsPrefix(s);
  }

  /** Two strings compare equal exactly when they name the same option. */
  method Compare(s: seq<Ascii>, t: seq<Ascii>) returns (res: int)
    ensures res == Comparison(s, t)
    ensures res == 0 <==> Option(s) == Option(t)
  {
    EqualIsSameOption(s, t);
    var i := 0;
    assert s[0..] == s && t[0..] == t;
    while i < |s| && i < |t|
      invariant i <= |s| && i <= |t| && Comparison(s, t) == Comparison(s[i..], t[i..])
    {
      var u: int, v: int := s[i], t[i];
      if !ValidOptionChar(u) {
        return if ValidOptionChar(v) then u - v else 0;
      }
      i := i + 1;
      if ToUpper(u) != ToUpper(v) {
        return ToUpper(u) - ToUpper(v);
      }
      assert s[i - 1..][1..] == s[i..] && t[i - 1..][1..] == t[i..];
    }
    var c: int, d: int := At(s, i), At(t, i);
    assert At(s[i..], 0) == c && At(t[i..], 0) == d;
    if c == d {
      return 0;
    } else if c != 0 {
      return if ValidOptionChar(c) then c else 0;
    } else {
      return if ValidOptionChar(d) then 0 - d else 0;
    }
  }

  lemma {:induction false} EqualIsSameOption(s: seq<Ascii>, t: seq<Ascii>)
    ensures Comparison(s, t) == 0 <==> Option(s) == Option(t)
  {
    if s != [] && t != [] && ValidOptionChar(s[0]) && ToUpper(s[0]) == ToUpper(t[0]) {
      EqualIsSameOption(s[1..], t[1..]);
      assert Option(s)[1..] == Option(s[1..]) && Option(t)[1..] == Option(t[1..]);
    } else if s != [] && t != [] && ValidOptionChar(s[0]) {
      assert Option(s)[0] == ToLower(s[0]);
      assert ValidOptionChar(t[0]) ==> Option(t)[0] == ToLower(t[0]);
    }
  }

  // ---------------------------------------------------------------- when comparing is an order

  /** "x^" and "xa" are each less than the other. */
  lemma NotAnOrder()
    ensures Comparison([120, 94], [120, 97]) < 0 && Comparison([120, 97], [120, 94]) < 0
  {
    assert [120, 94][1..] == [94] && [120, 97][1..] == [97];
  }

  /** The option is followed by the end of the string, or by a character less than every option character. */
  predicate Tame(s: seq<Ascii>)
  {
    s == [] || if ValidOptionChar(s[0]) then Tame(s[1..]) else s[0] < 48
  }

  /** What the first character counts in the order: past the option, nothing. */
  function First(s: seq<Ascii>): nat
  {
    if s == [] || !ValidOptionChar(s[0]) then 0 else ToUpper(s[0])
  }

  /** Tame strings compare by the first place where their options differ in more than case. */
  lemma CompareStep(s: seq<Ascii>, t: seq<Ascii>)
    requires Tame(s) && Tame(t)
    ensures First(s) != First(t) ==> (Comparison(s, t) < 0 <==> First(s) < First(t))
    ensures First(s) != First(t) ==> Comparison(s, t) != 0
    ensures First(s) == First(t) == 0 ==> Comparison(s, t) == 0
    ensures First(s) == First(t) > 0 ==>
      s != [] && t != [] && Tame(s[1..]) && Tame(t[1..]) && Comparison(s, t) == Comparison(s[1..], t[1..])
  {
  }

  lemma {:induction false} TameAntisymmetric(s: seq<Ascii>, t: seq<Ascii>)
    requires Tame(s) && Tame(t)
    ensures Comparison(s, t) > 0 <==> Comparison(t, s) < 0
  {
    hide Comparison;
    CompareStep(s, t);
    CompareStep(t, s);
    if First(s) == First(t) > 0 {
      TameAntisymmetric(s[1..], t[1..]);
    }
  }

  lemma {:induction false} TameTransitive(s: seq<Ascii>, t: seq<Ascii>, u: seq<Ascii>)
    requires Tame(s) && Tame(t) && Tame(u) && Comparison(s, t) <= 0 && Comparison(t, u) <= 0
    ensures Comparison(s, u) <= 0
  {
    hide Comparison;
    CompareStep(s, t);
    CompareStep(t, u);
    CompareStep(s, u);
    if First(s) == First(t) == First(u) > 0 {
      TameTransitive(s[1..], t[1..], u[1..]);
    }
  }

  /** A string has its place in the order of the tame ones exactly if it is tame: another one is equal to its bare
      option, and yet not less than all that goes on from there. */
  lemma TameExactly(s: seq<Ascii>)
    ensures Tame(s) <==> forall t, u :: Tame(t) && Tame(u) && Comparison(s, t) <= 0 && Comparison(t, u) <= 0 ==>
      Comparison(s, u) <= 0
  {
    if Tame(s) {
      forall t, u | Tame(t) && Tame(u) && Comparison(s, t) <= 0 && Comparison(t, u) <= 0 ensures Comparison(s, u) <= 0 {
        TameTransitive(s, t, u);
      }
    } else {
      var t, u := WildGreater(s);
    }
  }

  lemma {:induction false} WildGreater(s: seq<Ascii>) returns (t: seq<Ascii>, u: seq<Ascii>)
    requires !Tame(s)
    ensures Tame(t) && Tame(u) && Comparison(s, t) == 0 && Comparison(t, u) < 0 < Comparison(s, u)
  {
    if ValidOptionChar(s[0]) {
      var t', u' := WildGreater(s[1..]);
      t, u := [s[0]] + t', [s[0]] + u';
      assert t[1..] == t' && u[1..] == u';
    } else {
      t, u := [], [48];
      assert u[1..] == [];
    }
  }

  /** What the option of s counts at place k: its character there, in upper case, or nothing. */
  function Capital(s: seq<Ascii>, k: nat): nat
  {
    if k >= |Option(s)| then 0 else if 97 <= Option(s)[k] <= 122 then Option(s)[k] - 32 else Option(s)[k]
  }

  /** Tame strings are ordered by the first place where their options differ, letters counting in upper case: so '_'
      comes after every letter. */
  lemma {:induction false} ComparesByFirstDifference(s: seq<Ascii>, t: seq<Ascii>, k: nat)
    requires Tame(s) && Tame(t) && k <= |Option(s)| && k <= |Option(t)| && Option(s)[..k] == Option(t)[..k]
    requires Capital(s, k) != Capital(t, k)
    ensures Comparison(s, t) != 0 && (Comparison(s, t) < 0 <==> Capital(s, k) < Capital(t, k))
  {
    hide Comparison, Tame;
    CompareStep(s, t);
    FirstIsCapital(s);
    FirstIsCapital(t);
    if k > 0 {
      assert Option(s)[..k][0] == Option(t)[..k][0];
      Later(s, k);
      Later(t, k);
      assert Option(s[1..])[..k - 1] == Option(s)[..k][1..] == Option(t)[..k][1..] == Option(t[1..])[..k - 1];
      ComparesByFirstDifference(s[1..], t[1..], k - 1);
    }
  }

  lemma FirstIsCapital(s: seq<Ascii>)
    ensures First(s) == Capital(s, 0) && (First(s) == 0 <==> Option(s) == [])
  {
  }

  lemma Later(s: seq<Ascii>, k: nat)
    requires 0 < k <= |Option(s)|
    ensures s != [] && Option(s)[1..] == Option(s[1..]) && Capital(s, k) == Capital(s[1..], k - 1)
  {
  }

  type TameText = s: seq<Ascii> | Tame(s)

  /** So a table keyed by options is ordered as its operations require, if all its keys are tame. */
  lemma OptionTablesAreOrdered<D>(table: HashTable.HashTable<TameText, D>)
    requires forall s: TameText, t: TameText :: table.compare(s, t) == Comparison(s, t)
    requires forall s: TameText, n: nat :: n > 0 ==> table.hash(s, n) == Weight(Option(s), 8) % n
    requires table.size > 0
    ensures table.Ordered()
  {
    var compare := table.compare;
    forall s: TameText, t: TameText ensures HashTable.Antisymmetric(compare, s, t) {
      TameAntisymmetric(s, t);
    }
    forall s: TameText, t: TameText, u: TameText ensures HashTable.Transitive(compare, s, t, u) {
      if compare(s, t) <= 0 && compare(t, u) <= 0 {
        TameTransitive(s, t, u);
      }
    }
    forall s: TameText, t: TameText ensures HashTable.SameBucket(table.hash, compare, table.size, s, t) {
      EqualIsSameOption(s, t);
    }
  }

  /** A table keyed by options meets the law its searches rely on: equal options share a bucket. */
  lemma OptionsAreCongruent(compare: (seq<Ascii>, seq<Ascii>) -> int, size: nat)
    requires forall s, t :: compare(s, t) == 0 <==> Option(s) == Option(t)
    ensures HashTable.Congruent((s: seq<Ascii>, n: nat) => if n == 0 then 0 else Weight(Option(s), 8) % n, compare, size)
  {
    var hash := (s: seq<Ascii>, n: nat) => if n == 0 then 0 else Weight(Option(s), 8) % n;
    forall s, t ensures HashTable.SameBucket(hash, compare, size, s, t) {
      assert compare(s, t) == 0 <==> Option(s) == Option(t);
    }
  }
}
