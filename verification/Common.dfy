/** What several components share: a few types, and sequences seen as lists. */
module Common {

  datatype Option<T> = None | Some(value: T)

  type Byte = b: int | 0 <= b < 256

  const UINT := 0x1_0000_0000

  function Min(a: int, b: int): int { if a < b then a else b }

  function Max(a: int, b: int): int { if a < b then b else a }

  ghost predicate Distinct<T>(s: seq<T>)
  {
    forall i, j :: 0 <= i < j < |s| ==> s[i] != s[j]
  }

  ghost function SetOf<T>(s: seq<T>): set<T>
  {
    set x | x in s
  }

  ghost function Inserted<T>(s: seq<T>, i: nat, x: T): (r: seq<T>)
    requires i <= |s|
    ensures |r| == |s| + 1 && r[i] == x
    ensures forall j {:trigger r[j]} :: 0 <= j < |r| ==> r[j] == if j < i then s[j] else if j == i then x else s[j - 1]
  {
    s[..i] + [x] + s[i..]
  }

  ghost function Removed<T>(s: seq<T>, i: nat): (r: seq<T>)
    requires i < |s|
    ensures |r| == |s| - 1
    ensures forall j {:trigger r[j]} :: 0 <= j < |r| ==> r[j] == if j < i then s[j] else s[j + 1]
  {
    s[..i] + s[i + 1..]
  }

  /** A cache of discarded nodes, last in first out. It keeps no more than the limit, and none twice. */
  class Pool<T(==)> {
    const limit: nat
    var mem: seq<T>
    ghost var free: set<T>

    ghost predicate Valid()
      reads this
    {
      |mem| <= limit && (forall p :: 0 <= p < |mem| ==> mem[p] in free) && Distinct(mem)
    }

    constructor (limit: nat)
      ensures Valid() && free == {} && mem == [] && this.limit == limit
    {
      this.limit, mem, free := limit, [], {};
    }

    /** Keeps the node for later use, unless the pool is full. */
    method Discard(x: T)
      requires Valid() && x !in free
      modifies this
      ensures Valid()
      ensures if |old(mem)| < limit then mem == old(mem) + [x] && free == old(free) + {x}
              else mem == old(mem) && free == old(free)
    {
      if |mem| < limit {
        mem, free := mem + [x], free + {x};
      }
    }

    /** The node discarded last, if there is one. */
    method Reuse() returns (x: Option<T>)
      requires Valid()
      modifies this
      ensures Valid()
      ensures if old(mem) == [] then x == None && mem == [] && free == old(free)
              else x == Some(old(mem)[|old(mem)| - 1]) && x.value in old(free)
                   && mem == old(mem)[..|old(mem)| - 1] && free == old(free) - {x.value}
    {
      x := None;
      if |mem| > 0 {
        x := Some(mem[|mem| - 1]);
        mem, free := mem[..|mem| - 1], free - {x.value};
      }
    }
  }
}
