/** The doubly linked list of libAfterBase/aslist.c, with its pool of discarded elements. */
module BiDirList {
  import opened Common

  const DEALLOC_CACHE_SIZE := 1024

  class BiDirElem<D> {
    var next: BiDirElem?<D>
    var prev: BiDirElem?<D>
    var data: Option<D>

    constructor (data: Option<D>)
      ensures next == null && prev == null && this.data == data
    {
      next, prev, this.data := null, null, data;
    }
  }

  /** An element nobody uses: the last discarded one if there is one. Discarded elements are shared by every list. */
  method AllocElem<D>(pool: Pool<BiDirElem<D>>, data: Option<D>) returns (e: BiDirElem<D>)
    requires pool.Valid()
    modifies pool, pool.free
    ensures pool.Valid() && e !in pool.free && (fresh(e) || e in old(pool.free)) && pool.free == old(pool.free) - {e}
    ensures e.next == null && e.prev == null && e.data == data
    ensures pool.mem == if old(pool.mem) == [] then [] else old(pool.mem)[..|old(pool.mem)| - 1]
    ensures old(pool.mem) != [] ==> e == old(pool.mem)[|old(pool.mem)| - 1]
  {
    var cached := pool.Reuse();
    if cached.Some? {
      e := cached.value;
      e.next, e.prev, e.data := null, null, data;
    } else {
      e := new BiDirElem(data);
    }
  }

  // ---------------------------------------------------------------- links

  ghost function Nth<D>(nodes: seq<BiDirElem<D>>, i: int): BiDirElem?<D>
  {
    if 0 <= i < |nodes| then nodes[i] else null
  }

  /** The nodes, each once, are what a walk from the head meets, and backwards what a walk from the tail meets. */
  ghost predicate Linked<D>(head: BiDirElem?<D>, tail: BiDirElem?<D>, nodes: seq<BiDirElem<D>>, all: set<BiDirElem<D>>)
    reads all`next, all`prev
  {
    && head == Nth(nodes, 0) && tail == Nth(nodes, |nodes| - 1)
    && all == SetOf(nodes) && (forall i :: 0 <= i < |nodes| ==> nodes[i] in all)
    && (forall i {:trigger nodes[i].next} :: 0 <= i < |nodes| ==> nodes[i].next == Nth(nodes, i + 1))
    && (forall i {:trigger nodes[i].prev} :: 0 <= i < |nodes| ==> nodes[i].prev == Nth(nodes, i - 1))
    && Distinct(nodes)
  }

  ghost predicate Holds<D>(nodes: seq<BiDirElem<D>>, contents: seq<Option<D>>, all: set<BiDirElem<D>>)
    reads all`data
  {
    |nodes| == |contents| && forall i :: 0 <= i < |nodes| ==> nodes[i] in all && nodes[i].data == contents[i]
  }

  lemma SetOfInserted<T>(s: seq<T>, i: nat, x: T)
    requires i <= |s|
    ensures SetOf(Inserted(s, i, x)) == SetOf(s) + {x}
    ensures Distinct(s) && x !in s ==> Distinct(Inserted(s, i, x))
    ensures forall k :: 0 <= k < |s| + 1 ==> Inserted(s, i, x)[k] in SetOf(s) + {x}
  {
    var r := Inserted(s, i, x);
    assert r[i] == x;
    forall y | y in s ensures y in r {
      var k :| 0 <= k < |s| && s[k] == y;
      assert r[if k < i then k else k + 1] == y;
    }
  }

  lemma SetOfRemoved<T>(s: seq<T>, i: nat)
    requires i < |s| && Distinct(s)
    ensures SetOf(Removed(s, i)) == SetOf(s) - {s[i]} && Distinct(Removed(s, i))
    ensures forall k :: 0 <= k < |s| - 1 ==> Removed(s, i)[k] in SetOf(s) - {s[i]}
  {
    var r := Removed(s, i);
    forall y | y in s && y != s[i] ensures y in r {
      var k :| 0 <= k < |s| && s[k] == y;
      assert r[if k < i then k else k - 1] == y;
    }
  }

  /** What is known around the i-th place of a linked list. */
  lemma Around<D>(head: BiDirElem?<D>, tail: BiDirElem?<D>, nodes: seq<BiDirElem<D>>, all: set<BiDirElem<D>>, i: nat)
    requires Linked(head, tail, nodes, all) && i <= |nodes|
    ensures head == Nth(nodes, 0) && tail == Nth(nodes, |nodes| - 1)
    ensures i < |nodes| ==> nodes[i] in all && nodes[i].next == Nth(nodes, i + 1) && nodes[i].prev == Nth(nodes, i - 1)
    ensures forall k :: 0 <= k < |nodes| && k != i ==> Nth(nodes, k) != Nth(nodes, i)
    ensures forall k :: 0 <= k < |nodes| ==> nodes[k] in all
  {
  }

  /** The list with e in place i is linked, if both neighbours and the ends of the list have taken notice. */
  lemma LinkedInsert<D>(head: BiDirElem?<D>, tail: BiDirElem?<D>, nodes: seq<BiDirElem<D>>, all: set<BiDirElem<D>>,
                        i: nat, e: BiDirElem<D>)
    requires i <= |nodes| && e !in nodes && all == SetOf(nodes)
    requires Distinct(nodes)
    requires forall k {:trigger nodes[k].next} :: 0 <= k < |nodes| ==>
      nodes[k].next == if k + 1 == i then e else Nth(nodes, k + 1)
    requires forall k {:trigger nodes[k].prev} :: 0 <= k < |nodes| ==>
      nodes[k].prev == if k == i then e else Nth(nodes, k - 1)
    requires e.next == Nth(nodes, i) && e.prev == Nth(nodes, i - 1)
    requires head == (if i == 0 then e else Nth(nodes, 0)) && tail == (if i == |nodes| then e else Nth(nodes, |nodes| - 1))
    ensures Linked(head, tail, Inserted(nodes, i, e), all + {e})
  {
    hide SetOf, Distinct, Inserted;
    var after := Inserted(nodes, i, e);
    SetOfInserted(nodes, i, e);
    forall k | 0 <= k < |after| ensures after[k].next == Nth(after, k + 1) {
      if k < i {
        assert nodes[k].next == if k + 1 == i then e else Nth(nodes, k + 1);
      } else if k > i {
        assert nodes[k - 1].next == Nth(nodes, k);
      }
    }
    forall k | 0 <= k < |after| ensures after[k].prev == Nth(after, k - 1) {
      if k < i {
        assert nodes[k].prev == Nth(nodes, k - 1);
      } else if k > i {
        assert nodes[k - 1].prev == if k - 1 == i then e else Nth(nodes, k - 2);
      }
    }
  }

  lemma EndsAfterRemove<D>(nodes: seq<BiDirElem<D>>, i: nat)
    requires i < |nodes|
    ensures Nth(Removed(nodes, i), 0) == Nth(nodes, if i == 0 then 1 else 0)
    ensures Nth(Removed(nodes, i), |Removed(nodes, i)| - 1) == Nth(nodes, if i == |nodes| - 1 then |nodes| - 2 else |nodes| - 1)
  {
  }

  lemma LinkedRemove<D>(head: BiDirElem?<D>, tail: BiDirElem?<D>, nodes: seq<BiDirElem<D>>, all: set<BiDirElem<D>>, i: nat)
    requires i < |nodes| && all == SetOf(nodes)
    requires Distinct(nodes)
    requires forall k {:trigger nodes[k].next} :: 0 <= k < |nodes| && k != i ==>
      nodes[k].next == Nth(nodes, if k + 1 == i then i + 1 else k + 1)
    requires forall k {:trigger nodes[k].prev} :: 0 <= k < |nodes| && k != i ==>
      nodes[k].prev == Nth(nodes, if k == i + 1 then i - 1 else k - 1)
    requires head == Nth(nodes, if i == 0 then 1 else 0)
    requires tail == Nth(nodes, if i == |nodes| - 1 then |nodes| - 2 else |nodes| - 1)
    ensures Linked(head, tail, Removed(nodes, i), all - {nodes[i]})
  {
    hide SetOf, Distinct, Removed;
    var after := Removed(nodes, i);
    SetOfRemoved(nodes, i);
    forall k | 0 <= k < |after| ensures after[k].next == Nth(after, k + 1) {
      var j := if k < i then k else k + 1;
      assert nodes[j].next == Nth(nodes, if j + 1 == i then i + 1 else j + 1);
    }
    forall k | 0 <= k < |after| ensures after[k].prev == Nth(after, k - 1) {
      var j := if k < i then k else k + 1;
      assert nodes[j].prev == Nth(nodes, if j == i + 1 then i - 1 else j - 1);
    }
    EndsAfterRemove(nodes, i);
  }

  lemma HoldsInsert<D>(nodes: seq<BiDirElem<D>>, contents: seq<Option<D>>, all: set<BiDirElem<D>>, i: nat, e: BiDirElem<D>)
    requires Holds(nodes, contents, all) && i <= |nodes|
    ensures Holds(Inserted(nodes, i, e), Inserted(contents, i, e.data), all + {e})
  {
  }

  lemma HoldsRemove<D>(head: BiDirElem?<D>, tail: BiDirElem?<D>, nodes: seq<BiDirElem<D>>, contents: seq<Option<D>>,
                       all: set<BiDirElem<D>>, i: nat)
    requires Holds(nodes, contents, all) && Linked(head, tail, nodes, all) && i < |nodes|
    ensures Holds(Removed(nodes, i), Removed(contents, i), all - {nodes[i]})
  {
  }

  // ---------------------------------------------------------------- the list

  class BiDirList<D(==)> {
    const pool: Pool<BiDirElem<D>>
    const destroys: bool
    var head: BiDirElem?<D>
    var tail: BiDirElem?<D>
    var count: nat

    /** The elements in order, their data, and the data handed to the destroy function. */
    ghost var nodes: seq<BiDirElem<D>>
    ghost var contents: seq<Option<D>>
    ghost var all: set<BiDirElem<D>>
    ghost var destroyed: seq<D>

    ghost predicate Core()
      reads this, all
    {
      Linked(head, tail, nodes, all) && Holds(nodes, contents, all) && count == |nodes|
    }

    ghost predicate Valid()
      reads this, all, pool
    {
      Core() && pool.Valid() && pool.limit == DEALLOC_CACHE_SIZE && all !! pool.free
    }

    constructor (pool: Pool<BiDirElem<D>>, destroys: bool)
      requires pool.Valid() && pool.limit == DEALLOC_CACHE_SIZE
      ensures Valid() && contents == [] && destroyed == [] && this.pool == pool && this.destroys == destroys && all == {}
    {
      this.pool, this.destroys, head, tail, count := pool, destroys, null, null, 0;
      nodes, contents, all, destroyed := [], [], {}, [];
    }

    // the links alone

    method LinkLast(e: BiDirElem<D>)
      requires Linked(head, tail, nodes, all) && e !in all && e.next == null
      modifies `head, `tail, all`next, e`prev
      ensures Linked(head, tail, Inserted(nodes, |nodes|, e), all + {e})
    {
      e.prev := tail;
      if tail != null {
        tail.next := e;
      } else {
        head := e;
      }
      tail := e;
      LinkedInsert(head, tail, nodes, all, |nodes|, e);
    }

    method LinkFirst(e: BiDirElem<D>)
      requires Linked(head, tail, nodes, all) && e !in all && e.prev == null
      modifies `head, `tail, all`prev, e`next
      ensures Linked(head, tail, Inserted(nodes, 0, e), all + {e})
    {
      e.next := head;
      if head != null {
        head.prev := e;
      } else {
        tail := e;
      }
      head := e;
      LinkedInsert(head, tail, nodes, all, 0, e);
    }

    method LinkAfter(e: BiDirElem<D>, after: BiDirElem<D>, ghost i: nat)
      requires Linked(head, tail, nodes, all) && e !in all && i < |nodes| && nodes[i] == after
      modifies `tail, all`next, all`prev, e`next, e`prev
      ensures Linked(head, tail, Inserted(nodes, i + 1, e), all + {e})
    {
      e.prev := after;
      e.next := after.next;
      if after.next != null {
        after.next.prev := e;
      }
      after.next := e;
      if after == tail {
        tail := e;
      }
      LinkedInsert(head, tail, nodes, all, i + 1, e);
    }

    method LinkBefore(e: BiDirElem<D>, before: BiDirElem<D>, ghost i: nat)
      requires Linked(head, tail, nodes, all) && e !in all && i < |nodes| && nodes[i] == before
      modifies `head, all`next, all`prev, e`next, e`prev
      ensures Linked(head, tail, Inserted(nodes, i, e), all + {e})
    {
      e.next := before;
      e.prev := before.prev;
      if before.prev != null {
        before.prev.next := e;
      }
      before.prev := e;
      if before == head {
        head := e;
      }
      LinkedInsert(head, tail, nodes, all, i, e);
    }

    method Unlink(elem: BiDirElem<D>, ghost i: nat)
      requires Linked(head, tail, nodes, all) && i < |nodes| && nodes[i] == elem
      modifies `head, `tail, all`next, all`prev
      ensures Linked(head, tail, Removed(nodes, i), all - {elem})
    {
      if elem == head {
        head := elem.next;
      }
      if elem == tail {
        tail := elem.prev;
      }
      if elem.next != null {
        elem.next.prev := elem.prev;
      }
      if elem.prev != null {
        elem.prev.next := elem.next;
      }
      LinkedRemove(head, tail, nodes, all, i);
    }

    // whole operations

    /** The list takes note of an element that has been linked into its i-th place. */
    method Enter(e: BiDirElem<D>, ghost i: nat)
      requires Holds(nodes, contents, all) && i <= |nodes| && count == |nodes|
      requires Linked(head, tail, Inserted(nodes, i, e), all + {e})
      modifies `count, `nodes, `contents, `all
      ensures Core() && all == old(all) + {e}
      ensures nodes == Inserted(old(nodes), i, e) && contents == Inserted(old(contents), i, e.data)
    {
      hide Linked, Holds;
      HoldsInsert(nodes, contents, all, i, e);
      count := count + 1;
      nodes, contents, all := Inserted(nodes, i, e), Inserted(contents, i, e.data), all + {e};
    }

    method Leave(elem: BiDirElem<D>, ghost i: nat)
      requires Holds(nodes, contents, all) && i < |nodes| && count == |nodes| && elem == nodes[i]
      requires Linked(head, tail, Removed(nodes, i), all - {elem}) && Holds(Removed(nodes, i), Removed(contents, i), all - {elem})
      modifies `count, `nodes, `contents, `all
      ensures Core() && all == old(all) - {elem}
      ensures nodes == Removed(old(nodes), i) && contents == Removed(old(contents), i)
    {
      hide Linked, Holds;
      SizesAgree(nodes, contents, all);
      count := count - 1;
      nodes, contents, all := Removed(nodes, i), Removed(contents, i), all - {elem};
    }

    /** Adds data at the end. */
    method Append(data: Option<D>)
      requires Valid()
      modifies this, all, pool, pool.free
      ensures Valid() && fresh(all + pool.free - old(all + pool.free)) && destroyed == old(destroyed)
      ensures contents == old(contents) + [data]
    {
      hide Linked, Holds;
      var e := AllocElem(pool, data);
      assert Core();
      ghost var n := |nodes|;
      LinkLast(e);
      assert Holds(nodes, contents, all);
      SizesAgree(nodes, contents, all);
      Enter(e, n);
    }

    /** Adds data at the front. */
    method Prepend(data: Option<D>)
      requires Valid()
      modifies this, all, pool, pool.free
      ensures Valid() && fresh(all + pool.free - old(all + pool.free)) && destroyed == old(destroyed)
      ensures contents == [data] + old(contents)
    {
      hide Linked, Holds;
      var e := AllocElem(pool, data);
      assert Core();
      LinkFirst(e);
      assert Holds(nodes, contents, all);
      Enter(e, 0);
    }

    /** Adds data right after the i-th element, or at the end. */
    method InsertAfter(data: Option<D>, after: BiDirElem?<D>, ghost i: nat)
      requires Valid() && (after != null ==> i < |nodes| && nodes[i] == after)
      modifies this, all, pool, pool.free
      ensures Valid() && fresh(all + pool.free - old(all + pool.free)) && destroyed == old(destroyed)
      ensures contents == if after == null then old(contents) + [data] else old(contents[..i + 1] + [data] + contents[i + 1..])
    {
      hide Linked, Holds;
      if after == null {
        Append(data);
        return;
      }
      var e := AllocElem(pool, data);
      assert Core();
      LinkAfter(e, after, i);
      assert Holds(nodes, contents, all);
      SizesAgree(nodes, contents, all);
      Enter(e, i + 1);
    }

    /** Adds data right before the i-th element, or at the front. */
    method InsertBefore(data: Option<D>, before: BiDirElem?<D>, ghost i: nat)
      requires Valid() && (before != null ==> i < |nodes| && nodes[i] == before)
      modifies this, all, pool, pool.free
      ensures Valid() && fresh(all + pool.free - old(all + pool.free)) && destroyed == old(destroyed)
      ensures contents == if before == null then [data] + old(contents) else old(contents[..i] + [data] + contents[i..])
    {
      hide Linked, Holds;
      if before == null {
        Prepend(data);
        return;
      }
      var e := AllocElem(pool, data);
      assert Core();
      LinkBefore(e, before, i);
      assert Holds(nodes, contents, all);
      SizesAgree(nodes, contents, all);
      Enter(e, i);
    }

    /** Takes out the i-th element and destroys its data, if it has any. */
    method Destroy(elem: BiDirElem<D>, ghost i: nat)
      requires Valid() && i < |nodes| && nodes[i] == elem
      modifies this, all`next, all`prev, pool
      ensures Valid() && all == old(all) - {elem} && pool.free <= old(pool.free) + {elem}
      ensures |old(pool.mem)| < DEALLOC_CACHE_SIZE ==> pool.free == old(pool.free) + {elem}
      ensures |old(contents)| == |old(nodes)| && contents == Removed(old(contents), i) && nodes == Removed(old(nodes), i)
      ensures destroyed == old(destroyed) + if destroys && old(contents)[i].Some? then [old(contents)[i].value] else []
    {
      hide Linked, Holds;
      SizesAgree(nodes, contents, all);
      HoldsAt(nodes, contents, all, i);
      HoldsRemove(head, tail, nodes, contents, all, i);
      Unlink(elem, i);
      assert Holds(nodes, contents, all) && Holds(Removed(nodes, i), Removed(contents, i), all - {elem});
      if destroys && elem.data.Some? {
        destroyed := destroyed + [elem.data.value];
      }
      assert Linked(head, tail, Removed(nodes, i), all - {elem});
      assert Holds(nodes, contents, all) && Holds(Removed(nodes, i), Removed(contents, i), all - {elem});
      Leave(elem, i);
      pool.Discard(elem);
    }

    /** Moves the i-th element to the front. */
    method Pop(elem: BiDirElem<D>, ghost i: nat)
      requires Valid() && i < |nodes| && nodes[i] == elem
      modifies this, all`next, all`prev
      ensures Valid() && all == old(all) && destroyed == old(destroyed) && |old(contents)| == |old(nodes)|
      ensures nodes == [elem] + Removed(old(nodes), i) && contents == [old(contents)[i]] + Removed(old(contents), i)
    {
      hide Linked, Holds;
      SizesAgree(nodes, contents, all);
      HoldsAt(nodes, contents, all, i);
      Around(head, tail, nodes, all, i);
      if elem == head {
        assert i == 0;
        return;
      }
      Detach(elem, i);
      AttachFirst(elem);
    }

    method Detach(elem: BiDirElem<D>, ghost i: nat)
      requires Core() && i < |nodes| && nodes[i] == elem && |contents| == |nodes|
      modifies `head, `tail, `nodes, `contents, `all, all`next, all`prev
      ensures Linked(head, tail, nodes, all) && Holds(nodes, contents, all) && all == old(all) - {elem}
      ensures nodes == Removed(old(nodes), i) && contents == Removed(old(contents), i)
    {
      hide Linked, Holds;
      HoldsRemove(head, tail, nodes, contents, all, i);
      Unlink(elem, i);
      assert Holds(Removed(nodes, i), Removed(contents, i), all - {elem});
      nodes, contents, all := Removed(nodes, i), Removed(contents, i), all - {elem};
    }

    method AttachFirst(elem: BiDirElem<D>)
      requires Linked(head, tail, nodes, all) && Holds(nodes, contents, all) && elem !in all && count == |nodes| + 1
      modifies `head, `tail, `nodes, `contents, `all, all`prev, elem`next, elem`prev
      ensures Core() && all == old(all) + {elem}
      ensures nodes == [elem] + old(nodes) && contents == [elem.data] + old(contents)
    {
      hide Linked, Holds;
      elem.prev := null;
      assert Linked(head, tail, nodes, all);
      LinkFirst(elem);
      assert Holds(nodes, contents, all);
      HoldsInsert(nodes, contents, all, 0, elem);
      nodes, contents, all := Inserted(nodes, 0, elem), Inserted(contents, 0, elem.data), all + {elem};
    }

    /** Takes out the first element and returns its data, which is not destroyed. */
    method ExtractFirst() returns (data: Option<D>)
      requires Valid()
      modifies this, all, pool
      ensures Valid() && all <= old(all) && destroyed == old(destroyed) && pool.free <= old(all + pool.free)
      ensures old(contents) == [] ==> data == None && contents == []
      ensures old(contents) != [] ==> data == old(contents)[0] && contents == old(contents)[1..]
    {
      hide Linked, Holds;
      data := None;
      SizesAgree(nodes, contents, all);
      Around(head, tail, nodes, all, 0);
      if head != null {
        data := Blank(head, 0);
        Destroy(head, 0);
      }
    }

    method ExtractLast() returns (data: Option<D>)
      requires Valid()
      modifies this, all, pool
      ensures Valid() && all <= old(all) && destroyed == old(destroyed) && pool.free <= old(all + pool.free)
      ensures old(contents) == [] ==> data == None && contents == []
      ensures old(contents) != [] ==>
        data == old(contents)[|old(contents)| - 1] && contents == old(contents)[..|old(contents)| - 1]
    {
      hide Linked, Holds;
      data := None;
      SizesAgree(nodes, contents, all);
      ghost var last := |nodes| - 1;
      Around(head, tail, nodes, all, |nodes|);
      if tail != null {
        data := Blank(tail, last);
        Destroy(tail, last);
      }
    }

    /** Takes the data out of the i-th element. */
    method Blank(elem: BiDirElem<D>, ghost i: nat) returns (data: Option<D>)
      requires Valid() && i < |nodes| && nodes[i] == elem
      modifies elem`data, `contents
      ensures Valid() && |old(contents)| == |nodes| && contents == old(contents)[i := None] && data == old(contents)[i]
    {
      assert elem in all && Distinct(nodes);
      hide Linked;
      data := elem.data;
      elem.data := None;
      contents := contents[i := None];
    }

    /** Destroys the first element with this data. */
    method Discard(data: Option<D>) returns (found: bool)
      requires Valid()
      modifies this, all`next, all`prev, pool
      ensures Valid() && all <= old(all) && pool.free <= old(all + pool.free)
      ensures !found ==> contents == old(contents) && data !in contents
      ensures found ==> exists i :: 0 <= i < |old(contents)| && old(contents)[i] == data && data !in old(contents)[..i]
                                    && contents == Removed(old(contents), i)
      ensures destroyed == old(destroyed) + if found && destroys && data.Some? then [data.value] else []
    {
      hide Linked, Holds;
      SizesAgree(nodes, contents, all);
      Around(head, tail, nodes, all, 0);
      var elem, i: nat := head, 0;
      while elem != null
        invariant i <= |nodes| && elem == Nth(nodes, i) && data !in contents[..i]
        invariant Core() && contents == old(contents) && nodes == old(nodes)
        decreases |nodes| - i
        modifies {}
      {
        Around(head, tail, nodes, all, i);
        HoldsAt(nodes, contents, all, i);
        if elem.data == data {
          break;
        }
        elem, i := elem.next, i + 1;
        assert contents[..i] == contents[..i - 1] + [contents[i - 1]];
      }
      if elem == null {
        assert contents[..i] == contents;
        return false;
      }
      Destroy(elem, i);
      return true;
    }

    /** Destroys every element that compares equal to one before it. */
    method Dedup(compare: (Option<D>, Option<D>) -> int)
      requires Valid()
      modifies this, all`next, all`prev, pool
      ensures Valid() && all <= old(all) && pool.free <= old(all + pool.free)
      ensures contents == Deduped(old(contents), compare)
      ensures destroyed == old(destroyed) + HandedOver(destroys, Dropped(old(contents), compare))
    {
      hide *;
      ghost var was, gone := contents, destroyed;
      var curr, p: nat := head, 0;
      Start();
      PassedStarts(was, gone, destroys, compare);
      while curr != null
        invariant Valid() && all <= old(all) && pool.free <= old(all + pool.free)
        invariant p <= |nodes| == |contents| && curr == Nth(nodes, p)
        invariant Passed(was, gone, contents, destroyed, p, destroys, compare)
        decreases |nodes| - p
      {
        InRange(nodes, p);
        PassedStep(was, gone, contents, destroyed, p, destroys, compare);
        DedupAfter(curr, p, compare);
        curr := Following(curr, p);
        p := p + 1;
      }
      NotInRange(nodes, p);
      PassedEnds(was, gone, contents, destroyed, p, destroys, compare);
    }

    lemma Start()
      requires Valid()
      ensures |nodes| == |contents| && head == Nth(nodes, 0)
    {
    }

    /** The element behind the i-th. */
    method Following(elem: BiDirElem<D>, ghost i: nat) returns (next: BiDirElem?<D>)
      requires Valid() && i < |nodes| && nodes[i] == elem
      ensures next == Nth(nodes, i + 1)
    {
      hide Linked, Holds;
      Around(head, tail, nodes, all, i);
      next := elem.next;
    }

    /** Destroys every element after the p-th that compares equal to it. */
    method DedupAfter(curr: BiDirElem<D>, ghost p: nat, compare: (Option<D>, Option<D>) -> int)
      requires Valid() && p < |nodes| == |contents| && nodes[p] == curr
      modifies this, all`next, all`prev, pool
      ensures Valid() && all <= old(all) && pool.free <= old(all + pool.free)
      ensures p < |nodes| == |contents| && nodes[p] == curr
      ensures |old(contents)| > p
      ensures contents == old(contents[..p + 1]) + Others(old(contents[p + 1..]), old(contents[p]), compare)
      ensures destroyed == old(destroyed) + HandedOver(destroys, Dups(old(contents[p + 1..]), old(contents[p]), compare))
    {
      hide *;
      ghost var was, gone, x := contents, destroyed, contents[p];
      var dup := Following(curr, p);
      ghost var q: nat := p + 1;
      PrunedStarts(was, gone, p, x, destroys, compare);
      while dup != null
        invariant Valid() && all <= old(all) && pool.free <= old(all + pool.free)
        invariant p < q <= |nodes| == |contents| && dup == Nth(nodes, q) && nodes[p] == curr
        invariant Pruned(was, gone, contents, destroyed, p, q, x, destroys, compare)
        decreases |nodes| - q
      {
        InRange(nodes, q);
        PrunedStep(was, gone, contents, destroyed, p, q, x, destroys, compare);
        PrunedKeeps(was, gone, contents, destroyed, p, q, x, destroys, compare);
        dup, q := DedupOne(curr, dup, p, q, compare);
      }
      NotInRange(nodes, q);
      PrunedEnds(was, gone, contents, destroyed, p, q, x, destroys, compare);
    }

    /** Destroys the q-th element if it compares equal to the p-th, and goes on to the next. */
    method DedupOne(curr: BiDirElem<D>, dup: BiDirElem<D>, ghost p: nat, ghost q: nat, compare: (Option<D>, Option<D>) -> int)
        returns (next: BiDirElem?<D>, ghost q': nat)
      requires Valid() && p < q < |nodes| == |contents| && nodes[p] == curr && nodes[q] == dup
      modifies this, all`next, all`prev, pool
      ensures Valid() && all <= old(all) && pool.free <= old(all + pool.free)
      ensures q' <= |nodes| == |contents| && next == Nth(nodes, q') && p < q' && nodes[p] == curr
      ensures |old(nodes)| == |old(contents)|
      ensures if compare(old(contents)[p], old(contents)[q]) == 0
              then q' == q && contents == Removed(old(contents), q)
                && destroyed == old(destroyed) + HandedOver(destroys, [old(contents)[q]])
              else q' == q + 1 && contents == old(contents) && destroyed == old(destroyed)
      ensures |nodes| - q' < |old(nodes)| - q
    {
      hide Linked, Holds;
      Around(head, tail, nodes, all, q);
      HoldsAt(nodes, contents, all, p);
      HoldsAt(nodes, contents, all, q);
      next, q' := dup.next, q + 1;
      if compare(curr.data, dup.data) == 0 {
        Destroy(dup, q);
        SizesAgree(nodes, contents, all);
        q' := q;
      }
    }
  }

  lemma InRange<D>(nodes: seq<BiDirElem<D>>, i: nat)
    requires Nth(nodes, i) != null
    ensures i < |nodes| && nodes[i] == Nth(nodes, i)
  {
  }

  lemma NotInRange<D>(nodes: seq<BiDirElem<D>>, i: nat)
    requires i <= |nodes| && Nth(nodes, i) == null
    ensures i == |nodes|
  {
  }

  lemma SizesAgree<D>(nodes: seq<BiDirElem<D>>, contents: seq<Option<D>>, all: set<BiDirElem<D>>)
    requires Holds(nodes, contents, all)
    ensures |nodes| == |contents|
  {
  }

  lemma HoldsAt<D>(nodes: seq<BiDirElem<D>>, contents: seq<Option<D>>, all: set<BiDirElem<D>>, i: nat)
    requires Holds(nodes, contents, all) && i < |nodes|
    ensures i < |contents| && nodes[i] in all && nodes[i].data == contents[i]
  {
  }

  // ---------------------------------------------------------------- what dedup leaves

  /** The members of s that do not compare equal to x. */
  ghost function Others<D>(s: seq<D>, x: D, compare: (D, D) -> int): (r: seq<D>)
    ensures |r| <= |s| && forall k :: 0 <= k < |r| ==> r[k] in s && compare(x, r[k]) != 0
  {
    if s == [] then [] else (if compare(x, s[0]) == 0 then [] else [s[0]]) + Others(s[1..], x, compare)
  }

  /** One member after the other, without the later ones that compare equal to it. */
  ghost function Deduped<D>(s: seq<D>, compare: (D, D) -> int): (r: seq<D>)
    ensures forall k :: 0 <= k < |r| ==> r[k] in s
    decreases |s|
  {
    if s == [] then [] else [s[0]] + Deduped(Others(s[1..], s[0], compare), compare)
  }

  ghost predicate NoPair<D>(s: seq<D>, compare: (D, D) -> int)
  {
    forall i, j :: 0 <= i < j < |s| ==> compare(s[i], s[j]) != 0
  }

  /** No two members that are left compare equal. */
  lemma {:induction false} NoPairIsLeft<D>(s: seq<D>, compare: (D, D) -> int)
    ensures NoPair(Deduped(s, compare), compare)
    decreases |s|
  {
    if s != [] {
      var others := Others(s[1..], s[0], compare);
      NoPairIsLeft(others, compare);
      var r, rest := Deduped(s, compare), Deduped(others, compare);
      assert r == [s[0]] + rest;
      forall i, j | 0 <= i < j < |r| ensures compare(r[i], r[j]) != 0 {
        assert r[j] == rest[j - 1] && rest[j - 1] in others;
        if i == 0 {
          OthersHas(s[1..], s[0], compare, r[j]);
          assert r[0] == s[0];
        } else {
          assert r[i] == rest[i - 1] && compare(rest[i - 1], rest[j - 1]) != 0;
        }
      }
    }
  }

  /** The members that compare equal to none before them, in their order. */
  ghost function FirstOccurrences<D>(s: seq<D>, compare: (D, D) -> int): seq<D>
  {
    if s == [] then []
    else
      var front, last := s[..|s| - 1], s[|s| - 1];
      FirstOccurrences(front, compare) + if exists y :: y in front && compare(y, last) == 0 then [] else [last]
  }

  ghost predicate EqualityIsTransitive<D(!new)>(compare: (D, D) -> int)
  {
    forall a, b, c :: compare(a, b) == 0 && compare(b, c) == 0 ==> compare(a, c) == 0
  }

  lemma OthersCons<D>(y: D, t: seq<D>, x: D, compare: (D, D) -> int)
    ensures Others([y] + t, x, compare) == (if compare(x, y) == 0 then [] else [y]) + Others(t, x, compare)
  {
    assert ([y] + t)[1..] == t;
  }

  lemma DedupedCons<D>(y: D, t: seq<D>, compare: (D, D) -> int)
    ensures Deduped([y] + t, compare) == [y] + Deduped(Others(t, y, compare), compare)
  {
    assert ([y] + t)[1..] == t;
  }

  /** One more member at the end of s. */
  lemma {:induction false} OthersOneMore<D>(s: seq<D>, y: D, x: D, compare: (D, D) -> int)
    ensures Others(s + [y], x, compare) == Others(s, x, compare) + if compare(x, y) == 0 then [] else [y]
  {
    if s == [] {
      assert s + [y] == [y] + [] && Others([], x, compare) == [];
      OthersCons(y, [], x, compare);
    } else {
      assert s == [s[0]] + s[1..] && s + [y] == [s[0]] + (s[1..] + [y]);
      OthersOneMore(s[1..], y, x, compare);
      OthersCons(s[0], s[1..] + [y], x, compare);
      OthersCons(s[0], s[1..], x, compare);
    }
  }

  lemma {:induction false} OthersHas<D>(s: seq<D>, x: D, compare: (D, D) -> int, y: D)
    ensures y in Others(s, x, compare) <==> y in s && compare(x, y) != 0
  {
    if s != [] {
      OthersHas(s[1..], x, compare, y);
      assert s == [s[0]] + s[1..];
    }
  }

  /** One more member at the end stays exactly if it compares equal to none before it. */
  lemma {:induction false} DedupedOneMore<D(!new)>(s: seq<D>, x: D, compare: (D, D) -> int)
    requires EqualityIsTransitive(compare)
    ensures Deduped(s + [x], compare) == Deduped(s, compare) + if exists y :: y in s && compare(y, x) == 0 then [] else [x]
    decreases |s|
  {
    hide Others, Deduped;
    if s == [] {
      DedupedEnds(s, compare);
      OthersOfNone(x, compare);
      assert s + [x] == [x] + [];
      DedupedCons(x, [], compare);
    } else {
      var a, t := s[0], s[1..];
      var others := Others(t, a, compare);
      assert s == [a] + t && s + [x] == [a] + (t + [x]);
      DedupedCons(a, t + [x], compare);
      DedupedCons(a, t, compare);
      OthersOneMore(t, x, a, compare);
      if compare(a, x) != 0 {
        DedupedOneMore(others, x, compare);
        StillThere(a, t, x, compare);
        Grouped(a, Deduped(others, compare), x);
      } else {
        assert others + [] == others && a in s;
      }
    }
  }

  lemma Grouped<D>(a: D, s: seq<D>, x: D)
    ensures [a] + (s + [x]) == ([a] + s) + [x] && [a] + (s + []) == ([a] + s) + []
  {
  }

  /** What compares equal to x survives the removal of what compares equal to a, unless x does so itself. */
  lemma StillThere<D(!new)>(a: D, t: seq<D>, x: D, compare: (D, D) -> int)
    requires EqualityIsTransitive(compare) && compare(a, x) != 0
    ensures (exists y :: y in Others(t, a, compare) && compare(y, x) == 0) <==> (exists y :: y in [a] + t && compare(y, x) == 0)
  {
    var others := Others(t, a, compare);
    if y :| y in [a] + t && compare(y, x) == 0 {
      OthersHas(t, a, compare, y);
      assert y in others;
    }
    if y :| y in others && compare(y, x) == 0 {
      OthersHas(t, a, compare, y);
      assert y in [a] + t;
    }
  }

  /** If comparing equal is transitive, what is left are the first occurrences. */
  lemma {:induction false} DedupKeepsFirstOccurrences<D(!new)>(s: seq<D>, compare: (D, D) -> int)
    requires EqualityIsTransitive(compare)
    ensures Deduped(s, compare) == FirstOccurrences(s, compare)
  {
    if s != [] {
      var front, last := s[..|s| - 1], s[|s| - 1];
      DedupKeepsFirstOccurrences(front, compare);
      assert s == front + [last];
      DedupedOneMore(front, last, compare);
    }
  }

  lemma OthersOfNone<D>(x: D, compare: (D, D) -> int)
    ensures Others([], x, compare) == []
  {
  }

  lemma OthersStep<D>(s: seq<D>, p: nat, q: nat, x: D, compare: (D, D) -> int)
    requires p < q < |s|
    ensures compare(x, s[q]) == 0 ==>
      var r := Removed(s, q);
      r[..p + 1] == s[..p + 1] && r[p + 1..q] + Others(r[q..], x, compare) == s[p + 1..q] + Others(s[q..], x, compare)
    ensures compare(x, s[q]) != 0 ==>
      s[p + 1..q + 1] + Others(s[q + 1..], x, compare) == s[p + 1..q] + Others(s[q..], x, compare)
  {
    hide Others;
    var r, t, front := Removed(s, q), s[q + 1..], s[p + 1..q];
    assert s[q..] == [s[q]] + t;
    OthersCons(s[q], t, x, compare);
    assert r[q..] == t && r[..p + 1] == s[..p + 1] && r[p + 1..q] == front;
    assert s[p + 1..q + 1] == front + [s[q]];
    assert [] + Others(t, x, compare) == Others(t, x, compare);
    assert front + [s[q]] + Others(t, x, compare) == front + ([s[q]] + Others(t, x, compare));
  }

  lemma DedupedStep<D>(s: seq<D>, p: nat, compare: (D, D) -> int)
    requires p < |s|
    ensures var after := s[..p + 1] + Others(s[p + 1..], s[p], compare);
      s[..p] + Deduped(s[p..], compare) == after[..p + 1] + Deduped(after[p + 1..], compare)
  {
    hide Others, Deduped;
    var others, t := Others(s[p + 1..], s[p], compare), s[p + 1..];
    var after := s[..p + 1] + others;
    assert s[p..] == [s[p]] + t;
    DedupedCons(s[p], t, compare);
    assert after[p + 1..] == others && after[..p + 1] == s[..p] + [s[p]];
    assert s[..p] + [s[p]] + Deduped(others, compare) == s[..p] + ([s[p]] + Deduped(others, compare));
  }

  lemma DedupedEnds<D>(s: seq<D>, compare: (D, D) -> int)
    ensures Deduped<D>([], compare) == [] && s + [] == s
  {
  }

  // ---------------------------------------------------------------- what dedup destroys

  /** The members of s that compare equal to x. */
  ghost function Dups<D>(s: seq<D>, x: D, compare: (D, D) -> int): seq<D>
  {
    if s == [] then [] else (if compare(x, s[0]) == 0 then [s[0]] else []) + Dups(s[1..], x, compare)
  }

  /** What is taken out, in order: the later members that compare equal to the first, then those that compare equal
      to the next member that is left, and so on. */
  ghost function Dropped<D>(s: seq<D>, compare: (D, D) -> int): seq<D>
    decreases |s|
  {
    if s == [] then []
    else Dups(s[1..], s[0], compare) + Dropped(Others(s[1..], s[0], compare), compare)
  }

  /** What the destroy function is called with when these are taken out. Elements without data are passed over. */
  function HandedOver<D>(destroys: bool, s: seq<Option<D>>): seq<D>
  {
    if !destroys || s == [] then []
    else (if s[0].Some? then [s[0].value] else []) + HandedOver(destroys, s[1..])
  }

  lemma {:induction false} HandedSum<D>(destroys: bool, a: seq<Option<D>>, b: seq<Option<D>>)
    ensures HandedOver(destroys, a + b) == HandedOver(destroys, a) + HandedOver(destroys, b)
  {
    if destroys {
      if a == [] {
        assert a + b == b;
      } else {
        assert (a + b)[1..] == a[1..] + b;
        HandedSum(destroys, a[1..], b);
      }
    }
  }

  lemma CountCons<D>(x: D, s: seq<D>)
    ensures multiset([x] + s) == multiset{x} + multiset(s)
  {
  }

  lemma CountSum<D>(a: seq<D>, b: seq<D>)
    ensures multiset(a + b) == multiset(a) + multiset(b)
  {
  }

  /** What stays and what is destroyed make up what there was. */
  lemma {:induction false} DedupSplits<D>(s: seq<D>, compare: (D, D) -> int)
    ensures multiset(Deduped(s, compare)) + multiset(Dropped(s, compare)) == multiset(s)
    decreases |s|
  {
    if s != [] {
      var x, t := s[0], s[1..];
      var others, dups := Others(t, x, compare), Dups(t, x, compare);
      DedupSplits(others, compare);
      OthersSplits(t, x, compare);
      hide Others, Dups;
      assert s == [x] + t;
      CountCons(x, t);
      DedupedCons(x, t, compare);
      CountCons(x, Deduped(others, compare));
      CountSum(dups, Dropped(others, compare));
    }
  }

  lemma {:induction false} OthersSplits<D>(s: seq<D>, x: D, compare: (D, D) -> int)
    ensures multiset(Others(s, x, compare)) + multiset(Dups(s, x, compare)) == multiset(s)
  {
    hide Others, Dups;
    if s == [] {
      NobodySplits(x, compare);
    } else {
      var y, t := s[0], s[1..];
      var others, dups := Others(t, x, compare), Dups(t, x, compare);
      OthersSplits(t, x, compare);
      assert s == [y] + t;
      OthersCons(y, t, x, compare);
      DupsCons(y, t, x, compare);
      CountCons(y, t);
      CountMoves(multiset{y}, multiset(others), multiset(dups));
      if compare(x, y) == 0 {
        CountCons(y, dups);
        assert [] + others == others;
      } else {
        CountCons(y, others);
        assert [] + dups == dups;
      }
    }
  }

  lemma NobodySplits<D>(x: D, compare: (D, D) -> int)
    ensures Others([], x, compare) == [] && Dups([], x, compare) == []
  {
  }

  lemma CountMoves<D>(one: multiset<D>, a: multiset<D>, b: multiset<D>)
    ensures (one + a) + b == one + (a + b) == a + (one + b)
  {
  }

  lemma DupsCons<D>(y: D, t: seq<D>, x: D, compare: (D, D) -> int)
    ensures Dups([y] + t, x, compare) == (if compare(x, y) == 0 then [y] else []) + Dups(t, x, compare)
  {
    assert ([y] + t)[1..] == t;
  }

  /** The inner loop is at place q: what is left to compare with x, and what has been destroyed so far. */
  ghost predicate Pruned<D>(was: seq<Option<D>>, gone: seq<D>, now: seq<Option<D>>, destroyed: seq<D>, p: nat, q: nat,
                            x: Option<D>, destroys: bool, compare: (Option<D>, Option<D>) -> int)
  {
    && p < q <= |now| && p < |was| && now[..p + 1] == was[..p + 1]
    && now[p + 1..q] + Others(now[q..], x, compare) == Others(was[p + 1..], x, compare)
    && destroyed + HandedOver(destroys, Dups(now[q..], x, compare))
       == gone + HandedOver(destroys, Dups(was[p + 1..], x, compare))
  }

  lemma PrunedStarts<D>(was: seq<Option<D>>, gone: seq<D>, p: nat, x: Option<D>, destroys: bool,
                        compare: (Option<D>, Option<D>) -> int)
    requires p < |was|
    ensures Pruned(was, gone, was, gone, p, p + 1, x, destroys, compare)
  {
    assert [] + Others(was[p + 1..], x, compare) == Others(was[p + 1..], x, compare);
  }

  lemma DupsStep<D>(s: seq<D>, q: nat, x: D, compare: (D, D) -> int)
    requires q < |s|
    ensures Dups(s[q..], x, compare) == (if compare(x, s[q]) == 0 then [s[q]] else []) + Dups(s[q + 1..], x, compare)
    ensures Removed(s, q)[q..] == s[q + 1..]
  {
    assert s[q..][1..] == s[q + 1..];
  }

  /** The element in place q is taken out and destroyed if it compares equal, and passed over otherwise. */
  lemma PrunedStep<D>(was: seq<Option<D>>, gone: seq<D>, now: seq<Option<D>>, destroyed: seq<D>, p: nat, q: nat,
                      x: Option<D>, destroys: bool, compare: (Option<D>, Option<D>) -> int)
    requires Pruned(was, gone, now, destroyed, p, q, x, destroys, compare) && q < |now|
    ensures compare(x, now[q]) == 0 ==>
      Pruned(was, gone, Removed(now, q), destroyed + HandedOver(destroys, [now[q]]), p, q, x, destroys, compare)
    ensures compare(x, now[q]) != 0 ==> Pruned(was, gone, now, destroyed, p, q + 1, x, destroys, compare)
  {
    hide Others, Dups, HandedOver, Removed;
    OthersStep(now, p, q, x, compare);
    DupsStep(now, q, x, compare);
    RemovedSize(now, q);
    var rest := Dups(now[q + 1..], x, compare);
    assert [] + rest == rest;
    if compare(x, now[q]) == 0 {
      HandedSum(destroys, [now[q]], rest);
      var one, more := HandedOver(destroys, [now[q]]), HandedOver(destroys, rest);
      assert destroyed + one + more == destroyed + (one + more);
    }
  }

  lemma RemovedSize<D>(s: seq<D>, i: nat)
    requires i < |s|
    ensures |Removed(s, i)| == |s| - 1
  {
  }

  lemma PrunedKeeps<D>(was: seq<Option<D>>, gone: seq<D>, now: seq<Option<D>>, destroyed: seq<D>, p: nat, q: nat,
                       x: Option<D>, destroys: bool, compare: (Option<D>, Option<D>) -> int)
    requires Pruned(was, gone, now, destroyed, p, q, x, destroys, compare)
    ensures p < |now| && p < |was| && now[p] == was[p]
  {
    assert now[p] == now[..p + 1][p] && was[p] == was[..p + 1][p];
  }

  lemma PrunedEnds<D>(was: seq<Option<D>>, gone: seq<D>, now: seq<Option<D>>, destroyed: seq<D>, p: nat, q: nat,
                      x: Option<D>, destroys: bool, compare: (Option<D>, Option<D>) -> int)
    requires Pruned(was, gone, now, destroyed, p, q, x, destroys, compare) && q == |now|
    ensures p < |was| && now == was[..p + 1] + Others(was[p + 1..], x, compare)
    ensures destroyed == gone + HandedOver(destroys, Dups(was[p + 1..], x, compare))
  {
    assert now[q..] == [] && now[p + 1..q] + [] == now[p + 1..];
    assert now == now[..p + 1] + now[p + 1..] && destroyed + [] == destroyed;
  }

  /** The outer loop is at place p. */
  ghost predicate Passed<D>(was: seq<Option<D>>, gone: seq<D>, now: seq<Option<D>>, destroyed: seq<D>, p: nat,
                            destroys: bool, compare: (Option<D>, Option<D>) -> int)
  {
    && p <= |now| && now[..p] + Deduped(now[p..], compare) == Deduped(was, compare)
    && destroyed + HandedOver(destroys, Dropped(now[p..], compare)) == gone + HandedOver(destroys, Dropped(was, compare))
  }

  lemma PassedStarts<D>(was: seq<Option<D>>, gone: seq<D>, destroys: bool, compare: (Option<D>, Option<D>) -> int)
    ensures Passed(was, gone, was, gone, 0, destroys, compare)
  {
    hide Deduped, Dropped, HandedOver;
    assert was[0..] == was && [] + Deduped(was, compare) == Deduped(was, compare);
  }

  lemma PassedStep<D>(was: seq<Option<D>>, gone: seq<D>, now: seq<Option<D>>, destroyed: seq<D>, p: nat,
                      destroys: bool, compare: (Option<D>, Option<D>) -> int)
    requires Passed(was, gone, now, destroyed, p, destroys, compare) && p < |now|
    ensures Passed(was, gone, now[..p + 1] + Others(now[p + 1..], now[p], compare),
                   destroyed + HandedOver(destroys, Dups(now[p + 1..], now[p], compare)), p + 1, destroys, compare)
  {
    hide Others, Deduped, Dups, Dropped, HandedOver;
    DedupedStep(now, p, compare);
    var others, dups := Others(now[p + 1..], now[p], compare), Dups(now[p + 1..], now[p], compare);
    DroppedStep(now, p, compare);
    HandedSum(destroys, dups, Dropped(others, compare));
    assert (now[..p + 1] + others)[p + 1..] == others;
    var one, more := HandedOver(destroys, dups), HandedOver(destroys, Dropped(others, compare));
    assert destroyed + one + more == destroyed + (one + more);
  }

  lemma DroppedStep<D>(s: seq<D>, p: nat, compare: (D, D) -> int)
    requires p < |s|
    ensures Dropped(s[p..], compare)
      == Dups(s[p + 1..], s[p], compare) + Dropped(Others(s[p + 1..], s[p], compare), compare)
  {
    assert s[p..][1..] == s[p + 1..];
  }

  lemma PassedEnds<D>(was: seq<Option<D>>, gone: seq<D>, now: seq<Option<D>>, destroyed: seq<D>, p: nat,
                      destroys: bool, compare: (Option<D>, Option<D>) -> int)
    requires Passed(was, gone, now, destroyed, p, destroys, compare) && p == |now|
    ensures now == Deduped(was, compare) && destroyed == gone + HandedOver(destroys, Dropped(was, compare))
  {
    assert now[p..] == [] && now[..p] == now && now + [] == now && destroyed + [] == destroyed;
  }
}
