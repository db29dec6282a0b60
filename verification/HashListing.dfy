/** Listing a hash table in order (libAfterBase/ashash.c): a merge of the bucket chains that takes the
    smallest head each time, over a window of buckets that shrinks from both ends. */
module HashListing {
  import opened HashTable

  /** The chains still to be listed: in each bucket, in order, nothing but entries. */
  ghost predicate Chains<V(!new)>(left: seq<seq<V>>, owner: seq<nat>, size: nat, all: set<V>, hash: (V, nat) -> nat,
                                  compare: (V, V) -> int)
  {
    && |owner| == |left|
    && (forall a, b :: Apart(owner, a, b))
    && forall b :: 0 <= b < |left| ==> Bucket(left[b], owner[b], size, all, hash, compare)
  }

  ghost predicate Apart(owner: seq<nat>, a: int, b: int)
  {
    0 <= a < b < |owner| ==> owner[a] < owner[b]
  }

  /** v is left to be listed. */
  ghost predicate Left<V>(left: seq<seq<V>>, v: V)
  {
    exists b :: 0 <= b < |left| && v in left[b]
  }

  /** The k-th chain has the smallest head of all chains in lo..hi. */
  ghost predicate Smallest<V>(left: seq<seq<V>>, k: nat, lo: nat, hi: nat, compare: (V, V) -> int)
  {
    && k < |left| && left[k] != []
    && forall b :: lo <= b < hi && b < |left| && left[b] != [] ==> compare(left[k][0], left[b][0]) <= 0
  }

  /** No chain outside the window has anything left. */
  ghost predicate Window<V>(left: seq<seq<V>>, bottom: nat, top: nat)
  {
    bottom <= top < |left| && forall b :: 0 <= b < |left| && left[b] != [] ==> bottom <= b <= top
  }

  ghost predicate NoneLeft<V>(left: seq<seq<V>>)
  {
    forall b :: 0 <= b < |left| ==> left[b] == []
  }

  /** The smallest head is smaller than everything else that is left. */
  lemma SmallestIsFirst<V(!new)>(left: seq<seq<V>>, owner: seq<nat>, size: nat, all: set<V>, hash: (V, nat) -> nat,
                                 compare: (V, V) -> int, k: nat, bottom: nat, top: nat, v: V)
    requires TotalOrder(compare) && Congruent(hash, compare, size) && Chains(left, owner, size, all, hash, compare)
    requires Window(left, bottom, top) && Smallest(left, k, bottom, top + 1, compare)
    requires Left(left, v) && v != left[k][0]
    ensures compare(left[k][0], v) < 0
  {
    var b :| 0 <= b < |left| && v in left[b];
    var j :| 0 <= j < |left[b]| && left[b][j] == v;
    assert Bucket(left[b], owner[b], size, all, hash, compare) && Bucket(left[k], owner[k], size, all, hash, compare);
    assert SameBucket(hash, compare, size, left[k][0], left[b][0]);
    assert Apart(owner, b, k) && Apart(owner, k, b);
    CompareFacts(compare, left[k][0], left[b][0], v);
    CompareFacts(compare, left[k][0], left[b][0], left[b][0]);
  }

  /** What has been listed: in order, before all that is left, and with it everything there is. */
  ghost predicate Listed<V(!new)>(values: seq<V>, left: seq<seq<V>>, all: set<V>, compare: (V, V) -> int)
  {
    && Ascending(values, compare)
    && (forall v :: v in all <==> v in values || Left(left, v))
    && (forall i, v :: 0 <= i < |values| && Left(left, v) ==> compare(values[i], v) < 0)
  }

  /** Taking the smallest head keeps all of this. */
  lemma ListedGrows<V(!new)>(values: seq<V>, left: seq<seq<V>>, owner: seq<nat>, size: nat, all: set<V>,
                             hash: (V, nat) -> nat, compare: (V, V) -> int, k: nat, bottom: nat, top: nat)
    requires TotalOrder(compare) && Congruent(hash, compare, size) && Chains(left, owner, size, all, hash, compare)
    requires Window(left, bottom, top) && Smallest(left, k, bottom, top + 1, compare)
    requires Listed(values, left, all, compare)
    ensures var left' := left[k := left[k][1..]];
            Listed(values + [left[k][0]], left', all, compare) && Chains(left', owner, size, all, hash, compare)
            && Window(left', bottom, top)
  {
    hide Chains, Left, Ascending;
    var v, left', values' := left[k][0], left[k := left[k][1..]], values + [left[k][0]];
    ChainsStep(left, owner, size, all, hash, compare, k);
    forall x ensures Left(left', x) <==> Left(left, x) && x != v {
      OneLess(left, owner, size, all, hash, compare, k, x);
    }
    forall x | Left(left', x) ensures compare(v, x) < 0 {
      SmallestIsFirst(left, owner, size, all, hash, compare, k, bottom, top, x);
    }
    assert Left(left, v);
    AscendsOn(values, v, compare);
    assert values'[|values|] == v;
    assert forall x :: x in values' <==> x in values || x == v;
  }

  lemma AscendsOn<V(!new)>(values: seq<V>, v: V, compare: (V, V) -> int)
    requires Ascending(values, compare) && forall i :: 0 <= i < |values| ==> compare(values[i], v) < 0
    ensures Ascending(values + [v], compare)
  {
  }

  lemma ChainsStep<V(!new)>(left: seq<seq<V>>, owner: seq<nat>, size: nat, all: set<V>, hash: (V, nat) -> nat,
                            compare: (V, V) -> int, k: nat)
    requires Chains(left, owner, size, all, hash, compare) && k < |left| && left[k] != []
    ensures Chains(left[k := left[k][1..]], owner, size, all, hash, compare) && Left(left, left[k][0])
  {
    assert Bucket(left[k], owner[k], size, all, hash, compare);
    assert left[k][0] in left[k];
  }

  lemma OneLess<V(!new)>(left: seq<seq<V>>, owner: seq<nat>, size: nat, all: set<V>, hash: (V, nat) -> nat,
                         compare: (V, V) -> int, k: nat, x: V)
    requires TotalOrder(compare) && Chains(left, owner, size, all, hash, compare) && k < |left| && left[k] != []
    ensures Left(left[k := left[k][1..]], x) <==> Left(left, x) && x != left[k][0]
  {
    var v, left' := left[k][0], left[k := left[k][1..]];
    assert Bucket(left[k], owner[k], size, all, hash, compare);
    NoRepeats(left[k], compare);
    if Left(left', x) {
      var b :| 0 <= b < |left'| && x in left'[b];
      assert Apart(owner, b, k) && Apart(owner, k, b);
      assert Bucket(left[b], owner[b], size, all, hash, compare);
      assert x in left[b];
    }
    if Left(left, x) && x != v {
      var b :| 0 <= b < |left| && x in left[b];
      assert x in left'[b] by {
        if b == k {
          assert left[k] == [v] + left'[k];
        }
      }
    }
  }

  /** Distinct members of a set number at most the set, and exactly the set when they are all of it. */
  lemma {:induction false} Counted<V>(values: seq<V>, all: set<V>)
    requires forall i, j :: 0 <= i < j < |values| ==> values[i] != values[j]
    requires forall i :: 0 <= i < |values| ==> values[i] in all
    ensures |values| <= |all|
    ensures (forall v :: v in all ==> v in values) ==> |values| == |all|
  {
    if values != [] {
      var rest, last := values[..|values| - 1], values[|values| - 1];
      Counted(rest, all - {last});
      assert values == rest + [last];
    } else if v :| v in all {
    }
  }

  // ---------------------------------------------------------------- the heads

  /** Every head leads into what is left of its chain. */
  ghost predicate Heads<V, D>(heads: seq<HashItem?<V, D>>, left: seq<seq<V>>, entry: map<V, HashItem<V, D>>,
                              items: set<HashItem<V, D>>)
    reads items`next
  {
    |heads| == |left| && forall b :: 0 <= b < |left| ==> Chained(heads[b], left[b], entry, items)
  }

  /** The first chain with the smallest head. */
  method PickSmallest<V(!new), D>(compare: (V, V) -> int, heads: seq<HashItem?<V, D>>, bottom: nat, top: nat,
                                  ghost left: seq<seq<V>>, ghost entry: map<V, HashItem<V, D>>, ghost items: set<HashItem<V, D>>)
      returns (k: nat)
    requires TotalOrder(compare) && Heads(heads, left, entry, items) && forall v :: v in entry ==> entry[v].value == v
    requires bottom <= top < |left| && left[bottom] != []
    ensures Smallest(left, k, bottom, top + 1, compare) && bottom <= k <= top
  {
    k := bottom;
    CompareFacts(compare, left[k][0], left[k][0], left[k][0]);
    for i := bottom + 1 to top + 1
      invariant bottom <= k <= top && Smallest(left, k, bottom, i, compare)
    {
      assert Chained(heads[i], left[i], entry, items) && Chained(heads[k], left[k], entry, items);
      if heads[i] != null {
        CompareFacts(compare, left[i][0], left[k][0], left[k][0]);
        if compare(heads[k].value, heads[i].value) > 0 {
          forall b | bottom <= b < i && left[b] != [] ensures compare(left[i][0], left[b][0]) <= 0 {
            CompareFacts(compare, left[i][0], left[k][0], left[b][0]);
          }
          k := i;
        }
      }
    }
  }

  /** Narrows the window past chains with nothing left. */
  method Trim<V(!new), D>(heads: seq<HashItem?<V, D>>, low: nat, high: nat, ghost left: seq<seq<V>>,
                          ghost entry: map<V, HashItem<V, D>>, ghost items: set<HashItem<V, D>>)
      returns (bottom: nat, top: nat)
    requires Heads(heads, left, entry, items) && Window(left, low, high)
    ensures Window(left, bottom, top)
    ensures heads[top] != null ==> left[top] != [] && left[bottom] != []
    ensures heads[top] == null ==> NoneLeft(left)
  {
    bottom, top := low, high;
    assert forall b :: 0 <= b < |left| ==> (heads[b] == null <==> left[b] == []) by {
      assert forall b :: 0 <= b < |left| ==> Chained(heads[b], left[b], entry, items);
    }
    while heads[bottom] == null && bottom < top
      invariant Window(left, bottom, top)
    {
      bottom := bottom + 1;
    }
    while heads[top] == null && top > bottom
      invariant Window(left, bottom, top)
    {
      top := top - 1;
    }
  }

  /** The chains of the buckets before i that have something in them, and those buckets. */
  ghost predicate Gathered<V>(keys: seq<seq<V>>, i: nat, left: seq<seq<V>>, owner: seq<nat>)
  {
    && i <= |keys| && |left| == |owner| == |InUse(keys[..i])|
    && (forall a, b :: Apart(owner, a, b))
    && (forall b :: 0 <= b < |left| ==> owner[b] < i && left[b] == keys[owner[b]] != [])
    && (forall j :: 0 <= j < i && keys[j] != [] ==> j in owner)
  }

  lemma GatheredGrows<V>(keys: seq<seq<V>>, i: nat, left: seq<seq<V>>, owner: seq<nat>)
    requires Gathered(keys, i, left, owner) && i < |keys|
    ensures keys[i] == [] ==> Gathered(keys, i + 1, left, owner)
    ensures keys[i] != [] ==> Gathered(keys, i + 1, left + [keys[i]], owner + [i]) && |left| < |InUse(keys)|
  {
    InUseGrows(keys, i);
    if keys[i] != [] {
      forall a, b ensures Apart(owner + [i], a, b) {
        assert Apart(owner, a, b);
      }
      assert (owner + [i])[|owner|] == i;
      assert forall j :: j in owner ==> j in owner + [i];
    }
  }

  /** The heads of the buckets in use, in bucket order. */
  method Gather<V(!new), D>(table: HashTable<V, D>) returns (heads: seq<HashItem?<V, D>>, ghost left: seq<seq<V>>,
                                                             ghost owner: seq<nat>)
    requires table.Core()
    ensures Heads(heads, left, table.entry, table.items) && |left| == table.bucketsUsed
    ensures Chains(left, owner, table.size, table.contents.Keys, table.hash, table.compare)
    ensures forall v :: v in table.contents.Keys <==> Left(left, v)
    ensures forall b :: 0 <= b < |left| ==> left[b] != []
  {
    ghost var keys := table.keys;
    heads := seq(table.bucketsUsed, _ => null);
    left, owner := [], [];
    var k := 0;
    for i := 0 to table.size
      invariant k == |left| <= |heads| == table.bucketsUsed && Gathered(keys, i, left, owner)
      invariant forall b :: 0 <= b < k ==> heads[b] == table.buckets[owner[b]]
    {
      GatheredGrows(keys, i, left, owner);
      assert Chained(table.buckets[i], keys[i], table.entry, table.items);
      if table.buckets[i] != null {
        heads := heads[k := table.buckets[i]];
        left, owner := left + [keys[i]], owner + [i];
        k := k + 1;
      }
    }
    assert keys[..table.size] == keys;
    GatheredAll(keys, table.contents.Keys, table.hash, table.compare, left, owner);
  }

  lemma InUseGrows<V>(keys: seq<seq<V>>, i: nat)
    requires i < |keys|
    ensures |InUse(keys[..i + 1])| == |InUse(keys[..i])| + if keys[i] == [] then 0 else 1
    ensures |InUse(keys[..i + 1])| <= |InUse(keys)|
  {
    assert InUse(keys[..i + 1]) == InUse(keys[..i]) + if keys[i] == [] then {} else {i};
    Within(InUse(keys[..i + 1]), InUse(keys));
  }

  lemma Within(part: set<nat>, all: set<nat>)
    requires part <= all
    ensures |part| <= |all|
  {
    assert all == part + (all - part);
  }

  lemma GatheredAll<V(!new)>(keys: seq<seq<V>>, all: set<V>, hash: (V, nat) -> nat, compare: (V, V) -> int,
                             left: seq<seq<V>>, owner: seq<nat>)
    requires Shape(keys, all, hash, compare) && Gathered(keys, |keys|, left, owner)
    ensures Chains(left, owner, |keys|, all, hash, compare)
    ensures forall v :: v in all <==> Left(left, v)
  {
    forall b | 0 <= b < |left| ensures Bucket(left[b], owner[b], |keys|, all, hash, compare) {
      assert BucketAt(keys, all, hash, compare, owner[b]);
    }
    forall v | v in all ensures Left(left, v) {
      assert InPlace(keys, all, hash, v);
      var b :| 0 <= b < |owner| && owner[b] == hash(v, |keys|);
      assert v in left[b];
    }
  }

  /** The values are the n smallest of the map in ascending order, each once; the data are theirs. */
  ghost predicate Lists<V(!new), D>(values: seq<V>, data: seq<D>, contents: map<V, D>, n: nat, compare: (V, V) -> int)
  {
    && |values| == |data| == n
    && Ascending(values, compare)
    && (forall i :: 0 <= i < n ==> values[i] in contents && data[i] == contents[values[i]])
    && (forall i, v :: 0 <= i < n && v in contents && v !in values ==> compare(values[i], v) < 0)
  }

  /** The state of the merge: the data match the values, and the chains hold the rest. */
  ghost predicate Merging<V(!new), D>(values: seq<V>, data: seq<D>, left: seq<seq<V>>, owner: seq<nat>, size: nat,
                                      contents: map<V, D>, hash: (V, nat) -> nat, compare: (V, V) -> int)
  {
    && Chains(left, owner, size, contents.Keys, hash, compare) && Listed(values, left, contents.Keys, compare)
    && |values| == |data| && forall i :: 0 <= i < |values| ==> values[i] in contents && data[i] == contents[values[i]]
  }

  lemma RestIsChained<V, D>(head: HashItem?<V, D>, chain: seq<V>, entry: map<V, HashItem<V, D>>, items: set<HashItem<V, D>>)
    requires Chained(head, chain, entry, items) && chain != []
    ensures head == entry[chain[0]] && Chained(head.next, chain[1..], entry, items)
  {
    var rest := chain[1..];
    forall j | 0 <= j < |rest| ensures rest[j] in entry && entry[rest[j]].next == ItemAt(rest, j + 1, entry) {
      assert entry[chain[j + 1]].next == ItemAt(chain, j + 2, entry);
    }
    assert entry[chain[0]].next == ItemAt(chain, 1, entry);
  }

  /** The k-th head stands for the first member of its chain, and its successor for the rest. */
  lemma HeadSteps<V, D>(heads: seq<HashItem?<V, D>>, left: seq<seq<V>>, k: nat, entry: map<V, HashItem<V, D>>,
                        contents: map<V, D>, items: set<HashItem<V, D>>)
    requires Heads(heads, left, entry, items) && Holds(entry, contents, items) && k < |left| && left[k] != []
    ensures |heads| == |left| && heads[k] != null && heads[k].value == left[k][0]
    ensures left[k][0] in contents && heads[k].data == contents[left[k][0]]
    ensures Heads(heads[k := heads[k].next], left[k := left[k][1..]], entry, items)
  {
    hide Chained;
    assert Chained(heads[k], left[k], entry, items);
    RestIsChained(heads[k], left[k], entry, items);
    InEntry(heads[k], left[k], entry, items);
  }

  lemma InEntry<V, D>(head: HashItem?<V, D>, chain: seq<V>, entry: map<V, HashItem<V, D>>, items: set<HashItem<V, D>>)
    requires Chained(head, chain, entry, items) && chain != []
    ensures chain[0] in entry
  {
  }

  lemma MergingGrows<V(!new), D>(values: seq<V>, data: seq<D>, left: seq<seq<V>>, owner: seq<nat>, size: nat,
                                 contents: map<V, D>, hash: (V, nat) -> nat, compare: (V, V) -> int, k: nat,
                                 bottom: nat, top: nat)
    requires TotalOrder(compare) && Congruent(hash, compare, size)
    requires Merging(values, data, left, owner, size, contents, hash, compare)
    requires Window(left, bottom, top) && Smallest(left, k, bottom, top + 1, compare)
    requires k < |left| && left[k] != [] && left[k][0] in contents
    ensures var v := left[k][0]; var left' := left[k := left[k][1..]];
      Merging(values + [v], data + [contents[v]], left', owner, size, contents, hash, compare) && Window(left', bottom, top)
  {
    hide Chains, Listed, Window, Smallest;
    ListedGrows(values, left, owner, size, contents.Keys, hash, compare, k, bottom, top);
  }

  /** One round of the merge: lists the smallest head and steps past it. */
  method TakeSmallest<V(!new), D>(hash: (V, nat) -> nat, compare: (V, V) -> int, heads: seq<HashItem?<V, D>>,
                                  bottom: nat, top: nat, values: seq<V>, data: seq<D>, ghost left: seq<seq<V>>,
                                  ghost owner: seq<nat>, ghost size: nat, ghost entry: map<V, HashItem<V, D>>,
                                  ghost contents: map<V, D>, ghost items: set<HashItem<V, D>>)
      returns (values': seq<V>, data': seq<D>, heads': seq<HashItem?<V, D>>, ghost left': seq<seq<V>>)
    requires TotalOrder(compare) && Congruent(hash, compare, size)
    requires Heads(heads, left, entry, items) && Holds(entry, contents, items)
    requires Window(left, bottom, top) && left[bottom] != []
    requires Merging(values, data, left, owner, size, contents, hash, compare)
    ensures Heads(heads', left', entry, items) && Window(left', bottom, top)
    ensures Merging(values', data', left', owner, size, contents, hash, compare)
    ensures |values'| == |values| + 1
  {
    hide *;
    WindowTells(left, bottom, top, entry, contents, items);
    var k := PickSmallest(compare, heads, bottom, top, left, entry, items);
    SmallestTells(left, k, bottom, top + 1, compare);
    HeadSteps(heads, left, k, entry, contents, items);
    MergingGrows(values, data, left, owner, size, contents, hash, compare, k, bottom, top);
    values', data' := values + [heads[k].value], data + [heads[k].data];
    left' := left[k := left[k][1..]];
    heads' := heads[k := heads[k].next];
  }

  lemma WindowTells<V, D>(left: seq<seq<V>>, bottom: nat, top: nat, entry: map<V, HashItem<V, D>>, contents: map<V, D>,
                          items: set<HashItem<V, D>>)
    requires Window(left, bottom, top) && Holds(entry, contents, items)
    ensures bottom <= top < |left| && forall v :: v in entry ==> entry[v].value == v
  {
  }

  lemma SmallestTells<V(!new)>(left: seq<seq<V>>, k: nat, bottom: nat, end: nat, compare: (V, V) -> int)
    requires Smallest(left, k, bottom, end, compare)
    ensures k < |left| && left[k] != []
  {
  }

  /** Lists the smallest maxItems entries (all of them for 0), in ascending order, each once. */
  method SortItems<V(!new), D>(table: HashTable<V, D>, maxItems: nat) returns (values: seq<V>, data: seq<D>)
    requires table.Valid() && table.Ordered()
    ensures var all := |table.contents|;
            Lists(values, data, table.contents, if maxItems == 0 || maxItems > all then all else maxItems, table.compare)
  {
    if table.bucketsUsed == 0 || table.itemsNum == 0 {
      NothingInUse(table.keys, table.contents.Keys, table.hash, table.compare);
      return [], [];
    }
    values, data := Merge(table, if maxItems == 0 then table.itemsNum else maxItems);
  }

  method Merge<V(!new), D>(table: HashTable<V, D>, limit: nat) returns (values: seq<V>, data: seq<D>)
    requires table.Core() && table.Ordered() && table.bucketsUsed > 0 && limit > 0
    ensures Lists(values, data, table.contents, if limit > |table.contents| then |table.contents| else limit, table.compare)
  {
    hide *;
    OrderedTells(table);
    table.Pieces();
    var hash, compare, size := table.hash, table.compare, table.size;
    ghost var entry, contents, items := table.entry, table.contents, table.items;
    var heads, left, owner := Gather(table);
    var bottom: nat, top: nat := 0, table.bucketsUsed - 1;
    values, data := [], [];
    MergingStarts(left, owner, size, contents, hash, compare);
    var todo: nat := limit;
    while todo > 0
      invariant Heads(heads, left, entry, items) && top < |left| && bottom < |left|
      invariant Window(left, bottom, top) && left[top] != [] && left[bottom] != []
      invariant Merging(values, data, left, owner, size, contents, hash, compare)
      invariant |values| == limit - todo
    {
      todo := todo - 1;
      values, data, heads, left := TakeSmallest(hash, compare, heads, bottom, top, values, data, left, owner,
                                              size, entry, contents, items);
      bottom, top := Trim(heads, bottom, top, left, entry, items);
      HeadsTell(heads, left, bottom, top, entry, items);
      if heads[top] == null {
        break;
      }
    }
    assert NoneLeft(left) || todo == 0;
    Merged(values, data, left, owner, size, contents, hash, compare);
  }

  lemma OrderedTells<V(!new), D>(table: HashTable<V, D>)
    requires table.Ordered()
    ensures TotalOrder(table.compare) && Congruent(table.hash, table.compare, table.size)
  {
  }

  lemma HeadsTell<V(!new), D>(heads: seq<HashItem?<V, D>>, left: seq<seq<V>>, bottom: nat, top: nat,
                              entry: map<V, HashItem<V, D>>, items: set<HashItem<V, D>>)
    requires Heads(heads, left, entry, items) && Window(left, bottom, top)
    ensures |heads| == |left| && bottom <= top < |left|
  {
  }

  /** At the start nothing has been listed, and no chain lies outside the window. */
  lemma MergingStarts<V(!new), D>(left: seq<seq<V>>, owner: seq<nat>, size: nat, contents: map<V, D>,
                                  hash: (V, nat) -> nat, compare: (V, V) -> int)
    requires Chains(left, owner, size, contents.Keys, hash, compare) && |left| > 0
    requires forall v :: v in contents.Keys <==> Left(left, v)
    ensures Merging([], [], left, owner, size, contents, hash, compare) && Window(left, 0, |left| - 1)
  {
    hide Chains, Left;
  }

  lemma Merged<V(!new), D>(values: seq<V>, data: seq<D>, left: seq<seq<V>>, owner: seq<nat>, size: nat,
                           contents: map<V, D>, hash: (V, nat) -> nat, compare: (V, V) -> int)
    requires TotalOrder(compare) && Merging(values, data, left, owner, size, contents, hash, compare)
    ensures Lists(values, data, contents, |values|, compare) && |values| <= |contents|
    ensures NoneLeft(left) ==> |values| == |contents|
  {
    NoRepeats(values, compare);
    Counted(values, contents.Keys);
  }

  lemma NothingInUse<V(!new)>(keys: seq<seq<V>>, all: set<V>, hash: (V, nat) -> nat, compare: (V, V) -> int)
    requires Shape(keys, all, hash, compare)
    ensures |InUse(keys)| == 0 ==> all == {}
  {
    forall v | v in all ensures InUse(keys) != {} {
      assert InPlace(keys, all, hash, v);
      assert hash(v, |keys|) in InUse(keys);
    }
  }
}
