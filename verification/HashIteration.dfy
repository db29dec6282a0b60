/** Walking a hash table bucket by bucket (libAfterBase/ashash.c): the plain listing, and the iterator. */
module HashIteration {
  import opened Common
  import opened HashTable
  import L = HashListing

  /** The values of all buckets, one bucket after the other. */
  ghost function Flatten<V>(keys: seq<seq<V>>): seq<V>
  {
    if keys == [] then [] else Flatten(keys[..|keys| - 1]) + keys[|keys| - 1]
  }

  /** The values of the first k buckets are distinct entries, and all entries of those buckets. */
  lemma {:induction false} FlattenIsExact<V(!new)>(keys: seq<seq<V>>, all: set<V>, hash: (V, nat) -> nat,
                                                   compare: (V, V) -> int, k: nat)
    requires TotalOrder(compare) && Shape(keys, all, hash, compare) && k <= |keys|
    ensures var s := Flatten(keys[..k]);
      && Distinct(s)
      && (forall v :: v in s <==> v in all && hash(v, |keys|) < k)
  {
    if k > 0 {
      FlattenIsExact(keys, all, hash, compare, k - 1);
      assert keys[..k][..k - 1] == keys[..k - 1];
      var front, chain := Flatten(keys[..k - 1]), keys[k - 1];
      var s := front + chain;
      assert Flatten(keys[..k]) == s;
      assert BucketAt(keys, all, hash, compare, k - 1);
      NoRepeats(chain, compare);
      forall v ensures v in s <==> v in all && hash(v, |keys|) < k {
        assert InPlace(keys, all, hash, v);
      }
      forall i, j | 0 <= i < j < |s| ensures s[i] != s[j] {
        if j < |front| {
          assert s[i] == front[i] && s[j] == front[j];
        } else if i < |front| {
          assert front[i] in front && s[i] == front[i] && s[j] == chain[j - |front|];
        } else {
          assert s[i] == chain[i - |front|] && s[j] == chain[j - |front|];
        }
      }
    }
  }

  /** Every entry is met exactly once. */
  lemma EveryEntryOnce<V(!new)>(keys: seq<seq<V>>, all: set<V>, hash: (V, nat) -> nat, compare: (V, V) -> int)
    requires TotalOrder(compare) && Shape(keys, all, hash, compare)
    ensures |Flatten(keys)| == |all| && forall v :: v in all <==> v in Flatten(keys)
    ensures Distinct(Flatten(keys))
  {
    FlattenIsExact(keys, all, hash, compare, |keys|);
    assert keys[..|keys|] == keys;
    var s := Flatten(keys);
    forall v | v in all ensures v in s {
      assert InPlace(keys, all, hash, v);
    }
    assert forall i :: 0 <= i < |s| ==> s[i] in s;
    L.Counted(s, all);
  }

  /** The walk goes through the buckets in order, and through each from its smallest entry on. */
  lemma {:induction false} WalkIsInOrder<V(!new)>(keys: seq<seq<V>>, all: set<V>, hash: (V, nat) -> nat,
                                                  compare: (V, V) -> int, k: nat, i: nat, j: nat)
    requires TotalOrder(compare) && Shape(keys, all, hash, compare) && k <= |keys| && i < j < |Flatten(keys[..k])|
    ensures var s, n := Flatten(keys[..k]), |keys|;
      hash(s[i], n) < hash(s[j], n) || (hash(s[i], n) == hash(s[j], n) && compare(s[i], s[j]) < 0)
  {
    if k > 0 {
      assert keys[..k][..k - 1] == keys[..k - 1];
      var front, chain := Flatten(keys[..k - 1]), keys[k - 1];
      var s := Flatten(keys[..k]);
      assert s == front + chain;
      assert BucketAt(keys, all, hash, compare, k - 1);
      FlattenIsExact(keys, all, hash, compare, k - 1);
      if j < |front| {
        WalkIsInOrder(keys, all, hash, compare, k - 1, i, j);
      } else if i < |front| {
        assert front[i] in front && chain[j - |front|] in chain;
      } else {
        assert chain[i - |front|] in chain && chain[j - |front|] in chain;
      }
    }
  }

  /** Where the i-th bucket lies in the walk. */
  lemma {:induction false} FlattenAt<V>(keys: seq<seq<V>>, b: nat, i: nat)
    requires b < |keys| && i < |keys[b]|
    ensures |Flatten(keys[..b])| + i < |Flatten(keys)| && Flatten(keys)[|Flatten(keys[..b])| + i] == keys[b][i]
    ensures Flatten(keys)[..|Flatten(keys[..b])| + i + 1] == Flatten(keys[..b]) + keys[b][..i + 1]
    decreases |keys|
  {
    var n := |keys| - 1;
    if b < n {
      FlattenAt(keys[..n], b, i);
      assert keys[..n][..b] == keys[..b];
    }
  }

  lemma FlattenGrows<V>(keys: seq<seq<V>>, b: nat)
    requires b < |keys|
    ensures Flatten(keys[..b + 1]) == Flatten(keys[..b]) + keys[b]
  {
    assert keys[..b + 1][..b] == keys[..b];
  }

  ghost predicate Matches<V, D>(values: seq<V>, data: seq<D>, contents: map<V, D>)
  {
    |values| == |data| && forall i :: 0 <= i < |values| ==> values[i] in contents && data[i] == contents[values[i]]
  }

  /** What is known about the item cur at place i of bucket b. */
  lemma ItemIn<V, D>(head: HashItem?<V, D>, chain: seq<V>, entry: map<V, HashItem<V, D>>, contents: map<V, D>,
                     items: set<HashItem<V, D>>, i: nat)
    requires Chained(head, chain, entry, items) && Holds(entry, contents, items) && i <= |chain|
    ensures head == ItemAt(chain, 0, entry) && (ItemAt(chain, i, entry) == null <==> i == |chain|)
    ensures i < |chain| ==> var e := ItemAt(chain, i, entry);
      e != null && e.value == chain[i] && chain[i] in contents && e.data == contents[chain[i]]
      && e.next == ItemAt(chain, i + 1, entry)
  {
  }

  /** Lists the first maxItems entries of the walk, all of them for 0. */
  method ListItems<V(!new), D>(table: HashTable<V, D>, maxItems: nat) returns (values: seq<V>, data: seq<D>)
    requires table.Valid() && table.Ordered()
    ensures var all := |table.contents|;
      var n := if maxItems == 0 || maxItems > all then all else maxItems;
      n <= |Flatten(table.keys)| && values == Flatten(table.keys)[..n] && Matches(values, data, table.contents)
  {
    EveryEntryOnce(table.keys, table.contents.Keys, table.hash, table.compare);
    assert |table.contents.Keys| == |table.contents|;
    if table.bucketsUsed == 0 || table.itemsNum == 0 {
      L.NothingInUse(table.keys, table.contents.Keys, table.hash, table.compare);
      return [], [];
    }
    values, data := ListUpTo(table, if maxItems == 0 then table.itemsNum else maxItems);
  }

  method ListUpTo<V(!new), D>(table: HashTable<V, D>, limit: nat) returns (values: seq<V>, data: seq<D>)
    requires table.Core() && limit > 0
    ensures var all := |Flatten(table.keys)|;
      values == Flatten(table.keys)[..if limit > all then all else limit] && Matches(values, data, table.contents)
  {
    hide Chained, Holds, Flatten, Matches, Shape;
    values, data := [], [];
    assert Matches(values, data, table.contents) by {
      NoneMatch(table.contents);
    }
    assert table.keys[..0] == [];
    FlattenNone<V>();
    for i := 0 to table.size
      invariant values == Flatten(table.keys[..i]) && Matches(values, data, table.contents) && |values| < limit
    {
      var done;
      values, data, done := ListBucket(table, i, limit, values, data);
      if done {
        return;
      }
    }
    assert table.keys[..table.size] == table.keys;
  }

  lemma NoneMatch<V, D>(contents: map<V, D>)
    ensures Matches([], [], contents)
  {
  }

  lemma FlattenNone<V>()
    ensures Flatten<V>([]) == []
  {
  }

  lemma OneMoreMatches<V, D>(values: seq<V>, data: seq<D>, contents: map<V, D>, v: V)
    requires Matches(values, data, contents) && v in contents
    ensures Matches(values + [v], data + [contents[v]], contents)
  {
  }

  method ListBucket<V(!new), D>(table: HashTable<V, D>, i: nat, limit: nat, before: seq<V>, dataBefore: seq<D>)
      returns (values: seq<V>, data: seq<D>, done: bool)
    requires table.Core() && i < table.size && |before| < limit
    requires before == Flatten(table.keys[..i]) && Matches(before, dataBefore, table.contents)
    ensures Matches(values, data, table.contents)
    ensures if done then limit <= |Flatten(table.keys)| && values == Flatten(table.keys)[..limit]
            else values == Flatten(table.keys[..i + 1]) && |values| < limit
  {
    hide Chained, Holds, Flatten, Matches, Shape;
    values, data := before, dataBefore;
    ghost var chain, entry, contents, items := table.keys[i], table.entry, table.contents, table.items;
    assert Linked(table.buckets, table.keys, entry, items) && Chained(table.buckets[i], chain, entry, items);
    var item := table.buckets[i];
    ghost var j: nat := 0;
    ItemIn(table.buckets[i], chain, entry, contents, items, 0);
    assert before + chain[..0] == before;
    while item != null
      invariant j <= |chain| && item == ItemAt(chain, j, entry) && (item == null <==> j == |chain|)
      invariant values == before + chain[..j] && |values| < limit && Matches(values, data, contents)
      decreases |chain| - j
    {
      ItemIn(table.buckets[i], chain, entry, contents, items, j);
      OneMoreMatches(values, data, contents, chain[j]);
      assert chain[..j + 1] == chain[..j] + [chain[j]];
      values, data := values + [item.value], data + [item.data];
      if |values| >= limit {
        FlattenAt(table.keys, i, j);
        return values, data, true;
      }
      item, j := item.next, j + 1;
      ItemIn(table.buckets[i], chain, entry, contents, items, j);
    }
    assert chain[..j] == chain;
    FlattenGrows(table.keys, i);
    done := false;
  }

  // ---------------------------------------------------------------- the iterator

  class HashIterator<V(==,!new), D(==)> {
    const table: HashTable<V, D>
    var currBucket: nat
    var currItem: HashItem?<V, D>

    /** How many entries lie behind. */
    ghost var place: nat

    /** The iterator stands at an entry of the walk, or at its end. */
    ghost predicate Valid()
      reads this, table, table.items, table.buckets
    {
      && table.Core() && currBucket < table.size && At(table.keys, table.entry, currBucket, place, currItem)
      && place <= |Flatten(table.keys)| && (currItem == null <==> place == |Flatten(table.keys)|)
    }

    /** Starts at the first entry; false if there is none. */
    constructor (table: HashTable<V, D>)
      requires table.Core()
      ensures this.table == table
      ensures currItem != null ==> Valid() && place == 0
      ensures currItem == null <==> Flatten(table.keys) == []
    {
      this.table := table;
      currBucket, currItem, place := 0, null, 0;
      new;
      hide Chained, Holds, Shape, Flatten, At;
      var i := FirstInUse(table);
      if i < table.size {
        FlattenAt(table.keys, i, 0);
        AtHead(table, i, 0);
        currBucket, currItem := i, table.buckets[i];
      }
    }

    /** Goes on to the next entry; false at the end. */
    method Next() returns (more: bool)
      requires Valid()
      modifies this
      ensures Valid() && place == (if old(currItem) == null then old(place) else old(place) + 1)
      ensures more <==> place < |Flatten(table.keys)|
    {
      hide Chained, Holds, Shape, Flatten, At;
      var b, cur := currBucket, currItem;
      ghost var keys, p := table.keys, place;
      if cur != null {
        StepInChain(table, b, p, cur);
        cur, p := cur.next, p + 1;
      }
      if cur == null {
        AtEnd(table, b, p);
        var i := b + 1;
        while i < table.size && table.buckets[i] == null
          invariant b < i <= table.size && |Flatten(keys[..i])| == p
        {
          HeadIsNull(table, i);
          FlattenGrows(keys, i);
          i := i + 1;
        }
        if i < table.size {
          HeadIsNull(table, i);
          FlattenAt(keys, i, 0);
          AtHead(table, i, p);
          b, cur := i, table.buckets[i];
        } else {
          assert keys[..table.size] == keys;
        }
      }
      currBucket, currItem, place := b, cur, p;
      InWalk(table, b, p, cur);
      more := currItem != null;
    }

    /** The entry the iterator stands at. */
    method Current() returns (value: V, data: D)
      requires Valid() && currItem != null
      ensures place < |Flatten(table.keys)| && value == Flatten(table.keys)[place]
      ensures value in table.contents && data == table.contents[value]
    {
      hide Flatten;
      ghost var i := place - |Flatten(table.keys[..currBucket])|;
      FlattenAt(table.keys, currBucket, i);
      assert Chained(table.buckets[currBucket], table.keys[currBucket], table.entry, table.items);
      value, data := currItem.value, currItem.data;
    }
  }

  /** A whole run of the iterator, from its start to its end: every entry of the walk once, with its data. */
  method WalkAll<V(==,!new), D(==)>(table: HashTable<V, D>) returns (values: seq<V>, data: seq<D>)
    requires table.Core()
    ensures values == Flatten(table.keys) && Matches(values, data, table.contents)
  {
    hide Flatten, Matches;
    values, data := [], [];
    NoneMatch<V, D>(table.contents);
    var it := new HashIterator(table);
    if it.currItem == null {
      return;
    }
    ghost var walk := Flatten(table.keys);
    var more := true;
    while more
      invariant it.Valid() && it.table == table && values == walk[..it.place] && Matches(values, data, table.contents)
      invariant more <==> it.place < |walk|
      invariant more <==> it.currItem != null
      decreases |walk| - it.place
    {
      var v, d := it.Current();
      OneMoreMatches(values, data, table.contents, v);
      values, data := values + [v], data + [d];
      assert walk[..it.place + 1] == walk[..it.place] + [walk[it.place]];
      more := it.Next();
    }
    assert walk[..|walk|] == walk;
  }

  method FirstInUse<V(!new), D>(table: HashTable<V, D>) returns (i: nat)
    requires table.Core()
    ensures i <= table.size && |Flatten(table.keys[..i])| == 0
    ensures if i < table.size then table.keys[i] != [] else Flatten(table.keys) == []
  {
    hide Chained, Holds, Shape, Flatten;
    i := 0;
    EmptySoFar(table.keys, 0);
    while i < table.size && table.buckets[i] == null
      invariant i <= table.size && Flatten(table.keys[..i]) == []
    {
      HeadIsNull(table, i);
      FlattenGrows(table.keys, i);
      i := i + 1;
    }
    assert table.keys[..table.size] == table.keys;
    if i < table.size {
      HeadIsNull(table, i);
    }
  }

  /** cur is the entry at this place of the walk, in bucket b; or the walk is over, and b is its last bucket. */
  ghost predicate At<V, D>(keys: seq<seq<V>>, entry: map<V, HashItem<V, D>>, b: nat, place: int, cur: HashItem?<V, D>)
  {
    && b < |keys| && |Flatten(keys[..b])| <= place <= |Flatten(keys[..b])| + |keys[b]|
    && cur == ItemAt(keys[b], place - |Flatten(keys[..b])|, entry)
    && (cur == null ==> place == |Flatten(keys[..b])| + |keys[b]|)
    && (cur != null ==> place < |Flatten(keys[..b])| + |keys[b]|)
  }

  lemma EmptySoFar<V>(keys: seq<seq<V>>, i: nat)
    requires i == 0 && i <= |keys|
    ensures Flatten(keys[..i]) == []
  {
  }

  lemma HeadIsNull<V(!new), D>(table: HashTable<V, D>, i: nat)
    requires table.Core() && i < table.size
    ensures table.buckets[i] == null <==> table.keys[i] == []
  {
    assert Chained(table.buckets[i], table.keys[i], table.entry, table.items);
  }

  lemma AtHead<V(!new), D>(table: HashTable<V, D>, i: nat, place: nat)
    requires table.Core() && i < table.size && table.keys[i] != [] && place == |Flatten(table.keys[..i])|
    ensures At(table.keys, table.entry, i, place, table.buckets[i]) && table.buckets[i] != null
  {
    assert Chained(table.buckets[i], table.keys[i], table.entry, table.items);
  }

  lemma StepInChain<V(!new), D>(table: HashTable<V, D>, b: nat, place: nat, cur: HashItem<V, D>)
    requires table.Core() && At(table.keys, table.entry, b, place, cur)
    ensures At(table.keys, table.entry, b, place + 1, cur.next)
  {
    assert Chained(table.buckets[b], table.keys[b], table.entry, table.items);
  }

  lemma AtEnd<V(!new), D>(table: HashTable<V, D>, b: nat, place: nat)
    requires At(table.keys, table.entry, b, place, null)
    ensures b < |table.keys| && |Flatten(table.keys[..b + 1])| == place
  {
    FlattenGrows(table.keys, b);
  }

  lemma InWalk<V(!new), D>(table: HashTable<V, D>, b: nat, place: nat, cur: HashItem?<V, D>)
    requires At(table.keys, table.entry, b, place, cur)
    ensures b < |table.keys|
    ensures cur != null ==> place < |Flatten(table.keys)|
  {
    if cur != null {
      FlattenAt(table.keys, b, place - |Flatten(table.keys[..b])|);
    }
  }
}
