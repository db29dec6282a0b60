/** The hash table of libAfterBase/ashash.c: ordered bucket chains, exact counters, and a pool of
    discarded items that are used again. */
module HashTable {
  import opened Common

  datatype HashResult = Success | ItemExistsSame | ItemExistsDiffer | ItemNotExists | BadParameter

  /** A comparison that orders all values, up to those it calls equal. The laws are named, so that
      proofs use them only where they say so. */
  ghost predicate TotalOrder<V(!new)>(compare: (V, V) -> int)
  {
    && (forall a, b :: Antisymmetric(compare, a, b))
    && (forall a, b, c :: Transitive(compare, a, b, c))
  }

  ghost predicate Antisymmetric<V>(compare: (V, V) -> int, a: V, b: V)
  {
    compare(a, b) > 0 <==> compare(b, a) < 0
  }

  ghost predicate Transitive<V>(compare: (V, V) -> int, a: V, b: V, c: V)
  {
    compare(a, b) <= 0 && compare(b, c) <= 0 ==> compare(a, c) <= 0
  }

  /** Values that compare equal fall into the same bucket. */
  ghost predicate Congruent<V(!new)>(hash: (V, nat) -> nat, compare: (V, V) -> int, size: nat)
  {
    forall a, b :: SameBucket(hash, compare, size, a, b)
  }

  ghost predicate SameBucket<V>(hash: (V, nat) -> nat, compare: (V, V) -> int, size: nat, a: V, b: V)
  {
    compare(a, b) == 0 ==> hash(a, size) == hash(b, size)
  }

  lemma CompareFacts<V(!new)>(compare: (V, V) -> int, a: V, b: V, c: V)
    requires TotalOrder(compare)
    ensures compare(a, a) == 0
    ensures compare(a, b) == 0 <==> compare(b, a) == 0
    ensures compare(a, b) > 0 <==> compare(b, a) < 0
    ensures compare(b, a) > 0 <==> compare(a, b) < 0
    ensures compare(a, b) < 0 && compare(b, c) <= 0 ==> compare(a, c) < 0
    ensures compare(a, b) <= 0 && compare(b, c) < 0 ==> compare(a, c) < 0
  {
    assert Antisymmetric(compare, a, a) && Antisymmetric(compare, a, b) && Antisymmetric(compare, b, a);
    assert Antisymmetric(compare, b, c) && Antisymmetric(compare, c, b);
    assert Antisymmetric(compare, a, c) && Antisymmetric(compare, c, a);
    assert Transitive(compare, c, a, b) && Transitive(compare, b, c, a) && Transitive(compare, a, b, c);
  }

  class HashItem<V, D> {
    var next: HashItem?<V, D>
    var value: V
    var data: D

    constructor (value: V, data: D)
      ensures this.value == value && this.data == data && next == null
    {
      this.value, this.data, next := value, data, null;
    }
  }

  const DEALLOC_CACHE_SIZE := 1024

  /** An item nobody uses: the last discarded one if there is one. Discarded items are shared by every table. */
  method TakeItem<V, D>(pool: Pool<HashItem<V, D>>, value: V, data: D) returns (item: HashItem<V, D>)
    requires pool.Valid()
    modifies pool, pool.free
    ensures pool.Valid() && item !in pool.free && (fresh(item) || item in old(pool.free))
    ensures pool.free == old(pool.free) - {item}
    ensures item.value == value && item.data == data && item.next == null
    ensures pool.mem == if old(pool.mem) == [] then [] else old(pool.mem)[..|old(pool.mem)| - 1]
    ensures old(pool.mem) != [] ==> item == old(pool.mem)[|old(pool.mem)| - 1]
  {
    var cached := pool.Reuse();
    if cached.Some? {
      item := cached.value;
      item.next, item.value, item.data := null, value, data;
    } else {
      item := new HashItem(value, data);
    }
  }

  // ---------------------------------------------------------------- chains of values

  ghost predicate Ascending<V>(chain: seq<V>, compare: (V, V) -> int)
  {
    forall i, j :: 0 <= i < j < |chain| ==> compare(chain[i], chain[j]) < 0
  }

  /** The values of a table, bucket by bucket: every value in its own bucket, each bucket ascending. */
  ghost predicate Shape<V(!new)>(keys: seq<seq<V>>, all: set<V>, hash: (V, nat) -> nat, compare: (V, V) -> int)
  {
    && (forall v :: InPlace(keys, all, hash, v))
    && (forall k :: BucketAt(keys, all, hash, compare, k))
  }

  ghost predicate InPlace<V>(keys: seq<seq<V>>, all: set<V>, hash: (V, nat) -> nat, v: V)
  {
    v in all ==> hash(v, |keys|) < |keys| && v in keys[hash(v, |keys|)]
  }

  ghost predicate BucketAt<V>(keys: seq<seq<V>>, all: set<V>, hash: (V, nat) -> nat, compare: (V, V) -> int, k: int)
  {
    0 <= k < |keys| ==> Bucket(keys[k], k, |keys|, all, hash, compare)
  }

  ghost predicate Bucket<V>(chain: seq<V>, k: nat, size: nat, all: set<V>, hash: (V, nat) -> nat, compare: (V, V) -> int)
  {
    Ascending(chain, compare) && forall j :: 0 <= j < |chain| ==> chain[j] in all && hash(chain[j], size) == k
  }

  /** The i-th place is where v belongs in its chain. */
  ghost predicate Place<V>(chain: seq<V>, v: V, i: nat, compare: (V, V) -> int)
  {
    && i <= |chain|
    && (forall j :: 0 <= j < i ==> compare(chain[j], v) < 0)
    && (i < |chain| ==> compare(chain[i], v) >= 0)
  }

  lemma NoRepeats<V(!new)>(chain: seq<V>, compare: (V, V) -> int)
    requires TotalOrder(compare) && Ascending(chain, compare)
    ensures forall i, j :: 0 <= i < j < |chain| ==> chain[i] != chain[j]
  {
    forall i, j | 0 <= i < j < |chain| ensures chain[i] != chain[j] {
      CompareFacts(compare, chain[i], chain[i], chain[j]);
    }
  }

  lemma BucketInsert<V(!new)>(chain: seq<V>, key: nat, size: nat, all: set<V>, hash: (V, nat) -> nat,
                              compare: (V, V) -> int, v: V, i: nat)
    requires TotalOrder(compare) && Bucket(chain, key, size, all, hash, compare) && hash(v, size) == key
    requires Place(chain, v, i, compare) && (i < |chain| ==> compare(chain[i], v) > 0)
    ensures Bucket(Inserted(chain, i, v), key, size, all + {v}, hash, compare)
    ensures forall x :: x in chain || x == v ==> x in Inserted(chain, i, v)
  {
    var after := Inserted(chain, i, v);
    forall j | i <= j < |chain| ensures compare(v, chain[j]) < 0 {
      CompareFacts(compare, v, chain[i], chain[j]);
    }
    forall x | x in chain ensures x in after {
      var j :| 0 <= j < |chain| && chain[j] == x;
      assert after[if j < i then j else j + 1] == x;
    }
    assert after[i] in after;
  }

  lemma ShapeInsert<V(!new)>(keys: seq<seq<V>>, all: set<V>, hash: (V, nat) -> nat, compare: (V, V) -> int, v: V, i: nat)
    requires TotalOrder(compare) && Shape(keys, all, hash, compare)
    requires hash(v, |keys|) < |keys| && Place(keys[hash(v, |keys|)], v, i, compare)
    requires i < |keys[hash(v, |keys|)]| ==> compare(keys[hash(v, |keys|)][i], v) > 0
    ensures var key := hash(v, |keys|);
            Shape(keys[key := Inserted(keys[key], i, v)], all + {v}, hash, compare)
  {
    var key, size := hash(v, |keys|), |keys|;
    assert BucketAt(keys, all, hash, compare, key);
    BucketInsert(keys[key], key, size, all, hash, compare, v, i);
    var after := keys[key := Inserted(keys[key], i, v)];
    forall k ensures BucketAt(after, all + {v}, hash, compare, k) {
      assert BucketAt(keys, all, hash, compare, k);
    }
    forall x ensures InPlace(after, all + {v}, hash, x) {
      assert InPlace(keys, all, hash, x);
    }
  }

  lemma ShapeRemove<V(!new)>(keys: seq<seq<V>>, all: set<V>, hash: (V, nat) -> nat, compare: (V, V) -> int, key: nat, i: nat)
    requires TotalOrder(compare) && Shape(keys, all, hash, compare)
    requires key < |keys| && i < |keys[key]|
    ensures Shape(keys[key := Removed(keys[key], i)], all - {keys[key][i]}, hash, compare)
  {
    var size, v := |keys|, keys[key][i];
    var chain, rest := keys[key], Removed(keys[key], i);
    assert BucketAt(keys, all, hash, compare, key);
    CompareFacts(compare, v, v, v);
    assert Bucket(rest, key, size, all - {v}, hash, compare);
    forall x | x in chain && x != v ensures x in rest {
      var j :| 0 <= j < |chain| && chain[j] == x;
      assert rest[if j < i then j else j - 1] == x;
    }
    var after := keys[key := rest];
    forall k ensures BucketAt(after, all - {v}, hash, compare, k) {
      assert BucketAt(keys, all, hash, compare, k);
    }
    forall x ensures InPlace(after, all - {v}, hash, x) {
      assert InPlace(keys, all, hash, x);
    }
  }

  // ---------------------------------------------------------------- what a table does to a map

  /** k is the entry that compares equal to v. */
  ghost predicate Answers<V, D>(compare: (V, V) -> int, m: map<V, D>, v: V, k: V)
  {
    k in m && compare(k, v) == 0
  }

  ghost predicate AddOutcome<V(!new), D>(compare: (V, V) -> int, m: map<V, D>, v: V, d: D, m': map<V, D>, res: HashResult)
  {
    if exists k :: Answers(compare, m, v, k)
    then m' == m && forall k :: Answers(compare, m, v, k) ==> res == if m[k] == d then ItemExistsSame else ItemExistsDiffer
    else m' == m[v := d] && res == Success
  }

  lemma AddSettled<V(!new), D>(compare: (V, V) -> int, m: map<V, D>, v: V, d: D, k: V)
    requires forall x :: Answers(compare, m, v, x) ==> x == k
    ensures Answers(compare, m, v, k) ==>
      AddOutcome(compare, m, v, d, m, if m[k] == d then ItemExistsSame else ItemExistsDiffer)
    ensures !Answers(compare, m, v, k) ==> AddOutcome(compare, m, v, d, m[v := d], Success)
  {
  }

  ghost predicate GetOutcome<V(!new), D>(compare: (V, V) -> int, m: map<V, D>, v: V, data: Option<D>, res: HashResult)
  {
    if exists k :: Answers(compare, m, v, k)
    then res == Success && forall k :: Answers(compare, m, v, k) ==> data == Some(m[k])
    else res == ItemNotExists && data == None
  }

  ghost predicate RemoveOutcome<V(!new), D>(compare: (V, V) -> int, m: map<V, D>, v: V, m': map<V, D>)
  {
    if exists k :: Answers(compare, m, v, k)
    then forall k :: Answers(compare, m, v, k) ==> m' == m - {k}
    else m' == m
  }

  /** The place of v tells which entry, if any, compares equal to it. */
  lemma PlaceAnswers<V(!new), D>(keys: seq<seq<V>>, m: map<V, D>, hash: (V, nat) -> nat, compare: (V, V) -> int, v: V, i: nat)
    requires TotalOrder(compare) && Congruent(hash, compare, |keys|) && Shape(keys, m.Keys, hash, compare)
    requires hash(v, |keys|) < |keys| && Place(keys[hash(v, |keys|)], v, i, compare)
    ensures var chain := keys[hash(v, |keys|)];
            if i < |chain| && compare(chain[i], v) == 0
            then Answers(compare, m, v, chain[i]) && forall k :: Answers(compare, m, v, k) ==> k == chain[i]
            else forall k :: !Answers(compare, m, v, k)
  {
    var chain := keys[hash(v, |keys|)];
    assert BucketAt(keys, m.Keys, hash, compare, hash(v, |keys|));
    forall k | Answers(compare, m, v, k) ensures i < |chain| && k == chain[i] {
      assert SameBucket(hash, compare, |keys|, k, v) && InPlace(keys, m.Keys, hash, k);
      var j :| 0 <= j < |chain| && chain[j] == k;
      if i < |chain| {
        CompareFacts(compare, chain[i], k, v);
      }
    }
  }

  datatype Request<V, D> = Add(value: V, data: D) | Get(value: V) | Remove(value: V)

  datatype Reply<D> = Reply(res: HashResult, data: Option<D>)

  /** What one request does to the entries m, and what it answers. */
  ghost predicate Served<V(!new), D>(hash: (V, nat) -> nat, compare: (V, V) -> int, size: nat,
                                     m: map<V, D>, q: Request<V, D>, m': map<V, D>, r: Reply<D>)
  {
    match q
    case Add(v, d) =>
      r.data == None && if hash(v, size) < size then AddOutcome(compare, m, v, d, m', r.res) else m' == m && r.res == BadParameter
    case Get(v) =>
      m' == m && if hash(v, size) < size then GetOutcome(compare, m, v, r.data, r.res) else r == Reply(ItemNotExists, None)
    case Remove(v) =>
      if hash(v, size) < size then GetOutcome(compare, m, v, r.data, r.res) && RemoveOutcome(compare, m, v, m')
      else m' == m && r == Reply(ItemNotExists, None)
  }

  /** No two entries compare equal. */
  ghost predicate Single<V(!new), D>(compare: (V, V) -> int, m: map<V, D>)
  {
    forall a, b :: a in m && b in m && compare(a, b) == 0 ==> a == b
  }

  /** What has been added is found, under every value that compares equal, unless it was there; and nothing else has
      changed. */
  lemma AddThenGet<V(!new), D>(hash: (V, nat) -> nat, compare: (V, V) -> int, size: nat, m: map<V, D>, v: V, d: D,
                               m': map<V, D>, added: Reply<D>, w: V, found: Reply<D>, before: Reply<D>)
    requires TotalOrder(compare) && Congruent(hash, compare, size) && Single(compare, m) && hash(v, size) < size
    requires Served(hash, compare, size, m, Request.Add(v, d), m', added)
    requires Served(hash, compare, size, m', Request.Get(w), m', found)
    requires Served(hash, compare, size, m, Request.Get(w), m, before)
    ensures Single(compare, m')
    ensures compare(v, w) != 0 ==> found == before
    ensures compare(v, w) == 0 && before.res == ItemNotExists ==> added.res == Success && found == Reply(Success, Some(d))
    ensures compare(v, w) == 0 && before.res != ItemNotExists ==>
      found == before && added.res == if before.data == Some(d) then ItemExistsSame else ItemExistsDiffer
  {
    assert SameBucket(hash, compare, size, v, w);
    CompareFacts(compare, v, v, v);
    forall k ensures compare(v, w) == 0 ==> (Answers(compare, m, v, k) <==> Answers(compare, m, w, k)) {
      EqualAlike(compare, v, w, k);
    }
    if k :| Answers(compare, m, v, k) {
      assert m' == m;
    } else {
      assert m' == m[v := d];
      assert Answers(compare, m', v, v) && (compare(v, w) == 0 ==> Answers(compare, m', w, v));
      forall k ensures k != v ==> (Answers(compare, m', w, k) <==> Answers(compare, m, w, k)) {}
      forall k | k in m ensures compare(v, k) != 0 && compare(k, v) != 0 {
        assert !Answers(compare, m, v, k);
        CompareFacts(compare, v, k, k);
      }
      forall k | Answers(compare, m', w, k) && k != v ensures compare(v, w) != 0 {
        assert Answers(compare, m, w, k);
        EqualAlike(compare, v, w, k);
      }
      assert v !in m;
    }
    SingleAnswer(compare, m, w);
  }

  lemma EqualAlike<V(!new)>(compare: (V, V) -> int, v: V, w: V, k: V)
    requires TotalOrder(compare)
    ensures compare(v, w) == 0 ==> (compare(k, v) == 0 <==> compare(k, w) == 0)
  {
    assert Antisymmetric(compare, v, w) && Antisymmetric(compare, w, v);
    assert Antisymmetric(compare, k, v) && Antisymmetric(compare, v, k);
    assert Antisymmetric(compare, k, w) && Antisymmetric(compare, w, k);
    assert Transitive(compare, k, v, w) && Transitive(compare, w, v, k);
    assert Transitive(compare, k, w, v) && Transitive(compare, v, w, k);
  }

  lemma SingleAnswer<V(!new), D>(compare: (V, V) -> int, m: map<V, D>, v: V)
    requires TotalOrder(compare) && Single(compare, m)
    ensures forall a, b :: Answers(compare, m, v, a) && Answers(compare, m, v, b) ==> a == b
  {
    forall a, b | Answers(compare, m, v, a) && Answers(compare, m, v, b) ensures a == b {
      EqualAlike(compare, v, b, a);
      assert Antisymmetric(compare, b, v) && Antisymmetric(compare, v, b);
    }
  }

  /** What has been removed is no longer found, and nothing else has changed. */
  lemma RemoveThenGet<V(!new), D>(hash: (V, nat) -> nat, compare: (V, V) -> int, size: nat, m: map<V, D>, v: V,
                                  m': map<V, D>, removed: Reply<D>, w: V, found: Reply<D>, before: Reply<D>)
    requires TotalOrder(compare) && Congruent(hash, compare, size) && Single(compare, m) && hash(v, size) < size
    requires Served(hash, compare, size, m, Request.Remove(v), m', removed)
    requires Served(hash, compare, size, m', Request.Get(w), m', found)
    requires Served(hash, compare, size, m, Request.Get(w), m, before)
    ensures Single(compare, m')
    ensures compare(v, w) != 0 ==> found == before
    ensures compare(v, w) == 0 ==> removed == before && found == Reply(ItemNotExists, None)
  {
    assert SameBucket(hash, compare, size, v, w);
    forall k ensures compare(v, w) == 0 ==> (Answers(compare, m, v, k) <==> Answers(compare, m, w, k)) {
      EqualAlike(compare, v, w, k);
    }
    SingleAnswer(compare, m, v);
    SingleAnswer(compare, m, w);
    if k :| Answers(compare, m, v, k) {
      assert m' == m - {k};
      if compare(v, w) != 0 {
        NotBoth(compare, v, w, k);
      }
      forall x ensures Answers(compare, m', w, x) <==> Answers(compare, m, w, x) && x != k {}
    } else {
      assert m' == m;
    }
  }

  lemma NotBoth<V(!new)>(compare: (V, V) -> int, v: V, w: V, k: V)
    requires TotalOrder(compare) && compare(v, w) != 0 && compare(k, v) == 0
    ensures compare(k, w) != 0
  {
    EqualAlike(compare, k, w, v);
    assert Antisymmetric(compare, k, v) && Antisymmetric(compare, v, k);
  }

  /** The requests lead from the first map of the run to its last. */
  ghost predicate Runs<V(!new), D>(hash: (V, nat) -> nat, compare: (V, V) -> int, size: nat,
                                   run: seq<map<V, D>>, requests: seq<Request<V, D>>, replies: seq<Reply<D>>)
  {
    && |run| == |requests| + 1 && |replies| == |requests|
    && forall i :: 0 <= i < |requests| ==> Served(hash, compare, size, run[i], requests[i], run[i + 1], replies[i])
  }

  /** The requests and the entries at the start settle every reply and every later state. */
  lemma {:induction false} RunIsSettled<V(!new), D>(hash: (V, nat) -> nat, compare: (V, V) -> int, size: nat,
                                                    run: seq<map<V, D>>, run': seq<map<V, D>>, requests: seq<Request<V, D>>,
                                                    replies: seq<Reply<D>>, replies': seq<Reply<D>>, n: nat)
    requires Runs(hash, compare, size, run, requests, replies) && Runs(hash, compare, size, run', requests, replies')
    requires run[0] == run'[0] && n <= |requests|
    ensures run[..n + 1] == run'[..n + 1] && replies[..n] == replies'[..n]
  {
    if n > 0 {
      RunIsSettled(hash, compare, size, run, run', requests, replies, replies', n - 1);
      assert run[n - 1] == run[..n][n - 1] == run'[..n][n - 1] == run'[n - 1];
      StepIsSettled(hash, compare, size, run[n - 1], requests[n - 1], run[n], run'[n], replies[n - 1], replies'[n - 1]);
      assert run[..n + 1] == run[..n] + [run[n]] && run'[..n + 1] == run'[..n] + [run'[n]];
      assert replies[..n] == replies[..n - 1] + [replies[n - 1]] && replies'[..n] == replies'[..n - 1] + [replies'[n - 1]];
    }
  }

  lemma RunGrows<V(!new), D>(hash: (V, nat) -> nat, compare: (V, V) -> int, size: nat, run: seq<map<V, D>>,
                             requests: seq<Request<V, D>>, n: nat, replies: seq<Reply<D>>, m: map<V, D>, r: Reply<D>)
    requires n < |requests| && Runs(hash, compare, size, run, requests[..n], replies)
    requires Served(hash, compare, size, run[n], requests[n], m, r)
    ensures Runs(hash, compare, size, run + [m], requests[..n + 1], replies + [r])
  {
    var run', requests', replies' := run + [m], requests[..n + 1], replies + [r];
    forall i | 0 <= i < n + 1 ensures Served(hash, compare, size, run'[i], requests'[i], run'[i + 1], replies'[i]) {
      if i < n {
        assert requests'[i] == requests[..n][i];
      }
    }
  }

  lemma StepIsSettled<V(!new), D>(hash: (V, nat) -> nat, compare: (V, V) -> int, size: nat, m: map<V, D>, q: Request<V, D>,
                                  m1: map<V, D>, m2: map<V, D>, r1: Reply<D>, r2: Reply<D>)
    requires Served(hash, compare, size, m, q, m1, r1) && Served(hash, compare, size, m, q, m2, r2)
    ensures m1 == m2 && r1 == r2
  {
    if k :| Answers(compare, m, q.value, k) {
      assert Answers(compare, m, q.value, k);
    }
  }

  // ---------------------------------------------------------------- the table

  /** The item at place j of a chain, null past its end. */
  ghost function ItemAt<V, D>(chain: seq<V>, j: nat, entry: map<V, HashItem<V, D>>): HashItem?<V, D>
  {
    if j < |chain| && chain[j] in entry then entry[chain[j]] else null
  }

  /** A walk from the head meets exactly the items of the chain. */
  ghost predicate Chained<V, D>(head: HashItem?<V, D>, chain: seq<V>, entry: map<V, HashItem<V, D>>, items: set<HashItem<V, D>>)
    reads items`next
  {
    && head == ItemAt(chain, 0, entry)
    && (forall j :: 0 <= j < |chain| ==> chain[j] in entry && entry[chain[j]] in items)
    && forall j {:trigger entry[chain[j]].next} :: 0 <= j < |chain| ==> entry[chain[j]].next == ItemAt(chain, j + 1, entry)
  }

  /** The buckets with something in them. */
  ghost function InUse<V>(keys: seq<seq<V>>): set<nat>
  {
    set k: nat | k < |keys| && keys[k] != []
  }

  lemma InUseAfter<V>(keys: seq<seq<V>>, key: nat, chain: seq<V>)
    requires key < |keys|
    ensures |InUse(keys[key := chain])| ==
            |InUse(keys)| + (if chain != [] then 1 else 0) - (if keys[key] != [] then 1 else 0)
  {
    var rest := InUse(keys) - {key};
    assert InUse(keys) == if keys[key] != [] then rest + {key} else rest;
    assert InUse(keys[key := chain]) == if chain != [] then rest + {key} else rest;
  }

  lemma SomeInUse<V>(keys: seq<seq<V>>, key: nat)
    requires key < |keys| && keys[key] != []
    ensures |InUse(keys)| > 0
  {
    assert key in InUse(keys);
  }

  /** Every bucket leads into its chain. */
  ghost predicate Linked<V, D>(buckets: array<HashItem?<V, D>>, keys: seq<seq<V>>, entry: map<V, HashItem<V, D>>,
                               items: set<HashItem<V, D>>)
    reads buckets, items`next
  {
    buckets.Length == |keys| && forall k :: 0 <= k < |keys| ==> Chained(buckets[k], keys[k], entry, items)
  }

  /** The items hold exactly the entries of the map. */
  ghost predicate Holds<V, D>(entry: map<V, HashItem<V, D>>, contents: map<V, D>, items: set<HashItem<V, D>>)
    reads items`value, items`data
  {
    && entry.Keys == contents.Keys
    && (forall v :: v in entry ==> entry[v] in items && entry[v].value == v && entry[v].data == contents[v])
    && (forall n :: n in items ==> n.value in entry && entry[n.value] == n)
  }

  lemma HoldsInsert<V, D>(entry: map<V, HashItem<V, D>>, contents: map<V, D>, items: set<HashItem<V, D>>, item: HashItem<V, D>)
    requires Holds(entry, contents, items) && item !in items && item.value !in entry
    ensures Holds(entry[item.value := item], contents[item.value := item.data], items + {item})
  {
  }

  lemma HoldsRemove<V, D>(entry: map<V, HashItem<V, D>>, contents: map<V, D>, items: set<HashItem<V, D>>, item: HashItem<V, D>)
    requires Holds(entry, contents, items) && item in items
    ensures Holds(entry - {item.value}, contents - {item.value}, items - {item})
  {
  }

  class HashTable<V(==,!new), D(==)> {
    const size: nat
    const hash: (V, nat) -> nat
    const compare: (V, V) -> int
    const pool: Pool<HashItem<V, D>>
    const buckets: array<HashItem?<V, D>>
    var bucketsUsed: nat
    var itemsNum: nat
    var mostRecent: HashItem?<V, D>

    /** The entries, the item that holds each, and the values of each bucket in order. */
    ghost var contents: map<V, D>
    ghost var entry: map<V, HashItem<V, D>>
    ghost var keys: seq<seq<V>>
    ghost var items: set<HashItem<V, D>>

    ghost predicate Ordered()
    {
      TotalOrder(compare) && Congruent(hash, compare, size)
    }

    ghost predicate Core()
      reads this, items, buckets
    {
      && size == |keys| == buckets.Length && size > 0
      && Shape(keys, contents.Keys, hash, compare)
      && Holds(entry, contents, items) && Linked(buckets, keys, entry, items)
      && itemsNum == |contents| && bucketsUsed == |InUse(keys)|
      && (mostRecent != null ==> mostRecent in items)
    }

    ghost predicate Valid()
      reads this, items, buckets, pool
    {
      Core() && pool.Valid() && pool.limit == DEALLOC_CACHE_SIZE && items !! pool.free
    }

    constructor (size: nat, hash: (V, nat) -> nat, compare: (V, V) -> int, pool: Pool<HashItem<V, D>>)
      requires size > 0 && pool.Valid() && pool.limit == DEALLOC_CACHE_SIZE
      ensures Valid() && contents == map[] && fresh(buckets)
      ensures this.size == size && this.hash == hash && this.compare == compare && this.pool == pool
    {
      this.size, this.hash, this.compare, this.pool := size, hash, compare, pool;
      buckets := new HashItem?<V, D>[size](_ => null);
      bucketsUsed, itemsNum, mostRecent := 0, 0, null;
      keys, items, entry, contents := seq(size, _ => []), {}, map[], map[];
      new;
      assert InUse(keys) == {};
    }

    lemma Pieces()
      requires Core()
      ensures size == |keys| == buckets.Length && size > 0
      ensures Shape(keys, contents.Keys, hash, compare)
      ensures Holds(entry, contents, items) && Linked(buckets, keys, entry, items)
      ensures itemsNum == |contents| && bucketsUsed == |InUse(keys)| && (mostRecent != null ==> mostRecent in items)
    {
    }

    lemma AllThere()
      requires size == |keys| == buckets.Length && size > 0
      requires Shape(keys, contents.Keys, hash, compare)
      requires Holds(entry, contents, items) && Linked(buckets, keys, entry, items)
      requires itemsNum == |contents| && bucketsUsed == |InUse(keys)| && (mostRecent != null ==> mostRecent in items)
      ensures Core()
    {
    }

    /** With room for the pool beside it, the table is in order. */
    lemma InOrder()
      ensures Valid() <==> Core() && pool.Valid() && pool.limit == DEALLOC_CACHE_SIZE && items !! pool.free
    {
    }

    /** What the place where the search stopped says about adding an entry. */
    lemma WalkTells(key: nat, v: V, d: D, cur: HashItem?<V, D>, i: nat)
      requires Core() && Ordered() && key == hash(v, size) && key < size
      requires Place(keys[key], v, i, compare) && cur == ItemAt(keys[key], i, entry) && (cur == null <==> i == |keys[key]|)
      ensures cur != null && compare(cur.value, v) == 0 ==>
        AddOutcome(compare, contents, v, d, contents, if cur.data == d then ItemExistsSame else ItemExistsDiffer)
      ensures cur == null || compare(cur.value, v) != 0 ==>
        && AddOutcome(compare, contents, v, d, contents[v := d], Success) && v !in contents
        && (i < |keys[key]| ==> compare(keys[key][i], v) > 0)
    {
      assert Chained(buckets[key], keys[key], entry, items);
      PlaceAnswers(keys, contents, hash, compare, v, i);
      AddSettled(compare, contents, v, d, if cur == null then v else cur.value);
      CompareFacts(compare, v, v, v);
      assert v in contents ==> Answers(compare, contents, v, v);
    }

    /** What the table will hold once item is in the i-th place of its chain. */
    lemma PlanIn(key: nat, item: HashItem<V, D>, i: nat)
      requires Core() && Ordered() && key == hash(item.value, size) && key < size && item.value !in contents && item !in items
      requires Place(keys[key], item.value, i, compare) && (i < |keys[key]| ==> compare(keys[key][i], item.value) > 0)
      ensures var v, d := item.value, item.data;
        var keys' := keys[key := Inserted(keys[key], i, v)];
        && i <= |keys[key]| && (i > 0 ==> OnlyAt(keys, key, i - 1))
        && Shape(keys', contents[v := d].Keys, hash, compare) && |contents[v := d]| == |contents| + 1
        && |InUse(keys')| == |InUse(keys)| + (if keys[key] == [] then 1 else 0)
        && (forall x :: x in entry ==> entry[x].value == x) && v !in entry
        && Holds(entry[v := item], contents[v := d], items + {item})
    {
      hide Linked, Shape, InUse;
      var v, d := item.value, item.data;
      ShapeInsert(keys, contents.Keys, hash, compare, v, i);
      assert contents.Keys + {v} == contents[v := d].Keys;
      if i > 0 {
        ChainsApart(keys, contents.Keys, hash, compare, key, i - 1);
      }
      InUseAfter(keys, key, Inserted(keys[key], i, v));
      HoldsInsert(entry, contents, items, item);
    }

    /** What it will hold without the entry in the i-th place. */
    lemma PlanOut(key: nat, cur: HashItem<V, D>, i: nat)
      requires Core() && Ordered() && key < size && i < |keys[key]| && cur == ItemAt(keys[key], i, entry)
      ensures var v := cur.value;
        var keys' := keys[key := Removed(keys[key], i)];
        && v == keys[key][i] && cur in items && v in contents
        && OnlyAt(keys, key, i) && (i > 0 ==> OnlyAt(keys, key, i - 1))
        && Shape(keys', (contents - {v}).Keys, hash, compare) && |contents - {v}| == |contents| - 1
        && |InUse(keys')| == |InUse(keys)| - (if |keys[key]| == 1 then 1 else 0)
        && (forall x :: x in entry ==> entry[x].value == x)
        && Holds(entry - {v}, contents - {v}, items - {cur}) && |InUse(keys)| > 0
    {
      var v := cur.value;
      assert Chained(buckets[key], keys[key], entry, items);
      hide Linked, Shape, InUse, Chained;
      assert v == keys[key][i];
      ShapeRemove(keys, contents.Keys, hash, compare, key, i);
      assert contents.Keys - {v} == (contents - {v}).Keys;
      ChainsApart(keys, contents.Keys, hash, compare, key, i);
      if i > 0 {
        ChainsApart(keys, contents.Keys, hash, compare, key, i - 1);
      }
      InUseAfter(keys, key, Removed(keys[key], i));
      HoldsRemove(entry, contents, items, cur);
      SomeInUse(keys, key);
    }

    /** The walk the searches share: past every smaller item of the bucket. i counts them. */
    method Walk(key: nat, v: V) returns (prev: HashItem?<V, D>, cur: HashItem?<V, D>, ghost i: nat)
      requires Core() && key < size
      ensures Place(keys[key], v, i, compare)
      ensures cur == ItemAt(keys[key], i, entry) && (cur == null <==> i == |keys[key]|)
      ensures prev == if i == 0 then null else ItemAt(keys[key], i - 1, entry)
      ensures prev == null <==> i == 0
    {
      prev, cur, i := null, buckets[key], 0;
      ghost var chain := keys[key];
      assert Chained(buckets[key], keys[key], entry, items);
      assert BucketAt(keys, contents.Keys, hash, compare, key);
      while cur != null
        invariant i <= |chain| && cur == ItemAt(chain, i, entry) && (cur == null <==> i == |chain|)
        invariant prev == if i == 0 then null else ItemAt(chain, i - 1, entry)
        invariant prev == null <==> i == 0
        invariant forall j :: 0 <= j < i ==> compare(chain[j], v) < 0
        decreases |chain| - i
      {
        if compare(cur.value, v) >= 0 {
          break;
        }
        prev, cur, i := cur, cur.next, i + 1;
      }
    }

    /** Everything this table may touch: its own items and the discarded ones. */
    ghost function Nodes(): set<HashItem<V, D>>
      reads this, pool
    {
      items + pool.free
    }

    /** Adds an entry unless one compares equal to it. */
    method Add(value: V, data: D) returns (res: HashResult)
      requires Valid() && Ordered()
      modifies this, buckets, pool, Nodes()
      ensures Valid() && fresh(Nodes() - old(Nodes())) && old(Nodes()) <= Nodes()
      ensures if res == Success then mostRecent != null && mostRecent.value == value else mostRecent == old(mostRecent)
      ensures if hash(value, size) < size then AddOutcome(compare, old(contents), value, data, contents, res)
              else res == BadParameter && contents == old(contents)
    {
      hide AddOutcome, Shape, Holds, Linked, TotalOrder, Congruent;
      var key := hash(value, size);
      if key >= size {
        return BadParameter;
      }
      var item := TakeItem(pool, value, data);
      assert Core();
      res := AddItem(key, item);
    }

    /** Finds the place of an item that is not yet anywhere, and links it in or discards it. */
    method AddItem(key: nat, item: HashItem<V, D>) returns (res: HashResult)
      requires Valid() && Ordered() && key == hash(item.value, size) && key < size
      requires item !in items && item !in pool.free
      modifies this, buckets, pool, items`next, item`next
      ensures Valid() && Nodes() <= old(Nodes()) + {item}
      ensures |old(pool.mem)| < DEALLOC_CACHE_SIZE ==> Nodes() == old(Nodes()) + {item}
      ensures mostRecent == (if res == Success then item else old(mostRecent)) && item.value == old(item.value)
      ensures AddOutcome(compare, old(contents), item.value, item.data, contents, res)
    {
      hide Core, Ordered, Place, AddOutcome;
      InOrder();
      var prev, cur, i := Walk(key, item.value);
      WalkTells(key, item.value, item.data, cur, i);
      if cur != null && compare(cur.value, item.value) == 0 {
        res := if cur.data == item.data then ItemExistsSame else ItemExistsDiffer;
        pool.Discard(item);
      } else {
        res := Success;
        LinkIn(key, prev, cur, item, i);
      }
      InOrder();
    }

    /** Looks up the entry that compares equal to value. */
    method Get(value: V) returns (res: HashResult, data: Option<D>)
      requires Valid() && Ordered()
      ensures if hash(value, size) < size then GetOutcome(compare, contents, value, data, res)
              else res == ItemNotExists && data == None
    {
      var key := hash(value, size);
      if key < size {
        var prev, cur, i := Walk(key, value);
        PlaceAnswers(keys, contents, hash, compare, value, i);
        if cur != null && compare(cur.value, value) == 0 {
          return Success, Some(cur.data);
        }
      }
      return ItemNotExists, None;
    }

    /** Takes out the entry that compares equal to value; its item goes to the pool. */
    method Remove(value: V) returns (res: HashResult, data: Option<D>)
      requires Valid() && Ordered()
      modifies this, buckets, pool, items
      ensures Valid() && Nodes() <= old(Nodes())
      ensures |old(pool.mem)| < DEALLOC_CACHE_SIZE ==> Nodes() == old(Nodes())
      ensures if hash(value, size) < size then
                GetOutcome(compare, old(contents), value, data, res) && RemoveOutcome(compare, old(contents), value, contents)
              else res == ItemNotExists && data == None && contents == old(contents)
    {
      var key := hash(value, size);
      res, data := ItemNotExists, None;
      if key < size {
        var prev, cur, i := Walk(key, value);
        PlaceAnswers(keys, contents, hash, compare, value, i);
        if cur != null && compare(cur.value, value) == 0 {
          res, data := Success, Some(cur.data);
          TakeOut(key, prev, cur, i);
        }
      }
    }

    /** Hands the item cur, the i-th of its chain, from the table to the pool. */
    method TakeOut(key: nat, prev: HashItem?<V, D>, cur: HashItem<V, D>, ghost i: nat)
      requires Valid() && Ordered() && key < size && i < |keys[key]|
      requires cur == ItemAt(keys[key], i, entry)
      requires prev == if i == 0 then null else ItemAt(keys[key], i - 1, entry)
      modifies this, buckets, pool, items`next
      ensures Valid() && Nodes() <= old(Nodes())
      ensures |old(pool.mem)| < DEALLOC_CACHE_SIZE ==> Nodes() == old(Nodes())
      ensures contents == old(contents) - {old(keys[key])[i]}
    {
      LinkOut(key, prev, cur, i);
      pool.Discard(cur);
    }

    /** Takes the item cur, the i-th of its chain, out of the table. */
    method LinkOut(key: nat, prev: HashItem?<V, D>, cur: HashItem<V, D>, ghost i: nat)
      requires Core() && Ordered() && key < size && i < |keys[key]|
      requires cur == ItemAt(keys[key], i, entry)
      requires prev == if i == 0 then null else ItemAt(keys[key], i - 1, entry)
      modifies this, buckets, items`next
      ensures Core() && cur in old(items) && items == old(items) - {cur}
      ensures contents == old(contents) - {old(keys[key])[i]}
    {
      hide *;
      Pieces();
      PlanOut(key, cur, i);
      ghost var v := cur.value;
      ghost var keys', entry' := keys[key := Removed(keys[key], i)], entry - {v};
      ghost var contents', items' := contents - {v}, items - {cur};
      Unsplice(buckets, key, prev, cur, i, keys, entry, items);
      assert Holds(entry', contents', items');
      Leave(key, cur, keys', entry', contents', items');
      assert Linked(buckets, keys', entry', items') && Holds(entry', contents', items');
      AllThere();
    }

    method Leave(key: nat, cur: HashItem<V, D>, ghost keys': seq<seq<V>>, ghost entry': map<V, HashItem<V, D>>,
                 ghost contents': map<V, D>, ghost items': set<HashItem<V, D>>)
      requires key < buckets.Length && itemsNum > 0 && (buckets[key] == null ==> bucketsUsed > 0)
      modifies this
      ensures mostRecent == if old(mostRecent) == cur then null else old(mostRecent)
      ensures itemsNum == old(itemsNum) - 1
      ensures bucketsUsed == if buckets[key] == null then old(bucketsUsed) - 1 else old(bucketsUsed)
      ensures keys == keys' && entry == entry' && contents == contents' && items == items'
    {
      if mostRecent == cur {
        mostRecent := null;
      }
      if buckets[key] == null {
        bucketsUsed := bucketsUsed - 1;
      }
      itemsNum := itemsNum - 1;
      keys, entry, contents, items := keys', entry', contents', items';
    }

    /** Puts the item between prev and cur, the i-th place of its chain. */
    method LinkIn(key: nat, prev: HashItem?<V, D>, cur: HashItem?<V, D>, item: HashItem<V, D>, ghost i: nat)
      requires Core() && Ordered() && key == hash(item.value, size) && key < size && item.value !in contents
      requires item !in items
      requires Place(keys[key], item.value, i, compare) && (i < |keys[key]| ==> compare(keys[key][i], item.value) > 0)
      requires cur == ItemAt(keys[key], i, entry)
      requires prev == if i == 0 then null else ItemAt(keys[key], i - 1, entry)
      modifies this, buckets, items`next, item`next
      ensures Core() && items == old(items) + {item} && contents == old(contents)[item.value := item.data]
      ensures mostRecent == item
    {
      hide *;
      Pieces();
      PlanIn(key, item, i);
      ghost var v := item.value;
      ghost var keys', entry' := keys[key := Inserted(keys[key], i, v)], entry[v := item];
      ghost var contents', items' := contents[v := item.data], items + {item};
      Splice(buckets, key, prev, cur, item, i, keys, entry, items);
      assert Holds(entry', contents', items');
      Enter(key, item, keys', entry', contents', items');
      assert Linked(buckets, keys', entry', items') && Holds(entry', contents', items');
      AllThere();
    }

    /** The counters, and what they count. */
    method Enter(key: nat, item: HashItem<V, D>, ghost keys': seq<seq<V>>, ghost entry': map<V, HashItem<V, D>>,
                 ghost contents': map<V, D>, ghost items': set<HashItem<V, D>>)
      requires key < buckets.Length && buckets[key] != null
      modifies this
      ensures mostRecent == item && itemsNum == old(itemsNum) + 1
      ensures bucketsUsed == if buckets[key].next == null then old(bucketsUsed) + 1 else old(bucketsUsed)
      ensures keys == keys' && entry == entry' && contents == contents' && items == items'
    {
      mostRecent := item;
      itemsNum := itemsNum + 1;
      if buckets[key].next == null {
        bucketsUsed := bucketsUsed + 1;
      }
      keys, entry, contents, items := keys', entry', contents', items';
    }
  }

  /** The value at one place of a chain stands nowhere else. */
  ghost predicate OnlyAt<V>(keys: seq<seq<V>>, key: nat, p: nat)
    requires key < |keys| && p < |keys[key]|
  {
    forall k, j :: 0 <= k < |keys| && 0 <= j < |keys[k]| && (k != key || j != p) ==> keys[k][j] != keys[key][p]
  }

  lemma ChainsApart<V(!new)>(keys: seq<seq<V>>, all: set<V>, hash: (V, nat) -> nat, compare: (V, V) -> int, key: nat, p: nat)
    requires TotalOrder(compare) && Shape(keys, all, hash, compare) && key < |keys| && p < |keys[key]|
    ensures OnlyAt(keys, key, p)
  {
    assert BucketAt(keys, all, hash, compare, key);
    NoRepeats(keys[key], compare);
    forall k, j | 0 <= k < |keys| && 0 <= j < |keys[k]| && k != key ensures keys[k][j] != keys[key][p] {
      assert BucketAt(keys, all, hash, compare, k);
    }
  }

  /** The two pointer writes that put an item into a chain. */
  method Splice<V(==), D>(buckets: array<HashItem?<V, D>>, key: nat, prev: HashItem?<V, D>, cur: HashItem?<V, D>,
                          item: HashItem<V, D>, ghost i: nat, ghost keys: seq<seq<V>>,
                          ghost entry: map<V, HashItem<V, D>>, ghost items: set<HashItem<V, D>>)
    requires Linked(buckets, keys, entry, items) && key < |keys| && i <= |keys[key]|
    requires i > 0 ==> OnlyAt(keys, key, i - 1)
    requires forall v :: v in entry ==> entry[v].value == v
    requires item !in items && item.value !in entry
    requires cur == ItemAt(keys[key], i, entry)
    requires prev == if i == 0 then null else ItemAt(keys[key], i - 1, entry)
    modifies buckets, items`next, item`next
    ensures Linked(buckets, keys[key := Inserted(keys[key], i, item.value)], entry[item.value := item], items + {item})
    ensures forall k :: 0 <= k < |keys| && k != key ==> buckets[k] == old(buckets[k])
    ensures buckets[key] != null && (buckets[key].next == null <==> keys[key] == [])
  {
    ghost var chain, v, after := keys[key], item.value, entry[item.value := item];
    assert Chained(buckets[key], chain, entry, items);
    item.next := cur;
    if prev == null {
      buckets[key] := item;
    } else {
      prev.next := item;
    }
    ChainedInsert(buckets[key], chain, v, i, entry, items, item);
    forall k | 0 <= k < |keys| && k != key ensures Chained(buckets[k], keys[k], after, items + {item}) {
      assert old(Chained(buckets[k], keys[k], entry, items));
    }
  }

  /** The chain with v in place i is linked, if its old links are as before up to the new item. */
  lemma ChainedInsert<V, D>(head: HashItem?<V, D>, chain: seq<V>, v: V, i: nat, entry: map<V, HashItem<V, D>>,
                            items: set<HashItem<V, D>>, item: HashItem<V, D>)
    requires i <= |chain| && v !in entry && (forall j :: 0 <= j < |chain| ==> chain[j] in entry && entry[chain[j]] in items)
    requires forall j {:trigger entry[chain[j]].next} :: 0 <= j < |chain| ==>
        entry[chain[j]].next == if j + 1 == i then item else ItemAt(chain, j + 1, entry)
    requires item.next == ItemAt(chain, i, entry)
    requires head == if i == 0 then item else ItemAt(chain, 0, entry)
    ensures Chained(head, Inserted(chain, i, v), entry[v := item], items + {item})
  {
    var all, after := Inserted(chain, i, v), entry[v := item];
    forall j | 0 <= j < |all| ensures all[j] in after && after[all[j]].next == ItemAt(all, j + 1, after) {
      if j < i {
        assert entry[chain[j]].next == if j + 1 == i then item else ItemAt(chain, j + 1, entry);
      } else if j > i {
        assert entry[chain[j - 1]].next == ItemAt(chain, j, entry);
      }
    }
  }

  /** The pointer write that takes an item out of a chain. */
  method Unsplice<V(==), D>(buckets: array<HashItem?<V, D>>, key: nat, prev: HashItem?<V, D>, cur: HashItem<V, D>,
                            ghost i: nat, ghost keys: seq<seq<V>>,
                            ghost entry: map<V, HashItem<V, D>>, ghost items: set<HashItem<V, D>>)
    requires Linked(buckets, keys, entry, items) && key < |keys| && i < |keys[key]|
    requires OnlyAt(keys, key, i) && (i > 0 ==> OnlyAt(keys, key, i - 1))
    requires forall v :: v in entry ==> entry[v].value == v
    requires cur == ItemAt(keys[key], i, entry)
    requires prev == if i == 0 then null else ItemAt(keys[key], i - 1, entry)
    modifies buckets, items`next
    ensures Linked(buckets, keys[key := Removed(keys[key], i)], entry - {cur.value}, items - {cur})
    ensures forall k :: 0 <= k < |keys| && k != key ==> buckets[k] == old(buckets[k])
    ensures buckets[key] == null <==> |keys[key]| == 1
  {
    ghost var chain := keys[key];
    assert Chained(buckets[key], chain, entry, items);
    ghost var after := entry - {cur.value};
    if prev == null {
      buckets[key] := cur.next;
    } else {
      prev.next := cur.next;
    }
    ChainedRemove(buckets[key], chain, i, entry, items, cur);
    forall k | 0 <= k < |keys| && k != key ensures Chained(buckets[k], keys[k], after, items - {cur}) {
      assert old(Chained(buckets[k], keys[k], entry, items));
      assert forall j :: 0 <= j < |keys[k]| ==> keys[k][j] != keys[key][i];
    }
  }

  lemma ChainedRemove<V, D>(head: HashItem?<V, D>, chain: seq<V>, i: nat, entry: map<V, HashItem<V, D>>,
                            items: set<HashItem<V, D>>, cur: HashItem<V, D>)
    requires i < |chain| && (forall j :: 0 <= j < |chain| ==> chain[j] in entry && entry[chain[j]] in items)
    requires cur == entry[chain[i]] && cur.value == chain[i]
    requires forall j :: 0 <= j < |chain| && j != i ==> chain[j] != chain[i] && entry[chain[j]] != cur
    requires forall j {:trigger entry[chain[j]].next} :: 0 <= j < |chain| ==>
        entry[chain[j]].next == ItemAt(chain, if j + 1 == i then i + 1 else j + 1, entry)
    requires head == ItemAt(chain, if i == 0 then 1 else 0, entry)
    ensures Chained(head, Removed(chain, i), entry - {cur.value}, items - {cur})
  {
    var rest, after := Removed(chain, i), entry - {cur.value};
    forall j | 0 <= j < |rest| ensures rest[j] in after && after[rest[j]].next == ItemAt(rest, j + 1, after) {
      var k := if j < i then j else j + 1;
      assert entry[chain[k]].next == ItemAt(chain, if k + 1 == i then i + 1 else k + 1, entry);
    }
  }

  /** Any run of requests answers, and leaves behind, exactly what a map would. */
  method Serve<V(==,!new), D(==)>(table: HashTable<V, D>, requests: seq<Request<V, D>>)
      returns (replies: seq<Reply<D>>, ghost run: seq<map<V, D>>)
    requires table.Valid() && table.Ordered()
    modifies table, table.buckets, table.pool, table.Nodes()
    ensures table.Valid()
    ensures run != [] && run[0] == old(table.contents) && run[|run| - 1] == table.contents
    ensures Runs(table.hash, table.compare, table.size, run, requests, replies)
  {
    hide Served, Shape, Holds, Linked, TotalOrder, Congruent;
    replies, run := [], [table.contents];
    for i := 0 to |requests|
      invariant table.Valid() && fresh(table.Nodes() - old(table.Nodes()))
      invariant |run| == i + 1 && run[0] == old(table.contents) && run[i] == table.contents
      invariant Runs(table.hash, table.compare, table.size, run, requests[..i], replies)
    {
      replies, run := ServeNext(table, requests, i, replies, run);
    }
    assert requests[..|requests|] == requests;
  }

  method ServeNext<V(==,!new), D(==)>(table: HashTable<V, D>, requests: seq<Request<V, D>>, n: nat, replies: seq<Reply<D>>,
                                      ghost run: seq<map<V, D>>) returns (replies': seq<Reply<D>>, ghost run': seq<map<V, D>>)
    requires table.Valid() && table.Ordered() && n < |requests|
    requires Runs(table.hash, table.compare, table.size, run, requests[..n], replies) && run[n] == table.contents
    modifies table, table.buckets, table.pool, table.Nodes()
    ensures table.Valid() && fresh(table.Nodes() - old(table.Nodes()))
    ensures run' == run + [table.contents]
    ensures Runs(table.hash, table.compare, table.size, run', requests[..n + 1], replies')
  {
    hide Served, Shape, Holds, Linked, TotalOrder, Congruent;
    var reply := ServeOne(table, requests[n]);
    RunGrows(table.hash, table.compare, table.size, run, requests, n, replies, table.contents, reply);
    replies', run' := replies + [reply], run + [table.contents];
  }

  method ServeOne<V(==,!new), D(==)>(table: HashTable<V, D>, q: Request<V, D>) returns (r: Reply<D>)
    requires table.Valid() && table.Ordered()
    modifies table, table.buckets, table.pool, table.Nodes()
    ensures table.Valid() && fresh(table.Nodes() - old(table.Nodes()))
    ensures Served(table.hash, table.compare, table.size, old(table.contents), q, table.contents, r)
  {
    match q
    case Add(v, d) =>
      var res := table.Add(v, d);
      r := Reply(res, None);
    case Get(v) =>
      var res, data := table.Get(v);
      r := Reply(res, data);
    case Remove(v) =>
      var res, data := table.Remove(v);
      r := Reply(res, data);
  }
}
