/**
 The chained hash map (src/crelude/common.c:445-721).

 The bucket array is a sequence of chains: bucket `i` is the chain whose
 head sits in slot `i` of the array, followed by its heap-allocated links
 in `next` order. An empty slot (the `hash == 0` sentinel) is an empty
 chain. Entries carry the hash they were stored under; the hasher is a
 parameter and key equality is Dafny equality.
 */
module HashMaps {
  import opened Common

  datatype Entry<K, V> = Entry(hash: u64, key: K, value: V)

  type Chain<K, V> = seq<Entry<K, V>>

  /** `mapof(K, V)`: the bucket array and the entry counter `len`. */
  datatype HashMap<K, V> = HashMap(buckets: seq<Chain<K, V>>, len: nat)

  /** All entries, bucket by bucket, each chain from head to tail: the
      order in which `get_keys`, `has_key` and the rehash walk the map. */
  function Flatten<K, V>(bs: seq<Chain<K, V>>): seq<Entry<K, V>>
  {
    if |bs| == 0 then [] else Flatten(bs[..|bs| - 1]) + bs[|bs| - 1]
  }

  /** Sequence identities stated for an element type the solver cannot
      look into, so that equal chains are never compared element by
      element. */
  lemma TakeTake<T>(s: seq<T>, n: nat, m: nat)
    requires m <= n <= |s|
    ensures s[..n][..m] == s[..m]
  {
  }

  lemma TakeDrop<T>(s: seq<T>, n: nat)
    requires n <= |s|
    ensures s[..n] + s[n..] == s
  {
  }

  lemma ConcatInit<T>(a: seq<T>, b: seq<T>)
    requires |b| > 0
    ensures (a + b)[..|a + b| - 1] == a + b[..|b| - 1]
    ensures (a + b)[|a + b| - 1] == b[|b| - 1]
  {
  }

  lemma {:induction false} FlattenConcat<K, V>(a: seq<Chain<K, V>>, b: seq<Chain<K, V>>)
    ensures Flatten(a + b) == Flatten(a) + Flatten(b)
    decreases |b|
  {
    if |b| == 0 {
      assert a + b == a;
    } else {
      var ab, init := a + b, b[..|b| - 1];
      ConcatInit(a, b);
      assert Flatten(ab) == Flatten(a + init) + b[|b| - 1];
      FlattenConcat(a, init);
      assert Flatten(b) == Flatten(init) + b[|b| - 1];
    }
  }

  /** The entries of one bucket sit between those of the buckets before
      and after it. */
  lemma FlattenAt<K, V>(bs: seq<Chain<K, V>>, b: nat)
    requires b < |bs|
    ensures Flatten(bs) == Flatten(bs[..b]) + bs[b] + Flatten(bs[b + 1..])
  {
    var upTo := bs[..b + 1];
    TakeTake(bs, b + 1, b);
    assert Flatten(upTo) == Flatten(bs[..b]) + bs[b];
    TakeDrop(bs, b + 1);
    FlattenConcat(upTo, bs[b + 1..]);
  }

  lemma FlattenReplace<K, V>(bs: seq<Chain<K, V>>, b: nat, c: Chain<K, V>)
    requires b < |bs|
    ensures Flatten(bs[b := c]) == Flatten(bs[..b]) + c + Flatten(bs[b + 1..])
  {
    FlattenAt(bs[b := c], b);
    assert bs[b := c][..b] == bs[..b];
    assert bs[b := c][b + 1..] == bs[b + 1..];
  }

  /** Replacing one chain changes the entry multiset by exactly the
      difference between the two chains. */
  lemma FlattenReplaceMultiset<K, V>(bs: seq<Chain<K, V>>, b: nat, c: Chain<K, V>)
    requires b < |bs|
    ensures multiset(Flatten(bs[b := c])) + multiset(bs[b]) == multiset(Flatten(bs)) + multiset(c)
    ensures |Flatten(bs[b := c])| + |bs[b]| == |Flatten(bs)| + |c|
  {
    FlattenAt(bs, b);
    FlattenReplace(bs, b, c);
  }

  lemma FlattenAppendMultiset<K, V>(bs: seq<Chain<K, V>>, b: nat, e: Entry<K, V>)
    requires b < |bs|
    ensures multiset(Flatten(bs[b := bs[b] + [e]])) == multiset(Flatten(bs)) + multiset{e}
  {
    var pre, post := Flatten(bs[..b]), Flatten(bs[b + 1..]);
    FlattenAt(bs, b);
    FlattenReplace(bs, b, bs[b] + [e]);
    assert pre + (bs[b] + [e]) + post == pre + bs[b] + [e] + post;
    assert multiset(pre + bs[b] + [e] + post)
        == multiset(pre) + multiset(bs[b]) + multiset{e} + multiset(post);
  }

  lemma {:induction false} FlattenMember<K, V>(bs: seq<Chain<K, V>>, x: Entry<K, V>)
    ensures x in Flatten(bs) <==> exists b | 0 <= b < |bs| :: x in bs[b]
    decreases |bs|
  {
    if |bs| > 0 {
      var init := bs[..|bs| - 1];
      FlattenMember(init, x);
      assert forall b | 0 <= b < |init| :: init[b] == bs[b];
    }
  }

  /** `n` unpopulated bucket slots. */
  function EmptyBuckets<K, V>(n: nat): (bs: seq<Chain<K, V>>)
    ensures |bs| == n && forall b | 0 <= b < n :: bs[b] == []
  {
    seq(n, _ => [])
  }

  lemma {:induction false} FlattenEmpty<K, V>(n: nat)
    ensures Flatten(EmptyBuckets<K, V>(n)) == []
  {
    if n > 0 {
      assert EmptyBuckets<K, V>(n)[..n - 1] == EmptyBuckets<K, V>(n - 1);
      FlattenEmpty<K, V>(n - 1);
    }
  }

  /** No two entries share a key. */
  predicate DistinctKeys<K(==), V(==)>(es: seq<Entry<K, V>>)
  {
    forall i, j | 0 <= i < j < |es| :: es[i].key != es[j].key
  }

  /** Every entry sits in the bucket its hash selects, under the hash the
      hasher gives its key, and no stored hash is the empty-slot sentinel. */
  predicate Placed<K(==), V(==)>(bs: seq<Chain<K, V>>, hasher: K -> u64)
  {
    forall b, e | 0 <= b < |bs| && e in bs[b] ::
      e.hash != 0 && e.hash == hasher(e.key) && e.hash % |bs| == b
  }

  /** The map invariant: at least one bucket, every entry placed, no
      repeated key within a chain, and `len` counting the entries. */
  predicate Valid<K(==), V(==)>(m: HashMap<K, V>, hasher: K -> u64)
  {
    && |m.buckets| > 0
    && Placed(m.buckets, hasher)
    && (forall b | 0 <= b < |m.buckets| :: DistinctKeys(m.buckets[b]))
    && m.len == |Flatten(m.buckets)|
  }

  /** The position of the first entry with key `k`: how `lookup`,
      `associate` and `drop` walk a chain from its head. */
  function FindIndex<K(==), V(==)>(c: Chain<K, V>, k: K): (r: Option<nat>)
    ensures r.Some? ==> r.value < |c| && c[r.value].key == k
    ensures r.Some? ==> forall i | 0 <= i < r.value :: c[i].key != k
    ensures r.None? ==> forall i | 0 <= i < |c| :: c[i].key != k
  {
    if |c| == 0 then None
    else if c[0].key == k then Some(0)
    else
      match FindIndex(c[1..], k)
      case None => None
      case Some(j) => Some(j + 1)
  }

  /** The value stored under `k` in a chain, if any. */
  function Find<K(==), V(==)>(c: Chain<K, V>, k: K): (r: Option<V>)
    ensures r.Some? <==> exists i | 0 <= i < |c| :: c[i].key == k
    ensures r.Some? ==> exists i | 0 <= i < |c| :: c[i].key == k && c[i].value == r.value
  {
    match FindIndex(c, k)
    case None => None
    case Some(j) => Some(c[j].value)
  }

  lemma FindNone<K, V>(c: Chain<K, V>, k: K)
    requires forall e | e in c :: e.key != k
    ensures Find(c, k) == None
  {
  }

  /** Past a head with another key, the search continues down the chain. */
  lemma FindTail<K, V>(c: Chain<K, V>, k: K)
    requires |c| > 0 && c[0].key != k
    ensures Find(c, k) == Find(c[1..], k)
  {
  }

  /** Where the keys are distinct, `Find` gives the value of the one entry
      with that key. */
  lemma {:induction false} FindUnique<K, V>(c: Chain<K, V>, i: nat)
    requires DistinctKeys(c) && i < |c|
    ensures Find(c, c[i].key) == Some(c[i].value)
    decreases i
  {
    if i > 0 {
      FindTail(c, c[i].key);
      FindUnique(c[1..], i - 1);
    }
  }

  lemma {:induction false} FindConcat<K, V>(a: Chain<K, V>, b: Chain<K, V>, k: K)
    ensures Find(a + b, k) == if Find(a, k).Some? then Find(a, k) else Find(b, k)
    decreases |a|
  {
    if |a| == 0 {
      assert a + b == b;
    } else if a[0].key != k {
      assert (a + b)[1..] == a[1..] + b;
      FindTail(a, k);
      FindTail(a + b, k);
      FindConcat(a[1..], b, k);
    }
  }

  lemma FindAppend<K, V>(c: Chain<K, V>, e: Entry<K, V>, k: K)
    ensures Find(c + [e], k) ==
      if Find(c, k).Some? then Find(c, k) else if e.key == k then Some(e.value) else None
  {
    FindConcat(c, [e], k);
  }

  /** Changing values but not keys moves no first match. */
  lemma {:induction false} FindIndexSameKeys<K, V>(c: Chain<K, V>, d: Chain<K, V>, k: K)
    requires |c| == |d| && forall i | 0 <= i < |c| :: c[i].key == d[i].key
    ensures FindIndex(c, k) == FindIndex(d, k)
    decreases |c|
  {
    if |c| > 0 && c[0].key != k {
      FindIndexSameKeys(c[1..], d[1..], k);
    }
  }

  /** `bucket_index(map, hash)`: the slot a hash selects. */
  function BucketIndex<K, V>(m: HashMap<K, V>, hash: u64): (b: nat)
    requires |m.buckets| > 0
    ensures b < |m.buckets|
  {
    hash % |m.buckets|
  }

  /** `lookup(map, key)` (common.c:590-605): walk the chain of the key's
      bucket for the first entry with that key. */
  function Lookup<K(==), V(==)>(m: HashMap<K, V>, hasher: K -> u64, k: K): (r: Option<V>)
    requires |m.buckets| > 0
    ensures r.Some? ==> exists e | e in Flatten(m.buckets) :: e.key == k && e.value == r.value
  {
    var c := m.buckets[BucketIndex(m, hasher(k))];
    var r := Find(c, k);
    if r.Some? then
      var i :| 0 <= i < |c| && c[i].key == k && c[i].value == r.value;
      FlattenMember(m.buckets, c[i]);
      r
    else r
  }

  /** In a valid map every entry with key `k` lies in bucket `hasher(k) mod cap`. */
  lemma KeyInItsBucket<K, V>(m: HashMap<K, V>, hasher: K -> u64, e: Entry<K, V>, b: nat)
    requires Valid(m, hasher) && b < |m.buckets| && e in m.buckets[b]
    ensures b == BucketIndex(m, hasher(e.key))
  {
  }

  /** Looking in one bucket finds what a scan of the whole map would find. */
  lemma LookupIsFind<K, V>(m: HashMap<K, V>, hasher: K -> u64, k: K)
    requires Valid(m, hasher)
    ensures Lookup(m, hasher, k) == Find(Flatten(m.buckets), k)
  {
    var bs := m.buckets;
    var b0 := BucketIndex(m, hasher(k));
    FlattenAt(bs, b0);
    forall e | e in Flatten(bs[..b0])
      ensures e.key != k
    {
      FlattenMember(bs[..b0], e);
      var b :| 0 <= b < b0 && e in bs[..b0][b];
      assert e in bs[b];
    }
    forall e | e in Flatten(bs[b0 + 1..])
      ensures e.key != k
    {
      FlattenMember(bs[b0 + 1..], e);
      var b :| 0 <= b < |bs| - b0 - 1 && e in bs[b0 + 1..][b];
      assert e in bs[b0 + 1 + b];
    }
    FindNone(Flatten(bs[..b0]), k);
    FindNone(Flatten(bs[b0 + 1..]), k);
    FindConcat(Flatten(bs[..b0]), bs[b0], k);
    FindConcat(Flatten(bs[..b0]) + bs[b0], Flatten(bs[b0 + 1..]), k);
  }

  lemma DistinctConcat<K, V>(a: seq<Entry<K, V>>, c: seq<Entry<K, V>>)
    requires DistinctKeys(a) && DistinctKeys(c)
    requires forall x, y | x in a && y in c :: x.key != y.key
    ensures DistinctKeys(a + c)
  {
    forall i, j | 0 <= i < j < |a + c|
      ensures (a + c)[i].key != (a + c)[j].key
    {
      if j < |a| {
        assert (a + c)[i] == a[i] && (a + c)[j] == a[j];
      } else if i >= |a| {
        assert (a + c)[i] == c[i - |a|] && (a + c)[j] == c[j - |a|];
      } else {
        assert (a + c)[i] in a && (a + c)[j] in c;
      }
    }
  }

  lemma {:induction false} DistinctPrefix<K, V>(m: HashMap<K, V>, hasher: K -> u64, p: nat)
    requires Valid(m, hasher) && p <= |m.buckets|
    ensures DistinctKeys(Flatten(m.buckets[..p]))
    ensures forall e | e in Flatten(m.buckets[..p]) :: e.hash == hasher(e.key) && BucketIndex(m, e.hash) < p
    decreases p
  {
    var bs := m.buckets;
    if p > 0 {
      DistinctPrefix(m, hasher, p - 1);
      assert bs[..p][..p - 1] == bs[..p - 1];
      var a := Flatten(bs[..p - 1]);
      assert Flatten(bs[..p]) == a + bs[p - 1];
      forall e | e in Flatten(bs[..p])
        ensures e.hash == hasher(e.key) && BucketIndex(m, e.hash) < p
      {
        if e !in a {
          assert e in bs[p - 1];
        }
      }
      forall x, y | x in a && y in bs[p - 1]
        ensures x.key != y.key
      {
        assert BucketIndex(m, x.hash) < p - 1;
      }
      DistinctConcat(a, bs[p - 1]);
    }
  }

  /** Keys are distinct across the whole map, not only within each chain. */
  lemma DistinctFlatten<K, V>(m: HashMap<K, V>, hasher: K -> u64)
    requires Valid(m, hasher)
    ensures DistinctKeys(Flatten(m.buckets))
  {
    DistinctPrefix(m, hasher, |m.buckets|);
    assert m.buckets[..|m.buckets|] == m.buckets;
  }

  /** The repopulation loop of the rehash (common.c:563-583): each entry, in
      the order collected, goes to the tail of the chain its hash selects
      among `n` buckets. */
  function Redistribute<K, V>(es: seq<Entry<K, V>>, n: nat): (bs: seq<Chain<K, V>>)
    requires n > 0
    ensures |bs| == n
  {
    if |es| == 0 then EmptyBuckets(n)
    else
      var bs := Redistribute(es[..|es| - 1], n);
      var e := es[|es| - 1];
      var b := e.hash % n;
      bs[b := bs[b] + [e]]
  }

  lemma {:induction false} RedistributePlaces<K, V>(es: seq<Entry<K, V>>, n: nat)
    requires n > 0
    ensures forall b, e | 0 <= b < n && e in Redistribute(es, n)[b] :: e in es && e.hash % n == b
    decreases |es|
  {
    if |es| > 0 {
      var init := es[..|es| - 1];
      var e := es[|es| - 1];
      var bs := Redistribute(init, n);
      RedistributePlaces(init, n);
      forall b, x | 0 <= b < n && x in Redistribute(es, n)[b]
        ensures x in es && x.hash % n == b
      {
        if b == e.hash % n && x !in bs[b] {
          assert x == e;
        } else {
          assert x in bs[b];
          assert x in init;
        }
      }
    }
  }

  lemma {:induction false} RedistributeMultiset<K, V>(es: seq<Entry<K, V>>, n: nat)
    requires n > 0
    ensures multiset(Flatten(Redistribute(es, n))) == multiset(es)
    decreases |es|
  {
    if |es| == 0 {
      FlattenEmpty<K, V>(n);
    } else {
      var init := es[..|es| - 1];
      var bs := Redistribute(init, n);
      var e := es[|es| - 1];
      var b := e.hash % n;
      assert Redistribute(es, n) == bs[b := bs[b] + [e]];
      RedistributeMultiset(init, n);
      FlattenAppendMultiset(bs, b, e);
      assert es == init + [e];
    }
  }

  lemma {:induction false} RedistributeDistinct<K, V>(es: seq<Entry<K, V>>, n: nat)
    requires n > 0 && DistinctKeys(es)
    ensures forall b | 0 <= b < n :: DistinctKeys(Redistribute(es, n)[b])
    decreases |es|
  {
    if |es| > 0 {
      var init := es[..|es| - 1];
      var e := es[|es| - 1];
      var bs := Redistribute(init, n);
      RedistributeDistinct(init, n);
      RedistributePlaces(init, n);
      var b := e.hash % n;
      forall x: Entry<K, V>, y: Entry<K, V> | x in bs[b] && y in [e]
        ensures x.key != y.key
      {
        var i :| 0 <= i < |init| && init[i] == x;
        assert es[i] == x && es[|es| - 1] == e;
      }
      DistinctConcat(bs[b], [e]);
    }
  }

  /** Redistribution keeps what a search for `k` finds, in the bucket all
      entries with key `k` go to. */
  lemma {:induction false} RedistributeFind<K, V>(es: seq<Entry<K, V>>, n: nat, k: K, h: u64)
    requires n > 0
    requires forall e | e in es && e.key == k :: e.hash == h
    ensures Find(Redistribute(es, n)[h % n], k) == Find(es, k)
    decreases |es|
  {
    if |es| > 0 {
      var init := es[..|es| - 1];
      var e := es[|es| - 1];
      assert es == init + [e];
      RedistributeFind(init, n, k, h);
      FindAppend(init, e, k);
      var bs := Redistribute(init, n);
      if e.hash % n == h % n {
        FindAppend(bs[h % n], e, k);
      }
    }
  }

  /** The rehash (common.c:531-587): collect every entry bucket by bucket,
      chain by chain, and redistribute them over `n` buckets. `len` is kept. */
  function Rehash<K, V>(m: HashMap<K, V>, n: nat): (r: HashMap<K, V>)
    requires n > 0
    ensures |r.buckets| == n && r.len == m.len
    ensures multiset(Flatten(r.buckets)) == multiset(Flatten(m.buckets))
    ensures forall b, e | 0 <= b < n && e in r.buckets[b] :: e.hash % n == b
  {
    var es := Flatten(m.buckets);
    RedistributeMultiset(es, n);
    RedistributePlaces(es, n);
    HashMap(Redistribute(es, n), m.len)
  }

  /** Rehashing a valid map gives a valid map with the same lookups. */
  lemma RehashPreserves<K, V>(m: HashMap<K, V>, hasher: K -> u64, n: nat)
    requires Valid(m, hasher) && n > 0
    ensures Valid(Rehash(m, n), hasher)
    ensures forall k :: Lookup(Rehash(m, n), hasher, k) == Lookup(m, hasher, k)
  {
    var es := Flatten(m.buckets);
    var r := Rehash(m, n);
    DistinctFlatten(m, hasher);
    RedistributeDistinct(es, n);
    forall b, e | 0 <= b < n && e in r.buckets[b]
      ensures e.hash != 0 && e.hash == hasher(e.key)
    {
      assert e in multiset(Flatten(r.buckets)) by {
        FlattenMember(r.buckets, e);
      }
      FlattenMember(m.buckets, e);
    }
    assert |Flatten(r.buckets)| == |es| by {
      assert |multiset(Flatten(r.buckets))| == |multiset(es)|;
    }
    forall k
      ensures Lookup(r, hasher, k) == Lookup(m, hasher, k)
    {
      forall e | e in es && e.key == k
        ensures e.hash == hasher(k)
      {
        FlattenMember(m.buckets, e);
      }
      RedistributeFind(es, n, k, hasher(k));
      LookupIsFind(m, hasher, k);
    }
  }

  /* ---------------------------------------------------------------
     associate
     --------------------------------------------------------------- */

  /** Where `associate` puts a pair before it looks at the load factor
      (common.c:492-529): an entry with the key already in the chain gets
      the new value in place; otherwise a new entry goes to the chain's
      tail and `len` grows by one. */
  function Place<K(==), V(==)>(m: HashMap<K, V>, hasher: K -> u64, k: K, v: V): (r: HashMap<K, V>)
    requires |m.buckets| > 0
    ensures |r.buckets| == |m.buckets|
    ensures forall b | 0 <= b < |m.buckets| && b != BucketIndex(m, hasher(k)) :: r.buckets[b] == m.buckets[b]
    ensures var c, d := m.buckets[BucketIndex(m, hasher(k))], r.buckets[BucketIndex(m, hasher(k))];
            Find(c, k).None? ==> r.len == m.len + 1 && d == c + [Entry(hasher(k), k, v)]
    ensures var c, d := m.buckets[BucketIndex(m, hasher(k))], r.buckets[BucketIndex(m, hasher(k))];
            Find(c, k).Some? ==>
              && r.len == m.len && |d| == |c|
              && (forall i | 0 <= i < |c| :: d[i].key == c[i].key && d[i].hash == c[i].hash)
              && (forall i | 0 <= i < |c| && c[i].key != k :: d[i] == c[i])
  {
    var h := hasher(k);
    var b := BucketIndex(m, h);
    var c := m.buckets[b];
    match FindIndex(c, k)
    case Some(j) => HashMap(m.buckets[b := c[j := c[j].(value := v)]], m.len)
    case None => HashMap(m.buckets[b := c + [Entry(h, k, v)]], m.len + 1)
  }

  /** Swapping one chain for another whose entries belong in that bucket
      and have distinct keys keeps the map valid; lookups in that bucket
      now search the new chain, and lookups elsewhere are unchanged. */
  lemma ReplaceChain<K, V>(m: HashMap<K, V>, hasher: K -> u64, b: nat, d: Chain<K, V>, len: nat)
    requires Valid(m, hasher) && b < |m.buckets|
    requires forall e | e in d :: e.hash != 0 && e.hash == hasher(e.key) && e.hash % |m.buckets| == b
    requires DistinctKeys(d)
    requires len + |m.buckets[b]| == m.len + |d|
    ensures Valid(HashMap(m.buckets[b := d], len), hasher)
    ensures forall k :: Lookup(HashMap(m.buckets[b := d], len), hasher, k) ==
                        (if BucketIndex(m, hasher(k)) == b then Find(d, k) else Lookup(m, hasher, k))
  {
    ReplaceChainValid(m, hasher, b, d, len);
    var m' := HashMap(m.buckets[b := d], len);
    forall k
      ensures Lookup(m', hasher, k) ==
              (if BucketIndex(m, hasher(k)) == b then Find(d, k) else Lookup(m, hasher, k))
    {
      assert BucketIndex(m', hasher(k)) == BucketIndex(m, hasher(k));
    }
  }

  lemma ReplaceChainValid<K, V>(m: HashMap<K, V>, hasher: K -> u64, b: nat, d: Chain<K, V>, len: nat)
    requires Valid(m, hasher) && b < |m.buckets|
    requires forall e | e in d :: e.hash != 0 && e.hash == hasher(e.key) && e.hash % |m.buckets| == b
    requires DistinctKeys(d)
    requires len + |m.buckets[b]| == m.len + |d|
    ensures Valid(HashMap(m.buckets[b := d], len), hasher)
  {
    var bs := m.buckets[b := d];
    assert Placed(bs, hasher) by {
      forall b': nat, e: Entry<K, V> | b' < |bs| && e in bs[b']
        ensures e.hash != 0 && e.hash == hasher(e.key) && e.hash % |bs| == b'
      {
        if b' != b {
          assert e in m.buckets[b'];
        }
      }
    }
    FlattenReplaceMultiset(m.buckets, b, d);
  }

  lemma PlaceFound<K, V>(m: HashMap<K, V>, hasher: K -> u64, k: K, v: V, j: nat)
    requires Valid(m, hasher)
    requires FindIndex(m.buckets[BucketIndex(m, hasher(k))], k) == Some(j)
    ensures Valid(Place(m, hasher, k, v), hasher)
    ensures Lookup(Place(m, hasher, k, v), hasher, k) == Some(v)
    ensures forall k' | k' != k :: Lookup(Place(m, hasher, k, v), hasher, k') == Lookup(m, hasher, k')
  {
    var b := BucketIndex(m, hasher(k));
    var c := m.buckets[b];
    var d := c[j := c[j].(value := v)];
    assert Place(m, hasher, k, v) == HashMap(m.buckets[b := d], m.len);
    forall e | e in d
      ensures e.hash != 0 && e.hash == hasher(e.key) && e.hash % |m.buckets| == b
    {
      var i :| 0 <= i < |d| && d[i] == e;
      assert c[i] in m.buckets[b];
    }
    forall k' ensures FindIndex(d, k') == FindIndex(c, k') {
      FindIndexSameKeys(c, d, k');
    }
    ReplaceChain(m, hasher, b, d, m.len);
  }

  lemma PlaceNew<K, V>(m: HashMap<K, V>, hasher: K -> u64, k: K, v: V)
    requires Valid(m, hasher) && hasher(k) != 0
    requires FindIndex(m.buckets[BucketIndex(m, hasher(k))], k).None?
    ensures Valid(Place(m, hasher, k, v), hasher)
    ensures Lookup(Place(m, hasher, k, v), hasher, k) == Some(v)
    ensures forall k' | k' != k :: Lookup(Place(m, hasher, k, v), hasher, k') == Lookup(m, hasher, k')
  {
    var b := BucketIndex(m, hasher(k));
    var c := m.buckets[b];
    var e := Entry(hasher(k), k, v);
    var d := c + [e];
    assert Place(m, hasher, k, v) == HashMap(m.buckets[b := d], m.len + 1);
    DistinctConcat(c, [e]);
    forall k' ensures Find(d, k') == if Find(c, k').Some? then Find(c, k') else if k == k' then Some(v) else None {
      FindAppend(c, e, k');
    }
    ReplaceChain(m, hasher, b, d, m.len + 1);
  }

  /** Placing a pair keeps the map valid, makes `k` look up `v`, and
      leaves every other key's lookup alone. */
  lemma PlacePreserves<K, V>(m: HashMap<K, V>, hasher: K -> u64, k: K, v: V)
    requires Valid(m, hasher) && hasher(k) != 0
    ensures Valid(Place(m, hasher, k, v), hasher)
    ensures Lookup(Place(m, hasher, k, v), hasher, k) == Some(v)
    ensures forall k' | k' != k :: Lookup(Place(m, hasher, k, v), hasher, k') == Lookup(m, hasher, k')
  {
    match FindIndex(m.buckets[BucketIndex(m, hasher(k))], k)
    case Some(j) => PlaceFound(m, hasher, k, v, j);
    case None => PlaceNew(m, hasher, k, v);
  }

  /** The load-factor bounds, as ratios: the rehash threshold
      `HASHMAP_LOAD_THRESHOLD` and the growth factor
      `HASHMAP_GROWTH_FACTOR`. */
  datatype Params = Params(thresholdNum: nat, thresholdDen: nat, growthNum: nat, growthDen: nat)
  {
    predicate Valid()
    {
      0 < thresholdNum && 0 < thresholdDen && 0 < growthDen < growthNum
    }
  }

  /** A threshold of 0.85 and a growth factor of 2. */
  const DEFAULT_PARAMS: Params := Params(85, 100, 2, 1)

  /** `LOAD_FACTOR < HASHMAP_LOAD_THRESHOLD` fails: entries per bucket
      have reached the threshold. */
  predicate Overloaded<K, V>(m: HashMap<K, V>, p: Params)
  {
    m.len * p.thresholdDen >= p.thresholdNum * |m.buckets|
  }

  /** The least `q` with `q * d >= a`. */
  function CeilDiv(a: nat, d: nat): (q: nat)
    requires d > 0
    ensures q * d >= a
    ensures q == 0 || (q - 1) * d < a
  {
    var q := (a + d - 1) / d;
    assert a + d - 1 == q * d + (a + d - 1) % d;
    assert (q - 1) * d == q * d - d;
    q
  }

  /** The new bucket count, `CEIL(GROWTH * (LOAD_FACTOR / THRESHOLD) * cap)`
      in exact arithmetic: the load factor times the capacity is `len`. */
  function GrownCapacity(p: Params, len: nat): nat
    requires p.Valid()
  {
    CeilDiv(p.growthNum * p.thresholdDen * len, p.growthDen * p.thresholdNum)
  }

  /** An overloaded map always gets more buckets than it had. */
  lemma GrownCapacityExceeds<K, V>(m: HashMap<K, V>, p: Params)
    requires p.Valid() && |m.buckets| > 0 && Overloaded(m, p)
    ensures GrownCapacity(p, m.len) > |m.buckets|
  {
    var cap := |m.buckets|;
    var d := p.growthDen * p.thresholdNum;
    var x := p.growthNum * p.thresholdDen * m.len;
    var tc := p.thresholdNum * cap;
    MulMono(tc, p.thresholdDen * m.len, p.growthNum);
    assert x == (p.thresholdDen * m.len) * p.growthNum;
    MulMono(p.growthDen + 1, p.growthNum, tc);
    assert (p.growthDen + 1) * tc == d * cap + tc;
    assert x > d * cap;
    var q := GrownCapacity(p, m.len);
    MulMono(q, cap, d);
  }

  /** `associate(map, key, value)` (common.c:492-588): place the pair, and
      after adding a new entry to an overloaded map, rehash it into more
      buckets. */
  function Associate<K(==,!new), V(==)>(m: HashMap<K, V>, hasher: K -> u64, p: Params, k: K, v: V): (r: HashMap<K, V>)
    requires Valid(m, hasher) && hasher(k) != 0 && p.Valid()
    ensures Valid(r, hasher)
    ensures Lookup(r, hasher, k) == Some(v)
    ensures forall k' | k' != k :: Lookup(r, hasher, k') == Lookup(m, hasher, k')
    ensures r.len == if Lookup(m, hasher, k).Some? then m.len else m.len + 1
    ensures Lookup(m, hasher, k).Some? ==> |r.buckets| == |m.buckets|
    ensures |r.buckets| >= |m.buckets|
  {
    PlacePreserves(m, hasher, k, v);
    var placed := Place(m, hasher, k, v);
    if placed.len == m.len || !Overloaded(placed, p) then placed
    else
      GrownCapacityExceeds(placed, p);
      var n := GrownCapacity(p, placed.len);
      RehashPreserves(placed, hasher, n);
      Rehash(placed, n)
  }

  /** The rehash fires exactly when a new key pushes the load factor to
      the threshold. */
  lemma AssociateRehashes<K(!new), V>(m: HashMap<K, V>, hasher: K -> u64, p: Params, k: K, v: V)
    requires Valid(m, hasher) && hasher(k) != 0 && p.Valid()
    ensures |Associate(m, hasher, p, k, v).buckets| != |m.buckets| <==>
            Lookup(m, hasher, k).None? && (m.len + 1) * p.thresholdDen >= p.thresholdNum * |m.buckets|
  {
    var placed := Place(m, hasher, k, v);
    if placed.len != m.len && Overloaded(placed, p) {
      GrownCapacityExceeds(placed, p);
    }
  }

  /* ---------------------------------------------------------------
     drop
     --------------------------------------------------------------- */

  /** A chain with every entry under key `k` filtered out, the rest kept
      in order. */
  function Without<K(==), V>(c: Chain<K, V>, k: K): (r: Chain<K, V>)
    ensures forall e | e in r :: e in c && e.key != k
    ensures forall e | e in c && e.key != k :: e in r
  {
    if |c| == 0 then []
    else (if c[0].key == k then [] else [c[0]]) + Without(c[1..], k)
  }

  lemma {:induction false} WithoutAbsent<K, V>(c: Chain<K, V>, k: K)
    requires forall e | e in c :: e.key != k
    ensures Without(c, k) == c
    decreases |c|
  {
    if |c| > 0 {
      WithoutAbsent(c[1..], k);
      assert c == [c[0]] + c[1..];
    }
  }

  /** In a chain with distinct keys, filtering out `k` is unlinking its one entry. */
  lemma {:induction false} WithoutUnlinks<K, V>(c: Chain<K, V>, j: nat)
    requires DistinctKeys(c) && j < |c|
    ensures Without(c, c[j].key) == c[..j] + c[j + 1..]
    decreases j
  {
    var k := c[j].key;
    if j == 0 {
      forall e | e in c[1..] ensures e.key != k {
        var i :| 0 <= i < |c[1..]| && c[1..][i] == e;
        assert c[i + 1] == e;
      }
      WithoutAbsent(c[1..], k);
    } else {
      var tail := c[1..];
      assert tail[j - 1] == c[j];
      assert DistinctKeys(tail) by {
        forall a, b | 0 <= a < b < |tail| ensures tail[a].key != tail[b].key {
          assert tail[a] == c[a + 1] && tail[b] == c[b + 1];
        }
      }
      WithoutUnlinks(tail, j - 1);
      assert c[0].key != k;
      UnlinkAfterHead(c, j);
    }
  }

  lemma UnlinkAfterHead<T>(c: seq<T>, j: nat)
    requires 0 < j < |c|
    ensures c[..j] + c[j + 1..] == [c[0]] + (c[1..][..j - 1] + c[1..][j..])
  {
  }

  lemma {:induction false} FindWithout<K, V>(c: Chain<K, V>, k: K, k': K)
    requires k' != k
    ensures Find(Without(c, k), k') == Find(c, k')
    decreases |c|
  {
    if |c| > 0 {
      FindWithout(c[1..], k, k');
      if c[0].key == k {
        FindTail(c, k');
        assert Without(c, k) == Without(c[1..], k);
      } else {
        var w := Without(c, k);
        assert w == [c[0]] + Without(c[1..], k);
        assert w[1..] == Without(c[1..], k);
        if c[0].key != k' {
          FindTail(c, k');
          FindTail(w, k');
        }
      }
    }
  }

  lemma DistinctUnlink<K, V>(c: Chain<K, V>, j: nat)
    requires DistinctKeys(c) && j < |c|
    ensures DistinctKeys(c[..j] + c[j + 1..])
  {
    var d := c[..j] + c[j + 1..];
    forall x, y | 0 <= x < y < |d| ensures d[x].key != d[y].key {
      var x', y' := if x < j then x else x + 1, if y < j then y else y + 1;
      assert d[x] == c[x'] && d[y] == c[y'];
    }
  }

  /** Only the key's own bucket can hold it. */
  lemma OtherBucketsWithout<K, V>(m: HashMap<K, V>, hasher: K -> u64, k: K)
    requires Valid(m, hasher)
    ensures forall i | 0 <= i < |m.buckets| && i != BucketIndex(m, hasher(k)) ::
              m.buckets[i] == Without(m.buckets[i], k)
  {
    forall i | 0 <= i < |m.buckets| && i != BucketIndex(m, hasher(k))
      ensures m.buckets[i] == Without(m.buckets[i], k)
    {
      WithoutAbsent(m.buckets[i], k);
    }
  }

  /** The map with entry `j` of bucket `b` unlinked. */
  function Unlink<K, V>(m: HashMap<K, V>, b: nat, j: nat): HashMap<K, V>
    requires b < |m.buckets| && j < |m.buckets[b]| && m.len > 0
  {
    HashMap(m.buckets[b := m.buckets[b][..j] + m.buckets[b][j + 1..]], m.len - 1)
  }

  lemma DropFoundValid<K, V>(m: HashMap<K, V>, hasher: K -> u64, k: K, j: nat)
    requires Valid(m, hasher)
    requires FindIndex(m.buckets[BucketIndex(m, hasher(k))], k) == Some(j)
    ensures m.len > 0
    ensures Valid(Unlink(m, BucketIndex(m, hasher(k)), j), hasher)
    ensures forall k' :: Lookup(Unlink(m, BucketIndex(m, hasher(k)), j), hasher, k') ==
                         (if BucketIndex(m, hasher(k')) == BucketIndex(m, hasher(k))
                          then Find(m.buckets[BucketIndex(m, hasher(k))][..j] + m.buckets[BucketIndex(m, hasher(k))][j + 1..], k')
                          else Lookup(m, hasher, k'))
  {
    var b := BucketIndex(m, hasher(k));
    var c := m.buckets[b];
    DistinctUnlink(c, j);
    FlattenAt(m.buckets, b);
    ReplaceChain(m, hasher, b, c[..j] + c[j + 1..], m.len - 1);
  }

  lemma DropFound<K, V>(m: HashMap<K, V>, hasher: K -> u64, k: K, j: nat)
    requires Valid(m, hasher)
    requires FindIndex(m.buckets[BucketIndex(m, hasher(k))], k) == Some(j)
    ensures m.len > 0
    ensures var r := Unlink(m, BucketIndex(m, hasher(k)), j);
            && Valid(r, hasher)
            && Lookup(r, hasher, k) == None
            && (forall k' | k' != k :: Lookup(r, hasher, k') == Lookup(m, hasher, k'))
            && (forall i | 0 <= i < |m.buckets| :: r.buckets[i] == Without(m.buckets[i], k))
  {
    var b := BucketIndex(m, hasher(k));
    var c := m.buckets[b];
    DropFoundValid(m, hasher, k, j);
    WithoutUnlinks(c, j);
    FindNone(c[..j] + c[j + 1..], k);
    forall k' | k' != k ensures Find(c[..j] + c[j + 1..], k') == Find(c, k') {
      FindWithout(c, k, k');
    }
    OtherBucketsWithout(m, hasher, k);
  }

  lemma DropMissing<K, V>(m: HashMap<K, V>, hasher: K -> u64, k: K)
    requires Valid(m, hasher)
    requires FindIndex(m.buckets[BucketIndex(m, hasher(k))], k).None?
    ensures forall i | 0 <= i < |m.buckets| :: m.buckets[i] == Without(m.buckets[i], k)
  {
    OtherBucketsWithout(m, hasher, k);
    WithoutAbsent(m.buckets[BucketIndex(m, hasher(k))], k);
  }

  /** `drop(map, key)` (common.c:607-652): unlink the entry with the key
      from its chain. The result says whether there was one. */
  function Drop<K(==,!new), V(==)>(m: HashMap<K, V>, hasher: K -> u64, k: K): (r: (bool, HashMap<K, V>))
    requires Valid(m, hasher)
    ensures r.0 <==> Lookup(m, hasher, k).Some?
    ensures !r.0 ==> r.1 == m
    ensures r.0 ==> r.1.len == m.len - 1
    ensures Valid(r.1, hasher)
    ensures Lookup(r.1, hasher, k) == None
    ensures forall k' | k' != k :: Lookup(r.1, hasher, k') == Lookup(m, hasher, k')
    ensures |r.1.buckets| == |m.buckets|
    ensures forall i | 0 <= i < |m.buckets| :: r.1.buckets[i] == Without(m.buckets[i], k)
  {
    var b := BucketIndex(m, hasher(k));
    var c := m.buckets[b];
    match FindIndex(c, k)
    case None =>
      DropMissing(m, hasher, k);
      (false, m)
    case Some(j) =>
      DropFound(m, hasher, k, j);
      (true, Unlink(m, b, j))
  }

  /** Dropping a key just associated removes it again: the lookups are those
      of the map before, with the key dropped. */
  lemma DropAfterAssociate<K(!new), V>(m: HashMap<K, V>, hasher: K -> u64, p: Params, k: K, v: V)
    requires Valid(m, hasher) && hasher(k) != 0 && p.Valid()
    ensures var a := Associate(m, hasher, p, k, v);
            var d := Drop(a, hasher, k);
            d.0 && d.1.len == Drop(m, hasher, k).1.len &&
            forall k' :: Lookup(d.1, hasher, k') == Lookup(Drop(m, hasher, k).1, hasher, k')
  {
    var a := Associate(m, hasher, p, k, v);
    var d := Drop(a, hasher, k);
    var d0 := Drop(m, hasher, k);
    assert d.0 && d.1.len == a.len - 1;
    if Lookup(m, hasher, k).Some? {
      assert a.len == m.len && d0.1.len == m.len - 1;
    } else {
      assert a.len == m.len + 1 && d0.1 == m;
    }
    forall k'
      ensures Lookup(d.1, hasher, k') == Lookup(d0.1, hasher, k')
    {
      if k' != k {
        assert Lookup(d.1, hasher, k') == Lookup(a, hasher, k');
        assert Lookup(d0.1, hasher, k') == Lookup(m, hasher, k');
      }
    }
  }

  /* ---------------------------------------------------------------
     Whole-map walks: get_keys, has_key, is_empty_map, empty_map
     --------------------------------------------------------------- */

  /** One more bucket walked. */
  lemma FlattenStep<K, V>(bs: seq<Chain<K, V>>, b: nat)
    requires b < |bs|
    ensures Flatten(bs[..b + 1]) == Flatten(bs[..b]) + bs[b]
  {
    assert bs[..b + 1][..b] == bs[..b];
  }

  /** `get_keys(map)` (common.c:654-674): the keys bucket by bucket, chain
      by chain, into a slice of `len` keys. Its closing assertion that as
      many keys were written as `len` says fails as `None`. */
  method GetKeys<K(==), V(==)>(m: HashMap<K, V>, ghost hasher: K -> u64) returns (r: Option<seq<K>>)
    ensures r.Some? <==> |Flatten(m.buckets)| == m.len
    ensures r.Some? ==> |r.value| == m.len &&
                        forall i | 0 <= i < m.len :: r.value[i] == Flatten(m.buckets)[i].key
    ensures Valid(m, hasher) ==> r.Some?
    ensures Valid(m, hasher) && r.Some? ==>
              (forall i, j | 0 <= i < j < |r.value| :: r.value[i] != r.value[j]) &&
              (forall k :: k in r.value <==> Lookup(m, hasher, k).Some?)
  {
    var keys: seq<K> := [];
    ghost var seen: seq<Entry<K, V>> := [];
    for b := 0 to |m.buckets|
      invariant seen == Flatten(m.buckets[..b])
      invariant |keys| == |seen| && forall i | 0 <= i < |keys| :: keys[i] == seen[i].key
    {
      var chain := m.buckets[b];
      for j := 0 to |chain|
        invariant seen == Flatten(m.buckets[..b]) + chain[..j]
        invariant |keys| == |seen| && forall i | 0 <= i < |keys| :: keys[i] == seen[i].key
      {
        keys := keys + [chain[j].key];
        seen := seen + [chain[j]];
        assert chain[..j + 1] == chain[..j] + [chain[j]];
      }
      assert chain[..|chain|] == chain;
      FlattenStep(m.buckets, b);
    }
    assert m.buckets[..|m.buckets|] == m.buckets;
    if |keys| != m.len {
      return None;
    }
    if Valid(m, hasher) {
      DistinctFlatten(m, hasher);
      forall k ensures k in keys <==> Lookup(m, hasher, k).Some? {
        LookupIsFind(m, hasher, k);
        if k in keys {
          var i :| 0 <= i < |keys| && keys[i] == k;
          assert seen[i].key == k;
        }
      }
    }
    return Some(keys);
  }

  /** `get_keys(map)` with the `arrayof`/`sliceof` layouts of common.h:48-57: `ks` is a slice
      `{len, value}` (common.c:657-660), but `set` reads it as an array
      `{len, cap, value}` (common.c:233-236). The keys are copied through the
      word after `ks`, which is not modelled, and the returned slice keeps the
      zero bytes `emalloc` gave it. `zero` is the key whose bytes are all
      zero. */
  function GetKeysAsWritten<K, V>(m: HashMap<K, V>, zero: K): Option<seq<K>>
  {
    if |Flatten(m.buckets)| == m.len then Some(seq(m.len, _ => zero)) else None
  }

  /** As written, a valid map hands back none of its keys other than the
      all-zero key. */
  lemma GetKeysAsWrittenLosesKeys<K, V>(m: HashMap<K, V>, hasher: K -> u64, zero: K, k: K)
    requires Valid(m, hasher) && Lookup(m, hasher, k).Some? && k != zero
    ensures GetKeysAsWritten(m, zero).Some?
    ensures k !in GetKeysAsWritten(m, zero).value
  {
  }

  /** `has_key(map, key)` (common.c:676-690): a walk over every bucket and
      chain, not the key's own bucket only. */
  method HasKey<K(==), V>(m: HashMap<K, V>, ghost hasher: K -> u64, k: K) returns (r: bool)
    ensures r <==> exists e | e in Flatten(m.buckets) :: e.key == k
    ensures Valid(m, hasher) ==> (r <==> Lookup(m, hasher, k).Some?)
  {
    ghost var seen: seq<Entry<K, V>> := [];
    r := false;
    for b := 0 to |m.buckets|
      invariant seen == Flatten(m.buckets[..b])
      invariant forall e | e in seen :: e.key != k
    {
      var chain := m.buckets[b];
      for j := 0 to |chain|
        invariant seen == Flatten(m.buckets[..b]) + chain[..j]
        invariant forall e | e in seen :: e.key != k
      {
        if chain[j].key == k {
          FlattenMember(m.buckets, chain[j]);
          r := true;
          break;
        }
        seen := seen + [chain[j]];
        assert chain[..j + 1] == chain[..j] + [chain[j]];
      }
      if r {
        break;
      }
      assert chain[..|chain|] == chain;
      FlattenStep(m.buckets, b);
    }
    if !r {
      assert m.buckets[..|m.buckets|] == m.buckets;
    }
    if Valid(m, hasher) {
      LookupIsFind(m, hasher, k);
    }
  }

  /** `is_empty_map(map)` (common.c:710-721): no bucket slot is populated. */
  method IsEmptyMap<K, V>(m: HashMap<K, V>, ghost hasher: K -> u64) returns (r: bool)
    ensures r <==> Flatten(m.buckets) == []
    ensures Valid(m, hasher) ==> (r <==> m.len == 0)
  {
    for b := 0 to |m.buckets|
      invariant Flatten(m.buckets[..b]) == []
    {
      FlattenStep(m.buckets, b);
      if m.buckets[b] != [] {
        FlattenAt(m.buckets, b);
        return false;
      }
    }
    assert m.buckets[..|m.buckets|] == m.buckets;
    return true;
  }

  /** `empty_map(map)` (common.c:692-708) with the entry counter reset:
      every slot unpopulated and `len` zero. */
  function EmptyMap<K, V>(m: HashMap<K, V>): (r: HashMap<K, V>)
    ensures |r.buckets| == |m.buckets| && r.len == 0
    ensures Flatten(r.buckets) == []
  {
    FlattenEmpty<K, V>(|m.buckets|);
    HashMap(EmptyBuckets(|m.buckets|), 0)
  }

  /** A cleared map is valid and finds nothing. */
  lemma EmptyMapClears<K, V>(m: HashMap<K, V>, hasher: K -> u64, k: K)
    requires |m.buckets| > 0
    ensures Valid(EmptyMap(m), hasher)
    ensures Lookup(EmptyMap(m), hasher, k) == None
  {
  }

  /** `empty_map` as written: the slots are cleared but `len` is kept. */
  function EmptyMapAsWritten<K, V>(m: HashMap<K, V>): (r: HashMap<K, V>)
    ensures |r.buckets| == |m.buckets| && r.len == m.len
    ensures Flatten(r.buckets) == []
  {
    FlattenEmpty<K, V>(|m.buckets|);
    HashMap(EmptyBuckets(|m.buckets|), m.len)
  }

  /** After the as-written `empty_map` on a non-empty map, the counter no
      longer matches the entries: the map is not valid and `get_keys`
      fails its closing assertion. */
  lemma EmptyMapAsWrittenKeepsLen<K, V>(m: HashMap<K, V>, hasher: K -> u64)
    requires m.len > 0
    ensures !Valid(EmptyMapAsWritten(m), hasher)
    ensures |Flatten(EmptyMapAsWritten(m).buckets)| != EmptyMapAsWritten(m).len
  {
  }
}
