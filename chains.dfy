/**
 * The pure part of `collections.HashTable`: buckets holding collision chains of
 * key/value entries, how a chain is searched, and how the chains line up when
 * they are walked bucket by bucket.
 */
module Chains {
  import opened Wrappers

  datatype Entry<K, V> = Entry(key: K, value: V)

  /** A bucket of the table: `None` until the first key hashing to it is added. */
  type Bucket<K, V> = Option<seq<Entry<K, V>>>

  /** The chain of a bucket; a bucket without a list holds no entries. */
  function Items<K, V>(b: Bucket<K, V>): seq<Entry<K, V>>
  {
    if b.Some? then b.value else []
  }

  /** All entries, bucket 0 first and each chain in order: the order the key iterator walks. */
  function Flatten<K, V>(bs: seq<Bucket<K, V>>): seq<Entry<K, V>>
  {
    if |bs| == 0 then [] else Flatten(bs[..|bs| - 1]) + Items(bs[|bs| - 1])
  }

  /** The value of the first entry whose key is `k`, as the chain scan in `get` finds it. */
  function Lookup<K(==), V>(es: seq<Entry<K, V>>, k: K): Option<V>
  {
    if |es| == 0 then None
    else if es[0].key == k then Some(es[0].value)
    else Lookup(es[1..], k)
  }

  ghost predicate HasKey<K, V>(es: seq<Entry<K, V>>, k: K)
  {
    exists i :: 0 <= i < |es| && es[i].key == k
  }

  ghost predicate DistinctKeys<K, V>(es: seq<Entry<K, V>>)
  {
    forall i, j :: 0 <= i < j < |es| ==> es[i].key != es[j].key
  }

  /**
   * The bucket of a hash among n buckets, normalised to [0, n): Dafny's `%` is
   * Euclidean, so a negative hash still lands in range.
   */
  function BucketOf(h: int, n: nat): (b: nat)
    requires n > 0
    ensures b < n
    ensures h >= 0 ==> b == JavaRemainder(h, n)
  {
    h % n
  }

  /** Java's `%` on `int`: truncates toward zero, so its sign follows the dividend. */
  function JavaRemainder(h: int, n: nat): (r: int)
    requires n > 0
    ensures -(n as int) < r < n
    ensures r < 0 ==> h < 0
  {
    if h >= 0 then h % n else -((-h) % n)
  }

  /** Java's `key.hashCode() % buckets` is a negative array index for a hash code of -1. */
  lemma JavaBucketCanBeNegative()
    ensures JavaRemainder(-1, 512) == -1
    ensures BucketOf(-1, 512) == 511
  {
  }

  /** A chain of bucket `c`: distinct keys, every key hashing to `c`. */
  ghost predicate ChainOk<K, V>(es: seq<Entry<K, V>>, c: nat, hash: K -> int, n: nat)
    requires n > 0
  {
    DistinctKeys(es) && forall i :: 0 <= i < |es| ==> BucketOf(hash(es[i].key), n) == c
  }

  ghost predicate ChainsOk<K, V>(bs: seq<Bucket<K, V>>, hash: K -> int, n: nat)
    requires n > 0
  {
    forall c :: 0 <= c < |bs| ==> ChainOk(Items(bs[c]), c, hash, n)
  }

  /** The scan finds a value exactly when some entry carries the key, and then the key's entry. */
  lemma {:induction false} LookupFound<K, V>(es: seq<Entry<K, V>>, k: K)
    ensures Lookup(es, k).Some? <==> HasKey(es, k)
    ensures Lookup(es, k).Some? ==> exists i :: 0 <= i < |es| && es[i] == Entry(k, Lookup(es, k).value)
  {
    if |es| > 0 && es[0].key != k {
      LookupFound(es[1..], k);
      if HasKey(es, k) {
        var i :| 0 <= i < |es| && es[i].key == k;
        assert es[1..][i - 1].key == k;
      }
      if Lookup(es, k).Some? {
        var i :| 0 <= i < |es[1..]| && es[1..][i] == Entry(k, Lookup(es, k).value);
        assert es[i + 1] == es[1..][i];
      }
    } else if |es| > 0 {
      assert es[0] == Entry(k, Lookup(es, k).value);
    }
  }

  /** In a chain with distinct keys, the entry at position i is the one the scan finds for its key. */
  lemma {:induction false} LookupAt<K, V>(es: seq<Entry<K, V>>, i: nat)
    requires DistinctKeys(es) && i < |es|
    ensures Lookup(es, es[i].key) == Some(es[i].value)
  {
    if i > 0 {
      assert es[0].key != es[i].key;
      assert DistinctKeys(es[1..]) by {
        forall p, q | 0 <= p < q < |es[1..]| ensures es[1..][p].key != es[1..][q].key {
          assert es[1..][p] == es[p + 1] && es[1..][q] == es[q + 1];
        }
      }
      LookupAt(es[1..], i - 1);
      assert es[1..][i - 1] == es[i];
    }
  }

  /**
   * Overwriting the value of every entry whose key is k (what `add` does to a chain
   * that already holds k) changes what the scan finds for k, and for no other key.
   */
  lemma {:induction false} LookupReplaced<K, V>(es: seq<Entry<K, V>>, es': seq<Entry<K, V>>, k: K, v: V, k2: K)
    requires |es'| == |es|
    requires forall j :: 0 <= j < |es| ==> es'[j] == if es[j].key == k then Entry(k, v) else es[j]
    ensures Lookup(es', k2) == if k2 == k && HasKey(es, k) then Some(v) else if k2 == k then None else Lookup(es, k2)
  {
    LookupFound(es, k);
    if |es| > 0 {
      LookupReplaced(es[1..], es'[1..], k, v, k2);
      LookupFound(es[1..], k);
      if HasKey(es, k) && es[0].key != k {
        var i :| 0 <= i < |es| && es[i].key == k;
        assert es[1..][i - 1].key == k;
      }
      if HasKey(es[1..], k) {
        var i :| 0 <= i < |es[1..]| && es[1..][i].key == k;
        assert es[i + 1].key == k;
      }
    }
  }

  /** Appending an entry for a key the chain lacks (what `add` does otherwise). */
  lemma {:induction false} LookupAppended<K, V>(es: seq<Entry<K, V>>, k: K, v: V, k2: K)
    requires !HasKey(es, k)
    ensures Lookup(es + [Entry(k, v)], k2) == if k2 == k then Some(v) else Lookup(es, k2)
  {
    if |es| == 0 {
      assert es + [Entry(k, v)] == [Entry(k, v)];
    } else {
      assert (es + [Entry(k, v)])[1..] == es[1..] + [Entry(k, v)];
      assert es[0].key != k;
      LookupAppended(es[1..], k, v, k2);
    }
  }

  lemma {:induction false} FlattenAppend<K, V>(a: seq<Bucket<K, V>>, b: seq<Bucket<K, V>>)
    ensures Flatten(a + b) == Flatten(a) + Flatten(b)
  {
    if |b| > 0 {
      var m := |b| - 1;
      assert (a + b)[..|a + b| - 1] == a + b[..m];
      assert (a + b)[|a + b| - 1] == b[m];
      FlattenAppend(a, b[..m]);
    } else {
      assert a + b == a;
    }
  }

  lemma FlattenSingle<K, V>(b: Bucket<K, V>)
    ensures Flatten([b]) == Items(b)
  {
    assert [b][..0] == [];
  }

  /** Replacing one bucket changes the number of entries by the difference of the chain lengths. */
  lemma FlattenUpdateLength<K, V>(bs: seq<Bucket<K, V>>, c: nat, x: Bucket<K, V>)
    requires c < |bs|
    ensures |Flatten(bs[c := x])| == |Flatten(bs)| - |Items(bs[c])| + |Items(x)|
  {
    assert bs == bs[..c] + [bs[c]] + bs[c + 1..];
    assert bs[c := x] == bs[..c] + [x] + bs[c + 1..];
    FlattenAppend(bs[..c] + [bs[c]], bs[c + 1..]);
    FlattenAppend(bs[..c], [bs[c]]);
    FlattenAppend(bs[..c] + [x], bs[c + 1..]);
    FlattenAppend(bs[..c], [x]);
    FlattenSingle(bs[c]);
    FlattenSingle(x);
  }

  /** Entry i of bucket c sits at position |Flatten(bs[..c])| + i of the walk. */
  lemma {:induction false} FlattenIndex<K, V>(bs: seq<Bucket<K, V>>, c: nat, i: nat)
    requires c < |bs| && i < |Items(bs[c])|
    ensures |Flatten(bs[..c])| + i < |Flatten(bs)|
    ensures Flatten(bs)[|Flatten(bs[..c])| + i] == Items(bs[c])[i]
  {
    var init := bs[..|bs| - 1];
    if c < |bs| - 1 {
      FlattenIndex(init, c, i);
      assert init[..c] == bs[..c] && init[c] == bs[c];
    }
  }

  /**
   * A walk position p past the end of bucket c's chain, but inside the walk, lies in a
   * later bucket: the next one starts exactly at p.
   */
  lemma NextBucket<K, V>(bs: seq<Bucket<K, V>>, c: nat, p: nat)
    requires c < |bs| && |Flatten(bs[..c])| + |Items(bs[c])| == p < |Flatten(bs)|
    ensures c + 1 < |bs| && |Flatten(bs[..c + 1])| == p
  {
    assert bs[..c + 1][..c] == bs[..c];
  }

  /** Every entry of the walk comes from some bucket's chain. */
  lemma {:induction false} FlattenMember<K, V>(bs: seq<Bucket<K, V>>, p: nat)
    requires p < |Flatten(bs)|
    ensures exists c, i :: 0 <= c < |bs| && 0 <= i < |Items(bs[c])| && Items(bs[c])[i] == Flatten(bs)[p]
  {
    var m := |bs| - 1;
    var init := bs[..m];
    if p < |Flatten(init)| {
      FlattenMember(init, p);
      var c, i :| 0 <= c < |init| && 0 <= i < |Items(init[c])| && Items(init[c])[i] == Flatten(init)[p];
      assert init[c] == bs[c];
    } else {
      var i := p - |Flatten(init)|;
      assert Items(bs[m])[i] == Flatten(bs)[p];
    }
  }

  lemma ChainsOkPrefix<K, V>(bs: seq<Bucket<K, V>>, hash: K -> int, n: nat, k: nat)
    requires n > 0 && k <= |bs| && ChainsOk(bs, hash, n)
    ensures ChainsOk(bs[..k], hash, n)
  {
    forall c | 0 <= c < k ensures ChainOk(Items(bs[..k][c]), c, hash, n) {
      assert bs[..k][c] == bs[c];
    }
  }

  /** Every key of the walk hashes into the buckets walked. */
  lemma {:induction false} FlattenBuckets<K, V>(bs: seq<Bucket<K, V>>, hash: K -> int, n: nat, p: nat)
    requires n > 0 && ChainsOk(bs, hash, n) && p < |Flatten(bs)|
    ensures BucketOf(hash(Flatten(bs)[p].key), n) < |bs|
  {
    FlattenMember(bs, p);
    var c, i :| 0 <= c < |bs| && 0 <= i < |Items(bs[c])| && Items(bs[c])[i] == Flatten(bs)[p];
    assert ChainOk(Items(bs[c]), c, hash, n);
  }

  /** Chains that are each well formed never repeat a key across the whole walk. */
  lemma {:induction false} FlattenDistinct<K, V>(bs: seq<Bucket<K, V>>, hash: K -> int, n: nat)
    requires n > 0 && ChainsOk(bs, hash, n)
    ensures DistinctKeys(Flatten(bs))
  {
    if |bs| > 0 {
      var m := |bs| - 1;
      var init := bs[..m];
      ChainsOkPrefix(bs, hash, n, m);
      FlattenDistinct(init, hash, n);
      var f, last := Flatten(init), Items(bs[m]);
      assert ChainOk(last, m, hash, n);
      forall p, q | 0 <= p < q < |Flatten(bs)| ensures Flatten(bs)[p].key != Flatten(bs)[q].key {
        if q >= |f| && p < |f| {
          FlattenBuckets(init, hash, n, p);
          assert Flatten(bs)[q] == last[q - |f|];
        } else if p >= |f| {
          assert Flatten(bs)[p] == last[p - |f|] && Flatten(bs)[q] == last[q - |f|];
        }
      }
    }
  }

  /** A table in which no bucket has a list yet holds no entries. */
  lemma {:induction false} FlattenNoLists<K, V>(bs: seq<Bucket<K, V>>)
    requires forall c :: 0 <= c < |bs| ==> bs[c] == None
    ensures Flatten(bs) == []
  {
    if |bs| > 0 {
      FlattenNoLists(bs[..|bs| - 1]);
      assert bs[|bs| - 1] == None;
    }
  }

  /**
   * The chain `add` leaves behind (the old one with the key's value overwritten, or
   * with a new entry appended when the key was missing) is still well formed in its
   * bucket, and the scan now finds the new value for the key and the old ones elsewhere.
   */
  lemma ChainAfterAdd<K, V>(chain: seq<Entry<K, V>>, list: seq<Entry<K, V>>, key: K, value: V,
                            found: bool, b: nat, hash: K -> int, n: nat)
    requires n > 0 && ChainOk(chain, b, hash, n) && BucketOf(hash(key), n) == b
    requires found <==> HasKey(chain, key)
    requires found ==> (|list| == |chain| &&
      forall j :: 0 <= j < |chain| ==> list[j] == if chain[j].key == key then Entry(key, value) else chain[j])
    requires !found ==> list == chain + [Entry(key, value)]
    ensures ChainOk(list, b, hash, n)
    ensures |list| == if found then |chain| else |chain| + 1
    ensures forall k2 :: Lookup(list, k2) == if k2 == key then Some(value) else Lookup(chain, k2)
  {
    forall j | 0 <= j < |list|
      ensures BucketOf(hash(list[j].key), n) == b && (j < |chain| ==> list[j].key == chain[j].key)
    {
    }
    forall k2 ensures Lookup(list, k2) == if k2 == key then Some(value) else Lookup(chain, k2) {
      if found {
        LookupReplaced(chain, list, key, value, k2);
      } else {
        LookupAppended(chain, key, value, k2);
      }
    }
  }

  function MapGet<K, V>(m: map<K, V>, k: K): Option<V>
  {
    if k in m then Some(m[k]) else None
  }

  /** What `get(k)` finds: the chain scan in the bucket k hashes to. */
  ghost function FindIn<K, V>(bs: seq<Bucket<K, V>>, hash: K -> int, k: K): Option<V>
    requires 0 < |bs|
  {
    Lookup(Items(bs[BucketOf(hash(k), |bs|)]), k)
  }

  /** The buckets represent the map m: for every key, the scan finds exactly m's value. */
  ghost predicate Represents<K(!new), V>(bs: seq<Bucket<K, V>>, hash: K -> int, m: map<K, V>)
    requires 0 < |bs|
  {
    forall k :: FindIn(bs, hash, k) == MapGet(m, k)
  }

  /** Storing the chain `add` built into the key's bucket represents the updated map. */
  lemma RepresentsAfterAdd<K(!new), V>(bs: seq<Bucket<K, V>>, hash: K -> int, m: map<K, V>,
                                            key: K, value: V, list: seq<Entry<K, V>>)
    requires 0 < |bs| && Represents(bs, hash, m)
    requires forall k2 :: Lookup(list, k2) == if k2 == key then Some(value) else Lookup(Items(bs[BucketOf(hash(key), |bs|)]), k2)
    ensures Represents(bs[BucketOf(hash(key), |bs|) := Some(list)], hash, m[key := value])
  {
    var b := BucketOf(hash(key), |bs|);
    var bs' := bs[b := Some(list)];
    forall k ensures FindIn(bs', hash, k) == MapGet(m[key := value], k) {
      assert FindIn(bs, hash, k) == MapGet(m, k);
    }
  }

  /**
   * The buckets of a table of n buckets with `size` entries that represents m:
   * each chain holds distinct keys of its own bucket, and `size` counts the entries.
   */
  ghost predicate TableOk<K(!new), V>(bs: seq<Bucket<K, V>>, hash: K -> int, n: nat, size: nat, m: map<K, V>)
  {
    && 0 < n && |bs| == n
    && ChainsOk(bs, hash, n)
    && size == |Flatten(bs)| && size == |m|
    && Represents(bs, hash, m)
  }

  /** In a table, the scan of the key's chain finds the key exactly when the map holds it. */
  lemma KeyFound<K(!new), V>(bs: seq<Bucket<K, V>>, hash: K -> int, n: nat, size: nat, m: map<K, V>, key: K)
    requires TableOk(bs, hash, n, size, m)
    ensures HasKey(Items(bs[BucketOf(hash(key), n)]), key) <==> key in m
  {
    LookupFound(Items(bs[BucketOf(hash(key), n)]), key);
    assert FindIn(bs, hash, key) == MapGet(m, key);
  }

  /** Storing a chain of bucket b's keys into bucket b keeps every chain well formed. */
  lemma ChainsAfterStore<K, V>(bs: seq<Bucket<K, V>>, hash: K -> int, n: nat, b: nat, list: seq<Entry<K, V>>)
    requires n > 0 && b < |bs| && ChainsOk(bs, hash, n) && ChainOk(list, b, hash, n)
    ensures ChainsOk(bs[b := Some(list)], hash, n)
  {
    var bs' := bs[b := Some(list)];
    forall c | 0 <= c < |bs'| ensures ChainOk(Items(bs'[c]), c, hash, n) {
      if c != b {
        assert bs'[c] == bs[c];
      }
    }
  }

  lemma MapSizeAfterAdd<K, V>(m: map<K, V>, key: K, value: V)
    ensures |m[key := value]| == if key in m then |m| else |m| + 1
  {
    if key !in m {
      assert m[key := value].Keys == m.Keys + {key};
    } else {
      assert m[key := value].Keys == m.Keys;
    }
  }

  /**
   * `add` keeps the table well formed: the chain of the key's bucket, rewritten or
   * extended, is stored back; the key was present exactly when the scan found it.
   */
  lemma TableAfterAdd<K(!new), V>(bs: seq<Bucket<K, V>>, hash: K -> int, n: nat, size: nat, m: map<K, V>,
                                   key: K, value: V, list: seq<Entry<K, V>>, found: bool)
    requires TableOk(bs, hash, n, size, m)
    requires found <==> HasKey(Items(bs[BucketOf(hash(key), n)]), key)
    requires var chain := Items(bs[BucketOf(hash(key), n)]);
      && (found ==> (|list| == |chain| &&
            forall j :: 0 <= j < |chain| ==> list[j] == if chain[j].key == key then Entry(key, value) else chain[j]))
      && (!found ==> list == chain + [Entry(key, value)])
    ensures found <==> key in m
    ensures TableOk(bs[BucketOf(hash(key), n) := Some(list)], hash, n, if found then size else size + 1, m[key := value])
  {
    var b := BucketOf(hash(key), n);
    KeyFound(bs, hash, n, size, m, key);
    ChainAfterAdd(Items(bs[b]), list, key, value, found, b, hash, n);
    ChainsAfterStore(bs, hash, n, b, list);
    FlattenUpdateLength(bs, b, Some(list));
    MapSizeAfterAdd(m, key, value);
    RepresentsAfterAdd(bs, hash, m, key, value, list);
  }
}
