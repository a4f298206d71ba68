/**
 * The hand-rolled collections library: a growable array list, a string builder
 * over it, and a hash table with a fixed number of buckets, each with its iterator.
 */
module Collections {
  import opened Wrappers
  import opened Joins
  import opened Chains

  // ---------------------------------------------------------------------------
  // Block moves: the uses of System.arraycopy, written out as loops.
  // ---------------------------------------------------------------------------

  /** `System.arraycopy(src, 0, dst, 0, n)` between two distinct arrays. */
  method CopyPrefix<T>(src: array<T>, dst: array<T>, n: nat)
    requires n <= src.Length && n <= dst.Length && src != dst
    modifies dst
    ensures dst[..n] == src[..n]
    ensures dst[n..] == old(dst[n..])
  {
    var k := 0;
    while k < n
      invariant 0 <= k <= n
      invariant dst[..k] == src[..k]
      invariant dst[k..] == old(dst[k..])
    {
      dst[k] := src[k];
      k := k + 1;
    }
  }

  /**
   * `System.arraycopy(a, lo, a, lo + 1, hi - lo)`: the cells [lo, hi) move up one
   * place, copied from the highest index down so that none is overwritten before
   * it is read.
   */
  method MoveUp<T>(a: array<T>, lo: nat, hi: nat)
    requires lo <= hi < a.Length
    modifies a
    ensures forall k :: 0 <= k < a.Length ==> a[k] == if lo < k <= hi then old(a[k - 1]) else old(a[k])
  {
    var k := hi;
    while k > lo
      invariant lo <= k <= hi
      invariant forall j :: 0 <= j < a.Length ==> a[j] == if k < j <= hi then old(a[j - 1]) else old(a[j])
    {
      a[k] := a[k - 1];
      k := k - 1;
    }
  }

  /**
   * `System.arraycopy(a, lo + 1, a, lo, hi - lo)`: the cells (lo, hi] move down
   * one place, copied from the lowest index up.
   */
  method MoveDown<T>(a: array<T>, lo: nat, hi: nat)
    requires lo <= hi < a.Length
    modifies a
    ensures forall k :: 0 <= k < a.Length ==> a[k] == if lo <= k < hi then old(a[k + 1]) else old(a[k])
  {
    var k := lo;
    while k < hi
      invariant lo <= k <= hi
      invariant forall j :: 0 <= j < a.Length ==> a[j] == if lo <= j < k then old(a[j + 1]) else old(a[j])
    {
      a[k] := a[k + 1];
      k := k + 1;
    }
  }

  // ---------------------------------------------------------------------------
  // ArrayList
  // ---------------------------------------------------------------------------

  /** A growable list over a backing array whose slots past `size` hold `null` (None). */
  class ArrayList<T> {
    var arr: array<Option<T>>
    var size: nat

    ghost var Contents: seq<T>
    ghost var Repr: set<object>

    ghost predicate Valid()
      reads this, Repr
      ensures Valid() ==> this in Repr
    {
      && Repr == {this, arr}
      && 0 < arr.Length
      && size <= arr.Length
      && |Contents| == size
      && forall i :: 0 <= i < arr.Length ==> arr[i] == if i < size then Some(Contents[i]) else None
    }

    /** An empty list over a backing array of the given capacity. */
    constructor (capacity: nat)
      requires capacity > 0
      ensures Valid() && fresh(Repr)
      ensures Contents == [] && arr.Length == capacity
    {
      arr := new Option<T>[capacity](_ => None);
      size := 0;
      Contents := [];
      Repr := {this, arr};
    }

    /** The default capacity is 8. */
    constructor Default()
      ensures Valid() && fresh(Repr)
      ensures Contents == [] && arr.Length == 8
    {
      arr := new Option<T>[8](_ => None);
      size := 0;
      Contents := [];
      Repr := {this, arr};
    }

    /** Moves the elements into a fresh backing array of twice the capacity. */
    method Resize()
      requires Valid()
      modifies Repr
      ensures Valid() && fresh(Repr - old(Repr))
      ensures fresh(arr) && arr.Length == 2 * old(arr.Length)
      ensures Contents == old(Contents)
    {
      var a := new Option<T>[2 * arr.Length](_ => None);
      CopyPrefix(arr, a, arr.Length);
      assert forall i :: 0 <= i < arr.Length ==> a[i] == a[..arr.Length][i];
      assert forall i :: arr.Length <= i < a.Length ==> a[i] == a[arr.Length..][i - arr.Length];
      arr := a;
      Repr := {this, arr};
    }

    /** `add(item)`: appends, doubling the capacity first when the array is full. */
    method Add(item: T)
      requires Valid()
      modifies Repr
      ensures Valid() && fresh(Repr - old(Repr))
      ensures Contents == old(Contents) + [item]
      ensures arr.Length == if old(size) == old(arr.Length) then 2 * old(arr.Length) else old(arr.Length)
    {
      if size == arr.Length {
        Resize();
      }
      arr[size] := Some(item);
      size := size + 1;
      Contents := Contents + [item];
    }

    /**
     * `add(item, i)`: inserts at index i, shifting the tail up. The growth step runs
     * before the index is checked, so an insert that throws still grows a full array.
     */
    method Insert(item: T, i: int) returns (out: Outcome)
      requires Valid()
      modifies Repr
      ensures Valid() && fresh(Repr - old(Repr))
      ensures out == if 0 <= i <= old(size) then Pass else Fail(IndexOutOfBounds)
      ensures Contents == if 0 <= i <= old(size) then old(Contents)[..i] + [item] + old(Contents)[i..] else old(Contents)
      ensures arr.Length == if old(size) == old(arr.Length) then 2 * old(arr.Length) else old(arr.Length)
    {
      if size == arr.Length {
        Resize();
      }
      if i < 0 || i > size {
        return Fail(IndexOutOfBounds);
      }
      ghost var c := Contents;
      MoveUp(arr, i, size);
      arr[i] := Some(item);
      size := size + 1;
      Contents := c[..i] + [item] + c[i..];
      forall k | 0 <= k < arr.Length
        ensures arr[k] == if k < size then Some(Contents[k]) else None
      {
        if i < k < size {
          assert Contents[k] == c[k - 1];
        }
      }
      out := Pass;
    }

    /** `get(i)`: the i-th element, or the out-of-bounds exception. */
    function Get(i: int): (r: Result<T>)
      requires Valid()
      reads Repr
      ensures r == if 0 <= i < |Contents| then Success(Contents[i]) else Failure(IndexOutOfBounds)
    {
      if i >= size || i < 0 then Failure(IndexOutOfBounds) else Success(arr[i].value)
    }

    /**
     * `remove(i)`: deletes the i-th element, shifting the tail down and writing null
     * into the vacated last slot.
     */
    method Remove(i: int) returns (out: Outcome)
      requires Valid()
      modifies Repr
      ensures Valid() && Repr == old(Repr) && arr == old(arr)
      ensures out == if 0 <= i < old(size) then Pass else Fail(IndexOutOfBounds)
      ensures Contents == if 0 <= i < old(size) then old(Contents)[..i] + old(Contents)[i + 1..] else old(Contents)
      ensures 0 <= i < old(size) ==> arr[size] == None
    {
      if i >= size || i < 0 {
        return Fail(IndexOutOfBounds);
      }
      ghost var c := Contents;
      MoveDown(arr, i, size - 1);
      size := size - 1;
      arr[size] := None;
      Contents := c[..i] + c[i + 1..];
      forall k | 0 <= k < arr.Length
        ensures arr[k] == if k < size then Some(Contents[k]) else None
      {
        if i <= k < size {
          assert Contents[k] == c[k + 1];
        }
      }
      out := Pass;
    }

    /** `size()`: the number of elements. */
    function Size(): (n: nat)
      requires Valid()
      reads Repr
      ensures n == |Contents|
    {
      size
    }

    /** A fresh iterator at index 0. */
    method Iterator() returns (it: ArrayListIterator<T>)
      requires Valid()
      ensures fresh(it) && it.list == this && it.pos == 0 && it.Valid()
    {
      it := new ArrayListIterator(this);
    }

    /** `toString()`: the items, rendered by `show`, joined with ", " by a StringBuilder. */
    method ToString(show: T -> string) returns (r: string)
      requires Valid()
      ensures r == Join(Shown(Contents, show), ", ")
    {
      var sb := new StringBuilder(", ");
      var it := Iterator();
      while it.HasNext()
        invariant it.Valid() && it.list == this && fresh(it) && it.pos <= |Contents|
        invariant sb.Valid() && fresh(sb.Repr) && it !in sb.Repr && sb.sep == ", "
        invariant sb.list.Contents == Shown(Contents[..it.pos], show)
        decreases |Contents| - it.pos
      {
        ghost var j := it.pos;
        var next := it.Next();
        var item := next.value;
        ShownStep(Contents, j, show);
        sb.Append(show(item));
      }
      assert Contents[..it.pos] == Contents;
      r := sb.ToString();
    }
  }

  /** Walks an array list in index order; mutating the list during the walk is not modelled. */
  class ArrayListIterator<T> {
    const list: ArrayList<T>
    var pos: nat

    ghost predicate Valid()
      reads this, list, list.Repr
    {
      list.Valid()
    }

    constructor (list: ArrayList<T>)
      requires list.Valid()
      ensures this.list == list && pos == 0 && Valid()
    {
      this.list := list;
      pos := 0;
    }

    /** `hasNext()`: some element of the list is still to come. */
    function HasNext(): (b: bool)
      requires Valid()
      reads this, list, list.Repr
      ensures b <==> pos < |list.Contents|
    {
      pos < list.Size()
    }

    /**
     * `next()`: the element at the cursor, which moves on by one; past the end the
     * list's `get` throws, after the cursor has moved.
     */
    method Next() returns (r: Result<T>)
      requires Valid()
      modifies this
      ensures Valid() && pos == old(pos) + 1
      ensures r == if old(pos) < |list.Contents| then Success(list.Contents[old(pos)]) else Failure(IndexOutOfBounds)
    {
      r := list.Get(pos);
      pos := pos + 1;
    }
  }

  // ---------------------------------------------------------------------------
  // StringBuilder
  // ---------------------------------------------------------------------------

  /** Collects fragments in an array list and renders them joined by a separator. */
  class StringBuilder {
    const sep: string
    const list: ArrayList<string>
    /** The total length of the fragments, separators excluded. */
    var length: nat

    ghost var Repr: set<object>

    ghost predicate Valid()
      reads this, Repr
      ensures Valid() ==> this in Repr
    {
      && this in Repr && list in Repr && list.Repr <= Repr && this !in list.Repr
      && list.Valid()
      && length == TotalLength(list.Contents)
    }

    constructor (sep: string)
      ensures Valid() && fresh(Repr)
      ensures this.sep == sep && list.Contents == []
    {
      this.sep := sep;
      list := new ArrayList<string>.Default();
      length := 0;
      new;
      Repr := {this} + list.Repr;
    }

    /** The default separator is empty. */
    constructor Default()
      ensures Valid() && fresh(Repr)
      ensures sep == "" && list.Contents == []
    {
      sep := "";
      list := new ArrayList<string>.Default();
      length := 0;
      new;
      Repr := {this} + list.Repr;
    }

    /** `append(s)`: adds a fragment and its length. */
    method Append(s: string)
      requires Valid()
      modifies Repr
      ensures Valid() && fresh(Repr - old(Repr))
      ensures list.Contents == old(list.Contents) + [s]
    {
      TotalLengthSnoc(list.Contents, s);
      list.Add(s);
      length := length + |s|;
      Repr := Repr + list.Repr;
    }

    /**
     * `toString()`: fills a character array of exactly the joined length, writing each
     * fragment and then the separator for as long as the cursor is short of the end.
     */
    method ToString() returns (r: string)
      requires Valid()
      ensures r == Join(list.Contents, sep)
    {
      if list.Size() == 0 {
        return "";
      }
      ghost var fs := list.Contents;
      ghost var n := |fs|;
      var total := length + |sep| * (list.Size() - 1);
      JoinLength(fs, sep);
      var out := new char[total];
      var pos := 0;
      var it := list.Iterator();
      while it.HasNext()
        invariant it.Valid() && it.list == list && fresh(it)
        invariant list.Contents == fs && it.pos <= n
        invariant 0 <= pos <= total == |Join(fs, sep)|
        invariant out[..pos] == Rendered(fs, sep, it.pos)
        decreases n - it.pos
      {
        ghost var j := it.pos;
        var next := it.Next();
        var s := next.value;
        pos := WriteFragment(out, pos, s, sep, fs, j);
      }
      assert out[..] == out[..pos];
      r := out[..];
    }
  }

  /**
   * What `StringBuilder.toString()` has written after the first j of the n fragments:
   * their join, then one separator unless all fragments are done.
   */
  ghost function Rendered(fs: seq<string>, sep: string, j: nat): string
    requires j <= |fs|
  {
    if j == 0 then "" else if j < |fs| then Join(fs[..j], sep) + sep else Join(fs, sep)
  }

  /**
   * Writing fragment j after what is rendered gives the join of the first j + 1
   * fragments; a separator follows exactly when more fragments remain, and then
   * the cursor is short of the end unless the separator and the rest are empty.
   */
  lemma RenderedStep(fs: seq<string>, sep: string, j: nat)
    requires j < |fs|
    ensures Rendered(fs, sep, j) + fs[j] == Join(fs[..j + 1], sep)
    ensures j + 1 < |fs| ==> Rendered(fs, sep, j + 1) == Join(fs[..j + 1], sep) + sep
    ensures j + 1 < |fs| ==> |Join(fs[..j + 1], sep)| + |sep| + |Join(fs[j + 1..], sep)| == |Join(fs, sep)|
    ensures j + 1 == |fs| ==> Rendered(fs, sep, j + 1) == Join(fs[..j + 1], sep) == Join(fs, sep)
  {
    assert fs[..j + 1][..j] == fs[..j];
    if j + 1 < |fs| {
      JoinSplit(fs, sep, j + 1);
    } else {
      assert fs[..j + 1] == fs;
    }
  }

  /**
   * One pass of the loop of `toString`: fragment j, then the separator if the cursor
   * is still short of the end. Extends the rendering of j fragments to that of j + 1.
   */
  method WriteFragment(out: array<char>, pos: nat, s: string, sep: string,
                       ghost fs: seq<string>, ghost j: nat) returns (end: nat)
    requires j < |fs| && s == fs[j] && out.Length == |Join(fs, sep)|
    requires pos <= out.Length && out[..pos] == Rendered(fs, sep, j)
    modifies out
    ensures end <= out.Length && out[..end] == Rendered(fs, sep, j + 1)
  {
    RenderedStep(fs, sep, j);
    end := WriteChars(out, pos, s);
    if end < out.Length {
      end := WriteChars(out, end, sep);
    }
  }

  /** One of the character-copy loops of `toString`: writes s at pos and returns the new cursor. */
  method WriteChars(out: array<char>, pos: nat, s: string) returns (end: nat)
    requires pos + |s| <= out.Length
    modifies out
    ensures end == pos + |s|
    ensures out[..end] == old(out[..pos]) + s
  {
    end := pos;
    var i := 0;
    while i < |s|
      invariant 0 <= i <= |s| && end == pos + i
      invariant out[..end] == old(out[..pos]) + s[..i]
    {
      out[end] := s[i];
      end := end + 1;
      i := i + 1;
    }
  }

  // ---------------------------------------------------------------------------
  // HashTable
  // ---------------------------------------------------------------------------

  /**
   * The scan in `add`: every entry of the chain with the given key gets the new value;
   * reports whether there was one.
   */
  method ReplaceValue<K(==), V>(chain: seq<Entry<K, V>>, key: K, value: V)
    returns (list: seq<Entry<K, V>>, found: bool)
    ensures found <==> HasKey(chain, key)
    ensures |list| == |chain|
    ensures forall j :: 0 <= j < |list| ==> list[j] == if chain[j].key == key then Entry(key, value) else chain[j]
  {
    list := chain;
    found := false;
    var i := 0;
    while i < |list|
      invariant 0 <= i <= |list| == |chain|
      invariant found <==> exists j :: 0 <= j < i && chain[j].key == key
      invariant forall j :: 0 <= j < |list| ==> list[j] == if j < i && chain[j].key == key then Entry(key, value) else chain[j]
    {
      if list[i].key == key {
        list := list[i := Entry(key, value)];
        found := true;
      }
      i := i + 1;
    }
  }

  /**
   * A map from keys to values over a fixed number of buckets, each a chain of
   * entries. The bucket array is never replaced, so the bucket count never changes.
   */
  class HashTable<K(==, !new), V> {
    const buckets: nat
    /** Stands for `K.hashCode()`. */
    const hash: K -> int
    const arr: array<Bucket<K, V>>
    var size: nat

    /** The map the table represents. */
    ghost var Contents: map<K, V>

    ghost predicate Valid()
      reads this, arr
    {
      && 0 < buckets && arr.Length == buckets
      && TableOk(arr[..], hash, buckets, size, Contents)
    }

    /** An empty table with the given number of buckets, none of which has a list yet. */
    constructor (buckets: nat, hash: K -> int)
      requires buckets > 0
      ensures Valid() && fresh(arr)
      ensures this.buckets == buckets && this.hash == hash
      ensures Contents == map[] && forall c :: 0 <= c < buckets ==> arr[c] == None
    {
      this.buckets := buckets;
      this.hash := hash;
      arr := new Bucket<K, V>[buckets](_ => None);
      size := 0;
      Contents := map[];
      new;
      FlattenNoLists(arr[..]);
    }

    /** The default table has 512 buckets. */
    constructor Default(hash: K -> int)
      ensures Valid() && fresh(arr)
      ensures buckets == 512 && this.hash == hash
      ensures Contents == map[] && forall c :: 0 <= c < buckets ==> arr[c] == None
    {
      buckets := 512;
      this.hash := hash;
      arr := new Bucket<K, V>[512](_ => None);
      size := 0;
      Contents := map[];
      new;
      FlattenNoLists(arr[..]);
    }

    /**
     * `add(key, value)`: in the bucket the key hashes to (creating its list if it has
     * none), overwrites the value of an entry with that key, or else appends a new
     * entry to the end of the chain and counts it.
     */
    method Add(key: K, value: V)
      requires Valid()
      modifies this, arr
      ensures Valid()
      ensures Contents == old(Contents)[key := value]
      ensures size == if key in old(Contents) then old(size) else old(size) + 1
      ensures var b := BucketOf(hash(key), buckets);
        && (forall c :: 0 <= c < buckets && c != b ==> arr[c] == old(arr[c]))
        && (key in old(Contents) ==>
              && |Items(arr[b])| == |Items(old(arr[b]))|
              && forall j :: 0 <= j < |Items(arr[b])| ==>
                   Items(arr[b])[j] == if Items(old(arr[b]))[j].key == key then Entry(key, value) else Items(old(arr[b]))[j])
        && (key !in old(Contents) ==> Items(arr[b]) == Items(old(arr[b])) + [Entry(key, value)])
    {
      var b := BucketOf(hash(key), buckets);
      ghost var bs := arr[..];
      ghost var chain := Items(arr[b]);
      if arr[b] == None {
        arr[b] := Some([]);
      }
      var list, found := ReplaceValue(arr[b].value, key, value);
      if !found {
        list := list + [Entry(key, value)];
      }
      TableAfterAdd(bs, hash, buckets, size, Contents, key, value, list, found);
      if !found {
        size := size + 1;
      }
      arr[b] := Some(list);
      Contents := Contents[key := value];
      assert arr[..] == bs[b := Some(list)];
    }

    /** `get(key)`: the key's value, or null when the chain lacks it or the bucket has no list. */
    method Get(key: K) returns (r: Option<V>)
      requires Valid()
      ensures r == if key in Contents then Some(Contents[key]) else None
    {
      var b := BucketOf(hash(key), buckets);
      assert FindIn(arr[..], hash, key) == Lookup(Items(arr[b]), key);
      if arr[b] == None {
        return None;
      }
      var list := arr[b].value;
      var i := 0;
      while i < |list|
        invariant 0 <= i <= |list|
        invariant Lookup(list[i..], key) == Lookup(list, key)
      {
        if list[i].key == key {
          return Some(list[i].value);
        }
        assert list[i..][1..] == list[i + 1..];
        i := i + 1;
      }
      return None;
    }

    /** `size()`: the number of distinct keys. */
    function Size(): (n: nat)
      requires Valid()
      reads this, arr
      ensures n == |Contents| && n == |Flatten(arr[..])|
    {
      size
    }

    /**
     * The walk over all entries, bucket by bucket, visits `size` entries with distinct
     * keys, which are exactly the keys of the map, each with its value.
     */
    lemma Enumeration()
      requires Valid()
      ensures |Flatten(arr[..])| == |Contents|
      ensures DistinctKeys(Flatten(arr[..]))
      ensures forall p :: 0 <= p < |Flatten(arr[..])| ==>
                Flatten(arr[..])[p].key in Contents && Contents[Flatten(arr[..])[p].key] == Flatten(arr[..])[p].value
      ensures forall k :: k in Contents ==> exists p :: 0 <= p < |Flatten(arr[..])| && Flatten(arr[..])[p].key == k
    {
      var bs := arr[..];
      FlattenDistinct(bs, hash, buckets);
      forall p | 0 <= p < |Flatten(bs)|
        ensures Flatten(bs)[p].key in Contents && Contents[Flatten(bs)[p].key] == Flatten(bs)[p].value
      {
        FlattenMember(bs, p);
        var c, i :| 0 <= c < |bs| && 0 <= i < |Items(bs[c])| && Items(bs[c])[i] == Flatten(bs)[p];
        assert ChainOk(Items(bs[c]), c, hash, buckets);
        LookupAt(Items(bs[c]), i);
        assert FindIn(bs, hash, Flatten(bs)[p].key) == Some(Flatten(bs)[p].value);
      }
      forall k | k in Contents
        ensures exists p :: 0 <= p < |Flatten(bs)| && Flatten(bs)[p].key == k
      {
        var c := BucketOf(hash(k), buckets);
        assert FindIn(bs, hash, k) == Lookup(Items(bs[c]), k);
        LookupFound(Items(bs[c]), k);
        var i :| 0 <= i < |Items(bs[c])| && Items(bs[c])[i].key == k;
        FlattenIndex(bs, c, i);
      }
    }

    /** `iterator()`: a key iterator over the current buckets, remembering the current size. */
    method Iterator() returns (it: HashTableIterator<K, V>)
      requires Valid()
      ensures fresh(it) && it.Valid() && it.arr == arr && it.size == size && it.pos == 0
    {
      it := new HashTableIterator(arr, size);
    }
  }

  /**
   * Walks the keys bucket by bucket and, inside a bucket, along the chain. It works
   * on the bucket array it was given; changing the table during the walk is not modelled.
   */
  class HashTableIterator<K, V> {
    const arr: array<Bucket<K, V>>
    const size: int
    var pos: int
    var currentBucket: int
    var currentItem: int

    ghost predicate Valid()
      reads this, arr
    {
      && 0 < arr.Length
      && size == |Flatten(arr[..])|
      && 0 <= pos <= size
      && 0 <= currentBucket < arr.Length
      && 0 <= currentItem <= |Items(arr[currentBucket])|
      && |Flatten(arr[..currentBucket])| + currentItem == pos
    }

    constructor (arr: array<Bucket<K, V>>, size: int)
      requires 0 < arr.Length && size == |Flatten(arr[..])|
      ensures Valid() && this.arr == arr && this.size == size && pos == 0
    {
      this.arr := arr;
      this.size := size;
      pos := 0;
      currentBucket := 0;
      currentItem := 0;
      new;
      assert arr[..0] == [];
    }

    /** `hasNext()`: some entry of the buckets is still to come. */
    function HasNext(): (b: bool)
      requires Valid()
      reads this, arr
      ensures b <==> pos < |Flatten(arr[..])|
    {
      pos < size
    }

    /**
     * `next()`: skips buckets without a list or whose chain is used up, and returns the
     * key at the cursor: the key at position `pos` of the bucket-by-bucket walk.
     */
    method Next() returns (k: K)
      requires Valid() && pos < size
      modifies this
      ensures Valid() && pos == old(pos) + 1
      ensures k == Flatten(arr[..])[old(pos)].key
    {
      ghost var bs := arr[..];
      pos := pos + 1;
      var list := arr[currentBucket];
      while list == None || currentItem >= |list.value|
        invariant pos == old(pos) + 1 && arr[..] == bs
        invariant 0 <= currentBucket < arr.Length && list == arr[currentBucket]
        invariant 0 <= currentItem <= |Items(arr[currentBucket])|
        invariant |Flatten(bs[..currentBucket])| + currentItem == pos - 1
        decreases arr.Length - currentBucket
      {
        NextBucket(bs, currentBucket, pos - 1);
        currentBucket := currentBucket + 1;
        currentItem := 0;
        list := arr[currentBucket];
      }
      FlattenIndex(bs, currentBucket, currentItem);
      k := list.value[currentItem].key;
      currentItem := currentItem + 1;
    }
  }

  // ---------------------------------------------------------------------------
  // The test cases of the three classes
  // ---------------------------------------------------------------------------

  /** The numbers 1 to n in order. */
  ghost function UpTo(n: nat): seq<int>
  {
    seq(n, k => k + 1)
  }

  lemma UpToSnoc(n: nat)
    ensures UpTo(n) + [n + 1] == UpTo(n + 1)
  {
    var a, b := UpTo(n) + [n + 1], UpTo(n + 1);
    assert forall k :: 0 <= k < |b| ==> a[k] == b[k];
  }

  /** The list contents through the removals and inserts of `ArrayList.main`. */
  lemma ListScript(c1: seq<int>, c2: seq<int>, c3: seq<int>, c4: seq<int>, c5: seq<int>)
    requires c1 == UpTo(25)[..0] + UpTo(25)[1..]
    requires c2 == c1[..23] + c1[24..]
    requires c3 == c2[..11] + c2[12..]
    requires c4 == c3[..0] + [-1] + c3[0..]
    requires c5 == c4[..10] + [0] + c4[10..]
    ensures c5 == FinalList() && c5[3] == 4 && c5[16] == 17
  {
    var f := FinalList();
    forall k | 0 <= k < 24 ensures c5[k] == f[k] {
      if k == 0 || k == 10 {
      } else if k < 10 {
        assert c5[k] == c4[k] == c3[k - 1] == c2[k - 1] == c1[k - 1];
      } else if k < 13 {
        assert c5[k] == c4[k - 1] == c3[k - 2] == c2[k - 2] == c1[k - 2];
      } else {
        assert c5[k] == c4[k - 1] == c3[k - 2] == c2[k - 1] == c1[k - 1];
      }
    }
  }

  /** The list `ArrayList.main` prints last: -1, 2 to 10, 0, 11, 12, and 14 to 24. */
  ghost function FinalList(): seq<int>
  {
    [-1] + seq(9, k => k + 2) + [0, 11, 12] + seq(11, k => k + 14)
  }

  /** The appends, removals and inserts of `ArrayList.main`. */
  method ScriptedList() returns (l: ArrayList<int>)
    ensures l.Valid() && fresh(l.Repr) && l.Contents == FinalList()
  {
    l := new ArrayList<int>.Default();
    var i := 1;
    while i <= 25
      invariant 1 <= i <= 26 && l.Valid() && fresh(l.Repr)
      invariant l.Contents == UpTo(i - 1)
    {
      l.Add(i);
      UpToSnoc(i - 1);
      i := i + 1;
    }
    var _ := l.Remove(0);
    ghost var c1 := l.Contents;
    var _ := l.Remove(23);
    ghost var c2 := l.Contents;
    var _ := l.Remove(11);
    ghost var c3 := l.Contents;
    var _ := l.Insert(-1, 0);
    ghost var c4 := l.Contents;
    var _ := l.Insert(0, 10);
    ListScript(c1, c2, c3, c4, l.Contents);
  }

  /**
   * The script of `ArrayList.main`: 1 to 25 appended, the elements at 0, 23 and 11
   * removed, -1 inserted at 0 and 0 at 10; then 24 elements, of which the 4th is 4
   * and the 17th is 17, and the printed list is the final contents joined by ", ".
   * `show` is `Integer.toString`.
   */
  method ArrayListScenario(show: int -> string)
    returns (n: nat, third: Result<int>, sixteenth: Result<int>, printed: string)
    ensures n == 24 && third == Success(4) && sixteenth == Success(17)
    ensures printed == Join(Shown(FinalList(), show), ", ")
  {
    var l := ScriptedList();
    assert |FinalList()| == 24 && FinalList()[3] == 4 && FinalList()[16] == 17;
    n := l.Size();
    third := l.Get(3);
    sixteenth := l.Get(16);
    printed := l.ToString(show);
  }

  /** The map after the five additions of `HashTable.main`. */
  ghost function Added(): map<string, int>
  {
    map[]["One" := 1]["Two" := 2]["Three" := 3]["Four" := 4]["Five" := 5]
  }

  lemma TableScript(m: map<string, int>)
    requires m == Added()
    ensures |m| == 5 && "Two" in m && m["Two"] == 2 && "Four" in m && m["Four"] == 4 && "Six" !in m
  {
    var m1 := map[]["One" := 1];
    var m2 := m1["Two" := 2];
    var m3 := m2["Three" := 3];
    var m4 := m3["Four" := 4];
    assert "Two" != "One";
    assert "Three" !in m2 && "Four" !in m3 && "Five" !in m4;
    assert "Six"[0] == 'S';
  }

  /** The keys listed are the first ones of the walk, each with its value in m. */
  ghost predicate Prefix<K, V>(walk: seq<Entry<K, V>>, m: map<K, V>, keys: seq<K>, values: seq<Option<V>>)
  {
    && |keys| == |values| <= |walk|
    && (forall i :: 0 <= i < |keys| ==> keys[i] == walk[i].key)
    && (forall i :: 0 <= i < |keys| ==> keys[i] in m && values[i] == Some(m[keys[i]]))
  }

  /** Listing the next key of the walk with its value extends the prefix. */
  lemma PrefixStep<K, V>(walk: seq<Entry<K, V>>, m: map<K, V>, keys: seq<K>, values: seq<Option<V>>, v: Option<V>)
    requires Prefix(walk, m, keys, values) && |keys| < |walk|
    requires walk[|keys|].key in m && v == Some(m[walk[|keys|].key])
    ensures Prefix(walk, m, keys + [walk[|keys|].key], values + [v])
  {
  }

  /**
   * The state of the listing loop: the iterator walks the table's buckets, and the
   * keys listed so far are the first ones of the walk, each with its value.
   */
  ghost predicate Listed<K(!new), V>(ht: HashTable<K, V>, it: HashTableIterator<K, V>, walk: seq<Entry<K, V>>,
                                     keys: seq<K>, values: seq<Option<V>>)
    reads ht, ht.arr, it, it.arr
  {
    && ht.Valid() && walk == Flatten(ht.arr[..])
    && (forall p :: 0 <= p < |walk| ==> walk[p].key in ht.Contents)
    && it.Valid() && it.arr == ht.arr && it.pos == |keys|
    && Prefix(walk, ht.Contents, keys, values)
  }

  /** A fresh iterator starts the listing with nothing listed. */
  lemma ListStart<K(!new), V>(ht: HashTable<K, V>, it: HashTableIterator<K, V>)
    requires ht.Valid() && it.Valid() && it.arr == ht.arr && it.pos == 0
    ensures Listed(ht, it, Flatten(ht.arr[..]), [], [])
  {
    ht.Enumeration();
  }

  /** One pass of the listing loop: the next key and `get` of it. */
  method ListNext<K(==, !new), V>(ht: HashTable<K, V>, it: HashTableIterator<K, V>, ghost walk: seq<Entry<K, V>>,
                                  keys: seq<K>, values: seq<Option<V>>) returns (keys': seq<K>, values': seq<Option<V>>)
    requires Listed(ht, it, walk, keys, values) && it.pos < |walk|
    modifies it
    ensures Listed(ht, it, walk, keys', values') && it.pos == old(it.pos) + 1
  {
    var k := it.Next();
    var v := ht.Get(k);
    PrefixStep(walk, ht.Contents, keys, values, v);
    keys', values' := keys + [k], values + [v];
  }

  /** A listing that has passed the whole walk holds every key of the table once. */
  lemma ListDone<K(!new), V>(ht: HashTable<K, V>, it: HashTableIterator<K, V>, walk: seq<Entry<K, V>>,
                             keys: seq<K>, values: seq<Option<V>>)
    requires Listed(ht, it, walk, keys, values) && it.pos >= |walk|
    ensures |keys| == |ht.Contents| && |values| == |keys|
    ensures forall i, j :: 0 <= i < j < |keys| ==> keys[i] != keys[j]
    ensures forall k :: k in ht.Contents <==> k in keys
    ensures forall i :: 0 <= i < |keys| ==> keys[i] in ht.Contents && values[i] == Some(ht.Contents[keys[i]])
  {
    ht.Enumeration();
    forall i, j | 0 <= i < j < |keys| ensures keys[i] != keys[j] {
      assert keys[i] == walk[i].key && keys[j] == walk[j].key;
    }
    forall k | k in ht.Contents ensures k in keys {
      var p :| 0 <= p < |walk| && walk[p].key == k;
      assert keys[p] == k;
    }
  }

  /**
   * The last loop of `HashTable.main`: every key the iterator hands out, with `get`
   * of it. Each key of the table comes out exactly once, together with its value.
   */
  method Listing<K(==, !new), V>(ht: HashTable<K, V>) returns (keys: seq<K>, values: seq<Option<V>>)
    requires ht.Valid()
    ensures |keys| == |ht.Contents| && |values| == |keys|
    ensures forall i, j :: 0 <= i < j < |keys| ==> keys[i] != keys[j]
    ensures forall k :: k in ht.Contents <==> k in keys
    ensures forall i :: 0 <= i < |keys| ==> keys[i] in ht.Contents && values[i] == Some(ht.Contents[keys[i]])
  {
    ghost var walk := Flatten(ht.arr[..]);
    var it := ht.Iterator();
    ListStart(ht, it);
    keys, values := [], [];
    while it.HasNext()
      modifies it
      invariant Listed(ht, it, walk, keys, values)
      decreases |walk| - it.pos
    {
      keys, values := ListNext(ht, it, walk, keys, values);
    }
    ListDone(ht, it, walk, keys, values);
  }

  /** The five additions of `HashTable.main`. */
  method ScriptedTable(hash: string -> int) returns (ht: HashTable<string, int>)
    ensures ht.Valid() && ht.Contents == Added()
  {
    ht := new HashTable<string, int>.Default(hash);
    ht.Add("One", 1);
    ht.Add("Two", 2);
    ht.Add("Three", 3);
    ht.Add("Four", 4);
    ht.Add("Five", 5);
  }

  /**
   * The script of `HashTable.main`, for any hash function: five keys added, two of
   * them found with their values and an absent one not found; then the listing of
   * all the keys, each once and with its value, in the order the buckets give.
   */
  method HashTableScenario(hash: string -> int)
    returns (n: nat, two: Option<int>, four: Option<int>, six: Option<int>, keys: seq<string>, values: seq<Option<int>>)
    ensures n == 5 && two == Some(2) && four == Some(4) && six == None
    ensures |keys| == 5 && |values| == 5 && forall i, j :: 0 <= i < j < 5 ==> keys[i] != keys[j]
    ensures forall k :: k in Added() <==> k in keys
    ensures forall i :: 0 <= i < 5 ==> keys[i] in Added() && values[i] == Some(Added()[keys[i]])
  {
    var ht := ScriptedTable(hash);
    TableScript(ht.Contents);
    n := ht.Size();
    two := ht.Get("Two");
    four := ht.Get("Four");
    six := ht.Get("Six");
    keys, values := Listing(ht);
  }

  /** The join `StringBuilder.main` prints. */
  lemma JoinScript()
    ensures Join(["Hola", "mundo", "¿qué tal?"], ", ") == "Hola, mundo, ¿qué tal?"
  {
    var fs := ["Hola", "mundo", "¿qué tal?"];
    assert fs[..2] == ["Hola", "mundo"] && fs[..2][..1] == ["Hola"];
    assert Join(fs, ", ") == "Hola" + ", " + "mundo" + ", " + "¿qué tal?";
  }

  /** The script of `StringBuilder.main`: three fragments joined by ", ". */
  method StringBuilderScenario() returns (r: string)
    ensures r == "Hola, mundo, ¿qué tal?"
  {
    var sb := new StringBuilder(", ");
    sb.Append("Hola");
    sb.Append("mundo");
    sb.Append("¿qué tal?");
    assert sb.list.Contents == ["Hola", "mundo", "¿qué tal?"];
    JoinScript();
    r := sb.ToString();
  }
}
