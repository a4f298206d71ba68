/** Two ways of deciding whether one string is a permutation of another. */
module CheckPermutation {
  import opened Wrappers
  import opened Chains
  import opened Collections
  import opened Sorting

  /** `Character.hashCode`: the code of the character. */
  function CharHash(c: char): int
  {
    c as int
  }

  /** The value the source stores for a character: `count == null ? d : count + d`. */
  function Counted(count: Option<int>, d: int): int
  {
    if count == None then d else count.value + d
  }

  /** The table after one `get` and `add` of key c with step d. */
  function Bump<K(!new)>(m: map<K, int>, c: K, d: int): map<K, int>
  {
    m[c := Counted(MapGet(m, c), d)]
  }

  /**
   * The table the first two loops build: the keys of `up` counted up one by one,
   * then those of `down` counted down.
   */
  function Counter<K(!new)>(up: seq<K>, down: seq<K>): map<K, int>
    decreases |up| + |down|
  {
    if down != [] then Bump(Counter(up, down[..|down| - 1]), down[|down| - 1], -1)
    else if up != [] then Bump(Counter(up[..|up| - 1], []), up[|up| - 1], 1)
    else map[]
  }

  /** A key occurs in s + [x] exactly when it is x or occurs in s. */
  lemma InSnoc<K(!new)>(s: seq<K>, x: K, c: K)
    ensures c in s + [x] <==> c == x || c in s
  {
    if c in s + [x] && c != x {
      var k :| 0 <= k < |s + [x]| && (s + [x])[k] == c;
      assert s[k] == c;
    }
  }

  /**
   * m holds every key of either sequence, and nothing else, mapped to its number
   * of occurrences in `up` less its number in `down`.
   */
  ghost predicate Means<K(!new)>(m: map<K, int>, up: seq<K>, down: seq<K>)
  {
    && (forall c :: c in m <==> c in up || c in down)
    && (forall c :: c in m ==> m[c] == (multiset(up)[c] as int) - multiset(down)[c])
  }

  /** Counting down one more key keeps the meaning. */
  lemma BumpDown<K(!new)>(m: map<K, int>, up: seq<K>, b: seq<K>, x: K)
    requires Means(m, up, b)
    ensures Means(Bump(m, x, -1), up, b + [x])
  {
    assert multiset(b + [x]) == multiset(b) + multiset{x};
    forall c ensures c in b + [x] <==> c == x || c in b {
      InSnoc(b, x, c);
    }
    if x !in up && x !in b {
      assert multiset(up)[x] == 0 && multiset(b)[x] == 0;
    }
  }

  /** Counting up one more key keeps the meaning. */
  lemma BumpUp<K(!new)>(m: map<K, int>, a: seq<K>, x: K)
    requires Means(m, a, [])
    ensures Means(Bump(m, x, 1), a + [x], [])
  {
    assert multiset(a + [x]) == multiset(a) + multiset{x};
    forall c ensures c in a + [x] <==> c == x || c in a {
      InSnoc(a, x, c);
    }
    if x !in a {
      assert multiset(a)[x] == 0;
    }
  }

  lemma SplitLast<K(!new)>(s: seq<K>)
    requires s != []
    ensures s == s[..|s| - 1] + [s[|s| - 1]]
  {
  }

  /** The table the first two loops build has the meaning above. */
  lemma {:induction false} CounterMeaning<K(!new)>(up: seq<K>, down: seq<K>)
    ensures Means(Counter(up, down), up, down)
    decreases |up| + |down|
  {
    if down != [] {
      var b, x := down[..|down| - 1], down[|down| - 1];
      CounterMeaning(up, b);
      BumpDown(Counter(up, b), up, b, x);
      SplitLast(down);
    } else if up != [] {
      var a, x := up[..|up| - 1], up[|up| - 1];
      CounterMeaning(a, []);
      BumpUp(Counter(a, []), a, x);
      SplitLast(up);
    }
  }

  /** Every counter of m is zero. */
  ghost predicate Zeros<K(!new)>(m: map<K, int>)
  {
    forall c :: c in m ==> m[c] == 0
  }

  /** The table is all zeros exactly when the two sequences have the same multiset of keys. */
  lemma CounterZero<K(!new)>(a: seq<K>, b: seq<K>)
    ensures Zeros(Counter(a, b)) <==> multiset(a) == multiset(b)
  {
    CounterMeaning(a, b);
    if Zeros(Counter(a, b)) {
      forall c ensures multiset(a)[c] == multiset(b)[c] {
        if c in a || c in b {
          assert c in Counter(a, b);
        } else {
          assert c !in multiset(a) && c !in multiset(b);
        }
      }
    }
  }

  lemma CounterUpStep<K(!new)>(s: seq<K>, i: nat)
    requires i < |s|
    ensures Counter(s[..i + 1], []) == Bump(Counter(s[..i], []), s[i], 1)
  {
    assert s[..i + 1][..i] == s[..i];
  }

  lemma CounterDownStep<K(!new)>(a: seq<K>, s: seq<K>, j: nat)
    requires j < |s|
    ensures Counter(a, s[..j + 1]) == Bump(Counter(a, s[..j]), s[j], -1)
  {
    assert s[..j + 1][..j] == s[..j];
  }

  /**
   * One step of the first two loops: `count = counter.get(c)` and then
   * `counter.add(c, count == null ? d : count + d)`; returns the count read.
   */
  method Increment<K(==, !new)>(counter: HashTable<K, int>, c: K, d: int) returns (count: Option<int>)
    requires counter.Valid()
    modifies counter, counter.arr
    ensures counter.Valid()
    ensures count == MapGet(old(counter.Contents), c)
    ensures counter.Contents == Bump(old(counter.Contents), c, d)
  {
    count := counter.Get(c);
    counter.Add(c, Counted(count, d));
  }

  /** The first loop: the keys of s counted up in the table. */
  method CountUp<K(==, !new)>(counter: HashTable<K, int>, s: seq<K>)
    requires counter.Valid() && counter.Contents == map[]
    modifies counter, counter.arr
    ensures counter.Valid() && counter.Contents == Counter(s, [])
  {
    var i := 0;
    assert s[..0] == [];
    while i < |s|
      invariant 0 <= i <= |s| && counter.Valid()
      invariant counter.Contents == Counter(s[..i], [])
    {
      var _ := Increment(counter, s[i], 1);
      CounterUpStep(s, i);
      i := i + 1;
    }
    assert s[..i] == s;
  }

  /** The second loop: the keys of s2 counted down in the table of s1. */
  method CountDown<K(==, !new)>(counter: HashTable<K, int>, s1: seq<K>, s2: seq<K>)
    requires counter.Valid() && counter.Contents == Counter(s1, [])
    modifies counter, counter.arr
    ensures counter.Valid() && counter.Contents == Counter(s1, s2)
  {
    var j := 0;
    assert s2[..0] == [];
    while j < |s2|
      invariant 0 <= j <= |s2| && counter.Valid()
      invariant counter.Contents == Counter(s1, s2[..j])
    {
      var _ := Increment(counter, s2[j], -1);
      CounterDownStep(s1, s2, j);
      j := j + 1;
    }
    assert s2[..j] == s2;
  }

  /** The first n keys of the walk all have a zero counter in m. */
  ghost predicate ZeroUpTo<K(!new)>(m: map<K, int>, walk: seq<Entry<K, int>>, n: nat)
  {
    forall p :: 0 <= p < n && p < |walk| ==> walk[p].key in m && m[walk[p].key] == 0
  }

  /** The walk meets every key of m and nothing else. */
  ghost predicate Covers<K(!new)>(m: map<K, int>, walk: seq<Entry<K, int>>)
  {
    && (forall p :: 0 <= p < |walk| ==> walk[p].key in m)
    && (forall k :: k in m ==> exists p :: 0 <= p < |walk| && walk[p].key == k)
  }

  lemma ZeroStep<K(!new)>(m: map<K, int>, walk: seq<Entry<K, int>>, p: nat)
    requires ZeroUpTo(m, walk, p) && p < |walk| && walk[p].key in m && m[walk[p].key] == 0
    ensures ZeroUpTo(m, walk, p + 1)
  {
  }

  /** The table represents m and its bucket-by-bucket walk is a walk over the keys of m. */
  ghost predicate Table<K(!new)>(counter: HashTable<K, int>, m: map<K, int>, walk: seq<Entry<K, int>>)
    reads counter, counter.arr
  {
    counter.Valid() && counter.Contents == m && Flatten(counter.arr[..]) == walk && Covers(m, walk)
  }

  /** Every table is a Table over its contents and its walk. */
  lemma TableStart<K(!new)>(counter: HashTable<K, int>)
    requires counter.Valid()
    ensures Table(counter, counter.Contents, Flatten(counter.arr[..]))
  {
    counter.Enumeration();
  }

  /**
   * The state of the third loop: the iterator walks the table's buckets and every
   * key it has passed has a zero counter.
   */
  ghost predicate Walking<K(!new)>(counter: HashTable<K, int>, it: HashTableIterator<K, int>,
                                     m: map<K, int>, walk: seq<Entry<K, int>>)
    reads counter, counter.arr, it, it.arr
  {
    && it.Valid() && it.arr == counter.arr && it.size == |walk|
    && Table(counter, m, walk) && ZeroUpTo(m, walk, it.pos)
  }

  /** A fresh iterator over the table starts a walk. */
  lemma WalkStart<K(!new)>(counter: HashTable<K, int>, it: HashTableIterator<K, int>,
                               m: map<K, int>, walk: seq<Entry<K, int>>)
    requires Table(counter, m, walk)
    requires it.Valid() && it.arr == counter.arr && it.size == counter.size && it.pos == 0
    ensures Walking(counter, it, m, walk)
  {
  }

  /** A walk that has met every key and found only zeros shows that every counter is zero. */
  lemma WalkDone<K(!new)>(counter: HashTable<K, int>, it: HashTableIterator<K, int>,
                              m: map<K, int>, walk: seq<Entry<K, int>>)
    requires Walking(counter, it, m, walk) && it.pos >= |walk|
    ensures Zeros(counter.Contents)
  {
    forall k | k in m ensures m[k] == 0 {
      var p :| 0 <= p < |walk| && walk[p].key == k;
    }
  }

  /**
   * One pass of the third loop: the next key of the walk and a look at its counter.
   * Reports whether the counter is zero; a counter that is not shows the table is not
   * all zeros.
   */
  method NextIsZero<K(==, !new)>(counter: HashTable<K, int>, it: HashTableIterator<K, int>,
                                 ghost m: map<K, int>, ghost walk: seq<Entry<K, int>>) returns (zero: bool)
    requires Walking(counter, it, m, walk) && it.pos < |walk|
    modifies it
    ensures it.pos == old(it.pos) + 1
    ensures zero ==> Walking(counter, it, m, walk)
    ensures !zero ==> !Zeros(counter.Contents)
  {
    ghost var p := it.pos;
    var c := it.Next();
    assert c == walk[p].key;
    var value := counter.Get(c);
    zero := value == Some(0);
    if zero {
      ZeroStep(m, walk, p);
    }
  }

  /** The third loop: a walk over the keys of the table, stopping at a non-zero counter. */
  method AllZero<K(==, !new)>(counter: HashTable<K, int>) returns (r: bool)
    requires counter.Valid()
    ensures r <==> Zeros(counter.Contents)
  {
    ghost var walk := Flatten(counter.arr[..]);
    ghost var m := counter.Contents;
    TableStart(counter);
    var it := counter.Iterator();
    WalkStart(counter, it, m, walk);
    while it.HasNext()
      modifies it
      invariant Walking(counter, it, m, walk)
      decreases |walk| - it.pos
    {
      var zero := NextIsZero(counter, it, m, walk);
      if !zero {
        return false;
      }
    }
    WalkDone(counter, it, m, walk);
    return true;
  }

  /**
   * `checkPermutationWithCounter` with keys compared by value (`equals`): equal
   * lengths, then a hash table of counters counted up over s1 and down over s2,
   * then a walk over its keys looking for a non-zero counter.
   */
  method CheckPermutationWithCounter(s1: string, s2: string) returns (r: bool)
    ensures r <==> multiset(s1) == multiset(s2)
  {
    if |s1| != |s2| {
      assert |multiset(s1)| != |multiset(s2)|;
      return false;
    }
    var counter := new HashTable<char, int>.Default(CharHash);
    CountUp(counter, s1);
    CountDown(counter, s1, s2);
    r := AllZero(counter);
    CounterZero(s1, s2);
  }

  // ---------------------------------------------------------------------------
  // The same method with keys compared by reference, as `HashTable` does
  // ---------------------------------------------------------------------------

  /**
   * A boxed `Character` object. `Character.valueOf`, which the loops' boxing calls,
   * hands out one shared object per character up to 127 and a new object for every
   * other boxing; `id` tells the objects apart, so value equality on `Boxed` is
   * reference equality on the objects.
   */
  datatype Boxed = Boxed(c: char, id: nat)

  /** `Character.hashCode` of a box. */
  function BoxHash(b: Boxed): int
  {
    b.c as int
  }

  /** Every character of s has a shared box. */
  predicate Cached(s: string)
  {
    forall i :: 0 <= i < |s| ==> s[i] as int <= 127
  }

  /** The objects the loop over s boxes, a new one numbered start + i for each wide s[i]. */
  function Boxes(s: string, start: nat): seq<Boxed>
    requires start > 0
  {
    seq(|s|, i requires 0 <= i < |s| => if s[i] as int <= 127 then Boxed(s[i], 0) else Boxed(s[i], start + i))
  }

  /** The characters in the boxes. */
  function Unboxed(bs: seq<Boxed>): string
  {
    seq(|bs|, i requires 0 <= i < |bs| => bs[i].c)
  }

  /** Unboxing the boxes of s gives s back. */
  lemma UnboxBoxes(s: string, start: nat)
    requires start > 0
    ensures Unboxed(Boxes(s, start)) == s
  {
  }

  lemma UnboxedAppend(a: seq<Boxed>, b: seq<Boxed>)
    ensures Unboxed(a + b) == Unboxed(a) + Unboxed(b)
  {
    assert forall i :: 0 <= i < |a + b| ==> Unboxed(a + b)[i] == (Unboxed(a) + Unboxed(b))[i];
  }

  /** Taking out the box at j takes its character out of the unboxed string. */
  lemma RemoveAt(b: seq<Boxed>, j: nat)
    requires j < |b|
    ensures multiset(b) == multiset(b[..j] + b[j + 1..]) + multiset{b[j]}
    ensures multiset(Unboxed(b)) == multiset(Unboxed(b[..j] + b[j + 1..])) + multiset{b[j].c}
  {
    var front, back := b[..j], b[j + 1..];
    assert b == front + [b[j]] + back;
    assert Unboxed([b[j]]) == [b[j].c];
    UnboxedAppend(front + [b[j]], back);
    UnboxedAppend(front, [b[j]]);
    UnboxedAppend(front, back);
  }

  /** Boxes that are a permutation of each other hold characters that are too. */
  lemma {:induction false} UnboxPermutation(a: seq<Boxed>, b: seq<Boxed>)
    requires multiset(a) == multiset(b)
    ensures multiset(Unboxed(a)) == multiset(Unboxed(b))
    decreases |a|
  {
    if a != [] {
      var i := |a| - 1;
      assert a[i] in multiset(b);
      var j :| 0 <= j < |b| && b[j] == a[i];
      var a', b' := a[..i] + a[i + 1..], b[..j] + b[j + 1..];
      RemoveAt(a, i);
      RemoveAt(b, j);
      assert multiset(a') == multiset(a) - multiset{a[i]} == multiset(b');
      UnboxPermutation(a', b');
    }
  }

  /** On cached characters the boxes are one shared object per character. */
  lemma {:induction false} CachedCount(s: string, start: nat, c: char)
    requires start > 0 && Cached(s)
    ensures multiset(Boxes(s, start))[Boxed(c, 0)] == multiset(s)[c]
    ensures forall b :: b in multiset(Boxes(s, start)) ==> b.id == 0
  {
    var bs := Boxes(s, start);
    if s != [] {
      var t, x := s[..|s| - 1], s[|s| - 1];
      assert s == t + [x];
      assert Boxes(s, start) == Boxes(t, start) + [Boxed(x, 0)];
      CachedCount(t, start, c);
    }
  }

  /** On cached characters, the boxes are a permutation exactly when the characters are. */
  lemma CachedBoxes(s1: string, s2: string, k1: nat, k2: nat)
    requires k1 > 0 && k2 > 0 && Cached(s1) && Cached(s2)
    ensures multiset(Boxes(s1, k1)) == multiset(Boxes(s2, k2)) <==> multiset(s1) == multiset(s2)
  {
    var b1, b2 := Boxes(s1, k1), Boxes(s2, k2);
    if multiset(s1) == multiset(s2) {
      forall b: Boxed ensures multiset(b1)[b] == multiset(b2)[b] {
        CachedCount(s1, k1, b.c);
        CachedCount(s2, k2, b.c);
      }
    } else {
      BoxedPermutation(s1, s2, k1, k2);
    }
  }

  /** Box objects that are a permutation of each other hold characters that are too. */
  lemma BoxedPermutation(s1: string, s2: string, k1: nat, k2: nat)
    requires k1 > 0 && k2 > 0
    ensures multiset(Boxes(s1, k1)) == multiset(Boxes(s2, k2)) ==> multiset(s1) == multiset(s2)
  {
    if multiset(Boxes(s1, k1)) == multiset(Boxes(s2, k2)) {
      UnboxPermutation(Boxes(s1, k1), Boxes(s2, k2));
      UnboxBoxes(s1, k1);
      UnboxBoxes(s2, k2);
    }
  }

  /**
   * `checkPermutationWithCounter` as written: the table's `add` and `get` compare the
   * boxed keys by reference, so every boxing of a character above 127 is a key of its
   * own. The answer is a permutation test of the box objects: a true answer is always
   * right, and on cached characters every answer is.
   */
  method CheckPermutationAsWritten(s1: string, s2: string) returns (r: bool)
    ensures r <==> |s1| == |s2| && multiset(Boxes(s1, 1)) == multiset(Boxes(s2, |s1| + 1))
    ensures r ==> multiset(s1) == multiset(s2)
    ensures Cached(s1) && Cached(s2) ==> (r <==> multiset(s1) == multiset(s2))
  {
    if |s1| != |s2| {
      assert |multiset(s1)| != |multiset(s2)|;
      return false;
    }
    var up, down := Boxes(s1, 1), Boxes(s2, |s1| + 1);
    var counter := new HashTable<Boxed, int>.Default(BoxHash);
    CountUp(counter, up);
    CountDown(counter, up, down);
    r := AllZero(counter);
    CounterZero(up, down);
    BoxedPermutation(s1, s2, 1, |s1| + 1);
    if Cached(s1) && Cached(s2) {
      CachedBoxes(s1, s2, 1, |s1| + 1);
    }
  }

  /** "é" is a permutation of itself, but its two boxings are different objects. */
  lemma WideBoxesDiffer()
    ensures multiset("é") == multiset("é")
    ensures multiset(Boxes("é", 1)) != multiset(Boxes("é", 2))
  {
    var b := Boxes("é", 1)[0];
    assert b == Boxed('é', 1);
    assert Boxes("é", 2) == [Boxed('é', 2)];
    assert multiset(Boxes("é", 2))[b] == 0;
  }

  /** The source's method answers false for ("é", "é"); comparing keys by value answers true. */
  method WideCharMissed() returns (asWritten: bool, intended: bool)
    ensures !asWritten && intended
  {
    WideBoxesDiffer();
    asWritten := CheckPermutationAsWritten("é", "é");
    intended := CheckPermutationWithCounter("é", "é");
  }

  /** Two strings sort to the same string exactly when they have the same characters. */
  lemma SortsEqual(s1: string, s2: string)
    ensures Sort(s1) == Sort(s2) <==> multiset(s1) == multiset(s2)
  {
    if multiset(s1) == multiset(s2) {
      SortedUnique(Sort(s1), Sort(s2));
    }
  }

  /**
   * `checkPermutationWithSort`: equal lengths, then the two sorted strings
   * compared character by character.
   */
  function CheckPermutationWithSort(s1: string, s2: string): (r: bool)
    ensures r <==> multiset(s1) == multiset(s2)
  {
    if |s1| != |s2| then
      assert |multiset(s1)| != |multiset(s2)|;
      false
    else
      SortsEqual(s1, s2);
      Sort(s1) == Sort(s2)
  }

  lemma NotPermutation()
    ensures multiset("carmina") != multiset("buranas")
  {
    assert "carmina"[0] == 'c' && 'c' !in "buranas";
  }

  /** Exchanging two adjacent blocks permutes a string. */
  lemma SwapBlocks(x: string, a: string, b: string)
    ensures multiset(x + a + b) == multiset(x + b + a)
  {
    assert multiset(x + a + b) == multiset(x) + multiset(a) + multiset(b);
    assert multiset(x + b + a) == multiset(x) + multiset(b) + multiset(a);
  }

  lemma Permutation()
    ensures multiset("moana") == multiset("manao")
  {
    assert "moana" == "m" + "o" + "ana";
    assert "manao" == "m" + "ana" + "o";
    SwapBlocks("m", "o", "ana");
  }

  /** The test cases of the source: "carmina"/"buranas" and "moana"/"manao". */
  method Scenario() returns (a: bool, b: bool, c: bool, d: bool)
    ensures !a && !b && c && d
  {
    NotPermutation();
    a := CheckPermutationWithCounter("carmina", "buranas");
    b := CheckPermutationWithSort("carmina", "buranas");
    Permutation();
    c := CheckPermutationWithCounter("moana", "manao");
    d := CheckPermutationWithSort("moana", "manao");
  }

  /** The test strings of the source have cached characters only. */
  lemma CachedCases()
    ensures Cached("carmina") && Cached("buranas") && Cached("moana") && Cached("manao")
  {
  }

  /** On the source's own test cases the code as written gives the intended answers. */
  method AsWrittenScenario() returns (a: bool, c: bool)
    ensures !a && c
  {
    CachedCases();
    NotPermutation();
    a := CheckPermutationAsWritten("carmina", "buranas");
    Permutation();
    c := CheckPermutationAsWritten("moana", "manao");
  }
}
