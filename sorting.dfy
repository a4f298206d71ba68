/**
 * `java.util.Arrays.sort` on a `char[]`, abstracted as "the sorted permutation".
 * Any algorithm producing a sorted permutation gives the same result (SortedUnique),
 * so the insertion sort below stands for the library's.
 */
module Sorting {

  ghost predicate Sorted(s: seq<char>)
  {
    forall i, j :: 0 <= i < j < |s| ==> s[i] <= s[j]
  }

  /** A lower bound of s and of c bounds every element of a permutation of s with c added. */
  lemma LowerBound(x: char, c: char, s: seq<char>, r: seq<char>)
    requires x <= c && forall i :: 0 <= i < |s| ==> x <= s[i]
    requires multiset(r) == multiset(s) + multiset{c}
    ensures forall i :: 0 <= i < |r| ==> x <= r[i]
  {
    forall i | 0 <= i < |r| ensures x <= r[i] {
      assert r[i] in multiset(r);
      if r[i] != c {
        assert r[i] in multiset(s);
        var j :| 0 <= j < |s| && s[j] == r[i];
      }
    }
  }

  function Insert(c: char, s: seq<char>): (r: seq<char>)
    requires Sorted(s)
    ensures Sorted(r) && multiset(r) == multiset(s) + multiset{c}
  {
    if s == [] then [c]
    else if c <= s[0] then [c] + s
    else
      assert s == [s[0]] + s[1..];
      SortedTail(s);
      var rest := Insert(c, s[1..]);
      LowerBound(s[0], c, s[1..], rest);
      SortedCons(s[0], rest);
      [s[0]] + rest
  }

  /** A lower bound of a sorted sequence can be put in front of it. */
  lemma SortedCons(x: char, r: seq<char>)
    requires Sorted(r) && forall i :: 0 <= i < |r| ==> x <= r[i]
    ensures Sorted([x] + r)
  {
    forall i, j | 0 <= i < j < |r| + 1 ensures ([x] + r)[i] <= ([x] + r)[j] {
      if i > 0 {
        assert ([x] + r)[i] == r[i - 1];
      }
      assert ([x] + r)[j] == r[j - 1];
    }
  }

  /** The characters of s in ascending order. */
  function Sort(s: seq<char>): (r: seq<char>)
    ensures Sorted(r) && multiset(r) == multiset(s)
  {
    if s == [] then []
    else
      assert s == [s[0]] + s[1..];
      Insert(s[0], Sort(s[1..]))
  }

  lemma HeadIsLeast(a: seq<char>, x: char)
    requires Sorted(a) && x in multiset(a)
    ensures a[0] <= x
  {
    var i :| 0 <= i < |a| && a[i] == x;
  }

  lemma SortedTail(a: seq<char>)
    requires Sorted(a) && a != []
    ensures Sorted(a[1..])
  {
    forall i, j | 0 <= i < j < |a| - 1 ensures a[1..][i] <= a[1..][j] {
      assert a[1..][i] == a[i + 1] && a[1..][j] == a[j + 1];
    }
  }

  /** Removing the same first element from two permutations leaves permutations. */
  lemma SameTails(a: seq<char>, b: seq<char>)
    requires a != [] && b != [] && a[0] == b[0] && multiset(a) == multiset(b)
    ensures multiset(a[1..]) == multiset(b[1..])
  {
    assert a == [a[0]] + a[1..];
    assert b == [b[0]] + b[1..];
    assert multiset(a) == multiset{a[0]} + multiset(a[1..]);
    assert multiset(b) == multiset{b[0]} + multiset(b[1..]);
    forall x ensures multiset(a[1..])[x] == multiset(b[1..])[x] {
      assert multiset(a)[x] == multiset{a[0]}[x] + multiset(a[1..])[x];
      assert multiset(b)[x] == multiset{a[0]}[x] + multiset(b[1..])[x];
    }
  }

  /** Two sorted sequences with the same elements are equal: sorting has one answer. */
  lemma {:induction false} SortedUnique(a: seq<char>, b: seq<char>)
    requires Sorted(a) && Sorted(b) && multiset(a) == multiset(b)
    ensures a == b
  {
    if a == [] || b == [] {
      assert |multiset(a)| == |a| && |multiset(b)| == |b|;
    } else {
      HeadIsLeast(a, b[0]);
      HeadIsLeast(b, a[0]);
      SortedTail(a);
      SortedTail(b);
      SameTails(a, b);
      SortedUnique(a[1..], b[1..]);
      assert a == [a[0]] + a[1..] && b == [b[0]] + b[1..];
    }
  }
}
