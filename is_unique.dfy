/** Three ways of deciding whether a string has no repeated character. */
module IsUnique {
  import opened Sorting

  /** No character occurs twice. */
  ghost predicate Distinct(s: string)
  {
    forall i, j :: 0 <= i < j < |s| ==> s[i] != s[j]
  }

  /** A string with one more character is distinct exactly when the rest is and the new one is not in it. */
  lemma DistinctSnoc(t: string, x: char)
    ensures Distinct(t + [x]) <==> Distinct(t) && x !in t
  {
    var s := t + [x];
    if Distinct(s) {
      forall i, j | 0 <= i < j < |t| ensures t[i] != t[j] {
        assert s[i] == t[i] && s[j] == t[j];
      }
      forall k | 0 <= k < |t| ensures t[k] != x {
        assert s[k] == t[k] && s[|t|] == x;
      }
    }
  }

  // ---------------------------------------------------------------------------
  // isUniqueWithSet
  // ---------------------------------------------------------------------------

  /** The set the first loop builds: the characters of s, added one by one. */
  function Chars(s: string): set<char>
  {
    if s == [] then {} else Chars(s[..|s| - 1]) + {s[|s| - 1]}
  }

  /**
   * The set holds the characters of s and no others, is never larger than s,
   * and is exactly as large as s when no character repeats.
   */
  lemma {:induction false} CharsCount(s: string)
    ensures forall c :: c in Chars(s) <==> c in s
    ensures |Chars(s)| <= |s|
    ensures |Chars(s)| == |s| <==> Distinct(s)
  {
    if s != [] {
      var t, x := s[..|s| - 1], s[|s| - 1];
      assert s == t + [x];
      CharsCount(t);
      DistinctSnoc(t, x);
      forall c ensures c in s <==> c in t || c == x {
        if c in s && c != x {
          var k :| 0 <= k < |s| && s[k] == c;
          assert t[k] == c;
        }
      }
    }
  }

  lemma CharsStep(s: string, i: nat)
    requires i < |s|
    ensures Chars(s[..i + 1]) == Chars(s[..i]) + {s[i]}
  {
    assert s[..i + 1][..i] == s[..i];
  }

  /** `isUniqueWithSet`: every character goes into a set, which is then as large as s. */
  method IsUniqueWithSet(s: string) returns (r: bool)
    ensures r <==> Distinct(s)
  {
    var seen: set<char> := {};
    var i := 0;
    assert s[..0] == [];
    while i < |s|
      invariant 0 <= i <= |s| && seen == Chars(s[..i])
    {
      CharsStep(s, i);
      seen := seen + {s[i]};
      i := i + 1;
    }
    assert s[..i] == s;
    CharsCount(s);
    r := |seen| == |s|;
  }

  // ---------------------------------------------------------------------------
  // isUniqueWithBitmap
  // ---------------------------------------------------------------------------

  /** Every character fits the 256 entries of the bitmap. */
  predicate Narrow(s: string)
  {
    forall i :: 0 <= i < |s| ==> s[i] as int < 256
  }

  /** The bitmap marks exactly the characters of t. */
  ghost predicate Marks(b: seq<bool>, t: string)
  {
    |b| == 256 && forall c: char :: c as int < 256 ==> (b[c as int] <==> c in t)
  }

  /** Marking x records one more character. */
  lemma MarkStep(b: seq<bool>, t: string, x: char)
    requires Marks(b, t) && x as int < 256
    ensures Marks(b[x as int := true], t + [x])
  {
    forall c: char | c as int < 256 ensures b[x as int := true][c as int] <==> c in t + [x] {
      if c in t + [x] && c != x {
        var k :| 0 <= k < |t + [x]| && (t + [x])[k] == c;
        assert t[k] == c;
      }
    }
  }

  /**
   * `isUniqueWithBitmap`: a 256-entry bitmap of the characters seen so far; a character
   * already marked is a repeat. The source assumes every character is below 256.
   */
  method IsUniqueWithBitmap(s: string) returns (r: bool)
    requires Narrow(s)
    ensures r <==> Distinct(s)
  {
    var bitmap := new bool[256](_ => false);
    var i := 0;
    assert s[..0] == [];
    while i < |s|
      invariant 0 <= i <= |s|
      invariant Marks(bitmap[..], s[..i]) && Distinct(s[..i])
    {
      var chr := s[i] as int;
      assert s[..i + 1] == s[..i] + [s[i]];
      DistinctSnoc(s[..i], s[i]);
      if bitmap[chr] {
        RepeatIsFinal(s, i + 1);
        return false;
      }
      MarkStep(bitmap[..], s[..i], s[i]);
      bitmap[chr] := true;
      i := i + 1;
    }
    assert s[..i] == s;
    return true;
  }

  /** A prefix with a repeat leaves the whole string with one. */
  lemma RepeatIsFinal(s: string, n: nat)
    requires n <= |s| && !Distinct(s[..n])
    ensures !Distinct(s)
  {
    var i, j :| 0 <= i < j < n && s[..n][i] == s[..n][j];
    assert s[i] == s[j];
  }

  // ---------------------------------------------------------------------------
  // isUniqueWithSort
  // ---------------------------------------------------------------------------

  /** Each character occurs at most once, counted by the multiset. */
  lemma {:induction false} DistinctCounts(s: string)
    ensures Distinct(s) <==> forall c :: multiset(s)[c] <= 1
  {
    if s != [] {
      var t, x := s[..|s| - 1], s[|s| - 1];
      assert s == t + [x];
      DistinctCounts(t);
      DistinctSnoc(t, x);
      assert multiset(s) == multiset(t) + multiset{x};
      if forall c :: multiset(s)[c] <= 1 {
        forall c ensures multiset(t)[c] <= 1 {
          assert multiset(s)[c] >= multiset(t)[c];
        }
        assert multiset(s)[x] == multiset(t)[x] + 1;
      }
    } else {
      forall c ensures multiset(s)[c] <= 1 {
        assert multiset(s) == multiset{};
      }
    }
  }

  /** Reordering the characters does not make or remove a repeat. */
  lemma DistinctPermutation(a: string, b: string)
    requires multiset(a) == multiset(b)
    ensures Distinct(a) <==> Distinct(b)
  {
    DistinctCounts(a);
    DistinctCounts(b);
  }

  /** No two neighbours among the first n + 1 characters are equal. */
  ghost predicate NeighboursDiffer(a: string, n: nat)
  {
    forall k :: 0 <= k < n && k + 1 < |a| ==> a[k] != a[k + 1]
  }

  /** A sorted string repeats a character exactly when two neighbours are equal. */
  lemma SortedNeighbours(a: string)
    requires Sorted(a)
    ensures Distinct(a) <==> NeighboursDiffer(a, |a|)
  {
    if NeighboursDiffer(a, |a|) {
      forall i, j | 0 <= i < j < |a| ensures a[i] != a[j] {
        assert a[i] != a[i + 1] && a[i] <= a[i + 1] <= a[j];
      }
    }
  }

  /**
   * `isUniqueWithSort`: the sorted characters, scanned for two equal neighbours.
   * With fewer than two characters there is nothing to compare.
   */
  method IsUniqueWithSort(s: string) returns (r: bool)
    ensures r <==> Distinct(s)
  {
    var arr := Sort(s);
    SortedNeighbours(arr);
    DistinctPermutation(arr, s);
    var i := 0;
    while i + 1 < |arr|
      invariant 0 <= i <= |arr|
      invariant NeighboursDiffer(arr, i)
    {
      if arr[i] == arr[i + 1] {
        return false;
      }
      i := i + 1;
    }
    return true;
  }

  /** The three tests agree wherever the bitmap one applies. */
  method Agree(s: string) returns (a: bool, b: bool, c: bool)
    requires Narrow(s)
    ensures a == b == c
  {
    a := IsUniqueWithSet(s);
    b := IsUniqueWithBitmap(s);
    c := IsUniqueWithSort(s);
  }

  lemma Repeats()
    ensures !Distinct("javadoc")
  {
    assert "javadoc"[1] == "javadoc"[3];
  }

  lemma NoRepeats()
    ensures Distinct("python")
  {
  }

  /** The test cases of the source: "javadoc" has a repeat, "python" has none. */
  method Scenario() returns (a: bool, b: bool, c: bool, d: bool, e: bool, f: bool)
    ensures !a && !b && !c && d && e && f
  {
    Repeats();
    a := IsUniqueWithSet("javadoc");
    b := IsUniqueWithBitmap("javadoc");
    c := IsUniqueWithSort("javadoc");
    NoRepeats();
    d := IsUniqueWithSet("python");
    e := IsUniqueWithBitmap("python");
    f := IsUniqueWithSort("python");
  }
}
