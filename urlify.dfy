/** In-place rewrite of the spaces of a padded character array into "%20". */
module URLify {

  /** The replacement for one character. */
  function Escape(c: char): string
  {
    if c == ' ' then "%20" else [c]
  }

  /** s with every space replaced by "%20". */
  function Urlified(s: string): string
  {
    if s == [] then [] else Escape(s[0]) + Urlified(s[1..])
  }

  /** The number of spaces in s. */
  function Spaces(s: string): nat
  {
    if s == [] then 0 else (if s[0] == ' ' then 1 else 0) + Spaces(s[1..])
  }

  /** Each space grows by two characters, and no space is left. */
  lemma {:induction false} UrlifiedShape(s: string)
    ensures |Urlified(s)| == |s| + 2 * Spaces(s)
    ensures ' ' !in Urlified(s)
  {
    if s != [] {
      assert s == [s[0]] + s[1..];
      UrlifiedShape(s[1..]);
    }
  }

  /** Urlifying distributes over concatenation. */
  lemma {:induction false} UrlifiedAppend(a: string, b: string)
    ensures Urlified(a + b) == Urlified(a) + Urlified(b)
  {
    if a != [] {
      assert (a + b)[1..] == a[1..] + b;
      UrlifiedAppend(a[1..], b);
    } else {
      assert a + b == b;
    }
  }

  lemma {:induction false} SpacesAppend(a: string, b: string)
    ensures Spaces(a + b) == Spaces(a) + Spaces(b)
  {
    if a != [] {
      assert (a + b)[1..] == a[1..] + b;
      SpacesAppend(a[1..], b);
    } else {
      assert a + b == b;
    }
  }

  lemma SpacesSnoc(s: string, c: char)
    ensures Spaces(s + [c]) == Spaces(s) + if c == ' ' then 1 else 0
  {
    SpacesAppend(s, [c]);
  }

  /** The number of spaces in s[..l] and so the length of the rewritten text. */
  method CountSpaces(s: array<char>, l: nat) returns (ns: nat)
    requires l <= s.Length
    ensures ns == Spaces(s[..l])
  {
    ns := 0;
    var i := 0;
    while i < l
      invariant 0 <= i <= l && ns == Spaces(s[..i])
    {
      assert s[..i + 1] == s[..i] + [s[i]];
      SpacesSnoc(s[..i], s[i]);
      if s[i] == ' ' {
        ns := ns + 1;
      }
      i := i + 1;
    }
  }

  /**
   * The state of the back-to-front copy of o[..l] into the n cells of cur:
   * o[ps + 1..l] has been rewritten into cur[pt + 1..n], the cells before it
   * still hold the original text, and the cells from n on are untouched.
   */
  ghost predicate Progress(cur: string, o: string, l: nat, n: nat, ps: int, pt: int)
  {
    && |cur| == |o| && l <= n <= |o| && -1 <= ps < l
    && pt == ps + 2 * Spaces(o[..ps + 1])
    && n - (pt + 1) == l - (ps + 1) + 2 * Spaces(o[ps + 1..l])
    && cur[pt + 1..n] == Urlified(o[ps + 1..l])
    && cur[..pt + 1] == o[..pt + 1]
    && cur[n..] == o[n..]
  }

  /** Moving the source cursor down past o[ps]: the counts and the rewrite of the two sides. */
  lemma Advance(o: string, l: nat, ps: nat)
    requires ps < l <= |o|
    ensures Spaces(o[..ps + 1]) == Spaces(o[..ps]) + if o[ps] == ' ' then 1 else 0
    ensures Spaces(o[ps..l]) == (if o[ps] == ' ' then 1 else 0) + Spaces(o[ps + 1..l])
    ensures Urlified(o[ps..l]) == Escape(o[ps]) + Urlified(o[ps + 1..l])
  {
    assert o[..ps + 1] == o[..ps] + [o[ps]];
    SpacesSnoc(o[..ps], o[ps]);
    assert o[ps..l][1..] == o[ps + 1..l];
  }

  /** Copying a character that is not a space keeps the copy in progress. */
  lemma CopyStep(cur: string, o: string, l: nat, n: nat, ps: int, pt: int)
    requires Progress(cur, o, l, n, ps, pt) && ps >= 0 && o[ps] != ' '
    ensures 0 <= pt < |cur| && Progress(cur[pt := o[ps]], o, l, n, ps - 1, pt - 1)
  {
    Advance(o, l, ps);
    var cur' := cur[pt := o[ps]];
    assert cur'[pt..n] == [o[ps]] + cur[pt + 1..n];
    assert cur'[..pt] == cur[..pt];
  }

  /** Writing "%20" for a space keeps the copy in progress. */
  lemma EscapeStep(cur: string, o: string, l: nat, n: nat, ps: int, pt: int)
    requires Progress(cur, o, l, n, ps, pt) && ps >= 0 && o[ps] == ' '
    ensures 2 <= pt < |cur| && Progress(cur[pt := '0'][pt - 1 := '2'][pt - 2 := '%'], o, l, n, ps - 1, pt - 3)
  {
    Advance(o, l, ps);
    var cur' := cur[pt := '0'][pt - 1 := '2'][pt - 2 := '%'];
    assert cur'[pt - 2..n] == "%20" + cur[pt + 1..n];
    assert cur'[..pt - 2] == cur[..pt - 2];
  }

  /** One pass of the copy loop: character s[ps] is copied, or expanded if a space. */
  method Step(s: array<char>, ghost o: string, ghost l: nat, ghost n: nat, ps: int, pt: int)
    returns (ps': int, pt': int)
    requires Progress(s[..], o, l, n, ps, pt) && ps >= 0
    modifies s
    ensures Progress(s[..], o, l, n, ps', pt') && ps' == ps - 1
  {
    ghost var cur := s[..];
    assert s[ps] == o[ps];
    ps' := ps - 1;
    if s[ps] == ' ' {
      EscapeStep(cur, o, l, n, ps, pt);
      s[pt] := '0';
      s[pt - 1] := '2';
      s[pt - 2] := '%';
      pt' := pt - 3;
      assert s[..] == cur[pt := '0'][pt - 1 := '2'][pt - 2 := '%'];
    } else {
      CopyStep(cur, o, l, n, ps, pt);
      s[pt] := s[ps];
      pt' := pt - 1;
      assert s[..] == cur[pt := o[ps]];
    }
  }

  /**
   * `urlify(s, l)` as written: counts the spaces of s[..l], then copies back to
   * front with a source pointer `ps` and a target pointer `pt`, expanding spaces.
   * The loop stops at `ps > 0`, so a space at s[0] is never expanded: the three
   * cells s[..3] keep their old characters.
   */
  method Urlify(s: array<char>, l: nat) returns (r: string)
    requires l <= s.Length && l + 2 * Spaces(s[..l]) <= s.Length
    modifies s
    ensures r == s[..]
    ensures var n := l + 2 * Spaces(old(s[..l]));
      && s[n..] == old(s[n..])
      && (l == 0 || old(s[0]) != ' ' ==> s[..n] == Urlified(old(s[..l])))
      && (l > 0 && old(s[0]) == ' ' ==> s[..3] == old(s[..3]) && s[3..n] == Urlified(old(s[1..l])))
  {
    var ns := CountSpaces(s, l);
    ghost var o := s[..];
    ghost var n := l + 2 * ns;
    var ps: int := l - 1;
    var pt: int := l - 1 + 2 * ns;
    assert o[..l] == s[..l] && o[l..l] == [];
    while ps > 0
      invariant Progress(s[..], o, l, n, ps, pt) && (l > 0 ==> 0 <= ps)
    {
      ps, pt := Step(s, o, l, n, ps, pt);
    }
    if l > 0 {
      assert o[..1] == [o[0]];
      assert o[..l] == [o[0]] + o[1..l];
      if o[0] != ' ' {
        assert s[..n] == s[..pt + 1] + s[pt + 1..n];
      } else {
        assert s[..3] == s[..pt + 1];
      }
    }
    r := s[..];
  }

  /**
   * The same rewrite with the loop running down to `ps >= 0`, so that a leading
   * space is expanded too.
   */
  method UrlifyFixed(s: array<char>, l: nat) returns (r: string)
    requires l <= s.Length && l + 2 * Spaces(s[..l]) <= s.Length
    modifies s
    ensures r == s[..]
    ensures var n := l + 2 * Spaces(old(s[..l]));
      s[..n] == Urlified(old(s[..l])) && s[n..] == old(s[n..])
  {
    var ns := CountSpaces(s, l);
    ghost var o := s[..];
    ghost var n := l + 2 * ns;
    var ps: int := l - 1;
    var pt: int := l - 1 + 2 * ns;
    assert o[..l] == s[..l] && o[l..l] == [];
    while ps >= 0
      invariant Progress(s[..], o, l, n, ps, pt)
    {
      ps, pt := Step(s, o, l, n, ps, pt);
    }
    assert o[..0] == [];
    r := s[..];
  }

  /** The rewrite as written leaves " a" (padded to four cells) as " a" + '\0' + "a", not "%20a". */
  lemma LeadingSpaceNotExpanded()
    ensures var o := " a\0\0";
      var n := 2 + 2 * Spaces(o[..2]);
      n == 4 && o[..3] + Urlified(o[1..2]) == " a\0a" && Urlified(o[..2]) == "%20a"
  {
    var o := " a\0\0";
    assert o[..2] == " a" && o[1..2] == "a";
    assert Spaces(" a") == 1 by {
      assert " a"[1..] == "a" && "a"[1..] == [];
    }
  }

  /** Text without spaces has none to count and is left as it is. */
  lemma {:induction false} Plain(s: string)
    requires ' ' !in s
    ensures Spaces(s) == 0 && Urlified(s) == s
  {
    if s != [] {
      assert s[0] != ' ' && ' ' !in s[1..];
      Plain(s[1..]);
    }
  }

  lemma ExampleHead()
    ensures Spaces("Mr John") == 1 && Urlified("Mr John") == "Mr%20John"
  {
    assert "Mr John" == "Mr" + " John";
    assert " John"[1..] == "John";
    Plain("Mr");
    Plain("John");
    SpacesAppend("Mr", " John");
    UrlifiedAppend("Mr", " John");
  }

  lemma ExampleTail()
    ensures Spaces(" Smith") == 1 && Urlified(" Smith") == "%20Smith"
  {
  }

  /** The text of the source's test case and its expected rewrite. */
  lemma ExampleText()
    ensures Spaces("Mr John" + " Smith") == 2
    ensures Urlified("Mr John" + " Smith") == "Mr%20John%20Smith"
  {
    ExampleHead();
    ExampleTail();
    assert "Mr%20John" + "%20Smith" == "Mr%20John%20Smith";
    SpacesAppend("Mr John", " Smith");
    UrlifiedAppend("Mr John", " Smith");
  }

  /** The test case of the source: "Mr John Smith" with four cells of padding. */
  method Scenario() returns (r: string, fixed: string)
    ensures r == "Mr%20John%20Smith" && fixed == r
  {
    var s := new char[] ['M', 'r', ' ', 'J', 'o', 'h', 'n', ' ', 'S', 'm', 'i', 't', 'h', '\0', '\0', '\0', '\0'];
    var t := new char[] ['M', 'r', ' ', 'J', 'o', 'h', 'n', ' ', 'S', 'm', 'i', 't', 'h', '\0', '\0', '\0', '\0'];
    assert s[..13] == "Mr John" + " Smith" && t[..13] == "Mr John" + " Smith";
    ExampleText();
    r := Urlify(s, 13);
    fixed := UrlifyFixed(t, 13);
  }
}
