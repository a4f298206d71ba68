/** The meaning of `collections.StringBuilder`: fragments joined by a separator. */
module Joins {

  /** The fragments with `sep` strictly between consecutive ones, never leading or trailing. */
  function Join(fs: seq<string>, sep: string): string
  {
    if |fs| == 0 then ""
    else if |fs| == 1 then fs[0]
    else Join(fs[..|fs| - 1], sep) + sep + fs[|fs| - 1]
  }

  /** Plain concatenation of the fragments. */
  function Concat(fs: seq<string>): string
  {
    if |fs| == 0 then "" else Concat(fs[..|fs| - 1]) + fs[|fs| - 1]
  }

  /** The sum of the fragment lengths (the builder's `length` field). */
  function TotalLength(fs: seq<string>): nat
  {
    if |fs| == 0 then 0 else TotalLength(fs[..|fs| - 1]) + |fs[|fs| - 1]|
  }

  /** `show` applied to every element, in order. */
  function Shown<T>(xs: seq<T>, show: T -> string): seq<string>
  {
    seq(|xs|, i requires 0 <= i < |xs| => show(xs[i]))
  }

  /** Rendering one more element of xs adds its rendering at the end. */
  lemma ShownStep<T>(xs: seq<T>, p: nat, show: T -> string)
    requires p < |xs|
    ensures Shown(xs[..p + 1], show) == Shown(xs[..p], show) + [show(xs[p])]
  {
  }

  lemma TotalLengthSnoc(fs: seq<string>, f: string)
    ensures TotalLength(fs + [f]) == TotalLength(fs) + |f|
  {
    assert (fs + [f])[..|fs|] == fs;
  }

  /** A join of n fragments is their total length plus n - 1 separators long. */
  lemma {:induction false} JoinLength(fs: seq<string>, sep: string)
    requires |fs| > 0
    ensures |Join(fs, sep)| == TotalLength(fs) + |sep| * (|fs| - 1)
  {
    if |fs| > 1 {
      JoinLength(fs[..|fs| - 1], sep);
      assert |sep| * (|fs| - 1) == |sep| * (|fs| - 2) + |sep|;
    }
  }

  /** Splitting the fragments at any inner point splits the join at one separator. */
  lemma {:induction false} JoinSplit(fs: seq<string>, sep: string, k: nat)
    requires 0 < k < |fs|
    ensures Join(fs, sep) == Join(fs[..k], sep) + sep + Join(fs[k..], sep)
  {
    var n := |fs|;
    if k == n - 1 {
      assert fs[k..] == [fs[n - 1]];
    } else {
      var init := fs[..n - 1];
      JoinSplit(init, sep, k);
      assert init[..k] == fs[..k];
      assert init[k..] == fs[k..n - 1];
      assert fs[k..][..n - k - 1] == fs[k..n - 1];
      assert fs[k..][n - k - 1] == fs[n - 1];
    }
  }

  /** With the empty separator a join is plain concatenation. */
  lemma {:induction false} JoinEmptySeparator(fs: seq<string>)
    ensures Join(fs, "") == Concat(fs)
  {
    if |fs| > 1 {
      JoinEmptySeparator(fs[..|fs| - 1]);
    } else if |fs| == 1 {
      assert fs[..0] == [];
    }
  }
}
