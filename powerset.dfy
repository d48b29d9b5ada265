/** The fold-based power set: starting from the single empty subset, each
    element of the input appends a copy of every subset so far with the
    element pushed at its end. */
module Powerset {
  import opened Word

  /** The subsets in the order the fold lists them: those of all but the
      last element, then the same ones again with the last element added. */
  function Subsets(s: seq<int>): (ps: seq<seq<int>>)
    ensures |ps| == Pow2(|s|)
    decreases |s|
  {
    if s == [] then [[]]
    else
      var p := Subsets(s[..|s| - 1]);
      p + seq(|p|, k requires 0 <= k < |p| => p[k] + [s[|s| - 1]])
  }

  /** The subset that index `k` stands for when read as a bit mask: element
      `j` is in it exactly when bit `j` of `k` is set, and the chosen
      elements keep their input order. */
  function Select(s: seq<int>, k: nat): (t: seq<int>)
    ensures |t| <= |s|
    decreases |s|
  {
    if s == [] then []
    else
      var h := Pow2(|s| - 1);
      Select(s[..|s| - 1], k % h) + (if (k / h) % 2 == 1 then [s[|s| - 1]] else [])
  }

  /** `t` is `s` with some elements deleted. */
  predicate Subsequence(t: seq<int>, s: seq<int>)
    decreases |s|
  {
    if t == [] then true
    else if s == [] then false
    else if t[|t| - 1] == s[|s| - 1] && Subsequence(t[..|t| - 1], s[..|s| - 1]) then true
    else Subsequence(t, s[..|s| - 1])
  }

  /** `powerset`: the outer loop is the fold over the input, the inner one
      the cloning map whose results are appended in place. */
  method Powerset(input: seq<int>) returns (ps: seq<seq<int>>)
    ensures ps == Subsets(input)
  {
    ps := [[]];
    for i := 0 to |input|
      invariant ps == Subsets(input[..i])
    {
      var value := input[i];
      var added: seq<seq<int>> := [];
      for j := 0 to |ps|
        invariant added == seq(j, k requires 0 <= k < j => ps[k] + [value])
      {
        added := added + [ps[j] + [value]];
      }
      assert input[..i + 1][..i] == input[..i];
      ps := ps + added;
    }
    assert input[..|input|] == input;
  }

  /** The `k`-th subset is the one `k` selects as a bit mask, so the list
      holds every combination of elements exactly once. */
  lemma {:induction false} SubsetsSelect(s: seq<int>, k: nat)
    requires k < Pow2(|s|)
    ensures Subsets(s)[k] == Select(s, k)
    decreases |s|
  {
    if s != [] {
      var h := Pow2(|s| - 1);
      TopBit(k, h);
      if k < h {
        SubsetsSelect(s[..|s| - 1], k);
      } else {
        SubsetsSelect(s[..|s| - 1], k - h);
      }
    }
  }

  /** Below `2h`, the bit worth `h` is set exactly from `h` on. */
  lemma TopBit(k: int, h: int)
    requires 0 <= k < 2 * h
    ensures k < h ==> k % h == k && k / h == 0
    ensures h <= k ==> k % h == k - h && k / h == 1
  {
  }

  /** The first subset is the empty one. */
  lemma {:induction false} FirstIsEmpty(s: seq<int>)
    ensures Subsets(s)[0] == []
    decreases |s|
  {
    if s != [] {
      FirstIsEmpty(s[..|s| - 1]);
    }
  }

  /** The last subset is the whole input. */
  lemma {:induction false} LastIsWhole(s: seq<int>)
    ensures Subsets(s)[Pow2(|s|) - 1] == s
    decreases |s|
  {
    if s != [] {
      var s' := s[..|s| - 1];
      LastIsWhole(s');
      assert s' + [s[|s| - 1]] == s;
    }
  }

  /** Deleting the last element of the input keeps a subsequence one. */
  lemma {:induction false} SubsequenceExtend(t: seq<int>, s: seq<int>, x: int)
    requires Subsequence(t, s)
    ensures Subsequence(t, s + [x])
  {
    assert (s + [x])[..|s + [x]| - 1] == s;
  }

  /** Every subset lists some of the input's elements in input order. */
  lemma {:induction false} SubsetsAreSubsequences(s: seq<int>, k: nat)
    requires k < Pow2(|s|)
    ensures Subsequence(Subsets(s)[k], s)
    decreases |s|
  {
    if s != [] {
      var s' := s[..|s| - 1];
      var x := s[|s| - 1];
      var h := Pow2(|s| - 1);
      assert s' + [x] == s;
      if k < h {
        SubsetsAreSubsequences(s', k);
        SubsequenceExtend(Subsets(s')[k], s', x);
      } else {
        SubsetsAreSubsequences(s', k - h);
        var t := Subsets(s')[k - h] + [x];
        assert t[..|t| - 1] == Subsets(s')[k - h];
      }
    }
  }
}
