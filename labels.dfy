/** The variable handling shared by the satisfiability check and the truth
    tables: the sorted, deduplicated variable letters of a formula, the
    numbering of assignments (the first letter is the most significant
    bit) and the textual substitution of `0` and `1` for the letters. */
module Labels {
  import opened Word
  import opened Rpn

  predicate IsUpper(c: char)
  {
    'A' <= c <= 'Z'
  }

  /** `char::is_ascii_alphabetic` */
  predicate IsAlpha(c: char)
  {
    'A' <= c <= 'Z' || 'a' <= c <= 'z'
  }

  /** Upper case of one character, restricted to ASCII letters. */
  function ToUpper(c: char): (u: char)
    ensures IsAlpha(c) <==> IsUpper(u)
    ensures !('a' <= c <= 'z') ==> u == c
    ensures 'a' <= c <= 'z' ==> u as int == c as int - 32
  {
    if 'a' <= c <= 'z' then (c as int - 32) as char else c
  }

  /** `str::to_uppercase`, restricted to ASCII letters. */
  function Uppercase(s: string): (u: string)
    ensures |u| == |s|
    ensures forall k :: 0 <= k < |s| ==> u[k] == ToUpper(s[k])
  {
    seq(|s|, k requires 0 <= k < |s| => ToUpper(s[k]))
  }


  predicate StrictlySorted(ls: seq<char>)
  {
    forall j, k :: 0 <= j < k < |ls| ==> ls[j] < ls[k]
  }

  /** Insert `c` into a sorted list without duplicates. */
  function Insert(ls: seq<char>, c: char): (r: seq<char>)
    requires StrictlySorted(ls)
    ensures StrictlySorted(r)
    ensures forall x :: x in r <==> x in ls || x == c
    decreases |ls|
  {
    if ls == [] then [c]
    else if c < ls[0] then [c] + ls
    else if c == ls[0] then ls
    else
      var r := Insert(ls[1..], c);
      HeadLeast(ls);
      ConsSorted(ls[0], r);
      [ls[0]] + r
  }

  /** The head of a sorted list is below every later element. */
  lemma HeadLeast(ls: seq<char>)
    requires StrictlySorted(ls) && ls != []
    ensures StrictlySorted(ls[1..])
    ensures forall x :: x in ls[1..] ==> ls[0] < x
  {
    forall x | x in ls[1..]
      ensures ls[0] < x
    {
      var j :| 0 <= j < |ls[1..]| && ls[1..][j] == x;
      assert ls[j + 1] == x;
    }
  }

  /** A letter below every element of a sorted list can go in front. */
  lemma ConsSorted(x: char, r: seq<char>)
    requires StrictlySorted(r)
    requires forall y :: y in r ==> x < y
    ensures StrictlySorted([x] + r)
  {
    var t := [x] + r;
    forall j, k | 0 <= j < k < |t|
      ensures t[j] < t[k]
    {
      assert t[k] == r[k - 1];
      if j > 0 {
        assert t[j] == r[j - 1];
      } else {
        assert r[k - 1] in r;
      }
    }
  }

  /** `sort` followed by `dedup`. */
  function SortDedup(cs: seq<char>): (r: seq<char>)
    ensures StrictlySorted(r)
    ensures forall x :: x in r <==> x in cs
    decreases |cs|
  {
    if cs == [] then []
    else Insert(SortDedup(cs[..|cs| - 1]), cs[|cs| - 1])
  }

  /** The upper-case letters of `s`, in order, repeats kept. */
  function Uppers(s: string): (cs: seq<char>)
    ensures forall x :: x in cs <==> x in s && IsUpper(x)
    decreases |s|
  {
    if s == [] then []
    else Uppers(s[..|s| - 1]) + (if IsUpper(s[|s| - 1]) then [s[|s| - 1]] else [])
  }

  /** The ASCII alphabetic characters of `s`, in order, repeats kept. */
  function Alphabetic(s: string): (cs: seq<char>)
    ensures forall x :: x in cs <==> x in s && IsAlpha(x)
    decreases |s|
  {
    if s == [] then []
    else Alphabetic(s[..|s| - 1]) + (if IsAlpha(s[|s| - 1]) then [s[|s| - 1]] else [])
  }

  /** The variables of a formula: its distinct upper-case letters, sorted. */
  function LabelsOf(s: string): (ls: seq<char>)
    ensures StrictlySorted(ls)
    ensures forall x :: x in ls <==> x in s && IsUpper(x)
  {
    SortDedup(Uppers(s))
  }

  /** A sorted list without duplicates is determined by its members, so
      the variables are the only such list of the formula's letters. */
  lemma {:induction false} SortedUnique(a: seq<char>, b: seq<char>)
    requires StrictlySorted(a) && StrictlySorted(b)
    requires forall x :: x in a <==> x in b
    ensures a == b
    decreases |a|
  {
    if a != [] {
      assert a[0] in b;
    }
    if b != [] {
      assert b[0] in a;
    }
    if a != [] && b != [] {
      HeadLeast(a);
      HeadLeast(b);
      HeadTail(a);
      HeadTail(b);
      assert a[0] == b[0];
      SortedUnique(a[1..], b[1..]);
      assert a == [a[0]] + a[1..] && b == [b[0]] + b[1..];
    }
  }

  /** The members of a non-empty list are its head and those of its tail. */
  lemma HeadTail(ls: seq<char>)
    requires ls != []
    ensures forall x :: x in ls <==> x == ls[0] || x in ls[1..]
  {
    assert ls == [ls[0]] + ls[1..];
  }

  /** In a sorted list of upper-case letters without duplicates the
      letter at position `k` is at least `k` places after 'A'. */
  lemma {:induction false} SortedRise(ls: seq<char>, k: nat)
    requires StrictlySorted(ls) && k < |ls|
    requires forall x :: x in ls ==> IsUpper(x)
    ensures ls[k] as int >= 'A' as int + k
    decreases k
  {
    if k == 0 {
      assert ls[0] in ls;
    } else {
      SortedRise(ls, k - 1);
    }
  }

  /** There are at most 26 variables, so `2u32.pow(l)` and every
      `1 << (l - 1 - n)` fit in a word. */
  lemma LabelsFit(s: string)
    ensures |LabelsOf(s)| <= 26
    ensures Pow2(|LabelsOf(s)|) < Modulus
  {
    var ls := LabelsOf(s);
    if ls != [] {
      SortedRise(ls, |ls| - 1);
      assert ls[|ls| - 1] in ls;
    }
    Pow2Monotone(|ls|, 31);
    Pow2Word();
  }

  /** `str::replace` of one character by a one-character string. */
  function Replace(s: string, c: char, v: char): (r: string)
    ensures |r| == |s|
    ensures forall k :: 0 <= k < |s| ==> r[k] == if s[k] == c then v else s[k]
  {
    seq(|s|, k requires 0 <= k < |s| => if s[k] == c then v else s[k])
  }

  /** The value of variable `n` of `l` in assignment `i`: bit `l - 1 - n`
      of `i`, so the first variable is the most significant bit. */
  function ValueChar(i: nat, l: nat, n: nat): (v: char)
    requires n < l
    ensures v == '0' || v == '1'
  {
    if Bit(i, l - 1 - n) == 1 then '1' else '0'
  }

  /** The formula after the first `n` variables have been replaced, one
      `replace` call after the other. */
  function Substituted(s: string, ls: seq<char>, i: nat, n: nat): (r: string)
    requires n <= |ls|
    ensures |r| == |s|
  {
    if n == 0 then s
    else Replace(Substituted(s, ls, i, n - 1), ls[n - 1], ValueChar(i, |ls|, n - 1))
  }

  /** The formula under assignment `i`. */
  function Assign(s: string, ls: seq<char>, i: nat): (r: string)
    ensures |r| == |s|
  {
    Substituted(s, ls, i, |ls|)
  }

  /** After the first `n` replacements every occurrence of variable `j < n`
      holds its value and every other character is unchanged. */
  lemma {:induction false} SubstitutedAt(s: string, ls: seq<char>, i: nat, n: nat)
    requires StrictlySorted(ls) && forall x :: x in ls ==> IsUpper(x)
    requires n <= |ls|
    ensures forall k, j :: 0 <= k < |s| && 0 <= j < n && s[k] == ls[j] ==>
      Substituted(s, ls, i, n)[k] == ValueChar(i, |ls|, j)
    ensures forall k :: 0 <= k < |s| && s[k] !in ls[..n] ==> Substituted(s, ls, i, n)[k] == s[k]
    decreases n
  {
    if n > 0 {
      SubstitutedAt(s, ls, i, n - 1);
      var prev := Substituted(s, ls, i, n - 1);
      forall k, j | 0 <= k < |s| && 0 <= j < n && s[k] == ls[j]
        ensures Substituted(s, ls, i, n)[k] == ValueChar(i, |ls|, j)
      {
        if j < n - 1 {
          assert ls[n - 1] in ls;
          assert prev[k] != ls[n - 1];
        } else {
          assert s[k] !in ls[..n - 1];
        }
      }
      forall k | 0 <= k < |s| && s[k] !in ls[..n]
        ensures Substituted(s, ls, i, n)[k] == s[k]
      {
        assert ls[..n] == ls[..n - 1] + [ls[n - 1]];
      }
    }
  }

  /** Under assignment `i` every variable occurrence of the formula becomes
      the variable's bit of `i` and every other character stays. */
  lemma AssignAt(s: string, i: nat, k: nat, j: nat)
    requires k < |s| && j < |LabelsOf(s)|
    ensures s[k] == LabelsOf(s)[j] ==> Assign(s, LabelsOf(s), i)[k] == ValueChar(i, |LabelsOf(s)|, j)
    ensures !IsUpper(s[k]) ==> Assign(s, LabelsOf(s), i)[k] == s[k]
  {
    var ls := LabelsOf(s);
    SubstitutedAt(s, ls, i, |ls|);
    assert ls[..|ls|] == ls;
  }

  /** Two formulas of the same shape (constants where the other has
      constants, equal characters elsewhere) reach the same stack height. */
  lemma {:induction false} HeightShape(h: nat, a: string, b: string)
    requires |a| == |b|
    requires forall k :: 0 <= k < |a| ==> (IsConstant(a[k]) && IsConstant(b[k])) || a[k] == b[k]
    ensures Height(h, a) == Height(h, b)
    decreases |a|
  {
    if a != [] {
      if IsConstant(a[0]) {
        HeightShape(h + 1, a[1..], b[1..]);
      } else if a[0] == '!' && h >= 1 {
        HeightShape(h, a[1..], b[1..]);
      } else if IsBinary(a[0]) && h >= 2 {
        HeightShape(h - 1, a[1..], b[1..]);
      }
    }
  }

  /** Every assignment gives the formula the same shape, so either all of
      them are well formed or none is. */
  lemma WellFormedUnderEveryAssignment(s: string, i: nat, i': nat)
    ensures WellFormed(Assign(s, LabelsOf(s), i)) <==> WellFormed(Assign(s, LabelsOf(s), i'))
  {
    var ls := LabelsOf(s);
    var a, b := Assign(s, ls, i), Assign(s, ls, i');
    SubstitutedAt(s, ls, i, |ls|);
    SubstitutedAt(s, ls, i', |ls|);
    assert ls[..|ls|] == ls;
    forall k | 0 <= k < |a|
      ensures (IsConstant(a[k]) && IsConstant(b[k])) || a[k] == b[k]
    {
      if s[k] in ls {
        var j :| 0 <= j < |ls| && ls[j] == s[k];
      }
    }
    HeightShape(0, a, b);
  }

  /** The number of an assignment given as one value per variable, the
      first variable being the most significant bit. */
  function Index(v: seq<bool>): (i: nat)
    ensures i < Pow2(|v|)
    decreases |v|
  {
    if v == [] then 0
    else 2 * Index(v[..|v| - 1]) + (if v[|v| - 1] then 1 else 0)
  }

  /** Every assignment is enumerated: assignment number `Index(v)` gives
      variable `n` the value `v[n]`. */
  lemma {:induction false} IndexBits(v: seq<bool>, n: nat)
    requires n < |v|
    ensures ValueChar(Index(v), |v|, n) == if v[n] then '1' else '0'
    decreases |v|
  {
    var l := |v|;
    var b := if v[l - 1] then 1 else 0;
    if n == l - 1 {
      BitsOfDouble(Index(v[..l - 1]), b, 0);
    } else {
      IndexBits(v[..l - 1], n);
      BitsOfDouble(Index(v[..l - 1]), b, l - 2 - n);
    }
  }

  /** Every assignment of values to the variables is among those tried:
      it is assignment number `Index(v)`, below `2^l`, and it puts `v[j]`
      wherever variable `j` occurs. */
  lemma EveryAssignmentTried(s: string, v: seq<bool>)
    requires |v| == |LabelsOf(s)|
    ensures Index(v) < Pow2(|LabelsOf(s)|)
    ensures forall k, j :: 0 <= k < |s| && 0 <= j < |v| && s[k] == LabelsOf(s)[j] ==>
      Assign(s, LabelsOf(s), Index(v))[k] == if v[j] then '1' else '0'
  {
    forall k, j | 0 <= k < |s| && 0 <= j < |v| && s[k] == LabelsOf(s)[j]
      ensures Assign(s, LabelsOf(s), Index(v))[k] == if v[j] then '1' else '0'
    {
      AssignAt(s, Index(v), k, j);
      IndexBits(v, j);
    }
  }

  /** Filtering the upper-cased formula for ASCII letters, sorting and
      deduplicating gives its variables: after upper-casing, the letters
      are the upper-case ones. */
  lemma UppercaseLabels(s: string)
    ensures SortDedup(Alphabetic(Uppercase(s))) == LabelsOf(Uppercase(s))
  {
    var u := Uppercase(s);
    forall x
      ensures x in SortDedup(Alphabetic(u)) <==> x in LabelsOf(u)
    {
      if x in u {
        var k :| 0 <= k < |u| && u[k] == x;
        assert IsAlpha(x) <==> IsUpper(x) by {
          assert x == ToUpper(s[k]);
        }
      }
    }
    SortedUnique(SortDedup(Alphabetic(u)), LabelsOf(u));
  }
}
