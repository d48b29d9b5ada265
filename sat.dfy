/** Brute-force satisfiability: try the assignments in order, build the
    tree of each substituted formula and stop at the first one that
    evaluates to true. */
module Sat {
  import opened Wrappers
  import opened Word
  import opened Rpn
  import opened Labels
  import opened BoolRpnTree
  import opened Enumeration

  /** The search from assignment `i` up to `n`: the first panic or the
      first true row ends it. */
  function SatFrom(s: string, i: nat, n: nat): Result<bool, Panic>
    decreases n - i
  {
    if i >= n then Ok(false)
    else
      match Row(TreeBuilder, s, i)
      case Fail(e) => Fail(e)
      case Ok(true) => Ok(true)
      case Ok(false) => SatFrom(s, i + 1, n)
  }

  function SatSpec(s: string): Result<bool, Panic>
  {
    SatFrom(s, 0, Pow2(|LabelsOf(s)|))
  }

  /** `sat` */
  method Sat(formula: string) returns (r: Result<bool, Panic>)
    ensures r == SatSpec(formula)
  {
    var labels := LabelsOf(formula);
    var l := |labels|;
    LabelsFit(formula);
    for i := 0 to Pow2(l)
      invariant SatSpec(formula) == SatFrom(formula, i, Pow2(l))
    {
      var current := formula;
      for n := 0 to l
        invariant current == Substituted(formula, labels, i, n)
      {
        MaskBit(i, l - 1 - n);
        var val := if And(i, Shl(1, l - 1 - n)) != 0 then '1' else '0';
        current := Replace(current, labels[n], val);
      }
      var tree := FromStr(current);
      match tree
      case Fail(e) =>
        return Fail(e);
      case Ok(t) =>
        if t.Result() {
          return Ok(true);
        }
    }
    return Ok(false);
  }

  /** When every row from `i` on evaluates, the search answers whether one
      of them is true. */
  lemma {:induction false} SatFromAnswers(s: string, i: nat, n: nat)
    requires forall j :: i <= j < n ==> Row(TreeBuilder, s, j).Ok?
    ensures SatFrom(s, i, n) == Ok(exists j :: i <= j < n && Row(TreeBuilder, s, j) == Ok(true))
    decreases n - i
  {
    if i < n {
      SatFromAnswers(s, i + 1, n);
      if Row(TreeBuilder, s, i) == Ok(false) {
        assert forall j :: i <= j < n && Row(TreeBuilder, s, j) == Ok(true) ==> i + 1 <= j;
      }
    }
  }

  /** `sat` panics exactly when the substituted formula is malformed, and
      otherwise it is true exactly when some assignment makes the formula
      true. */
  lemma SatMeaning(s: string)
    ensures SatSpec(s).Fail? <==> !WellFormed(Assign(s, LabelsOf(s), 0))
    ensures SatSpec(s) == Ok(true) <==> exists i :: 0 <= i < Pow2(|LabelsOf(s)|) && Row(TreeBuilder, s, i) == Ok(true)
  {
    var n := Pow2(|LabelsOf(s)|);
    forall j | 0 <= j < n
      ensures Row(TreeBuilder, s, j).Ok? <==> WellFormed(Assign(s, LabelsOf(s), 0))
    {
      RowOk(TreeBuilder, s, j);
    }
    if WellFormed(Assign(s, LabelsOf(s), 0)) {
      SatFromAnswers(s, 0, n);
    } else {
      assert Row(TreeBuilder, s, 0).Fail?;
    }
  }

  /** The first test vector: "AB|" is satisfied by A = 0, B = 1. */
  lemma VectorOr()
    ensures SatSpec("AB|") == Ok(true)
  {
    var s := "AB|";
    TwoLabels(s);
    AssignOr();
    assert Row(TreeBuilder, s, 0) == Ok(false);
    assert Row(TreeBuilder, s, 1) == Ok(true);
    assert Pow2(2) == 4;
    assert SatFrom(s, 1, 4) == Ok(true);
  }

  lemma TwoLabels(s: string)
    requires forall x :: x in s && IsUpper(x) <==> x in ['A', 'B']
    ensures LabelsOf(s) == ['A', 'B']
  {
    SortedUnique(LabelsOf(s), ['A', 'B']);
  }

  lemma AssignOr()
    ensures Assign("AB|", ['A', 'B'], 0) == "00|"
    ensures Assign("AB|", ['A', 'B'], 1) == "01|"
  {
    var s, ls := "AB|", ['A', 'B'];
    assert Shr(0, 1) == 0 && Shr(1, 1) == 0;
    assert Bit(0, 1) == 0 && Bit(0, 0) == 0 && Bit(1, 1) == 0 && Bit(1, 0) == 1;
    assert Substituted(s, ls, 0, 1) == "0B|";
    assert Substituted(s, ls, 1, 1) == "0B|";
  }

  /** The vector "AA^": a letter xor itself is never true. */
  lemma VectorXorSelf()
    ensures SatSpec("AA^") == Ok(false)
  {
    var s := "AA^";
    OneLabel(s);
    AssignXorSelf();
    assert Row(TreeBuilder, s, 0) == Ok(false);
    assert Row(TreeBuilder, s, 1) == Ok(false);
    assert Pow2(1) == 2;
    assert SatFrom(s, 1, 2) == Ok(false);
  }

  lemma OneLabel(s: string)
    requires forall x :: x in s && IsUpper(x) <==> x == 'A'
    ensures LabelsOf(s) == ['A']
  {
    SortedUnique(LabelsOf(s), ['A']);
  }

  lemma AssignXorSelf()
    ensures Assign("AA^", ['A'], 0) == "00^"
    ensures Assign("AA^", ['A'], 1) == "11^"
  {
    assert Bit(0, 0) == 0 && Bit(1, 0) == 1;
  }

  /** The vector "AB&": satisfied only by A = 1, B = 1, the last row. */
  lemma VectorAnd()
    ensures SatSpec("AB&") == Ok(true)
  {
    var s := "AB&";
    TwoLabels(s);
    AndRows();
    assert Pow2(2) == 4;
    assert SatFrom(s, 3, 4) == Ok(true);
    assert SatFrom(s, 2, 4) == Ok(true);
    assert SatFrom(s, 1, 4) == Ok(true);
  }

  lemma AndRows()
    ensures Row(TreeBuilder, "AB&", 0) == Ok(false) && Row(TreeBuilder, "AB&", 1) == Ok(false)
    ensures Row(TreeBuilder, "AB&", 2) == Ok(false) && Row(TreeBuilder, "AB&", 3) == Ok(true)
  {
    TwoLabels("AB&");
    AssignAnd();
  }

  lemma AssignAnd()
    ensures Assign("AB&", ['A', 'B'], 0) == "00&"
    ensures Assign("AB&", ['A', 'B'], 1) == "01&"
    ensures Assign("AB&", ['A', 'B'], 2) == "10&"
    ensures Assign("AB&", ['A', 'B'], 3) == "11&"
  {
    var s, ls := "AB&", ['A', 'B'];
    assert Shr(0, 1) == 0 && Shr(1, 1) == 0 && Shr(2, 1) == 1 && Shr(3, 1) == 1;
    assert Bit(0, 1) == 0 && Bit(1, 1) == 0 && Bit(2, 1) == 1 && Bit(3, 1) == 1;
    assert Bit(0, 0) == 0 && Bit(1, 0) == 1 && Bit(2, 0) == 0 && Bit(3, 0) == 1;
    assert Substituted(s, ls, 0, 1) == "0B&";
    assert Substituted(s, ls, 1, 1) == "0B&";
    assert Substituted(s, ls, 2, 1) == "1B&";
    assert Substituted(s, ls, 3, 1) == "1B&";
  }

  /** The vector "AA!&": a letter and its negation is never true. */
  lemma VectorContradiction()
    ensures SatSpec("AA!&") == Ok(false)
  {
    var s := "AA!&";
    OneLabel(s);
    AssignContradiction();
    assert Row(TreeBuilder, s, 0) == Ok(false);
    assert Row(TreeBuilder, s, 1) == Ok(false);
    assert Pow2(1) == 2;
    assert SatFrom(s, 1, 2) == Ok(false);
  }

  lemma AssignContradiction()
    ensures Assign("AA!&", ['A'], 0) == "00!&"
    ensures Assign("AA!&", ['A'], 1) == "11!&"
  {
    assert Bit(0, 0) == 0 && Bit(1, 0) == 1;
  }
}
